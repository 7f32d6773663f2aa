/**
 * The helpers of src/services/utils.js that the engine uses: the clamped
 * one-step moves, the random pick from a list and the in-place cell write.
 */
module Utils {
  import opened GameUtils

  datatype Option<T> = None | Some(value: T)

  /** `getLeftLocation`: one column to the left, never below column 0. */
  function LeftLocation(loc: Location): (r: Location)
    ensures r.row == loc.row && r.col >= 0
    ensures loc.col >= 1 ==> r.col == loc.col - 1
    ensures loc.col <= 1 ==> r.col == 0
  {
    Location(loc.row, Max(loc.col - 1, 0))
  }

  /** `getRightLocation`: one column to the right, never past the last column. */
  function RightLocation(loc: Location, dimensions: Dimensions): (r: Location)
    ensures r.row == loc.row && r.col <= dimensions.width - 1
    ensures loc.col + 1 <= dimensions.width - 1 ==> r.col == loc.col + 1
    ensures loc.col + 1 >= dimensions.width - 1 ==> r.col == dimensions.width - 1
  {
    Location(loc.row, Min(loc.col + 1, dimensions.width - 1))
  }

  /** `getUpLocation`: one row up, never above row 0. */
  function UpLocation(loc: Location): (r: Location)
    ensures r.col == loc.col && r.row >= 0
    ensures loc.row >= 1 ==> r.row == loc.row - 1
    ensures loc.row <= 1 ==> r.row == 0
  {
    Location(Max(loc.row - 1, 0), loc.col)
  }

  /** `getDownLocation`: one row down, never past the last row. */
  function DownLocation(loc: Location, dimensions: Dimensions): (r: Location)
    ensures r.col == loc.col && r.row <= dimensions.height - 1
    ensures loc.row + 1 <= dimensions.height - 1 ==> r.row == loc.row + 1
    ensures loc.row + 1 >= dimensions.height - 1 ==> r.row == dimensions.height - 1
  {
    Location(Min(loc.row + 1, dimensions.height - 1), loc.col)
  }

  /** `Math.max` */
  function Max(a: int, b: int): int { if a >= b then a else b }

  /** `Math.min` */
  function Min(a: int, b: int): int { if a <= b then a else b }

  /**
   * On a grid, each move keeps an in-bounds location in bounds and either
   * stays put (at the edge it moves towards) or steps to an adjacent cell.
   */
  lemma MovesStayInBounds<T>(m: Matrix<T>, loc: Location)
    requires InBounds(m, loc)
    ensures var left := LeftLocation(loc);
      InBounds(m, left) && (left == loc <==> loc.col == 0) && (left != loc ==> Adjacent(loc, left))
    ensures var right := RightLocation(loc, GetDimensions(m));
      InBounds(m, right) && (right == loc <==> loc.col == Width(m) - 1) && (right != loc ==> Adjacent(loc, right))
    ensures var up := UpLocation(loc);
      InBounds(m, up) && (up == loc <==> loc.row == 0) && (up != loc ==> Adjacent(loc, up))
    ensures var down := DownLocation(loc, GetDimensions(m));
      InBounds(m, down) && (down == loc <==> loc.row == Height(m) - 1) && (down != loc ==> Adjacent(loc, down))
  {
  }

  /** A value of `Math.random()`, a number in [0, 1), written as the fraction numerator / denominator. */
  datatype UnitDraw = UnitDraw(numerator: nat, denominator: nat) {
    predicate Valid() { numerator < denominator }
  }

  /** `Math.floor(draw * n)` */
  function ScaledIndex(draw: UnitDraw, n: nat): (k: nat)
    requires draw.Valid()
    ensures n > 0 ==> k < n
  {
    ScaledIndexBelow(draw.numerator, draw.denominator, n);
    draw.numerator * n / draw.denominator
  }

  /** Scaling a fraction below one by `n` and rounding down gives an index below `n`. */
  lemma ScaledIndexBelow(numerator: nat, denominator: nat, n: nat)
    requires numerator < denominator
    ensures n > 0 ==> numerator * n / denominator < n
  {
    if n > 0 {
      assert numerator * n < denominator * n;
    }
  }

  /**
   * `pickRandomlyFromArray`: the element at index `floor(draw * length)`;
   * JavaScript yields `undefined` (here `None`) for an empty list.
   */
  function PickRandomlyFromArray<T>(items: seq<T>, draw: UnitDraw): (r: Option<T>)
    requires draw.Valid()
    ensures r.Some? <==> |items| > 0
    ensures r.Some? ==> r.value in items
  {
    var k := ScaledIndex(draw, |items|);
    if k < |items| then Some(items[k]) else None
  }

  /** A matrix that the engine updates in place, as the JavaScript grid is. */
  class Grid<T> {
    var cells: Matrix<T>

    ghost predicate Valid()
      reads this
    {
      Rectangular(cells)
    }

    constructor (cells: Matrix<T>)
      requires Rectangular(cells)
      ensures Valid() && this.cells == cells
    {
      this.cells := cells;
    }

    /** `mutateLocation`: writes `value` into the cell at `loc`; no other cell changes. */
    method MutateLocation(loc: Location, value: T)
      requires Valid() && InBounds(cells, loc)
      modifies this
      ensures Valid() && cells == SetCell(old(cells), loc, value)
    {
      cells := cells[loc.row := cells[loc.row][loc.col := value]];
    }
  }
}
