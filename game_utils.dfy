/**
 * The grid helpers the engine imports from the `functional-game-utils`
 * package. That package is not part of this model: the definitions below are
 * the simple, explicitly assumed meanings the engine relies on.
 *  - a grid is a rectangular matrix, a list of rows of equal length;
 *  - a location is in bounds when 0 <= row < height and 0 <= col < width;
 *  - the cross neighbours of a location are its in-bounds orthogonal
 *    neighbours, in row-major order;
 *  - two locations compare equal when their coordinates are equal.
 */
module GameUtils {

  /** A grid address, `{ row, col }`. Equality is coordinate equality. */
  datatype Location = Location(row: int, col: int)

  /** `getDimensions`' result. */
  datatype Dimensions = Dimensions(width: int, height: int)

  /** A matrix is a list of rows. */
  type Matrix<T> = seq<seq<T>>

  function Height<T>(m: Matrix<T>): nat { |m| }

  function Width<T>(m: Matrix<T>): nat { if |m| == 0 then 0 else |m[0]| }

  function GetDimensions<T>(m: Matrix<T>): Dimensions {
    Dimensions(Width(m), Height(m))
  }

  /** Every row is as long as the first one. */
  predicate Rectangular<T>(m: Matrix<T>) {
    forall r :: 0 <= r < |m| ==> |m[r]| == Width(m)
  }

  predicate SameShape<A, B>(a: Matrix<A>, b: Matrix<B>) {
    Height(a) == Height(b) && Width(a) == Width(b)
  }

  predicate Within(height: int, width: int, loc: Location) {
    0 <= loc.row < height && 0 <= loc.col < width
  }

  /** `isLocationInBounds` */
  predicate InBounds<T>(m: Matrix<T>, loc: Location) {
    Within(Height(m), Width(m), loc)
  }

  /** `getLocation` */
  function Cell<T>(m: Matrix<T>, loc: Location): T
    requires Rectangular(m) && InBounds(m, loc)
  {
    m[loc.row][loc.col]
  }

  /** The matrix with the cell at `loc` replaced by `value`. */
  function SetCell<T>(m: Matrix<T>, loc: Location, value: T): (r: Matrix<T>)
    requires Rectangular(m) && InBounds(m, loc)
    ensures Rectangular(r) && SameShape(m, r)
    ensures Cell(r, loc) == value
    ensures forall l :: InBounds(m, l) && l != loc ==> Cell(r, l) == Cell(m, l)
  {
    m[loc.row := m[loc.row][loc.col := value]]
  }

  /** Two locations one step apart horizontally or vertically. */
  predicate Adjacent(a: Location, b: Location) {
    || (a.row == b.row && (b.col == a.col - 1 || b.col == a.col + 1))
    || (a.col == b.col && (b.row == a.row - 1 || b.row == a.row + 1))
  }

  /** `a` comes strictly before `b` when the grid is read row by row. */
  predicate RowMajorBefore(a: Location, b: Location) {
    a.row < b.row || (a.row == b.row && a.col < b.col)
  }

  predicate RowMajorSorted(s: seq<Location>) {
    forall i, j :: 0 <= i < j < |s| ==> RowMajorBefore(s[i], s[j])
  }

  function IfInBounds<T>(m: Matrix<T>, loc: Location): seq<Location> {
    if InBounds(m, loc) then [loc] else []
  }

  /** `getNeighbors(getCrossDirections, grid, location)` */
  function CrossNeighbors<T>(m: Matrix<T>, loc: Location): (r: seq<Location>)
    ensures forall n :: n in r <==> InBounds(m, n) && Adjacent(loc, n)
    ensures RowMajorSorted(r)
    ensures |r| <= 4
  {
    var up := IfInBounds(m, Location(loc.row - 1, loc.col));
    var left := IfInBounds(m, Location(loc.row, loc.col - 1));
    var right := IfInBounds(m, Location(loc.row, loc.col + 1));
    var down := IfInBounds(m, Location(loc.row + 1, loc.col));
    SortedAppend(up, left);
    SortedAppend(up + left, right);
    SortedAppend(up + left + right, down);
    up + left + right + down
  }

  lemma SortedAppend(a: seq<Location>, b: seq<Location>)
    requires RowMajorSorted(a) && RowMajorSorted(b)
    requires forall x, y :: x in a && y in b ==> RowMajorBefore(x, y)
    ensures RowMajorSorted(a + b)
  {
    forall i, j | 0 <= i < j < |a + b|
      ensures RowMajorBefore((a + b)[i], (a + b)[j])
    {
      if j < |a| {
      } else if i < |a| {
        assert (a + b)[i] in a && (a + b)[j] in b;
      }
    }
  }

  /** The locations of row `row`, left to right. */
  function RowLocations(row: int, width: nat): (r: seq<Location>)
    ensures |r| == width
    ensures forall c :: 0 <= c < width ==> r[c] == Location(row, c)
  {
    seq(width, c => Location(row, c))
  }

  /** `mapMatrix((_, location) => location, grid).flat()`: every location, row by row. */
  function RowMajorLocations(height: nat, width: nat): (r: seq<Location>)
    ensures forall l :: l in r <==> Within(height, width, l)
    ensures RowMajorSorted(r)
    decreases height
  {
    if height == 0 then []
    else
      var before := RowMajorLocations(height - 1, width);
      var last := RowLocations(height - 1, width);
      assert forall l: Location :: l in last <==> l.row == height - 1 && 0 <= l.col < width by {
        forall l: Location | l.row == height - 1 && 0 <= l.col < width ensures l in last {
          assert last[l.col] == l;
        }
      }
      SortedAppend(before, last);
      before + last
  }

  /** No element occurs twice. */
  predicate Distinct<T(==)>(s: seq<T>) {
    forall i, j :: 0 <= i < j < |s| ==> s[i] != s[j]
  }

  /** The set of in-bounds locations of a `height` by `width` grid. */
  ghost function AllCells(height: nat, width: nat): set<Location> {
    set r, c | 0 <= r < height && 0 <= c < width :: Location(r, c)
  }

  lemma InAllCells(height: nat, width: nat, loc: Location)
    ensures loc in AllCells(height, width) <==> Within(height, width, loc)
  {
    if Within(height, width, loc) {
      assert loc == Location(loc.row, loc.col);
    }
  }

  ghost function RowCells(row: int, width: nat): set<Location> {
    set c | 0 <= c < width :: Location(row, c)
  }

  lemma {:induction false} RowCellsCount(row: int, width: nat)
    ensures |RowCells(row, width)| == width
  {
    if width == 0 {
      assert RowCells(row, width) == {};
    } else {
      RowCellsCount(row, width - 1);
      assert RowCells(row, width) == RowCells(row, width - 1) + {Location(row, width - 1)};
    }
  }

  /** A `height` by `width` grid has `height * width` locations. */
  lemma {:induction false} AllCellsCount(height: nat, width: nat)
    ensures |AllCells(height, width)| == height * width
  {
    if height > 0 {
      AllCellsCount(height - 1, width);
      RowCellsCount(height - 1, width);
      AllCellsLastRow(height, width);
      assert height * width == (height - 1) * width + width;
    }
  }

  /** The grid's locations are those of the rows above the last one, plus the last row. */
  lemma AllCellsLastRow(height: nat, width: nat)
    requires height > 0
    ensures AllCells(height, width) == AllCells(height - 1, width) + RowCells(height - 1, width)
    ensures AllCells(height - 1, width) !! RowCells(height - 1, width)
  {
    forall l | l in AllCells(height, width)
      ensures l in AllCells(height - 1, width) + RowCells(height - 1, width)
    {
      InAllCells(height, width, l);
      InAllCells(height - 1, width, l);
      if l.row == height - 1 {
        assert l == Location(height - 1, l.col);
      }
    }
    forall l | l in AllCells(height - 1, width) + RowCells(height - 1, width)
      ensures l in AllCells(height, width)
    {
      InAllCells(height, width, l);
      InAllCells(height - 1, width, l);
    }
    forall l | l in AllCells(height - 1, width) ensures l.row < height - 1 {
      InAllCells(height - 1, width, l);
    }
  }

  /** A list without repetitions has as many elements as the set of its elements. */
  lemma {:induction false} DistinctCount<T>(s: seq<T>)
    requires Distinct(s)
    ensures |set x | x in s| == |s|
  {
    if s != [] {
      var init := s[..|s| - 1];
      assert Distinct(init);
      DistinctCount(init);
      assert (set x | x in s) == (set x | x in init) + {s[|s| - 1]};
      assert s[|s| - 1] !in init;
    }
  }

  /** A list of distinct in-bounds locations is no longer than the grid has cells. */
  lemma DistinctLocationsBound(height: nat, width: nat, s: seq<Location>)
    requires Distinct(s)
    requires forall l :: l in s ==> Within(height, width, l)
    ensures |s| <= height * width
  {
    DistinctCount(s);
    AllCellsCount(height, width);
    forall l | l in s ensures l in AllCells(height, width) {
      InAllCells(height, width, l);
    }
    SubsetSize((set x | x in s), AllCells(height, width));
  }

  lemma {:induction false} SubsetSize<T>(a: set<T>, b: set<T>)
    requires a <= b
    ensures |a| <= |b|
  {
    if a != {} {
      var x :| x in a;
      SubsetSize(a - {x}, b - {x});
    }
  }
}
