/**
 * The wave-function-collapse engine of src/services/waveFunctionCollapse.js.
 *
 * The engine works on an options grid: one list of still-possible tile types
 * per cell. `collapseGrid` picks the uncollapsed cell with the fewest options,
 * fixes it to one option chosen by a random draw, and lets `ripple` recompute
 * the options of the cells around it from the adjacency rules.
 *
 * The code's own quirks are kept:
 *  - `evaluateCellOptions` takes all four directional votes from the cell
 *    `getUpLocation` gives (`getUpLocation` four times): the cell above, or,
 *    on row 0, where that move is clamped, the target cell itself;
 *  - `ripple` overwrites every neighbour whose recomputed list is non-empty,
 *    collapsed or not, and returns `undefined` after expanding a location, so
 *    `collapseGrid` reports failure after its first step;
 *  - a cell counts as uncollapsed only when it has more than one option.
 */
module WaveFunctionCollapse {
  import opened GameUtils
  import opened Utils
  import opened Rules

  /** The still-possible tile types of one cell; duplicates may occur. */
  type Options = seq<Tile>

  type OptionsMatrix = Matrix<Options>

  /**
   * `intersectionMany`, imported from `./utils` but not defined there: the
   * engine takes it as a parameter.
   */
  type Intersection = (Options, Options, Options, Options) -> Options

  /** All that is assumed of `intersectionMany`: what it returns occurs in each of its four arguments. */
  ghost predicate IntersectionSound(intersect: Intersection) {
    forall a, b, c, d, t :: t in intersect(a, b, c, d) ==> t in a && t in b && t in c && t in d
  }

  // ---------------------------------------------------------------------------
  // Rule evaluation
  // ---------------------------------------------------------------------------

  /**
   * The targets one rule contributes for a cell's options: one `rule.target`
   * for every option equal to `rule.origin`, when the rule points in
   * `targetDirection`.
   */
  function RuleContribution(rule: Rule, originOptions: Options, targetDirection: Direction): Options {
    if originOptions == [] then []
    else
      var last := |originOptions| - 1;
      RuleContribution(rule, originOptions[..last], targetDirection)
        + (if rule.origin == originOptions[last] && rule.direction == targetDirection then [rule.target] else [])
  }

  /** The targets all rules contribute, rule by rule, in rule order. */
  function MatchingTargets(rules: seq<Rule>, originOptions: Options, targetDirection: Direction): Options {
    if rules == [] then []
    else
      var last := |rules| - 1;
      MatchingTargets(rules[..last], originOptions, targetDirection)
        + RuleContribution(rules[last], originOptions, targetDirection)
  }

  /**
   * What `evaluateRuleInDirection` returns: nothing for an out-of-bounds
   * origin; otherwise exactly the tiles some rule in that direction leads to
   * from one of the origin's options.
   */
  function DirectionalOptions(grid: OptionsMatrix, originLocation: Location, targetDirection: Direction, rules: seq<Rule>): (r: Options)
    requires Rectangular(grid)
    ensures !InBounds(grid, originLocation) ==> r == []
    ensures InBounds(grid, originLocation) ==>
      forall t :: t in r <==> Leads(rules, Cell(grid, originLocation), targetDirection, t)
  {
    if InBounds(grid, originLocation) then
      var originOptions := Cell(grid, originLocation);
      assert forall t :: t in MatchingTargets(rules, originOptions, targetDirection) <==> Leads(rules, originOptions, targetDirection, t) by {
        forall t ensures t in MatchingTargets(rules, originOptions, targetDirection) <==> Leads(rules, originOptions, targetDirection, t) {
          MatchingTargetsMembers(rules, originOptions, targetDirection, t);
        }
      }
      MatchingTargets(rules, originOptions, targetDirection)
    else []
  }

  /**
   * `evaluateRuleInDirection`: for each rule, for each option of the origin
   * cell, push the rule's target when the rule starts at that option and
   * points in `targetDirection`.
   */
  method EvaluateRuleInDirection(originLocation: Location, targetDirection: Direction, grid: OptionsMatrix, rules: seq<Rule>)
    returns (possibleOptions: Options)
    requires Rectangular(grid)
    ensures possibleOptions == DirectionalOptions(grid, originLocation, targetDirection, rules)
  {
    possibleOptions := [];
    if InBounds(grid, originLocation) {
      var originOptions := Cell(grid, originLocation);
      for i := 0 to |rules|
        invariant possibleOptions == MatchingTargets(rules[..i], originOptions, targetDirection)
      {
        var rule := rules[i];
        assert rules[..i + 1][..i] == rules[..i];
        for j := 0 to |originOptions|
          invariant possibleOptions == MatchingTargets(rules[..i], originOptions, targetDirection)
                                       + RuleContribution(rule, originOptions[..j], targetDirection)
        {
          var option := originOptions[j];
          assert originOptions[..j + 1][..j] == originOptions[..j];
          if rule.origin == option && rule.direction == targetDirection {
            possibleOptions := possibleOptions + [rule.target];
          }
        }
        assert originOptions[..|originOptions|] == originOptions;
      }
      assert rules[..|rules|] == rules;
    }
  }

  /**
   * One rule contributes exactly as many copies of its target as the cell
   * holds copies of its origin, and nothing when it points elsewhere.
   */
  lemma {:induction false} RuleContributionCount(rule: Rule, originOptions: Options, targetDirection: Direction)
    ensures |RuleContribution(rule, originOptions, targetDirection)|
         == if rule.direction == targetDirection then multiset(originOptions)[rule.origin] else 0
  {
    if originOptions != [] {
      var last := |originOptions| - 1;
      RuleContributionCount(rule, originOptions[..last], targetDirection);
      MultiplicityOfLast(originOptions, rule.origin);
    }
  }

  lemma MultiplicityOfLast<T>(s: seq<T>, x: T)
    requires s != []
    ensures multiset(s)[x] == multiset(s[..|s| - 1])[x] + (if s[|s| - 1] == x then 1 else 0)
  {
    assert s == s[..|s| - 1] + [s[|s| - 1]];
    assert multiset(s) == multiset(s[..|s| - 1]) + multiset{s[|s| - 1]};
  }

  /** Some rule leads to `t` in `targetDirection` from one of `originOptions`. */
  predicate Leads(rules: seq<Rule>, originOptions: Options, targetDirection: Direction, t: Tile) {
    exists o :: o in originOptions && Rule(o, t, targetDirection) in rules
  }

  /** A tile is a matching target exactly when some rule leads to it from an option of the cell in that direction. */
  lemma {:induction false} MatchingTargetsMembers(rules: seq<Rule>, originOptions: Options, targetDirection: Direction, t: Tile)
    ensures t in MatchingTargets(rules, originOptions, targetDirection) <==> Leads(rules, originOptions, targetDirection, t)
  {
    if rules != [] {
      var last := |rules| - 1;
      MatchingTargetsMembers(rules[..last], originOptions, targetDirection, t);
      RuleContributionMembers(rules[last], originOptions, targetDirection, t);
      assert rules == rules[..last] + [rules[last]];
      if Leads(rules, originOptions, targetDirection, t) {
        var o :| o in originOptions && Rule(o, t, targetDirection) in rules;
        if Rule(o, t, targetDirection) != rules[last] {
          assert Rule(o, t, targetDirection) in rules[..last];
        }
      }
    }
  }

  lemma {:induction false} RuleContributionMembers(rule: Rule, originOptions: Options, targetDirection: Direction, t: Tile)
    ensures t in RuleContribution(rule, originOptions, targetDirection)
        <==> rule.target == t && rule.direction == targetDirection && rule.origin in originOptions
  {
    if originOptions != [] {
      var last := |originOptions| - 1;
      RuleContributionMembers(rule, originOptions[..last], targetDirection, t);
      assert originOptions == originOptions[..last] + [originOptions[last]];
    }
  }

  /**
   * `evaluateCellOptions`: the intersection of four directional votes. Every
   * vote is taken from `getUpLocation(location)`: the cell above, or the
   * target cell itself on row 0. With an intersection that only keeps common
   * tiles, a tile survives only if that cell is in bounds and, in each of the
   * four directions, some rule leads to the tile from one of its options.
   */
  function EvaluateCellOptions(grid: OptionsMatrix, location: Location, rules: seq<Rule>, intersect: Intersection): (r: Options)
    requires Rectangular(grid)
    ensures !InBounds(grid, UpLocation(location)) ==> r == intersect([], [], [], [])
    ensures IntersectionSound(intersect) ==> forall t :: t in r ==>
      var up := UpLocation(location);
      && InBounds(grid, up)
      && Leads(rules, Cell(grid, up), Up, t)
      && Leads(rules, Cell(grid, up), Down, t)
      && Leads(rules, Cell(grid, up), Left, t)
      && Leads(rules, Cell(grid, up), Right, t)
  {
    var upLocation := UpLocation(location);
    var upOptions := DirectionalOptions(grid, upLocation, Down, rules);
    var downLocation := UpLocation(location);
    var downOptions := DirectionalOptions(grid, downLocation, Up, rules);
    var leftLocation := UpLocation(location);
    var leftOptions := DirectionalOptions(grid, leftLocation, Right, rules);
    var rightLocation := UpLocation(location);
    var rightOptions := DirectionalOptions(grid, rightLocation, Left, rules);
    intersect(upOptions, downOptions, leftOptions, rightOptions)
  }

  /**
   * The recomputed options of a cell depend only on the rules and on the cell
   * `getUpLocation` gives: two grids that agree there give the same result.
   */
  lemma EvaluateCellOptionsReadsOnlyUpCell(grid1: OptionsMatrix, grid2: OptionsMatrix, location: Location, rules: seq<Rule>, intersect: Intersection)
    requires Rectangular(grid1) && Rectangular(grid2)
    requires InBounds(grid1, UpLocation(location)) <==> InBounds(grid2, UpLocation(location))
    requires InBounds(grid1, UpLocation(location)) ==> Cell(grid1, UpLocation(location)) == Cell(grid2, UpLocation(location))
    ensures EvaluateCellOptions(grid1, location, rules, intersect) == EvaluateCellOptions(grid2, location, rules, intersect)
  {
  }

  /**
   * On row 0 the move up is clamped, so a cell's recomputed options depend
   * only on the rules and on that cell's own options.
   */
  lemma EvaluateCellOptionsTopRowReadsItself(grid1: OptionsMatrix, grid2: OptionsMatrix, col: int, rules: seq<Rule>, intersect: Intersection)
    requires Rectangular(grid1) && Rectangular(grid2)
    requires InBounds(grid1, Location(0, col)) <==> InBounds(grid2, Location(0, col))
    requires InBounds(grid1, Location(0, col)) ==> Cell(grid1, Location(0, col)) == Cell(grid2, Location(0, col))
    ensures UpLocation(Location(0, col)) == Location(0, col)
    ensures EvaluateCellOptions(grid1, Location(0, col), rules, intersect) == EvaluateCellOptions(grid2, Location(0, col), rules, intersect)
  {
    EvaluateCellOptionsReadsOnlyUpCell(grid1, grid2, Location(0, col), rules, intersect);
  }

  // ---------------------------------------------------------------------------
  // Starting grid
  // ---------------------------------------------------------------------------

  /** `mapMatrix(() => [...tileTypes], grid)`: every cell starts with every tile type. */
  function DefaultOptions<X>(grid: Matrix<X>, tileTypes: seq<Tile>): (r: OptionsMatrix)
    requires Rectangular(grid)
    ensures Rectangular(r) && SameShape(grid, r)
    ensures forall l :: InBounds(r, l) ==> Cell(r, l) == tileTypes
  {
    seq(|grid|, i requires 0 <= i < |grid| => seq(|grid[i]|, _ => tileTypes))
  }

  // ---------------------------------------------------------------------------
  // Cell selection
  // ---------------------------------------------------------------------------

  /**
   * `evaluateTileEntropy`: the number of options, repeats included; zero only
   * for an empty cell, and at most one only for an empty or single-option cell.
   */
  function Entropy(tile: Options): (e: nat)
    ensures e == 0 <==> tile == []
    ensures e <= 1 <==> tile == [] || tile == [tile[0]]
  {
    |tile|
  }

  /** A cell is uncollapsed when it has more than one option; an empty cell counts as done. */
  predicate Uncollapsed(grid: OptionsMatrix, location: Location)
    requires Rectangular(grid) && InBounds(grid, location)
  {
    Entropy(Cell(grid, location)) > 1
  }

  /** The selector's result: `{ finished: true }` or a location. */
  datatype Selection = Finished | Selected(location: Location)

  /** `allLocations.filter(...)`: the uncollapsed locations, in their original order. */
  function UncollapsedLocations(grid: OptionsMatrix, locations: seq<Location>): (r: seq<Location>)
    requires Rectangular(grid)
    requires forall l :: l in locations ==> InBounds(grid, l)
    ensures forall l :: l in r <==> l in locations && Uncollapsed(grid, l)
    ensures RowMajorSorted(locations) ==> RowMajorSorted(r)
  {
    if locations == [] then []
    else
      var rest := UncollapsedLocations(grid, locations[1..]);
      if Uncollapsed(grid, locations[0]) then
        assert RowMajorSorted(locations) ==> RowMajorSorted([locations[0]] + rest) by {
          if RowMajorSorted(locations) {
            assert RowMajorSorted(locations[1..]);
            forall l | l in rest ensures RowMajorBefore(locations[0], l) {
              var j :| 0 <= j < |locations[1..]| && locations[1..][j] == l;
              assert locations[j + 1] == l;
            }
            SortedAppend([locations[0]], rest);
          }
        }
        [locations[0]] + rest
      else rest
  }

  /**
   * The position of the first entry of least entropy: the entry a stable sort
   * by entropy puts first.
   */
  function LowestEntropyIndex(grid: OptionsMatrix, candidates: seq<Location>): (k: nat)
    requires Rectangular(grid) && candidates != []
    requires forall l :: l in candidates ==> InBounds(grid, l)
    ensures k < |candidates|
    ensures forall j :: 0 <= j < |candidates| ==> Entropy(Cell(grid, candidates[k])) <= Entropy(Cell(grid, candidates[j]))
    ensures forall j :: 0 <= j < k ==> Entropy(Cell(grid, candidates[k])) < Entropy(Cell(grid, candidates[j]))
  {
    if |candidates| == 1 then 0
    else
      var k := LowestEntropyIndex(grid, candidates[1..]) + 1;
      if Entropy(Cell(grid, candidates[0])) <= Entropy(Cell(grid, candidates[k])) then 0 else k
  }

  /**
   * In a row-major sorted list, the first entry of least entropy has strictly
   * less entropy than every entry that comes before it in the grid.
   */
  lemma EarliestOfLeastEntropy(grid: OptionsMatrix, candidates: seq<Location>, k: nat)
    requires Rectangular(grid) && RowMajorSorted(candidates) && k < |candidates|
    requires forall l :: l in candidates ==> InBounds(grid, l)
    requires forall j :: 0 <= j < k ==> Entropy(Cell(grid, candidates[k])) < Entropy(Cell(grid, candidates[j]))
    ensures forall l :: l in candidates && RowMajorBefore(l, candidates[k]) ==>
      Entropy(Cell(grid, candidates[k])) < Entropy(Cell(grid, l))
  {
    forall l | l in candidates && RowMajorBefore(l, candidates[k])
      ensures Entropy(Cell(grid, candidates[k])) < Entropy(Cell(grid, l))
    {
      var j :| 0 <= j < |candidates| && candidates[j] == l;
      assert j < k;
    }
  }

  /**
   * `pickLowestEntropyUncollapsedLocation`: finished when no cell has more
   * than one option; otherwise the uncollapsed cell of least entropy, the
   * first such cell in row-major order.
   */
  function PickLowestEntropyUncollapsedLocation(grid: OptionsMatrix): (s: Selection)
    requires Rectangular(grid)
    ensures s.Finished? <==> forall l :: InBounds(grid, l) ==> !Uncollapsed(grid, l)
    ensures s.Selected? ==> InBounds(grid, s.location) && Uncollapsed(grid, s.location)
    ensures s.Selected? ==> forall l :: InBounds(grid, l) && Uncollapsed(grid, l) ==>
      Entropy(Cell(grid, s.location)) <= Entropy(Cell(grid, l))
    ensures s.Selected? ==> forall l :: InBounds(grid, l) && Uncollapsed(grid, l) && RowMajorBefore(l, s.location) ==>
      Entropy(Cell(grid, s.location)) < Entropy(Cell(grid, l))
  {
    var allLocations := RowMajorLocations(Height(grid), Width(grid));
    var unCollapsedLocations := UncollapsedLocations(grid, allLocations);
    if unCollapsedLocations == [] then
      assert forall l :: InBounds(grid, l) ==> l in allLocations;
      Finished
    else
      var k := LowestEntropyIndex(grid, unCollapsedLocations);
      var location := unCollapsedLocations[k];
      assert forall l :: InBounds(grid, l) && Uncollapsed(grid, l) ==> l in unCollapsedLocations;
      EarliestOfLeastEntropy(grid, unCollapsedLocations, k);
      Selected(location)
  }

  // ---------------------------------------------------------------------------
  // Propagation
  // ---------------------------------------------------------------------------

  /** What `ripple` returns: `true` or, after expanding a location, `undefined`. */
  datatype RippleReturn = ReturnedTrue | ReturnedUndefined {
    /** How `if (!didRippleSucceed)` reads the value. */
    predicate Truthy() { ReturnedTrue? }
  }

  /** The options grid and the shared `closed` list after a call, with the call's return value. */
  datatype RippleRun = RippleRun(cells: OptionsMatrix, closed: seq<Location>, returned: RippleReturn)

  /** The in-bounds locations not yet in `closed`: the measure that every expanding call shrinks. */
  ghost function Unvisited(grid: OptionsMatrix, closed: seq<Location>): set<Location> {
    AllCells(Height(grid), Width(grid)) - (set l | l in closed)
  }

  /** Growing `closed` and rewriting cells never adds unvisited locations. */
  lemma UnvisitedShrinks(grid: OptionsMatrix, later: OptionsMatrix, closed: seq<Location>, laterClosed: seq<Location>)
    requires SameShape(grid, later) && closed <= laterClosed
    ensures Unvisited(later, laterClosed) <= Unvisited(grid, closed)
  {
    forall l | l in closed ensures l in laterClosed {
      var i :| 0 <= i < |closed| && closed[i] == l;
      assert laterClosed[i] == l;
    }
  }

  /** Closing an in-bounds location that was open removes it from the unvisited ones. */
  lemma UnvisitedStrict(grid: OptionsMatrix, closed: seq<Location>, location: Location)
    requires InBounds(grid, location) && location !in closed
    ensures Unvisited(grid, closed + [location]) < Unvisited(grid, closed)
  {
    InAllCells(Height(grid), Width(grid), location);
    assert location in Unvisited(grid, closed);
    assert location !in Unvisited(grid, closed + [location]);
    UnvisitedShrinks(grid, grid, closed, closed + [location]);
  }

  /**
   * The effect of `ripple(grid, location, rules, closed)`: nothing for an
   * out-of-bounds or already closed location; otherwise the location is
   * appended to `closed` and its cross neighbours are processed in order.
   */
  function RippleSpec(grid: OptionsMatrix, location: Location, rules: seq<Rule>, intersect: Intersection, closed: seq<Location>): (r: RippleRun)
    requires Rectangular(grid)
    ensures Rectangular(r.cells) && SameShape(grid, r.cells)
    ensures closed <= r.closed
    decreases Unvisited(grid, closed), 0, 0
  {
    if !InBounds(grid, location) then RippleRun(grid, closed, ReturnedTrue)
    else if location in closed then RippleRun(grid, closed, ReturnedTrue)
    else
      UnvisitedStrict(grid, closed, location);
      var after := RippleNeighbors(grid, CrossNeighbors(grid, location), rules, intersect, closed + [location]);
      RippleRun(after.cells, after.closed, ReturnedUndefined)
  }

  /**
   * The `neighbors.forEach` of `ripple`: a neighbour whose recomputed options
   * are empty is skipped (its callback's `return false` ends only that
   * callback); any other neighbour is overwritten with its recomputed options
   * and rippled from, sharing `closed`.
   */
  function RippleNeighbors(grid: OptionsMatrix, neighbors: seq<Location>, rules: seq<Rule>, intersect: Intersection, closed: seq<Location>): (r: RippleRun)
    requires Rectangular(grid)
    requires forall n :: n in neighbors ==> InBounds(grid, n)
    ensures Rectangular(r.cells) && SameShape(grid, r.cells)
    ensures closed <= r.closed
    decreases Unvisited(grid, closed), 1, |neighbors|
  {
    if neighbors == [] then RippleRun(grid, closed, ReturnedUndefined)
    else
      var neighborLocation := neighbors[0];
      var neighborOptions := EvaluateCellOptions(grid, neighborLocation, rules, intersect);
      if |neighborOptions| == 0 then
        RippleNeighbors(grid, neighbors[1..], rules, intersect, closed)
      else
        var written := SetCell(grid, neighborLocation, neighborOptions);
        var rippled := RippleSpec(written, neighborLocation, rules, intersect, closed);
        UnvisitedShrinks(grid, rippled.cells, closed, rippled.closed);
        assert forall n :: n in neighbors[1..] ==> n in neighbors;
        RippleNeighbors(rippled.cells, neighbors[1..], rules, intersect, rippled.closed)
  }

  /** One step of `RippleNeighbors`, as the loop of `Ripple` takes it. */
  lemma RippleNeighborsStep(grid: OptionsMatrix, neighbors: seq<Location>, rules: seq<Rule>, intersect: Intersection, closed: seq<Location>)
    requires Rectangular(grid) && neighbors != []
    requires forall n :: n in neighbors ==> InBounds(grid, n)
    ensures forall n :: n in neighbors[1..] ==> n in neighbors
    ensures var options := EvaluateCellOptions(grid, neighbors[0], rules, intersect);
      RippleNeighbors(grid, neighbors, rules, intersect, closed)
      == if |options| == 0 then RippleNeighbors(grid, neighbors[1..], rules, intersect, closed)
         else
           var rippled := RippleSpec(SetCell(grid, neighbors[0], options), neighbors[0], rules, intersect, closed);
           RippleNeighbors(rippled.cells, neighbors[1..], rules, intersect, rippled.closed)
  {
  }

  lemma PrefixMembers(closed: seq<Location>, longer: seq<Location>)
    requires closed <= longer
    ensures forall l :: l in closed ==> l in longer
  {
    forall l | l in closed ensures l in longer {
      var i :| 0 <= i < |closed| && closed[i] == l;
      assert longer[i] == l;
    }
  }

  /** What `ripple` keeps of `closed` and of the grid, whatever it recomputes. */
  ghost predicate RippleKeeps(grid: OptionsMatrix, closed: seq<Location>, r: RippleRun)
    requires Rectangular(grid) && Rectangular(r.cells) && SameShape(grid, r.cells)
  {
    // `closed` lists distinct in-bounds locations
    && Distinct(r.closed)
    && (forall l :: l in r.closed ==> InBounds(grid, l))
    // a cell is only ever overwritten with a non-empty list, and only once it is closed
    && (forall l :: InBounds(grid, l) ==> Cell(r.cells, l) == Cell(grid, l) || (Cell(r.cells, l) != [] && l in r.closed))
  }

  /**
   * `ripple` keeps `closed` free of repeats and inside the grid, closes the
   * location it was called on when that is in bounds, leaves every cell it
   * did not close as it was, and returns `true` exactly when the location is
   * out of bounds or already closed, in which case nothing changes.
   */
  lemma {:induction false} RippleSpecKeeps(grid: OptionsMatrix, location: Location, rules: seq<Rule>, intersect: Intersection, closed: seq<Location>)
    requires Rectangular(grid)
    requires Distinct(closed) && forall l :: l in closed ==> InBounds(grid, l)
    ensures var r := RippleSpec(grid, location, rules, intersect, closed);
      && RippleKeeps(grid, closed, r)
      && (InBounds(grid, location) ==> location in r.closed)
      && (r.returned.Truthy() <==> !InBounds(grid, location) || location in closed)
      && (r.returned.Truthy() ==> r.cells == grid && r.closed == closed)
    decreases Unvisited(grid, closed), 0, 0
  {
    if InBounds(grid, location) && location !in closed {
      UnvisitedStrict(grid, closed, location);
      var expanded := closed + [location];
      var neighbors := CrossNeighbors(grid, location);
      RippleNeighborsKeeps(grid, neighbors, rules, intersect, expanded);
      var after := RippleNeighbors(grid, neighbors, rules, intersect, expanded);
      PrefixMembers(expanded, after.closed);
    }
  }

  lemma {:induction false} RippleNeighborsKeeps(grid: OptionsMatrix, neighbors: seq<Location>, rules: seq<Rule>, intersect: Intersection, closed: seq<Location>)
    requires Rectangular(grid)
    requires forall n :: n in neighbors ==> InBounds(grid, n)
    requires Distinct(closed) && forall l :: l in closed ==> InBounds(grid, l)
    ensures RippleKeeps(grid, closed, RippleNeighbors(grid, neighbors, rules, intersect, closed))
    decreases Unvisited(grid, closed), 1, |neighbors|
  {
    if neighbors != [] {
      RippleNeighborsStep(grid, neighbors, rules, intersect, closed);
      var n := neighbors[0];
      var options := EvaluateCellOptions(grid, n, rules, intersect);
      if |options| == 0 {
        RippleNeighborsKeeps(grid, neighbors[1..], rules, intersect, closed);
      } else {
        var written := SetCell(grid, n, options);
        RippleSpecKeeps(written, n, rules, intersect, closed);
        var rippled := RippleSpec(written, n, rules, intersect, closed);
        UnvisitedShrinks(grid, rippled.cells, closed, rippled.closed);
        RippleNeighborsKeeps(rippled.cells, neighbors[1..], rules, intersect, rippled.closed);
        var rest := RippleNeighbors(rippled.cells, neighbors[1..], rules, intersect, rippled.closed);
        PrefixMembers(rippled.closed, rest.closed);
        forall l | InBounds(grid, l)
          ensures Cell(rest.cells, l) == Cell(grid, l) || (Cell(rest.cells, l) != [] && l in rest.closed)
        {
          assert InBounds(written, l) && InBounds(rippled.cells, l);
        }
      }
    }
  }

  /**
   * Started from an empty `closed`, as `collapseGrid` starts it, `ripple`
   * expands every location at most once: `closed` never outgrows the grid.
   */
  lemma RippleClosedBound(grid: OptionsMatrix, location: Location, rules: seq<Rule>, intersect: Intersection)
    requires Rectangular(grid)
    ensures |RippleSpec(grid, location, rules, intersect, []).closed| <= Height(grid) * Width(grid)
  {
    RippleSpecKeeps(grid, location, rules, intersect, []);
    var r := RippleSpec(grid, location, rules, intersect, []);
    DistinctLocationsBound(Height(grid), Width(grid), r.closed);
  }

  /** The `closed` array `ripple` shares with its recursive calls. */
  class ClosedList {
    var locations: seq<Location>

    constructor ()
      ensures locations == []
    {
      locations := [];
    }

    /** `closed.push(location)` */
    method Push(location: Location)
      modifies this
      ensures locations == old(locations) + [location]
    {
      locations := locations + [location];
    }
  }

  /** `ripple`: updates the grid and `closed` in place, as `RippleSpec` describes. */
  method Ripple(grid: Grid<Options>, location: Location, rules: seq<Rule>, intersect: Intersection, closed: ClosedList)
    returns (returned: RippleReturn)
    requires grid.Valid()
    modifies grid, closed
    ensures grid.Valid()
    ensures RippleRun(grid.cells, closed.locations, returned)
         == RippleSpec(old(grid.cells), location, rules, intersect, old(closed.locations))
    decreases Unvisited(grid.cells, closed.locations), 0
  {
    if !InBounds(grid.cells, location) {
      return ReturnedTrue;
    }
    if location in closed.locations {
      return ReturnedTrue;
    }
    UnvisitedStrict(grid.cells, closed.locations, location);
    closed.Push(location);
    var neighbors := CrossNeighbors(grid.cells, location);
    RippleNeighborsInPlace(grid, neighbors, rules, intersect, closed);
    return ReturnedUndefined;
  }

  /** The `neighbors.forEach` loop of `ripple`, in place, as `RippleNeighbors` describes. */
  method RippleNeighborsInPlace(grid: Grid<Options>, neighbors: seq<Location>, rules: seq<Rule>, intersect: Intersection, closed: ClosedList)
    requires grid.Valid()
    requires forall n :: n in neighbors ==> InBounds(grid.cells, n)
    modifies grid, closed
    ensures grid.Valid()
    ensures RippleRun(grid.cells, closed.locations, ReturnedUndefined)
         == RippleNeighbors(old(grid.cells), neighbors, rules, intersect, old(closed.locations))
    decreases Unvisited(grid.cells, closed.locations), 1
  {
    ghost var start := grid.cells;
    ghost var closedStart := closed.locations;
    var i := 0;
    while i < |neighbors|
      invariant 0 <= i <= |neighbors|
      invariant grid.Valid() && SameShape(start, grid.cells)
      invariant forall n :: n in neighbors ==> InBounds(grid.cells, n)
      invariant closedStart <= closed.locations
      invariant RippleNeighbors(grid.cells, neighbors[i..], rules, intersect, closed.locations)
             == RippleNeighbors(start, neighbors, rules, intersect, closedStart)
    {
      var neighborLocation := neighbors[i];
      RippleNeighborsStep(grid.cells, neighbors[i..], rules, intersect, closed.locations);
      assert neighbors[i..][1..] == neighbors[i + 1..];
      var neighborOptions := EvaluateCellOptions(grid.cells, neighborLocation, rules, intersect);
      if |neighborOptions| != 0 {
        grid.MutateLocation(neighborLocation, neighborOptions);
        UnvisitedShrinks(start, grid.cells, closedStart, closed.locations);
        // forEach ignores the value the callback returns
        var _ := Ripple(grid, neighborLocation, rules, intersect, closed);
      }
      i := i + 1;
    }
  }

  // ---------------------------------------------------------------------------
  // Collapse
  // ---------------------------------------------------------------------------

  /**
   * The grid `collapseGrid` hands to `ripple`: the selected cell fixed to the
   * single option the draw picks from its options (or, for an empty cell,
   * from all tile types); every other cell as it was.
   */
  function CollapseSelected(grid: OptionsMatrix, location: Location, tileTypes: seq<Tile>, draw: UnitDraw): (r: OptionsMatrix)
    requires Rectangular(grid) && InBounds(grid, location) && Uncollapsed(grid, location) && draw.Valid()
    ensures Rectangular(r) && SameShape(grid, r)
    ensures |Cell(r, location)| == 1 && Cell(r, location)[0] in Cell(grid, location)
    ensures forall l :: InBounds(grid, l) && l != location ==> Cell(r, l) == Cell(grid, l)
  {
    var options := if Cell(grid, location) == [] then tileTypes else Cell(grid, location);
    var chosenOption := PickRandomlyFromArray(options, draw);
    SetCell(grid, location, [chosenOption.value])
  }

  /**
   * `collapseGrid`: succeeds, leaving the grid alone, when the selector is
   * finished; otherwise fixes the selected cell, ripples from it, and fails,
   * since `ripple` returns `undefined` for that in-bounds cell.
   */
  method CollapseGrid(grid: Grid<Options>, tileTypes: seq<Tile>, rules: seq<Rule>, intersect: Intersection, draw: UnitDraw)
    returns (success: bool)
    requires grid.Valid() && draw.Valid()
    modifies grid
    ensures grid.Valid() && SameShape(old(grid.cells), grid.cells)
    ensures success <==> PickLowestEntropyUncollapsedLocation(old(grid.cells)).Finished?
    ensures success ==> grid.cells == old(grid.cells)
    ensures !success ==>
      var location := PickLowestEntropyUncollapsedLocation(old(grid.cells)).location;
      grid.cells == RippleSpec(CollapseSelected(old(grid.cells), location, tileTypes, draw), location, rules, intersect, []).cells
  {
    var location := PickLowestEntropyUncollapsedLocation(grid.cells);
    if location.Finished? {
      return true;
    }
    var options := Cell(grid.cells, location.location);
    if |options| == 0 {
      // an unstarted cell: choose from every tile type
      options := tileTypes;
    }
    var chosenOption := PickRandomlyFromArray(options, draw);
    grid.MutateLocation(location.location, [chosenOption.value]);
    var closed := new ClosedList();
    var didRippleSucceed := Ripple(grid, location.location, rules, intersect, closed);
    if !didRippleSucceed.Truthy() {
      return false;
    }
    // The tail call `collapseGrid(grid, tileTypes, rules)` is never reached:
    // `ripple` from an in-bounds location that is not yet closed returns undefined.
    assert false;
  }

  /**
   * One step of `collapseGrid` never empties a cell: whichever uncollapsed
   * cell is selected, every cell that had options before the step still has
   * some after the collapse and the ripple.
   */
  lemma CollapseStepKeepsOptions(grid: OptionsMatrix, location: Location, tileTypes: seq<Tile>, rules: seq<Rule>, intersect: Intersection, draw: UnitDraw)
    requires Rectangular(grid) && InBounds(grid, location) && Uncollapsed(grid, location) && draw.Valid()
    ensures var collapsed := CollapseSelected(grid, location, tileTypes, draw);
      var after := RippleSpec(collapsed, location, rules, intersect, []).cells;
      forall l :: InBounds(grid, l) && Cell(grid, l) != [] ==> Cell(after, l) != []
  {
    var collapsed := CollapseSelected(grid, location, tileTypes, draw);
    RippleSpecKeeps(collapsed, location, rules, intersect, []);
    var after := RippleSpec(collapsed, location, rules, intersect, []).cells;
    forall l | InBounds(grid, l) && Cell(grid, l) != [] ensures Cell(after, l) != [] {
      assert InBounds(collapsed, l);
    }
  }

  /**
   * `startCollapseGrid`: gives every cell of a grid of the same shape all tile
   * types, then runs `collapseGrid` on it.
   */
  method StartCollapseGrid<X>(grid: Matrix<X>, tileTypes: seq<Tile>, rules: seq<Rule>, intersect: Intersection, draw: UnitDraw)
    returns (optionsGrid: Grid<Options>, success: bool)
    requires Rectangular(grid) && draw.Valid()
    ensures fresh(optionsGrid) && optionsGrid.Valid() && SameShape(grid, optionsGrid.cells)
    ensures success <==> |tileTypes| <= 1 || Height(grid) == 0 || Width(grid) == 0
    ensures success ==> optionsGrid.cells == DefaultOptions(grid, tileTypes)
    ensures !success ==>
      var start := DefaultOptions(grid, tileTypes);
      optionsGrid.cells == RippleSpec(CollapseSelected(start, Location(0, 0), tileTypes, draw), Location(0, 0), rules, intersect, []).cells
  {
    var defaultOptions := DefaultOptions(grid, tileTypes);
    StartSelectsTopLeft(defaultOptions, tileTypes);
    optionsGrid := new Grid(defaultOptions);
    success := CollapseGrid(optionsGrid, tileTypes, rules, intersect, draw);
  }

  /**
   * On a grid where every cell holds the same options, the selector is
   * finished exactly when there are no cells or at most one option, and
   * otherwise picks the top-left cell.
   */
  lemma StartSelectsTopLeft(grid: OptionsMatrix, tileTypes: seq<Tile>)
    requires Rectangular(grid)
    requires forall l :: InBounds(grid, l) ==> Cell(grid, l) == tileTypes
    ensures var s := PickLowestEntropyUncollapsedLocation(grid);
      && (s.Finished? <==> |tileTypes| <= 1 || Height(grid) == 0 || Width(grid) == 0)
      && (s.Selected? ==> s.location == Location(0, 0))
  {
    var topLeft := Location(0, 0);
    if Height(grid) > 0 && Width(grid) > 0 && |tileTypes| > 1 {
      assert InBounds(grid, topLeft) && Uncollapsed(grid, topLeft);
    }
  }
}
