/**
 * `remove(start, count, list)` from the ramda library, which the rule editors
 * call. The library is not part of this model; its behaviour is assumed as
 * ramda documents it: copy the list and splice `count` entries out at `start`,
 * where a negative `start` counts back from the end and a `start` past the
 * end removes nothing.
 */
module Ramda {

  /** Where `Array.prototype.splice` starts for a given `start` and length. */
  function SpliceStart(start: int, length: nat): (s: nat)
    ensures s <= length
    ensures 0 <= start <= length ==> s == start
  {
    if start < 0 then (if length + start < 0 then 0 else length + start)
    else if start > length then length
    else start
  }

  function Remove<T>(start: int, count: nat, list: seq<T>): (r: seq<T>)
    ensures var from := SpliceStart(start, |list|);
      var removed := if from + count <= |list| then count else |list| - from;
      && |r| == |list| - removed
      && r[..from] == list[..from]
      && r[from..] == list[from + removed..]
  {
    var from := SpliceStart(start, |list|);
    var to := if from + count <= |list| then from + count else |list|;
    list[..from] + list[to..]
  }
}
