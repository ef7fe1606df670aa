/**
 The first-match scan the program runs twice over driver lists (connectors,
 then encoders): fetch each entry in enumeration order, stop at the first one
 that satisfies the test, and release every entry rejected on the way.
 */
module Search {
  import opened Common

  /**
   Result of a scan: the index where it stopped, if any, and the indices
   released before stopping, in the order they were released.
   */
  datatype Scan = Scan(found: Option<nat>, released: seq<nat>)

  /** First index at or after `i` whose entry satisfies `p`. */
  function FirstFrom<T>(s: seq<T>, p: T -> bool, i: nat): (r: Option<nat>)
    requires i <= |s|
    ensures r.Some? ==> i <= r.value < |s| && p(s[r.value])
    ensures r.Some? ==> forall j :: i <= j < r.value ==> !p(s[j])
    ensures r.None? ==> forall j :: i <= j < |s| ==> !p(s[j])
    decreases |s| - i
  {
    if i == |s| then None
    else if p(s[i]) then Some(i)
    else FirstFrom(s, p, i + 1)
  }

  /**
   The scan over the whole list: the found entry is the first that matches,
   the search fails exactly when nothing matches, and the released indices
   are precisely the rejected entries in front of the stopping point.
   */
  function FirstMatch<T>(s: seq<T>, p: T -> bool): (r: Scan)
    ensures r.found.Some? ==> r.found.value < |s| && p(s[r.found.value])
    ensures r.found.Some? ==> forall j :: 0 <= j < r.found.value ==> !p(s[j])
    ensures r.found.None? <==> forall j :: 0 <= j < |s| ==> !p(s[j])
    ensures |r.released| == (if r.found.Some? then r.found.value else |s|)
    ensures forall i :: 0 <= i < |r.released| ==> r.released[i] == i && !p(s[i])
  {
    var k := FirstFrom(s, p, 0);
    Scan(k, Upto(if k.Some? then k.value else |s|))
  }

  /** The scan written as the program's loop: probe, break on a match, else release. */
  method FirstMatchLoop<T>(s: seq<T>, p: T -> bool) returns (found: Option<nat>, released: seq<nat>)
    ensures Scan(found, released) == FirstMatch(s, p)
  {
    found := None;
    released := [];
    var i := 0;
    while i < |s|
      invariant 0 <= i <= |s|
      invariant released == Upto(i)
      invariant forall j :: 0 <= j < i ==> !p(s[j])
    {
      if p(s[i]) {
        found := Some(i);
        return;
      }
      released := released + [i];
      i := i + 1;
    }
  }
}
