/** Searching a sequence front to back. */
module Finds {
  import opened Wrappers

  /** `Array.prototype.findIndex`, and `findOne` on a collection in natural order:
    * the position of the first element that matches. */
  function FirstIndex<T>(s: seq<T>, matches: T -> bool): (r: Option<nat>)
    ensures r.Some? ==> r.value < |s| && matches(s[r.value])
    ensures r.Some? ==> forall j :: 0 <= j < r.value ==> !matches(s[j])
    ensures r.None? <==> forall j :: 0 <= j < |s| ==> !matches(s[j])
  {
    if s == [] then None
    else if matches(s[0]) then Some(0)
    else match FirstIndex(s[1..], matches)
      case None => None
      case Some(k) => Some(k + 1)
  }

  /** An element appended when nothing matched is the one the same search then finds. */
  lemma FoundAfterInsert<T>(s: seq<T>, x: T, matches: T -> bool)
    requires FirstIndex(s, matches).None? && matches(x)
    ensures FirstIndex(s + [x], matches) == Some(|s|)
  {
    assert matches((s + [x])[|s|]);
  }
}
