/** `Array.prototype.sort` with a comparator, as the export uses it. A comparator is
  * modelled by the relation `le(a, b)` = "compare(a, b) <= 0", which must be a total
  * preorder. The definition inserts each element after the ones that compare equal
  * to it, as a stable sort would; stability itself is not proved. */
module Sorting {

  ghost predicate TotalPreorder<T(!new)>(le: (T, T) -> bool) {
    && (forall a, b :: le(a, b) || le(b, a))
    && (forall a, b, c :: le(a, b) && le(b, c) ==> le(a, c))
  }

  predicate Sorted<T>(s: seq<T>, le: (T, T) -> bool) {
    forall i, j :: 0 <= i < j < |s| ==> le(s[i], s[j])
  }

  /** Inserts `x` after every element that does not compare greater than it. */
  function Insert<T>(r: seq<T>, x: T, le: (T, T) -> bool): (res: seq<T>)
    ensures multiset(res) == multiset(r) + multiset{x}
    ensures |res| == |r| + 1
  {
    if r == [] then [x]
    else if !le(r[0], x) then [x] + r
    else
      assert r == [r[0]] + r[1..];
      [r[0]] + Insert(r[1..], x, le)
  }

  lemma {:induction false} InsertSorted<T(!new)>(r: seq<T>, x: T, le: (T, T) -> bool)
    requires TotalPreorder(le) && Sorted(r, le)
    ensures Sorted(Insert(r, x, le), le)
  {
    if r == [] {
    } else if !le(r[0], x) {
      assert le(x, r[0]);
      forall k | 0 <= k < |r| ensures le(x, r[k]) {
        if k > 0 { assert le(r[0], r[k]); }
      }
    } else {
      var tail := Insert(r[1..], x, le);
      InsertSorted(r[1..], x, le);
      forall k | 0 <= k < |tail| ensures le(r[0], tail[k]) {
        assert tail[k] in multiset(tail);
        if tail[k] != x {
          assert tail[k] in multiset(r[1..]);
          var m :| 0 <= m < |r[1..]| && r[1..][m] == tail[k];
          assert r[m + 1] == tail[k];
        }
      }
    }
  }

  /** Stable insertion sort: each element in turn is inserted into the sorted prefix. */
  function Sort<T(!new)>(s: seq<T>, le: (T, T) -> bool): (res: seq<T>)
    requires TotalPreorder(le)
    ensures Sorted(res, le)
    ensures multiset(res) == multiset(s)
    ensures |res| == |s|
  {
    if s == [] then []
    else
      assert s == s[..|s| - 1] + [s[|s| - 1]];
      var prefix := Sort(s[..|s| - 1], le);
      InsertSorted(prefix, s[|s| - 1], le);
      Insert(prefix, s[|s| - 1], le)
  }

  /** An in-place sort leaves the array holding the sorted sequence. */
  method SortInPlace<T(!new)>(a: array<T>, le: (T, T) -> bool)
    requires TotalPreorder(le)
    modifies a
    ensures a[..] == Sort(old(a[..]), le)
  {
    var sorted := Sort(a[..], le);
    forall i | 0 <= i < a.Length {
      a[i] := sorted[i];
    }
  }

  /** Every element of a permutation comes from the original. */
  lemma PermutationMembers<T>(s: seq<T>, t: seq<T>)
    requires multiset(s) == multiset(t)
    ensures forall x :: x in s <==> x in t
  {
    forall x ensures x in s <==> x in t {
      assert x in s <==> x in multiset(s);
      assert x in t <==> x in multiset(t);
    }
  }
}
