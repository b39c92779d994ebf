/** Sequence operations shared by the list models: first-match search, and insertion, removal and exchange at a position. */
module Sequences {

  /** Position of the first element equal to `x`, or `|s|` when there is none:
      where a front-to-back scan with the default equality comparer stops. */
  function FirstIndex<T(==)>(s: seq<T>, x: T): (i: nat)
    ensures i <= |s|
    ensures i < |s| ==> s[i] == x
    ensures forall k :: 0 <= k < i ==> s[k] != x
    ensures i < |s| <==> x in s
  {
    if s == [] then 0
    else if s[0] == x then 0
    else 1 + FirstIndex(s[1..], x)
  }

  /** `s` without its element at position `i`; the others keep their order. */
  function RemoveAt<T>(s: seq<T>, i: nat): (r: seq<T>)
    requires i < |s|
    ensures |r| == |s| - 1
    ensures forall k :: 0 <= k < i ==> r[k] == s[k]
    ensures forall k :: i <= k < |r| ==> r[k] == s[k + 1]
  {
    s[..i] + s[i + 1..]
  }

  /** `s` with `x` inserted before position `i`; the others keep their order. */
  function InsertAt<T>(s: seq<T>, i: nat, x: T): (r: seq<T>)
    requires i <= |s|
    ensures |r| == |s| + 1 && r[i] == x
    ensures forall k :: 0 <= k < i ==> r[k] == s[k]
    ensures forall k :: i < k < |r| ==> r[k] == s[k - 1]
  {
    s[..i] + [x] + s[i..]
  }

  /** `s` with its elements at `k` and `k + 1` exchanged. */
  function Swap<T>(s: seq<T>, k: nat): (r: seq<T>)
    requires k + 1 < |s|
    ensures |r| == |s| && r[k] == s[k + 1] && r[k + 1] == s[k]
    ensures forall j :: 0 <= j < |s| && j != k && j != k + 1 ==> r[j] == s[j]
  {
    s[k := s[k + 1]][k + 1 := s[k]]
  }

  /** Exchanging two neighbours keeps every element among those of `t`. */
  lemma SwapWithin<T>(s: seq<T>, k: nat, t: seq<T>)
    requires k + 1 < |s|
    requires forall j :: 0 <= j < |s| ==> s[j] in t
    ensures forall j :: 0 <= j < |s| ==> Swap(s, k)[j] in t
  {
    forall j | 0 <= j < |s|
      ensures Swap(s, k)[j] in t
    {
      if j == k {
        assert Swap(s, k)[j] == s[k + 1];
      } else if j == k + 1 {
        assert Swap(s, k)[j] == s[k];
      } else {
        assert Swap(s, k)[j] == s[j];
      }
    }
  }

  /** `s` without its first element equal to `x`; unchanged when `x` is absent. */
  function RemoveFirst<T(==)>(s: seq<T>, x: T): seq<T>
  {
    var i := FirstIndex(s, x);
    if i == |s| then s else RemoveAt(s, i)
  }

  /** Removing the first match takes exactly one occurrence of `x` out of the
      contents, and only when there is one. */
  lemma RemoveFirstContents<T>(s: seq<T>, x: T)
    ensures multiset(RemoveFirst(s, x)) == multiset(s) - multiset{x}
    ensures |RemoveFirst(s, x)| == if x in s then |s| - 1 else |s|
  {
    var i := FirstIndex(s, x);
    if i < |s| {
      assert s == s[..i] + [s[i]] + s[i + 1..];
      calc {
        multiset(s);
        multiset(s[..i]) + multiset{x} + multiset(s[i + 1..]);
        multiset(RemoveAt(s, i)) + multiset{x};
      }
    } else {
      assert multiset(s)[x] == 0;
    }
  }

  /** Removing the element at `i` takes exactly that element out of the contents. */
  lemma RemoveAtContents<T>(s: seq<T>, i: nat)
    requires i < |s|
    ensures multiset(RemoveAt(s, i)) == multiset(s) - multiset{s[i]}
  {
    assert s == s[..i] + [s[i]] + s[i + 1..];
    assert RemoveAt(s, i) == s[..i] + s[i + 1..];
  }
}
