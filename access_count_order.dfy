/** The access-count reorganisation policy of the self-organising list, on values:
    the list as a sequence of (value, access count) entries, what one successful
    lookup does to it, and the order the policy keeps. */
module AccessCountOrder {
  import opened Sequences

  /** A node's value and how often a lookup has found it. */
  datatype Entry<T> = Entry(data: T, count: nat)

  function Values<T>(s: seq<Entry<T>>): (r: seq<T>)
    ensures |r| == |s|
    ensures forall k :: 0 <= k < |s| ==> r[k] == s[k].data
  {
    seq(|s|, k requires 0 <= k < |s| => s[k].data)
  }

  /** Access counts read front to back never increase. */
  predicate NonIncreasing<T>(s: seq<Entry<T>>)
  {
    forall i, j :: 0 <= i < j < |s| ==> s[i].count >= s[j].count
  }

  /** Where a node with count `c`, standing at position `i`, comes to rest when it is
      swapped towards the front for as long as its predecessor's count is strictly
      smaller than `c`. */
  function ShiftTarget<T>(s: seq<Entry<T>>, i: nat, c: nat): (j: nat)
    requires i <= |s|
    ensures j <= i
    ensures forall k :: j <= k < i ==> s[k].count < c
    ensures j == 0 || s[j - 1].count >= c
    decreases i
  {
    if i == 0 || s[i - 1].count >= c then i else ShiftTarget(s, i - 1, c)
  }

  /** The stopping position of the swap loop is the only one with both properties. */
  lemma {:induction false} ShiftTargetUnique<T>(s: seq<Entry<T>>, i: nat, c: nat, p: nat)
    requires p <= i <= |s|
    requires forall k :: p <= k < i ==> s[k].count < c
    requires p == 0 || s[p - 1].count >= c
    ensures ShiftTarget(s, i, c) == p
    decreases i
  {
    if i > p {
      ShiftTargetUnique(s, i - 1, c, p);
    }
  }

  /** The entry at `i` after its access count has been incremented. */
  function Bumped<T>(s: seq<Entry<T>>, i: nat): Entry<T>
    requires i < |s|
  {
    Entry(s[i].data, s[i].count + 1)
  }

  /** The sequence while the promoted entry, its count already bumped, stands at
      position `p` on its way from `i` to the front: it got there by one swap with
      its predecessor from each position between `p + 1` and `i`. */
  function Moving<T>(s: seq<Entry<T>>, i: nat, p: nat): (r: seq<Entry<T>>)
    requires p <= i < |s|
    ensures |r| == |s|
    decreases i - p
  {
    if p == i then s[i := Bumped(s, i)] else Swap(Moving(s, i, p + 1), p)
  }

  /** Where everything stands meanwhile: the entries before `p` are untouched, the
      promoted entry is at `p`, the ones it passed are one place further back, and
      those behind `i` are untouched. */
  lemma {:induction false} MovingShape<T>(s: seq<Entry<T>>, i: nat, p: nat)
    requires p <= i < |s|
    ensures forall k :: 0 <= k < p ==> Moving(s, i, p)[k] == s[k]
    ensures Moving(s, i, p)[p] == Bumped(s, i)
    ensures forall k :: p < k <= i ==> Moving(s, i, p)[k] == s[k - 1]
    ensures forall k :: i < k < |s| ==> Moving(s, i, p)[k] == s[k]
    decreases i - p
  {
    if p < i {
      MovingShape(s, i, p + 1);
      var m := Moving(s, i, p + 1);
      assert Moving(s, i, p) == Swap(m, p);
      assert m[p] == s[p];
    }
  }

  /** The same, as a rotation of the block `s[p..i + 1]`. */
  lemma MovingRotates<T>(s: seq<Entry<T>>, i: nat, p: nat)
    requires p <= i < |s|
    ensures Moving(s, i, p) == s[..p] + [Bumped(s, i)] + s[p..i] + s[i + 1..]
  {
    MovingShape(s, i, p);
  }

  /** A successful lookup of the entry at `i`: its count goes up by one, then it is
      swapped past every predecessor whose count is strictly smaller. */
  function Promote<T>(s: seq<Entry<T>>, i: nat): (r: seq<Entry<T>>)
    requires i < |s|
    ensures |r| == |s|
  {
    Moving(s, i, ShiftTarget(s, i, s[i].count + 1))
  }

  /** A lookup of `x`: promotes the first entry holding `x`; a miss changes nothing. */
  function Access<T(==)>(s: seq<Entry<T>>, x: T): (r: seq<Entry<T>>)
    ensures |r| == |s|
    ensures x !in Values(s) ==> r == s
  {
    var i := FirstIndex(Values(s), x);
    if i < |s| then Promote(s, i) else s
  }

  /** Removal of the first entry holding `x`; a miss changes nothing. */
  function RemoveValue<T(==)>(s: seq<Entry<T>>, x: T): (r: seq<Entry<T>>)
    ensures |r| == if x in Values(s) then |s| - 1 else |s|
  {
    var i := FirstIndex(Values(s), x);
    if i < |s| then RemoveAt(s, i) else s
  }

  // ---------------------------------------------------------------------------
  // What a promotion does

  /** Promotion keeps every entry, changing only the promoted one's count, which
      goes up by exactly one. */
  lemma {:induction false} PromotePermutes<T>(s: seq<Entry<T>>, i: nat)
    requires i < |s|
    ensures |Promote(s, i)| == |s|
    ensures multiset(Promote(s, i)) == multiset(s) - multiset{s[i]} + multiset{Bumped(s, i)}
  {
    var j := ShiftTarget(s, i, s[i].count + 1);
    MovingRotates(s, i, j);
    assert s == s[..j] + s[j..i] + [s[i]] + s[i + 1..];
    RotateContents(s[..j], s[j..i], Bumped(s, i), s[i + 1..]);
    RotateContents(s[..j], s[j..i], s[i], s[i + 1..]);
  }

  /** Promotion only reorders the values: the same values, as often as before. */
  lemma {:induction false} PromoteKeepsValues<T>(s: seq<Entry<T>>, i: nat)
    requires i < |s|
    ensures multiset(Values(Promote(s, i))) == multiset(Values(s))
  {
    var j := ShiftTarget(s, i, s[i].count + 1);
    var v := Values(s);
    PromoteValues(s, i);
    assert v == v[..j] + v[j..i] + [v[i]] + v[i + 1..];
    RotateContents(v[..j], v[j..i], v[i], v[i + 1..]);
  }

  /** The values after a promotion: the promoted value moved to the stopping
      point of the swap loop. */
  lemma PromoteValues<T>(s: seq<Entry<T>>, i: nat)
    requires i < |s|
    ensures var j := ShiftTarget(s, i, s[i].count + 1);
      var v := Values(s);
      Values(Promote(s, i)) == v[..j] + [v[i]] + v[j..i] + v[i + 1..]
  {
    var j := ShiftTarget(s, i, s[i].count + 1);
    MovingRotates(s, i, j);
    ValuesRotated(s, Bumped(s, i), j, i);
  }

  /** The values of `s` with its entry at `i` replaced by `e`, of the same value,
      and moved to `p`. */
  lemma ValuesRotated<T>(s: seq<Entry<T>>, e: Entry<T>, p: nat, i: nat)
    requires p <= i < |s| && e.data == s[i].data
    ensures var v := Values(s);
      Values(s[..p] + [e] + s[p..i] + s[i + 1..]) == v[..p] + [v[i]] + v[p..i] + v[i + 1..]
  {
    ValuesOfFour(s[..p], e, s[p..i], s[i + 1..]);
    var v := Values(s);
    assert Values(s[..p]) == v[..p] by { ValuesSlice(s, 0, p); }
    assert Values(s[p..i]) == v[p..i] by { ValuesSlice(s, p, i); }
    assert Values(s[i + 1..]) == v[i + 1..] by { ValuesSlice(s, i + 1, |s|); }
  }

  /** The values of a block with one entry inserted are those of the parts. */
  lemma ValuesOfFour<T>(a: seq<Entry<T>>, e: Entry<T>, b: seq<Entry<T>>, c: seq<Entry<T>>)
    ensures Values(a + [e] + b + c) == Values(a) + [e.data] + Values(b) + Values(c)
  {
    ValuesConcat(a + [e] + b, c);
    ValuesConcat(a + [e], b);
    ValuesConcat(a, [e]);
    assert Values([e]) == [e.data];
  }

  /** The values of a concatenation are the concatenated values. */
  lemma ValuesConcat<T>(a: seq<Entry<T>>, b: seq<Entry<T>>)
    ensures Values(a + b) == Values(a) + Values(b)
  {
  }

  /** The values of a slice are the slice of the values. */
  lemma ValuesSlice<T>(s: seq<Entry<T>>, lo: nat, hi: nat)
    requires lo <= hi <= |s|
    ensures Values(s[lo..hi]) == Values(s)[lo..hi]
  {
  }

  /** Moving one element forward over a block does not change the contents. */
  lemma RotateContents<X>(a: seq<X>, b: seq<X>, y: X, c: seq<X>)
    ensures multiset(a + [y] + b + c) == multiset(a + b + c) + multiset{y}
    ensures multiset(a + b + [y] + c) == multiset(a + b + c) + multiset{y}
  {
    assert a + [y] + b + c == a + ([y] + b) + c;
    assert a + b + [y] + c == a + (b + [y]) + c;
    assert a + b + c == a + b + c;
  }

  /** The headline invariant: on a list whose counts are non-increasing front to
      back, a promotion leaves them non-increasing. */
  lemma {:induction false} PromoteKeepsOrder<T>(s: seq<Entry<T>>, i: nat)
    requires i < |s|
    requires NonIncreasing(s)
    ensures NonIncreasing(Promote(s, i))
  {
    var c := s[i].count + 1;
    var j := ShiftTarget(s, i, c);
    var r := Promote(s, i);
    MovingShape(s, i, j);
    forall a, b | 0 <= a < b < |r|
      ensures r[a].count >= r[b].count
    {
      if b == j {
        assert a < j && a <= j - 1;
        assert s[a].count >= s[j - 1].count >= c;
      } else if a == j {
        assert r[b].count <= s[i].count;
      }
    }
  }

  /** On an ordered list the promoted node jumps exactly over the block of
      predecessors whose count equalled its own before the lookup, and stops
      behind every node with a larger count: ties do not move it further. */
  lemma {:induction false} PromotePassesOnlyEqualCounts<T>(s: seq<Entry<T>>, i: nat)
    requires i < |s|
    requires NonIncreasing(s)
    ensures var j := ShiftTarget(s, i, s[i].count + 1);
      && (forall k :: j <= k < i ==> s[k].count == s[i].count)
      && (forall k :: 0 <= k < j ==> s[k].count > s[i].count)
  {
    var c := s[i].count + 1;
    EqualBlock(s, i, ShiftTarget(s, i, c), c);
  }

  lemma EqualBlock<T>(s: seq<Entry<T>>, i: nat, j: nat, c: nat)
    requires j <= i < |s| && c == s[i].count + 1
    requires NonIncreasing(s)
    requires forall k :: j <= k < i ==> s[k].count < c
    requires j == 0 || s[j - 1].count >= c
    ensures forall k :: j <= k < i ==> s[k].count == s[i].count
    ensures forall k :: 0 <= k < j ==> s[k].count > s[i].count
  {
    forall k | 0 <= k < j
      ensures s[k].count > s[i].count
    {
      assert s[k].count >= s[j - 1].count;
    }
  }

  /** Appending a fresh node with count 0 keeps the order. */
  lemma AppendZeroKeepsOrder<T>(s: seq<Entry<T>>, x: T)
    requires NonIncreasing(s)
    ensures NonIncreasing(s + [Entry(x, 0)])
  {
  }

  /** Removing any node keeps the order. */
  lemma {:induction false} RemoveAtKeepsOrder<T>(s: seq<Entry<T>>, i: nat)
    requires i < |s|
    requires NonIncreasing(s)
    ensures NonIncreasing(RemoveAt(s, i))
  {
    var r := RemoveAt(s, i);
    forall a, b | 0 <= a < b < |r|
      ensures r[a].count >= r[b].count
    {
      var a' := if a < i then a else a + 1;
      var b' := if b < i then b else b + 1;
      assert r[a] == s[a'] && r[b] == s[b'];
    }
  }

  /** Every lookup and every removal keeps the access counts non-increasing. */
  lemma AccessKeepsOrder<T>(s: seq<Entry<T>>, x: T)
    requires NonIncreasing(s)
    ensures NonIncreasing(Access(s, x))
    ensures NonIncreasing(RemoveValue(s, x))
  {
    var i := FirstIndex(Values(s), x);
    if i < |s| {
      PromoteKeepsOrder(s, i);
      RemoveAtKeepsOrder(s, i);
    }
  }

  /** The scenario of the self-organising list test: add 1 and 2, look up 1, then 2
      (a tie, so 1 stays in front), then 2 again (2 overtakes 1). */
  lemma TieKeepsFrontScenario()
    ensures var s0 := [Entry(1, 0), Entry(2, 0)];
      var s1 := Access(s0, 1);
      var s2 := Access(s1, 2);
      var s3 := Access(s2, 2);
      && s1 == [Entry(1, 1), Entry(2, 0)]
      && s2 == [Entry(1, 1), Entry(2, 1)]
      && s3 == [Entry(2, 2), Entry(1, 1)]
  {
    var s0 := [Entry(1, 0), Entry(2, 0)];
    assert Values(s0) == [1, 2];
    var s1 := Access(s0, 1);
    assert s1 == [Entry(1, 1), Entry(2, 0)];
    assert Values(s1) == [1, 2];
    var s2 := Access(s1, 2);
    assert s2 == [Entry(1, 1), Entry(2, 1)];
    assert Values(s2) == [1, 2];
  }
}
