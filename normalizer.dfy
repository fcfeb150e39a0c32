/** splitIntoRuns: stable sort by value, in-place removal of duplicates keeping
    the first-declared constant, and the split into maximal runs of consecutive
    values. */
module Normalizer {
  import opened Values

  // ---- Stable sort ----

  /** Places x after every element of the sorted t that is not greater than it
      (what one pass of a stable insertion sort does). */
  function Insert(t: seq<Value>, x: Value): (r: seq<Value>)
    ensures |r| == |t| + 1
  {
    if t == [] then [x]
    else if Less(x, t[|t| - 1]) then Insert(t[..|t| - 1], x) + [t[|t| - 1]]
    else t + [x]
  }

  /** The stable sort of s under byValue.Less. */
  function StableSorted(s: seq<Value>): (r: seq<Value>)
    ensures |r| == |s|
  {
    if s == [] then [] else Insert(StableSorted(s[..|s| - 1]), s[|s| - 1])
  }

  lemma {:induction false} InsertPerm(t: seq<Value>, x: Value)
    ensures multiset(Insert(t, x)) == multiset(t) + multiset{x}
  {
    if t != [] && Less(x, t[|t| - 1]) {
      var front := t[..|t| - 1];
      InsertPerm(front, x);
      assert t == front + [t[|t| - 1]];
    }
  }

  /** No constant of s denotes more than b. */
  predicate AtMost(s: seq<Value>, b: int) {
    forall v :: v in s ==> Key(v) <= b
  }

  lemma SortedAtMostLast(t: seq<Value>)
    requires Sorted(t) && |t| > 0
    ensures AtMost(t[..|t| - 1], Key(t[|t| - 1]))
    ensures AtMost(t, Key(t[|t| - 1]))
  {
    forall v | v in t ensures Key(v) <= Key(t[|t| - 1]) {
      var i :| 0 <= i < |t| && t[i] == v;
    }
    forall v | v in t[..|t| - 1] ensures v in t {
    }
  }

  lemma InsertAtMost(t: seq<Value>, x: Value, b: int)
    requires AtMost(t, b) && Key(x) <= b
    ensures AtMost(Insert(t, x), b)
  {
    InsertPerm(t, x);
    forall v | v in Insert(t, x) ensures Key(v) <= b {
      assert v in multiset(Insert(t, x));
      if v != x {
        assert v in multiset(t);
      }
    }
  }

  lemma SortedSnoc(f: seq<Value>, y: Value)
    requires Sorted(f) && AtMost(f, Key(y))
    ensures Sorted(f + [y])
  {
    var r := f + [y];
    forall i, j | 0 <= i < j < |r| ensures Key(r[i]) <= Key(r[j]) {
      if j == |r| - 1 {
        assert r[i] in f;
      }
    }
  }

  lemma {:induction false} InsertSorted(t: seq<Value>, x: Value)
    requires Sorted(t) && AllSigned(t, x.signed)
    ensures Sorted(Insert(t, x))
  {
    if t != [] {
      var last := t[|t| - 1];
      LessIsKeyOrder(x, last);
      SortedAtMostLast(t);
      if Less(x, last) {
        var front := t[..|t| - 1];
        AllSignedSlice(t, x.signed, 0, |t| - 1);
        InsertSorted(front, x);
        InsertAtMost(front, x, Key(last));
        SortedSnoc(Insert(front, x), last);
      } else {
        SortedSnoc(t, x);
      }
    }
  }

  lemma WithKeySingle(x: Value, k: int)
    ensures WithKey([x], k) == if Key(x) == k then [x] else []
  {
    assert [x][1..] == [];
  }

  /** Moving x in front of a last element that denotes a larger number does
      not change the order of the constants denoting any one number. */
  lemma WithKeyPastLast(f: seq<Value>, front: seq<Value>, last: Value, x: Value, k: int)
    requires Key(x) < Key(last)
    requires WithKey(f, k) == WithKey(front, k) + WithKey([x], k)
    ensures WithKey(f + [last], k) == WithKey(front + [last], k) + WithKey([x], k)
  {
    WithKeyConcat(f, [last], k);
    WithKeyConcat(front, [last], k);
    WithKeySingle(x, k);
    WithKeySingle(last, k);
  }

  lemma {:induction false} InsertWithKey(t: seq<Value>, x: Value, k: int)
    requires AllSigned(t, x.signed)
    ensures WithKey(Insert(t, x), k) == WithKey(t, k) + WithKey([x], k)
  {
    if t == [] {
      assert WithKey([], k) == [];
    } else {
      var last := t[|t| - 1];
      var front := t[..|t| - 1];
      assert t == front + [last];
      if Less(x, last) {
        assert last in t;
        LessIsKeyOrder(x, last);
        AllSignedSlice(t, x.signed, 0, |t| - 1);
        InsertWithKey(front, x, k);
        WithKeyPastLast(Insert(front, x), front, last, x, k);
      } else {
        WithKeyConcat(t, [x], k);
      }
    }
  }

  /** The stable sort is sorted, a permutation of its input, and stable: the
      constants denoting any one number keep their declaration order. */
  lemma {:induction false} StableSortedIsStableSort(s: seq<Value>, sg: bool)
    requires AllSigned(s, sg)
    ensures Sorted(StableSorted(s))
    ensures multiset(StableSorted(s)) == multiset(s)
    ensures forall k :: WithKey(StableSorted(s), k) == WithKey(s, k)
  {
    if s != [] {
      var front := s[..|s| - 1];
      var x := s[|s| - 1];
      assert s == front + [x];
      AllSignedSlice(s, sg, 0, |s| - 1);
      StableSortedIsStableSort(front, sg);
      var t := StableSorted(front);
      InsertPerm(t, x);
      AllSignedPerm(front, t, sg);
      InsertSorted(t, x);
      forall k ensures WithKey(StableSorted(s), k) == WithKey(s, k) {
        InsertWithKey(t, x, k);
        WithKeyConcat(front, [x], k);
      }
    }
  }

  /** Insert puts x right after the last element it is not less than, with only
      greater elements behind it. */
  lemma {:induction false} InsertAt(t: seq<Value>, x: Value, j: int)
    requires 0 <= j <= |t|
    requires j == 0 || !Less(x, t[j - 1])
    requires forall m :: j <= m < |t| ==> Less(x, t[m])
    ensures Insert(t, x) == t[..j] + [x] + t[j..]
  {
    if j < |t| {
      var front := t[..|t| - 1];
      assert front[..j] == t[..j];
      InsertAt(front, x, j);
      assert front[j..] + [t[|t| - 1]] == t[j..];
    } else {
      assert t[..j] == t && t[j..] == [];
    }
  }

  lemma Spliced(u: seq<Value>, t: seq<Value>, x: Value, j: int)
    requires 0 <= j <= |t| && |u| == |t| + 1 && u[j] == x
    requires forall m :: 0 <= m < j ==> u[m] == t[m]
    requires forall m :: j < m < |u| ==> u[m] == t[m - 1]
    ensures u == t[..j] + [x] + t[j..]
  {
    forall m | 0 <= m < |u| ensures u[m] == (t[..j] + [x] + t[j..])[m] {
      if m > j {
        assert (t[..j] + [x] + t[j..])[m] == t[m - 1];
      }
    }
  }

  /** The inner loop of Go's insertionSort: swaps a[i] leftwards past every
      greater element of the sorted prefix a[..i]. */
  method SiftDown(a: array<Value>, i: int)
    requires 0 <= i < a.Length
    modifies a
    ensures a[..i + 1] == Insert(old(a[..i]), old(a[i]))
    ensures forall m :: i < m < a.Length ==> a[m] == old(a[m])
  {
    ghost var t := a[..i];
    ghost var x := a[i];
    var j := i;
    while j > 0 && Less(a[j], a[j - 1])
      invariant 0 <= j <= i
      invariant a[j] == x
      invariant forall m :: 0 <= m < j ==> a[m] == t[m]
      invariant forall m :: j < m <= i ==> a[m] == t[m - 1]
      invariant forall m :: i < m < a.Length ==> a[m] == old(a[m])
      invariant forall m :: j <= m < i ==> Less(x, t[m])
    {
      a[j - 1], a[j] := a[j], a[j - 1];  // byValue.Swap
      j := j - 1;
    }
    InsertAt(t, x, j);
    Spliced(a[..i + 1], t, x, j);
  }

  lemma StableSortedStep(s: seq<Value>, i: int)
    requires 0 <= i < |s|
    ensures StableSorted(s[..i + 1]) == Insert(StableSorted(s[..i]), s[i])
  {
    assert s[..i + 1][..i] == s[..i];
  }

  /** sort.Stable(byValue(values)), as a swap-based insertion sort. */
  method StableSort(a: array<Value>)
    modifies a
    ensures a[..] == StableSorted(old(a[..]))
  {
    ghost var s := a[..];
    var i := 0;
    while i < a.Length
      invariant 0 <= i <= a.Length
      invariant a[..i] == StableSorted(s[..i])
      invariant forall m :: i <= m < a.Length ==> a[m] == s[m]
    {
      SiftDown(a, i);
      StableSortedStep(s, i);
      i := i + 1;
    }
    assert s[..a.Length] == s;
  }

  // ---- Removal of duplicates ----

  /** Keeps each constant whose value differs from its predecessor's. */
  function Deduped(s: seq<Value>): (r: seq<Value>)
    ensures |r| <= |s|
    ensures |s| > 0 ==> |r| > 0 && r[|r| - 1].value == s[|s| - 1].value
  {
    if |s| <= 1 then s
    else
      var p := s[..|s| - 1];
      Deduped(p) + (if s[|s| - 1].value != s[|s| - 2].value then [s[|s| - 1]] else [])
  }

  /** Every survivor is one of the input constants. */
  lemma {:induction false} DedupedMembers(s: seq<Value>)
    ensures forall v :: v in Deduped(s) ==> v in s
  {
    if |s| > 1 {
      var p := s[..|s| - 1];
      DedupedMembers(p);
      assert s == p + [s[|s| - 1]];
    }
  }

  lemma DedupedSigned(s: seq<Value>, sg: bool)
    requires AllSigned(s, sg)
    ensures AllSigned(Deduped(s), sg)
  {
    DedupedMembers(s);
  }

  /** The survivors of a sorted sequence are strictly increasing. */
  lemma {:induction false} DedupedStrictlySorted(s: seq<Value>, sg: bool)
    requires Sorted(s) && AllSigned(s, sg)
    ensures StrictlySorted(Deduped(s))
  {
    if |s| > 1 {
      var p := s[..|s| - 1];
      var l := s[|s| - 1];
      AllSignedSlice(s, sg, 0, |s| - 1);
      DedupedStrictlySorted(p, sg);
      DedupedSigned(p, sg);
      var d := Deduped(p);
      if l.value != s[|s| - 2].value {
        LessIsKeyOrder(l, s[|s| - 2]);
        assert s[|s| - 2] in s;
        var r := d + [l];
        forall i, j | 0 <= i < j < |r| ensures Key(r[i]) < Key(r[j]) {
          if j == |r| - 1 {
            assert Key(r[i]) <= Key(d[|d| - 1]);
            assert d[|d| - 1].value == p[|p| - 1].value;
            assert d[|d| - 1] in d && p[|p| - 1] in p;
            LessIsKeyOrder(d[|d| - 1], p[|p| - 1]);
          }
        }
      }
    }
  }

  lemma {:induction false} WithKeyAbsent(s: seq<Value>, k: int)
    requires forall i :: 0 <= i < |s| ==> Key(s[i]) != k
    ensures WithKey(s, k) == []
  {
    if s != [] {
      WithKeyAbsent(s[1..], k);
    }
  }

  lemma SortedBelow(p: seq<Value>, k: int)
    requires Sorted(p) && |p| > 0 && Key(p[|p| - 1]) < k
    ensures WithKey(p, k) == []
  {
    forall i | 0 <= i < |p| ensures Key(p[i]) != k {
      assert Key(p[i]) <= Key(p[|p| - 1]);
    }
    WithKeyAbsent(p, k);
  }

  /** The first element of w alone, or nothing. */
  function FirstOnly(w: seq<Value>): seq<Value> {
    if w == [] then [] else [w[0]]
  }

  /** Removing duplicates from a sorted sequence keeps, for every number, exactly
      the first constant that denotes it, and drops no number. */
  lemma {:induction false} DedupedKeepsFirst(s: seq<Value>, sg: bool, k: int)
    requires Sorted(s) && AllSigned(s, sg)
    ensures WithKey(Deduped(s), k) == FirstOnly(WithKey(s, k))
  {
    if |s| > 1 {
      var p, l := s[..|s| - 1], s[|s| - 1];
      assert s == p + [l];
      AllSignedSlice(s, sg, 0, |s| - 1);
      DedupedKeepsFirst(p, sg, k);
      assert l in s && p[|p| - 1] in s;
      if Key(l) == k && l.value != p[|p| - 1].value {
        LessIsKeyOrder(l, p[|p| - 1]);
        SortedBelow(p, k);
      }
      DedupedStep(p, l, k);
    } else if |s| == 1 {
      assert s == [s[0]];
      WithKeySingle(s[0], k);
    }
  }

  /** The inductive step of DedupedKeepsFirst: the appended constant is kept
      exactly when its value differs from its predecessor's. */
  lemma DedupedStep(p: seq<Value>, l: Value, k: int)
    requires |p| > 0 && l.signed == p[|p| - 1].signed
    requires Key(l) == k && l.value != p[|p| - 1].value ==> WithKey(p, k) == []
    requires WithKey(Deduped(p), k) == FirstOnly(WithKey(p, k))
    ensures WithKey(Deduped(p + [l]), k) == FirstOnly(WithKey(p + [l], k))
  {
    var s := p + [l];
    assert s[..|s| - 1] == p;
    WithKeyConcat(p, [l], k);
    WithKeySingle(l, k);
    if Key(l) != k {
      DedupedStepOther(p, l, k);
    } else if l.value == p[|p| - 1].value {
      DedupedStepRepeat(p, l, k);
    } else {
      DedupedStepNew(p, l, k);
    }
  }

  /** Appending a constant that denotes another number changes nothing for k. */
  lemma DedupedStepOther(p: seq<Value>, l: Value, k: int)
    requires |p| > 0 && Key(l) != k
    requires WithKey(Deduped(p), k) == FirstOnly(WithKey(p, k))
    requires WithKey(p + [l], k) == WithKey(p, k)
    ensures WithKey(Deduped(p + [l]), k) == FirstOnly(WithKey(p + [l], k))
  {
    var s := p + [l];
    assert s[..|s| - 1] == p;
    var e := if l.value != p[|p| - 1].value then [l] else [];
    assert Deduped(s) == Deduped(p) + e;
    WithKeyConcat(Deduped(p), e, k);
    WithKeySingle(l, k);
  }

  /** A repeat of the last value is dropped, and k already has its first
      constant in p. */
  lemma DedupedStepRepeat(p: seq<Value>, l: Value, k: int)
    requires |p| > 0 && l.signed == p[|p| - 1].signed && Key(l) == k && l.value == p[|p| - 1].value
    requires WithKey(Deduped(p), k) == FirstOnly(WithKey(p, k))
    requires WithKey(p + [l], k) == WithKey(p, k) + [l]
    ensures WithKey(Deduped(p + [l]), k) == FirstOnly(WithKey(p + [l], k))
  {
    var s := p + [l];
    assert s[..|s| - 1] == p && s[|s| - 2] == p[|p| - 1];
    assert Deduped(s) == Deduped(p);
    LessIsKeyOrder(l, p[|p| - 1]);
    WithKeyFinds(p, |p| - 1);
    var w := WithKey(p, k);
    assert w != [] && (w + [l])[0] == w[0];
  }

  /** A new value is kept, and it is the first constant of k. */
  lemma DedupedStepNew(p: seq<Value>, l: Value, k: int)
    requires |p| > 0 && Key(l) == k && l.value != p[|p| - 1].value
    requires WithKey(Deduped(p), k) == FirstOnly(WithKey(p, k)) && WithKey(p, k) == []
    requires WithKey(p + [l], k) == [l]
    ensures WithKey(Deduped(p + [l]), k) == FirstOnly(WithKey(p + [l], k))
  {
    var s := p + [l];
    assert s[..|s| - 1] == p;
    assert Deduped(s) == Deduped(p) + [l];
    WithKeyConcat(Deduped(p), [l], k);
    WithKeySingle(l, k);
  }

  lemma DedupedSnoc(s: seq<Value>, i: int)
    requires 0 < i < |s|
    ensures Deduped(s[..i + 1]) == Deduped(s[..i]) + if s[i].value != s[i - 1].value then [s[i]] else []
  {
    assert s[..i + 1][..i] == s[..i];
  }

  /** Removes duplicates in place (the j-compaction loop) and returns the
      number of survivors. */
  method Dedup(a: array<Value>) returns (j: nat)
    requires a.Length > 0
    modifies a
    ensures 1 <= j <= a.Length
    ensures a[..j] == Deduped(old(a[..]))
  {
    ghost var s := a[..];
    ghost var d := [s[0]];
    j := 1;
    var i := 1;
    assert s[..1] == [s[0]];
    while i < a.Length
      invariant 1 <= j <= i <= a.Length
      invariant d == Deduped(s[..i]) && |d| == j
      invariant a[..j] == d
      invariant forall m :: i <= m < a.Length ==> a[m] == s[m]
      invariant a[i - 1] == s[i - 1]
    {
      assert a[i] == s[i];
      ghost var e := if s[i].value != s[i - 1].value then [s[i]] else [];
      DedupedSnoc(s, i);
      if a[i].value != a[i - 1].value {
        a[j] := a[i];
        j := j + 1;
      }
      d := d + e;
      i := i + 1;
    }
    assert s[..a.Length] == s;
    assert a[..j] == d;
  }

  // ---- Runs ----

  function Last(r: seq<Value>): Value
    requires |r| > 0
  {
    r[|r| - 1]
  }

  /** The runs, concatenated in order. */
  function Flatten(runs: seq<seq<Value>>): seq<Value> {
    if runs == [] then [] else runs[0] + Flatten(runs[1..])
  }

  lemma {:induction false} FlattenSnoc(runs: seq<seq<Value>>, r: seq<Value>)
    ensures Flatten(runs + [r]) == Flatten(runs) + r
  {
    if runs == [] {
      assert [] + [r] == [r];
      assert Flatten([r]) == r + Flatten([]);
    } else {
      assert (runs + [r])[1..] == runs[1..] + [r];
      FlattenSnoc(runs[1..], r);
    }
  }

  /** Each raw value is the uint64 successor of the one before. */
  predicate SuccChain(r: seq<Value>) {
    forall i :: 0 < i < |r| ==> Succ(r[i - 1], r[i])
  }

  /** What splitIntoRuns promises of its runs: non-empty chains of successors,
      each ending where the next cannot continue it. */
  predicate IsRunSplit(runs: seq<seq<Value>>) {
    && (forall k :: 0 <= k < |runs| ==> |runs[k]| > 0 && SuccChain(runs[k]))
    && (forall k :: 0 <= k < |runs| - 1 ==> |runs[k]| > 0 && !Succ(Last(runs[k]), runs[k + 1][0]))
  }

  /** The run-peeling loop of splitIntoRuns over the deduplicated slice. */
  method SplitRuns(values: seq<Value>) returns (runs: seq<seq<Value>>)
    ensures Flatten(runs) == values
    ensures IsRunSplit(runs)
  {
    runs := [];
    var rest := values;
    while |rest| > 0
      invariant Flatten(runs) + rest == values
      invariant IsRunSplit(runs)
      invariant |runs| > 0 && |rest| > 0 ==> !Succ(Last(runs[|runs| - 1]), rest[0])
    {
      var i := 1;
      while i < |rest| && rest[i].value == NextU64(rest[i - 1].value)
        invariant 1 <= i <= |rest|
        invariant SuccChain(rest[..i])
      {
        i := i + 1;
      }
      var run, next := rest[..i], rest[i..];
      assert rest == run + next;
      assert Last(run) == rest[i - 1];
      FlattenSnoc(runs, run);
      RunSplitSnoc(runs, run);
      runs := runs + [run];
      rest := next;
    }
    assert Flatten(runs) + [] == Flatten(runs);
  }

  /** Appending a chain of successors that does not continue the last run
      keeps a run split. */
  lemma RunSplitSnoc(runs: seq<seq<Value>>, r: seq<Value>)
    requires IsRunSplit(runs) && |r| > 0 && SuccChain(r)
    requires |runs| > 0 ==> !Succ(Last(runs[|runs| - 1]), r[0])
    ensures IsRunSplit(runs + [r])
  {
  }

  lemma FlattenCons(runs: seq<seq<Value>>)
    requires |runs| > 0
    ensures Flatten(runs) == runs[0] + Flatten(runs[1..])
    ensures |Flatten(runs)| >= |runs[0]|
  {
  }

  /** Two run splits of one sequence cannot differ in the length of their first
      run: where the shorter one ends, the longer one continues with a
      successor, which the shorter one's boundary rules out. */
  lemma FirstRunNotShorter(r1: seq<seq<Value>>, r2: seq<seq<Value>>)
    requires IsRunSplit(r1) && IsRunSplit(r2) && Flatten(r1) == Flatten(r2)
    requires |r1| > 0 && |r2| > 0
    ensures |r1[0]| >= |r2[0]|
  {
    var f := Flatten(r1);
    var n := |r1[0]|;
    FlattenCons(r2);
    ChainOfPrefix(r2[0], f);
    if |r1| == 1 {
      FlattenCons(r1);
      assert r1[1..] == [];
    } else {
      FlattenBoundary(r1);
      assert !Succ(f[n - 1], f[n]);
    }
  }

  /** The constants on either side of the end of the first run. */
  lemma FlattenBoundary(runs: seq<seq<Value>>)
    requires |runs| > 1 && |runs[0]| > 0 && |runs[1]| > 0
    ensures |Flatten(runs)| > |runs[0]|
    ensures Flatten(runs)[|runs[0]| - 1] == Last(runs[0]) && Flatten(runs)[|runs[0]|] == runs[1][0]
  {
    FlattenCons(runs);
    FlattenCons(runs[1..]);
  }

  /** A chain of successors at the start of f makes each of f's first |b|
      constants a successor of the one before. */
  lemma ChainOfPrefix(b: seq<Value>, f: seq<Value>)
    requires SuccChain(b) && b <= f
    ensures forall i :: 0 < i < |b| ==> Succ(f[i - 1], f[i])
  {
  }

  /** The run split of a sequence is unique: splitIntoRuns has one possible
      answer. */
  lemma {:induction false} RunSplitUnique(r1: seq<seq<Value>>, r2: seq<seq<Value>>)
    requires IsRunSplit(r1) && IsRunSplit(r2) && Flatten(r1) == Flatten(r2)
    ensures r1 == r2
  {
    if r1 != [] && r2 != [] {
      FirstRunNotShorter(r1, r2);
      FirstRunNotShorter(r2, r1);
      FlattenCons(r1);
      FlattenCons(r2);
      var n := |r1[0]|;
      assert r1[0] == Flatten(r1)[..n] == r2[0];
      assert Flatten(r1[1..]) == Flatten(r1)[n..] == Flatten(r2[1..]);
      RunSplitTail(r1);
      RunSplitTail(r2);
      RunSplitUnique(r1[1..], r2[1..]);
      assert r1 == [r1[0]] + r1[1..];
      assert r2 == [r2[0]] + r2[1..];
    } else if r1 != [] {
      FlattenCons(r1);
    } else if r2 != [] {
      FlattenCons(r2);
    }
  }

  /** The fixture with the values 100, 101, 103, 104, 105 splits into the runs
      100-101 and 103-105. */
  lemma GoldenRuns(v: seq<Value>, runs: seq<seq<Value>>)
    requires |v| == 5
    requires v[0].value == 100 && v[1].value == 101 && v[2].value == 103 && v[3].value == 104 && v[4].value == 105
    requires IsRunSplit(runs) && Flatten(runs) == v
    ensures runs == [v[..2], v[2..]]
  {
    var expected := [v[..2], v[2..]];
    assert expected[1..] == [v[2..]] && [v[2..]][1..] == [];
    assert Flatten(expected) == v[..2] + (v[2..] + Flatten([]));
    assert v == v[..2] + v[2..];
    assert SuccChain(v[2..]) by {
      assert v[2..][1] == v[3] && v[2..][2] == v[4];
    }
    assert IsRunSplit(expected);
    RunSplitUnique(runs, expected);
  }

  /** splitIntoRuns on the collected constants: sorts and compacts the slice in
      place, then splits what survives. */
  method SplitIntoRuns(a: array<Value>) returns (runs: seq<seq<Value>>)
    requires a.Length > 0
    modifies a
    ensures Flatten(runs) == Deduped(StableSorted(old(a[..])))
    ensures IsRunSplit(runs)
  {
    StableSort(a);
    var j := Dedup(a);
    runs := SplitRuns(a[..j]);
  }

  // ---- What the runs mean ----

  /** The denoted numbers of a run count up by one from its first constant. */
  predicate Consecutive(r: seq<Value>) {
    forall i :: 0 <= i < |r| ==> Key(r[i]) == Key(r[0]) + i
  }

  lemma {:induction false} StrictlySortedSplit(a: seq<Value>, b: seq<Value>)
    requires StrictlySorted(a + b)
    ensures StrictlySorted(a) && StrictlySorted(b)
    ensures forall i, j :: 0 <= i < |a| && 0 <= j < |b| ==> Key(a[i]) < Key(b[j])
  {
    forall i, j | 0 <= i < j < |a| ensures Key(a[i]) < Key(a[j]) {
      assert a[i] == (a + b)[i] && a[j] == (a + b)[j];
    }
    forall i, j | 0 <= i < j < |b| ensures Key(b[i]) < Key(b[j]) {
      assert b[i] == (a + b)[|a| + i] && b[j] == (a + b)[|a| + j];
    }
    forall i, j | 0 <= i < |a| && 0 <= j < |b| ensures Key(a[i]) < Key(b[j]) {
      assert a[i] == (a + b)[i] && b[j] == (a + b)[|a| + j];
    }
  }

  lemma {:induction false} ChainIsConsecutive(r: seq<Value>, sg: bool)
    requires SuccChain(r) && StrictlySorted(r) && AllSigned(r, sg)
    ensures Consecutive(r)
  {
    if |r| > 1 {
      var p := r[..|r| - 1];
      AllSignedSlice(r, sg, 0, |r| - 1);
      ChainIsConsecutive(p, sg);
      assert r[|r| - 2] in r && r[|r| - 1] in r;
      SuccIsNextKey(r[|r| - 2], r[|r| - 1]);
    }
  }

  lemma RunSplitTail(runs: seq<seq<Value>>)
    requires IsRunSplit(runs) && |runs| > 0
    ensures IsRunSplit(runs[1..])
  {
    forall k | 0 <= k < |runs| - 2 ensures !Succ(Last(runs[1..][k]), runs[1..][k + 1][0]) {
      assert runs[1..][k] == runs[k + 1] && runs[1..][k + 1] == runs[k + 2];
    }
  }

  /** Between the first two runs of a strictly increasing split lies a gap. */
  lemma FirstGap(runs: seq<seq<Value>>, sg: bool)
    requires |runs| > 1 && IsRunSplit(runs)
    requires StrictlySorted(Flatten(runs)) && AllSigned(Flatten(runs), sg)
    ensures Key(Last(runs[0])) + 1 < Key(runs[1][0])
  {
    var f := Flatten(runs);
    var n := |runs[0]|;
    FlattenBoundary(runs);
    assert f[n - 1] in f && f[n] in f;
    assert Key(f[n - 1]) < Key(f[n]);
    SuccIsNextKey(f[n - 1], f[n]);
  }

  /** When the split input is strictly increasing, every run is a block of
      consecutive numbers and the runs are ascending with a gap between them:
      the first number of a run is never the last of the previous run plus one. */
  lemma {:induction false} RunsAreMaximalBlocks(runs: seq<seq<Value>>, sg: bool)
    requires IsRunSplit(runs)
    requires StrictlySorted(Flatten(runs)) && AllSigned(Flatten(runs), sg)
    ensures forall k :: 0 <= k < |runs| ==> Consecutive(runs[k])
    ensures forall k :: 0 <= k < |runs| - 1 ==> Key(Last(runs[k])) + 1 < Key(runs[k + 1][0])
  {
    if runs != [] {
      var tail := runs[1..];
      StrictlySortedSplit(runs[0], Flatten(tail));
      AllSignedConcat(runs[0], Flatten(tail), sg);
      ChainIsConsecutive(runs[0], sg);
      RunSplitTail(runs);
      RunsAreMaximalBlocks(tail, sg);
      if |runs| > 1 {
        FirstGap(runs, sg);
      }
      forall k | 0 < k < |runs| ensures Consecutive(runs[k]) {
        assert runs[k] == tail[k - 1];
      }
      forall k | 0 < k < |runs| - 1 ensures Key(Last(runs[k])) + 1 < Key(runs[k + 1][0]) {
        assert runs[k] == tail[k - 1] && runs[k + 1] == tail[k];
      }
    }
  }

  /** The survivors are strictly increasing under byValue.Less itself. */
  lemma NormalizedIncreasing(decls: seq<Value>, sg: bool)
    requires AllSigned(decls, sg)
    ensures forall i, j :: 0 <= i < j < |Deduped(StableSorted(decls))| ==>
      Less(Deduped(StableSorted(decls))[i], Deduped(StableSorted(decls))[j])
  {
    var d := Deduped(StableSorted(decls));
    NormalizedKeepsFirstDeclared(decls, sg);
    forall i, j | 0 <= i < j < |d| ensures Less(d[i], d[j]) {
      assert d[i] in d && d[j] in d;
      LessIsKeyOrder(d[i], d[j]);
    }
  }

  /** What the normalizer achieves on the declarations of one type: the survivors
      are strictly increasing, and for every number the survivor is the
      first-declared constant denoting it; no number is lost. */
  lemma NormalizedKeepsFirstDeclared(decls: seq<Value>, sg: bool)
    requires AllSigned(decls, sg)
    ensures StrictlySorted(Deduped(StableSorted(decls)))
    ensures AllSigned(Deduped(StableSorted(decls)), sg)
    ensures forall k :: FirstDeclared(Deduped(StableSorted(decls)), k) == FirstDeclared(decls, k)
  {
    var t := StableSorted(decls);
    StableSortedIsStableSort(decls, sg);
    AllSignedPerm(decls, t, sg);
    DedupedStrictlySorted(t, sg);
    DedupedSigned(t, sg);
    forall k ensures FirstDeclared(Deduped(t), k) == FirstDeclared(decls, k) {
      DedupedKeepsFirst(t, sg, k);
      assert WithKey(Deduped(t), k) == FirstOnly(WithKey(t, k));
    }
  }
}
