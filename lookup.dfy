/** What the generated String method computes, for each of the three shapes
    of code the generator writes: one run (stringOneRun and
    stringOneRunWithOffset), a switch over several runs (buildMultipleRuns) and
    a map (buildMap with stringMap). */
module Lookup {
  import opened Values
  import opened Normalizer
  import opened Tables

  /** The result of a call of String: a string, or a run-time panic from an
      index or a slice out of range. */
  datatype Outcome = Returns(text: Text) | Panics

  /** One case of the switch that buildMultipleRuns writes. */
  datatype Case =
    | Equal(value: int, name: Bytes)
      // `case i == v: return _T_name_k`, for a run of one constant
    | Within(lo: int, hi: int, subtract: bool, table: Table)
      // `case lo <= i && i <= hi: [i -= lo]; return _T_name_k[_T_index_k[i]:_T_index_k[i+1]]`

  /** The generated String method. */
  datatype Code =
    | OneRun(first: int, subtract: bool, lessThanZero: bool, table: Table)
    | MultipleRuns(cases: seq<Case>)
    | SparseMap(names: Bytes, entries: seq<MapEntry>)

  /** `s[lo:hi]`, with Go's bounds check. */
  function SliceAt(s: Bytes, lo: int, hi: int): Outcome {
    if 0 <= lo <= hi <= |s| then Returns(Name(s[lo..hi])) else Panics
  }

  /** `_T_name[_T_index[i]:_T_index[i+1]]` for i of the enum's type t: `i+1`
      is computed in t and wraps, and every index and slice is bounds-checked. */
  function SliceName(t: IntType, table: Table, i: int): Outcome
    requires ValidType(t)
  {
    var j := Wrap(t, i + 1);
    if 0 <= i < |table.index| && 0 <= j < |table.index| then SliceAt(table.names, table.index[i], table.index[j]) else Panics
  }

  /** Looking up slot i of the table of a run gives the name of its i-th
      constant, when `i+1` does not wrap. */
  lemma SliceNameOfTable(t: IntType, table: Table, run: seq<Value>, i: int)
    requires ValidType(t) && IsTableOf(table, run) && 0 <= i < |run| && i < Max(t)
    ensures SliceName(t, table, i) == Returns(Name(run[i].name))
  {
    assert InRange(t, i + 1);
  }

  /** stringOneRun (no offset) and stringOneRunWithOffset: `i -= first` and
      `i + first` are computed in the enum's type t and wrap around. The bound
      is the number of constants, `len(_T_index)-1`. */
  function StringOneRun(t: IntType, code: Code, x: int): Outcome
    requires ValidType(t) && code.OneRun?
  {
    var count := |code.table.index| - 1;
    if !code.subtract then
      if (code.lessThanZero && x < 0) || x >= count then Returns(Number(x))
      else SliceName(t, code.table, x)
    else
      var i := Wrap(t, x - code.first);
      if (code.lessThanZero && i < 0) || i >= count then Returns(Number(Wrap(t, i + code.first)))
      else SliceName(t, code.table, i)
  }

  /** The switch of buildMultipleRuns: the first case that matches decides;
      without a match, the default case prints the fallback. */
  function StringMultipleRuns(t: IntType, cases: seq<Case>, x: int): Outcome
    requires ValidType(t)
  {
    if cases == [] then Returns(Number(x))
    else match cases[0]
      case Equal(v, name) =>
        if x == v then Returns(Name(name)) else StringMultipleRuns(t, cases[1..], x)
      case Within(lo, hi, subtract, table) =>
        if lo <= x && x <= hi then SliceName(t, table, if subtract then Wrap(t, x - lo) else x)
        else StringMultipleRuns(t, cases[1..], x)
  }

  /** stringMap: the entry for x, if there is one, else the fallback. */
  function StringMap(names: Bytes, entries: seq<MapEntry>, x: int): Outcome {
    if entries == [] then Returns(Number(x))
    else if entries[0].key == x then SliceAt(names, entries[0].lo, entries[0].hi)
    else StringMap(names, entries[1..], x)
  }

  /** What String returns for a value x of the enum's type t. */
  function StringOf(t: IntType, code: Code, x: int): Outcome
    requires ValidType(t)
  {
    match code
    case OneRun(_, _, _, _) => StringOneRun(t, code, x)
    case MultipleRuns(cases) => StringMultipleRuns(t, cases, x)
    case SparseMap(names, entries) => StringMap(names, entries, x)
  }

  /** The generated code is safe in type t when a single run's length is a
      value of t (so that `T(len(_T_index)-1)` compiles) and when every range
      of the switch spans less than the largest value of t (so that neither
      `i -= lo` nor the `i+1` of the slice wraps). */
  predicate Safe(t: IntType, code: Code)
    requires ValidType(t)
  {
    match code
    case OneRun(_, _, _, table) => |table.index| - 1 <= Max(t)
    case MultipleRuns(cases) => forall c :: c in cases && c.Within? ==> c.hi - c.lo < Max(t)
    case SparseMap(_, _) => true
  }

  /** Why the switch needs Safe: in int8, the case for a run -100 .. 100
      subtracts -100 from 100, which wraps to -56, and the slice panics. */
  lemma WideSignedCasePanics(table: Table)
    ensures !Safe(IntType(true, 8), MultipleRuns([Within(-100, 100, true, table)]))
    ensures StringOf(IntType(true, 8), MultipleRuns([Within(-100, 100, true, table)]), 100) == Panics
  {
    assert Wrap(IntType(true, 8), 200) == -56;
  }

  /** Why the range must span less than the largest value: in int8, the case
      for a run -128 .. -1 maps -1 to slot 127, whose `i+1` wraps to -128, and
      the index panics. */
  lemma MaxSpanCasePanics(table: Table)
    ensures !Safe(IntType(true, 8), MultipleRuns([Within(-128, -1, true, table)]))
    ensures StringOf(IntType(true, 8), MultipleRuns([Within(-128, -1, true, table)]), -1) == Panics
  {
    assert Wrap(IntType(true, 8), 127) == 127;
    assert Wrap(IntType(true, 8), 128) == -128;
  }

  // ---- Agreement with the first-declared name ----

  /** In a run of consecutive numbers, x is denoted by exactly the constant at
      offset x - first, when it lies in the run, and by none otherwise. */
  lemma ConsecutiveFirstDeclared(r: seq<Value>, x: int)
    requires |r| > 0 && Consecutive(r)
    ensures FirstDeclared(r, x) ==
      if Key(r[0]) <= x < Key(r[0]) + |r| then Some(r[x - Key(r[0])]) else None
  {
    if Key(r[0]) <= x < Key(r[0]) + |r| {
      var i := x - Key(r[0]);
      assert r == r[..i] + ([r[i]] + r[i + 1..]);
      WithKeyAbsent(r[..i], x);
      WithKeyConcat(r[..i], [r[i]] + r[i + 1..], x);
      WithKeyConcat([r[i]], r[i + 1..], x);
      WithKeySingle(r[i], x);
    } else {
      WithKeyAbsent(r, x);
    }
  }

  /** A run as Generate hands it to buildOneRun or buildMultipleRuns: non-empty,
      consecutive, of the enum's signedness, its ends values of the type. */
  predicate RunOf(t: IntType, run: seq<Value>)
    requires ValidType(t)
  {
    && |run| > 0
    && Consecutive(run)
    && run[0].signed == t.signed
    && InRange(t, Key(run[0])) && InRange(t, Key(Last(run)))
  }

  /** The code buildOneRun writes for run. */
  predicate IsOneRunOf(code: Code, run: seq<Value>) {
    && |run| > 0
    && code.OneRun?
    && code.first == Key(run[0])
    && code.subtract == (run[0].value != 0)
    && code.lessThanZero == run[0].signed
    && IsTableOf(code.table, run)
  }

  /** The single-run bounds test, with or without the offset, passes exactly
      for the values first .. first+count-1 and then looks up slot x - first;
      every other value gets the fallback with x itself, since `i + first`
      undoes the wrapped `i -= first`. */
  lemma OneRunBoundsTest(t: IntType, code: Code, x: int)
    requires ValidType(t) && code.OneRun? && InRange(t, x)
    requires 1 <= |code.table.index| - 1 <= Max(t)
    requires InRange(t, code.first) && InRange(t, code.first + |code.table.index| - 2)
    requires code.lessThanZero == t.signed
    requires !code.subtract ==> code.first == 0
    ensures StringOneRun(t, code, x) ==
      if code.first <= x < code.first + |code.table.index| - 1 then SliceName(t, code.table, x - code.first)
      else Returns(Number(x))
  {
    var first, count := code.first, |code.table.index| - 1;
    if code.subtract {
      var i := Wrap(t, x - first);
      assert StringOneRun(t, code, x) ==
        if (t.signed && i < 0) || i >= count then Returns(Number(Wrap(t, i + first))) else SliceName(t, code.table, i);
      WrapOffset(t, x, first, count);
    }
  }

  /** For a single run whose length is a value of the type, String returns the
      name of the first-declared constant with value x, or the fallback. */
  lemma OneRunAgrees(t: IntType, run: seq<Value>, code: Code, x: int)
    requires ValidType(t) && RunOf(t, run) && IsOneRunOf(code, run)
    requires |run| <= Max(t)
    requires InRange(t, x)
    ensures StringOf(t, code, x) == Returns(Reference(run, x))
  {
    var first, count := Key(run[0]), |code.table.index| - 1;
    assert count == |run| && code.first == first;
    assert Key(Last(run)) == first + count - 1;
    assert InRange(t, code.first + |code.table.index| - 2);
    OneRunBoundsTest(t, code, x);
    ConsecutiveFirstDeclared(run, x);
    if first <= x < first + count {
      SliceNameOfTable(t, code.table, run, x - first);
    }
  }

  /** The case buildMultipleRuns writes for run. */
  predicate IsCaseOf(c: Case, run: seq<Value>) {
    && |run| > 0
    && (if |run| == 1 then c == Equal(Key(run[0]), run[0].name)
        else
          && c.Within?
          && c.lo == Key(run[0]) && c.hi == Key(Last(run))
          && c.subtract == (run[0].value != 0)
          && IsTableOf(c.table, run))
  }

  /** One case decides exactly the values of its run, with the run's name. */
  lemma CaseAgrees(t: IntType, run: seq<Value>, cases: seq<Case>, x: int)
    requires ValidType(t) && RunOf(t, run) && |cases| > 0 && IsCaseOf(cases[0], run)
    requires |run| <= Max(t)
    requires InRange(t, x)
    ensures StringMultipleRuns(t, cases, x) ==
      match FirstDeclared(run, x)
      case Some(v) => Returns(Name(v.name))
      case None => StringMultipleRuns(t, cases[1..], x)
  {
    var first := Key(run[0]);
    ConsecutiveFirstDeclared(run, x);
    assert Key(Last(run)) == first + |run| - 1;
    if |run| > 1 && first <= x < first + |run| {
      var c := cases[0];
      if c.subtract {
        assert InRange(t, x - first);
      } else {
        assert first == 0;
      }
      SliceNameOfTable(t, c.table, run, x - first);
    }
  }

  /** The switch over the runs, in order, returns the name of the first-declared
      constant with value x, or the fallback. */
  lemma {:induction false} MultipleRunsAgree(t: IntType, runs: seq<seq<Value>>, cases: seq<Case>, x: int)
    requires ValidType(t) && |cases| == |runs|
    requires forall k :: 0 <= k < |runs| ==> RunOf(t, runs[k]) && IsCaseOf(cases[k], runs[k]) && |runs[k]| <= Max(t)
    requires InRange(t, x)
    ensures StringMultipleRuns(t, cases, x) == Returns(Reference(Flatten(runs), x))
  {
    if runs != [] {
      CaseAgrees(t, runs[0], cases, x);
      assert forall k :: 0 <= k < |runs| - 1 ==> runs[1..][k] == runs[k + 1] && cases[1..][k] == cases[k + 1];
      MultipleRunsAgree(t, runs[1..], cases[1..], x);
      FirstDeclaredConcat(runs[0], Flatten(runs[1..]), x);
    }
  }

  /** The map returns the name of the first-declared constant with value x, or
      the fallback. */
  lemma {:induction false} MapAgrees(names: Bytes, entries: seq<MapEntry>, s: seq<Value>, x: int)
    requires IsMapOf(names, entries, s)
    ensures StringMap(names, entries, x) == Returns(Reference(s, x))
  {
    if s != [] {
      assert forall e :: 0 <= e < |s| - 1 ==> entries[1..][e] == entries[e + 1] && s[1..][e] == s[e + 1];
      MapAgrees(names, entries[1..], s[1..], x);
      assert s == [s[0]] + s[1..];
      FirstDeclaredConcat([s[0]], s[1..], x);
      WithKeySingle(s[0], x);
    }
  }
}
