/** Generate: collects the constants of the type, splits them into runs and
    picks the shape of the String method from the number of runs. */
module Generator {
  import opened Values
  import opened Normalizer
  import opened Tables
  import opened Lookup

  /** The three shapes of generated code. */
  datatype Strategy = Single | Switch | Map

  /** Up to this many runs the generated String is a switch; beyond it a map. */
  const MaxSwitchRuns: int := 10

  /** The switch in Generate on the number of runs. */
  function SelectStrategy(runCount: int): (s: Strategy)
    ensures s == Single <==> runCount == 1
    ensures s == Switch <==> runCount != 1 && runCount <= MaxSwitchRuns
    ensures s == Map <==> runCount > MaxSwitchRuns
  {
    if runCount == 1 then Single
    else if runCount <= MaxSwitchRuns then Switch
    else Map
  }

  lemma SelectStrategyBoundaries()
    ensures SelectStrategy(1) == Single
    ensures SelectStrategy(2) == Switch && SelectStrategy(10) == Switch
    ensures SelectStrategy(11) == Map
  {
  }

  function ShapeOf(code: Code): Strategy {
    match code
    case OneRun(_, _, _, _) => Single
    case MultipleRuns(_) => Switch
    case SparseMap(_, _) => Map
  }

  /** buildOneRun: the table of the run, the offset form when the first value
      is not 0, and the `i < 0 ||` test for signed types. */
  method BuildOneRun(run: seq<Value>) returns (code: Code)
    requires |run| > 0
    ensures IsOneRunOf(code, run)
  {
    var table := CreateIndexAndNameDecl(run);
    code := OneRun(Key(run[0]), run[0].value != 0, run[0].signed, table);
  }

  lemma ConcatNamesSingle(v: Value)
    ensures ConcatNames([v]) == v.name
  {
    assert [v][..0] == [];
  }

  /** buildMultipleRuns: one case per run, in run order; a run of one constant
      is an equality test returning its whole name constant. */
  method BuildMultipleRuns(runs: seq<seq<Value>>) returns (code: Code)
    requires forall k :: 0 <= k < |runs| ==> |runs[k]| > 0
    ensures code.MultipleRuns? && |code.cases| == |runs|
    ensures forall k :: 0 <= k < |runs| ==> IsCaseOf(code.cases[k], runs[k])
  {
    var tables := DeclareIndexAndNameVars(runs);
    var cases: seq<Case> := [];
    for k := 0 to |runs|
      invariant |cases| == k
      invariant forall m :: 0 <= m < k ==> IsCaseOf(cases[m], runs[m])
    {
      var values := runs[k];
      if |values| == 1 {
        ConcatNamesSingle(values[0]);
        assert values == [values[0]];
        cases := cases + [Equal(Key(values[0]), tables[k].names)];
      } else {
        cases := cases + [Within(Key(values[0]), Key(values[|values| - 1]), values[0].value != 0, tables[k])];
      }
    }
    code := MultipleRuns(cases);
  }

  // ---- Facts about the runs of the declared constants ----

  /** The constants of one declared type t, as the type checker delivers them. */
  predicate DeclsOf(t: IntType, decls: seq<Value>)
    requires ValidType(t)
  {
    forall v :: v in decls ==> v.signed == t.signed && InRange(t, Key(v))
  }

  lemma {:induction false} FlattenHas(runs: seq<seq<Value>>, k: int)
    requires 0 <= k < |runs|
    ensures |runs[k]| <= |Flatten(runs)|
    ensures forall v :: v in runs[k] ==> v in Flatten(runs)
  {
    if k > 0 {
      FlattenHas(runs[1..], k - 1);
    }
  }

  lemma NormalizedDecls(t: IntType, decls: seq<Value>)
    requires ValidType(t) && DeclsOf(t, decls)
    ensures DeclsOf(t, Deduped(StableSorted(decls)))
    ensures |Deduped(StableSorted(decls))| <= |decls|
  {
    var s := StableSorted(decls);
    StableSortedIsStableSort(decls, t.signed);
    DedupedMembers(s);
    forall v | v in Deduped(s) ensures v.signed == t.signed && InRange(t, Key(v)) {
      assert v in multiset(s);
    }
  }

  /** The runs of a type's constants are runs in the sense of the lookup code,
      and their names are the first-declared ones. */
  lemma RunsOfDecls(t: IntType, decls: seq<Value>, runs: seq<seq<Value>>)
    requires ValidType(t) && DeclsOf(t, decls)
    requires Flatten(runs) == Deduped(StableSorted(decls)) && IsRunSplit(runs)
    ensures forall k :: 0 <= k < |runs| ==> RunOf(t, runs[k]) && |runs[k]| <= |decls|
    ensures forall x :: Reference(Flatten(runs), x) == Reference(decls, x)
  {
    var flat := Flatten(runs);
    NormalizedDecls(t, decls);
    NormalizedKeepsFirstDeclared(decls, t.signed);
    RunsAreMaximalBlocks(runs, t.signed);
    forall k | 0 <= k < |runs| ensures RunOf(t, runs[k]) && |runs[k]| <= |decls| {
      FlattenHas(runs, k);
      assert runs[k][0] in runs[k] && Last(runs[k]) in runs[k];
    }
  }

  // ---- The generated code agrees with the declarations ----

  lemma SingleAgrees(t: IntType, decls: seq<Value>, runs: seq<seq<Value>>, code: Code)
    requires ValidType(t) && DeclsOf(t, decls)
    requires Flatten(runs) == Deduped(StableSorted(decls)) && IsRunSplit(runs)
    requires |runs| == 1 && IsOneRunOf(code, runs[0])
    ensures Safe(t, code) ==> forall x :: InRange(t, x) ==> StringOf(t, code, x) == Returns(Reference(decls, x))
  {
    RunsOfDecls(t, decls, runs);
    assert Flatten(runs) == runs[0] + Flatten([]);
    assert Flatten(runs) == runs[0];
    if Safe(t, code) {
      forall x | InRange(t, x) ensures StringOf(t, code, x) == Returns(Reference(decls, x)) {
        OneRunAgrees(t, runs[0], code, x);
      }
    }
  }

  lemma SwitchAgrees(t: IntType, decls: seq<Value>, runs: seq<seq<Value>>, code: Code)
    requires ValidType(t) && DeclsOf(t, decls)
    requires Flatten(runs) == Deduped(StableSorted(decls)) && IsRunSplit(runs)
    requires code.MultipleRuns? && |code.cases| == |runs|
    requires forall k :: 0 <= k < |runs| ==> IsCaseOf(code.cases[k], runs[k])
    ensures Safe(t, code) ==> forall x :: InRange(t, x) ==> StringOf(t, code, x) == Returns(Reference(decls, x))
  {
    if Safe(t, code) {
      RunsOfDecls(t, decls, runs);
      forall k | 0 <= k < |runs| ensures |runs[k]| <= Max(t) {
        var c := code.cases[k];
        if |runs[k]| > 1 {
          assert c in code.cases && c.Within?;
        }
      }
      forall x | InRange(t, x) ensures StringOf(t, code, x) == Returns(Reference(decls, x)) {
        MultipleRunsAgree(t, runs, code.cases, x);
      }
    }
  }

  lemma MapAgreesWithDecls(t: IntType, decls: seq<Value>, runs: seq<seq<Value>>, code: Code)
    requires ValidType(t) && DeclsOf(t, decls)
    requires Flatten(runs) == Deduped(StableSorted(decls)) && IsRunSplit(runs)
    requires code.SparseMap? && IsMapOf(code.names, code.entries, Flatten(runs))
    ensures forall x :: StringOf(t, code, x) == Returns(Reference(decls, x))
  {
    RunsOfDecls(t, decls, runs);
    forall x ensures StringOf(t, code, x) == Returns(Reference(decls, x)) {
      MapAgrees(code.names, code.entries, Flatten(runs), x);
    }
  }

  /** When the type can count the constants, the generated code is safe. */
  lemma SafeWhenFewConstants(t: IntType, decls: seq<Value>, runs: seq<seq<Value>>, code: Code)
    requires ValidType(t) && DeclsOf(t, decls)
    requires Flatten(runs) == Deduped(StableSorted(decls)) && IsRunSplit(runs)
    requires
      || (|runs| > 0 && IsOneRunOf(code, runs[0]))
      || (code.MultipleRuns? && |code.cases| == |runs| && forall k :: 0 <= k < |runs| ==> IsCaseOf(code.cases[k], runs[k]))
      || code.SparseMap?
    ensures |decls| <= Max(t) ==> Safe(t, code)
  {
    RunsOfDecls(t, decls, runs);
    if code.MultipleRuns? && |decls| <= Max(t) {
      forall c | c in code.cases && c.Within? ensures c.hi - c.lo < Max(t) {
        var k :| 0 <= k < |code.cases| && code.cases[k] == c;
        assert Key(Last(runs[k])) == Key(runs[k][0]) + |runs[k]| - 1;
      }
    }
  }

  // ---- Generate ----

  datatype GenError = NoValues(typeName: string)

  datatype Result = Success(code: Code) | Failure(error: GenError)

  /** Generate on the constants decls of the type named typeName, of underlying
      integer type t: refuses an empty list, splits the constants into runs and
      writes one run, a switch of at most ten runs, or a map. */
  method Generate(typeName: string, t: IntType, decls: seq<Value>) returns (r: Result, ghost runs: seq<seq<Value>>)
    requires ValidType(t) && DeclsOf(t, decls)
    ensures r.Failure? <==> decls == []
    ensures r.Failure? ==> r.error == NoValues(typeName)
    ensures r.Success? ==> Flatten(runs) == Deduped(StableSorted(decls)) && IsRunSplit(runs)
    ensures r.Success? ==> ShapeOf(r.code) == SelectStrategy(|runs|)
    ensures r.Success? && Safe(t, r.code) ==>
      forall x :: InRange(t, x) ==> StringOf(t, r.code, x) == Returns(Reference(decls, x))
    ensures r.Success? && |decls| <= Max(t) ==> Safe(t, r.code)
  {
    if |decls| == 0 {
      return Failure(NoValues(typeName)), [];
    }
    var values := new Value[|decls|](i requires 0 <= i < |decls| => decls[i]);
    assert values[..] == decls;
    var rs := SplitIntoRuns(values);
    runs := rs;
    var code: Code;
    if |rs| == 1 {
      code := BuildOneRun(rs[0]);
      SingleAgrees(t, decls, rs, code);
    } else if |rs| <= MaxSwitchRuns {
      code := BuildMultipleRuns(rs);
      SwitchAgrees(t, decls, rs, code);
    } else {
      var names, entries := BuildMapTable(rs);
      code := SparseMap(names, entries);
      MapAgreesWithDecls(t, decls, rs, code);
    }
    SafeWhenFewConstants(t, decls, rs, code);
    r := Success(code);
  }
}
