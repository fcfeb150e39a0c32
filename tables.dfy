/** The tables the generated code declares: the names of a run concatenated
    into one string constant, and an index of byte offsets into it. */
module Tables {
  import opened Values
  import opened Normalizer

  /** 2^w for the unsigned index widths 8, 16 and 32. */
  function UintLimit(w: nat): nat {
    if w == 8 then 0x100 else if w == 16 then 0x1_0000 else 0x1_0000_0000
  }

  /** usize: the number of bits of the smallest unsigned integer type (of 8, 16
      and 32 bits) that holds n. */
  function Usize(n: int): (r: nat)
    ensures r == 8 || r == 16 || r == 32
    ensures 0 <= n < UintLimit(32) ==> n < UintLimit(r)
    ensures r > 8 ==> n >= UintLimit(8)
    ensures r > 16 ==> n >= UintLimit(16)
    ensures n >= UintLimit(16) ==> r == 32
  {
    if n < 0x100 then 8
    else if n < 0x1_0000 then 16
    else 32
  }

  /** The boundaries of usize. */
  lemma UsizeBoundaries()
    ensures Usize(0) == 8 && Usize(255) == 8 && Usize(256) == 16
    ensures Usize(65535) == 16 && Usize(65536) == 32
  {
  }

  /** The names of the constants of s, concatenated in order. */
  function ConcatNames(s: seq<Value>): Bytes {
    if s == [] then [] else ConcatNames(s[..|s| - 1]) + s[|s| - 1].name
  }

  lemma ConcatSnoc(s: seq<Value>, m: int)
    requires 0 <= m < |s|
    ensures ConcatNames(s[..m + 1]) == ConcatNames(s[..m]) + s[m].name
  {
    assert s[..m + 1][..m] == s[..m];
  }

  /** The names of a prefix are a prefix of the names. */
  lemma {:induction false} ConcatPrefix(s: seq<Value>, m: int)
    requires 0 <= m <= |s|
    ensures ConcatNames(s[..m]) <= ConcatNames(s)
  {
    if m < |s| {
      var p := s[..|s| - 1];
      assert p[..m] == s[..m];
      ConcatPrefix(p, m);
    } else {
      assert s[..m] == s;
    }
  }

  /** The name of s[m] sits in the concatenation between the lengths of the
      names before it and up to it. */
  lemma NameSlice(s: seq<Value>, m: int)
    requires 0 <= m < |s|
    ensures |ConcatNames(s[..m])| <= |ConcatNames(s[..m + 1])| <= |ConcatNames(s)|
    ensures ConcatNames(s)[|ConcatNames(s[..m])|..|ConcatNames(s[..m + 1])|] == s[m].name
  {
    ConcatSnoc(s, m);
    ConcatPrefix(s, m + 1);
    var c, c1 := ConcatNames(s[..m]), ConcatNames(s[..m + 1]);
    assert ConcatNames(s)[..|c1|] == c1;
    assert c1[|c|..] == s[m].name;
  }

  /** One run's pair of declarations: `_T_name = "..."` and
      `_T_index = [...]uintW{0, ...}`. */
  datatype Table = Table(names: Bytes, index: seq<int>, width: nat)

  /** What the table promises: one more offset than constants, starting at 0
      and ending at the length of the names, each consecutive pair slicing out
      the name of the constant in that position, and an element width that
      holds every offset. */
  predicate IsTableOf(t: Table, run: seq<Value>) {
    && |t.index| == |run| + 1
    && t.index[0] == 0
    && t.index[|run|] == |t.names|
    && (forall i :: 0 <= i <= |run| ==> 0 <= t.index[i] <= |t.names|)
    && (forall i :: 0 <= i < |run| ==>
          t.index[i] <= t.index[i + 1] && t.names[t.index[i]..t.index[i + 1]] == run[i].name)
    && t.width == Usize(|t.names|)
  }

  /** createIndexAndNameDecl: writes the names into a buffer one by one,
      recording the buffer length after each. */
  method CreateIndexAndNameDecl(run: seq<Value>) returns (t: Table)
    ensures t.names == ConcatNames(run)
    ensures IsTableOf(t, run)
  {
    var b: Bytes := [];
    var indexes := new int[|run|];
    for i := 0 to |run|
      invariant b == ConcatNames(run[..i])
      invariant forall m :: 0 <= m < i ==> indexes[m] == |ConcatNames(run[..m + 1])|
    {
      ConcatSnoc(run, i);
      b := b + run[i].name;
      indexes[i] := |b|;
    }
    assert run[..|run|] == run;
    t := Table(b, [0] + indexes[..], Usize(|b|));
    EndsMakeTable(run, indexes[..], t);
  }

  /** The offsets after each name, preceded by 0, form the table of the run. */
  lemma EndsMakeTable(run: seq<Value>, ends: seq<int>, t: Table)
    requires |ends| == |run|
    requires forall m :: 0 <= m < |run| ==> ends[m] == |ConcatNames(run[..m + 1])|
    requires t == Table(ConcatNames(run), [0] + ends, Usize(|ConcatNames(run)|))
    ensures IsTableOf(t, run)
  {
    forall i | 0 <= i <= |run| ensures 0 <= t.index[i] <= |t.names| {
      if 0 < i {
        NameSlice(run, i - 1);
      }
    }
    forall i | 0 <= i < |run|
      ensures t.index[i] <= t.index[i + 1] && t.names[t.index[i]..t.index[i + 1]] == run[i].name
    {
      NameSlice(run, i);
      if i == 0 {
        assert run[..0] == [];
      }
    }
    if |run| > 0 {
      assert run[..|run|] == run;
    }
  }

  /** Every offset of a table fits its element type uintW, as long as the
      names are shorter than 2^32 bytes. */
  lemma IndexFitsWidth(t: Table, run: seq<Value>)
    requires IsTableOf(t, run) && |t.names| < UintLimit(32)
    ensures forall i :: 0 <= i < |t.index| ==> 0 <= t.index[i] < UintLimit(t.width)
  {
  }

  /** declareIndexAndNameVars: one table per run, in run order. */
  method DeclareIndexAndNameVars(runs: seq<seq<Value>>) returns (tables: seq<Table>)
    ensures |tables| == |runs|
    ensures forall k :: 0 <= k < |runs| ==> tables[k].names == ConcatNames(runs[k]) && IsTableOf(tables[k], runs[k])
  {
    tables := [];
    for k := 0 to |runs|
      invariant |tables| == k
      invariant forall m :: 0 <= m < k ==> tables[m].names == ConcatNames(runs[m]) && IsTableOf(tables[m], runs[m])
    {
      var t := CreateIndexAndNameDecl(runs[k]);
      tables := tables + [t];
    }
  }

  // ---- The flat table of the map form ----

  /** One entry of `_T_map`: the constant's number and its name as the slice
      `_T_name[lo:hi]`. */
  datatype MapEntry = MapEntry(key: int, lo: int, hi: int)

  /** The entry buildMap writes for s[e]: the running offset n is the length of
      the names before it. */
  function EntryAt(s: seq<Value>, e: int): MapEntry
    requires 0 <= e < |s|
  {
    MapEntry(Key(s[e]), |ConcatNames(s[..e])|, |ConcatNames(s[..e])| + |s[e].name|)
  }

  /** What the map promises: one entry per constant, in order, keyed by its
      number and slicing out its name. */
  predicate IsMapOf(names: Bytes, entries: seq<MapEntry>, s: seq<Value>) {
    && |entries| == |s|
    && forall e :: 0 <= e < |s| ==>
         && entries[e].key == Key(s[e])
         && 0 <= entries[e].lo <= entries[e].hi <= |names|
         && names[entries[e].lo..entries[e].hi] == s[e].name
  }

  lemma EntryAtStable(s: seq<Value>, x: Value, e: int)
    requires 0 <= e < |s|
    ensures EntryAt(s + [x], e) == EntryAt(s, e)
  {
    assert (s + [x])[..e] == s[..e];
  }

  lemma EntryAtSlices(s: seq<Value>, e: int)
    requires 0 <= e < |s|
    ensures 0 <= EntryAt(s, e).lo <= EntryAt(s, e).hi <= |ConcatNames(s)|
    ensures ConcatNames(s)[EntryAt(s, e).lo..EntryAt(s, e).hi] == s[e].name
  {
    NameSlice(s, e);
    ConcatSnoc(s, e);
  }

  lemma EntriesSliceNames(s: seq<Value>, entries: seq<MapEntry>)
    requires |entries| == |s|
    requires forall e :: 0 <= e < |s| ==> entries[e] == EntryAt(s, e)
    ensures IsMapOf(ConcatNames(s), entries, s)
  {
    forall e | 0 <= e < |s| {
      EntryAtSlices(s, e);
    }
  }

  /** declareNameVars: the names of every constant of every run, written one
      after the other into one constant. */
  method DeclareNameVars(runs: seq<seq<Value>>) returns (names: Bytes)
    ensures names == ConcatNames(Flatten(runs))
  {
    ghost var done: seq<Value> := [];
    names := [];
    for r := 0 to |runs|
      invariant done == Flatten(runs[..r])
      invariant names == ConcatNames(done)
    {
      ghost var before := done;
      for v := 0 to |runs[r]|
        invariant done == before + runs[r][..v]
        invariant names == ConcatNames(done)
      {
        var value := runs[r][v];
        assert (done + [value])[..|done|] == done;
        names := names + value.name;
        done := done + [value];
        assert runs[r][..v + 1] == runs[r][..v] + [value];
      }
      assert runs[r][..|runs[r]|] == runs[r];
      assert runs[..r + 1] == runs[..r] + [runs[r]];
      FlattenSnoc(runs[..r], runs[r]);
    }
    assert runs[..|runs|] == runs;
  }

  /** buildMap: the names constant of declareNameVars, then one map entry per
      constant, with the running byte offset n of its name. */
  method BuildMapTable(runs: seq<seq<Value>>) returns (names: Bytes, entries: seq<MapEntry>)
    ensures names == ConcatNames(Flatten(runs))
    ensures IsMapOf(names, entries, Flatten(runs))
  {
    names := DeclareNameVars(runs);
    ghost var done: seq<Value> := [];
    entries := [];
    var n := 0;
    for r := 0 to |runs|
      invariant done == Flatten(runs[..r])
      invariant n == |ConcatNames(done)|
      invariant |entries| == |done|
      invariant forall e :: 0 <= e < |done| ==> entries[e] == EntryAt(done, e)
    {
      ghost var before := done;
      for v := 0 to |runs[r]|
        invariant done == before + runs[r][..v]
        invariant n == |ConcatNames(done)|
        invariant |entries| == |done|
        invariant forall e :: 0 <= e < |done| ==> entries[e] == EntryAt(done, e)
      {
        var value := runs[r][v];
        forall e | 0 <= e < |done| ensures EntryAt(done + [value], e) == EntryAt(done, e) {
          EntryAtStable(done, value, e);
        }
        assert (done + [value])[..|done|] == done;
        entries := entries + [MapEntry(Key(value), n, n + |value.name|)];
        n := n + |value.name|;
        done := done + [value];
        assert runs[r][..v + 1] == runs[r][..v] + [value];
      }
      assert runs[r][..|runs[r]|] == runs[r];
      assert runs[..r + 1] == runs[..r] + [runs[r]];
      FlattenSnoc(runs[..r], runs[r]);
    }
    assert runs[..|runs|] == runs;
    EntriesSliceNames(done, entries);
  }

  /** The names of the basic fixture, NotFound, AlreadyExists, NotSure,
      BadRequestData and WorksOnMyMachine, are 8, 13, 7, 14 and 16 bytes long,
      and give the golden index {0, 8, 21, 28, 42, 58}. */
  lemma GoldenIndex(t: Table, run: seq<Value>)
    requires |run| == 5
    requires |run[0].name| == 8 && |run[1].name| == 13 && |run[2].name| == 7
    requires |run[3].name| == 14 && |run[4].name| == 16
    requires IsTableOf(t, run)
    ensures t.index == [0, 8, 21, 28, 42, 58]
    ensures t.width == 8
  {
    assert t.names[t.index[0]..t.index[1]] == run[0].name;
    assert t.names[t.index[1]..t.index[2]] == run[1].name;
    assert t.names[t.index[2]..t.index[3]] == run[2].name;
    assert t.names[t.index[3]..t.index[4]] == run[3].name;
    assert t.names[t.index[4]..t.index[5]] == run[4].name;
  }
}
