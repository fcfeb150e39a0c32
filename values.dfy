/** The value model: one declared integer constant, the order in which the
    generator sorts constants, and the integer types the generated code runs in. */
module Values {

  const TwoTo63: int := 0x8000_0000_0000_0000
  const TwoTo64: int := 0x1_0000_0000_0000_0000

  /** A 64-bit bit pattern, as the generator stores every constant. */
  type U64 = x: int | 0 <= x < 0x1_0000_0000_0000_0000

  datatype Option<+T> = None | Some(value: T)

  type Byte = b: int | 0 <= b < 0x100

  /** A Go string: its bytes. An identifier is stored as its UTF-8 encoding,
      and `len`, `bytes.Buffer.Len` and slicing all count bytes. */
  type Bytes = seq<Byte>

  /** One declared constant: its identifier, its value as a 64-bit pattern and
      whether the declared type is signed (which decides how the pattern reads). */
  datatype Value = Value(name: Bytes, value: U64, signed: bool)

  /** The bit pattern read as an int64. */
  function Int64(x: U64): int {
    if x < TwoTo63 then x else x - TwoTo64
  }

  /** The number the constant denotes: the pattern read as int64 or as uint64. */
  function Key(v: Value): int {
    if v.signed then Int64(v.value) else v.value
  }

  /** byValue.Less: the signedness of the left operand picks the comparison. */
  predicate Less(a: Value, b: Value) {
    if a.signed then Int64(a.value) < Int64(b.value) else a.value < b.value
  }

  /** For constants of one type, Less is the order of the denoted numbers, and
      equal bit patterns are exactly equal numbers. */
  lemma LessIsKeyOrder(a: Value, b: Value)
    requires a.signed == b.signed
    ensures Less(a, b) <==> Key(a) < Key(b)
    ensures a.value == b.value <==> Key(a) == Key(b)
  {
  }

  /** `x + 1` on uint64, wrapping at 2^64. */
  function NextU64(x: U64): U64 {
    if x == TwoTo64 - 1 then 0 else x + 1
  }

  /** The run test of splitIntoRuns: `b.value == a.value + 1` on the raw patterns. */
  predicate Succ(a: Value, b: Value) {
    b.value == NextU64(a.value)
  }

  /** Once the constants are strictly increasing, the uint64 run test on raw bit
      patterns is exactly "the next number", for signed and unsigned types alike:
      the wrap-around of `+ 1` never produces a false run. */
  lemma SuccIsNextKey(a: Value, b: Value)
    requires a.signed == b.signed && Key(a) < Key(b)
    ensures Succ(a, b) <==> Key(b) == Key(a) + 1
  {
    if a.signed {
      if a.value == TwoTo64 - 1 {
        assert Key(a) == -1;
      } else if a.value == TwoTo63 - 1 {
        assert Key(a) == TwoTo63 - 1;
      }
    }
  }

  // ---- Integer types of the generated code ----

  /** The underlying integer type of the enum (int8 ... uint64). */
  datatype IntType = IntType(signed: bool, bits: nat)

  predicate ValidType(t: IntType) {
    t.bits == 8 || t.bits == 16 || t.bits == 32 || t.bits == 64
  }

  /** 2^(bits-1). */
  function Half(t: IntType): int
    requires ValidType(t)
  {
    if t.bits == 8 then 0x80
    else if t.bits == 16 then 0x8000
    else if t.bits == 32 then 0x8000_0000
    else TwoTo63
  }

  /** 2^bits. */
  function Modulus(t: IntType): int
    requires ValidType(t)
  {
    2 * Half(t)
  }

  function Min(t: IntType): int
    requires ValidType(t)
  {
    if t.signed then -Half(t) else 0
  }

  function Max(t: IntType): int
    requires ValidType(t)
  {
    if t.signed then Half(t) - 1 else 2 * Half(t) - 1
  }

  predicate InRange(t: IntType, x: int)
    requires ValidType(t)
  {
    Min(t) <= x <= Max(t)
  }

  /** Two's-complement wrap-around: the value of type t that the machine
      keeps for the mathematical result y. */
  function Wrap(t: IntType, y: int): (r: int)
    requires ValidType(t)
    ensures InRange(t, r)
    ensures InRange(t, y) ==> r == y
    ensures (r - y) % Modulus(t) == 0
  {
    Min(t) + (y - Min(t)) % Modulus(t)
  }

  /** Within one modulus of the range, wrapping adds or subtracts the modulus once. */
  lemma WrapNear(t: IntType, y: int)
    requires ValidType(t)
    requires Min(t) - Modulus(t) <= y <= Max(t) + Modulus(t)
    ensures Wrap(t, y) == if y < Min(t) then y + Modulus(t) else if y > Max(t) then y - Modulus(t) else y
  {
  }

  /** What `i -= first` followed by the single-run bounds test computes: for x
      and the run first..first+count-1 all of type t, with count representable
      in t, the test fails exactly when x is in the run, i is then the slot of x,
      and `i + first` (the fallback's argument) gives x back. */
  lemma WrapOffset(t: IntType, x: int, first: int, count: int)
    requires ValidType(t)
    requires InRange(t, x) && InRange(t, first) && InRange(t, first + count - 1)
    requires 1 <= count <= Max(t)
    ensures var i := Wrap(t, x - first);
      && (((t.signed && i < 0) || i >= count) <==> !(first <= x < first + count))
      && (first <= x < first + count ==> i == x - first)
      && Wrap(t, i + first) == x
  {
    WrapNear(t, x - first);
    var i := Wrap(t, x - first);
    WrapNear(t, i + first);
  }

  // ---- Sequences of constants ----

  /** Every constant of s has the given signedness (one declared type). */
  predicate AllSigned(s: seq<Value>, sg: bool) {
    forall v :: v in s ==> v.signed == sg
  }

  lemma AllSignedSlice(s: seq<Value>, sg: bool, lo: int, hi: int)
    requires AllSigned(s, sg) && 0 <= lo <= hi <= |s|
    ensures AllSigned(s[lo..hi], sg)
  {
    forall v | v in s[lo..hi] ensures v.signed == sg {
      var i :| 0 <= i < hi - lo && s[lo..hi][i] == v;
      assert s[lo + i] == v;
    }
  }

  lemma AllSignedConcat(a: seq<Value>, b: seq<Value>, sg: bool)
    requires AllSigned(a + b, sg)
    ensures AllSigned(a, sg) && AllSigned(b, sg)
  {
    forall v | v in a ensures v.signed == sg { assert v in a + b; }
    forall v | v in b ensures v.signed == sg { assert v in a + b; }
  }

  lemma AllSignedPerm(s: seq<Value>, t: seq<Value>, sg: bool)
    requires AllSigned(s, sg) && multiset(s) == multiset(t)
    ensures AllSigned(t, sg)
  {
    forall v | v in t ensures v.signed == sg {
      assert v in multiset(t);
      assert v in multiset(s);
    }
  }

  predicate Sorted(s: seq<Value>) {
    forall i, j :: 0 <= i < j < |s| ==> Key(s[i]) <= Key(s[j])
  }

  predicate StrictlySorted(s: seq<Value>) {
    forall i, j :: 0 <= i < j < |s| ==> Key(s[i]) < Key(s[j])
  }

  /** The constants of s that denote k, in declaration order. */
  function WithKey(s: seq<Value>, k: int): seq<Value> {
    if s == [] then [] else (if Key(s[0]) == k then [s[0]] else []) + WithKey(s[1..], k)
  }

  lemma {:induction false} WithKeyConcat(a: seq<Value>, b: seq<Value>, k: int)
    ensures WithKey(a + b, k) == WithKey(a, k) + WithKey(b, k)
  {
    if a != [] {
      assert (a + b)[1..] == a[1..] + b;
      WithKeyConcat(a[1..], b, k);
    } else {
      assert a + b == b;
    }
  }

  /** A constant of s denoting k is found by WithKey. */
  lemma {:induction false} WithKeyFinds(s: seq<Value>, i: int)
    requires 0 <= i < |s|
    ensures WithKey(s, Key(s[i])) != []
  {
    if i > 0 {
      WithKeyFinds(s[1..], i - 1);
    }
  }

  /** The first-declared constant denoting k, if any. */
  function FirstDeclared(s: seq<Value>, k: int): Option<Value> {
    var w := WithKey(s, k);
    if w == [] then None else Some(w[0])
  }

  lemma {:induction false} FirstDeclaredConcat(a: seq<Value>, b: seq<Value>, k: int)
    ensures FirstDeclared(a + b, k) == if FirstDeclared(a, k).Some? then FirstDeclared(a, k) else FirstDeclared(b, k)
  {
    WithKeyConcat(a, b, k);
  }

  // ---- The text String returns ----

  /** What String returns: the name of a constant, or, for a value no
      constant has, the fallback `fmt.Sprintf("T(%d)", i)` of the number. */
  datatype Text = Name(name: Bytes) | Number(value: int)

  /** What String must print for x: the name of the first-declared constant with
      that value, or the number when no constant has it. */
  function Reference(decls: seq<Value>, x: int): Text {
    match FirstDeclared(decls, x)
    case Some(v) => Name(v.name)
    case None => Number(x)
  }
}
