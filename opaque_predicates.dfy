/**
 * The opaque predicates of class `OpaquePredicates` and its private string
 * hash: boolean functions that look data-dependent but return the same value
 * for every input.
 *
 * Signed `int` is `Int32` with wrapping arithmetic, `unsigned` and
 * `uint32_t` are `bv32`, and the characters of a C string are its bytes
 * (`bv8`, the value of `static_cast<unsigned char>`).
 */
module OpaquePredicates {
  import opened MachineInt

  type Byte = bv8

  /*** The FNV-1a hash behind opaque_true_hash ***/

  /**
   * One 32-bit FNV-1a round: XOR in the byte, then multiply by the FNV prime
   * 16777619 modulo 2^32. (The parameters are written as literals rather
   * than named constants so that the solver sees the same multiplier
   * everywhere.)
   */
  function Step(h: bv32, c: Byte): bv32 {
    (h ^ (c as bv32)) * 16777619
  }

  /** Folds `Step` over `bytes` from the left, starting from accumulator `h`. */
  function FoldFrom(h: bv32, bytes: seq<Byte>): bv32
    decreases |bytes|
  {
    if |bytes| == 0 then h else FoldFrom(Step(h, bytes[0]), bytes[1..])
  }

  /** 32-bit FNV-1a of a byte string: the fold from offset basis 2166136261. */
  function Fnv1a(bytes: seq<Byte>): bv32 {
    FoldFrom(2166136261, bytes)
  }

  /** The index of the first NUL byte of `s`, or `|s|` when there is none. */
  function Terminator(s: seq<Byte>): (k: nat)
    ensures k <= |s|
    ensures forall j :: 0 <= j < k ==> s[j] != 0
    ensures k < |s| ==> s[k] == 0
  {
    if |s| == 0 || s[0] == 0 then 0 else 1 + Terminator(s[1..])
  }

  /** The bytes of the C string stored at the start of `s`. */
  function CString(s: seq<Byte>): seq<Byte> {
    s[..Terminator(s)]
  }

  /** What `simple_hash` computes for the C string at the start of `s`. */
  function CHash(s: seq<Byte>): bv32 {
    Fnv1a(CString(s))
  }

  /** Folding over one more byte is one more round. */
  lemma {:induction false} FoldFromSnoc(h: bv32, bytes: seq<Byte>, c: Byte)
    ensures FoldFrom(h, bytes + [c]) == Step(FoldFrom(h, bytes), c)
    decreases |bytes|
  {
    if |bytes| == 0 {
      assert (bytes + [c])[1..] == [];
    } else {
      assert (bytes + [c])[1..] == bytes[1..] + [c];
      FoldFromSnoc(Step(h, bytes[0]), bytes[1..], c);
    }
  }

  /** FNV-1a is a left fold: hashing one more byte is one more round. */
  lemma Fnv1aSnoc(bytes: seq<Byte>, c: Byte)
    ensures Fnv1a(bytes + [c]) == Step(Fnv1a(bytes), c)
  {
    FoldFromSnoc(2166136261, bytes, c);
  }

  /**
   * `simple_hash(s)`: walks the C string `s` byte by byte up to its NUL,
   * XOR-ing each byte into the accumulator and multiplying by the prime.
   * The buffer must hold a NUL, as for any C string.
   */
  method SimpleHash(s: seq<Byte>) returns (h: bv32)
    requires 0 in s
    ensures h == Fnv1a(CString(s))
    ensures s[0] == 0 ==> h == 2166136261
  {
    h := 2166136261;
    var i := 0;
    while s[i] != 0
      invariant i <= Terminator(s) < |s|
      invariant h == Fnv1a(s[..i])
      decreases Terminator(s) - i
    {
      assert s[..i + 1] == s[..i] + [s[i]];
      Fnv1aSnoc(s[..i], s[i]);
      h := Step(h, s[i]);  // h ^= byte; h *= prime
      i := i + 1;
    }
  }

  /** The empty C string hashes to the offset basis. */
  lemma HashOfEmptyString(s: seq<Byte>)
    requires |s| > 0 && s[0] == 0
    ensures CHash(s) == 2166136261
  {
  }

  /**
   * Appending a non-NUL byte `c` to a C string is one more FNV-1a round on
   * its hash, with `c` taken as an unsigned byte.
   */
  lemma HashAppendByte(s: seq<Byte>, c: Byte)
    requires forall j :: 0 <= j < |s| ==> s[j] != 0
    requires c != 0
    ensures CHash(s + [c, 0]) == Step(CHash(s + [0]), c)
  {
    CStringOfTerminated(s);
    CStringOfTerminated(s + [c]);
    assert s + [c, 0] == (s + [c]) + [0];
    Fnv1aSnoc(s, c);
  }

  /** A NUL-free string followed by its terminator is its own C string. */
  lemma CStringOfTerminated(s: seq<Byte>)
    requires forall j :: 0 <= j < |s| ==> s[j] != 0
    ensures CString(s + [0]) == s
  {
    TerminatorOfString(s, [0]);
    assert (s + [0])[..|s|] == s;
  }

  /** A NUL-free prefix followed by a NUL ends where the NUL is. */
  lemma {:induction false} TerminatorOfString(s: seq<Byte>, t: seq<Byte>)
    requires forall j :: 0 <= j < |s| ==> s[j] != 0
    requires |t| > 0 && t[0] == 0
    ensures Terminator(s + t) == |s|
  {
    assert (s + t)[|s|] == 0;
    assert forall j :: 0 <= j < |s| ==> (s + t)[j] == s[j];
  }

  /** Nothing after the first NUL of a buffer changes its C string. */
  lemma CStringStopsAtNul(s: seq<Byte>, t: seq<Byte>)
    requires 0 in s
    ensures CString(s + t) == CString(s)
  {
    var k := Terminator(s);
    TerminatorOfString(s[..k], s[k..] + t);
    assert s + t == s[..k] + (s[k..] + t);
    assert (s + t)[..k] == s[..k];
  }

  /** `simple_hash` ignores every byte after the first NUL. */
  lemma HashIgnoresAfterNul(s: seq<Byte>, t: seq<Byte>, u: seq<Byte>)
    ensures CHash(s + [0] + t) == CHash(s + [0] + u)
    ensures CHash(s + [0] + t) == CHash(s + [0])
  {
    CStringStopsAtNul(s + [0], t);
    CStringStopsAtNul(s + [0], u);
  }

  /** The C string literal "hello", terminator included. */
  const Hello: seq<Byte> := [104, 101, 108, 108, 111, 0]

  /** FNV-1a of the bytes of "hello" is 1335831723. */
  lemma HelloHash()
    ensures CHash(Hello) == 1335831723
  {
    TerminatorOfString(Hello[..5], Hello[5..]);
    assert Hello[..5] + Hello[5..] == Hello;
    assert CString(Hello) == [104, 101, 108, 108, 111];
  }

  /*** The predicates ***/

  /** `opaque_true_arith(x)`: `(x*x + 2*x + 1) == (x+1)*(x+1)` on `int`. */
  function OpaqueTrueArith(x: Int32): bool {
    Add32(Add32(Mul32(x, x), Mul32(2, x)), 1) == Mul32(Add32(x, 1), Add32(x, 1))
  }

  /**
   * The arithmetic identity holds for every 32-bit `x`, `INT_MIN` and
   * `INT_MAX` included, because both sides have the bit pattern of the
   * mathematical (x+1)^2.
   */
  lemma ArithAlwaysTrue(x: Int32)
    ensures OpaqueTrueArith(x)
  {
    var lhs := Add32(Add32(Mul32(x, x), Mul32(2, x)), 1);
    var rhs := Mul32(Add32(x, 1), Add32(x, 1));
    AddCongruent(Mul32(x, x), x * x, Mul32(2, x), 2 * x);
    CongruentTransitive(Add32(Mul32(x, x), Mul32(2, x)), Mul32(x, x) + Mul32(2, x), x * x + 2 * x);
    AddCongruent(Add32(Mul32(x, x), Mul32(2, x)), x * x + 2 * x, 1, 1);
    CongruentTransitive(lhs, Add32(Mul32(x, x), Mul32(2, x)) + 1, x * x + 2 * x + 1);
    MulCongruent(Add32(x, 1), x + 1, Add32(x, 1), x + 1);
    CongruentTransitive(rhs, Add32(x, 1) * Add32(x, 1), (x + 1) * (x + 1));
    assert (x + 1) * (x + 1) == x * x + 2 * x + 1;
    CongruentSymmetric(rhs, x * x + 2 * x + 1);
    CongruentTransitive(lhs, x * x + 2 * x + 1, rhs);
    CongruentInt32Equal(lhs, rhs);
  }

  /**
   * `opaque_false_bits(n)`: `(n | ~n) == 0xFFFFFFFF && (n & ~n) == 1` on a
   * 32-bit unsigned `n`, false for every `n`.
   */
  function OpaqueFalseBits(n: bv32): (r: bool)
    ensures !r
  {
    (n | !n) == 0xFFFF_FFFF && (n & !n) == 1
  }

  /** Why: `n | ~n` is all ones, and `n & ~n` is zero, never one. */
  lemma ComplementLaws(n: bv32)
    ensures (n | !n) == 0xFFFF_FFFF
    ensures (n & !n) == 0
  {
  }

  /** `opaque_true_hash()`: hashes "hello" and compares with 1335831723. */
  method OpaqueTrueHash() returns (r: bool)
    ensures r
  {
    var h := SimpleHash(Hello);
    HelloHash();
    r := h == 1335831723;
  }

  /**
   * `opaque_true_loop(n)`: adds `i - i` to an accumulator for each `i` in
   * `0 .. n-1` and reports whether it is still zero. `sums` records the
   * accumulator after each pass through the loop body: there are none when
   * `n <= 0`, and every one is zero. Since `i < n` guards `++i`, the counter
   * never overflows, and the accumulator, being zero throughout, never
   * overflows either.
   */
  method OpaqueTrueLoop(n: Int32) returns (r: bool, ghost sums: seq<Int32>)
    ensures r
    ensures |sums| == if n > 0 then n else 0
    ensures forall k :: 0 <= k < |sums| ==> sums[k] == 0
  {
    var s: Int32 := 0;
    var i: Int32 := 0;
    sums := [];
    while i < n
      invariant 0 <= i && (n > 0 ==> i <= n) && (n <= 0 ==> i == 0)
      invariant |sums| == i
      invariant s == 0
      invariant forall k :: 0 <= k < |sums| ==> sums[k] == 0
    {
      s := s + (i - i);
      i := i + 1;
      sums := sums + [s];
    }
    r := s == 0;
  }

  /**
   * The test that `opaque_env_time` applies to the current time `t`:
   * `(t % 1) == 0`, with C++'s truncating `%`. The clock read itself is
   * not modelled: `t` is any integer.
   */
  function OpaqueEnvTime(t: int): (r: bool)
    ensures r
  {
    CRem(t, 1) == 0
  }
}
