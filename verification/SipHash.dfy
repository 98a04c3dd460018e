/**
  siphash24 of ext/csiphash.c against SipHash-2-4 as defined in section 2 of Aumasson
  and Bernstein, "SipHash: a fast short-input PRF".

  A uint64_t is a 64-bit machine word: sums wrap, and shifts lose what they push out.  The
  definitions take the operations on words as a parameter, and `Machine()` has the ones
  meant, so that what depends on their order alone is proved without looking at bits.
 */
module SipHash {

  type Word = bv64
  type Byte = bv8

  // ----- operations on words -----

  function Plus(x: Word, y: Word): Word { x + y }

  function Minus(x: Word, y: Word): Word { x - y }

  function Xor(x: Word, y: Word): Word { x ^ y }

  function Or(x: Word, y: Word): Word { x | y }

  /** `x << 8` */
  function Up8(x: Word): Word { x << 8 }

  function FromByte(b: Byte): Word { b as Word }

  /** ROTATE: `((x) << (b)) | ((x) >> (64 - (b)))` */
  function Rotate(x: Word, b: Word): Word {
    if b <= 64 then (x << b) | (x >> (64 - b)) else x
  }

  datatype Ops = Ops(add: (Word, Word) -> Word, sub: (Word, Word) -> Word, xor: (Word, Word) -> Word,
                     or: (Word, Word) -> Word, rot: (Word, Word) -> Word, up: Word -> Word, byte: Byte -> Word)

  function Machine(): Ops { Ops(Plus, Minus, Xor, Or, Rotate, Up8, FromByte) }

  /** `g` takes away what `f` put to a word. */
  ghost predicate Cancels(f: (Word, Word) -> Word, g: (Word, Word) -> Word) {
    forall x, y {:trigger Of(x, y)} :: Of(x, y) ==> g(f(x, y), y) == x
  }

  ghost predicate TurnsBack(rot: (Word, Word) -> Word, b: Word, b': Word) {
    forall x {:trigger Of(x, b)} :: Of(x, b) ==> rot(rot(x, b), b') == x
  }

  ghost predicate Joins(or: (Word, Word) -> Word, up: Word -> Word) {
    forall x, y {:trigger Of(x, y)} :: Of(x, y) ==> or(x, y) == or(y, x) && up(or(x, y)) == or(up(x), up(y))
  }

  ghost predicate Zero(or: (Word, Word) -> Word, up: Word -> Word, byte: Byte -> Word) {
    forall x, b {:trigger Of(x, byte(b))} :: Of(x, byte(b)) ==> or(byte(0), up(x)) == up(x) && or(byte(b), up(0)) == byte(b)
  }

  /** Names the words that a law is used of. */
  predicate Of(x: Word, y: Word) { true }

  /** What the proofs use of the operations. */
  ghost predicate Laws(o: Ops) {
    && Cancels(o.xor, o.xor) && Cancels(o.add, o.sub) && Cancels(o.sub, o.add)
    && Joins(o.or, o.up) && Zero(o.or, o.up, o.byte)
    && TurnsBack(o.rot, 13, 51) && TurnsBack(o.rot, 51, 13) && TurnsBack(o.rot, 16, 48) && TurnsBack(o.rot, 48, 16)
    && TurnsBack(o.rot, 17, 47) && TurnsBack(o.rot, 47, 17) && TurnsBack(o.rot, 21, 43) && TurnsBack(o.rot, 43, 21)
    && TurnsBack(o.rot, 32, 32)
  }

  lemma MachineLaws()
    ensures Laws(Machine())
  {
    XorCancels();
    SumCancels();
    DifferenceCancels();
    OrJoins();
    OrZero();
    Turn13();
    Turn16();
    Turn17();
    Turn21();
    Turn32();
  }

  // A bit-level fact is stated once of the nested expression, which rewriting settles, and once of the operations.

  lemma XorNested(x: Word, y: Word)
    ensures Xor(x ^ y, y) == x
  {
  }

  lemma XorBack(x: Word, y: Word)
    ensures Xor(Xor(x, y), y) == x
  {
    XorNested(x, y);
  }

  lemma SumNested(x: Word, y: Word)
    ensures Minus(x + y, y) == x
  {
  }

  lemma SumBack(x: Word, y: Word)
    ensures Minus(Plus(x, y), y) == x
  {
    SumNested(x, y);
  }

  lemma DifferenceNested(x: Word, y: Word)
    ensures Plus(x - y, y) == x
  {
  }

  lemma DifferenceBack(x: Word, y: Word)
    ensures Plus(Minus(x, y), y) == x
  {
    DifferenceNested(x, y);
  }

  lemma XorCancels()
    ensures Cancels(Xor, Xor)
  {
    forall x, y | Of(x, y) ensures Xor(Xor(x, y), y) == x { XorBack(x, y); }
  }

  lemma SumCancels()
    ensures Cancels(Plus, Minus)
  {
    forall x, y | Of(x, y) ensures Minus(Plus(x, y), y) == x { SumBack(x, y); }
  }

  lemma DifferenceCancels()
    ensures Cancels(Minus, Plus)
  {
    forall x, y | Of(x, y) ensures Plus(Minus(x, y), y) == x { DifferenceBack(x, y); }
  }

  lemma OrJoins()
    ensures Joins(Or, Up8)
  {
  }

  lemma OrZero()
    ensures Zero(Or, Up8, FromByte)
  {
  }

  lemma Turn13() ensures TurnsBack(Rotate, 13, 51) && TurnsBack(Rotate, 51, 13) {}

  lemma Turn16() ensures TurnsBack(Rotate, 16, 48) && TurnsBack(Rotate, 48, 16) {}

  lemma Turn17() ensures TurnsBack(Rotate, 17, 47) && TurnsBack(Rotate, 47, 17) {}

  lemma Turn21() ensures TurnsBack(Rotate, 21, 43) && TurnsBack(Rotate, 43, 21) {}

  lemma Turn32() ensures TurnsBack(Rotate, 32, 32) {}

  // ----- the definition -----

  datatype State = State(v0: Word, v1: Word, v2: Word, v3: Word)

  /** SipRound: two half-rounds of additions, rotations and xors. */
  function SipRound(o: Ops, v: State): State {
    var a0 := o.add(v.v0, v.v1);
    var a2 := o.add(v.v2, v.v3);
    var a1 := o.xor(o.rot(v.v1, 13), a0);
    var a3 := o.xor(o.rot(v.v3, 16), a2);
    var b0 := o.rot(a0, 32);
    var c2 := o.add(a2, a1);
    var c0 := o.add(b0, a3);
    var c1 := o.xor(o.rot(a1, 17), c2);
    var c3 := o.xor(o.rot(a3, 21), c0);
    State(c0, c1, o.rot(c2, 32), c3)
  }

  function Start(k0: Word, k1: Word): State {
    State(k0 ^ 0x736f_6d65_7073_6575, k1 ^ 0x646f_7261_6e64_6f6d, k0 ^ 0x6c79_6765_6e65_7261, k1 ^ 0x7465_6462_7974_6573)
  }

  /** Compression: one message word, c = 2 rounds. */
  function Absorb(o: Ops, v: State, m: Word): State {
    var u := SipRound(o, SipRound(o, v.(v3 := o.xor(v.v3, m))));
    u.(v0 := o.xor(u.v0, m))
  }

  /** Finalization: d = 4 rounds. */
  function Finish(o: Ops, v: State): Word {
    var u := SipRound(o, SipRound(o, SipRound(o, SipRound(o, v.(v2 := o.xor(v.v2, 0xff))))));
    o.xor(o.xor(o.xor(u.v0, u.v1), u.v2), u.v3)
  }

  /** Bytes as a little-endian word. */
  function Little(o: Ops, s: seq<Byte>): Word {
    if s == [] then 0 else o.or(o.byte(s[0]), o.up(Little(o, s[1..])))
  }

  /** Zeros up to the last byte of a block, and the length modulo 256 in that byte. */
  function Pad(n: nat): (p: seq<Byte>)
    ensures |p| == 8 - n % 8
  {
    seq(7 - n % 8, _ => 0) + [LengthByte(n)]
  }

  function LengthByte(n: nat): Byte { (n % 256) as Byte }

  function Padded(m: seq<Byte>): seq<Byte> { m + Pad(|m|) }

  /** The words of a message, eight bytes each, absorbed one after the other. */
  function Fold(o: Ops, v: State, p: seq<Byte>): State
    decreases |p|
  {
    if |p| < 8 then v else Absorb(o, Fold(o, v, p[..|p| - 8]), Little(o, p[|p| - 8..]))
  }

  function Hash(o: Ops, start: State, m: seq<Byte>): Word {
    Finish(o, Fold(o, start, Padded(m)))
  }

  function SipHash24(k0: Word, k1: Word, m: seq<Byte>): Word {
    Hash(Machine(), Start(k0, k1), m)
  }

  // ----- the macros -----

  /** HALF_ROUND(a, b, c, d, s, t), as the new values of a, b, c and d. */
  function HalfRound(o: Ops, a: Word, b: Word, c: Word, d: Word, s: Word, t: Word): (Word, Word, Word, Word) {
    var a1, c1 := o.add(a, b), o.add(c, d);
    (o.rot(a1, 32), o.xor(o.rot(b, s), a1), c1, o.xor(o.rot(d, t), c1))
  }

  /** HALF_ROUND(v0,v1,v2,v3,13,16); HALF_ROUND(v2,v1,v0,v3,17,21) */
  function TwoHalves(o: Ops, v: State): State {
    var h := HalfRound(o, v.v0, v.v1, v.v2, v.v3, 13, 16);
    var g := HalfRound(o, h.2, h.1, h.0, h.3, 17, 21);
    State(g.2, g.1, g.0, g.3)
  }

  /** DOUBLE_ROUND */
  function DoubleRound(o: Ops, v: State): State { TwoHalves(o, TwoHalves(o, v)) }

  lemma HalvesAreRound(o: Ops, v: State)
    ensures TwoHalves(o, v) == SipRound(o, v)
  {
  }

  lemma DoubleRoundIsTwo(o: Ops, v: State)
    ensures DoubleRound(o, v) == SipRound(o, SipRound(o, v))
  {
    HalvesAreRound(o, v);
    HalvesAreRound(o, TwoHalves(o, v));
  }

  // ----- the macros can be undone -----

  /** HALF_ROUND undone; s' and t' are the distances that turn back. */
  function HalfUndo(o: Ops, a: Word, b: Word, c: Word, d: Word, s': Word, t': Word): (Word, Word, Word, Word) {
    var a1 := o.rot(a, 32);
    var b0, d0 := o.rot(o.xor(b, a1), s'), o.rot(o.xor(d, c), t');
    (o.sub(a1, b0), b0, o.sub(c, d0), d0)
  }

  lemma HalfInvertible(o: Ops, a: Word, b: Word, c: Word, d: Word, s: Word, t: Word, s': Word, t': Word)
    requires Laws(o) && TurnsBack(o.rot, s, s') && TurnsBack(o.rot, t, t') && TurnsBack(o.rot, s', s) && TurnsBack(o.rot, t', t)
    ensures var h := HalfRound(o, a, b, c, d, s, t); HalfUndo(o, h.0, h.1, h.2, h.3, s', t') == (a, b, c, d)
    ensures var u := HalfUndo(o, a, b, c, d, s', t'); HalfRound(o, u.0, u.1, u.2, u.3, s, t) == (a, b, c, d)
  {
    MixBack(o, a, b, s, s');
    MixBack(o, c, d, t, t');
    MixOnto(o, o.rot(a, 32), b, s, s');
    MixOnto(o, c, d, t, t');
    assert Of(o.add(a, b), 32) && Of(a, 32);
  }

  /** A sum, and the rotated summand xored with it: both summands can be had back. */
  lemma MixBack(o: Ops, a: Word, b: Word, s: Word, s': Word)
    requires Laws(o) && TurnsBack(o.rot, s, s')
    ensures var z := o.add(a, b); o.rot(o.xor(o.xor(o.rot(b, s), z), z), s') == b && o.sub(z, b) == a
  {
    assert Of(o.rot(b, s), o.add(a, b)) && Of(a, b) && Of(b, s);
  }

  lemma MixOnto(o: Ops, z: Word, w: Word, s: Word, s': Word)
    requires Laws(o) && TurnsBack(o.rot, s', s)
    ensures var y := o.rot(o.xor(w, z), s'); o.add(o.sub(z, y), y) == z && o.xor(o.rot(y, s), z) == w
  {
    assert Of(w, z) && Of(z, o.rot(o.xor(w, z), s')) && Of(o.xor(w, z), s');
  }

  function UndoHalves(o: Ops, v: State): State {
    var h := HalfUndo(o, v.v2, v.v1, v.v0, v.v3, 47, 43);
    var g := HalfUndo(o, h.2, h.1, h.0, h.3, 51, 48);
    State(g.0, g.1, g.2, g.3)
  }

  lemma HalvesInvertible(o: Ops, v: State)
    requires Laws(o)
    ensures UndoHalves(o, TwoHalves(o, v)) == v && TwoHalves(o, UndoHalves(o, v)) == v
  {
    HalfInvertible(o, v.v0, v.v1, v.v2, v.v3, 13, 16, 51, 48);
    var h := HalfRound(o, v.v0, v.v1, v.v2, v.v3, 13, 16);
    HalfInvertible(o, h.2, h.1, h.0, h.3, 17, 21, 47, 43);
    HalfInvertible(o, v.v2, v.v1, v.v0, v.v3, 17, 21, 47, 43);
    var g := HalfUndo(o, v.v2, v.v1, v.v0, v.v3, 47, 43);
    HalfInvertible(o, g.2, g.1, g.0, g.3, 13, 16, 51, 48);
  }

  lemma RoundsInvertible(o: Ops, v: State)
    requires Laws(o)
    ensures UndoHalves(o, UndoHalves(o, DoubleRound(o, v))) == v
    ensures DoubleRound(o, UndoHalves(o, UndoHalves(o, v))) == v
  {
    HalvesInvertible(o, v);
    HalvesInvertible(o, TwoHalves(o, v));
    HalvesInvertible(o, UndoHalves(o, v));
  }

  /** DOUBLE_ROUND permutes the states of four 64-bit words: it has a two-sided inverse. */
  lemma DoubleRoundInvertible(v: State)
    ensures UndoHalves(Machine(), UndoHalves(Machine(), DoubleRound(Machine(), v))) == v
    ensures DoubleRound(Machine(), UndoHalves(Machine(), UndoHalves(Machine(), v))) == v
  {
    MachineLaws();
    RoundsInvertible(Machine(), v);
  }

  // ----- the last word -----

  /** `n << (8 * k)`, a byte at a time. */
  function Up(o: Ops, n: Word, k: nat): Word {
    if k == 0 then n else o.up(Up(o, n, k - 1))
  }

  lemma {:induction false} UpOr(o: Ops, a: Word, b: Word, k: nat)
    requires Laws(o)
    ensures Up(o, o.or(a, b), k) == o.or(Up(o, a, k), Up(o, b, k))
  {
    if k > 0 {
      UpOr(o, a, b, k - 1);
      assert Of(Up(o, a, k - 1), Up(o, b, k - 1));
    }
  }

  lemma {:induction false} UpMore(o: Ops, n: Word, k: nat)
    ensures Up(o, o.up(n), k) == Up(o, n, k + 1)
  {
    if k > 0 { UpMore(o, n, k - 1); }
  }

  lemma {:induction false} UpUp(o: Ops, n: Word, j: nat, k: nat)
    ensures Up(o, Up(o, n, j), k) == Up(o, n, j + k)
  {
    if k > 0 { UpUp(o, n, j, k - 1); }
  }

  lemma {:induction false} LittleZeros(o: Ops, k: nat, b: Byte)
    requires Laws(o)
    ensures Little(o, seq(k, _ => 0) + [b]) == Up(o, o.byte(b), k)
  {
    var z: seq<Byte> := seq(k, _ => 0);
    if k == 0 {
      assert z + [b] == [b] && [b][1..] == [];
      assert Of(0, o.byte(b));
    } else {
      LittleZeros(o, k - 1, b);
      assert Of(Up(o, o.byte(b), k - 1), o.byte(b));
      assert (z + [b])[0] == 0 && (z + [b])[1..] == seq(k - 1, _ => 0) + [b];
    }
  }

  /** One case of the switch: byte `j` joins the bytes above it. */
  lemma TailStep(o: Ops, q: seq<Byte>, j: nat, j': nat, last7: Word)
    requires Laws(o) && j < |q| == 8 && j' == j + 1 && last7 == Up(o, Little(o, q[j'..]), j')
    ensures o.or(last7, Up(o, o.byte(q[j]), j)) == Up(o, Little(o, q[j..]), j)
  {
    var n, b := Little(o, q[j'..]), o.byte(q[j]);
    UpMore(o, n, j);
    UpOr(o, b, o.up(n), j);
    assert Of(last7, Up(o, b, j));
    assert q[j..][1..] == q[j'..];
  }

  /**
    The fall-through switch: `last7` starts with the length in its top byte, and the bytes after the last whole block
    are or-ed in, the last one first.
   */
  method Tail(o: Ops, m: seq<Byte>, i: nat) returns (last7: Word)
    requires Laws(o) && i <= |m| && |m| - i == |m| % 8
    ensures last7 == Little(o, m[i..] + Pad(|m|))
  {
    ghost var q := m[i..] + Pad(|m|);
    var n := |m| - i;
    TailStart(o, q, |m|, n);
    last7 := Up(o, o.byte(LengthByte(|m|)), 7);
    var j := n;
    while j > 0
      invariant 0 <= j <= n && last7 == Up(o, Little(o, q[j..]), j)
    {
      TailStep(o, q, j - 1, j, last7);
      last7 := o.or(last7, Up(o, o.byte(m[i + j - 1]), j - 1));
      j := j - 1;
    }
    assert q[0..] == q;
  }

  lemma TailStart(o: Ops, q: seq<Byte>, len: nat, n: nat)
    requires Laws(o) && n == len % 8 && |q| == 8 && q[n..] == Pad(len)
    ensures Up(o, o.byte(LengthByte(len)), 7) == Up(o, Little(o, q[n..]), n)
  {
    LittleZeros(o, 7 - n, LengthByte(len));
    UpUp(o, o.byte(LengthByte(len)), 7 - n, n);
  }

  // ----- the function -----

  method BlockStep(o: Ops, v: State, m: seq<Byte>, u: State, i: nat, i': nat) returns (u': State)
    requires i' == i + 8 <= |m| && u == Fold(o, v, m[..i])
    ensures u' == Fold(o, v, m[..i'])
  {
    FoldStep(o, v, m, i, i');
    u' := Compress(o, u, Little(o, m[i..i']));
  }

  /** The loop over whole blocks. */
  method Blocks(o: Ops, v: State, m: seq<Byte>, blocks: nat, ghost n: nat) returns (u: State)
    requires blocks == 8 * n <= |m|
    ensures u == Fold(o, v, m[..blocks])
  {
    u := v;
    var i := 0;
    ghost var k := 0;
    while i < blocks
      invariant i == 8 * k && k <= n && u == Fold(o, v, m[..i])
    {
      u := BlockStep(o, v, m, u, i, i + 8);
      i, k := i + 8, k + 1;
    }
    assert i == blocks;
  }

  /** Every word of the padded message, the last one put together by the switch. */
  method Consume(o: Ops, start: State, m: seq<Byte>) returns (v: State)
    requires Laws(o)
    ensures v == Fold(o, start, Padded(m))
  {
    var blocks := |m| / 8 * 8;
    v := Blocks(o, start, m, blocks, |m| / 8);
    var last7 := Tail(o, m, blocks);
    PaddedFold(o, start, m, blocks);
    v := Compress(o, v, last7);
  }

  /** siphash24 */
  method Siphash24(m: seq<Byte>, k0: Word, k1: Word) returns (h: Word)
    ensures h == SipHash24(k0, k1, m)
  {
    MachineLaws();
    h := HashWith(Machine(), Start(k0, k1), m);
  }

  method HashWith(o: Ops, start: State, m: seq<Byte>) returns (h: Word)
    requires Laws(o)
    ensures h == Hash(o, start, m)
  {
    var v := Consume(o, start, m);
    h := Squeeze(o, v);
  }

  /** `v2 ^= 0xff`, two double rounds, and the xor of all four words. */
  method Squeeze(o: Ops, u: State) returns (h: Word)
    ensures h == Finish(o, u)
  {
    var v := u.(v2 := o.xor(u.v2, 0xff));
    DoubleRoundIsTwo(o, v);
    v := DoubleRound(o, v);
    DoubleRoundIsTwo(o, v);
    v := DoubleRound(o, v);
    h := o.xor(o.xor(o.xor(v.v0, v.v1), v.v2), v.v3);
  }

  /** `v3 ^= mi; DOUBLE_ROUND(v0,v1,v2,v3); v0 ^= mi;` */
  method Compress(o: Ops, v: State, mi: Word) returns (u: State)
    ensures u == Absorb(o, v, mi)
  {
    u := v.(v3 := o.xor(v.v3, mi));
    DoubleRoundIsTwo(o, u);
    u := DoubleRound(o, u);
    u := u.(v0 := o.xor(u.v0, mi));
  }

  lemma FoldStep(o: Ops, v: State, m: seq<Byte>, i: nat, i': nat)
    requires i' == i + 8 <= |m|
    ensures Fold(o, v, m[..i']) == Absorb(o, Fold(o, v, m[..i]), Little(o, m[i..i']))
  {
    var p := m[..i'];
    assert p[..|p| - 8] == m[..i] && p[|p| - 8..] == m[i..i'];
  }

  /** The last word of the padded message is the rest of the message, zeros and the length. */
  lemma PaddedFold(o: Ops, v: State, m: seq<Byte>, i: nat)
    requires i == |m| / 8 * 8
    ensures Fold(o, v, Padded(m)) == Absorb(o, Fold(o, v, m[..i]), Little(o, m[i..] + Pad(|m|)))
  {
    var p := Padded(m);
    assert p[..|p| - 8] == m[..i] && p[|p| - 8..] == m[i..] + Pad(|m|);
  }

  // ----- the test vectors -----

  // The states are those after the start and after each word.

  const KEY0: Word := 0x0706_0504_0302_0100
  const KEY1: Word := 0x0f0e_0d0c_0b0a_0908

  const STARTED := State(0x7469_6861_7371_6475, 0x6b61_7f6d_656e_6665, 0x6b7f_6261_6d67_7361, 0x7b6b_696e_727e_6c7b)
  const EMPTY_END := State(0x7512_6fd4_4af1_90b6, 0x0842_3516_4f06_142b, 0x37b0_4f9f_8026_831d, 0x1b46_78cd_e825_3231)
  const FIRST_END := State(0x4a01_7198_de0a_59e0, 0x0d52_f6f6_2a4f_59a4, 0x634c_b357_7b01_fd3d, 0xa522_4d6f_55c7_d9c8)
  const SECOND_END := State(0x3c85_b3ab_6f55_be51, 0x414f_c3fb_98ef_e374, 0xccf1_3ea5_27b9_f4bd, 0x5293_f5da_8400_8f82)

  lemma StartVector()
    ensures Start(KEY0, KEY1) == STARTED
  {
  }

  lemma EmptyAbsorbed()
    ensures Absorb(Machine(), STARTED, 0) == EMPTY_END
  {
  }

  lemma EmptyFinished()
    ensures Finish(Machine(), EMPTY_END) == 0x726f_db47_dd0e_0e31
  {
  }

  lemma FirstAbsorbed()
    ensures Absorb(Machine(), STARTED, 0x0706_0504_0302_0100) == FIRST_END
  {
  }

  lemma SecondAbsorbed()
    ensures Absorb(Machine(), FIRST_END, 0x0f0e_0d0c_0b0a_0908) == SECOND_END
  {
  }

  lemma SecondFinished()
    ensures Finish(Machine(), SECOND_END) == 0xa129_ca61_49be_45e5
  {
  }

  lemma LittleAt(o: Ops, s: seq<Byte>, i: nat, j: nat)
    requires j == i + 1 <= |s|
    ensures Little(o, s[i..]) == o.or(o.byte(s[i]), o.up(Little(o, s[j..])))
  {
    assert s[i..][1..] == s[j..];
  }

  lemma LittleNone(o: Ops, s: seq<Byte>, b: Byte)
    requires Laws(o) && s == []
    ensures o.or(o.byte(b), o.up(Little(o, s))) == o.byte(b)
  {
    assert Of(0, o.byte(b));
  }

  /** Eight bytes, lowest first. */
  lemma LittleEight(o: Ops, s: seq<Byte>)
    requires Laws(o) && |s| == 8
    ensures Little(o, s) == o.or(o.byte(s[0]), o.up(o.or(o.byte(s[1]), o.up(o.or(o.byte(s[2]), o.up(o.or(o.byte(s[3]), o.up(
                              o.or(o.byte(s[4]), o.up(o.or(o.byte(s[5]), o.up(o.or(o.byte(s[6]), o.up(o.byte(s[7])))))))))))))))
  {
    assert s[0..] == s;
    LittleAt(o, s, 0, 1);
    LittleAt(o, s, 1, 2);
    LittleAt(o, s, 2, 3);
    LittleAt(o, s, 3, 4);
    LittleAt(o, s, 4, 5);
    LittleAt(o, s, 5, 6);
    LittleAt(o, s, 6, 7);
    LittleAt(o, s, 7, 8);
    LittleNone(o, s[8..], s[7]);
  }

  lemma FirstWord()
    ensures Little(Machine(), [0, 1, 2, 3, 4, 5, 6, 7]) == 0x0706_0504_0302_0100
  {
    MachineLaws();
    LittleEight(Machine(), [0, 1, 2, 3, 4, 5, 6, 7]);
  }

  lemma SecondWord()
    ensures Little(Machine(), [8, 9, 10, 11, 12, 13, 14, 15]) == 0x0f0e_0d0c_0b0a_0908
  {
    MachineLaws();
    LittleEight(Machine(), [8, 9, 10, 11, 12, 13, 14, 15]);
  }

  lemma ZeroWord()
    ensures Little(Machine(), [0, 0, 0, 0, 0, 0, 0, 0]) == 0
  {
    MachineLaws();
    LittleEight(Machine(), [0, 0, 0, 0, 0, 0, 0, 0]);
  }

  lemma FoldNone(o: Ops, v: State, p: seq<Byte>)
    requires p == []
    ensures Fold(o, v, p) == v
  {
  }

  lemma FoldOne(o: Ops, v: State, p: seq<Byte>)
    requires |p| == 8
    ensures Fold(o, v, p) == Absorb(o, v, Little(o, p))
  {
    assert p[..0] == [] && p[0..] == p;
    FoldNone(o, v, p[..0]);
  }

  lemma FoldTwo(o: Ops, v: State, p: seq<Byte>, q: seq<Byte>)
    requires |p| == |q| == 8
    ensures Fold(o, v, p + q) == Absorb(o, Absorb(o, v, Little(o, p)), Little(o, q))
  {
    assert (p + q)[..8] == p && (p + q)[8..] == q;
    FoldOne(o, v, p);
  }

  lemma EmptyPadded()
    ensures Padded([]) == [0, 0, 0, 0, 0, 0, 0, 0]
  {
    assert Pad(0) == [0, 0, 0, 0, 0, 0, 0, 0];
  }

  lemma FifteenPadded()
    ensures Padded([0, 1, 2, 3, 4, 5, 6, 7, 8, 9, 10, 11, 12, 13, 14])
         == [0, 1, 2, 3, 4, 5, 6, 7] + [8, 9, 10, 11, 12, 13, 14, 15]
  {
    assert Pad(15) == [15];
  }

  /** The vector of the empty message. */
  lemma EmptyVector()
    ensures SipHash24(KEY0, KEY1, []) == 0x726f_db47_dd0e_0e31
  {
    StartVector();
    ZeroWord();
    EmptyPadded();
    FoldOne(Machine(), Start(KEY0, KEY1), [0, 0, 0, 0, 0, 0, 0, 0]);
    EmptyAbsorbed();
    EmptyFinished();
  }

  /** The vector of the fifteen bytes 0 to 14, which the paper works out. */
  lemma FifteenVector()
    ensures SipHash24(KEY0, KEY1, [0, 1, 2, 3, 4, 5, 6, 7, 8, 9, 10, 11, 12, 13, 14]) == 0xa129_ca61_49be_45e5
  {
    StartVector();
    FirstWord();
    SecondWord();
    FifteenPadded();
    FoldTwo(Machine(), Start(KEY0, KEY1), [0, 1, 2, 3, 4, 5, 6, 7], [8, 9, 10, 11, 12, 13, 14, 15]);
    FirstAbsorbed();
    SecondAbsorbed();
    SecondFinished();
  }
}
