/**
  The cursor style of the generated code: encoders advance over an output buffer and
  may write a length back, parsers advance over the input.
 */
module Cursor {

  import opened Wire

  /** `memcpy(ptr, b, |b|)` at offset `at` of the buffer. */
  method Store(out: array<Byte>, at: nat, b: Bytes)
    requires at + |b| <= out.Length
    modifies out
    ensures out[..at + |b|] == old(out[..at]) + b && out[at + |b|..] == old(out[at + |b|..])
  {
    var i := 0;
    while i < |b|
      invariant 0 <= i <= |b|
      invariant out[..at + i] == old(out[..at]) + b[..i]
      invariant out[at + i..] == old(out[at + i..])
    {
      out[at + i] := b[i];
      assert out[..at + i + 1] == out[..at + i] + [b[i]];
      i := i + 1;
    }
  }

  /** `if (avail - written < |b|) goto truncated; memcpy(ptr, b, |b|)` */
  method Put(out: array<Byte>, base: nat, avail: nat, written: nat, b: Bytes) returns (ok: bool)
    requires base + avail <= out.Length && written <= avail
    modifies out
    ensures ok <==> written + |b| <= avail
    ensures ok ==> out[..base + written + |b|] == old(out[..base + written]) + b
    ensures !ok ==> out[..] == old(out[..])
  {
    ok := avail - written >= |b|;
    if ok {
      Store(out, base + written, b);
    }
  }

  /** Writing a length back into its place. */
  method Patch(out: array<Byte>, at: nat, l: Bytes, ghost p: Bytes, ghost q: Bytes, ghost e: Bytes)
    requires at + |l| + |e| <= out.Length && out[..at + |l| + |e|] == p + (q + e) && |p| == at && |q| == |l|
    modifies out
    ensures out[..at + |l| + |e|] == p + (l + e)
  {
    ghost var m, n := at + |l|, at + |l| + |e|;
    ghost var was, tail := out[..n], out[m..];
    TailOf(out[..], m, n);
    assert was[..at] == p && was[m..] == e;
    Store(out, at, l);
    TailOf(out[..], m, n);
    assert out[..][m..] == tail;
    assert out[..n] == out[..m] + out[m..n];
    Assoc3(p, l, e);
  }

  lemma TailOf(s: Bytes, m: nat, n: nat)
    requires m <= n <= |s|
    ensures s[..n][m..] == s[m..][..n - m] == s[m..n]
  {
  }

  /** What an encoder returns for an encoding `e` when `avail` bytes are left: its length, or -2. */
  function Room(avail: int, e: Bytes): int {
    if |e| <= avail then |e| else -2
  }

  /** The buffer before `base` is kept, and `e` follows it. */
  ghost predicate Wrote(before: Bytes, out: Bytes, base: int, r: int, e: Bytes) {
    (r == |e| && 0 <= base <= |before| && base + |e| <= |out| && out[..base + |e|] == before[..base] + e) == true
  }

  /**
    The contract of an encoder with `avail` bytes at `base`.  If the object is `good` it returns the length of its
    encoding `e` when that fits and -2 when it does not; otherwise it fails.  On success `e` is in the buffer.
   */
  ghost predicate Encodes(good: bool, e: Bytes, before: Bytes, out: Bytes, base: int, avail: int, r: int) {
    ( && (if good then r == Room(avail, e) else r < 0)
      && (r >= 0 ==> Wrote(before, out, base, r, e))) == true
  }

  /** An encoder whose check fails returns -1 before it writes anything. */
  ghost predicate Refuses(checked: bool, before: Bytes, out: Bytes, r: int) {
    (!checked ==> r == -1 && out == before) == true
  }

  /** One encoder after another. */
  lemma EncodesThen(good: bool, e: Bytes, good': bool, e': Bytes, before: Bytes, mid: Bytes, out: Bytes, base: int, avail: int, r: int, base': int, avail': int, r': int)
    requires Encodes(good, e, before, mid, base, avail, r) && 0 <= r <= avail && base' == base + r && avail' == avail - r
    requires Encodes(good', e', mid, out, base', avail', r')
    ensures Encodes(good && good', e + e', before, out, base, avail, if r' < 0 then r' else r + r')
  {
    if r' >= 0 {
      Assoc3(before[..base], e, e');
    }
  }

  /** The first encoder failed. */
  lemma EncodesNot(good: bool, e: Bytes, good': bool, e': Bytes, before: Bytes, out: Bytes, base: int, avail: int, r: int)
    requires Encodes(good, e, before, out, base, avail, r) && r < 0
    ensures Encodes(good && good', e + e', before, out, base, avail, r)
  {
  }

  lemma EncodesBound(good: bool, e: Bytes, before: Bytes, out: Bytes, base: int, avail: int, r: int)
    requires Encodes(good, e, before, out, base, avail, r) && r >= 0
    ensures good && r == |e| <= avail
  {
  }

  lemma EncodesText(good: bool, e: Bytes, before: Bytes, out: Bytes, base: int, avail: int, r: int)
    requires Encodes(good, e, before, out, base, avail, r) && r >= 0
    ensures 0 <= base <= |before| && base + r <= |out| && out[..base + r] == before[..base] + e
  {
  }

  /** The verdict as the return value of a parser that fills in `obj`. */
  ghost predicate Reports<T>(v: Verdict<T>, r: int, obj: T) {
    (match v
     case Done(x, n) => r == n && obj == x
     case Invalid => r == -1
     case Truncated => r == -2) == true
  }

  /** Reading a big-endian integer. */
  method GetInt(input: Bytes, at: nat, w: nat) returns (n: nat)
    requires at + w <= |input|
    ensures n == FromBigEndian(input[at..at + w])
  {
    n := 0;
    var i := 0;
    assert input[at..at + 0] == [];
    while i < w
      invariant 0 <= i <= w && n == FromBigEndian(input[at..at + i])
    {
      var s := input[at..at + i + 1];
      assert s[..|s| - 1] == input[at..at + i] && s[|s| - 1] == input[at + i];
      n := n * 256 + input[at + i];
      i := i + 1;
    }
  }

  // ----- runs of fields -----

  lemma CatSnoc(ps: seq<Bytes>, i: nat)
    requires i < |ps|
    ensures Cat(ps[..i + 1]) == Cat(ps[..i]) + ps[i] && |Cat(ps[..i + 1])| <= |Cat(ps)|
  {
    assert ps[..i + 1] == ps[..i] + [ps[i]];
    CatSplit(ps[..i], [ps[i]]);
    assert Cat([ps[i]]) == ps[i] + Cat([]);
    assert ps == ps[..i + 1] + ps[i + 1..];
    CatSplit(ps[..i + 1], ps[i + 1..]);
  }

  lemma Cat1(a: Bytes)
    ensures Cat([a]) == a
  {
    assert [a][1..] == [];
    assert a + [] == a;
  }

  lemma Cat2(a: Bytes, b: Bytes)
    ensures Cat([a, b]) == a + b
  {
    assert [a, b][1..] == [b] && [b][1..] == [];
    assert Cat([b]) == b + Cat([]);
  }

  lemma Cat3(a: Bytes, b: Bytes, c: Bytes)
    ensures Cat([a, b, c]) == a + (b + c)
  {
    Cat2(b, c);
    assert [a, b, c][1..] == [b, c];
  }

  lemma Cat4(a: Bytes, b: Bytes, c: Bytes, d: Bytes)
    ensures Cat([a, b, c, d]) == a + (b + (c + d))
  {
    Cat3(b, c, d);
    assert [a, b, c, d][1..] == [b, c, d];
  }

  lemma Cat5(a: Bytes, b: Bytes, c: Bytes, d: Bytes, e: Bytes)
    ensures Cat([a, b, c, d, e]) == a + (b + (c + (d + e)))
  {
    Cat4(b, c, d, e);
    assert [a, b, c, d, e][1..] == [b, c, d, e];
  }

  lemma Cat6(a: Bytes, b: Bytes, c: Bytes, d: Bytes, e: Bytes, f: Bytes)
    ensures Cat([a, b, c, d, e, f]) == a + (b + (c + (d + (e + f))))
  {
    Cat5(b, c, d, e, f);
    assert [a, b, c, d, e, f][1..] == [b, c, d, e, f];
  }

  /** Consecutive fields of an encoder, each with its own test for room. */
  method PutFields(out: array<Byte>, base: nat, avail: nat, fields: seq<Bytes>) returns (r: int)
    requires base + avail <= out.Length
    modifies out
    ensures Encodes(true, Cat(fields), old(out[..]), out[..], base, avail, r)
  {
    ghost var start := out[..base];
    var written, i := 0, 0;
    assert fields[..0] == [] && start + [] == start;
    while i < |fields|
      invariant 0 <= i <= |fields| && 0 <= written == |Cat(fields[..i])| <= avail
      invariant out[..base + written] == start + Cat(fields[..i])
    {
      CatSnoc(fields, i);
      Assoc3(start, Cat(fields[..i]), fields[i]);
      var ok := Put(out, base, avail, written, fields[i]);
      if !ok { return -2; }
      written := written + |fields[i]|;
      i := i + 1;
    }
    assert fields[..i] == fields;
    r := written;
  }

  // ----- arrays -----

  lemma NoneEncoded<T>(c: Codec<T>, vs: seq<T>, before: Bytes, base: int, avail: int)
    requires 0 <= base <= |before| && 0 <= avail
    ensures Encodes(RepOk(c, vs[..0]), EncodeAll(c, vs[..0]), before, before, base, avail, 0)
  {
    assert vs[..0] == [];
    assert before[..base] + [] == before[..base];
  }

  /** One turn of an encoding loop: element `i` was given the room that is left. */
  lemma OneMoreEncoded<T>(c: Codec<T>, vs: seq<T>, i: nat, i': nat, before: Bytes, mid: Bytes, out: Bytes, base: int, avail: int, r: int, base': int, avail': int, n: int)
    requires i < |vs| && i' == i + 1 && 0 <= r <= avail && base' == base + r && avail' == avail - r
    requires Encodes(RepOk(c, vs[..i]), EncodeAll(c, vs[..i]), before, mid, base, avail, r)
    requires Encodes(Ok(c, vs[i]), Enc(c, vs[i]), mid, out, base', avail', n)
    ensures n >= 0 ==> n <= avail - r && Encodes(RepOk(c, vs[..i']), EncodeAll(c, vs[..i']), before, out, base, avail, r + n)
    ensures n < 0 ==> Encodes(RepOk(c, vs), EncodeAll(c, vs), before, out, base, avail, n)
  {
    EncodesThen(RepOk(c, vs[..i]), EncodeAll(c, vs[..i]), c.ok(vs[i]), c.enc(vs[i]), before, mid, out, base, avail, r, base', avail', n);
    EncodeSnoc(c, vs, i);
    RepOkEach(c, vs[..i]);
    RepOkEach(c, vs[..i']);
    assert forall j :: 0 <= j < i ==> vs[..i'][j] == vs[..i][j];
    assert vs[..i'][i] == vs[i];
    if n < 0 {
      RepOkEach(c, vs);
      assert RepOk(c, vs) ==> RepOk(c, vs[..i']);
    }
  }

  // ----- back-patched lengths -----

  lemma OneByte(n: nat)
    ensures BigEndian(1, n) == [n % 256] && Limit(1) == 256
  {
    assert BigEndian(0, n / 256) == [];
  }

  /** The fields before the arm of such a union, with the length field somewhere among them. */
  lemma HeadSplit(pre: seq<Bytes>, l: Bytes, mid: seq<Bytes>)
    ensures Cat(pre + [l] + mid) == Cat(pre) + (l + Cat(mid))
  {
    CatSplit(pre + [l], mid);
    CatSplit(pre, [l]);
    Cat1(l);
    Assoc3(Cat(pre), l, Cat(mid));
  }

  /**
    A union whose length field comes before it: the fields `pre`, of `off` bytes, a length of `w` bytes with whatever
    the object holds there, the fields `mid`, and the arm; then the length of the arm is written over the length field.
   */
  method PutSized(out: array<Byte>, base: nat, avail: nat, pre: seq<Bytes>, off: nat, w: nat, stale: Bytes, mid: seq<Bytes>, arm: seq<Bytes>) returns (r: int)
    requires base + avail <= out.Length && |stale| == w && off == |Cat(pre)|
    modifies out
    ensures Encodes(|Cat(arm)| < Limit(w), Cat(pre) + (BigEndian(w, |Cat(arm)|) + (Cat(mid) + Cat(arm))), old(out[..]), out[..], base, avail, r)
    ensures r == -1 <==> off + w + |Cat(mid)| + |Cat(arm)| <= avail && Limit(w) <= |Cat(arm)|
  {
    ghost var start, p, m, a := out[..base], Cat(pre), Cat(mid), Cat(arm);
    ghost var before := out[..];
    HeadSplit(pre, stale, mid);
    var n := PutFields(out, base, avail, pre + [stale] + mid);
    if n < 0 { return n; }
    EncodesText(true, p + (stale + m), before, out[..], base, avail, n);
    ghost var half := out[..];
    var base', avail' := base + n, avail - n;
    r := PutFields(out, base', avail', arm);
    if r < 0 { return; }
    if r >= Limit(w) { return -1; }
    EncodesText(true, a, half, out[..], base', avail', r);
    Regroup(start, p, stale, m, a);
    Patch(out, base + off, BigEndian(w, r), start + p, stale, m + a);
    Assoc3(start, p, BigEndian(w, r) + (m + a));
    r := n + r;
  }

  lemma Regroup(s: Bytes, p: Bytes, l: Bytes, m: Bytes, a: Bytes)
    ensures (s + (p + (l + m))) + a == (s + p) + (l + (m + a))
  {
    Assoc3(s, p, l + m);
    Assoc3(s + p, l + m, a);
    Assoc3(l, m, a);
  }

  /** A parsing loop that has not collected anything yet. */
  lemma StartLoop<T>(v: Verdict<seq<T>>)
    ensures After([], 0, v) == v
  {
    if v.Done? { assert [] + v.value == v.value; }
  }
}
