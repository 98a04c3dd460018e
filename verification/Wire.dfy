/**
  Wire codecs in the style of the generated files in trunnel, as values.

  A codec pairs an encoder with a parser that returns one of three verdicts: so many
  bytes were used, the bytes are invalid (-1), or the input is truncated (-2).
 */
module Wire {

  type Byte = x: int | 0 <= x < 256

  type Bytes = seq<Byte>

  datatype Verdict<T> = Done(value: T, used: nat) | Invalid | Truncated

  /** `ok` marks the values that have an encoding and that the parser can return. */
  datatype Codec<!T> = Codec(ok: T -> bool, enc: T -> Bytes, dec: Bytes -> Verdict<T>)

  // A codec's functions, applied.

  ghost predicate Ok<T>(c: Codec<T>, v: T) { c.ok(v) }

  ghost function Enc<T>(c: Codec<T>, v: T): Bytes { c.enc(v) }

  ghost function Dec<T>(c: Codec<T>, s: Bytes): Verdict<T> { c.dec(s) }

  lemma Assoc3(a: Bytes, b: Bytes, c: Bytes)
    ensures (a + b) + c == a + (b + c)
  {
  }

  lemma SubSlice(s: Bytes, i: nat, j: nat, k: nat)
    requires j <= k && i + k <= |s|
    ensures s[i..][j..k] == s[i + j..i + k]
  {
  }

  // ----- laws -----

  /** Encoding and then parsing gives the value back, whatever bytes follow. */
  ghost predicate RoundTrip<T>(c: Codec<T>, v: T, t: Bytes) {
    c.ok(v) ==> c.dec(c.enc(v) + t) == Done(v, |c.enc(v)|)
  }

  /** A parsed value lies within the input and can be encoded. */
  ghost predicate Sane<T>(c: Codec<T>, s: Bytes) {
    c.dec(s).Done? ==> c.dec(s).used <= |s| && c.ok(c.dec(s).value)
  }

  /** A verdict other than truncated does not change when bytes are appended. */
  ghost predicate Stable<T>(c: Codec<T>, s: Bytes, t: Bytes) {
    c.dec(s) != Truncated ==> c.dec(s + t) == c.dec(s)
  }

  /** Encoding what was parsed reproduces the bytes that were used. */
  ghost predicate Exact<T>(c: Codec<T>, s: Bytes) {
    c.dec(s).Done? ==> c.dec(s).used <= |s| && c.enc(c.dec(s).value) == s[..c.dec(s).used]
  }

  /** Parses whole windows: the law of formats that take all the bytes they are given. */
  ghost predicate Windowed<T(!new)>(c: Codec<T>) {
    (forall v :: RoundTrip(c, v, [])) && (forall s :: Sane(c, s))
  }

  /** Self-delimiting: the encoding tells where it ends. */
  ghost predicate Delimited<T(!new)>(c: Codec<T>) {
    && (forall v, t :: RoundTrip(c, v, t))
    && (forall s :: Sane(c, s))
    && (forall s, t :: Stable(c, s, t))
  }

  ghost predicate Faithful<T(!new)>(c: Codec<T>) {
    forall s :: Exact(c, s)
  }

  // ----- what the laws give -----

  /** Every proper prefix of an accepted message is reported as truncated. */
  lemma PrefixTruncated<T(!new)>(c: Codec<T>, s: Bytes, m: nat)
    requires Delimited(c) && c.dec(s).Done? && m < c.dec(s).used <= |s|
    ensures c.dec(s[..m]) == Truncated
  {
    assert Sane(c, s[..m]);
    assert Stable(c, s[..m], s[m..]);
    assert s[..m] + s[m..] == s;
  }

  /** No encoding is a proper prefix of another, and equal encodings come from equal values. */
  lemma PrefixFree<T(!new)>(c: Codec<T>, v: T, w: T, t: Bytes)
    requires Delimited(c) && c.ok(v) && c.ok(w) && c.enc(w) == c.enc(v) + t
    ensures v == w && t == []
  {
    assert RoundTrip(c, v, t);
    assert RoundTrip(c, w, []);
    assert c.enc(w) + [] == c.enc(v) + t;
  }

  function EncodeAll<T>(c: Codec<T>, vs: seq<T>): Bytes {
    if vs == [] then [] else c.enc(vs[0]) + EncodeAll(c, vs[1..])
  }

  ghost predicate AllOk<T>(c: Codec<T>, vs: seq<T>) {
    forall i {:trigger vs[i]} :: 0 <= i < |vs| ==> c.ok(vs[i]) && c.enc(vs[i]) != []
  }

  lemma NoneEmpty<T>(c: Codec<T>, vs: seq<T>)
    requires AllOk(c, vs)
    ensures EncodeAll(c, vs) == [] <==> vs == []
  {
    if vs != [] {
      var v := vs[0];
      assert |EncodeAll(c, vs)| >= |c.enc(v)|;
    }
  }

  /** A concatenation of messages splits in only one way. */
  lemma {:induction false} UniqueSplit<T(!new)>(c: Codec<T>, vs: seq<T>, ws: seq<T>)
    requires Delimited(c) && AllOk(c, vs) && AllOk(c, ws) && EncodeAll(c, vs) == EncodeAll(c, ws)
    ensures vs == ws
  {
    if vs == [] || ws == [] {
      NoneEmpty(c, vs);
      NoneEmpty(c, ws);
    } else {
      var v, w := vs[0], ws[0];
      var s := EncodeAll(c, vs);
      assert RoundTrip(c, v, EncodeAll(c, vs[1..])) && RoundTrip(c, w, EncodeAll(c, ws[1..]));
      assert s[|c.enc(v)|..] == EncodeAll(c, vs[1..]) && s[|c.enc(w)|..] == EncodeAll(c, ws[1..]);
      UniqueSplit(c, vs[1..], ws[1..]);
    }
  }

  /** Parsing and re-encoding. */
  function Normal<T>(c: Codec<T>, s: Bytes): Bytes
    requires c.dec(s).Done?
  {
    c.enc(c.dec(s).value)
  }

  /** Parse-then-encode is an idempotent normaliser: its result parses to the same value, and normalising again changes nothing. */
  lemma NormalIdempotent<T(!new)>(c: Codec<T>, s: Bytes, t: Bytes)
    requires Delimited(c) && c.dec(s).Done?
    ensures c.dec(Normal(c, s) + t) == Done(c.dec(s).value, |Normal(c, s)|)
    ensures Normal(c, Normal(c, s) + t) == Normal(c, s)
  {
    assert Sane(c, s);
    assert RoundTrip(c, c.dec(s).value, t);
  }

  // ----- integers and byte arrays -----

  /** A big-endian integer of `w` bytes. */
  function BigEndian(w: nat, n: nat): (r: Bytes)
    ensures |r| == w
  {
    if w == 0 then [] else BigEndian(w - 1, n / 256) + [n % 256]
  }

  function FromBigEndian(s: Bytes): nat {
    if s == [] then 0 else 256 * FromBigEndian(s[..|s| - 1]) + s[|s| - 1]
  }

  function Limit(w: nat): nat {
    if w == 0 then 1 else 256 * Limit(w - 1)
  }

  lemma {:induction false} BigEndianBack(w: nat, n: nat)
    requires n < Limit(w)
    ensures FromBigEndian(BigEndian(w, n)) == n
  {
    if w > 0 {
      BigEndianBack(w - 1, n / 256);
      assert BigEndian(w, n)[..w - 1] == BigEndian(w - 1, n / 256);
    }
  }

  lemma {:induction false} FromBigEndianBack(s: Bytes)
    ensures FromBigEndian(s) < Limit(|s|) && BigEndian(|s|, FromBigEndian(s)) == s
  {
    if s != [] {
      FromBigEndianBack(s[..|s| - 1]);
      assert s == s[..|s| - 1] + [s[|s| - 1]];
    }
  }

  function Int(w: nat): Codec<nat> {
    Codec((n: nat) => n < Limit(w), (n: nat) => BigEndian(w, n),
          s => if |s| < w then Truncated else Done(FromBigEndian(s[..w]), w))
  }

  lemma IntLawful(w: nat)
    ensures Delimited(Int(w)) && Faithful(Int(w))
  {
    var c := Int(w);
    forall v: nat, t ensures RoundTrip(c, v, t) {
      if v < Limit(w) {
        BigEndianBack(w, v);
        assert (BigEndian(w, v) + t)[..w] == BigEndian(w, v);
      }
    }
    forall s ensures Sane(c, s) && Exact(c, s) {
      if |s| >= w { FromBigEndianBack(s[..w]); }
    }
    forall s, t ensures Stable(c, s, t) {
      if |s| >= w { assert (s + t)[..w] == s[..w]; }
    }
  }

  /** `n` bytes. */
  function Fixed(n: nat): Codec<Bytes> {
    Codec((v: Bytes) => |v| == n, (v: Bytes) => v, s => if |s| < n then Truncated else Done(s[..n], n))
  }

  lemma FixedLawful(n: nat)
    ensures Delimited(Fixed(n)) && Faithful(Fixed(n))
  {
    var c := Fixed(n);
    forall v: Bytes, t ensures RoundTrip(c, v, t) {
      if |v| == n { assert (v + t)[..n] == v; }
    }
    forall s, t ensures Stable(c, s, t) {
      if |s| >= n { assert (s + t)[..n] == s[..n]; }
    }
  }

  /** All the bytes there are. */
  function Rest(): Codec<Bytes> {
    Codec((v: Bytes) => true, (v: Bytes) => v, (s: Bytes) => Done(s, |s|))
  }

  lemma RestLawful()
    ensures Windowed(Rest()) && Faithful(Rest())
  {
    forall v: Bytes ensures RoundTrip(Rest(), v, []) { assert v + [] == v; }
  }

  /** All the bytes there are, ignored; nothing is written. */
  ghost function Skip<T>(v: T): Codec<T> {
    Codec((x: T) => x == v, (x: T) => [], (s: Bytes) => Done(v, |s|))
  }

  lemma SkipLawful<T(!new)>(v: T)
    ensures Windowed(Skip(v))
  {
    forall x: T ensures RoundTrip(Skip(v), x, []) {
      var none: Bytes := [];
      assert none + [] == [];
    }
  }

  // ----- combinators -----

  /** One format after another, where the second may depend on what the first held. */
  ghost function Dep<A, B>(a: Codec<A>, f: A -> Codec<B>): Codec<(A, B)> {
    Codec((v: (A, B)) => a.ok(v.0) && f(v.0).ok(v.1),
          (v: (A, B)) => a.enc(v.0) + f(v.0).enc(v.1),
          s => match a.dec(s)
               case Done(x, n) =>
                 if n > |s| then Invalid
                 else (match f(x).dec(s[n..])
                       case Done(y, m) => Done((x, y), n + m)
                       case Invalid => Invalid
                       case Truncated => Truncated)
               case Invalid => Invalid
               case Truncated => Truncated)
  }

  lemma DepTrip<A(!new), B(!new)>(a: Codec<A>, f: A -> Codec<B>, v: (A, B), t: Bytes)
    requires Delimited(a) && (a.ok(v.0) ==> RoundTrip(f(v.0), v.1, t))
    ensures RoundTrip(Dep(a, f), v, t)
  {
    var c := Dep(a, f);
    if c.ok(v) {
      var e, d := a.enc(v.0), f(v.0).enc(v.1);
      assert RoundTrip(a, v.0, d + t);
      assert (e + d) + t == e + (d + t);
      assert (e + (d + t))[|e|..] == d + t;
    }
  }

  lemma DepSane<A(!new), B(!new)>(a: Codec<A>, f: A -> Codec<B>, s: Bytes)
    requires Delimited(a) && forall x, u :: a.ok(x) ==> Sane(f(x), u)
    ensures Sane(Dep(a, f), s)
  {
    assert Sane(a, s);
    if a.dec(s).Done? {
      var x, n := a.dec(s).value, a.dec(s).used;
      assert Sane(f(x), s[n..]);
    }
  }

  lemma DepExact<A(!new), B(!new)>(a: Codec<A>, f: A -> Codec<B>)
    requires Delimited(a) && Faithful(a) && forall x :: a.ok(x) ==> Faithful(f(x))
    ensures Faithful(Dep(a, f))
  {
    var c := Dep(a, f);
    forall s ensures Exact(c, s) {
      assert Sane(a, s) && Exact(a, s);
      if c.dec(s).Done? {
        var x, n := a.dec(s).value, a.dec(s).used;
        assert Exact(f(x), s[n..]);
        var m := f(x).dec(s[n..]).used;
        assert s[..n] + s[n..][..m] == s[..n + m];
      }
    }
  }

  lemma DepDelimited<A(!new), B(!new)>(a: Codec<A>, f: A -> Codec<B>)
    requires Delimited(a) && forall x :: a.ok(x) ==> Delimited(f(x))
    ensures Delimited(Dep(a, f))
  {
    var c := Dep(a, f);
    forall v: (A, B), t ensures RoundTrip(c, v, t) { DepTrip(a, f, v, t); }
    forall s ensures Sane(c, s) { DepSane(a, f, s); }
    forall s, t ensures Stable(c, s, t) {
      assert Sane(a, s) && Stable(a, s, t);
      if a.dec(s).Done? {
        var x, n := a.dec(s).value, a.dec(s).used;
        assert Stable(f(x), s[n..], t);
        assert (s + t)[n..] == s[n..] + t;
      }
    }
  }

  lemma DepWindowed<A(!new), B(!new)>(a: Codec<A>, f: A -> Codec<B>)
    requires Delimited(a) && forall x :: a.ok(x) ==> Windowed(f(x))
    ensures Windowed(Dep(a, f))
  {
    forall v: (A, B) ensures RoundTrip(Dep(a, f), v, []) { DepTrip(a, f, v, []); }
    forall s ensures Sane(Dep(a, f), s) { DepSane(a, f, s); }
  }

  ghost function Pair<A, B>(a: Codec<A>, b: Codec<B>): Codec<(A, B)> {
    Dep(a, (x: A) => b)
  }

  lemma PairLawful<A(!new), B(!new)>(a: Codec<A>, b: Codec<B>)
    requires Delimited(a)
    ensures Delimited(b) ==> Delimited(Pair(a, b))
    ensures Windowed(b) ==> Windowed(Pair(a, b))
    ensures Faithful(a) && Faithful(b) ==> Faithful(Pair(a, b))
  {
    var f := (x: A) => b;
    if Delimited(b) { DepDelimited(a, f); }
    if Windowed(b) { DepWindowed(a, f); }
    if Faithful(a) && Faithful(b) { DepExact(a, f); }
  }

  /** The same bytes, seen as another type. */
  ghost function Map<A, B>(c: Codec<A>, to: A -> B, from: B -> A): Codec<B> {
    Codec((v: B) => c.ok(from(v)) && to(from(v)) == v,
          (v: B) => c.enc(from(v)),
          s => match c.dec(s)
               case Done(x, n) => Done(to(x), n)
               case Invalid => Invalid
               case Truncated => Truncated)
  }

  lemma MapLawful<A(!new), B(!new)>(c: Codec<A>, to: A -> B, from: B -> A)
    requires forall s :: Sane(c, s)
    requires forall x :: c.ok(x) ==> from(to(x)) == x
    ensures Delimited(c) ==> Delimited(Map(c, to, from))
    ensures Windowed(c) ==> Windowed(Map(c, to, from))
    ensures Faithful(c) ==> Faithful(Map(c, to, from))
  {
    var m := Map(c, to, from);
    forall v, t ensures RoundTrip(c, from(v), t) ==> RoundTrip(m, v, t) {}
    forall s ensures Sane(m, s) { assert Sane(c, s); }
    forall s, t ensures Stable(c, s, t) ==> Stable(m, s, t) {}
    forall s ensures Exact(c, s) ==> Exact(m, s) { assert Sane(c, s); }
  }

  /** A format whose value is checked; others are invalid. */
  ghost function Only<T>(c: Codec<T>, p: T -> bool): Codec<T> {
    Codec((v: T) => c.ok(v) && p(v), c.enc,
          s => match c.dec(s)
               case Done(x, n) => if p(x) then Done(x, n) else Invalid
               case Invalid => Invalid
               case Truncated => Truncated)
  }

  lemma OnlyLawful<T(!new)>(c: Codec<T>, p: T -> bool)
    requires Delimited(c)
    ensures Delimited(Only(c, p)) && (Faithful(c) ==> Faithful(Only(c, p)))
  {
    var o := Only(c, p);
    forall v, t ensures RoundTrip(o, v, t) { assert RoundTrip(c, v, t); }
    forall s ensures Sane(o, s) && (Exact(c, s) ==> Exact(o, s)) { assert Sane(c, s); }
    forall s, t ensures Stable(o, s, t) { assert Stable(c, s, t); }
  }

  /** No format at all: a tag that the switch does not know. */
  ghost function Never<T>(): Codec<T> {
    Codec((v: T) => false, (v: T) => [], (s: Bytes) => Invalid)
  }

  lemma NeverLawful<T(!new)>()
    ensures Delimited(Never<T>()) && Faithful(Never<T>())
  {
  }

  /** A format confined to exactly `n` bytes; running short inside the window is invalid, not truncated. */
  ghost function Within<T>(c: Codec<T>, n: nat): Codec<T> {
    Codec((v: T) => c.ok(v) && |c.enc(v)| == n, c.enc,
          s => if |s| < n then Truncated
               else (match c.dec(s[..n])
                     case Done(x, m) => if m == n then Done(x, n) else Invalid
                     case Invalid => Invalid
                     case Truncated => Invalid))
  }

  lemma WithinLawful<T(!new)>(c: Codec<T>, n: nat)
    requires Windowed(c)
    ensures (forall v, t :: RoundTrip(Within(c, n), v, t)) && (forall s, t :: Stable(Within(c, n), s, t))
    ensures Faithful(c) ==> Delimited(Within(c, n)) && Faithful(Within(c, n))
  {
    var w := Within(c, n);
    forall v, t ensures RoundTrip(w, v, t) {
      if w.ok(v) {
        assert RoundTrip(c, v, []);
        assert c.enc(v) + [] == c.enc(v) && (c.enc(v) + t)[..n] == c.enc(v);
      }
    }
    forall s, t ensures Stable(w, s, t) {
      if |s| >= n { assert (s + t)[..n] == s[..n]; }
    }
    if Faithful(c) {
      forall s ensures Sane(w, s) && Exact(w, s) {
        if |s| >= n {
          assert Sane(c, s[..n]) && Exact(c, s[..n]);
          assert s[..n][..n] == s[..n];
        }
      }
    }
  }

  /** What a window of `n` bytes holds: a format that must fill it. */
  function Filled<T>(r: Verdict<T>, w: nat, n: nat): Verdict<T> {
    if r.Done? && r.used == n then Done(r.value, w + n) else Invalid
  }

  function SizedDec<T>(w: nat, c: Codec<T>, s: Bytes): Verdict<T> {
    if |s| < w then Truncated else
      var n := FromBigEndian(s[..w]);
      if |s| - w < n then Truncated else Filled(c.dec(s[w..w + n]), w, n)
  }

  /** A length of `w` bytes, then a format that must fill exactly that many bytes. */
  ghost function Sized<T>(w: nat, c: Codec<T>): Codec<T> {
    Codec((v: T) => c.ok(v) && |c.enc(v)| < Limit(w),
          (v: T) => BigEndian(w, |c.enc(v)|) + c.enc(v),
          s => SizedDec(w, c, s))
  }

  /** The three parts of an input: the length, the window it announces, and what follows. */
  lemma SizedAt<T>(w: nat, c: Codec<T>, l: Bytes, e: Bytes, t: Bytes)
    requires |l| == w && FromBigEndian(l) == |e|
    ensures SizedDec(w, c, (l + e) + t) == Filled(c.dec(e), w, |e|)
  {
    var s := (l + e) + t;
    assert s[..w] == l;
    assert s[w..w + |e|] == e;
  }

  lemma SizedParts<T>(w: nat, c: Codec<T>, s: Bytes) returns (l: Bytes, e: Bytes, t: Bytes)
    requires SizedDec(w, c, s) != Truncated
    ensures s == (l + e) + t && |l| == w && FromBigEndian(l) == |e| && SizedDec(w, c, s) == Filled(c.dec(e), w, |e|)
  {
    var n := FromBigEndian(s[..w]);
    l, e, t := s[..w], s[w..w + n], s[w + n..];
  }

  lemma SizedTrip<T(!new)>(w: nat, c: Codec<T>, v: T, t: Bytes)
    requires Windowed(c)
    ensures RoundTrip(Sized(w, c), v, t)
  {
    var z := Sized(w, c);
    if z.ok(v) {
      var e := c.enc(v);
      BigEndianBack(w, |e|);
      assert RoundTrip(c, v, []);
      assert e + [] == e;
      SizedAt(w, c, BigEndian(w, |e|), e, t);
    }
  }

  lemma SizedStable<T(!new)>(w: nat, c: Codec<T>, s: Bytes, t: Bytes)
    ensures Stable(Sized(w, c), s, t)
  {
    if SizedDec(w, c, s) != Truncated {
      var l, e, u := SizedParts(w, c, s);
      SizedAt(w, c, l, e, u + t);
      assert s + t == (l + e) + (u + t);
    }
  }

  lemma SizedSane<T(!new)>(w: nat, c: Codec<T>, s: Bytes)
    requires Windowed(c) && (Faithful(c) || forall v :: c.ok(v) ==> |c.enc(v)| < Limit(w))
    ensures Sane(Sized(w, c), s) && (Faithful(c) ==> Exact(Sized(w, c), s))
  {
    if SizedDec(w, c, s) != Truncated {
      var l, e, u := SizedParts(w, c, s);
      FromBigEndianBack(l);
      assert Sane(c, e) && (Faithful(c) ==> Exact(c, e));
      assert e[..|e|] == e && s[..w + |e|] == l + e;
    }
  }

  lemma SizedLawful<T(!new)>(w: nat, c: Codec<T>)
    requires Windowed(c) && (Faithful(c) || forall v :: c.ok(v) ==> |c.enc(v)| < Limit(w))
    ensures Delimited(Sized(w, c)) && (Faithful(c) ==> Faithful(Sized(w, c)))
  {
    var z := Sized(w, c);
    forall v, t ensures RoundTrip(z, v, t) { SizedTrip(w, c, v, t); }
    forall s, t ensures Stable(z, s, t) { SizedStable(w, c, s, t); }
    forall s ensures Sane(z, s) && (Faithful(c) ==> Exact(z, s)) { SizedSane(w, c, s); }
  }

  // ----- combinators, opened up -----

  lemma PairEncoding<A, B>(a: Codec<A>, b: Codec<B>, x: A, y: B)
    ensures Pair(a, b).enc((x, y)) == a.enc(x) + b.enc(y)
    ensures Pair(a, b).ok((x, y)) <==> a.ok(x) && b.ok(y)
  {
  }

  lemma PairParsing<A, B>(a: Codec<A>, b: Codec<B>, s: Bytes)
    ensures var r := Pair(a, b).dec(s);
      match a.dec(s)
      case Done(x, n) =>
        n <= |s| ==> (match b.dec(s[n..])
                      case Done(y, m) => r == Done((x, y), n + m)
                      case Invalid => r == Invalid
                      case Truncated => r == Truncated)
      case Invalid => r == Invalid
      case Truncated => r == Truncated
  {
  }

  lemma OnlyEncoding(p: nat -> bool, w: nat, n: nat)
    ensures Only(Int(w), p).enc(n) == BigEndian(w, n) && (Only(Int(w), p).ok(n) <==> n < Limit(w) && p(n))
  {
  }

  lemma OnlyParsing(p: nat -> bool, s: Bytes)
    ensures Only(Int(1), p).dec(s) == if |s| < 1 then Truncated else if p(FromBigEndian(s[..1])) then Done(FromBigEndian(s[..1]), 1) else Invalid
  {
  }

  lemma DepParsing<A, B>(a: Codec<A>, f: A -> Codec<B>, s: Bytes)
    ensures var r := Dep(a, f).dec(s);
      match a.dec(s)
      case Done(x, n) =>
        n <= |s| ==> (match f(x).dec(s[n..])
                      case Done(y, m) => r == Done((x, y), n + m)
                      case Invalid => r == Invalid
                      case Truncated => r == Truncated)
      case Invalid => r == Invalid
      case Truncated => r == Truncated
  {
  }

  lemma MapEncoding<A, B>(c: Codec<A>, to: A -> B, from: B -> A, v: B)
    ensures Map(c, to, from).enc(v) == c.enc(from(v))
    ensures Map(c, to, from).ok(v) <==> c.ok(from(v)) && to(from(v)) == v
  {
  }

  lemma MapParsing<A, B>(c: Codec<A>, to: A -> B, from: B -> A, s: Bytes)
    ensures Map(c, to, from).dec(s) == match c.dec(s)
      case Done(x, n) => Done(to(x), n)
      case Invalid => Invalid
      case Truncated => Truncated
  {
  }

  lemma BlobEncoding(w: nat, n: nat, b: Bytes)
    ensures Blob(w).enc((n, b)) == BigEndian(w, n) + b
    ensures Blob(w).ok((n, b)) <==> n < Limit(w) && |b| == n
  {
    assert Int(w).ok(n) == (n < Limit(w)) && Fixed(n).ok(b) == (|b| == n);
    assert Fixed(n).enc(b) == b;
  }

  lemma BlobParsing(w: nat, s: Bytes)
    ensures Blob(w).dec(s) ==
      if |s| < w || |s| - w < FromBigEndian(s[..w]) then Truncated
      else Done((FromBigEndian(s[..w]), s[w..w + FromBigEndian(s[..w])]), w + FromBigEndian(s[..w]))
  {
    if |s| >= w {
      var n := FromBigEndian(s[..w]);
      assert Int(w).dec(s) == Done(n, w);
      if |s| - w >= n {
        assert s[w..][..n] == s[w..w + n];
        assert Fixed(n).dec(s[w..]) == Done(s[w..w + n], n);
      }
    }
  }

  // ----- tagged unions with a length -----

  /** A tag, a length, and the union arm that the tag selects, which must fill that length. */
  ghost function Tagged<T>(tw: nat, lw: nat, body: nat -> Codec<T>, tag: T -> nat): Codec<T> {
    Map(Dep(Int(tw), (ty: nat) => Sized(lw, body(ty))), (v: (nat, T)) => v.1, (v: T) => (tag(v), v))
  }

  /** The arms of a union can be told apart by their tag. */
  ghost predicate Arms<T(!new)>(body: nat -> Codec<T>, tag: T -> nat) {
    forall ty: nat, v: T :: body(ty).ok(v) ==> tag(v) == ty
  }

  lemma TaggedLawful<T(!new)>(tw: nat, lw: nat, body: nat -> Codec<T>, tag: T -> nat)
    requires Arms(body, tag)
    requires forall ty: nat :: Windowed(body(ty)) && (Faithful(body(ty)) || forall v :: body(ty).ok(v) ==> |body(ty).enc(v)| < Limit(lw))
    ensures Delimited(Tagged(tw, lw, body, tag))
    ensures (forall ty: nat :: Faithful(body(ty))) ==> Faithful(Tagged(tw, lw, body, tag))
  {
    IntLawful(tw);
    var f := (ty: nat) => Sized(lw, body(ty));
    forall ty: nat ensures Delimited(f(ty)) && (Faithful(body(ty)) ==> Faithful(f(ty))) {
      SizedLawful(lw, body(ty));
    }
    DepDelimited(Int(tw), f);
    if forall ty: nat :: Faithful(body(ty)) { DepExact(Int(tw), f); }
    forall x: (nat, T) | Dep(Int(tw), f).ok(x) ensures (tag(x.1), x.1) == x {
      assert body(x.0).ok(x.1);
    }
    MapLawful(Dep(Int(tw), f), (v: (nat, T)) => v.1, (v: T) => (tag(v), v));
  }

  lemma TaggedEncoding<T>(tw: nat, lw: nat, body: nat -> Codec<T>, tag: T -> nat, v: T, arm: Bytes)
    requires arm == body(tag(v)).enc(v)
    ensures Tagged(tw, lw, body, tag).enc(v) == BigEndian(tw, tag(v)) + (BigEndian(lw, |arm|) + arm)
  {
    var z := Sized(lw, body(tag(v)));
    assert z.enc(v) == BigEndian(lw, |arm|) + arm;
    var d := Dep(Int(tw), (ty: nat) => Sized(lw, body(ty)));
    assert d.enc((tag(v), v)) == Int(tw).enc(tag(v)) + z.enc(v);
  }

  lemma TaggedOk<T>(tw: nat, lw: nat, body: nat -> Codec<T>, tag: T -> nat, v: T)
    ensures Tagged(tw, lw, body, tag).ok(v) <==> tag(v) < Limit(tw) && body(tag(v)).ok(v) && |body(tag(v)).enc(v)| < Limit(lw)
  {
    var z := Sized(lw, body(tag(v)));
    assert z.ok(v) == (body(tag(v)).ok(v) && |body(tag(v)).enc(v)| < Limit(lw));
    var d := Dep(Int(tw), (ty: nat) => Sized(lw, body(ty)));
    var p := (tag(v), v);
    assert d.ok(p) == (Int(tw).ok(tag(v)) && z.ok(v));
    assert Int(tw).ok(tag(v)) == (tag(v) < Limit(tw));
  }

  /** What the parser of such a union does, step by step. */
  lemma TaggedParsing<T>(tw: nat, lw: nat, body: nat -> Codec<T>, tag: T -> nat, s: Bytes)
    ensures var r := Tagged(tw, lw, body, tag).dec(s);
      if |s| < tw + lw then r == Truncated else
        var ty, n := FromBigEndian(s[..tw]), FromBigEndian(s[tw..tw + lw]);
        if |s| - (tw + lw) < n then r == Truncated
        else r == Filled(body(ty).dec(s[tw + lw..tw + lw + n]), tw + lw, n)
  {
    var d := Dep(Int(tw), (ty: nat) => Sized(lw, body(ty)));
    if |s| >= tw {
      var ty := FromBigEndian(s[..tw]);
      assert Int(tw).dec(s) == Done(ty, tw);
      var z := Sized(lw, body(ty));
      assert z.dec(s[tw..]) == SizedDec(lw, body(ty), s[tw..]);
      if |s| >= tw + lw {
        assert s[tw..][..lw] == s[tw..tw + lw];
        var n := FromBigEndian(s[tw..tw + lw]);
        if |s| - (tw + lw) >= n {
          assert s[tw..][lw..lw + n] == s[tw + lw..tw + lw + n];
        }
      }
    }
  }

  /** The parts of such a union that was parsed. */
  lemma TaggedParts<T>(tw: nat, lw: nat, body: nat -> Codec<T>, tag: T -> nat, s: Bytes, h: nat) returns (ty: nat, n: nat, w: Bytes)
    requires h == tw + lw && Dec(Tagged(tw, lw, body, tag), s).Done?
    ensures h <= |s| && ty == FromBigEndian(s[..tw]) && n == FromBigEndian(s[tw..h]) && h + n <= |s| && w == s[h..h + n]
    ensures Dec(Tagged(tw, lw, body, tag), s).used == h + n && Dec(body(ty), w) == Done(Dec(Tagged(tw, lw, body, tag), s).value, n)
  {
    TaggedParsing(tw, lw, body, tag, s);
    ty, n := FromBigEndian(s[..tw]), FromBigEndian(s[tw..h]);
    w := s[h..h + n];
    assert Tagged(tw, lw, body, tag).dec(s) == Filled(body(ty).dec(w), h, n);
  }

  // ----- repetition -----

  function RepOk<T>(c: Codec<T>, vs: seq<T>): bool {
    vs == [] || (c.ok(vs[0]) && RepOk(c, vs[1..]))
  }

  /** The parsing loop: `n` elements one after the other. */
  function RepDec<T>(c: Codec<T>, n: nat, s: Bytes): Verdict<seq<T>> {
    if n == 0 then Done([], 0)
    else match c.dec(s)
      case Done(x, k) =>
        if k > |s| then Invalid
        else (match RepDec(c, n - 1, s[k..])
              case Done(xs, m) => Done([x] + xs, k + m)
              case Invalid => Invalid
              case Truncated => Truncated)
      case Invalid => Invalid
      case Truncated => Truncated
  }

  ghost function Rep<T>(c: Codec<T>, n: nat): Codec<seq<T>> {
    Codec((vs: seq<T>) => |vs| == n && RepOk(c, vs), (vs: seq<T>) => EncodeAll(c, vs), s => RepDec(c, n, s))
  }

  lemma {:induction false} RepTrip<T(!new)>(c: Codec<T>, vs: seq<T>, t: Bytes)
    requires Delimited(c) && RepOk(c, vs)
    ensures RepDec(c, |vs|, EncodeAll(c, vs) + t) == Done(vs, |EncodeAll(c, vs)|)
  {
    if vs != [] {
      var e, d := c.enc(vs[0]), EncodeAll(c, vs[1..]);
      RepTrip(c, vs[1..], t);
      assert RoundTrip(c, vs[0], d + t);
      assert (e + d) + t == e + (d + t) && (e + (d + t))[|e|..] == d + t;
      assert [vs[0]] + vs[1..] == vs;
    }
  }

  lemma {:induction false} RepSane<T(!new)>(c: Codec<T>, n: nat, s: Bytes)
    requires Delimited(c)
    ensures RepDec(c, n, s).Done? ==> var v := RepDec(c, n, s); v.used <= |s| && |v.value| == n && RepOk(c, v.value)
    ensures RepDec(c, n, s).Done? && Faithful(c) ==> EncodeAll(c, RepDec(c, n, s).value) == s[..RepDec(c, n, s).used]
  {
    if n > 0 && c.dec(s).Done? {
      assert Sane(c, s);
      var x, k := c.dec(s).value, c.dec(s).used;
      RepSane(c, n - 1, s[k..]);
      var r := RepDec(c, n - 1, s[k..]);
      if r.Done? {
        assert ([x] + r.value)[1..] == r.value;
        if Faithful(c) {
          assert Exact(c, s);
          assert s[..k] + s[k..][..r.used] == s[..k + r.used];
        }
      }
    }
  }

  lemma {:induction false} RepStable<T(!new)>(c: Codec<T>, n: nat, s: Bytes, t: Bytes)
    requires Delimited(c)
    ensures RepDec(c, n, s) != Truncated ==> RepDec(c, n, s + t) == RepDec(c, n, s)
  {
    if n > 0 {
      assert Stable(c, s, t) && Sane(c, s);
      if c.dec(s).Done? {
        var k := c.dec(s).used;
        assert (s + t)[k..] == s[k..] + t;
        RepStable(c, n - 1, s[k..], t);
      }
    }
  }

  lemma RepLawful<T(!new)>(c: Codec<T>, n: nat)
    requires Delimited(c)
    ensures Delimited(Rep(c, n)) && (Faithful(c) ==> Faithful(Rep(c, n)))
  {
    var r := Rep(c, n);
    forall vs: seq<T>, t ensures RoundTrip(r, vs, t) {
      if r.ok(vs) { RepTrip(c, vs, t); }
    }
    forall s ensures Sane(r, s) && (Faithful(c) ==> Exact(r, s)) { RepSane(c, n, s); }
    forall s, t ensures Stable(r, s, t) { RepStable(c, n, s, t); }
  }

  lemma {:induction false} EncodeSplit<T>(c: Codec<T>, vs: seq<T>, ws: seq<T>)
    ensures EncodeAll(c, vs + ws) == EncodeAll(c, vs) + EncodeAll(c, ws)
  {
    if vs == [] {
      assert vs + ws == ws;
    } else {
      EncodeSplit(c, vs[1..], ws);
      Assoc3(c.enc(vs[0]), EncodeAll(c, vs[1..]), EncodeAll(c, ws));
      assert (vs + ws)[0] == vs[0] && (vs + ws)[1..] == vs[1..] + ws;
    }
  }

  /** One more element of the array. */
  lemma EncodeSnoc<T>(c: Codec<T>, vs: seq<T>, i: nat)
    requires i < |vs|
    ensures EncodeAll(c, vs[..i + 1]) == EncodeAll(c, vs[..i]) + c.enc(vs[i])
    ensures |EncodeAll(c, vs[..i + 1])| <= |EncodeAll(c, vs)|
  {
    assert vs[..i + 1] == vs[..i] + [vs[i]];
    EncodeSplit(c, vs[..i], [vs[i]]);
    assert EncodeAll(c, [vs[i]]) == c.enc(vs[i]) + EncodeAll(c, []);
    assert vs == vs[..i + 1] + vs[i + 1..];
    EncodeSplit(c, vs[..i + 1], vs[i + 1..]);
  }

  lemma {:induction false} RepOkEach<T>(c: Codec<T>, vs: seq<T>)
    ensures RepOk(c, vs) <==> forall i {:trigger vs[i]} :: 0 <= i < |vs| ==> c.ok(vs[i])
  {
    if vs != [] {
      RepOkEach(c, vs[1..]);
      assert forall i :: 0 <= i < |vs[1..]| ==> vs[1..][i] == vs[i + 1];
      if RepOk(c, vs) {
        forall i | 0 <= i < |vs| ensures c.ok(vs[i]) {
          if i > 0 { assert vs[1..][i - 1] == vs[i]; }
        }
      }
    }
  }

  /** The verdict of a loop that has collected `xs` from `k` bytes and goes on with the verdict `v`. */
  function After<T>(xs: seq<T>, k: nat, v: Verdict<seq<T>>): Verdict<seq<T>> {
    match v
    case Done(ys, m) => Done(xs + ys, k + m)
    case Invalid => Invalid
    case Truncated => Truncated
  }

  /** One turn of the parsing loop. */
  lemma RepStep<T(!new)>(c: Codec<T>, xs: seq<T>, k: nat, n: nat, s: Bytes, x: T, m: nat, k': nat, n': nat)
    requires n' + 1 == n && k' == k + m <= |s| && c.dec(s[k..]) == Done(x, m)
    ensures After(xs, k, RepDec(c, n, s[k..])) == After(xs + [x], k', RepDec(c, n', s[k'..]))
  {
    assert s[k..][m..] == s[k'..];
    var r := RepDec(c, n', s[k'..]);
    if r.Done? { assert xs + ([x] + r.value) == (xs + [x]) + r.value; }
  }

  /** A count of `w` bytes and that many elements; the count is kept as the object's own field. */
  ghost function Counted<T>(w: nat, c: Codec<T>): Codec<(nat, seq<T>)> {
    Dep(Int(w), (n: nat) => Rep(c, n))
  }

  lemma CountedLawful<T(!new)>(w: nat, c: Codec<T>)
    requires Delimited(c)
    ensures Delimited(Counted(w, c)) && (Faithful(c) ==> Faithful(Counted(w, c)))
  {
    IntLawful(w);
    forall n: nat ensures Delimited(Rep(c, n)) && (Faithful(c) ==> Faithful(Rep(c, n))) { RepLawful(c, n); }
    var f := (n: nat) => Rep(c, n);
    DepDelimited(Int(w), f);
    if Faithful(c) { DepExact(Int(w), f); }
  }

  lemma CountedEncoding<T>(w: nat, c: Codec<T>, n: nat, vs: seq<T>)
    ensures Counted(w, c).enc((n, vs)) == BigEndian(w, n) + EncodeAll(c, vs)
    ensures Counted(w, c).ok((n, vs)) <==> n < Limit(w) && n == |vs| && RepOk(c, vs)
  {
    assert Rep(c, n).enc(vs) == EncodeAll(c, vs);
    assert Rep(c, n).ok(vs) == (|vs| == n && RepOk(c, vs));
  }

  lemma CountedParsing<T>(w: nat, c: Codec<T>, s: Bytes)
    ensures var r := Counted(w, c).dec(s);
      if |s| < w then r == Truncated else
        var n := FromBigEndian(s[..w]);
        match RepDec(c, n, s[w..])
        case Done(xs, m) => r == Done((n, xs), w + m)
        case Invalid => r == Invalid
        case Truncated => r == Truncated
  {
    if |s| >= w {
      var n := FromBigEndian(s[..w]);
      assert Int(w).dec(s) == Done(n, w);
      assert Rep(c, n).dec(s[w..]) == RepDec(c, n, s[w..]);
    }
  }

  // ----- NUL-terminated strings -----

  /** The position of the first NUL, or the length of the string. */
  function Terminator(s: Bytes): (k: nat)
    ensures k <= |s| && (forall j :: 0 <= j < k ==> s[j] != 0) && (k < |s| ==> s[k] == 0)
  {
    if s == [] || s[0] == 0 then 0 else 1 + Terminator(s[1..])
  }

  lemma TerminatorIs(s: Bytes, k: nat)
    requires k < |s| && s[k] == 0 && forall j :: 0 <= j < k ==> s[j] != 0
    ensures Terminator(s) == k
  {
    var t := Terminator(s);
  }

  ghost function NulString(): Codec<Bytes> {
    Codec((v: Bytes) => forall j :: 0 <= j < |v| ==> v[j] != 0, (v: Bytes) => v + [0],
          s => if Terminator(s) == |s| then Truncated else Done(s[..Terminator(s)], Terminator(s) + 1))
  }

  lemma NulStringLawful()
    ensures Delimited(NulString()) && Faithful(NulString())
  {
    var c := NulString();
    forall v: Bytes, t ensures RoundTrip(c, v, t) {
      if c.ok(v) {
        TerminatorIs(v + [0] + t, |v|);
        assert (v + [0] + t)[..|v|] == v;
      }
    }
    forall s ensures Exact(c, s) {
      var k := Terminator(s);
      if k < |s| { assert s[..k] + [0] == s[..k + 1]; }
    }
    forall s, t ensures Stable(c, s, t) {
      var k := Terminator(s);
      if k < |s| {
        TerminatorIs(s + t, k);
        assert (s + t)[..k] == s[..k];
      }
    }
  }

  // ----- a tail of known length -----

  /** Everything but the last `n` bytes, and then those. */
  ghost function AllBut(n: nat): Codec<(Bytes, Bytes)> {
    Codec((v: (Bytes, Bytes)) => |v.1| == n, (v: (Bytes, Bytes)) => v.0 + v.1,
          s => if |s| < n then Truncated else Done((s[..|s| - n], s[|s| - n..]), |s|))
  }

  lemma AllButLawful(n: nat)
    ensures Windowed(AllBut(n)) && Faithful(AllBut(n))
  {
    var c := AllBut(n);
    forall v: (Bytes, Bytes) ensures RoundTrip(c, v, []) {
      if c.ok(v) {
        var s := (v.0 + v.1) + [];
        assert s[..|s| - n] == v.0 && s[|s| - n..] == v.1;
      }
    }
    forall s ensures Exact(c, s) {
      if |s| >= n { assert s[..|s| - n] + s[|s| - n..] == s[..|s|]; }
    }
  }

  /** A length of `w` bytes and that many bytes; the length is kept as the object's own field. */
  ghost function Blob(w: nat): Codec<(nat, Bytes)> {
    Dep(Int(w), (n: nat) => Fixed(n))
  }

  lemma BlobLawful(w: nat)
    ensures Delimited(Blob(w)) && Faithful(Blob(w))
  {
    IntLawful(w);
    forall n: nat ensures Delimited(Fixed(n)) && Faithful(Fixed(n)) { FixedLawful(n); }
    var f := (n: nat) => Fixed(n);
    DepDelimited(Int(w), f);
    DepExact(Int(w), f);
  }

  // ----- runs of fixed-size fields -----

  function Cat(ps: seq<Bytes>): Bytes {
    if ps == [] then [] else ps[0] + Cat(ps[1..])
  }

  lemma {:induction false} CatSplit(ps: seq<Bytes>, qs: seq<Bytes>)
    ensures Cat(ps + qs) == Cat(ps) + Cat(qs)
  {
    if ps == [] {
      assert ps + qs == qs;
    } else {
      CatSplit(ps[1..], qs);
      Assoc3(ps[0], Cat(ps[1..]), Cat(qs));
      assert (ps + qs)[0] == ps[0] && (ps + qs)[1..] == ps[1..] + qs;
    }
  }

  /** Field `i` has ws[i] bytes. */
  predicate Widths(ws: seq<nat>, vs: seq<Bytes>) {
    |vs| == |ws| && forall i {:trigger vs[i]} {:trigger ws[i]} :: 0 <= i < |ws| ==> |vs[i]| == ws[i]
  }

  function FieldsDec(ws: seq<nat>, s: Bytes): Verdict<seq<Bytes>> {
    if ws == [] then Done([], 0)
    else if |s| < ws[0] then Truncated
    else match FieldsDec(ws[1..], s[ws[0]..])
      case Done(vs, m) => Done([s[..ws[0]]] + vs, ws[0] + m)
      case Invalid => Invalid
      case Truncated => Truncated
  }

  /** Fixed-size fields one after the other. */
  ghost function Fields(ws: seq<nat>): Codec<seq<Bytes>> {
    Codec((vs: seq<Bytes>) => Widths(ws, vs), (vs: seq<Bytes>) => Cat(vs), s => FieldsDec(ws, s))
  }

  lemma {:induction false} FieldsTrip(ws: seq<nat>, vs: seq<Bytes>, t: Bytes)
    requires Widths(ws, vs)
    ensures FieldsDec(ws, Cat(vs) + t) == Done(vs, |Cat(vs)|)
  {
    if ws != [] {
      var v, d := vs[0], Cat(vs[1..]);
      assert |v| == ws[0];
      FieldsTrip(ws[1..], vs[1..], t);
      assert (v + d) + t == v + (d + t) && (v + (d + t))[|v|..] == d + t && (v + (d + t))[..|v|] == v;
      assert [v] + vs[1..] == vs;
    }
  }

  lemma {:induction false} FieldsSane(ws: seq<nat>, s: Bytes, t: Bytes)
    ensures var r := FieldsDec(ws, s);
      r.Done? ==> r.used <= |s| && Widths(ws, r.value) && Cat(r.value) == s[..r.used] && FieldsDec(ws, s + t) == r
    ensures FieldsDec(ws, s) != Invalid
  {
    if ws != [] && |s| >= ws[0] {
      var w := ws[0];
      FieldsSane(ws[1..], s[w..], t);
      assert (s + t)[w..] == s[w..] + t && (s + t)[..w] == s[..w];
      var r := FieldsDec(ws[1..], s[w..]);
      if r.Done? {
        var vs := [s[..w]] + r.value;
        assert vs[1..] == r.value;
        assert s[..w] + s[w..][..r.used] == s[..w + r.used];
        forall i | 0 <= i < |ws| ensures |vs[i]| == ws[i] {
          if i > 0 {
            assert vs[i] == r.value[i - 1] && ws[i] == ws[1..][i - 1];
          }
        }
      }
    }
  }

  lemma FieldsLawful(ws: seq<nat>)
    ensures Delimited(Fields(ws)) && Faithful(Fields(ws))
  {
    var c := Fields(ws);
    forall vs: seq<Bytes>, t ensures RoundTrip(c, vs, t) {
      if c.ok(vs) { FieldsTrip(ws, vs, t); }
    }
    forall s ensures Sane(c, s) && Exact(c, s) { FieldsSane(ws, s, []); }
    forall s, t ensures Stable(c, s, t) { FieldsSane(ws, s, t); }
  }
}
