/**
  The encoders and parsers of trunnel/link_handshake.c and pwbox.c, in cursor style,
  against the formats they implement.
 */
module HandshakeCodecs {

  import opened Wire
  import opened Cursor
  import opened LinkFormats

  // ----- auth_challenge_cell -----

  ghost predicate MethodsTyped(ms: seq<nat>) {
    forall i {:trigger ms[i]} :: 0 <= i < |ms| ==> ms[i] < Limit(2)
  }

  method PutMethods(out: array<Byte>, base: nat, avail: nat, ms: seq<nat>) returns (r: int)
    requires base + avail <= out.Length && MethodsTyped(ms)
    modifies out
    ensures Encodes(RepOk(Int(2), ms), EncodeAll(Int(2), ms), old(out[..]), out[..], base, avail, r)
  {
    ghost var c, before := Int(2), out[..];
    r := 0;
    var i := 0;
    NoneEncoded(c, ms, before, base, avail);
    while i < |ms|
      invariant 0 <= i <= |ms| && 0 <= r <= avail
      invariant Encodes(RepOk(c, ms[..i]), EncodeAll(c, ms[..i]), before, out[..], base, avail, r)
    {
      ghost var mid := out[..];
      var base', avail' := base + r, avail - r;
      Cat1(BigEndian(2, ms[i]));
      var n := PutFields(out, base', avail', [BigEndian(2, ms[i])]);
      OneMoreEncoded(c, ms, i, i + 1, before, mid, out[..], base, avail, r, base', avail', n);
      if n < 0 { return n; }
      r, i := r + n, i + 1;
    }
    assert ms[..i] == ms;
  }

  lemma ChallengeEncoding(ch: Bytes, n: nat, ms: seq<nat>)
    requires |ch| == 32 && n < Limit(2)
    ensures Enc(AuthChallenge(), (ch, (n, ms))) == Cat([ch, BigEndian(2, n)]) + EncodeAll(Int(2), ms)
    ensures Ok(AuthChallenge(), (ch, (n, ms))) <==> |ms| == n && RepOk(Int(2), ms)
  {
    Cat2(ch, BigEndian(2, n));
    CountedEncoding(2, Int(2), n, ms);
    PairEncoding(Fixed(32), Counted(2, Int(2)), ch, (n, ms));
    Assoc3(ch, BigEndian(2, n), EncodeAll(Int(2), ms));
  }

  /** auth_challenge_cell_encode */
  method EncodeChallenge(out: array<Byte>, base: nat, avail: nat, ch: Bytes, n: nat, ms: seq<nat>) returns (r: int)
    requires base + avail <= out.Length && |ch| == 32 && n < Limit(2) && MethodsTyped(ms)
    modifies out
    ensures Encodes(Ok(AuthChallenge(), (ch, (n, ms))), Enc(AuthChallenge(), (ch, (n, ms))), old(out[..]), out[..], base, avail, r)
    ensures Refuses(Ok(AuthChallenge(), (ch, (n, ms))), old(out[..]), out[..], r)
  {
    ChallengeEncoding(ch, n, ms);
    RepOkEach(Int(2), ms);
    if |ms| != n { return -1; }
    ghost var before, good, e, e' := out[..], RepOk(Int(2), ms), Cat([ch, BigEndian(2, n)]), EncodeAll(Int(2), ms);
    r := PutFields(out, base, avail, [ch, BigEndian(2, n)]);
    if r < 0 {
      EncodesNot(true, e, good, e', before, out[..], base, avail, r);
      return;
    }
    ghost var mid := out[..];
    EncodesBound(true, e, before, mid, base, avail, r);
    var base', avail' := base + r, avail - r;
    var k := PutMethods(out, base', avail', ms);
    EncodesThen(true, e, good, e', before, mid, out[..], base, avail, r, base', avail', k);
    r := if k < 0 then k else r + k;
  }

  method ParseMethods(input: Bytes, n: nat) returns (r: int, ms: seq<nat>)
    ensures Reports(RepDec(Int(2), n, input), r, ms) && r <= |input|
  {
    ghost var c := Int(2);
    var ptr, idx := 0, 0;
    ms := [];
    ghost var left: nat := n;
    assert input[0..] == input;
    StartLoop(RepDec(c, n, input));
    while idx < n
      invariant 0 <= idx <= n && left == n - idx && 0 <= ptr <= |input|
      invariant RepDec(c, n, input) == After(ms, ptr, RepDec(c, left, input[ptr..]))
    {
      if |input| - ptr < 2 { return -2, ms; }
      var elt := GetInt(input[ptr..], 0, 2);
      var ptr' := ptr + 2;
      ghost var left' := left - 1;
      RepStep(c, ms, ptr, left, input, elt, 2, ptr', left');
      ms, ptr, idx, left := ms + [elt], ptr', idx + 1, left';
    }
    r := ptr;
    assert ms + [] == ms;
  }

  /** auth_challenge_cell_parse_into */
  method ParseChallenge(input: Bytes) returns (r: int, ch: Bytes, n: nat, ms: seq<nat>)
    ensures Reports(Dec(AuthChallenge(), input), r, (ch, (n, ms)))
  {
    PairParsing(Fixed(32), Counted(2, Int(2)), input);
    ch, n, ms := [], 0, [];
    if |input| < 32 { r := -2; return; }
    ch := input[..32];
    r, n, ms := ParseMethodList(input[32..]);
    if r >= 0 { r := 32 + r; }
  }

  /** n_methods and methods. */
  method ParseMethodList(input: Bytes) returns (r: int, n: nat, ms: seq<nat>)
    ensures Reports(Dec(Counted(2, Int(2)), input), r, (n, ms))
  {
    CountedParsing(2, Int(2), input);
    n, ms := 0, [];
    if |input| < 2 { return -2, n, ms; }
    n := GetInt(input, 0, 2);
    r, ms := ParseMethods(input[2..], n);
    if r >= 0 { r := 2 + r; }
  }

  // ----- certs_cell -----

  /** cert_type and cert_len have their C types. */
  ghost predicate CertOfType(v: CellCert) { v.certType < 256 && v.certLen < Limit(2) }

  lemma CellCertEncoding(v: CellCert)
    requires CertOfType(v)
    ensures Enc(CertsCellCert(), v) == Cat([BigEndian(1, v.certType), BigEndian(2, v.certLen), v.body])
    ensures Ok(CertsCellCert(), v) <==> |v.body| == v.certLen
  {
    OneByte(0);
    Cat3(BigEndian(1, v.certType), BigEndian(2, v.certLen), v.body);
    MapEncoding(Pair(Int(1), Blob(2)), ToCellCert, FromCellCert, v);
    PairEncoding(Int(1), Blob(2), v.certType, (v.certLen, v.body));
    BlobEncoding(2, v.certLen, v.body);
  }

  /** certs_cell_cert_encode */
  method EncodeCellCert(out: array<Byte>, base: nat, avail: nat, v: CellCert) returns (r: int)
    requires base + avail <= out.Length && CertOfType(v)
    modifies out
    ensures Encodes(Ok(CertsCellCert(), v), Enc(CertsCellCert(), v), old(out[..]), out[..], base, avail, r)
    ensures Refuses(Ok(CertsCellCert(), v), old(out[..]), out[..], r)
  {
    CellCertEncoding(v);
    if |v.body| != v.certLen { return -1; }
    r := PutFields(out, base, avail, [BigEndian(1, v.certType), BigEndian(2, v.certLen), v.body]);
  }

  ghost predicate CertsOfType(vs: seq<CellCert>) {
    forall i {:trigger vs[i]} :: 0 <= i < |vs| ==> CertOfType(vs[i])
  }

  method PutCerts(out: array<Byte>, base: nat, avail: nat, vs: seq<CellCert>) returns (r: int)
    requires base + avail <= out.Length && CertsOfType(vs)
    modifies out
    ensures Encodes(RepOk(CertsCellCert(), vs), EncodeAll(CertsCellCert(), vs), old(out[..]), out[..], base, avail, r)
  {
    ghost var c, before := CertsCellCert(), out[..];
    r := 0;
    var i := 0;
    NoneEncoded(c, vs, before, base, avail);
    while i < |vs|
      invariant 0 <= i <= |vs| && 0 <= r <= avail
      invariant Encodes(RepOk(c, vs[..i]), EncodeAll(c, vs[..i]), before, out[..], base, avail, r)
    {
      ghost var mid := out[..];
      var base', avail' := base + r, avail - r;
      var n := EncodeCellCert(out, base', avail', vs[i]);
      OneMoreEncoded(c, vs, i, i + 1, before, mid, out[..], base, avail, r, base', avail', n);
      if n < 0 { return n; }
      r, i := r + n, i + 1;
    }
    assert vs[..i] == vs;
  }

  lemma CertsChecked(vs: seq<CellCert>)
    requires CertsOfType(vs)
    ensures RepOk(CertsCellCert(), vs) <==> forall i {:trigger vs[i]} :: 0 <= i < |vs| ==> |vs[i].body| == vs[i].certLen
  {
    RepOkEach(CertsCellCert(), vs);
    forall i | 0 <= i < |vs| ensures CertsCellCert().ok(vs[i]) <==> |vs[i].body| == vs[i].certLen {
      CellCertEncoding(vs[i]);
    }
  }

  /** The loop of certs_cell_check over the certs. */
  method CheckCerts(vs: seq<CellCert>) returns (checked: bool)
    requires CertsOfType(vs)
    ensures checked <==> RepOk(CertsCellCert(), vs)
  {
    CertsChecked(vs);
    checked := true;
    var idx := 0;
    while idx < |vs|
      invariant 0 <= idx <= |vs| && forall i :: 0 <= i < idx ==> |vs[i].body| == vs[i].certLen
    {
      if |vs[idx].body| != vs[idx].certLen { return false; }
      idx := idx + 1;
    }
  }

  /** certs_cell_encode */
  method EncodeCertsCell(out: array<Byte>, base: nat, avail: nat, n: nat, vs: seq<CellCert>) returns (r: int)
    requires base + avail <= out.Length && n < 256 && CertsOfType(vs)
    modifies out
    ensures Encodes(Ok(CertsCell(), (n, vs)), Enc(CertsCell(), (n, vs)), old(out[..]), out[..], base, avail, r)
    ensures Refuses(Ok(CertsCell(), (n, vs)), old(out[..]), out[..], r)
  {
    OneByte(0);
    CountedEncoding(1, CertsCellCert(), n, vs);
    var checked := CheckCerts(vs);
    if !checked || |vs| != n { return -1; }
    ghost var before, good, e, e' := out[..], RepOk(CertsCellCert(), vs), BigEndian(1, n), EncodeAll(CertsCellCert(), vs);
    Cat1(e);
    r := PutFields(out, base, avail, [BigEndian(1, n)]);
    if r < 0 {
      EncodesNot(true, e, good, e', before, out[..], base, avail, r);
      return;
    }
    ghost var mid := out[..];
    var base', avail' := base + r, avail - r;
    var k := PutCerts(out, base', avail', vs);
    EncodesThen(true, e, good, e', before, mid, out[..], base, avail, r, base', avail', k);
    r := if k < 0 then k else r + k;
  }

  lemma CellCertParsing(s: Bytes)
    ensures Dec(CertsCellCert(), s) ==
      if |s| < 3 || |s| - 3 < FromBigEndian(s[1..3]) then Truncated
      else Done(CellCert(FromBigEndian(s[..1]), FromBigEndian(s[1..3]), s[3..3 + FromBigEndian(s[1..3])]), 3 + FromBigEndian(s[1..3]))
  {
    MapParsing(Pair(Int(1), Blob(2)), ToCellCert, FromCellCert, s);
    PairParsing(Int(1), Blob(2), s);
    if |s| >= 1 {
      BlobParsing(2, s[1..]);
      if |s| >= 3 {
        assert s[1..][..2] == s[1..3];
        var n := FromBigEndian(s[1..3]);
        if |s| - 3 >= n { SubSlice(s, 1, 2, 2 + n); }
      }
    }
  }

  /** certs_cell_cert_parse_into */
  method ParseCellCert(input: Bytes) returns (r: int, obj: CellCert)
    ensures Reports(Dec(CertsCellCert(), input), r, obj)
  {
    CellCertParsing(input);
    var remaining := |input|;
    obj := CellCert(0, 0, []);
    if remaining < 1 { return -2, obj; }
    var ty := GetInt(input, 0, 1);
    if remaining - 1 < 2 { return -2, obj; }
    var len := GetInt(input, 1, 2);
    if remaining - 3 < len { return -2, obj; }
    obj := CellCert(ty, len, input[3..3 + len]);
    r := 3 + len;
  }

  method ParseCerts(input: Bytes, n: nat) returns (r: int, vs: seq<CellCert>)
    ensures Reports(RepDec(CertsCellCert(), n, input), r, vs) && r <= |input|
  {
    ghost var c := CertsCellCert();
    CertsCellLawful();
    var ptr, idx := 0, 0;
    vs := [];
    ghost var left: nat := n;
    assert input[0..] == input;
    StartLoop(RepDec(c, n, input));
    while idx < n
      invariant 0 <= idx <= n && left == n - idx && 0 <= ptr <= |input|
      invariant RepDec(c, n, input) == After(vs, ptr, RepDec(c, left, input[ptr..]))
    {
      var k, elt := ParseCellCert(input[ptr..]);
      if k < 0 { return k, vs; }
      assert Sane(c, input[ptr..]);
      var ptr' := ptr + k;
      ghost var left' := left - 1;
      RepStep(c, vs, ptr, left, input, elt, k, ptr', left');
      vs, ptr, idx, left := vs + [elt], ptr', idx + 1, left';
    }
    r := ptr;
    assert vs + [] == vs;
  }

  /** certs_cell_parse_into */
  method ParseCertsCell(input: Bytes) returns (r: int, n: nat, vs: seq<CellCert>)
    ensures Reports(Dec(CertsCell(), input), r, (n, vs))
  {
    CountedParsing(1, CertsCellCert(), input);
    n, vs := 0, [];
    if |input| < 1 { return -2, n, vs; }
    n := GetInt(input, 0, 1);
    r, vs := ParseCerts(input[1..], n);
    if r >= 0 { r := r + 1; }
  }

  // ----- auth1 -----

  lemma Auth1Encoding(isEd: nat, fields: seq<Bytes>, sig: Bytes)
    requires Widths(Auth1Widths(isEd), fields)
    ensures Ok(Auth1(isEd), (fields, sig)) <==> isEd <= 1
    ensures isEd <= 1 ==> Enc(Auth1(isEd), (fields, sig)) == Cat(fields + [sig])
  {
    CatSplit(fields, [sig]);
    Cat1(sig);
    if isEd <= 1 {
      PairEncoding(Fields(Auth1Widths(isEd)), Rest(), fields, sig);
    } else {
      PairEncoding(Fields([8, 32, 32]), Never<Bytes>(), fields, sig);
    }
  }

  /** auth1_encode, with its context; the identities are among the fields when the context says so. */
  method EncodeAuth1(out: array<Byte>, base: nat, avail: nat, fields: seq<Bytes>, sig: Bytes, isEd: nat) returns (r: int)
    requires base + avail <= out.Length && Widths(Auth1Widths(isEd), fields)
    modifies out
    ensures Encodes(Ok(Auth1(isEd), (fields, sig)), Enc(Auth1(isEd), (fields, sig)), old(out[..]), out[..], base, avail, r)
    ensures Refuses(isEd <= 1, old(out[..]), out[..], r)
  {
    Auth1Encoding(isEd, fields, sig);
    if isEd > 1 { return -1; }
    r := PutFields(out, base, avail, fields + [sig]);
  }

  lemma {:induction false} CatLength(ws: seq<nat>, vs: seq<Bytes>)
    requires Widths(ws, vs)
    ensures |Cat(vs)| == Sum(ws)
  {
    if ws != [] {
      assert |vs[0]| == ws[0];
      CatLength(ws[1..], vs[1..]);
    }
  }

  function Sum(ws: seq<nat>): nat {
    if ws == [] then 0 else ws[0] + Sum(ws[1..])
  }

  /** auth1_encoded_len */
  method Auth1EncodedLen(fields: seq<Bytes>, sig: Bytes, isEd: nat) returns (n: int)
    requires Widths(Auth1Widths(isEd), fields)
    ensures if isEd <= 1 then n == |Enc(Auth1(isEd), (fields, sig))| else n == -1
  {
    Auth1Encoding(isEd, fields, sig);
    if isEd > 1 { return -1; }
    CatSplit(fields, [sig]);
    Cat1(sig);
    CatLength(Auth1Widths(isEd), fields);
    Auth1Sum(isEd);
    n := 8 + 32 + 32;
    if isEd == 1 { n := n + 32 + 32; }
    n := n + 32 + 32 + 32 + 32 + 24 + |sig|;
  }

  lemma SumCons(w: nat, ws: seq<nat>)
    ensures Sum([w] + ws) == w + Sum(ws)
  {
    assert ([w] + ws)[1..] == ws;
  }

  lemma Auth1Sum(isEd: nat)
    ensures Sum(Auth1Widths(isEd)) == if isEd == 1 then 288 else 224
  {
    SumCons(24, []);
    SumCons(32, [24]);
    SumCons(32, [32, 24]);
    SumCons(32, [32, 32, 24]);
    SumCons(32, [32, 32, 32, 24]);
    SumCons(32, [32, 32, 32, 32, 24]);
    SumCons(32, [32, 32, 32, 32, 32, 24]);
    if isEd == 1 {
      SumCons(32, [32, 32, 32, 32, 32, 32, 24]);
      SumCons(32, [32, 32, 32, 32, 32, 32, 32, 24]);
      SumCons(8, [32, 32, 32, 32, 32, 32, 32, 32, 24]);
    } else {
      SumCons(8, [32, 32, 32, 32, 32, 32, 24]);
    }
  }

  /** Reading fixed-size fields one after the other. */
  method GetFields(input: Bytes, ws: seq<nat>) returns (ok: bool, vs: seq<Bytes>, ptr: nat)
    ensures FieldsDec(ws, input) == if ok then Done(vs, ptr) else Truncated
    ensures ptr <= |input|
  {
    vs, ptr := [], 0;
    var i := 0;
    assert ws[0..] == ws && input[0..] == input;
    StartLoop(FieldsDec(ws, input));
    while i < |ws|
      invariant 0 <= i <= |ws| && 0 <= ptr <= |input|
      invariant FieldsDec(ws, input) == After(vs, ptr, FieldsDec(ws[i..], input[ptr..]))
    {
      FieldStep(ws, i, i + 1, input, ptr, ptr + ws[i], vs);
      if |input| - ptr < ws[i] { return false, vs, ptr; }
      vs, ptr, i := vs + [input[ptr..ptr + ws[i]]], ptr + ws[i], i + 1;
    }
    assert vs + [] == vs;
    ok := true;
  }

  lemma FieldStep(ws: seq<nat>, i: nat, i': nat, s: Bytes, k: nat, k': nat, vs: seq<Bytes>)
    requires i < |ws| && i' == i + 1 && k <= |s| && k' == k + ws[i]
    ensures After(vs, k, FieldsDec(ws[i..], s[k..])) ==
      if |s| < k' then Truncated else After(vs + [s[k..k']], k', FieldsDec(ws[i'..], s[k'..]))
  {
    assert ws[i..][0] == ws[i] && ws[i..][1..] == ws[i'..];
    if k' <= |s| {
      assert s[k..][ws[i]..] == s[k'..] && s[k..][..ws[i]] == s[k..k'];
      var r := FieldsDec(ws[i'..], s[k'..]);
      if r.Done? { assert vs + ([s[k..k']] + r.value) == (vs + [s[k..k']]) + r.value; }
    }
  }

  /** auth1_parse_into, with its context */
  method ParseAuth1(input: Bytes, isEd: nat) returns (r: int, fields: seq<Bytes>, sig: Bytes)
    ensures Reports(Dec(Auth1(isEd), input), r, (fields, sig))
  {
    sig := [];
    var ok, ptr;
    if isEd > 1 {
      PairParsing(Fields([8, 32, 32]), Never<Bytes>(), input);
      ok, fields, ptr := GetFields(input, [8, 32, 32]);
      r := if ok then -1 else -2;
      return;
    }
    PairParsing(Fields(Auth1Widths(isEd)), Rest(), input);
    ok, fields, ptr := GetFields(input, Auth1Widths(isEd));
    if !ok { r := -2; return; }
    sig := input[ptr..];
    r := ptr + |sig|;
  }

  // ----- pwbox_encoded -----

  /** The fields before `data`: the two magic numbers, header_len, skey_header and iv. */
  function PwboxFields(c0: nat, c1: nat, v: PwboxBody): seq<Bytes> {
    [BigEndian(4, c0), BigEndian(4, c1), BigEndian(1, v.headerLen), v.skeyHeader, v.iv]
  }

  ghost predicate PwboxTyped(c0: nat, c1: nat, v: PwboxBody) {
    c0 < Limit(4) && c1 < Limit(4) && v.headerLen < 256 && |v.iv| == 16 && |v.hmac| == 32
  }

  lemma PwboxTailEncoding(v: PwboxBody)
    requires v.headerLen < 256 && |v.iv| == 16 && |v.hmac| == 32
    ensures PwboxTail().enc(v) == (BigEndian(1, v.headerLen) + v.skeyHeader) + (v.iv + (v.data + v.hmac))
    ensures PwboxTail().ok(v) <==> |v.skeyHeader| == v.headerLen
  {
    OneByte(0);
    MapEncoding(Pair(Blob(1), Pair(Fixed(16), AllBut(32))), ToPwboxBody, FromPwboxBody, v);
    PairEncoding(Blob(1), Pair(Fixed(16), AllBut(32)), (v.headerLen, v.skeyHeader), (v.iv, (v.data, v.hmac)));
    BlobEncoding(1, v.headerLen, v.skeyHeader);
    PairEncoding(Fixed(16), AllBut(32), v.iv, (v.data, v.hmac));
  }

  lemma PwboxEncoding(c0: nat, c1: nat, v: PwboxBody)
    requires PwboxTyped(c0, c1, v)
    ensures Enc(Pwbox(), (c0, (c1, v))) == Cat(PwboxFields(c0, c1, v)) + (v.data + v.hmac)
    ensures Ok(Pwbox(), (c0, (c1, v))) <==> c0 == PWBOX0_CONST0 && c1 == PWBOX0_CONST1 && |v.skeyHeader| == v.headerLen
  {
    var p, q := (n: nat) => n == PWBOX0_CONST0, (n: nat) => n == PWBOX0_CONST1;
    var a, b, l := BigEndian(4, c0), BigEndian(4, c1), BigEndian(1, v.headerLen);
    PwboxTailEncoding(v);
    OnlyEncoding(p, 4, c0);
    OnlyEncoding(q, 4, c1);
    PairEncoding(Only(Int(4), q), PwboxTail(), c1, v);
    PairEncoding(Only(Int(4), p), Pair(Only(Int(4), q), PwboxTail()), c0, (c1, v));
    Cat5(a, b, l, v.skeyHeader, v.iv);
    Regroup5(a, b, l, v.skeyHeader, v.iv, v.data + v.hmac);
  }

  lemma Regroup5(a: Bytes, b: Bytes, c: Bytes, d: Bytes, e: Bytes, f: Bytes)
    ensures (a + (b + (c + (d + e)))) + f == a + (b + ((c + d) + (e + f)))
  {
    Assoc3(a, b + (c + (d + e)), f);
    Assoc3(b, c + (d + e), f);
    Assoc3(c, d + e, f);
    Assoc3(d, e, f);
    Assoc3(c, d, e + f);
  }

  /** pwbox_encoded_encode: after `data`, the room is narrowed to what the hmac needs, and must then be used up. */
  method EncodePwbox(out: array<Byte>, base: nat, availOrig: nat, c0: nat, c1: nat, v: PwboxBody) returns (r: int)
    requires base + availOrig <= out.Length && PwboxTyped(c0, c1, v)
    modifies out
    ensures Encodes(Ok(Pwbox(), (c0, (c1, v))), Enc(Pwbox(), (c0, (c1, v))), old(out[..]), out[..], base, availOrig, r)
    ensures Refuses(Ok(Pwbox(), (c0, (c1, v))), old(out[..]), out[..], r)
  {
    PwboxEncoding(c0, c1, v);
    if c0 != PWBOX0_CONST0 || c1 != PWBOX0_CONST1 || |v.skeyHeader| != v.headerLen { return -1; }
    ghost var before, e, e' := out[..], Cat(PwboxFields(c0, c1, v)), v.data + v.hmac;
    r := PutFields(out, base, availOrig, PwboxFields(c0, c1, v));
    if r < 0 {
      EncodesNot(true, e, true, e', before, out[..], base, availOrig, r);
      return;
    }
    ghost var mid := out[..];
    EncodesBound(true, e, before, mid, base, availOrig, r);
    var base', avail' := base + r, availOrig - r;
    var k := PutPwboxTail(out, base', avail', v.data, v.hmac);
    EncodesThen(true, e, true, e', before, mid, out[..], base, availOrig, r, base', avail', k);
    r := if k < 0 then k else r + k;
  }

  /** `data` and the hmac. */
  method PutPwboxTail(out: array<Byte>, base: nat, availOrig: nat, data: Bytes, hmac: Bytes) returns (r: int)
    requires base + availOrig <= out.Length && |hmac| == 32
    modifies out
    ensures Encodes(true, data + hmac, old(out[..]), out[..], base, availOrig, r)
  {
    ghost var before := out[..];
    var avail, written := availOrig, 0;
    Cat1(data);
    r := PutFields(out, base, avail, [data]);
    if r < 0 { return; }
    written := r;
    ghost var mid := out[..];
    EncodesBound(true, data, before, mid, base, availOrig, r);
    if avail - written < 32 { return -2; }
    avail := written + 32;
    var enforce := true;
    if avail - written < 32 {
      r := if availOrig - written < 32 then -2 else -1;
      return;
    }
    Cat1(hmac);
    var base', avail' := base + written, availOrig - written;
    var k := PutFields(out, base', avail - written, [hmac]);
    assert Encodes(true, hmac, mid, out[..], base', avail', k);
    EncodesThen(true, data, true, hmac, before, mid, out[..], base, availOrig, r, base', avail', k);
    written := written + 32;
    if enforce && avail != written { return -1; }
    r := written;
  }

  /** pwbox_encoded_encoded_len */
  method PwboxEncodedLen(c0: nat, c1: nat, v: PwboxBody) returns (n: int)
    requires PwboxTyped(c0, c1, v)
    ensures n == -1 <==> !Ok(Pwbox(), (c0, (c1, v)))
    ensures n != -1 ==> n == |Enc(Pwbox(), (c0, (c1, v)))|
  {
    PwboxEncoding(c0, c1, v);
    if c0 != PWBOX0_CONST0 || c1 != PWBOX0_CONST1 || |v.skeyHeader| != v.headerLen { return -1; }
    Cat5(BigEndian(4, c0), BigEndian(4, c1), BigEndian(1, v.headerLen), v.skeyHeader, v.iv);
    n := 4 + 4 + 1 + |v.skeyHeader| + 16 + |v.data| + 32;
  }

  /** What parsing the fields after the magic numbers amounts to. */
  function PwboxTailAt(s: Bytes): Verdict<PwboxBody> {
    if |s| < 1 || |s| - 1 < FromBigEndian(s[..1]) then Truncated else
      var n := FromBigEndian(s[..1]);
      var t := s[1 + n..];
      if |t| < 16 || |t| - 16 < 32 then Truncated
      else Done(PwboxBody(n, s[1..1 + n], t[..16], t[16..|t| - 32], t[|t| - 32..]), |s|)
  }

  lemma SplitTail(t: Bytes, u: Bytes)
    requires |t| >= 48 && u == t[16..]
    ensures u[..|u| - 32] == t[16..|t| - 32] && u[|u| - 32..] == t[|t| - 32..]
  {
  }

  lemma PwboxTailParsing(s: Bytes)
    ensures PwboxTail().dec(s) == PwboxTailAt(s)
  {
    MapParsing(Pair(Blob(1), Pair(Fixed(16), AllBut(32))), ToPwboxBody, FromPwboxBody, s);
    PairParsing(Blob(1), Pair(Fixed(16), AllBut(32)), s);
    BlobParsing(1, s);
    if |s| >= 1 && |s| - 1 >= FromBigEndian(s[..1]) {
      var t := s[1 + FromBigEndian(s[..1])..];
      PairParsing(Fixed(16), AllBut(32), t);
      if |t| >= 16 {
        if |t| - 16 >= 32 { SplitTail(t, t[16..]); }
      }
    }
  }

  /** pwbox_encoded_parse_into after the magic numbers: `data` is everything up to the last 32 bytes. */
  method ParsePwboxTail(input: Bytes) returns (r: int, obj: PwboxBody)
    ensures Reports(PwboxTailAt(input), r, obj)
  {
    obj := PwboxBody(0, [], [], [], []);
    var remaining := |input|;
    if remaining < 1 { return -2, obj; }
    var n := GetInt(input, 0, 1);
    if remaining - 1 < n { return -2, obj; }
    var header := input[1..1 + n];
    var t := input[1 + n..];
    if |t| < 16 { return -2, obj; }
    var iv := t[..16];
    if |t| - 16 < 32 { return -2, obj; }
    var data := t[16..|t| - 32];
    obj := PwboxBody(n, header, iv, data, t[|t| - 32..]);
    r := |input|;
  }

  /** pwbox_encoded_parse_into */
  method ParsePwbox(input: Bytes) returns (r: int, c0: nat, c1: nat, obj: PwboxBody)
    ensures Reports(Dec(Pwbox(), input), r, (c0, (c1, obj)))
  {
    ghost var p, q := (n: nat) => n == PWBOX0_CONST0, (n: nat) => n == PWBOX0_CONST1;
    PairParsing(Only(Int(4), p), Pair(Only(Int(4), q), PwboxTail()), input);
    c0, c1, obj := 0, 0, PwboxBody(0, [], [], [], []);
    if |input| < 4 { r := -2; return; }
    c0 := GetInt(input, 0, 4);
    if c0 != PWBOX0_CONST0 { r := -1; return; }
    var t := input[4..];
    PairParsing(Only(Int(4), q), PwboxTail(), t);
    if |t| < 4 { r := -2; return; }
    c1 := GetInt(t, 0, 4);
    if c1 != PWBOX0_CONST1 { r := -1; return; }
    PwboxTailParsing(t[4..]);
    r, obj := ParsePwboxTail(t[4..]);
    if r >= 0 { r := 8 + r; }
  }
}
