/**
  The encoders and parsers of trunnel/ed25519_cert.c, in their own cursor style,
  against the formats they implement.
 */
module CertCodecs {

  import opened Wire
  import opened Cursor
  import opened CertFormats

  function SpecArm(v: LinkSpec): Bytes {
    match v
    case Ipv4(a, p) => BigEndian(4, a) + BigEndian(2, p)
    case Ipv6(a, p) => a + BigEndian(2, p)
    case LegacyId(b) => b
    case Ed25519Id(b) => b
    case Unrecognized(_, b) => b
  }

  /** The fields have their C types, and the arm is the one the type selects. */
  predicate SpecTyped(v: LinkSpec) {
    match v
    case Ipv4(a, p) => a < Limit(4) && p < Limit(2)
    case Ipv6(a, p) => |a| == 16 && p < Limit(2)
    case LegacyId(b) => |b| == 20
    case Ed25519Id(b) => |b| == 32
    case Unrecognized(ty, _) => LS_ED25519_ID < ty < 256
  }

  lemma ArmEncoding(v: LinkSpec)
    requires SpecTyped(v)
    ensures SpecBody(SpecType(v)).ok(v) && SpecBody(SpecType(v)).enc(v) == SpecArm(v)
  {
  }

  lemma SpecEncoding(v: LinkSpec)
    requires SpecTyped(v)
    ensures Ok(LinkSpecifier(), v) <==> |SpecArm(v)| < 256
    ensures Enc(LinkSpecifier(), v) == BigEndian(1, SpecType(v)) + (BigEndian(1, |SpecArm(v)|) + SpecArm(v))
  {
    ArmEncoding(v);
    OneByte(SpecType(v));
    TaggedOk(1, 1, SpecBody, SpecType, v);
    TaggedEncoding(1, 1, SpecBody, SpecType, v, SpecArm(v));
  }

  /** The fields of the union of link_specifier. */
  function ArmFields(v: LinkSpec): seq<Bytes> {
    match v
    case Ipv4(a, p) => [BigEndian(4, a), BigEndian(2, p)]
    case Ipv6(a, p) => [a, BigEndian(2, p)]
    case LegacyId(b) => [b]
    case Ed25519Id(b) => [b]
    case Unrecognized(_, b) => [b]
  }

  lemma ArmCat(v: LinkSpec)
    ensures Cat(ArmFields(v)) == SpecArm(v)
  {
    match v
    case Ipv4(a, p) => Cat2(BigEndian(4, a), BigEndian(2, p));
    case Ipv6(a, p) => Cat2(a, BigEndian(2, p));
    case LegacyId(b) => Cat1(b);
    case Ed25519Id(b) => Cat1(b);
    case Unrecognized(_, b) => Cat1(b);
  }

  /** link_specifier_encode; `lsLen` is whatever the object's length field holds, which is written and then overwritten. */
  method EncodeLinkSpecifier(out: array<Byte>, base: nat, avail: nat, v: LinkSpec, lsLen: Byte) returns (r: int)
    requires base + avail <= out.Length && SpecTyped(v)
    modifies out
    ensures Encodes(Ok(LinkSpecifier(), v), Enc(LinkSpecifier(), v), old(out[..]), out[..], base, avail, r)
    ensures r == -1 <==> 2 + |SpecArm(v)| <= avail && 255 < |SpecArm(v)|
  {
    SpecEncoding(v);
    ArmCat(v);
    Cat1(BigEndian(1, SpecType(v)));
    OneByte(|SpecArm(v)|);
    assert [] + SpecArm(v) == SpecArm(v);
    r := PutSized(out, base, avail, [BigEndian(1, SpecType(v))], 1, 1, [lsLen], [], ArmFields(v));
  }

  /** The union of link_specifier inside its window `w`; `used` is how much of it the arm takes. */
  method ParseArm(w: Bytes, ty: nat) returns (ok: bool, obj: LinkSpec, used: nat)
    ensures var d := SpecBody(ty).dec(w); if ok then d == Done(obj, used) else !d.Done?
  {
    var remaining := |w|;
    ok, obj, used := false, Unrecognized(ty, []), 0;
    if ty == LS_IPV4 {
      Ipv4Parsing(w);
      if remaining < 4 { return; }
      var addr := GetInt(w, 0, 4);
      if remaining - 4 < 2 { return; }
      var port := GetInt(w, 4, 2);
      ok, obj, used := true, Ipv4(addr, port), 6;
    } else if ty == LS_IPV6 {
      Ipv6Parsing(w);
      if remaining < 16 { return; }
      if remaining - 16 < 2 { return; }
      var port := GetInt(w, 16, 2);
      ok, obj, used := true, Ipv6(w[..16], port), 18;
    } else if ty == LS_LEGACY_ID {
      if remaining < 20 { return; }
      ok, obj, used := true, LegacyId(w[..20]), 20;
    } else if ty == LS_ED25519_ID {
      if remaining < 32 { return; }
      ok, obj, used := true, Ed25519Id(w[..32]), 32;
    } else {
      ok, obj, used := true, Unrecognized(ty, w), remaining;
    }
  }

  lemma Ipv4Parsing(w: Bytes)
    ensures SpecBody(LS_IPV4).dec(w) == if |w| < 6 then Truncated else Done(Ipv4(FromBigEndian(w[..4]), FromBigEndian(w[4..6])), 6)
  {
    if |w| >= 4 {
      assert Int(4).dec(w) == Done(FromBigEndian(w[..4]), 4);
      if |w| >= 6 { assert w[4..][..2] == w[4..6]; }
    }
  }

  lemma Ipv6Parsing(w: Bytes)
    ensures SpecBody(LS_IPV6).dec(w) == if |w| < 18 then Truncated else Done(Ipv6(w[..16], FromBigEndian(w[16..18])), 18)
  {
    if |w| >= 16 {
      assert Fixed(16).dec(w) == Done(w[..16], 16);
      if |w| >= 18 { assert w[16..][..2] == w[16..18]; }
    }
  }

  /** link_specifier_parse_into */
  method ParseLinkSpecifier(input: Bytes) returns (r: int, obj: LinkSpec)
    ensures Reports(Dec(LinkSpecifier(), input), r, obj)
  {
    TaggedParsing(1, 1, SpecBody, SpecType, input);
    var remaining := |input|;
    obj := Unrecognized(0, []);
    if remaining < 1 { return -2, obj; }
    var ty := GetInt(input, 0, 1);
    if remaining - 1 < 1 { return -2, obj; }
    var len := GetInt(input, 1, 1);
    if remaining - 2 < len { return -2, obj; }
    var ok, used;
    ok, obj, used := ParseArm(input[2..2 + len], ty);
    if !ok || used != len { return -1, obj; }
    r := 2 + len;
  }

  // ----- link_specifier_list -----

  ghost predicate SpecsTyped(ls: seq<LinkSpec>) {
    forall i {:trigger ls[i]} :: 0 <= i < |ls| ==> SpecTyped(ls[i])
  }

  /** The array of specifiers, each encoded behind the other. */
  method PutSpecs(out: array<Byte>, base: nat, avail: nat, ls: seq<LinkSpec>, lens: seq<Byte>) returns (r: int)
    requires base + avail <= out.Length && SpecsTyped(ls) && |lens| == |ls|
    modifies out
    ensures Encodes(RepOk(LinkSpecifier(), ls), EncodeAll(LinkSpecifier(), ls), old(out[..]), out[..], base, avail, r)
  {
    ghost var c, before := LinkSpecifier(), out[..];
    r := 0;
    var i := 0;
    NoneEncoded(c, ls, before, base, avail);
    while i < |ls|
      invariant 0 <= i <= |ls| && 0 <= r <= avail
      invariant Encodes(RepOk(c, ls[..i]), EncodeAll(c, ls[..i]), before, out[..], base, avail, r)
    {
      ghost var mid := out[..];
      var base', avail' := base + r, avail - r;
      var n := EncodeLinkSpecifier(out, base', avail', ls[i], lens[i]);
      OneMoreEncoded(c, ls, i, i + 1, before, mid, out[..], base, avail, r, base', avail', n);
      if n < 0 { return n; }
      r, i := r + n, i + 1;
    }
    assert ls[..i] == ls;
  }

  /** The array of specifiers: `n` of them from the start of the input. */
  method ParseSpecs(input: Bytes, n: nat) returns (r: int, ls: seq<LinkSpec>)
    ensures Reports(RepDec(LinkSpecifier(), n, input), r, ls) && r <= |input|
  {
    ghost var c := LinkSpecifier();
    LinkSpecifierLawful();
    var ptr, idx := 0, 0;
    ls := [];
    ghost var left: nat := n;
    assert input[0..] == input;
    StartLoop(RepDec(c, n, input));
    while idx < n
      invariant 0 <= idx <= n && left == n - idx && 0 <= ptr <= |input|
      invariant RepDec(c, n, input) == After(ls, ptr, RepDec(c, left, input[ptr..]))
    {
      var k, elt := ParseLinkSpecifier(input[ptr..]);
      if k < 0 { return k, ls; }
      assert Sane(c, input[ptr..]);
      var ptr' := ptr + k;
      ghost var left' := left - 1;
      RepStep(c, ls, ptr, left, input, elt, k, ptr', left');
      ls, ptr, idx, left := ls + [elt], ptr', idx + 1, left';
    }
    r := ptr;
    assert ls + [] == ls;
  }

  /** link_specifier_list_parse_into */
  method ParseSpecList(input: Bytes) returns (r: int, nSpec: nat, ls: seq<LinkSpec>)
    ensures Reports(Dec(SpecList(), input), r, (nSpec, ls))
  {
    CountedParsing(1, LinkSpecifier(), input);
    nSpec, ls := 0, [];
    if |input| < 1 { return -2, nSpec, ls; }
    nSpec := GetInt(input, 0, 1);
    r, ls := ParseSpecs(input[1..], nSpec);
    if r >= 0 { r := r + 1; }
  }

  /** link_specifier_list_encode */
  method EncodeSpecList(out: array<Byte>, base: nat, avail: nat, nSpec: nat, ls: seq<LinkSpec>, lens: seq<Byte>) returns (r: int)
    requires base + avail <= out.Length && SpecsTyped(ls) && nSpec < 256 && |lens| == |ls|
    modifies out
    ensures Encodes(Ok(SpecList(), (nSpec, ls)), Enc(SpecList(), (nSpec, ls)), old(out[..]), out[..], base, avail, r)
    ensures Refuses(|ls| == nSpec, old(out[..]), out[..], r)
  {
    CountedEncoding(1, LinkSpecifier(), nSpec, ls);
    OneByte(nSpec);
    if |ls| != nSpec { return -1; }
    ghost var before, good, e, e' := out[..], RepOk(LinkSpecifier(), ls), BigEndian(1, nSpec), EncodeAll(LinkSpecifier(), ls);
    Cat1(e);
    r := PutFields(out, base, avail, [BigEndian(1, nSpec)]);
    if r < 0 {
      EncodesNot(true, e, good, e', before, out[..], base, avail, r);
      return;
    }
    ghost var mid := out[..];
    var base', avail' := base + r, avail - r;
    var n := PutSpecs(out, base', avail', ls, lens);
    EncodesThen(true, e, good, e', before, mid, out[..], base, avail, r, base', avail', n);
    r := if n < 0 then n else r + n;
  }

  // ----- create2_cell_body -----

  ghost predicate Create2Typed(v: Create2) {
    v.handshakeType < Limit(2) && v.handshakeLen < Limit(2)
  }

  lemma Create2Encoding(v: Create2)
    ensures Enc(Create2Body(), v) == Cat([BigEndian(2, v.handshakeType), BigEndian(2, v.handshakeLen), v.handshakeData])
    ensures Create2Typed(v) ==> (Ok(Create2Body(), v) <==> |v.handshakeData| == v.handshakeLen)
  {
    var a, b, d := BigEndian(2, v.handshakeType), BigEndian(2, v.handshakeLen), v.handshakeData;
    Cat3(a, b, d);
    MapEncoding(Create2Fields(), ToCreate2, FromCreate2, v);
    PairEncoding(Int(2), Blob(2), v.handshakeType, (v.handshakeLen, d));
    BlobEncoding(2, v.handshakeLen, d);
  }

  /** create2_cell_body_encode */
  method EncodeCreate2(out: array<Byte>, base: nat, avail: nat, v: Create2) returns (r: int)
    requires base + avail <= out.Length && Create2Typed(v)
    modifies out
    ensures Encodes(Ok(Create2Body(), v), Enc(Create2Body(), v), old(out[..]), out[..], base, avail, r)
    ensures Refuses(Ok(Create2Body(), v), old(out[..]), out[..], r)
  {
    Create2Encoding(v);
    if |v.handshakeData| != v.handshakeLen { return -1; }
    r := PutFields(out, base, avail, [BigEndian(2, v.handshakeType), BigEndian(2, v.handshakeLen), v.handshakeData]);
  }

  lemma Create2Parsing(s: Bytes)
    ensures Dec(Create2Body(), s) ==
      if |s| < 4 || |s| - 4 < FromBigEndian(s[2..4]) then Truncated
      else Done(Create2(FromBigEndian(s[..2]), FromBigEndian(s[2..4]), s[4..4 + FromBigEndian(s[2..4])]), 4 + FromBigEndian(s[2..4]))
  {
    MapParsing(Create2Fields(), ToCreate2, FromCreate2, s);
    PairParsing(Int(2), Blob(2), s);
    if |s| >= 2 {
      assert Int(2).dec(s) == Done(FromBigEndian(s[..2]), 2);
      BlobParsing(2, s[2..]);
      if |s| >= 4 {
        assert s[2..][..2] == s[2..4];
        var n := FromBigEndian(s[2..4]);
        if |s| - 4 >= n { SubSlice(s, 2, 2, 2 + n); }
      }
    }
  }

  /** create2_cell_body_parse_into */
  method ParseCreate2(input: Bytes) returns (r: int, obj: Create2)
    ensures Reports(Dec(Create2Body(), input), r, obj)
  {
    Create2Parsing(input);
    var remaining := |input|;
    obj := Create2(0, 0, []);
    if remaining < 2 { return -2, obj; }
    var ty := GetInt(input, 0, 2);
    if remaining - 2 < 2 { return -2, obj; }
    var len := GetInt(input, 2, 2);
    if remaining - 4 < len { return -2, obj; }
    obj := Create2(ty, len, input[4..4 + len]);
    r := 4 + len;
  }

  // ----- extend2_cell_body -----

  lemma Extend2Encoding(v: Extend2)
    ensures Enc(Extend2Body(), v) == Enc(SpecList(), (v.nSpec, v.ls)) + Enc(Create2Body(), v.create2)
    ensures Ok(Extend2Body(), v) <==> Ok(SpecList(), (v.nSpec, v.ls)) && Ok(Create2Body(), v.create2)
  {
    MapEncoding(Pair(SpecList(), Create2Body()), ToExtend2, FromExtend2, v);
    PairEncoding(SpecList(), Create2Body(), (v.nSpec, v.ls), v.create2);
  }

  /** extend2_cell_body_encode */
  method EncodeExtend2(out: array<Byte>, base: nat, avail: nat, v: Extend2, lens: seq<Byte>) returns (r: int)
    requires base + avail <= out.Length && SpecsTyped(v.ls) && v.nSpec < 256 && |lens| == |v.ls| && Create2Typed(v.create2)
    modifies out
    ensures Encodes(Ok(Extend2Body(), v), Enc(Extend2Body(), v), old(out[..]), out[..], base, avail, r)
    ensures Refuses(|v.ls| == v.nSpec && |v.create2.handshakeData| == v.create2.handshakeLen, old(out[..]), out[..], r)
  {
    Extend2Encoding(v);
    Create2Encoding(v.create2);
    CountedEncoding(1, LinkSpecifier(), v.nSpec, v.ls);
    if |v.ls| != v.nSpec || |v.create2.handshakeData| != v.create2.handshakeLen { return -1; }
    ghost var good, e := Ok(SpecList(), (v.nSpec, v.ls)), Enc(SpecList(), (v.nSpec, v.ls));
    ghost var good', e' := Ok(Create2Body(), v.create2), Enc(Create2Body(), v.create2);
    ghost var before := out[..];
    r := EncodeSpecList(out, base, avail, v.nSpec, v.ls, lens);
    if r < 0 {
      EncodesNot(good, e, good', e', before, out[..], base, avail, r);
      return;
    }
    ghost var mid := out[..];
    EncodesBound(good, e, before, mid, base, avail, r);
    var base', avail' := base + r, avail - r;
    var n := EncodeCreate2(out, base', avail', v.create2);
    EncodesThen(good, e, good', e', before, mid, out[..], base, avail, r, base', avail', n);
    r := if n < 0 then n else r + n;
  }

  /** extend2_cell_body_parse_into */
  method ParseExtend2(input: Bytes) returns (r: int, obj: Extend2)
    ensures Reports(Dec(Extend2Body(), input), r, obj)
  {
    Extend2Lawful();
    MapParsing(Pair(SpecList(), Create2Body()), ToExtend2, FromExtend2, input);
    PairParsing(SpecList(), Create2Body(), input);
    var n, ls;
    r, n, ls := ParseSpecList(input);
    obj := Extend2(n, ls, Create2(0, 0, []));
    if r < 0 { return; }
    assert Sane(SpecList(), input);
    var k, create2 := ParseCreate2(input[r..]);
    if k < 0 { return k, obj; }
    obj := Extend2(n, ls, create2);
    r := r + k;
  }

  // ----- ed25519_cert_extension -----

  ghost predicate ExtTyped(v: Extension) {
    v.extType < 256 && v.flags < 256 && (v.extType == CERTEXT_SIGNED_WITH_KEY ==> |v.un| == 32)
  }

  lemma ExtEncoding(v: Extension)
    requires ExtTyped(v)
    ensures Enc(CertExtension(), v) == BigEndian(2, |v.un|) + ((BigEndian(1, v.extType) + BigEndian(1, v.flags)) + v.un)
    ensures Ok(CertExtension(), v) <==> |v.un| < Limit(2)
  {
    var h := (|v.un|, (v.extType, v.flags));
    OneByte(0);
    MapEncoding(ExtFields(), ToExt, FromExt, v);
    PairEncoding(Int(1), Int(1), v.extType, v.flags);
    PairEncoding(Int(2), Pair(Int(1), Int(1)), |v.un|, (v.extType, v.flags));
    var w := Within(ExtArm(v.extType), |v.un|);
    assert w.enc(v.un) == v.un && w.ok(v.un);
    assert ExtFields().enc((h, v.un)) == ExtHead().enc(h) + w.enc(v.un);
    assert ExtFields().ok((h, v.un)) == (ExtHead().ok(h) && w.ok(v.un));
    Assoc3(BigEndian(2, |v.un|), BigEndian(1, v.extType) + BigEndian(1, v.flags), v.un);
  }

  /** ed25519_cert_extension_encode; `extLength` is what the object's length field holds before it is written back. */
  method EncodeExtension(out: array<Byte>, base: nat, avail: nat, v: Extension, extLength: nat) returns (r: int)
    requires base + avail <= out.Length && ExtTyped(v)
    modifies out
    ensures Encodes(Ok(CertExtension(), v), Enc(CertExtension(), v), old(out[..]), out[..], base, avail, r)
    ensures r == -1 <==> 4 + |v.un| <= avail && 65535 < |v.un|
  {
    ExtEncoding(v);
    Cat1(v.un);
    Cat2(BigEndian(1, v.extType), BigEndian(1, v.flags));
    OneByte(0);
    ghost var e := BigEndian(2, |v.un|) + ((BigEndian(1, v.extType) + BigEndian(1, v.flags)) + v.un);
    assert [] + e == e;
    r := PutSized(out, base, avail, [], 0, 2, BigEndian(2, extLength), [BigEndian(1, v.extType), BigEndian(1, v.flags)], [v.un]);
  }

  lemma ExtHeadParsing(s: Bytes)
    ensures ExtHead().dec(s) == if |s| < 4 then Truncated else Done((FromBigEndian(s[..2]), (FromBigEndian(s[2..3]), FromBigEndian(s[3..4]))), 4)
  {
    PairParsing(Int(2), Pair(Int(1), Int(1)), s);
    if |s| >= 2 {
      assert Int(2).dec(s) == Done(FromBigEndian(s[..2]), 2);
      var t := s[2..];
      PairParsing(Int(1), Int(1), t);
      if |s| >= 3 {
        assert t[..1] == s[2..3] && Int(1).dec(t) == Done(FromBigEndian(s[2..3]), 1);
        if |s| >= 4 { assert t[1..][..1] == s[3..4]; }
      }
    }
  }

  /** The union inside its window: a key must fill it exactly. */
  lemma ArmParsing(ty: nat, n: nat, u: Bytes)
    ensures Within(ExtArm(ty), n).dec(u) ==
      if |u| < n then Truncated else if ty == CERTEXT_SIGNED_WITH_KEY && n != 32 then Invalid else Done(u[..n], n)
  {
    if |u| >= n {
      assert n == 32 ==> u[..n][..32] == u[..n];
    }
  }

  lemma ExtParsing(s: Bytes)
    ensures var r := Dec(CertExtension(), s);
      if |s| < 4 || |s| - 4 < FromBigEndian(s[..2]) then r == Truncated else
        var n, ty, un := FromBigEndian(s[..2]), FromBigEndian(s[2..3]), s[4..4 + FromBigEndian(s[..2])];
        r == if ty == CERTEXT_SIGNED_WITH_KEY && n != 32 then Invalid else Done(Extension(ty, FromBigEndian(s[3..4]), un), 4 + n)
  {
    MapParsing(ExtFields(), ToExt, FromExt, s);
    ExtHeadParsing(s);
    var f := (h: (nat, (nat, nat))) => Within(ExtArm(h.1.0), h.0);
    DepParsing(ExtHead(), f, s);
    if |s| >= 4 {
      var n, ty := FromBigEndian(s[..2]), FromBigEndian(s[2..3]);
      var u := s[4..];
      ArmParsing(ty, n, u);
      if |s| - 4 >= n {
        assert u[..n] == s[4..4 + n];
      }
    }
  }

  /** ed25519_cert_extension_parse_into */
  method ParseExtension(input: Bytes) returns (r: int, obj: Extension)
    ensures Reports(Dec(CertExtension(), input), r, obj)
  {
    ExtParsing(input);
    var remaining := |input|;
    obj := Extension(0, 0, []);
    if remaining < 2 { return -2, obj; }
    var len := GetInt(input, 0, 2);
    if remaining - 2 < 1 { return -2, obj; }
    var ty := GetInt(input, 2, 1);
    if remaining - 3 < 1 { return -2, obj; }
    var flags := GetInt(input, 3, 1);
    if remaining - 4 < len { return -2, obj; }
    var left := len;
    if ty == CERTEXT_SIGNED_WITH_KEY {
      if left < 32 { return -1, obj; }
      assert len == 32 ==> input[4..36] == input[4..4 + len];
      obj := Extension(ty, flags, input[4..36]);
      left := left - 32;
    } else {
      obj := Extension(ty, flags, input[4..4 + left]);
      left := 0;
    }
    if left != 0 { return -1, obj; }
    r := 4 + len;
  }

  // ----- ed25519_cert -----

  ghost predicate ExtsTyped(es: seq<Extension>) {
    forall i {:trigger es[i]} :: 0 <= i < |es| ==> ExtTyped(es[i])
  }

  method PutExtensions(out: array<Byte>, base: nat, avail: nat, es: seq<Extension>, lens: seq<nat>) returns (r: int)
    requires base + avail <= out.Length && ExtsTyped(es) && |lens| == |es|
    modifies out
    ensures Encodes(RepOk(CertExtension(), es), EncodeAll(CertExtension(), es), old(out[..]), out[..], base, avail, r)
  {
    ghost var c, before := CertExtension(), out[..];
    r := 0;
    var i := 0;
    NoneEncoded(c, es, before, base, avail);
    while i < |es|
      invariant 0 <= i <= |es| && 0 <= r <= avail
      invariant Encodes(RepOk(c, es[..i]), EncodeAll(c, es[..i]), before, out[..], base, avail, r)
    {
      ghost var mid := out[..];
      var base', avail' := base + r, avail - r;
      var n := EncodeExtension(out, base', avail', es[i], lens[i]);
      OneMoreEncoded(c, es, i, i + 1, before, mid, out[..], base, avail, r, base', avail', n);
      if n < 0 { return n; }
      r, i := r + n, i + 1;
    }
    assert es[..i] == es;
  }

  ghost predicate CertTyped(v: Cert) {
    && v.version < 256 && v.certType < 256 && v.expField < Limit(4) && v.keyType < 256 && |v.certifiedKey| == 32
    && v.nExtensions < 256 && |v.signature| == 64 && ExtsTyped(v.ext)
  }

  function CertHeadFields(v: Cert): seq<Bytes> {
    [BigEndian(1, v.version), BigEndian(1, v.certType), BigEndian(4, v.expField), BigEndian(1, v.keyType), v.certifiedKey, BigEndian(1, v.nExtensions)]
  }

  lemma CertHeadEncoding(v: Cert)
    requires CertTyped(v)
    ensures var h := (v.version, (v.certType, (v.expField, (v.keyType, v.certifiedKey))));
      CertHead().enc(h) + BigEndian(1, v.nExtensions) == Cat(CertHeadFields(v)) && (CertHead().ok(h) <==> v.version == 1)
  {
    var a, b, c, d, e, f := BigEndian(1, v.version), BigEndian(1, v.certType), BigEndian(4, v.expField), BigEndian(1, v.keyType), v.certifiedKey, BigEndian(1, v.nExtensions);
    CertHeadPairs(v.version, v.certType, v.expField, v.keyType, e);
    Cat6(a, b, c, d, e, f);
    Rotate(a, b, c, d, e, f);
  }

  lemma CertHeadPairs(version: nat, ty: nat, exp: nat, keyType: nat, key: Bytes)
    requires version < 256 && ty < 256 && exp < Limit(4) && keyType < 256 && |key| == 32
    ensures var h := (version, (ty, (exp, (keyType, key))));
      && CertHead().enc(h) == BigEndian(1, version) + (BigEndian(1, ty) + (BigEndian(4, exp) + (BigEndian(1, keyType) + key)))
      && (CertHead().ok(h) <==> version == 1)
  {
    OneByte(0);
    var one := (n: nat) => n == 1;
    OnlyEncoding(one, 1, version);
    CertRestPairs(ty, exp, keyType, key);
    PairEncoding(Only(Int(1), one), Pair(Int(1), Pair(Int(4), Pair(Int(1), Fixed(32)))), version, (ty, (exp, (keyType, key))));
  }

  lemma CertRestPairs(ty: nat, exp: nat, keyType: nat, key: Bytes)
    requires ty < 256 && exp < Limit(4) && keyType < 256 && |key| == 32
    ensures var c := Pair(Int(1), Pair(Int(4), Pair(Int(1), Fixed(32))));
      && c.enc((ty, (exp, (keyType, key)))) == BigEndian(1, ty) + (BigEndian(4, exp) + (BigEndian(1, keyType) + key))
      && c.ok((ty, (exp, (keyType, key))))
  {
    OneByte(0);
    PairEncoding(Int(1), Fixed(32), keyType, key);
    PairEncoding(Int(4), Pair(Int(1), Fixed(32)), exp, (keyType, key));
    PairEncoding(Int(1), Pair(Int(4), Pair(Int(1), Fixed(32))), ty, (exp, (keyType, key)));
  }

  lemma Rotate(a: Bytes, b: Bytes, c: Bytes, d: Bytes, e: Bytes, f: Bytes)
    ensures (a + (b + (c + (d + e)))) + f == a + (b + (c + (d + (e + f))))
  {
    Assoc3(a, b + (c + (d + e)), f);
    Assoc3(b, c + (d + e), f);
    Assoc3(c, d + e, f);
    Assoc3(d, e, f);
  }

  lemma CertTailEncoding(n: nat, es: seq<Extension>, sig: Bytes)
    requires n < 256 && |sig| == 64
    ensures CertTail().enc(((n, es), sig)) == BigEndian(1, n) + (EncodeAll(CertExtension(), es) + sig)
    ensures CertTail().ok(((n, es), sig)) <==> |es| == n && RepOk(CertExtension(), es)
  {
    OneByte(0);
    PairEncoding(Counted(1, CertExtension()), Fixed(64), (n, es), sig);
    CountedEncoding(1, CertExtension(), n, es);
    Assoc3(BigEndian(1, n), EncodeAll(CertExtension(), es), sig);
  }

  lemma CertEncoding(v: Cert)
    requires CertTyped(v)
    ensures Enc(Ed25519Cert(), v) == Cat(CertHeadFields(v)) + (EncodeAll(CertExtension(), v.ext) + v.signature)
    ensures Ok(Ed25519Cert(), v) <==> v.version == 1 && |v.ext| == v.nExtensions && RepOk(CertExtension(), v.ext)
  {
    CertTailEncoding(v.nExtensions, v.ext, v.signature);
    CertHeadEncoding(v);
    var h := (v.version, (v.certType, (v.expField, (v.keyType, v.certifiedKey))));
    CertParts(v, h, ((v.nExtensions, v.ext), v.signature));
    Assoc3(CertHead().enc(h), BigEndian(1, v.nExtensions), EncodeAll(CertExtension(), v.ext) + v.signature);
  }

  lemma CertParts(v: Cert, h: (nat, (nat, (nat, (nat, Bytes)))), t: ((nat, seq<Extension>), Bytes))
    requires FromCert(v) == (h, t)
    ensures Enc(Ed25519Cert(), v) == CertHead().enc(h) + CertTail().enc(t)
    ensures Ok(Ed25519Cert(), v) <==> CertHead().ok(h) && CertTail().ok(t)
  {
    MapEncoding(Pair(CertHead(), CertTail()), ToCert, FromCert, v);
    PairEncoding(CertHead(), CertTail(), h, t);
  }

  /** ed25519_cert_encode */
  method EncodeCert(out: array<Byte>, base: nat, avail: nat, v: Cert, lens: seq<nat>) returns (r: int)
    requires base + avail <= out.Length && CertTyped(v) && |lens| == |v.ext|
    modifies out
    ensures Encodes(Ok(Ed25519Cert(), v), Enc(Ed25519Cert(), v), old(out[..]), out[..], base, avail, r)
    ensures Refuses(v.version == 1 && |v.ext| == v.nExtensions, old(out[..]), out[..], r)
  {
    CertEncoding(v);
    if v.version != 1 || |v.ext| != v.nExtensions { return -1; }
    ghost var good, h, e, s := RepOk(CertExtension(), v.ext), Cat(CertHeadFields(v)), EncodeAll(CertExtension(), v.ext), v.signature;
    ghost var before := out[..];
    r := PutFields(out, base, avail, CertHeadFields(v));
    if r < 0 {
      EncodesNot(true, h, good, e + s, before, out[..], base, avail, r);
      return;
    }
    ghost var mid := out[..];
    EncodesBound(true, h, before, mid, base, avail, r);
    var base', avail' := base + r, avail - r;
    var n := PutCertTail(out, base', avail', v, lens);
    EncodesThen(true, h, good, e + s, before, mid, out[..], base, avail, r, base', avail', n);
    r := if n < 0 then n else r + n;
  }

  /** The extensions and the signature. */
  method PutCertTail(out: array<Byte>, base: nat, avail: nat, v: Cert, lens: seq<nat>) returns (r: int)
    requires base + avail <= out.Length && CertTyped(v) && |lens| == |v.ext|
    modifies out
    ensures Encodes(RepOk(CertExtension(), v.ext), EncodeAll(CertExtension(), v.ext) + v.signature, old(out[..]), out[..], base, avail, r)
  {
    ghost var good, e, s := RepOk(CertExtension(), v.ext), EncodeAll(CertExtension(), v.ext), v.signature;
    ghost var before := out[..];
    r := PutExtensions(out, base, avail, v.ext, lens);
    if r < 0 {
      EncodesNot(good, e, true, s, before, out[..], base, avail, r);
      return;
    }
    ghost var mid := out[..];
    EncodesBound(good, e, before, mid, base, avail, r);
    var base', avail' := base + r, avail - r;
    var n := PutFields(out, base', avail', [v.signature]);
    Cat1(s);
    EncodesThen(good, e, true, s, before, mid, out[..], base, avail, r, base', avail', n);
    r := if n < 0 then n else r + n;
  }

  method ParseExtensions(input: Bytes, n: nat) returns (r: int, es: seq<Extension>)
    ensures Reports(RepDec(CertExtension(), n, input), r, es) && r <= |input|
  {
    ghost var c := CertExtension();
    ExtensionLawful();
    var ptr, idx := 0, 0;
    es := [];
    ghost var left: nat := n;
    assert input[0..] == input;
    StartLoop(RepDec(c, n, input));
    while idx < n
      invariant 0 <= idx <= n && left == n - idx && 0 <= ptr <= |input|
      invariant RepDec(c, n, input) == After(es, ptr, RepDec(c, left, input[ptr..]))
    {
      var k, elt := ParseExtension(input[ptr..]);
      if k < 0 { return k, es; }
      assert Sane(c, input[ptr..]);
      var ptr' := ptr + k;
      ghost var left' := left - 1;
      RepStep(c, es, ptr, left, input, elt, k, ptr', left');
      es, ptr, idx, left := es + [elt], ptr', idx + 1, left';
    }
    r := ptr;
    assert es + [] == es;
  }

  /** The last fields of the head: cert_type, exp_field, cert_key_type and certified_key. */
  lemma CertRestParsing(s: Bytes)
    ensures Pair(Int(1), Pair(Int(4), Pair(Int(1), Fixed(32)))).dec(s) ==
      if |s| < 38 then Truncated
      else Done((FromBigEndian(s[..1]), (FromBigEndian(s[1..5]), (FromBigEndian(s[5..6]), s[6..38]))), 38)
  {
    PairParsing(Int(1), Pair(Int(4), Pair(Int(1), Fixed(32))), s);
    if |s| >= 1 {
      ExpKeyParsing(s[1..]);
      if |s| >= 38 {
        assert s[1..][..4] == s[1..5] && s[1..][4..5] == s[5..6] && s[1..][5..37] == s[6..38];
      }
    }
  }

  lemma ExpKeyParsing(s: Bytes)
    ensures Pair(Int(4), Pair(Int(1), Fixed(32))).dec(s) ==
      if |s| < 37 then Truncated else Done((FromBigEndian(s[..4]), (FromBigEndian(s[4..5]), s[5..37])), 37)
  {
    PairParsing(Int(4), Pair(Int(1), Fixed(32)), s);
    if |s| >= 4 {
      KeyParsing(s[4..]);
      if |s| >= 37 {
        assert s[4..][..1] == s[4..5] && s[4..][1..33] == s[5..37];
      }
    }
  }

  lemma KeyParsing(s: Bytes)
    ensures Pair(Int(1), Fixed(32)).dec(s) == if |s| < 33 then Truncated else Done((FromBigEndian(s[..1]), s[1..33]), 33)
  {
    PairParsing(Int(1), Fixed(32), s);
    if |s| >= 33 {
      assert s[1..][..32] == s[1..33];
    }
  }

  /** What parsing the fields before n_extensions amounts to. */
  function CertHeadAt(s: Bytes): (v: Verdict<(nat, (nat, (nat, (nat, Bytes))))>)
    ensures v.Done? ==> v.used <= |s|
  {
    if |s| < 1 then Truncated
    else if FromBigEndian(s[..1]) != 1 then Invalid
    else if |s| < 39 then Truncated
    else Done((1, (FromBigEndian(s[1..2]), (FromBigEndian(s[2..6]), (FromBigEndian(s[6..7]), s[7..39])))), 39)
  }

  lemma Shifted(s: Bytes)
    requires |s| >= 39
    ensures var t := s[1..]; t[..1] == s[1..2] && t[1..5] == s[2..6] && t[5..6] == s[6..7] && t[6..38] == s[7..39]
  {
  }

  lemma CertHeadParsing(s: Bytes)
    ensures CertHead().dec(s) == CertHeadAt(s)
  {
    var one, rest := (n: nat) => n == 1, Pair(Int(1), Pair(Int(4), Pair(Int(1), Fixed(32))));
    PairParsing(Only(Int(1), one), rest, s);
    OnlyParsing(one, s);
    if |s| >= 1 {
      var t := s[1..];
      CertRestParsing(t);
      if |s| >= 39 {
        Shifted(s);
        assert rest.dec(t) == Done((FromBigEndian(s[1..2]), (FromBigEndian(s[2..6]), (FromBigEndian(s[6..7]), s[7..39]))), 38);
      } else {
        assert rest.dec(t) == Truncated;
      }
    }
  }

  /** The fields of a certificate before its extensions; `r` is 39, or negative. */
  method ParseCertHead(input: Bytes) returns (r: int, ty: nat, exp: nat, keyType: nat, key: Bytes)
    ensures Reports(CertHeadAt(input), r, (1, (ty, (exp, (keyType, key)))))
  {
    var remaining := |input|;
    ty, exp, keyType, key := 0, 0, 0, [];
    if remaining < 1 { r := -2; return; }
    var version := GetInt(input, 0, 1);
    if version != 1 { r := -1; return; }
    if remaining - 1 < 1 { r := -2; return; }
    ty := GetInt(input, 1, 1);
    assert ty == FromBigEndian(input[1..2]);
    if remaining - 2 < 4 { r := -2; return; }
    exp := GetInt(input, 2, 4);
    assert exp == FromBigEndian(input[2..6]);
    if remaining - 6 < 1 { r := -2; return; }
    keyType := GetInt(input, 6, 1);
    assert keyType == FromBigEndian(input[6..7]);
    if remaining - 7 < 32 { r := -2; return; }
    key := input[7..39];
    r := 39;
    assert CertHeadAt(input) == Done((1, (ty, (exp, (keyType, key)))), 39);
  }

  /** n_extensions, ext and signature. */
  method ParseCertTail(input: Bytes) returns (r: int, n: nat, es: seq<Extension>, sig: Bytes)
    ensures Reports(CertTail().dec(input), r, ((n, es), sig))
  {
    PairParsing(Counted(1, CertExtension()), Fixed(64), input);
    CountedParsing(1, CertExtension(), input);
    n, es, sig := 0, [], [];
    if |input| < 1 { r := -2; return; }
    n := GetInt(input, 0, 1);
    r, es := ParseExtensions(input[1..], n);
    if r < 0 { return; }
    var at := 1 + r;
    assert input[1..][r..] == input[at..];
    if |input| - at < 64 { r := -2; return; }
    sig := input[at..][..64];
    r := at + 64;
  }

  lemma CertParsing(s: Bytes)
    ensures Dec(Ed25519Cert(), s) == match CertHeadAt(s)
      case Done(h, n) =>
        (match CertTail().dec(s[n..])
         case Done(t, m) => Done(ToCert((h, t)), n + m)
         case Invalid => Invalid
         case Truncated => Truncated)
      case Invalid => Invalid
      case Truncated => Truncated
  {
    MapParsing(Pair(CertHead(), CertTail()), ToCert, FromCert, s);
    PairParsing(CertHead(), CertTail(), s);
    CertHeadParsing(s);
  }

  /** ed25519_cert_parse_into */
  method ParseCert(input: Bytes) returns (r: int, obj: Cert)
    ensures Reports(Dec(Ed25519Cert(), input), r, obj)
  {
    CertParsing(input);
    var ty, exp, keyType, key;
    r, ty, exp, keyType, key := ParseCertHead(input);
    obj := Cert(1, ty, exp, keyType, key, 0, [], []);
    if r < 0 { return; }
    var k, n, es, sig := ParseCertTail(input[r..]);
    if k < 0 { return k, obj; }
    obj := Cert(1, ty, exp, keyType, key, n, es, sig);
    r := r + k;
  }

  // ----- encoded_len -----

  /** link_specifier_encoded_len */
  method SpecEncodedLen(v: LinkSpec) returns (n: nat)
    requires SpecTyped(v)
    ensures n == |Enc(LinkSpecifier(), v)|
  {
    SpecEncoding(v);
    n := 1 + 1;
    match v
    case Ipv4(_, _) => n := n + 4 + 2;
    case Ipv6(_, _) => n := n + 16 + 2;
    case LegacyId(_) => n := n + 20;
    case Ed25519Id(_) => n := n + 32;
    case Unrecognized(_, b) => n := n + |b|;
  }

  /** The loop over the specifiers. */
  method SpecsEncodedLen(ls: seq<LinkSpec>) returns (n: nat)
    requires SpecsTyped(ls)
    ensures n == |EncodeAll(LinkSpecifier(), ls)|
  {
    ghost var c := LinkSpecifier();
    n := 0;
    var idx := 0;
    assert ls[..0] == [];
    while idx < |ls|
      invariant 0 <= idx <= |ls| && n == |EncodeAll(c, ls[..idx])|
    {
      EncodeSnoc(c, ls, idx);
      var k := SpecEncodedLen(ls[idx]);
      n, idx := n + k, idx + 1;
    }
    assert ls[..idx] == ls;
  }

  lemma Create2Length(v: Create2)
    ensures |Enc(Create2Body(), v)| == 4 + |v.handshakeData|
  {
    Create2Encoding(v);
    Cat3(BigEndian(2, v.handshakeType), BigEndian(2, v.handshakeLen), v.handshakeData);
  }

  lemma Extend2Length(v: Extend2)
    requires v.nSpec < 256 && Create2Typed(v.create2)
    ensures |Enc(Extend2Body(), v)| == 1 + |EncodeAll(LinkSpecifier(), v.ls)| + 4 + |v.create2.handshakeData|
    ensures Ok(Extend2Body(), v) ==> |v.ls| == v.nSpec && |v.create2.handshakeData| == v.create2.handshakeLen
  {
    Extend2Encoding(v);
    Create2Encoding(v.create2);
    Create2Length(v.create2);
    CountedEncoding(1, LinkSpecifier(), v.nSpec, v.ls);
  }

  /** extend2_cell_body_encoded_len: the room that extend2_cell_body_encode needs, and -1 when the check fails. */
  method Extend2EncodedLen(v: Extend2) returns (n: int)
    requires SpecsTyped(v.ls) && Create2Typed(v.create2) && v.nSpec < 256
    ensures n == -1 <==> |v.ls| != v.nSpec || |v.create2.handshakeData| != v.create2.handshakeLen
    ensures n != -1 ==> n == |Enc(Extend2Body(), v)|
    ensures Ok(Extend2Body(), v) ==> n != -1
  {
    Extend2Length(v);
    if |v.ls| != v.nSpec || |v.create2.handshakeData| != v.create2.handshakeLen { return -1; }
    var k := SpecsEncodedLen(v.ls);
    n := 1 + k;
    n := n + (2 + 2 + |v.create2.handshakeData|);
  }

  /** The loop over the extensions. */
  method ExtensionsEncodedLen(es: seq<Extension>) returns (n: nat)
    requires ExtsTyped(es)
    ensures n == |EncodeAll(CertExtension(), es)|
  {
    ghost var c := CertExtension();
    n := 0;
    var idx := 0;
    assert es[..0] == [];
    while idx < |es|
      invariant 0 <= idx <= |es| && n == |EncodeAll(c, es[..idx])|
    {
      EncodeSnoc(c, es, idx);
      var k := ExtensionEncodedLen(es[idx]);
      n, idx := n + k, idx + 1;
    }
    assert es[..idx] == es;
  }

  /** ed25519_cert_extension_encoded_len */
  method ExtensionEncodedLen(v: Extension) returns (n: nat)
    requires ExtTyped(v)
    ensures n == |Enc(CertExtension(), v)|
  {
    ExtEncoding(v);
    n := 2 + 1 + 1;
    if v.extType == CERTEXT_SIGNED_WITH_KEY {
      n := n + 32;
    } else {
      n := n + |v.un|;
    }
  }

  lemma CertLength(v: Cert)
    requires CertTyped(v)
    ensures |Enc(Ed25519Cert(), v)| == 40 + |EncodeAll(CertExtension(), v.ext)| + 64
    ensures Ok(Ed25519Cert(), v) ==> v.version == 1 && |v.ext| == v.nExtensions
  {
    CertEncoding(v);
    Cat6(BigEndian(1, v.version), BigEndian(1, v.certType), BigEndian(4, v.expField), BigEndian(1, v.keyType), v.certifiedKey, BigEndian(1, v.nExtensions));
  }

  /** ed25519_cert_encoded_len */
  method CertEncodedLen(v: Cert) returns (n: int)
    requires CertTyped(v)
    ensures n == -1 <==> v.version != 1 || |v.ext| != v.nExtensions
    ensures n != -1 ==> n == |Enc(Ed25519Cert(), v)|
    ensures Ok(Ed25519Cert(), v) ==> n != -1
  {
    CertLength(v);
    if v.version != 1 || |v.ext| != v.nExtensions { return -1; }
    n := 1 + 1 + 4 + 1 + 32 + 1;
    var k := ExtensionsEncodedLen(v.ext);
    n := n + k;
    n := n + 64;
  }
}
