/**
  Parsing a message and encoding the result, end to end: for each format of trunnel its
  parser and its encoder one after the other, and what the laws of the formats say about
  the messages themselves.
 */
module RoundTrips {

  import opened Wire
  import opened Cursor
  import opened CertFormats
  import opened LinkFormats
  import opened SocksFormats
  import CertCodecs
  import HandshakeCodecs
  import NetinfoCodecs
  import SocksCodecs

  /**
    The outcome of a parser, which used `n` bytes of `s` if that is not negative, and of the encoder after it: the
    encoder's result is `n` again if the buffer has that room, and then the buffer starts with those bytes of `s`.
   */
  ghost predicate Reproduces(s: Bytes, out: Bytes, n: int, r: int) {
    (if n < 0 then r == n else n <= |s| && r == (if n <= |out| then n else -2) && (r >= 0 ==> out[..n] == s[..n])) == true
  }

  /** In a faithful format the encoder undoes the parser. */
  lemma Reproduced<T>(c: Codec<T>, s: Bytes, v: T, n: int, before: Bytes, out: Bytes, r: int)
    requires Sane(c, s) && Exact(c, s) && 0 <= n && Dec(c, s) == Done(v, n)
    requires Encodes(Ok(c, v), Enc(c, v), before, out, 0, |out|, r)
    ensures Reproduces(s, out, n, r)
  {
    if r >= 0 {
      EncodesText(true, Enc(c, v), before, out, 0, |out|, r);
      assert before[..0] + Enc(c, v) == Enc(c, v);
    }
  }

  lemma Parsed<T>(c: Codec<T>, s: Bytes, v: T, n: int)
    requires Reports(Dec(c, s), n, v) && 0 <= n && Sane(c, s)
    ensures Dec(c, s) == Done(v, n) && n <= |s| && Ok(c, v)
  {
  }

  /** And the parser undoes the encoder, whatever else is in the buffer after the message. */
  lemma ReadsBack<T(!new)>(c: Codec<T>, v: T, before: Bytes, out: Bytes, base: nat, avail: int, r: int)
    requires Delimited(c) && Encodes(Ok(c, v), Enc(c, v), before, out, base, avail, r) && r >= 0
    ensures base <= |out| && Dec(c, out[base..]) == Done(v, r)
  {
    var e := Enc(c, v);
    EncodesText(Ok(c, v), e, before, out, base, avail, r);
    assert RoundTrip(c, v, out[base + r..]);
    assert out[base..base + r] == out[..base + r][base..] == e;
    assert out[base..] == e + out[base + r..];
  }

  // ----- link specifiers, CREATE2 and EXTEND2 -----

  lemma SpecParsed(v: LinkSpec)
    requires Ok(LinkSpecifier(), v)
    ensures CertCodecs.SpecTyped(v)
  {
    TaggedOk(1, 1, SpecBody, SpecType, v);
    assert Limit(1) == 256 by { OneByte(0); }
  }

  method ReencodeLinkSpecifier(input: Bytes, out: array<Byte>) returns (n: int, r: int)
    modifies out
    ensures n >= 0 <==> Dec(LinkSpecifier(), input).Done?
    ensures Reproduces(input, out[..], n, r)
  {
    var obj;
    n, obj := CertCodecs.ParseLinkSpecifier(input);
    if n < 0 { return n, n; }
    ghost var c, before := LinkSpecifier(), out[..];
    LinkSpecifierLawful();
    assert Sane(c, input) && Exact(c, input);
    Parsed(c, input, obj, n);
    SpecParsed(obj);
    r := CertCodecs.EncodeLinkSpecifier(out, 0, out.Length, obj, SpecLen(obj));
    Reproduced(c, input, obj, n, before, out[..], r);
  }

  /** ls_len, as parsing leaves it. */
  function SpecLen(v: LinkSpec): Byte { |CertCodecs.SpecArm(v)| % 256 }

  function SpecLens(ls: seq<LinkSpec>): (lens: seq<Byte>)
    ensures |lens| == |ls|
  {
    seq(|ls|, i requires 0 <= i < |ls| => SpecLen(ls[i]))
  }

  lemma SpecListParsed(n: nat, ls: seq<LinkSpec>)
    requires Ok(SpecList(), (n, ls))
    ensures n < 256 && CertCodecs.SpecsTyped(ls)
  {
    OneByte(0);
    CountedEncoding(1, LinkSpecifier(), n, ls);
    RepOkEach(LinkSpecifier(), ls);
    forall i | 0 <= i < |ls| ensures CertCodecs.SpecTyped(ls[i]) {
      SpecParsed(ls[i]);
    }
  }

  method ReencodeSpecList(input: Bytes, out: array<Byte>) returns (n: int, r: int)
    modifies out
    ensures n >= 0 <==> Dec(SpecList(), input).Done?
    ensures Reproduces(input, out[..], n, r)
  {
    var count, ls;
    n, count, ls := CertCodecs.ParseSpecList(input);
    if n < 0 { return n, n; }
    ghost var c, before, v := SpecList(), out[..], (count, ls);
    Extend2Lawful();
    assert Sane(c, input) && Exact(c, input);
    Parsed(c, input, v, n);
    SpecListParsed(count, ls);
    r := CertCodecs.EncodeSpecList(out, 0, out.Length, count, ls, SpecLens(ls));
    Reproduced(c, input, v, n, before, out[..], r);
  }

  lemma Create2Parsed(v: Create2)
    requires Ok(Create2Body(), v)
    ensures CertCodecs.Create2Typed(v)
  {
    MapEncoding(Create2Fields(), ToCreate2, FromCreate2, v);
    PairEncoding(Int(2), Blob(2), v.handshakeType, (v.handshakeLen, v.handshakeData));
    BlobEncoding(2, v.handshakeLen, v.handshakeData);
    assert Int(2).ok(v.handshakeType) == (v.handshakeType < Limit(2));
  }

  method ReencodeCreate2(input: Bytes, out: array<Byte>) returns (n: int, r: int)
    modifies out
    ensures n >= 0 <==> Dec(Create2Body(), input).Done?
    ensures Reproduces(input, out[..], n, r)
  {
    var obj;
    n, obj := CertCodecs.ParseCreate2(input);
    if n < 0 { return n, n; }
    ghost var c, before := Create2Body(), out[..];
    Create2Lawful();
    assert Sane(c, input) && Exact(c, input);
    Parsed(c, input, obj, n);
    Create2Parsed(obj);
    r := CertCodecs.EncodeCreate2(out, 0, out.Length, obj);
    Reproduced(c, input, obj, n, before, out[..], r);
  }

  lemma Extend2Parsed(v: Extend2)
    requires Ok(Extend2Body(), v)
    ensures CertCodecs.SpecsTyped(v.ls) && v.nSpec < 256 && CertCodecs.Create2Typed(v.create2)
  {
    CertCodecs.Extend2Encoding(v);
    SpecListParsed(v.nSpec, v.ls);
    Create2Parsed(v.create2);
  }

  method ReencodeExtend2(input: Bytes, out: array<Byte>) returns (n: int, r: int)
    modifies out
    ensures n >= 0 <==> Dec(Extend2Body(), input).Done?
    ensures Reproduces(input, out[..], n, r)
  {
    var obj;
    n, obj := CertCodecs.ParseExtend2(input);
    if n < 0 { return n, n; }
    ghost var c, before := Extend2Body(), out[..];
    Extend2Lawful();
    assert Sane(c, input) && Exact(c, input);
    Parsed(c, input, obj, n);
    Extend2Parsed(obj);
    r := CertCodecs.EncodeExtend2(out, 0, out.Length, obj, SpecLens(obj.ls));
    Reproduced(c, input, obj, n, before, out[..], r);
  }

  // ----- certificates -----

  lemma ExtParsed(v: Extension)
    requires Ok(CertExtension(), v)
    ensures CertCodecs.ExtTyped(v)
  {
    OneByte(0);
    var h := (|v.un|, (v.extType, v.flags));
    MapEncoding(ExtFields(), ToExt, FromExt, v);
    PairEncoding(Int(1), Int(1), v.extType, v.flags);
    PairEncoding(Int(2), Pair(Int(1), Int(1)), |v.un|, (v.extType, v.flags));
    var w := Within(ExtArm(v.extType), |v.un|);
    assert ExtFields().ok((h, v.un)) == (ExtHead().ok(h) && w.ok(v.un));
    assert Int(1).ok(v.extType) == (v.extType < Limit(1)) && Int(1).ok(v.flags) == (v.flags < Limit(1));
  }

  method ReencodeExtension(input: Bytes, out: array<Byte>) returns (n: int, r: int)
    modifies out
    ensures n >= 0 <==> Dec(CertExtension(), input).Done?
    ensures Reproduces(input, out[..], n, r)
  {
    var obj;
    n, obj := CertCodecs.ParseExtension(input);
    if n < 0 { return n, n; }
    ghost var c, before := CertExtension(), out[..];
    ExtensionLawful();
    assert Sane(c, input) && Exact(c, input);
    Parsed(c, input, obj, n);
    ExtParsed(obj);
    r := CertCodecs.EncodeExtension(out, 0, out.Length, obj, |obj.un|);
    Reproduced(c, input, obj, n, before, out[..], r);
  }

  lemma CertParsed(v: Cert)
    requires Ok(Ed25519Cert(), v)
    ensures CertCodecs.CertTyped(v)
  {
    var h := (v.version, (v.certType, (v.expField, (v.keyType, v.certifiedKey))));
    var t := ((v.nExtensions, v.ext), v.signature);
    CertCodecs.CertParts(v, h, t);
    CertHeadParsed(v.version, v.certType, v.expField, v.keyType, v.certifiedKey);
    CertTailParsed(v.nExtensions, v.ext, v.signature);
  }

  lemma CertHeadParsed(version: nat, ty: nat, exp: nat, keyType: nat, key: Bytes)
    requires CertHead().ok((version, (ty, (exp, (keyType, key)))))
    ensures version == 1 && ty < 256 && exp < Limit(4) && keyType < 256 && |key| == 32
  {
    OneByte(0);
    var one := (n: nat) => n == 1;
    OnlyEncoding(one, 1, version);
    PairEncoding(Only(Int(1), one), Pair(Int(1), Pair(Int(4), Pair(Int(1), Fixed(32)))), version, (ty, (exp, (keyType, key))));
    PairEncoding(Int(1), Pair(Int(4), Pair(Int(1), Fixed(32))), ty, (exp, (keyType, key)));
    PairEncoding(Int(4), Pair(Int(1), Fixed(32)), exp, (keyType, key));
    PairEncoding(Int(1), Fixed(32), keyType, key);
    assert Int(1).ok(ty) == (ty < Limit(1)) && Int(1).ok(keyType) == (keyType < Limit(1)) && Int(4).ok(exp) == (exp < Limit(4));
    assert Fixed(32).ok(key) == (|key| == 32);
  }

  lemma CertTailParsed(n: nat, es: seq<Extension>, sig: Bytes)
    requires CertTail().ok(((n, es), sig))
    ensures n < 256 && CertCodecs.ExtsTyped(es) && |sig| == 64
  {
    OneByte(0);
    PairEncoding(Counted(1, CertExtension()), Fixed(64), (n, es), sig);
    CountedEncoding(1, CertExtension(), n, es);
    assert Fixed(64).ok(sig) == (|sig| == 64);
    RepOkEach(CertExtension(), es);
    forall i | 0 <= i < |es| ensures CertCodecs.ExtTyped(es[i]) {
      ExtParsed(es[i]);
    }
  }

  /** ext_length of each extension, as parsing leaves it. */
  function ExtLens(es: seq<Extension>): (lens: seq<nat>)
    ensures |lens| == |es|
  {
    seq(|es|, i requires 0 <= i < |es| => |es[i].un|)
  }

  method ReencodeCert(input: Bytes, out: array<Byte>) returns (n: int, r: int)
    modifies out
    ensures n >= 0 <==> Dec(Ed25519Cert(), input).Done?
    ensures Reproduces(input, out[..], n, r)
  {
    var obj;
    n, obj := CertCodecs.ParseCert(input);
    if n < 0 { return n, n; }
    ghost var c, before := Ed25519Cert(), out[..];
    CertLawful();
    assert Sane(c, input) && Exact(c, input);
    Parsed(c, input, obj, n);
    CertParsed(obj);
    r := CertCodecs.EncodeCert(out, 0, out.Length, obj, ExtLens(obj.ext));
    Reproduced(c, input, obj, n, before, out[..], r);
  }

  // ----- the link handshake -----

  lemma ChallengeParsed(ch: Bytes, n: nat, ms: seq<nat>)
    requires Ok(AuthChallenge(), (ch, (n, ms)))
    ensures |ch| == 32 && n < Limit(2) && HandshakeCodecs.MethodsTyped(ms)
  {
    PairEncoding(Fixed(32), Counted(2, Int(2)), ch, (n, ms));
    CountedEncoding(2, Int(2), n, ms);
    RepOkEach(Int(2), ms);
    assert Fixed(32).ok(ch) == (|ch| == 32);
    forall i | 0 <= i < |ms| ensures ms[i] < Limit(2) {
      assert Int(2).ok(ms[i]) == (ms[i] < Limit(2));
    }
  }

  method ReencodeChallenge(input: Bytes, out: array<Byte>) returns (n: int, r: int)
    modifies out
    ensures n >= 0 <==> Dec(AuthChallenge(), input).Done?
    ensures Reproduces(input, out[..], n, r)
  {
    var ch, count, ms;
    n, ch, count, ms := HandshakeCodecs.ParseChallenge(input);
    if n < 0 { return n, n; }
    ghost var c, before, v := AuthChallenge(), out[..], (ch, (count, ms));
    AuthChallengeLawful();
    assert Sane(c, input) && Exact(c, input);
    Parsed(c, input, v, n);
    ChallengeParsed(ch, count, ms);
    r := HandshakeCodecs.EncodeChallenge(out, 0, out.Length, ch, count, ms);
    Reproduced(c, input, v, n, before, out[..], r);
  }

  lemma CellCertParsed(v: CellCert)
    requires Ok(CertsCellCert(), v)
    ensures HandshakeCodecs.CertOfType(v)
  {
    OneByte(0);
    MapEncoding(Pair(Int(1), Blob(2)), ToCellCert, FromCellCert, v);
    PairEncoding(Int(1), Blob(2), v.certType, (v.certLen, v.body));
    BlobEncoding(2, v.certLen, v.body);
    assert Int(1).ok(v.certType) == (v.certType < Limit(1));
  }

  lemma CertsCellParsed(n: nat, vs: seq<CellCert>)
    requires Ok(CertsCell(), (n, vs))
    ensures n < 256 && HandshakeCodecs.CertsOfType(vs)
  {
    OneByte(0);
    CountedEncoding(1, CertsCellCert(), n, vs);
    RepOkEach(CertsCellCert(), vs);
    forall i | 0 <= i < |vs| ensures HandshakeCodecs.CertOfType(vs[i]) {
      CellCertParsed(vs[i]);
    }
  }

  method ReencodeCertsCell(input: Bytes, out: array<Byte>) returns (n: int, r: int)
    modifies out
    ensures n >= 0 <==> Dec(CertsCell(), input).Done?
    ensures Reproduces(input, out[..], n, r)
  {
    var count, vs;
    n, count, vs := HandshakeCodecs.ParseCertsCell(input);
    if n < 0 { return n, n; }
    ghost var c, before, v := CertsCell(), out[..], (count, vs);
    CertsCellLawful();
    assert Sane(c, input) && Exact(c, input);
    Parsed(c, input, v, n);
    CertsCellParsed(count, vs);
    r := HandshakeCodecs.EncodeCertsCell(out, 0, out.Length, count, vs);
    Reproduced(c, input, v, n, before, out[..], r);
  }

  lemma Auth1Parsed(isEd: nat, fields: seq<Bytes>, sig: Bytes)
    requires Ok(Auth1(isEd), (fields, sig))
    ensures isEd <= 1 && Widths(Auth1Widths(isEd), fields)
  {
    PairEncoding(Fields(Auth1Widths(isEd)), Rest(), fields, sig);
    PairEncoding(Fields([8, 32, 32]), Never<Bytes>(), fields, sig);
  }

  /** auth1 takes all of its input. */
  method ReencodeAuth1(input: Bytes, isEd: nat, out: array<Byte>) returns (n: int, r: int)
    modifies out
    ensures n >= 0 <==> Dec(Auth1(isEd), input).Done?
    ensures Reproduces(input, out[..], n, r)
  {
    var fields, sig;
    n, fields, sig := HandshakeCodecs.ParseAuth1(input, isEd);
    if n < 0 { return n, n; }
    ghost var c, before, v := Auth1(isEd), out[..], (fields, sig);
    Auth1Lawful(isEd);
    assert Sane(c, input) && Exact(c, input);
    Parsed(c, input, v, n);
    Auth1Parsed(isEd, fields, sig);
    r := HandshakeCodecs.EncodeAuth1(out, 0, out.Length, fields, sig, isEd);
    Reproduced(c, input, v, n, before, out[..], r);
  }

  // ----- pwbox -----

  lemma PwboxParsed(c0: nat, c1: nat, v: PwboxBody)
    requires Ok(Pwbox(), (c0, (c1, v)))
    ensures HandshakeCodecs.PwboxTyped(c0, c1, v)
  {
    var p, q := (n: nat) => n == PWBOX0_CONST0, (n: nat) => n == PWBOX0_CONST1;
    OnlyEncoding(p, 4, c0);
    OnlyEncoding(q, 4, c1);
    PairEncoding(Only(Int(4), p), Pair(Only(Int(4), q), PwboxTail()), c0, (c1, v));
    PairEncoding(Only(Int(4), q), PwboxTail(), c1, v);
    PwboxTailParsed(v);
  }

  lemma PwboxTailParsed(v: PwboxBody)
    requires PwboxTail().ok(v)
    ensures v.headerLen < 256 && |v.iv| == 16 && |v.hmac| == 32
  {
    OneByte(0);
    MapEncoding(Pair(Blob(1), Pair(Fixed(16), AllBut(32))), ToPwboxBody, FromPwboxBody, v);
    PairEncoding(Blob(1), Pair(Fixed(16), AllBut(32)), (v.headerLen, v.skeyHeader), (v.iv, (v.data, v.hmac)));
    PairEncoding(Fixed(16), AllBut(32), v.iv, (v.data, v.hmac));
    BlobEncoding(1, v.headerLen, v.skeyHeader);
    assert Fixed(16).ok(v.iv) == (|v.iv| == 16) && AllBut(32).ok((v.data, v.hmac)) == (|v.hmac| == 32);
  }

  /** pwbox_encoded takes all of its input. */
  method ReencodePwbox(input: Bytes, out: array<Byte>) returns (n: int, r: int)
    modifies out
    ensures n >= 0 <==> Dec(Pwbox(), input).Done?
    ensures Reproduces(input, out[..], n, r)
  {
    var c0, c1, obj;
    n, c0, c1, obj := HandshakeCodecs.ParsePwbox(input);
    if n < 0 { return n, n; }
    ghost var c, before, v := Pwbox(), out[..], (c0, (c1, obj));
    PwboxLawful();
    assert Sane(c, input) && Exact(c, input);
    Parsed(c, input, v, n);
    PwboxParsed(c0, c1, obj);
    r := HandshakeCodecs.EncodePwbox(out, 0, out.Length, c0, c1, obj);
    Reproduced(c, input, v, n, before, out[..], r);
  }

  // ----- socks5.c -----

  lemma Request4Parsed(v: Request4)
    requires Ok(Socks4Request(), v)
    ensures SocksCodecs.Typed4(v) && SocksCodecs.Strings4(v)
  {
    var h := (4, (v.command, (v.port, (v.addr, v.username))));
    MapEncoding(Fields4(), To4, From4, v);
    var c := Host4(v.addr);
    assert Fields4().ok((h, v.hostname)) == (Head4().ok(h) && c.ok(v.hostname));
    Head4Parsed(v.command, v.port, v.addr, v.username);
    if !Names(v.addr) { assert c == Fixed(0) && Fixed(0).ok(v.hostname) == (|v.hostname| == 0); }
  }

  lemma Head4Parsed(command: nat, port: nat, addr: nat, username: Bytes)
    requires Head4().ok((4, (command, (port, (addr, username)))))
    ensures Command4(command) && command < 256 && port < Limit(2) && addr < Limit(4) && NulString().ok(username)
  {
    OneByte(0);
    var four := (n: nat) => n == 4;
    OnlyEncoding(Command4, 1, command);
    var p3 := Pair(Int(4), NulString());
    var p2 := Pair(Int(2), p3);
    var p1 := Pair(Only(Int(1), Command4), p2);
    PairEncoding(Only(Int(1), four), p1, 4, (command, (port, (addr, username))));
    PairEncoding(Only(Int(1), Command4), p2, command, (port, (addr, username)));
    PairEncoding(Int(2), p3, port, (addr, username));
    PairEncoding(Int(4), NulString(), addr, username);
    assert Int(2).ok(port) == (port < Limit(2)) && Int(4).ok(addr) == (addr < Limit(4));
  }

  method Reencode4(input: Bytes, out: array<Byte>) returns (n: int, r: int)
    modifies out
    ensures n >= 0 <==> Dec(Socks4Request(), input).Done?
    ensures Reproduces(input, out[..], n, r)
  {
    var obj;
    n, obj := SocksCodecs.Parse4(input);
    if n < 0 { return n, n; }
    ghost var c, before := Socks4Request(), out[..];
    Socks4Lawful();
    assert Sane(c, input) && Exact(c, input);
    Parsed(c, input, obj, n);
    Request4Parsed(obj);
    r := SocksCodecs.Encode4(out, 0, out.Length, 4, obj);
    Reproduced(c, input, obj, n, before, out[..], r);
  }

  lemma VersionParsed(n: nat, methods: Bytes)
    requires Ok(ClientVersion(), (5, (n, methods)))
    ensures n < 256
  {
    OneByte(0);
    PairEncoding(Only(Int(1), (n: nat) => n == 5), Blob(1), 5, (n, methods));
    BlobEncoding(1, n, methods);
  }

  method ReencodeVersion(input: Bytes, out: array<Byte>) returns (n: int, r: int)
    modifies out
    ensures n >= 0 <==> Dec(ClientVersion(), input).Done?
    ensures Reproduces(input, out[..], n, r)
  {
    var count, methods;
    n, count, methods := SocksCodecs.ParseVersion(input);
    if n < 0 { return n, n; }
    ghost var c, before, v := ClientVersion(), out[..], (5, (count, methods));
    ClientVersionLawful();
    assert Sane(c, input) && Exact(c, input);
    Parsed(c, input, v, n);
    VersionParsed(count, methods);
    r := SocksCodecs.EncodeVersion(out, 0, out.Length, 5, count, methods);
    Reproduced(c, input, v, n, before, out[..], r);
  }

  lemma UserPassParsed(n: nat, user: Bytes, m: nat, pass: Bytes)
    requires Ok(UserPass(), (1, ((n, user), (m, pass))))
    ensures n < 256 && m < 256
  {
    OneByte(0);
    PairEncoding(Only(Int(1), (n: nat) => n == 1), Pair(Blob(1), Blob(1)), 1, ((n, user), (m, pass)));
    PairEncoding(Blob(1), Blob(1), (n, user), (m, pass));
    BlobEncoding(1, n, user);
    BlobEncoding(1, m, pass);
  }

  method ReencodeUserPass(input: Bytes, out: array<Byte>) returns (n: int, r: int)
    modifies out
    ensures n >= 0 <==> Dec(UserPass(), input).Done?
    ensures Reproduces(input, out[..], n, r)
  {
    var k, user, m, pass;
    n, k, user, m, pass := SocksCodecs.ParseUserPass(input);
    if n < 0 { return n, n; }
    ghost var c, before, v := UserPass(), out[..], (1, ((k, user), (m, pass)));
    UserPassLawful();
    assert Sane(c, input) && Exact(c, input);
    Parsed(c, input, v, n);
    UserPassParsed(k, user, m, pass);
    r := SocksCodecs.EncodeUserPass(out, 0, out.Length, 1, k, user, m, pass);
    Reproduced(c, input, v, n, before, out[..], r);
  }

  lemma AddressParsed(v: Address)
    requires Ok(TypedAddress(), v)
    ensures SocksCodecs.AddressTyped(v)
  {
    OneByte(0);
    var d := Dep(Int(1), (ty: nat) => AddressArm(ty));
    MapEncoding(d, (x: (nat, Address)) => x.1, (x: Address) => (AType(x), x), v);
    assert d.ok((AType(v), v)) == (Int(1).ok(AType(v)) && AddressArm(AType(v)).ok(v));
    match v
    case Ip4(a) => assert Int(4).ok(a) == (a < Limit(4));
    case Ip6(b) => assert Fixed(16).ok(b) == (|b| == 16);
    case Domain(n, b) => BlobEncoding(1, n, b);
  }

  lemma MessageParsed(code: nat -> bool, v: Message)
    requires Ok(MessageOf(code), v)
    ensures SocksCodecs.MessageTyped(v)
  {
    OneByte(0);
    var five, zero := (n: nat) => n == 5, (n: nat) => n == 0;
    OnlyEncoding(five, 1, v.version);
    OnlyEncoding(code, 1, v.code);
    OnlyEncoding(zero, 1, v.reserved);
    var p3 := Pair(TypedAddress(), Int(2));
    var p2 := Pair(Only(Int(1), zero), p3);
    var p1 := Pair(Only(Int(1), code), p2);
    MapEncoding(MessageFields(code), ToMessage, FromMessage, v);
    PairEncoding(Only(Int(1), five), p1, v.version, (v.code, (v.reserved, (v.addr, v.port))));
    PairEncoding(Only(Int(1), code), p2, v.code, (v.reserved, (v.addr, v.port)));
    PairEncoding(Only(Int(1), zero), p3, v.reserved, (v.addr, v.port));
    PairEncoding(TypedAddress(), Int(2), v.addr, v.port);
    assert Int(2).ok(v.port) == (v.port < Limit(2));
    AddressParsed(v.addr);
  }

  method ReencodeRequest(input: Bytes, out: array<Byte>) returns (n: int, r: int)
    modifies out
    ensures n >= 0 <==> Dec(ClientRequest(), input).Done?
    ensures Reproduces(input, out[..], n, r)
  {
    var obj;
    n, obj := SocksCodecs.ParseRequest(input);
    if n < 0 { return n, n; }
    ghost var c, before := ClientRequest(), out[..];
    MessageLawful(Command5);
    assert Sane(c, input) && Exact(c, input);
    Parsed(c, input, obj, n);
    MessageParsed(Command5, obj);
    r := SocksCodecs.EncodeRequest(out, 0, out.Length, AType(obj.addr), obj);
    Reproduced(c, input, obj, n, before, out[..], r);
  }

  method ReencodeReply(input: Bytes, out: array<Byte>) returns (n: int, r: int)
    modifies out
    ensures n >= 0 <==> Dec(ServerReply(), input).Done?
    ensures Reproduces(input, out[..], n, r)
  {
    var obj;
    n, obj := SocksCodecs.ParseReply(input);
    if n < 0 { return n, n; }
    ghost var c, before := ServerReply(), out[..];
    MessageLawful(AnyCode);
    assert Sane(c, input) && Exact(c, input);
    Parsed(c, input, obj, n);
    MessageParsed(AnyCode, obj);
    r := SocksCodecs.EncodeReply(out, 0, out.Length, AType(obj.addr), obj);
    Reproduced(c, input, obj, n, before, out[..], r);
  }

  // ----- the formats that forget -----

  /**
    The same for a format that does not keep every byte: the encoder's result is never longer than what was parsed, it
    parses to the same object, and it is what was parsed if and only if `exact`.
   */
  ghost predicate Normalises<T>(c: Codec<T>, s: Bytes, out: Bytes, n: int, r: int, exact: bool) {
    (if n < 0 then r == n else
       && n <= |s| && Dec(c, s).Done? && (n <= |out| ==> 0 <= r <= n)
       && (0 <= r <= |out| ==> Dec(c, out[..r]) == Done(Dec(c, s).value, r) && (out[..r] == s[..n] <==> exact))) == true
  }

  lemma Normalised<T(!new)>(c: Codec<T>, s: Bytes, v: T, n: int, before: Bytes, out: Bytes, r: int, exact: bool)
    requires Delimited(c) && 0 <= n <= |s| && Dec(c, s) == Done(v, n)
    requires |Enc(c, v)| <= n && (Enc(c, v) == s[..n] <==> exact)
    requires Encodes(Ok(c, v), Enc(c, v), before, out, 0, |out|, r)
    ensures Normalises(c, s, out, n, r, exact)
  {
    assert Sane(c, s);
    NormalIdempotent(c, s, []);
    var e := Enc(c, v);
    assert e + [] == e;
    if r >= 0 {
      EncodesText(true, e, before, out, 0, |out|, r);
      assert before[..0] + e == e;
    }
  }

  method ReencodeNetinfo(input: Bytes, out: array<Byte>) returns (n: int, r: int)
    modifies out
    ensures n >= 0 <==> Dec(NetinfoCell(), input).Done?
    ensures Normalises(NetinfoCell(), input, out[..], n, r, !NetinfoCodecs.CellSkips(input))
  {
    var t, other, count, my;
    n, t, other, count, my := NetinfoCodecs.ParseNetinfo(input);
    if n < 0 { return n, n; }
    ghost var c, before, v := NetinfoCell(), out[..], (t, (other, (count, my)));
    NetinfoCellLawful();
    assert Sane(c, input);
    Parsed(c, input, v, n);
    NetinfoParsed(t, other, count, my);
    NetinfoCodecs.NetinfoExactIff(input);
    r := NetinfoCodecs.EncodeNetinfo(out, 0, out.Length, t, other, AddrLen(other), count, my, AddrLens(my));
    Normalised(c, input, v, n, before, out[..], r, !NetinfoCodecs.CellSkips(input));
  }

  /** What the length field of an address holds; the encoder overwrites it. */
  function AddrLen(v: NetAddr): Byte { if v.V4? then 4 else if v.V6? then 16 else 0 }

  function AddrLens(vs: seq<NetAddr>): (lens: seq<Byte>)
    ensures |lens| == |vs|
  {
    seq(|vs|, i requires 0 <= i < |vs| => AddrLen(vs[i]))
  }

  lemma AddrParsed(v: NetAddr)
    requires Ok(NetinfoAddr(), v)
    ensures NetinfoCodecs.AddrTyped(v)
  {
    TaggedOk(1, 1, AddrBody, AddrType, v);
    OneByte(0);
  }

  lemma NetinfoParsed(t: nat, other: NetAddr, n: nat, my: seq<NetAddr>)
    requires Ok(NetinfoCell(), (t, (other, (n, my))))
    ensures t < Limit(4) && NetinfoCodecs.AddrTyped(other) && n < 256 && NetinfoCodecs.AddrsTyped(my)
  {
    OneByte(0);
    PairEncoding(Int(4), Pair(NetinfoAddr(), Counted(1, NetinfoAddr())), t, (other, (n, my)));
    PairEncoding(NetinfoAddr(), Counted(1, NetinfoAddr()), other, (n, my));
    CountedEncoding(1, NetinfoAddr(), n, my);
    assert Int(4).ok(t) == (t < Limit(4));
    AddrParsed(other);
    RepOkEach(NetinfoAddr(), my);
    forall i | 0 <= i < |my| ensures NetinfoCodecs.AddrTyped(my[i]) {
      AddrParsed(my[i]);
    }
  }

  method ReencodeSendme(input: Bytes, out: array<Byte>) returns (n: int, r: int)
    modifies out
    ensures n >= 0 <==> Dec(SendmeCell(), input).Done?
    ensures n >= 0 ==> 3 <= |input| && Normalises(SendmeCell(), input, out[..], n, r, Dec(SendmeCell(), input).value.Version1? || FromBigEndian(input[1..3]) == 0)
  {
    var obj;
    n, obj := NetinfoCodecs.ParseSendme(input);
    if n < 0 { return n, n; }
    ghost var c, before := SendmeCell(), out[..];
    SendmeLawful();
    assert Sane(c, input);
    Parsed(c, input, obj, n);
    NetinfoCodecs.SendmeExactIff(input);
    r := NetinfoCodecs.EncodeSendme(out, 0, out.Length, SendmeVersion(obj), obj, 0);
    Normalised(c, input, obj, n, before, out[..], r, obj.Version1? || FromBigEndian(input[1..3]) == 0);
  }

  // ----- what the laws say about the messages -----

  /** A parser of the format calls every proper prefix of a message it accepts truncated. */
  ghost predicate Resumable<T>(c: Codec<T>) {
    forall s, m {:trigger Dec(c, s[..m])} :: Dec(c, s).Done? && 0 <= m < Dec(c, s).used <= |s| ==> Dec(c, s[..m]) == Truncated
  }

  /** No encoding is a proper prefix of another, and equal encodings come from equal objects. */
  ghost predicate PrefixCode<T(!new)>(c: Codec<T>) {
    forall v, w, t {:trigger Enc(c, w), Enc(c, v) + t} :: Ok(c, v) && Ok(c, w) && Enc(c, w) == Enc(c, v) + t ==> v == w && t == []
  }

  lemma DelimitedMessages<T(!new)>(c: Codec<T>)
    requires Delimited(c)
    ensures Resumable(c) && PrefixCode(c)
  {
    forall s, m | Dec(c, s).Done? && 0 <= m < Dec(c, s).used <= |s| ensures Dec(c, s[..m]) == Truncated {
      PrefixTruncated(c, s, m);
    }
    forall v, w, t | Ok(c, v) && Ok(c, w) && Enc(c, w) == Enc(c, v) + t ensures v == w && t == [] {
      PrefixFree(c, v, w, t);
    }
  }

  /** Every message of the protocol but auth1 and pwbox_encoded, which take whatever they are given, says itself where it ends. */
  lemma MessagesDelimited()
    ensures Resumable(SpecList()) && Resumable(Create2Body()) && Resumable(Extend2Body()) && Resumable(Ed25519Cert())
    ensures Resumable(AuthChallenge()) && Resumable(CertsCell()) && Resumable(RsaEdCrosscert())
    ensures Resumable(NetinfoCell()) && Resumable(SendmeCell())
    ensures PrefixCode(SpecList()) && PrefixCode(Create2Body()) && PrefixCode(Extend2Body()) && PrefixCode(Ed25519Cert())
    ensures PrefixCode(AuthChallenge()) && PrefixCode(CertsCell()) && PrefixCode(RsaEdCrosscert())
    ensures PrefixCode(NetinfoCell()) && PrefixCode(SendmeCell())
  {
    Extend2Lawful();
    Create2Lawful();
    CertLawful();
    AuthChallengeLawful();
    CertsCellLawful();
    RsaEdCrosscertLawful();
    NetinfoCellLawful();
    SendmeLawful();
    DelimitedMessages(SpecList());
    DelimitedMessages(Create2Body());
    DelimitedMessages(Extend2Body());
    DelimitedMessages(Ed25519Cert());
    DelimitedMessages(AuthChallenge());
    DelimitedMessages(CertsCell());
    DelimitedMessages(RsaEdCrosscert());
    DelimitedMessages(NetinfoCell());
    DelimitedMessages(SendmeCell());
  }

  /** And so does every SOCKS message. */
  lemma SocksDelimited()
    ensures Resumable(Socks4Request()) && Resumable(ClientVersion()) && Resumable(UserPass())
    ensures Resumable(ClientRequest()) && Resumable(ServerReply())
    ensures PrefixCode(Socks4Request()) && PrefixCode(ClientVersion()) && PrefixCode(UserPass())
    ensures PrefixCode(ClientRequest()) && PrefixCode(ServerReply())
  {
    Socks4Lawful();
    ClientVersionLawful();
    UserPassLawful();
    MessageLawful(Command5);
    MessageLawful(AnyCode);
    DelimitedMessages(Socks4Request());
    DelimitedMessages(ClientVersion());
    DelimitedMessages(UserPass());
    DelimitedMessages(ClientRequest());
    DelimitedMessages(ServerReply());
  }

  /** The bytes of an array of link specifiers, of extensions, of certs or of addresses come from one array only. */
  lemma SpecsSplit(vs: seq<LinkSpec>, ws: seq<LinkSpec>)
    requires RepOk(LinkSpecifier(), vs) && RepOk(LinkSpecifier(), ws) && EncodeAll(LinkSpecifier(), vs) == EncodeAll(LinkSpecifier(), ws)
    ensures vs == ws
  {
    LinkSpecifierLawful();
    forall v | Ok(LinkSpecifier(), v) ensures Enc(LinkSpecifier(), v) != [] {
      SpecParsed(v);
      CertCodecs.SpecEncoding(v);
    }
    ArraySplits(LinkSpecifier(), vs, ws);
  }

  lemma ExtensionsSplit(vs: seq<Extension>, ws: seq<Extension>)
    requires RepOk(CertExtension(), vs) && RepOk(CertExtension(), ws) && EncodeAll(CertExtension(), vs) == EncodeAll(CertExtension(), ws)
    ensures vs == ws
  {
    ExtensionLawful();
    forall v | Ok(CertExtension(), v) ensures Enc(CertExtension(), v) != [] {
      ExtParsed(v);
      CertCodecs.ExtEncoding(v);
    }
    ArraySplits(CertExtension(), vs, ws);
  }

  lemma CertsSplit(vs: seq<CellCert>, ws: seq<CellCert>)
    requires RepOk(CertsCellCert(), vs) && RepOk(CertsCellCert(), ws) && EncodeAll(CertsCellCert(), vs) == EncodeAll(CertsCellCert(), ws)
    ensures vs == ws
  {
    CertsCellLawful();
    forall v | Ok(CertsCellCert(), v) ensures Enc(CertsCellCert(), v) != [] {
      CellCertParsed(v);
      HandshakeCodecs.CellCertEncoding(v);
      Cat3(BigEndian(1, v.certType), BigEndian(2, v.certLen), v.body);
    }
    ArraySplits(CertsCellCert(), vs, ws);
  }

  lemma AddrsSplit(vs: seq<NetAddr>, ws: seq<NetAddr>)
    requires RepOk(NetinfoAddr(), vs) && RepOk(NetinfoAddr(), ws) && EncodeAll(NetinfoAddr(), vs) == EncodeAll(NetinfoAddr(), ws)
    ensures vs == ws
  {
    NetinfoAddrLawful();
    forall v | Ok(NetinfoAddr(), v) ensures Enc(NetinfoAddr(), v) != [] {
      AddrParsed(v);
      NetinfoCodecs.AddrEncoding(v);
    }
    ArraySplits(NetinfoAddr(), vs, ws);
  }

  lemma ArraySplits<T(!new)>(c: Codec<T>, vs: seq<T>, ws: seq<T>)
    requires Delimited(c) && (forall v {:trigger Enc(c, v)} :: Ok(c, v) ==> Enc(c, v) != [])
    requires RepOk(c, vs) && RepOk(c, ws) && EncodeAll(c, vs) == EncodeAll(c, ws)
    ensures vs == ws
  {
    RepOkEach(c, vs);
    RepOkEach(c, ws);
    forall i | 0 <= i < |vs| ensures c.ok(vs[i]) && c.enc(vs[i]) != [] { assert Enc(c, vs[i]) != []; }
    forall i | 0 <= i < |ws| ensures c.ok(ws[i]) && c.enc(ws[i]) != [] { assert Enc(c, ws[i]) != []; }
    UniqueSplit(c, vs, ws);
  }
}
