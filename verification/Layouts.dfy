/**
  The messages of trunnel byte by byte.  The laws of the formats hold of any format that
  is laid out unambiguously; here is which layout each of them has.
 */
module Layouts {

  import opened Wire
  import opened Cursor
  import opened CertFormats
  import opened LinkFormats
  import opened SocksFormats
  import CertCodecs
  import HandshakeCodecs
  import NetinfoCodecs
  import SocksCodecs

  // ----- integers, most significant byte first -----

  function U16(n: nat): Bytes
    requires n < 0x1_0000
  {
    [n / 256, n % 256]
  }

  function U32(n: nat): Bytes
    requires n < 0x1_0000_0000
  {
    [n / 0x100_0000, n / 0x1_0000 % 256, n / 256 % 256, n % 256]
  }

  lemma Limits()
    ensures Limit(1) == 256 && Limit(2) == 0x1_0000 && Limit(4) == 0x1_0000_0000
  {
    assert Limit(3) == 0x100_0000;
  }

  lemma U8Is(n: nat)
    requires n < 256
    ensures BigEndian(1, n) == [n]
  {
    OneByte(n);
  }

  lemma U16Is(n: nat)
    requires n < 0x1_0000
    ensures BigEndian(2, n) == U16(n)
  {
    OneByte(n / 256);
  }

  lemma U32Is(n: nat)
    requires n < 0x1_0000_0000
    ensures BigEndian(4, n) == U32(n)
  {
    var h := n / 0x1_0000;
    U16Is(h);
    assert n / 256 / 256 == h;
    assert BigEndian(3, n / 256) == BigEndian(2, h) + [n / 256 % 256];
    assert h / 256 == n / 0x100_0000;
  }

  // ----- ed25519_cert.c -----

  lemma Ipv4Layout(a: nat, p: nat)
    requires a < 0x1_0000_0000 && p < 0x1_0000
    ensures Ok(LinkSpecifier(), Ipv4(a, p)) && Enc(LinkSpecifier(), Ipv4(a, p)) == [0, 6] + U32(a) + U16(p)
  {
    Limits();
    CertCodecs.SpecEncoding(Ipv4(a, p));
    U32Is(a);
    U16Is(p);
    U8Is(0);
    U8Is(6);
  }

  lemma Ipv6Layout(b: Bytes, p: nat)
    requires |b| == 16 && p < 0x1_0000
    ensures Ok(LinkSpecifier(), Ipv6(b, p)) && Enc(LinkSpecifier(), Ipv6(b, p)) == [1, 18] + b + U16(p)
  {
    Limits();
    CertCodecs.SpecEncoding(Ipv6(b, p));
    U16Is(p);
    U8Is(1);
    U8Is(18);
  }

  lemma IdLayouts(id: Bytes, key: Bytes)
    requires |id| == 20 && |key| == 32
    ensures Ok(LinkSpecifier(), LegacyId(id)) && Enc(LinkSpecifier(), LegacyId(id)) == [2, 20] + id
    ensures Ok(LinkSpecifier(), Ed25519Id(key)) && Enc(LinkSpecifier(), Ed25519Id(key)) == [3, 32] + key
  {
    CertCodecs.SpecEncoding(LegacyId(id));
    CertCodecs.SpecEncoding(Ed25519Id(key));
    U8Is(2);
    U8Is(20);
    U8Is(3);
    U8Is(32);
  }

  /** A type other than the four keeps its bytes. */
  lemma OtherSpecLayout(ty: nat, b: Bytes)
    requires 4 <= ty < 256 && |b| < 256
    ensures Ok(LinkSpecifier(), Unrecognized(ty, b)) && Enc(LinkSpecifier(), Unrecognized(ty, b)) == [ty, |b|] + b
  {
    CertCodecs.SpecEncoding(Unrecognized(ty, b));
    U8Is(ty);
    U8Is(|b|);
  }

  lemma SpecListLayout(ls: seq<LinkSpec>)
    requires |ls| < 256
    ensures Enc(SpecList(), (|ls|, ls)) == [|ls|] + EncodeAll(LinkSpecifier(), ls)
  {
    CountedEncoding(1, LinkSpecifier(), |ls|, ls);
    U8Is(|ls|);
  }

  lemma Create2Layout(ty: nat, data: Bytes)
    requires ty < 0x1_0000 && |data| < 0x1_0000
    ensures var v := Create2(ty, |data|, data); Ok(Create2Body(), v) && Enc(Create2Body(), v) == U16(ty) + U16(|data|) + data
  {
    Limits();
    CertCodecs.Create2Encoding(Create2(ty, |data|, data));
    Cat3(BigEndian(2, ty), BigEndian(2, |data|), data);
    U16Is(ty);
    U16Is(|data|);
  }

  lemma Extend2Layout(ls: seq<LinkSpec>, ty: nat, data: Bytes)
    requires |ls| < 256 && ty < 0x1_0000 && |data| < 0x1_0000
    ensures Enc(Extend2Body(), Extend2(|ls|, ls, Create2(ty, |data|, data))) ==
      [|ls|] + EncodeAll(LinkSpecifier(), ls) + (U16(ty) + U16(|data|) + data)
  {
    CertCodecs.Extend2Encoding(Extend2(|ls|, ls, Create2(ty, |data|, data)));
    SpecListLayout(ls);
    Create2Layout(ty, data);
  }

  /** An extension of type 4 is a key of 32 bytes. */
  lemma ExtensionLayout(ty: nat, flags: nat, un: Bytes)
    requires ty < 256 && flags < 256 && |un| < 0x1_0000 && (ty == 4 ==> |un| == 32)
    ensures var v := Extension(ty, flags, un); Ok(CertExtension(), v) && Enc(CertExtension(), v) == U16(|un|) + [ty, flags] + un
  {
    Limits();
    CertCodecs.ExtEncoding(Extension(ty, flags, un));
    U16Is(|un|);
    U8Is(ty);
    U8Is(flags);
  }

  lemma CertLayout(ty: nat, exp: nat, keyType: nat, key: Bytes, es: seq<Extension>, sig: Bytes)
    requires ty < 256 && exp < 0x1_0000_0000 && keyType < 256 && |key| == 32 && |es| < 256 && |sig| == 64 && CertCodecs.ExtsTyped(es)
    ensures Enc(Ed25519Cert(), Cert(1, ty, exp, keyType, key, |es|, es, sig)) ==
      Cat([[1], [ty], U32(exp), [keyType], key, [|es|]]) + (EncodeAll(CertExtension(), es) + sig)
  {
    Limits();
    var v := Cert(1, ty, exp, keyType, key, |es|, es, sig);
    CertCodecs.CertEncoding(v);
    U8Is(1);
    U8Is(ty);
    U32Is(exp);
    U8Is(keyType);
    U8Is(|es|);
    assert CertCodecs.CertHeadFields(v) == [[1], [ty], U32(exp), [keyType], key, [|es|]];
  }

  // ----- link_handshake.c, pwbox.c -----

  lemma ChallengeLayout(ch: Bytes, ms: seq<nat>)
    requires |ch| == 32 && |ms| < 0x1_0000
    ensures Enc(AuthChallenge(), (ch, (|ms|, ms))) == ch + U16(|ms|) + EncodeAll(Int(2), ms)
  {
    Limits();
    HandshakeCodecs.ChallengeEncoding(ch, |ms|, ms);
    Cat2(ch, BigEndian(2, |ms|));
    U16Is(|ms|);
  }

  /** A method of the challenge. */
  lemma MethodLayout(m: nat)
    requires m < 0x1_0000
    ensures Ok(Int(2), m) && Enc(Int(2), m) == U16(m)
  {
    Limits();
    U16Is(m);
  }

  lemma CellCertLayout(ty: nat, body: Bytes)
    requires ty < 256 && |body| < 0x1_0000
    ensures var v := CellCert(ty, |body|, body); Ok(CertsCellCert(), v) && Enc(CertsCellCert(), v) == [ty] + U16(|body|) + body
  {
    Limits();
    HandshakeCodecs.CellCertEncoding(CellCert(ty, |body|, body));
    Cat3(BigEndian(1, ty), BigEndian(2, |body|), body);
    U8Is(ty);
    U16Is(|body|);
  }

  lemma CertsCellLayout(vs: seq<CellCert>)
    requires |vs| < 256
    ensures Enc(CertsCell(), (|vs|, vs)) == [|vs|] + EncodeAll(CertsCellCert(), vs)
  {
    CountedEncoding(1, CertsCellCert(), |vs|, vs);
    U8Is(|vs|);
  }

  lemma CrosscertLayout(key: Bytes, exp: nat, sig: Bytes)
    requires |key| == 32 && exp < 0x1_0000_0000 && |sig| < 256
    ensures Enc(RsaEdCrosscert(), (key, (exp, (|sig|, sig)))) == key + (U32(exp) + ([|sig|] + sig))
  {
    PairEncoding(Fixed(32), Pair(Int(4), Blob(1)), key, (exp, (|sig|, sig)));
    PairEncoding(Int(4), Blob(1), exp, (|sig|, sig));
    BlobEncoding(1, |sig|, sig);
    U32Is(exp);
    U8Is(|sig|);
  }

  /** auth1 without Ed25519 identities. */
  lemma Auth1Layout(ty: Bytes, cid: Bytes, sid: Bytes, slog: Bytes, clog: Bytes, scert: Bytes, tls: Bytes, rand: Bytes, sig: Bytes)
    requires |ty| == 8 && |cid| == |sid| == |slog| == |clog| == |scert| == |tls| == 32 && |rand| == 24
    ensures var fields := [ty, cid, sid, slog, clog, scert, tls, rand];
      Ok(Auth1(0), (fields, sig)) && Enc(Auth1(0), (fields, sig)) == Cat([ty, cid, sid, slog, clog, scert, tls, rand, sig])
  {
    var fields := [ty, cid, sid, slog, clog, scert, tls, rand];
    HandshakeCodecs.Auth1Encoding(0, fields, sig);
    assert fields + [sig] == [ty, cid, sid, slog, clog, scert, tls, rand, sig];
  }

  /** auth1 with them, after the RSA ones. */
  lemma Auth1EdLayout(ty: Bytes, cid: Bytes, sid: Bytes, cidEd: Bytes, sidEd: Bytes, slog: Bytes, clog: Bytes, scert: Bytes, tls: Bytes, rand: Bytes, sig: Bytes)
    requires |ty| == 8 && |cid| == |sid| == |cidEd| == |sidEd| == |slog| == |clog| == |scert| == |tls| == 32 && |rand| == 24
    ensures var fields := [ty, cid, sid, cidEd, sidEd, slog, clog, scert, tls, rand];
      Ok(Auth1(1), (fields, sig)) && Enc(Auth1(1), (fields, sig)) == Cat([ty, cid, sid, cidEd, sidEd, slog, clog, scert, tls, rand, sig])
  {
    var fields := [ty, cid, sid, cidEd, sidEd, slog, clog, scert, tls, rand];
    HandshakeCodecs.Auth1Encoding(1, fields, sig);
    assert fields + [sig] == [ty, cid, sid, cidEd, sidEd, slog, clog, scert, tls, rand, sig];
  }

  /** The magic is TORBOX00. */
  lemma PwboxLayout(c0: nat, c1: nat, header: Bytes, iv: Bytes, data: Bytes, hmac: Bytes)
    requires c0 == 0x544f5242 && c1 == 0x4f583030 && |header| < 256 && |iv| == 16 && |hmac| == 32
    ensures var v := (c0, (c1, PwboxBody(|header|, header, iv, data, hmac)));
      Ok(Pwbox(), v) && Enc(Pwbox(), v) == Cat([[0x54, 0x4f, 0x52, 0x42], [0x4f, 0x58, 0x30, 0x30], [|header|], header, iv]) + (data + hmac)
  {
    Limits();
    var v := PwboxBody(|header|, header, iv, data, hmac);
    Magic(c0, c1);
    U8Is(|header|);
    HandshakeCodecs.PwboxEncoding(c0, c1, v);
    assert HandshakeCodecs.PwboxFields(c0, c1, v) == [[0x54, 0x4f, 0x52, 0x42], [0x4f, 0x58, 0x30, 0x30], [|header|], header, iv];
  }

  lemma Magic(c0: nat, c1: nat)
    requires c0 == 0x544f5242 && c1 == 0x4f583030
    ensures BigEndian(4, c0) == [0x54, 0x4f, 0x52, 0x42] && BigEndian(4, c1) == [0x4f, 0x58, 0x30, 0x30]
  {
    U32Is(c0);
    U32Is(c1);
  }

  // ----- netinfo.c, sendme_cell.c -----

  lemma V4Layout(a: nat)
    requires a < 0x1_0000_0000
    ensures Ok(NetinfoAddr(), V4(a)) && Enc(NetinfoAddr(), V4(a)) == [4] + ([4] + U32(a))
  {
    Limits();
    NetinfoCodecs.AddrEncoding(V4(a));
    Cat1(BigEndian(4, a));
    U32Is(a);
    U8Is(4);
  }

  lemma V6Layout(b: Bytes)
    requires |b| == 16
    ensures Ok(NetinfoAddr(), V6(b)) && Enc(NetinfoAddr(), V6(b)) == [6] + ([16] + b)
  {
    NetinfoCodecs.AddrEncoding(V6(b));
    Cat1(b);
    U8Is(6);
    U8Is(16);
  }

  lemma UnknownLayout(ty: nat)
    requires ty < 256 && ty != 4 && ty != 6
    ensures Ok(NetinfoAddr(), Unknown(ty)) && Enc(NetinfoAddr(), Unknown(ty)) == [ty, 0]
  {
    NetinfoCodecs.AddrEncoding(Unknown(ty));
    U8Is(ty);
    U8Is(0);
  }

  lemma NetinfoLayout(t: nat, other: NetAddr, my: seq<NetAddr>)
    requires t < 0x1_0000_0000 && NetinfoCodecs.AddrTyped(other) && |my| < 256
    ensures Enc(NetinfoCell(), (t, (other, (|my|, my)))) == U32(t) + (Enc(NetinfoAddr(), other) + ([|my|] + EncodeAll(NetinfoAddr(), my)))
  {
    Limits();
    NetinfoCodecs.CellEncoding(t, other, |my|, my);
    U32Is(t);
    U8Is(|my|);
  }

  lemma Sendme0Layout()
    ensures Ok(SendmeCell(), Version0) && Enc(SendmeCell(), Version0) == [0, 0, 0]
  {
    NetinfoCodecs.SendmeEncoding(Version0);
    U8Is(0);
    U16Is(0);
  }

  lemma Sendme1Layout(v: Sendme)
    requires v.Version1? && |v.digest| == 20
    ensures Ok(SendmeCell(), v) && Enc(SendmeCell(), v) == [1] + ([0, 20] + v.digest)
  {
    NetinfoCodecs.SendmeEncoding(v);
    Cat1(v.digest);
    assert NetinfoCodecs.SendmeFields(v) == [v.digest];
    U8Is(SendmeVersion(v));
    Twenty(|v.digest|);
  }

  lemma Twenty(n: nat)
    requires n == 20
    ensures BigEndian(2, n) == [0, 20]
  {
    U16Is(n);
  }

  // ----- socks5.c -----

  /** The host name of a SOCKS 4 request follows when the address is 0.0.0.1 to 0.0.0.255. */
  lemma Socks4Layout(command: nat, port: nat, addr: nat, user: Bytes, host: Bytes)
    requires command in {1, 2, 0xf0, 0xf1} && port < 0x1_0000 && addr < 0x1_0000_0000 && 0 !in user && 0 !in host
    requires 1 <= addr <= 255 || host == []
    ensures var v := Request4(command, port, addr, user, host);
      Ok(Socks4Request(), v) && Enc(Socks4Request(), v) ==
        Cat([[4], [command], U16(port), U32(addr), user + [0], if 1 <= addr <= 255 then host + [0] else []])
  {
    Limits();
    var v := Request4(command, port, addr, user, host);
    NoNul(user);
    NoNul(host);
    SocksCodecs.Encoding4(v);
    U8Is(4);
    U8Is(command);
    U16Is(port);
    U32Is(addr);
    var last := if 1 <= addr <= 255 then host + [0] else [];
    assert SocksCodecs.Fields4Of(v) == [[4], [command], U16(port), U32(addr), user + [0]] && SocksCodecs.Host4Field(v) == last;
    assert SocksCodecs.Fields4Of(v) + [last] == [[4], [command], U16(port), U32(addr), user + [0], last];
  }

  lemma NoNul(s: Bytes)
    requires 0 !in s
    ensures Ok(NulString(), s)
  {
    assert forall j :: 0 <= j < |s| ==> s[j] in s;
    var k := Terminator(s);
  }

  lemma VersionLayout(methods: Bytes)
    requires |methods| < 256
    ensures var v := (5, (|methods|, methods)); Ok(ClientVersion(), v) && Enc(ClientVersion(), v) == [5, |methods|] + methods
  {
    SocksCodecs.VersionEncoding(5, |methods|, methods);
    Cat3(BigEndian(1, 5), BigEndian(1, |methods|), methods);
    U8Is(5);
    U8Is(|methods|);
  }

  lemma UserPassLayout(user: Bytes, pass: Bytes)
    requires |user| < 256 && |pass| < 256
    ensures var v := (1, ((|user|, user), (|pass|, pass))); Ok(UserPass(), v) && Enc(UserPass(), v) == Cat([[1], [|user|], user, [|pass|], pass])
  {
    SocksCodecs.UserPassEncoding(1, |user|, user, |pass|, pass);
    U8Is(1);
    U8Is(|user|);
    U8Is(|pass|);
  }

  /** atype and the address, after which comes the port. */
  function AddressBytes(v: Address): Bytes
    requires SocksCodecs.AddressTyped(v)
  {
    Limits();
    match v
    case Ip4(a) => [1] + U32(a)
    case Ip6(b) => [4] + b
    case Domain(n, b) => [3, n] + b
  }

  lemma AddressLayout(v: Address)
    requires SocksCodecs.AddressTyped(v)
    ensures Enc(TypedAddress(), v) == AddressBytes(v)
  {
    Limits();
    SocksCodecs.AddressEncoding(v);
    U8Is(1);
    U8Is(3);
    U8Is(4);
    match v
    case Ip4(a) =>
      U32Is(a);
      Cat2(BigEndian(1, 1), BigEndian(4, a));
    case Ip6(b) => Cat2(BigEndian(1, 4), b);
    case Domain(n, b) =>
      U8Is(n);
      Cat3(BigEndian(1, 3), BigEndian(1, n), b);
  }

  /** A request has one of five commands; the code of a reply may be anything. */
  lemma MessageLayouts(code: nat, addr: Address, port: nat)
    requires code < 256 && SocksCodecs.AddressTyped(addr) && port < 0x1_0000 && (addr.Domain? ==> |addr.name| == addr.len)
    ensures var v := Message(5, code, 0, addr, port);
      && Enc(ClientRequest(), v) == Enc(ServerReply(), v) == [5] + ([code] + ([0] + (AddressBytes(addr) + U16(port))))
      && (Ok(ClientRequest(), v) <==> code in {1, 2, 3, 0xf0, 0xf1}) && Ok(ServerReply(), v)
  {
    Limits();
    var v := Message(5, code, 0, addr, port);
    SocksCodecs.MessageEncoding(Command5, v);
    SocksCodecs.MessageEncoding(AnyCode, v);
    AddressLayout(addr);
    U8Is(5);
    U8Is(code);
    U8Is(0);
    U16Is(port);
  }
}
