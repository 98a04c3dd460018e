/**
  The formats of trunnel/link_handshake.c, netinfo.c, sendme_cell.c and pwbox.c.
 */
module LinkFormats {

  import opened Wire

  // ----- auth_challenge_cell -----

  /** challenge, then n_methods and the methods. */
  ghost function AuthChallenge(): Codec<(Bytes, (nat, seq<nat>))> {
    Pair(Fixed(32), Counted(2, Int(2)))
  }

  lemma AuthChallengeLawful()
    ensures Delimited(AuthChallenge()) && Faithful(AuthChallenge())
  {
    FixedLawful(32);
    IntLawful(2);
    CountedLawful(2, Int(2));
    PairLawful(Fixed(32), Counted(2, Int(2)));
  }

  // ----- certs_cell -----

  datatype CellCert = CellCert(certType: nat, certLen: nat, body: Bytes)

  function ToCellCert(v: (nat, (nat, Bytes))): CellCert { CellCert(v.0, v.1.0, v.1.1) }

  function FromCellCert(v: CellCert): (nat, (nat, Bytes)) { (v.certType, (v.certLen, v.body)) }

  ghost function CertsCellCert(): Codec<CellCert> {
    Map(Pair(Int(1), Blob(2)), ToCellCert, FromCellCert)
  }

  /** n_certs and the certs. */
  ghost function CertsCell(): Codec<(nat, seq<CellCert>)> {
    Counted(1, CertsCellCert())
  }

  lemma CertsCellLawful()
    ensures Delimited(CertsCellCert()) && Faithful(CertsCellCert())
    ensures Delimited(CertsCell()) && Faithful(CertsCell())
  {
    IntLawful(1);
    BlobLawful(2);
    PairLawful(Int(1), Blob(2));
    MapLawful(Pair(Int(1), Blob(2)), ToCellCert, FromCellCert);
    CountedLawful(1, CertsCellCert());
  }

  // ----- rsa_ed_crosscert -----

  /** ed_key, expiration, sig_len and sig. */
  ghost function RsaEdCrosscert(): Codec<(Bytes, (nat, (nat, Bytes)))> {
    Pair(Fixed(32), Pair(Int(4), Blob(1)))
  }

  lemma RsaEdCrosscertLawful()
    ensures Delimited(RsaEdCrosscert()) && Faithful(RsaEdCrosscert())
  {
    FixedLawful(32);
    IntLawful(4);
    BlobLawful(1);
    PairLawful(Int(4), Blob(1));
    PairLawful(Fixed(32), Pair(Int(4), Blob(1)));
  }

  // ----- auth1 -----

  /**
    The sizes of type, cid and sid, of the two Ed25519 identities when the context has them, and of slog, clog,
    scert, tlssecrets and rand.
   */
  function Auth1Widths(isEd: nat): seq<nat> {
    if isEd == 1 then [8, 32, 32, 32, 32, 32, 32, 32, 32, 24] else [8, 32, 32, 32, 32, 32, 32, 24]
  }

  /** The fields, and a signature that takes whatever is left; a context that is neither 0 nor 1 fails at the union. */
  ghost function Auth1(isEd: nat): Codec<(seq<Bytes>, Bytes)> {
    if isEd <= 1 then Pair(Fields(Auth1Widths(isEd)), Rest()) else Pair(Fields([8, 32, 32]), Never())
  }

  /** auth1: it takes all the bytes it is given, so it is not self-delimiting, but parsing and encoding undo each other. */
  lemma Auth1Lawful(isEd: nat)
    ensures Windowed(Auth1(isEd)) && Faithful(Auth1(isEd))
  {
    FieldsLawful(Auth1Widths(isEd));
    FieldsLawful([8, 32, 32]);
    RestLawful();
    NeverLawful<Bytes>();
    PairLawful(Fields(Auth1Widths(isEd)), Rest());
    PairLawful(Fields([8, 32, 32]), Never<Bytes>());
  }

  // ----- netinfo -----

  const ADDR_IPV4: nat := 4
  const ADDR_IPV6: nat := 6

  /** An address as netinfo_addr keeps it: the payload of an unknown type is not kept. */
  datatype NetAddr = V4(addr: nat) | V6(addr6: Bytes) | Unknown(ty: nat)

  function AddrType(v: NetAddr): nat {
    match v
    case V4(_) => ADDR_IPV4
    case V6(_) => ADDR_IPV6
    case Unknown(ty) => ty
  }

  ghost function AddrBody(ty: nat): Codec<NetAddr> {
    if ty == ADDR_IPV4 then Map(Int(4), (n: nat) => V4(n), (v: NetAddr) => if v.V4? then v.addr else 0)
    else if ty == ADDR_IPV6 then Map(Fixed(16), (b: Bytes) => V6(b), (v: NetAddr) => if v.V6? then v.addr6 else [])
    else Skip(Unknown(ty))
  }

  ghost function NetinfoAddr(): Codec<NetAddr> {
    Tagged(1, 1, AddrBody, AddrType)
  }

  lemma AddrBodyLawful(ty: nat)
    ensures Windowed(AddrBody(ty))
    ensures forall v :: AddrBody(ty).ok(v) ==> AddrType(v) == ty && |AddrBody(ty).enc(v)| < Limit(1)
  {
    IntLawful(4);
    FixedLawful(16);
    MapLawful(Int(4), (n: nat) => V4(n), (v: NetAddr) => if v.V4? then v.addr else 0);
    MapLawful(Fixed(16), (b: Bytes) => V6(b), (v: NetAddr) => if v.V6? then v.addr6 else []);
    SkipLawful(Unknown(ty));
    assert Limit(1) == 256;
  }

  lemma NetinfoAddrLawful()
    ensures Delimited(NetinfoAddr())
  {
    forall ty: nat ensures Windowed(AddrBody(ty)) && forall v :: AddrBody(ty).ok(v) ==> AddrType(v) == ty && |AddrBody(ty).enc(v)| < Limit(1) {
      AddrBodyLawful(ty);
    }
    TaggedLawful(1, 1, AddrBody, AddrType);
  }

  type NetinfoValue = (nat, (NetAddr, (nat, seq<NetAddr>)))

  /** timestamp, other_addr, n_my_addrs and my_addrs. */
  ghost function NetinfoCell(): Codec<NetinfoValue> {
    Pair(Int(4), Pair(NetinfoAddr(), Counted(1, NetinfoAddr())))
  }

  /** netinfo_cell is self-delimiting, though it forgets payloads it does not know. */
  lemma NetinfoCellLawful()
    ensures Delimited(NetinfoCell())
  {
    IntLawful(4);
    NetinfoAddrLawful();
    CountedLawful(1, NetinfoAddr());
    PairLawful(NetinfoAddr(), Counted(1, NetinfoAddr()));
    PairLawful(Int(4), Pair(NetinfoAddr(), Counted(1, NetinfoAddr())));
  }

  // ----- sendme -----

  /** A SENDME cell as it is kept: version 0 carries nothing, version 1 a digest. */
  datatype Sendme = Version0 | Version1(digest: Bytes)

  function SendmeVersion(v: Sendme): nat { if v.Version0? then 0 else 1 }

  ghost function SendmeBody(version: nat): Codec<Sendme> {
    if version == 0 then Skip(Version0)
    else if version == 1 then Map(Fixed(20), (b: Bytes) => Version1(b), (v: Sendme) => if v.Version1? then v.digest else [])
    else Never()
  }

  /** version, data_len and the union; a version other than 0 and 1 is rejected before the length is looked at. */
  ghost function SendmeCell(): Codec<Sendme> {
    Map(Dep(Only(Int(1), (n: nat) => n == 0 || n == 1), (ty: nat) => Sized(2, SendmeBody(ty))),
        (v: (nat, Sendme)) => v.1, (v: Sendme) => (SendmeVersion(v), v))
  }

  lemma SendmeBodyLawful(version: nat)
    ensures Windowed(SendmeBody(version))
    ensures forall v :: SendmeBody(version).ok(v) ==> SendmeVersion(v) == version && |SendmeBody(version).enc(v)| < Limit(2)
  {
    FixedLawful(20);
    MapLawful(Fixed(20), (b: Bytes) => Version1(b), (v: Sendme) => if v.Version1? then v.digest else []);
    SkipLawful(Version0);
    NeverLawful<Sendme>();
    assert Limit(1) == 256;
  }

  lemma SendmeLawful()
    ensures Delimited(SendmeCell())
  {
    IntLawful(1);
    var p := (n: nat) => n == 0 || n == 1;
    OnlyLawful(Int(1), p);
    var f := (ty: nat) => Sized(2, SendmeBody(ty));
    forall ty: nat ensures Delimited(f(ty)) && forall v :: f(ty).ok(v) ==> SendmeVersion(v) == ty {
      SendmeBodyLawful(ty);
      SizedLawful(2, SendmeBody(ty));
    }
    DepDelimited(Only(Int(1), p), f);
    MapLawful(Dep(Only(Int(1), p), f), (v: (nat, Sendme)) => v.1, (v: Sendme) => (SendmeVersion(v), v));
  }

  // ----- pwbox -----

  const PWBOX0_CONST0: nat := 1414484546
  const PWBOX0_CONST1: nat := 1331179568

  datatype PwboxBody = PwboxBody(headerLen: nat, skeyHeader: Bytes, iv: Bytes, data: Bytes, hmac: Bytes)

  function ToPwboxBody(v: ((nat, Bytes), (Bytes, (Bytes, Bytes)))): PwboxBody {
    PwboxBody(v.0.0, v.0.1, v.1.0, v.1.1.0, v.1.1.1)
  }

  function FromPwboxBody(v: PwboxBody): ((nat, Bytes), (Bytes, (Bytes, Bytes))) {
    ((v.headerLen, v.skeyHeader), (v.iv, (v.data, v.hmac)))
  }

  /** header_len and skey_header, iv, then data up to the 32 bytes of hmac. */
  ghost function PwboxTail(): Codec<PwboxBody> {
    Map(Pair(Blob(1), Pair(Fixed(16), AllBut(32))), ToPwboxBody, FromPwboxBody)
  }

  /** The two magic numbers, and the rest. */
  ghost function Pwbox(): Codec<(nat, (nat, PwboxBody))> {
    Pair(Only(Int(4), (n: nat) => n == PWBOX0_CONST0), Pair(Only(Int(4), (n: nat) => n == PWBOX0_CONST1), PwboxTail()))
  }

  lemma PwboxTailLawful()
    ensures Windowed(PwboxTail()) && Faithful(PwboxTail())
  {
    BlobLawful(1);
    FixedLawful(16);
    AllButLawful(32);
    PairLawful(Fixed(16), AllBut(32));
    PairLawful(Blob(1), Pair(Fixed(16), AllBut(32)));
    MapLawful(Pair(Blob(1), Pair(Fixed(16), AllBut(32))), ToPwboxBody, FromPwboxBody);
  }

  /** pwbox_encoded takes all the bytes it is given; parsing and encoding undo each other. */
  lemma PwboxLawful()
    ensures Windowed(Pwbox()) && Faithful(Pwbox())
  {
    IntLawful(4);
    PwboxTailLawful();
    var p, q := (n: nat) => n == PWBOX0_CONST0, (n: nat) => n == PWBOX0_CONST1;
    OnlyLawful(Int(4), p);
    OnlyLawful(Int(4), q);
    PairLawful(Only(Int(4), q), PwboxTail());
    PairLawful(Only(Int(4), p), Pair(Only(Int(4), q), PwboxTail()));
  }
}
