/**
  The formats of trunnel/ed25519_cert.c: link specifiers, certificate extensions,
  certificates, and the bodies of CREATE2 and EXTEND2 cells.
 */
module CertFormats {

  import opened Wire

  const LS_IPV4: Byte := 0
  const LS_IPV6: Byte := 1
  const LS_LEGACY_ID: Byte := 2
  const LS_ED25519_ID: Byte := 3
  const CERTEXT_SIGNED_WITH_KEY: Byte := 4

  // ----- link_specifier -----

  /** A link specifier with the union arm its type selects; ls_len is always the length of that arm. */
  datatype LinkSpec =
    | Ipv4(addr: nat, port: nat)
    | Ipv6(addr6: Bytes, port6: nat)
    | LegacyId(id: Bytes)
    | Ed25519Id(key: Bytes)
    | Unrecognized(ty: nat, data: Bytes)

  function SpecType(v: LinkSpec): nat {
    match v
    case Ipv4(_, _) => LS_IPV4
    case Ipv6(_, _) => LS_IPV6
    case LegacyId(_) => LS_LEGACY_ID
    case Ed25519Id(_) => LS_ED25519_ID
    case Unrecognized(ty, _) => ty
  }

  /** The union of link_specifier, by type. */
  ghost function SpecBody(ty: nat): Codec<LinkSpec> {
    if ty == LS_IPV4 then
      Map(Pair(Int(4), Int(2)), (p: (nat, nat)) => Ipv4(p.0, p.1), (v: LinkSpec) => if v.Ipv4? then (v.addr, v.port) else (0, 0))
    else if ty == LS_IPV6 then
      Map(Pair(Fixed(16), Int(2)), (p: (Bytes, nat)) => Ipv6(p.0, p.1), (v: LinkSpec) => if v.Ipv6? then (v.addr6, v.port6) else ([], 0))
    else if ty == LS_LEGACY_ID then
      Map(Fixed(20), (b: Bytes) => LegacyId(b), (v: LinkSpec) => if v.LegacyId? then v.id else [])
    else if ty == LS_ED25519_ID then
      Map(Fixed(32), (b: Bytes) => Ed25519Id(b), (v: LinkSpec) => if v.Ed25519Id? then v.key else [])
    else
      Map(Rest(), (b: Bytes) => Unrecognized(ty, b), (v: LinkSpec) => if v.Unrecognized? then v.data else [])
  }

  ghost function LinkSpecifier(): Codec<LinkSpec> {
    Tagged(1, 1, SpecBody, SpecType)
  }

  lemma SpecBodyLawful(ty: nat)
    ensures Windowed(SpecBody(ty)) && Faithful(SpecBody(ty))
    ensures forall v :: SpecBody(ty).ok(v) ==> SpecType(v) == ty
  {
    IntLawful(4);
    IntLawful(2);
    FixedLawful(16);
    FixedLawful(20);
    FixedLawful(32);
    RestLawful();
    PairLawful(Int(4), Int(2));
    PairLawful(Fixed(16), Int(2));
    if ty == LS_IPV4 {
      MapLawful(Pair(Int(4), Int(2)), (p: (nat, nat)) => Ipv4(p.0, p.1), (v: LinkSpec) => if v.Ipv4? then (v.addr, v.port) else (0, 0));
    } else if ty == LS_IPV6 {
      MapLawful(Pair(Fixed(16), Int(2)), (p: (Bytes, nat)) => Ipv6(p.0, p.1), (v: LinkSpec) => if v.Ipv6? then (v.addr6, v.port6) else ([], 0));
    } else if ty == LS_LEGACY_ID {
      MapLawful(Fixed(20), (b: Bytes) => LegacyId(b), (v: LinkSpec) => if v.LegacyId? then v.id else []);
    } else if ty == LS_ED25519_ID {
      MapLawful(Fixed(32), (b: Bytes) => Ed25519Id(b), (v: LinkSpec) => if v.Ed25519Id? then v.key else []);
    } else {
      MapLawful(Rest(), (b: Bytes) => Unrecognized(ty, b), (v: LinkSpec) => if v.Unrecognized? then v.data else []);
    }
  }

  /** link_specifier: parsing undoes encoding and the other way round, and the format is self-delimiting. */
  lemma LinkSpecifierLawful()
    ensures Delimited(LinkSpecifier()) && Faithful(LinkSpecifier())
  {
    forall ty: nat ensures Windowed(SpecBody(ty)) && Faithful(SpecBody(ty)) && forall v :: SpecBody(ty).ok(v) ==> SpecType(v) == ty {
      SpecBodyLawful(ty);
    }
    TaggedLawful(1, 1, SpecBody, SpecType);
  }

  // ----- link_specifier_list -----

  /** n_spec and the specifiers. */
  ghost function SpecList(): Codec<(nat, seq<LinkSpec>)> {
    Counted(1, LinkSpecifier())
  }

  // ----- create2_cell_body -----

  datatype Create2 = Create2(handshakeType: nat, handshakeLen: nat, handshakeData: Bytes)

  ghost function Create2Fields(): Codec<(nat, (nat, Bytes))> {
    Pair(Int(2), Blob(2))
  }

  function ToCreate2(v: (nat, (nat, Bytes))): Create2 { Create2(v.0, v.1.0, v.1.1) }

  function FromCreate2(v: Create2): (nat, (nat, Bytes)) { (v.handshakeType, (v.handshakeLen, v.handshakeData)) }

  ghost function Create2Body(): Codec<Create2> {
    Map(Create2Fields(), ToCreate2, FromCreate2)
  }

  lemma Create2Lawful()
    ensures Delimited(Create2Body()) && Faithful(Create2Body())
  {
    IntLawful(2);
    BlobLawful(2);
    PairLawful(Int(2), Blob(2));
    MapLawful(Create2Fields(), ToCreate2, FromCreate2);
  }

  // ----- extend2_cell_body -----

  datatype Extend2 = Extend2(nSpec: nat, ls: seq<LinkSpec>, create2: Create2)

  function ToExtend2(v: ((nat, seq<LinkSpec>), Create2)): Extend2 { Extend2(v.0.0, v.0.1, v.1) }

  function FromExtend2(v: Extend2): ((nat, seq<LinkSpec>), Create2) { ((v.nSpec, v.ls), v.create2) }

  ghost function Extend2Body(): Codec<Extend2> {
    Map(Pair(SpecList(), Create2Body()), ToExtend2, FromExtend2)
  }

  /** link_specifier_list and extend2_cell_body. */
  lemma Extend2Lawful()
    ensures Delimited(SpecList()) && Faithful(SpecList())
    ensures Delimited(Extend2Body()) && Faithful(Extend2Body())
  {
    LinkSpecifierLawful();
    CountedLawful(1, LinkSpecifier());
    Create2Lawful();
    PairLawful(SpecList(), Create2Body());
    MapLawful(Pair(SpecList(), Create2Body()), ToExtend2, FromExtend2);
  }

  // ----- ed25519_cert_extension -----

  /** An extension with its active union arm: the 32-byte key for type 4, unparsed bytes otherwise; ext_length is the length of the arm. */
  datatype Extension = Extension(extType: nat, flags: nat, un: Bytes)

  ghost function ExtArm(ty: nat): Codec<Bytes> {
    if ty == CERTEXT_SIGNED_WITH_KEY then Fixed(32) else Rest()
  }

  /** ext_length, ext_type and ext_flags. */
  ghost function ExtHead(): Codec<(nat, (nat, nat))> {
    Pair(Int(2), Pair(Int(1), Int(1)))
  }

  ghost function ExtFields(): Codec<((nat, (nat, nat)), Bytes)> {
    Dep(ExtHead(), (h: (nat, (nat, nat))) => Within(ExtArm(h.1.0), h.0))
  }

  function ToExt(v: ((nat, (nat, nat)), Bytes)): Extension { Extension(v.0.1.0, v.0.1.1, v.1) }

  function FromExt(v: Extension): ((nat, (nat, nat)), Bytes) { ((|v.un|, (v.extType, v.flags)), v.un) }

  ghost function CertExtension(): Codec<Extension> {
    Map(ExtFields(), ToExt, FromExt)
  }

  lemma ExtArmLawful(ty: nat)
    ensures Windowed(ExtArm(ty)) && Faithful(ExtArm(ty)) && forall v :: ExtArm(ty).enc(v) == v
  {
    FixedLawful(32);
    RestLawful();
  }

  lemma ExtensionLawful()
    ensures Delimited(CertExtension()) && Faithful(CertExtension())
  {
    IntLawful(2);
    IntLawful(1);
    PairLawful(Int(1), Int(1));
    PairLawful(Int(2), Pair(Int(1), Int(1)));
    var f := (h: (nat, (nat, nat))) => Within(ExtArm(h.1.0), h.0);
    forall h: (nat, (nat, nat)) ensures Delimited(f(h)) && Faithful(f(h)) && forall v :: f(h).ok(v) ==> |v| == h.0 {
      ExtArmLawful(h.1.0);
      WithinLawful(ExtArm(h.1.0), h.0);
    }
    DepDelimited(ExtHead(), f);
    DepExact(ExtHead(), f);
    MapLawful(ExtFields(), ToExt, FromExt);
  }

  // ----- ed25519_cert -----

  datatype Cert = Cert(version: nat, certType: nat, expField: nat, keyType: nat, certifiedKey: Bytes,
                       nExtensions: nat, ext: seq<Extension>, signature: Bytes)

  /** version, cert_type, exp_field, cert_key_type and certified_key. */
  ghost function CertHead(): Codec<(nat, (nat, (nat, (nat, Bytes))))> {
    Pair(Only(Int(1), (n: nat) => n == 1), Pair(Int(1), Pair(Int(4), Pair(Int(1), Fixed(32)))))
  }

  /** n_extensions and ext, and the signature. */
  ghost function CertTail(): Codec<((nat, seq<Extension>), Bytes)> {
    Pair(Counted(1, CertExtension()), Fixed(64))
  }

  function ToCert(v: ((nat, (nat, (nat, (nat, Bytes)))), ((nat, seq<Extension>), Bytes))): Cert {
    Cert(v.0.0, v.0.1.0, v.0.1.1.0, v.0.1.1.1.0, v.0.1.1.1.1, v.1.0.0, v.1.0.1, v.1.1)
  }

  function FromCert(v: Cert): ((nat, (nat, (nat, (nat, Bytes)))), ((nat, seq<Extension>), Bytes)) {
    ((v.version, (v.certType, (v.expField, (v.keyType, v.certifiedKey)))), ((v.nExtensions, v.ext), v.signature))
  }

  ghost function Ed25519Cert(): Codec<Cert> {
    Map(Pair(CertHead(), CertTail()), ToCert, FromCert)
  }

  lemma CertHeadLawful()
    ensures Delimited(CertHead()) && Faithful(CertHead())
  {
    IntLawful(1);
    IntLawful(4);
    FixedLawful(32);
    var p := (n: nat) => n == 1;
    OnlyLawful(Int(1), p);
    PairLawful(Int(1), Fixed(32));
    PairLawful(Int(4), Pair(Int(1), Fixed(32)));
    PairLawful(Int(1), Pair(Int(4), Pair(Int(1), Fixed(32))));
    PairLawful(Only(Int(1), p), Pair(Int(1), Pair(Int(4), Pair(Int(1), Fixed(32)))));
  }

  lemma CertTailLawful()
    ensures Delimited(CertTail()) && Faithful(CertTail())
  {
    ExtensionLawful();
    CountedLawful(1, CertExtension());
    FixedLawful(64);
    PairLawful(Counted(1, CertExtension()), Fixed(64));
  }

  /** ed25519_cert. */
  lemma CertLawful()
    ensures Delimited(Ed25519Cert()) && Faithful(Ed25519Cert())
  {
    CertHeadLawful();
    CertTailLawful();
    PairLawful(CertHead(), CertTail());
    MapLawful(Pair(CertHead(), CertTail()), ToCert, FromCert);
  }
}
