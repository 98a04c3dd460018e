/**
  The formats of trunnel/socks5.c: SOCKS 4 requests (with the 4a host name), and the
  messages of sections 3 to 6 of RFC 1928 and section 2 of RFC 1929.
 */
module SocksFormats {

  import opened Wire

  const CMD_CONNECT: nat := 1
  const CMD_BIND: nat := 2
  const CMD_UDP_ASSOCIATE: nat := 3
  const CMD_RESOLVE: nat := 240
  const CMD_RESOLVE_PTR: nat := 241
  const ATYPE_IPV4: nat := 1
  const ATYPE_DOMAINNAME: nat := 3
  const ATYPE_IPV6: nat := 4

  // ----- socks4_client_request -----

  predicate Command4(n: nat) { n == CMD_BIND || n == CMD_CONNECT || n == CMD_RESOLVE || n == CMD_RESOLVE_PTR }

  /** 0.0.0.x with x not 0: a SOCKS 4a request, where a host name follows. */
  predicate Names(addr: nat) { 1 <= addr <= 255 }

  /** A SOCKS 4 request; the host name is empty when the address does not call for one. */
  datatype Request4 = Request4(command: nat, port: nat, addr: nat, username: Bytes, hostname: Bytes)

  /** version, command, port, addr and username. */
  ghost function Head4(): Codec<(nat, (nat, (nat, (nat, Bytes))))> {
    Pair(Only(Int(1), (n: nat) => n == 4), Pair(Only(Int(1), Command4), Pair(Int(2), Pair(Int(4), NulString()))))
  }

  ghost function Host4(addr: nat): Codec<Bytes> {
    if Names(addr) then NulString() else Fixed(0)
  }

  function To4(v: ((nat, (nat, (nat, (nat, Bytes)))), Bytes)): Request4 {
    Request4(v.0.1.0, v.0.1.1.0, v.0.1.1.1.0, v.0.1.1.1.1, v.1)
  }

  function From4(v: Request4): ((nat, (nat, (nat, (nat, Bytes)))), Bytes) {
    ((4, (v.command, (v.port, (v.addr, v.username)))), v.hostname)
  }

  ghost function Fields4(): Codec<((nat, (nat, (nat, (nat, Bytes)))), Bytes)> {
    Dep(Head4(), (h: (nat, (nat, (nat, (nat, Bytes))))) => Host4(h.1.1.1.0))
  }

  ghost function Socks4Request(): Codec<Request4> {
    Map(Fields4(), To4, From4)
  }

  lemma Head4Lawful()
    ensures Delimited(Head4()) && Faithful(Head4()) && forall h :: Head4().ok(h) ==> h.0 == 4
  {
    IntLawful(1);
    IntLawful(2);
    IntLawful(4);
    NulStringLawful();
    var p := (n: nat) => n == 4;
    OnlyLawful(Int(1), p);
    OnlyLawful(Int(1), Command4);
    PairLawful(Int(4), NulString());
    PairLawful(Int(2), Pair(Int(4), NulString()));
    PairLawful(Only(Int(1), Command4), Pair(Int(2), Pair(Int(4), NulString())));
    PairLawful(Only(Int(1), p), Pair(Only(Int(1), Command4), Pair(Int(2), Pair(Int(4), NulString()))));
  }

  lemma Socks4Lawful()
    ensures Delimited(Socks4Request()) && Faithful(Socks4Request())
  {
    Head4Lawful();
    NulStringLawful();
    FixedLawful(0);
    var f := (h: (nat, (nat, (nat, (nat, Bytes))))) => Host4(h.1.1.1.0);
    DepDelimited(Head4(), f);
    DepExact(Head4(), f);
    MapLawful(Fields4(), To4, From4);
  }

  // ----- socks5_client_version, socks5_client_userpass_auth -----

  /** version, n_methods and methods. */
  ghost function ClientVersion(): Codec<(nat, (nat, Bytes))> {
    Pair(Only(Int(1), (n: nat) => n == 5), Blob(1))
  }

  /** version, username_len and username, passwd_len and passwd. */
  ghost function UserPass(): Codec<(nat, ((nat, Bytes), (nat, Bytes)))> {
    Pair(Only(Int(1), (n: nat) => n == 1), Pair(Blob(1), Blob(1)))
  }

  lemma ClientVersionLawful()
    ensures Delimited(ClientVersion()) && Faithful(ClientVersion())
  {
    IntLawful(1);
    BlobLawful(1);
    var p := (n: nat) => n == 5;
    OnlyLawful(Int(1), p);
    PairLawful(Only(Int(1), p), Blob(1));
  }

  lemma UserPassLawful()
    ensures Delimited(UserPass()) && Faithful(UserPass())
  {
    IntLawful(1);
    BlobLawful(1);
    var p := (n: nat) => n == 1;
    OnlyLawful(Int(1), p);
    PairLawful(Blob(1), Blob(1));
    PairLawful(Only(Int(1), p), Pair(Blob(1), Blob(1)));
  }

  // ----- socks5_client_request and socks5_server_reply -----

  predicate Command5(n: nat) { Command4(n) || n == CMD_UDP_ASSOCIATE }

  /** The address union; `len` is the length field of struct domainname. */
  datatype Address = Ip4(addr: nat) | Ip6(addr6: Bytes) | Domain(len: nat, name: Bytes)

  function AType(v: Address): nat {
    match v
    case Ip4(_) => ATYPE_IPV4
    case Ip6(_) => ATYPE_IPV6
    case Domain(_, _) => ATYPE_DOMAINNAME
  }

  ghost function AddressArm(atype: nat): Codec<Address> {
    if atype == ATYPE_IPV4 then Map(Int(4), (n: nat) => Ip4(n), (v: Address) => if v.Ip4? then v.addr else 0)
    else if atype == ATYPE_IPV6 then Map(Fixed(16), (b: Bytes) => Ip6(b), (v: Address) => if v.Ip6? then v.addr6 else [])
    else if atype == ATYPE_DOMAINNAME then
      Map(Blob(1), (p: (nat, Bytes)) => Domain(p.0, p.1), (v: Address) => if v.Domain? then (v.len, v.name) else (0, []))
    else Never()
  }

  /** atype and the union; an unknown atype is invalid. */
  ghost function TypedAddress(): Codec<Address> {
    Map(Dep(Int(1), (ty: nat) => AddressArm(ty)), (v: (nat, Address)) => v.1, (v: Address) => (AType(v), v))
  }

  lemma AddressArmLawful(atype: nat)
    ensures Delimited(AddressArm(atype)) && Faithful(AddressArm(atype))
    ensures forall v :: AddressArm(atype).ok(v) ==> AType(v) == atype
  {
    IntLawful(4);
    FixedLawful(16);
    BlobLawful(1);
    NeverLawful<Address>();
    MapLawful(Int(4), (n: nat) => Ip4(n), (v: Address) => if v.Ip4? then v.addr else 0);
    MapLawful(Fixed(16), (b: Bytes) => Ip6(b), (v: Address) => if v.Ip6? then v.addr6 else []);
    MapLawful(Blob(1), (p: (nat, Bytes)) => Domain(p.0, p.1), (v: Address) => if v.Domain? then (v.len, v.name) else (0, []));
  }

  lemma TypedAddressLawful()
    ensures Delimited(TypedAddress()) && Faithful(TypedAddress())
  {
    IntLawful(1);
    var f := (ty: nat) => AddressArm(ty);
    forall ty: nat ensures Delimited(f(ty)) && Faithful(f(ty)) && forall v :: f(ty).ok(v) ==> AType(v) == ty {
      AddressArmLawful(ty);
    }
    DepDelimited(Int(1), f);
    DepExact(Int(1), f);
    MapLawful(Dep(Int(1), f), (v: (nat, Address)) => v.1, (v: Address) => (AType(v), v));
  }

  /** A request or a reply: `code` is the command or the reply code. */
  datatype Message = Message(version: nat, code: nat, reserved: nat, addr: Address, port: nat)

  function ToMessage(v: (nat, (nat, (nat, (Address, nat))))): Message { Message(v.0, v.1.0, v.1.1.0, v.1.1.1.0, v.1.1.1.1) }

  function FromMessage(v: Message): (nat, (nat, (nat, (Address, nat)))) { (v.version, (v.code, (v.reserved, (v.addr, v.port)))) }

  /** version, command or reply code, and reserved, each checked as it is read. */
  ghost function MessageFields(code: nat -> bool): Codec<(nat, (nat, (nat, (Address, nat))))> {
    Pair(Only(Int(1), (n: nat) => n == 5), Pair(Only(Int(1), code), Pair(Only(Int(1), (n: nat) => n == 0), Pair(TypedAddress(), Int(2)))))
  }

  ghost function MessageOf(code: nat -> bool): Codec<Message> {
    Map(MessageFields(code), ToMessage, FromMessage)
  }

  predicate AnyCode(n: nat) { true }

  ghost function ClientRequest(): Codec<Message> { MessageOf(Command5) }

  ghost function ServerReply(): Codec<Message> { MessageOf(AnyCode) }

  lemma MessageLawful(code: nat -> bool)
    ensures Delimited(MessageOf(code)) && Faithful(MessageOf(code))
  {
    IntLawful(1);
    IntLawful(2);
    TypedAddressLawful();
    var five, zero := (n: nat) => n == 5, (n: nat) => n == 0;
    OnlyLawful(Int(1), five);
    OnlyLawful(Int(1), code);
    OnlyLawful(Int(1), zero);
    PairLawful(TypedAddress(), Int(2));
    PairLawful(Only(Int(1), zero), Pair(TypedAddress(), Int(2)));
    PairLawful(Only(Int(1), code), Pair(Only(Int(1), zero), Pair(TypedAddress(), Int(2))));
    PairLawful(Only(Int(1), five), Pair(Only(Int(1), code), Pair(Only(Int(1), zero), Pair(TypedAddress(), Int(2)))));
    MapLawful(MessageFields(code), ToMessage, FromMessage);
  }
}
