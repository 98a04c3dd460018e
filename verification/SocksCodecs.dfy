/**
  The encoders and parsers of trunnel/socks5.c, in cursor style, against the formats
  they implement.
 */
module SocksCodecs {

  import opened Wire
  import opened Cursor
  import opened SocksFormats

  // ----- the address union -----

  predicate AddressTyped(v: Address) {
    match v
    case Ip4(a) => a < Limit(4)
    case Ip6(b) => |b| == 16
    case Domain(n, _) => n < 256
  }

  /** domainname_check; the other arms have nothing to check. */
  predicate AddressChecked(v: Address) { v.Domain? ==> |v.name| == v.len }

  function AddressFields(v: Address): seq<Bytes> {
    match v
    case Ip4(a) => [BigEndian(4, a)]
    case Ip6(b) => [b]
    case Domain(n, b) => [BigEndian(1, n), b]
  }

  lemma ArmEncoding(v: Address)
    requires AddressTyped(v)
    ensures AddressArm(AType(v)).enc(v) == Cat(AddressFields(v)) && (AddressArm(AType(v)).ok(v) <==> AddressChecked(v))
  {
    OneByte(0);
    match v
    case Ip4(a) => Cat1(BigEndian(4, a));
    case Ip6(b) => Cat1(b);
    case Domain(n, b) =>
      Cat2(BigEndian(1, n), b);
      BlobEncoding(1, n, b);
  }

  lemma AddressEncoding(v: Address)
    requires AddressTyped(v)
    ensures Enc(TypedAddress(), v) == Cat([BigEndian(1, AType(v))] + AddressFields(v))
    ensures Ok(TypedAddress(), v) <==> AddressChecked(v)
  {
    OneByte(0);
    ArmEncoding(v);
    var d := Dep(Int(1), (ty: nat) => AddressArm(ty));
    MapEncoding(d, (x: (nat, Address)) => x.1, (x: Address) => (AType(x), x), v);
    assert d.enc((AType(v), v)) == Int(1).enc(AType(v)) + AddressArm(AType(v)).enc(v);
    assert d.ok((AType(v), v)) == (Int(1).ok(AType(v)) && AddressArm(AType(v)).ok(v));
    CatSplit([BigEndian(1, AType(v))], AddressFields(v));
    Cat1(BigEndian(1, AType(v)));
  }

  /** The verdict on the address union, flat. */
  function AddressAt(s: Bytes): Verdict<Address> {
    if |s| < 1 then Truncated else
      var ty, t := FromBigEndian(s[..1]), s[1..];
      if ty == ATYPE_IPV4 then (if |t| < 4 then Truncated else Done(Ip4(FromBigEndian(t[..4])), 5))
      else if ty == ATYPE_IPV6 then (if |t| < 16 then Truncated else Done(Ip6(t[..16]), 17))
      else if ty == ATYPE_DOMAINNAME then
        (if |t| < 1 || |t| - 1 < FromBigEndian(t[..1]) then Truncated
         else Done(Domain(FromBigEndian(t[..1]), t[1..1 + FromBigEndian(t[..1])]), 2 + FromBigEndian(t[..1])))
      else Invalid
  }

  lemma AddressParsing(s: Bytes)
    ensures TypedAddress().dec(s) == AddressAt(s)
  {
    var f := (ty: nat) => AddressArm(ty);
    MapParsing(Dep(Int(1), f), (x: (nat, Address)) => x.1, (x: Address) => (AType(x), x), s);
    DepParsing(Int(1), f, s);
    if |s| >= 1 {
      BlobParsing(1, s[1..]);
    }
  }

  /** atype and dest_addr or bind_addr. */
  method ParseAddress(input: Bytes) returns (r: int, obj: Address)
    ensures Reports(AddressAt(input), r, obj) && r <= |input|
  {
    obj := Ip4(0);
    if |input| < 1 { return -2, obj; }
    var ty := GetInt(input, 0, 1);
    var t := input[1..];
    if ty == ATYPE_IPV4 {
      if |t| < 4 { return -2, obj; }
      var a := GetInt(t, 0, 4);
      return 5, Ip4(a);
    } else if ty == ATYPE_IPV6 {
      if |t| < 16 { return -2, obj; }
      return 17, Ip6(t[..16]);
    } else if ty == ATYPE_DOMAINNAME {
      if |t| < 1 { return -2, obj; }
      var n := GetInt(t, 0, 1);
      if |t| - 1 < n { return -2, obj; }
      return 2 + n, Domain(n, t[1..1 + n]);
    } else {
      return -1, obj;
    }
  }

  // ----- socks5_client_request, socks5_server_reply -----

  predicate MessageTyped(v: Message) {
    v.version < 256 && v.code < 256 && v.reserved < 256 && AddressTyped(v.addr) && v.port < Limit(2)
  }

  lemma MessageEncoding(code: nat -> bool, v: Message)
    requires MessageTyped(v)
    ensures Enc(MessageOf(code), v) ==
      BigEndian(1, v.version) + (BigEndian(1, v.code) + (BigEndian(1, v.reserved) + (Enc(TypedAddress(), v.addr) + BigEndian(2, v.port))))
    ensures Ok(MessageOf(code), v) <==> v.version == 5 && code(v.code) && v.reserved == 0 && AddressChecked(v.addr)
  {
    OneByte(0);
    AddressEncoding(v.addr);
    var five, zero := (n: nat) => n == 5, (n: nat) => n == 0;
    OnlyEncoding(five, 1, v.version);
    OnlyEncoding(code, 1, v.code);
    OnlyEncoding(zero, 1, v.reserved);
    var p3 := Pair(TypedAddress(), Int(2));
    var p2 := Pair(Only(Int(1), zero), p3);
    var p1 := Pair(Only(Int(1), code), p2);
    PairEncoding(TypedAddress(), Int(2), v.addr, v.port);
    PairEncoding(Only(Int(1), zero), p3, v.reserved, (v.addr, v.port));
    PairEncoding(Only(Int(1), code), p2, v.code, (v.reserved, (v.addr, v.port)));
    PairEncoding(Only(Int(1), five), p1, v.version, (v.code, (v.reserved, (v.addr, v.port))));
    MapEncoding(MessageFields(code), ToMessage, FromMessage, v);
  }

  function AllFields(v: Message): seq<Bytes> {
    [BigEndian(1, v.version), BigEndian(1, v.code), BigEndian(1, v.reserved)] + (([BigEndian(1, AType(v.addr))] + AddressFields(v.addr)) + [BigEndian(2, v.port)])
  }

  lemma AllFieldsCat(v: Message)
    requires MessageTyped(v)
    ensures Cat(AllFields(v)) ==
      BigEndian(1, v.version) + (BigEndian(1, v.code) + (BigEndian(1, v.reserved) + (Enc(TypedAddress(), v.addr) + BigEndian(2, v.port))))
  {
    var a, b, c, d := BigEndian(1, v.version), BigEndian(1, v.code), BigEndian(1, v.reserved), BigEndian(2, v.port);
    var fs := [BigEndian(1, AType(v.addr))] + AddressFields(v.addr);
    AddressEncoding(v.addr);
    CatSplit([a, b, c], fs + [d]);
    CatSplit(fs, [d]);
    Cat1(d);
    Cat3(a, b, c);
    Assoc3(a, b + c, Cat(fs) + d);
    Assoc3(b, c, Cat(fs) + d);
  }

  /** The tags of the address union. */
  predicate KnownType(atype: nat) { atype == ATYPE_IPV4 || atype == ATYPE_IPV6 || atype == ATYPE_DOMAINNAME }

  /**
    socks5_client_request_encode, with the tests of socks5_client_request_check; `atype` is the object's, and `v` has
    what its union holds when that is a known tag.
   */
  method EncodeRequest(out: array<Byte>, base: nat, avail: nat, atype: nat, v: Message) returns (r: int)
    requires base + avail <= out.Length && MessageTyped(v) && (KnownType(atype) ==> atype == AType(v.addr))
    modifies out
    ensures Encodes(KnownType(atype) && Ok(ClientRequest(), v), Enc(ClientRequest(), v), old(out[..]), out[..], base, avail, r)
    ensures Refuses(KnownType(atype) && Ok(ClientRequest(), v), old(out[..]), out[..], r)
  {
    MessageEncoding(Command5, v);
    AllFieldsCat(v);
    if v.version != 5 || !Command5(v.code) || v.reserved != 0 || !KnownType(atype) || !AddressChecked(v.addr) { return -1; }
    r := PutFields(out, base, avail, AllFields(v));
  }

  /** socks5_server_reply_encode */
  method EncodeReply(out: array<Byte>, base: nat, avail: nat, atype: nat, v: Message) returns (r: int)
    requires base + avail <= out.Length && MessageTyped(v) && (KnownType(atype) ==> atype == AType(v.addr))
    modifies out
    ensures Encodes(KnownType(atype) && Ok(ServerReply(), v), Enc(ServerReply(), v), old(out[..]), out[..], base, avail, r)
    ensures Refuses(KnownType(atype) && Ok(ServerReply(), v), old(out[..]), out[..], r)
  {
    MessageEncoding(AnyCode, v);
    AllFieldsCat(v);
    if v.version != 5 || v.reserved != 0 || !KnownType(atype) || !AddressChecked(v.addr) { return -1; }
    r := PutFields(out, base, avail, AllFields(v));
  }

  /** The verdict on address and port, flat. */
  function AddressPortAt(t: Bytes): Verdict<(Address, nat)> {
    match AddressAt(t)
    case Done(a, n) =>
      if n > |t| then Invalid else if |t| - n < 2 then Truncated else Done((a, FromBigEndian(t[n..n + 2])), n + 2)
    case Invalid => Invalid
    case Truncated => Truncated
  }

  /** The verdict on reserved, address and port, flat. */
  function TailAt(u: Bytes): Verdict<(nat, (Address, nat))> {
    if |u| < 1 then Truncated
    else if FromBigEndian(u[..1]) != 0 then Invalid
    else match AddressPortAt(u[1..])
      case Done(p, n) => Done((0, p), 1 + n)
      case Invalid => Invalid
      case Truncated => Truncated
  }

  /** The verdict on a request or reply, flat. */
  function MessageAt(code: nat -> bool, s: Bytes): Verdict<Message> {
    if |s| < 1 then Truncated
    else if FromBigEndian(s[..1]) != 5 then Invalid
    else if |s| < 2 then Truncated
    else if !code(FromBigEndian(s[1..2])) then Invalid
    else match TailAt(s[2..])
      case Done(t, n) => Done(Message(5, FromBigEndian(s[1..2]), t.0, t.1.0, t.1.1), 2 + n)
      case Invalid => Invalid
      case Truncated => Truncated
  }

  lemma AddressPortParsing(t: Bytes)
    ensures Pair(TypedAddress(), Int(2)).dec(t) == AddressPortAt(t)
  {
    AddressParsing(t);
    PairParsing(TypedAddress(), Int(2), t);
    match AddressAt(t)
    case Done(a, n) =>
      if n <= |t| && |t| - n >= 2 { assert t[n..][..2] == t[n..n + 2]; }
    case _ =>
  }

  lemma TailParsing(u: Bytes)
    ensures Pair(Only(Int(1), (n: nat) => n == 0), Pair(TypedAddress(), Int(2))).dec(u) == TailAt(u)
  {
    var zero := (n: nat) => n == 0;
    PairParsing(Only(Int(1), zero), Pair(TypedAddress(), Int(2)), u);
    OnlyParsing(zero, u);
    if |u| >= 1 { AddressPortParsing(u[1..]); }
  }

  lemma MessageParsing(code: nat -> bool, s: Bytes)
    ensures Dec(MessageOf(code), s) == MessageAt(code, s)
  {
    var five, zero := (n: nat) => n == 5, (n: nat) => n == 0;
    var p2 := Pair(Only(Int(1), zero), Pair(TypedAddress(), Int(2)));
    var p1 := Pair(Only(Int(1), code), p2);
    MapParsing(MessageFields(code), ToMessage, FromMessage, s);
    PairParsing(Only(Int(1), five), p1, s);
    OnlyParsing(five, s);
    if |s| >= 1 {
      var t := s[1..];
      PairParsing(Only(Int(1), code), p2, t);
      OnlyParsing(code, t);
      if |s| >= 2 {
        assert t[..1] == s[1..2] && t[1..] == s[2..];
        TailParsing(s[2..]);
      }
    }
  }

  /** socks5_client_request_parse_into */
  method ParseRequest(input: Bytes) returns (r: int, obj: Message)
    ensures Reports(Dec(ClientRequest(), input), r, obj)
  {
    MessageParsing(Command5, input);
    obj := Message(5, 0, 0, Ip4(0), 0);
    if |input| < 1 { return -2, obj; }
    var version := GetInt(input, 0, 1);
    if version != 5 { return -1, obj; }
    if |input| < 2 { return -2, obj; }
    var command := GetInt(input, 1, 1);
    if !Command5(command) { return -1, obj; }
    r, obj := ParseAfterCode(input[2..], command);
  }

  /** socks5_server_reply_parse_into */
  method ParseReply(input: Bytes) returns (r: int, obj: Message)
    ensures Reports(Dec(ServerReply(), input), r, obj)
  {
    MessageParsing(AnyCode, input);
    obj := Message(5, 0, 0, Ip4(0), 0);
    if |input| < 1 { return -2, obj; }
    var version := GetInt(input, 0, 1);
    if version != 5 { return -1, obj; }
    if |input| < 2 { return -2, obj; }
    var reply := GetInt(input, 1, 1);
    r, obj := ParseAfterCode(input[2..], reply);
  }

  /** reserved, atype, the address and the port, which the two parsers read alike. */
  method ParseAfterCode(input: Bytes, code: nat) returns (r: int, obj: Message)
    ensures match TailAt(input)
      case Done(t, n) => r == n + 2 && obj == Message(5, code, t.0, t.1.0, t.1.1)
      case Invalid => r == -1
      case Truncated => r == -2
  {
    obj := Message(5, code, 0, Ip4(0), 0);
    if |input| < 1 { return -2, obj; }
    var reserved := GetInt(input, 0, 1);
    if reserved != 0 { return -1, obj; }
    var t := input[1..];
    var n, a := ParseAddress(t);
    if n < 0 { return n, obj; }
    if |t| - n < 2 { return -2, obj; }
    var port := GetInt(t, n, 2);
    obj := Message(5, code, 0, a, port);
    r := 1 + (n + 2) + 2;
  }

  // ----- socks4_client_request -----

  /** memchr(ptr, 0, remaining): the position of the first NUL, or the length. */
  method FindNul(s: Bytes) returns (k: nat)
    ensures k == Terminator(s)
  {
    k := 0;
    while k < |s| && s[k] != 0
      invariant 0 <= k <= |s| && forall j :: 0 <= j < k ==> s[j] != 0
    {
      k := k + 1;
    }
    var t := Terminator(s);
  }

  predicate Typed4(v: Request4) {
    v.command < 256 && v.port < Limit(2) && v.addr < Limit(4)
  }

  /** C strings end at their first NUL, and there is a host name only when the address calls for one. */
  ghost predicate Strings4(v: Request4) {
    NulString().ok(v.username) && if Names(v.addr) then NulString().ok(v.hostname) else v.hostname == []
  }

  function Fields4Of(v: Request4): seq<Bytes> {
    [BigEndian(1, 4), BigEndian(1, v.command), BigEndian(2, v.port), BigEndian(4, v.addr), v.username + [0]]
  }

  function Host4Field(v: Request4): Bytes {
    if Names(v.addr) then v.hostname + [0] else []
  }

  lemma Head4Encoding(v: Request4)
    requires Typed4(v)
    ensures var h := (4, (v.command, (v.port, (v.addr, v.username))));
      Head4().enc(h) == Cat(Fields4Of(v)) && (Head4().ok(h) <==> Command4(v.command) && NulString().ok(v.username))
  {
    OneByte(0);
    var four := (n: nat) => n == 4;
    OnlyEncoding(four, 1, 4);
    OnlyEncoding(Command4, 1, v.command);
    var p3 := Pair(Int(4), NulString());
    var p2 := Pair(Int(2), p3);
    var p1 := Pair(Only(Int(1), Command4), p2);
    PairEncoding(Int(4), NulString(), v.addr, v.username);
    PairEncoding(Int(2), p3, v.port, (v.addr, v.username));
    PairEncoding(Only(Int(1), Command4), p2, v.command, (v.port, (v.addr, v.username)));
    PairEncoding(Only(Int(1), four), p1, 4, (v.command, (v.port, (v.addr, v.username))));
    Cat5(BigEndian(1, 4), BigEndian(1, v.command), BigEndian(2, v.port), BigEndian(4, v.addr), v.username + [0]);
  }

  lemma Encoding4(v: Request4)
    requires Typed4(v) && Strings4(v)
    ensures Enc(Socks4Request(), v) == Cat(Fields4Of(v) + [Host4Field(v)])
    ensures Ok(Socks4Request(), v) <==> Command4(v.command)
  {
    Head4Encoding(v);
    var h := (4, (v.command, (v.port, (v.addr, v.username))));
    MapEncoding(Fields4(), To4, From4, v);
    var c := Host4(v.addr);
    assert c.enc(v.hostname) == Host4Field(v) && c.ok(v.hostname);
    assert Fields4().enc((h, v.hostname)) == Head4().enc(h) + c.enc(v.hostname);
    assert Fields4().ok((h, v.hostname)) == (Head4().ok(h) && c.ok(v.hostname));
    CatSplit(Fields4Of(v), [Host4Field(v)]);
    Cat1(Host4Field(v));
  }

  /** socks4_client_request_encode */
  method Encode4(out: array<Byte>, base: nat, avail: nat, version: nat, v: Request4) returns (r: int)
    requires base + avail <= out.Length && Typed4(v) && Strings4(v)
    modifies out
    ensures Encodes(version == 4 && Ok(Socks4Request(), v), Enc(Socks4Request(), v), old(out[..]), out[..], base, avail, r)
    ensures Refuses(version == 4 && Ok(Socks4Request(), v), old(out[..]), out[..], r)
  {
    Encoding4(v);
    if version != 4 || !Command4(v.command) { return -1; }
    r := PutFields(out, base, avail, Fields4Of(v) + [Host4Field(v)]);
  }

  /** The verdict on port, address and user name, flat. */
  function Middle4At(s: Bytes): Verdict<(nat, (nat, Bytes))> {
    if |s| < 6 then Truncated else
      var t := s[6..];
      if Terminator(t) == |t| then Truncated
      else Done((FromBigEndian(s[..2]), (FromBigEndian(s[2..6]), t[..Terminator(t)])), 6 + (Terminator(t) + 1))
  }

  lemma Middle4Parsing(s: Bytes)
    ensures Pair(Int(2), Pair(Int(4), NulString())).dec(s) == Middle4At(s)
  {
    PairParsing(Int(2), Pair(Int(4), NulString()), s);
    if |s| >= 2 {
      var u := s[2..];
      PairParsing(Int(4), NulString(), u);
      if |s| >= 6 {
        assert u[..4] == s[2..6] && u[4..] == s[6..];
      }
    }
  }

  /** The verdict on everything up to the user name, flat. */
  function Head4At(s: Bytes): Verdict<(nat, (nat, (nat, (nat, Bytes))))> {
    if |s| < 1 then Truncated
    else if FromBigEndian(s[..1]) != 4 then Invalid
    else if |s| < 2 then Truncated
    else if !Command4(FromBigEndian(s[1..2])) then Invalid
    else match Middle4At(s[2..])
      case Done(m, n) => Done((4, (FromBigEndian(s[1..2]), m)), 2 + n)
      case Invalid => Invalid
      case Truncated => Truncated
  }

  lemma Head4Parsing(s: Bytes)
    ensures Head4().dec(s) == Head4At(s)
  {
    var four := (n: nat) => n == 4;
    var p2 := Pair(Int(2), Pair(Int(4), NulString()));
    PairParsing(Only(Int(1), four), Pair(Only(Int(1), Command4), p2), s);
    OnlyParsing(four, s);
    if |s| >= 1 {
      var t := s[1..];
      PairParsing(Only(Int(1), Command4), p2, t);
      OnlyParsing(Command4, t);
      if |s| >= 2 {
        assert t[..1] == s[1..2] && t[1..] == s[2..];
        Middle4Parsing(s[2..]);
      }
    }
  }

  /** Everything up to the user name. */
  method ParseHead4(input: Bytes) returns (r: int, command: nat, port: nat, addr: nat, username: Bytes)
    ensures Reports(Head4At(input), r, (4, (command, (port, (addr, username))))) && r <= |input|
  {
    command, port, addr, username := 0, 0, 0, [];
    if |input| < 1 { r := -2; return; }
    var version := GetInt(input, 0, 1);
    if version != 4 { r := -1; return; }
    if |input| < 2 { r := -2; return; }
    command := GetInt(input, 1, 1);
    if !Command4(command) { r := -1; return; }
    var s := input[2..];
    if |s| < 2 { r := -2; return; }
    port := GetInt(s, 0, 2);
    if |s| - 2 < 4 { r := -2; return; }
    addr := GetInt(s, 2, 4);
    var t := s[6..];
    var k := FindNul(t);
    if k == |t| { r := -2; return; }
    username := t[..k];
    r := 2 + (6 + (k + 1));
  }

  lemma Parsing4(s: Bytes)
    ensures Dec(Socks4Request(), s) == match Head4At(s)
      case Done(h, n) =>
        if n > |s| then Invalid
        else (match Host4(h.1.1.1.0).dec(s[n..])
              case Done(b, m) => Done(To4((h, b)), n + m)
              case Invalid => Invalid
              case Truncated => Truncated)
      case Invalid => Invalid
      case Truncated => Truncated
  {
    Head4Parsing(s);
    var f := (h: (nat, (nat, (nat, (nat, Bytes))))) => Host4(h.1.1.1.0);
    MapParsing(Fields4(), To4, From4, s);
    DepParsing(Head4(), f, s);
  }

  /** socks4_client_request_parse_into */
  method Parse4(input: Bytes) returns (r: int, obj: Request4)
    ensures Reports(Dec(Socks4Request(), input), r, obj)
  {
    Parsing4(input);
    var command, port, addr, username;
    r, command, port, addr, username := ParseHead4(input);
    obj := Request4(command, port, addr, username, []);
    if r < 0 { return; }
    if Names(addr) {
      var t := input[r..];
      var k := FindNul(t);
      if k == |t| { return -2, obj; }
      obj := Request4(command, port, addr, username, t[..k]);
      r := r + (k + 1);
    }
  }

  // ----- socks5_client_version, socks5_client_userpass_auth -----

  lemma VersionEncoding(version: nat, n: nat, methods: Bytes)
    requires version < 256 && n < 256
    ensures Enc(ClientVersion(), (version, (n, methods))) == Cat([BigEndian(1, version), BigEndian(1, n), methods])
    ensures Ok(ClientVersion(), (version, (n, methods))) <==> version == 5 && |methods| == n
  {
    OneByte(0);
    var five := (n: nat) => n == 5;
    OnlyEncoding(five, 1, version);
    BlobEncoding(1, n, methods);
    PairEncoding(Only(Int(1), five), Blob(1), version, (n, methods));
    Cat3(BigEndian(1, version), BigEndian(1, n), methods);
  }

  /** socks5_client_version_encode */
  method EncodeVersion(out: array<Byte>, base: nat, avail: nat, version: nat, n: nat, methods: Bytes) returns (r: int)
    requires base + avail <= out.Length && version < 256 && n < 256
    modifies out
    ensures Encodes(Ok(ClientVersion(), (version, (n, methods))), Enc(ClientVersion(), (version, (n, methods))), old(out[..]), out[..], base, avail, r)
    ensures Refuses(Ok(ClientVersion(), (version, (n, methods))), old(out[..]), out[..], r)
  {
    VersionEncoding(version, n, methods);
    if version != 5 || |methods| != n { return -1; }
    r := PutFields(out, base, avail, [BigEndian(1, version), BigEndian(1, n), methods]);
  }

  /** A length byte and that many bytes. */
  method ParseBlob(input: Bytes) returns (r: int, n: nat, b: Bytes)
    ensures Reports(Dec(Blob(1), input), r, (n, b)) && r <= |input|
  {
    BlobParsing(1, input);
    n, b := 0, [];
    if |input| < 1 { return -2, n, b; }
    n := GetInt(input, 0, 1);
    if |input| - 1 < n { return -2, n, b; }
    b := input[1..1 + n];
    r := 1 + n;
  }

  /** socks5_client_version_parse_into */
  method ParseVersion(input: Bytes) returns (r: int, n: nat, methods: Bytes)
    ensures Reports(Dec(ClientVersion(), input), r, (5, (n, methods)))
  {
    ghost var five := (n: nat) => n == 5;
    PairParsing(Only(Int(1), five), Blob(1), input);
    OnlyParsing(five, input);
    n, methods := 0, [];
    if |input| < 1 { return -2, n, methods; }
    var version := GetInt(input, 0, 1);
    if version != 5 { return -1, n, methods; }
    r, n, methods := ParseBlob(input[1..]);
    if r >= 0 { r := 1 + r; }
  }

  lemma UserPassEncoding(version: nat, n: nat, user: Bytes, m: nat, pass: Bytes)
    requires version < 256 && n < 256 && m < 256
    ensures Enc(UserPass(), (version, ((n, user), (m, pass)))) == Cat([BigEndian(1, version), BigEndian(1, n), user, BigEndian(1, m), pass])
    ensures Ok(UserPass(), (version, ((n, user), (m, pass)))) <==> version == 1 && |user| == n && |pass| == m
  {
    OneByte(0);
    var one := (n: nat) => n == 1;
    OnlyEncoding(one, 1, version);
    BlobEncoding(1, n, user);
    BlobEncoding(1, m, pass);
    PairEncoding(Blob(1), Blob(1), (n, user), (m, pass));
    PairEncoding(Only(Int(1), one), Pair(Blob(1), Blob(1)), version, ((n, user), (m, pass)));
    Cat5(BigEndian(1, version), BigEndian(1, n), user, BigEndian(1, m), pass);
    Assoc3(BigEndian(1, n), user, BigEndian(1, m) + pass);
  }

  /** socks5_client_userpass_auth_encode */
  method EncodeUserPass(out: array<Byte>, base: nat, avail: nat, version: nat, n: nat, user: Bytes, m: nat, pass: Bytes) returns (r: int)
    requires base + avail <= out.Length && version < 256 && n < 256 && m < 256
    modifies out
    ensures Encodes(Ok(UserPass(), (version, ((n, user), (m, pass)))), Enc(UserPass(), (version, ((n, user), (m, pass)))), old(out[..]), out[..], base, avail, r)
    ensures Refuses(Ok(UserPass(), (version, ((n, user), (m, pass)))), old(out[..]), out[..], r)
  {
    UserPassEncoding(version, n, user, m, pass);
    if version != 1 || |user| != n || |pass| != m { return -1; }
    r := PutFields(out, base, avail, [BigEndian(1, version), BigEndian(1, n), user, BigEndian(1, m), pass]);
  }

  /** socks5_client_userpass_auth_parse_into */
  method ParseUserPass(input: Bytes) returns (r: int, n: nat, user: Bytes, m: nat, pass: Bytes)
    ensures Reports(Dec(UserPass(), input), r, (1, ((n, user), (m, pass))))
  {
    ghost var one := (n: nat) => n == 1;
    PairParsing(Only(Int(1), one), Pair(Blob(1), Blob(1)), input);
    OnlyParsing(one, input);
    n, user, m, pass := 0, [], 0, [];
    if |input| < 1 { r := -2; return; }
    var version := GetInt(input, 0, 1);
    if version != 1 { r := -1; return; }
    var t := input[1..];
    PairParsing(Blob(1), Blob(1), t);
    r, n, user := ParseBlob(t);
    if r < 0 { return; }
    var k;
    k, m, pass := ParseBlob(t[r..]);
    r := if k < 0 then k else 1 + r + k;
  }
}
