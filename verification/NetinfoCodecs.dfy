/**
  The encoders and parsers of trunnel/netinfo.c and sendme_cell.c, whose parsers skip
  payloads that they do not keep, against the formats they implement.
 */
module NetinfoCodecs {

  import opened Wire
  import opened Cursor
  import opened LinkFormats

  // ----- netinfo_addr -----

  predicate AddrTyped(v: NetAddr) {
    match v
    case V4(a) => a < Limit(4)
    case V6(b) => |b| == 16
    case Unknown(ty) => ty < 256 && ty != ADDR_IPV4 && ty != ADDR_IPV6
  }

  function AddrFields(v: NetAddr): seq<Bytes> {
    match v
    case V4(a) => [BigEndian(4, a)]
    case V6(b) => [b]
    case Unknown(_) => []
  }

  lemma AddrArm(v: NetAddr)
    requires AddrTyped(v)
    ensures AddrBody(AddrType(v)).enc(v) == Cat(AddrFields(v)) && AddrBody(AddrType(v)).ok(v) && |Cat(AddrFields(v))| <= 16
  {
    match v
    case V4(a) => Cat1(BigEndian(4, a));
    case V6(b) => Cat1(b);
    case Unknown(_) =>
  }

  lemma AddrEncoding(v: NetAddr)
    requires AddrTyped(v)
    ensures var a := Cat(AddrFields(v)); Enc(NetinfoAddr(), v) == BigEndian(1, AddrType(v)) + (BigEndian(1, |a|) + a) && |a| <= 16
    ensures Ok(NetinfoAddr(), v)
  {
    AddrArm(v);
    OneByte(0);
    TaggedOk(1, 1, AddrBody, AddrType, v);
    TaggedEncoding(1, 1, AddrBody, AddrType, v, Cat(AddrFields(v)));
  }

  /** netinfo_addr_encode; `len` is what the object's length field holds before it is written back. */
  method EncodeAddr(out: array<Byte>, base: nat, avail: nat, v: NetAddr, len: Byte) returns (r: int)
    requires base + avail <= out.Length && AddrTyped(v)
    modifies out
    ensures Encodes(Ok(NetinfoAddr(), v), Enc(NetinfoAddr(), v), old(out[..]), out[..], base, avail, r)
  {
    AddrEncoding(v);
    Cat1(BigEndian(1, AddrType(v)));
    OneByte(0);
    assert [] + Cat(AddrFields(v)) == Cat(AddrFields(v));
    r := PutSized(out, base, avail, [BigEndian(1, AddrType(v))], 1, 1, [len], [], AddrFields(v));
  }

  /** The union inside its window `w`; the payload of an unknown type is skipped to the end. */
  method ParseAddrArm(w: Bytes, ty: nat) returns (ok: bool, obj: NetAddr, used: nat)
    ensures var d := AddrBody(ty).dec(w); if ok then d == Done(obj, used) else !d.Done?
  {
    ok, obj, used := false, Unknown(ty), 0;
    if ty == ADDR_IPV4 {
      if |w| < 4 { return; }
      var a := GetInt(w, 0, 4);
      ok, obj, used := true, V4(a), 4;
    } else if ty == ADDR_IPV6 {
      if |w| < 16 { return; }
      ok, obj, used := true, V6(w[..16]), 16;
    } else {
      ok, used := true, |w|;
    }
  }

  /** netinfo_addr_parse_into */
  method ParseAddr(input: Bytes) returns (r: int, obj: NetAddr)
    ensures Reports(Dec(NetinfoAddr(), input), r, obj)
  {
    TaggedParsing(1, 1, AddrBody, AddrType, input);
    var remaining := |input|;
    obj := Unknown(0);
    if remaining < 1 { return -2, obj; }
    var ty := GetInt(input, 0, 1);
    if remaining - 1 < 1 { return -2, obj; }
    var len := GetInt(input, 1, 1);
    if remaining - 2 < len { return -2, obj; }
    var ok, used;
    ok, obj, used := ParseAddrArm(input[2..2 + len], ty);
    if !ok || used != len { return -1, obj; }
    r := 2 + len;
  }

  /** Re-encoding a parsed address reproduces its bytes exactly when nothing was skipped: its type is known, or it had no payload. */
  lemma AddrExactIff(s: Bytes)
    requires Dec(NetinfoAddr(), s).Done?
    ensures var d := Dec(NetinfoAddr(), s);
      && 2 <= d.used <= |s| && AddrTyped(d.value) && |Enc(NetinfoAddr(), d.value)| <= d.used
      && (Enc(NetinfoAddr(), d.value) == s[..d.used] <==> !d.value.Unknown? || s[1] == 0)
      && (|Enc(NetinfoAddr(), d.value)| == d.used <==> !d.value.Unknown? || s[1] == 0)
  {
    var ty, n, w := TaggedParts(1, 1, AddrBody, AddrType, s, 2);
    var d := Dec(NetinfoAddr(), s);
    AddrExactAt(s, ty, n, w, d.value, d.used);
  }

  lemma AddrExactAt(s: Bytes, ty: nat, n: nat, w: Bytes, v: NetAddr, used: nat)
    requires 2 <= |s| && ty == FromBigEndian(s[..1]) && n == FromBigEndian(s[1..2]) && used == 2 + n <= |s| && w == s[2..2 + n]
    requires Dec(AddrBody(ty), w) == Done(v, n)
    ensures AddrTyped(v) && |Enc(NetinfoAddr(), v)| <= used
    ensures Enc(NetinfoAddr(), v) == s[..used] <==> !v.Unknown? || s[1] == 0
    ensures |Enc(NetinfoAddr(), v)| == used <==> !v.Unknown? || s[1] == 0
  {
    HeadBytes(s, n, w);
    ParsedAddr(ty, w, v);
    AddrEncoding(v);
    if v.Unknown? && s[1] == 0 {
      assert w == [];
    }
  }

  /** The first bytes of an input, from the numbers they stand for. */
  lemma HeadBytes(s: Bytes, n: nat, w: Bytes)
    requires 2 <= |s| && n == FromBigEndian(s[1..2]) && 2 + n <= |s| && w == s[2..2 + n]
    ensures s[1] == n && FromBigEndian(s[..1]) < 256
    ensures s[..2 + n] == BigEndian(1, FromBigEndian(s[..1])) + (BigEndian(1, n) + w)
  {
    FromBigEndianBack(s[..1]);
    FromBigEndianBack(s[1..2]);
    OneByte(n);
    assert s[..2 + n] == s[..1] + (s[1..2] + w);
  }

  lemma ParsedAddr(ty: nat, w: Bytes, v: NetAddr)
    requires ty < 256 && Dec(AddrBody(ty), w) == Done(v, |w|)
    ensures AddrTyped(v) && AddrType(v) == ty && Cat(AddrFields(v)) == if v.Unknown? then [] else w
  {
    if ty == ADDR_IPV4 {
      FromBigEndianBack(w);
      assert w[..4] == w;
      Cat1(w);
    } else if ty == ADDR_IPV6 {
      assert w[..16] == w;
      Cat1(w);
    }
  }

  // ----- netinfo_cell -----

  ghost predicate AddrsTyped(vs: seq<NetAddr>) {
    forall i {:trigger vs[i]} :: 0 <= i < |vs| ==> AddrTyped(vs[i])
  }

  method PutAddrs(out: array<Byte>, base: nat, avail: nat, vs: seq<NetAddr>, lens: seq<Byte>) returns (r: int)
    requires base + avail <= out.Length && AddrsTyped(vs) && |lens| == |vs|
    modifies out
    ensures Encodes(RepOk(NetinfoAddr(), vs), EncodeAll(NetinfoAddr(), vs), old(out[..]), out[..], base, avail, r)
  {
    ghost var c, before := NetinfoAddr(), out[..];
    r := 0;
    var i := 0;
    NoneEncoded(c, vs, before, base, avail);
    while i < |vs|
      invariant 0 <= i <= |vs| && 0 <= r <= avail
      invariant Encodes(RepOk(c, vs[..i]), EncodeAll(c, vs[..i]), before, out[..], base, avail, r)
    {
      ghost var mid := out[..];
      var base', avail' := base + r, avail - r;
      var n := EncodeAddr(out, base', avail', vs[i], lens[i]);
      OneMoreEncoded(c, vs, i, i + 1, before, mid, out[..], base, avail, r, base', avail', n);
      if n < 0 { return n; }
      r, i := r + n, i + 1;
    }
    assert vs[..i] == vs;
  }

  lemma CellEncoding(t: nat, other: NetAddr, n: nat, my: seq<NetAddr>)
    requires t < Limit(4) && AddrTyped(other) && n < 256
    ensures Enc(NetinfoCell(), (t, (other, (n, my)))) == BigEndian(4, t) + (Enc(NetinfoAddr(), other) + (BigEndian(1, n) + EncodeAll(NetinfoAddr(), my)))
    ensures Ok(NetinfoCell(), (t, (other, (n, my)))) <==> |my| == n && RepOk(NetinfoAddr(), my)
  {
    OneByte(0);
    AddrEncoding(other);
    CountedEncoding(1, NetinfoAddr(), n, my);
    PairEncoding(NetinfoAddr(), Counted(1, NetinfoAddr()), other, (n, my));
    PairEncoding(Int(4), Pair(NetinfoAddr(), Counted(1, NetinfoAddr())), t, (other, (n, my)));
  }

  /** n_my_addrs and my_addrs. */
  method PutMyAddrs(out: array<Byte>, base: nat, avail: nat, n: nat, my: seq<NetAddr>, lens: seq<Byte>) returns (r: int)
    requires base + avail <= out.Length && AddrsTyped(my) && |lens| == |my|
    modifies out
    ensures Encodes(RepOk(NetinfoAddr(), my), BigEndian(1, n) + EncodeAll(NetinfoAddr(), my), old(out[..]), out[..], base, avail, r)
  {
    ghost var before, good, e, e' := out[..], RepOk(NetinfoAddr(), my), BigEndian(1, n), EncodeAll(NetinfoAddr(), my);
    Cat1(e);
    r := PutFields(out, base, avail, [BigEndian(1, n)]);
    if r < 0 {
      EncodesNot(true, e, good, e', before, out[..], base, avail, r);
      return;
    }
    ghost var mid := out[..];
    var base', avail' := base + r, avail - r;
    var k := PutAddrs(out, base', avail', my, lens);
    EncodesThen(true, e, good, e', before, mid, out[..], base, avail, r, base', avail', k);
    r := if k < 0 then k else r + k;
  }

  /** other_addr, then n_my_addrs and my_addrs. */
  method PutAllAddrs(out: array<Byte>, base: nat, avail: nat, other: NetAddr, len: Byte, n: nat, my: seq<NetAddr>, lens: seq<Byte>) returns (r: int)
    requires base + avail <= out.Length && AddrTyped(other) && AddrsTyped(my) && |lens| == |my|
    modifies out
    ensures Encodes(RepOk(NetinfoAddr(), my), Enc(NetinfoAddr(), other) + (BigEndian(1, n) + EncodeAll(NetinfoAddr(), my)), old(out[..]), out[..], base, avail, r)
  {
    ghost var before, good, e, e' := out[..], RepOk(NetinfoAddr(), my), Enc(NetinfoAddr(), other), BigEndian(1, n) + EncodeAll(NetinfoAddr(), my);
    AddrEncoding(other);
    r := EncodeAddr(out, base, avail, other, len);
    if r < 0 {
      EncodesNot(true, e, good, e', before, out[..], base, avail, r);
      return;
    }
    ghost var mid := out[..];
    EncodesBound(true, e, before, mid, base, avail, r);
    var base', avail' := base + r, avail - r;
    var k := PutMyAddrs(out, base', avail', n, my, lens);
    EncodesThen(true, e, good, e', before, mid, out[..], base, avail, r, base', avail', k);
    r := if k < 0 then k else r + k;
  }

  /** The checks of the addresses have nothing to object to. */
  lemma AddrsOk(vs: seq<NetAddr>)
    requires AddrsTyped(vs)
    ensures RepOk(NetinfoAddr(), vs)
  {
    RepOkEach(NetinfoAddr(), vs);
    forall i | 0 <= i < |vs| ensures Ok(NetinfoAddr(), vs[i]) {
      AddrEncoding(vs[i]);
    }
  }

  /** netinfo_cell_encode */
  method EncodeNetinfo(out: array<Byte>, base: nat, avail: nat, t: nat, other: NetAddr, len: Byte, n: nat, my: seq<NetAddr>, lens: seq<Byte>) returns (r: int)
    requires base + avail <= out.Length && t < Limit(4) && AddrTyped(other) && n < 256 && AddrsTyped(my) && |lens| == |my|
    modifies out
    ensures Encodes(Ok(NetinfoCell(), (t, (other, (n, my)))), Enc(NetinfoCell(), (t, (other, (n, my)))), old(out[..]), out[..], base, avail, r)
    ensures Refuses(Ok(NetinfoCell(), (t, (other, (n, my)))), old(out[..]), out[..], r)
  {
    CellEncoding(t, other, n, my);
    AddrsOk(my);
    if |my| != n { return -1; }
    ghost var before, good, e, e' := out[..], RepOk(NetinfoAddr(), my), BigEndian(4, t), Enc(NetinfoAddr(), other) + (BigEndian(1, n) + EncodeAll(NetinfoAddr(), my));
    Cat1(e);
    r := PutFields(out, base, avail, [BigEndian(4, t)]);
    if r < 0 {
      EncodesNot(true, e, good, e', before, out[..], base, avail, r);
      return;
    }
    ghost var mid := out[..];
    var base', avail' := base + r, avail - r;
    var k := PutAllAddrs(out, base', avail', other, len, n, my, lens);
    EncodesThen(true, e, good, e', before, mid, out[..], base, avail, r, base', avail', k);
    r := if k < 0 then k else r + k;
  }

  method ParseAddrs(input: Bytes, n: nat) returns (r: int, vs: seq<NetAddr>)
    ensures Reports(RepDec(NetinfoAddr(), n, input), r, vs) && r <= |input|
  {
    ghost var c := NetinfoAddr();
    NetinfoAddrLawful();
    var ptr, idx := 0, 0;
    vs := [];
    ghost var left: nat := n;
    assert input[0..] == input;
    StartLoop(RepDec(c, n, input));
    while idx < n
      invariant 0 <= idx <= n && left == n - idx && 0 <= ptr <= |input|
      invariant RepDec(c, n, input) == After(vs, ptr, RepDec(c, left, input[ptr..]))
    {
      var k, elt := ParseAddr(input[ptr..]);
      if k < 0 { return k, vs; }
      assert Sane(c, input[ptr..]);
      var ptr' := ptr + k;
      ghost var left' := left - 1;
      RepStep(c, vs, ptr, left, input, elt, k, ptr', left');
      vs, ptr, idx, left := vs + [elt], ptr', idx + 1, left';
    }
    r := ptr;
    assert vs + [] == vs;
  }

  /** n_my_addrs and my_addrs. */
  method ParseMyAddrs(input: Bytes) returns (r: int, n: nat, my: seq<NetAddr>)
    ensures Reports(Dec(Counted(1, NetinfoAddr()), input), r, (n, my))
  {
    CountedParsing(1, NetinfoAddr(), input);
    n, my := 0, [];
    if |input| < 1 { return -2, n, my; }
    n := GetInt(input, 0, 1);
    r, my := ParseAddrs(input[1..], n);
    if r >= 0 { r := r + 1; }
  }

  /** netinfo_cell_parse_into */
  method ParseNetinfo(input: Bytes) returns (r: int, t: nat, other: NetAddr, n: nat, my: seq<NetAddr>)
    ensures Reports(Dec(NetinfoCell(), input), r, (t, (other, (n, my))))
  {
    PairParsing(Int(4), Pair(NetinfoAddr(), Counted(1, NetinfoAddr())), input);
    t, other, n, my := 0, Unknown(0), 0, [];
    if |input| < 4 { r := -2; return; }
    t := GetInt(input, 0, 4);
    r, other, n, my := ParseAllAddrs(input[4..]);
    if r >= 0 { r := r + 4; }
  }

  method ParseAllAddrs(input: Bytes) returns (r: int, other: NetAddr, n: nat, my: seq<NetAddr>)
    ensures Reports(Dec(Pair(NetinfoAddr(), Counted(1, NetinfoAddr())), input), r, (other, (n, my)))
  {
    NetinfoAddrLawful();
    PairParsing(NetinfoAddr(), Counted(1, NetinfoAddr()), input);
    n, my := 0, [];
    r, other := ParseAddr(input);
    if r < 0 { return; }
    assert Sane(NetinfoAddr(), input);
    var k;
    k, n, my := ParseMyAddrs(input[r..]);
    r := if k < 0 then k else r + k;
  }

  // ----- what re-encoding a netinfo_cell reproduces -----

  /** Among the `n` addresses at the start of `s` there is one of an unknown type with a payload. */
  ghost predicate Skips(n: nat, s: Bytes) {
    var d := Dec(NetinfoAddr(), s);
    n > 0 && d.Done? && 2 <= d.used <= |s| && ((d.value.Unknown? && s[1] != 0) || Skips(n - 1, s[d.used..]))
  }

  /** The same of a whole cell: other_addr after the 4 bytes of the timestamp, then the count and my_addrs. */
  ghost predicate CellSkips(s: Bytes) {
    && 4 <= |s| && var d := Dec(NetinfoAddr(), s[4..]);
    && d.Done? && 4 + d.used < |s|
    && (Skips(1, s[4..]) || Skips(s[4 + d.used], s[5 + d.used..]))
  }

  lemma {:induction false} AddrsExactIff(n: nat, s: Bytes)
    requires RepDec(NetinfoAddr(), n, s).Done?
    ensures var d := RepDec(NetinfoAddr(), n, s);
      && d.used <= |s| && |EncodeAll(NetinfoAddr(), d.value)| <= d.used
      && (|EncodeAll(NetinfoAddr(), d.value)| == d.used <==> !Skips(n, s))
      && (EncodeAll(NetinfoAddr(), d.value) == s[..d.used] <==> !Skips(n, s))
  {
    if n > 0 {
      var c := NetinfoAddr();
      var d := Dec(c, s);
      AddrExactIff(s);
      var k, t := d.used, s[d.used..];
      AddrsExactIff(n - 1, t);
      var rest := RepDec(c, n - 1, t);
      AddrsMore(d.value, rest.value, [d.value] + rest.value);
      JoinedIff(Enc(c, d.value), EncodeAll(c, rest.value), s, k, rest.used);
    }
  }

  lemma AddrsMore(v: NetAddr, rest: seq<NetAddr>, vs: seq<NetAddr>)
    requires vs == [v] + rest
    ensures EncodeAll(NetinfoAddr(), vs) == Enc(NetinfoAddr(), v) + EncodeAll(NetinfoAddr(), rest)
  {
    assert vs[1..] == rest;
  }

  /** Two encodings, neither longer than the bytes it came from, give those bytes back together if and only if both do. */
  lemma JoinedIff(e: Bytes, f: Bytes, s: Bytes, k: nat, m: nat)
    requires k + m <= |s| && |e| <= k && |f| <= m
    ensures |e + f| == k + m <==> |e| == k && |f| == m
    ensures e + f == s[..k + m] <==> e == s[..k] && f == s[k..][..m]
  {
    assert s[..k + m] == s[..k] + s[k..][..m];
    if e + f == s[..k + m] {
      assert e == (e + f)[..|e|] && f == (e + f)[|e|..];
    }
  }

  /** n_my_addrs and my_addrs, parsed from `t`. */
  lemma MyAddrsExactIff(t: Bytes, n: nat, my: seq<NetAddr>, m: nat)
    requires Dec(Counted(1, NetinfoAddr()), t) == Done((n, my), m)
    ensures 1 <= m <= |t| && n == t[0] && |MyAddrs(n, my)| <= m
    ensures |MyAddrs(n, my)| == m <==> !Skips(n, t[1..])
    ensures MyAddrs(n, my) == t[..m] <==> !Skips(n, t[1..])
  {
    CountedParsing(1, NetinfoAddr(), t);
    FromBigEndianBack(t[..1]);
    OneByte(t[0]);
    AddrsExactIff(n, t[1..]);
    JoinedIff(BigEndian(1, n), EncodeAll(NetinfoAddr(), my), t, 1, m - 1);
  }

  /** How n_my_addrs and my_addrs are encoded. */
  ghost function MyAddrs(n: nat, my: seq<NetAddr>): Bytes { BigEndian(1, n) + EncodeAll(NetinfoAddr(), my) }

  /** other_addr, from `k` bytes of `t`, and the others from `m` bytes after it. */
  lemma AllAddrsExactIff(t: Bytes, other: NetAddr, k: nat, n: nat, my: seq<NetAddr>, m: nat)
    requires Dec(NetinfoAddr(), t) == Done(other, k) && k <= |t| && Dec(Counted(1, NetinfoAddr()), t[k..]) == Done((n, my), m)
    ensures 2 <= k < k + m <= |t| && AddrTyped(other) && n == t[k] && |Enc(NetinfoAddr(), other) + MyAddrs(n, my)| <= k + m
    ensures Enc(NetinfoAddr(), other) + MyAddrs(n, my) == t[..k + m] <==> !(Skips(1, t) || Skips(n, t[k + 1..]))
  {
    AddrExactIff(t);
    MyAddrsExactIff(t[k..], n, my, m);
    assert t[k..][1..] == t[k + 1..];
    JoinedIff(Enc(NetinfoAddr(), other), MyAddrs(n, my), t, k, m);
    assert Skips(1, t) <==> other.Unknown? && t[1] != 0;
  }

  lemma CellSkipsIs(s: Bytes, t: Bytes, other: NetAddr, k: nat, n: nat)
    requires 4 <= |s| && t == s[4..] && Dec(NetinfoAddr(), t) == Done(other, k) && k < |t| && n == t[k]
    ensures CellSkips(s) <==> Skips(1, t) || Skips(n, t[k + 1..])
  {
    assert t[k] == s[4 + k] && t[k + 1..] == s[5 + k..];
  }

  /** The four bytes of the timestamp are always reproduced; `e` stands for what follows them. */
  lemma AfterTime(s: Bytes, e: Bytes, m: nat, used: nat, whole: Bytes, exact: bool)
    requires used == 4 + m <= |s| && |e| <= m && (e == s[4..][..m] <==> exact) && whole == BigEndian(4, FromBigEndian(s[..4])) + e
    ensures |whole| <= used && (whole == s[..used] <==> exact)
  {
    FromBigEndianBack(s[..4]);
    JoinedIff(s[..4], e, s, 4, m);
  }

  /** The parts of a netinfo_cell. */
  lemma NetinfoParts(s: Bytes) returns (t: Bytes, other: NetAddr, k: nat, n: nat, my: seq<NetAddr>, m: nat)
    requires Dec(NetinfoCell(), s).Done?
    ensures 4 <= |s| && t == s[4..]
    ensures Dec(NetinfoAddr(), t) == Done(other, k) && k <= |t| && Dec(Counted(1, NetinfoAddr()), t[k..]) == Done((n, my), m)
    ensures Dec(NetinfoCell(), s) == Done((FromBigEndian(s[..4]), (other, (n, my))), 4 + (k + m))
  {
    PairParsing(Int(4), Pair(NetinfoAddr(), Counted(1, NetinfoAddr())), s);
    assert Int(4).dec(s) == if |s| < 4 then Truncated else Done(FromBigEndian(s[..4]), 4);
    t := s[4..];
    PairParsing(NetinfoAddr(), Counted(1, NetinfoAddr()), t);
    NetinfoAddrLawful();
    assert Sane(NetinfoAddr(), t);
    var a := Dec(NetinfoAddr(), t);
    other, k := a.value, a.used;
    var b := Dec(Counted(1, NetinfoAddr()), t[k..]);
    n, my, m := b.value.0, b.value.1, b.used;
  }

  /** Re-encoding a parsed netinfo_cell reproduces its bytes if and only if every address of an unknown type had no payload. */
  lemma NetinfoExactIff(s: Bytes)
    requires Dec(NetinfoCell(), s).Done?
    ensures var d := Dec(NetinfoCell(), s);
      d.used <= |s| && |Enc(NetinfoCell(), d.value)| <= d.used && (Enc(NetinfoCell(), d.value) == s[..d.used] <==> !CellSkips(s))
  {
    var t, other, k, n, my, m := NetinfoParts(s);
    var d := Dec(NetinfoCell(), s);
    var e, j := RestExactIff(s, t, other, k, n, my, m);
    WholeCell(s, other, n, my, e, d.value);
    AfterTime(s, e, j, d.used, Enc(NetinfoCell(), d.value), !CellSkips(s));
  }

  lemma RestExactIff(s: Bytes, t: Bytes, other: NetAddr, k: nat, n: nat, my: seq<NetAddr>, m: nat) returns (e: Bytes, j: nat)
    requires 4 <= |s| && t == s[4..]
    requires Dec(NetinfoAddr(), t) == Done(other, k) && k <= |t| && Dec(Counted(1, NetinfoAddr()), t[k..]) == Done((n, my), m)
    ensures AddrTyped(other) && n < 256 && e == Enc(NetinfoAddr(), other) + MyAddrs(n, my) && j == k + m && |e| <= j <= |t|
    ensures e == s[4..][..j] <==> !CellSkips(s)
  {
    e, j := Enc(NetinfoAddr(), other) + MyAddrs(n, my), k + m;
    AllAddrsExactIff(t, other, k, n, my, m);
    CellSkipsIs(s, t, other, k, n);
  }

  lemma WholeCell(s: Bytes, other: NetAddr, n: nat, my: seq<NetAddr>, e: Bytes, v: NetinfoValue)
    requires 4 <= |s| && AddrTyped(other) && n < 256 && e == Enc(NetinfoAddr(), other) + MyAddrs(n, my) && v == (FromBigEndian(s[..4]), (other, (n, my)))
    ensures Enc(NetinfoCell(), v) == BigEndian(4, FromBigEndian(s[..4])) + e
  {
    FromBigEndianBack(s[..4]);
    CellEncoding(FromBigEndian(s[..4]), other, n, my);
  }

  // ----- sendme_cell -----

  predicate SendmeTyped(v: Sendme) { v.Version1? ==> |v.digest| == 20 }

  function SendmeFields(v: Sendme): seq<Bytes> {
    if v.Version1? then [v.digest] else []
  }

  lemma SendmeEncoding(v: Sendme)
    requires SendmeTyped(v)
    ensures var a := Cat(SendmeFields(v)); Enc(SendmeCell(), v) == BigEndian(1, SendmeVersion(v)) + (BigEndian(2, |a|) + a) && |a| <= 20
    ensures Ok(SendmeCell(), v)
  {
    OneByte(0);
    if v.Version1? { Cat1(v.digest); }
    var a := Cat(SendmeFields(v));
    var b := SendmeBody(SendmeVersion(v));
    assert b.enc(v) == a && b.ok(v);
    var z := Sized(2, b);
    assert z.enc(v) == BigEndian(2, |a|) + a && z.ok(v);
    var tag := Only(Int(1), (n: nat) => n == 0 || n == 1);
    var d := Dep(tag, (ty: nat) => Sized(2, SendmeBody(ty)));
    MapEncoding(d, (x: (nat, Sendme)) => x.1, (x: Sendme) => (SendmeVersion(x), x), v);
    assert d.enc((SendmeVersion(v), v)) == tag.enc(SendmeVersion(v)) + z.enc(v);
    assert d.ok((SendmeVersion(v), v)) == (tag.ok(SendmeVersion(v)) && z.ok(v));
  }

  /** sendme_cell_encode; `version` is the object's, and `v` what its union holds when that is 0 or 1. */
  method EncodeSendme(out: array<Byte>, base: nat, avail: nat, version: nat, v: Sendme, dataLen: nat) returns (r: int)
    requires base + avail <= out.Length && SendmeTyped(v) && (version <= 1 ==> version == SendmeVersion(v))
    modifies out
    ensures Encodes(version <= 1, Enc(SendmeCell(), v), old(out[..]), out[..], base, avail, r)
    ensures version <= 1 ==> Ok(SendmeCell(), v)
    ensures Refuses(version <= 1, old(out[..]), out[..], r)
  {
    SendmeEncoding(v);
    if !(version == 0 || version == 1) { return -1; }
    Cat1(BigEndian(1, SendmeVersion(v)));
    OneByte(0);
    assert [] + Cat(SendmeFields(v)) == Cat(SendmeFields(v));
    r := PutSized(out, base, avail, [BigEndian(1, SendmeVersion(v))], 1, 2, BigEndian(2, dataLen), [], SendmeFields(v));
  }

  /** The verdict on a sendme_cell, flat. */
  function SendmeAt(s: Bytes): Verdict<Sendme> {
    if |s| < 1 then Truncated
    else if FromBigEndian(s[..1]) > 1 then Invalid
    else match SendmeBodyAt(FromBigEndian(s[..1]), s[1..])
      case Done(v, n) => Done(v, 1 + n)
      case Invalid => Invalid
      case Truncated => Truncated
  }

  /** The verdict on data_len and the union. */
  function SendmeBodyAt(version: nat, t: Bytes): Verdict<Sendme> {
    if |t| < 2 || |t| - 2 < FromBigEndian(t[..2]) then Truncated else
      var n := FromBigEndian(t[..2]);
      if version == 0 then Done(Version0, 2 + n) else if n == 20 then Done(Version1(t[2..2 + n]), 2 + n) else Invalid
  }

  lemma SendmeParsing(s: Bytes)
    ensures Dec(SendmeCell(), s) == SendmeAt(s)
  {
    var tag, f := Only(Int(1), (n: nat) => n == 0 || n == 1), (ty: nat) => Sized(2, SendmeBody(ty));
    MapParsing(Dep(tag, f), (x: (nat, Sendme)) => x.1, (x: Sendme) => (SendmeVersion(x), x), s);
    DepParsing(tag, f, s);
    OnlyParsing((n: nat) => n == 0 || n == 1, s);
    if |s| >= 1 {
      var version := FromBigEndian(s[..1]);
      if version <= 1 { SendmeBodyParsing(version, s[1..]); }
    }
  }

  lemma SendmeBodyParsing(version: nat, t: Bytes)
    requires version <= 1
    ensures Sized(2, SendmeBody(version)).dec(t) == SendmeBodyAt(version, t)
  {
    assert Sized(2, SendmeBody(version)).dec(t) == SizedDec(2, SendmeBody(version), t);
    if |t| >= 2 {
      var n := FromBigEndian(t[..2]);
      if |t| - 2 >= n {
        var w := t[2..2 + n];
        assert n == 20 ==> w[..20] == w;
      }
    }
  }

  /** sendme_cell_parse_into */
  method ParseSendme(input: Bytes) returns (r: int, obj: Sendme)
    ensures Reports(Dec(SendmeCell(), input), r, obj)
  {
    SendmeParsing(input);
    obj := Version0;
    if |input| < 1 { return -2, obj; }
    var version := GetInt(input, 0, 1);
    if !(version == 0 || version == 1) { return -1, obj; }
    r, obj := ParseSendmeBody(input[1..], version);
    if r >= 0 { r := 1 + r; }
  }

  /** data_len and the union. */
  method ParseSendmeBody(input: Bytes, version: nat) returns (r: int, obj: Sendme)
    requires version <= 1
    ensures Reports(SendmeBodyAt(version, input), r, obj)
  {
    var remaining := |input|;
    obj := Version0;
    if remaining < 2 { return -2, obj; }
    var len := GetInt(input, 0, 2);
    if remaining - 2 < len { return -2, obj; }
    var left := len;
    if version == 0 {
      left := 0;
    } else {
      if left < 20 { return -1, obj; }
      assert len == 20 ==> input[2..22] == input[2..2 + len];
      obj := Version1(input[2..22]);
      left := left - 20;
    }
    if left != 0 { return -1, obj; }
    r := 2 + len;
  }

  /** Re-encoding a parsed sendme_cell reproduces its bytes if and only if its version is 1 or its data_len is 0. */
  lemma SendmeExactIff(s: Bytes)
    requires Dec(SendmeCell(), s).Done?
    ensures var d := Dec(SendmeCell(), s);
      && 3 <= d.used <= |s| && SendmeTyped(d.value) && |Enc(SendmeCell(), d.value)| <= d.used
      && (Enc(SendmeCell(), d.value) == s[..d.used] <==> d.value.Version1? || FromBigEndian(s[1..3]) == 0)
  {
    var n := SendmeParts(s);
    var d := Dec(SendmeCell(), s);
    FromBigEndianBack(s[..1]);
    FromBigEndianBack(s[1..3]);
    SendmeEncoding(d.value);
    SendmeBytes(s, d.value, n, d.used);
  }

  lemma SendmeParts(s: Bytes) returns (n: nat)
    requires Dec(SendmeCell(), s).Done?
    ensures 3 + n <= |s| && n == FromBigEndian(s[1..3]) && Dec(SendmeCell(), s).used == 3 + n
    ensures var v := Dec(SendmeCell(), s).value; FromBigEndian(s[..1]) == SendmeVersion(v) && (v.Version1? ==> n == 20 && v.digest == s[3..3 + n])
  {
    SendmeParsing(s);
    n := FromBigEndian(s[1..3]);
    var t := s[1..];
    assert t[..2] == s[1..3] && t[2..2 + n] == s[3..3 + n];
  }

  lemma SendmeBytes(s: Bytes, v: Sendme, n: nat, used: nat)
    requires 3 <= |s| && used == 3 + n <= |s| && n < Limit(2) && BigEndian(2, n) == s[1..3] && s[..1] == BigEndian(1, SendmeVersion(v))
    requires v.Version1? ==> n == 20 && v.digest == s[3..3 + n]
    ensures var a := Cat(SendmeFields(v)); var e := BigEndian(1, SendmeVersion(v)) + (BigEndian(2, |a|) + a);
      |e| <= used && (e == s[..used] <==> v.Version1? || n == 0)
  {
    var a := Cat(SendmeFields(v));
    if v.Version1? { Cat1(v.digest); }
    var l, w := BigEndian(2, n), s[3..3 + n];
    assert s[..used] == s[..1] + (l + w);
    if v.Version0? && n == 0 { assert w == []; }
  }
}
