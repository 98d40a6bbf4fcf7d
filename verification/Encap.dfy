/**
 The encapsulator of sfmc.c: Ethernet, IPv4 and optionally UDP headers are pushed in front of a packet, in place. A receiver
 that parses the frame gets the packet back.
 */
module Encap {
  import opened Wrappers
  import opened AddressBits
  import opened TrieGraph
  import opened TrieSearch
  import opened Routes
  import opened LocatorTable
  import opened DeviceDump
  import opened Checksum
  import opened Shifts

  const ETH_HLEN := 14
  const IP_HLEN := 20
  const UDP_HLEN := 8
  const ETH_P_IP := 0x0800

  /** The value of a byte. */
  function Octet(b: bv8): U8 {
    Weigh(b & 0x80 != 0, b & 0x40 != 0, b & 0x20 != 0, b & 0x10 != 0, b & 8 != 0, b & 4 != 0, b & 2 != 0, b & 1 != 0)
  }

  function Weigh(b7: bool, b6: bool, b5: bool, b4: bool, b3: bool, b2: bool, b1: bool, b0: bool): U8 {
    (if b7 then 0x80 else 0) + (if b6 then 0x40 else 0) + (if b5 then 0x20 else 0) + (if b4 then 0x10 else 0)
    + (if b3 then 8 else 0) + (if b2 then 4 else 0) + (if b1 then 2 else 0) + (if b0 then 1 else 0)
  }

  lemma WeighInjective(a7: bool, a6: bool, a5: bool, a4: bool, a3: bool, a2: bool, a1: bool, a0: bool,
                       b7: bool, b6: bool, b5: bool, b4: bool, b3: bool, b2: bool, b1: bool, b0: bool)
    requires Weigh(a7, a6, a5, a4, a3, a2, a1, a0) == Weigh(b7, b6, b5, b4, b3, b2, b1, b0)
    ensures a7 == b7 && a6 == b6 && a5 == b5 && a4 == b4 && a3 == b3 && a2 == b2 && a1 == b1 && a0 == b0
  {
    assert a7 == b7 && a6 == b6 && a5 == b5;
  }

  lemma SameBits(a: bv8, b: bv8)
    requires (a & 0x80 != 0) == (b & 0x80 != 0) && (a & 0x40 != 0) == (b & 0x40 != 0) && (a & 0x20 != 0) == (b & 0x20 != 0)
    requires (a & 0x10 != 0) == (b & 0x10 != 0) && (a & 8 != 0) == (b & 8 != 0) && (a & 4 != 0) == (b & 4 != 0)
    requires (a & 2 != 0) == (b & 2 != 0) && (a & 1 != 0) == (b & 1 != 0)
    ensures a == b
  {
  }

  /** No byte value is used twice, so an address read from a frame is the address that was written. */
  lemma OctetInjective(a: bv8, b: bv8)
    requires Octet(a) == Octet(b)
    ensures a == b
  {
    hide Weigh;
    WeighInjective(a & 0x80 != 0, a & 0x40 != 0, a & 0x20 != 0, a & 0x10 != 0, a & 8 != 0, a & 4 != 0, a & 2 != 0, a & 1 != 0,
                   b & 0x80 != 0, b & 0x40 != 0, b & 0x20 != 0, b & 0x10 != 0, b & 8 != 0, b & 4 != 0, b & 2 != 0, b & 1 != 0);
    SameBits(a, b);
  }

  function Octets(a: seq<bv8>): (o: seq<U8>)
    ensures |o| == |a|
  {
    if a == [] then [] else [Octet(a[0])] + Octets(a[1..])
  }

  /** Counting up a byte counts up its value: the value is the number the byte stands for. */
  lemma OctetCounts(b: bv8)
    ensures Octet(0) == 0 && (b != 0xFF ==> Octet(b + 1) == Octet(b) + 1)
  {
  }

  lemma {:induction false} OctetsInjective(a: seq<bv8>, b: seq<bv8>)
    requires Octets(a) == Octets(b)
    ensures a == b
  {
    assert |a| == |Octets(a)| == |Octets(b)| == |b|;
    if a != [] {
      assert Octets(a)[0] == Octet(a[0]) && Octets(b)[0] == Octet(b[0]);
      OctetInjective(a[0], b[0]);
      assert Octets(a)[1..] == Octets(a[1..]) && Octets(b)[1..] == Octets(b[1..]);
      OctetsInjective(a[1..], b[1..]);
      assert a == [a[0]] + a[1..] && b == [b[0]] + b[1..];
    }
  }

  // ---- the frame format ----------------------------------------------------------------------------------------------

  /** A 16-bit field; longer values lose their upper bits. */
  function Field16(w: nat): (o: seq<U8>)
    ensures |o| == 2 && Word(o[0], o[1]) == w % 0x1_0000
  {
    [High(w % 0x1_0000), Low(w % 0x1_0000)]
  }

  function UdpHeader(sport: nat, dport: nat, len: nat): (h: seq<U8>)
    ensures |h| == UDP_HLEN
  {
    Field16(sport) + Field16(dport) + Field16(len) + [0, 0]
  }

  /** With a zero checksum field */
  function IpHeader(len: nat, proto: U8, src: Ip, dst: Ip): (h: seq<U8>)
    ensures |h| == IP_HLEN
  {
    [0x45, 0] + Field16(len) + [0, 0, 0, 0, 64, proto, 0, 0] + Octets(src) + Octets(dst)
  }

  function EthHeader(dst: HwAddr, src: HwAddr): (h: seq<U8>)
    ensures |h| == ETH_HLEN
  {
    Octets(dst) + Octets(src) + [0x08, 0x00]
  }

  /** What a receiver reads. */
  datatype Parsed = Parsed(hwDst: seq<U8>, hwSrc: seq<U8>, tos: U8, ident: nat, ttl: U8, proto: U8, src: seq<U8>, dst: seq<U8>, ports: Option<(nat, nat)>, inner: seq<U8>)

  /** The checksum field of a datagram is zero, or it verifies together with the addresses, the protocol and the length. */
  predicate UdpSumOk(src: seq<U8>, dst: seq<U8>, proto: U8, body: seq<U8>)
    requires UDP_HLEN <= |body|
  {
    || (body[6] == 0 && body[7] == 0)
    || RfcChecksum(src + dst + [0, proto, body[4], body[5]] + body) == 0
  }

  /** A receiver: section 3.1 of RFC 791 without options, and the format of RFC 768. */
  function Parse(f: seq<U8>, udp: bool): Option<Parsed> {
    if |f| < ETH_HLEN + IP_HLEN || Word(f[12], f[13]) != ETH_P_IP then Option.None
    else
      var ip := f[ETH_HLEN..];
      var total := Word(ip[2], ip[3]);
      if ip[0] != 0x45 || total < IP_HLEN || total > |ip| || RfcChecksum(ip[..IP_HLEN]) != 0
         || ip[6] % 0x40 != 0 || ip[7] != 0 || ip[8] == 0
      then Option.None
      else
        var body := ip[IP_HLEN..total];
        if !udp then Some(Parsed(f[..6], f[6..12], ip[1], Word(ip[4], ip[5]), ip[8], ip[9], ip[12..16], ip[16..20], Option.None, body))
        else if |body| < UDP_HLEN || Word(body[4], body[5]) != |body| || !UdpSumOk(ip[12..16], ip[16..20], ip[9], body) then Option.None
        else Some(Parsed(f[..6], f[6..12], ip[1], Word(ip[4], ip[5]), ip[8], ip[9], ip[12..16], ip[16..20],
                         Some((Word(body[0], body[1]), Word(body[2], body[3]))), body[UDP_HLEN..]))
  }

  // ---- configuration -------------------------------------------------------------------------------------------------

  /** madcap_obj_config, madcap_obj_udp, the acquiring devices and the hardware address of the device */
  datatype Config = Config(enable: bool, vdev: seq<NetDev?>, offset: nat, length: nat, proto: U8, src: Ip,
                           udp: bool, sport: nat, dport: nat, permAddr: HwAddr)
  {
    predicate Ok() {
      sport <= MAX16 && dport <= MAX16 && offset <= MAX16 && length <= MAX16
    }

    function Overhead(): nat {
      IP_HLEN + if udp then UDP_HLEN else 0
    }
  }

  /** The IP packet without its checksum, and with it. */
  function Datagram(cfg: Config, p: seq<U8>): (d: seq<U8>)
    ensures |d| == |p| + if cfg.udp then UDP_HLEN else 0
  {
    if cfg.udp then UdpHeader(cfg.sport, cfg.dport, |p| + UDP_HLEN) + p else p
  }

  function Header(cfg: Config, dst: Ip, p: seq<U8>): (h: seq<U8>)
    ensures |h| == IP_HLEN && RfcChecksum(h) == 0
  {
    var h := IpHeader(|p| + cfg.Overhead(), cfg.proto, cfg.src, dst);
    StoredChecksumVerifies(h, 10);
    Stored(h, 10, RfcChecksum(h))
  }

  function Frame(cfg: Config, mac: HwAddr, dst: Ip, p: seq<U8>): (f: seq<U8>) {
    EthHeader(mac, cfg.permAddr) + Header(cfg, dst, p) + Datagram(cfg, p)
  }

  lemma HeaderFields(cfg: Config, dst: Ip, p: seq<U8>)
    ensures var h := Header(cfg, dst, p);
            h[0] == 0x45 && Word(h[2], h[3]) == (|p| + cfg.Overhead()) % 0x1_0000 && h[1] == 0 && h[4] == 0 && h[5] == 0 && h[6] == 0 && h[7] == 0
            && h[8] == 64 && h[9] == cfg.proto && h[12..16] == Octets(cfg.src) && h[16..20] == Octets(dst)
  {
    hide RfcChecksum, Field16, High, Low, Octets, Word;
    var z := IpHeader(|p| + cfg.Overhead(), cfg.proto, cfg.src, dst);
    var h := Header(cfg, dst, p);
    assert forall i {:trigger h[i]} :: 0 <= i < IP_HLEN && i != 10 && i != 11 ==> h[i] == z[i];
    IpFields(|p| + cfg.Overhead(), cfg.proto, cfg.src, dst);
    assert h[12..16] == z[12..16] && h[16..20] == z[16..20];
  }

  lemma IpFields(len: nat, proto: U8, src: Ip, dst: Ip)
    ensures var z := IpHeader(len, proto, src, dst);
            z[0] == 0x45 && Word(z[2], z[3]) == len % 0x1_0000 && z[1] == 0 && z[4] == 0 && z[5] == 0 && z[6] == 0 && z[7] == 0
            && z[8] == 64 && z[9] == proto && z[12..16] == Octets(src) && z[16..20] == Octets(dst)
  {
    hide Field16, Octets, Word;
    var z, l := IpHeader(len, proto, src, dst), Field16(len);
    var first := [0x45, 0] + l + [0, 0, 0, 0, 64, proto, 0, 0];
    assert z == first + (Octets(src) + Octets(dst));
    assert z[2] == l[0] && z[3] == l[1];
  }

  lemma UdpFields(cfg: Config, p: seq<U8>)
    requires cfg.Ok() && cfg.udp
    ensures var d := Datagram(cfg, p);
            Word(d[0], d[1]) == cfg.sport && Word(d[2], d[3]) == cfg.dport && Word(d[4], d[5]) == |d| % 0x1_0000 && d[UDP_HLEN..] == p
            && d[6] == 0 && d[7] == 0
  {
    hide Field16, Word;
    var d, s, t, l := Datagram(cfg, p), Field16(cfg.sport), Field16(cfg.dport), Field16(|p| + UDP_HLEN);
    assert d[0] == s[0] && d[1] == s[1] && d[2] == t[0] && d[3] == t[1] && d[4] == l[0] && d[5] == l[1];
  }

  /** What the receiver should read. */
  function Sent(cfg: Config, mac: HwAddr, dst: Ip, p: seq<U8>): Parsed {
    Parsed(Octets(mac), Octets(cfg.permAddr), 0, 0, 64, cfg.proto, Octets(cfg.src), Octets(dst),
           if cfg.udp then Some((cfg.sport, cfg.dport)) else Option.None, p)
  }

  /** A receiver gets everything back, exactly when the packet fits the 16-bit length field. */
  lemma FrameParses(cfg: Config, mac: HwAddr, dst: Ip, p: seq<U8>)
    requires cfg.Ok()
    ensures Parse(Frame(cfg, mac, dst, p), cfg.udp) == Some(Sent(cfg, mac, dst, p)) <==> |p| + cfg.Overhead() <= MAX16
  {
    hide RfcChecksum, Header, UdpHeader, Word, Octets, EthHeader;
    ZeroWord();
    var f, h, d := Frame(cfg, mac, dst, p), Header(cfg, dst, p), Datagram(cfg, p);
    HeaderFields(cfg, dst, p);
    if cfg.udp {
      UdpFields(cfg, p);
    }
    EthFields(mac, cfg.permAddr, h + d, f);
    var ip := f[ETH_HLEN..];
    assert ip == h + d;
    assert ip[..IP_HLEN] == h && forall i {:trigger ip[i]} :: 0 <= i < IP_HLEN ==> ip[i] == h[i];
    assert ip[12..16] == h[12..16] && ip[16..20] == h[16..20];
    if |p| + cfg.Overhead() <= MAX16 {
      assert ip[IP_HLEN..|ip|] == d;
    }
  }

  /** Two frames that a receiver reads alike went to the same hardware address and the same locator with the same packet. */
  lemma FrameDetermines(cfg: Config, mac: HwAddr, dst: Ip, p: seq<U8>, mac': HwAddr, dst': Ip, p': seq<U8>)
    requires cfg.Ok() && |p| + cfg.Overhead() <= MAX16 && |p'| + cfg.Overhead() <= MAX16
    requires Parse(Frame(cfg, mac, dst, p), cfg.udp) == Parse(Frame(cfg, mac', dst', p'), cfg.udp)
    ensures mac == mac' && dst == dst' && p == p'
  {
    hide Parse, Frame, Octets;
    FrameParses(cfg, mac, dst, p);
    FrameParses(cfg, mac', dst', p');
    OctetsInjective(mac, mac');
    OctetsInjective(dst, dst');
  }

  lemma EthFields(mac: HwAddr, src: HwAddr, rest: seq<U8>, f: seq<U8>)
    requires f == EthHeader(mac, src) + rest
    ensures f[..6] == Octets(mac) && f[6..12] == Octets(src) && Word(f[12], f[13]) == ETH_P_IP && f[ETH_HLEN..] == rest
  {
    assert f[12] == 0x08 && f[13] == 0x00;
  }

  // ---- the packet buffer ---------------------------------------------------------------------------------------------

  /** A packet buffer: bytes from `data` to `tail` and then the paged part are the packet; what lies before `data` is headroom. */
  class Skb {
    const buf: array<U8>
    var data: nat
    const tail: nat
    const paged: seq<U8>
    const dst: Option<NetDev>

    ghost predicate Valid()
      reads this
    {
      data <= tail <= buf.Length
    }

    ghost function Bytes(): seq<U8>
      requires Valid()
      reads this, buf
    {
      buf[data..tail] + paged
    }

    /** skb->len */
    method Len() returns (n: nat)
      requires Valid()
      ensures n == |Bytes()|
    {
      n := tail - data + |paged|;
    }

    /** __skb_push, and the stores that fill the new header */
    method Push(h: seq<U8>)
      requires Valid() && |h| <= data
      modifies `data, buf
      ensures Valid() && data == old(data) - |h| && Bytes() == h + old(Bytes())
      ensures buf[data..data + |h|] == h
    {
      ghost var was := buf[data..tail];
      data := data - |h|;
      for i := 0 to |h|
        invariant data == old(data) - |h|
        invariant forall j :: 0 <= j < i ==> buf[data + j] == h[j]
        invariant forall j :: data + |h| <= j < buf.Length ==> buf[j] == old(buf[j])
      {
        buf[data + i] := h[i];
      }
      assert buf[data..data + |h|] == h && buf[data + |h|..tail] == was;
      assert buf[data..tail] == buf[data..data + |h|] + buf[data + |h|..tail];
    }

    /** A 16-bit field of the topmost header. */
    method Store(at: nat, w: nat)
      requires Valid() && data + at + 1 < tail && w <= MAX16
      modifies buf
      ensures Bytes() == Stored(old(Bytes()), at, w)
    {
      buf[data + at] := High(w);
      buf[data + at + 1] := Low(w);
      assert buf[data..tail] == Stored(old(buf[data..tail]), at, w);
    }
  }

  /** The 64-bit value of eight bytes on a little-endian host. */
  function Load64(b: seq<U8>): U64
    requires |b| == 8
  {
    (b[0] as int) + 0x100 * (b[1] as int) + 0x1_0000 * (b[2] as int) + 0x100_0000 * (b[3] as int)
    + 0x1_0000_0000 * (b[4] as int) + 0x100_0000_0000 * (b[5] as int) + 0x1_0000_0000_0000 * (b[6] as int)
    + 0x100_0000_0000_0000 * (b[7] as int)
  }

  /** The identifier of a packet: the `length` most significant bits of the loaded value. */
  function Id(v: U64, length: nat): (id: U64)
    ensures id <= v
  {
    var k := if length < 64 then 64 - length else 0;
    ShrTop(v, k);
    Shr(v, k)
  }

  lemma {:induction false} ShrTop(v: nat, k: nat)
    ensures Shr(v, k) <= v
    ensures Shr(v, k) * Pow2(k) <= v < (Shr(v, k) + 1) * Pow2(k)
  {
    if k > 0 {
      ShrTop(v / 2, k - 1);
      Double(v, Shr(v / 2, k - 1), Pow2(k - 1));
    }
  }

  lemma Double(v: nat, s: nat, p: nat)
    requires s * p <= v / 2 < (s + 1) * p
    ensures s * (2 * p) <= v < (s + 1) * (2 * p)
  {
    var a, b := s * p, (s + 1) * p;
    assert s * (2 * p) == 2 * a && (s + 1) * (2 * p) == 2 * b;
  }

  /** The identifier is the number of whole units of 2^(64 - length) in the loaded value. */
  lemma IdIsTopBits(v: U64, length: nat)
    requires length <= 64
    ensures var unit := Pow2(64 - length); Id(v, length) * unit <= v < (Id(v, length) + 1) * unit
  {
    ShrTop(v, 64 - length);
  }

  /** The number whose bytes, low first, are these. */
  function LowFirst(b: seq<U8>): nat {
    if b == [] then 0 else (b[0] as int) + 0x100 * LowFirst(b[1..])
  }

  lemma LoadIsLowFirst(b: seq<U8>)
    requires |b| == 8
    ensures Load64(b) == LowFirst(b)
  {
    LowFirstNext(b, 0);
    LowFirstNext(b, 1);
    LowFirstNext(b, 2);
    LowFirstNext(b, 3);
    LowFirstNext(b, 4);
    LowFirstNext(b, 5);
    LowFirstNext(b, 6);
    LowFirstNext(b, 7);
    assert b[8..] == [];
    assert b[0..] == b;
  }

  lemma LowFirstNext(b: seq<U8>, k: nat)
    requires k < |b|
    ensures LowFirst(b[k..]) == (b[k] as int) + 0x100 * LowFirst(b[k + 1..])
  {
    assert b[k..][1..] == b[k + 1..];
  }

  lemma ShrByte(x: nat, k: nat)
    ensures Shr(x, 8 + k) == Shr(x / 0x100, k)
  {
    var x1 := x / 2;
    var x2 := x1 / 2;
    var x3 := x2 / 2;
    var x4 := x3 / 2;
    var x5 := x4 / 2;
    var x6 := x5 / 2;
    var x7 := x6 / 2;
    assert Shr(x, 8 + k) == Shr(x1, 7 + k) == Shr(x2, 6 + k) == Shr(x3, 5 + k) == Shr(x4, 4 + k);
    assert Shr(x4, 4 + k) == Shr(x5, 3 + k) == Shr(x6, 2 + k) == Shr(x7, 1 + k) == Shr(x7 / 2, k);
  }

  lemma ShrNone(x: nat)
    ensures Shr(x, 0) == x
  {
  }

  lemma TopBytes(low: U8, rest: nat)
    ensures ((low as int) + 0x100 * rest) / 0x100 == rest
  {
  }

  /** Shifting by whole bytes drops the low ones. */
  lemma {:induction false} ShrDropsBytes(b: seq<U8>, m: nat)
    requires m <= |b|
    ensures Shr(LowFirst(b), 8 * m) == LowFirst(b[m..])
    decreases m
  {
    hide Shr, LowFirst;
    assert b[0..] == b;
    if m == 0 {
      ShrNone(LowFirst(b));
    } else {
      LowFirstNext(b, 0);
      TopBytes(b[0], LowFirst(b[1..]));
      ShrByte(LowFirst(b), 8 * (m - 1));
      ShrDropsBytes(b[1..], m - 1);
      assert b[1..][m - 1..] == b[m..];
    }
  }

  /** An identifier of n whole bytes is the number made of the last n of the eight loaded bytes, low byte first. */
  lemma IdIsLastBytes(b: seq<U8>, n: nat)
    requires |b| == 8 && n <= 8
    ensures Id(Load64(b), 8 * n) == LowFirst(b[8 - n..])
  {
    hide Load64, LowFirst;
    LoadIsLowFirst(b);
    ShrDropsBytes(b, 8 - n);
    assert b[0..] == b;
  }

  /** extract_id_from_packet */
  method ExtractId(skb: Skb, offset: nat, length: nat) returns (id: U64)
    requires skb.data + offset + 8 <= skb.buf.Length
    ensures id == Id(Load64(skb.buf[skb.data + offset..skb.data + offset + 8]), length)
  {
    var v := Load64(skb.buf[skb.data + offset..skb.data + offset + 8]);
    id := v;
    var i := 0;
    while i < 64 - length
      invariant 0 <= i && (i <= 64 - length || i == 0)
      invariant Shr(id, if length < 64 then 64 - length - i else 0) == Id(v, length)
    {
      id := id / 2;
      i := i + 1;
    }
  }

  /** Encapsulation proper: headers from the inside out. */
  method PushHeaders(skb: Skb, cfg: Config, mac: HwAddr, dst: Ip)
    requires skb.Valid() && cfg.Ok() && skb.data >= ETH_HLEN + cfg.Overhead()
    modifies skb`data, skb.buf
    ensures skb.Valid() && skb.Bytes() == Frame(cfg, mac, dst, old(skb.Bytes()))
  {
    hide Octets, Stored, Field16, UdpHeader, IpHeader, EthHeader, RfcChecksum;
    ghost var p := skb.Bytes();
    if cfg.udp {
      var n := skb.Len();
      skb.Push(UdpHeader(cfg.sport, cfg.dport, n + UDP_HLEN));
    }
    PushIp(skb, cfg, dst, p);
    skb.Push(EthHeader(mac, cfg.permAddr));
  }

  method PushIp(skb: Skb, cfg: Config, dst: Ip, ghost p: seq<U8>)
    requires skb.Valid() && skb.data >= IP_HLEN && skb.Bytes() == Datagram(cfg, p)
    modifies skb`data, skb.buf
    ensures skb.Valid() && skb.data == old(skb.data) - IP_HLEN && skb.Bytes() == Header(cfg, dst, p) + Datagram(cfg, p)
  {
    hide Octets, Stored, Field16, UdpHeader, IpHeader, Words, Total, Fold, Datagram;
    var n := skb.Len();
    var h := IpHeader(n + IP_HLEN, cfg.proto, cfg.src, dst);
    skb.Push(h);
    var c := IpChecksum(skb.buf[skb.data..skb.data + IP_HLEN], 0);
    assert c == RfcChecksum(h);
    skb.Store(10, c);
    StoredInFront(h, Datagram(cfg, p), 10, c);
  }

  lemma StoredInFront(h: seq<U8>, rest: seq<U8>, at: nat, w: nat)
    requires at + 1 < |h| && w <= MAX16
    ensures Stored(h + rest, at, w) == Stored(h, at, w) + rest
  {
  }

  // ---- sfmc_encap_packet ---------------------------------------------------------------------------------------------

  /** The packet is not for the engine; no way to send it; no way yet, and a host route is queued for resolution; encapsulated. */
  datatype Outcome = Passed | Refused | Queued(host: Fib) | Encapsulated(route: Fib)

  /** The route for `dst` by the longest match, and whether it may be used. */
  ghost predicate BestRoute(s: Sfmc, dst: Ip, f: Fib?)
    reads s
  {
    && (f != null ==> f in s.fibList && f.len <= IPV4_BITS)
    && IsBest(s.table.Keys, DstKey(dst, IPV4_BITS), true, if f == null then Option.None else Some(RouteKey(f)))
  }

  /** The packet comes from an acquiring device, and the offload is on. */
  predicate Selected(cfg: Config, skb: Skb) {
    cfg.enable && skb.dst.Some? && skb.dst.value in cfg.vdev
  }

  /** The eight bytes the identifier is taken from lie in the buffer. */
  predicate Readable(cfg: Config, skb: Skb)
    reads skb
  {
    skb.data + cfg.offset + 8 <= skb.buf.Length
  }

  ghost function PacketId(cfg: Config, skb: Skb): U64
    requires Readable(cfg, skb)
    reads skb, skb.buf
  {
    Id(Load64(skb.buf[skb.data + cfg.offset..skb.data + cfg.offset + 8]), cfg.length)
  }

  /** The longest-match route to `dst` can be used now: it leads to `dst` or through a gateway, and its neighbour is valid. */
  ghost predicate Usable(s: Sfmc, dst: Ip, f: Fib)
    reads s, f
  {
    BestRoute(s, dst, f) && (!f.link || f.gateway == dst) && f.nud.IsValid()
  }

  /** A packet with this identifier can be sent now. */
  ghost predicate Sends(s: Sfmc, t: Table, id: U64)
    reads s, t, s.fibList
  {
    id in t.locators && exists f :: f in s.fibList && Usable(s, t.locators[id], f)
  }

  /** sfmc_encap_packet. The source trusts that the identifier of a selected packet lies in its buffer, and that a packet to be sent has
      headroom for the headers. */
  method EncapPacket(s: Sfmc, t: Table, cfg: Config, skb: Skb, pad: seq<bv8>) returns (o: Outcome, ghost best: Fib?)
    requires s.Valid() && t.Valid() && skb.Valid() && cfg.Ok() && |pad| == 12
    requires Selected(cfg, skb) ==> Readable(cfg, skb)
    requires Selected(cfg, skb) && Sends(s, t, PacketId(cfg, skb)) ==> skb.data >= ETH_HLEN + cfg.Overhead()
    modifies skb`data, skb.buf
    ensures skb.Valid() && (!o.Encapsulated? ==> unchanged(skb) && unchanged(skb.buf))
    ensures o.Passed? <==> !Selected(cfg, skb)
    ensures !o.Passed? && old(PacketId(cfg, skb)) !in t.locators ==> o.Refused?
    ensures !o.Passed? && old(PacketId(cfg, skb)) in t.locators ==>
              var dst := t.locators[old(PacketId(cfg, skb))];
              BestRoute(s, dst, best)
              && (o.Refused? <==> best == null || ((!best.link || best.gateway == dst) && !best.nud.IsValid()))
              && (o.Queued? <==> best != null && best.link && best.gateway != dst)
              && (o.Queued? ==> fresh(o.host) && o.host.network == dst && o.host.len == 32 && o.host.gateway == dst && o.host.link
                                && !o.host.nud.IsValid())
              && (o.Encapsulated? ==> o.route == best && skb.Bytes() == Frame(cfg, best.mac, dst, old(skb.Bytes())))
              && (o.Encapsulated? && best.gateway !in s.unnoticed ==> s.Known(best.gateway) && best.mac == s.arp[best.gateway].ha)
  {
    hide Frame, IsBest, Sfmc.Agree, Sfmc.CacheOk, DstKey, Table.Valid, Load64, Id;
    if !cfg.enable || skb.dst.None? || skb.dst.value !in cfg.vdev {
      return Passed, null;
    }
    var id := ExtractId(skb, cfg.offset, cfg.length);
    var st := t.Find(id);
    if st.None? {
      st := t.Find(id);
    }
    if st.None? {
      return Refused, null;
    }
    var dst := st.value.dst;
    var sf := s.FindBest(dst, 32, pad);
    if sf == null {
      return Refused, null;
    }
    if sf.link && sf.gateway != dst {
      var host := new Fib(dst, 32, dst, true);
      return Queued(host), sf;
    }
    if !sf.nud.IsValid() {
      return Refused, sf;
    }
    assert sf in s.fibList && Usable(s, dst, sf);
    if sf.gateway !in s.unnoticed {
      s.UsableMac(sf);
    }
    PushHeaders(skb, cfg, sf.mac, dst);
    return Encapsulated(sf), sf;
  }
}
