/**
  The 42-byte Ethernet II + ARP frame of `send_arp_request` and `receive_arp_replies`
  (`struct arp_packet`: a `struct ethhdr` followed by a `struct ether_arp`), laid out as in
  the "Packet format" section of RFC 826, with every multi-byte field in network byte order.
 */
module ArpFrame {
  import opened Wrappers
  import opened Decimal
  import opened Getline
  import opened Inet

  type uint16 = x: int | 0 <= x < 0x1_0000

  const ETH_ALEN: nat := 6
  const ETH_P_ARP: uint16 := 0x0806
  const ETH_P_IP: uint16 := 0x0800
  const ARPHRD_ETHER: uint16 := 1
  const ARPOP_REQUEST: uint16 := 1
  const ARPOP_REPLY: uint16 := 2
  /** `sizeof(struct arp_packet)`: 14 bytes of link header and 28 of ARP body. */
  const FRAME_LEN: nat := 42

  /** `htons(v)` as stored: the high byte first. */
  function Be16(v: uint16): (b: seq<byte>)
    ensures |b| == 2 && b[0] as int * 256 + b[1] == v
  {
    [v / 256, v % 256]
  }

  /** `ntohs` of the two bytes at `off`. */
  function Be16At(f: seq<byte>, off: nat): uint16
    requires off + 2 <= |f|
  {
    f[off] as int * 256 + f[off + 1]
  }

  function Repeat(b: byte, n: nat): (r: seq<byte>)
    ensures |r| == n && forall k :: 0 <= k < n ==> r[k] == b
  {
    seq(n, _ => b)
  }

  /** The fields of `struct arp_packet`, in memory order. */
  datatype ArpPacket = ArpPacket(
    dest: seq<byte>, source: seq<byte>, proto: uint16,
    hrd: uint16, pro: uint16, hln: byte, pln: byte, op: uint16,
    sha: seq<byte>, spa: seq<byte>, tha: seq<byte>, tpa: seq<byte>)

  /** Every address field has its fixed width: 6 bytes of hardware address, 4 of IPv4 address. */
  predicate WellFormed(p: ArpPacket) {
    |p.dest| == ETH_ALEN && |p.source| == ETH_ALEN && |p.sha| == ETH_ALEN && |p.tha| == ETH_ALEN
    && |p.spa| == 4 && |p.tpa| == 4
  }

  /** The bytes of the packet as `sendto` transmits them. */
  function Encode(p: ArpPacket): (f: seq<byte>)
    requires WellFormed(p)
    ensures |f| == FRAME_LEN
  {
    p.dest + p.source + Be16(p.proto)
    + Be16(p.hrd) + Be16(p.pro) + [p.hln, p.pln] + Be16(p.op)
    + p.sha + p.spa + p.tha + p.tpa
  }

  /**
    Reading a received buffer through the `ethhdr` and `ether_arp` casts: the casts only
    reinterpret, so the packet read re-encodes to the first 42 bytes of the buffer.
   */
  function Parse(f: seq<byte>): (p: ArpPacket)
    requires |f| >= FRAME_LEN
    ensures WellFormed(p)
    ensures Encode(p) == f[..FRAME_LEN]
  {
    Be16Of(f, 12);
    Be16Of(f, 14);
    Be16Of(f, 16);
    Be16Of(f, 20);
    assert [f[18], f[19]] == f[18..20];
    assert f[..FRAME_LEN] == f[0..6] + f[6..12] + f[12..14] + f[14..16] + f[16..18] + f[18..20]
      + f[20..22] + f[22..28] + f[28..32] + f[32..38] + f[38..42];
    ArpPacket(f[0..6], f[6..12], Be16At(f, 12),
              Be16At(f, 14), Be16At(f, 16), f[18], f[19], Be16At(f, 20),
              f[22..28], f[28..32], f[32..38], f[38..42])
  }

  /** Where each field of an encoded packet sits. */
  lemma FrameLayout(p: ArpPacket)
    requires WellFormed(p)
    ensures var f := Encode(p);
      && f[0..6] == p.dest && f[6..12] == p.source && Be16At(f, 12) == p.proto
      && Be16At(f, 14) == p.hrd && Be16At(f, 16) == p.pro && f[18] == p.hln && f[19] == p.pln
      && Be16At(f, 20) == p.op && f[22..28] == p.sha && f[28..32] == p.spa
      && f[32..38] == p.tha && f[38..42] == p.tpa
  {
    var f := Encode(p);
    var hdr := p.dest + p.source + Be16(p.proto);
    var fixed := Be16(p.hrd) + Be16(p.pro) + [p.hln, p.pln] + Be16(p.op);
    assert f == hdr + fixed + p.sha + p.spa + p.tha + p.tpa;
    assert f[..14] == hdr;
    assert f[14..22] == fixed;
  }

  /** Parsing an encoded packet gives the packet back. */
  lemma ParseEncode(p: ArpPacket)
    requires WellFormed(p)
    ensures Parse(Encode(p)) == p
  {
    FrameLayout(p);
  }

  /** `htons(ntohs(x))`: the two bytes at `off` re-encode to themselves. */
  lemma Be16Of(f: seq<byte>, off: nat)
    requires off + 2 <= |f|
    ensures Be16(Be16At(f, off)) == f[off..off + 2]
  {
  }

  /** The request `send_arp_request` fills in: broadcast, ARP over Ethernet for IPv4, operation 1. */
  function RequestPacket(srcMac: seq<byte>, spa: seq<byte>, tpa: seq<byte>): (p: ArpPacket)
    requires |srcMac| == ETH_ALEN && |spa| == 4 && |tpa| == 4
    ensures WellFormed(p)
  {
    ArpPacket(Repeat(0xFF, ETH_ALEN), srcMac, ETH_P_ARP,
              ARPHRD_ETHER, ETH_P_IP, 6, 4, ARPOP_REQUEST,
              srcMac, spa, Repeat(0, ETH_ALEN), tpa)
  }

  /** The four bytes `inet_pton` leaves in a zero-initialised field: the address, or zeros when it fails. */
  function PtonOrZero(text: string): (a: seq<byte>)
    ensures |a| == 4
  {
    match InetPton(text)
    case Some(addr) => addr
    case None => Repeat(0, 4)
  }

  /** `s` with `src` written over it from `off` on. */
  function Splice(s: seq<byte>, off: nat, src: seq<byte>): seq<byte>
    requires off + |src| <= |s|
  {
    s[..off] + src + s[off + |src|..]
  }

  /** `memcpy(a + off, src, |src|)`; with a repeated byte, `memset`. */
  method Store(a: array<byte>, off: nat, src: seq<byte>)
    requires off + |src| <= a.Length
    modifies a
    ensures a[..] == Splice(old(a[..]), off, src)
  {
    for i := 0 to |src|
      invariant forall k :: 0 <= k < a.Length ==>
        a[k] == if off <= k < off + i then src[k - off] else old(a[k])
    {
      a[off + i] := src[i];
    }
    assert a[..] == Splice(old(a[..]), off, src);
  }

  /** `inet_pton(AF_INET, text, a + off)`: writes four bytes on success and nothing on failure. */
  method PtonInto(a: array<byte>, off: nat, text: string)
    requires off + 4 <= a.Length
    modifies a
    ensures InetPton(text).Some? ==> a[..] == Splice(old(a[..]), off, InetPton(text).value)
    ensures InetPton(text).None? ==> a[..] == old(a[..])
  {
    var r := InetPton(text);
    if r.Some? {
      Store(a, off, r.value);
    }
  }

  /** Writing the next field at the end of what is written so far, over a zero tail. */
  lemma Grow(done: seq<byte>, src: seq<byte>, n: nat)
    requires |src| <= n
    ensures Splice(done + Repeat(0, n), |done|, src) == (done + src) + Repeat(0, n - |src|)
  {
    var s := done + Repeat(0, n);
    assert s[..|done|] == done;
    assert s[|done| + |src|..] == Repeat(0, n - |src|);
  }

  /** `inet_pton` into the zero tail: on failure the four zeros count as written. */
  lemma PtonStep(done: seq<byte>, text: string, n: nat)
    requires 4 <= n
    ensures InetPton(text).Some? ==>
      Splice(done + Repeat(0, n), |done|, InetPton(text).value) == (done + PtonOrZero(text)) + Repeat(0, n - 4)
    ensures InetPton(text).None? ==> done + Repeat(0, n) == (done + PtonOrZero(text)) + Repeat(0, n - 4)
  {
    Grow(done, PtonOrZero(text), n);
    assert Repeat(0, n) == Repeat(0, 4) + Repeat(0, n - 4);
  }

  /** The bytes of `a` are `done` followed by zeros: the fields written so far over the zeroed packet. */
  ghost predicate WrittenUpTo(a: array<byte>, done: seq<byte>)
    reads a
  {
    |done| <= a.Length && a[..] == done + Repeat(0, a.Length - |done|)
  }

  /** "Set Ethernet header": destination, source and EtherType, bytes 0 to 13. */
  method StoreEthernetHeader(packet: array<byte>, srcMac: seq<byte>)
    requires packet.Length == FRAME_LEN && |srcMac| == ETH_ALEN && WrittenUpTo(packet, [])
    modifies packet
    ensures WrittenUpTo(packet, Repeat(0xFF, ETH_ALEN) + srcMac + Be16(ETH_P_ARP))
  {
    ghost var done: seq<byte> := [];
    Store(packet, 0, Repeat(0xFF, ETH_ALEN));
    Grow(done, Repeat(0xFF, ETH_ALEN), FRAME_LEN);
    done := done + Repeat(0xFF, ETH_ALEN);
    Store(packet, 6, srcMac);
    Grow(done, srcMac, FRAME_LEN - 6);
    done := done + srcMac;
    Store(packet, 12, Be16(ETH_P_ARP));
    Grow(done, Be16(ETH_P_ARP), FRAME_LEN - 12);
  }

  /** "Set ARP header", its fixed part: hardware and protocol types, lengths, operation, bytes 14 to 21. */
  method StoreArpHeader(packet: array<byte>, ghost done: seq<byte>)
    requires packet.Length == FRAME_LEN && |done| == 14 && WrittenUpTo(packet, done)
    modifies packet
    ensures WrittenUpTo(packet, done + Be16(ARPHRD_ETHER) + Be16(ETH_P_IP) + [6, 4] + Be16(ARPOP_REQUEST))
  {
    ghost var d := done;
    Store(packet, 14, Be16(ARPHRD_ETHER));
    Grow(d, Be16(ARPHRD_ETHER), FRAME_LEN - 14);
    d := d + Be16(ARPHRD_ETHER);
    Store(packet, 16, Be16(ETH_P_IP));
    Grow(d, Be16(ETH_P_IP), FRAME_LEN - 16);
    d := d + Be16(ETH_P_IP);
    Store(packet, 18, [6, 4]);
    Grow(d, [6, 4], FRAME_LEN - 18);
    d := d + [6, 4];
    Store(packet, 20, Be16(ARPOP_REQUEST));
    Grow(d, Be16(ARPOP_REQUEST), FRAME_LEN - 20);
  }

  /** The four addresses, bytes 22 to 41. */
  method StoreArpAddresses(packet: array<byte>, ghost done: seq<byte>,
                           srcMac: seq<byte>, localIp: string, targetIp: string)
    requires packet.Length == FRAME_LEN && |done| == 22 && |srcMac| == ETH_ALEN && WrittenUpTo(packet, done)
    modifies packet
    ensures packet[..] == done + srcMac + PtonOrZero(localIp) + Repeat(0, ETH_ALEN) + PtonOrZero(targetIp)
  {
    ghost var d := done;
    Store(packet, 22, srcMac);
    Grow(d, srcMac, FRAME_LEN - 22);
    d := d + srcMac;
    assert WrittenUpTo(packet, d);
    PtonInto(packet, 28, localIp);
    PtonStep(d, localIp, FRAME_LEN - 28);
    d := d + PtonOrZero(localIp);
    assert WrittenUpTo(packet, d);
    Store(packet, 32, Repeat(0, ETH_ALEN));
    Grow(d, Repeat(0, ETH_ALEN), FRAME_LEN - 32);
    d := d + Repeat(0, ETH_ALEN);
    assert WrittenUpTo(packet, d);
    PtonInto(packet, 38, targetIp);
    PtonStep(d, targetIp, FRAME_LEN - 38);
    d := d + PtonOrZero(targetIp);
    assert WrittenUpTo(packet, d);
    assert packet[..] == d + [];
  }

  lemma RequestBytes(srcMac: seq<byte>, spa: seq<byte>, tpa: seq<byte>)
    requires |srcMac| == ETH_ALEN && |spa| == 4 && |tpa| == 4
    ensures Encode(RequestPacket(srcMac, spa, tpa))
      == (Repeat(0xFF, ETH_ALEN) + srcMac + Be16(ETH_P_ARP))
         + (Be16(ARPHRD_ETHER) + Be16(ETH_P_IP) + [6, 4] + Be16(ARPOP_REQUEST))
         + srcMac + spa + Repeat(0, ETH_ALEN) + tpa
  {
  }

  /**
    `send_arp_request(target_ip, ...)` up to the `sendto`: the zero-initialised packet with its
    fields stored in place, in the order the source stores them (which is offset order).
    `localIp` is what `GetIPv4Address()` returned.
   */
  method BuildArpRequest(targetIp: string, localIp: string, srcMac: seq<byte>) returns (frame: seq<byte>)
    requires |srcMac| == ETH_ALEN
    ensures frame == Encode(RequestPacket(srcMac, PtonOrZero(localIp), PtonOrZero(targetIp)))
  {
    var packet := new byte[FRAME_LEN](_ => 0);
    assert packet[..] == [] + Repeat(0, FRAME_LEN);
    StoreEthernetHeader(packet, srcMac);
    ghost var eth := Repeat(0xFF, ETH_ALEN) + srcMac + Be16(ETH_P_ARP);
    StoreArpHeader(packet, eth);
    ghost var fixed := Be16(ARPHRD_ETHER) + Be16(ETH_P_IP) + [6, 4] + Be16(ARPOP_REQUEST);
    StoreArpAddresses(packet, eth + fixed, srcMac, localIp, targetIp);
    frame := packet[..];
    RequestBytes(srcMac, PtonOrZero(localIp), PtonOrZero(targetIp));
  }

  /**
    The request frame byte by byte: broadcast destination, the local MAC as source and
    sender hardware address, EtherType 0x0806, hardware type 1, protocol type 0x0800,
    lengths 6 and 4, operation 1, zero target hardware address, then the two IPv4 addresses.
   */
  lemma RequestLayout(srcMac: seq<byte>, spa: seq<byte>, tpa: seq<byte>)
    requires |srcMac| == ETH_ALEN && |spa| == 4 && |tpa| == 4
    ensures var f := Encode(RequestPacket(srcMac, spa, tpa));
      && |f| == 42
      && (forall k :: 0 <= k < 6 ==> f[k] == 0xFF)
      && f[6..12] == srcMac && f[22..28] == srcMac
      && f[12] == 0x08 && f[13] == 0x06 && f[14] == 0x00 && f[15] == 0x01
      && f[16] == 0x08 && f[17] == 0x00 && f[18] == 6 && f[19] == 4
      && f[20] == 0x00 && f[21] == 0x01
      && f[28..32] == spa
      && (forall k :: 32 <= k < 38 ==> f[k] == 0)
      && f[38..42] == tpa
  {
    var p := RequestPacket(srcMac, spa, tpa);
    var f := Encode(p);
    FrameLayout(p);
    forall k | 0 <= k < 6 ensures f[k] == 0xFF {
      assert f[0..6][k] == f[k];
    }
    forall k | 32 <= k < 38 ensures f[k] == 0 {
      assert f[32..38][k - 32] == f[k];
    }
  }

  /** An uppercase hexadecimal digit, as `%X` prints it. */
  function HexDigit(d: nat): (c: char)
    requires d < 16
  {
    if d < 10 then ('0' as int + d) as char else ('A' as int + d - 10) as char
  }

  /** The value of an uppercase hexadecimal digit. */
  function HexValue(c: char): Option<nat>
  {
    if '0' <= c <= '9' then Some(c as int - '0' as int)
    else if 'A' <= c <= 'F' then Some(c as int - 'A' as int + 10)
    else None
  }

  /** `%02X` of one byte: two uppercase hexadecimal digits that read back as the byte. */
  function HexByte(b: byte): (s: string)
    ensures |s| == 2 && ':' !in s
    ensures HexValue(s[0]).Some? && HexValue(s[1]).Some?
    ensures HexValue(s[0]).value * 16 + HexValue(s[1]).value == b
  {
    [HexDigit(b / 16), HexDigit(b % 16)]
  }

  function HexBytes(mac: seq<byte>): (groups: seq<string>)
    ensures |groups| == |mac| && forall i :: 0 <= i < |mac| ==> groups[i] == HexByte(mac[i])
  {
    seq(|mac|, i requires 0 <= i < |mac| => HexByte(mac[i]))
  }

  /**
    `%02X:%02X:%02X:%02X:%02X:%02X` of a hardware address: 17 characters, the six groups of
    two hexadecimal digits separated by colons, and no newline.
   */
  function FormatMac(mac: seq<byte>): (s: string)
    requires |mac| == ETH_ALEN
    ensures |s| == 17 && Split(s, ':') == HexBytes(mac)
    ensures '\n' !in s
  {
    var groups := HexBytes(mac);
    JoinLength(groups, ':');
    SplitJoin(groups, ':');
    forall k | 0 <= k < ETH_ALEN ensures '\n' !in groups[k] {
      assert HexValue(groups[k][0]).Some? && HexValue(groups[k][1]).Some?;
    }
    JoinAvoids(groups, ':', '\n');
    Join(groups, ':')
  }

  /** Reads a hardware address back from six colon-separated pairs of uppercase hexadecimal digits. */
  function ParseMac(s: string): Option<seq<byte>>
  {
    var groups := Split(s, ':');
    if |s| == 17 && |groups| == ETH_ALEN
       && forall i :: 0 <= i < ETH_ALEN ==>
            |groups[i]| == 2 && HexValue(groups[i][0]).Some? && HexValue(groups[i][1]).Some?
    then Some(seq(ETH_ALEN, i requires 0 <= i < ETH_ALEN =>
                  HexValue(groups[i][0]).value * 16 + HexValue(groups[i][1]).value))
    else None
  }

  lemma {:induction false} JoinLength(groups: seq<string>, delim: char)
    requires groups != [] && forall i :: 0 <= i < |groups| ==> |groups[i]| == 2
    ensures |Join(groups, delim)| == 3 * |groups| - 1
    decreases |groups|
  {
    if |groups| > 1 {
      JoinLength(groups[1..], delim);
    }
  }

  /**
    The MAC text is 17 characters: six groups of two uppercase hexadecimal digits separated
    by colons, from which the address reads back.
   */
  lemma MacRoundTrip(mac: seq<byte>)
    requires |mac| == ETH_ALEN
    ensures |FormatMac(mac)| == 17 && Split(FormatMac(mac), ':') == HexBytes(mac)
    ensures ParseMac(FormatMac(mac)) == Some(mac)
  {
    var groups := HexBytes(mac);
    JoinLength(groups, ':');
    SplitJoin(groups, ':');
    var decoded := seq(ETH_ALEN, i requires 0 <= i < ETH_ALEN =>
                       HexValue(groups[i][0]).value * 16 + HexValue(groups[i][1]).value);
    forall i | 0 <= i < ETH_ALEN ensures decoded[i] == mac[i] {
      assert groups[i] == HexByte(mac[i]);
    }
    assert decoded == mac;
  }

  /**
    The `active_hosts` entry for a reply: `sender_ip + "\n" + sender_mac`, 25 to 33
    characters holding exactly one newline, the one between the address and the MAC.
   */
  function Entry(spa: seq<byte>, sha: seq<byte>): (e: string)
    requires |spa| == 4 && |sha| == ETH_ALEN
    ensures 25 <= |e| <= 33
    ensures CountOf(e, '\n') == 1
  {
    CountOfAppend(InetNtop(spa), "\n", '\n');
    CountOfAppend(InetNtop(spa) + "\n", FormatMac(sha), '\n');
    CountOfAbsent(InetNtop(spa), '\n');
    CountOfAbsent(FormatMac(sha), '\n');
    InetNtop(spa) + "\n" + FormatMac(sha)
  }

  /** Reads the address pair back from an entry. */
  function DecodeEntry(e: string): Option<(seq<byte>, seq<byte>)>
  {
    var k := IndexOf(e, '\n');
    if k == |e| then None
    else
      match (InetPton(e[..k]), ParseMac(e[k + 1..]))
      case (Some(ip), Some(mac)) => Some((ip, mac))
      case _ => None
  }

  lemma EntryRoundTrip(spa: seq<byte>, sha: seq<byte>)
    requires |spa| == 4 && |sha| == ETH_ALEN
    ensures DecodeEntry(Entry(spa, sha)) == Some((spa, sha))
  {
    var ip := InetNtop(spa);
    var e := Entry(spa, sha);
    var pieces := DottedQuad.Decimals(spa);
    forall k | 0 <= k < 4 ensures '\n' !in pieces[k] {
      assert AllDigits(pieces[k]);
    }
    JoinAvoids(pieces, '.', '\n');
    assert e[..|ip|] == ip;
    IndexOfFirst(e, '\n', |ip|);
    assert e[|ip| + 1..] == FormatMac(sha);
    MacRoundTrip(sha);
    PtonNtop(spa);
    MacRoundTrip(sha);
  }

  /** Equal entries come from the same (IP, MAC) pair, so de-duplicating entries de-duplicates pairs. */
  lemma EntryInjective(spa1: seq<byte>, sha1: seq<byte>, spa2: seq<byte>, sha2: seq<byte>)
    requires |spa1| == 4 && |sha1| == ETH_ALEN && |spa2| == 4 && |sha2| == ETH_ALEN
    ensures Entry(spa1, sha1) == Entry(spa2, sha2) <==> spa1 == spa2 && sha1 == sha2
  {
    EntryRoundTrip(spa1, sha1);
    EntryRoundTrip(spa2, sha2);
  }

  /**
    The test `receive_arp_replies` applies to a received buffer: EtherType ARP and operation
    reply; for a kept frame, the entry built from the sender addresses.
   */
  function ReplyEntry(frame: seq<byte>): (r: Option<string>)
    requires |frame| >= FRAME_LEN
    ensures r.Some? <==> frame[12] == 0x08 && frame[13] == 0x06 && frame[20] == 0x00 && frame[21] == 0x02
    ensures r.Some? ==> r.value == InetNtop(frame[28..32]) + "\n" + FormatMac(frame[22..28])
  {
    var p := Parse(frame);
    if p.proto != ETH_P_ARP then None
    else if p.op == ARPOP_REPLY then Some(Entry(p.spa, p.sha))
    else None
  }

  /** A request, such as the ones this program sends, is never taken for a reply. */
  lemma RequestIgnored(srcMac: seq<byte>, spa: seq<byte>, tpa: seq<byte>)
    requires |srcMac| == ETH_ALEN && |spa| == 4 && |tpa| == 4
    ensures ReplyEntry(Encode(RequestPacket(srcMac, spa, tpa))) == None
  {
    RequestLayout(srcMac, spa, tpa);
  }

  /** An encoded ARP reply is kept, and decoding its entry gives back its sender addresses. */
  lemma ReplyAccepted(p: ArpPacket)
    requires WellFormed(p) && p.proto == ETH_P_ARP && p.op == ARPOP_REPLY
    ensures ReplyEntry(Encode(p)) == Some(Entry(p.spa, p.sha))
    ensures DecodeEntry(ReplyEntry(Encode(p)).value) == Some((p.spa, p.sha))
  {
    ParseEncode(p);
    EntryRoundTrip(p.spa, p.sha);
  }
}
