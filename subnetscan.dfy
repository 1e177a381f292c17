/**
  `arp_scan`: the local address is cut to its first three numbers and one ARP request is
  built for each host number 1 to 254 of that /24 network, in ascending order.
 */
module SubnetScan {
  import opened Wrappers
  import opened Decimal
  import opened DottedQuad
  import opened Inet
  import opened ArpFrame

  const FIRST_HOST: nat := 1
  const LAST_HOST: nat := 254
  const SWEEP_SIZE: nat := LAST_HOST - FIRST_HOST + 1

  /**
    Why `arp_scan` returns early, or throws. `TooFewOctets` stands for the source's undefined
    behaviour when the local address has fewer than two numbers: `pop_back` on an empty vector,
    or `VectorToIpv4` of an empty one.
   */
  datatype ScanError = NoMacAddress | BadLocalAddress(StoiError) | TooFewOctets

  /** `ip_str + "." + std::to_string(i)`. */
  function SweepTarget(prefix: string, host: nat): string
  {
    prefix + "." + IntToString(host)
  }

  /** The first three numbers of the local address, joined back with dots. */
  function SweepPrefix(octets: seq<Int32>): string
    requires |octets| >= 2
  {
    FormatDotted(octets[..|octets| - 1])
  }

  /** The request `send_arp_request` builds for host number `host` behind `prefix`. */
  function SweepRequest(srcMac: seq<byte>, localIp: string, prefix: string, host: nat): (f: seq<byte>)
    requires |srcMac| == ETH_ALEN
    ensures |f| == FRAME_LEN
  {
    Encode(RequestPacket(srcMac, PtonOrZero(localIp), PtonOrZero(SweepTarget(prefix, host))))
  }

  /** The first `n` requests of the sweep, for host numbers 1 to `n`. */
  function SweepFrames(srcMac: seq<byte>, localIp: string, prefix: string, n: nat): (fs: seq<seq<byte>>)
    requires |srcMac| == ETH_ALEN
    ensures |fs| == n
  {
    if n == 0 then [] else SweepFrames(srcMac, localIp, prefix, n - 1) + [SweepRequest(srcMac, localIp, prefix, n)]
  }

  /** Frame k of the first `n` requests asks for host number k + 1. */
  lemma {:induction false} SweepFramesAt(srcMac: seq<byte>, localIp: string, prefix: string, n: nat, k: nat)
    requires |srcMac| == ETH_ALEN && k < n
    ensures SweepFrames(srcMac, localIp, prefix, n)[k] == SweepRequest(srcMac, localIp, prefix, FIRST_HOST + k)
    decreases n
  {
    var front := SweepFrames(srcMac, localIp, prefix, n - 1);
    var last := SweepRequest(srcMac, localIp, prefix, n);
    assert SweepFrames(srcMac, localIp, prefix, n) == front + [last];
    if k < n - 1 {
      SweepFramesAt(srcMac, localIp, prefix, n - 1, k);
      assert (front + [last])[k] == front[k];
    } else {
      assert FIRST_HOST + k == n;
      assert (front + [last])[k] == last;
    }
  }

  lemma SweepFramesSnoc(srcMac: seq<byte>, localIp: string, prefix: string, n: nat, frame: seq<byte>)
    requires |srcMac| == ETH_ALEN && n >= 1 && frame == SweepRequest(srcMac, localIp, prefix, n)
    ensures SweepFrames(srcMac, localIp, prefix, n) == SweepFrames(srcMac, localIp, prefix, n - 1) + [frame]
  {
  }

  /** One pass of the sweep: `send_arp_request` for `ip_str + "." + std::to_string(i)`. */
  method SendRequest(prefix: string, localIp: string, srcMac: seq<byte>, host: nat) returns (frame: seq<byte>)
    requires |srcMac| == ETH_ALEN
    ensures frame == SweepRequest(srcMac, localIp, prefix, host)
  {
    frame := BuildArpRequest(SweepTarget(prefix, host), localIp, srcMac);
  }

  /** The `for (int i = 1; i <= 254; ++i)` loop: one request per host number, in ascending order. */
  method Sweep(prefix: string, localIp: string, srcMac: seq<byte>) returns (frames: seq<seq<byte>>)
    requires |srcMac| == ETH_ALEN
    ensures |frames| == SWEEP_SIZE
    ensures forall k :: 0 <= k < SWEEP_SIZE ==> frames[k] == SweepRequest(srcMac, localIp, prefix, FIRST_HOST + k)
  {
    frames := [];
    for i := FIRST_HOST to LAST_HOST + 1
      invariant frames == SweepFrames(srcMac, localIp, prefix, i - 1)
    {
      var frame := SendRequest(prefix, localIp, srcMac, i);
      SweepFramesSnoc(srcMac, localIp, prefix, i, frame);
      frames := frames + [frame];
    }
    forall k | 0 <= k < SWEEP_SIZE
      ensures frames[k] == SweepRequest(srcMac, localIp, prefix, FIRST_HOST + k)
    {
      SweepFramesAt(srcMac, localIp, prefix, SWEEP_SIZE, k);
    }
  }

  /**
    What `arp_scan` does once the socket is open, case by case: no MAC address, an error
    value for the `std::stoi` exception, an error value for a local address of fewer than
    two numbers, and otherwise exactly the 254 requests, frame k asking for host number
    k + 1 behind the local prefix.
   */
  predicate ScanOutcome(localIp: string, srcMac: Option<seq<byte>>, r: Result<seq<seq<byte>>, ScanError>)
    requires srcMac.Some? ==> |srcMac.value| == ETH_ALEN
  {
    match srcMac
    case None => r == Err(NoMacAddress)
    case Some(mac) =>
      match ParseIpv4(localIp)
      case Err(e) => r == Err(BadLocalAddress(e))
      case Ok(octets) =>
        if |octets| < 2 then r == Err(TooFewOctets)
        else
          && r.Ok? && |r.value| == SWEEP_SIZE
          && forall k :: 0 <= k < SWEEP_SIZE ==>
               r.value[k] == SweepRequest(mac, localIp, SweepPrefix(octets), FIRST_HOST + k)
  }

  /** The outcome is a function of the inputs: at most one result satisfies `ScanOutcome`. */
  lemma ScanOutcomeUnique(localIp: string, srcMac: Option<seq<byte>>, r1: Result<seq<seq<byte>>, ScanError>,
                          r2: Result<seq<seq<byte>>, ScanError>)
    requires srcMac.Some? ==> |srcMac.value| == ETH_ALEN
    requires ScanOutcome(localIp, srcMac, r1) && ScanOutcome(localIp, srcMac, r2)
    ensures r1 == r2
  {
    if r1.Ok? {
      assert r2.Ok?;
      assert r1.value == r2.value;
    }
  }

  /**
    `arp_scan` after the socket is open: `localIp` is what `GetIPv4Address()` returned and
    `srcMac` what `get_mac_address` filled in (`None` when it failed). The result lists the
    frames handed to `sendto`, in sending order.
   */
  method ArpScan(localIp: string, srcMac: Option<seq<byte>>) returns (r: Result<seq<seq<byte>>, ScanError>)
    requires srcMac.Some? ==> |srcMac.value| == ETH_ALEN
    ensures ScanOutcome(localIp, srcMac, r)
  {
    if srcMac.None? {
      return Err(NoMacAddress);
    }
    var ip := Ipv4ToVector(localIp);
    if ip.Err? {
      return Err(BadLocalAddress(ip.error));
    }
    var octets := ip.value;
    if |octets| < 2 {
      return Err(TooFewOctets);
    }
    var prefix := VectorToIpv4(octets[..|octets| - 1]);
    var frames := Sweep(prefix, localIp, srcMac.value);
    return Ok(frames);
  }

  /**
    For a local address as `inet_ntop` renders it, the target for host number `host` reads as
    the local address with its last byte replaced by `host`: the sweep covers the hosts 1 to
    254 of the /24 network, in ascending order, and never host 0 (the network) nor host 255
    (the broadcast).
   */
  lemma SweepCoversSubnet(local: seq<byte>)
    requires |local| == 4
    ensures ParseIpv4(InetNtop(local)) == Ok(local)
    ensures forall host: byte :: FIRST_HOST <= host <= LAST_HOST ==>
              InetPton(SweepTarget(SweepPrefix(local), host)) == Some(local[..3] + [host])
  {
    ParseFormatRoundTrip(local);
    forall host: byte | FIRST_HOST <= host <= LAST_HOST
      ensures InetPton(SweepTarget(SweepPrefix(local), host)) == Some(local[..3] + [host])
    {
      var addr := local[..3] + [host];
      assert local[..|local| - 1] == addr[..3];
      assert addr[..3] + [host] == addr;
      FormatDottedSnoc(addr[..3], host);
      PtonNtop(addr);
    }
  }

  /**
    End to end: the frame `ArpScan` sends for host number `host` of a local address `local`
    is the request from `local` and `srcMac` for the address `local[..3] + [host]`.
   */
  lemma SweepFrame(local: seq<byte>, srcMac: seq<byte>, host: byte)
    requires |local| == 4 && |srcMac| == ETH_ALEN && FIRST_HOST <= host <= LAST_HOST
    ensures SweepRequest(srcMac, InetNtop(local), SweepPrefix(local), host)
         == Encode(RequestPacket(srcMac, local, local[..3] + [host]))
  {
    SweepCoversSubnet(local);
    PtonNtop(local);
    assert PtonOrZero(InetNtop(local)) == local;
    assert PtonOrZero(SweepTarget(SweepPrefix(local), host)) == local[..3] + [host];
  }
}
