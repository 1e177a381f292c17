/**
  The IPv4 text conversions the source relies on: `inet_ntop(AF_INET, ...)`
  (four bytes to dotted decimal), `inet_pton(AF_INET, ...)` (dotted decimal to four
  bytes, or failure), and the loopback rule of `GetIPv4Address`.
 */
module Inet {
  import opened Wrappers
  import opened Decimal
  import opened Getline
  import opened DottedQuad

  type byte = x: int | 0 <= x < 256

  /** One octet as `inet_pton` accepts it: 1 to 3 digits, value at most 255, no leading zero. */
  function ParseDecOctet(p: string): (r: Option<byte>)
    ensures r.Some? ==> p == DigitsOf(r.value)
  {
    if 1 <= |p| <= 3 && AllDigits(p) && (|p| == 1 || p[0] != '0') && DigitsValue(p) <= 255 then
      DigitsOfValue(p);
      Some(DigitsValue(p))
    else None
  }

  /**
    `inet_pton(AF_INET, s, dst)`: `Some` of the four address bytes in network order when `s`
    is exactly four octets separated by single dots; `None` (return value 0, `dst` untouched)
    otherwise.
   */
  function InetPton(s: string): (r: Option<seq<byte>>)
    ensures r.Some? ==> |r.value| == 4
  {
    var pieces := Split(s, '.');
    if s != [] && s[|s| - 1] != '.' && |pieces| == 4
       && forall k :: 0 <= k < 4 ==> ParseDecOctet(pieces[k]).Some?
    then Some(seq(4, k requires 0 <= k < 4 => ParseDecOctet(pieces[k]).value))
    else None
  }

  /** `inet_ntop(AF_INET, addr, ...)`: the four bytes as `%u.%u.%u.%u`, the same text `VectorToIpv4` gives: 7 to 15
    characters with three dots, so it fits the 16-byte `INET_ADDRSTRLEN` buffer with its terminator. */
  function InetNtop(addr: seq<byte>): (s: string)
    requires |addr| == 4
    ensures 7 <= |s| <= 15
    ensures CountOf(s, '.') == 3 && '\n' !in s
  {
    var pieces := Decimals(addr);
    forall k | 0 <= k < 4 ensures 1 <= |pieces[k]| <= 3 && '\n' !in pieces[k] {
      DigitsOfSmall(addr[k]);
      assert AllDigits(pieces[k]);
    }
    assert pieces == [pieces[0], pieces[1], pieces[2], pieces[3]];
    JoinFour(pieces[0], pieces[1], pieces[2], pieces[3]);
    JoinAvoids(pieces, '.', '\n');
    FormatDottedShape(addr);
    FormatDotted(addr)
  }

  lemma {:induction false} DigitsOfSmall(n: nat)
    requires n <= 255
    ensures |DigitsOf(n)| <= 3
  {
    if n >= 10 {
      assert |DigitsOf(n)| == |DigitsOf(n / 10)| + 1;
      if n / 10 >= 10 {
        assert |DigitsOf(n / 10)| == |DigitsOf(n / 100)| + 1;
      }
    }
  }

  lemma ParseDecOctetDigits(n: byte)
    ensures ParseDecOctet(DigitsOf(n)) == Some(n)
  {
    DigitsOfSmall(n);
    DigitsValueOf(n);
  }

  /** `inet_pton` reads back every address `inet_ntop` renders. */
  lemma PtonNtop(addr: seq<byte>)
    requires |addr| == 4
    ensures InetPton(InetNtop(addr)) == Some(addr)
  {
    var s := InetNtop(addr);
    var pieces := Decimals(addr);
    forall k | 0 <= k < 4 ensures ParseDecOctet(pieces[k]) == Some(addr[k]) && '.' !in pieces[k] {
      ParseDecOctetDigits(addr[k]);
    }
    SplitJoin(pieces, '.');
    FormatDottedShape(addr);
    assert Split(s, '.') == pieces;
    assert seq(4, k requires 0 <= k < 4 => ParseDecOctet(pieces[k]).value) == addr;
  }

  /** `inet_pton` accepts only the canonical text: whatever it accepts is what `inet_ntop` renders. */
  lemma NtopPton(s: string)
    requires InetPton(s).Some?
    ensures InetNtop(InetPton(s).value) == s
  {
    var addr := InetPton(s).value;
    var pieces := Split(s, '.');
    assert Decimals(addr) == pieces;
    JoinSplit(s, '.');
  }

  /** `strncmp(addr, "127.", 4) == 0`: the address lies in the loopback network. */
  predicate IsLoopback(addr: string) { |addr| >= 4 && addr[..4] == "127." }

  /** The address `GetIPv4Address` keeps: the first non-loopback one, or "" when there is none. */
  function FirstNonLoopback(addrs: seq<string>): string
    decreases |addrs|
  {
    if addrs == [] then ""
    else if !IsLoopback(addrs[0]) then addrs[0]
    else FirstNonLoopback(addrs[1..])
  }

  /**
    The scan of `GetIPv4Address` over the IPv4 addresses of the interfaces, in the order
    `getifaddrs` lists them (the list itself is an input here).
   */
  method GetIpv4Address(addrs: seq<string>) returns (ip: string)
    ensures ip == FirstNonLoopback(addrs)
  {
    ip := "";
    var k := 0;
    while k < |addrs|
      invariant 0 <= k <= |addrs|
      invariant ip == "" && FirstNonLoopback(addrs) == FirstNonLoopback(addrs[k..])
    {
      if !IsLoopback(addrs[k]) {
        ip := addrs[k];
        break;
      }
      assert addrs[k..][1..] == addrs[k + 1..];
      k := k + 1;
    }
  }

  /**
    The pick is right in both directions: "" when every address is loopback, and otherwise
    the first address that is not.
   */
  lemma {:induction false} FirstNonLoopbackIsFirst(addrs: seq<string>)
    ensures (forall k :: 0 <= k < |addrs| ==> IsLoopback(addrs[k])) ==> FirstNonLoopback(addrs) == ""
    ensures forall k :: (0 <= k < |addrs| && !IsLoopback(addrs[k]) &&
      forall j :: 0 <= j < k ==> IsLoopback(addrs[j])) ==> FirstNonLoopback(addrs) == addrs[k]
    decreases |addrs|
  {
    if addrs != [] {
      FirstNonLoopbackIsFirst(addrs[1..]);
      assert forall k :: 1 <= k < |addrs| ==> addrs[k] == addrs[1..][k - 1];
    }
  }
}
