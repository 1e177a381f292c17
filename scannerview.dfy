/**
  The state `Scanner` keeps between frames: whether the ARP listener is running, the scroll
  offset into the discovered hosts, and the text block of at most four hosts it shows.
 */
module ScannerView {
  import opened Wrappers
  import opened Getline
  import opened Inet
  import opened ArpFrame
  import opened SubnetScan

  const HOSTS_PER_VIEW: nat := 4

  /** The hosts the drawing loop visits: from `scroll`, at most four, never past the end. */
  function Window(hosts: seq<string>, scroll: nat): (w: seq<string>)
    ensures |w| <= HOSTS_PER_VIEW
    ensures scroll < |hosts| ==> |w| >= 1 && w[0] == hosts[scroll]
    ensures forall j :: 0 <= j < |w| ==> scroll + j < |hosts| && w[j] == hosts[scroll + j]
    ensures |w| == HOSTS_PER_VIEW || scroll + |w| >= |hosts|
  {
    if scroll >= |hosts| then []
    else if scroll + HOSTS_PER_VIEW < |hosts| then hosts[scroll..scroll + HOSTS_PER_VIEW]
    else hosts[scroll..]
  }

  /** The drawing loop: each visited host followed by a newline. */
  method RenderHosts(hosts: seq<string>, scroll: nat) returns (res: string)
    ensures res == Terminated(Window(hosts, scroll), '\n')
  {
    res := "";
    var i := scroll;
    ghost var shown: seq<string> := [];
    while i < |hosts| && i < scroll + HOSTS_PER_VIEW
      invariant scroll <= i
      invariant i <= scroll + HOSTS_PER_VIEW
      invariant i - scroll == |shown|
      invariant scroll < |hosts| ==> i <= |hosts| && shown == hosts[scroll..i]
      invariant scroll >= |hosts| ==> i == scroll && shown == []
      invariant res == Terminated(shown, '\n')
    {
      TerminatedSnoc(shown, hosts[i], '\n');
      shown := shown + [hosts[i]];
      res := res + hosts[i] + "\n";
      i := i + 1;
    }
    assert shown == Window(hosts, scroll);
  }

  /** Every registry entry holds one newline, so a block of `n` entries spans `2 * n` lines. */
  lemma {:induction false} RenderedNewlines(entries: seq<string>)
    requires forall k :: 0 <= k < |entries| ==> CountOf(entries[k], '\n') == 1
    ensures CountOf(Terminated(entries, '\n'), '\n') == 2 * |entries|
    decreases |entries|
  {
    if entries != [] {
      CountOfAppend(entries[0], "\n", '\n');
      CountOfAppend(entries[0] + "\n", Terminated(entries[1..], '\n'), '\n');
      RenderedNewlines(entries[1..]);
    }
  }

  class Scanner {
    var scroll: int
    var listening: bool
    var sent: seq<seq<byte>>

    ghost predicate Valid()
      reads this
    {
      0 <= scroll
    }

    /** The static initial values: scroll 0, no listener. */
    constructor ()
      ensures Valid() && scroll == 0 && !listening && sent == []
    {
      scroll, listening, sent := 0, false, [];
    }

    /**
      START: only when no listener runs. `socketOpened` says whether the raw socket opened,
      `localIp` and `srcMac` are what the address and MAC queries returned. When idle with an
      open socket it scans, and `r` holds the scan's outcome; on success the listener runs and
      `sent` holds the 254 requests. The registry of hosts is not reset.
     */
    method Start(socketOpened: bool, localIp: string, srcMac: Option<seq<byte>>)
        returns (r: Option<Result<seq<seq<byte>>, ScanError>>)
      requires Valid()
      requires srcMac.Some? ==> |srcMac.value| == ETH_ALEN
      modifies this`listening, this`sent
      ensures Valid()
      ensures old(listening) || !socketOpened ==> r.None? && listening == old(listening) && sent == old(sent)
      ensures !old(listening) && socketOpened ==> r.Some? && ScanOutcome(localIp, srcMac, r.value)
      ensures r.Some? ==> listening == r.value.Ok? && sent == (if r.value.Ok? then r.value.value else old(sent))
    {
      r := None;
      if !listening && socketOpened {
        var scan := ArpScan(localIp, srcMac);
        r := Some(scan);
        if scan.Ok? {
          listening := true;
          sent := scan.value;
        }
      }
    }

    /** STOP: a running listener is told to stop; nothing else changes. */
    method Stop()
      requires Valid()
      modifies this`listening
      ensures Valid() && !listening
    {
      if listening {
        listening := false;
      }
    }

    /** "<": one entry back, only from an entry after the first. */
    method Left()
      requires Valid()
      modifies this`scroll
      ensures Valid() && scroll == if old(scroll) > 0 then old(scroll) - 1 else old(scroll)
    {
      if scroll > 0 {
        scroll := scroll - 1;
      }
    }

    /** ">": one entry on, without an upper bound. */
    method Right()
      requires Valid()
      modifies this`scroll
      ensures Valid() && scroll == old(scroll) + 1
    {
      scroll := scroll + 1;
    }

    /** The text block this frame shows for the discovered hosts. */
    method Render(hosts: seq<string>) returns (res: string)
      requires Valid()
      ensures res == Terminated(Window(hosts, scroll), '\n')
    {
      res := RenderHosts(hosts, scroll);
    }
  }
}
