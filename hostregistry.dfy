/**
  `active_hosts`: the discovered hosts in first-seen order, each entry inserted only when
  no equal entry is present, fed by the reply loop of `receive_arp_replies`.
 */
module HostRegistry {
  import opened Wrappers
  import opened Inet
  import opened ArpFrame

  predicate NoDuplicates(hosts: seq<string>) {
    forall i, j :: 0 <= i < j < |hosts| ==> hosts[i] != hosts[j]
  }

  /** The list after the de-duplicating insert of `entry`. */
  function Inserted(hosts: seq<string>, entry: string): seq<string>
  {
    if entry in hosts then hosts else hosts + [entry]
  }

  /** A received buffer as `recv` delivers it: empty when `recv` returned 0 or less. */
  predicate Receivable(frame: seq<byte>) { frame == [] || |frame| >= FRAME_LEN }

  /** The list after one pass of the receive loop over `frame`. */
  function Absorb(hosts: seq<string>, frame: seq<byte>): seq<string>
    requires Receivable(frame)
  {
    if frame == [] then hosts
    else match ReplyEntry(frame)
      case Some(entry) => Inserted(hosts, entry)
      case None => hosts
  }

  /** The list after the receive loop has taken `frames` in arrival order. */
  function AbsorbAll(hosts: seq<string>, frames: seq<seq<byte>>): seq<string>
    requires forall k :: 0 <= k < |frames| ==> Receivable(frames[k])
    decreases |frames|
  {
    if frames == [] then hosts
    else AbsorbAll(Absorb(hosts, frames[0]), frames[1..])
  }

  /** The `found` scan of the insert: whether an entry equal to `entry` is already listed. */
  method Find(hosts: seq<string>, entry: string) returns (found: bool)
    ensures found <==> entry in hosts
  {
    found := false;
    var i := 0;
    while i < |hosts|
      invariant 0 <= i <= |hosts|
      invariant found ==> entry in hosts
      invariant !found ==> entry !in hosts[..i]
    {
      if hosts[i] == entry {
        found := true;
        break;
      }
      i := i + 1;
    }
    assert hosts[..|hosts|] == hosts;
  }

  /** The global `active_hosts` vector. */
  class HostList {
    var hosts: seq<string>

    constructor ()
      ensures hosts == []
    {
      hosts := [];
    }

    /** The insert under `host_mutex`: scan for an equal entry, `emplace_back` when none. */
    method Insert(entry: string)
      modifies this
      ensures hosts == Inserted(old(hosts), entry)
    {
      var found := Find(hosts, entry);
      if !found {
        hosts := hosts + [entry];
      }
    }

    /** One pass of the loop of `receive_arp_replies` over a received buffer. */
    method Receive(frame: seq<byte>)
      requires Receivable(frame)
      modifies this
      ensures hosts == Absorb(old(hosts), frame)
    {
      if |frame| == 0 {
        return;
      }
      var reply := ReplyEntry(frame);
      if reply.Some? {
        Insert(reply.value);
      }
    }

    /** The loop of `receive_arp_replies` over the buffers `recv` delivers while it runs. */
    method ReceiveAll(frames: seq<seq<byte>>)
      requires forall k :: 0 <= k < |frames| ==> Receivable(frames[k])
      modifies this
      ensures hosts == AbsorbAll(old(hosts), frames)
    {
      var k := 0;
      while k < |frames|
        invariant 0 <= k <= |frames|
        invariant AbsorbAll(old(hosts), frames) == AbsorbAll(hosts, frames[k..])
      {
        assert frames[k..][1..] == frames[k + 1..];
        Receive(frames[k]);
        k := k + 1;
      }
    }
  }

  /**
    The insert in full: an entry already present leaves the list unchanged; a new one goes
    at the end, every earlier entry keeping its position; either way the entry is then present
    and nothing else is added.
   */
  lemma InsertedSpec(hosts: seq<string>, entry: string)
    ensures entry in hosts ==> Inserted(hosts, entry) == hosts
    ensures entry !in hosts ==>
              && |Inserted(hosts, entry)| == |hosts| + 1
              && Inserted(hosts, entry)[..|hosts|] == hosts
              && Inserted(hosts, entry)[|hosts|] == entry
    ensures forall x :: x in Inserted(hosts, entry) <==> x in hosts || x == entry
  {
  }

  /** A duplicate-free list stays duplicate-free. */
  lemma InsertedNoDuplicates(hosts: seq<string>, entry: string)
    requires NoDuplicates(hosts)
    ensures NoDuplicates(Inserted(hosts, entry))
  {
  }

  /** Inserting the same entry twice lists it exactly once. */
  lemma InsertTwice(hosts: seq<string>, entry: string)
    requires NoDuplicates(hosts)
    ensures Inserted(Inserted(hosts, entry), entry) == Inserted(hosts, entry)
    ensures multiset(Inserted(Inserted(hosts, entry), entry))[entry] == 1
  {
    var h := Inserted(hosts, entry);
    InsertedNoDuplicates(hosts, entry);
    OnceInDuplicateFree(h, entry);
  }

  lemma {:induction false} OnceInDuplicateFree(hosts: seq<string>, entry: string)
    requires NoDuplicates(hosts) && entry in hosts
    ensures multiset(hosts)[entry] == 1
    decreases |hosts|
  {
    var last := hosts[|hosts| - 1];
    var init := hosts[..|hosts| - 1];
    assert hosts == init + [last];
    if last == entry {
      assert entry !in init;
    } else {
      OnceInDuplicateFree(init, entry);
    }
  }

  /**
    The receive loop keeps what was listed, in place, lists every host at most once, lists
    the entry of every reply among `frames`, and lists nothing else.
   */
  lemma {:induction false} AbsorbAllSpec(hosts: seq<string>, frames: seq<seq<byte>>)
    requires forall k :: 0 <= k < |frames| ==> Receivable(frames[k])
    requires NoDuplicates(hosts)
    ensures var after := AbsorbAll(hosts, frames);
      && |hosts| <= |after| && after[..|hosts|] == hosts
      && NoDuplicates(after)
      && (forall k :: 0 <= k < |frames| && |frames[k]| >= FRAME_LEN && ReplyEntry(frames[k]).Some? ==>
            ReplyEntry(frames[k]).value in after)
      && forall x :: x in after ==>
           (x in hosts || exists k :: 0 <= k < |frames| && frames[k] != [] && ReplyEntry(frames[k]) == Some(x))
  {
    AbsorbAllKeeps(hosts, frames);
    AbsorbAllNoDuplicates(hosts, frames);
    AbsorbAllComplete(hosts, frames);
    AbsorbAllOrigin(hosts, frames);
  }

  /** The receive loop only appends: what was listed stays listed, in place. */
  lemma {:induction false} AbsorbAllKeeps(hosts: seq<string>, frames: seq<seq<byte>>)
    requires forall k :: 0 <= k < |frames| ==> Receivable(frames[k])
    ensures |hosts| <= |AbsorbAll(hosts, frames)| && AbsorbAll(hosts, frames)[..|hosts|] == hosts
    decreases |frames|
  {
    if frames != [] {
      var next := Absorb(hosts, frames[0]);
      AbsorbAllKeeps(next, frames[1..]);
      var after := AbsorbAll(hosts, frames);
      assert after[..|next|][..|hosts|] == after[..|hosts|];
    }
  }

  /** The receive loop lists every host at most once. */
  lemma {:induction false} AbsorbAllNoDuplicates(hosts: seq<string>, frames: seq<seq<byte>>)
    requires forall k :: 0 <= k < |frames| ==> Receivable(frames[k])
    requires NoDuplicates(hosts)
    ensures NoDuplicates(AbsorbAll(hosts, frames))
    decreases |frames|
  {
    if frames != [] {
      if frames[0] != [] && ReplyEntry(frames[0]).Some? {
        InsertedNoDuplicates(hosts, ReplyEntry(frames[0]).value);
      }
      AbsorbAllNoDuplicates(Absorb(hosts, frames[0]), frames[1..]);
    }
  }

  /** After the receive loop, the entry of every reply among `frames` is listed. */
  lemma {:induction false} AbsorbAllComplete(hosts: seq<string>, frames: seq<seq<byte>>)
    requires forall k :: 0 <= k < |frames| ==> Receivable(frames[k])
    ensures forall k :: 0 <= k < |frames| && |frames[k]| >= FRAME_LEN && ReplyEntry(frames[k]).Some? ==>
              ReplyEntry(frames[k]).value in AbsorbAll(hosts, frames)
    decreases |frames|
  {
    if frames != [] {
      var next := Absorb(hosts, frames[0]);
      var after := AbsorbAll(hosts, frames);
      AbsorbAllComplete(next, frames[1..]);
      AbsorbAllKeeps(next, frames[1..]);
      forall k | 0 <= k < |frames| && |frames[k]| >= FRAME_LEN && ReplyEntry(frames[k]).Some?
        ensures ReplyEntry(frames[k]).value in after
      {
        var entry := ReplyEntry(frames[k]).value;
        if k == 0 {
          assert entry in next;
          var i :| 0 <= i < |next| && next[i] == entry;
          assert after[..|next|][i] == entry;
        } else {
          assert frames[1..][k - 1] == frames[k];
        }
      }
    }
  }

  /** The receive loop lists nothing that did not come from a reply among `frames`. */
  lemma {:induction false} AbsorbAllOrigin(hosts: seq<string>, frames: seq<seq<byte>>)
    requires forall k :: 0 <= k < |frames| ==> Receivable(frames[k])
    ensures forall x :: x in AbsorbAll(hosts, frames) ==>
              (x in hosts || exists k :: 0 <= k < |frames| && frames[k] != [] && ReplyEntry(frames[k]) == Some(x))
    decreases |frames|
  {
    if frames != [] {
      var next := Absorb(hosts, frames[0]);
      AbsorbAllOrigin(next, frames[1..]);
      forall x | x in AbsorbAll(hosts, frames)
        ensures x in hosts ||
          exists k :: 0 <= k < |frames| && frames[k] != [] && ReplyEntry(frames[k]) == Some(x)
      {
        if x !in hosts {
          if x in next {
            assert frames[0] != [] && ReplyEntry(frames[0]) == Some(x);
          } else {
            var k :| 0 <= k < |frames[1..]| && frames[1..][k] != [] && ReplyEntry(frames[1..][k]) == Some(x);
            assert frames[k + 1] == frames[1..][k];
          }
        }
      }
    }
  }

  /** Buffers that are not ARP replies, such as this program's own requests, change nothing. */
  lemma {:induction false} AbsorbAllIgnoresNonReplies(hosts: seq<string>, frames: seq<seq<byte>>)
    requires forall k :: 0 <= k < |frames| ==>
               frames[k] == [] || (|frames[k]| >= FRAME_LEN && ReplyEntry(frames[k]).None?)
    ensures AbsorbAll(hosts, frames) == hosts
    decreases |frames|
  {
    if frames != [] {
      AbsorbAllIgnoresNonReplies(hosts, frames[1..]);
    }
  }
}
