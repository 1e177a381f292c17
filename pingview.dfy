/**
  `Ping` and its `IpAddressPicker`: four counters picked with buttons, one `ping -c 4` run at a
  time whose collected output is shown with every reply line replaced by "OK".
 */
module PingView {
  import opened Decimal
  import opened Getline
  import opened DottedQuad

  /**
    The rewrite of one line of output. Reply lines ("64 bytes from ...") have 'b' at index 3.
    A line of exactly three characters has the terminating NUL at index 3 and is kept.
   */
  function RewriteLine(line: string): (r: string)
    ensures line == "" ==> r == ""
    ensures r == "OK" || r == line
    ensures r == "OK" <==> (|line| > 3 && line[3] == 'b') || line == "OK"
  {
    if line == [] then []
    else if |line| > 3 && line[3] == 'b' then "OK"
    else line
  }

  function RewriteAll(lines: seq<string>): (r: seq<string>)
    ensures |r| == |lines| && forall k :: 0 <= k < |lines| ==> r[k] == RewriteLine(lines[k])
  {
    seq(|lines|, k requires 0 <= k < |lines| => RewriteLine(lines[k]))
  }

  /** The text `Ping` shows for the collected output: each line rewritten and newline-terminated. */
  function Shown(text: string): string
  {
    Terminated(RewriteAll(Split(text, '\n')), '\n')
  }

  /** The body of the `std::getline` loop: one line of output appended in its rewritten form. */
  method AppendRewritten(result: string, line: string) returns (r: string)
    ensures r == result + RewriteLine(line) + "\n"
  {
    if line == [] {
      r := result + "\n";
    } else if |line| > 3 && line[3] == 'b' {
      r := result + "OK\n";
    } else {
      r := result + line + "\n";
    }
  }

  /**
    The `std::getline` loop over the collected output. The lines are read first and rewritten
    in a second pass; the text built is the same as reading and rewriting in one loop.
   */
  method Filter(text: string) returns (result: string)
    ensures result == Shown(text)
  {
    var lines := ReadAll(text, '\n');
    result := "";
    for i := 0 to |lines|
      invariant result == Terminated(RewriteAll(lines[..i]), '\n')
    {
      TerminatedSnoc(RewriteAll(lines[..i]), RewriteLine(lines[i]), '\n');
      assert RewriteAll(lines[..i + 1]) == RewriteAll(lines[..i]) + [RewriteLine(lines[i])];
      result := AppendRewritten(result, lines[i]);
    }
    assert lines[..|lines|] == lines;
  }

  /**
    The shown text has one line per line of output, in order, each the rewrite of its
    original.
   */
  lemma ShownLines(text: string)
    ensures Split(Shown(text), '\n') == RewriteAll(Split(text, '\n'))
  {
    var lines := Split(text, '\n');
    var rewritten := RewriteAll(lines);
    forall k | 0 <= k < |rewritten| ensures '\n' !in rewritten[k] {
      assert '\n' !in lines[k];
    }
    SplitTerminated(rewritten, '\n');
  }

  /** Rewriting is idempotent: filtering the shown text again changes nothing. */
  lemma FilterIdempotent(text: string)
    ensures Shown(Shown(text)) == Shown(text)
  {
    ShownLines(text);
    var rewritten := RewriteAll(Split(text, '\n'));
    assert RewriteAll(rewritten) == rewritten;
  }

  /** A reply line of `ping` output is shown as "OK"; a summary line is kept. */
  lemma ReplyLineExample()
    ensures RewriteLine("64 bytes from 10.0.0.1: icmp_seq=1") == "OK"
    ensures RewriteLine("4 packets transmitted, 4 received") == "4 packets transmitted, 4 received"
  {
    assert "64 bytes from 10.0.0.1: icmp_seq=1"[3] == 'b';
  }

  /** `std::to_string(a) + "." + ... + std::to_string(d)`: the dotted form of four numbers. */
  lemma {:induction false} PingTargetDotted(a: int, b: int, c: int, d: int)
    ensures IntToString(a) + "." + IntToString(b) + "." + IntToString(c) + "." + IntToString(d)
            == FormatDotted([a, b, c, d])
  {
    var sa, sb, sc, sd := IntToString(a), IntToString(b), IntToString(c), IntToString(d);
    assert Decimals([a, b, c, d]) == [sa, sb, sc, sd];
    JoinFour(sa, sb, sc, sd);
  }

  class Ping {
    var ipAddr: seq<Int32>
    var running: bool
    var collected: string
    var target: string

    ghost predicate Valid()
      reads this
    {
      |ipAddr| == 4
    }

    /** The static initial values: 192.168.0.1, no run, nothing collected. */
    constructor ()
      ensures Valid() && ipAddr == [192, 168, 0, 1] && !running && collected == "" && target == ""
    {
      ipAddr, running, collected, target := [192, 168, 0, 1], false, "", "";
    }

    /** One of the picker's up (`delta == 1`) or down (`delta == -1`) buttons; the C++ `int` must not overflow. */
    method Bump(k: nat, delta: int)
      requires Valid() && k < 4 && (delta == 1 || delta == -1)
      requires INT_MIN <= ipAddr[k] + delta <= INT_MAX
      modifies this`ipAddr
      ensures Valid() && ipAddr == old(ipAddr)[k := old(ipAddr)[k] + delta]
    {
      ipAddr := ipAddr[k := ipAddr[k] + delta];
    }

    /** PING: only when no run is active; starts one against the picked address and clears the output. */
    method Press()
      requires Valid()
      modifies this`running, this`collected, this`target
      ensures Valid() && running
      ensures !old(running) ==> collected == "" && target == FormatDotted(ipAddr)
      ensures old(running) ==> collected == old(collected) && target == old(target)
    {
      if !running {
        var dotted := IntToString(ipAddr[0]) + "." + IntToString(ipAddr[1]) + "." +
                      IntToString(ipAddr[2]) + "." + IntToString(ipAddr[3]);
        PingTargetDotted(ipAddr[0], ipAddr[1], ipAddr[2], ipAddr[3]);
        assert [ipAddr[0], ipAddr[1], ipAddr[2], ipAddr[3]] == ipAddr;
        running := true;
        target := dotted;
        collected := "";
      }
    }

    /** One frame's poll of a running ping: its new output is appended; a run that exited ends. */
    method Poll(output: string, exited: bool)
      requires Valid()
      modifies this`running, this`collected
      ensures Valid()
      ensures collected == if old(running) then old(collected) + output else old(collected)
      ensures running == (old(running) && !exited)
    {
      if running {
        collected := collected + output;
        if exited {
          running := false;
        }
      }
    }

    /** The text this frame shows. */
    method Render() returns (result: string)
      requires Valid()
      ensures result == Shown(collected)
    {
      result := Filter(collected);
    }
  }
}
