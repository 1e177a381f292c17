/**
  Reading a string stream piece by piece with `std::getline(stream, piece, delim)`,
  as the source does for dotted addresses ('.') and for captured output ('\n'),
  and the two ways of putting pieces back together.
 */
module Getline {

  /** The position of the first `c` in `s`, or `|s|` when there is none. */
  function IndexOf(s: string, c: char): (k: nat)
    ensures k <= |s| && (k < |s| ==> s[k] == c) && c !in s[..k]
    decreases |s|
  {
    if s == [] || s[0] == c then 0
    else
      var k := IndexOf(s[1..], c);
      assert s[..k + 1] == [s[0]] + s[1..][..k];
      1 + k
  }

  /**
    The pieces that successive `std::getline` calls extract from `s` until the stream
    fails: a delimiter ends a piece and is consumed; the text after the last delimiter is
    one more piece only when it is non-empty.
   */
  function Split(s: string, delim: char): (pieces: seq<string>)
    ensures forall k :: 0 <= k < |pieces| ==> delim !in pieces[k]
    ensures s != [] <==> pieces != []
    decreases |s|
  {
    if s == [] then []
    else
      var k := IndexOf(s, delim);
      if k == |s| then [s] else [s[..k]] + Split(s[k + 1..], delim)
  }

  /** The pieces separated by single delimiters (no delimiter after the last one). */
  function Join(pieces: seq<string>, delim: char): string
    requires pieces != []
    decreases |pieces|
  {
    if |pieces| == 1 then pieces[0] else pieces[0] + [delim] + Join(pieces[1..], delim)
  }

  /** Every piece followed by a delimiter, as a loop appending `piece + delim` builds it. */
  function Terminated(pieces: seq<string>, delim: char): string
    decreases |pieces|
  {
    if pieces == [] then "" else pieces[0] + [delim] + Terminated(pieces[1..], delim)
  }

  function CountOf(s: string, c: char): nat
    decreases |s|
  {
    if s == [] then 0 else (if s[0] == c then 1 else 0) + CountOf(s[1..], c)
  }

  /** One `std::getline(stream, piece, delim)` call on the text `s`, read from position `pos`. */
  method GetLine(s: string, pos: nat, delim: char) returns (ok: bool, piece: string, next: nat)
    requires pos <= |s|
    ensures ok <==> pos < |s|
    ensures ok ==> pos < next <= |s| && Split(s[pos..], delim) == [piece] + Split(s[next..], delim)
    ensures !ok ==> piece == [] && next == pos
  {
    piece, next := [], pos;
    if pos == |s| {
      return false, piece, next;
    }
    ok := true;
    var end := ScanPiece(s, pos, delim);
    piece := s[pos..end];
    SplitAt(s, pos, end, delim);
    next := if end < |s| then end + 1 else end;
  }

  /** `while (std::getline(stream, piece, delim))` collecting every piece of `s`. */
  method ReadAll(s: string, delim: char) returns (pieces: seq<string>)
    ensures pieces == Split(s, delim)
  {
    pieces := [];
    var pos := 0;
    assert s[pos..] == s;
    while true
      invariant pos <= |s|
      invariant Split(s, delim) == pieces + Split(s[pos..], delim)
      decreases |s| - pos
    {
      var ok, piece, next := GetLine(s, pos, delim);
      if !ok {
        break;
      }
      pieces := pieces + [piece];
      pos := next;
    }
    assert s[pos..] == [];
  }

  /** Where the piece starting at `pos` ends: the next delimiter, or the end of `s`. */
  method ScanPiece(s: string, pos: nat, delim: char) returns (end: nat)
    requires pos <= |s|
    ensures pos <= end <= |s| && delim !in s[pos..end] && (end < |s| ==> s[end] == delim)
  {
    end := pos;
    while end < |s| && s[end] != delim
      invariant pos <= end <= |s|
      invariant delim !in s[pos..end]
    {
      assert s[pos..end + 1] == s[pos..end] + [s[end]];
      end := end + 1;
    }
  }

  /** The piece `getline` reads from `pos` ends at `end`: at the next delimiter or at the end of `s`. */
  lemma SplitAt(s: string, pos: nat, end: nat, delim: char)
    requires pos < |s| && pos <= end <= |s|
    requires delim !in s[pos..end] && (end < |s| ==> s[end] == delim)
    ensures end < |s| ==> Split(s[pos..], delim) == [s[pos..end]] + Split(s[end + 1..], delim)
    ensures end == |s| ==> Split(s[pos..], delim) == [s[pos..end]] + Split(s[end..], delim)
  {
    var rest := s[pos..];
    var piece := s[pos..end];
    assert rest[..|piece|] == piece;
    IndexOfFirst(rest, delim, |piece|);
    if end < |s| {
      assert rest[|piece| + 1..] == s[end + 1..];
    } else {
      assert rest == piece;
      assert s[end..] == [];
    }
  }

  lemma {:induction false} IndexOfFirst(s: string, c: char, k: nat)
    requires k <= |s| && (k < |s| ==> s[k] == c) && c !in s[..k]
    ensures IndexOf(s, c) == k
  {
  }

  /** Splitting undoes joining, provided no piece holds the delimiter and the last is non-empty. */
  lemma {:induction false} SplitJoin(pieces: seq<string>, delim: char)
    requires pieces != [] && pieces[|pieces| - 1] != []
    requires forall k :: 0 <= k < |pieces| ==> delim !in pieces[k]
    ensures Split(Join(pieces, delim), delim) == pieces
    decreases |pieces|
  {
    var s := Join(pieces, delim);
    var p := pieces[0];
    if |pieces| == 1 {
      assert s[..|p|] == p;
      IndexOfFirst(s, delim, |p|);
    } else {
      var rest := Join(pieces[1..], delim);
      assert s == p + [delim] + rest;
      assert s[..|p|] == p;
      IndexOfFirst(s, delim, |p|);
      assert s[|p| + 1..] == rest;
      SplitJoin(pieces[1..], delim);
    }
  }

  /**
    Joining undoes splitting: a non-empty `s` is its pieces joined back, plus the final
    delimiter when `s` ends with one (that last delimiter ends no piece).
   */
  lemma {:induction false} JoinSplit(s: string, delim: char)
    requires s != []
    ensures s[|s| - 1] == delim ==> Join(Split(s, delim), delim) + [delim] == s
    ensures s[|s| - 1] != delim ==> Join(Split(s, delim), delim) == s
    decreases |s|
  {
    var k := IndexOf(s, delim);
    if k < |s| {
      var head, rest := s[..k], s[k + 1..];
      assert s == head + [delim] + rest;
      assert Split(s, delim) == [head] + Split(rest, delim);
      if rest == [] {
        assert Split(s, delim) == [head];
        assert s[|s| - 1] == delim;
      } else {
        var tail := Split(rest, delim);
        JoinCons(head, tail, delim);
        JoinSplit(rest, delim);
        assert s[|s| - 1] == rest[|rest| - 1];
        if rest[|rest| - 1] == delim {
          assert Join(tail, delim) + [delim] == rest;
          assert head + [delim] + Join(tail, delim) + [delim] == s;
        } else {
          assert Join(tail, delim) == rest;
        }
      }
    } else {
      assert s[..k] == s;
      assert Split(s, delim) == [s];
    }
  }

  lemma JoinCons(head: string, tail: seq<string>, delim: char)
    requires tail != []
    ensures Join([head] + tail, delim) == head + [delim] + Join(tail, delim)
  {
    assert ([head] + tail)[1..] == tail;
  }

  /** Splitting undoes `Terminated` whenever no piece holds the delimiter, empty pieces included. */
  lemma {:induction false} SplitTerminated(pieces: seq<string>, delim: char)
    requires forall k :: 0 <= k < |pieces| ==> delim !in pieces[k]
    ensures Split(Terminated(pieces, delim), delim) == pieces
    decreases |pieces|
  {
    if pieces != [] {
      var s := Terminated(pieces, delim);
      var p := pieces[0];
      var rest := Terminated(pieces[1..], delim);
      assert s == p + [delim] + rest;
      assert s[..|p|] == p;
      IndexOfFirst(s, delim, |p|);
      assert s[|p| + 1..] == rest;
      SplitTerminated(pieces[1..], delim);
    }
  }

  lemma {:induction false} JoinSnoc(pieces: seq<string>, last: string, delim: char)
    requires pieces != []
    ensures Join(pieces + [last], delim) == Join(pieces, delim) + [delim] + last
    decreases |pieces|
  {
    if |pieces| > 1 {
      assert (pieces + [last])[1..] == pieces[1..] + [last];
      JoinSnoc(pieces[1..], last, delim);
    }
  }

  lemma {:induction false} TerminatedSnoc(pieces: seq<string>, last: string, delim: char)
    ensures Terminated(pieces + [last], delim) == Terminated(pieces, delim) + last + [delim]
    decreases |pieces|
  {
    if pieces != [] {
      assert (pieces + [last])[1..] == pieces[1..] + [last];
      TerminatedSnoc(pieces[1..], last, delim);
    } else {
      assert [last][1..] == [];
    }
  }

  lemma {:induction false} CountOfAppend(a: string, b: string, c: char)
    ensures CountOf(a + b, c) == CountOf(a, c) + CountOf(b, c)
    decreases |a|
  {
    if a != [] {
      assert (a + b)[0] == a[0];
      assert (a + b)[1..] == a[1..] + b;
      CountOfAppend(a[1..], b, c);
    } else {
      assert a + b == b;
    }
  }

  lemma {:induction false} CountOfAbsent(s: string, c: char)
    requires c !in s
    ensures CountOf(s, c) == 0
    decreases |s|
  {
    if s != [] {
      CountOfAbsent(s[1..], c);
    }
  }

  /** A join of `n` delimiter-free pieces holds exactly `n - 1` delimiters. */
  lemma {:induction false} CountOfJoin(pieces: seq<string>, delim: char)
    requires pieces != []
    requires forall k :: 0 <= k < |pieces| ==> delim !in pieces[k]
    ensures CountOf(Join(pieces, delim), delim) == |pieces| - 1
    decreases |pieces|
  {
    CountOfAbsent(pieces[0], delim);
    if |pieces| > 1 {
      CountOfJoin(pieces[1..], delim);
      CountOfAppend(pieces[0], [delim], delim);
      CountOfAppend(pieces[0] + [delim], Join(pieces[1..], delim), delim);
    }
  }

  /** A character that is neither the delimiter nor in any piece is not in their join. */
  lemma {:induction false} JoinAvoids(pieces: seq<string>, delim: char, c: char)
    requires pieces != [] && c != delim
    requires forall k :: 0 <= k < |pieces| ==> c !in pieces[k]
    ensures c !in Join(pieces, delim)
    decreases |pieces|
  {
    if |pieces| > 1 {
      JoinAvoids(pieces[1..], delim, c);
    }
  }
}
