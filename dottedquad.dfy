/**
  `IPv4ToVector` and `VectorToIpv4`: a dotted address split into its decimal
  numbers and a vector of numbers joined back with dots.
 */
module DottedQuad {
  import opened Wrappers
  import opened Decimal
  import opened Getline

  /** `std::stoi` applied to every piece in turn; the first piece that throws ends the parse. */
  function ParseOctets(pieces: seq<string>): Result<seq<Int32>, StoiError>
    decreases |pieces|
  {
    if pieces == [] then Ok([])
    else
      match Stoi(pieces[0])
      case Err(e) => Err(e)
      case Ok(v) => Prepend([v], ParseOctets(pieces[1..]))
  }

  /** Puts `front` before the numbers of a successful parse; an error is passed on. */
  function Prepend(front: seq<Int32>, r: Result<seq<Int32>, StoiError>): Result<seq<Int32>, StoiError>
  {
    match r
    case Ok(rest) => Ok(front + rest)
    case Err(e) => Err(e)
  }

  /** What `IPv4ToVector(ip)` returns, or the exception it throws. */
  function ParseIpv4(ip: string): Result<seq<Int32>, StoiError>
  {
    ParseOctets(Split(ip, '.'))
  }

  /** `std::to_string` of every element. */
  function Decimals(v: seq<int>): (pieces: seq<string>)
    ensures |pieces| == |v|
    ensures forall k :: 0 <= k < |v| ==> pieces[k] == IntToString(v[k])
  {
    seq(|v|, k requires 0 <= k < |v| => IntToString(v[k]))
  }

  /** What `VectorToIpv4(v)` returns: the decimals of `v` separated by dots. */
  function FormatDotted(v: seq<int>): string
    requires v != []
  {
    Join(Decimals(v), '.')
  }

  /** `IPv4ToVector`: a `getline(ss, octet, '.')` loop pushing `stoi(octet)` for every piece. */
  method Ipv4ToVector(ip: string) returns (r: Result<seq<Int32>, StoiError>)
    ensures r == ParseIpv4(ip)
  {
    var octets: seq<Int32> := [];
    var pos := 0;
    assert ip[pos..] == ip;
    assert ParseIpv4(ip).Ok? ==> octets + ParseIpv4(ip).value == ParseIpv4(ip).value;
    while true
      invariant pos <= |ip|
      invariant ParseIpv4(ip) == Prepend(octets, ParseOctets(Split(ip[pos..], '.')))
      decreases |ip| - pos
    {
      var ok, octet, next := GetLine(ip, pos, '.');
      if !ok {
        break;
      }
      var v := Stoi(octet);
      ParseStep(octets, octet, Split(ip[next..], '.'));
      if v.Err? {
        return Err(v.error);
      }
      octets := octets + [v.value];
      pos := next;
    }
    assert ip[pos..] == [];
    assert octets + [] == octets;
    return Ok(octets);
  }

  /** `VectorToIpv4`: appends `to_string(i) + "."` for every element, then drops the last dot. */
  method VectorToIpv4(vec: seq<Int32>) returns (r: string)
    requires vec != []  // `pop_back` on the empty string is undefined
    ensures r == FormatDotted(vec)
  {
    var result := "";
    var k := 0;
    while k < |vec|
      invariant 0 <= k <= |vec|
      invariant k == 0 ==> result == ""
      invariant k > 0 ==> result == FormatDotted(vec[..k]) + "."
    {
      var piece := IntToString(vec[k]);
      assert vec[..k + 1] == vec[..k] + [vec[k]];
      if k > 0 {
        FormatDottedSnoc(vec[..k], vec[k]);
      } else {
        assert Decimals(vec[..1]) == [piece];
      }
      result := result + piece + ".";
      k := k + 1;
    }
    assert vec[..k] == vec;
    r := result[..|result| - 1];
  }

  lemma FormatDottedSnoc(v: seq<int>, x: int)
    requires v != []
    ensures FormatDotted(v + [x]) == FormatDotted(v) + "." + IntToString(x)
  {
    assert Decimals(v + [x]) == Decimals(v) + [IntToString(x)];
    JoinSnoc(Decimals(v), IntToString(x), '.');
  }

  lemma ParseStep(front: seq<Int32>, piece: string, rest: seq<string>)
    ensures Stoi(piece).Err? ==> Prepend(front, ParseOctets([piece] + rest)) == Err(Stoi(piece).error)
    ensures Stoi(piece).Ok? ==>
      Prepend(front, ParseOctets([piece] + rest)) == Prepend(front + [Stoi(piece).value], ParseOctets(rest))
  {
    assert ([piece] + rest)[1..] == rest;
    var r := ParseOctets(rest);
    if Stoi(piece).Ok? && r.Ok? {
      assert front + ([Stoi(piece).value] + r.value) == (front + [Stoi(piece).value]) + r.value;
    }
  }

  lemma {:induction false} ParseDecimals(v: seq<Int32>)
    ensures ParseOctets(Decimals(v)) == Ok(v)
    decreases |v|
  {
    var pieces := Decimals(v);
    if v != [] {
      StoiIntToString(v[0]);
      assert Stoi(pieces[0]) == Ok(v[0]);
      assert pieces[1..] == Decimals(v[1..]);
      ParseDecimals(v[1..]);
      assert ParseOctets(pieces) == Prepend([v[0]], ParseOctets(pieces[1..]));
      assert [v[0]] + v[1..] == v;
    } else {
      assert pieces == [];
    }
  }

  /** `IPv4ToVector(VectorToIpv4(v)) == v` for every non-empty vector of `int` values. */
  lemma ParseFormatRoundTrip(v: seq<Int32>)
    requires v != []
    ensures ParseIpv4(FormatDotted(v)) == Ok(v)
  {
    var pieces := Decimals(v);
    forall k | 0 <= k < |pieces| ensures '.' !in pieces[k] {
      assert forall j :: 0 <= j < |pieces[k]| ==> IsDigit(pieces[k][j]) || pieces[k][j] == '-';
    }
    SplitJoin(pieces, '.');
    ParseDecimals(v);
  }

  /** Four pieces joined by dots, written out. */
  lemma JoinFour(sa: string, sb: string, sc: string, sd: string)
    ensures Join([sa, sb, sc, sd], '.') == sa + "." + sb + "." + sc + "." + sd
  {
    var p := [sa, sb, sc, sd];
    assert p[1..] == [sb, sc, sd];
    assert p[1..][1..] == [sc, sd];
    assert p[1..][1..][1..] == [sd];
    assert Join([sd], '.') == sd;
    assert Join([sc, sd], '.') == sc + "." + sd;
    assert Join([sb, sc, sd], '.') == sb + "." + (sc + "." + sd);
    assert Join(p, '.') == sa + "." + (sb + "." + (sc + "." + sd));
  }

  /** `VectorToIpv4(v)` holds exactly `|v| - 1` dots, and its last character is a digit, never a dot. */
  lemma FormatDottedShape(v: seq<int>)
    requires v != []
    ensures CountOf(FormatDotted(v), '.') == |v| - 1
    ensures var s := FormatDotted(v); s != [] && IsDigit(s[|s| - 1])
  {
    var pieces := Decimals(v);
    forall k | 0 <= k < |pieces| ensures '.' !in pieces[k] {
      assert forall j :: 0 <= j < |pieces[k]| ==> IsDigit(pieces[k][j]) || pieces[k][j] == '-';
    }
    CountOfJoin(pieces, '.');
    JoinEndsWithLast(pieces, '.');
  }

  lemma {:induction false} JoinEndsWithLast(pieces: seq<string>, delim: char)
    requires pieces != [] && pieces[|pieces| - 1] != []
    ensures var s := Join(pieces, delim); s != [] && s[|s| - 1] == pieces[|pieces| - 1][|pieces[|pieces| - 1]| - 1]
    decreases |pieces|
  {
    if |pieces| > 1 {
      JoinEndsWithLast(pieces[1..], delim);
    }
  }
}
