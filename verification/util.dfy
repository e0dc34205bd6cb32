/** `archer/util.py`: the dotted-quad address check. */
module Util {
  import opened Wrappers
  import opened Text

  /** `[int(s) for s in parts]`: None as soon as one part is not an integer. */
  function ParseAll(parts: seq<string>): (r: Option<seq<int>>)
    ensures r.Some? <==> forall i :: 0 <= i < |parts| ==> ParseInt(parts[i]).Some?
    ensures r.Some? ==> |r.value| == |parts|
    ensures r.Some? ==> forall i :: 0 <= i < |parts| ==> r.value[i] == ParseInt(parts[i]).value
    decreases |parts|
  {
    if |parts| == 0 then Some([])
    else
      match (ParseInt(parts[0]), ParseAll(parts[1..]))
      case (Some(n), Some(ns)) => Some([n] + ns)
      case _ => None
  }

  predicate IsOctet(n: int) {
    0 <= n < 256
  }

  /** One part of an address: an integer in 0..255. */
  predicate OctetText(part: string) {
    ParseInt(part).Some? && IsOctet(ParseInt(part).value)
  }

  /** `is_ip(s)`: `s` splits on '.' into integer parts, there are exactly four of them,
      and each lies in 0..255. */
  function IsIp(s: string): (r: bool)
    ensures r <==>
              var parts := Split(s, '.');
              |parts| == 4 && forall i :: 0 <= i < 4 ==> OctetText(parts[i])
  {
    match ParseAll(Split(s, '.'))
    case None => false
    case Some(nums) => |nums| == 4 && forall i :: 0 <= i < |nums| ==> IsOctet(nums[i])
  }

  /** The canonical text of an address from its four octets. */
  function FormatIp(a: int, b: int, c: int, d: int): string {
    Join([IntToString(a), IntToString(b), IntToString(c), IntToString(d)], '.')
  }

  /** A formatted address passes the check exactly when all four numbers are octets. */
  lemma FormatIpIsIp(a: int, b: int, c: int, d: int)
    ensures IsIp(FormatIp(a, b, c, d)) <==> IsOctet(a) && IsOctet(b) && IsOctet(c) && IsOctet(d)
  {
    var nums := [a, b, c, d];
    var parts := [IntToString(a), IntToString(b), IntToString(c), IntToString(d)];
    forall k | 0 <= k < 4
      ensures '.' !in parts[k] && ParseInt(parts[k]) == Some(nums[k])
    {
      IntToStringPlain(nums[k]);
      ParseIntToString(nums[k]);
    }
    SplitJoin(parts, '.');
    IsIpOfParts(FormatIp(a, b, c, d), parts, nums);
    assert (forall k :: 0 <= k < 4 ==> IsOctet(nums[k])) <==>
           IsOctet(nums[0]) && IsOctet(nums[1]) && IsOctet(nums[2]) && IsOctet(nums[3]);
  }

  lemma IsIpOfParts(s: string, parts: seq<string>, nums: seq<int>)
    requires Split(s, '.') == parts && |parts| == 4 && |nums| == 4
    requires forall k :: 0 <= k < 4 ==> ParseInt(parts[k]) == Some(nums[k])
    ensures IsIp(s) <==> forall k :: 0 <= k < 4 ==> IsOctet(nums[k])
  {
  }

  /** A valid address holds no '/' and is not empty, so it can stand as one path
      segment. */
  lemma {:induction false} IpIsPathSegment(s: string)
    requires IsIp(s)
    ensures |s| > 0 && '/' !in s
  {
    var parts := Split(s, '.');
    JoinSplit(s, '.');
    assert s == parts[0] + ['.'] + Join(parts[1..], '.');
    forall k | 0 <= k < |parts|
      ensures '/' !in parts[k]
    {
      assert ParseInt(parts[k]).Some?;
    }
    JoinAvoids(parts, '.', '/');
  }

  /** A join of pieces free of `x` is free of `x` when the separator differs from `x`. */
  lemma {:induction false} JoinAvoids(parts: seq<string>, sep: char, x: char)
    requires |parts| >= 1 && sep != x
    requires forall k :: 0 <= k < |parts| ==> x !in parts[k]
    ensures x !in Join(parts, sep)
    decreases |parts|
  {
    if |parts| > 1 {
      JoinAvoids(parts[1..], sep, x);
    }
  }

  // ---------------------------------------------------------------------------
  // The boundary cases of the check

  /** Splitting a text assembled from separator-free pieces gives those pieces back. */
  lemma SplitOf(s: string, parts: seq<string>)
    requires |parts| >= 1 && s == Join(parts, '.')
    requires forall k :: 0 <= k < |parts| ==> '.' !in parts[k]
    ensures Split(s, '.') == parts
  {
    SplitJoin(parts, '.');
  }

  /** An address of four given parts is valid exactly when each part is an octet. */
  lemma Quad(s: string, a: string, b: string, c: string, d: string)
    requires Split(s, '.') == [a, b, c, d]
    ensures IsIp(s) <==> OctetText(a) && OctetText(b) && OctetText(c) && OctetText(d)
  {
    var parts := [a, b, c, d];
    assert parts[0] == a && parts[1] == b && parts[2] == c && parts[3] == d;
    assert (forall i :: 0 <= i < 4 ==> OctetText(parts[i])) <==>
           OctetText(parts[0]) && OctetText(parts[1]) && OctetText(parts[2]) && OctetText(parts[3]);
  }

  lemma AcceptedQuad(s: string, a: string, b: string, c: string, d: string)
    requires Split(s, '.') == [a, b, c, d]
    requires OctetText(a) && OctetText(b) && OctetText(c) && OctetText(d)
    ensures IsIp(s)
  {
    Quad(s, a, b, c, d);
  }

  lemma RejectedQuad(s: string, a: string, b: string, c: string, d: string)
    requires Split(s, '.') == [a, b, c, d]
    requires !OctetText(a)
    ensures !IsIp(s)
  {
    Quad(s, a, b, c, d);
  }

  lemma ParseZero()
    ensures ParseInt("0") == Some(0)
  {
    assert DigitsValue("0") == 0 by { assert "0"[..0] == ""; }
  }

  lemma ParseTwoFiftyFive()
    ensures ParseInt("255") == Some(255)
  {
    assert DigitsValue("2") == 2;
    assert DigitsValue("25") == 25 by { assert "25"[..1] == "2"; }
    assert DigitsValue("255") == 255 by { assert "255"[..2] == "25"; }
  }

  lemma ParseTwoFiftySix()
    ensures ParseInt("256") == Some(256)
  {
    assert DigitsValue("2") == 2;
    assert DigitsValue("25") == 25 by { assert "25"[..1] == "2"; }
    assert DigitsValue("256") == 256 by { assert "256"[..2] == "25"; }
  }

  /** The lowest address is accepted. */
  lemma LowestAddress()
    ensures IsIp("0.0.0.0")
  {
    SplitOf("0.0.0.0", ["0", "0", "0", "0"]);
    ParseZero();
    AcceptedQuad("0.0.0.0", "0", "0", "0", "0");
  }

  /** The highest address is accepted. */
  lemma HighestAddress()
    ensures IsIp("255.255.255.255")
  {
    SplitOf("255.255.255.255", ["255", "255", "255", "255"]);
    ParseTwoFiftyFive();
    AcceptedQuad("255.255.255.255", "255", "255", "255", "255");
  }

  /** One past the highest octet is rejected. */
  lemma OctetOverflow()
    ensures !IsIp("256.0.0.0")
  {
    SplitOf("256.0.0.0", ["256", "0", "0", "0"]);
    ParseTwoFiftySix();
    ParseZero();
    RejectedQuad("256.0.0.0", "256", "0", "0", "0");
  }

  /** An address whose first part is not an octet is rejected, whatever follows. */
  lemma FirstPartRejected(s: string)
    requires !OctetText(Split(s, '.')[0])
    ensures !IsIp(s)
  {
  }

  /** An address that opens with one character other than a digit or a sign and then a
      dot is rejected. */
  lemma NonNumericFirstPart(s: string)
    requires |s| >= 2 && s[1] == '.'
    requires !IsDigit(s[0]) && s[0] != '+' && s[0] != '-'
    ensures !IsIp(s)
  {
    if s[0] == '.' {
      SplitFirst(s, '.', 0);
    } else {
      assert s[..1] == [s[0]];
      SplitFirst(s, '.', 1);
      assert ParseInt([s[0]]) == None;
    }
    FirstPartRejected(s);
  }

  /** A part that is not an integer makes the address invalid. */
  lemma LettersRejected()
    ensures !IsIp("a.b.c.d")
  {
    NonNumericFirstPart("a.b.c.d");
  }

  /** The empty part between two dots is not an integer. */
  lemma EmptyPartRejected()
    ensures !IsIp("1..2.3")
  {
    SplitOf("1..2.3", ["1", "", "2", "3"]);
  }

  /** Three parts are rejected even when every part is an octet. */
  lemma TooFewParts()
    ensures !IsIp("1.2.3")
  {
    SplitOf("1.2.3", ["1", "2", "3"]);
  }

  /** Five parts are rejected even when every part is an octet. */
  lemma TooManyParts()
    ensures !IsIp("1.2.3.4.5")
  {
    SplitOf("1.2.3.4.5", ["1", "2", "3", "4", "5"]);
  }
}
