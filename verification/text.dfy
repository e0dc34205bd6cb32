/** The Python string and integer built-ins the core relies on: `str.strip(c)`,
    `str.split(c)`, `str.lower()`, `int(s)` and `str(n)`, each for the inputs the
    core gives them (a single separator character, ASCII text). */
module Text {
  import opened Wrappers

  // ---------------------------------------------------------------------------
  // str.strip(c)

  /** Drops every leading `c`. */
  function StripLeft(s: string, c: char): (r: string)
    ensures |r| <= |s| && r == s[|s| - |r|..]
    ensures |r| > 0 ==> r[0] != c
    ensures forall i :: 0 <= i < |s| - |r| ==> s[i] == c
    decreases |s|
  {
    if |s| > 0 && s[0] == c then StripLeft(s[1..], c) else s
  }

  /** Drops every trailing `c`. */
  function StripRight(s: string, c: char): (r: string)
    ensures |r| <= |s| && r == s[..|r|]
    ensures |r| > 0 ==> r[|r| - 1] != c
    ensures forall i :: |r| <= i < |s| ==> s[i] == c
    decreases |s|
  {
    if |s| > 0 && s[|s| - 1] == c then StripRight(s[..|s| - 1], c) else s
  }

  /** `s.strip(c)`: the longest infix of `s` that neither starts nor ends with `c`. */
  function Strip(s: string, c: char): (r: string)
    ensures |r| > 0 ==> r[0] != c && r[|r| - 1] != c
    ensures (forall i :: 0 <= i < |s| ==> s[i] == c) <==> r == ""
    ensures exists k :: StrippedAt(s, c, k, r)
  {
    var l := StripLeft(s, c);
    var r := StripRight(l, c);
    var k := |s| - |l|;
    assert r == l[..|r|] && r == s[k..k + |r|];
    assert StrippedAt(s, c, k, r);
    r
  }

  /** `r` is `s` with `k` leading and some trailing `c` removed, and nothing else. */
  predicate StrippedAt(s: string, c: char, k: int, r: string) {
    && 0 <= k <= |s| - |r|
    && r == s[k..k + |r|]
    && (forall i :: 0 <= i < k ==> s[i] == c)
    && (forall i :: k + |r| <= i < |s| ==> s[i] == c)
  }

  /** Stripping only removes the framing: a text that neither starts nor ends with `c`
      comes back unchanged from behind any number of leading `c`. */
  lemma StripFramed(t: string, k: nat, c: char)
    requires |t| > 0 && t[0] != c && t[|t| - 1] != c
    ensures Strip(seq(k, _ => c) + t, c) == t
  {
    var s := seq(k, _ => c) + t;
    var l := StripLeft(s, c);
    assert s[k] == t[0] != c;
    assert |l| == |t|;
    assert l == t;
  }

  // ---------------------------------------------------------------------------
  // str.split(c) and its inverse, c.join(parts)

  /** Index of the first occurrence of `c` in `s`. */
  function IndexOf(s: string, c: char): (i: nat)
    requires c in s
    ensures i < |s| && s[i] == c && c !in s[..i]
    decreases |s|
  {
    if s[0] == c then 0
    else
      assert c in s[1..] by {
        var j :| 0 <= j < |s| && s[j] == c;
        assert s[1..][j - 1] == c;
      }
      var i := 1 + IndexOf(s[1..], c);
      assert s[..i] == [s[0]] + s[1..][..i - 1];
      i
  }

  /** `s.split(sep)`: the maximal `sep`-free pieces between separators, empty ones
      included, so the result is never empty. */
  function Split(s: string, sep: char): (parts: seq<string>)
    ensures |parts| >= 1
    ensures forall i :: 0 <= i < |parts| ==> sep !in parts[i]
    decreases |s|
  {
    if sep in s then
      var i := IndexOf(s, sep);
      [s[..i]] + Split(s[i + 1..], sep)
    else
      [s]
  }

  /** `sep.join(parts)`. */
  function Join(parts: seq<string>, sep: char): string
    requires |parts| >= 1
    decreases |parts|
  {
    if |parts| == 1 then parts[0] else parts[0] + [sep] + Join(parts[1..], sep)
  }

  /** The first separator is the one with none before it. */
  lemma IndexOfAt(s: string, sep: char, k: nat)
    requires k < |s| && s[k] == sep && sep !in s[..k]
    ensures IndexOf(s, sep) == k
  {
  }

  /** The first piece of a split ends at the first separator. */
  lemma SplitFirst(s: string, sep: char, i: nat)
    requires i < |s| && s[i] == sep && sep !in s[..i]
    ensures Split(s, sep)[0] == s[..i]
  {
  }

  /** Stripping one leading separator from a text that is not framed by it. */
  lemma StripOne(t: string, c: char)
    requires |t| > 0 && t[0] != c && t[|t| - 1] != c
    ensures Strip([c] + t, c) == t
  {
    StripFramed(t, 1, c);
    assert seq(1, _ => c) == [c];
  }

  /** Splitting undoes joining when no piece contains the separator. */
  lemma {:induction false} SplitJoin(parts: seq<string>, sep: char)
    requires |parts| >= 1
    requires forall i :: 0 <= i < |parts| ==> sep !in parts[i]
    ensures Split(Join(parts, sep), sep) == parts
    decreases |parts|
  {
    if |parts| > 1 {
      var s := Join(parts, sep);
      var p := parts[0];
      var rest := Join(parts[1..], sep);
      assert s == p + [sep] + rest;
      assert s[..|p|] == p && s[|p|] == sep && s[|p| + 1..] == rest;
      IndexOfAt(s, sep, |p|);
      assert Split(s, sep) == [p] + Split(rest, sep);
      SplitJoin(parts[1..], sep);
    }
  }

  /** Joining undoes splitting. */
  lemma {:induction false} JoinSplit(s: string, sep: char)
    ensures Join(Split(s, sep), sep) == s
    decreases |s|
  {
    if sep in s {
      var i := IndexOf(s, sep);
      var rest := Split(s[i + 1..], sep);
      var parts := Split(s, sep);
      assert parts == [s[..i]] + rest;
      assert |parts| > 1 && parts[0] == s[..i] && parts[1..] == rest;
      assert Join(parts, sep) == s[..i] + [sep] + Join(rest, sep);
      JoinSplit(s[i + 1..], sep);
      assert s == s[..i] + [sep] + s[i + 1..];
    }
  }

  // ---------------------------------------------------------------------------
  // str.lower()

  function LowerChar(ch: char): char {
    if 'A' <= ch <= 'Z' then (ch as int - 'A' as int + 'a' as int) as char else ch
  }

  /** `s.lower()` on ASCII letters; every other character is kept. */
  function Lower(s: string): (r: string)
    ensures |r| == |s|
    ensures forall i :: 0 <= i < |s| && 'A' <= s[i] <= 'Z' ==> r[i] as int == s[i] as int + 32
    ensures forall i :: 0 <= i < |s| && !('A' <= s[i] <= 'Z') ==> r[i] == s[i]
    decreases |s|
  {
    if |s| == 0 then "" else [LowerChar(s[0])] + Lower(s[1..])
  }

  /** The protocol names are already lower-case. */
  lemma LowerProtos()
    ensures Lower("tcp") == "tcp" && Lower("udp") == "udp"
  {
  }

  /** Lower-casing twice is lower-casing once. */
  lemma LowerIdempotent(s: string)
    ensures Lower(Lower(s)) == Lower(s)
  {
  }

  // ---------------------------------------------------------------------------
  // int(s) and str(n)

  predicate IsDigit(ch: char) {
    '0' <= ch <= '9'
  }

  predicate AllDigits(s: string) {
    forall i :: 0 <= i < |s| ==> IsDigit(s[i])
  }

  function DigitValue(ch: char): nat
    requires IsDigit(ch)
  {
    ch as int - '0' as int
  }

  function DigitChar(d: nat): (ch: char)
    requires d < 10
    ensures IsDigit(ch) && DigitValue(ch) == d
  {
    ('0' as int + d) as char
  }

  /** The decimal value of a run of digits, most significant first. */
  function DigitsValue(s: string): nat
    requires AllDigits(s)
    decreases |s|
  {
    if |s| == 0 then 0 else DigitsValue(s[..|s| - 1]) * 10 + DigitValue(s[|s| - 1])
  }

  /** `int(s)`: an optional `+` or `-` followed by at least one ASCII digit;
      None where Python raises ValueError. */
  function ParseInt(s: string): (r: Option<int>)
    ensures r.Some? <==>
              (|s| > 0 && AllDigits(s)) ||
              (|s| > 1 && (s[0] == '+' || s[0] == '-') && AllDigits(s[1..]))
    ensures r.Some? ==> forall i :: 0 <= i < |s| ==> s[i] != '/' && s[i] != '.'
  {
    if |s| > 0 && (s[0] == '+' || s[0] == '-') then
      var digits := s[1..];
      if |digits| > 0 && AllDigits(digits) then
        assert forall i :: 1 <= i < |s| ==> s[i] == digits[i - 1];
        var v: int := DigitsValue(digits);
        Some(if s[0] == '-' then -v else v)
      else
        None
    else if |s| > 0 && AllDigits(s) then
      Some(DigitsValue(s))
    else
      None
  }

  /** A leading zero does not change the value of a run of digits. */
  lemma {:induction false} LeadingZero(d: string)
    requires AllDigits(d)
    ensures AllDigits("0" + d) && DigitsValue("0" + d) == DigitsValue(d)
    decreases |d|
  {
    var z := "0" + d;
    assert AllDigits(z) by { assert forall i :: 1 <= i < |z| ==> z[i] == d[i - 1]; }
    if |d| > 0 {
      assert z[..|z| - 1] == "0" + d[..|d| - 1];
      assert z[|z| - 1] == d[|d| - 1];
      LeadingZero(d[..|d| - 1]);
    }
  }

  /** The value `int()` gives a run of digits with a sign or leading zeros in front: a
      `+` and leading zeros change nothing, a `-` negates. */
  lemma ParseIntValue(d: string)
    requires |d| > 0 && AllDigits(d)
    ensures ParseInt(d) == Some(DigitsValue(d))
    ensures ParseInt("0" + d) == ParseInt(d)
    ensures ParseInt("+" + d) == ParseInt(d)
    ensures ParseInt("-" + d) == Some(-(DigitsValue(d) as int))
  {
    ParseDigits(d);
    LeadingZero(d);
    ParseDigits("0" + d);
    ParseSigned(d, '+');
    ParseSigned(d, '-');
  }

  lemma ParseDigits(d: string)
    requires |d| > 0 && AllDigits(d)
    ensures ParseInt(d) == Some(DigitsValue(d))
  {
    assert IsDigit(d[0]);
  }

  lemma ParseSigned(d: string, sign: char)
    requires |d| > 0 && AllDigits(d) && (sign == '+' || sign == '-')
    ensures ParseInt([sign] + d) == Some(if sign == '-' then -(DigitsValue(d) as int) else DigitsValue(d))
  {
    assert ([sign] + d)[1..] == d;
  }

  /** `str(n)` for a natural number: decimal digits without leading zeros. */
  function NatToString(n: nat): (r: string)
    ensures |r| > 0 && AllDigits(r)
    ensures r[0] != '0' || n == 0
    decreases n
  {
    if n < 10 then [DigitChar(n)] else NatToString(n / 10) + [DigitChar(n % 10)]
  }

  /** `str(n)` for any integer. */
  function IntToString(n: int): string {
    if n < 0 then "-" + NatToString(-n) else NatToString(n)
  }

  lemma {:induction false} DigitsOfNatToString(n: nat)
    ensures DigitsValue(NatToString(n)) == n
    decreases n
  {
    var s := NatToString(n);
    if n >= 10 {
      DigitsOfNatToString(n / 10);
      assert s[..|s| - 1] == NatToString(n / 10);
    }
  }

  /** `int(str(n)) == n`. */
  lemma ParseIntToString(n: int)
    ensures ParseInt(IntToString(n)) == Some(n)
  {
    if n < 0 {
      var s := IntToString(n);
      var digits := NatToString(-n);
      assert s == "-" + digits && s[1..] == digits;
      DigitsOfNatToString(-n);
      var v: int := DigitsValue(digits);
      assert ParseInt(s) == Some(-v);
    } else {
      DigitsOfNatToString(n);
    }
  }

  /** The text of an integer never holds a separator. */
  lemma IntToStringPlain(n: int)
    ensures |IntToString(n)| > 0
    ensures forall i :: 0 <= i < |IntToString(n)| ==> IntToString(n)[i] != '/' && IntToString(n)[i] != '.'
  {
    ParseIntToString(n);
  }
}
