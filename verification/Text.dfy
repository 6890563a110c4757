/** The string operations the panel relies on: trim, split, indexOf and decimal numerals. */
module Text {

  /** White space and line terminators, as removed by String.prototype.trim. */
  predicate IsSpace(c: char) {
    || '\t' <= c <= '\r'
    || c == ' '
    || c == '\U{00A0}'
    || c == '\U{1680}'
    || '\U{2000}' <= c <= '\U{200A}'
    || c == '\U{2028}' || c == '\U{2029}'
    || c == '\U{202F}' || c == '\U{205F}' || c == '\U{3000}'
    || c == '\U{FEFF}'
  }

  /** By code point: the white space and line terminators of ECMAScript. */
  lemma SpaceCodes(c: char)
    ensures IsSpace(c) <==>
            var n := c as int;
            || 9 <= n <= 13 || n == 32 || n == 160 || n == 5760 || 8192 <= n <= 8202 || n == 8232 || n == 8233
            || n == 8239 || n == 8287 || n == 12288 || n == 65279
  {
  }

  predicate IsDigit(c: char) {
    '0' <= c <= '9'
  }

  predicate AllDigits(s: string) {
    forall i :: 0 <= i < |s| ==> IsDigit(s[i])
  }

  function TrimStart(s: string): (r: string) {
    if s != [] && IsSpace(s[0]) then TrimStart(s[1..]) else s
  }

  function TrimEnd(s: string): (r: string) {
    if s != [] && IsSpace(s[|s| - 1]) then TrimEnd(s[..|s| - 1]) else s
  }

  function Trim(s: string): (r: string) {
    TrimEnd(TrimStart(s))
  }

  /** The first position of c in s, or -1. */
  function IndexOf(s: string, c: char): (i: int)
    ensures -1 <= i < |s|
    ensures i >= 0 ==> s[i] == c && c !in s[..i]
    ensures i < 0 ==> c !in s
  {
    if s == [] then -1
    else if s[0] == c then 0
    else
      var i := IndexOf(s[1..], c);
      if i < 0 then -1 else (assert s[..i + 1] == [s[0]] + s[1..][..i]; i + 1)
  }

  lemma IndexSplits(s: string, c: char)
    requires c in s
    ensures var i := IndexOf(s, c);
            0 <= i < |s| && s == s[..i] + [c] + s[i + 1..] && s == s[..i] + s[i..] && s[i..][0] == c && c !in s[..i]
  {
    hide IndexOf;
  }

  /** The first position is not after any other. */
  lemma IndexLeast(s: string, c: char, k: nat)
    requires k < |s| && s[k] == c
    ensures 0 <= IndexOf(s, c) <= k
  {
    hide IndexOf;
    assert forall i :: k < i <= |s| ==> s[..i][k] == c;
  }

  /** The pieces of s between the occurrences of sep. */
  function Split(s: string, sep: char): (parts: seq<string>)
    ensures |parts| >= 1
  {
    var i := IndexOf(s, sep);
    if i < 0 then [s] else [s[..i]] + Split(s[i + 1..], sep)
  }

  lemma SplitCases(s: string, sep: char)
    ensures sep !in s ==> Split(s, sep) == [s]
    ensures sep in s ==> Split(s, sep) == [s[..IndexOf(s, sep)]] + Split(s[IndexOf(s, sep) + 1..], sep)
  {
    hide IndexOf;
  }

  /** The number a string of decimal digits denotes. */
  function DecimalValue(s: string): (n: nat)
    requires AllDigits(s)
  {
    if s == [] then 0
    else 10 * DecimalValue(s[..|s| - 1]) + (s[|s| - 1] as int - '0' as int)
  }

  /** The decimal numeral of n, without leading zeros. */
  function Decimal(n: nat): (s: string)
    ensures s != [] && AllDigits(s)
    ensures n < 10 ==> |s| == 1
    ensures n < 100 ==> |s| <= 2
    ensures n < 1000 ==> |s| <= 3
  {
    if n < 10 then [('0' as int + n) as char] else Decimal(n / 10) + [('0' as int + n % 10) as char]
  }

  lemma {:induction false} DecimalRoundTrip(n: nat)
    ensures DecimalValue(Decimal(n)) == n
  {
    if n >= 10 {
      DecimalRoundTrip(n / 10);
      var s := Decimal(n);
      assert s[..|s| - 1] == Decimal(n / 10);
    }
  }

  lemma IndexOfPrefix(s: string, c: char, rest: string)
    requires c !in s
    ensures IndexOf(s + [c] + rest, c) == |s|
  {
    var t := s + [c] + rest;
    assert t[|s|] == c;
    assert forall n :: |s| < n <= |t| ==> t[..n][|s|] == c;
    assert forall k :: 0 <= k < |s| ==> t[k] == s[k] != c;
  }

  /** The parts with the separator between neighbours. */
  function Join(parts: seq<string>, sep: char): (s: string)
    requires |parts| >= 1
  {
    if |parts| == 1 then parts[0] else parts[0] + [sep] + Join(parts[1..], sep)
  }

  /** Splitting undoes joining when no part contains the separator. */
  lemma {:induction false} SplitJoin(parts: seq<string>, sep: char)
    requires |parts| >= 1
    requires forall i :: 0 <= i < |parts| ==> sep !in parts[i]
    ensures Split(Join(parts, sep), sep) == parts
  {
    if |parts| == 1 {
      assert IndexOf(parts[0], sep) < 0;
    } else {
      SplitJoin(parts[1..], sep);
      SplitFirst(parts[0], sep, Join(parts[1..], sep));
    }
  }

  /** Trimming changes nothing between two characters that are not spaces. */
  lemma TrimNothing(s: string)
    requires s != [] && !IsSpace(s[0]) && !IsSpace(s[|s| - 1])
    ensures Trim(s) == s
  {
  }

  predicate AllSpaces(s: string) {
    forall i :: 0 <= i < |s| ==> IsSpace(s[i])
  }

  /** Trimming removes white space at the two ends. */
  lemma {:induction false} TrimStartEnds(s: string) returns (lead: string)
    ensures AllSpaces(lead) && s == lead + TrimStart(s)
  {
    if s != [] && IsSpace(s[0]) {
      lead := TrimStartEnds(s[1..]);
      lead := [s[0]] + lead;
    } else {
      lead := [];
    }
  }

  lemma {:induction false} TrimEndEnds(s: string) returns (trail: string)
    ensures AllSpaces(trail) && s == TrimEnd(s) + trail
  {
    if s != [] && IsSpace(s[|s| - 1]) {
      trail := TrimEndEnds(s[..|s| - 1]);
      trail := trail + [s[|s| - 1]];
    } else {
      trail := [];
    }
  }

  lemma {:induction false} TrimLead(lead: string, s: string)
    requires AllSpaces(lead) && s != [] && !IsSpace(s[0])
    ensures TrimStart(lead + s) == s
  {
    if lead == [] {
      assert lead + s == s;
    } else {
      assert (lead + s)[1..] == lead[1..] + s;
      TrimLead(lead[1..], s);
    }
  }

  lemma {:induction false} TrimTrail(s: string, trail: string)
    requires AllSpaces(trail) && s != [] && !IsSpace(s[|s| - 1])
    ensures TrimEnd(s + trail) == s
  {
    if trail == [] {
      assert s + trail == s;
    } else {
      var n := |trail| - 1;
      assert (s + trail)[..|s| + n] == s + trail[..n];
      TrimTrail(s, trail[..n]);
    }
  }

  /** White space before the first piece stays with the first piece. */
  lemma SplitPrefixed(lead: string, s: string, sep: char)
    requires sep !in lead
    ensures Split(lead + s, sep) == [lead + Split(s, sep)[0]] + Split(s, sep)[1..]
  {
    var i := IndexOf(s, sep);
    if i < 0 {
      assert IndexOf(lead + s, sep) < 0;
    } else {
      var front, rest := s[..i], s[i + 1..];
      assert s == front + [sep] + rest;
      assert lead + s == (lead + front) + [sep] + rest;
      hide Split, IndexOf;
      SplitFirst(front, sep, rest);
      SplitFirst(lead + front, sep, rest);
    }
  }

  /** Splitting peels off a first piece that does not contain the separator. */
  lemma SplitFirst(s: string, sep: char, rest: string)
    requires sep !in s
    ensures Split(s + [sep] + rest, sep) == [s] + Split(rest, sep)
  {
    IndexOfPrefix(s, sep, rest);
    var t := s + [sep] + rest;
    assert t[..|s|] == s;
    assert t[|s| + 1..] == rest;
  }
}
