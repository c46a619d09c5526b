/**
 * The few Python 2 string and integer operations the monitor relies on:
 * str.strip(), str.split(), a one-colon str.split(":"), int() on decimal
 * text, "%d" formatting, and integer floor division.
 */
module PyText {
  import opened Wrappers

  /** The characters Python 2's str.strip() and str.split() treat as whitespace. */
  predicate IsSpace(c: char) {
    c == ' ' || ('\t' <= c <= '\r')
  }

  /** How many whitespace characters str.lstrip() drops. */
  function LeadingSpaces(s: string): (n: nat)
    ensures n <= |s|
    ensures forall i :: 0 <= i < n ==> IsSpace(s[i])
    ensures n < |s| ==> !IsSpace(s[n])
  {
    if s == [] || !IsSpace(s[0]) then 0 else 1 + LeadingSpaces(s[1..])
  }

  /** How many whitespace characters str.rstrip() drops. */
  function TrailingSpaces(s: string): (n: nat)
    ensures n <= |s|
    ensures forall i :: |s| - n <= i < |s| ==> IsSpace(s[i])
    ensures n < |s| ==> !IsSpace(s[|s| - 1 - n])
  {
    if s == [] || !IsSpace(s[|s| - 1]) then 0 else 1 + TrailingSpaces(s[..|s| - 1])
  }

  /** str.strip(): the text between the leading and the trailing whitespace. */
  function Strip(s: string): string {
    var t := s[LeadingSpaces(s)..];
    t[..|t| - TrailingSpaces(t)]
  }

  /** Text that starts and ends with a non-whitespace character is left alone by strip(). */
  lemma StripUntrimmed(s: string)
    requires s == [] || (!IsSpace(s[0]) && !IsSpace(s[|s| - 1]))
    ensures Strip(s) == s
  {
    assert LeadingSpaces(s) == 0;
    assert s[0..] == s;
  }

  /** A token of str.split(): non-empty and free of whitespace. */
  predicate IsWord(w: string) {
    w != [] && forall i :: 0 <= i < |w| ==> !IsSpace(w[i])
  }

  /** Length of the whitespace-free prefix of s. */
  function WordLen(s: string): (n: nat)
    ensures n <= |s|
    ensures forall i :: 0 <= i < n ==> !IsSpace(s[i])
    ensures n < |s| ==> IsSpace(s[n])
  {
    if s == [] || IsSpace(s[0]) then 0 else 1 + WordLen(s[1..])
  }

  /** str.split() with no argument: the maximal runs of non-whitespace, in order. */
  function Words(s: string): (ws: seq<string>)
    ensures forall k :: 0 <= k < |ws| ==> IsWord(ws[k])
    decreases |s|
  {
    if s == [] then []
    else if IsSpace(s[0]) then Words(s[1..])
    else
      var n := WordLen(s);
      [s[..n]] + Words(s[n..])
  }

  /** Whitespace only, possibly empty: what split() skips. */
  predicate IsBlank(s: string) {
    forall i :: 0 <= i < |s| ==> IsSpace(s[i])
  }

  /** What split() treats as one separator: a non-empty run of whitespace. */
  predicate IsSeparator(s: string) {
    s != [] && IsBlank(s)
  }

  /** The tokens with seps[k] between ws[k] and ws[k + 1]. */
  function Join(ws: seq<string>, seps: seq<string>): string
    requires |ws| == |seps| + 1
    decreases |seps|
  {
    if seps == [] then ws[0] else ws[0] + seps[0] + Join(ws[1..], seps[1..])
  }

  lemma {:induction false} WordLenOfWord(w: string, rest: string)
    requires IsWord(w)
    requires rest == [] || IsSpace(rest[0])
    ensures WordLen(w + rest) == |w|
    decreases |w|
  {
    if |w| > 1 {
      WordLenOfWord(w[1..], rest);
      assert (w + rest)[1..] == w[1..] + rest;
    } else {
      assert (w + rest)[1..] == rest;
    }
  }

  /** Whitespace in front changes nothing that split() returns. */
  lemma {:induction false} WordsAfterBlank(b: string, s: string)
    requires IsBlank(b)
    ensures Words(b + s) == Words(s)
    decreases |b|
  {
    if b == [] {
      assert b + s == s;
    } else {
      assert (b + s)[1..] == b[1..] + s;
      WordsAfterBlank(b[1..], s);
    }
  }

  /** A token followed by whitespace or by nothing is split off whole. */
  lemma WordsOfWordFirst(w: string, rest: string)
    requires IsWord(w)
    requires rest == [] || IsSpace(rest[0])
    ensures Words(w + rest) == [w] + Words(rest)
  {
    WordLenOfWord(w, rest);
    var s := w + rest;
    assert s[..|w|] == w;
    assert s[|w|..] == rest;
  }

  lemma {:induction false} WordsOfJoinTrail(ws: seq<string>, seps: seq<string>, trail: string)
    requires |ws| == |seps| + 1
    requires forall k :: 0 <= k < |ws| ==> IsWord(ws[k])
    requires forall k :: 0 <= k < |seps| ==> IsSeparator(seps[k])
    requires IsBlank(trail)
    ensures Words(Join(ws, seps) + trail) == ws
    decreases |seps|
  {
    if seps == [] {
      WordsOfWordFirst(ws[0], trail);
      assert trail + [] == trail;
      WordsAfterBlank(trail, []);
    } else {
      var rest := Join(ws[1..], seps[1..]) + trail;
      assert Join(ws, seps) + trail == ws[0] + (seps[0] + rest);
      WordsOfWordFirst(ws[0], seps[0] + rest);
      WordsAfterBlank(seps[0], rest);
      WordsOfJoinTrail(ws[1..], seps[1..], trail);
      assert [ws[0]] + ws[1..] == ws;
    }
  }

  /**
   * split() gives back the tokens of any text made of them: whitespace in
   * front and behind, and a run of whitespace between neighbours.
   */
  lemma WordsOfJoin(lead: string, ws: seq<string>, seps: seq<string>, trail: string)
    requires IsBlank(lead) && IsBlank(trail)
    requires |ws| == |seps| + 1
    requires forall k :: 0 <= k < |ws| ==> IsWord(ws[k])
    requires forall k :: 0 <= k < |seps| ==> IsSeparator(seps[k])
    ensures Words(lead + Join(ws, seps) + trail) == ws
  {
    assert lead + Join(ws, seps) + trail == lead + (Join(ws, seps) + trail);
    WordsAfterBlank(lead, Join(ws, seps) + trail);
    WordsOfJoinTrail(ws, seps, trail);
  }

  /** Index of the first ':' in s, if any. */
  function ColonAt(s: string): (r: Option<nat>)
    ensures r.None? <==> ':' !in s
    ensures r.Some? ==> r.value < |s| && s[r.value] == ':' && ':' !in s[..r.value]
  {
    if s == [] then None
    else if s[0] == ':' then Some(0)
    else match ColonAt(s[1..])
      case None => None
      case Some(i) => assert s[..i + 1] == [s[0]] + s[1..][..i]; Some(i + 1)
  }

  /**
   * `a, b = s.split(":")`: succeeds exactly when s holds one colon, giving
   * the text before and after it; any other count raises ValueError.
   */
  function SplitColon(s: string): Option<(string, string)> {
    match ColonAt(s)
    case None => None
    case Some(i) => if ':' in s[i + 1..] then None else Some((s[..i], s[i + 1..]))
  }

  /** SplitColon succeeds exactly on one colon and cuts the text there. */
  lemma SplitColonCounts(s: string)
    ensures SplitColon(s).Some? <==> multiset(s)[':'] == 1
    ensures SplitColon(s).Some? ==>
      var (a, b) := SplitColon(s).value;
      s == a + ":" + b && ':' !in a && ':' !in b
  {
    if ColonAt(s).Some? {
      var i := ColonAt(s).value;
      assert s == s[..i] + [':'] + s[i + 1..];
      assert multiset(s) == multiset(s[..i]) + multiset{':'} + multiset(s[i + 1..]);
    }
  }

  /** The join that SplitColon undoes. */
  lemma SplitColonOfJoin(a: string, b: string)
    requires ':' !in a && ':' !in b
    ensures SplitColon(a + ":" + b) == Some((a, b))
  {
    var s := a + ":" + b;
    assert s[..|a|] == a && s[|a|] == ':';
    assert ColonAt(s) == Some(|a|);
    assert s[|a| + 1..] == b;
  }

  predicate IsDigit(c: char) {
    '0' <= c <= '9'
  }

  predicate IsDigits(s: string) {
    s != [] && forall i :: 0 <= i < |s| ==> IsDigit(s[i])
  }

  function DigitChar(d: nat): (c: char)
    requires d < 10
    ensures IsDigit(c)
  {
    ('0' as int + d) as char
  }

  /** The value of a run of decimal digits. */
  function DigitsValue(s: string): nat
    requires forall i :: 0 <= i < |s| ==> IsDigit(s[i])
  {
    if s == [] then 0
    else
      assert IsDigit(s[|s| - 1]);
      DigitsValue(s[..|s| - 1]) * 10 + (s[|s| - 1] as int - '0' as int)
  }

  /** The shortest decimal digits of n. */
  function Decimal(n: nat): (s: string)
    ensures IsDigits(s)
    ensures |s| > 1 ==> s[0] != '0'
  {
    if n < 10 then [DigitChar(n)]
    else Decimal(n / 10) + [DigitChar(n % 10)]
  }

  lemma {:induction false} DecimalValue(n: nat)
    ensures DigitsValue(Decimal(n)) == n
  {
    if n >= 10 {
      var s := Decimal(n);
      assert s[..|s| - 1] == Decimal(n / 10);
      DecimalValue(n / 10);
    }
  }

  /** "%d" % i */
  function FormatInt(i: int): string {
    if i < 0 then "-" + Decimal(-i) else Decimal(i)
  }

  /**
   * int(s) on a whitespace-free token of str.split(), the only text the
   * monitor converts: an optional sign and at least one decimal digit;
   * anything else raises ValueError (None here). Python 2 also accepts
   * whitespace around the text and between the sign and the digits; the
   * model strips the surrounding whitespace only, which is the same on
   * such tokens.
   */
  function ParseInt(s: string): Option<int>
  {
    var t := Strip(s);
    if t != [] && (t[0] == '-' || t[0] == '+') && IsDigits(t[1..]) then
      var v: int := DigitsValue(t[1..]);
      assert IsDigit(t[1..][0]);
      Some(if t[0] == '-' then -v else v)
    else if IsDigits(t) then
      assert IsDigit(t[0]);
      Some(DigitsValue(t))
    else None
  }

  /** int() reads back what "%d" writes. */
  lemma ParseFormatInt(i: int)
    ensures ParseInt(FormatInt(i)) == Some(i)
  {
    var s := FormatInt(i);
    var d := Decimal(if i < 0 then -i else i);
    DecimalValue(if i < 0 then -i else i);
    assert IsDigit(d[0]) && IsDigit(d[|d| - 1]);
    StripUntrimmed(s);
    if i < 0 {
      assert s[1..] == d;
    }
  }

  /** Python 2's `a / b` on ints: the quotient rounded toward minus infinity. */
  function FloorDiv(a: int, b: int): int
    requires b != 0
  {
    if b > 0 then a / b else (-a) / (-b)
  }

  /** FloorDiv rounds toward minus infinity, whatever the signs. */
  lemma FloorDivIsFloor(a: int, b: int)
    requires b != 0
    ensures var q := FloorDiv(a, b);
      (b > 0 ==> b * q <= a < b * q + b) && (b < 0 ==> b * q >= a > b * q + b)
  {
  }

  /**
   * int(a * 1.0 / b), the way "%d" renders a float quotient: the exact
   * quotient with its fraction dropped, so rounded toward zero.
   */
  function TruncDiv(a: int, b: int): (q: int)
    requires b != 0
    ensures a == 0 ==> q == 0
    ensures (a > 0 && b > 0) || (a < 0 && b < 0) ==> q >= 0
    ensures (a > 0 && b < 0) || (a < 0 && b > 0) ==> q <= 0
  {
    var (x, y) := (if a < 0 then -a else a, if b < 0 then -b else b);
    QuotientNatural(x, y);
    if (a < 0) == (b < 0) then x / y else -(x / y)
  }

  lemma QuotientNatural(x: int, y: int)
    requires x >= 0 && y > 0
    ensures x / y >= 0
  {
  }

  /** On non-negative operands the truncated quotient is the floor quotient. */
  lemma TruncDivNonNegative(a: int, b: int)
    requires a >= 0 && b > 0
    ensures TruncDiv(a, b) == FloorDiv(a, b)
    ensures b * TruncDiv(a, b) <= a < b * TruncDiv(a, b) + b
  {
  }

  function Pow10(e: nat): (p: nat)
    ensures p >= 1
  {
    if e == 0 then 1 else 10 * Pow10(e - 1)
  }
}
