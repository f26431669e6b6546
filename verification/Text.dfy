/** Character-level helpers shared by the HTTP models: searching, trimming, splitting. A byte is a
    `char`; lower-casing and digit tests act on ASCII only, as in the "C" locale. */
module Text {
  import opened Prelude

  /** `pat` occurs in `s` at position `i`. */
  predicate OccursAt(s: string, pat: string, i: nat) {
    i + |pat| <= |s| && s[i..i + |pat|] == pat
  }

  /** The first position of a non-empty `pat` in `s`, or `|s|` when there is none. */
  function Find(s: string, pat: string): (r: nat)
    requires pat != ""
    ensures r <= |s| && (r < |s| ==> r + |pat| <= |s|)
  {
    FindFrom(s, pat, 0)
  }

  function FindFrom(s: string, pat: string, from: nat): (r: nat)
    requires pat != "" && from <= |s|
    ensures from <= r <= |s| && (r < |s| ==> r + |pat| <= |s|)
    decreases |s| - from
  {
    if from == |s| || OccursAt(s, pat, from) then from else FindFrom(s, pat, from + 1)
  }

  lemma {:induction false} FindFromIsFirst(s: string, pat: string, from: nat)
    requires pat != "" && from <= |s|
    ensures var r := FindFrom(s, pat, from);
            (r < |s| ==> OccursAt(s, pat, r)) && forall i :: from <= i < r ==> !OccursAt(s, pat, i)
    decreases |s| - from
  {
    if from < |s| && !OccursAt(s, pat, from) {
      FindFromIsFirst(s, pat, from + 1);
    }
  }

  /** `Find` yields an occurrence with no occurrence before it, or there is no occurrence at all. */
  lemma FindIsFirst(s: string, pat: string)
    requires pat != ""
    ensures var r := Find(s, pat);
            (r < |s| ==> OccursAt(s, pat, r)) && forall i :: 0 <= i < r ==> !OccursAt(s, pat, i)
  {
    FindFromIsFirst(s, pat, 0);
  }

  /** A position with an occurrence and none before it is the one found. */
  lemma FindIs(s: string, pat: string, r: nat)
    requires pat != "" && (OccursAt(s, pat, r) || r == |s|)
    requires forall i :: 0 <= i < r ==> !OccursAt(s, pat, i)
    ensures Find(s, pat) == r
  {
    FindIsFirst(s, pat);
  }

  lemma NoOccurrenceHere(s: string, pat: string, i: nat)
    requires pat != "" && i < |s| && s[i] != pat[0]
    ensures !OccursAt(s, pat, i)
  {
    assert i + |pat| <= |s| ==> s[i..i + |pat|][0] == s[i];
  }

  lemma OccursInPrefix(s: string, pat: string, t: string, i: nat)
    requires i + |pat| <= |s|
    ensures OccursAt(s + t, pat, i) <==> OccursAt(s, pat, i)
  {
    assert (s + t)[i..i + |pat|] == s[i..i + |pat|];
  }

  /** Bytes that arrive later never move an occurrence that was already found. */
  lemma FindExtends(s: string, pat: string, t: string)
    requires pat != "" && Find(s, pat) < |s|
    ensures Find(s + t, pat) == Find(s, pat)
  {
    var r := Find(s, pat);
    FindIsFirst(s, pat);
    forall i | 0 <= i <= r
      ensures OccursAt(s + t, pat, i) <==> OccursAt(s, pat, i)
    {
      OccursInPrefix(s, pat, t, i);
    }
    FindIs(s + t, pat, r);
  }

  /** Position of the first `c` in `s`, or `|s|`. */
  function IndexOf(s: string, c: char): (r: nat)
    ensures r <= |s|
    ensures r < |s| ==> s[r] == c
    ensures forall i :: 0 <= i < r ==> s[i] != c
  {
    if s == "" || s[0] == c then 0 else 1 + IndexOf(s[1..], c)
  }

  lemma IndexOfIs(a: string, c: char, b: string)
    requires c !in a
    ensures IndexOf(a + [c] + b, c) == |a|
    ensures IndexOf(a, c) == |a|
  {
    var s := a + [c] + b;
    assert s[|a|] == c;
    assert forall i :: 0 <= i < |a| ==> s[i] == a[i];
  }

  /** The longest header line that is accepted. */
  const HEADER_MAX := 8192

  /** White space as `isspace` and the `\s` of regular expressions have it. */
  predicate IsSpace(c: char) {
    c == ' ' || 9 <= (c as int) <= 13
  }

  lemma SpacesAre(c: char)
    ensures IsSpace(c) <==> c == ' ' || c == '\t' || c == '\n' || c == '\U{0B}' || c == '\U{0C}' || c == '\r'
  {
  }

  predicate IsBlank(c: char) {
    c == ' ' || c == '\t'
  }

  function TrimLeft(s: string): string {
    if s != "" && IsBlank(s[0]) then TrimLeft(s[1..]) else s
  }

  function TrimRight(s: string): string {
    if s != "" && IsBlank(s[|s| - 1]) then TrimRight(s[..|s| - 1]) else s
  }

  /** `s` without leading and trailing blanks. */
  function Trim(s: string): string {
    TrimRight(TrimLeft(s))
  }

  predicate OnlyBlanks(s: string) {
    forall i :: 0 <= i < |s| ==> s[i] in " \t"
  }

  /** Trimming takes off all spaces and tabs at both ends, and nothing else. */
  lemma TrimIs(a: string, t: string, b: string)
    requires OnlyBlanks(a) && OnlyBlanks(b)
    requires t == "" || (t[0] !in " \t" && t[|t| - 1] !in " \t")
    ensures Trim(a + t + b) == t
  {
    if t == "" {
      assert a + t + b == (a + b) + "";
      TrimLeftIs(a + b, "");
    } else {
      assert a + t + b == a + (t + b);
      TrimLeftIs(a, t + b);
      TrimRightIs(t, b);
    }
  }

  lemma {:induction false} TrimLeftIs(a: string, t: string)
    requires OnlyBlanks(a) && (t == "" || t[0] !in " \t")
    ensures TrimLeft(a + t) == t
  {
    if a == "" {
      assert a + t == t;
    } else {
      assert (a + t)[1..] == a[1..] + t;
      TrimLeftIs(a[1..], t);
    }
  }

  lemma {:induction false} TrimRightIs(t: string, b: string)
    requires OnlyBlanks(b) && (t == "" || t[|t| - 1] !in " \t")
    ensures TrimRight(t + b) == t
  {
    if b == "" {
      assert t + b == t;
    } else {
      assert (t + b)[..|t + b| - 1] == t + b[..|b| - 1];
      TrimRightIs(t, b[..|b| - 1]);
    }
  }

  predicate Trimmed(s: string) {
    s != "" ==> !IsBlank(s[0]) && !IsBlank(s[|s| - 1])
  }

  /** The trimmed, non-empty pieces of `s` between occurrences of `d`. */
  function Split(s: string, d: char): seq<string>
    decreases |s|
  {
    var i := IndexOf(s, d);
    if i == |s| then Piece(s) else Piece(s[..i]) + Split(s[i + 1..], d)
  }

  function Piece(s: string): seq<string> {
    if Trim(s) == "" then [] else [Trim(s)]
  }

  lemma SplitCons(a: string, d: char, b: string)
    requires d !in a
    ensures Split(a + [d] + b, d) == Piece(a) + Split(b, d)
  {
    IndexOfIs(a, d, b);
    var s := a + [d] + b;
    assert s[..|a|] == a && s[|a| + 1..] == b;
  }

  lemma SplitOne(a: string, d: char)
    requires d !in a
    ensures Split(a, d) == Piece(a)
  {
    IndexOfIs(a, d, "");
  }

  function ToLower(c: char): char {
    if 'A' <= c <= 'Z' then ((c as int) + 32) as char else c
  }

  predicate HasPrefixIgnoreCase(s: string, p: string) {
    |p| <= |s| && forall i :: 0 <= i < |p| ==> ToLower(s[i]) == ToLower(p[i])
  }

  predicate IsDigit(c: char) {
    '0' <= c <= '9'
  }

  function DigitValue(c: char): (v: nat)
    requires IsDigit(c)
    ensures v < 10
  {
    (c as int) - ('0' as int)
  }

  function DigitChar(v: nat): (c: char)
    requires v < 10
    ensures IsDigit(c) && DigitValue(c) == v
  {
    (('0' as int) + v) as char
  }

  /** Decimal text of `n`, as `std::to_string` prints it. */
  function ToDecimal(n: nat): (s: string)
    ensures s != "" && forall i :: 0 <= i < |s| ==> IsDigit(s[i])
  {
    if n < 10 then [DigitChar(n)] else ToDecimal(n / 10) + [DigitChar(n % 10)]
  }

  /** Value of a string of digits. */
  function FromDecimal(s: string): nat
    requires forall i :: 0 <= i < |s| ==> IsDigit(s[i])
  {
    if s == "" then 0 else FromDecimal(s[..|s| - 1]) * 10 + DigitValue(s[|s| - 1])
  }

  lemma {:induction false} DecimalRoundTrip(n: nat)
    ensures FromDecimal(ToDecimal(n)) == n
  {
    var s := ToDecimal(n);
    if n < 10 {
      assert s[..|s| - 1] == "";
    } else {
      assert s[..|s| - 1] == ToDecimal(n / 10);
      DecimalRoundTrip(n / 10);
    }
  }
}
