/** The text of a Range header: `make_range_header` and `parse_range_header`. */
module RangeHeader {
  import opened Prelude
  import opened Text
  import opened ByteRanges

  const UNIT := "bytes="

  /** A range that a header can express: suffix, open-ended, or both positions in order. */
  predicate Valid(r: Range) {
    (r.first == -1 && r.last >= 0) || (r.first >= 0 && (r.last == -1 || r.first <= r.last))
  }

  /** The positions fit the signed size type. */
  predicate Fits(r: Range) {
    -SSIZE_MAX - 1 <= r.first <= SSIZE_MAX && -SSIZE_MAX - 1 <= r.last <= SSIZE_MAX
  }

  function SignedText(v: int): string {
    if v < 0 then "-" + ToDecimal(-v) else ToDecimal(v)
  }

  function PositionText(v: int): string {
    if v == -1 then "" else SignedText(v)
  }

  function RangeText(r: Range): string {
    PositionText(r.first) + "-" + PositionText(r.last)
  }

  function RangeTexts(rs: seq<Range>): string {
    if rs == [] then ""
    else if |rs| == 1 then RangeText(rs[0])
    else RangeText(rs[0]) + ", " + RangeTexts(rs[1..])
  }

  lemma {:induction false} TextsAppend(rs: seq<Range>, r: Range)
    ensures RangeTexts(rs + [r]) == RangeTexts(rs) + (if rs == [] then "" else ", ") + RangeText(r)
  {
    if |rs| >= 1 {
      assert (rs + [r])[1..] == rs[1..] + [r];
      TextsAppend(rs[1..], r);
      Reassociate(RangeText(rs[0]) + ", ", RangeTexts(rs[1..]), ", ", RangeText(r));
    } else {
      assert rs + [r] == [r];
    }
  }

  lemma Reassociate(a: string, b: string, c: string, d: string)
    ensures a + (b + c + d) == (a + b) + c + d
  {
  }

  /** The text of one range, position by position. */
  method AppendRange(r: Range) returns (text: string)
    ensures text == RangeText(r)
  {
    text := "";
    if r.first != -1 {
      text := text + SignedText(r.first);
    }
    text := text + "-";
    if r.last != -1 {
      text := text + SignedText(r.last);
    }
  }

  method MakeRangeHeader(ranges: seq<Range>) returns (field: string)
    ensures field == UNIT + RangeTexts(ranges)
  {
    field := UNIT;
    var list := "";
    for i := 0 to |ranges|
      invariant list == RangeTexts(ranges[..i])
    {
      hide RangeText, RangeTexts;
      ghost var before := ranges[..i];
      assert ranges[..i + 1] == before + [ranges[i]];
      TextsAppend(before, ranges[i]);
      list := list + if i != 0 then ", " else "";
      var text := AppendRange(ranges[i]);
      list := list + text;
    }
    assert ranges[..|ranges|] == ranges;
    field := field + list;
  }

  predicate AllDigits(s: string) {
    forall i :: 0 <= i < |s| ==> IsDigit(s[i])
  }

  /** One element of the list; `None` makes the parser fail. */
  function ParseRange(piece: string): Option<Range> {
    var i := IndexOf(piece, '-');
    if i == |piece| then None
    else
      var lhs, rhs := piece[..i], piece[i + 1..];
      if !AllDigits(lhs) || !AllDigits(rhs) then None
      else
        var first := if lhs == "" then -1 else FromDecimal(lhs);
        var last := if rhs == "" then -1 else FromDecimal(rhs);
        // a number that does not fit makes the conversion throw
        if first > SSIZE_MAX || last > SSIZE_MAX then None
        else if (first == -1 && last == -1) || (first != -1 && last != -1 && first > last) then None
        else Some(Range(first, last))
  }

  /** `t` is how a position can be written: nothing for an absent one, or its digits. */
  predicate Writes(t: string, v: int) {
    AllDigits(t) && if v == -1 then t == "" else t != "" && FromDecimal(t) == v
  }

  /** The elements that are read as `r`: two positions that fit and make a valid range, around a dash. */
  lemma RangeIsReadIff(piece: string, r: Range)
    ensures ParseRange(piece) == Some(r)
       <==> Valid(r) && Fits(r) && exists a, b :: piece == a + "-" + b && Writes(a, r.first) && Writes(b, r.last)
  {
    if ParseRange(piece) == Some(r) {
      var i := IndexOf(piece, '-');
      assert piece == piece[..i] + "-" + piece[i + 1..] && Writes(piece[..i], r.first)
          && Writes(piece[i + 1..], r.last);
    }
    if a, b :| Valid(r) && Fits(r) && piece == a + "-" + b && Writes(a, r.first) && Writes(b, r.last) {
      assert '-' !in a;
      DigitsDivide(a, b);
    }
  }

  function ParsePieces(pieces: seq<string>): Option<seq<Range>> {
    if pieces == [] then Some([])
    else
      match ParseRange(pieces[0])
      case None => None
      case Some(r) =>
        match ParsePieces(pieces[1..])
        case None => None
        case Some(rest) => Some([r] + rest)
  }

  function Parse(s: string): Option<seq<Range>> {
    if |s| <= 7 || s[..6] != UNIT then None
    else
      match ParsePieces(Split(s[6..], ','))
      case None => None
      case Some(rs) => if rs == [] then None else Some(rs)
  }

  method ParseRangeHeader(s: string) returns (ok: bool, ranges: seq<Range>)
    ensures ok <==> Parse(s).Some?
    ensures ok ==> ranges == Parse(s).value
  {
    ranges := [];
    if |s| <= 7 || s[..6] != UNIT {
      return false, [];
    }
    var pieces := Split(s[6..], ',');
    JoinedOne([], Range(0, 0), ParsePieces(pieces));
    assert pieces[0..] == pieces;
    for i := 0 to |pieces|
      invariant ParsePieces(pieces) == Joined(ranges, ParsePieces(pieces[i..]))
    {
      assert pieces[i..][1..] == pieces[i + 1..];
      var r := ParseRange(pieces[i]);
      if r == None {
        return false, ranges;
      }
      JoinedOne(ranges, r.value, ParsePieces(pieces[i + 1..]));
      ranges := ranges + [r.value];
    }
    assert ranges + [] == ranges;
    ok := ranges != [];
  }

  function Joined(a: seq<Range>, b: Option<seq<Range>>): Option<seq<Range>> {
    match b
    case None => None
    case Some(rs) => Some(a + rs)
  }

  lemma JoinedOne(a: seq<Range>, r: Range, b: Option<seq<Range>>)
    ensures Joined(a, Joined([r], b)) == Joined(a + [r], b) && Joined([], b) == b
  {
    if b.Some? {
      assert a + ([r] + b.value) == a + [r] + b.value && [] + b.value == b.value;
    }
  }

  // ----- Parsing undoes making -----

  lemma TextCharacters(r: Range)
    ensures var t := RangeText(r);
            t != "" && forall i :: 0 <= i < |t| ==> IsDigit(t[i]) || t[i] == '-'
  {
  }

  lemma TextIsPiece(r: Range)
    ensures ',' !in RangeText(r) && Piece(RangeText(r)) == [RangeText(r)]
    ensures Piece(" " + RangeText(r)) == [RangeText(r)]
  {
    var t := RangeText(r);
    TextCharacters(r);
    assert TrimLeft(t) == t && TrimRight(t) == t;
    assert (" " + t)[1..] == t;
    assert TrimLeft(" " + t) == t;
  }

  lemma PositionParses(v: int)
    ensures v >= 0 ==>
              && AllDigits(PositionText(v)) && PositionText(v) != "" && FromDecimal(PositionText(v)) == v
              && '-' !in PositionText(v)
    ensures v < -1 ==> PositionText(v) != "" && PositionText(v)[0] == '-' && PositionText(v)[1..] == ToDecimal(-v)
    ensures v == -1 ==> PositionText(v) == ""
  {
    if v >= 0 {
      DecimalRoundTrip(v);
    }
  }

  lemma NegativeFirstIsRefused(digits: string, b: string)
    ensures ParseRange(("-" + digits) + "-" + b) == None
  {
    // the sign is taken for the separator, and the rest is not a number
    var rest := digits + ("-" + b);
    var t := ("-" + digits) + "-" + b;
    assert t == "" + ['-'] + rest;
    IndexOfIs("", '-', rest);
    assert t[1..] == rest && rest[|digits|] == '-';
    assert !AllDigits(rest);
  }

  lemma DigitsDivide(a: string, b: string)
    requires '-' !in a
    ensures var t := a + "-" + b; IndexOf(t, '-') == |a| < |t| && t[..|a|] == a && t[|a| + 1..] == b
  {
    assert a + "-" + b == a + ['-'] + b;
    IndexOfIs(a, '-', b);
  }

  /** One range is read back if it is valid, and refused if not. */
  lemma RangeParses(r: Range)
    requires Fits(r)
    ensures ParseRange(RangeText(r)) == if Valid(r) then Some(r) else None
  {
    var a, b := PositionText(r.first), PositionText(r.last);
    PositionParses(r.first);
    PositionParses(r.last);
    if r.first < -1 {
      assert a == "-" + a[1..];
      NegativeFirstIsRefused(a[1..], b);
    } else {
      DigitsDivide(a, b);
      assert r.last < -1 ==> !AllDigits(b);
    }
  }

  function Texts(rs: seq<Range>): seq<string> {
    if rs == [] then [] else [RangeText(rs[0])] + Texts(rs[1..])
  }

  lemma CommaCons(lead: string, t: string, rest: string)
    ensures lead + (t + ", " + rest) == (lead + t) + [','] + (" " + rest)
  {
  }

  lemma {:induction false} TextsSplit(rs: seq<Range>, lead: string)
    requires rs != [] && (lead == "" || lead == " ")
    ensures Split(lead + RangeTexts(rs), ',') == Texts(rs)
  {
    var t := RangeText(rs[0]);
    TextIsPiece(rs[0]);
    assert "" + t == t;
    assert ',' !in lead + t;
    hide Split, Piece, RangeText;
    if |rs| == 1 {
      SplitOne(lead + t, ',');
      assert Texts(rs) == [t] + [];
    } else {
      CommaCons(lead, t, RangeTexts(rs[1..]));
      SplitCons(lead + t, ',', " " + RangeTexts(rs[1..]));
      TextsSplit(rs[1..], " ");
    }
  }

  lemma {:induction false} TextsParse(rs: seq<Range>)
    requires forall i :: 0 <= i < |rs| ==> Fits(rs[i])
    ensures ParsePieces(Texts(rs)) == if forall i :: 0 <= i < |rs| ==> Valid(rs[i]) then Some(rs) else None
  {
    if rs != [] {
      RangeParses(rs[0]);
      TextsParse(rs[1..]);
      assert Texts(rs)[1..] == Texts(rs[1..]);
      assert [rs[0]] + rs[1..] == rs;
      assert (forall i :: 0 <= i < |rs| ==> Valid(rs[i]))
        <==> Valid(rs[0]) && forall i :: 0 <= i < |rs[1..]| ==> Valid(rs[1..][i]);
    }
  }

  lemma TextLength(rs: seq<Range>)
    requires rs != []
    ensures |RangeTexts(rs)| >= 1 && (|RangeTexts(rs)| == 1 ==> rs == [Range(-1, -1)])
  {
    TextCharacters(rs[0]);
    if |rs| == 1 {
      PositionParses(rs[0].first);
      PositionParses(rs[0].last);
      assert rs == [rs[0]];
    }
  }

  /** Parsing undoes making exactly for the non-empty lists of valid ranges; any other list is refused. */
  lemma ParseInvertsMake(rs: seq<Range>)
    requires forall i :: 0 <= i < |rs| ==> Fits(rs[i])
    ensures Parse(UNIT + RangeTexts(rs))
         == if rs != [] && forall i :: 0 <= i < |rs| ==> Valid(rs[i]) then Some(rs) else None
  {
    var s := UNIT + RangeTexts(rs);
    assert s[..6] == UNIT && s[6..] == RangeTexts(rs);
    if rs != [] {
      TextLength(rs);
      TextsSplit(rs, "");
      assert "" + RangeTexts(rs) == RangeTexts(rs);
      TextsParse(rs);
    }
  }
}
