/** What each flag of a log pattern prints, on the text of the pattern, and which sizes the formatters of dates
    and times announce truthfully. */
module PatternFlags {
  import opened Prelude
  import opened Text
  import opened PatternFormatter

  /** The flags that print a field, as documented: those of name, level, thread, message, names of days and
      months, process, source, elapsed times and context, and those of dates and times in digits. */
  const TEXT_FLAGS := "nlLtvaAbhBP@sg#!uioO&"
  const TIME_FLAGS := "cCYDxmdHIMSefFEprRTXz"
  const FLAGS := TEXT_FLAGS + TIME_FLAGS

  lemma TextFlagIff(c: char)
    ensures IsTextFlag(c) <==> c in TEXT_FLAGS
  {
  }

  lemma TimeFlagIff(c: char)
    ensures FixedSize(c).Some? <==> c in TIME_FLAGS
  {
  }

  lemma FlagsAreFields(c: char)
    ensures IsFieldFlag(c) <==> c in FLAGS
  {
    TextFlagIff(c);
    TimeFlagIff(c);
    hide IsTextFlag, FixedSize;
  }

  lemma TextFlagHasNoSize(c: char)
    requires IsTextFlag(c)
    ensures FixedSize(c) == None
  {
  }

  lemma TextFlagsAreTruthful(c: char, text: string)
    requires c in TEXT_FLAGS
    ensures c in FLAGS && Announced(c, text) == |text|
  {
    TextFlagIff(c);
    TextFlagHasNoSize(c);
    FlagsAreFields(c);
    hide IsTextFlag, FixedSize;
  }

  lemma OtherCharacters()
    ensures !IsFieldFlag('%') && !IsFieldFlag('^') && !IsFieldFlag('$') && !IsFieldFlag('+')
  {
  }

  lemma FlagCharacters(c: char)
    requires c in FLAGS
    ensures c != '+' && c != '-' && c != '=' && !IsDigit(c)
  {
    FlagsAreFields(c);
    assert IsFieldFlag(c);
  }

  /** No specification: the flag follows the percent sign. */
  lemma NoSpec(c: char, more: string)
    requires c != '-' && c != '=' && !IsDigit(c)
    ensures ReadSpec([c] + more) == (NO_PADDING, 0)
  {
    var s := [c] + more;
    SpecUnfolds(s, 0);
    DigitCountIs(s, 0);
    hide ReadSpec, DigitCount;
    assert s[0..] == s;
  }

  lemma AfterPercent(c: char, more: string, msg: Message, dest: string)
    requires c != '-' && c != '=' && !IsDigit(c)
    ensures Interpret(['%', c] + more, msg, dest) == match FlagTo(c, NO_PADDING, msg, dest)
                                                     case None => None
                                                     case Some(d) => Interpret(more, msg, d)
  {
    NoSpec(c, more);
    hide ReadSpec, FlagTo;
    assert (['%', c] + more)[1..] == [c] + more && ([c] + more)[1..] == more;
  }

  // ----- Without padding -----

  /** A flag prints its text. */
  lemma FlagPrints(c: char, text: string, more: string, msg: Message, dest: string)
    requires c in FLAGS && msg.texts(c) == [text]
    ensures Interpret(['%', c] + more, msg, dest) == Interpret(more, msg, dest + text)
  {
    FlagsAreFields(c);
    FlagCharacters(c);
    AfterPercent(c, more, msg, dest);
    OneTextFlag(c, text, NO_PADDING, msg, dest);
    hide Interpret, FlagTo;
  }

  function Concatenated(texts: seq<string>): string {
    if texts == [] then "" else texts[0] + Concatenated(texts[1..])
  }

  lemma {:induction false} PlainTexts(dest: string, c: char, texts: seq<string>)
    ensures FieldTo(dest, c, texts, NO_PADDING) == Some(dest + Concatenated(texts))
    decreases |texts|
  {
    if texts == [] {
      assert dest + "" == dest;
    } else {
      PlainTexts(dest + texts[0], c, texts[1..]);
      assert dest + texts[0] + Concatenated(texts[1..]) == dest + (texts[0] + Concatenated(texts[1..]));
    }
  }

  /** The context flag prints its pairs one after the other. */
  lemma ContextPrints(more: string, msg: Message, dest: string)
    ensures Interpret("%&" + more, msg, dest) == Interpret(more, msg, dest + Concatenated(msg.texts('&')))
  {
    AfterPercent('&', more, msg, dest);
    SomeFlags();
    PlainTexts(dest, '&', msg.texts('&'));
    assert "%&" == ['%', '&'];
    hide Interpret, Announced;
  }

  /** "%+" prints the whole message in the default format. */
  lemma DefaultPrints(more: string, msg: Message, dest: string)
    ensures Interpret("%+" + more, msg, dest) == Interpret(more, msg, dest + msg.full)
  {
    AfterPercent('+', more, msg, dest);
    assert "%+" == ['%', '+'];
    hide Interpret;
  }

  /** Two percent signs print one. */
  lemma PercentPrints(more: string, msg: Message, dest: string)
    ensures Interpret("%%" + more, msg, dest) == Interpret(more, msg, dest + "%")
  {
    AfterPercent('%', more, msg, dest);
    OtherCharacters();
    assert "%%" == ['%', '%'];
    hide Interpret, IsFieldFlag;
  }

  /** The marks of the colour range print nothing. */
  lemma MarksPrintNothing(more: string, msg: Message, dest: string)
    ensures Interpret("%^" + more, msg, dest) == Interpret(more, msg, dest)
    ensures Interpret("%$" + more, msg, dest) == Interpret(more, msg, dest)
  {
    AfterPercent('^', more, msg, dest);
    AfterPercent('$', more, msg, dest);
    OtherCharacters();
    assert "%^" == ['%', '^'] && "%$" == ['%', '$'];
    hide Interpret, IsFieldFlag;
  }

  /** Any other character after a percent sign is printed with it. */
  lemma UnknownPrintsItself(c: char, more: string, msg: Message, dest: string)
    requires c !in FLAGS && c !in "+%^$-=" && !IsDigit(c)
    ensures Interpret(['%', c] + more, msg, dest) == Interpret(more, msg, dest + ['%', c])
  {
    FlagsAreFields(c);
    OutsideSpecials(c);
    AfterPercent(c, more, msg, dest);
    hide Interpret, IsFieldFlag;
  }

  lemma OutsideSpecials(c: char)
    requires c !in "+%^$-="
    ensures c != '+' && c != '%' && c != '^' && c != '$' && c != '-' && c != '='
  {
    var s := "+%^$-=";
    assert s[0] == '+' && s[1] == '%' && s[2] == '^' && s[3] == '$' && s[4] == '-' && s[5] == '=';
  }

  /** Text without a percent sign prints itself. */
  lemma {:induction false} TextPrintsItself(s: string, msg: Message, dest: string)
    requires '%' !in s
    ensures Interpret(s, msg, dest) == Some(dest + s)
    decreases |s|
  {
    if s == "" {
      assert dest + "" == dest;
    } else {
      assert s[0] in s;
      TextPrintsItself(s[1..], msg, dest + [s[0]]);
      assert dest + [s[0]] + s[1..] == dest + s;
    }
  }

  /** A percent sign that ends the pattern prints nothing, and nor does one with a specification behind it. */
  lemma TrailingPercent(msg: Message, dest: string)
    ensures Interpret("%", msg, dest) == Some(dest) && Interpret("%-", msg, dest) == Some(dest)
  {
    SpecUnfolds("", 0);
    DigitCountIs("", 0);
    SpecUnfolds("-", 1);
    assert "%"[1..] == "" && "%-"[1..] == "-" && "-"[1..] == "" && ""[0..] == "" && "%-"[2..] == "";
    hide ReadSpec, DigitCount;
  }

  // ----- With padding -----

  function SideText(side: Side): string {
    match side
    case Left => ""
    case Right => "-"
    case Center => "="
  }

  /** A specification as it is written: side, width, and the mark of truncation. */
  function SpecText(side: Side, width: nat, truncate: bool): string {
    SideText(side) + ToDecimal(width) + if truncate then "!" else ""
  }

  function PaddingOf(side: Side, width: nat, truncate: bool): Padding {
    Padding(if width < 64 then width else 64, side, truncate, true)
  }

  lemma DigitsRead(width: nat, rest: string)
    requires width < SIZE_MODULUS && (rest != "" ==> !IsDigit(rest[0]))
    ensures var s := ToDecimal(width) + rest;
            && DigitCount(s) == |ToDecimal(width)| && s[..|ToDecimal(width)|] == ToDecimal(width)
            && FromDecimal(ToDecimal(width)) % SIZE_MODULUS == width
  {
    var digits := ToDecimal(width);
    var s := digits + rest;
    DecimalRoundTrip(width);
    forall i | 0 <= i < |digits|
      ensures IsDigit(s[i])
    {
      assert s[i] == digits[i];
    }
    assert |digits| < |s| ==> s[|digits|] == rest[0];
    DigitCountIs(s, |digits|);
    SmallModulus(width);
    hide ToDecimal, FromDecimal;
  }

  lemma SmallModulus(n: nat)
    requires n < SIZE_MODULUS
    ensures n % SIZE_MODULUS == n
  {
  }

  /** A written specification is read back; only its width is cut to 64. */
  lemma SpecRead(side: Side, width: nat, truncate: bool, c: char, more: string)
    requires width < SIZE_MODULUS && !IsDigit(c) && (c == '!' ==> truncate)
    ensures ReadSpec(SpecText(side, width, truncate) + [c] + more)
         == (PaddingOf(side, width, truncate), |SpecText(side, width, truncate)|)
  {
    var mark, digits := if truncate then "!" else "", ToDecimal(width);
    var rest := mark + ([c] + more);
    hide ReadSpec, DigitCount, FromDecimal, ToDecimal;
    SpecParts(side, digits, mark, [c] + more);
    assert SpecText(side, width, truncate) + [c] + more == SideText(side) + (digits + rest);
    DigitsRead(width, rest);
    ReadsParts(side, digits, rest);
  }

  lemma SpecParts(side: Side, digits: string, mark: string, more: string)
    ensures SideText(side) + digits + mark + more == SideText(side) + (digits + (mark + more))
  {
  }

  lemma ReadsParts(side: Side, digits: string, rest: string)
    requires digits != "" && IsDigit(digits[0]) && rest != ""
    requires DigitCount(digits + rest) == |digits|
    ensures var n, truncate := |SideText(side)| + |digits|, rest[0] == '!';
            ReadSpec(SideText(side) + (digits + rest))
            == (PaddingOf(side, FromDecimal((digits + rest)[..|digits|]) % SIZE_MODULUS, truncate),
                n + if truncate then 1 else 0)
  {
    hide ReadSpec, DigitCount, FromDecimal;
    var s, k, tail := SideText(side) + (digits + rest), |SideText(side)|, digits + rest;
    FirstIsNoSide(side, digits, s, rest);
    SpecUnfolds(s, k);
    SliceBehind(SideText(side), digits, rest);
    hide SideText;
  }

  lemma SliceBehind(side: string, digits: string, rest: string)
    requires rest != ""
    ensures var s := side + (digits + rest);
            s[|side|..] == digits + rest && |s| > |side| + |digits| && s[|side| + |digits|] == rest[0]
  {
  }

  lemma FirstIsNoSide(side: Side, digits: string, s: string, rest: string)
    requires digits != "" && IsDigit(digits[0]) && s == SideText(side) + (digits + rest)
    ensures s != "" && |SideText(side)| == if side == Left then 0 else 1
    ensures side == Left ==> s[0] == digits[0]
    ensures side == Right ==> s[0] == '-'
    ensures side == Center ==> s[0] == '='
  {
  }

  /** A pattern that begins with a flag. */
  lemma OneFlag(spec: string, c: char, more: string, p: Padding, msg: Message, dest: string)
    requires ReadSpec(spec + [c] + more) == (p, |spec|)
    ensures Interpret("%" + spec + [c] + more, msg, dest) == match FlagTo(c, p, msg, dest)
                                                             case None => None
                                                             case Some(d) => Interpret(more, msg, d)
  {
    hide ReadSpec, FlagTo;
    var pattern := "%" + spec + [c] + more;
    assert pattern[1..] == spec + [c] + more;
    assert pattern[1 + |spec|..] == [c] + more;
  }

  /** A padded flag of a truthful size prints its padded text. */
  lemma PaddedFlagPrints(c: char, text: string, side: Side, width: nat, truncate: bool, more: string,
    msg: Message, dest: string)
    requires c in FLAGS && msg.texts(c) == [text] && Announced(c, text) == |text|
    requires width < SIZE_MODULUS && (c == '!' ==> truncate)
    ensures Interpret("%" + SpecText(side, width, truncate) + [c] + more, msg, dest)
         == Interpret(more, msg, dest + Padded(text, PaddingOf(side, width, truncate)))
  {
    var spec, p := SpecText(side, width, truncate), PaddingOf(side, width, truncate);
    FlagsAreFields(c);
    FlagCharacters(c);
    SpecRead(side, width, truncate, c, more);
    OneFlag(spec, c, more, p, msg, dest);
    OneTextFlag(c, text, p, msg, dest);
    TruthfulPad(dest, text, p);
    hide Interpret, FlagTo, SpecText, PadTo;
  }

  /** So does every flag that is not of a fixed size. */
  lemma PaddedTextPrints(c: char, text: string, side: Side, width: nat, truncate: bool, more: string,
    msg: Message, dest: string)
    requires c in TEXT_FLAGS && msg.texts(c) == [text] && width < SIZE_MODULUS && (c == '!' ==> truncate)
    ensures Interpret("%" + SpecText(side, width, truncate) + [c] + more, msg, dest)
         == Interpret(more, msg, dest + Padded(text, PaddingOf(side, width, truncate)))
  {
    TextFlagsAreTruthful(c, text);
    PaddedFlagPrints(c, text, side, width, truncate, more, msg, dest);
  }

  /** An unknown flag is printed with its percent sign, without padding, and the specification is dropped. */
  lemma UnknownIgnoresWidth(c: char, side: Side, width: nat, more: string, msg: Message, dest: string)
    requires c !in FLAGS && c !in "+%^$-=" && !IsDigit(c) && width < SIZE_MODULUS
    ensures Interpret("%" + SpecText(side, width, false) + [c] + more, msg, dest)
         == Interpret(more, msg, dest + ['%', c])
  {
    var p := PaddingOf(side, width, false);
    FlagsAreFields(c);
    OutsideSpecials(c);
    BangIsFlag();
    SpecRead(side, width, false, c, more);
    OneFlag(SpecText(side, width, false), c, more, p, msg, dest);
    hide Interpret, SpecText, IsFieldFlag;
  }

  lemma BangIsFlag()
    ensures '!' in FLAGS
  {
    TextFlagIff('!');
  }

  /** Behind a width, "!" is the function's flag if no other flag follows: the name is padded, but not cut. */
  lemma FunctionBehindWidth(c: char, name: string, side: Side, width: nat, more: string, msg: Message, dest: string)
    requires c !in FLAGS && c !in "+%^$-=" && !IsDigit(c) && msg.texts('!') == [name] && width < SIZE_MODULUS
    ensures Interpret("%" + SpecText(side, width, true) + [c] + more, msg, dest)
         == Interpret(more, msg, dest + Padded(name, PaddingOf(side, width, false)) + [c])
  {
    var spec, p := SpecText(side, width, true), PaddingOf(side, width, true);
    SpecRead(side, width, true, c, more);
    OneFlag(spec, c, more, p, msg, dest);
    UnknownAfterBang(c, name, p, msg, dest);
    hide Interpret, SpecText, FlagTo, Padded;
  }

  lemma UnknownAfterBang(c: char, name: string, p: Padding, msg: Message, dest: string)
    requires c !in FLAGS && c !in "+%^$-=" && msg.texts('!') == [name] && p.truncate && p.enabled
    ensures FlagTo(c, p, msg, dest) == Some(dest + Padded(name, p.(truncate := false)) + [c])
  {
    FlagsAreFields(c);
    OutsideSpecials(c);
    SomeFlags();
    OneTextFlag('!', name, p.(truncate := false), msg, dest);
    TruthfulPad(dest, name, p.(truncate := false));
    BangIsTruthful(name);
    hide IsFieldFlag, Announced, PadTo, FieldTo, Padded;
  }

  lemma BangIsTruthful(name: string)
    ensures Announced('!', name) == |name|
  {
  }

  // ----- The texts of dates and times -----

  /** A point in time in its parts; `month` counts from 0, and `offset` is in minutes. */
  datatype Time = Time(year: nat, month: nat, day: nat, weekday: nat, hour: nat, minute: nat, second: nat,
                       millis: nat, micros: nat, nanos: nat, sinceEpoch: nat, offset: int)

  predicate IsTime(t: Time) {
    && t.year >= 1900 && t.month < 12 && 1 <= t.day <= 31 && t.weekday < 7
    && t.hour < 24 && t.minute < 60 && t.second <= 60
    && t.millis < 1000 && t.micros < 1000000 && t.nanos < 1000000000
    && -6000 < t.offset < 6000
  }

  const WEEKDAYS := ["Sun", "Mon", "Tue", "Wed", "Thu", "Fri", "Sat"]
  const MONTHS := ["Jan", "Feb", "Mar", "Apr", "May", "Jun", "Jul", "Aug", "Sept", "Oct", "Nov", "Dec"]

  /** `n` with zeros in front, in `width` digits. */
  function Digits(n: nat, width: nat): (s: string)
    ensures |s| == width
  {
    if width == 0 then "" else Digits(n / 10, width - 1) + [DigitChar(n % 10)]
  }

  function Clock(t: Time): (s: string)
    requires IsTime(t)
    ensures |s| == 8
  {
    Digits(t.hour, 2) + ":" + Digits(t.minute, 2) + ":" + Digits(t.second, 2)
  }

  function HalfDay(t: Time): (s: string)
    ensures |s| == 2
  {
    if t.hour >= 12 then "PM" else "AM"
  }

  function Hour12(t: Time): nat {
    if t.hour > 12 then t.hour - 12 else t.hour
  }

  /** What the formatter of a date or time flag prints. */
  function TimeText(c: char, t: Time): Option<string>
    requires IsTime(t)
  {
    match c
    case 'c' =>
      var names := WEEKDAYS[t.weekday] + " " + MONTHS[t.month];
      Some(names + " " + ToDecimal(t.day) + " " + Clock(t) + " " + ToDecimal(t.year))
    case 'D' | 'x' => Some(ShortDate(t.month + 1, t.day, (t.year - 1900) % 100))
    case 'Y' => Some(ToDecimal(t.year))
    case 'C' => Some(Digits((t.year - 1900) % 100, 2))
    case 'm' => Some(Digits(t.month + 1, 2))
    case 'd' => Some(Digits(t.day, 2))
    case 'H' => Some(Digits(t.hour, 2))
    case 'I' => Some(Digits(Hour12(t), 2))
    case 'M' => Some(Digits(t.minute, 2))
    case 'S' => Some(Digits(t.second, 2))
    case 'e' => Some(Digits(t.millis, 3))
    case 'f' => Some(Digits(t.micros, 6))
    case 'F' => Some(Digits(t.nanos, 9))
    case 'E' => Some(ToDecimal(t.sinceEpoch))
    case 'p' => Some(HalfDay(t))
    case 'r' => Some(Digits(Hour12(t), 2) + ":" + Digits(t.minute, 2) + ":" + Digits(t.second, 2) + " " + HalfDay(t))
    case 'R' => Some(Digits(t.hour, 2) + ":" + Digits(t.minute, 2))
    case 'T' | 'X' => Some(Clock(t))
    case 'z' =>
      var minutes := if t.offset < 0 then -t.offset else t.offset;
      Some((if t.offset < 0 then "-" else "+") + Digits(minutes / 60, 2) + ":" + Digits(minutes % 60, 2))
    case _ => None
  }

  function Power10(k: nat): (p: nat)
    ensures p > 0
  {
    if k == 0 then 1 else 10 * Power10(k - 1)
  }

  lemma {:induction false} DecimalLength(n: nat, k: nat)
    requires k > 0
    ensures |ToDecimal(n)| <= k <==> n < Power10(k)
  {
    if n >= 10 && k > 1 {
      DecimalLength(n / 10, k - 1);
    } else if k > 1 {
      assert Power10(k) >= 10;
    } else {
      assert Power10(1) == 10 * Power10(0) == 10;
    }
  }

  /** Of the flags of dates and times, all but these announce the length of what they print: "D" and "x"
      never do, "Y" only with a year of four digits, "E" only with ten digits of seconds, and "c", in a year of
      four digits, only on the two-digit days of every month but September and on its one-digit days. */
  lemma TruthfulTimesIff(c: char, t: Time, text: string)
    requires IsTime(t) && TimeText(c, t) == Some(text)
    ensures c in FLAGS
    ensures c != 'c' && c != 'D' && c != 'x' && c != 'Y' && c != 'E' ==> Announced(c, text) == |text|
    ensures c == 'D' || c == 'x' ==> Announced(c, text) == 10 && |text| == 8
    ensures c == 'Y' ==> (Announced(c, text) == |text| <==> 1000 <= t.year < 10000)
    ensures c == 'E' ==> (Announced(c, text) == |text| <==> 1000000000 <= t.sinceEpoch < 10000000000)
    ensures c == 'c' && t.year < 10000 ==> (Announced(c, text) == |text| <==> (t.month == 8 <==> t.day < 10))
  {
    FixedTimesAreTruthful(c, t);
    if c == 'D' || c == 'x' {
      DatesAreShort(c, t);
    }
    NumbersAreTruthfulIff(t);
    if t.year < 10000 {
      FullDateLength(t);
    }
    TimeFlagIff(c);
    hide TimeText, FixedSize, IsTime;
  }

  lemma FixedTimesAreTruthful(c: char, t: Time)
    requires IsTime(t) && TimeText(c, t).Some?
    ensures FixedSize(c).Some?
    ensures c != 'c' && c != 'D' && c != 'x' && c != 'Y' && c != 'E' ==> FixedSize(c) == Some(|TimeText(c, t).value|)
  {
    hide Digits, ToDecimal;
  }

  lemma DatesAreShort(c: char, t: Time)
    requires IsTime(t) && (c == 'D' || c == 'x')
    ensures FixedSize(c) == Some(10) && |TimeText(c, t).value| == 8
  {
    hide Digits, ToDecimal;
  }

  lemma NumbersAreTruthfulIff(t: Time)
    requires IsTime(t)
    ensures FixedSize('Y') == Some(|TimeText('Y', t).value|) <==> 1000 <= t.year < 10000
    ensures FixedSize('E') == Some(|TimeText('E', t).value|) <==> 1000000000 <= t.sinceEpoch < 10000000000
  {
    DecimalLength(t.year, 3);
    DecimalLength(t.year, 4);
    DecimalLength(t.sinceEpoch, 9);
    DecimalLength(t.sinceEpoch, 10);
    Powers();
    hide ToDecimal, Power10, Digits;
  }

  lemma MonthLength(month: nat, weekday: nat)
    requires month < 12 && weekday < 7
    ensures |MONTHS[month]| == (if month == 8 then 4 else 3) && |WEEKDAYS[weekday]| == 3
  {
  }

  lemma FullDateLength(t: Time)
    requires IsTime(t) && t.year < 10000
    ensures FixedSize('c') == Some(|TimeText('c', t).value|) <==> (t.month == 8 <==> t.day < 10)
  {
    MonthLength(t.month, t.weekday);
    DecimalLength(t.year, 3);
    DecimalLength(t.year, 4);
    DecimalLength(t.day, 1);
    DecimalLength(t.day, 2);
    Powers();
    hide ToDecimal, Power10, Digits;
    var month, weekday := MONTHS[t.month], WEEKDAYS[t.weekday];
    assert |TimeText('c', t).value| == |weekday| + |month| + |ToDecimal(t.day)| + |ToDecimal(t.year)| + 12;
  }

  lemma Powers()
    ensures Power10(1) == 10 && Power10(2) == 100 && Power10(3) == 1000 && Power10(4) == 10000
    ensures Power10(9) == 1000000000 && Power10(10) == 10000000000
  {
    assert Power10(0) == 1;
    assert Power10(5) == 100000 && Power10(6) == 1000000 && Power10(7) == 10000000 && Power10(8) == 100000000;
  }
}
