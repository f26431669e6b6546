/** The log pattern compiler and the formatters it produces, against a direct reading of the pattern. A
    formatter acts on the whole destination buffer: with truncation, it can cut off more than it wrote. */
module PatternFormatter {
  import opened Prelude
  import opened Text

  datatype Side = Left | Right | Center

  /** A padding specification; `enabled` is false when the pattern gives none. */
  datatype Padding = Padding(width: nat, side: Side, truncate: bool, enabled: bool)

  const NO_PADDING := Padding(0, Left, false, false)
  const MAX_WIDTH := 64
  const SIZE_MODULUS := 0x1_0000_0000_0000_0000

  /** A log message, with the texts that each flag prints for it: one text, or for "&" one for each pair of
      the context, each padded by itself. The flag "!" prints the function name, which is empty when the
      message has no source. */
  datatype Message = Message(texts: char -> seq<string>, full: string)

  datatype Formatter =
    | Field(flag: char, padding: Padding)      // the texts of a flag, each padded
    | Full                                     // the default format
    | Marker                                   // start or end of the colour range: prints nothing
    | Chars(text: string)

  /** The size that the formatter of a date or time announces to its padder, whatever its text. */
  function FixedSize(flag: char): Option<nat> {
    match flag
    case 'C' | 'm' | 'd' | 'H' | 'I' | 'M' | 'S' | 'p' => Some(2)
    case 'e' => Some(3)
    case 'Y' => Some(4)
    case 'R' => Some(5)
    case 'f' | 'z' => Some(6)
    case 'T' | 'X' => Some(8)
    case 'F' => Some(9)
    case 'D' | 'x' | 'E' => Some(10)
    case 'r' => Some(11)
    case 'c' => Some(24)
    case _ => None
  }

  /** Flags whose formatter announces the length of the text it prints. */
  predicate IsTextFlag(flag: char) {
    match flag
    case 'n' | 'l' | 'L' | 't' | 'v' | 'a' | 'A' | 'b' | 'h' | 'B' | 'P' | '@' | 's' | 'g' | '#' => true
    case 'u' | 'i' | 'o' | 'O' | '&' | '!' => true
    case _ => false
  }

  /** Flags whose formatter prints a field. */
  predicate IsFieldFlag(flag: char) {
    IsTextFlag(flag) || FixedSize(flag).Some?
  }

  /** The size that a flag's formatter announces to its padder. */
  function Announced(flag: char, text: string): nat {
    match FixedSize(flag)
    case None => |text|
    case Some(size) => size
  }

  // ----- Padding -----

  function Spaces(n: nat): (s: string)
    ensures |s| == n
  {
    seq(n, _ => ' ')
  }

  /** A field of the given width: its text among spaces, or cut off. */
  function Padded(text: string, p: Padding): (s: string)
    ensures |text| >= p.width && !p.truncate ==> s == text
    ensures |text| >= p.width && p.truncate ==> s == text[..p.width]
    ensures |text| < p.width ==> |s| == p.width
  {
    if |text| >= p.width then if p.truncate then text[..p.width] else text
    else Among(text, p.width - |text|, p.side)
  }

  /** A text among `n` spaces. */
  function Among(text: string, n: nat, side: Side): (s: string)
    ensures |s| == |text| + n
  {
    match side
    case Left => Spaces(n) + text
    case Right => text + Spaces(n)
    case Center => Spaces(n / 2) + text + Spaces(n / 2 + n % 2)
  }

  /** A padded field of k characters and width w contributes max(w, k) characters, or exactly w with
      truncation, and holds its text (or the beginning of it) in one piece. */
  lemma PaddedLength(text: string, p: Padding)
    ensures |Padded(text, p)| == if p.truncate || |text| < p.width then p.width else |text|
    ensures exists i :: 0 <= i <= |Padded(text, p)|
              && (if p.truncate && |text| > p.width then text[..p.width] else text) <= Padded(text, p)[i..]
  {
    var s, n := Padded(text, p), if |text| < p.width then p.width - |text| else 0;
    var i := if |text| >= p.width || p.side == Right then 0 else if p.side == Left then n else n / 2;
    var shown := if p.truncate && |text| > p.width then text[..p.width] else text;
    assert s[i..][..|shown|] == shown;
    assert shown <= s[i..];
  }

  /** How many characters truncation takes off the end of the destination. */
  function Cut(size: nat, p: Padding): nat {
    if p.truncate && size > p.width then size - p.width else 0
  }

  /** The destination after a padder for an announced size was created, a text appended, and the padder
      destroyed; `None` when there are fewer characters than are to be cut off. */
  function PadTo(dest: string, text: string, size: nat, p: Padding): Option<string> {
    if size < p.width then Some(dest + Among(text, p.width - size, p.side))
    else if Cut(size, p) > |dest| + |text| then None
    else Some((dest + text)[..|dest| + |text| - Cut(size, p)])
  }

  /** With a truthful size, exactly the padded text is added. */
  lemma TruthfulPad(dest: string, text: string, p: Padding)
    ensures PadTo(dest, text, |text|, p) == Some(dest + Padded(text, p))
  {
    if |text| >= p.width {
      assert (dest + text)[..|dest| + |text| - Cut(|text|, p)] == dest + Padded(text, p);
    }
  }

  /** Earlier output stays exactly when the padder does not cut off more than was written under it. */
  lemma EarlierOutputStaysIff(dest: string, text: string, size: nat, p: Padding)
    ensures PadTo(dest, text, size, p).Some? <==> Cut(size, p) <= |dest| + |text|
    ensures PadTo(dest, text, size, p).Some? ==>
              (dest <= PadTo(dest, text, size, p).value
               <==> !(p.truncate && size > p.width && size - p.width > |text|))
  {
    if PadTo(dest, text, size, p).Some? && size >= p.width && Cut(size, p) <= |text| {
      assert (dest + text)[..|dest| + |text| - Cut(size, p)][..|dest|] == dest;
    }
  }

  /** A field takes max(w, k) characters exactly when its size is announced truthfully, or both size and text
      fill the width; with truncation, it takes exactly w when, and only when, the size is truthful. */
  lemma FieldLengthIff(dest: string, text: string, size: nat, p: Padding)
    requires PadTo(dest, text, size, p).Some?
    ensures var added := |PadTo(dest, text, size, p).value| - |dest|;
            if p.truncate then added == p.width <==> size == |text|
            else added == (if |text| < p.width then p.width else |text|)
                 <==> size == |text| || (size >= p.width && |text| >= p.width)
  {
  }

  /** The destination buffer, and the padder that lives while a field is written. */
  class MemoryBuf {
    var text: string

    constructor ()
      ensures text == ""
    {
      text := "";
    }

    method Append(s: string)
      modifies this
      ensures text == old(text) + s
    {
      text := text + s;
    }

    /** `pad_it`: the spaces come from a block of 64. */
    method PadIt(count: nat)
      requires count <= MAX_WIDTH
      modifies this
      ensures text == old(text) + Spaces(count)
    {
      var block := Spaces(MAX_WIDTH);
      assert block[..count] == Spaces(count);
      Append(block[..count]);
    }

    /** The padder's constructor; what remains for its destructor is returned. */
    method StartPadding(size: nat, p: Padding) returns (remaining: int)
      requires p.width <= MAX_WIDTH
      modifies this
      ensures remaining == if size >= p.width then p.width - size
                           else match p.side
                                case Left => 0
                                case Right => p.width - size
                                case Center => (p.width - size) / 2 + (p.width - size) % 2
      ensures text == old(text) + if size >= p.width then ""
                                  else match p.side
                                       case Left => Spaces(p.width - size)
                                       case Right => ""
                                       case Center => Spaces((p.width - size) / 2)
    {
      remaining := p.width - size;
      if remaining <= 0 {
        return;
      }
      match p.side
      case Left =>
        PadIt(remaining);
        remaining := 0;
      case Center =>
        var half, reminder := remaining / 2, remaining % 2;
        PadIt(half);
        remaining := half + reminder;
      case Right =>
    }

    /** The padder's destructor: pads on the right, or cuts off. The new size is not checked: if it would be
        negative, the resizing fails. */
    method FinishPadding(remaining: int, p: Padding) returns (ok: bool)
      requires remaining <= MAX_WIDTH
      modifies this
      ensures ok <==> !(remaining < 0 && p.truncate && |old(text)| + remaining < 0)
      ensures ok ==> text == if remaining >= 0 then old(text) + Spaces(remaining)
                             else if p.truncate then old(text)[..|old(text)| + remaining]
                             else old(text)
    {
      ok := true;
      if remaining >= 0 {
        PadIt(remaining);
      } else if p.truncate {
        var newSize := |text| + remaining;
        ok := newSize >= 0;
        if ok {
          text := text[..newSize];
        }
      }
    }

    /** One text under a padder that was told `size`. */
    method AppendPadded(s: string, size: nat, p: Padding) returns (ok: bool)
      requires p.width <= MAX_WIDTH
      modifies this
      ensures match PadTo(old(text), s, size, p)
              case None => !ok
              case Some(r) => ok && text == r
    {
      ghost var before := text;
      var remaining := StartPadding(size, p);
      Append(s);
      ok := FinishPadding(remaining, p);
      if size < p.width {
        assert text == before + Among(s, p.width - size, p.side);
      }
    }

    /** The texts of a flag, one after the other. */
    method AppendField(flag: char, texts: seq<string>, p: Padding) returns (ok: bool)
      requires p.width <= MAX_WIDTH
      modifies this
      ensures match FieldTo(old(text), flag, texts, p)
              case None => !ok
              case Some(r) => ok && text == r
    {
      ghost var all := FieldTo(text, flag, texts, p);
      assert texts[0..] == texts;
      for i := 0 to |texts|
        invariant all == FieldTo(text, flag, texts[i..], p)
      {
        assert texts[i..][1..] == texts[i + 1..];
        if p.enabled {
          ok := AppendPadded(texts[i], Announced(flag, texts[i]), p);
          if !ok {
            return;
          }
        } else {
          Append(texts[i]);
        }
      }
      ok := true;
    }
  }

  // ----- Running a compiled pattern -----

  /** The destination after one text of a field. */
  function TextTo(dest: string, flag: char, text: string, p: Padding): Option<string> {
    if p.enabled then PadTo(dest, text, Announced(flag, text), p) else Some(dest + text)
  }

  function FieldTo(dest: string, flag: char, texts: seq<string>, p: Padding): Option<string>
    decreases |texts|
  {
    if texts == [] then Some(dest)
    else
      match TextTo(dest, flag, texts[0], p)
      case None => None
      case Some(d) => FieldTo(d, flag, texts[1..], p)
  }

  function FormatOne(f: Formatter, msg: Message, dest: string): Option<string> {
    match f
    case Field(flag, p) => FieldTo(dest, flag, msg.texts(flag), p)
    case Full => Some(dest + msg.full)
    case Marker => Some(dest)
    case Chars(text) => Some(dest + text)
  }

  function FormatAll(fs: seq<Formatter>, msg: Message, dest: string): Option<string> {
    if fs == [] then Some(dest)
    else
      match FormatOne(fs[0], msg, dest)
      case None => None
      case Some(d) => FormatAll(fs[1..], msg, d)
  }

  predicate NarrowEnough(f: Formatter) {
    f.Field? ==> f.padding.width <= MAX_WIDTH
  }

  method FormatStep(f: Formatter, msg: Message, dest: MemoryBuf) returns (ok: bool)
    requires NarrowEnough(f)
    modifies dest
    ensures match FormatOne(f, msg, old(dest.text))
            case None => !ok
            case Some(r) => ok && dest.text == r
  {
    ok := true;
    match f {
      case Field(flag, p) => ok := dest.AppendField(flag, msg.texts(flag), p);
      case Full => dest.Append(msg.full);
      case Marker =>
      case Chars(text) => dest.Append(text);
    }
  }

  method Format(formatters: seq<Formatter>, msg: Message, eol: string, dest: MemoryBuf) returns (ok: bool)
    requires forall f :: f in formatters ==> NarrowEnough(f)
    modifies dest
    ensures match FormatAll(formatters, msg, old(dest.text))
            case None => !ok
            case Some(r) => ok && dest.text == r + eol
  {
    ghost var all := FormatAll(formatters, msg, dest.text);
    assert formatters[0..] == formatters;
    for i := 0 to |formatters|
      invariant all == FormatAll(formatters[i..], msg, dest.text)
    {
      assert formatters[i..][1..] == formatters[i + 1..];
      assert formatters[i] in formatters;
      ok := FormatStep(formatters[i], msg, dest);
      if !ok {
        return;
      }
    }
    dest.Append(eol);
    ok := true;
  }

  // ----- The meaning of a pattern -----

  function DigitCount(s: string): (n: nat)
    ensures n <= |s| && (n < |s| ==> !IsDigit(s[n])) && forall i :: 0 <= i < n ==> IsDigit(s[i])
  {
    if s == "" || !IsDigit(s[0]) then 0 else 1 + DigitCount(s[1..])
  }

  /** The padding specification at the head of `s` and its length. Widths wrap like the size type and
      are cut to 64. */
  function ReadSpec(s: string): (r: (Padding, nat))
    ensures r.1 <= |s| && r.0.width <= MAX_WIDTH
  {
    var k := if s != "" && (s[0] == '-' || s[0] == '=') then 1 else 0;
    var side := if k == 0 then Left else if s[0] == '-' then Right else Center;
    var n := DigitCount(s[k..]);
    if n == 0 then (NO_PADDING, k)
    else
      var width := FromDecimal(s[k..][..n]) % SIZE_MODULUS;
      var truncate := k + n < |s| && s[k + n] == '!';
      (Padding(if width < MAX_WIDTH then width else MAX_WIDTH, side, truncate, true), k + n + if truncate then 1 else 0)
  }

  /** What a flag does to the destination. An unknown flag prints itself; after "!" it is taken to follow the
      function name, whose own flag the "!" then is. */
  function FlagTo(flag: char, p: Padding, msg: Message, dest: string): Option<string> {
    if flag == '+' then Some(dest + msg.full)
    else if IsFieldFlag(flag) then FieldTo(dest, flag, msg.texts(flag), p)
    else if flag == '%' then Some(dest + "%")
    else if flag == '^' || flag == '$' then Some(dest)
    else if !p.truncate then Some(dest + ['%', flag])
    else
      match FieldTo(dest, '!', msg.texts('!'), p.(truncate := false))
      case None => None
      case Some(d) => Some(d + [flag])
  }

  /** The pattern read character by character, acting on the destination: literals, and flags with their
      padding; a "%" that ends the pattern prints nothing. */
  function Interpret(pattern: string, msg: Message, dest: string): Option<string>
    decreases |pattern|
  {
    if pattern == "" then Some(dest)
    else if pattern[0] != '%' then Interpret(pattern[1..], msg, dest + [pattern[0]])
    else
      var (p, n) := ReadSpec(pattern[1..]);
      var rest := pattern[1 + n..];
      if rest == "" then Some(dest)
      else
        match FlagTo(rest[0], p, msg, dest)
        case None => None
        case Some(d) => Interpret(rest[1..], msg, d)
  }

  // ----- The compiler -----

  lemma {:induction false} ModIs(q: nat, r: nat)
    requires r < SIZE_MODULUS
    ensures (q * SIZE_MODULUS + r) % SIZE_MODULUS == r
  {
    if q > 0 {
      ModIs(q - 1, r);
      var x := (q - 1) * SIZE_MODULUS + r;
      assert q * SIZE_MODULUS + r == x + SIZE_MODULUS;
    }
  }

  lemma WrapDigit(a: nat, d: nat)
    ensures (a % SIZE_MODULUS * 10 + d) % SIZE_MODULUS == (a * 10 + d) % SIZE_MODULUS
  {
    var q, y := a / SIZE_MODULUS, a % SIZE_MODULUS * 10 + d;
    assert a * 10 + d == (10 * q + y / SIZE_MODULUS) * SIZE_MODULUS + y % SIZE_MODULUS;
    ModIs(10 * q + y / SIZE_MODULUS, y % SIZE_MODULUS);
  }

  lemma DigitCountIs(s: string, n: nat)
    requires n <= |s| && (n < |s| ==> !IsDigit(s[n])) && forall i :: 0 <= i < n ==> IsDigit(s[i])
    ensures DigitCount(s) == n
  {
  }

  /** Reads the digits from `at` on. */
  method ReadWidth(pattern: string, at: nat) returns (width: nat, next: nat)
    requires at <= |pattern|
    ensures at <= next <= |pattern| && next - at == DigitCount(pattern[at..])
    ensures width == FromDecimal(pattern[at..][..next - at]) % SIZE_MODULUS
  {
    width, next := 0, at;
    while next < |pattern| && IsDigit(pattern[next])
      invariant at <= next <= |pattern| && forall i :: at <= i < next ==> IsDigit(pattern[i])
      invariant width == FromDecimal(pattern[at..next]) % SIZE_MODULUS
    {
      assert pattern[at..next + 1][..next - at] == pattern[at..next];
      WrapDigit(FromDecimal(pattern[at..next]), DigitValue(pattern[next]));
      width := (width * 10 + DigitValue(pattern[next])) % SIZE_MODULUS;
      next := next + 1;
    }
    assert forall i :: 0 <= i < next - at ==> pattern[at..][i] == pattern[at + i];
    assert next < |pattern| ==> pattern[at..][next - at] == pattern[next];
    DigitCountIs(pattern[at..], next - at);
    assert pattern[at..][..next - at] == pattern[at..next];
  }

  lemma SliceOfRest(s: string, it: nat, k: nat)
    requires it + k <= |s|
    ensures s[it..][k..] == s[it + k..]
  {
  }

  /** Reads a padding specification from `it` on. */
  method HandlePadspec(pattern: string, it: nat) returns (padding: Padding, next: nat)
    requires it <= |pattern|
    ensures (padding, next - it) == ReadSpec(pattern[it..]) && it <= next <= |pattern|
  {
    hide FromDecimal, DigitCount, ReadSpec;
    next := it;
    if next == |pattern| {
      SpecUnfolds(pattern[it..], 0);
      DigitCountIs("", 0);
      return NO_PADDING, next;
    }
    var side := Left;
    if pattern[next] == '-' {
      side := Right;
      next := next + 1;
    } else if pattern[next] == '=' {
      side := Center;
      next := next + 1;
    }
    ghost var k := next - it;
    SliceOfRest(pattern, it, k);
    SpecUnfolds(pattern[it..], k);
    if next == |pattern| || !IsDigit(pattern[next]) {
      DigitCountIs(pattern[next..], 0);
      return NO_PADDING, next;
    }
    assert pattern[next..][0] == pattern[next];
    var width;
    width, next := ReadWidth(pattern, next);
    assert next > it + k;
    assert next < |pattern| ==> pattern[it..][next - it] == pattern[next];
    var truncate := next < |pattern| && pattern[next] == '!';
    if truncate {
      next := next + 1;
    }
    padding := Padding(if width < MAX_WIDTH then width else MAX_WIDTH, side, truncate, true);
  }

  /** `k` tells whether there is a side to read. */
  lemma SpecUnfolds(s: string, k: nat)
    requires k == if s != "" && (s[0] == '-' || s[0] == '=') then 1 else 0
    ensures var side := if k == 0 then Left else if s[0] == '-' then Right else Center;
            var n := DigitCount(s[k..]);
            ReadSpec(s) == if n == 0 then (NO_PADDING, k)
                           else
                             var width := FromDecimal(s[k..][..n]) % SIZE_MODULUS;
                             var truncate := k + n < |s| && s[k + n] == '!';
                             (Padding(if width < MAX_WIDTH then width else MAX_WIDTH, side, truncate, true),
                              k + n + if truncate then 1 else 0)
  {
    hide FromDecimal, DigitCount;
  }

  method HandleFlag(flag: char, padding: Padding) returns (fs: seq<Formatter>)
    requires padding.width <= MAX_WIDTH
    ensures forall f :: f in fs ==> NarrowEnough(f)
    ensures forall msg, dest :: FormatAll(fs, msg, dest) == FlagTo(flag, padding, msg, dest)
  {
    if flag == '+' {
      fs := [Full];
    } else if IsFieldFlag(flag) {
      fs := [Field(flag, padding)];
    } else if flag == '%' {
      fs := [Chars("%")];
    } else if flag == '^' || flag == '$' {
      fs := [Marker];
    } else if !padding.truncate {
      fs := [Chars(['%', flag])];
    } else {
      fs := [Field('!', padding.(truncate := false)), Chars([flag])];
    }
    forall msg, dest
      ensures FormatAll(fs, msg, dest) == FlagTo(flag, padding, msg, dest)
    {
      FormatOneOrTwo(fs, msg, dest);
    }
  }

  lemma FormatOneOrTwo(fs: seq<Formatter>, msg: Message, dest: string)
    ensures |fs| == 1 ==> FormatAll(fs, msg, dest) == FormatOne(fs[0], msg, dest)
    ensures |fs| == 2 ==> FormatAll(fs, msg, dest) == match FormatOne(fs[0], msg, dest)
                                                      case None => None
                                                      case Some(d) => FormatOne(fs[1], msg, d)
  {
    hide FormatOne;
    if |fs| == 2 {
      assert fs[1..][0] == fs[1];
    }
  }

  lemma {:induction false} FormatConcat(a: seq<Formatter>, b: seq<Formatter>, msg: Message, dest: string)
    ensures FormatAll(a + b, msg, dest) == match FormatAll(a, msg, dest)
                                           case None => None
                                           case Some(d) => FormatAll(b, msg, d)
  {
    hide FormatOne;
    if a == [] {
      assert a + b == b;
    } else {
      assert (a + b)[1..] == a[1..] + b;
      match FormatOne(a[0], msg, dest)
      case None =>
      case Some(d) => FormatConcat(a[1..], b, msg, d);
    }
  }

  /** The literal characters collected so far, as a formatter. */
  function Flushed(fs: seq<Formatter>, userChars: string): seq<Formatter> {
    if userChars == "" then fs else fs + [Chars(userChars)]
  }

  lemma FlushedText(fs: seq<Formatter>, userChars: string, msg: Message, dest: string)
    ensures FormatAll(Flushed(fs, userChars), msg, dest) == match FormatAll(fs, msg, dest)
                                                            case None => None
                                                            case Some(d) => Some(d + userChars)
  {
    FormatConcat(fs, [Chars(userChars)], msg, dest);
    match FormatAll(fs, msg, dest)
    case None =>
    case Some(d) =>
      FormatOneOrTwo([Chars(userChars)], msg, d);
      assert d + "" == d;
  }

  /** What is compiled does the beginning of the pattern's meaning, and `rest` means the remainder. */
  ghost predicate Prints(pattern: string, fs: seq<Formatter>, userChars: string, rest: string, msg: Message,
    dest: string) {
    Interpret(pattern, msg, dest) == match FormatAll(fs, msg, dest)
                                     case None => None
                                     case Some(d) => Interpret(rest, msg, d + userChars)
  }

  lemma PrintsChar(pattern: string, fs: seq<Formatter>, userChars: string, rest: string, msg: Message, dest: string)
    requires rest != "" && rest[0] != '%' && Prints(pattern, fs, userChars, rest, msg, dest)
    ensures Prints(pattern, fs, userChars + [rest[0]], rest[1..], msg, dest)
  {
    match FormatAll(fs, msg, dest)
    case None =>
    case Some(d) => assert d + (userChars + [rest[0]]) == d + userChars + [rest[0]];
  }

  lemma PrintsFlushed(pattern: string, fs: seq<Formatter>, userChars: string, rest: string, msg: Message, dest: string)
    requires Prints(pattern, fs, userChars, rest, msg, dest)
    ensures Prints(pattern, Flushed(fs, userChars), "", rest, msg, dest)
  {
    hide Interpret, FormatAll, Flushed;
    FlushedText(fs, userChars, msg, dest);
    match FormatAll(fs, msg, dest)
    case None =>
    case Some(d) => assert d + userChars + "" == d + userChars;
  }

  lemma PrintsFlag(pattern: string, fs: seq<Formatter>, more: seq<Formatter>, rest: string, after: string,
    msg: Message, dest: string)
    requires Prints(pattern, fs, "", rest, msg, dest)
    requires forall d :: CompilesTo(rest, more, after, msg, d)
    ensures Prints(pattern, fs + more, "", after, msg, dest)
  {
    hide Interpret, FormatAll;
    FormatConcat(fs, more, msg, dest);
    match FormatAll(fs, msg, dest)
    case None =>
    case Some(d) =>
      assert d + "" == d && CompilesTo(rest, more, after, msg, d);
      match FormatAll(more, msg, d)
      case None =>
      case Some(e) => assert e + "" == e;
  }

  /** From the same destination, `rest` means what `more` does, and then what `after` means. */
  ghost predicate CompilesTo(rest: string, more: seq<Formatter>, after: string, msg: Message, dest: string) {
    Interpret(rest, msg, dest) == match FormatAll(more, msg, dest)
                                  case None => None
                                  case Some(d) => Interpret(after, msg, d)
  }

  /** The "%" at `it`: its padding, its flag if there is one, and where to go on. */
  method CompileFlag(pattern: string, it: nat) returns (more: seq<Formatter>, next: nat)
    requires it < |pattern| && pattern[it] == '%'
    ensures it < next <= |pattern| && forall f :: f in more ==> NarrowEnough(f)
    ensures forall msg, dest :: CompilesTo(pattern[it..], more, pattern[next..], msg, dest)
  {
    hide FlagTo, FormatAll, ReadSpec;
    var padding, flagAt := HandlePadspec(pattern, it + 1);
    ghost var rest := pattern[it..];
    assert rest[1..] == pattern[it + 1..] && rest[1 + (flagAt - (it + 1))..] == pattern[flagAt..];
    if flagAt < |pattern| {
      more := HandleFlag(pattern[flagAt], padding);
      next := flagAt + 1;
      assert pattern[flagAt..][1..] == pattern[next..];
    } else {
      more, next := [], |pattern|;
      NoFormatters();
    }
  }

  lemma NoFormatters()
    ensures forall msg, dest :: FormatAll([], msg, dest) == Some(dest)
  {
  }

  /** Compiling preserves meaning: for every pattern, message and destination, running the compiled
      formatters does what the pattern says. */
  method CompilePattern(pattern: string) returns (formatters: seq<Formatter>)
    ensures forall f :: f in formatters ==> NarrowEnough(f)
    ensures forall msg, dest :: FormatAll(formatters, msg, dest) == Interpret(pattern, msg, dest)
  {
    hide Interpret, FormatAll;
    formatters := [];
    var userChars := "";
    var it := 0;
    ghost var all := pattern[0..];
    forall msg, dest
      ensures Prints(pattern, formatters, "", all, msg, dest)
    {
      NothingCompiled(pattern, msg, dest);
    }
    while it < |pattern|
      invariant it <= |pattern| && forall f :: f in formatters ==> NarrowEnough(f)
      invariant forall msg, dest :: Prints(pattern, formatters, userChars, pattern[it..], msg, dest)
    {
      ghost var rest := pattern[it..];
      if pattern[it] == '%' {
        var more, next := CompileFlag(pattern, it);
        ghost var before, chars, after := formatters, userChars, pattern[next..];
        formatters, userChars := Flushed(formatters, userChars) + more, "";
        it := next;
        forall msg, dest
          ensures Prints(pattern, formatters, "", after, msg, dest)
        {
          PrintsFlushed(pattern, before, chars, rest, msg, dest);
          PrintsFlag(pattern, Flushed(before, chars), more, rest, after, msg, dest);
        }
      } else {
        ghost var before := userChars;
        userChars := userChars + [pattern[it]];
        it := it + 1;
        ghost var after := pattern[it..];
        assert rest[1..] == after;
        forall msg, dest
          ensures Prints(pattern, formatters, userChars, after, msg, dest)
        {
          PrintsChar(pattern, formatters, before, rest, msg, dest);
        }
      }
    }
    assert pattern[it..] == "";
    ghost var compiled := formatters;
    formatters := Flushed(formatters, userChars);
    forall msg, dest
      ensures FormatAll(formatters, msg, dest) == Interpret(pattern, msg, dest)
    {
      AllCompiled(pattern, compiled, userChars, msg, dest);
    }
  }

  lemma NothingCompiled(pattern: string, msg: Message, dest: string)
    ensures Prints(pattern, [], "", pattern[0..], msg, dest)
  {
    assert pattern[0..] == pattern && dest + "" == dest;
  }

  lemma AllCompiled(pattern: string, fs: seq<Formatter>, userChars: string, msg: Message, dest: string)
    requires Prints(pattern, fs, userChars, "", msg, dest)
    ensures FormatAll(Flushed(fs, userChars), msg, dest) == Interpret(pattern, msg, dest)
  {
    FlushedText(fs, userChars, msg, dest);
  }

  /** Setting a pattern and formatting a message: what happens to the buffer is what the pattern means,
      followed by the line end. */
  method SetPatternAndFormat(pattern: string, msg: Message, eol: string, dest: MemoryBuf) returns (ok: bool)
    modifies dest
    ensures match Interpret(pattern, msg, old(dest.text))
            case None => !ok
            case Some(r) => ok && dest.text == r + eol
  {
    var formatters := CompilePattern(pattern);
    ok := Format(formatters, msg, eol, dest);
  }

  // ----- When earlier output stays -----

  /** What happens to the end of a destination does not depend on what stands before it. */
  lemma PadBehind(earlier: string, dest: string, text: string, size: nat, p: Padding)
    requires PadTo(dest, text, size, p).Some?
    ensures PadTo(earlier + dest, text, size, p) == Some(earlier + PadTo(dest, text, size, p).value)
  {
    if size >= p.width {
      var cut := Cut(size, p);
      assert earlier + dest + text == earlier + (dest + text);
      assert (earlier + (dest + text))[..|earlier| + |dest + text| - cut]
             == earlier + (dest + text)[..|dest + text| - cut];
    } else {
      AmongBehind(earlier, dest, Among(text, p.width - size, p.side));
    }
  }

  lemma AmongBehind(a: string, b: string, c: string)
    ensures a + b + c == a + (b + c)
  {
  }

  lemma {:induction false} FieldBehind(earlier: string, dest: string, flag: char, texts: seq<string>, p: Padding)
    requires FieldTo(dest, flag, texts, p).Some?
    ensures FieldTo(earlier + dest, flag, texts, p) == Some(earlier + FieldTo(dest, flag, texts, p).value)
    decreases |texts|
  {
    hide PadTo;
    if texts != [] {
      if p.enabled {
        PadBehind(earlier, dest, texts[0], Announced(flag, texts[0]), p);
      } else {
        AmongBehind(earlier, dest, texts[0]);
      }
      FieldBehind(earlier, TextTo(dest, flag, texts[0], p).value, flag, texts[1..], p);
    }
  }

  lemma FlagBehind(earlier: string, dest: string, flag: char, p: Padding, msg: Message)
    requires FlagTo(flag, p, msg, dest).Some?
    ensures FlagTo(flag, p, msg, earlier + dest) == Some(earlier + FlagTo(flag, p, msg, dest).value)
  {
    hide FieldTo;
    AmongBehind(earlier, dest, msg.full);
    AmongBehind(earlier, dest, "%");
    AmongBehind(earlier, dest, ['%', flag]);
    if IsFieldFlag(flag) {
      if flag != '+' {
        FieldBehind(earlier, dest, flag, msg.texts(flag), p);
      }
    } else if flag != '+' && flag != '%' && flag != '^' && flag != '$' && p.truncate {
      FieldBehind(earlier, dest, '!', msg.texts('!'), p.(truncate := false));
      AmongBehind(earlier, FieldTo(dest, '!', msg.texts('!'), p.(truncate := false)).value, [flag]);
    }
  }

  lemma {:induction false} PatternBehind(earlier: string, dest: string, pattern: string, msg: Message)
    requires Interpret(pattern, msg, dest).Some?
    ensures Interpret(pattern, msg, earlier + dest) == Some(earlier + Interpret(pattern, msg, dest).value)
    decreases |pattern|
  {
    hide FlagTo, ReadSpec;
    if pattern != "" {
      if pattern[0] != '%' {
        AmongBehind(earlier, dest, [pattern[0]]);
        PatternBehind(earlier, dest + [pattern[0]], pattern[1..], msg);
      } else {
        var (p, n) := ReadSpec(pattern[1..]);
        var rest := pattern[1 + n..];
        if rest != "" {
          FlagBehind(earlier, dest, rest[0], p, msg);
          PatternBehind(earlier, FlagTo(rest[0], p, msg, dest).value, rest[1..], msg);
        }
      }
    }
  }

  /** The pattern does its work on any destination and leaves what stood there. */
  ghost predicate KeepsEarlier(pattern: string, msg: Message) {
    forall dest: string :: Interpret(pattern, msg, dest).Some? && dest <= Interpret(pattern, msg, dest).value
  }

  /** It does exactly when it can be run on an empty buffer: when no field cuts off more than the pattern has
      printed by then. What it prints is then the same everywhere. */
  lemma KeepsEarlierIff(pattern: string, msg: Message)
    ensures KeepsEarlier(pattern, msg) <==> Interpret(pattern, msg, "").Some?
    ensures Interpret(pattern, msg, "").Some? ==>
              forall dest :: Interpret(pattern, msg, dest) == Some(dest + Interpret(pattern, msg, "").value)
  {
    hide Interpret;
    if Interpret(pattern, msg, "").Some? {
      forall dest: string
        ensures Interpret(pattern, msg, dest) == Some(dest + Interpret(pattern, msg, "").value)
      {
        PatternBehind(dest, "", pattern, msg);
        assert dest + "" == dest;
      }
    }
  }

  // ----- Which fields announce more than they print -----

  /** Every flag prints one text, but "&" one for each pair. */
  ghost predicate Shaped(msg: Message) {
    forall flag :: IsFieldFlag(flag) && flag != '&' ==> |msg.texts(flag)| == 1
  }

  ghost predicate NeverShort(msg: Message) {
    forall flag, text :: IsFieldFlag(flag) && text in msg.texts(flag) ==> Announced(flag, text) <= |text|
  }

  lemma {:induction false} LongTextsDoNotFail(dest: string, flag: char, texts: seq<string>, p: Padding)
    requires forall text :: text in texts ==> Announced(flag, text) <= |text|
    ensures FieldTo(dest, flag, texts, p).Some?
    decreases |texts|
  {
    hide Announced;
    if texts != [] {
      assert texts[0] in texts;
      LongTextsDoNotFail(TextTo(dest, flag, texts[0], p).value, flag, texts[1..], p);
    }
  }

  lemma NeverShortFlag(flag: char, p: Padding, msg: Message, dest: string)
    requires NeverShort(msg)
    ensures FlagTo(flag, p, msg, dest).Some?
  {
    SomeFlags();
    hide FieldTo, Announced, IsFieldFlag;
    if IsFieldFlag(flag) {
      LongTextsDoNotFail(dest, flag, msg.texts(flag), p);
    } else {
      LongTextsDoNotFail(dest, '!', msg.texts('!'), p.(truncate := false));
    }
  }

  lemma SomeFlags()
    ensures !IsFieldFlag('+') && IsFieldFlag('!') && IsFieldFlag('D')
    ensures forall text :: Announced('&', text) == |text| && Announced('D', text) == 10
  {
  }

  lemma {:induction false} NeverShortDoesNotFail(pattern: string, msg: Message, dest: string)
    requires NeverShort(msg)
    ensures Interpret(pattern, msg, dest).Some?
    decreases |pattern|
  {
    hide ReadSpec, FlagTo, NeverShort;
    if pattern != "" {
      if pattern[0] != '%' {
        NeverShortDoesNotFail(pattern[1..], msg, dest + [pattern[0]]);
      } else {
        var (p, n) := ReadSpec(pattern[1..]);
        var rest := pattern[1 + n..];
        if rest != "" {
          NeverShortFlag(rest[0], p, msg, dest);
          NeverShortDoesNotFail(rest[1..], msg, FlagTo(rest[0], p, msg, dest).value);
        }
      }
    }
  }

  /** A flag that prints one text. */
  lemma OneTextFlag(flag: char, text: string, p: Padding, msg: Message, dest: string)
    requires IsFieldFlag(flag) && msg.texts(flag) == [text]
    ensures FlagTo(flag, p, msg, dest) == TextTo(dest, flag, text, p)
  {
    SomeFlags();
    hide IsFieldFlag, Announced, PadTo;
    assert [text][1..] == [];
    match TextTo(dest, flag, text, p)
    case None =>
    case Some(d) => assert FieldTo(d, flag, [], p) == Some(d);
  }

  /** A truncating specification of one digit. */
  lemma TruncatingSpec(w: nat, flag: char, more: string)
    requires w < 10
    ensures var s := [DigitChar(w), '!', flag] + more;
            ReadSpec(s) == (Padding(w, Left, true, true), 2) && s[2..] == [flag] + more
  {
    var s := [DigitChar(w), '!', flag] + more;
    assert s[0] == DigitChar(w) && s[1] == '!';
    DigitCountIs(s, 1);
    assert s[0..] == s && s[..1] == [DigitChar(w)];
    assert FromDecimal([DigitChar(w)]) == w by {
      assert [DigitChar(w)][..0] == "";
    }
  }

  /** Of all that a flag prints, nothing is left when it is cut to width 0. */
  function CutAway(flag: char): string {
    ['%', DigitChar(0), '!', flag]
  }

  lemma ShortFieldFails(flag: char, text: string, msg: Message)
    requires IsFieldFlag(flag) && msg.texts(flag) == [text] && Announced(flag, text) > |text|
    ensures Interpret(CutAway(flag), msg, "") == None
  {
    hide IsFieldFlag, Announced;
    TruncatingSpec(0, flag, "");
    OneTextFlag(flag, text, Padding(0, Left, true, true), msg, "");
    var s := [DigitChar(0), '!', flag] + "";
    assert CutAway(flag)[1..] == s && CutAway(flag)[3..] == s[2..];
    hide ReadSpec, FlagTo;
  }

  lemma ShortTextLoses(flag: char, text: string, msg: Message)
    requires Shaped(msg) && IsFieldFlag(flag) && text in msg.texts(flag) && Announced(flag, text) > |text|
    ensures !KeepsEarlier(CutAway(flag), msg)
  {
    SomeFlags();
    hide IsFieldFlag, Announced, Interpret;
    assert msg.texts(flag) == [text];
    ShortFieldFails(flag, text, msg);
  }

  /** Earlier output stays under every pattern exactly when no flag announces more than it prints. */
  lemma AllPatternsKeepIff(msg: Message)
    requires Shaped(msg)
    ensures (forall pattern :: KeepsEarlier(pattern, msg)) <==> NeverShort(msg)
  {
    hide Interpret, Announced, KeepsEarlier, IsFieldFlag, Shaped;
    if NeverShort(msg) {
      forall pattern
        ensures KeepsEarlier(pattern, msg)
      {
        NeverShortDoesNotFail(pattern, msg, "");
        KeepsEarlierIff(pattern, msg);
      }
    } else {
      var flag, text :| IsFieldFlag(flag) && text in msg.texts(flag) && Announced(flag, text) > |text|;
      ShortTextLoses(flag, text, msg);
    }
  }

  // The date flags announce 10 characters, and print 8.

  function TwoDigits(n: nat): (s: string)
    requires n < 100
    ensures |s| == 2
  {
    [DigitChar(n / 10), DigitChar(n % 10)]
  }

  function ShortDate(month: nat, day: nat, year: nat): (s: string)
    requires month <= 12 && day <= 31 && year < 100
    ensures |s| == 8
  {
    TwoDigits(month) + "/" + TwoDigits(day) + "/" + TwoDigits(year)
  }

  ghost predicate HasDate(msg: Message, date: string) {
    msg.texts('D') == [date]
    && exists month: nat, day: nat, year: nat ::
         month <= 12 && day <= 31 && year < 100 && date == ShortDate(month, day, year)
  }

  lemma DateFlag(p: Padding, msg: Message, date: string, dest: string)
    requires HasDate(msg, date) && p.enabled
    ensures |date| == 8 && FlagTo('D', p, msg, dest) == PadTo(dest, date, 10, p)
  {
    SomeFlags();
    OneTextFlag('D', date, p, msg, dest);
    hide IsFieldFlag, Announced, FlagTo, PadTo;
  }

  /** A pattern that begins with a date, cut to one digit's width. */
  lemma CutDate(pattern: string, w: nat, msg: Message, date: string, dest: string)
    requires w < 10 && HasDate(msg, date)
    requires |pattern| >= 4 && pattern[0] == '%' && pattern[1] == DigitChar(w) && pattern[2] == '!' && pattern[3] == 'D'
    ensures |date| == 8
    ensures Interpret(pattern, msg, dest) == if |dest| + w < 2 then None
                                             else Interpret(pattern[4..], msg, (dest + date)[..|dest| + w - 2])
  {
    var s := [DigitChar(w), '!', 'D'] + pattern[4..];
    TruncatingSpec(w, 'D', pattern[4..]);
    DateFlag(Padding(w, Left, true, true), msg, date, dest);
    hide ReadSpec, FlagTo, HasDate;
    assert pattern[1..] == s;
    assert pattern[3..] == s[2..] == ['D'] + pattern[4..];
  }

  /** "[%1!D]": the date takes the bracket before it away, so that only the closing one is printed. */
  lemma DateCutsBracket(msg: Message, date: string, dest: string)
    requires HasDate(msg, date)
    ensures Interpret("[%1!D]", msg, dest) == Some(dest + "]")
  {
    hide HasDate, ReadSpec, FlagTo;
    CutDate("%1!D]", 1, msg, date, dest + "[");
    assert "[%1!D]"[1..] == "%1!D]" && "%1!D]"[4..] == "]" && "]"[1..] == "";
    assert (dest + "[" + date)[..|dest|] == dest;
  }

  /** "%1!D": it takes away a character of what was written before, and fails if there is none. */
  lemma DateCutsEarlier(msg: Message, date: string, dest: string)
    requires HasDate(msg, date)
    ensures Interpret("%1!D", msg, dest) == if dest == "" then None else Some(dest[..|dest| - 1])
  {
    hide HasDate, ReadSpec, FlagTo;
    CutDate("%1!D", 1, msg, date, dest);
    assert "%1!D"[4..] == "";
    assert dest != "" ==> (dest + date)[..|dest| - 1] == dest[..|dest| - 1];
  }

  /** "%10D" adds eight characters and not ten, and "%5!D" three and not five. */
  lemma DateIsNotPadded(msg: Message, date: string, dest: string)
    requires HasDate(msg, date)
    ensures FlagTo('D', Padding(10, Left, false, true), msg, dest) == Some(dest + date)
    ensures FlagTo('D', Padding(5, Left, true, true), msg, dest) == Some(dest + date[..3])
  {
    DateFlag(Padding(10, Left, false, true), msg, date, dest);
    DateFlag(Padding(5, Left, true, true), msg, date, dest);
    hide FlagTo, HasDate;
    assert (dest + date)[..|dest| + |date|] == dest + date;
    assert (dest + date)[..|dest| + |date| - 5] == dest + date[..3];
  }
}
