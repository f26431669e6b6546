/** How the header lines of an entry end, and when that depends on the way they are split into chunks: the
    parser measures a line only when a chunk begins with it (or in it), or when it is an entry's first. */
module MultipartHeaderLines {
  import opened Prelude
  import opened Text
  import opened MultipartHeader
  import opened MultipartParser
  import opened MultipartMachine

  /** The header callback is made (`Complete`), or more bytes are needed, or a line is refused for what it
      says, or a line is so long that the parser may refuse it. */
  datatype Ending = Complete | Incomplete | Refused | Long

  function HeaderEnding(s: string, file: FileInfo): Ending
    decreases |s|
  {
    var pos := Find(s, CRLF);
    if |s| > HEADER_MAX && pos >= HEADER_MAX then Long
    else if pos == |s| then Incomplete
    else if pos == 0 then Complete
    else
      match ApplyHeaderLine(s[..pos], file)
      case None => Refused
      case Some(next) => HeaderEnding(s[pos + 2..], next)
  }

  // ----- Callbacks already made stay made -----

  lemma HeaderLinesLog(p: Parser, answer: Answer)
    requires p.stage == 2
    ensures match HeaderLines(p, answer)
            case Return(_, final) => p.log <= final.log
            case Again(next) => p.log <= next.log
    decreases |p.pending|
  {
    var pos := Find(p.pending, CRLF);
    if pos < |p.pending| {
      match HeaderTurn(p, pos, answer)
      case Return(_, _) =>
      case Again(next) =>
        if next.stage != 3 {
          HeaderLinesLog(next, answer);
        }
    }
  }

  lemma TurnLog(boundary: string, p: Parser, answer: Answer)
    requires p.pending != ""
    ensures match TakeTurn(boundary, p, answer)
            case Return(_, final) => p.log <= final.log
            case Again(next) => p.log <= next.log
  {
    if p.stage == 2 {
      HeaderLinesLog(p, answer);
    }
    hide HeaderLines, Find;
  }

  lemma {:induction false} LoopLog(boundary: string, p: Parser, answer: Answer)
    ensures p.log <= Loop(boundary, p, answer).1.log
    decreases |p.pending| + Rank(p)
  {
    hide TakeTurn;
    if p.pending != "" {
      TurnLog(boundary, p, answer);
      match TakeTurn(boundary, p, answer)
      case Return(_, _) =>
      case Again(next) => LoopLog(boundary, next, answer);
    }
  }

  lemma {:induction false} LogGrows(boundary: string, p: Parser, chunks: seq<string>, answer: Answer)
    ensures p.log <= ParseAll(boundary, p, chunks, answer).1.log
    decreases |chunks|
  {
    if chunks != [] {
      LoopLog(boundary, p.(pending := p.pending + chunks[0]), answer);
      LogGrows(boundary, Parse(boundary, p, chunks[0], answer).1, chunks[1..], answer);
    }
  }

  // ----- Header lines, one chunk -----

  /** Bytes without a line end are all of them part of the line that they begin. */
  lemma NoLineEndYet(s: string, rest: string)
    requires Find(s, CRLF) == |s|
    ensures Find(s + rest, CRLF) + 1 >= |s|
  {
    var pos := Find(s + rest, CRLF);
    FindIsFirst(s, CRLF);
    FindIsFirst(s + rest, CRLF);
    if pos + 1 < |s| {
      OccursInPrefix(s, CRLF, rest, pos);
    }
  }

  /** `e` says how the header lines in `s` and the bytes after it end; `t` is what the parser does on `s`. */
  ghost predicate TurnFits(p: Parser, t: Turn, rest: string, e: Ending) {
    match t
    case Again(next) => e == Complete && p.log < next.log
    case Return(ok, final) =>
      if ok then
        && final.stage == 2 && final.log == p.log && final.valid == p.valid
        && Find(final.pending, CRLF) == |final.pending| <= HEADER_MAX
        && HeaderEnding(final.pending + rest, final.file) == e
      else !final.valid && if e == Refused then final.log == p.log else e == Complete && p.log < final.log
  }

  lemma EmptyLineFits(p: Parser, rest: string, answer: Answer)
    requires p.stage == 2 && p.pending != "" && Find(p.pending, CRLF) == 0
    ensures TurnFits(p, HeaderTurn(p, 0, answer), rest, Complete)
    ensures HeaderTurn(p, 0, answer).Again? ==> HeaderTurn(p, 0, answer).next.stage == 3
  {
  }

  lemma WaitingFits(p: Parser, rest: string, answer: Answer)
    requires p.stage == 2 && Find(p.pending, CRLF) == |p.pending|
    requires HeaderEnding(p.pending + rest, p.file) != Long
    ensures TurnFits(p, Return(true, p), rest, HeaderEnding(p.pending + rest, p.file))
  {
    NoLineEndYet(p.pending, rest);
  }

  /** The ending is that of the bytes behind a line that is accepted. */
  lemma EndingAfterLine(s: string, rest: string, file: FileInfo)
    requires 0 < Find(s, CRLF) < |s| && HeaderEnding(s + rest, file) != Long
    ensures var pos := Find(s, CRLF);
            HeaderEnding(s + rest, file)
            == match ApplyHeaderLine(s[..pos], file)
               case None => Refused
               case Some(next) => HeaderEnding(s[pos + 2..] + rest, next)
  {
    hide Find, ApplyHeaderLine, HeaderEnding;
    var pos := Find(s, CRLF);
    FindExtends(s, CRLF, rest);
    EndingUnfolds(s + rest, file);
    assert (s + rest)[..pos] == s[..pos];
    assert (s + rest)[pos + 2..] == s[pos + 2..] + rest;
  }

  lemma EndingUnfolds(s: string, file: FileInfo)
    requires 0 < Find(s, CRLF) < |s|
    ensures HeaderEnding(s, file)
         == if |s| > HEADER_MAX && Find(s, CRLF) >= HEADER_MAX then Long
            else
              match ApplyHeaderLine(s[..Find(s, CRLF)], file)
              case None => Refused
              case Some(next) => HeaderEnding(s[Find(s, CRLF) + 2..], next)
  {
    hide Find, ApplyHeaderLine;
  }

  lemma {:induction false} HeaderLinesFit(p: Parser, rest: string, answer: Answer)
    requires p.stage == 2 && HeaderEnding(p.pending + rest, p.file) != Long
    ensures TurnFits(p, HeaderLines(p, answer), rest, HeaderEnding(p.pending + rest, p.file))
    decreases |p.pending|
  {
    hide HeaderEnding, Find, ApplyHeaderLine;
    var pos := Find(p.pending, CRLF);
    if pos == |p.pending| {
      WaitingFits(p, rest, answer);
    } else if pos == 0 {
      EmptyLineFits(p, rest, answer);
      EndsAtEmptyLine(p.pending, rest, p.file);
    } else {
      EndingAfterLine(p.pending, rest, p.file);
      match HeaderTurn(p, pos, answer)
      case Return(_, _) =>
      case Again(next) => HeaderLinesFit(next, rest, answer);
    }
  }

  lemma EndsAtEmptyLine(s: string, rest: string, file: FileInfo)
    requires s != "" && Find(s, CRLF) == 0
    ensures HeaderEnding(s + rest, file) == Complete
  {
    FindExtends(s, CRLF, rest);
  }

  // ----- Header lines in any chunks -----

  /** The parser waits at the beginning of an entry, or in its header. */
  ghost predicate InHeader(p: Parser) {
    (p.stage == 1 && p.pending == "") || (p.stage == 2 && Find(p.pending, CRLF) == |p.pending| <= HEADER_MAX)
  }

  function FileOf(p: Parser): FileInfo {
    if p.stage == 1 then NO_FILE else p.file
  }

  /** What becomes of the parser: callbacks are made exactly if the header is complete. */
  ghost predicate Ends(p: Parser, e: Ending, ok: bool, final: Parser) {
    match e
    case Complete => p.log < final.log
    case Incomplete => ok && final.log == p.log && final.valid == p.valid
    case Refused => !ok && !final.valid && final.log == p.log
    case Long => true
  }

  /** Measuring a line does not refuse it, unless it is long. */
  lemma MeasuredLine(s: string, rest: string, file: FileInfo)
    requires HeaderEnding(s + rest, file) != Long
    ensures Find(s, CRLF) <= HEADER_MAX
  {
    if Find(s, CRLF) < |s| {
      FindExtends(s, CRLF, rest);
    } else {
      NoLineEndYet(s, rest);
    }
  }

  lemma HeaderChunk(boundary: string, p: Parser, rest: string, answer: Answer)
    requires p.stage == 2 && p.pending != "" && HeaderEnding(p.pending + rest, p.file) != Long
    ensures var t := HeaderLines(p, answer);
            TakeTurn(boundary, p, answer) == t && TurnFits(p, t, rest, HeaderEnding(p.pending + rest, p.file))
  {
    MeasuredLine(p.pending, rest, p.file);
    HeaderLinesFit(p, rest, answer);
    hide HeaderEnding, HeaderLines, Find;
  }

  /** A header, in any chunks: unless a line is long, the split does not matter. */
  lemma {:induction false} HeaderInChunks(boundary: string, p: Parser, chunks: seq<string>, answer: Answer)
    requires InHeader(p) && HeaderEnding(p.pending + Joined(chunks), FileOf(p)) != Long
    ensures var (ok, final) := ParseAll(boundary, p, chunks, answer);
            Ends(p, HeaderEnding(p.pending + Joined(chunks), FileOf(p)), ok, final)
    decreases |chunks|
  {
    if chunks == [] {
      assert p.pending + "" == p.pending;
    } else {
      var q, rest := p.(pending := p.pending + chunks[0]), Joined(chunks[1..]);
      assert q.pending + rest == p.pending + Joined(chunks);
      hide HeaderEnding, Find, TakeTurn, HeaderLines;
      if q.pending == "" {
        HeaderInChunks(boundary, q, chunks[1..], answer);
      } else {
        var r := q.(stage := 2, file := FileOf(p));
        EntryBegins(boundary, q, answer);
        HeaderChunk(boundary, r, rest, answer);
        LoopUnfolds(boundary, r, answer);
        match HeaderLines(r, answer)
        case Again(next) =>
          LoopLog(boundary, next, answer);
          LogGrows(boundary, Loop(boundary, next, answer).1, chunks[1..], answer);
        case Return(ok, final) =>
          if ok {
            HeaderInChunks(boundary, final, chunks[1..], answer);
          }
      }
    }
  }

  lemma EntryBegins(boundary: string, q: Parser, answer: Answer)
    requires q.pending != "" && (q.stage == 1 || q.stage == 2)
    ensures Loop(boundary, q, answer) == Loop(boundary, q.(stage := 2, file := FileOf(q)), answer)
  {
    LoopUnfolds(boundary, q, answer);
    assert q.stage == 2 ==> q.(stage := 2, file := FileOf(q)) == q;
  }

  // ----- Long header lines -----

  /** A first line of more than 8192 bytes is refused in any chunks, and nothing is delivered. */
  lemma {:induction false} LongFirstLineIsRefused(boundary: string, p: Parser, chunks: seq<string>, answer: Answer)
    requires InHeader(p) && Find(p.pending + Joined(chunks), CRLF) > 8192
    ensures var (ok, final) := ParseAll(boundary, p, chunks, answer); !ok && final.log == p.log
    decreases |chunks|
  {
    assert p.pending + "" == p.pending;
    if chunks != [] {
      var q, rest := p.(pending := p.pending + chunks[0]), Joined(chunks[1..]);
      assert q.pending + rest == p.pending + Joined(chunks);
      if q.pending != "" {
        var r := q.(stage := 2, file := FileOf(p));
        EntryBegins(boundary, q, answer);
        LoopUnfolds(boundary, r, answer);
        if Find(q.pending, CRLF) < |q.pending| {
          FindExtends(q.pending, CRLF, rest);
        } else if |q.pending| <= HEADER_MAX {
          assert HeaderLines(r, answer) == Return(true, r);
          LongFirstLineIsRefused(boundary, r, chunks[1..], answer);
        }
      } else {
        LongFirstLineIsRefused(boundary, q, chunks[1..], answer);
      }
    }
  }

  predicate IsLine(line: string) {
    line != "" && Find(line + CRLF, CRLF) == |line|
  }

  function LinesText(lines: seq<string>): string {
    if lines == [] then "" else lines[0] + CRLF + LinesText(lines[1..])
  }

  /** The file information after these lines; `None` if one is refused. */
  function FileAfter(lines: seq<string>, file: FileInfo): Option<FileInfo> {
    if lines == [] then Some(file)
    else
      match ApplyHeaderLine(lines[0], file)
      case None => None
      case Some(next) => FileAfter(lines[1..], next)
  }

  ghost predicate AreLines(lines: seq<string>) {
    forall k :: 0 <= k < |lines| ==> IsLine(lines[k])
  }

  lemma FirstOfLines(lines: seq<string>)
    requires AreLines(lines) && lines != []
    ensures var s := LinesText(lines);
            0 < Find(s, CRLF) == |lines[0]| < |s| && s[..|lines[0]|] == lines[0]
                && s[|lines[0]| + 2..] == LinesText(lines[1..])
  {
    FindExtends(lines[0] + CRLF, CRLF, LinesText(lines[1..]));
  }

  lemma {:induction false} ShortLinesEnd(lines: seq<string>, file: FileInfo)
    requires AreLines(lines) && FileAfter(lines, file).Some? && forall k :: 0 <= k < |lines| ==> |lines[k]| < HEADER_MAX
    ensures HeaderEnding(LinesText(lines), file) == Incomplete
  {
    if lines != [] {
      FirstOfLines(lines);
      ShortLinesEnd(lines[1..], ApplyHeaderLine(lines[0], file).value);
    }
  }

  /** Lines that come in one chunk are not measured. */
  lemma {:induction false} LinesPass(p: Parser, lines: seq<string>, answer: Answer)
    requires p.stage == 2 && p.pending == LinesText(lines) && AreLines(lines) && FileAfter(lines, p.file).Some?
    ensures HeaderLines(p, answer) == Return(true, p.(pending := "", file := FileAfter(lines, p.file).value))
    decreases |lines|
  {
    if lines != [] {
      FirstOfLines(lines);
      hide Find, ApplyHeaderLine;
      LinesPass(p.(file := ApplyHeaderLine(lines[0], p.file).value, pending := LinesText(lines[1..])), lines[1..],
          answer);
    }
  }

  /** But the first of an entry is. */
  lemma OneChunkPasses(boundary: string, p: Parser, lines: seq<string>, answer: Answer)
    requires p.stage == 1 && p.pending == "" && AreLines(lines) && FileAfter(lines, NO_FILE).Some?
    requires lines != [] ==> |lines[0]| <= HEADER_MAX
    ensures Parse(boundary, p, LinesText(lines), answer)
         == (true, if lines == [] then p else p.(stage := 2, pending := "", file := FileAfter(lines, NO_FILE).value))
  {
    hide ApplyHeaderLine;
    var q := p.(pending := p.pending + LinesText(lines));
    assert q.pending == LinesText(lines);
    if lines != [] {
      FirstOfLines(lines);
      EntryBegins(boundary, q, answer);
      var r := q.(stage := 2, file := NO_FILE);
      LinesPass(r, lines, answer);
      LoopUnfolds(boundary, r, answer);
      hide HeaderLines, Find, FileAfter, LinesText;
    }
  }

  /** A line with the first half of its line end, at the beginning of a chunk, is measured. */
  lemma LongLineIsMeasured(boundary: string, p: Parser, line: string, answer: Answer)
    requires (p.stage == 1 || p.stage == 2) && p.pending == "" && IsLine(line) && |line| >= HEADER_MAX
    ensures !Parse(boundary, p, line + "\r", answer).0
  {
    var s, q := line + "\r", p.(pending := p.pending + (line + "\r"));
    FindIsFirst(line + CRLF, CRLF);
    assert line + CRLF == s + "\n";
    forall i | 0 <= i < |s|
      ensures !OccursAt(s, CRLF, i)
    {
      if i + 2 <= |s| {
        OccursInPrefix(s, CRLF, "\n", i);
      }
    }
    FindIs(s, CRLF, |s|);
    assert q.pending == s;
    EntryBegins(boundary, q, answer);
    LoopUnfolds(boundary, q.(stage := 2, file := FileOf(q)), answer);
  }

  lemma {:induction false} LinesTextOfTwo(a: seq<string>, b: seq<string>)
    ensures LinesText(a + b) == LinesText(a) + LinesText(b)
  {
    if a == [] {
      assert a + b == b;
    } else {
      assert (a + b)[1..] == a[1..] + b;
      LinesTextOfTwo(a[1..], b);
    }
  }

  lemma {:induction false} FileAfterPart(lines: seq<string>, k: nat, file: FileInfo)
    requires k <= |lines| && FileAfter(lines, file).Some?
    ensures FileAfter(lines[..k], file).Some?
  {
    if k > 0 {
      FileAfterPart(lines[1..], k - 1, ApplyHeaderLine(lines[0], file).value);
      assert lines[..k][1..] == lines[1..][..k - 1];
    }
  }

  /** The chunk ends before line `k`, and again within its line end. */
  function CutAt(lines: seq<string>, k: nat): seq<string>
    requires k < |lines|
  {
    [LinesText(lines[..k]), lines[k] + "\r", "\n" + LinesText(lines[k + 1..])]
  }

  lemma CutIsSplit(lines: seq<string>, k: nat)
    requires k < |lines|
    ensures Joined(CutAt(lines, k)) == LinesText(lines)
  {
    var a, b, c := LinesText(lines[..k]), lines[k] + "\r", "\n" + LinesText(lines[k + 1..]);
    LinesTextOfTwo(lines[..k], lines[k..]);
    assert lines[..k] + lines[k..] == lines && lines[k..][1..] == lines[k + 1..];
    LineEndCut(lines[k], LinesText(lines[k + 1..]));
    assert LinesText(lines[k..]) == b + c;
    hide LinesText;
    JoinedThree(a, b, c);
  }

  lemma LineEndCut(line: string, rest: string)
    ensures line + CRLF + rest == (line + "\r") + ("\n" + rest)
  {
  }

  lemma JoinedThree(a: string, b: string, c: string)
    ensures Joined([a, b, c]) == a + (b + c)
  {
    assert [a, b, c][1..] == [b, c] && [b, c][1..] == [c] && [c][1..] == [];
    assert Joined([c]) == c;
    assert Joined([b, c]) == b + c;
  }

  /** Cut so, a long line is refused. */
  lemma CutIsRefused(boundary: string, p: Parser, lines: seq<string>, k: nat, answer: Answer)
    requires p.stage == 1 && p.pending == "" && AreLines(lines) && FileAfter(lines, NO_FILE).Some?
    requires k < |lines| && |lines[0]| <= HEADER_MAX && |lines[k]| >= HEADER_MAX
    ensures !ParseAll(boundary, p, CutAt(lines, k), answer).0
  {
    var chunks := CutAt(lines, k);
    FileAfterPart(lines, k, NO_FILE);
    OneChunkPasses(boundary, p, lines[..k], answer);
    var q := Parse(boundary, p, chunks[0], answer).1;
    LongLineIsMeasured(boundary, q, lines[k], answer);
    assert chunks[1..][0] == chunks[1];
  }

  /** All splits of these bytes are accepted, or all are refused. */
  ghost predicate SplitIndependent(boundary: string, p: Parser, text: string, answer: Answer) {
    forall chunks, others :: Joined(chunks) == text && Joined(others) == text ==>
      ParseAll(boundary, p, chunks, answer).0 == ParseAll(boundary, p, others, answer).0
  }

  lemma LongLineDepends(boundary: string, p: Parser, lines: seq<string>, k: nat, answer: Answer)
    requires p.stage == 1 && p.pending == "" && AreLines(lines) && FileAfter(lines, NO_FILE).Some?
    requires k < |lines| && |lines[0]| <= HEADER_MAX && |lines[k]| >= HEADER_MAX
    ensures Joined([LinesText(lines)]) == Joined(CutAt(lines, k)) == LinesText(lines)
    ensures ParseAll(boundary, p, [LinesText(lines)], answer).0 && !ParseAll(boundary, p, CutAt(lines, k), answer).0
    ensures !SplitIndependent(boundary, p, LinesText(lines), answer)
  {
    var text := LinesText(lines);
    CutIsSplit(lines, k);
    CutIsRefused(boundary, p, lines, k, answer);
    OneChunkPasses(boundary, p, lines, answer);
    hide Parse, LinesText, CutAt;
    assert [text][1..] == [] && Joined([text]) == text;
    assert ParseAll(boundary, p, [text], answer) == ParseAll(boundary, Parse(boundary, p, text, answer).1, [], answer);
  }

  lemma AllRefused(boundary: string, p: Parser, text: string, answer: Answer)
    requires InHeader(p) && Find(p.pending + text, CRLF) > HEADER_MAX
    ensures SplitIndependent(boundary, p, text, answer)
  {
    hide ParseAll, Find;
    forall chunks | Joined(chunks) == text
      ensures !ParseAll(boundary, p, chunks, answer).0
    {
      LongFirstLineIsRefused(boundary, p, chunks, answer);
    }
  }

  lemma AllAccepted(boundary: string, p: Parser, text: string, answer: Answer)
    requires InHeader(p) && HeaderEnding(p.pending + text, FileOf(p)) == Incomplete
    ensures SplitIndependent(boundary, p, text, answer)
  {
    hide ParseAll, HeaderEnding;
    forall chunks | Joined(chunks) == text
      ensures ParseAll(boundary, p, chunks, answer).0
    {
      HeaderInChunks(boundary, p, chunks, answer);
    }
  }

  /** Header lines that say nothing wrong are accepted or refused alike in all chunks exactly when the first
      one is longer than 8192 bytes (and then they are refused), or when all are shorter (and then they are
      accepted). */
  lemma LinesAreSplitIndependentIff(boundary: string, p: Parser, lines: seq<string>, answer: Answer)
    requires p.stage == 1 && p.pending == "" && lines != [] && AreLines(lines) && FileAfter(lines, NO_FILE).Some?
    ensures SplitIndependent(boundary, p, LinesText(lines), answer)
       <==> |lines[0]| > 8192 || forall k :: 0 <= k < |lines| ==> |lines[k]| < 8192
  {
    var text := LinesText(lines);
    FirstOfLines(lines);
    assert p.pending + text == text;
    hide Find, LinesText, AreLines, HeaderEnding, ParseAll, Joined, FileAfter, SplitIndependent, CutAt;
    if |lines[0]| > HEADER_MAX {
      AllRefused(boundary, p, text, answer);
    } else if k :| 0 <= k < |lines| && |lines[k]| >= HEADER_MAX {
      LongLineDepends(boundary, p, lines, k, answer);
    } else {
      ShortLinesEnd(lines, NO_FILE);
      AllAccepted(boundary, p, text, answer);
    }
  }

  /** A line of `n` bytes that the parser takes no notice of. */
  function Filler(n: nat): string
    requires n >= 3
  {
    "X:" + seq(n - 2, i => 'a')
  }

  lemma FillerApplies(n: nat, file: FileInfo)
    requires n >= 3
    ensures IsLine(Filler(n)) && |Filler(n)| == n && ApplyHeaderLine(Filler(n), file) == Some(file)
  {
    var line := Filler(n);
    assert line[0] == 'X' && line[1] == ':' && forall i :: 2 <= i < n ==> line[i] == 'a';
    assert CONTENT_TYPE[0] == 'C' && DISPOSITION[0] == 'C';
    FillerIsLine(line);
    assert TrimRight(line) == line;
    assert line == "X" + [':'] + line[2..];
    IndexOfIs("X", ':', line[2..]);
    assert line[2..][0] == 'a';
  }

  lemma FillerIsLine(line: string)
    requires line != "" && '\r' !in line
    ensures IsLine(line)
  {
    forall i | 0 <= i < |line|
      ensures !OccursAt(line + CRLF, CRLF, i)
    {
      assert line[i] in line;
      NoOccurrenceHere(line + CRLF, CRLF, i);
    }
    assert (line + CRLF)[|line|..|line| + 2] == CRLF;
    FindIs(line + CRLF, CRLF, |line|);
  }

  /** Two lines, of 3 and of 8192 bytes: accepted in one chunk, refused in three. */
  lemma SplitCanMatter(boundary: string, p: Parser, answer: Answer)
    requires p.stage == 1 && p.pending == ""
    ensures var lines := [Filler(3), Filler(8192)];
            Joined(CutAt(lines, 1)) == LinesText(lines)
            && Parse(boundary, p, LinesText(lines), answer).0 && !ParseAll(boundary, p, CutAt(lines, 1), answer).0
  {
    var lines := [Filler(3), Filler(8192)];
    FillerApplies(3, NO_FILE);
    FillerApplies(8192, NO_FILE);
    hide Filler, IsLine, ApplyHeaderLine;
    assert lines[1..] == [Filler(8192)] && lines[1..][1..] == [];
    assert FileAfter(lines[1..], NO_FILE) == Some(NO_FILE);
    assert AreLines(lines) && FileAfter(lines, NO_FILE).Some?;
    OneChunkPasses(boundary, p, lines, answer);
    CutIsSplit(lines, 1);
    CutIsRefused(boundary, p, lines, 1, answer);
  }
}
