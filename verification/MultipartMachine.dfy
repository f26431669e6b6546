/** What the multipart parser computes, as a machine that consumes one line, one delimiter or one
    content byte at a time. Each step stays possible, with the same effect, when more bytes arrive,
    so the machine does not depend on how its input is split; the parser is shown to agree with it. */
module MultipartMachine {
  import opened Prelude
  import opened Text
  import opened MultipartHeader
  import opened MultipartParser

  /** An entry as the callbacks deliver it. */
  datatype Item = Item(file: FileInfo, content: string)

  datatype Phase =
    | Opening | EntryStart | Headers | Body | Boundary
    | Finished                    // the end marker was read
    | Failed                      // a header line was refused
    | TooLong                     // a header line of HEADER_MAX bytes or more

  datatype Machine = Machine(phase: Phase, pending: string, file: FileInfo, items: seq<Item>)

  function Start(): Machine {
    Machine(Opening, "", NO_FILE, [])
  }

  function AppendContent(items: seq<Item>, data: string): seq<Item> {
    if items == [] then [] else
      var last := items[|items| - 1];
      items[..|items| - 1] + [last.(content := last.content + data)]
  }

  function HeaderStep(m: Machine): Option<Machine> {
    var pos := Find(m.pending, CRLF);
    if pos < |m.pending| && pos < HEADER_MAX then
      if pos == 0 then Some(Machine(Body, m.pending[2..], m.file, m.items + [Item(m.file, "")]))
      else
        match ApplyHeaderLine(m.pending[..pos], m.file)
        case None => Some(m.(phase := Failed))
        case Some(file) => Some(m.(file := file, pending := m.pending[pos + 2..]))
    else if |m.pending| > HEADER_MAX then Some(m.(phase := TooLong))
    else None
  }

  function BodyStep(boundary: string, m: Machine): Option<Machine> {
    var d := Delimiter(boundary);
    if OccursAt(m.pending, d, 0) then Some(m.(phase := Boundary, pending := m.pending[|d|..]))
    else if |m.pending| > |d| then
      Some(m.(pending := m.pending[1..], items := AppendContent(m.items, m.pending[..1])))
    else None
  }

  /** One step, or `None` when the machine has to wait for more bytes (or has ended). */
  function Step(boundary: string, m: Machine): (r: Option<Machine>)
    ensures r.Some? ==> Measure(r.value) < Measure(m)
  {
    match m.phase
    case Opening =>
      var open := OpeningLine(boundary);
      var pos := Find(m.pending, open);
      if pos < |m.pending| then Some(m.(phase := EntryStart, pending := m.pending[pos + |open|..])) else None
    case EntryStart => if m.pending != "" then Some(m.(phase := Headers, file := NO_FILE)) else None
    case Headers => HeaderStep(m)
    case Body => BodyStep(boundary, m)
    case Boundary =>
      if |m.pending| < 2 then None
      else if m.pending[..2] == CRLF then Some(m.(phase := EntryStart, pending := m.pending[2..]))
      else if m.pending[..2] == DASH then Some(m.(phase := Finished, pending := m.pending[2..]))
      else None
    case _ => None
  }

  function Measure(m: Machine): nat {
    3 * |m.pending| + match m.phase
      case EntryStart => 2
      case Headers => 1
      case Body => 1
      case Boundary => 1
      case Opening => 1
      case _ => 0
  }

  /** Where the machine comes to rest. */
  function Rest(boundary: string, m: Machine): Machine
    decreases Measure(m)
  {
    match Step(boundary, m)
    case None => m
    case Some(next) => Rest(boundary, next)
  }

  function Fed(m: Machine, data: string): Machine {
    m.(pending := m.pending + data)
  }

  lemma OpeningIgnoresLaterBytes(boundary: string, m: Machine, data: string)
    requires m.phase.Opening? && Step(boundary, m).Some?
    ensures Step(boundary, Fed(m, data)) == Some(Fed(Step(boundary, m).value, data))
  {
    var open := OpeningLine(boundary);
    FindExtends(m.pending, open, data);
    var cut := Find(m.pending, open) + |open|;
    hide Find, OpeningLine;
    assert (m.pending + data)[cut..] == m.pending[cut..] + data;
  }

  lemma HeaderIgnoresLaterBytes(m: Machine, data: string)
    requires HeaderStep(m).Some?
    ensures HeaderStep(Fed(m, data)) == Some(Fed(HeaderStep(m).value, data))
  {
    var pos, more := Find(m.pending, CRLF), m.pending + data;
    if pos < |m.pending| && pos < HEADER_MAX {
      FindExtends(m.pending, CRLF, data);
      hide Find, ApplyHeaderLine;
      assert more[..pos] == m.pending[..pos];
      assert more[pos + 2..] == m.pending[pos + 2..] + data;
    } else {
      LongLineStaysLong(m.pending, data);
      hide Find, ApplyHeaderLine;
    }
  }

  lemma BodyIgnoresLaterBytes(boundary: string, m: Machine, data: string)
    requires BodyStep(boundary, m).Some?
    ensures BodyStep(boundary, Fed(m, data)) == Some(Fed(BodyStep(boundary, m).value, data))
  {
    var d, more := Delimiter(boundary), m.pending + data;
    OccursInPrefix(m.pending, d, data, 0);
    hide Delimiter, AppendContent;
    if OccursAt(m.pending, d, 0) {
      assert more[|d|..] == m.pending[|d|..] + data;
    } else {
      assert more[1..] == m.pending[1..] + data && more[..1] == m.pending[..1];
    }
  }

  /** A step that was possible stays possible, and leaves the later bytes untouched. */
  lemma StepIgnoresLaterBytes(boundary: string, m: Machine, data: string)
    requires Step(boundary, m).Some?
    ensures Step(boundary, Fed(m, data)) == Some(Fed(Step(boundary, m).value, data))
  {
    hide HeaderStep, BodyStep;
    match m.phase
    case Opening => OpeningIgnoresLaterBytes(boundary, m, data);
    case Headers => HeaderIgnoresLaterBytes(m, data);
    case Body => BodyIgnoresLaterBytes(boundary, m, data);
    case Boundary =>
      var more := m.pending + data;
      assert more[..2] == m.pending[..2] && more[2..] == m.pending[2..] + data;
    case _ =>
  }

  lemma LongLineStaysLong(s: string, data: string)
    requires |s| > HEADER_MAX && !(Find(s, CRLF) < |s| && Find(s, CRLF) < HEADER_MAX)
    ensures !(Find(s + data, CRLF) < |s + data| && Find(s + data, CRLF) < HEADER_MAX)
  {
    var pos := Find(s + data, CRLF);
    FindIsFirst(s + data, CRLF);
    FindIsFirst(s, CRLF);
    if pos < HEADER_MAX {
      OccursInPrefix(s, CRLF, data, pos);
    }
  }

  /** Chunk independence: resting between two chunks makes no difference. */
  lemma {:induction false} RestBetweenChunks(boundary: string, m: Machine, data: string)
    ensures Rest(boundary, Fed(Rest(boundary, m), data)) == Rest(boundary, Fed(m, data))
    decreases Measure(m)
  {
    if Step(boundary, m).Some? {
      StepIgnoresLaterBytes(boundary, m, data);
      RestBetweenChunks(boundary, Step(boundary, m).value, data);
    }
  }

  // ----- The parser agrees with the machine -----

  ghost predicate Accepting(answer: Answer) {
    forall log :: answer(log)
  }

  function Record(items: seq<Item>, e: Event): seq<Item> {
    match e
    case Header(file) => items + [Item(file, "")]
    case Content(data) => AppendContent(items, data)
  }

  /** The items that the callbacks of `log` have built up. */
  function Collect(log: seq<Event>): seq<Item> {
    if log == [] then [] else Record(Collect(log[..|log| - 1]), log[|log| - 1])
  }

  lemma CollectLast(log: seq<Event>, e: Event)
    ensures Collect(log + [e]) == Record(Collect(log), e)
  {
    assert (log + [e])[..|log|] == log;
  }

  function PhaseOf(stage: nat): Phase {
    match stage
    case 0 => Opening
    case 1 => EntryStart
    case 2 => Headers
    case 3 => Body
    case _ => Boundary
  }

  /** The machine that a parser state stands for. */
  function MachineOf(p: Parser): Machine {
    Machine(PhaseOf(p.stage), p.pending, p.file, Collect(p.log))
  }

  /** The result of `parse` matches the machine at rest. */
  ghost predicate Settled(r: Machine, ok: bool, final: Parser) {
    match r.phase
    case TooLong => true
    case Failed => !ok && !final.valid && Collect(final.log) == r.items
    case Finished =>
      ok && final.valid && final.stage == 4 && final.pending == "" && Collect(final.log) == r.items
    case _ => ok && final.stage <= 4 && MachineOf(final) == r
  }

  ghost predicate Agrees(boundary: string, p: Parser, t: Turn) {
    var r := Rest(boundary, MachineOf(p));
    r.phase.TooLong? || match t
                        case Return(ok, final) => Settled(r, ok, final)
                        case Again(next) => next.stage <= 4 && Rest(boundary, MachineOf(next)) == r
  }

  lemma HeaderLinesTooLong(boundary: string, m: Machine)
    requires m.phase.Headers? && |m.pending| > HEADER_MAX && Find(m.pending, CRLF) >= HEADER_MAX
    ensures Rest(boundary, m).phase.TooLong?
  {
    assert Step(boundary, m) == Some(m.(phase := TooLong));
  }

  lemma HeaderTurnIsStep(p: Parser, answer: Answer)
    requires p.stage == 2 && Accepting(answer)
    requires Find(p.pending, CRLF) < |p.pending| && Find(p.pending, CRLF) < HEADER_MAX
    ensures match HeaderTurn(p, Find(p.pending, CRLF), answer)
            case Again(next) => HeaderStep(MachineOf(p)) == Some(MachineOf(next))
            case Return(ok, final) =>
              !ok && !final.valid && final.log == p.log
                  && HeaderStep(MachineOf(p)) == Some(MachineOf(p).(phase := Failed))
  {
    CollectLast(p.log, Header(p.file));
  }

  lemma StepThenRest(boundary: string, m: Machine)
    ensures Rest(boundary, m) == if Step(boundary, m).None? then m else Rest(boundary, Step(boundary, m).value)
  {
  }

  /** The parser checks the length of the first header line of a chunk only; the machine that of each. */
  lemma {:induction false} HeaderLinesAgree(boundary: string, p: Parser, answer: Answer)
    requires p.stage == 2 && Accepting(answer)
    ensures Agrees(boundary, p, HeaderLines(p, answer))
    decreases |p.pending|
  {
    var pos := Find(p.pending, CRLF);
    var m := MachineOf(p);
    StepThenRest(boundary, m);
    if pos >= HEADER_MAX && |p.pending| > HEADER_MAX {
      HeaderLinesTooLong(boundary, m);
    } else if pos < |p.pending| {
      HeaderTurnIsStep(p, answer);
      match HeaderTurn(p, pos, answer)
      case Return(_, _) => StepThenRest(boundary, m.(phase := Failed));
      case Again(next) =>
        if next.stage == 2 {
          HeaderLinesAgree(boundary, next, answer);
        }
    }
  }

  lemma AppendTwice(items: seq<Item>, a: string, b: string)
    ensures AppendContent(AppendContent(items, a), b) == AppendContent(items, a + b)
    ensures AppendContent(items, "") == items
  {
    if items != [] {
      var c := items[|items| - 1].content;
      assert c + a + b == c + (a + b) && c + "" == c;
    }
  }

  /** Content bytes before any delimiter are delivered one after the other. */
  lemma {:induction false} ContentIsDelivered(boundary: string, m: Machine, k: nat)
    requires m.phase.Body? && k + |Delimiter(boundary)| <= |m.pending|
    requires forall i :: 0 <= i < k ==> !OccursAt(m.pending, Delimiter(boundary), i)
    ensures Rest(boundary, m) == Rest(boundary, Delivered(m, k))
    decreases k
  {
    AppendTwice(m.items, m.pending[..1], "");
    if k > 0 {
      var d, next := Delimiter(boundary), Step(boundary, m).value;
      forall i | 0 <= i < k - 1
        ensures !OccursAt(next.pending, d, i)
      {
        assert !OccursAt(m.pending, d, i + 1);
        assert next.pending[i..i + |d|] == m.pending[i + 1..i + 1 + |d|];
      }
      ContentIsDelivered(boundary, next, k - 1);
      AppendTwice(m.items, m.pending[..1], next.pending[..k - 1]);
      assert m.pending[..1] + next.pending[..k - 1] == m.pending[..k];
      assert next.pending[k - 1..] == m.pending[k..];
    } else {
      assert m.pending[..0] == "" && m.pending[0..] == m.pending;
    }
  }

  /** The machine once the first `k` buffered content bytes are delivered. */
  function Delivered(m: Machine, k: nat): Machine
    requires k <= |m.pending|
  {
    m.(pending := m.pending[k..], items := AppendContent(m.items, m.pending[..k]))
  }

  lemma DelimiterAfter(boundary: string, m: Machine, k: nat)
    requires k + |Delimiter(boundary)| <= |m.pending|
    ensures OccursAt(Delivered(m, k).pending, Delimiter(boundary), 0) <==> OccursAt(m.pending, Delimiter(boundary), k)
  {
    var d := Delimiter(boundary);
    assert m.pending[k..][0..0 + |d|] == m.pending[k..k + |d|];
  }

  /** In the body, exactly the bytes before the first delimiter are delivered. */
  lemma BodyUpToDelimiter(boundary: string, m: Machine)
    requires m.phase.Body? && Find(m.pending, Delimiter(boundary)) < |m.pending|
    ensures var d, pos := Delimiter(boundary), Find(m.pending, Delimiter(boundary));
            Rest(boundary, m)
            == Rest(boundary, Delivered(m, pos).(phase := Boundary, pending := m.pending[pos + |d|..]))
  {
    var d, pos := Delimiter(boundary), Find(m.pending, Delimiter(boundary));
    FindIsFirst(m.pending, d);
    ContentIsDelivered(boundary, m, pos);
    DelimiterAfter(boundary, m, pos);
    DelimiterStep(boundary, Delivered(m, pos));
    assert m.pending[pos..][|d|..] == m.pending[pos + |d|..];
  }

  lemma DelimiterStep(boundary: string, m: Machine)
    requires m.phase.Body? && OccursAt(m.pending, Delimiter(boundary), 0)
    ensures Rest(boundary, m)
         == Rest(boundary, m.(phase := Boundary, pending := m.pending[|Delimiter(boundary)|..]))
  {
  }

  /** A body without a delimiter, all delivered but a tail that could still begin one. */
  function TailHeldBack(boundary: string, m: Machine): Machine {
    var d := Delimiter(boundary);
    if |m.pending| <= |d| then m else Delivered(m, |m.pending| - |d|)
  }

  /** As many bytes as in a delimiter, but not one. */
  lemma TailRests(boundary: string, m: Machine)
    requires m.phase.Body? && |m.pending| <= |Delimiter(boundary)| && !OccursAt(m.pending, Delimiter(boundary), 0)
    ensures Rest(boundary, m) == m
  {
  }

  lemma BodyHoldsBackTail(boundary: string, m: Machine)
    requires m.phase.Body? && Find(m.pending, Delimiter(boundary)) == |m.pending|
    ensures Rest(boundary, m) == TailHeldBack(boundary, m)
  {
    hide Rest, Step;
    var d := Delimiter(boundary);
    FindIsFirst(m.pending, d);
    if |m.pending| > |d| {
      var k := |m.pending| - |d|;
      ContentIsDelivered(boundary, m, k);
      DelimiterAfter(boundary, m, k);
      TailRests(boundary, Delivered(m, k));
    } else {
      TailRests(boundary, m);
    }
  }

  lemma BodyFoundTurn(boundary: string, p: Parser, answer: Answer)
    requires p.stage == 3 && Accepting(answer) && Find(p.pending, Delimiter(boundary)) < |p.pending|
    ensures var d, pos := Delimiter(boundary), Find(p.pending, Delimiter(boundary));
            var t := BodyTurn(boundary, p, answer);
            t.Again? && t.next.stage == 4
            && MachineOf(t.next) == Delivered(MachineOf(p), pos).(phase := Boundary, pending := p.pending[pos + |d|..])
  {
    CollectLast(p.log, Content(p.pending[..Find(p.pending, Delimiter(boundary))]));
  }

  lemma BodyWaitTurn(boundary: string, p: Parser, answer: Answer)
    requires p.stage == 3 && Accepting(answer) && Find(p.pending, Delimiter(boundary)) == |p.pending|
    ensures var t := BodyTurn(boundary, p, answer);
            t.Return? && t.ok && t.final.stage == 3 && MachineOf(t.final) == TailHeldBack(boundary, MachineOf(p))
  {
    var d := Delimiter(boundary);
    if |p.pending| > |d| {
      CollectLast(p.log, Content(p.pending[..|p.pending| - |d|]));
    }
  }

  lemma GoesOn(boundary: string, p: Parser, next: Parser)
    requires next.stage <= 4 && Rest(boundary, MachineOf(next)) == Rest(boundary, MachineOf(p))
    ensures Agrees(boundary, p, Again(next))
  {
  }

  lemma Waits(boundary: string, p: Parser, final: Parser)
    requires final.stage <= 4 && Rest(boundary, MachineOf(p)) == MachineOf(final)
    ensures Agrees(boundary, p, Return(true, final))
  {
  }

  lemma BodyAgrees(boundary: string, p: Parser, answer: Answer)
    requires p.stage == 3 && Accepting(answer)
    ensures Agrees(boundary, p, BodyTurn(boundary, p, answer))
  {
    hide Rest;
    var t := BodyTurn(boundary, p, answer);
    if Find(p.pending, Delimiter(boundary)) < |p.pending| {
      BodyFoundTurn(boundary, p, answer);
      BodyUpToDelimiter(boundary, MachineOf(p));
      GoesOn(boundary, p, t.next);
    } else {
      BodyWaitTurn(boundary, p, answer);
      BodyHoldsBackTail(boundary, MachineOf(p));
      Waits(boundary, p, t.final);
    }
  }

  ghost predicate Opened(boundary: string, p: Parser) {
    p.stage <= 4 && (p.stage == 0 ==> Find(p.pending, OpeningLine(boundary)) < |p.pending|)
  }

  lemma OpeningAgrees(boundary: string, p: Parser, answer: Answer)
    requires p.pending != "" && p.stage == 0 && Opened(boundary, p)
    ensures Agrees(boundary, p, TakeTurn(boundary, p, answer))
  {
    var open := OpeningLine(boundary);
    var pos := Find(p.pending, open);
    hide Find, OpeningLine;
    assert p.pending[pos..][|open|..] == p.pending[pos + |open|..];
    StepThenRest(boundary, MachineOf(p));
    hide Rest;
  }

  lemma HeadersAgree(boundary: string, p: Parser, answer: Answer)
    requires p.pending != "" && p.stage == 2 && Accepting(answer)
    ensures Agrees(boundary, p, TakeTurn(boundary, p, answer))
  {
    if Find(p.pending, CRLF) > HEADER_MAX {
      HeaderLinesTooLong(boundary, MachineOf(p));
    } else {
      HeaderLinesAgree(boundary, p, answer);
    }
    hide Rest, Find, HeaderLines;
  }

  lemma BoundaryAgrees(boundary: string, p: Parser, answer: Answer)
    requires p.pending != "" && p.stage == 4
    ensures Agrees(boundary, p, TakeTurn(boundary, p, answer))
  {
    var m := MachineOf(p);
    StepThenRest(boundary, m);
    if |p.pending| >= 2 && p.pending[..2] == DASH {
      StepThenRest(boundary, m.(phase := Finished, pending := p.pending[2..]));
    }
    hide Rest;
  }

  lemma TurnAgrees(boundary: string, p: Parser, answer: Answer)
    requires p.pending != "" && Opened(boundary, p) && Accepting(answer)
    ensures Agrees(boundary, p, TakeTurn(boundary, p, answer))
  {
    match p.stage
    case 0 => OpeningAgrees(boundary, p, answer);
    case 1 => StepThenRest(boundary, MachineOf(p));
    case 2 => HeadersAgree(boundary, p, answer);
    case 3 => BodyAgrees(boundary, p, answer);
    case _ => BoundaryAgrees(boundary, p, answer);
  }

  /** One call of `parse` brings the parser to where the machine rests, unless a header line is too long. */
  lemma {:induction false} LoopAgrees(boundary: string, p: Parser, answer: Answer)
    requires Opened(boundary, p) && Accepting(answer)
    ensures var (ok, final) := Loop(boundary, p, answer);
            Settled(Rest(boundary, MachineOf(p)), ok, final)
    decreases |p.pending| + Rank(p)
  {
    if p.pending != "" {
      TurnAgrees(boundary, p, answer);
      match TakeTurn(boundary, p, answer)
      case Return(_, _) =>
      case Again(next) => LoopAgrees(boundary, next, answer);
    }
  }

  // ----- Any number of chunks -----

  function Joined(chunks: seq<string>): string {
    if chunks == [] then "" else chunks[0] + Joined(chunks[1..])
  }

  /** Feeding chunks one after the other, stopping when `parse` reports a failure. */
  function ParseAll(boundary: string, p: Parser, chunks: seq<string>, answer: Answer): (bool, Parser)
    decreases |chunks|
  {
    if chunks == [] then (true, p) else
      var (ok, next) := Parse(boundary, p, chunks[0], answer);
      if ok then ParseAll(boundary, next, chunks[1..], answer) else (false, next)
  }

  ghost predicate Ended(r: Machine) {
    r.phase.Finished? || r.phase.Failed? || r.phase.TooLong?
  }

  /** The chunks of a body can be joined two by two without changing where the machine rests. */
  lemma FirstChunk(boundary: string, m: Machine, chunks: seq<string>)
    requires chunks != []
    ensures var r := Rest(boundary, Fed(m, chunks[0]));
            Rest(boundary, Fed(r, Joined(chunks[1..]))) == Rest(boundary, Fed(m, Joined(chunks)))
            && (Ended(r) ==> Rest(boundary, Fed(m, Joined(chunks))).phase == r.phase
                             && Rest(boundary, Fed(m, Joined(chunks))).items == r.items)
  {
    var first, rest := chunks[0], Joined(chunks[1..]);
    assert m.pending + first + rest == m.pending + (first + rest);
    assert Fed(Fed(m, first), rest) == Fed(m, Joined(chunks));
    RestBetweenChunks(boundary, Fed(m, first), rest);
  }

  /** However a body is split, feeding it leaves the parser where the machine rests on the whole of it, or
      fails with the same items delivered. Only the opening line must lie within one chunk. What is fed after
      the end marker, and header lines that are too long, are another matter. */
  lemma {:induction false} SplitDoesNotMatter(boundary: string, p: Parser, chunks: seq<string>, answer: Answer)
    requires p.stage <= 4 && Accepting(answer) && Rest(boundary, MachineOf(p)) == MachineOf(p)
    requires p.stage == 0 ==>
               chunks != [] && Find(p.pending + chunks[0], OpeningLine(boundary)) < |p.pending + chunks[0]|
    requires !Rest(boundary, Fed(MachineOf(p), Joined(chunks))).phase.Finished?
    ensures var (ok, final) := ParseAll(boundary, p, chunks, answer);
            Settled(Rest(boundary, Fed(MachineOf(p), Joined(chunks))), ok, final)
    decreases |chunks|
  {
    hide Find;
    var m := MachineOf(p);
    if chunks == [] {
      assert Fed(m, "") == m;
    } else {
      FirstChunk(boundary, m, chunks);
      LoopAgrees(boundary, p.(pending := p.pending + chunks[0]), answer);
      RestIsStable(boundary, Fed(m, chunks[0]));
      var (ok, next) := Parse(boundary, p, chunks[0], answer);
      OpeningIsLeft(boundary, Fed(m, chunks[0]));
      if !Ended(Rest(boundary, Fed(m, chunks[0]))) {
        SplitDoesNotMatter(boundary, next, chunks[1..], answer);
      }
    }
  }

  lemma ParseAllSplits(boundary: string, p: Parser, a: seq<string>, b: seq<string>, answer: Answer)
    requires ParseAll(boundary, p, a, answer).0
    ensures ParseAll(boundary, p, a + b, answer) == ParseAll(boundary, ParseAll(boundary, p, a, answer).1, b, answer)
    decreases |a|
  {
    if a == [] {
      assert a + b == b;
    } else {
      assert (a + b)[1..] == a[1..] + b;
      ParseAllSplits(boundary, Parse(boundary, p, a[0], answer).1, a[1..], b, answer);
    }
  }

  /** The parser has read the end marker with this chunk, and dropped what stood behind it. */
  ghost predicate AtEnd(q: Parser, items: seq<Item>) {
    q.valid && q.stage == 4 && q.pending == "" && Collect(q.log) == items
  }

  /** If the machine finishes, so does the parser, within the chunk that brings the end marker: then it is
      valid and has delivered the machine's items, and the later chunks are read from there. */
  lemma {:induction false} UpToEndMarker(boundary: string, p: Parser, chunks: seq<string>, answer: Answer)
    requires p.stage <= 4 && Accepting(answer) && Rest(boundary, MachineOf(p)) == MachineOf(p)
    requires p.stage == 0 ==>
               chunks != [] && Find(p.pending + chunks[0], OpeningLine(boundary)) < |p.pending + chunks[0]|
    requires Rest(boundary, Fed(MachineOf(p), Joined(chunks))).phase.Finished?
    ensures exists j :: 0 < j <= |chunks| && ParseAll(boundary, p, chunks[..j], answer).0
              && AtEnd(ParseAll(boundary, p, chunks[..j], answer).1,
                 Rest(boundary, Fed(MachineOf(p), Joined(chunks))).items)
              && ParseAll(boundary, p, chunks, answer)
                 == ParseAll(boundary, ParseAll(boundary, p, chunks[..j], answer).1, chunks[j..], answer)
    decreases |chunks|
  {
    hide Find, Rest;
    var m := MachineOf(p);
    assert Fed(m, "") == m;
    if chunks != [] {
      FirstChunk(boundary, m, chunks);
      LoopAgrees(boundary, p.(pending := p.pending + chunks[0]), answer);
      RestIsStable(boundary, Fed(m, chunks[0]));
      OpeningIsLeft(boundary, Fed(m, chunks[0]));
      var (ok, next) := Parse(boundary, p, chunks[0], answer);
      var j := 1;
      if !Ended(Rest(boundary, Fed(m, chunks[0]))) {
        UpToEndMarker(boundary, next, chunks[1..], answer);
        var k :| 0 < k <= |chunks[1..]| && ParseAll(boundary, next, chunks[1..][..k], answer).0
              && AtEnd(ParseAll(boundary, next, chunks[1..][..k], answer).1,
                 Rest(boundary, Fed(m, Joined(chunks))).items);
        j := k + 1;
        assert chunks[..j][1..] == chunks[1..][..k];
      } else {
        assert chunks[..1][1..] == [] && chunks[..1][0] == chunks[0];
      }
      assert chunks[..j] + chunks[j..] == chunks;
      ParseAllSplits(boundary, p, chunks[..j], chunks[j..], answer);
    }
  }

  lemma {:induction false} OpeningIsLeft(boundary: string, m: Machine)
    requires m.phase.Opening? ==> Find(m.pending, OpeningLine(boundary)) < |m.pending|
    ensures !Rest(boundary, m).phase.Opening?
    decreases Measure(m)
  {
    if Step(boundary, m).Some? {
      OpeningIsLeft(boundary, Step(boundary, m).value);
    }
  }

  lemma {:induction false} RestIsStable(boundary: string, m: Machine)
    ensures Rest(boundary, Rest(boundary, m)) == Rest(boundary, m)
    decreases Measure(m)
  {
    if Step(boundary, m).Some? {
      RestIsStable(boundary, Step(boundary, m).value);
    }
  }
}
