/** The incremental multipart parser: the class over its sliding buffer, and the meaning of one call
    of `parse` on the unconsumed bytes. */
module MultipartParser {
  import opened Prelude
  import opened Text
  import opened MultipartHeader

  const DASH := "--"

  function OpeningLine(boundary: string): string {
    DASH + boundary + CRLF
  }

  function Delimiter(boundary: string): string {
    CRLF + DASH + boundary
  }

  /** One call of a callback. */
  datatype Event = Header(file: FileInfo) | Content(data: string)

  /** A callback answers according to the calls made so far, its own included. */
  type Answer = seq<Event> -> bool

  /** Abstract state of the parser: its stage, the buffered bytes and the callbacks made. */
  datatype Parser = Parser(stage: nat, pending: string, valid: bool, file: FileInfo, log: seq<Event>)

  datatype Turn = Again(next: Parser) | Return(ok: bool, final: Parser)

  function Initial(): Parser {
    Parser(0, "", false, NO_FILE, [])
  }

  /** One complete header line, the next line end being at `pos`. */
  function HeaderTurn(p: Parser, pos: nat, answer: Answer): (t: Turn)
    requires pos + 2 <= |p.pending|
    ensures t.Again? ==> (t.next.stage == 3 || t.next.stage == p.stage) && |t.next.pending| < |p.pending|
  {
    if pos == 0 then
      var told := p.(log := p.log + [Header(p.file)]);
      if answer(told.log) then Again(told.(stage := 3, pending := p.pending[2..]))
      else Return(false, told.(valid := false))
    else
      match ApplyHeaderLine(p.pending[..pos], p.file)
      case None => Return(false, p.(valid := false))
      case Some(file) => Again(p.(file := file, pending := p.pending[pos + 2..]))
  }

  /** The header lines of stage 2, up to the empty line that ends them. */
  function HeaderLines(p: Parser, answer: Answer): (t: Turn)
    requires p.stage == 2
    ensures t.Again? ==> t.next.stage == 3 && |t.next.pending| < |p.pending|
    decreases |p.pending|
  {
    var pos := Find(p.pending, CRLF);
    if pos == |p.pending| then Return(true, p)
    else
      match HeaderTurn(p, pos, answer)
      case Return(ok, final) => Return(ok, final)
      case Again(next) => if next.stage == 3 then Again(next) else HeaderLines(next, answer)
  }

  function BodyTurn(boundary: string, p: Parser, answer: Answer): Turn {
    var d := Delimiter(boundary);
    if |d| > |p.pending| then Return(true, p)
    else
      var pos := Find(p.pending, d);
      if pos < |p.pending| then
        var told := p.(log := p.log + [Content(p.pending[..pos])]);
        if answer(told.log) then Again(told.(stage := 4, pending := p.pending[pos + |d|..]))
        else Return(false, told.(valid := false))
      else
        var len := |p.pending| - |d|;
        if len == 0 then Return(true, p)
        else
          var told := p.(log := p.log + [Content(p.pending[..len])]);
          if answer(told.log) then Return(true, told.(pending := p.pending[len..]))
          else Return(false, told.(valid := false))
  }

  /** Delivering the first `n` buffered bytes: the state told to the callback, and the state after it. */
  function Told(p: Parser, n: nat): Parser
    requires n <= |p.pending|
  {
    p.(log := p.log + [Content(p.pending[..n])])
  }

  lemma BodyTurnCases(boundary: string, p: Parser, answer: Answer)
    ensures var d, pos, t := Delimiter(boundary), Find(p.pending, Delimiter(boundary)), BodyTurn(boundary, p, answer);
            if pos < |p.pending| then
              t == if answer(Told(p, pos).log)
                   then Again(Told(p, pos).(stage := 4, pending := p.pending[pos + |d|..]))
                   else Return(false, Told(p, pos).(valid := false))
            else if |p.pending| > |d| then
              var n := |p.pending| - |d|;
              t == if answer(Told(p, n).log)
                   then Return(true, Told(p, n).(pending := p.pending[n..]))
                   else Return(false, Told(p, n).(valid := false))
            else t == Return(true, p)
  {
  }

  /** Entering stage 2 consumes nothing, so a turn shrinks the buffered bytes plus this rank. */
  function Rank(p: Parser): nat {
    if p.stage == 1 then 1 else 0
  }

  /** One turn of the parser's loop on a non-empty buffer. */
  function TakeTurn(boundary: string, p: Parser, answer: Answer): (t: Turn)
    requires p.pending != ""
    ensures t.Again? ==> |t.next.pending| + Rank(t.next) < |p.pending| + Rank(p)
  {
    match p.stage
    case 0 =>
      var open := OpeningLine(boundary);
      var rest := p.pending[Find(p.pending, open)..];
      if |open| > |rest| then Return(true, p.(pending := rest))
      else Again(p.(stage := 1, pending := rest[|open|..]))
    case 1 => Again(p.(stage := 2, file := NO_FILE))
    case 2 =>
      if Find(p.pending, CRLF) > HEADER_MAX then Return(false, p) else HeaderLines(p, answer)
    case 3 => BodyTurn(boundary, p, answer)
    case _ =>
      if |p.pending| < 2 then Return(true, p)
      else if p.pending[..2] == CRLF then Again(p.(stage := 1, pending := p.pending[2..]))
      else if p.pending[..2] == DASH then Return(true, p.(valid := true, pending := ""))
      else Return(true, p)
  }

  /** The parser's loop: the result and the state in which a call of `parse` leaves it. */
  function Loop(boundary: string, p: Parser, answer: Answer): (r: (bool, Parser))
    decreases |p.pending| + Rank(p)
  {
    if p.pending == "" then (true, p)
    else
      match TakeTurn(boundary, p, answer)
      case Return(ok, final) => (ok, final)
      case Again(next) => Loop(boundary, next, answer)
  }

  lemma LoopUnfolds(boundary: string, p: Parser, answer: Answer)
    requires p.pending != ""
    ensures var t := TakeTurn(boundary, p, answer);
            Loop(boundary, p, answer) == if t.Return? then (t.ok, t.final) else Loop(boundary, t.next, answer)
  {
  }

  function Parse(boundary: string, p: Parser, data: string, answer: Answer): (bool, Parser) {
    Loop(boundary, p.(pending := p.pending + data), answer)
  }

  /** The two callbacks, recording what they are given. */
  class Receiver {
    var log: seq<Event>
    const answer: Answer

    constructor (answer: Answer)
      ensures this.answer == answer && log == []
    {
      this.answer := answer;
      log := [];
    }

    method OnHeader(file: FileInfo) returns (ok: bool)
      modifies this
      ensures log == old(log) + [Header(file)] && ok == answer(log)
    {
      log := log + [Header(file)];
      ok := answer(log);
    }

    method OnContent(data: string) returns (ok: bool)
      modifies this
      ensures log == old(log) + [Content(data)] && ok == answer(log)
    {
      log := log + [Content(data)];
      ok := answer(log);
    }
  }

  class MultipartFormDataParser {
    const boundary: string
    var state: nat
    var isValid: bool
    var file: FileInfo
    var buf: array<char>
    var spos: nat
    var epos: nat

    ghost predicate Valid()
      reads this
    {
      spos <= epos <= buf.Length && state <= 4
    }

    /** The bytes buffered and not yet consumed. */
    function Pending(): string
      requires Valid()
      reads this, buf
    {
      buf[spos..epos]
    }

    function State(log: seq<Event>): Parser
      requires Valid()
      reads this, buf
    {
      Parser(state, Pending(), isValid, file, log)
    }

    constructor (boundary: string)
      ensures Valid() && fresh(buf) && this.boundary == boundary && State([]) == Initial()
    {
      this.boundary := boundary;
      state, isValid, file, spos, epos := 0, false, NO_FILE, 0, 0;
      buf := new char[0];
    }

    /** Moves the buffered bytes to the front of the buffer. */
    method Slide()
      requires Valid()
      modifies this`spos, this`epos, buf
      ensures Valid() && spos == 0 && Pending() == old(Pending())
    {
      var remaining := epos - spos;
      ghost var was := Pending();
      if remaining > 0 && spos > 0 {
        for i := 0 to remaining
          modifies buf
          invariant forall k :: 0 <= k < i ==> buf[k] == was[k]
          invariant forall k :: i <= k < remaining ==> buf[spos + k] == was[k]
        {
          buf[i] := buf[spos + i];
        }
      }
      spos, epos := 0, remaining;
    }

    method Grow(size: nat)
      requires Valid() && spos == 0 && epos <= size
      modifies this`buf
      ensures Valid() && size <= buf.Length && (buf == old(buf) || fresh(buf))
      ensures Pending() == old(Pending())
    {
      if size > buf.Length {
        var larger := new char[size];
        forall i | 0 <= i < epos {
          larger[i] := buf[i];
        }
        buf := larger;
      }
    }

    /** Slides the buffered bytes to the front, grows the buffer if needed, and appends `data`. */
    method BufAppend(data: string)
      requires Valid()
      modifies this`buf, this`spos, this`epos, buf
      ensures Valid() && (buf == old(buf) || fresh(buf))
      ensures Pending() == old(Pending()) + data
    {
      Slide();
      Grow(epos + |data|);
      ghost var was := Pending();
      for i := 0 to |data|
        modifies buf
        invariant forall k :: 0 <= k < |was| ==> buf[k] == was[k]
        invariant forall k :: 0 <= k < i ==> buf[epos + k] == data[k]
      {
        buf[epos + i] := data[i];
      }
      epos := epos + |data|;
      assert Pending() == was + data;
    }

    /** Whether `s` stands `at` bytes into the buffered bytes. */
    method StartsWithAt(s: string, at: nat) returns (r: bool)
      requires Valid() && at <= epos - spos
      ensures r == OccursAt(Pending(), s, at)
    {
      if epos - spos - at < |s| {
        return false;
      }
      for i := 0 to |s|
        invariant forall k :: 0 <= k < i ==> Pending()[at + k] == s[k]
      {
        if buf[spos + at + i] != s[i] {
          assert Pending()[at..at + |s|][i] != s[i];
          return false;
        }
      }
      return true;
    }

    /** First occurrence of `s` in the buffered bytes, or their number. */
    method BufFind(s: string) returns (r: nat)
      requires Valid() && s != ""
      ensures r == Find(Pending(), s)
    {
      ghost var p := Pending();
      var off := 0;
      while off < epos - spos
        invariant off <= epos - spos
        invariant forall i :: 0 <= i < off ==> !OccursAt(p, s, i)
      {
        var pos := off;
        while pos < epos - spos && buf[spos + pos] != s[0]
          invariant off <= pos <= epos - spos
          invariant forall i :: 0 <= i < pos ==> !OccursAt(p, s, i)
        {
          NoOccurrenceHere(p, s, pos);
          pos := pos + 1;
        }
        if |s| > epos - spos - pos {
          FindIs(p, s, |p|);
          return epos - spos;
        }
        var found := StartsWithAt(s, pos);
        if found {
          FindIs(p, s, pos);
          return pos;
        }
        off := pos + 1;
      }
      FindIs(p, s, |p|);
      return epos - spos;
    }

    method BufHead(n: nat) returns (r: string)
      requires Valid() && n <= epos - spos
      ensures r == Pending()[..n]
    {
      assert buf[spos..spos + n] == Pending()[..n];
      return buf[spos..spos + n];
    }

    method BufErase(size: nat)
      requires Valid() && size <= epos - spos
      modifies this`spos
      ensures Valid() && Pending() == old(Pending())[size..]
    {
      spos := spos + size;
    }

    method BufStartsWith(s: string) returns (r: bool)
      requires Valid()
      ensures r == (|s| <= |Pending()| && Pending()[..|s|] == s)
    {
      r := StartsWithAt(s, 0);
      assert |s| <= |Pending()| ==> Pending()[0..0 + |s|] == Pending()[..|s|];
    }

    /** One header line, ending at `pos`. `done` tells that `parse` returns false. */
    method ReadHeaderLine(pos: nat, receiver: Receiver) returns (done: bool)
      requires Valid() && pos + 2 <= epos - spos
      modifies this`spos, this`state, this`isValid, this`file, receiver
      ensures Valid()
      ensures HeaderTurn(old(State(receiver.log)), pos, receiver.answer)
           == if done then Return(false, State(receiver.log)) else Again(State(receiver.log))
    {
      if pos == 0 {
        var ok := receiver.OnHeader(file);
        if !ok {
          isValid := false;
          return true;
        }
        BufErase(2);
        state := 3;
        return false;
      }
      var line := BufHead(pos);
      match ApplyHeaderLine(line, file)
      case None =>
        isValid := false;
        return true;
      case Some(updated) =>
        file := updated;
        BufErase(pos + 2);
        return false;
    }

    /** The inner loop of stage 2. `done` tells that `parse` returns `ok`. */
    method ReadHeaderLines(receiver: Receiver) returns (done: bool, ok: bool)
      requires Valid() && state == 2
      modifies this`spos, this`state, this`isValid, this`file, receiver
      ensures Valid()
      ensures HeaderLines(old(State(receiver.log)), receiver.answer)
           == if done then Return(ok, State(receiver.log)) else Again(State(receiver.log))
    {
      ghost var start := State(receiver.log);
      var pos := BufFind(CRLF);
      while pos < epos - spos
        invariant Valid() && state == 2
        invariant pos == Find(Pending(), CRLF)
        invariant HeaderLines(start, receiver.answer) == HeaderLines(State(receiver.log), receiver.answer)
        decreases epos - spos
      {
        done := ReadHeaderLine(pos, receiver);
        if done {
          return true, false;
        }
        if state == 3 {
          return false, true;
        }
        pos := BufFind(CRLF);
      }
      return true, true;
    }

    /** Hands `n` bytes of content to the callback and drops them with the `extra` bytes after them. */
    method Deliver(receiver: Receiver, n: nat, extra: nat) returns (ok: bool)
      requires Valid() && n + extra <= epos - spos
      modifies this`spos, this`isValid, receiver
      ensures Valid()
      ensures var was := old(State(receiver.log));
              ok == receiver.answer(Told(was, n).log)
              && State(receiver.log)
                 == if ok then Told(was, n).(pending := was.pending[n + extra..]) else Told(was, n).(valid := false)
    {
      var content := BufHead(n);
      ok := receiver.OnContent(content);
      if ok {
        BufErase(n + extra);
      } else {
        isValid := false;
      }
    }

    /** Stage 3: content up to the delimiter, or all but a tail that could still begin one. */
    method ReadBody(receiver: Receiver) returns (done: bool, ok: bool)
      requires Valid() && state == 3
      modifies this`spos, this`state, this`isValid, receiver
      ensures Valid()
      ensures BodyTurn(boundary, old(State(receiver.log)), receiver.answer)
           == if done then Return(ok, State(receiver.log)) else Again(State(receiver.log))
    {
      var d := Delimiter(boundary);
      ghost var p := State(receiver.log);
      BodyTurnCases(boundary, p, receiver.answer);
      if |d| > epos - spos {
        return true, true;
      }
      var pos := BufFind(d);
      if pos < epos - spos {
        ok := Deliver(receiver, pos, |d|);
        if !ok {
          return true, false;
        }
        state := 4;
        return false, true;
      }
      if epos - spos > |d| {
        ok := Deliver(receiver, (epos - spos) - |d|, 0);
        return true, ok;
      }
      return true, true;
    }

    /** Stage 0: everything up to and including the opening line is dropped. */
    method SkipPreamble() returns (done: bool)
      requires Valid() && state == 0 && Pending() != ""
      modifies this`spos, this`state
      ensures Valid()
      ensures forall log, answer ::
                TakeTurn(boundary, old(State(log)), answer)
                    == if done then Return(true, State(log)) else Again(State(log))
    {
      var open := OpeningLine(boundary);
      var skip := BufFind(open);
      FindIsFirst(Pending(), open);
      BufErase(skip);
      if |open| > epos - spos {
        return true;
      }
      // the occurrence just found makes the source's "return false" here unreachable
      var starts := BufStartsWith(open);
      assert starts;
      BufErase(|open|);
      state := 1;
      return false;
    }

    /** Stage 4: after a delimiter, a line end starts a new entry and two dashes end the body. */
    method AfterDelimiter() returns (done: bool)
      requires Valid() && state == 4 && Pending() != ""
      modifies this`spos, this`state, this`isValid
      ensures Valid()
      ensures forall log, answer ::
                TakeTurn(boundary, old(State(log)), answer)
                    == if done then Return(true, State(log)) else Again(State(log))
    {
      if epos - spos < 2 {
        return true;
      }
      var isCrlf := BufStartsWith(CRLF);
      if isCrlf {
        BufErase(2);
        state := 1;
        return false;
      }
      var isDash := BufStartsWith(DASH);
      if isDash {
        BufErase(2);
        isValid := true;
        BufErase(epos - spos);
      }
      return true;
    }

    /** One turn of the loop. `done` tells that `parse` returns `ok`. */
    method Advance(receiver: Receiver) returns (done: bool, ok: bool)
      requires Valid() && Pending() != ""
      modifies this`spos, this`state, this`isValid, this`file, receiver
      ensures Valid()
      ensures TakeTurn(boundary, old(State(receiver.log)), receiver.answer)
           == if done then Return(ok, State(receiver.log)) else Again(State(receiver.log))
    {
      ok := true;
      match state
      case 0 => done := SkipPreamble();
      case 1 =>
        file := NO_FILE;
        state := 2;
        done := false;
      case 2 =>
        var pos := BufFind(CRLF);
        if pos > HEADER_MAX {
          return true, false;
        }
        done, ok := ReadHeaderLines(receiver);
      case 3 => done, ok := ReadBody(receiver);
      case _ => done := AfterDelimiter();
    }

    /** Feeds one chunk. */
    method ParseChunk(data: string, receiver: Receiver) returns (ok: bool)
      requires Valid()
      modifies this, buf, receiver
      ensures Valid() && (buf == old(buf) || fresh(buf))
      ensures (ok, State(receiver.log))
           == Parse(boundary, old(State(receiver.log)), data, receiver.answer)
    {
      BufAppend(data);
      ghost var start := State(receiver.log);
      while epos - spos > 0
        invariant Valid() && (buf == old(buf) || fresh(buf))
        invariant Loop(boundary, start, receiver.answer)
               == Loop(boundary, State(receiver.log), receiver.answer)
        decreases |Pending()| + Rank(State(receiver.log))
      {
        ghost var here := State(receiver.log);
        var done, result := Advance(receiver);
        LoopUnfolds(boundary, here, receiver.answer);
        if done {
          return result;
        }
      }
      return true;
    }
  }
}
