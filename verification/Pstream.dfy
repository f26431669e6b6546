/** The stream buffer over a child process: one get area switched between the stdout and stderr pipes,
    with a two-character putback area, and a put area emptied into the stdin pipe by partial writes. */
module Pstream {
  import opened Prelude

  const BUFFER_SIZE := 32
  const PUTBACK_SIZE := 2

  // ----- Reading -----

  datatype Outcome = Delivered(n: nat) | Ended | WouldBlock | Failed

  /** A pipe to read from: `bytes` is all that will still come out of it. `readCount` counts the reads, `last` is
      how the last one went, and `early` tells whether one that waits has given nothing with more to come. */
  class InPipe {
    var bytes: seq<char>
    ghost var readCount: nat
    ghost var last: Outcome
    ghost var early: bool

    /** A read moves some of the bytes into `buffer`, or ends (0), or fails (-1) without an effect. */
    method Read(buffer: array<char>, at: nat, n: nat, ghost waits: bool) returns (rc: int, again: bool)
      requires at + n <= buffer.Length
      modifies this, buffer
      ensures -1 <= rc <= n && rc <= |old(bytes)|
      ensures rc <= 0 ==> bytes == old(bytes) && buffer[..] == old(buffer[..])
      ensures rc > 0 ==> bytes == old(bytes)[rc..] && buffer[at..at + rc] == old(bytes)[..rc]
      ensures buffer[..at] == old(buffer[..at])
      ensures readCount == old(readCount) + 1
      ensures last == if rc > 0 then Delivered(rc) else if rc == 0 then Ended else if again then WouldBlock else Failed
      ensures early == (old(early) || (waits && rc <= 0 && old(bytes) != []))
    {
      rc, again := *, *;
      readCount := readCount + 1;
      if rc <= 0 || rc > n || rc > |bytes| {
        rc := if rc == 0 then 0 else -1;
        last := if rc == 0 then Ended else if again then WouldBlock else Failed;
        early := early || (waits && bytes != []);
        return;
      }
      last := Delivered(rc);
      ghost var front := buffer[..at];
      for i := 0 to rc
        modifies buffer
        invariant buffer[..at] == front
        invariant buffer[at..at + i] == bytes[..i]
      {
        buffer[at + i] := bytes[i];
      }
      bytes := bytes[rc..];
    }
  }

  /** One read has been made, and how it went decides whether the
      buffer is filled: with what it delivered, or, when it need not wait, with nothing for the time being. */
  twostate predicate FilledBy(pipe: InPipe, nonBlocking: bool, ok: bool, unread: seq<char>)
    reads pipe
  {
    && pipe.readCount == old(pipe.readCount) + 1
    && ok == (pipe.last.Delivered? || (nonBlocking && pipe.last.WouldBlock?))
    && |unread| == (if pipe.last.Delivered? then pipe.last.n else 0)
    && unread + pipe.bytes == old(pipe.bytes)
    && (pipe.last.Delivered? ==> unread != [])
    && pipe.early == (old(pipe.early) || (!nonBlocking && !pipe.last.Delivered? && old(pipe.bytes) != []))
  }

  datatype Source = Out | Err

  datatype Command = ReadOne | SwitchTo(source: Source) | Ask

  /** The get area's pointers, as offsets into the active buffer; `NoArea` when they are null. */
  datatype Area = NoArea | Area(eback: nat, gptr: nat, egptr: nat)

  /** The characters of `area` not yet extracted, and those kept for putting back. */
  function Unread(buffer: seq<char>, area: Area): seq<char>
    requires area.Area? ==> area.eback <= area.gptr <= area.egptr <= |buffer|
  {
    if area == NoArea then [] else buffer[area.gptr..area.egptr]
  }

  function Putback(buffer: seq<char>, area: Area): seq<char>
    requires area.Area? ==> area.eback <= area.gptr <= area.egptr <= |buffer|
  {
    if area == NoArea then [] else buffer[area.eback..area.gptr]
  }

  /** `tail` is the end of `s`. */
  predicate IsSuffix(tail: seq<char>, s: seq<char>) {
    |tail| <= |s| && tail == s[|s| - |tail|..]
  }

  /** One source as its reader sees it: `stream` is everything it is to deliver, of which `got` has been
      extracted. */
  datatype Reader = Reader(stream: seq<char>, got: seq<char>)

  /** The extracted, the buffered and the piped characters make up the stream, in this order, and the
      putback area holds the last extracted ones. */
  ghost predicate Flow(r: Reader, unread: seq<char>, putback: seq<char>, piped: seq<char>) {
    r.stream == r.got + (unread + piped) && IsSuffix(putback, r.got)
  }

  ghost predicate InBuffer(buffer: seq<char>, area: Area) {
    area.Area? ==> area.eback <= area.gptr <= area.egptr <= |buffer|
  }

  ghost predicate Consistent(r: Reader, buffer: seq<char>, area: Area, piped: seq<char>) {
    InBuffer(buffer, area) && Flow(r, Unread(buffer, area), Putback(buffer, area), piped)
  }

  /** The last `n` characters that could be put back. */
  function LastPutback(buffer: seq<char>, area: Area, n: nat): seq<char>
    requires area.Area? ==> area.eback <= area.gptr <= area.egptr <= |buffer|
  {
    var p := Putback(buffer, area);
    if |p| <= n then p else p[|p| - n..]
  }

  /** Moves the last extracted characters (at most two) below the place that a read will fill. */
  method KeepPutback(b: array<char>, area: Area) returns (npb: nat)
    requires b.Length == BUFFER_SIZE && (area.Area? ==> area.eback <= area.gptr <= area.egptr <= b.Length)
    modifies b
    ensures npb <= PUTBACK_SIZE && b[PUTBACK_SIZE - npb..PUTBACK_SIZE] == old(LastPutback(b[..], area, PUTBACK_SIZE))
  {
    var kept := if area == NoArea then 0 else area.gptr - area.eback;
    npb := if kept < PUTBACK_SIZE then kept else PUTBACK_SIZE;
    if npb > 0 {
      ghost var was := b[..];
      forall k | 0 <= k < npb {
        b[PUTBACK_SIZE - npb + k] := b[area.gptr - npb + k];
      }
      assert was[area.eback..area.gptr][kept - npb..] == was[area.gptr - npb..area.gptr];
      assert b[PUTBACK_SIZE - npb..PUTBACK_SIZE] == was[area.gptr - npb..area.gptr];
    }
  }

  lemma LastPutbackIsSuffix(r: Reader, b: seq<char>, area: Area, piped: seq<char>, n: nat)
    requires Consistent(r, b, area, piped)
    ensures IsSuffix(LastPutback(b, area, n), r.got)
  {
  }

  lemma FlowFill(r: Reader, piped: seq<char>, putback: seq<char>, rc: nat)
    requires rc <= |piped| && r.stream == r.got + piped && IsSuffix(putback, r.got)
    ensures Flow(r, piped[..rc], putback, piped[rc..]) && Flow(r, [], [], piped)
  {
    assert piped[..rc] + piped[rc..] == piped;
    assert [] + piped == piped;
  }

  /** Extracting a character moves it from the buffer to what has been extracted. */
  lemma FlowBump(r: Reader, c: char, unread: seq<char>, putback: seq<char>, piped: seq<char>)
    requires Flow(r, [c] + unread, putback, piped)
    ensures Flow(r.(got := r.got + [c]), unread, putback + [c], piped)
  {
    assert r.got + (([c] + unread) + piped) == (r.got + [c]) + (unread + piped);
  }

  /** Putting `c` in place of the last extracted character. */
  lemma FlowPutback(r: Reader, c: char, unread: seq<char>, putback: seq<char>, piped: seq<char>)
    requires Flow(r, unread, putback, piped) && putback != []
    ensures var n := |r.got| - 1;
            0 <= n < |r.stream| && r.got[n] == putback[|putback| - 1]
            && Flow(Reader(r.stream[n := c], r.got[..n]), [c] + unread, putback[..|putback| - 1], piped)
  {
    var n := |r.got| - 1;
    assert r.stream[n := c] == r.got[..n] + (([c] + unread) + piped);
  }

  lemma BumpSlices(b: seq<char>, area: Area)
    requires InBuffer(b, area) && area.Area? && area.gptr < area.egptr
    ensures var after := area.(gptr := area.gptr + 1);
            Unread(b, area) == [b[area.gptr]] + Unread(b, after)
                && Putback(b, after) == Putback(b, area) + [b[area.gptr]]
  {
  }

  lemma PutbackSlices(b: seq<char>, area: Area, c: char)
    requires InBuffer(b, area) && area.Area? && area.eback < area.gptr
    ensures var before, b' := area.(gptr := area.gptr - 1), b[area.gptr - 1 := c];
            Unread(b', before) == [c] + Unread(b, area)
            && Putback(b', before) == Putback(b, area)[..|Putback(b, area)| - 1]
  {
  }

  /** Refills the buffer of one source, keeping at most two extracted characters for putting back. */
  method Fill(b: array<char>, pipe: InPipe, area: Area, nonBlocking: bool, ghost r: Reader)
    returns (ok: bool, filled: Area)
    requires b.Length == BUFFER_SIZE && Consistent(r, b[..], area, pipe.bytes) && Unread(b[..], area) == []
    modifies b, pipe
    ensures Consistent(r, b[..], filled, pipe.bytes)
    ensures if ok then filled.Area? && Putback(b[..], filled) == old(LastPutback(b[..], area, PUTBACK_SIZE))
            else filled == NoArea
    ensures FilledBy(pipe, nonBlocking, ok, Unread(b[..], filled))
  {
    ghost var putback := LastPutback(b[..], area, PUTBACK_SIZE);
    LastPutbackIsSuffix(r, b[..], area, pipe.bytes, PUTBACK_SIZE);
    var npb := KeepPutback(b, area);
    ghost var low := b[..PUTBACK_SIZE];
    ghost var piped := pipe.bytes;
    assert low[PUTBACK_SIZE - npb..] == putback;
    assert [] + piped == piped;
    var rc, again := pipe.Read(b, PUTBACK_SIZE, BUFFER_SIZE - PUTBACK_SIZE, !nonBlocking);
    assert b[PUTBACK_SIZE - npb..PUTBACK_SIZE] == b[..PUTBACK_SIZE][PUTBACK_SIZE - npb..];
    if nonBlocking {
      if rc == -1 && again {
        rc := 0;
      } else if rc == 0 {
        rc := -1;
      }
    }
    ok := rc > 0 || (rc == 0 && nonBlocking);
    filled := NoArea;
    FlowFill(r, piped, putback, 0);
    if ok {
      filled := Area(PUTBACK_SIZE - npb, PUTBACK_SIZE, PUTBACK_SIZE + rc);
      FlowFill(r, piped, putback, rc);
      assert Unread(b[..], filled) == piped[..rc];
      assert piped[..rc] + piped[rc..] == piped;
    }
  }

  /** Steps over the next buffered character. */
  lemma Advance(b: seq<char>, area: Area, r: Reader, piped: seq<char>)
    requires Consistent(r, b, area, piped) && area.Area? && area.gptr < area.egptr
    ensures Consistent(r.(got := r.got + [b[area.gptr]]), b, area.(gptr := area.gptr + 1), piped)
  {
    var after := area.(gptr := area.gptr + 1);
    BumpSlices(b, area);
    FlowBump(r, b[area.gptr], Unread(b, after), Putback(b, area), piped);
  }

  /** Steps back over the last extracted character and stores `c` in its place. */
  method Replace(b: array<char>, area: Area, c: char, ghost r: Reader, ghost piped: seq<char>)
    returns (before: Area, ghost undone: Reader)
    requires Consistent(r, b[..], area, piped) && area.Area? && area.eback < area.gptr
    modifies b
    ensures Consistent(undone, b[..], before, piped)
    ensures var n := |r.got| - 1;
            0 <= n < |r.stream| && r.got[n] == old(b[area.gptr - 1]) && undone == Reader(r.stream[n := c], r.got[..n])
  {
    ghost var was := b[..];
    PutbackSlices(was, area, c);
    FlowPutback(r, c, Unread(was, area), Putback(was, area), piped);
    before := area.(gptr := area.gptr - 1);
    undone := Reader(r.stream[|r.got| - 1 := c], r.got[..|r.got| - 1]);
    b[before.gptr] := c;
    assert b[..] == was[before.gptr := c];
  }

  function After(command: Command, current: Source): Source {
    if command.SwitchTo? then command.source else current
  }

  function Asked(command: Command, current: Source, which: Source): nat {
    if command.ReadOne? && current == which then 1 else 0
  }

  function Min(a: nat, b: nat): nat {
    if a < b then a else b
  }

  class PstreamReader {
    const outBuffer: array<char>
    const errBuffer: array<char>
    const outPipe: InPipe
    const errPipe: InPipe
    var source: Source
    var area: Area
    var savedArea: Area
    ghost var out: Reader
    ghost var err: Reader
    ghost var outAsked: nat     // the reads made of each source
    ghost var errAsked: nat

    ghost predicate Valid()
      reads this, outBuffer, errBuffer, outPipe, errPipe
    {
      && outBuffer.Length == errBuffer.Length == BUFFER_SIZE
      && outBuffer != errBuffer && outPipe != errPipe
      && Consistent(out, outBuffer[..], if source == Out then area else savedArea, outPipe.bytes)
      && Consistent(err, errBuffer[..], if source == Err then area else savedArea, errPipe.bytes)
    }

    /** The source being read, and the other one. */
    ghost function Reading(): Reader
      reads this
    {
      if source == Out then out else err
    }

    ghost function Other(): Reader
      reads this
    {
      if source == Out then err else out
    }

    function Pipe(): InPipe
      reads this
    {
      if source == Out then outPipe else errPipe
    }

    function OtherPipe(): InPipe
      reads this
    {
      if source == Out then errPipe else outPipe
    }

    ghost function Piped(): seq<char>
      reads this, outPipe, errPipe
    {
      Pipe().bytes
    }

    /** The buffered characters not yet extracted. */
    ghost function Buffered(): seq<char>
      requires Valid()
      reads this, outBuffer, errBuffer, outPipe, errPipe
    {
      Unread(Buffer()[..], area)
    }

    function Buffer(): array<char>
      reads this
    {
      if source == Out then outBuffer else errBuffer
    }

    /** The state after opening both pipes: stdout is active with an empty get area. */
    constructor (outPipe: InPipe, errPipe: InPipe)
      requires outPipe != errPipe
      ensures Valid() && fresh(outBuffer) && fresh(errBuffer)
      ensures this.outPipe == outPipe && this.errPipe == errPipe
      ensures source == Out && out == Reader(outPipe.bytes, []) && err == Reader(errPipe.bytes, [])
      ensures outAsked == errAsked == 0
    {
      outBuffer := new char[BUFFER_SIZE];
      errBuffer := new char[BUFFER_SIZE];
      this.outPipe, this.errPipe := outPipe, errPipe;
      source := Out;
      outAsked, errAsked := 0, 0;
      area := Area(PUTBACK_SIZE, PUTBACK_SIZE, PUTBACK_SIZE);
      savedArea := NoArea;
      out, err := Reader(outPipe.bytes, []), Reader(errPipe.bytes, []);
    }

    /** Swaps the current and the saved get area; neither source loses a character. */
    method SwitchReadBuffer(to: Source)
      requires Valid()
      modifies this`source, this`area, this`savedArea
      ensures Valid() && source == to && out == old(out) && err == old(err)
    {
      if source != to {
        area, savedArea := savedArea, area;
        source := to;
      }
    }

    method FillBuffer(nonBlocking: bool) returns (ok: bool)
      requires Valid() && Buffered() == []
      modifies this`area, Buffer(), Pipe()
      ensures Valid() && source == old(source) && out == old(out) && err == old(err)
      ensures if ok then area.Area? && Putback(Buffer()[..], area) == old(LastPutback(Buffer()[..], area, PUTBACK_SIZE))
              else area == NoArea
      ensures FilledBy(Pipe(), nonBlocking, ok, Buffered())
    {
      var filled;
      if source == Out {
        ok, filled := Fill(outBuffer, outPipe, area, nonBlocking, out);
      } else {
        ok, filled := Fill(errBuffer, errPipe, area, nonBlocking, err);
      }
      area := filled;
    }

    /** The next character of the active source, if it can be had: a buffered one without a read, and otherwise
        the first that a read delivers. There is none exactly if that read delivers nothing. */
    method Underflow() returns (c: Option<char>)
      requires Valid()
      modifies this`area, Buffer(), Pipe()
      ensures Valid() && source == old(source) && out == old(out) && err == old(err)
      ensures c.Some? ==> area.Area? && area.gptr < area.egptr && c.value == Buffer()[area.gptr]
      ensures Pipe().readCount == old(Pipe().readCount) + if old(Buffered()) == [] then 1 else 0
      ensures old(Buffered()) != [] ==> c == Some(old(Buffered())[0]) && Pipe().early == old(Pipe().early)
      ensures old(Buffered()) == [] && Pipe().last.Delivered? ==>
                old(Piped()) != [] && c == Some(old(Piped())[0]) && Pipe().early == old(Pipe().early)
      ensures old(Buffered()) == [] && !Pipe().last.Delivered? ==>
                c == None && Buffered() == [] && Piped() == old(Piped())
                && Pipe().early == (old(Pipe().early) || old(Piped()) != [])
    {
      var ok := true;
      if area == NoArea || area.gptr >= area.egptr {
        ok := FillBuffer(false);
        assert Buffered() != [] ==> (Buffered() + Piped())[0] == Buffered()[0];
      }
      c := if ok then Some(Buffer()[area.gptr]) else None;
    }

    /** Steps over the buffered character that is next. */
    method TakeBuffered() returns (c: char)
      requires Valid() && area.Area? && area.gptr < area.egptr
      modifies this`area, this`out, this`err
      ensures Valid() && source == old(source) && Other() == old(Other())
      ensures c == old(Buffer()[area.gptr]) && Reading() == old(Reading()).(got := old(Reading().got) + [c])
      ensures area.Area? && area.eback < area.gptr
    {
      hide Flow;
      c := Buffer()[area.gptr];
      Advance(Buffer()[..], area, Reading(), Piped());
      area := area.(gptr := area.gptr + 1);
      if source == Out {
        out := out.(got := out.got + [c]);
      } else {
        err := err.(got := err.got + [c]);
      }
    }

    lemma Extracted()
      requires Valid()
      ensures |Reading().stream| == |Reading().got| + |Buffered()| + |Piped()|
      ensures out.got <= out.stream && err.got <= err.stream
    {
    }

    /** Extracts a character: always the next one of the active source's stream; the other source is not
        touched, and the character can be put back. Unless a read gives nothing with more to come, there is
        a character as long as the stream has not been extracted whole. */
    method Bump() returns (c: Option<char>)
      requires Valid()
      modifies this`area, this`out, this`err, Buffer(), Pipe()
      ensures Valid() && source == old(source) && Other() == old(Other()) && Reading().stream == old(Reading().stream)
      ensures Reading().got == old(Reading().got) + if c.Some? then [c.value] else []
      ensures c.Some? ==> area.Area? && area.eback < area.gptr
      ensures old(Buffered()) != [] ==> c.Some? && Pipe().readCount == old(Pipe().readCount)
      ensures old(Pipe().early) ==> Pipe().early
      ensures !Pipe().early ==> (c.Some? <==> |old(Reading().got)| < |Reading().stream|)
    {
      Extracted();
      hide Valid, Flow, Consistent;
      c := Underflow();
      if c.Some? {
        var taken := TakeBuffered();
        assert taken == c.value;
      }
    }

    /** Puts a character back: the last extracted one is the next again, or `c` in its stead. */
    method PutBack(c: char) returns (ok: bool)
      requires Valid()
      modifies this`area, this`out, this`err, Buffer()
      ensures Valid() && source == old(source) && Other() == old(Other())
      ensures ok == (old(area).Area? && old(area).gptr > old(area).eback)
      ensures !ok ==> Reading() == old(Reading())
      ensures ok ==> var n, r := |old(Reading().got)| - 1, old(Reading());
                     0 <= n < |r.stream| && Reading() == Reader(r.stream[n := c], r.got[..n])
    {
      hide Consistent;
      ok := area.Area? && area.gptr > area.eback;
      if ok {
        if source == Out {
          area, out := Replace(outBuffer, area, c, out, outPipe.bytes);
        } else {
          area, err := Replace(errBuffer, area, c, err, errPipe.bytes);
        }
      }
    }

    method NothingBuffered() returns (r: bool)
      requires Valid()
      ensures r == (Buffered() == [])
    {
      r := area == NoArea || area.gptr == area.egptr;
    }

    /** How many characters a consumer can have without blocking; asked only when none is buffered. It is -1
        exactly when the pipe has ended or failed. */
    method ShowManyC() returns (n: int)
      requires Valid() && Buffered() == []
      modifies this`area, Buffer(), Pipe()
      ensures Valid() && source == old(source) && out == old(out) && err == old(err)
      ensures Pipe().readCount == old(Pipe().readCount) + 1 && Pipe().early == old(Pipe().early)
      ensures n == match Pipe().last
                   case Delivered(k) => k
                   case WouldBlock => 0
                   case _ => -1
      ensures Buffered() + Piped() == old(Piped()) && (n >= 0 ==> n == |Buffered()|)
    {
      var ok := FillBuffer(true);
      n := if ok then area.egptr - area.gptr else -1;
    }

    /** Of each source, as many characters have been extracted as were asked of it, up to the end of its stream,
        unless a read that waits gave nothing with more to come. */
    ghost predicate Complete()
      reads this, outPipe, errPipe
    {
      && (!outPipe.early ==> |out.got| == Min(outAsked, |out.stream|))
      && (!errPipe.early ==> |err.got| == Min(errAsked, |err.stream|))
    }

    /** Asks the active source for a character. */
    method ReadNext() returns (c: Option<char>)
      requires Valid()
      modifies this`area, this`out, this`err, this`outAsked, this`errAsked, Buffer(), Pipe()
      ensures Valid() && source == old(source) && out.stream == old(out.stream) && err.stream == old(err.stream)
      ensures out.got == old(out.got) + if source == Out && c.Some? then [c.value] else []
      ensures err.got == old(err.got) + if source == Err && c.Some? then [c.value] else []
      ensures outAsked == old(outAsked) + (if source == Out then 1 else 0)
      ensures errAsked == old(errAsked) + (if source == Err then 1 else 0)
      ensures old(Complete()) ==> Complete()
    {
      Extracted();
      hide Valid;
      c := Bump();
      if source == Out {
        outAsked := outAsked + 1;
      } else {
        errAsked := errAsked + 1;
      }
    }

    method LookAhead()
      requires Valid()
      modifies this`area, Buffer(), Pipe()
      ensures Valid() && out == old(out) && err == old(err) && Pipe().early == old(Pipe().early)
    {
      var none := NothingBuffered();
      if none {
        var n := ShowManyC();
      }
    }

    /** One command. */
    method Do(command: Command) returns (c: Option<char>)
      requires Valid()
      modifies this, Buffer(), Pipe()
      ensures Valid() && source == After(command, old(source)) && (c.Some? ==> command.ReadOne?)
      ensures out.stream == old(out.stream) && err.stream == old(err.stream)
      ensures out.got == old(out.got) + if old(source) == Out && c.Some? then [c.value] else []
      ensures err.got == old(err.got) + if old(source) == Err && c.Some? then [c.value] else []
      ensures outAsked == old(outAsked) + Asked(command, old(source), Out)
      ensures errAsked == old(errAsked) + Asked(command, old(source), Err)
      ensures old(Complete()) ==> Complete()
    {
      hide Valid;
      c := None;
      match command
      case SwitchTo(to) => SwitchReadBuffer(to);
      case Ask => LookAhead();
      case ReadOne => c := ReadNext();
    }
  }

  /** The number of characters that the commands ask of one source, the active source being `current`. */
  function ReadsOf(commands: seq<Command>, current: Source, which: Source): nat {
    if commands == [] then 0
    else
      match commands[0]
      case SwitchTo(to) => ReadsOf(commands[1..], to, which)
      case Ask => ReadsOf(commands[1..], current, which)
      case ReadOne => (if current == which then 1 else 0) + ReadsOf(commands[1..], current, which)
  }

  lemma ReadsStep(commands: seq<Command>, i: nat, current: Source, which: Source)
    requires i < |commands|
    ensures ReadsOf(commands[i..], current, which)
         == Asked(commands[i], current, which) + ReadsOf(commands[i + 1..], After(commands[i], current), which)
  {
    assert commands[i..][1..] == commands[i + 1..];
  }

  /** Any interleaving of reads, switches and availability checks: the characters obtained from each source
      are a prefix of what its pipe held, in order. If no read that waits gave nothing with more to come, they
      are as many as were asked of this source, up to the end of what its pipe held. */
  method Interleave(outPipe: InPipe, errPipe: InPipe, commands: seq<Command>)
    returns (fromOut: seq<char>, fromErr: seq<char>)
    requires outPipe != errPipe
    modifies outPipe, errPipe
    ensures fromOut <= old(outPipe.bytes) && fromErr <= old(errPipe.bytes)
    ensures !outPipe.early ==> |fromOut| == Min(ReadsOf(commands, Out, Out), |old(outPipe.bytes)|)
    ensures !errPipe.early ==> |fromErr| == Min(ReadsOf(commands, Out, Err), |old(errPipe.bytes)|)
  {
    var reader := new PstreamReader(outPipe, errPipe);
    hide PstreamReader.Valid;
    fromOut, fromErr := [], [];
    assert commands[0..] == commands;
    for i := 0 to |commands|
      invariant reader.Valid() && fresh(reader) && fresh(reader.outBuffer) && fresh(reader.errBuffer)
      invariant reader.outPipe == outPipe && reader.errPipe == errPipe && reader.Complete()
      invariant reader.out == Reader(old(outPipe.bytes), fromOut) && reader.err == Reader(old(errPipe.bytes), fromErr)
      invariant ReadsOf(commands, Out, Out) == reader.outAsked + ReadsOf(commands[i..], reader.source, Out)
      invariant ReadsOf(commands, Out, Err) == reader.errAsked + ReadsOf(commands[i..], reader.source, Err)
    {
      hide ReadsOf, Asked, After, PstreamReader.Complete;
      ReadsStep(commands, i, reader.source, Out);
      ReadsStep(commands, i, reader.source, Err);
      var reading := reader.source;
      var c := reader.Do(commands[i]);
      if c.Some? && reading == Out {
        fromOut := fromOut + [c.value];
      } else if c.Some? {
        fromErr := fromErr + [c.value];
      }
    }
    reader.Extracted();
  }

  // ----- Writing -----

  /** A pipe to write to: `bytes` is all that has gone into it, and `refusals` counts the writes of which it
      took nothing. */
  class OutPipe {
    var bytes: seq<char>
    ghost var refusals: nat

    /** A write takes the first `n` characters, or fails (-1). */
    method Write(data: seq<char>) returns (n: int)
      modifies this
      ensures -1 <= n <= |data| && bytes == old(bytes) + if n > 0 then data[..n] else []
      ensures refusals == old(refusals) + if n > 0 then 0 else 1
    {
      n := *;
      if n <= 0 || n > |data| {
        refusals := refusals + 1;
        return if n == 0 then 0 else -1;
      }
      bytes := bytes + data[..n];
    }
  }

  class PstreamWriter {
    const buffer: array<char>
    const pipe: OutPipe
    var pptr: nat
    ghost var accepted: seq<char>

    /** What was accepted has been piped, or is still buffered, in order. */
    ghost predicate Valid()
      reads this, buffer, pipe
    {
      && buffer.Length == BUFFER_SIZE && pptr <= BUFFER_SIZE
      && accepted == pipe.bytes + buffer[..pptr]
    }

    constructor (pipe: OutPipe)
      ensures Valid() && fresh(buffer) && this.pipe == pipe && accepted == pipe.bytes && pptr == 0
    {
      buffer := new char[BUFFER_SIZE];
      this.pipe, pptr, accepted := pipe, 0, pipe.bytes;
    }

    /** Writes what is buffered; what the pipe does not take moves to the front. It fails exactly if nothing is
        buffered, or the pipe takes nothing. */
    method EmptyBuffer() returns (ok: bool)
      requires Valid()
      modifies this`pptr, buffer, pipe
      ensures Valid() && (if ok then pptr < old(pptr) else pptr == old(pptr))
      ensures ok == (old(pptr) > 0 && pipe.refusals == old(pipe.refusals))
      ensures pipe.refusals == old(pipe.refusals) + if ok || old(pptr) == 0 then 0 else 1
    {
      if pptr == 0 {
        return false;
      }
      ghost var was, piped := buffer[..pptr], pipe.bytes;
      var written := pipe.Write(buffer[..pptr]);
      if written <= 0 {
        return false;
      }
      forall k | 0 <= k < pptr - written {
        buffer[k] := buffer[written + k];
      }
      pptr := pptr - written;
      assert buffer[..pptr] == was[written..];
      Rejoin(piped, was, written);
      return true;
    }

    lemma Rejoin(a: seq<char>, b: seq<char>, n: nat)
      requires n <= |b|
      ensures (a + b[..n]) + b[n..] == a + b
    {
    }

    /** Stores `c` if there is room for it. */
    method Store(c: char)
      requires Valid() && pptr < BUFFER_SIZE
      modifies this`pptr, this`accepted, buffer
      ensures Valid() && accepted == old(accepted) + [c] && pptr == old(pptr) + 1
    {
      ghost var was := buffer[..pptr];
      buffer[pptr] := c;
      pptr := pptr + 1;
      assert buffer[..pptr] == was + [c];
      accepted := accepted + [c];
    }

    /** Called when the buffer is full: makes room, then stores `c` if there is one. */
    method Overflow(c: Option<char>) returns (ok: bool)
      requires Valid()
      modifies this`pptr, this`accepted, buffer, pipe
      ensures Valid() && accepted == old(accepted) + if ok && c.Some? then [c.value] else []
      ensures ok == (old(pptr) > 0 && pipe.refusals == old(pipe.refusals))
    {
      ok := EmptyBuffer();
      if ok && c.Some? {
        Store(c.value);
      }
    }

    /** Accepts characters until all are accepted or the pipe refuses while the buffer is full; whatever
        the pipe takes at a time, nothing is lost, repeated or reordered. */
    method Xsputn(s: seq<char>) returns (done: nat)
      requires Valid()
      modifies this`pptr, this`accepted, buffer, pipe
      ensures Valid() && done <= |s| && accepted == old(accepted) + s[..done]
      ensures done < |s| ==> pptr == BUFFER_SIZE
      ensures done == |s| <==> pipe.refusals == old(pipe.refusals)
    {
      done := 0;
      while done < |s|
        invariant Valid() && done <= |s| && accepted == old(accepted) + s[..done]
        invariant pipe.refusals == old(pipe.refusals)
        decreases |s| - done, pptr
      {
        var room := BUFFER_SIZE - pptr;
        if room > 0 {
          var n := if room < |s| - done then room else |s| - done;
          CopyIn(s[done..done + n]);
          assert s[..done] + s[done..done + n] == s[..done + n];
          done := done + n;
        } else {
          var ok := EmptyBuffer();
          if !ok {
            break;
          }
        }
      }
    }

    method CopyIn(s: seq<char>)
      requires Valid() && pptr + |s| <= BUFFER_SIZE
      modifies this`pptr, this`accepted, buffer
      ensures Valid() && accepted == old(accepted) + s
    {
      ghost var was := buffer[..pptr];
      forall k | 0 <= k < |s| {
        buffer[pptr + k] := s[k];
      }
      pptr := pptr + |s|;
      assert buffer[..pptr] == was + s;
      accepted := accepted + s;
    }
  }
}
