/** What the parser makes of chunks that come after the one with the end marker. Bytes behind the marker in
    its own chunk are dropped, but a later chunk that begins with a line end is read as a further entry. */
module MultipartEpilogue {
  import opened Prelude
  import opened Text
  import opened MultipartHeader
  import opened MultipartParser
  import opened MultipartMachine
  import opened MultipartRoundTrip
  import opened MultipartHeaderLines

  /** The bytes that are read as further entries, if any: those behind a line end that comes first in the
      later chunks. A further end marker that comes first drops the chunk that completes it. `pending` are
      bytes (less than two) that have come already. */
  function FurtherBytes(pending: string, chunks: seq<string>): Option<string>
    decreases |chunks|
  {
    if chunks == [] then None
    else
      var all := pending + chunks[0];
      if |all| < 2 then FurtherBytes(all, chunks[1..])
      else if all[..2] == CRLF then Some(all[2..] + Joined(chunks[1..]))
      else if all[..2] == DASH then FurtherBytes("", chunks[1..])
      else None
  }

  /** Bytes that are neither a line end nor a marker: the parser never goes on. */
  lemma {:induction false} NothingMore(boundary: string, p: Parser, chunks: seq<string>, answer: Answer)
    requires p.stage == 4 && |p.pending| >= 2 && p.pending[..2] != CRLF && p.pending[..2] != DASH
    ensures var (ok, final) := ParseAll(boundary, p, chunks, answer); ok && final.log == p.log && final.valid == p.valid
    decreases |chunks|
  {
    if chunks != [] {
      var q := p.(pending := p.pending + chunks[0]);
      assert q.pending[..2] == p.pending[..2];
      LoopUnfolds(boundary, q, answer);
      NothingMore(boundary, q, chunks[1..], answer);
    }
  }

  /** Reading on after a line end is reading from the start of an entry. */
  lemma FurtherEntry(boundary: string, p: Parser, chunks: seq<string>, answer: Answer)
    requires p.stage == 4 && chunks != [] && |p.pending + chunks[0]| >= 2 && (p.pending + chunks[0])[..2] == CRLF
    ensures ParseAll(boundary, p, chunks, answer)
         == ParseAll(boundary, p.(stage := 1, pending := ""), [(p.pending + chunks[0])[2..]] + chunks[1..], answer)
  {
    var all := p.pending + chunks[0];
    LoopUnfolds(boundary, p.(pending := all), answer);
    var next := [all[2..]] + chunks[1..];
    assert next[0] == all[2..] && next[1..] == chunks[1..];
    assert "" + all[2..] == all[2..];
  }

  /** What becomes of the parser, which has read an end marker, with the chunks that come later. */
  ghost predicate EndsAfterMarker(p: Parser, further: Option<string>, ok: bool, final: Parser) {
    match further
    case None => ok && final.log == p.log && final.valid == p.valid
    case Some(bytes) => Ends(p.(stage := 1, pending := ""), HeaderEnding(bytes, NO_FILE), ok, final)
  }

  lemma {:induction false} AfterMarker(boundary: string, p: Parser, chunks: seq<string>, answer: Answer)
    requires p.stage == 4 && |p.pending| < 2 && p.valid
    ensures var (ok, final) := ParseAll(boundary, p, chunks, answer);
            EndsAfterMarker(p, FurtherBytes(p.pending, chunks), ok, final)
    decreases |chunks|
  {
    if chunks != [] {
      var all := p.pending + chunks[0];
      var q := p.(pending := all);
      hide HeaderEnding, Find;
      if all == "" {
        AfterMarker(boundary, q, chunks[1..], answer);
      } else if |all| >= 2 && all[..2] == CRLF {
        var later := [all[2..]] + chunks[1..];
        FurtherEntry(boundary, p, chunks, answer);
        assert later[1..] == chunks[1..];
        assert "" + Joined(later) == Joined(later);
        if HeaderEnding(Joined(later), NO_FILE) != Long {
          HeaderInChunks(boundary, p.(stage := 1, pending := ""), later, answer);
        }
      } else {
        LoopUnfolds(boundary, q, answer);
        if |all| < 2 {
          AfterMarker(boundary, q, chunks[1..], answer);
        } else if all[..2] == DASH {
          AfterMarker(boundary, q.(valid := true, pending := ""), chunks[1..], answer);
        } else {
          NothingMore(boundary, q, chunks[1..], answer);
        }
      }
    }
  }

  /** After the end marker, later chunks make no callback exactly when they bring no complete header of a
      further entry (whose lines are not so long that this depends on the chunks). */
  lemma LaterChunksAddNothingIff(boundary: string, p: Parser, chunks: seq<string>, answer: Answer)
    requires AtEnd(p, Collect(p.log))
    requires FurtherBytes("", chunks).Some? ==> HeaderEnding(FurtherBytes("", chunks).value, NO_FILE) != Long
    ensures ParseAll(boundary, p, chunks, answer).1.log == p.log
       <==> (FurtherBytes("", chunks).Some? ==> HeaderEnding(FurtherBytes("", chunks).value, NO_FILE) != Complete)
  {
    AfterMarker(boundary, p, chunks, answer);
  }

  /** And they leave the parser valid, having made no callback, exactly when they bring no further header at
      all, or only the beginning of one. */
  lemma LaterChunksHarmlessIff(boundary: string, p: Parser, chunks: seq<string>, answer: Answer)
    requires AtEnd(p, Collect(p.log))
    requires FurtherBytes("", chunks).Some? ==> HeaderEnding(FurtherBytes("", chunks).value, NO_FILE) != Long
    ensures var (ok, final) := ParseAll(boundary, p, chunks, answer);
            ok && final.valid && final.log == p.log
            <==> (FurtherBytes("", chunks).Some?
                ==> HeaderEnding(FurtherBytes("", chunks).value, NO_FILE) == Incomplete)
  {
    AfterMarker(boundary, p, chunks, answer);
  }

  lemma ReadsFurtherEntry(boundary: string, m: Machine, item: Item)
    requires m.phase.Boundary? && '\r' !in boundary && PlainItem(item, boundary)
    requires m.pending == CRLF + (EntryHeader(item.file) + (item.content + (Delimiter(boundary) + "")))
    ensures Rest(boundary, m) == Machine(Boundary, "", item.file, m.items + [item])
  {
    hide Rest, EntryHeader, Delimiter;
    var more := EntryHeader(item.file) + (item.content + (Delimiter(boundary) + ""));
    AtLineEnd(boundary, m, more);
    ReadsEntry(boundary, m.file, m.items, item, "");
    StepThenRest(boundary, Machine(Boundary, "", item.file, m.items + [item]));
  }

  /** The end marker does not end a body: an entry that comes after it in chunks of its own, behind a line
      end, is delivered like any other. */
  lemma LaterEntryIsDelivered(boundary: string, p: Parser, item: Item, chunks: seq<string>, answer: Answer)
    requires AtEnd(p, Collect(p.log)) && Accepting(answer) && '\r' !in boundary && PlainItem(item, boundary)
    requires Joined(chunks) == CRLF + (EntryHeader(item.file) + (item.content + (Delimiter(boundary) + "")))
    ensures var (ok, final) := ParseAll(boundary, p, chunks, answer);
            ok && Collect(final.log) == Collect(p.log) + [item]
  {
    hide Rest, EntryHeader, Delimiter, Find, PlainFile;
    StepThenRest(boundary, MachineOf(p));
    assert "" + Joined(chunks) == Joined(chunks);
    ReadsFurtherEntry(boundary, Fed(MachineOf(p), Joined(chunks)), item);
    SplitDoesNotMatter(boundary, p, chunks, answer);
  }

  /** In the chunk of the end marker, the same bytes are dropped. */
  lemma SameChunkIsDropped(boundary: string, p: Parser, bytes: string, answer: Answer)
    requires p.stage == 4 && p.pending == ""
    ensures Parse(boundary, p, DASH + bytes, answer) == (true, p.(valid := true))
  {
    var q := p.(pending := p.pending + (DASH + bytes));
    assert q.pending[..2] == DASH;
    LoopUnfolds(boundary, q, answer);
  }
}
