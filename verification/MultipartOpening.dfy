/** The opening line of a multipart body must come in one chunk: before it is found, the parser keeps nothing
    from one chunk to the next. */
module MultipartOpening {
  import opened Prelude
  import opened Text
  import opened MultipartHeader
  import opened MultipartParser
  import opened MultipartMachine
  import opened MultipartRoundTrip

  /** A chunk without the opening line is dropped, even if it ends with the first half of it. */
  lemma ChunkIsDropped(boundary: string, p: Parser, chunk: string, answer: Answer)
    requires p.stage == 0 && p.pending == "" && Find(chunk, OpeningLine(boundary)) == |chunk|
    ensures Parse(boundary, p, chunk, answer) == (true, p)
  {
    var q := p.(pending := p.pending + chunk);
    assert q.pending == chunk && chunk[|chunk|..] == "";
    if chunk != "" {
      LoopUnfolds(boundary, q, answer);
    }
  }

  /** The number of chunks before the first that holds the opening line. */
  function ChunksBefore(boundary: string, chunks: seq<string>): (j: nat)
    ensures j <= |chunks|
  {
    if chunks == [] || Find(chunks[0], OpeningLine(boundary)) < |chunks[0]| then 0
    else 1 + ChunksBefore(boundary, chunks[1..])
  }

  /** For every body, in any chunks: the parser does as if the chunks before that had not come. */
  lemma {:induction false} ReadsFromOpening(boundary: string, p: Parser, chunks: seq<string>, answer: Answer)
    requires p.stage == 0 && p.pending == ""
    ensures var j := ChunksBefore(boundary, chunks);
            ParseAll(boundary, p, chunks, answer) == ParseAll(boundary, p, chunks[j..], answer)
            && (j < |chunks| ==> Find(chunks[j], OpeningLine(boundary)) < |chunks[j]|)
  {
    hide Find, Parse;
    var j := ChunksBefore(boundary, chunks);
    if j == 0 {
      assert chunks[0..] == chunks;
    } else {
      ChunkIsDropped(boundary, p, chunks[0], answer);
      ReadsFromOpening(boundary, p, chunks[1..], answer);
      assert chunks[1..][j - 1..] == chunks[j..];
    }
  }

  /** The opening line stands in the serialised body only where an item begins. */
  ghost predicate OnlyOwnOpenings(items: seq<Item>, boundary: string) {
    forall q :: OccursAt(Serialized(items, boundary), OpeningLine(boundary), q) ==> BeginsItem(items, boundary, q)
  }

  ghost predicate BeginsItem(items: seq<Item>, boundary: string, q: nat)
    requires q <= |Serialized(items, boundary)|
  {
    exists k :: 0 <= k <= |items| && Serialized(items, boundary)[q..] == Serialized(items[k..], boundary)
  }

  /** The end marker is no opening line. */
  lemma ClosingIsNotOpening(boundary: string)
    ensures !OccursAt(Serialized([], boundary), OpeningLine(boundary), 0)
  {
    var s, open, n := Serialized([], boundary), OpeningLine(boundary), |boundary| + 2;
    assert s == "" + (DASH + boundary + DASH + CRLF);
    assert s[n] == '-' && open[n] == '\r';
    assert n < |s[0..|open|]| ==> s[0..|open|][n] == s[n];
  }

  /** Reading from an opening line on, after anything that holds none. */
  lemma ReadsAfterJunk(boundary: string, items: seq<Item>, junk: string)
    requires items != [] && '\r' !in boundary && PlainItems(items, boundary)
    requires Find(junk + Serialized(items, boundary), OpeningLine(boundary)) == |junk|
    ensures var r := Rest(boundary, Fed(Start(), junk + Serialized(items, boundary)));
            r.phase.Finished? && r.pending == CRLF && r.items == items
  {
    hide Rest, Find, Entries, PlainItem;
    var open, more := OpeningLine(boundary), Entries(items, boundary);
    SerializedIsEntries(items, boundary);
    var s := junk + Serialized(items, boundary);
    assert s == junk + open + more && "" + s == s;
    assert s[|junk| + |open|..] == more;
    StepThenRest(boundary, Fed(Start(), s));
    EntriesAreRead(boundary, NO_FILE, [], items);
    assert [] + items == items;
  }

  lemma {:induction false} JoinedOfTwo(a: seq<string>, b: seq<string>)
    ensures Joined(a + b) == Joined(a) + Joined(b)
  {
    if a == [] {
      assert a + b == b;
    } else {
      assert (a + b)[1..] == a[1..] + b;
      JoinedOfTwo(a[1..], b);
    }
  }

  lemma SlicesOfRest(before: string, rest: string, at: nat, n: nat)
    requires at + n <= |rest|
    ensures (before + rest)[|before| + at..] == rest[at..]
    ensures (before + rest)[|before| + at..|before| + at + n] == rest[at..at + n] == rest[at..][0..0 + n]
    ensures rest == rest[..at] + rest[at..]
  {
  }

  lemma OwnOpening(boundary: string, items: seq<Item>, q: nat) returns (k: nat)
    requires items != [] && OnlyOwnOpenings(items, boundary) && q > 0
    requires OccursAt(Serialized(items, boundary), OpeningLine(boundary), q)
    ensures 0 < k < |items| && Serialized(items, boundary)[q..] == Serialized(items[k..], boundary)
  {
    var open, whole := OpeningLine(boundary), Serialized(items, boundary);
    hide Serialized, OpeningLine;
    assert BeginsItem(items, boundary, q);
    k :| 0 <= k <= |items| && whole[q..] == Serialized(items[k..], boundary);
    assert items[0..] == items && |whole[q..]| < |whole|;
    ClosingIsNotOpening(boundary);
    assert items[|items|..] == [] && whole[q..][0..0 + |open|] == whole[q..q + |open|];
  }

  /** An opening line that is found behind some of the body begins a later item. */
  lemma LaterItemFound(boundary: string, items: seq<Item>, before: string, rest: string) returns (k: nat)
    requires items != [] && OnlyOwnOpenings(items, boundary) && before != ""
             && before + rest == Serialized(items, boundary)
    requires Find(rest, OpeningLine(boundary)) < |rest|
    ensures 0 < k < |items|
    ensures rest == rest[..Find(rest, OpeningLine(boundary))] + Serialized(items[k..], boundary)
  {
    var open := OpeningLine(boundary);
    var at := Find(rest, open);
    FindIsFirst(rest, open);
    hide Find, Serialized, OnlyOwnOpenings;
    SlicesOfRest(before, rest, at, |open|);
    k := OwnOpening(boundary, items, |before| + at);
  }

  lemma ReadsLaterItems(boundary: string, items: seq<Item>, chunks: seq<string>, answer: Answer)
    requires items != [] && '\r' !in boundary && PlainItems(items, boundary) && Accepting(answer)
    requires chunks != [] && Find(chunks[0], OpeningLine(boundary)) < |chunks[0]|
    requires Joined(chunks) == Joined(chunks)[..Find(Joined(chunks), OpeningLine(boundary))]
             + Serialized(items, boundary)
    ensures Collect(ParseAll(boundary, Initial(), chunks, answer).1.log) == items
  {
    var junk := Joined(chunks)[..Find(Joined(chunks), OpeningLine(boundary))];
    hide Find, Serialized, PlainItem, OpeningLine, Rest, Joined, ParseAll;
    ReadsAfterJunk(boundary, items, junk);
    StepThenRest(boundary, Start());
    assert MachineOf(Initial()) == Start() && "" + chunks[0] == chunks[0];
    ParserFinishes(boundary, Initial(), chunks, answer);
  }

  /** Only the items from there on are read. */
  lemma LateOpeningLosesItems(boundary: string, items: seq<Item>, chunks: seq<string>, before: string, answer: Answer)
    requires items != [] && '\r' !in boundary && PlainItems(items, boundary) && Accepting(answer)
    requires OnlyOwnOpenings(items, boundary) && before != "" && before + Joined(chunks) == Serialized(items, boundary)
    requires chunks != [] && Find(chunks[0], OpeningLine(boundary)) < |chunks[0]|
    ensures |Collect(ParseAll(boundary, Initial(), chunks, answer).1.log)| < |items|
  {
    FindExtends(chunks[0], OpeningLine(boundary), Joined(chunks[1..]));
    hide Find, Serialized, PlainItem, OnlyOwnOpenings, OpeningLine;
    var k := LaterItemFound(boundary, items, before, Joined(chunks));
    ReadsLaterItems(boundary, items[k..], chunks, answer);
  }

  /** The number of empty chunks in front. */
  function EmptyChunks(chunks: seq<string>): (n: nat)
    ensures n <= |chunks| && (n < |chunks| ==> chunks[n] != "")
  {
    if chunks == [] || chunks[0] != "" then 0 else 1 + EmptyChunks(chunks[1..])
  }

  lemma {:induction false} EmptyChunksAreNothing(chunks: seq<string>)
    ensures Joined(chunks[..EmptyChunks(chunks)]) == "" && Joined(chunks[EmptyChunks(chunks)..]) == Joined(chunks)
  {
    var n := EmptyChunks(chunks);
    if n == 0 {
      assert chunks[0..] == chunks && chunks[..0] == [];
    } else {
      EmptyChunksAreNothing(chunks[1..]);
      assert chunks[..n][1..] == chunks[1..][..n - 1] && chunks[1..][n - 1..] == chunks[n..];
      assert "" + Joined(chunks[1..]) == Joined(chunks[1..]);
    }
  }

  lemma {:induction false} EmptyChunksComeBefore(boundary: string, chunks: seq<string>)
    ensures var n, j := EmptyChunks(chunks), ChunksBefore(boundary, chunks);
            && n <= j
            && (n < |chunks| ==> (n == j <==> Find(chunks[n], OpeningLine(boundary)) < |chunks[n]|))
  {
    if chunks != [] && chunks[0] == "" {
      EmptyChunksComeBefore(boundary, chunks[1..]);
    }
  }

  /** The first chunk that is not empty holds the opening line whole. */
  predicate OpeningIsWhole(boundary: string, chunks: seq<string>) {
    EmptyChunks(chunks) < |chunks| && |chunks[EmptyChunks(chunks)]| >= |OpeningLine(boundary)|
  }

  /** A beginning of the body holds the opening line exactly if it is long enough. */
  lemma HoldsOpeningIff(boundary: string, chunk: string, more: string)
    requires OpeningLine(boundary) <= chunk + more
    ensures Find(chunk, OpeningLine(boundary)) < |chunk| <==> |chunk| >= |OpeningLine(boundary)|
  {
    var open := OpeningLine(boundary);
    FindIsFirst(chunk, open);
    if |chunk| >= |open| {
      assert chunk[0..0 + |open|] == (chunk + more)[..|open|] == open;
      FindIs(chunk, open, 0);
    }
  }

  /** The round trip succeeds exactly when the first chunk that is not empty holds the whole opening line. */
  lemma RoundTripIffOpeningIsWhole(items: seq<Item>, boundary: string, chunks: seq<string>, answer: Answer)
    requires items != [] && '\r' !in boundary && PlainItems(items, boundary) && Accepting(answer)
    requires OnlyOwnOpenings(items, boundary) && Joined(chunks) == Serialized(items, boundary)
    ensures var (ok, final) := ParseAll(boundary, Initial(), chunks, answer);
            ok && final.valid && Collect(final.log) == items <==> OpeningIsWhole(boundary, chunks)
  {
    var n, j := EmptyChunks(chunks), ChunksBefore(boundary, chunks);
    EmptyChunksAreNothing(chunks);
    EmptyChunksComeBefore(boundary, chunks);
    ReadsFromOpening(boundary, Initial(), chunks, answer);
    SerializedIsEntries(items, boundary);
    FirstChunkHolds(boundary, chunks, Entries(items, boundary));
    hide Find, Serialized, Entries, OpeningLine, PlainItem, ParseAll, EmptyChunks, ChunksBefore, OnlyOwnOpenings;
    if OpeningIsWhole(boundary, chunks) {
      MultipartRoundTrip.MultipartRoundTrip(items, boundary, chunks[n..], answer);
    } else if j < |chunks| {
      SomethingBefore(chunks, n, j);
      LateOpeningLosesItems(boundary, items, chunks[j..], Joined(chunks[..j]), answer);
    } else {
      NothingIsRead(boundary, chunks[j..], answer);
    }
  }

  lemma FirstChunkHolds(boundary: string, chunks: seq<string>, more: string)
    requires Joined(chunks) == OpeningLine(boundary) + more
    ensures var n := EmptyChunks(chunks);
            n < |chunks| && (Find(chunks[n], OpeningLine(boundary)) < |chunks[n]| <==> OpeningIsWhole(boundary, chunks))
  {
    var n := EmptyChunks(chunks);
    EmptyChunksAreNothing(chunks);
    assert (OpeningLine(boundary) + more)[..|OpeningLine(boundary)|] == OpeningLine(boundary);
    HoldsOpeningIff(boundary, chunks[n], Joined(chunks[n..][1..]));
  }

  lemma SomethingBefore(chunks: seq<string>, n: nat, j: nat)
    requires n == EmptyChunks(chunks) < j <= |chunks|
    ensures Joined(chunks[..j]) != "" && Joined(chunks[..j]) + Joined(chunks[j..]) == Joined(chunks)
  {
    hide EmptyChunks, Joined;
    JoinedOfTwo(chunks[..j], chunks[j..]);
    assert chunks[..j] + chunks[j..] == chunks;
    JoinedOfTwo(chunks[..n], chunks[n..j]);
    assert chunks[..n] + chunks[n..j] == chunks[..j];
    FirstIsJoined(chunks[n..j]);
  }

  lemma FirstIsJoined(chunks: seq<string>)
    requires chunks != []
    ensures |chunks[0]| <= |Joined(chunks)|
  {
  }

  lemma NothingIsRead(boundary: string, chunks: seq<string>, answer: Answer)
    requires chunks == []
    ensures Collect(ParseAll(boundary, Initial(), chunks, answer).1.log) == []
  {
  }
}
