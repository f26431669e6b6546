/** Chunked transfer coding (section 7.1 of RFC 9112): the writer, the line reader, and the reader, over
    streams that accept and deliver bytes in portions of any size. */
module ChunkedCoding {
  import opened Prelude
  import opened Text
  import opened QueryCoding

  const RECV_BUFSIZ := 16384

  /** The width of an `unsigned long`, which is that of a chunk size for the reader. */
  datatype LongWidth = Long32 | Long64
  {
    function Max(): (m: nat)
      ensures m > 0
    {
      if Long32? then 0xFFFF_FFFF else 0xFFFF_FFFF_FFFF_FFFF
    }
  }

  // ----- Hexadecimal sizes -----

  function LowerHexDigit(v: nat): (c: char)
    requires v < 16
    ensures IsHex(c) && HexDigitValue(c) == v
  {
    if v < 10 then DigitChar(v) else (('a' as int) + v - 10) as char
  }

  function HexText(n: nat): (s: string)
    ensures s != "" && forall i :: 0 <= i < |s| ==> IsHex(s[i])
  {
    if n < 16 then [LowerHexDigit(n)] else HexText(n / 16) + [LowerHexDigit(n % 16)]
  }

  method FromIToHex(size: nat) returns (ret: string)
    ensures ret == HexText(size)
  {
    var n := size;
    ret := [LowerHexDigit(n % 16)];
    n := n / 16;
    while n > 0
      invariant HexText(size) == (if n > 0 then HexText(n) else "") + ret
    {
      ret := [LowerHexDigit(n % 16)] + ret;
      n := n / 16;
    }
  }

  lemma LowerHexDigitIs(v: nat)
    requires v < 16
    ensures LowerHexDigit(v) == "0123456789abcdef"[v]
  {
  }

  /** Sizes are printed in lower case, without leading zeros. */
  lemma {:induction false} HexTextIsLower(n: nat)
    ensures forall c :: c in HexText(n) ==> IsDigit(c) || 'a' <= c <= 'f'
    ensures n > 0 ==> HexText(n)[0] != '0'
  {
    LowerHexDigitIs(n % 16);
    if n >= 16 {
      HexTextIsLower(n / 16);
    }
  }

  lemma {:induction false} HexTextValue(n: nat)
    ensures HexValue(HexText(n)) == n
  {
    var s := HexText(n);
    if n < 16 {
      assert s[..|s| - 1] == "";
    } else {
      assert s[..|s| - 1] == HexText(n / 16);
      HexTextValue(n / 16);
    }
  }

  /** The first position from `i` on that holds no hexadecimal digit. */
  function DigitsEnd(s: string, i: nat): (r: nat)
    requires i <= |s|
    ensures i <= r <= |s| && (r < |s| ==> !IsHex(s[r])) && forall k :: i <= k < r ==> IsHex(s[k])
    decreases |s| - i
  {
    if i < |s| && IsHex(s[i]) then DigitsEnd(s, i + 1) else i
  }

  function SpacesEnd(s: string, i: nat): (r: nat)
    requires i <= |s|
    ensures i <= r <= |s| && (r < |s| ==> !IsSpace(s[r])) && forall k :: i <= k < r ==> IsSpace(s[k])
    decreases |s| - i
  {
    if i < |s| && IsSpace(s[i]) then SpacesEnd(s, i + 1) else i
  }

  /** `strtoul` in base 16: blanks, a sign, a "0x", digits; the value, or `None` when there is no digit. */
  function Strtoul(w: LongWidth, s: string): Option<nat> {
    var afterSpaces := SpacesEnd(s, 0);
    var signed := afterSpaces < |s| && (s[afterSpaces] == '-' || s[afterSpaces] == '+');
    var p := if signed then afterSpaces + 1 else afterSpaces;
    var marked := p + 2 < |s| && s[p] == '0' && (s[p + 1] == 'x' || s[p + 1] == 'X') && IsHex(s[p + 2]);
    var first := if marked then p + 2 else p;
    var end := DigitsEnd(s, first);
    if end == first then None
    else
      var v := HexValue(s[first..end]);
      if v > w.Max() then Some(w.Max())
      else if s[afterSpaces] == '-' && v > 0 then Some(w.Max() + 1 - v)
      else Some(v)
  }

  /** A line as C code sees it through its pointer. */
  function CString(line: string): string {
    line[..IndexOf(line, '\0')]
  }

  /** The chunk size on a line; `None` makes the reader fail. */
  function ChunkSize(w: LongWidth, line: string): Option<nat> {
    match Strtoul(w, CString(line))
    case None => None
    case Some(v) => if v == w.Max() then None else Some(v)
  }

  lemma HexLine(hex: string, tail: string)
    requires hex != "" && HexRun(hex, 0, |hex|)
    requires tail != "" && !IsHex(tail[0]) && tail[0] != 'x' && tail[0] != 'X'
    ensures var line := hex + tail;
            && |line| > |hex| && line[..|hex|] == hex && IsHex(line[0]) && line[1] != 'x' && line[1] != 'X'
            && SpacesEnd(line, 0) == 0 && DigitsEnd(line, 0) == |hex|
  {
    var line := hex + tail;
    assert forall k :: 0 <= k < |hex| ==> line[k] == hex[k] && IsHex(line[k]);
    assert line[|hex|] == tail[0];
    DigitsEndIs(line, 0, |hex|);
    assert line[1] == if |hex| > 1 then hex[1] else tail[0];
  }

  lemma StrtoulReads(w: LongWidth, hex: string, tail: string)
    requires hex != "" && HexRun(hex, 0, |hex|)
    requires tail != "" && !IsHex(tail[0]) && tail[0] != 'x' && tail[0] != 'X'
    ensures Strtoul(w, hex + tail) == Some(if HexValue(hex) > w.Max() then w.Max() else HexValue(hex))
  {
    HexLine(hex, tail);
    var line := hex + tail;
    hide HexValue, DigitsEnd, SpacesEnd, LongWidth.Max;
    assert line[0..|hex|] == hex;
  }

  /** The parts of a number: white space up to `n`, at most one sign up to `p`, the mark of a hexadecimal number
      or none up to `first`, and digits up to `end`. */
  ghost predicate Parts(s: string, n: nat, p: nat, first: nat, end: nat) {
    && n <= p <= first <= end <= |s|
    && (forall i :: 0 <= i < n ==> IsSpace(s[i])) && (n < |s| ==> !IsSpace(s[n]))
    && p == n + (if n < |s| && (s[n] == '+' || s[n] == '-') then 1 else 0)
    && first == p + (if p + 2 < |s| && (s[p..p + 2] == "0x" || s[p..p + 2] == "0X") && IsHex(s[p + 2]) then 2 else 0)
    && (forall i :: first <= i < end ==> IsHex(s[i])) && (end < |s| ==> !IsHex(s[end]))
  }

  /** Any string: the value of the digits, if there are some. A value that does not fit is cut to the largest
      one, and a minus sign subtracts from the next power of two. */
  lemma StrtoulIs(w: LongWidth, s: string, n: nat, p: nat, first: nat, end: nat)
    requires Parts(s, n, p, first, end)
    ensures Strtoul(w, s)
         == if first == end then None
            else
              var v := HexValue(s[first..end]);
              Some(if v > w.Max() then w.Max() else if s[n] == '-' && v > 0 then w.Max() + 1 - v else v)
  {
    hide HexValue, LongWidth.Max, SpacesEnd, DigitsEnd, IsSpace, IsHex;
    PartsAreFound(s, n, p, first, end);
    hide Parts;
  }

  lemma PartsAreFound(s: string, n: nat, p: nat, first: nat, end: nat)
    requires Parts(s, n, p, first, end)
    ensures n <= p <= first <= end <= |s| && SpacesEnd(s, 0) == n && DigitsEnd(s, first) == end
    ensures p == n + if n < |s| && (s[n] == '-' || s[n] == '+') then 1 else 0
    ensures first == p + if p + 2 < |s| && s[p] == '0' && (s[p + 1] == 'x' || s[p + 1] == 'X') && IsHex(s[p + 2])
                         then 2 else 0
  {
    SpacesEndAt(s, 0, n);
    DigitsEndIs(s, first, end);
    if p + 2 < |s| {
      MarkIs(s, p);
    }
  }

  lemma MarkIs(s: string, p: nat)
    requires p + 2 < |s|
    ensures s[p..p + 2] == "0x" <==> s[p] == '0' && s[p + 1] == 'x'
    ensures s[p..p + 2] == "0X" <==> s[p] == '0' && s[p + 1] == 'X'
  {
    assert s[p..p + 2] == [s[p], s[p + 1]];
  }

  lemma PartsExist(s: string)
    ensures exists n, p, first, end :: Parts(s, n, p, first, end)
  {
    var n := SpacesEnd(s, 0);
    var p := if n < |s| && (s[n] == '+' || s[n] == '-') then n + 1 else n;
    var first := if p + 2 < |s| && (s[p..p + 2] == "0x" || s[p..p + 2] == "0X") && IsHex(s[p + 2]) then p + 2 else p;
    assert Parts(s, n, p, first, DigitsEnd(s, first));
  }

  lemma SpacesEndAt(s: string, i: nat, j: nat)
    requires i <= j <= |s| && (forall k :: i <= k < j ==> IsSpace(s[k])) && (j < |s| ==> !IsSpace(s[j]))
    ensures SpacesEnd(s, i) == j
    decreases j - i
  {
  }

  lemma DigitsEndIs(s: string, i: nat, j: nat)
    requires i <= j <= |s| && (forall k :: i <= k < j ==> IsHex(s[k])) && (j < |s| ==> !IsHex(s[j]))
    ensures DigitsEnd(s, i) == j
  {
  }

  /** Nothing behind a zero byte of the line is seen. */
  lemma ZeroEndsLine(w: LongWidth, line: string, behind: string)
    requires '\0' !in line
    ensures CString(line + "\0" + behind) == line
    ensures ChunkSize(w, line + "\0" + behind) == ChunkSize(w, line)
  {
    IndexOfIs(line, '\0', behind);
    assert line + "\0" + behind == line + ['\0'] + behind;
    assert line[..|line|] == line;
  }

  lemma LongRange(w: LongWidth)
    ensures w.Max() + 1 == if w == Long32 then 65536 * 65536 else 65536 * 65536 * 65536 * 65536
  {
  }

  lemma CStringKeeps(line: string)
    requires forall i :: 0 <= i < |line| ==> line[i] != '\0'
    ensures CString(line) == line
  {
  }

  lemma SizeLineIsRead(w: LongWidth, n: nat)
    ensures ChunkSize(w, HexText(n) + CRLF) == if n < w.Max() then Some(n) else None
  {
    CStringKeeps(HexText(n) + CRLF);
    HexTextValue(n);
    StrtoulReads(w, HexText(n), CRLF);
  }

  // ----- Lines and streams -----

  /** The first line of `s`, with its line feed; all of `s` if there is none. */
  function FirstLine(s: string): (line: string)
    ensures |line| <= |s| && line == s[..|line|] && (s != "" ==> line != "")
  {
    var i := IndexOf(s, '\n');
    if i < |s| then s[..i + 1] else s
  }

  lemma FirstLineIs(line: string, rest: string)
    requires '\n' !in line
    ensures FirstLine(line + "\n" + rest) == line + "\n"
    ensures (line + "\n" + rest)[|line| + 1..] == rest
  {
    IndexOfIs(line, '\n', rest);
    assert line + "\n" + rest == line + ['\n'] + rest;
  }

  lemma LastLineIs(s: string)
    requires '\n' !in s
    ensures FirstLine(s) == s
  {
  }

  /** A stream to read from. It delivers `data` in portions of any size and then ends, unless it fails. */
  class InStream {
    var data: string
    var failed: bool

    method Read(size: nat) returns (n: int, bytes: string)
      requires size > 0
      modifies this
      ensures n == if failed then -1 else |bytes|
      ensures !failed ==> |bytes| <= size && old(data) == bytes + data && (bytes == "" <==> old(data) == "")
      ensures old(failed) ==> failed
    {
      n, bytes := *, "";
      if failed || n < 0 {
        failed := true;
        return -1, "";
      }
      if n > size || n > |data| || n == 0 {
        n := if |data| < size then |data| else size;
      }
      bytes, data := data[..n], data[n..];
    }
  }

  /** Reads a line into a fixed buffer, and into a growing string once the buffer is full. */
  class StreamLineReader {
    const strm: InStream
    const fixed: array<char>
    var used: nat
    var growable: string

    ghost predicate Valid()
      reads this, fixed
    {
      2 <= fixed.Length && used < fixed.Length && (growable != "" ==> used == fixed.Length - 1)
    }

    constructor (strm: InStream, bufferSize: nat)
      requires bufferSize >= 2
      ensures Valid() && fresh(fixed) && this.strm == strm && fixed.Length == bufferSize
    {
      this.strm := strm;
      fixed := new char[bufferSize];
      used, growable := 0, "";
    }

    /** The line read last. */
    function Line(): string
      requires Valid()
      reads this, fixed
    {
      if growable == "" then fixed[..used] else growable
    }

    method Append(c: char)
      requires Valid()
      modifies this`used, this`growable, fixed
      ensures Valid() && Line() == old(Line()) + [c]
    {
      if used < fixed.Length - 1 {
        ghost var was := fixed[..used];
        fixed[used] := c;
        used := used + 1;
        fixed[used] := '\0';
        assert fixed[..used] == was + [c];
      } else {
        if growable == "" {
          growable := fixed[..used];
        }
        growable := growable + [c];
      }
    }

    /** Moves one byte from the stream to the line; 0 at the end of the stream, -1 on failure. */
    method ReadByte() returns (n: int, byte: char)
      requires Valid() && !strm.failed
      modifies this`used, this`growable, fixed, strm
      ensures Valid() && -1 <= n <= 1 && (strm.failed <==> n == -1)
      ensures n == 0 ==> old(strm.data) == strm.data == "" && Line() == old(Line())
      ensures n == 1 ==> old(strm.data) == [byte] + strm.data && Line() == old(Line()) + [byte]
    {
      var bytes;
      n, bytes := strm.Read(1);
      byte := '\0';
      if n == 1 {
        byte := bytes[0];
        assert bytes == [byte];
        Append(byte);
      }
    }

    /** Whatever the size of the fixed buffer, the line is the first one of the stream. */
    method Getline() returns (ok: bool)
      requires Valid() && !strm.failed
      modifies this`used, this`growable, fixed, strm
      ensures Valid()
      ensures !strm.failed ==> ok == (old(strm.data) != "")
      ensures strm.failed ==> !ok
      ensures ok ==> Line() == FirstLine(old(strm.data)) && old(strm.data) == Line() + strm.data
    {
      hide FirstLine;
      used, growable := 0, "";
      ghost var all := strm.data;
      while true
        invariant Valid() && !strm.failed && all == Line() + strm.data && '\n' !in Line()
        decreases |strm.data|
      {
        ghost var line := Line();
        var n, byte := ReadByte();
        if n < 0 {
          return false;
        }
        if n == 0 {
          assert all == line;
          LastLineIs(line);
          return used > 0;
        }
        if byte == '\n' {
          assert all == line + "\n" + strm.data;
          FirstLineIs(line, strm.data);
          return true;
        }
        assert all == line + [byte] + strm.data;
      }
    }
  }

  // ----- Reading -----

  /** The chunks at the head of `s` up to and including the line of the zero-size chunk: the payload and
      what follows that line. */
  function ReadChunks(w: LongWidth, s: string): Option<(string, string)>
    decreases |s|
  {
    var line := FirstLine(s);
    if s == "" then None
    else
      match ChunkSize(w, line)
      case None => None
      case Some(n) =>
        var rest := s[|line|..];
        if n == 0 then Some(("", rest))
        else if |rest| < n then None
        else
          var after := rest[n..];
          var ending := FirstLine(after);
          if after == "" || CString(ending) != CRLF then None
          else
            match ReadChunks(w, after[|ending|..])
            case None => None
            case Some((payload, last)) => Some((rest[..n] + payload, last))
  }

  /** Trailer lines up to and including the empty one; what follows it. */
  function SkipTrailer(s: string): Option<string>
    decreases |s|
  {
    var line := FirstLine(s);
    if s == "" then None
    else if CString(line) == CRLF then Some(s[|line|..])
    else if |line| > HEADER_MAX then None
    else SkipTrailer(s[|line|..])
  }

  /** The payload of a chunked body and the bytes after it. */
  function ReadBody(w: LongWidth, s: string): Option<(string, string)> {
    match ReadChunks(w, s)
    case None => None
    case Some((payload, rest)) =>
      match SkipTrailer(rest)
      case None => None
      case Some(last) => Some((payload, last))
  }

  /** A receiver answers according to what it has been given so far, the latest portion included. */
  type Receiver = string -> bool

  /** Reads exactly `len` bytes, in whatever portions they come, unless the receiver refuses. */
  method ReadContentWithLength(strm: InStream, len: nat, given: string, accepts: Receiver)
    returns (ok: bool, content: string, refused: bool)
    requires !strm.failed
    modifies strm
    ensures !strm.failed && !refused ==> ok == (len <= |old(strm.data)|)
    ensures strm.failed || refused ==> !ok
    ensures ok ==> content == old(strm.data)[..len] && strm.data == old(strm.data)[len..]
    ensures refused ==> !accepts(given + content) && |content| <= len && content <= old(strm.data)
  {
    content, refused := "", false;
    ghost var all := strm.data;
    while |content| < len
      invariant !strm.failed && |content| <= len && all == content + strm.data
      decreases len - |content|
    {
      var readLen := len - |content|;
      var n, bytes := strm.Read(if readLen < RECV_BUFSIZ then readLen else RECV_BUFSIZ);
      if n <= 0 {
        return false, content, false;
      }
      assert all == (content + bytes) + strm.data;
      content := content + bytes;
      if !accepts(given + content) {
        return false, content, true;
      }
    }
    ok := true;
  }

  function Prepend(p: string, o: Option<(string, string)>): Option<(string, string)> {
    match o
    case None => None
    case Some((q, rest)) => Some((p + q, rest))
  }

  /** `ReadChunks` once the size line is known. */
  lemma SizeLineRead(w: LongWidth, line: string, data: string)
    requires line != "" && line == FirstLine(line + data)
    ensures ReadChunks(w, line + data)
         == match ChunkSize(w, line)
            case None => None
            case Some(n) => if n == 0 then Some(("", data)) else AfterSize(w, n, data)
  {
    assert (line + data)[|line|..] == data;
  }

  function AfterSize(w: LongWidth, n: nat, data: string): Option<(string, string)> {
    if |data| < n then None
    else
      var after := data[n..];
      var ending := FirstLine(after);
      if after == "" || CString(ending) != CRLF then None else Prepend(data[..n], ReadChunks(w, after[|ending|..]))
  }

  /** One chunk whose size has been read: its content, its line end, and the next size line. */
  method ReadChunk(w: LongWidth, reader: StreamLineReader, n: nat, given: string, accepts: Receiver)
    returns (ok: bool, content: string, refused: bool)
    requires reader.Valid() && !reader.strm.failed
    modifies reader`used, reader`growable, reader.fixed, reader.strm
    ensures reader.Valid() && (reader.strm.failed || refused ==> !ok)
    ensures refused ==> !accepts(given + content) && |content| <= n && content <= old(reader.strm.data)
    ensures ok ==> |reader.strm.data| + n <= |old(reader.strm.data)|
    ensures !reader.strm.failed && !refused && !ok ==> AfterSize(w, n, old(reader.strm.data)) == None
    ensures ok ==> reader.Line() != "" && reader.Line() == FirstLine(reader.Line() + reader.strm.data)
    ensures ok ==>
              AfterSize(w, n, old(reader.strm.data))
              == Prepend(content, ReadChunks(w, reader.Line() + reader.strm.data))
  {
    ghost var data := reader.strm.data;
    ok, content, refused := ReadContentWithLength(reader.strm, n, given, accepts);
    if !ok {
      return;
    }
    ghost var after := reader.strm.data;
    ok := reader.Getline();
    if !ok {
      return;
    }
    if CString(reader.Line()) != CRLF {
      return false, content, false;
    }
    assert after[|reader.Line()|..] == reader.strm.data;
    ok := reader.Getline();
  }

  /** All chunks, the first size line having been read. */
  method ReadAllChunks(w: LongWidth, reader: StreamLineReader, accepts: Receiver)
    returns (ok: bool, body: string, refused: bool)
    requires reader.Valid() && !reader.strm.failed
    requires reader.Line() != "" && reader.Line() == FirstLine(reader.Line() + reader.strm.data)
    modifies reader`used, reader`growable, reader.fixed, reader.strm
    ensures reader.Valid() && (reader.strm.failed || refused ==> !ok)
    ensures refused ==> !accepts(body)
    ensures refused ==> IsPrefix(body, ReadChunks(w, old(reader.Line() + reader.strm.data)))
    ensures !reader.strm.failed && !refused && !ok ==> ReadChunks(w, old(reader.Line() + reader.strm.data)) == None
    ensures ok ==> ReadChunks(w, old(reader.Line() + reader.strm.data)) == Some((body, reader.strm.data))
  {
    ghost var all := reader.Line() + reader.strm.data;
    body, refused := "", false;
    PrependTwice("", "", ReadChunks(w, all));
    while true
      invariant reader.Valid() && !reader.strm.failed
      invariant reader.Line() != "" && reader.Line() == FirstLine(reader.Line() + reader.strm.data)
      invariant ReadChunks(w, all) == Prepend(body, ReadChunks(w, reader.Line() + reader.strm.data))
      decreases |reader.strm.data|
    {
      hide ReadChunks;
      SizeLineRead(w, reader.Line(), reader.strm.data);
      var size := ChunkSize(w, reader.Line());
      if size == None {
        return false, body, false;
      }
      if size.value == 0 {
        assert body + "" == body;
        return true, body, false;
      }
      ghost var data := reader.strm.data;
      var more, content;
      more, content, refused := ReadChunk(w, reader, size.value, body, accepts);
      if refused {
        RefusedInChunk(w, body, content, size.value, data);
        return false, body + content, true;
      }
      if !more {
        return false, body, false;
      }
      PrependTwice(body, content, ReadChunks(w, reader.Line() + reader.strm.data));
      body := body + content;
    }
  }

  /** What was delivered begins the payload, if there is one. */
  predicate IsPrefix(body: string, o: Option<(string, string)>) {
    o.Some? ==> body <= o.value.0
  }

  lemma RefusedInChunk(w: LongWidth, body: string, content: string, n: nat, data: string)
    requires content <= data && |content| <= n
    ensures IsPrefix(body + content, Prepend(body, AfterSize(w, n, data)))
  {
    hide ReadChunks;
    if AfterSize(w, n, data).Some? {
      assert data[..n][..|content|] == content;
    }
  }

  /** `read_content_chunked`: the payload goes to the receiver, in order, as far as it accepts it. */
  method ReadContentChunked(w: LongWidth, strm: InStream, accepts: Receiver)
    returns (ok: bool, body: string, refused: bool)
    requires !strm.failed
    modifies strm
    ensures strm.failed || refused ==> !ok
    ensures refused ==> !accepts(body) && IsPrefix(body, ReadBody(w, old(strm.data)))
    ensures !strm.failed && !refused && !ok ==> ReadBody(w, old(strm.data)) == None
    ensures ok ==> ReadBody(w, old(strm.data)) == Some((body, strm.data))
  {
    var reader := new StreamLineReader(strm, 16);
    body, refused := "", false;
    ok := reader.Getline();
    if ok {
      assert old(strm.data) == reader.Line() + strm.data;
      ok, body, refused := ReadAllChunks(w, reader, accepts);
      if ok {
        ok := SkipTrailerLines(reader);
      }
    }
  }

  lemma PrependTwice(p: string, q: string, o: Option<(string, string)>)
    ensures Prepend(p, Prepend(q, o)) == Prepend(p + q, o) && Prepend("", o) == o
  {
    if o.Some? {
      assert p + (q + o.value.0) == p + q + o.value.0 && "" + o.value.0 == o.value.0;
    }
  }

  method SkipTrailerLines(reader: StreamLineReader) returns (ok: bool)
    requires reader.Valid() && !reader.strm.failed
    modifies reader`used, reader`growable, reader.fixed, reader.strm
    ensures reader.strm.failed ==> !ok
    ensures !reader.strm.failed && !ok ==> SkipTrailer(old(reader.strm.data)) == None
    ensures ok ==> SkipTrailer(old(reader.strm.data)) == Some(reader.strm.data)
  {
    ghost var all := reader.strm.data;
    ok := reader.Getline();
    if !ok {
      return;
    }
    while CString(reader.Line()) != CRLF
      invariant reader.Valid() && !reader.strm.failed
      invariant reader.Line() != "" && reader.Line() == FirstLine(reader.Line() + reader.strm.data)
      invariant SkipTrailer(all) == SkipTrailer(reader.Line() + reader.strm.data)
      decreases |reader.strm.data|
    {
      assert (reader.Line() + reader.strm.data)[|reader.Line()|..] == reader.strm.data;
      if |reader.Line()| > HEADER_MAX {
        return false;
      }
      // parse_header and the header it may add are not part of this model
      ok := reader.Getline();
      if !ok {
        return;
      }
    }
    assert (reader.Line() + reader.strm.data)[|reader.Line()|..] == reader.strm.data;
    ok := true;
  }

  // ----- Writing -----

  /** A stream to write to. It takes bytes in portions of any size, at least one at a time, or fails. */
  class OutStream {
    var data: string
    var failed: bool

    method Write(bytes: string) returns (n: int)
      requires bytes != "" && !failed
      modifies this
      ensures n == -1 || 1 <= n <= |bytes|
      ensures data == (old(data) + if n > 0 then bytes[..n] else "") && (failed <==> n == -1)
    {
      n := *;
      if n < 1 || n > |bytes| {
        failed := true;
        return -1;
      }
      data := data + bytes[..n];
    }

    method IsWritable() returns (r: bool)
      requires !failed
      modifies this`failed
      ensures r <==> !failed
    {
      r := *;
      failed := !r;
    }
  }

  function ChunkText(payload: string): string {
    HexText(|payload|) + CRLF + (payload + CRLF)
  }

  const LAST_CHUNK := "0\r\n"

  method WriteData(strm: OutStream, bytes: string) returns (ok: bool)
    requires !strm.failed
    modifies strm
    ensures ok <==> !strm.failed
    ensures ok ==> strm.data == old(strm.data) + bytes
  {
    var offset := 0;
    ghost var before := strm.data;
    while offset < |bytes|
      invariant offset <= |bytes| && !strm.failed && strm.data == before + bytes[..offset]
    {
      var n := strm.Write(bytes[offset..]);
      if n < 0 {
        return false;
      }
      assert bytes[..offset] + bytes[offset..][..n] == bytes[..offset + n];
      assert before + bytes[..offset] + bytes[offset..][..n] == before + (bytes[..offset] + bytes[offset..][..n]);
      offset := offset + n;
    }
    assert bytes[..|bytes|] == bytes;
    ok := true;
  }

  /** What a content provider does with the data sink. */
  datatype SinkOp = Write(data: string) | Done

  /** One call of the content provider: its use of the sink, and its answer (false cancels). */
  datatype Call = Call(ops: seq<SinkOp>, goesOn: bool)

  /** An empty write emits nothing. */
  function OpText(op: SinkOp): string {
    if op.Done? then LAST_CHUNK + CRLF else if op.data == "" then "" else ChunkText(op.data)
  }

  function OpsText(ops: seq<SinkOp>): string {
    if ops == [] then "" else OpText(ops[0]) + OpsText(ops[1..])
  }

  /** Whether the writer takes more data to be available: what the last use of the sink says, if any. */
  predicate AvailableAfter(ops: seq<SinkOp>) {
    ops == [] || (ops[|ops| - 1].Write? && ops[|ops| - 1].data != "")
  }

  /** The writer's use of a provider that is good for these calls until the server is shut down: it asks
      until no more data is available, and then ends, whether or not the provider was done. */
  function Made(calls: seq<Call>): seq<SinkOp> {
    if calls == [] then []
    else calls[0].ops + if AvailableAfter(calls[0].ops) then Made(calls[1..]) else []
  }

  predicate NoneCancels(calls: seq<Call>) {
    calls != [] ==> calls[0].goesOn && (AvailableAfter(calls[0].ops) ==> NoneCancels(calls[1..]))
  }

  /** One use of the sink. */
  method UseSink(strm: OutStream, op: SinkOp) returns (ok: bool)
    requires !strm.failed
    modifies strm
    ensures ok <==> !strm.failed
    ensures ok ==> strm.data == old(strm.data) + OpText(op)
  {
    ok := true;
    match op
    case Write(data) =>
      if data != "" {
        var hex := FromIToHex(|data|);
        ok := strm.IsWritable();
        if ok {
          ok := WriteData(strm, hex + CRLF + (data + CRLF));
        }
      }
    case Done =>
      ghost var before := strm.data;
      ok := WriteData(strm, LAST_CHUNK);
      if ok {
        ok := WriteData(strm, CRLF);
        assert before + (LAST_CHUNK + CRLF) == before + LAST_CHUNK + CRLF;
      }
  }

  lemma NoOps()
    ensures OpsText([]) == ""
  {
  }

  lemma OpsTextStep(ops: seq<SinkOp>, i: nat, before: string)
    requires i < |ops|
    ensures before + OpsText(ops[i..]) == (before + OpText(ops[i])) + OpsText(ops[i + 1..])
  {
    assert ops[i..][1..] == ops[i + 1..];
  }

  /** One call of the provider. */
  method AskProvider(strm: OutStream, ops: seq<SinkOp>) returns (ok: bool, available: bool)
    requires !strm.failed
    modifies strm
    ensures ok <==> !strm.failed
    ensures ok ==> strm.data == old(strm.data) + OpsText(ops) && available == AvailableAfter(ops)
  {
    hide OpsText, OpText;
    ok, available := true, true;
    NoOps();
    ghost var all := strm.data + OpsText(ops);
    assert ops[0..] == ops;
    for i := 0 to |ops|
      invariant !strm.failed && all == strm.data + OpsText(ops[i..]) && available == AvailableAfter(ops[..i])
    {
      OpsTextStep(ops, i, strm.data);
      available := ops[i].Write? && ops[i].data != "";
      ok := UseSink(strm, ops[i]);
      if !ok {
        return;
      }
    }
    assert ops[..|ops|] == ops && ops[|ops|..] == [];
    assert strm.data + "" == strm.data;
    ok := true;
  }

  lemma {:induction false} OpsTextOfTwo(a: seq<SinkOp>, b: seq<SinkOp>)
    ensures OpsText(a + b) == OpsText(a) + OpsText(b)
  {
    if a == [] {
      assert a + b == b;
    } else {
      assert (a + b)[1..] == a[1..] + b;
      OpsTextOfTwo(a[1..], b);
      assert OpText(a[0]) + (OpsText(a[1..]) + OpsText(b)) == OpText(a[0]) + OpsText(a[1..]) + OpsText(b);
    }
  }

  lemma MadeStep(calls: seq<Call>, k: nat, before: string)
    requires k < |calls|
    ensures before + OpsText(Made(calls[k..]))
         == (before + OpsText(calls[k].ops))
            + if AvailableAfter(calls[k].ops) then OpsText(Made(calls[k + 1..])) else ""
    ensures NoneCancels(calls[k..])
       <==> calls[k].goesOn && (AvailableAfter(calls[k].ops) ==> NoneCancels(calls[k + 1..]))
  {
    assert calls[k..][1..] == calls[k + 1..];
    OpsTextOfTwo(calls[k].ops, if AvailableAfter(calls[k].ops) then Made(calls[k + 1..]) else []);
  }

  /** Without compression and trailers. On a stream that does not fail, success means exactly that no call
      cancels; what was sent is then what the calls made amount to, terminated or not. */
  method WriteContentChunked(strm: OutStream, calls: seq<Call>) returns (ok: bool)
    requires !strm.failed
    modifies strm
    ensures strm.failed ==> !ok
    ensures !strm.failed ==> (ok <==> NoneCancels(calls))
    ensures ok ==> strm.data == old(strm.data) + OpsText(Made(calls))
  {
    ghost var all := strm.data + OpsText(Made(calls));
    var dataAvailable, k := true, 0;
    assert calls[0..] == calls;
    while dataAvailable && k < |calls|
      invariant k <= |calls| && !strm.failed
      invariant all == strm.data + if dataAvailable then OpsText(Made(calls[k..])) else ""
      invariant NoneCancels(calls) <==> (dataAvailable ==> NoneCancels(calls[k..]))
    {
      ok := strm.IsWritable();
      if !ok {
        return;
      }
      MadeStep(calls, k, strm.data);
      ok, dataAvailable := AskProvider(strm, calls[k].ops);
      if !calls[k].goesOn || !ok {
        return false;
      }
      k := k + 1;
    }
    ok := true;
  }

  // ----- Round trip -----

  lemma HexTextHasNoLineFeed(n: nat)
    ensures '\n' !in HexText(n)
  {
  }

  lemma SizeLineFirst(n: nat, rest: string)
    ensures FirstLine(HexText(n) + CRLF + rest) == HexText(n) + CRLF
  {
    HexTextHasNoLineFeed(n);
    var line := HexText(n) + "\r";
    assert line + "\n" + rest == HexText(n) + CRLF + rest;
    FirstLineIs(line, rest);
    assert line + "\n" == HexText(n) + CRLF;
  }

  lemma LineEndFirst(rest: string)
    ensures FirstLine(CRLF + rest) == CRLF && CString(CRLF) == CRLF && (CRLF + rest)[2..] == rest
  {
    FirstLineIs("\r", rest);
    assert "\r" + "\n" + rest == CRLF + rest;
  }

  lemma ChunkIsRead(w: LongWidth, payload: string, rest: string)
    requires 0 < |payload| < w.Max()
    ensures ReadChunks(w, ChunkText(payload) + rest) == Prepend(payload, ReadChunks(w, rest))
  {
    var line, data := HexText(|payload|) + CRLF, payload + (CRLF + rest);
    assert ChunkText(payload) + rest == line + data;
    SizeLineFirst(|payload|, data);
    SizeLineIsRead(w, |payload|);
    SizeLineRead(w, line, data);
    assert data[|payload|..] == CRLF + rest && data[..|payload|] == payload;
    LineEndFirst(rest);
  }

  /** A chunk whose size does not fit is refused: on a platform with 32 bits for it, one of 4 GB. */
  lemma LargeChunkIsRefused(w: LongWidth, payload: string, rest: string)
    requires |payload| >= w.Max()
    ensures ReadBody(w, ChunkText(payload) + rest) == None
  {
    var line, data := HexText(|payload|) + CRLF, payload + (CRLF + rest);
    assert ChunkText(payload) + rest == line + data;
    SizeLineFirst(|payload|, data);
    SizeLineIsRead(w, |payload|);
    SizeLineRead(w, line, data);
  }

  lemma LastChunkIsRead(w: LongWidth, rest: string)
    ensures ReadBody(w, LAST_CHUNK + CRLF + rest) == Some(("", rest))
  {
    var data := CRLF + rest;
    assert LAST_CHUNK + CRLF + rest == LAST_CHUNK + data;
    assert LAST_CHUNK == HexText(0) + CRLF;
    SizeLineFirst(0, data);
    SizeLineIsRead(w, 0);
    SizeLineRead(w, LAST_CHUNK, data);
    LineEndFirst(rest);
  }

  lemma BodyWithChunk(w: LongWidth, payload: string, rest: string)
    requires 0 < |payload| < w.Max()
    ensures ReadBody(w, ChunkText(payload) + rest) == Prepend(payload, ReadBody(w, rest))
  {
    hide ReadChunks;
    ChunkIsRead(w, payload, rest);
  }

  /** The data written before the sink is told that this was all, and the uses of the sink after that. */
  function Payload(ops: seq<SinkOp>): string {
    if ops == [] || ops[0].Done? then "" else ops[0].data + Payload(ops[1..])
  }

  function AfterDone(ops: seq<SinkOp>): seq<SinkOp> {
    if ops == [] then [] else if ops[0].Done? then ops[1..] else AfterDone(ops[1..])
  }

  predicate SizesFit(w: LongWidth, ops: seq<SinkOp>) {
    forall i :: 0 <= i < |ops| ==> (ops[i].Write? ==> |ops[i].data| < w.Max())
  }

  /** Reading what was sent gives the payload and stops behind the last chunk if there is one, and otherwise
      goes on into what follows. */
  lemma {:induction false} OpsAreRead(w: LongWidth, ops: seq<SinkOp>, rest: string)
    requires SizesFit(w, ops)
    ensures ReadBody(w, OpsText(ops) + rest)
         == if Done in ops then Some((Payload(ops), OpsText(AfterDone(ops)) + rest))
            else Prepend(Payload(ops), ReadBody(w, rest))
  {
    hide ReadBody;
    if ops == [] {
      PrependTwice("", "", ReadBody(w, rest));
      assert "" + rest == rest;
    } else {
      var more := OpsText(ops[1..]) + rest;
      assert OpsText(ops) + rest == OpText(ops[0]) + more;
      if ops[0].Done? {
        LastChunkIsRead(w, more);
      } else {
        OpsAreRead(w, ops[1..], rest);
        assert Done in ops <==> Done in ops[1..];
        if ops[0].data == "" {
          assert "" + more == more && "" + Payload(ops[1..]) == Payload(ops[1..]);
        } else {
          BodyWithChunk(w, ops[0].data, more);
          PrependTwice(ops[0].data, Payload(ops[1..]), ReadBody(w, rest));
        }
      }
    }
  }

  lemma {:induction false} ReadingConsumes(w: LongWidth, s: string)
    ensures ReadChunks(w, s).Some? ==> |ReadChunks(w, s).value.1| < |s|
    decreases |s|
  {
    if s != "" && ReadChunks(w, s).Some? {
      var line := FirstLine(s);
      var n := ChunkSize(w, line).value;
      if n > 0 {
        var after := s[|line|..][n..];
        ReadingConsumes(w, after[|FirstLine(after)|..]);
      }
    }
  }

  lemma {:induction false} SkippingConsumes(s: string)
    ensures SkipTrailer(s).Some? ==> |SkipTrailer(s).value| < |s|
    decreases |s|
  {
    if s != "" && SkipTrailer(s).Some? && CString(FirstLine(s)) != CRLF {
      SkippingConsumes(s[|FirstLine(s)|..]);
    }
  }

  lemma BodyConsumes(w: LongWidth, s: string)
    ensures ReadBody(w, s).Some? ==> |ReadBody(w, s).value.1| < |s|
  {
    ReadingConsumes(w, s);
    if ReadChunks(w, s).Some? {
      SkippingConsumes(ReadChunks(w, s).value.1);
    }
  }

  lemma NothingToRead(w: LongWidth)
    ensures ReadBody(w, "") == None
  {
  }

  /** The sink was told that this was all, and nothing was sent after that. */
  predicate WellEnded(ops: seq<SinkOp>) {
    Done in ops && OpsText(AfterDone(ops)) == ""
  }

  /** Round trip: reading what was sent, whatever follows, gives back the payload and stops right before what
      follows exactly when the calls made are well ended. */
  lemma ChunkedRoundTrip(w: LongWidth, calls: seq<Call>, rest: string)
    requires SizesFit(w, Made(calls))
    ensures ReadBody(w, OpsText(Made(calls)) + rest) == Some((Payload(Made(calls)), rest)) <==> WellEnded(Made(calls))
  {
    var ops := Made(calls);
    OpsAreRead(w, ops, rest);
    BodyConsumes(w, rest);
    if Done in ops {
      assert OpsText(AfterDone(ops)) + rest == rest <==> OpsText(AfterDone(ops)) == "" by {
        assert |OpsText(AfterDone(ops)) + rest| == |OpsText(AfterDone(ops))| + |rest|;
        assert "" + rest == rest;
      }
    }
  }

  /** What a successful writer has sent is a complete body, readable with nothing following, exactly when some call
      tells the sink that this was all, and each call before it leaves off at a non-empty write, or does not
      use the sink. */
  lemma TerminatedIff(w: LongWidth, calls: seq<Call>)
    requires SizesFit(w, Made(calls))
    ensures ReadBody(w, OpsText(Made(calls))).Some?
       <==> exists k :: 0 <= k < |calls| && Done in calls[k].ops
                        && forall j :: 0 <= j < k ==> AvailableAfter(calls[j].ops)
  {
    OpsAreRead(w, Made(calls), "");
    assert OpsText(Made(calls)) + "" == OpsText(Made(calls));
    DoneIsReached(calls);
  }

  lemma {:induction false} DoneIsReached(calls: seq<Call>)
    ensures Done in Made(calls)
       <==> exists k :: 0 <= k < |calls| && Done in calls[k].ops
                        && forall j :: 0 <= j < k ==> AvailableAfter(calls[j].ops)
  {
    if calls != [] {
      var rest := calls[1..];
      DoneIsReached(rest);
      if Done !in calls[0].ops && AvailableAfter(calls[0].ops) {
        if Done in Made(rest) {
          var k :| 0 <= k < |rest| && Done in rest[k].ops && forall j :: 0 <= j < k ==> AvailableAfter(rest[j].ops);
          assert Done in calls[k + 1].ops;
          assert forall j :: 0 <= j < k + 1 ==> j == 0 || calls[j] == rest[j - 1];
        }
        if k :| 0 <= k < |calls| && Done in calls[k].ops && forall j :: 0 <= j < k ==> AvailableAfter(calls[j].ops) {
          assert Done in rest[k - 1].ops;
          assert forall j :: 0 <= j < k - 1 ==> rest[j] == calls[j + 1];
        }
      }
    }
  }

  /** A call that ends with an empty write ends the body with success, but without a last chunk: of the data
      "a" and "b", separated by it, only a chunk for "a" is sent. */
  lemma EmptyWriteCutsBody(w: LongWidth)
    ensures var calls := [Call([Write("a")], true), Call([Write("")], true), Call([Write("b")], true),
            Call([Done], true)];
            NoneCancels(calls) && OpsText(Made(calls)) == ChunkText("a") && ReadBody(w, ChunkText("a")) == None
  {
    var calls := [Call([Write("a")], true), Call([Write("")], true), Call([Write("b")], true), Call([Done], true)];
    assert calls[1..] == [Call([Write("")], true), Call([Write("b")], true), Call([Done], true)];
    assert Made(calls[1..]) == [Write("")];
    assert Made(calls) == [Write("a"), Write("")];
    assert [Write("a"), Write("")][1..] == [Write("")] && [Write("")][1..] == [];
    OpsAreRead(w, [Write("a"), Write("")], "");
    assert OpsText([Write("")]) == "" && OpsText([Write("a"), Write("")]) == ChunkText("a");
    assert ChunkText("a") + "" == ChunkText("a");
  }

  /** The same through the two streams, to a receiver that accepts. When writing succeeds, the reader gets the
      payload if the calls made are well ended; if the sink was never told that this was all, and nothing follows,
          it fails. */
  method TransferChunked(w: LongWidth, sent: OutStream, received: InStream, calls: seq<Call>, following: string)
    returns (written: bool, ok: bool, body: string)
    requires sent.data == "" && !sent.failed && !received.failed && SizesFit(w, Made(calls))
    modifies sent, received
    ensures written && !received.failed && WellEnded(Made(calls)) ==>
              ok && body == Payload(Made(calls)) && received.data == following
    ensures Done !in Made(calls) && following == "" ==> !ok
  {
    hide ReadBody, OpsText, Payload;
    ok, body := false, "";
    NothingToRead(w);
    written := WriteContentChunked(sent, calls);
    if written {
      received.data := sent.data + following;
      assert "" + OpsText(Made(calls)) == OpsText(Made(calls));
      OpsAreRead(w, Made(calls), following);
      ChunkedRoundTrip(w, calls, following);
      var refused;
      ok, body, refused := ReadContentChunked(w, received, content => true);
    }
  }
}
