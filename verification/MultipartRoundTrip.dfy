/** The multipart serialiser, and the round trip through the incremental parser. */
module MultipartRoundTrip {
  import opened Prelude
  import opened Text
  import opened MultipartHeader
  import opened MultipartParser
  import opened MultipartMachine

  function Quoted(s: string): string {
    "\"" + s + "\""
  }

  function DispositionValue(f: FileInfo): string {
    Param("name", f.name) + if f.filename == "" then "" else "; " + Param("filename", f.filename)
  }

  function DispositionLine(f: FileInfo): string {
    DISPOSITION + (" " + (FORM_DATA + (" " + DispositionValue(f))))
  }

  function ContentTypeLine(f: FileInfo): string {
    CONTENT_TYPE + (" " + f.contentType)
  }

  function EntryHeader(f: FileInfo): string {
    DispositionLine(f) + CRLF + (if f.contentType == "" then "" else ContentTypeLine(f) + CRLF) + CRLF
  }

  function ItemText(item: Item, boundary: string): string {
    (OpeningLine(boundary) + EntryHeader(item.file)) + item.content + CRLF
  }

  function ItemTexts(items: seq<Item>, boundary: string): string {
    if items == [] then "" else ItemText(items[0], boundary) + ItemTexts(items[1..], boundary)
  }

  /** The serialised form of a list of items. */
  function Serialized(items: seq<Item>, boundary: string): string {
    ItemTexts(items, boundary) + (DASH + boundary + DASH + CRLF)
  }

  method SerializeItemBegin(item: Item, boundary: string) returns (body: string)
    ensures body == OpeningLine(boundary) + EntryHeader(item.file)
  {
    ghost var opening := OpeningLine(boundary);
    body := DASH + boundary + CRLF;
    var value := Param("name", item.file.name);
    if item.file.filename != "" {
      value := value + ("; " + Param("filename", item.file.filename));
    }
    assert value == DispositionValue(item.file);
    body := body + (DISPOSITION + (" " + (FORM_DATA + (" " + value))));
    body := body + CRLF;
    if item.file.contentType != "" {
      body := body + (ContentTypeLine(item.file) + CRLF);
    }
    body := body + CRLF;
    JoinLines(opening, DispositionLine(item.file), CRLF,
              if item.file.contentType == "" then "" else ContentTypeLine(item.file) + CRLF);
  }

  lemma JoinLines(a: string, b: string, c: string, d: string)
    ensures (a + b + c) + d + c == a + (b + c + d + c)
    ensures d == "" ==> a + b + c + c == a + (b + c + d + c)
  {
  }

  method Serialize(items: seq<Item>, boundary: string) returns (body: string)
    ensures body == Serialized(items, boundary)
  {
    body := "";
    for i := 0 to |items|
      invariant ItemTexts(items, boundary) == body + ItemTexts(items[i..], boundary)
    {
      var begin := SerializeItemBegin(items[i], boundary);
      TextsStep(items, i, boundary, body);
      body := body + (begin + items[i].content + CRLF);
    }
    body := body + (DASH + boundary + DASH + CRLF);
  }

  lemma TextsStep(items: seq<Item>, i: nat, boundary: string, body: string)
    requires i < |items|
    ensures body + ItemTexts(items[i..], boundary)
         == (body + ItemText(items[i], boundary)) + ItemTexts(items[i + 1..], boundary)
  {
    assert items[i..][1..] == items[i + 1..];
  }

  /** What is sent for one item, byte by byte. */
  lemma ItemIsWritten(item: Item, boundary: string)
    ensures ItemText(item, boundary)
         == "--" + boundary + "\r\n"
            + "Content-Disposition: form-data; name=\"" + item.file.name + "\""
            + (if item.file.filename == "" then "" else "; filename=\"" + item.file.filename + "\"") + "\r\n"
            + (if item.file.contentType == "" then "" else "Content-Type: " + item.file.contentType + "\r\n") + "\r\n"
            + item.content + "\r\n"
  {
    var f := item.file;
    var more := if f.filename == "" then "" else "; filename=\"" + f.filename + "\"";
    var kind := if f.contentType == "" then "" else "Content-Type: " + f.contentType + "\r\n";
    HeadingIsWritten(f, more);
    assert f.contentType != "" ==> ContentTypeLine(f) + CRLF == kind by {
      assert "Content-Type:" + (" " + f.contentType) == "Content-Type: " + f.contentType;
    }
    Regrouped("--" + boundary + "\r\n", "Content-Disposition: form-data; name=\"", f.name, "\"", more, "\r\n", kind);
    hide DispositionLine, ContentTypeLine;
  }

  lemma HeadingIsWritten(f: FileInfo, more: string)
    requires more == if f.filename == "" then "" else "; filename=\"" + f.filename + "\""
    ensures DispositionLine(f) == "Content-Disposition: form-data; name=\"" + f.name + "\"" + more
  {
    assert Param("name", f.name) == "name=\"" + f.name + "\"";
    assert f.filename != "" ==> "; " + Param("filename", f.filename) == more;
    assert "Content-Disposition:" + (" " + ("form-data;" + (" " + "name=\"")))
        == "Content-Disposition: form-data; name=\"";
  }

  lemma Regrouped(open: string, a: string, b: string, c: string, d: string, e: string, kind: string)
    ensures open + ((a + b + c + d) + e + kind + e) == open + a + b + c + d + e + kind + e
  {
  }

  // ----- What the parser reads in a header line the serialiser writes -----

  /** Names and file names are written unescaped; exactly those without these characters are read back. */
  predicate PlainName(s: string) {
    '\r' !in s && '\n' !in s && ';' !in s && '=' !in s
  }

  predicate PlainContentType(s: string) {
    Trimmed(s) && forall i :: 0 <= i < |s| ==> s[i] != '\r' && s[i] != '\n'
  }

  predicate PlainFile(f: FileInfo) {
    && PlainName(f.name) && PlainName(f.filename) && PlainContentType(f.contentType)
    && |DispositionLine(f)| < HEADER_MAX && |ContentTypeLine(f)| < HEADER_MAX
  }

  lemma TrimKeeps(s: string)
    requires Trimmed(s)
    ensures TrimLeft(s) == s && TrimRight(s) == s && Trim(s) == s
  {
  }

  lemma KeyValueSplits(key: string, value: string)
    requires key != "" && Trimmed(key) && '=' !in key && PlainName(value)
    ensures Split(key + "=" + Quoted(value), '=') == [key, Quoted(value)]
  {
    var q := Quoted(value);
    assert '=' !in q;
    assert key + "=" + q == key + ['='] + q;
    SplitCons(key, '=', q);
    SplitOne(q, '=');
    TrimKeeps(key);
    TrimKeeps(q);
  }

  lemma PieceGivesParam(key: string, value: string, rest: seq<string>, seen: set<string>)
    requires key != "" && Trimmed(key) && '=' !in key && '"' !in key && PlainName(value)
    requires key + "=" + Quoted(value) !in seen
    ensures PieceParams([key + "=" + Quoted(value)] + rest, seen)
         == [(key, value)] + PieceParams(rest, seen + {key + "=" + Quoted(value)})
  {
    var piece := key + "=" + Quoted(value);
    KeyValueSplits(key, value);
    assert ([piece] + rest)[1..] == rest;
    assert Quoted(value)[1..|Quoted(value)| - 1] == value;
    assert TrimQuotes(Quoted(value)) == value;
    assert TrimQuotes(key) == key;
  }

  function Param(key: string, value: string): string {
    key + "=" + Quoted(value)
  }

  ghost predicate PlainKey(key: string) {
    key != "" && Trimmed(key) && '=' !in key && '"' !in key && ';' !in key
  }

  lemma OneParam(key: string, value: string)
    requires PlainKey(key) && PlainName(value)
    ensures DispositionParams(Param(key, value)) == [(key, value)]
  {
    var p := Param(key, value);
    assert ';' !in p;
    TrimKeeps(p);
    SplitOne(p, ';');
    PieceGivesParam(key, value, [], {});
    assert [p] + [] == [p];
  }

  lemma SplitTwo(p: string, q: string)
    requires p != "" && q != "" && Trimmed(p) && Trimmed(q) && ';' !in p && ';' !in q
    ensures Split(p + ("; " + q), ';') == [p, q]
  {
    TrimKeeps(p);
    TrimKeeps(q);
    assert p + ("; " + q) == p + [';'] + (" " + q);
    SplitCons(p, ';', " " + q);
    SplitOne(" " + q, ';');
    assert (" " + q)[1..] == q;
    assert Trim(" " + q) == q;
  }

  lemma TwoParams(key1: string, value1: string, key2: string, value2: string)
    requires PlainKey(key1) && PlainName(value1) && PlainKey(key2) && PlainName(value2) && key1[0] != key2[0]
    ensures DispositionParams(Param(key1, value1) + ("; " + Param(key2, value2))) == [(key1, value1), (key2, value2)]
  {
    var p, q := Param(key1, value1), Param(key2, value2);
    SplitTwo(p, q);
    assert p[0] == key1[0] && q[0] == key2[0];
    PieceGivesParam(key1, value1, [q], {});
    PieceGivesParam(key2, value2, [], {p});
    assert [q] + [] == [q] && [p] + [q] == [p, q];
    assert {} + {p} == {p};
  }

  lemma DispositionParamsRead(f: FileInfo)
    requires PlainName(f.name) && PlainName(f.filename)
    ensures DispositionParams(DispositionValue(f))
         == if f.filename == "" then [("name", f.name)] else [("name", f.name), ("filename", f.filename)]
  {
    if f.filename == "" {
      OneParam("name", f.name);
      assert DispositionValue(f) == Param("name", f.name);
    } else {
      TwoParams("name", f.name, "filename", f.filename);
    }
  }

  lemma PrefixMatches(p: string, rest: string)
    ensures HasPrefixIgnoreCase(p + rest, p) && (p + rest)[|p|..] == rest
  {
  }

  lemma SkipOneSpace(rest: string)
    requires rest != "" && !IsSpace(rest[0])
    ensures SkipSpace(" " + rest) == rest
  {
    assert (" " + rest)[1..] == rest;
  }

  lemma LabelledMatches(heading: string, word: string, rest: string)
    requires word != "" && !IsSpace(word[0]) && rest != "" && !IsSpace(rest[0]) && '\r' !in rest && '\n' !in rest
    ensures MatchLabelled(heading + (" " + (word + (" " + rest))), heading, word) == Some(rest)
  {
    var tail := word + (" " + rest);
    PrefixMatches(heading, " " + tail);
    SkipOneSpace(tail);
    PrefixMatches(word, " " + rest);
    SkipOneSpace(rest);
  }

  lemma ValueHasNoLineEnd(f: FileInfo)
    requires PlainName(f.name) && PlainName(f.filename)
    ensures '\r' !in DispositionValue(f) && '\n' !in DispositionValue(f)
    ensures DispositionValue(f) != "" && DispositionValue(f)[0] == 'n'
  {
    ParamHasNoLineEnd("name", f.name);
    ParamHasNoLineEnd("filename", f.filename);
    var first, second := Param("name", f.name), "; " + Param("filename", f.filename);
    assert '\r' !in second && '\n' !in second;
    hide Param;
    assert f.filename == "" ==> DispositionValue(f) == first;
    assert f.filename != "" ==> DispositionValue(f) == first + second;
  }

  lemma ParamHasNoLineEnd(key: string, value: string)
    requires key != "" && '\r' !in key && '\n' !in key && PlainName(value)
    ensures '\r' !in Param(key, value) && '\n' !in Param(key, value) && Param(key, value) != ""
    ensures Param(key, value)[0] == key[0]
  {
  }

  lemma DispositionMatches(f: FileInfo)
    requires PlainName(f.name) && PlainName(f.filename)
    ensures MatchDisposition(DispositionLine(f)) == Some(DispositionValue(f))
  {
    ValueHasNoLineEnd(f);
    LabelledMatches(DISPOSITION, FORM_DATA, DispositionValue(f));
  }

  lemma LineParsesAsHeader(head: string, value: string)
    requires |head| > 1 && head[|head| - 1] == ':' && ':' !in head[..|head| - 1]
    requires value != "" && Trimmed(value)
    ensures ParsesAsHeader(head + (" " + value))
  {
    var key, line := head[..|head| - 1], head + (" " + value);
    assert line == key + [':'] + (" " + value);
    IndexOfIs(key, ':', " " + value);
    assert TrimRight(line) == line;
    assert line[|key| + 1..] == " " + value && (" " + value)[1..] == value;
    TrimKeeps(value);
    assert TrimLeft(" " + value) == value;
  }

  lemma LookupFirstTwo(params: Params, key1: string, v1: string, key2: string, v2: string, key3: string)
    requires key1 != key2 && key3 != key1 && key3 != key2
             && (params == [(key1, v1)] || params == [(key1, v1), (key2, v2)])
    ensures Lookup(params, key1) == Some(v1)
    ensures Lookup(params, key2) == if |params| == 1 then None else Some(v2)
    ensures Lookup(params, key3) == None
  {
    if |params| == 2 {
      assert params[1..] == [(key2, v2)];
      assert params[1..][1..] == [];
      assert Lookup(params[1..], key3) == None;
    }
  }

  lemma DispositionApplies(f: FileInfo)
    requires PlainName(f.name) && PlainName(f.filename)
    ensures ApplyDisposition(DispositionParams(DispositionValue(f)), NO_FILE) == Some(FileInfo(f.name, f.filename, ""))
  {
    DispositionParamsRead(f);
    LookupFirstTwo(DispositionParams(DispositionValue(f)), "name", f.name, "filename", f.filename, "filename*");
  }

  lemma DispositionIsNotContentType(rest: string)
    ensures !HasPrefixIgnoreCase(DISPOSITION + rest, CONTENT_TYPE)
  {
    assert (DISPOSITION + rest)[8] == DISPOSITION[8] == 'D';
    assert CONTENT_TYPE[8] == 'T';
  }

  lemma DispositionLineApplies(f: FileInfo)
    requires PlainName(f.name) && PlainName(f.filename)
    ensures ApplyHeaderLine(DispositionLine(f), NO_FILE) == Some(FileInfo(f.name, f.filename, ""))
  {
    var value := FORM_DATA + (" " + DispositionValue(f));
    LineParsesAsHeader(DISPOSITION, value);
    DispositionIsNotContentType(" " + value);
    DispositionMatches(f);
    DispositionApplies(f);
  }

  lemma ContentTypeLineApplies(f: FileInfo)
    requires PlainFile(f) && f.contentType != ""
    ensures ApplyHeaderLine(ContentTypeLine(f), FileInfo(f.name, f.filename, "")) == Some(f)
  {
    LineParsesAsHeader(CONTENT_TYPE, f.contentType);
    PrefixMatches(CONTENT_TYPE, " " + f.contentType);
    assert (" " + f.contentType)[1..] == f.contentType;
    TrimKeeps(f.contentType);
  }

  // ----- The machine on one serialised entry -----

  ghost predicate PlainItem(item: Item, boundary: string) {
    PlainFile(item.file) && Find(item.content, Delimiter(boundary)) == |item.content|
  }

  ghost predicate PlainItems(items: seq<Item>, boundary: string) {
    forall i :: 0 <= i < |items| ==> PlainItem(items[i], boundary)
  }

  lemma FindLineEnd(line: string, rest: string)
    requires '\r' !in line
    ensures Find(line + (CRLF + rest), CRLF) == |line|
    ensures (line + (CRLF + rest))[..|line|] == line && (line + (CRLF + rest))[|line| + 2..] == rest
  {
    var s := line + (CRLF + rest);
    assert s[|line|..|line| + 2] == CRLF;
    assert OccursAt(s, CRLF, |line|);
    forall i | 0 <= i < |line|
      ensures !OccursAt(s, CRLF, i)
    {
      assert s[i] == line[i] && line[i] in line;
      NoOccurrenceHere(s, CRLF, i);
    }
    FindIs(s, CRLF, |line|);
  }

  /** A header line that the machine accepts. */
  lemma ReadsHeaderLine(boundary: string, m: Machine, line: string, rest: string, file: FileInfo)
    requires m.phase.Headers? && m.pending == line + (CRLF + rest)
    requires line != "" && '\r' !in line && |line| < HEADER_MAX && ApplyHeaderLine(line, m.file) == Some(file)
    ensures Rest(boundary, m) == Rest(boundary, m.(file := file, pending := rest))
  {
    FindLineEnd(line, rest);
    StepThenRest(boundary, m);
  }

  /** The empty line: the header callback is told of the entry. */
  lemma ReadsEmptyLine(boundary: string, m: Machine, rest: string)
    requires m.phase.Headers? && m.pending == CRLF + rest
    ensures Rest(boundary, m) == Rest(boundary, Machine(Body, rest, m.file, m.items + [Item(m.file, "")]))
  {
    assert m.pending == "" + (CRLF + rest);
    FindLineEnd("", rest);
    StepThenRest(boundary, m);
  }

  lemma LinesHaveNoCr(f: FileInfo)
    requires PlainFile(f)
    ensures '\r' !in DispositionLine(f) && '\r' !in ContentTypeLine(f)
  {
    ValueHasNoLineEnd(f);
    hide DispositionValue;
    var value := " " + DispositionValue(f);
    assert '\r' !in value;
    assert '\r' !in FORM_DATA + value;
    assert '\r' !in " " + (FORM_DATA + value);
    assert '\r' !in DISPOSITION && '\r' !in CONTENT_TYPE && '\r' !in " " + f.contentType;
  }

  lemma EntryHeaderText(f: FileInfo, rest: string)
    ensures EntryHeader(f) + rest
         == DispositionLine(f)
            + (CRLF + if f.contentType == "" then CRLF + rest else ContentTypeLine(f) + (CRLF + (CRLF + rest)))
  {
    FourPieces(DispositionLine(f), CRLF, if f.contentType == "" then "" else ContentTypeLine(f) + CRLF, rest);
    if f.contentType != "" {
      FourPieces(ContentTypeLine(f), CRLF, "", rest);
    }
  }

  lemma FourPieces(a: string, b: string, c: string, rest: string)
    ensures (a + b + c + b) + rest == a + (b + (c + (b + rest)))
    ensures c == "" ==> c + (b + rest) == b + rest
    ensures (a + b) + (b + rest) == a + (b + (b + rest))
  {
    assert (a + b + c + b) + rest == a + b + c + (b + rest);
    assert a + b + c + (b + rest) == a + b + (c + (b + rest));
  }

  lemma ReadsEntryHeader(boundary: string, start: FileInfo, items: seq<Item>, f: FileInfo, rest: string)
    requires PlainFile(f)
    ensures Rest(boundary, Machine(EntryStart, EntryHeader(f) + rest, start, items))
         == Rest(boundary, Machine(Body, rest, f, items + [Item(f, "")]))
  {
    var named := FileInfo(f.name, f.filename, "");
    var typeLine := ContentTypeLine(f);
    var afterFirst := if f.contentType == "" then CRLF + rest else typeLine + (CRLF + (CRLF + rest));
    EntryHeaderText(f, rest);
    LinesHaveNoCr(f);
    StepThenRest(boundary, Machine(EntryStart, EntryHeader(f) + rest, start, items));
    DispositionLineApplies(f);
    ReadsHeaderLine(boundary, Machine(Headers, EntryHeader(f) + rest, NO_FILE, items), DispositionLine(f), afterFirst,
        named);
    if f.contentType != "" {
      ContentTypeLineApplies(f);
      ReadsHeaderLine(boundary, Machine(Headers, afterFirst, named, items), typeLine, CRLF + rest, f);
    }
    ReadsEmptyLine(boundary, Machine(Headers, CRLF + rest, f, items), rest);
  }

  /** The delimiter after plain content is the first one: it has no carriage return but its first byte,
      so it cannot begin inside the content. */
  lemma FindDelimiterAfter(content: string, boundary: string, rest: string)
    requires '\r' !in boundary && Find(content, Delimiter(boundary)) == |content|
    ensures var s := content + (Delimiter(boundary) + rest);
            Find(s, Delimiter(boundary)) == |content| && s[..|content|] == content
            && s[|content| + |Delimiter(boundary)|..] == rest
  {
    var d := Delimiter(boundary);
    var s := content + (d + rest);
    FindIsFirst(content, d);
    assert s[|content|..|content| + |d|] == d;
    assert OccursAt(s, d, |content|);
    forall i | 0 <= i < |content|
      ensures !OccursAt(s, d, i)
    {
      if i + |d| <= |content| {
        OccursInPrefix(content, d, d + rest, i);
      } else {
        var j := |content| - i;
        assert s[i..i + |d|][j] == s[|content|] == '\r';
        assert d[j] != '\r';
      }
    }
    FindIs(s, d, |content|);
  }

  lemma ReadsContent(boundary: string, items: seq<Item>, item: Item, rest: string)
    requires '\r' !in boundary && PlainItem(item, boundary)
    ensures Rest(boundary, Machine(Body, item.content + (Delimiter(boundary) + rest), item.file,
                                   items + [Item(item.file, "")]))
         == Rest(boundary, Machine(Boundary, rest, item.file, items + [item]))
  {
    hide Rest, Find, PlainFile;
    var m := Machine(Body, item.content + (Delimiter(boundary) + rest), item.file, items + [Item(item.file, "")]);
    FindDelimiterAfter(item.content, boundary, rest);
    BodyUpToDelimiter(boundary, m);
    assert (items + [Item(item.file, "")])[..|items|] == items;
    assert "" + item.content == item.content;
    assert AppendContent(m.items, item.content) == items + [item];
  }

  // ----- The whole serialised body -----

  /** What follows the opening line: the entries, each closed by a delimiter, the last by the end marker. */
  function Entries(items: seq<Item>, boundary: string): string
    requires items != []
    decreases |items|, 1
  {
    EntryHeader(items[0].file) + (items[0].content + (Delimiter(boundary) + AfterEntry(items, boundary)))
  }

  function AfterEntry(items: seq<Item>, boundary: string): string
    requires items != []
    decreases |items|, 0
  {
    if |items| == 1 then DASH + CRLF else CRLF + Entries(items[1..], boundary)
  }

  lemma Regroup(a: string, b: string, c: string, d: string, e: string)
    ensures ((a + b) + c + d) + e == a + (b + (c + (d + e)))
  {
    assert ((a + b) + c + d) + e == (a + b) + c + (d + e);
    assert (a + b) + c + (d + e) == (a + b) + (c + (d + e));
  }

  /** The line end before the next opening line (or before the end marker) belongs to the delimiter. */
  lemma DelimiterText(boundary: string, more: string)
    ensures CRLF + (OpeningLine(boundary) + more) == Delimiter(boundary) + (CRLF + more)
    ensures CRLF + (DASH + boundary + DASH + CRLF) == Delimiter(boundary) + (DASH + CRLF)
  {
  }

  lemma SerializedCons(items: seq<Item>, boundary: string)
    requires items != []
    ensures Serialized(items, boundary) == ItemText(items[0], boundary) + Serialized(items[1..], boundary)
  {
    Associates(ItemText(items[0], boundary), ItemTexts(items[1..], boundary), DASH + boundary + DASH + CRLF);
  }

  lemma Associates(a: string, b: string, c: string)
    ensures (a + b) + c == a + (b + c)
  {
  }

  lemma {:induction false} SerializedIsEntries(items: seq<Item>, boundary: string)
    requires items != []
    ensures Serialized(items, boundary) == OpeningLine(boundary) + Entries(items, boundary)
    decreases |items|
  {
    SerializedCons(items, boundary);
    if |items| == 1 {
      DelimiterText(boundary, "");
      assert items[1..] == [] && Serialized([], boundary) == DASH + boundary + DASH + CRLF;
    } else {
      SerializedIsEntries(items[1..], boundary);
      DelimiterText(boundary, Entries(items[1..], boundary));
    }
    Regroup(OpeningLine(boundary), EntryHeader(items[0].file), items[0].content, CRLF,
        Serialized(items[1..], boundary));
  }

  /** One entry: header, content, delimiter. */
  lemma ReadsEntry(boundary: string, start: FileInfo, done: seq<Item>, item: Item, after: string)
    requires '\r' !in boundary && PlainItem(item, boundary)
    ensures Rest(boundary, Machine(EntryStart, EntryHeader(item.file) + (item.content + (Delimiter(boundary) + after)),
                                   start, done))
         == Rest(boundary, Machine(Boundary, after, item.file, done + [item]))
  {
    ReadsEntryHeader(boundary, start, done, item.file, item.content + (Delimiter(boundary) + after));
    ReadsContent(boundary, done, item, after);
  }

  lemma AtLineEnd(boundary: string, m: Machine, more: string)
    requires m.phase.Boundary?
    ensures m.pending == CRLF + more ==> Rest(boundary, m) == Rest(boundary, m.(phase := EntryStart, pending := more))
    ensures m.pending == DASH + more ==> Rest(boundary, m) == m.(phase := Finished, pending := more)
  {
    StepThenRest(boundary, m);
    assert (CRLF + more)[..2] == CRLF && (CRLF + more)[2..] == more;
    assert (DASH + more)[..2] == DASH && (DASH + more)[2..] == more;
    StepThenRest(boundary, m.(phase := Finished, pending := more));
  }

  lemma ReadsLastEntry(boundary: string, start: FileInfo, done: seq<Item>, items: seq<Item>)
    requires |items| == 1 && '\r' !in boundary && PlainItem(items[0], boundary)
    ensures Rest(boundary, Machine(EntryStart, Entries(items, boundary), start, done))
         == Machine(Finished, CRLF, items[0].file, done + [items[0]])
  {
    ReadsEntry(boundary, start, done, items[0], DASH + CRLF);
    AtLineEnd(boundary, Machine(Boundary, DASH + CRLF, items[0].file, done + [items[0]]), CRLF);
  }

  lemma ReadsInnerEntry(boundary: string, start: FileInfo, done: seq<Item>, items: seq<Item>)
    requires |items| > 1 && '\r' !in boundary && PlainItem(items[0], boundary)
    ensures Rest(boundary, Machine(EntryStart, Entries(items, boundary), start, done))
         == Rest(boundary, Machine(EntryStart, Entries(items[1..], boundary), items[0].file, done + [items[0]]))
  {
    var more := Entries(items[1..], boundary);
    ReadsEntry(boundary, start, done, items[0], CRLF + more);
    AtLineEnd(boundary, Machine(Boundary, CRLF + more, items[0].file, done + [items[0]]), more);
  }

  /** From the start of an entry, the machine delivers exactly the serialised items and finishes. */
  lemma {:induction false} EntriesAreRead(boundary: string, start: FileInfo, done: seq<Item>, items: seq<Item>)
    requires items != [] && '\r' !in boundary && PlainItems(items, boundary)
    ensures var r := Rest(boundary, Machine(EntryStart, Entries(items, boundary), start, done));
            r.phase.Finished? && r.pending == CRLF && r.items == done + items
    decreases |items|
  {
    hide Rest, Entries, PlainItem;
    if |items| == 1 {
      ReadsLastEntry(boundary, start, done, items);
      assert [items[0]] == items;
    } else {
      ReadsInnerEntry(boundary, start, done, items);
      EntriesAreRead(boundary, items[0].file, done + [items[0]], items[1..]);
      assert done + [items[0]] + items[1..] == done + items;
    }
  }

  lemma SerializedIsRead(boundary: string, items: seq<Item>)
    requires items != [] && '\r' !in boundary && PlainItems(items, boundary)
    ensures var r := Rest(boundary, Fed(Start(), Serialized(items, boundary)));
            r.phase.Finished? && r.pending == CRLF && r.items == items
  {
    var open, more := OpeningLine(boundary), Entries(items, boundary);
    SerializedIsEntries(items, boundary);
    var m := Fed(Start(), open + more);
    assert "" + (open + more) == open + more;
    assert OccursAt(open + more, open, 0) by {
      assert (open + more)[0..0 + |open|] == open;
    }
    FindIs(open + more, open, 0);
    assert (open + more)[|open|..] == more;
    StepThenRest(boundary, m);
    EntriesAreRead(boundary, NO_FILE, [], items);
    assert [] + items == items;
  }

  // ----- The parser on the whole body, in any chunks -----

  /** What the parser can be left with while the final line end arrives: after the end marker it waits in
      stage 4, and the line end moves it to stage 1. */
  ghost predicate AtEpilogue(p: Parser, rest: string) {
    p.valid && if p.stage == 4
               then |p.pending| < 2 && (p.pending + rest == CRLF || p.pending + rest == "\n" || p.pending + rest == "")
               else p.stage == 1 && p.pending == "" && rest == ""
  }

  lemma EpilogueChunk(boundary: string, p: Parser, data: string, rest: string, answer: Answer)
    requires AtEpilogue(p, data + rest)
    ensures var (ok, next) := Parse(boundary, p, data, answer);
            ok && next.log == p.log && AtEpilogue(next, rest)
  {
    var q := p.(pending := p.pending + data);
    assert p.pending + (data + rest) == q.pending + rest;
    if q.pending != "" {
      assert q.pending == (q.pending + rest)[..|q.pending|];
      LoopUnfolds(boundary, q, answer);
      if |q.pending| == 2 {
        assert q.pending == CRLF && q.pending[..2] == CRLF && q.pending[2..] == "";
      }
    }
  }

  /** The final line end, however split, changes nothing. */
  lemma {:induction false} EpilogueIsHarmless(boundary: string, p: Parser, chunks: seq<string>, answer: Answer)
    requires AtEpilogue(p, Joined(chunks))
    ensures var (ok, final) := ParseAll(boundary, p, chunks, answer);
            ok && final.valid && final.log == p.log
    decreases |chunks|
  {
    if chunks != [] {
      EpilogueChunk(boundary, p, chunks[0], Joined(chunks[1..]), answer);
      EpilogueIsHarmless(boundary, Parse(boundary, p, chunks[0], answer).1, chunks[1..], answer);
    }
  }

  /** The parser after the first chunk, seen as the machine. */
  lemma AfterFirstChunk(boundary: string, p: Parser, chunks: seq<string>, answer: Answer)
    requires p.stage <= 4 && Accepting(answer) && chunks != []
    requires p.stage == 0 ==> Find(p.pending + chunks[0], OpeningLine(boundary)) < |p.pending + chunks[0]|
    ensures var (ok, next) := Parse(boundary, p, chunks[0], answer);
            var r, total := Rest(boundary, Fed(MachineOf(p), chunks[0])),
                Rest(boundary, Fed(MachineOf(p), Joined(chunks)));
            && Settled(r, ok, next)
            && Rest(boundary, Fed(r, Joined(chunks[1..]))) == total && (Ended(r) ==> total.phase == r.phase)
            && Rest(boundary, r) == r && !r.phase.Opening?
  {
    FirstChunk(boundary, MachineOf(p), chunks);
    LoopAgrees(boundary, p.(pending := p.pending + chunks[0]), answer);
    RestIsStable(boundary, Fed(MachineOf(p), chunks[0]));
    OpeningIsLeft(boundary, Fed(MachineOf(p), chunks[0]));
  }

  lemma FinishedThenLineEnd(boundary: string, r: Machine, p: Parser, chunks: seq<string>, answer: Answer)
    requires r.phase.Finished? && p.valid && p.stage == 4 && p.pending == ""
    requires Rest(boundary, Fed(r, Joined(chunks))).pending == CRLF
    ensures var (ok, final) := ParseAll(boundary, p, chunks, answer);
            ok && final.valid && final.log == p.log
    ensures Rest(boundary, Fed(r, Joined(chunks))).items == r.items
  {
    hide Rest, ParseAll, HeaderStep, BodyStep, Find;
    StepThenRest(boundary, Fed(r, Joined(chunks)));
    SuffixOfLineEnd(r.pending, Joined(chunks));
    assert "" + Joined(chunks) == Joined(chunks);
    EpilogueIsHarmless(boundary, p, chunks, answer);
  }

  lemma NoMoreChunks(r: Machine, chunks: seq<string>)
    requires chunks != []
    ensures |chunks| == 1 ==> Fed(r, Joined(chunks[1..])) == r
  {
    if |chunks| == 1 {
      assert chunks[1..] == [] && r.pending + "" == r.pending;
    }
  }

  /** If the machine finishes on a body followed by a line end, so does the parser, in any chunks. */
  lemma {:induction false} ParserFinishes(boundary: string, p: Parser, chunks: seq<string>, answer: Answer)
    requires p.stage <= 4 && Accepting(answer) && chunks != []
    requires p.stage == 0 ==> Find(p.pending + chunks[0], OpeningLine(boundary)) < |p.pending + chunks[0]|
    requires var r := Rest(boundary, Fed(MachineOf(p), Joined(chunks))); r.phase.Finished? && r.pending == CRLF
    ensures var (ok, final) := ParseAll(boundary, p, chunks, answer);
            ok && final.valid && Collect(final.log) == Rest(boundary, Fed(MachineOf(p), Joined(chunks))).items
    decreases |chunks|
  {
    var r := Rest(boundary, Fed(MachineOf(p), chunks[0]));
    var (ok, next) := Parse(boundary, p, chunks[0], answer);
    AfterFirstChunk(boundary, p, chunks, answer);
    if r.phase.Finished? {
      FinishedThenLineEnd(boundary, r, next, chunks[1..], answer);
    } else {
      assert MachineOf(next) == r;
      NoMoreChunks(r, chunks);
      assert |chunks| > 1;
      ParserFinishes(boundary, next, chunks[1..], answer);
    }
  }

  lemma SuffixOfLineEnd(a: string, b: string)
    requires a + b == CRLF
    ensures b == CRLF || b == "\n" || b == ""
  {
    assert b == CRLF[|a|..];
    assert CRLF[0..] == CRLF && CRLF[1..] == "\n" && CRLF[2..] == "";
  }

  /** Round trip: parsing a serialised body, in any chunks of which the first holds the opening line,
      makes the callbacks build up exactly the serialised items and leaves the parser valid. */
  lemma MultipartRoundTrip(items: seq<Item>, boundary: string, chunks: seq<string>, answer: Answer)
    requires items != [] && '\r' !in boundary && PlainItems(items, boundary) && Accepting(answer)
    requires Joined(chunks) == Serialized(items, boundary)
    requires chunks != [] && |chunks[0]| >= |OpeningLine(boundary)|
    ensures var (ok, final) := ParseAll(boundary, Initial(), chunks, answer);
            ok && final.valid && Collect(final.log) == items
  {
    var open := OpeningLine(boundary);
    SerializedIsEntries(items, boundary);
    SerializedIsRead(boundary, items);
    assert chunks[0][..|open|] == Joined(chunks)[..|open|] == open;
    assert chunks[0][0..0 + |open|] == open;
    FindIs(chunks[0], open, 0);
    assert "" + chunks[0] == chunks[0];
    assert MachineOf(Initial()) == Start();
    StepThenRest(boundary, Start());
    ParserFinishes(boundary, Initial(), chunks, answer);
  }

  /** A boundary that the library accepts has no carriage return. */
  predicate BoundaryCharsValid(boundary: string) {
    forall i :: 0 <= i < |boundary| ==>
      var c := boundary[i];
      'a' <= c <= 'z' || 'A' <= c <= 'Z' || IsDigit(c) || c == '-' || c == '_'
  }

  method IsBoundaryCharsValid(boundary: string) returns (valid: bool)
    ensures valid == BoundaryCharsValid(boundary)
    ensures valid ==> '\r' !in boundary
  {
    for i := 0 to |boundary|
      invariant BoundaryCharsValid(boundary[..i])
    {
      var c := boundary[i];
      if !('a' <= c <= 'z' || 'A' <= c <= 'Z' || IsDigit(c)) && c != '-' && c != '_' {
        return false;
      }
    }
    assert boundary[..|boundary|] == boundary;
    return true;
  }

  // ----- The body state on arbitrary bytes -----

  /** The parser is fed `head`, which brings it to the beginning of a body, and then the bytes `s`, in chunks
      that need not respect this boundary. */
  ghost predicate BodyAfter(boundary: string, p: Parser, head: string, s: string, chunks: seq<string>, file: FileInfo,
    items: seq<Item>) {
    && p.stage <= 4 && Rest(boundary, MachineOf(p)) == MachineOf(p)
    && (p.stage == 0 ==> chunks != [] && Find(p.pending + chunks[0], OpeningLine(boundary)) < |p.pending + chunks[0]|)
    && Rest(boundary, Fed(MachineOf(p), head)) == Machine(Body, "", file, items)
    && Joined(chunks) == head + s
  }

  lemma BodyMachine(boundary: string, p: Parser, head: string, s: string, chunks: seq<string>, file: FileInfo,
    items: seq<Item>)
    requires BodyAfter(boundary, p, head, s, chunks, file, items)
    ensures Rest(boundary, Fed(MachineOf(p), Joined(chunks))) == Rest(boundary, Machine(Body, s, file, items))
  {
    hide Rest, Find, Joined;
    var m := MachineOf(p);
    RestBetweenChunks(boundary, Fed(m, head), s);
    assert m.pending + head + s == m.pending + (head + s);
    assert "" + s == s;
  }

  lemma BodyMachineWaits(boundary: string, s: string, file: FileInfo, items: seq<Item>)
    requires Find(s, Delimiter(boundary)) == |s|
    ensures var d := Delimiter(boundary);
            var k := if |s| <= |d| then 0 else |s| - |d|;
            Rest(boundary, Machine(Body, s, file, items)) == Machine(Body, s[k..], file, AppendContent(items, s[..k]))
  {
    BodyHoldsBackTail(boundary, Machine(Body, s, file, items));
    AppendTwice(items, "", "");
    assert s[0..] == s && s[..0] == "";
  }

  lemma SettledMeans(r: Machine, ok: bool, final: Parser)
    requires Settled(r, ok, final) && (r.phase.Body? || r.phase.Boundary?)
    ensures ok && final.stage == (if r.phase.Body? then 3 else 4)
    ensures final.pending == r.pending && Collect(final.log) == r.items
  {
    assert PhaseOf(final.stage) == r.phase;
  }

  /** While no delimiter has arrived, wherever the body begins and whatever the split, the bytes delivered
      are those fed but a held-back tail no longer than a delimiter: no byte is lost and none of a delimiter
      leaks. */
  lemma BodyWithoutDelimiter(boundary: string, p: Parser, head: string, s: string, chunks: seq<string>,
    file: FileInfo, items: seq<Item>, answer: Answer)
    requires BodyAfter(boundary, p, head, s, chunks, file, items) && Accepting(answer)
    requires Find(s, Delimiter(boundary)) == |s|
    ensures var d := Delimiter(boundary);
            var k := if |s| <= |d| then 0 else |s| - |d|;
            var (ok, final) := ParseAll(boundary, p, chunks, answer);
            ok && final.stage == 3 && final.pending == s[k..] && Collect(final.log) == AppendContent(items, s[..k])
  {
    BodyMachine(boundary, p, head, s, chunks, file, items);
    BodyMachineWaits(boundary, s, file, items);
    hide Rest, Find, ParseAll, Joined, Collect, AppendContent, Delimiter;
    SplitDoesNotMatter(boundary, p, chunks, answer);
    var (ok, final) := ParseAll(boundary, p, chunks, answer);
    SettledMeans(Rest(boundary, Fed(MachineOf(p), Joined(chunks))), ok, final);
    hide Settled, MachineOf, Fed;
  }

  lemma BodyMachineEnds(boundary: string, s: string, file: FileInfo, items: seq<Item>)
    requires Find(s, Delimiter(boundary)) + |Delimiter(boundary)| == |s|
    ensures Rest(boundary, Machine(Body, s, file, items))
         == Machine(Boundary, "", file, AppendContent(items, s[..Find(s, Delimiter(boundary))]))
  {
    var pos := Find(s, Delimiter(boundary));
    BodyUpToDelimiter(boundary, Machine(Body, s, file, items));
    assert s[pos + |Delimiter(boundary)|..] == "";
    StepThenRest(boundary, Machine(Boundary, "", file, AppendContent(items, s[..pos])));
  }

  /** Once the bytes of the body end with their first delimiter, exactly the bytes before it are delivered. */
  lemma BodyWithDelimiter(boundary: string, p: Parser, head: string, s: string, chunks: seq<string>,
    file: FileInfo, items: seq<Item>, answer: Answer)
    requires BodyAfter(boundary, p, head, s, chunks, file, items) && Accepting(answer)
    requires Find(s, Delimiter(boundary)) + |Delimiter(boundary)| == |s|
    ensures var (ok, final) := ParseAll(boundary, p, chunks, answer);
            ok && final.stage == 4 && final.pending == ""
            && Collect(final.log) == AppendContent(items, s[..Find(s, Delimiter(boundary))])
  {
    BodyMachine(boundary, p, head, s, chunks, file, items);
    BodyMachineEnds(boundary, s, file, items);
    hide Rest, Find, ParseAll, Joined, Collect, AppendContent, Delimiter;
    SplitDoesNotMatter(boundary, p, chunks, answer);
    var (ok, final) := ParseAll(boundary, p, chunks, answer);
    SettledMeans(Rest(boundary, Fed(MachineOf(p), Joined(chunks))), ok, final);
    hide Settled, MachineOf, Fed;
  }

  /** What has been delivered is never taken back: entries before the one being read keep their content. */
  lemma {:induction false} EarlierItemsStay(boundary: string, m: Machine, n: nat)
    requires n + (if m.phase.Body? then 1 else 0) <= |m.items|
    ensures n <= |Rest(boundary, m).items| && Rest(boundary, m).items[..n] == m.items[..n]
    decreases Measure(m)
  {
    if Step(boundary, m).Some? {
      var next := Step(boundary, m).value;
      assert next.items[..n] == m.items[..n];
      EarlierItemsStay(boundary, next, n);
    }
  }

  /** The entry being read gets exactly the bytes before the first delimiter, whatever comes after it. */
  lemma ContentEndsAtDelimiter(boundary: string, m: Machine)
    requires m.phase.Body? && m.items != [] && Find(m.pending, Delimiter(boundary)) < |m.pending|
    ensures var pos := Find(m.pending, Delimiter(boundary));
            AppendContent(m.items, m.pending[..pos]) <= Rest(boundary, m).items
  {
    hide Rest, Find;
    var pos := Find(m.pending, Delimiter(boundary));
    var items := AppendContent(m.items, m.pending[..pos]);
    BodyUpToDelimiter(boundary, m);
    EarlierItemsStay(boundary, Machine(Boundary, m.pending[pos + |Delimiter(boundary)|..], m.file, items), |items|);
    assert items[..|items|] == items;
  }
}
