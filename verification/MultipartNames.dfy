/** Which names and file names survive being printed into a Content-Disposition line, where they stand
    unescaped between quotes. */
module MultipartNames {
  import opened Prelude
  import opened Text
  import opened MultipartHeader
  import opened MultipartRoundTrip
  import QueryCoding

  predicate Contained(t: string, s: string) {
    |t| <= |s| && forall c :: c in t ==> c in s
  }

  lemma {:induction false} TrimIsContained(s: string)
    ensures Contained(TrimLeft(s), s) && Contained(TrimRight(s), s)
  {
    if s != "" {
      TrimIsContained(s[1..]);
      TrimIsContained(s[..|s| - 1]);
    }
  }

  lemma PieceIsContained(s: string, q: string)
    requires q in Piece(s)
    ensures Contained(q, s)
  {
    TrimIsContained(s);
    TrimIsContained(TrimLeft(s));
  }

  lemma {:induction false} SplitIsContained(s: string, d: char, q: string)
    requires q in Split(s, d)
    ensures Contained(q, s) && d !in q
    decreases |s|
  {
    var i := IndexOf(s, d);
    if i == |s| {
      PieceIsContained(s, q);
    } else if q in Piece(s[..i]) {
      PieceIsContained(s[..i], q);
    } else {
      SplitIsContained(s[i + 1..], d, q);
    }
  }

  /** The first and the last of several pieces are apart. */
  lemma {:induction false} FirstAndLast(s: string, d: char)
    requires |Split(s, d)| > 1
    ensures |Split(s, d)[0]| + 1 + |Split(s, d)[|Split(s, d)| - 1]| <= |s|
    decreases |s|
  {
    var i := IndexOf(s, d);
    var first, more := Piece(s[..i]), Split(s[i + 1..], d);
    assert i < |s| && Split(s, d) == first + more;
    if first == [] {
      FirstAndLast(s[i + 1..], d);
    } else {
      PieceIsContained(s[..i], first[0]);
      SplitIsContained(s[i + 1..], d, more[|more| - 1]);
    }
  }

  lemma TrimQuotesContained(s: string)
    ensures Contained(TrimQuotes(s), s)
  {
  }

  function KeyOf(q: string): string {
    if Split(q, '=') == [] then "" else TrimQuotes(Split(q, '=')[0])
  }

  function ValueOf(q: string): string {
    var parts := Split(q, '=');
    TrimQuotes(if |parts| > 1 then parts[|parts| - 1] else "")
  }

  /** A value that a piece can give under `key`. */
  ghost predicate Gives(q: string, key: string, v: string) {
    KeyOf(q) == key && '=' !in v && Contained(v, q) && (v != "" ==> |key| + 1 + |v| <= |q|)
  }

  lemma PieceGives(q: string)
    requires Split(q, '=') != []
    ensures Gives(q, KeyOf(q), ValueOf(q))
  {
    var parts := Split(q, '=');
    TrimQuotesContained(parts[0]);
    if |parts| > 1 {
      TrimQuotesContained(parts[|parts| - 1]);
      SplitIsContained(q, '=', parts[|parts| - 1]);
      FirstAndLast(q, '=');
    }
  }

  lemma FirstParam(pieces: seq<string>, seen: set<string>, key: string)
    requires pieces != [] && pieces[0] !in seen
    ensures var q, more := pieces[0], Lookup(PieceParams(pieces[1..], seen + {pieces[0]}), key);
            Lookup(PieceParams(pieces, seen), key)
            == if Split(q, '=') != [] && KeyOf(q) == key then Some(ValueOf(q)) else more
  {
    var q, params, more := pieces[0], PieceParams(pieces, seen), PieceParams(pieces[1..], seen + {pieces[0]});
    if Split(q, '=') == [] {
      assert params == more;
    } else {
      assert params == [(KeyOf(q), ValueOf(q))] + more;
      assert params[1..] == more;
    }
  }

  /** A parameter found comes from a piece. */
  lemma {:induction false} FoundInPiece(pieces: seq<string>, seen: set<string>, key: string, v: string)
    requires Lookup(PieceParams(pieces, seen), key) == Some(v)
    ensures exists q :: q in pieces && Gives(q, key, v)
  {
    var q, more := pieces[0], pieces[1..];
    if q in seen {
      FoundInPiece(more, seen, key, v);
    } else {
      FirstParam(pieces, seen, key);
      if Split(q, '=') != [] && KeyOf(q) == key {
        PieceGives(q);
        assert q in pieces;
      } else {
        FoundInPiece(more, seen + {q}, key, v);
      }
    }
  }

  /** A value that is found has no ';' and no '='. */
  lemma FoundValue(s: string, key: string, v: string)
    requires Lookup(DispositionParams(s), key) == Some(v)
    ensures ';' !in v && '=' !in v
    ensures exists q :: q in Split(s, ';') && KeyOf(q) == key && (v != "" ==> |key| + 1 + |v| <= |q|)
  {
    FoundInPiece(Split(s, ';'), {}, key, v);
    var q :| q in Split(s, ';') && Gives(q, key, v);
    SplitIsContained(s, ';', q);
  }

  /** A value that is found behind the first piece is bounded by what stands there. */
  lemma FoundBehind(first: string, second: string, key: string, v: string)
    requires first != "" && Trimmed(first) && ';' !in first && KeyOf(first) != key
    requires Lookup(DispositionParams(first + [';'] + second), key) == Some(v) && v != ""
    ensures |key| + 1 + |v| <= |second|
  {
    hide DispositionParams, KeyOf;
    var s := first + [';'] + second;
    FoundValue(s, key, v);
    var q :| q in Split(s, ';') && KeyOf(q) == key && |key| + 1 + |v| <= |q|;
    SplitCons(first, ';', second);
    TrimKeeps(first);
    SplitIsContained(second, ';', q);
  }

  lemma NameIsKey(name: string)
    requires PlainName(name)
    ensures var first := Param("name", name);
            first != "" && Trimmed(first) && ';' !in first && KeyOf(first) == "name"
  {
    KeyValueSplits("name", name);
  }

  /** With a plain name, an extended file name that is found is too short to stand for the whole one. */
  lemma ExtendedIsShorter(f: FileInfo, ext: string)
    requires PlainName(f.name) && f.filename != "" && ext != ""
    requires Lookup(DispositionParams(DispositionValue(f)), "filename*") == Some(ext)
    ensures |ext| <= |f.filename| + 2
  {
    var first, second := Param("name", f.name), " " + Param("filename", f.filename);
    assert DispositionValue(f) == first + [';'] + second;
    NameIsKey(f.name);
    assert |second| == |f.filename| + 12;
    hide DispositionParams, KeyOf, Param, Lookup, DispositionValue;
    FoundBehind(first, second, "filename*", ext);
  }

  lemma DispositionRefused(f: FileInfo)
    requires '\r' in DispositionValue(f) || '\n' in DispositionValue(f)
    ensures MatchDisposition(DispositionLine(f)) == None
  {
    var rest := DispositionValue(f);
    assert rest[0] == 'n';
    var tail := FORM_DATA + (" " + rest);
    PrefixMatches(DISPOSITION, " " + tail);
    SkipOneSpace(tail);
    PrefixMatches(FORM_DATA, " " + rest);
    SkipOneSpace(rest);
  }

  lemma NamesInValue(f: FileInfo)
    ensures forall c :: c in f.name ==> c in DispositionValue(f)
    ensures forall c :: c in f.filename ==> c in DispositionValue(f)
  {
  }

  /** What the line applies as, when a name is read at all. */
  lemma LineIsDisposition(f: FileInfo, g: FileInfo)
    requires ApplyHeaderLine(DispositionLine(f), NO_FILE) == Some(g) && g.name == f.name && g.filename == f.filename
    ensures f.name == f.filename == "" || ApplyDisposition(DispositionParams(DispositionValue(f)), NO_FILE) == Some(g)
    ensures '\r' !in f.name && '\n' !in f.name && '\r' !in f.filename && '\n' !in f.filename
  {
    var s := DispositionValue(f);
    DispositionIsNotContentType(" " + (FORM_DATA + (" " + s)));
    if '\r' in s || '\n' in s {
      DispositionRefused(f);
    } else {
      assert s != "" && s[0] == 'n';
      LabelledMatches(DISPOSITION, FORM_DATA, s);
      NamesInValue(f);
    }
  }

  /** An extended file name is decoded without growing. */
  lemma ExtendedName(ext: string)
    ensures MatchExtendedName(ext).Some? ==> |QueryCoding.DecodeUrl(MatchExtendedName(ext).value, false)| + 7 <= |ext|
  {
    if MatchExtendedName(ext).Some? {
      QueryCoding.DecodedIsNotLonger(MatchExtendedName(ext).value, false);
    }
  }

  /** What is read as the file name: the value of one parameter, or that of the extended one, decoded. */
  lemma AppliedName(params: Params, g: FileInfo)
    requires ApplyDisposition(params, NO_FILE) == Some(g)
    ensures Lookup(params, "name") == Some(g.name)
    ensures match Lookup(params, "filename*")
            case None => g.filename == "" || Lookup(params, "filename") == Some(g.filename)
            case Some(ext) => |g.filename| + 7 <= |ext|
  {
    hide Lookup;
    match Lookup(params, "filename*")
    case None =>
    case Some(ext) => ExtendedName(ext);
  }

  lemma ReadBackIsPlain(f: FileInfo)
    requires ApplyHeaderLine(DispositionLine(f), NO_FILE) == Some(FileInfo(f.name, f.filename, ""))
    ensures PlainName(f.name) && PlainName(f.filename)
  {
    LineIsDisposition(f, FileInfo(f.name, f.filename, ""));
    hide DispositionLine, DispositionValue, DispositionParams, ApplyDisposition, ApplyHeaderLine, Lookup;
    if f.name != "" || f.filename != "" {
      var params := DispositionParams(DispositionValue(f));
      AppliedName(params, FileInfo(f.name, f.filename, ""));
      FoundValue(DispositionValue(f), "name", f.name);
      if f.filename != "" {
        match Lookup(params, "filename*")
        case None => FoundValue(DispositionValue(f), "filename", f.filename);
        case Some(ext) => ExtendedIsShorter(f, ext);
      }
    }
  }

  /** Names are read back from the line that the serialiser prints for them exactly when they are plain. */
  lemma NamesAreReadBackIff(f: FileInfo)
    ensures ApplyHeaderLine(DispositionLine(f), NO_FILE) == Some(FileInfo(f.name, f.filename, ""))
       <==> PlainName(f.name) && PlainName(f.filename)
  {
    if PlainName(f.name) && PlainName(f.filename) {
      DispositionLineApplies(f);
    } else if ApplyHeaderLine(DispositionLine(f), NO_FILE) == Some(FileInfo(f.name, f.filename, "")) {
      ReadBackIsPlain(f);
    }
  }

  lemma SplitInTwo(a: string, d: char, b: string)
    requires a != "" && b != "" && Trimmed(a) && Trimmed(b) && d !in a && d !in b
    ensures Split(a + [d] + b, d) == [a, b] && Split(b, d) == [b]
  {
    SplitCons(a, d, b);
    SplitOne(b, d);
    TrimKeeps(a);
    TrimKeeps(b);
  }

  lemma CutName(first: string, second: string)
    requires first == "name=\"a" && second == "b\""
    ensures DispositionParams(first + [';'] + second) == [("name", "\"a"), (second, "")]
  {
    SplitInTwo(first, ';', second);
    assert first == "name" + ['='] + "\"a";
    SplitInTwo("name", '=', "\"a");
    SplitInTwo("name", '=', second);
    hide Split;
    CutPieces(first, second);
  }

  lemma CutPieces(first: string, second: string)
    requires Split(first, '=') == ["name", "\"a"] && Split(second, '=') == [second] && first != second
    requires second == "b\""
    ensures PieceParams([first, second], {}) == [("name", "\"a"), (second, "")]
  {
    assert [first, second][1..] == [second] && [second][1..] == [];
    assert PieceParams([], {first} + {second}) == [];
    assert PieceParams([second], {first}) == [(second, "")];
    assert {} + {first} == {first};
  }

  /** A name with a semicolon is cut off there, and keeps its opening quote. */
  lemma SemicolonCutsName()
    ensures ApplyDisposition(DispositionParams(DispositionValue(FileInfo("a;b", "", ""))), NO_FILE)
         == Some(FileInfo("\"a", "", ""))
  {
    assert DispositionValue(FileInfo("a;b", "", "")) == "name=\"a" + [';'] + "b\"";
    CutName("name=\"a", "b\"");
    var params := [("name", "\"a"), ("b\"", "")];
    LookupFirstTwo(params, "name", "\"a", "b\"", "", "filename");
    LookupFirstTwo(params, "name", "\"a", "b\"", "", "filename*");
  }
}
