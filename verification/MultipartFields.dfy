/** What the header lines of a multipart entry mean, on the text of the line. */
module MultipartFields {
  import opened Prelude
  import opened Text
  import opened MultipartHeader
  import QueryCoding

  predicate IsLetter(c: char) {
    'A' <= c <= 'Z' || 'a' <= c <= 'z'
  }

  /** The texts differ in the case of letters only. */
  predicate SameIgnoringCase(s: string, t: string) {
    |s| == |t|
    && forall i :: 0 <= i < |s| ==>
         s[i] == t[i]
         || (IsLetter(s[i]) && IsLetter(t[i]) && (s[i] as int - t[i] as int == 32 || t[i] as int - s[i] as int == 32))
  }

  lemma PrefixIff(s: string, p: string)
    ensures HasPrefixIgnoreCase(s, p) <==> |p| <= |s| && SameIgnoringCase(s[..|p|], p)
  {
  }

  ghost predicate OnlySpaces(s: string) {
    forall i :: 0 <= i < |s| ==> IsSpace(s[i])
  }

  lemma {:induction false} SpacesAreSkipped(spaces: string, rest: string)
    requires OnlySpaces(spaces) && (rest == "" || !IsSpace(rest[0]))
    ensures SkipSpace(spaces + rest) == rest
  {
    if spaces == "" {
      assert spaces + rest == rest;
    } else {
      assert (spaces + rest)[1..] == spaces[1..] + rest;
      SpacesAreSkipped(spaces[1..], rest);
    }
  }

  // ----- Which lines are accepted -----

  lemma {:induction false} TrimRightKeeps(s: string)
    ensures |TrimRight(s)| <= |s| && TrimRight(s) == s[..|TrimRight(s)|] && OnlyBlanks(s[|TrimRight(s)|..])
    ensures TrimRight(s) == "" || !IsBlank(TrimRight(s)[|TrimRight(s)| - 1])
  {
    if s != "" && IsBlank(s[|s| - 1]) {
      var t := s[..|s| - 1];
      TrimRightKeeps(t);
      var n := |TrimRight(t)|;
      assert s[n..] == t[n..] + [s[|s| - 1]];
      assert s[..n] == t[..n];
    } else {
      assert s == s[..|s|];
    }
  }

  lemma {:induction false} BlankIff(s: string)
    ensures TrimLeft(s) == "" <==> OnlyBlanks(s)
  {
    if s != "" && IsBlank(s[0]) {
      BlankIff(s[1..]);
      assert s == [s[0]] + s[1..];
    }
  }

  /** A line is accepted exactly if it has a key, a colon, and something other than blanks behind it. */
  lemma ParsesIff(key: string, value: string)
    requires ':' !in key
    ensures ParsesAsHeader(key + ":" + value) <==> key != "" && !OnlyBlanks(value)
    ensures !ParsesAsHeader(key)
  {
    NoColon(key);
    var line := key + ":" + value;
    assert line == key + [':'] + value;
    IndexOfIs(key, ':', value);
    var s := TrimRight(line);
    TrimRightKeeps(line);
    if OnlyBlanks(value) {
      assert line == (key + ":") + value;
      TrimRightIs(key + ":", value);
      assert IndexOf(key + ":", ':') == |key| by { IndexOfIs(key, ':', ""); assert key + ":" == key + [':'] + ""; }
      assert (key + ":")[|key| + 1..] == "";
    } else {
      ValueRemains(key, value, s);
      var rest := s[|key| + 1..];
      assert s == key + [':'] + rest;
      IndexOfIs(key, ':', rest);
      BlankIff(rest);
    }
  }

  lemma NoColon(key: string)
    requires ':' !in key
    ensures !ParsesAsHeader(key)
  {
    TrimRightKeeps(key);
    var s := TrimRight(key);
    IndexOfIs(s, ':', "");
  }

  /** Trimming does not reach a colon with something behind it. */
  lemma ValueRemains(key: string, value: string, s: string)
    requires var line := key + ":" + value; |s| <= |line| && s == line[..|s|] && OnlyBlanks(line[|s|..])
    requires !OnlyBlanks(value)
    ensures |s| > |key| + 1 && s == key + [':'] + s[|key| + 1..] && !OnlyBlanks(s[|key| + 1..])
  {
    var line, n := key + ":" + value, |key| + 1;
    var i :| 0 <= i < |value| && value[i] !in " \t";
    assert line[n + i] == value[i];
    forall k | |s| <= k < |line|
      ensures line[k] in " \t"
    {
      assert line[|s|..][k - |s|] == line[k];
    }
    assert s[n..][i] == value[i];
    assert line[..n] == key + [':'];
  }

  // ----- What they do -----

  /** The content type is what follows its heading, in any case, without the blanks around it. */
  lemma ContentTypeLine(heading: string, value: string, file: FileInfo)
    requires SameIgnoringCase(heading, "Content-Type:")
    ensures ApplyHeaderLine(heading + value, file)
         == if OnlyBlanks(value) then None else Some(file.(contentType := Trim(value)))
  {
    var line := heading + value;
    assert line[..13] == heading && line[13..] == value;
    PrefixIff(line, CONTENT_TYPE);
    ColonOnlyAtEnd(heading, CONTENT_TYPE);
    assert line == heading[..12] + ":" + value;
    ParsesIff(heading[..12], value);
    hide ParsesAsHeader, Trim;
  }

  /** A heading has its colon at its end. */
  lemma ColonOnlyAtEnd(s: string, heading: string)
    requires SameIgnoringCase(s, heading) && (heading == CONTENT_TYPE || heading == DISPOSITION)
    ensures ':' !in s[..|s| - 1] && s[|s| - 1] == ':' && s == s[..|s| - 1] + ":"
  {
    assert heading[|heading| - 1] == ':' && ':' !in heading[..|heading| - 1];
    forall i | 0 <= i < |s| - 1
      ensures s[i] != ':'
    {
      assert heading[i] == heading[..|heading| - 1][i] != ':';
    }
  }

  /** A disposition line with form data sets what its parameters say, whatever the case of the words and the white
      space around them; with a line end in the parameters, it is ignored. */
  lemma DispositionLine(heading: string, gap: string, word: string, lead: string, rest: string, file: FileInfo)
    requires SameIgnoringCase(heading, "Content-Disposition:") && SameIgnoringCase(word, "form-data;")
    requires OnlySpaces(gap) && OnlySpaces(lead) && (rest == "" || !IsSpace(rest[0]))
    ensures ApplyHeaderLine(heading + (gap + (word + (lead + rest))), file)
         == if '\r' in rest || '\n' in rest then Some(file) else ApplyDisposition(DispositionParams(rest), file)
  {
    var params, value := lead + rest, gap + (word + (lead + rest));
    var line := heading + value;
    LabelIsFound(heading, gap, word, lead, rest);
    NotContentType(line, heading);
    ColonOnlyAtEnd(heading, DISPOSITION);
    assert line == heading[..|heading| - 1] + ":" + value;
    ParsesIff(heading[..|heading| - 1], value);
    assert value[|gap|] == word[0] && word[0] !in " \t";
    hide ParsesAsHeader, ApplyDisposition, DispositionParams, MatchLabelled;
  }

  lemma LabelIsFound(heading: string, gap: string, word: string, lead: string, rest: string)
    requires SameIgnoringCase(heading, DISPOSITION) && SameIgnoringCase(word, FORM_DATA)
    requires OnlySpaces(gap) && OnlySpaces(lead) && (rest == "" || !IsSpace(rest[0]))
    ensures MatchDisposition(heading + (gap + (word + (lead + rest))))
         == if '\r' in rest || '\n' in rest then None else Some(rest)
  {
    var body := word + (lead + rest);
    var line := heading + (gap + body);
    assert line[..|heading|] == heading && line[|heading|..] == gap + body;
    PrefixIff(line, DISPOSITION);
    assert body[0] == word[0];
    SpacesAreSkipped(gap, body);
    assert body[..|word|] == word && body[|word|..] == lead + rest;
    PrefixIff(body, FORM_DATA);
    SpacesAreSkipped(lead, rest);
    hide SkipSpace, HasPrefixIgnoreCase;
  }

  lemma NotContentType(line: string, heading: string)
    requires heading <= line && SameIgnoringCase(heading, DISPOSITION)
    ensures !HasPrefixIgnoreCase(line, CONTENT_TYPE)
  {
    assert line[8] == heading[8];
  }

  /** A line that is accepted and is neither of these changes nothing. */
  lemma OtherLine(line: string, file: FileInfo)
    requires |line| < 13 || !SameIgnoringCase(line[..13], "Content-Type:")
    requires |line| < 20 || !SameIgnoringCase(line[..20], "Content-Disposition:")
    ensures ApplyHeaderLine(line, file) == if ParsesAsHeader(line) then Some(file) else None
  {
    PrefixIff(line, CONTENT_TYPE);
    PrefixIff(line, DISPOSITION);
    hide ParsesAsHeader;
  }

  /** Nor does a disposition that is not form data. */
  lemma OtherDisposition(heading: string, gap: string, rest: string, file: FileInfo)
    requires SameIgnoringCase(heading, "Content-Disposition:")
    requires OnlySpaces(gap) && (rest == "" || !IsSpace(rest[0]))
    requires |rest| < 10 || !SameIgnoringCase(rest[..10], "form-data;")
    ensures ApplyHeaderLine(heading + (gap + rest), file)
         == if ParsesAsHeader(heading + (gap + rest)) then Some(file) else None
  {
    var line := heading + (gap + rest);
    NotContentType(line, heading);
    assert line[|heading|..] == gap + rest;
    SpacesAreSkipped(gap, rest);
    PrefixIff(rest, FORM_DATA);
    hide ParsesAsHeader;
  }

  // ----- The parameters of a disposition -----

  /** What `key` stands for: the value of its first parameter, if it has one. */
  ghost predicate StandsFor(params: Params, key: string, value: Option<string>) {
    match value
    case None => forall i :: 0 <= i < |params| ==> params[i].0 != key
    case Some(v) =>
      exists i :: 0 <= i < |params| && params[i] == (key, v) && forall j :: 0 <= j < i ==> params[j].0 != key
  }

  lemma {:induction false} LookupIs(params: Params, key: string)
    ensures StandsFor(params, key, Lookup(params, key))
  {
    if params != [] && params[0].0 != key {
      LookupIs(params[1..], key);
      match Lookup(params[1..], key)
      case None =>
        assert forall i :: 1 <= i < |params| ==> params[i] == params[1..][i - 1];
      case Some(v) =>
        var rest := params[1..];
        var i :| 0 <= i < |rest| && rest[i] == (key, v) && forall j :: 0 <= j < i ==> rest[j].0 != key;
        assert params[i + 1] == (key, v);
        assert forall j :: 1 <= j < i + 1 ==> params[j] == rest[j - 1];
    } else if params != [] {
      assert params[0] == (key, params[0].1);
    }
  }

  /** An extended file name as RFC 5987 writes it, the part behind the mark being percent-coded. */
  ghost predicate IsExtended(text: string, coded: string) {
    && coded != "" && '\r' !in coded && '\n' !in coded
    && exists mark :: SameIgnoringCase(mark, "UTF-8''") && text == mark + coded
  }

  lemma ExtendedIff(text: string)
    ensures MatchExtendedName(text).None? ==> forall coded :: !IsExtended(text, coded)
    ensures forall coded :: IsExtended(text, coded) <==> MatchExtendedName(text) == Some(coded)
  {
    PrefixIff(text, UTF8_MARK);
    forall coded
      ensures IsExtended(text, coded) <==> MatchExtendedName(text) == Some(coded)
    {
      if mark :| IsExtended(text, coded) && SameIgnoringCase(mark, UTF8_MARK) && text == mark + coded {
        assert text[..7] == mark && text[7..] == coded;
      }
      if MatchExtendedName(text) == Some(coded) {
        assert text == text[..7] + coded;
      }
    }
  }

  /** There must be a name, and an extended file name, if there is one, must be well-formed. It has precedence
      over the plain file name; without either, the file name stays. */
  lemma DispositionIs(params: Params, file: FileInfo, name: Option<string>, plain: Option<string>,
    extended: Option<string>)
    requires StandsFor(params, "name", name) && StandsFor(params, "filename", plain)
    requires StandsFor(params, "filename*", extended)
    ensures ApplyDisposition(params, file) == None
       <==> name == None || (extended.Some? && forall coded :: !IsExtended(extended.value, coded))
    ensures ApplyDisposition(params, file).Some? ==>
              var done := ApplyDisposition(params, file).value;
              && done.contentType == file.contentType && name == Some(done.name)
              && (extended == None ==> done.filename == if plain.Some? then plain.value else file.filename)
              && (extended.Some? ==> forall coded :: IsExtended(extended.value, coded) ==>
                    done.filename == QueryCoding.DecodeUrl(coded, false))
  {
    StandsForOne(params, "name", name);
    StandsForOne(params, "filename", plain);
    StandsForOne(params, "filename*", extended);
    if extended.Some? {
      ExtendedIff(extended.value);
    }
    hide Lookup, StandsFor, IsExtended, MatchExtendedName, QueryCoding.DecodeUrl;
  }

  lemma StandsForOne(params: Params, key: string, value: Option<string>)
    requires StandsFor(params, key, value)
    ensures Lookup(params, key) == value
  {
    LookupIs(params, key);
  }

  /** Quotes are taken off only in pairs. */
  lemma QuotesAreTaken(s: string)
    ensures TrimQuotes("\"" + s + "\"") == s
    ensures |s| < 2 || s[0] != '"' || s[|s| - 1] != '"' ==> TrimQuotes(s) == s
  {
    var t := "\"" + s + "\"";
    assert t[1..|t| - 1] == s;
  }
}
