/** How one header line of a multipart entry updates the entry's file information. */
module MultipartHeader {
  import opened Prelude
  import opened Text
  import QueryCoding

  datatype FileInfo = FileInfo(name: string, filename: string, contentType: string)

  const NO_FILE := FileInfo("", "", "")

  /** `parse_header` accepts the line: a non-empty key, a colon, and a value that is not blank. */
  predicate ParsesAsHeader(line: string) {
    var s := TrimRight(line);
    var colon := IndexOf(s, ':');
    0 < colon < |s| && TrimLeft(s[colon + 1..]) != ""
  }

  function SkipSpace(s: string): (r: string)
    ensures |r| <= |s|
  {
    if s != "" && IsSpace(s[0]) then SkipSpace(s[1..]) else s
  }

  const DISPOSITION := "Content-Disposition:"
  const FORM_DATA := "form-data;"
  const CONTENT_TYPE := "Content-Type:"
  const UTF8_MARK := "UTF-8''"

  /** Match of `^heading\s*word\s*(.*)$`, ignoring case; `.` excludes line ends. */
  function MatchLabelled(line: string, heading: string, word: string): Option<string> {
    if !HasPrefixIgnoreCase(line, heading) then None
    else
      var s := SkipSpace(line[|heading|..]);
      if !HasPrefixIgnoreCase(s, word) then None
      else
        var rest := SkipSpace(s[|word|..]);
        if '\r' in rest || '\n' in rest then None else Some(rest)
  }

  function MatchDisposition(line: string): Option<string> {
    MatchLabelled(line, DISPOSITION, FORM_DATA)
  }

  /** Match of `^UTF-8''(.+?)$`, ignoring case. */
  function MatchExtendedName(s: string): Option<string> {
    if !HasPrefixIgnoreCase(s, UTF8_MARK) || |s| == |UTF8_MARK| then None
    else
      var rest := s[|UTF8_MARK|..];
      if '\r' in rest || '\n' in rest then None else Some(rest)
  }

  function TrimQuotes(s: string): string {
    if |s| >= 2 && s[0] == '"' && s[|s| - 1] == '"' then s[1..|s| - 1] else s
  }

  type Params = seq<(string, string)>

  /** The parameters of the pieces, a repeated piece counting once. */
  function PieceParams(pieces: seq<string>, seen: set<string>): Params {
    if pieces == [] then []
    else if pieces[0] in seen then PieceParams(pieces[1..], seen)
    else
      var parts := Split(pieces[0], '=');
      var val := if |parts| > 1 then parts[|parts| - 1] else "";
      (if parts == [] then [] else [(TrimQuotes(parts[0]), TrimQuotes(val))])
      + PieceParams(pieces[1..], seen + {pieces[0]})
  }

  function DispositionParams(s: string): Params {
    PieceParams(Split(s, ';'), {})
  }

  /** The value a lookup finds: that of the first parameter inserted under `key`. */
  function Lookup(params: Params, key: string): Option<string> {
    if params == [] then None
    else if params[0].0 == key then Some(params[0].1)
    else Lookup(params[1..], key)
  }

  function ApplyDisposition(params: Params, file: FileInfo): Option<FileInfo> {
    match Lookup(params, "name")
    case None => None
    case Some(name) =>
      var named := match Lookup(params, "filename") {
        case None => file.(name := name)
        case Some(filename) => file.(name := name, filename := filename)
      };
      match Lookup(params, "filename*")
      case None => Some(named)
      case Some(extended) =>
        match MatchExtendedName(extended)
        case None => None
        case Some(rest) => Some(named.(filename := QueryCoding.DecodeUrl(rest, false)))
  }

  /** Effect of one non-empty header line; `None` makes the parser fail. */
  function ApplyHeaderLine(line: string, file: FileInfo): Option<FileInfo> {
    if !ParsesAsHeader(line) then None
    else if HasPrefixIgnoreCase(line, CONTENT_TYPE) then
      Some(file.(contentType := Trim(line[|CONTENT_TYPE|..])))
    else
      match MatchDisposition(line)
      case None => Some(file)
      case Some(rest) => ApplyDisposition(DispositionParams(rest), file)
  }
}
