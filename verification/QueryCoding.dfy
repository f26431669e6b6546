/** Percent coding of query parameters: `encode_query_param`, `decode_url`, `params_to_query_str` and
    `parse_query_text`. Strings hold bytes, that is, characters below 256. */
module QueryCoding {
  import opened Prelude
  import opened Text

  ghost predicate IsBytes(s: string) {
    forall i :: 0 <= i < |s| ==> (s[i] as int) < 256
  }

  predicate IsHex(c: char) {
    IsDigit(c) || 'A' <= c <= 'F' || 'a' <= c <= 'f'
  }

  function HexDigitValue(c: char): (v: nat)
    requires IsHex(c)
    ensures v < 16
  {
    if IsDigit(c) then DigitValue(c)
    else if 'A' <= c <= 'F' then (c as int) - ('A' as int) + 10
    else (c as int) - ('a' as int) + 10
  }

  /** `cnt` hexadecimal digits stand at position `i` (the guard of `from_hex_to_i`). */
  predicate HexRun(s: string, i: nat, cnt: nat) {
    i + cnt <= |s| && forall k :: i <= k < i + cnt ==> IsHex(s[k])
  }

  function HexValue(s: string): nat
    requires HexRun(s, 0, |s|)
  {
    if s == "" then 0 else HexValue(s[..|s| - 1]) * 16 + HexDigitValue(s[|s| - 1])
  }

  function ToByte(n: nat): char {
    (n % 256) as char
  }

  /** UTF-8 form of a `%uXXXX` code; the surrogate range yields nothing. */
  function ToUtf8(code: nat): string
    requires code < 0x10000
  {
    if code < 0x80 then [ToByte(code)]
    else if code < 0x800 then [ToByte(0xC0 + code / 64), ToByte(0x80 + code % 64)]
    else if 0xD800 <= code < 0xE000 then ""
    else [ToByte(0xE0 + code / 4096), ToByte(0x80 + code / 64 % 64), ToByte(0x80 + code % 64)]
  }

  /** What a UTF-8 decoder makes of one to three bytes. */
  function FromUtf8(s: string): Option<nat> {
    if |s| == 1 && (s[0] as int) < 0x80 then Some(s[0] as int)
    else if |s| == 2 && 0xC0 <= (s[0] as int) < 0xE0 && IsContinuation(s[1]) then
      Some((s[0] as int - 0xC0) * 64 + (s[1] as int - 0x80))
    else if |s| == 3 && 0xE0 <= (s[0] as int) < 0xF0 && IsContinuation(s[1]) && IsContinuation(s[2]) then
      Some((s[0] as int - 0xE0) * 4096 + (s[1] as int - 0x80) * 64 + (s[2] as int - 0x80))
    else None
  }

  predicate IsContinuation(c: char) {
    0x80 <= (c as int) < 0xC0
  }

  /** The bytes of a code are its UTF-8 form, the shortest there is; there is none for a surrogate. */
  lemma Utf8RoundTrip(code: nat)
    requires code < 0x10000
    ensures if 0xD800 <= code < 0xE000 then ToUtf8(code) == "" else FromUtf8(ToUtf8(code)) == Some(code)
    ensures !(0xD800 <= code < 0xE000) ==>
              |ToUtf8(code)| == if code < 0x80 then 1 else if code < 0x800 then 2 else 3
  {
    if code < 0x80 {
      ByteIs(code);
    } else {
      SixBits(code);
      ByteIs(0x80 + code % 64);
      if code < 0x800 {
        ByteIs(0xC0 + code / 64);
      } else if !(0xD800 <= code < 0xE000) {
        SixBits(code / 64);
        assert code / 64 / 64 == code / 4096 < 16;
        ByteIs(0xE0 + code / 4096);
        ByteIs(0x80 + code / 64 % 64);
      }
    }
    hide ToByte;
  }

  lemma ByteIs(n: nat)
    requires n < 256
    ensures ToByte(n) as int == n
  {
  }

  lemma SixBits(n: nat)
    ensures n == n / 64 * 64 + n % 64 && n % 64 < 64
  {
  }

  lemma HexValueBound(s: string)
    requires HexRun(s, 0, |s|)
    ensures |s| == 2 ==> HexValue(s) == HexDigitValue(s[0]) * 16 + HexDigitValue(s[1])
    ensures |s| == 4 ==> HexValue(s) < 0x10000
  {
    if |s| == 2 || |s| == 4 {
      assert HexValue(s[..|s| - 1][..|s| - 2]) * 16 + HexDigitValue(s[|s| - 2]) == HexValue(s[..|s| - 1]);
      assert s[..|s| - 1][..|s| - 2] == s[..|s| - 2];
    }
    if |s| == 4 {
      HexValueBound(s[..2]);
    } else if |s| == 2 {
      assert s[..0] == "";
    }
  }

  /** What decoding makes of the head of `s`: the decoded bytes and the number of bytes consumed. */
  function DecodeHead(s: string, plusIsSpace: bool): (r: (string, nat))
    requires s != ""
    ensures 1 <= r.1 <= |s|
  {
    if s[0] == '%' && |s| > 1 && s[1] == 'u' then
      if HexRun(s, 2, 4) then
        HexValueBound(s[2..6]);
        (ToUtf8(HexValue(s[2..6])), 6)
      else ([s[0]], 1)
    else if s[0] == '%' && |s| > 1 then
      if HexRun(s, 1, 2) then ([ToByte(HexValue(s[1..3]))], 3) else ([s[0]], 1)
    else if plusIsSpace && s[0] == '+' then (" ", 1)
    else ([s[0]], 1)
  }

  function DecodeUrl(s: string, plusIsSpace: bool): string {
    if s == "" then "" else
      var h := DecodeHead(s, plusIsSpace);
      h.0 + DecodeUrl(s[h.1..], plusIsSpace)
  }

  /** Looking at position `i` of `s` is looking at the head of `s[i..]`. */
  lemma HexRunAt(s: string, i: nat, k: nat, cnt: nat)
    requires i <= |s|
    ensures HexRun(s, i + k, cnt) <==> HexRun(s[i..], k, cnt)
    ensures i + k + cnt <= |s| ==> s[i + k..i + k + cnt] == s[i..][k..k + cnt]
  {
    assert forall j :: i + k <= j < i + k + cnt && j < |s| ==> s[j] == s[i..][j - i];
  }

  /** One more decoded head moves from the undecoded rest to the result. */
  lemma DecodeStep(s: string, i: nat, plusIsSpace: bool, result: string)
    requires i < |s|
    ensures var h := DecodeHead(s[i..], plusIsSpace);
            result + DecodeUrl(s[i..], plusIsSpace) == (result + h.0) + DecodeUrl(s[i + h.1..], plusIsSpace)
  {
    var h := DecodeHead(s[i..], plusIsSpace);
    assert s[i..][h.1..] == s[i + h.1..];
  }

  /** One turn of the decoding loop: what is appended, and where the next turn starts. */
  method DecodeTurn(s: string, i: nat, plusIsSpace: bool) returns (out: string, next: nat)
    requires i < |s|
    ensures (out, next - i) == DecodeHead(s[i..], plusIsSpace)
  {
    HexRunAt(s, i, 2, 4);
    HexRunAt(s, i, 1, 2);
    out, next := [s[i]], i + 1;
    if s[i] == '%' && i + 1 < |s| {
      if s[i + 1] == 'u' {
        if HexRun(s, i + 2, 4) {
          HexValueBound(s[i + 2..i + 6]);
          out, next := ToUtf8(HexValue(s[i + 2..i + 6])), i + 6;
        }
      } else if HexRun(s, i + 1, 2) {
        out, next := [ToByte(HexValue(s[i + 1..i + 3]))], i + 3;
      }
    } else if plusIsSpace && s[i] == '+' {
      out := " ";
    }
  }

  /** The decoding loop, advancing an index over the input. */
  method DecodeUrlLoop(s: string, plusIsSpace: bool) returns (result: string)
    ensures result == DecodeUrl(s, plusIsSpace)
  {
    result := "";
    var i := 0;
    while i < |s|
      invariant i <= |s|
      invariant DecodeUrl(s, plusIsSpace) == result + DecodeUrl(s[i..], plusIsSpace)
    {
      DecodeStep(s, i, plusIsSpace, result);
      var out, next := DecodeTurn(s, i, plusIsSpace);
      result, i := result + out, next;
    }
  }

  predicate IsUnreserved(c: char) {
    'a' <= c <= 'z' || 'A' <= c <= 'Z' || IsDigit(c) || c in "-_.!~*'()"
  }

  function UpperHexDigit(v: nat): (c: char)
    requires v < 16
    ensures IsHex(c) && HexDigitValue(c) == v && IsUnreserved(c)
  {
    if v < 10 then DigitChar(v) else (('A' as int) + v - 10) as char
  }

  function EncodeByte(c: char): string
    requires (c as int) < 256
  {
    if IsUnreserved(c) then [c]
    else ['%', UpperHexDigit((c as int) / 16), UpperHexDigit((c as int) % 16)]
  }

  /** The bytes that stand for themselves; any other is written with two upper-case digits. */
  lemma EncodedByteIs(c: char)
    requires (c as int) < 256
    ensures EncodeByte(c)
         == if c in "ABCDEFGHIJKLM" || c in "NOPQRSTUVWXYZ" || c in "abcdefghijklm" || c in "nopqrstuvwxyz"
               || c in "0123456789" || c in "-_.!~*'()"
            then [c]
            else ['%', "0123456789ABCDEF"[c as int / 16], "0123456789ABCDEF"[c as int % 16]]
  {
    UnreservedAre(c);
    if !IsUnreserved(c) {
      UpperHexDigitIs(c as int / 16);
      UpperHexDigitIs(c as int % 16);
    }
    hide IsUnreserved;
  }

  lemma UpperHexDigitIs(v: nat)
    requires v < 16
    ensures UpperHexDigit(v) == "0123456789ABCDEF"[v]
  {
  }

  lemma UnreservedAre(c: char)
    ensures IsUnreserved(c) <==>
              c in "ABCDEFGHIJKLM" || c in "NOPQRSTUVWXYZ" || c in "abcdefghijklm" || c in "nopqrstuvwxyz"
              || c in "0123456789" || c in "-_.!~*'()"
  {
    SmallLetters(c);
    CapitalLetters(c);
    Digits(c);
  }

  lemma SmallLetters(c: char)
    ensures 'a' <= c <= 'z' <==> c in "abcdefghijklm" || c in "nopqrstuvwxyz"
  {
  }

  lemma CapitalLetters(c: char)
    ensures 'A' <= c <= 'Z' <==> c in "ABCDEFGHIJKLM" || c in "NOPQRSTUVWXYZ"
  {
  }

  lemma Digits(c: char)
    ensures IsDigit(c) <==> c in "0123456789"
  {
  }

  function EncodeQuery(s: string): string
    requires IsBytes(s)
  {
    if s == "" then "" else EncodeByte(s[0]) + EncodeQuery(s[1..])
  }

  lemma EncodeStep(s: string, i: nat, escaped: string)
    requires IsBytes(s) && i < |s|
    ensures escaped + EncodeQuery(s[i..]) == (escaped + EncodeByte(s[i])) + EncodeQuery(s[i + 1..])
  {
    assert s[i..][1..] == s[i + 1..];
  }

  method EncodeQueryLoop(value: string) returns (escaped: string)
    requires IsBytes(value)
    ensures escaped == EncodeQuery(value)
  {
    escaped := "";
    for i := 0 to |value|
      invariant EncodeQuery(value) == escaped + EncodeQuery(value[i..])
    {
      EncodeStep(value, i, escaped);
      if IsUnreserved(value[i]) {
        escaped := escaped + [value[i]];
      } else {
        var n := value[i] as int;
        escaped := escaped + ['%', UpperHexDigit(n / 16), UpperHexDigit(n % 16)];
      }
    }
  }

  lemma EncodedByteDecodes(c: char, rest: string, plusIsSpace: bool)
    requires (c as int) < 256
    ensures EncodeByte(c) + rest != ""
    ensures DecodeHead(EncodeByte(c) + rest, plusIsSpace) == ([c], |EncodeByte(c)|)
    ensures (EncodeByte(c) + rest)[|EncodeByte(c)|..] == rest
  {
    var e := EncodeByte(c);
    var t := e + rest;
    if !IsUnreserved(c) {
      assert t[1..3] == e[1..] && t[1] == e[1] && t[2] == e[2];
      HexValueBound(t[1..3]);
    }
  }

  /** Decoding undoes encoding for every byte string, with or without the '+' convention. */
  lemma {:induction false} DecodeInvertsEncode(s: string, plusIsSpace: bool)
    requires IsBytes(s)
    ensures DecodeUrl(EncodeQuery(s), plusIsSpace) == s
  {
    hide DecodeHead, EncodeByte;
    if s != "" {
      EncodedByteDecodes(s[0], EncodeQuery(s[1..]), plusIsSpace);
      DecodeInvertsEncode(s[1..], plusIsSpace);
    }
  }

  type Params = seq<(string, string)>

  /** At `i` stands something that decoding changes: a "+", or a complete escape. */
  predicate EscapeAt(k: string, i: nat)
    requires i < |k|
  {
    k[i] == '+' || (k[i] == '%' && (HexRun(k, i + 1, 2) || (i + 1 < |k| && k[i + 1] == 'u' && HexRun(k, i + 2, 4))))
  }

  predicate HasNoEscape(k: string) {
    forall i :: 0 <= i < |k| ==> !EscapeAt(k, i)
  }

  /** A key that survives being written without escaping. */
  predicate Survives(k: string) {
    k != "" && '&' !in k && '=' !in k && !IsBlank(k[0]) && HasNoEscape(k)
  }

  ghost predicate Writable(ps: Params) {
    forall i :: 0 <= i < |ps| ==> Survives(ps[i].0) && IsBytes(ps[i].1)
  }

  function Pair(p: (string, string)): string
    requires IsBytes(p.1)
  {
    p.0 + "=" + EncodeQuery(p.1)
  }

  function ToQuery(ps: Params): string
    requires forall i :: 0 <= i < |ps| ==> IsBytes(ps[i].1)
  {
    if ps == [] then "" else if |ps| == 1 then Pair(ps[0]) else Pair(ps[0]) + "&" + ToQuery(ps[1..])
  }

  /** The parameters of the pieces that are not in `seen`, each piece taken once. */
  function ParsePieces(pieces: seq<string>, seen: set<string>): Params {
    if pieces == [] then []
    else if pieces[0] in seen then ParsePieces(pieces[1..], seen)
    else
      var kv := pieces[0];
      var i := IndexOf(kv, '=');
      var key, val := kv[..i], if i < |kv| then kv[i + 1..] else "";
      (if key == "" then [] else [(DecodeUrl(key, true), DecodeUrl(val, true))])
      + ParsePieces(pieces[1..], seen + {kv})
  }

  function ParseQuery(s: string): Params {
    ParsePieces(Split(s, '&'), {})
  }

  /** `ps` with every pair that occurred earlier (or is in `seen`) dropped. */
  function FirstOccurrences(ps: Params, seen: set<(string, string)>): Params {
    if ps == [] then []
    else if ps[0] in seen then FirstOccurrences(ps[1..], seen)
    else [ps[0]] + FirstOccurrences(ps[1..], seen + {ps[0]})
  }

  lemma {:induction false} EncodedIsUnreserved(s: string)
    requires IsBytes(s)
    ensures forall i :: 0 <= i < |EncodeQuery(s)| ==> IsUnreserved(EncodeQuery(s)[i]) || EncodeQuery(s)[i] == '%'
  {
    if s != "" {
      EncodedIsUnreserved(s[1..]);
    }
  }

  lemma EscapeBehind(k: string, n: nat, i: nat)
    requires n + i < |k|
    ensures EscapeAt(k[n..], i) <==> EscapeAt(k, n + i)
  {
    HexRunAt(k, n, i + 1, 2);
    HexRunAt(k, n, i + 2, 4);
  }

  /** What stands at the head is itself, or shorter than its escape, or the blank for a "+". */
  lemma HeadIsItselfIff(k: string)
    requires k != ""
    ensures EscapeAt(k, 0) && k[0] == '+' ==> DecodeHead(k, true) == (" ", 1)
    ensures EscapeAt(k, 0) && k[0] != '+' ==> |DecodeHead(k, true).0| < DecodeHead(k, true).1
    ensures !EscapeAt(k, 0) ==> DecodeHead(k, true) == ([k[0]], 1)
  {
    hide HexValue;
    assert HexRun(k, 1, 2) ==> IsHex(k[1]);
  }

  lemma {:induction false} DecodedIsNotLonger(s: string, plusIsSpace: bool)
    ensures |DecodeUrl(s, plusIsSpace)| <= |s|
  {
    if s != "" {
      var h := DecodeHead(s, plusIsSpace);
      assert |h.0| <= h.1;
      DecodedIsNotLonger(s[h.1..], plusIsSpace);
    }
  }

  /** Decoding leaves a text as it is exactly when there is nothing to decode in it. */
  lemma {:induction false} DecodesToItselfIff(k: string)
    ensures DecodeUrl(k, true) == k <==> HasNoEscape(k)
  {
    hide DecodeHead, EscapeAt;
    if k != "" {
      var h := DecodeHead(k, true);
      HeadIsItselfIff(k);
      if EscapeAt(k, 0) {
        DecodedIsNotLonger(k[h.1..], true);
      } else {
        DecodesToItselfIff(k[1..]);
        forall i | 0 <= i < |k| - 1
          ensures EscapeAt(k[1..], i) <==> EscapeAt(k, 1 + i)
        {
          EscapeBehind(k, 1, i);
        }
        assert k == [k[0]] + k[1..];
        TailIsFree(k);
      }
    }
  }

  lemma TailIsFree(k: string)
    requires k != "" && !EscapeAt(k, 0)
    requires forall i :: 0 <= i < |k| - 1 ==> (EscapeAt(k[1..], i) <==> EscapeAt(k, 1 + i))
    ensures HasNoEscape(k) <==> HasNoEscape(k[1..])
  {
    hide EscapeAt;
    if HasNoEscape(k[1..]) {
      forall i | 0 <= i < |k|
        ensures !EscapeAt(k, i)
      {
        assert i > 0 ==> !EscapeAt(k[1..], i - 1);
      }
    }
    if HasNoEscape(k) {
      forall i | 0 <= i < |k| - 1
        ensures !EscapeAt(k[1..], i)
      {
        assert !EscapeAt(k, 1 + i);
      }
    }
  }

  /** Keys of unreserved characters survive. */
  lemma UnreservedSurvives(k: string)
    requires k != "" && forall i :: 0 <= i < |k| ==> IsUnreserved(k[i])
    ensures Survives(k)
  {
    forall i | 0 <= i < |k|
      ensures !EscapeAt(k, i)
    {
      assert IsUnreserved(k[i]);
    }
  }

  lemma NoBlanksIsOnePiece(s: string)
    requires s != "" && !IsBlank(s[0]) && !IsBlank(s[|s| - 1])
    ensures Piece(s) == [s]
  {
  }

  lemma PairCharacters(p: (string, string))
    requires IsBytes(p.1)
    ensures '&' in Pair(p) <==> '&' in p.0
    ensures '&' !in EncodeQuery(p.1) && Pair(p) != "" && !IsBlank(Pair(p)[|Pair(p)| - 1])
    ensures p.0 != "" ==> Pair(p)[0] == p.0[0]
  {
    var e := EncodeQuery(p.1);
    EncodedIsUnreserved(p.1);
    assert '&' !in e;
    assert Pair(p)[|Pair(p)| - 1] == if e == "" then '=' else e[|e| - 1];
    hide EncodeQuery;
  }

  lemma PairDivides(p: (string, string))
    requires Survives(p.0) && IsBytes(p.1)
    ensures IndexOf(Pair(p), '=') == |p.0| < |Pair(p)|
    ensures Pair(p)[..|p.0|] == p.0 && Pair(p)[|p.0| + 1..] == EncodeQuery(p.1)
  {
    IndexOfIs(p.0, '=', EncodeQuery(p.1));
    assert Pair(p) == p.0 + ['='] + EncodeQuery(p.1);
  }

  /** One written pair is one piece, and parsing it gives the pair back. */
  lemma PairParses(p: (string, string))
    requires Survives(p.0) && IsBytes(p.1)
    ensures '&' !in Pair(p) && Piece(Pair(p)) == [Pair(p)]
    ensures IndexOf(Pair(p), '=') == |p.0| < |Pair(p)|
    ensures DecodeUrl(Pair(p)[..|p.0|], true) == p.0 && DecodeUrl(Pair(p)[|p.0| + 1..], true) == p.1
  {
    PairCharacters(p);
    NoBlanksIsOnePiece(Pair(p));
    PairDivides(p);
    DecodesToItselfIff(p.0);
    DecodeInvertsEncode(p.1, true);
  }

  lemma PairInjective(p: (string, string), q: (string, string))
    requires Survives(p.0) && IsBytes(p.1) && Survives(q.0) && IsBytes(q.1)
    ensures Pair(p) == Pair(q) ==> p == q
  {
    PairParses(p);
    PairParses(q);
  }

  function Pairs(ps: Params): seq<string>
    requires forall i :: 0 <= i < |ps| ==> IsBytes(ps[i].1)
  {
    if ps == [] then [] else [Pair(ps[0])] + Pairs(ps[1..])
  }

  lemma {:induction false} QuerySplits(ps: Params)
    requires Writable(ps)
    ensures Split(ToQuery(ps), '&') == Pairs(ps)
  {
    if ps == [] {
      SplitOne("", '&');
    } else {
      PairParses(ps[0]);
      QuerySplits(ps[1..]);
      if |ps| == 1 {
        SplitOne(Pair(ps[0]), '&');
      } else {
        SplitCons(Pair(ps[0]), '&', ToQuery(ps[1..]));
        assert Pair(ps[0]) + "&" == Pair(ps[0]) + ['&'];
      }
    }
  }

  ghost predicate SeenMatches(seen: set<(string, string)>, strings: set<string>) {
    && (forall p <- seen :: Survives(p.0) && IsBytes(p.1) && Pair(p) in strings)
    && (forall s <- strings :: exists p <- seen :: IsBytes(p.1) && Pair(p) == s)
  }

  lemma SeenGrows(seen: set<(string, string)>, strings: set<string>, p: (string, string))
    requires SeenMatches(seen, strings) && Survives(p.0) && IsBytes(p.1)
    ensures p in seen <==> Pair(p) in strings
    ensures SeenMatches(seen + {p}, strings + {Pair(p)})
  {
    if Pair(p) in strings {
      var q :| q in seen && IsBytes(q.1) && Pair(q) == Pair(p);
      PairInjective(p, q);
    }
    forall s | s in strings + {Pair(p)}
      ensures exists q <- seen + {p} :: IsBytes(q.1) && Pair(q) == s
    {
      if s in strings {
        var q :| q in seen && IsBytes(q.1) && Pair(q) == s;
        assert q in seen + {p};
      } else {
        assert p in seen + {p};
      }
    }
  }

  /** One more written pair among the pieces. */
  lemma PieceParses(p: (string, string), more: seq<string>, strings: set<string>)
    requires Survives(p.0) && IsBytes(p.1)
    ensures ParsePieces([Pair(p)] + more, strings)
         == if Pair(p) in strings then ParsePieces(more, strings) else [p] + ParsePieces(more, strings + {Pair(p)})
  {
    PairParses(p);
    hide DecodeUrl, EncodeQuery, Pair;
    assert ([Pair(p)] + more)[1..] == more;
  }

  lemma {:induction false} PiecesParse(ps: Params, seen: set<(string, string)>, strings: set<string>)
    requires Writable(ps) && SeenMatches(seen, strings)
    ensures ParsePieces(Pairs(ps), strings) == FirstOccurrences(ps, seen)
  {
    hide ParsePieces, SeenMatches, Survives, Pair;
    if ps != [] {
      var p, rest := ps[0], ps[1..];
      PieceParses(p, Pairs(rest), strings);
      SeenGrows(seen, strings, p);
      if p in seen {
        PiecesParse(rest, seen, strings);
      } else {
        PiecesParse(rest, seen + {p}, strings + {Pair(p)});
      }
    } else {
      NoPieces(strings);
    }
  }

  lemma NoPieces(strings: set<string>)
    ensures ParsePieces([], strings) == []
  {
  }

  /** Parsing a written query gives back exactly the written parameters, in order, with every repeated
      (key, value) pair dropped. */
  lemma QueryRoundTrip(ps: Params)
    requires Writable(ps)
    ensures ParseQuery(ToQuery(ps)) == FirstOccurrences(ps, {})
  {
    QuerySplits(ps);
    PiecesParse(ps, {}, {});
  }

  // ----- Only these keys survive -----

  lemma {:induction false} TrimLeftIndex(s: string, c: char)
    requires c in s && !IsBlank(c)
    ensures c in TrimLeft(s) && IndexOf(TrimLeft(s), c) <= IndexOf(s, c)
    ensures IsBlank(s[0]) ==> IndexOf(TrimLeft(s), c) < IndexOf(s, c)
  {
    if IsBlank(s[0]) {
      assert s == [s[0]] + s[1..];
      TrimLeftIndex(s[1..], c);
    }
  }

  lemma {:induction false} TrimRightIndex(s: string, c: char)
    requires c in s && !IsBlank(c)
    ensures c in TrimRight(s) && IndexOf(TrimRight(s), c) == IndexOf(s, c)
  {
    var n := |s| - 1;
    if IsBlank(s[n]) {
      assert s == s[..n] + [s[n]];
      TrimRightIndex(s[..n], c);
      var i := IndexOf(s[..n], c);
      assert s[i] == c && forall j :: 0 <= j < i ==> s[j] == s[..n][j] != c;
    }
  }

  lemma TrimIndex(s: string, c: char)
    requires c in s && !IsBlank(c)
    ensures IndexOf(Trim(s), c) <= IndexOf(s, c)
    ensures IsBlank(s[0]) ==> IndexOf(Trim(s), c) < IndexOf(s, c)
  {
    TrimLeftIndex(s, c);
    TrimRightIndex(TrimLeft(s), c);
  }

  lemma {:induction false} TrimNotLonger(s: string)
    ensures |TrimLeft(s)| <= |s| && |TrimRight(s)| <= |s|
  {
    if s != "" {
      TrimNotLonger(s[1..]);
      TrimNotLonger(s[..|s| - 1]);
    }
  }

  /** A piece of a written pair has its first '=' no later than the pair has the one that was written. */
  lemma {:induction false} PieceKeys(k: string, e: string, q: string)
    requires '&' !in e && q in Split(k + "=" + e, '&')
    ensures IndexOf(q, '=') <= |k| && ('&' in k ==> IndexOf(q, '=') < |k|)
  {
    var s, i := k + "=" + e, IndexOf(k, '&');
    if i == |k| {
      SplitOne(s, '&');
      assert s[|k|] == '=';
      TrimIndex(s, '=');
    } else {
      var more := k[i + 1..] + "=" + e;
      assert s == k[..i] + ['&'] + more;
      SplitCons(k[..i], '&', more);
      if q in Split(more, '&') {
        PieceKeys(k[i + 1..], e, q);
      } else {
        TrimNotLonger(k[..i]);
        TrimNotLonger(TrimLeft(k[..i]));
      }
    }
  }

  lemma {:induction false} ParamComesFromPiece(pieces: seq<string>, seen: set<string>, p: (string, string))
    requires p in ParsePieces(pieces, seen)
    ensures exists q :: q in pieces && 0 < IndexOf(q, '=') && p.0 == DecodeUrl(q[..IndexOf(q, '=')], true)
  {
    if pieces[0] in seen {
      ParamComesFromPiece(pieces[1..], seen, p);
    } else if p in ParsePieces(pieces[1..], seen + {pieces[0]}) {
      ParamComesFromPiece(pieces[1..], seen + {pieces[0]}, p);
    } else {
      assert pieces[0] in pieces;
    }
  }

  /** A single written pair is read back exactly when its key survives. */
  lemma PairIsReadBackIff(p: (string, string))
    requires IsBytes(p.1)
    ensures ParseQuery(ToQuery([p])) == [p] <==> Survives(p.0)
  {
    var k, e := p.0, EncodeQuery(p.1);
    if Survives(k) {
      QueryRoundTrip([p]);
      assert FirstOccurrences([p], {}) == [p];
    } else if ParseQuery(ToQuery([p])) == [p] {
      PairCharacters(p);
      assert ToQuery([p]) == Pair(p) == k + "=" + e;
      ParamComesFromPiece(Split(Pair(p), '&'), {}, p);
      var q :| q in Split(Pair(p), '&') && 0 < IndexOf(q, '=') && k == DecodeUrl(q[..IndexOf(q, '=')], true);
      DecodedIsNotLonger(q[..IndexOf(q, '=')], true);
      PieceKeys(k, e, q);
      WholePiece(k, e, q);
      DecodesToItselfIff(k);
    }
  }

  lemma WholePiece(k: string, e: string, q: string)
    requires q in Split(k + "=" + e, '&') && '&' !in e && '&' !in k && IndexOf(q, '=') == |k| > 0
    requires !IsBlank((k + "=" + e)[|k + "=" + e| - 1])
    ensures '=' !in k && !IsBlank(k[0]) && q[..|k|] == k
  {
    var s := k + "=" + e;
    SplitOne(s, '&');
    assert s[|k|] == '=' && s[0] == k[0];
    TrimIndex(s, '=');
    assert IndexOf(s, '=') == |k|;
    assert forall i :: 0 <= i < |k| ==> s[i] == k[i];
    assert Trim(s) == s;
  }

  /** The key "a+b" comes back as "a b". */
  lemma PlusIsLost(value: string)
    requires IsBytes(value)
    ensures !Survives("a+b") && ParseQuery(ToQuery([("a+b", value)])) == [("a b", value)]
  {
    var e := EncodeQuery(value);
    var s, p := "a+b" + "=" + e, ("a+b", value);
    PlusIsEscape();
    PairCharacters(p);
    DecodeInvertsEncode(value, true);
    assert ToQuery([p]) == Pair(p) == s;
    SplitOne(s, '&');
    NoBlanksIsOnePiece(s);
    IndexOfIs("a+b", '=', e);
    assert s == "a+b" + ['='] + e && s[..3] == "a+b" && s[4..] == e;
    PlusDecodes();
    hide DecodeUrl, EncodeQuery, Survives, IndexOf;
    assert [s][1..] == [];
    assert ParsePieces([s], {}) == [("a b", value)] + ParsePieces([], {} + {s});
  }

  lemma PlusIsEscape()
    ensures !Survives("a+b")
  {
    assert EscapeAt("a+b", 1);
  }

  lemma PlusDecodes()
    ensures DecodeUrl("a+b", true) == "a b"
  {
    assert "a+b"[1..] == "+b" && "+b"[1..] == "b" && "b"[1..] == "";
    assert DecodeUrl("b", true) == "b";
    assert DecodeUrl("+b", true) == " b";
  }
}
