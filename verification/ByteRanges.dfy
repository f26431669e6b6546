/** Byte ranges (section 14.2 of RFC 9110): checking and normalising a request's ranges, the multipart
    body built for several of them, and the Range header text in both directions. */
module ByteRanges {
  import opened Prelude
  import opened Text

  const RANGE_MAX_COUNT := 1024
  const SSIZE_MAX := 0x7FFF_FFFF_FFFF_FFFF

  /** First and last position; -1 stands for an absent one. */
  datatype Range = Range(first: int, last: int)

  // ----- range_error -----

  /** The absent positions filled in for a content of `len` bytes. */
  function Normalised(r: Range, len: nat): Range {
    if r.first == -1 && r.last == -1 then Range(0, len)
    else if r.first == -1 then Range(len - r.last, len - 1)
    else if r.last == -1 then Range(r.first, len - 1)
    else r
  }

  function NormalisedAll(rs: seq<Range>, len: nat): (ns: seq<Range>)
    ensures |ns| == |rs| && forall i :: 0 <= i < |rs| ==> ns[i] == Normalised(rs[i], len)
  {
    if rs == [] then [] else NormalisedAll(rs[..|rs| - 1], len) + [Normalised(rs[|rs| - 1], len)]
  }

  predicate Inside(r: Range, len: nat) {
    0 <= r.first <= r.last < len
  }

  /** A position is given, or absent. */
  predicate WellFormed(r: Range) {
    r.first >= -1 && r.last >= -1
  }

  /** `s` are the positions that `r` asks for of `len` bytes: a suffix is so many bytes at the end, an absent
      last position is the end, and given positions stand as they are. */
  predicate Selects(r: Range, len: nat, s: Range) {
    && Inside(s, len)
    && (r.first == -1 ==> r.last != -1 && s.last == len - 1 && s.last - s.first + 1 == r.last)
    && (r.first != -1 && r.last == -1 ==> s.first == r.first && s.last == len - 1)
    && (r.first != -1 && r.last != -1 ==> s == r)
  }

  /** When there are such positions: a suffix must have at least one byte and at most all of them. */
  predicate Selectable(r: Range, len: nat) {
    if r.first == -1 then 1 <= r.last <= len
    else if r.last == -1 then 0 <= r.first < len
    else 0 <= r.first <= r.last < len
  }

  /** Filling in gives the positions asked for, and they lie inside the content exactly when there are some. */
  lemma NormalisedSelects(r: Range, len: nat)
    requires WellFormed(r)
    ensures Inside(Normalised(r, len), len) <==> Selectable(r, len)
    ensures Selectable(r, len) <==> Selects(r, len, Normalised(r, len))
  {
  }

  /** There is at most one answer to a range. */
  lemma SelectsOne(r: Range, len: nat, s: Range, t: Range)
    requires WellFormed(r) && Selects(r, len, s) && Selects(r, len, t)
    ensures s == t && Selectable(r, len)
  {
  }

  ghost predicate AllWellFormed(rs: seq<Range>) {
    forall i :: 0 <= i < |rs| ==> WellFormed(rs[i])
  }

  /** `ns` are the positions that the ranges ask for, and make an acceptable list. */
  ghost predicate Answers(rs: seq<Range>, len: nat, ns: seq<Range>) {
    |ns| == |rs| && (forall i :: 0 <= i < |rs| ==> Selects(rs[i], len, ns[i])) && Acceptable(ns, len)
  }

  /** The filled-in list is the only possible answer. */
  lemma NormalisedAnswers(rs: seq<Range>, len: nat)
    requires AllWellFormed(rs)
    ensures Acceptable(NormalisedAll(rs, len), len) ==> Answers(rs, len, NormalisedAll(rs, len))
    ensures !Acceptable(NormalisedAll(rs, len), len) ==> forall ns :: !Answers(rs, len, ns)
  {
    var all := NormalisedAll(rs, len);
    forall i | 0 <= i < |rs|
      ensures Inside(all[i], len) <==> Selectable(rs[i], len)
      ensures Selectable(rs[i], len) <==> Selects(rs[i], len, all[i])
    {
      NormalisedSelects(rs[i], len);
    }
    forall ns | Answers(rs, len, ns)
      ensures Acceptable(all, len)
    {
      forall i | 0 <= i < |rs|
        ensures ns[i] == all[i]
      {
        assert Selects(rs[i], len, ns[i]);
        SelectsOne(rs[i], len, ns[i], ns[i]);
        SelectsOne(rs[i], len, ns[i], all[i]);
      }
      assert ns == all;
    }
  }

  /** Range `i` begins within the extent of an earlier one. */
  predicate Overlaps(rs: seq<Range>, i: nat)
    requires i < |rs|
  {
    exists j :: 0 <= j < i && rs[i].first <= rs[j].last
  }

  function OverlapCount(rs: seq<Range>): nat {
    if rs == [] then 0
    else OverlapCount(rs[..|rs| - 1]) + if Overlaps(rs, |rs| - 1) then 1 else 0
  }

  /** What makes a list of (normalised) ranges acceptable. */
  ghost predicate Acceptable(rs: seq<Range>, len: nat) {
    && |rs| <= RANGE_MAX_COUNT
    && (forall i :: 0 <= i < |rs| ==> Inside(rs[i], len))
    && (forall i, j :: 0 <= i < j < |rs| ==> rs[i].first < rs[j].first)
    && OverlapCount(rs) <= 2
  }

  /** The single positions of a content. */
  function Singles(n: nat): (rs: seq<Range>)
    ensures |rs| == n && forall i :: 0 <= i < n ==> rs[i] == Range(i, i)
  {
    if n == 0 then [] else Singles(n - 1) + [Range(n - 1, n - 1)]
  }

  lemma {:induction false} SinglesDoNotOverlap(n: nat)
    ensures OverlapCount(Singles(n)) == 0
  {
    if n > 0 {
      SinglesDoNotOverlap(n - 1);
      assert Singles(n)[..n - 1] == Singles(n - 1);
    }
  }

  /** As many as 1024 ranges can be acceptable, and no more. */
  lemma CountLimit(n: nat)
    ensures Acceptable(Singles(n), n) <==> n <= 1024
    ensures forall rs, len :: Acceptable(rs, len) ==> |rs| <= 1024
  {
    SinglesDoNotOverlap(n);
  }

  lemma CountAppend(rs: seq<Range>, r: Range)
    ensures OverlapCount(rs + [r])
         == OverlapCount(rs) + if exists j :: 0 <= j < |rs| && r.first <= rs[j].last then 1 else 0
  {
  }

  lemma {:induction false} CountGrows(rs: seq<Range>, k: nat)
    requires k <= |rs|
    ensures OverlapCount(rs[..k]) <= OverlapCount(rs)
  {
    if k < |rs| {
      CountGrows(rs[..|rs| - 1], k);
      assert rs[..|rs| - 1][..k] == rs[..k];
    } else {
      assert rs[..k] == rs;
    }
  }

  /** A list with an unacceptable beginning is unacceptable. */
  lemma PrefixDecides(rs: seq<Range>, k: nat, len: nat)
    requires k <= |rs|
    ensures Acceptable(rs, len) ==> Acceptable(rs[..k], len)
  {
    CountGrows(rs, k);
  }

  lemma AcceptableAppend(rs: seq<Range>, r: Range, len: nat)
    requires Acceptable(rs, len) && |rs| < RANGE_MAX_COUNT
    ensures Acceptable(rs + [r], len) <==>
              && Inside(r, len) && (forall j :: 0 <= j < |rs| ==> rs[j].first < r.first)
              && OverlapCount(rs + [r]) <= 2
  {
    var all := rs + [r];
    assert all[|rs|] == r;
    assert forall j :: 0 <= j < |rs| ==> all[j] == rs[j];
  }

  /** The largest first and last positions so far, -1 when there are none. */
  ghost predicate Maxima(rs: seq<Range>, first: int, last: int) {
    && (rs == [] ==> first == last == -1)
    && (forall j :: 0 <= j < |rs| ==> rs[j].first <= first && rs[j].last <= last)
    && (rs != [] ==> (exists j :: 0 <= j < |rs| && rs[j].first == first)
                     && exists j :: 0 <= j < |rs| && rs[j].last == last)
  }

  lemma MaximaAppend(rs: seq<Range>, r: Range, first: int, last: int)
    requires Maxima(rs, first, last) && r.first >= 0 && r.last >= 0
    ensures Maxima(rs + [r], if first < r.first then r.first else first, if last < r.last then r.last else last)
  {
    var all := rs + [r];
    assert all[|rs|] == r;
    assert forall j :: 0 <= j < |rs| ==> all[j] == rs[j];
    if rs != [] {
      var j :| 0 <= j < |rs| && rs[j].first == first;
      var k :| 0 <= k < |rs| && rs[k].last == last;
      assert all[j].first == first && all[k].last == last;
    }
  }

  /** What the loop of `range_error` remembers of the ranges before. */
  datatype Progress = Progress(prevFirst: int, prevLast: int, overlapping: nat)

  ghost predicate Remembers(p: Progress, rs: seq<Range>) {
    Maxima(rs, p.prevFirst, p.prevLast) && p.overlapping == OverlapCount(rs)
  }

  lemma OverlapsIff(rs: seq<Range>, r: Range, p: Progress)
    requires Remembers(p, rs) && r.first >= 0
    ensures r.first <= p.prevLast <==> exists j :: 0 <= j < |rs| && r.first <= rs[j].last
    ensures r.first <= p.prevFirst <==> !forall j :: 0 <= j < |rs| ==> rs[j].first < r.first
  {
  }

  /** The body of the loop for one normalised range. */
  method CheckRange(r: Range, p: Progress, len: nat, ghost before: seq<Range>) returns (error: bool, next: Progress)
    requires Acceptable(before, len) && |before| < RANGE_MAX_COUNT && Remembers(p, before)
    ensures !error <==> Acceptable(before + [r], len)
    ensures !error ==> Remembers(next, before + [r])
  {
    next := p;
    AcceptableAppend(before, r, len);
    CountAppend(before, r);
    if !Inside(r, len) {
      return true, next;
    }
    OverlapsIff(before, r, p);
    if r.first <= p.prevFirst {
      return true, next;
    }
    var overlapping := p.overlapping;
    if r.first <= p.prevLast {
      overlapping := overlapping + 1;
      if overlapping > 2 {
        return true, next;
      }
    }
    MaximaAppend(before, r, p.prevFirst, p.prevLast);
    next := Progress(if p.prevFirst < r.first then r.first else p.prevFirst,
                     if p.prevLast < r.last then r.last else p.prevLast,
                     overlapping);
    return false, next;
  }

  lemma NothingYet(len: nat)
    ensures Acceptable([], len) && Remembers(Progress(-1, -1, 0), [])
  {
  }

  /** The loop of `range_error`: fills in each range in place, then checks it against those before. */
  method NormaliseAndCheck(ranges: array<Range>, len: nat) returns (error: bool)
    requires ranges.Length <= RANGE_MAX_COUNT
    modifies ranges
    ensures !error <==> Acceptable(NormalisedAll(old(ranges[..]), len), len)
    ensures !error ==> ranges[..] == NormalisedAll(old(ranges[..]), len)
  {
    hide Acceptable, Remembers, NormalisedAll;
    ghost var was := ranges[..];
    ghost var all := NormalisedAll(was, len);
    var p := Progress(-1, -1, 0);
    NothingYet(len);
    for i := 0 to ranges.Length
      modifies ranges
      invariant forall k :: 0 <= k < i ==> ranges[k] == all[k]
      invariant forall k :: i <= k < ranges.Length ==> ranges[k] == was[k]
      invariant Acceptable(all[..i], len) && Remembers(p, all[..i])
    {
      ranges[i] := Normalised(ranges[i], len);
      assert all[..i + 1] == all[..i] + [ranges[i]];
      PrefixDecides(all, i + 1, len);
      error, p := CheckRange(ranges[i], p, len, all[..i]);
      if error {
        return;
      }
    }
    assert all[..|all|] == all && ranges[..] == all;
    return false;
  }

  /** Checks the ranges of a request against the content length and fills in absent positions in place.
      It reports no error if and only if the normalised list is acceptable: there is then an acceptable list of
      the positions that the ranges ask for, and that is what they become. */
  method RangeError(ranges: array<Range>, status: int, len: nat) returns (error: bool)
    modifies ranges
    ensures ranges.Length == 0 || status < 200 || status >= 300 ==> !error && ranges[..] == old(ranges[..])
    ensures ranges.Length > 0 && 200 <= status < 300 ==>
              (!error <==> Acceptable(NormalisedAll(old(ranges[..]), len), len))
              && (!error ==> ranges[..] == NormalisedAll(old(ranges[..]), len))
    ensures AllWellFormed(old(ranges[..])) && ranges.Length > 0 && 200 <= status < 300 ==>
              if error then forall ns :: !Answers(old(ranges[..]), len, ns)
              else Answers(old(ranges[..]), len, ranges[..])
  {
    ghost var was := ranges[..];
    if AllWellFormed(was) {
      NormalisedAnswers(was, len);
    }
    hide Acceptable, NormalisedAll;
    error := false;
    if ranges.Length > 0 && 200 <= status < 300 {
      if ranges.Length > RANGE_MAX_COUNT {
        return true;
      }
      error := NormaliseAndCheck(ranges, len);
    }
  }

  // ----- The multipart body for several ranges -----

  function PartHeader(r: Range, boundary: string, contentType: string, len: nat): string
    requires Inside(r, len)
  {
    "--" + boundary + CRLF
    + (if contentType == "" then "" else "Content-Type: " + contentType + CRLF)
    + ("Content-Range: " + ("bytes " + ToDecimal(r.first) + "-" + ToDecimal(r.last) + "/" + ToDecimal(len))
       + CRLF + CRLF)
  }

  /** The bytes of `content` from the first to the last position of `r`, both included. */
  function Slice(content: string, r: Range): string
    requires Inside(r, |content|)
  {
    content[r.first..r.last + 1]
  }

  function Part(content: string, r: Range, boundary: string, contentType: string): string
    requires Inside(r, |content|)
  {
    PartHeader(r, boundary, contentType, |content|) + Slice(content, r) + CRLF
  }

  ghost predicate AllInside(rs: seq<Range>, len: nat) {
    forall i :: 0 <= i < |rs| ==> Inside(rs[i], len)
  }

  function Parts(content: string, rs: seq<Range>, boundary: string, contentType: string): string
    requires AllInside(rs, |content|)
  {
    if rs == [] then ""
    else Parts(content, rs[..|rs| - 1], boundary, contentType) + Part(content, rs[|rs| - 1], boundary, contentType)
  }

  function MultipartData(content: string, rs: seq<Range>, boundary: string, contentType: string): string
    requires AllInside(rs, |content|)
  {
    Parts(content, rs, boundary, contentType) + ("--" + boundary + "--")
  }

  /** Offset and length of a range, as the content callback is given them. */
  method OffsetAndLength(r: Range, len: nat) returns (offset: nat, length: nat)
    requires Inside(r, len)
    ensures offset == r.first && offset + length == r.last + 1 <= len
  {
    offset, length := r.first, r.last - r.first + 1;
  }

  /** The run of `process_multipart_ranges_data` that appends the tokens and the content. */
  method MakeMultipartRangesData(content: string, ranges: seq<Range>, boundary: string, contentType: string)
    returns (data: string)
    requires AllInside(ranges, |content|)
    ensures data == MultipartData(content, ranges, boundary, contentType)
  {
    data := "";
    for i := 0 to |ranges|
      invariant data == Parts(content, ranges[..i], boundary, contentType)
    {
      assert ranges[..i + 1][..i] == ranges[..i] && ranges[..i + 1][i] == ranges[i];
      var header := "--" + boundary + CRLF;
      if contentType != "" {
        header := header + ("Content-Type: " + contentType + CRLF);
      } else {
        assert header + "" == header;
      }
      var offset, length := OffsetAndLength(ranges[i], |content|);
      var positions := "bytes " + ToDecimal(offset) + "-" + ToDecimal(offset + length - 1) + "/" + ToDecimal(|content|);
      header := header + ("Content-Range: " + positions + CRLF + CRLF);
      data := data + (header + content[offset..offset + length] + CRLF);
    }
    assert ranges[..|ranges|] == ranges;
    data := data + ("--" + boundary + "--");
  }

  /** The run of `process_multipart_ranges_data` that only counts: it finds exactly the number of bytes
      that the other run builds. */
  method GetMultipartRangesDataLength(ghost content: string, len: nat, ranges: seq<Range>, boundary: string,
    contentType: string)
    returns (dataLength: nat)
    requires len == |content| && AllInside(ranges, len)
    ensures dataLength == |MultipartData(content, ranges, boundary, contentType)|
  {
    dataLength := 0;
    for i := 0 to |ranges|
      invariant dataLength == |Parts(content, ranges[..i], boundary, contentType)|
    {
      assert ranges[..i + 1][..i] == ranges[..i] && ranges[..i + 1][i] == ranges[i];
      dataLength := dataLength + 2 + |boundary| + 2;
      if contentType != "" {
        dataLength := dataLength + 14 + |contentType| + 2;
      }
      var offset, length := OffsetAndLength(ranges[i], len);
      var field := "bytes " + ToDecimal(offset) + "-" + ToDecimal(offset + length - 1) + "/" + ToDecimal(len);
      dataLength := dataLength + 15 + |field| + 2 + 2;
      dataLength := dataLength + length;
      dataLength := dataLength + 2;
    }
    assert ranges[..|ranges|] == ranges;
    dataLength := dataLength + 2 + |boundary| + 2;
  }
}
