/** Base64 as the library prints it, through an accumulator of 32 bits that is never cleared. */
module Base64 {
  import opened Prelude
  import opened Text

  const UPPER := "ABCDEFGHIJKLMNOPQRSTUVWXYZ"
  const LOWER := "abcdefghijklmnopqrstuvwxyz"
  const DIGITS := "0123456789"

  const ALPHABET: string := UPPER + LOWER + DIGITS + "+/"

  // ----- The standard's encoding and decoding, section 4 of RFC 4648 -----

  /** The character for a value, by the ranges of the standard's table. */
  function Symbol(v: nat): char
    requires v < 64
  {
    if v < 26 then 'A' + v as char
    else if v < 52 then 'a' + (v - 26) as char
    else if v < 62 then '0' + (v - 52) as char
    else if v == 62 then '+' else '/'
  }

  function Value(c: char): (v: Option<nat>)
    ensures v.Some? ==> v.value < 64
  {
    if 'A' <= c <= 'Z' then Some((c - 'A') as nat)
    else if 'a' <= c <= 'z' then Some((c - 'a') as nat + 26)
    else if '0' <= c <= '9' then Some((c - '0') as nat + 52)
    else if c == '+' then Some(62)
    else if c == '/' then Some(63)
    else None
  }

  // The four characters of a group, each by the bytes it depends on.
  function Char1(x: byte): char { Symbol(x as nat / 4) }
  function Char2(x: byte, y: byte): char { Symbol(x as nat % 4 * 16 + y as nat / 16) }
  function Char3(y: byte, z: byte): char { Symbol(y as nat % 16 * 4 + z as nat / 64) }
  function Char4(z: byte): char { Symbol(z as nat % 64) }

  /** Three bytes make four characters; a last group of one or two bytes is filled up with zero bits and
      padded. */
  function Encode(s: seq<byte>): (t: string)
    ensures |t| == (|s| + 2) / 3 * 4
  {
    if |s| == 0 then []
    else if |s| == 1 then [Char1(s[0]), Char2(s[0], 0), '=', '=']
    else if |s| == 2 then [Char1(s[0]), Char2(s[0], s[1]), Char3(s[1], 0), '=']
    else [Char1(s[0]), Char2(s[0], s[1]), Char3(s[1], s[2]), Char4(s[2])] + Encode(s[3..])
  }

  function First(a: nat, b: nat): (r: byte) requires a < 64 && b < 64 { (a * 4 + b / 16) as byte }
  function Second(b: nat, c: nat): (r: byte) requires b < 64 && c < 64 { (b % 16 * 16 + c / 4) as byte }
  function Third(c: nat, d: nat): (r: byte) requires c < 64 && d < 64 { (c % 4 * 64 + d) as byte }

  /** A strict decoder: whole groups only, padding only at the end, and no bits set under the padding. */
  function Decode(t: string): Option<seq<byte>> {
    if t == [] then Some([])
    else if |t| < 4 then None
    else
      match (Value(t[0]), Value(t[1]), Value(t[2]), Value(t[3]))
      case (Some(a), Some(b), Some(c), Some(d)) =>
        (match Decode(t[4..])
         case Some(rest) => Some([First(a, b), Second(b, c), Third(c, d)] + rest)
         case None => None)
      case (Some(a), Some(b), Some(c), None) =>
        if t[3..] == "=" && c % 4 == 0 then Some([First(a, b), Second(b, c)]) else None
      case (Some(a), Some(b), None, None) =>
        if t[2..] == "==" && b % 16 == 0 then Some([First(a, b)]) else None
      case _ => None
  }

  lemma SymbolHasValue(v: nat)
    requires v < 64
    ensures Value(Symbol(v)) == Some(v)
  {
  }

  lemma ValueHasSymbol(c: char)
    requires Value(c).Some?
    ensures Symbol(Value(c).value) == c
  {
  }

  /** Three bytes are recovered from their four values. */
  lemma BytesAreRejoined(x: byte, y: byte, z: byte)
    ensures First(x as nat / 4, x as nat % 4 * 16 + y as nat / 16) == x
    ensures Second(x as nat % 4 * 16 + y as nat / 16, y as nat % 16 * 4 + z as nat / 64) == y
    ensures Third(y as nat % 16 * 4 + z as nat / 64, z as nat % 64) == z
  {
  }

  /** Four values are recovered from their three bytes. */
  lemma ValuesAreRejoined(a: nat, b: nat, c: nat, d: nat)
    requires a < 64 && b < 64 && c < 64 && d < 64
    ensures First(a, b) as nat / 4 == a
    ensures First(a, b) as nat % 4 * 16 + Second(b, c) as nat / 16 == b
    ensures Second(b, c) as nat % 16 * 4 + Third(c, d) as nat / 64 == c
    ensures Third(c, d) as nat % 64 == d
  {
    assert First(a, b) as nat % 4 == b / 16;
    assert Second(b, c) as nat / 16 == b % 16 && Second(b, c) as nat % 16 == c / 4;
    assert Third(c, d) as nat / 64 == c % 4;
  }

  /** Decoding recovers every input. */
  lemma {:induction false} DecodeInvertsEncode(s: seq<byte>)
    ensures Decode(Encode(s)) == Some(s)
  {
    hide Symbol, Value, First, Second, Third;
    if s != [] {
      var x, y, z := s[0], if |s| > 1 then s[1] else 0, if |s| > 2 then s[2] else 0;
      BytesAreRejoined(x, y, z);
      SymbolHasValue(x as nat / 4);
      SymbolHasValue(x as nat % 4 * 16 + y as nat / 16);
      SymbolHasValue(y as nat % 16 * 4 + z as nat / 64);
      SymbolHasValue(z as nat % 64);
      PaddingHasNoValue();
      if |s| >= 3 {
        DecodeInvertsEncode(s[3..]);
        assert Encode(s)[4..] == Encode(s[3..]);
        assert s == [x, y, z] + s[3..];
      } else if |s| == 2 {
        assert s == [x, y];
        assert Encode(s)[3..] == "=";
      } else {
        assert s == [x];
        assert Encode(s)[2..] == "==";
      }
    }
  }

  lemma PaddingHasNoValue()
    ensures Value('=') == None
  {
  }

  /** And nothing but its encoding decodes to it. */
  lemma {:induction false} OnlyEncodingsDecode(t: string)
    requires Decode(t).Some?
    ensures Encode(Decode(t).value) == t
  {
    hide Symbol, Value, First, Second, Third;
    if t != [] {
      var s := Decode(t).value;
      var a, b := Value(t[0]).value, Value(t[1]).value;
      var c := if Value(t[2]).Some? then Value(t[2]).value else 0;
      var d := if Value(t[3]).Some? then Value(t[3]).value else 0;
      ValuesAreRejoined(a, b, c, d);
      ValueHasSymbol(t[0]);
      ValueHasSymbol(t[1]);
      if Value(t[3]).Some? {
        ValueHasSymbol(t[2]);
        ValueHasSymbol(t[3]);
        OnlyEncodingsDecode(t[4..]);
        assert s[3..] == Decode(t[4..]).value;
        assert t == [t[0], t[1], t[2], t[3]] + t[4..];
      } else if Value(t[2]).Some? {
        ValueHasSymbol(t[2]);
        assert t == t[..3] + t[3..] == [t[0], t[1], t[2], '='];
        NothingBelow(b, c);
      } else {
        assert t == t[..2] + t[2..] == [t[0], t[1], '=', '='];
        NothingBelow(a, b);
      }
    }
  }

  lemma NothingBelow(a: nat, b: nat)
    requires a < 64 && b < 64
    ensures b % 16 == 0 ==> First(a, b) as nat % 4 * 16 == b
    ensures b % 4 == 0 ==> Second(a, b) as nat % 16 * 4 == b
  {
  }

  // ----- The code -----

  /** A signed 32-bit integer with the same low bits. */
  function Wrap32(v: int): (r: int)
    ensures -0x8000_0000 <= r < 0x8000_0000 && (r - v) % 0x1_0000_0000 == 0
  {
    var low := v % 0x1_0000_0000;
    if low < 0x8000_0000 then low else low - 0x1_0000_0000
  }

  function Pow2(n: nat): (p: nat)
    ensures p > 0
  {
    if n == 0 then 1 else 2 * Pow2(n - 1)
  }

  /** `(v >> n) & 0x3F` on a signed integer. */
  function Sextet(v: int, n: nat): (r: nat)
    ensures r < 64
  {
    v / Pow2(n) % 64
  }

  lemma TimesAtLeast(a: int, b: int, m: nat)
    ensures a >= b ==> a * m >= b * m
  {
    if a >= b {
      assert (a - b) * m >= 0;
    }
  }

  lemma Small(d: int, m: nat)
    requires 0 - m < d * m < m
    ensures d == 0
  {
    TimesAtLeast(d, 1, m);
    TimesAtLeast(-1, d, m);
  }

  lemma Divides(x: int, m: nat) 
    requires m > 0
    ensures x == x / m * m + x % m && 0 <= x % m < m
  {
  }

  lemma DivMod(x: int, m: nat, q: int, r: nat)
    requires x == q * m + r && r < m
    ensures x / m == q && x % m == r
  {
    Divides(x, m);
    var a, b := x / m, x % m;
    assert (q - a) * m == b - r by { assert (q - a) * m == q * m - a * m; }
    Small(q - a, m);
  }

  lemma WrapIsShift(v: int) returns (k: int)
    ensures Wrap32(v) == v - k * 0x1_0000_0000
  {
    var q := v / 0x1_0000_0000;
    k := if v % 0x1_0000_0000 < 0x8000_0000 then q else q + 1;
  }

  /** The accumulator wraps at 32 bits, but keeps the bits that are still to be printed. */
  lemma WrapKeepsLowBits(v: int)
    ensures Wrap32(v * 256) % 1024 == v % 4 * 256
    ensures Wrap32(v * 256) % 4096 == v % 16 * 256
  {
    var k := WrapIsShift(v * 256);
    var w := Wrap32(v * 256);
    hide Wrap32;
    DivMod(w, 1024, v / 4 - k * 0x40_0000, v % 4 * 256);
    DivMod(w, 4096, v / 16 - k * 0x10_0000, v % 16 * 256);
  }

  /** The characters for the whole sextets among the `valb + 6` pending bits of `val`. */
  function Emitted(val: int, valb: int): string
    decreases valb + 6
  {
    if valb < 0 then [] else [Symbol(Sextet(val, valb))] + Emitted(val, valb - 6)
  }

  lemma SextetOf(val: int, low: nat, n: nat, m: nat)
    requires m > 0 && Pow2(n) * 64 == m && val % m == low
    ensures Sextet(val, n) == low / Pow2(n)
  {
    var p := Pow2(n);
    Divides(val, m);
    Divides(low, p);
    var q, h, rest := val / m, low / p, low % p;
    Combine(val, q, h, rest, p);
    DivMod(val, p, q * 64 + h, rest);
    DivMod(q * 64 + h, 64, q, h);
  }

  lemma Combine(val: int, q: int, h: int, rest: nat, p: nat)
    requires p > 0 && 0 <= h * p + rest < p * 64 && rest < p && val == q * (p * 64) + (h * p + rest)
    ensures val == (q * 64 + h) * p + rest && 0 <= h < 64
  {
    assert q * (p * 64) == q * 64 * p;
    TimesAtLeast(h, 64, p);
    TimesAtLeast(-1, h, p);
  }

  /** The bits of `last` that are still to be printed are the low bits of the accumulator. */
  ghost predicate EndsIn(val: int, last: byte) {
    val % 16 == last as nat % 16
  }

  lemma EndsInTwo(val: int, last: byte)
    requires EndsIn(val, last)
    ensures val % 4 == last as nat % 4
  {
  }

  /** One byte more, after `last`: the characters it completes, for each number of bits pending. */
  lemma ByteCompletes(val: int, last: byte, c: byte)
    ensures EndsIn(Wrap32(val * 256) + c as int, c)
    ensures Emitted(Wrap32(val * 256) + c as int, 2) == [Char1(c)]
    ensures EndsIn(val, last) ==>
      && Emitted(Wrap32(val * 256) + c as int, 4) == [Char2(last, c)]
      && Emitted(Wrap32(val * 256) + c as int, 6) == [Char3(last, c), Char4(c)]
  {
    BitsComplete(val, c);
    if EndsIn(val, last) {
      EndsInTwo(val, last);
    }
    hide Wrap32, Symbol, Emitted;
  }

  lemma BitsComplete(val: int, c: byte)
    ensures Emitted(Wrap32(val * 256) + c as int, 2) == [Symbol(c as nat / 4)]
    ensures Emitted(Wrap32(val * 256) + c as int, 4) == [Symbol(val % 4 * 16 + c as nat / 16)]
    ensures Emitted(Wrap32(val * 256) + c as int, 6) == [Symbol(val % 16 * 4 + c as nat / 64), Symbol(c as nat % 64)]
    ensures (Wrap32(val * 256) + c as int) % 16 == c as nat % 16
  {
    WrapKeepsLowBits(val);
    var w := Wrap32(val * 256) + c as int;
    hide Wrap32, Symbol, Sextet;
    var q := w / 4096;
    DivMod(w, 4096, Wrap32(val * 256) / 4096, val % 16 * 256 + c as nat);
    DivMod(w, 1024, Wrap32(val * 256) / 1024, val % 4 * 256 + c as nat);
    DivMod(w, 256, q * 16 + val % 16, c as nat);
    assert Pow2(2) == 4 && Pow2(4) == 16 && Pow2(6) == 64 && Pow2(0) == 1;
    SextetOf(w, c as nat, 2, 256);
    SextetOf(w, val % 4 * 256 + c as nat, 4, 1024);
    SextetOf(w, val % 16 * 256 + c as nat, 6, 4096);
    DivMod(w, 64, w / 256 * 4 + c as nat / 64, c as nat % 64);
    SextetOf(w, c as nat % 64, 0, 64);
    DivMod(w, 16, w / 256 * 16 + c as nat / 16, c as nat % 16);
  }

  /** What padding out the last bits prints. */
  lemma LastBits(val: int)
    ensures Sextet(Wrap32(val * 256), 4) == val % 4 * 16
    ensures Sextet(Wrap32(val * 256), 6) == val % 16 * 4
  {
    WrapKeepsLowBits(val);
    assert Pow2(4) == 16 && Pow2(6) == 64;
    hide Wrap32, Sextet;
    SextetOf(Wrap32(val * 256), val % 4 * 256, 4, 1024);
    SextetOf(Wrap32(val * 256), val % 16 * 256, 6, 4096);
  }

  lemma LookupIsTable(v: nat)
    requires v < 64
    ensures |ALPHABET| == 64 && ALPHABET[v] == Symbol(v)
  {
  }

  /** The whole sextets of an incomplete group. */
  function Sextets(group: seq<byte>): string
    requires |group| <= 2
  {
    if |group| == 0 then []
    else if |group| == 1 then [Char1(group[0])]
    else [Char1(group[0]), Char2(group[0], group[1])]
  }

  /** After `i` bytes, of which the last `i - start` are an incomplete group: the whole groups `head` and the
      whole sextets have been printed, and the bits still pending are low bits of the accumulator. */
  ghost predicate Pending(s: seq<byte>, start: nat, i: nat, head: string, out: string, val: int, valb: int) {
    && start <= i <= |s| && i - start <= 2 && valb == 2 * (i - start) - 6
    && Encode(s) == head + Encode(s[start..])
    && out == head + Sextets(s[start..i])
    && (i > start ==> EndsIn(val, s[i - 1]))
  }

  /** The characters that `c` completes when it comes after `group`. */
  function Completed(group: seq<byte>, c: byte): string
    requires |group| <= 2
  {
    if |group| == 0 then [Char1(c)]
    else if |group| == 1 then [Char2(group[0], c)]
    else [Char3(group[1], c), Char4(c)]
  }

  lemma GroupGrows(group: seq<byte>, c: byte)
    requires |group| < 2
    ensures Sextets(group) + Completed(group, c) == Sextets(group + [c])
  {
    hide Char1, Char2, Char3, Char4, Encode;
  }

  lemma GroupIsWhole(group: seq<byte>, c: byte)
    requires |group| == 2
    ensures Sextets(group) + Completed(group, c) == Encode(group + [c])
  {
    hide Char1, Char2, Char3, Char4;
    var whole := group + [c];
    assert whole[3..] == [] && whole[0] == group[0] && whole[1] == group[1] && whole[2] == c;
    assert Encode(whole) == [Char1(group[0]), Char2(group[0], group[1]), Char3(group[1], c), Char4(c)] + Encode([]);
  }

  lemma BitsOfGroup(val: int, group: seq<byte>, c: byte)
    requires |group| <= 2 && (group != [] ==> EndsIn(val, group[|group| - 1]))
    ensures EndsIn(Wrap32(val * 256) + c as int, c)
    ensures Emitted(Wrap32(val * 256) + c as int, 2 * |group| + 2) == Completed(group, c)
  {
    ByteCompletes(val, if group == [] then 0 else group[|group| - 1], c);
    hide Wrap32, Emitted, EndsIn, Char1, Char2, Char3, Char4;
  }

  lemma GroupFirst(group: seq<byte>, rest: seq<byte>)
    requires |group| == 3
    ensures Encode(group + rest) == Encode(group) + Encode(rest)
  {
    hide Char1, Char2, Char3, Char4;
    assert (group + rest)[3..] == rest && group[3..] == [];
  }

  function Padding(group: seq<byte>): string {
    if |group| == 1 then "==" else if |group| == 2 then "=" else ""
  }

  /** The last group, when it is incomplete. */
  lemma GroupIsPadded(val: int, group: seq<byte>)
    requires 1 <= |group| <= 2 && EndsIn(val, group[|group| - 1])
    ensures Sextets(group) + [Symbol(Sextet(Wrap32(val * 256), 2 * |group| + 2))] + Padding(group) == Encode(group)
  {
    LastBits(val);
    EndsInTwo(val, group[|group| - 1]);
    hide Wrap32, Symbol, Sextet;
  }

  lemma ByteIsPrinted(s: seq<byte>, start: nat, i: nat, head: string, out: string, val: int, valb: int)
    requires i < |s| && Pending(s, start, i, head, out, val, valb)
    ensures var next := Wrap32(val * 256) + s[i] as int;
            EndsIn(next, s[i]) && valb + 8 == 2 * |s[start..i]| + 2
            && out + Emitted(next, valb + 8) == head + (Sextets(s[start..i]) + Completed(s[start..i], s[i]))
  {
    BitsOfGroup(val, s[start..i], s[i]);
    hide Wrap32, Emitted, Encode, EndsIn, Completed, Sextets;
  }

  lemma ByteAdds(s: seq<byte>, start: nat, i: nat, head: string, out: string, val: int, valb: int)
    requires i < |s| && i - start < 2 && Pending(s, start, i, head, out, val, valb)
    ensures var next := Wrap32(val * 256) + s[i] as int;
            Pending(s, start, i + 1, head, out + Emitted(next, valb + 8), next, valb + 2)
  {
    ByteIsPrinted(s, start, i, head, out, val, valb);
    GroupGrows(s[start..i], s[i]);
    hide Wrap32, Emitted, Encode, EndsIn, Completed, Sextets;
    assert s[start..i + 1] == s[start..i] + [s[i]];
  }

  lemma GroupCloses(head: string, group: seq<byte>, c: byte, rest: seq<byte>)
    requires |group| == 2
    ensures head + Encode(group + [c] + rest) == head + (Sextets(group) + Completed(group, c)) + Encode(rest)
  {
    GroupIsWhole(group, c);
    GroupFirst(group + [c], rest);
    hide Encode, Completed, Sextets;
  }

  lemma ByteCloses(s: seq<byte>, start: nat, i: nat, head: string, out: string, val: int, valb: int)
    requires i < |s| && i - start == 2 && Pending(s, start, i, head, out, val, valb)
    ensures var next := Wrap32(val * 256) + s[i] as int;
            var more := out + Emitted(next, valb + 8);
            Pending(s, i + 1, i + 1, more, more, next, -6)
  {
    ByteIsPrinted(s, start, i, head, out, val, valb);
    GroupCloses(head, s[start..i], s[i], s[i + 1..]);
    assert s[start..] == s[start..i] + [s[i]] + s[i + 1..];
    assert s[i + 1..i + 1] == [] && Sextets([]) == [];
    hide Wrap32, Emitted, Encode, EndsIn, Completed, Sextets;
  }

  /** The library's loop prints the standard's encoding, although the accumulator is only ever shifted and
      wraps. */
  method EncodeLoop(input: seq<byte>) returns (out: string)
    ensures out == Encode(input)
  {
    hide Wrap32, Symbol, Sextet, Sextets, Encode, EndsIn, Padding, Emitted;
    NoGroup();
    assert input[0..0] == [] && input[0..] == input;
    out := [];
    var val, valb := 0, -6;
    ghost var start, head := 0, [];
    for i := 0 to |input|
      invariant Pending(input, start, i, head, out, val, valb)
    {
      if i - start == 2 {
        ByteCloses(input, start, i, head, out, val, valb);
      } else {
        ByteAdds(input, start, i, head, out, val, valb);
      }
      val := Wrap32(val * 256) + input[i] as int;
      valb := valb + 8;
      out, valb := Emit(val, valb, out);
      if i - start == 2 {
        start, head := i + 1, out;
      }
    }
    ghost var group := input[start..];
    assert input[start..|input|] == group;
    if valb > -6 {
      GroupIsPadded(val, group);
      LookupIsTable(Sextet(Wrap32(val * 256), valb + 8));
      out := out + [ALPHABET[Sextet(Wrap32(val * 256), valb + 8)]];
    }
    assert out + Padding(group) == head + Encode(group);
    WholeGroups(input);
    out := Pad(out, group);
  }

  lemma NoGroup()
    ensures Sextets([]) == [] && Padding([]) == [] && Encode([]) == []
  {
  }

  lemma WholeGroups(s: seq<byte>)
    ensures |Encode(s)| % 4 == 0
  {
  }

  method Pad(printed: string, ghost group: seq<byte>) returns (out: string)
    requires |group| <= 2 && (|printed| + |Padding(group)|) % 4 == 0
    ensures out == printed + Padding(group)
  {
    out := printed;
    ghost var k: nat := 0;
    while |out| % 4 != 0
      invariant k <= |Padding(group)| && out == printed + Padding(group)[..k]
      decreases |Padding(group)| - k
    {
      assert Padding(group)[..k + 1] == Padding(group)[..k] + "=";
      out, k := out + "=", k + 1;
    }
  }

  /** Prints the whole sextets among the pending bits. */
  method Emit(val: int, bits: int, printed: string) returns (out: string, valb: int)
    requires 2 <= bits <= 6 && bits % 2 == 0
    ensures out == printed + Emitted(val, bits) && valb == if bits == 6 then -6 else bits - 6
  {
    out, valb := printed, bits;
    while valb >= 0
      invariant -6 <= valb <= bits && (bits - valb) % 6 == 0
      invariant printed + Emitted(val, bits) == out + Emitted(val, valb)
    {
      LookupIsTable(Sextet(val, valb));
      out := out + [ALPHABET[Sextet(val, valb)]];
      valb := valb - 6;
    }
  }
}
