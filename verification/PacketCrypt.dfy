/** Encrypted packets: a timestamp and the payload, sealed, with the initialisation vector and the salt in
    front and the tag behind. The cipher and the key derivation are parameters. */
module PacketCrypt {
  import opened Prelude

  const IV_SIZE := 16
  const SALT_SIZE := 16
  const TAG_SIZE := 16
  const HEAD_SIZE := 32
  const BUFFER_SIZE := 1024
  const TIME_SIZE := 8
  const INT64_MODULUS := 0x1_0000_0000_0000_0000
  const INT64_LIMIT := 0x8000_0000_0000_0000

  datatype PacketCryptResult = OK | INVALID_TIMESTAMP | OTHER_ERROR

  type Key = seq<byte>

  /** Authenticated encryption and key derivation. `unseal` yields the plain text, or nothing when the tag
      does not match. */
  datatype Cipher = Cipher(
    derive: (string, seq<byte>) -> Key,
    seal: (Key, seq<byte>, seq<byte>) -> (seq<byte>, seq<byte>),
    unseal: (Key, seq<byte>, seq<byte>, seq<byte>) -> Option<seq<byte>>)

  /** The cipher text is as long as the plain text, the tag has its size, and unsealing undoes sealing. */
  ghost predicate Lawful(c: Cipher) {
    && (forall k, iv, plain ::
          |c.seal(k, iv, plain).0| == |plain| && |c.seal(k, iv, plain).1| == TAG_SIZE
          && c.unseal(k, iv, c.seal(k, iv, plain).0, c.seal(k, iv, plain).1) == Some(plain))
    && (forall k, iv, text, tag :: c.unseal(k, iv, text, tag).Some? ==> |c.unseal(k, iv, text, tag).value| == |text|)
  }

  // ----- Timestamps in memory -----

  function Reverse(s: seq<byte>): (r: seq<byte>)
    ensures |r| == |s| && forall i :: 0 <= i < |s| ==> r[i] == s[|s| - 1 - i]
  {
    if s == [] then [] else Reverse(s[1..]) + [s[0]]
  }

  lemma ReverseTwice(s: seq<byte>)
    ensures Reverse(Reverse(s)) == s
  {
  }

  /** The `n` low bytes of `v`, the most significant one first. */
  function BigEndian(v: nat, n: nat): (s: seq<byte>)
    ensures |s| == n
  {
    if n == 0 then [] else BigEndian(v / 256, n - 1) + [(v % 256) as byte]
  }

  function FromBigEndian(s: seq<byte>): nat {
    if s == [] then 0 else FromBigEndian(s[..|s| - 1]) * 256 + s[|s| - 1] as int
  }

  function Power256(n: nat): nat {
    if n == 0 then 1 else 256 * Power256(n - 1)
  }

  lemma {:induction false} BigEndianRoundTrip(v: nat, n: nat)
    requires v < Power256(n)
    ensures FromBigEndian(BigEndian(v, n)) == v
  {
    if n > 0 {
      BigEndianRoundTrip(v / 256, n - 1);
      assert BigEndian(v, n)[..n - 1] == BigEndian(v / 256, n - 1);
    }
  }

  /** A 64-bit value as the host stores it. */
  function HostBytes(v: nat, littleEndian: bool): seq<byte> {
    if littleEndian then Reverse(BigEndian(v, TIME_SIZE)) else BigEndian(v, TIME_SIZE)
  }

  function FromHostBytes(s: seq<byte>, littleEndian: bool): nat {
    FromBigEndian(if littleEndian then Reverse(s) else s)
  }

  /** The signed 64-bit value with the same low bits. */
  function AsSigned(v: int): (r: int)
    ensures -INT64_LIMIT <= r < INT64_LIMIT && (r - v) % INT64_MODULUS == 0
  {
    var low := v % INT64_MODULUS;
    if low < INT64_LIMIT then low else low - INT64_MODULUS
  }

  /** Reverses the first `n` bytes in place on a little-endian host. */
  method ReverseBytes(data: array<byte>, n: nat, littleEndian: bool)
    requires n <= data.Length
    modifies data
    ensures data[..n] == if littleEndian then Reverse(old(data[..n])) else old(data[..n])
    ensures data[n..] == old(data[n..])
  {
    if !littleEndian {
      return;
    }
    ghost var was := data[..];
    for i := 0 to n / 2
      invariant forall k :: 0 <= k < i ==> data[k] == was[n - 1 - k] && data[n - 1 - k] == was[k]
      invariant forall k :: i <= k < n - i ==> data[k] == was[k]
      invariant forall k :: n <= k < data.Length ==> data[k] == was[k]
    {
      data[i], data[n - 1 - i] := data[n - 1 - i], data[i];
    }
    assert data[..n] == Reverse(was[..n]);
  }

  method CopyTo(dst: array<byte>, at: nat, src: seq<byte>)
    requires at + |src| <= dst.Length
    modifies dst
    ensures dst[..at] == old(dst[..at]) && dst[at..at + |src|] == src
    ensures forall k :: at + |src| <= k < dst.Length ==> dst[k] == old(dst[k])
  {
    forall k | 0 <= k < |src| {
      dst[at + k] := src[k];
    }
  }

  // ----- The sealed layout -----

  function SealedBytes(c: Cipher, plain: seq<byte>, pwd: string, iv: seq<byte>, salt: seq<byte>): seq<byte> {
    var (text, tag) := c.seal(c.derive(pwd, salt), iv, plain);
    iv + salt + text + tag
  }

  /** Seals `src` into a buffer of `dstLen` bytes and returns the length, 0 on failure. The guard leaves room
      for the vector and the salt only, so that the tag can come to lie behind the buffer, in up to TAG_SIZE
      bytes of memory that `dst` includes. */
  method EncryptAES(c: Cipher, src: seq<byte>, dst: array<byte>, dstLen: nat, pwd: string, iv: seq<byte>,
    salt: seq<byte>)
    returns (len: nat)
    requires Lawful(c) && |iv| == IV_SIZE && |salt| == SALT_SIZE
    requires dst.Length == dstLen + TAG_SIZE
    modifies dst
    ensures if |src| + HEAD_SIZE > dstLen then len == 0
            else len == |src| + HEAD_SIZE + TAG_SIZE && dst[..len] == SealedBytes(c, src, pwd, iv, salt)
    ensures forall k :: len <= k < dst.Length ==> dst[k] == old(dst[k])
    ensures len > dstLen <==> |src| + HEAD_SIZE <= dstLen < |src| + HEAD_SIZE + TAG_SIZE
  {
    if dstLen < |src| + SALT_SIZE + IV_SIZE {
      return 0;
    }
    CopyTo(dst, 0, iv);
    CopyTo(dst, IV_SIZE, salt);
    assert dst[..HEAD_SIZE] == dst[..IV_SIZE] + dst[IV_SIZE..HEAD_SIZE] == iv + salt;
    var (text, tag) := c.seal(c.derive(pwd, salt), iv, src);
    CopyTo(dst, HEAD_SIZE, text);
    var end := HEAD_SIZE + |text|;
    assert dst[..end] == dst[..HEAD_SIZE] + dst[HEAD_SIZE..end] == iv + salt + text;
    CopyTo(dst, end, tag);
    len := end + TAG_SIZE;
    assert dst[..len] == dst[..end] + dst[end..len];
  }

  /** What unsealing a packet yields: nothing when it is too short, too long, or does not authenticate. */
  function OpenedBytes(c: Cipher, src: seq<byte>, pwd: string): Option<seq<byte>> {
    if |src| < HEAD_SIZE + TAG_SIZE || |src| - HEAD_SIZE > BUFFER_SIZE then None
    else
      var iv, salt := src[..IV_SIZE], src[IV_SIZE..HEAD_SIZE];
      c.unseal(c.derive(pwd, salt), iv, src[HEAD_SIZE..|src| - TAG_SIZE], src[|src| - TAG_SIZE..])
  }

  /** Unseals `src` into `dst` and returns the length, 0 on failure. */
  method DecryptAES(c: Cipher, src: seq<byte>, dst: array<byte>, pwd: string) returns (len: nat)
    requires Lawful(c) && dst.Length == BUFFER_SIZE
    modifies dst
    ensures len <= BUFFER_SIZE
    ensures match OpenedBytes(c, src, pwd)
            case None => len == 0
            case Some(plain) => len == |plain| && dst[..len] == plain
  {
    if |src| < IV_SIZE + SALT_SIZE || dst.Length < |src| - IV_SIZE - SALT_SIZE {
      return 0;
    }
    var iv, salt := src[..IV_SIZE], src[IV_SIZE..HEAD_SIZE];
    var key := c.derive(pwd, salt);
    if |src| - HEAD_SIZE < TAG_SIZE {
      // a negative length is refused by the cipher's update
      return 0;
    }
    var plain := c.unseal(key, iv, src[HEAD_SIZE..|src| - TAG_SIZE], src[|src| - TAG_SIZE..]);
    if plain == None {
      return 0;
    }
    CopyTo(dst, 0, plain.value);
    len := |plain.value|;
  }

  // ----- Packets -----

  function PacketBytes(c: Cipher, data: seq<byte>, time: nat, pwd: string, iv: seq<byte>, salt: seq<byte>): seq<byte> {
    SealedBytes(c, BigEndian(time, TIME_SIZE) + data, pwd, iv, salt)
  }

  /** The time in network order on either kind of host, and the payload behind it. */
  method Stamped(data: seq<byte>, time: nat, littleEndian: bool) returns (dataBuf: array<byte>)
    ensures fresh(dataBuf) && dataBuf[..] == BigEndian(time, TIME_SIZE) + data
  {
    dataBuf := new byte[|data| + TIME_SIZE];
    CopyTo(dataBuf, 0, HostBytes(time, littleEndian));
    assert dataBuf[..TIME_SIZE] == dataBuf[0..TIME_SIZE];
    ReverseBytes(dataBuf, TIME_SIZE, littleEndian);
    ReverseTwice(BigEndian(time, TIME_SIZE));
    assert dataBuf[..TIME_SIZE] == BigEndian(time, TIME_SIZE);
    CopyTo(dataBuf, TIME_SIZE, data);
    assert dataBuf[..] == dataBuf[..TIME_SIZE] + dataBuf[TIME_SIZE..TIME_SIZE + |data|];
  }

  /** Up to 984 bytes are accepted, but only up to 968 does the packet lie within the buffer. */
  method EncryptAESPacket(c: Cipher, data: seq<byte>, time: nat, pwd: string, iv: seq<byte>, salt: seq<byte>,
    littleEndian: bool)
    returns (result: PacketCryptResult, enc: seq<byte>)
    requires Lawful(c) && |iv| == IV_SIZE && |salt| == SALT_SIZE
    ensures result == if |data| <= 984 then OK else OTHER_ERROR
    ensures result == OK ==>
              enc == PacketBytes(c, data, time, pwd, iv, salt) && (|enc| <= BUFFER_SIZE <==> |data| <= 968)
  {
    hide Lawful, SealedBytes, BigEndian;
    enc := [];
    var dataBuf := Stamped(data, time, littleEndian);
    var encBuffer := new byte[BUFFER_SIZE + TAG_SIZE];
    var len := EncryptAES(c, dataBuf[..], encBuffer, BUFFER_SIZE, pwd, iv, salt);
    if len <= 8 {
      return OTHER_ERROR, [];
    }
    return OK, encBuffer[..len];
  }

  /** The verdict on a packet that is received at `now`, and its payload. */
  function ReadPacket(c: Cipher, src: seq<byte>, now: int, pwd: string, timeout: nat): (PacketCryptResult, seq<byte>) {
    match OpenedBytes(c, src, pwd)
    case None => (OTHER_ERROR, [])
    case Some(plain) =>
      if |plain| <= TIME_SIZE then (OTHER_ERROR, [])
      else
        var timeDiff := AsSigned(now - AsSigned(FromBigEndian(plain[..TIME_SIZE])));
        if timeDiff < 0 - timeout || timeDiff > timeout then (INVALID_TIMESTAMP, [])
        else (OK, plain[TIME_SIZE..])
  }

  method DecryptAESPacket(c: Cipher, src: seq<byte>, now: int, pwd: string, timeout: nat, littleEndian: bool)
    returns (result: PacketCryptResult, dec: seq<byte>)
    requires Lawful(c)
    ensures (result, dec) == ReadPacket(c, src, now, pwd, timeout)
  {
    var decBuffer := new byte[BUFFER_SIZE];
    var len := DecryptAES(c, src, decBuffer, pwd);
    if len <= 8 {
      return OTHER_ERROR, [];
    }
    ghost var plain := decBuffer[..len];
    var timestamp := new byte[TIME_SIZE];
    CopyTo(timestamp, 0, decBuffer[..TIME_SIZE]);
    assert timestamp[..TIME_SIZE] == timestamp[0..TIME_SIZE] == plain[..TIME_SIZE];
    ReverseBytes(timestamp, TIME_SIZE, littleEndian);
    ReverseTwice(plain[..TIME_SIZE]);
    var time := AsSigned(FromHostBytes(timestamp[..TIME_SIZE], littleEndian));
    var timeDiff := AsSigned(now - time);
    if timeDiff < 0 - timeout || timeDiff > timeout {
      return INVALID_TIMESTAMP, [];
    }
    assert decBuffer[TIME_SIZE..len] == plain[TIME_SIZE..];
    return OK, decBuffer[TIME_SIZE..len];
  }

  lemma OpensWhatWasSealed(c: Cipher, plain: seq<byte>, pwd: string, iv: seq<byte>, salt: seq<byte>)
    requires Lawful(c) && |iv| == IV_SIZE && |salt| == SALT_SIZE && |plain| + TAG_SIZE <= BUFFER_SIZE
    ensures OpenedBytes(c, SealedBytes(c, plain, pwd, iv, salt), pwd) == Some(plain)
  {
    var (text, tag) := c.seal(c.derive(pwd, salt), iv, plain);
    var src := SealedBytes(c, plain, pwd, iv, salt);
    assert src[..IV_SIZE] == iv && src[IV_SIZE..HEAD_SIZE] == salt;
    assert src[HEAD_SIZE..|src| - TAG_SIZE] == text && src[|src| - TAG_SIZE..] == tag;
  }

  /** Round trip: a packet made from at most 984 bytes (no others are made) and read with the same password
      gives the payload back exactly when there is one and the clocks differ by no more than the timeout. A
      stale packet is reported as such, an empty payload as an error. */
  lemma PacketRoundTrip(c: Cipher, data: seq<byte>, time: nat, now: nat, pwd: string, iv: seq<byte>, salt: seq<byte>,
    timeout: nat)
    requires Lawful(c) && |iv| == IV_SIZE && |salt| == SALT_SIZE && |data| <= 984
    requires time < INT64_LIMIT && now < INT64_LIMIT
    ensures ReadPacket(c, PacketBytes(c, data, time, pwd, iv, salt), now, pwd, timeout)
         == if data == [] then (OTHER_ERROR, [])
            else if 0 - timeout <= now - time <= timeout then (OK, data)
            else (INVALID_TIMESTAMP, [])
  {
    var plain := BigEndian(time, TIME_SIZE) + data;
    OpensWhatWasSealed(c, plain, pwd, iv, salt);
    hide Lawful, SealedBytes, OpenedBytes;
    assert plain[..TIME_SIZE] == BigEndian(time, TIME_SIZE) && plain[TIME_SIZE..] == data;
    TimeIsRead(time, now);
    hide BigEndian, FromBigEndian, AsSigned;
  }

  lemma TimeIsRead(time: nat, now: nat)
    requires time < INT64_LIMIT && now < INT64_LIMIT
    ensures AsSigned(FromBigEndian(BigEndian(time, TIME_SIZE))) == time && AsSigned(now - time) == now - time
  {
    assert Power256(8) == 256 * 256 * 256 * 256 * Power256(4) && Power256(4) == 256 * 256 * 256 * 256;
    BigEndianRoundTrip(time, TIME_SIZE);
  }

  /** Between two hosts of either kind: what is read from a packet that was just made. For payloads of 969
      to 984 bytes, whose packets do not lie within the sender's buffer, nothing is promised. */
  method Transfer(c: Cipher, data: seq<byte>, time: nat, now: nat, pwd: string, iv: seq<byte>, salt: seq<byte>,
    timeout: nat, senderLittle: bool, receiverLittle: bool) returns (result: PacketCryptResult, dec: seq<byte>)
    requires Lawful(c) && |iv| == IV_SIZE && |salt| == SALT_SIZE
    requires time < INT64_LIMIT && now < INT64_LIMIT
    ensures |data| <= 968 ==>
      && (result == OK <==> data != [] && 0 - timeout <= now - time <= timeout)
      && (result == INVALID_TIMESTAMP <==> data != [] && !(0 - timeout <= now - time <= timeout))
    ensures |data| > 984 ==> result == OTHER_ERROR
    ensures dec == if result == OK then data else []
  {
    var enc;
    result, enc := EncryptAESPacket(c, data, time, pwd, iv, salt, senderLittle);
    if result != OK {
      return result, [];
    }
    PacketRoundTrip(c, data, time, now, pwd, iv, salt, timeout);
    result, dec := DecryptAESPacket(c, enc, now, pwd, timeout, receiverLittle);
  }

  /** The assumptions about the cipher can be met. */
  lemma LawfulCipherExists()
    ensures exists c :: Lawful(c)
  {
    var tag := seq(TAG_SIZE, i => 0 as byte);
    var c := Cipher((pwd: string, salt: seq<byte>) => salt,
                    (k: Key, iv: seq<byte>, plain: seq<byte>) => (plain, tag),
                    (k: Key, iv: seq<byte>, text: seq<byte>, t: seq<byte>) => Some(text));
    assert Lawful(c);
  }
}
