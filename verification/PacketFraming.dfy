/** The length-prefixed packets exchanged with a phone, over TCP or Bluetooth: a 16-bit length in network
    order, then the payload, through a socket that transfers bytes in portions of any size. */
module PacketFraming {
  import opened Prelude

  const LENGTH_MODULUS := 0x1_0000

  function ToBytes(v: nat): (s: seq<byte>)
    requires v < LENGTH_MODULUS
    ensures |s| == 2 && (s[0] as int) * 256 + s[1] as int == v
  {
    [(v / 256) as byte, (v % 256) as byte]
  }

  function FromBytes(s: seq<byte>): (v: nat)
    requires |s| == 2
    ensures v < LENGTH_MODULUS && ToBytes(v) == s
  {
    (s[0] as int) * 256 + s[1] as int
  }

  /** The bytes of a 16-bit value as the host stores it, and the value in the other byte order. */
  function HostBytes(v: nat, littleEndian: bool): (s: seq<byte>)
    requires v < LENGTH_MODULUS
    ensures |s| == 2
  {
    if littleEndian then [(v % 256) as byte, (v / 256) as byte] else ToBytes(v)
  }

  function FromHostBytes(s: seq<byte>, littleEndian: bool): (v: nat)
    requires |s| == 2
    ensures v < LENGTH_MODULUS
  {
    if littleEndian then (s[1] as int) * 256 + s[0] as int else FromBytes(s)
  }

  /** `htons` and `ntohs`: the same swap on a little-endian host, nothing on a big-endian one. */
  function Swap(v: nat, littleEndian: bool): (r: nat)
    requires v < LENGTH_MODULUS
    ensures r < LENGTH_MODULUS
  {
    if littleEndian then v % 256 * 256 + v / 256 else v
  }

  /** On either kind of host, the swapped length lies in memory in network order, and reading it back from
      there and swapping again gives the length. */
  lemma NetworkOrder(v: nat, littleEndian: bool)
    requires v < LENGTH_MODULUS
    ensures HostBytes(Swap(v, littleEndian), littleEndian) == ToBytes(v)
    ensures Swap(FromHostBytes(ToBytes(v), littleEndian), littleEndian) == v
  {
  }

  /** What a writer puts on the wire; the length is truncated to 16 bits. */
  function Frame(data: seq<byte>): seq<byte> {
    ToBytes(|data| % LENGTH_MODULUS) + data
  }

  /** What a reader makes of the bytes that arrive: the payload, empty if it is missing or incomplete. */
  function Unframe(wire: seq<byte>): seq<byte> {
    if |wire| < 2 then []
    else
      var size := FromBytes(wire[..2]);
      if |wire| < 2 + size then [] else wire[2..2 + size]
  }

  /** One end of a connection. Bytes arrive and leave in portions; a call may fail at any time, after which
      every call fails. */
  class Socket {
    var incoming: seq<byte>
    var outgoing: seq<byte>
    var broken: bool

    method Read(n: nat) returns (result: int, bytes: seq<byte>)
      requires n > 0
      modifies this`incoming, this`broken
      ensures old(broken) ==> broken
      ensures result == if broken then -1 else |bytes|
      ensures !broken ==> |bytes| <= n && old(incoming) == bytes + incoming && (bytes == [] <==> old(incoming) == [])
    {
      result, bytes := *, [];
      if broken || result < 0 {
        broken := true;
        return -1, [];
      }
      if result == 0 || result > n || result > |incoming| {
        result := if |incoming| < n then |incoming| else n;
      }
      bytes, incoming := incoming[..result], incoming[result..];
    }

    method Write(data: seq<byte>) returns (result: int)
      requires data != []
      modifies this`outgoing, this`broken
      ensures old(broken) ==> broken
      ensures result == -1 || 1 <= result <= |data|
      ensures broken <==> result == -1
      ensures outgoing == old(outgoing) + if broken then [] else data[..result]
    {
      result := *;
      if broken || result < 1 || result > |data| {
        broken := true;
        return -1;
      }
      outgoing := outgoing + data[..result];
    }

    /** Writes all of `data`, or as much as goes out before the connection breaks. */
    method WriteAll(data: seq<byte>) returns (ok: bool)
      modifies this`outgoing, this`broken
      ensures ok == (!broken || data == [])
      ensures old(broken) ==> broken
      ensures exists k :: 0 <= k <= |data| && outgoing == old(outgoing) + data[..k] && (ok ==> k == |data|)
    {
      var written := 0;
      ghost var before := outgoing;
      assert data[..0] == [];
      while written < |data|
        invariant written <= |data| && outgoing == before + data[..written]
        invariant old(broken) ==> broken
        invariant written > 0 ==> !broken
      {
        var result := Write(data[written..]);
        if result <= 0 {
          return false;
        }
        assert data[..written] + data[written..][..result] == data[..written + result];
        written := written + result;
      }
      ok := true;
    }

    /** Fills a buffer of `n` bytes, or fails. */
    method ReadAll(n: nat) returns (ok: bool, buffer: seq<byte>)
      modifies this`incoming, this`broken
      ensures old(broken) ==> broken
      ensures !broken ==> ok == (n <= |old(incoming)|)
      ensures broken && n > 0 ==> !ok
      ensures ok ==> buffer == old(incoming)[..n] && incoming == old(incoming)[n..]
    {
      buffer := [];
      ghost var all := incoming;
      while |buffer| < n
        invariant |buffer| <= n && all == buffer + incoming
        invariant old(broken) ==> broken
        invariant buffer != [] ==> !broken
        decreases n - |buffer|
      {
        var result, bytes := Read(n - |buffer|);
        if result <= 0 {
          return false, buffer;
        }
        assert buffer + (bytes + incoming) == buffer + bytes + incoming;
        buffer := buffer + bytes;
      }
      ok := true;
    }

    /** `WritePacket`: exactly the frame goes out, or a beginning of it. */
    method WritePacket(data: seq<byte>, littleEndian: bool)
      modifies this`outgoing, this`broken
      ensures old(broken) ==> broken
      ensures !broken ==> outgoing == old(outgoing) + Frame(data)
      ensures exists k :: 0 <= k <= |Frame(data)| && outgoing == old(outgoing) + Frame(data)[..k]
    {
      var size := |data| % LENGTH_MODULUS;
      NetworkOrder(size, littleEndian);
      var prefix := HostBytes(Swap(size, littleEndian), littleEndian);
      ghost var before := outgoing;
      var ok := WriteAll(prefix);
      ghost var k :| 0 <= k <= 2 && outgoing == before + prefix[..k] && (ok ==> k == 2);
      assert prefix[..k] == Frame(data)[..k];
      if !ok {
        return;
      }
      ok := WriteAll(data);
      ghost var m :| 0 <= m <= |data| && outgoing == before + prefix[..k] + data[..m] && (ok ==> m == |data|);
      assert prefix[..k] + data[..m] == Frame(data)[..2 + m];
      assert before + prefix[..k] + data[..m] == before + Frame(data)[..2 + m];
      assert Frame(data)[..|Frame(data)|] == Frame(data);
    }

    /** `ReadPacket`: the payload of the frame that arrives, or nothing at all. */
    method ReadPacket(littleEndian: bool) returns (packet: seq<byte>)
      modifies this`incoming, this`broken
      ensures packet == Unframe(old(incoming)) || (packet == [] && broken)
      ensures !broken && packet != [] ==> old(incoming) == old(incoming)[..2] + packet + incoming
    {
      ghost var wire := incoming;
      var ok, lenBuffer := ReadAll(2);
      if !ok {
        return [];
      }
      NetworkOrder(FromBytes(lenBuffer), littleEndian);
      var size := Swap(FromHostBytes(lenBuffer, littleEndian), littleEndian);
      assert lenBuffer == wire[..2] && size == FromBytes(wire[..2]);
      if size == 0 {
        return [];
      }
      ok, packet := ReadAll(size);
      if !ok {
        return [];
      }
      assert wire[2..][..size] == wire[2..2 + size];
      assert wire == wire[..2] + wire[2..];
    }
  }

  // ----- Round trip -----

  /** Reading what was written gives the data back exactly when its length fits 16 bits, whatever follows. */
  lemma FrameRoundTrip(data: seq<byte>, following: seq<byte>)
    ensures Unframe(Frame(data) + following) == data <==> |data| < LENGTH_MODULUS
  {
  }

  /** A frame cut off anywhere is read as nothing: never a part of the payload. */
  lemma TruncatedFrameIsEmpty(data: seq<byte>, k: nat)
    requires |data| < LENGTH_MODULUS && k < |Frame(data)|
    ensures Unframe(Frame(data)[..k]) == []
  {
  }

  /** Through two sockets, with any partial transfers on both sides: the reader gets the whole payload, or
      nothing if either connection broke. */
  method Exchange(sender: Socket, receiver: Socket, data: seq<byte>, senderLittle: bool, receiverLittle: bool)
    returns (packet: seq<byte>)
    requires sender != receiver && sender.outgoing == [] && !receiver.broken && |data| < LENGTH_MODULUS
    modifies sender, receiver
    ensures packet == data || packet == []
    ensures !sender.broken && !receiver.broken ==> packet == data
  {
    sender.WritePacket(data, senderLittle);
    ghost var k :| 0 <= k <= |Frame(data)| && sender.outgoing == [] + Frame(data)[..k];
    receiver.incoming := sender.outgoing;
    if k < |Frame(data)| {
      TruncatedFrameIsEmpty(data, k);
    } else {
      assert Frame(data)[..k] == Frame(data) == Frame(data) + [];
      FrameRoundTrip(data, []);
    }
    packet := receiver.ReadPacket(receiverLittle);
  }
}
