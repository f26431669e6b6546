/** The logon blob handed to the Windows authentication packages: three strings behind a header, packed with
    offsets in place of pointers, and unpacked in place. Memory is one array and an address is an index. */
module KerbPack {
  import opened Prelude

  type UShort = x: nat | x < 0x1_0000

  datatype Platform = X86 | X64
  {
    /** The size of the header structure. */
    function HeaderSize(): nat {
      if X86? then 36 else 64
    }

    function PointerSize(): nat {
      if X86? then 4 else 8
    }

    function Aligned(n: nat): nat {
      (n + PointerSize() - 1) / PointerSize() * PointerSize()
    }

    /** Address arithmetic wraps at this value. */
    function AddressModulus(): nat {
      if X86? then 0x1_0000_0000 else 0x1_0000_0000_0000_0000
    }
  }

  /** The header is the message type, three strings, each of them two lengths and a pointer, and the logon
      identifier, with pointers aligned to their size. */
  lemma HeaderIsLaidOut(p: Platform)
    ensures p.HeaderSize() == p.Aligned(4) + 3 * (p.Aligned(2 + 2) + p.PointerSize()) + 8
  {
  }

  datatype HResult = S_OK | E_INVALIDARG | E_FAIL | E_OUTOFMEMORY | ARITHMETIC_OVERFLOW

  datatype Scenario = CPUS_LOGON | CPUS_UNLOCK_WORKSTATION | CPUS_CREDUI | CPUS_OTHER

  const KERB_INTERACTIVE_LOGON := 2
  const KERB_WORKSTATION_UNLOCK_LOGON := 7

  /** Lengths in bytes, and the address (or the offset) of the characters. */
  datatype UnicodeString = UnicodeString(length: UShort, maximumLength: UShort, buffer: nat)

  datatype Names = Names(logonDomainName: UnicodeString, userName: UnicodeString, password: UnicodeString)

  /** The header structure. */
  class UnlockLogon {
    var messageType: nat
    var logonDomainName: UnicodeString
    var userName: UnicodeString
    var password: UnicodeString
    var logonId: nat

    constructor ()
      ensures fresh(this)
    {
      messageType := 0;
      var none := UnicodeString(0, 0, 0);
      logonDomainName, userName, password := none, none, none;
      logonId := 0;
    }

    function Strings(): Names
      reads this
    {
      Names(logonDomainName, userName, password)
    }
  }

  /** The bytes a string refers to. */
  function View(mem: seq<byte>, u: UnicodeString): (r: seq<byte>)
    requires u.buffer + u.length <= |mem|
    ensures |r| == u.length
  {
    mem[u.buffer..u.buffer + u.length]
  }

  // ----- Referring to a zero-terminated string -----

  predicate IsNul(mem: seq<byte>, at: nat)
    requires at + 2 <= |mem|
  {
    mem[at] == 0 && mem[at + 1] == 0
  }

  /** There are `n` units at `at`, none of them zero, before a zero unit. */
  ghost predicate IsText(mem: seq<byte>, at: nat, n: nat) {
    && at + 2 * n + 2 <= |mem| && IsNul(mem, at + 2 * n)
    && forall k: nat :: k < n ==> !IsNul(mem, at + 2 * k)
  }

  method WideLength(mem: array<byte>, at: nat, ghost n: nat) returns (len: nat)
    requires IsText(mem[..], at, n)
    ensures len == n
  {
    len := 0;
    while mem[at + 2 * len] != 0 || mem[at + 2 * len + 1] != 0
      invariant len <= n
      decreases n - len
    {
      assert !IsNul(mem[..], at + 2 * len);
      len := len + 1;
    }
    assert IsNul(mem[..], at + 2 * len);
  }

  /** Refers to the string at `pwz` (0 when there is none), whose length is `n`: this works exactly for up
      to 32767 units, as the length in bytes has 16 bits. */
  method UnicodeStringInitWithString(mem: array<byte>, pwz: nat, ghost n: nat) returns (hr: HResult, u: UnicodeString)
    requires pwz != 0 ==> IsText(mem[..], pwz, n)
    ensures hr == if pwz == 0 then E_INVALIDARG else if n <= 32767 then S_OK else ARITHMETIC_OVERFLOW
    ensures hr == S_OK ==> u == UnicodeString(2 * n, 2 * n, pwz)
  {
    u := UnicodeString(0, 0, 0);
    if pwz == 0 {
      return E_INVALIDARG, u;
    }
    var lenString := WideLength(mem, pwz, n);
    if lenString > 0xFFFF {
      return ARITHMETIC_OVERFLOW, u;
    }
    if lenString * 2 > 0xFFFF {
      return ARITHMETIC_OVERFLOW, u;
    }
    return S_OK, UnicodeString(lenString * 2, lenString * 2, pwz);
  }

  function MessageType(cpus: Scenario): nat {
    if cpus == CPUS_UNLOCK_WORKSTATION then KERB_WORKSTATION_UNLOCK_LOGON
    else if cpus == CPUS_LOGON then KERB_INTERACTIVE_LOGON
    else 0
  }

  /** Whether a string can be referred to: there is one, of at most 32767 units. */
  predicate Fits(pwz: nat, n: nat) {
    pwz != 0 && n <= 32767
  }

  /** The reference to `n` units at `pwz`. */
  function Reference(pwz: nat, n: nat): UnicodeString
    requires Fits(pwz, n)
  {
    UnicodeString(2 * n, 2 * n, pwz)
  }

  /** All three strings must fit and the scenario must be known; otherwise the output is left alone. */
  method KerbInteractiveUnlockLogonInit(mem: array<byte>, domain: nat, user: nat, password: nat, cpus: Scenario,
    kiul: UnlockLogon, ghost d: nat, ghost u: nat, ghost p: nat) returns (hr: HResult)
    requires domain != 0 ==> IsText(mem[..], domain, d)
    requires user != 0 ==> IsText(mem[..], user, u)
    requires password != 0 ==> IsText(mem[..], password, p)
    modifies kiul
    ensures hr == S_OK <==> Fits(domain, d) && Fits(user, u) && Fits(password, p) && cpus != CPUS_OTHER
    ensures hr == S_OK ==>
      && (cpus == CPUS_LOGON ==> kiul.messageType == KERB_INTERACTIVE_LOGON)
      && (cpus == CPUS_UNLOCK_WORKSTATION ==> kiul.messageType == KERB_WORKSTATION_UNLOCK_LOGON)
      && (cpus == CPUS_CREDUI ==> kiul.messageType == 0)
    ensures hr == S_OK ==>
      && kiul.messageType == MessageType(cpus) && kiul.logonId == 0
      && kiul.Strings() == Names(Reference(domain, d), Reference(user, u), Reference(password, p))
    ensures hr != S_OK ==> unchanged(kiul)
  {
    var s1, s2, s3;
    hr, s1 := UnicodeStringInitWithString(mem, domain, d);
    if hr != S_OK {
      return;
    }
    hr, s2 := UnicodeStringInitWithString(mem, user, u);
    if hr != S_OK {
      return;
    }
    hr, s3 := UnicodeStringInitWithString(mem, password, p);
    if hr != S_OK {
      return;
    }
    if cpus == CPUS_OTHER {
      return E_FAIL;
    }
    kiul.messageType := MessageType(cpus);
    kiul.logonDomainName, kiul.userName, kiul.password := s1, s2, s3;
    kiul.logonId := 0;
  }

  // ----- Packing -----

  function BlobSize(p: Platform, n: Names): nat {
    p.HeaderSize() + n.logonDomainName.length + n.userName.length + n.password.length
  }

  /** The strings of the packed blob: one after the other behind the header, by offset. */
  function Packed(p: Platform, n: Names): Names {
    var at1 := p.HeaderSize();
    var at2 := at1 + n.logonDomainName.length;
    var at3 := at2 + n.userName.length;
    Names(UnicodeString(n.logonDomainName.length, n.logonDomainName.length, at1),
          UnicodeString(n.userName.length, n.userName.length, at2),
          UnicodeString(n.password.length, n.password.length, at3))
  }

  /** The strings of a packed blob, by address. */
  function PackedAt(p: Platform, n: Names, base: nat): Names {
    var q := Packed(p, n);
    Names(q.logonDomainName.(buffer := base + q.logonDomainName.buffer),
          q.userName.(buffer := base + q.userName.buffer),
          q.password.(buffer := base + q.password.buffer))
  }

  predicate In(x: nat, u: UnicodeString) {
    u.buffer <= x < u.buffer + u.length
  }

  predicate Disjoint(u: UnicodeString, v: UnicodeString) {
    u.buffer + u.length <= v.buffer || v.buffer + v.length <= u.buffer
  }

  /** The strings tile the space between the header and the end of the blob: every offset there, and no
      other one, is in a string, and no two strings share one. */
  lemma RegionsTile(p: Platform, n: Names)
    ensures var q := Packed(p, n);
            && (forall x: nat :: p.HeaderSize() <= x < BlobSize(p, n)
                  <==> In(x, q.logonDomainName) || In(x, q.userName) || In(x, q.password))
            && Disjoint(q.logonDomainName, q.userName) && Disjoint(q.userName, q.password)
            && Disjoint(q.logonDomainName, q.password)
  {
  }

  /** A string that can be read, and does not lie in the blob. */
  predicate Elsewhere(u: UnicodeString, base: nat, cb: nat, size: nat) {
    && u.buffer + u.length <= size
    && (u.buffer + u.length <= base || base + cb <= u.buffer)
  }

  predicate AllElsewhere(n: Names, base: nat, cb: nat, size: nat) {
    Elsewhere(n.logonDomainName, base, cb, size) && Elsewhere(n.userName, base, cb, size)
    && Elsewhere(n.password, base, cb, size)
  }

  /** The memory with `text` written at `at`. */
  function Written(mem: seq<byte>, at: nat, text: seq<byte>): (r: seq<byte>)
    requires at + |text| <= |mem|
    ensures |r| == |mem|
  {
    mem[..at] + text + mem[at + |text|..]
  }

  lemma WrittenInTurn(mem: seq<byte>, at: nat, s: seq<byte>, t: seq<byte>)
    requires at + |s| + |t| <= |mem|
    ensures Written(Written(mem, at, s), at + |s|, t) == Written(mem, at, s + t)
  {
  }

  lemma ViewElsewhere(mem: seq<byte>, at: nat, text: seq<byte>, u: UnicodeString)
    requires at + |text| <= |mem| && Elsewhere(u, at, |text|, |mem|)
    ensures View(Written(mem, at, text), u) == View(mem, u)
  {
  }

  /** A string that can be copied to `at` without overlap. */
  predicate Copyable(u: UnicodeString, at: nat, size: nat) {
    at + u.length <= size && Elsewhere(u, at, u.length, size)
  }

  /** The memory with a copy of the string at `at`. */
  function Copied(mem: seq<byte>, u: UnicodeString, at: nat): (r: seq<byte>)
    requires Copyable(u, at, |mem|)
    ensures |r| == |mem|
  {
    Written(mem, at, View(mem, u))
  }

  method UnicodeStringPackedCopy(mem: array<byte>, from: UnicodeString, at: nat) returns (u: UnicodeString)
    requires Copyable(from, at, mem.Length)
    modifies mem
    ensures u == UnicodeString(from.length, from.length, at)
    ensures mem[..] == Copied(old(mem[..]), from, at)
  {
    u := UnicodeString(from.length, from.length, at);
    forall i | 0 <= i < from.length {
      mem[at + i] := mem[from.buffer + i];
    }
  }

  /** The characters of the three strings, one after the other. */
  function Texts(mem: seq<byte>, n: Names): (r: seq<byte>)
    requires AllElsewhere(n, 0, 0, |mem|)
    ensures |r| == n.logonDomainName.length + n.userName.length + n.password.length
  {
    View(mem, n.logonDomainName) + View(mem, n.userName) + View(mem, n.password)
  }

  /** The memory with the three strings copied behind the header of the blob at `base`. */
  function PackedMemory(mem: seq<byte>, p: Platform, n: Names, base: nat): (r: seq<byte>)
    requires base + BlobSize(p, n) <= |mem| && AllElsewhere(n, base, BlobSize(p, n), |mem|)
  {
    Written(mem, base + p.HeaderSize(), Texts(mem, n))
  }

  /** Copying three strings in turn, each from the memory that the copies before have left, is writing their
      texts at once. */
  lemma CopiesAreOne(mem: seq<byte>, u1: UnicodeString, u2: UnicodeString, u3: UnicodeString, at: nat)
    requires Copyable(u1, at, |mem|) && Copyable(u2, at + u1.length, |mem|)
    requires Copyable(u3, at + u1.length + u2.length, |mem|)
    requires Elsewhere(u2, at, u1.length, |mem|) && Elsewhere(u3, at, u1.length + u2.length, |mem|)
    ensures Copied(Copied(Copied(mem, u1, at), u2, at + u1.length), u3, at + u1.length + u2.length)
         == Written(mem, at, View(mem, u1) + View(mem, u2) + View(mem, u3))
  {
    CopyIsWritten(mem, u1, at);
    RoomRemains(u1, u2, u3, at, |mem|);
    var s1, s2 := View(mem, u1), View(mem, u2);
    hide View, Written, Elsewhere, Copied, Copyable;
    CopyAppends(mem, at, s1, u2);
    CopyAppends(mem, at, s1 + s2, u3);
  }

  lemma CopyIsWritten(mem: seq<byte>, u: UnicodeString, at: nat)
    requires Copyable(u, at, |mem|)
    ensures u.buffer + u.length <= |mem| && at + u.length <= |mem|
            && Copied(mem, u, at) == Written(mem, at, View(mem, u))
  {
  }

  lemma RoomRemains(u1: UnicodeString, u2: UnicodeString, u3: UnicodeString, at: nat, size: nat)
    requires Copyable(u1, at, size) && Copyable(u2, at + u1.length, size)
    requires Copyable(u3, at + u1.length + u2.length, size)
    ensures u1.buffer + u1.length <= size && u2.buffer + u2.length <= size && u3.buffer + u3.length <= size
    ensures at + u1.length + u2.length + u3.length <= size
  {
  }

  /** A copy behind what was written already. */
  lemma CopyAppends(mem: seq<byte>, at: nat, text: seq<byte>, u: UnicodeString)
    requires at + |text| + u.length <= |mem| && Elsewhere(u, at, |text|, |mem|) && Copyable(u, at + |text|, |mem|)
    ensures Copied(Written(mem, at, text), u, at + |text|) == Written(mem, at, text + View(mem, u))
  {
    ViewElsewhere(mem, at, text, u);
    WrittenInTurn(mem, at, text, View(mem, u));
    hide View, Written, Elsewhere;
  }

  lemma RoomForCopies(u1: UnicodeString, u2: UnicodeString, u3: UnicodeString, at: nat, size: nat)
    requires at + u1.length + u2.length + u3.length <= size
    requires AllElsewhere(Names(u1, u2, u3), at, u1.length + u2.length + u3.length, size)
    ensures Copyable(u1, at, size) && Copyable(u2, at + u1.length, size)
            && Copyable(u3, at + u1.length + u2.length, size)
    ensures Elsewhere(u2, at, u1.length, size) && Elsewhere(u3, at, u1.length + u2.length, size)
  {
  }

  /** Copies the three strings, advancing over what was copied. */
  method CopyStrings(mem: array<byte>, u1: UnicodeString, u2: UnicodeString, u3: UnicodeString, start: nat)
    returns (v1: UnicodeString, v2: UnicodeString, v3: UnicodeString)
    requires Copyable(u1, start, mem.Length) && Copyable(u2, start + u1.length, mem.Length)
    requires Copyable(u3, start + u1.length + u2.length, mem.Length)
    modifies mem
    ensures v1 == UnicodeString(u1.length, u1.length, start)
    ensures v2 == UnicodeString(u2.length, u2.length, start + u1.length)
    ensures v3 == UnicodeString(u3.length, u3.length, start + u1.length + u2.length)
    ensures mem[..] == Copied(Copied(Copied(old(mem[..]), u1, start), u2, start + u1.length),
                              u3, start + u1.length + u2.length)
  {
    hide Copied, Copyable;
    var at := start;
    v1 := UnicodeStringPackedCopy(mem, u1, at);
    at := at + v1.length;
    v2 := UnicodeStringPackedCopy(mem, u2, at);
    at := at + v2.length;
    v3 := UnicodeStringPackedCopy(mem, u3, at);
  }

  lemma BlobIsRoom(mem: seq<byte>, p: Platform, n: Names, base: nat)
    requires base + BlobSize(p, n) <= |mem| && AllElsewhere(n, base, BlobSize(p, n), |mem|)
    ensures AllElsewhere(n, base + p.HeaderSize(), BlobSize(p, n) - p.HeaderSize(), |mem|)
    ensures AllElsewhere(n, 0, 0, |mem|) && base + p.HeaderSize() + |Texts(mem, n)| <= |mem|
    ensures PackedMemory(mem, p, n, base) == Written(mem, base + p.HeaderSize(), Texts(mem, n))
  {
  }

  /** Packs into the blob that was allocated at `base`, 0 when there was no memory. */
  method KerbInteractiveUnlockLogonPack(mem: array<byte>, p: Platform, input: UnlockLogon, base: nat)
    returns (hr: HResult, blob: UnlockLogon, cb: nat)
    requires base != 0 ==> base + BlobSize(p, input.Strings()) <= mem.Length
                           && AllElsewhere(input.Strings(), base, BlobSize(p, input.Strings()), mem.Length)
    modifies mem
    ensures hr == if base == 0 then E_OUTOFMEMORY else S_OK
    ensures fresh(blob)
    ensures hr == S_OK ==>
      && cb == BlobSize(p, input.Strings())
      && blob.messageType == input.messageType && blob.logonId == 0
      && blob.Strings() == Packed(p, input.Strings())
      && mem[..] == PackedMemory(old(mem[..]), p, input.Strings(), base)
    ensures hr != S_OK ==> mem[..] == old(mem[..])
  {
    hide Platform.HeaderSize, Elsewhere, Written;
    ghost var n := input.Strings();
    cb := p.HeaderSize() + input.logonDomainName.length + input.userName.length + input.password.length;
    blob := new UnlockLogon();
    if base == 0 {
      return E_OUTOFMEMORY, blob, 0;
    }
    BlobIsRoom(mem[..], p, n, base);
    RoomForCopies(n.logonDomainName, n.userName, n.password, base + p.HeaderSize(), mem.Length);
    CopiesAreOne(mem[..], n.logonDomainName, n.userName, n.password, base + p.HeaderSize());
    hide AllElsewhere, PackedMemory, Copied, Copyable;
    blob.logonId := 0;
    blob.messageType := input.messageType;
    var s1, s2, s3 := CopyStrings(mem, input.logonDomainName, input.userName, input.password, base + p.HeaderSize());
    blob.logonDomainName := s1.(buffer := s1.buffer - base);
    blob.userName := s2.(buffer := s2.buffer - base);
    blob.password := s3.(buffer := s3.buffer - base);
    hr := S_OK;
  }

  // ----- Unpacking -----

  function EndsAt(p: Platform, u: UnicodeString): nat {
    (u.buffer + u.maximumLength) % p.AddressModulus()
  }

  /** The check by which unpacking decides that the buffers are offsets. */
  predicate LooksPacked(p: Platform, n: Names, cb: nat) {
    && p.HeaderSize() <= cb
    && EndsAt(p, n.logonDomainName) <= cb && EndsAt(p, n.userName) <= cb && EndsAt(p, n.password) <= cb
  }

  function Rebased(p: Platform, u: UnicodeString, base: nat): UnicodeString {
    u.(buffer := if u.buffer != 0 then (base + u.buffer) % p.AddressModulus() else 0)
  }

  function Unpacked(p: Platform, n: Names, base: nat, cb: nat): Names {
    if LooksPacked(p, n, cb) then
      Names(Rebased(p, n.logonDomainName, base), Rebased(p, n.userName, base), Rebased(p, n.password, base))
    else n
  }

  /** `v` is `u`, moved by `base` unless it refers to nothing. */
  ghost predicate Moved(p: Platform, u: UnicodeString, v: UnicodeString, base: nat) {
    && v.length == u.length && v.maximumLength == u.maximumLength
    && (u.buffer == 0 ==> v.buffer == 0)
    && (u.buffer != 0 ==> WrapsTo(base + u.buffer, v.buffer, p.AddressModulus()))
  }

  /** `y` is the address that `x` is, after so many rounds of the address space. */
  ghost predicate WrapsTo(x: nat, y: nat, modulus: nat) {
    y < modulus && exists k: nat :: y == Less(x, k, modulus)
  }

  /** `x` without `k` rounds of the address space. */
  function Less(x: nat, k: nat, modulus: nat): int {
    x - k * modulus
  }

  /** The header must fit, and every string must end within the blob, as the wrapped sum has it; then all three
      are moved, and otherwise none is. */
  lemma UnpackedIs(p: Platform, n: Names, base: nat, cb: nat)
    ensures var u := Unpacked(p, n, base, cb);
            var ends := [n.logonDomainName, n.userName, n.password];
            if p.HeaderSize() <= cb && forall i :: 0 <= i < 3 ==> EndsAt(p, ends[i]) <= cb then
              && Moved(p, n.logonDomainName, u.logonDomainName, base) && Moved(p, n.userName, u.userName, base)
              && Moved(p, n.password, u.password, base)
            else u == n
  {
    var ends := [n.logonDomainName, n.userName, n.password];
    assert ends[0] == n.logonDomainName && ends[1] == n.userName && ends[2] == n.password;
    RebasedMoves(p, n.logonDomainName, base);
    RebasedMoves(p, n.userName, base);
    RebasedMoves(p, n.password, base);
    hide Rebased, Moved, EndsAt;
  }

  lemma RebasedMoves(p: Platform, u: UnicodeString, base: nat)
    ensures Moved(p, u, Rebased(p, u, base), base)
  {
    var x, m := base + u.buffer, p.AddressModulus();
    assert x % m == Less(x, x / m, m);
  }

  method KerbInteractiveUnlockLogonUnpackInPlace(p: Platform, kiul: UnlockLogon, base: nat, cb: nat)
    modifies kiul
    ensures kiul.Strings() == Unpacked(p, old(kiul.Strings()), base, cb)
    ensures kiul.messageType == old(kiul.messageType) && kiul.logonId == old(kiul.logonId)
  {
    if p.HeaderSize() <= cb {
      if && (kiul.logonDomainName.buffer + kiul.logonDomainName.maximumLength) % p.AddressModulus() <= cb
         && (kiul.userName.buffer + kiul.userName.maximumLength) % p.AddressModulus() <= cb
         && (kiul.password.buffer + kiul.password.maximumLength) % p.AddressModulus() <= cb
      {
        kiul.logonDomainName := Rebased(p, kiul.logonDomainName, base);
        kiul.userName := Rebased(p, kiul.userName, base);
        kiul.password := Rebased(p, kiul.password, base);
      }
    }
  }

  /** One string of a blob that lies below the end of the address space. */
  lemma StringIsRebased(p: Platform, u: UnicodeString, base: nat, cb: nat)
    requires 0 < u.buffer && u.buffer + u.maximumLength <= cb && base + cb < p.AddressModulus()
    ensures EndsAt(p, u) <= cb && Rebased(p, u, base) == u.(buffer := base + u.buffer)
  {
    NoWrap(u.buffer + u.maximumLength, p.AddressModulus());
    NoWrap(base + u.buffer, p.AddressModulus());
  }

  lemma NoWrap(x: nat, m: nat)
    requires x < m
    ensures x % m == x
  {
  }

  /** The check accepts every packed blob, and unpacking then makes every string refer to its place. */
  lemma PackedIsAccepted(p: Platform, n: Names, base: nat)
    requires base + BlobSize(p, n) < p.AddressModulus()
    ensures LooksPacked(p, Packed(p, n), BlobSize(p, n))
    ensures Unpacked(p, Packed(p, n), base, BlobSize(p, n)) == PackedAt(p, n, base)
  {
    var q, cb := Packed(p, n), BlobSize(p, n);
    StringIsRebased(p, q.logonDomainName, base, cb);
    StringIsRebased(p, q.userName, base, cb);
    StringIsRebased(p, q.password, base, cb);
    hide Platform.AddressModulus, EndsAt, Rebased;
  }

  /** The strings of a blob are three given texts. */
  predicate Holds(mem: seq<byte>, n: Names, s1: seq<byte>, s2: seq<byte>, s3: seq<byte>) {
    && AllElsewhere(n, 0, 0, |mem|)
    && View(mem, n.logonDomainName) == s1 && View(mem, n.userName) == s2 && View(mem, n.password) == s3
  }

  /** Round trip: the strings of the unpacked blob are those that were packed. */
  lemma UnpackInvertsPack(mem: seq<byte>, p: Platform, n: Names, base: nat)
    requires base + BlobSize(p, n) <= |mem| < p.AddressModulus()
    requires AllElsewhere(n, base, BlobSize(p, n), |mem|)
    ensures Holds(PackedMemory(mem, p, n, base), Unpacked(p, Packed(p, n), base, BlobSize(p, n)),
                  View(mem, n.logonDomainName), View(mem, n.userName), View(mem, n.password))
  {
    PackedIsAccepted(p, n, base);
    BlobIsRoom(mem, p, n, base);
    hide Unpacked, PackedMemory, AllElsewhere, Holds, Platform.AddressModulus, Platform.HeaderSize;
    TextsAreRead(mem, n, base + p.HeaderSize(), PackedAt(p, n, base));
  }

  lemma TextsAreRead(mem: seq<byte>, n: Names, at: nat, q: Names)
    requires AllElsewhere(n, 0, 0, |mem|) && at + |Texts(mem, n)| <= |mem|
    requires q.logonDomainName.length == n.logonDomainName.length && q.logonDomainName.buffer == at
    requires q.userName.length == n.userName.length && q.userName.buffer == at + n.logonDomainName.length
    requires q.password.length == n.password.length
          && q.password.buffer == at + n.logonDomainName.length + n.userName.length
    ensures Holds(Written(mem, at, Texts(mem, n)), q,
                  View(mem, n.logonDomainName), View(mem, n.userName), View(mem, n.password))
  {
    WrittenIsRead(mem, at, View(mem, n.logonDomainName), View(mem, n.userName), View(mem, n.password));
    hide Written;
  }

  lemma WrittenIsRead(mem: seq<byte>, at: nat, s1: seq<byte>, s2: seq<byte>, s3: seq<byte>)
    requires at + |s1| + |s2| + |s3| <= |mem|
    ensures var after := Written(mem, at, s1 + s2 + s3);
            && after[at..at + |s1|] == s1
            && after[at + |s1|..at + |s1| + |s2|] == s2
            && after[at + |s1| + |s2|..at + |s1| + |s2| + |s3|] == s3
  {
  }

  /** A blob that was unpacked no longer passes for a packed one: unpacking it again changes nothing. */
  lemma UnpackedOnce(p: Platform, n: Names, base: nat)
    requires 0 < base && base + BlobSize(p, n) < p.AddressModulus()
    ensures var u := Unpacked(p, Packed(p, n), base, BlobSize(p, n));
            !LooksPacked(p, u, BlobSize(p, n)) && Unpacked(p, u, base, BlobSize(p, n)) == u
  {
    PackedIsAccepted(p, n, base);
  }

  /** The whole way: three zero-terminated strings are referred to, packed at `base` and unpacked there. It
      works exactly when the strings fit and the scenario is known, and then the blob's strings are theirs. */
  method Transport(mem: array<byte>, p: Platform, domain: nat, user: nat, password: nat, cpus: Scenario, base: nat,
    ghost d: nat, ghost u: nat, ghost w: nat) returns (hr: HResult, blob: UnlockLogon)
    requires mem.Length < p.AddressModulus() && base != 0
    requires domain != 0 ==> IsText(mem[..], domain, d)
    requires user != 0 ==> IsText(mem[..], user, u)
    requires password != 0 ==> IsText(mem[..], password, w)
    requires Fits(domain, d) && Fits(user, u) && Fits(password, w) ==>
      var n := Names(Reference(domain, d), Reference(user, u), Reference(password, w));
      base + BlobSize(p, n) <= mem.Length && AllElsewhere(n, base, BlobSize(p, n), mem.Length)
    modifies mem
    ensures hr == S_OK <==> Fits(domain, d) && Fits(user, u) && Fits(password, w) && cpus != CPUS_OTHER
    ensures hr == S_OK ==>
      && blob.messageType == MessageType(cpus)
      && Holds(mem[..], blob.Strings(), View(old(mem[..]), Reference(domain, d)),
               View(old(mem[..]), Reference(user, u)), View(old(mem[..]), Reference(password, w)))
  {
    hide IsText, View, MessageType, Fits, Platform.HeaderSize, Platform.AddressModulus;
    var kiul := new UnlockLogon();
    blob := kiul;
    hr := KerbInteractiveUnlockLogonInit(mem, domain, user, password, cpus, kiul, d, u, w);
    if hr != S_OK {
      return;
    }
    UnpackInvertsPack(mem[..], p, kiul.Strings(), base);
    hide Holds, Unpacked, PackedMemory, Packed, BlobSize, AllElsewhere;
    var cb;
    hr, blob, cb := KerbInteractiveUnlockLogonPack(mem, p, kiul, base);
    KerbInteractiveUnlockLogonUnpackInPlace(p, blob, base, cb);
  }
}
