/** The unlock states, the paired devices, and one server's reaction to a phone's response. */
module UnlockServer {
  import opened PacketCrypt

  datatype UnlockState =
    | UNKNOWN | SUCCESS | CANCELED | TIMEOUT | CONNECT_ERROR | TIME_ERROR
    | DATA_ERROR | NOT_PAIRED_ERROR | APP_ERROR | START_ERROR | UNK_ERROR

  datatype Device = Device(pairingId: string, userName: string, encryptionKey: string)

  /** The paired devices of one user, in storage order. */
  function DevicesForUser(devices: seq<Device>, user: string): seq<Device> {
    if devices == [] then []
    else (if devices[0].userName == user then [devices[0]] else []) + DevicesForUser(devices[1..], user)
  }

  lemma {:induction false} DevicesAreUsers(devices: seq<Device>, user: string)
    ensures forall d :: d in DevicesForUser(devices, user) <==> d in devices && d.userName == user
  {
    if devices != [] {
      DevicesAreUsers(devices[1..], user);
      assert devices == [devices[0]] + devices[1..];
    }
  }

  method GetDevicesForUser(devices: seq<Device>, user: string) returns (result: seq<Device>)
    ensures result == DevicesForUser(devices, user)
    ensures forall d :: d in result <==> d in devices && d.userName == user
  {
    result := [];
    for i := 0 to |devices|
      invariant DevicesForUser(devices, user) == result + DevicesForUser(devices[i..], user)
    {
      assert devices[i..][1..] == devices[i + 1..];
      if devices[i].userName == user {
        result := result + [devices[i]];
      }
    }
    DevicesAreUsers(devices, user);
  }

  datatype ResponseData = ResponseData(unlockToken: string, password: string)

  const NO_RESPONSE := ResponseData("", "")

  /** A response as received: its bytes, the verdict of decryption under the device's key, and the two
      fields of the decrypted JSON text if it has both. */
  datatype Packet = NoFields(bytes: string, crypt: PacketCryptResult)
                  | Fields(bytes: string, crypt: PacketCryptResult, fields: ResponseData)

  /** The state that a response leads to. */
  function StateAfter(token: string, p: Packet): UnlockState {
    if p.bytes == "" then DATA_ERROR
    else if p.crypt != OK then
      if p.bytes == "CANCEL" then CANCELED
      else if p.bytes == "NOT_PAIRED" then NOT_PAIRED_ERROR
      else if p.bytes == "ERROR" then APP_ERROR
      else if p.bytes == "TIME_ERROR" then TIME_ERROR
      else if p.crypt == INVALID_TIMESTAMP then TIME_ERROR
      else DATA_ERROR
    else if p.NoFields? then DATA_ERROR
    else if p.fields.unlockToken == token then SUCCESS
    else UNK_ERROR
  }

  /** Which state means what: the phone's four plain words (which count only when nothing was decrypted), a
      stale packet, a decrypted answer with the wrong token, and everything else. */
  lemma ResponseStates(token: string, p: Packet)
    ensures var word, state := p.crypt != OK, StateAfter(token, p);
            && (state == CANCELED <==> word && p.bytes == "CANCEL")
            && (state == NOT_PAIRED_ERROR <==> word && p.bytes == "NOT_PAIRED")
            && (state == APP_ERROR <==> word && p.bytes == "ERROR")
            && (state == TIME_ERROR <==>
                  word && (p.bytes == "TIME_ERROR" || (p.crypt == INVALID_TIMESTAMP && !IsWord(p.bytes))))
            && (state == SUCCESS <==> p.bytes != "" && p.crypt == OK && p.Fields? && p.fields.unlockToken == token)
            && (state == UNK_ERROR <==> p.bytes != "" && p.crypt == OK && p.Fields? && p.fields.unlockToken != token)
            && (state == DATA_ERROR <==>
                  p.bytes == "" || (p.crypt == OK && p.NoFields?) || (p.crypt == OTHER_ERROR && !IsWord(p.bytes)))
  {
  }

  /** Bytes that lead to a state by themselves, the empty ones included. */
  predicate IsWord(bytes: string) {
    bytes == "" || bytes == "CANCEL" || bytes == "NOT_PAIRED" || bytes == "ERROR" || bytes == "TIME_ERROR"
  }

  /** The response replaces the stored response data. */
  predicate StoresData(p: Packet) {
    p.bytes != "" && p.crypt == OK && p.Fields?
  }

  /** A decrypted response that carries the server's own token and this password. */
  predicate Proves(token: string, p: Packet, password: string) {
    p.crypt == OK && p.Fields? && p.fields == ResponseData(token, password)
  }

  class BaseUnlockServer {
    const device: Device
    const unlockToken: string
    var unlockState: UnlockState
    var responseData: ResponseData

    constructor (device: Device, unlockToken: string)
      ensures this.device == device && this.unlockToken == unlockToken
      ensures unlockState == UNKNOWN && responseData == NO_RESPONSE
    {
      this.device, this.unlockToken := device, unlockToken;
      unlockState, responseData := UNKNOWN, NO_RESPONSE;
    }

    method OnResponseReceived(p: Packet)
      modifies this
      ensures unlockState == StateAfter(unlockToken, p) != UNKNOWN
      ensures responseData == if StoresData(p) then p.fields else old(responseData)
      ensures unlockState == SUCCESS <==> p.bytes != "" && Proves(unlockToken, p, responseData.password)
    {
      if p.bytes == "" {
        unlockState := DATA_ERROR;
        return;
      }
      if p.crypt != OK {
        if p.bytes == "CANCEL" {
          unlockState := CANCELED;
        } else if p.bytes == "NOT_PAIRED" {
          unlockState := NOT_PAIRED_ERROR;
        } else if p.bytes == "ERROR" {
          unlockState := APP_ERROR;
        } else if p.bytes == "TIME_ERROR" {
          unlockState := TIME_ERROR;
        } else if p.crypt == INVALID_TIMESTAMP {
          unlockState := TIME_ERROR;
        } else {
          unlockState := DATA_ERROR;
        }
        return;
      }
      match p
      case NoFields(_, _) => unlockState := DATA_ERROR;
      case Fields(_, _, fields) =>
        responseData := fields;
        if fields.unlockToken == unlockToken {
          unlockState := SUCCESS;
        } else {
          unlockState := UNK_ERROR;
        }
    }
  }

  datatype UnlockResult = UnlockResult(state: UnlockState, device: Device, password: string)

  const NO_DEVICE := Device("", "", "")
  const NO_RESULT := UnlockResult(UNKNOWN, NO_DEVICE, "")

  /** The mutex-protected result cell; each operation is one atomic step. */
  class AtomicUnlockResult {
    var data: UnlockResult

    constructor ()
      ensures data == NO_RESULT
    {
      data := NO_RESULT;
    }

    method Load() returns (r: UnlockResult)
      ensures r == data
    {
      r := data;
    }

    method Store(r: UnlockResult)
      modifies this
      ensures data == r
    {
      data := r;
    }
  }
}
