/** The wire format between `cowrie/pool_interface/client.py` and `backend_pool/pool_server.py`. */
module PoolWire {
  import opened Options
  import opened Struct

  // The op codes 'i', 'r', 'f' and 'u'.
  const INIT: Byte := 105
  const WANT: Byte := 114
  const FREE: Byte := 102
  const REUSE: Byte := 117

  // Texts on the wire -----------------------------------------------------------------------------

  /** The UTF-8 bytes of a character (RFC 3629, section 3). */
  function CharBytes(c: char): (b: Bytes)
    ensures |b| >= 1 && (|b| == 1 <==> c < '\U{80}')
  {
    var n := c as int;
    if n < 0x80 then [n]
    else if n < 0x800 then [0xC0 + n / 64, 0x80 + n % 64]
    else if n < 0x1_0000 then [0xE0 + n / 4096, 0x80 + n / 64 % 64, 0x80 + n % 64]
    else [0xF0 + n / 262144, 0x80 + n / 4096 % 64, 0x80 + n / 64 % 64, 0x80 + n % 64]
  }

  /** `text.encode()`. */
  function Utf8(text: string): (b: Bytes)
    ensures |b| >= |text|
  {
    if |text| == 0 then [] else CharBytes(text[0]) + Utf8(text[1..])
  }

  /** What `struct.pack` puts in a field of as many bytes as the text has characters. */
  function Field(text: string): (b: Bytes)
    ensures |b| == |text|
  {
    Utf8(text)[..|text|]
  }

  predicate Ascii(text: string) {
    forall c | c in text :: c < '\U{80}'
  }

  /** Counting characters instead of bytes cuts off the end of a text, exactly if it is not ASCII. */
  lemma FieldWhole(text: string)
    ensures Field(text) == Utf8(text) <==> Ascii(text)
  {
    Utf8Length(text);
    assert |Utf8(text)| == |text| ==> Utf8(text)[..|text|] == Utf8(text);
  }

  lemma {:induction false} Utf8Length(text: string)
    ensures |Utf8(text)| == |text| <==> Ascii(text)
  {
    if |text| > 0 {
      Utf8Length(text[1..]);
      assert text[0] in text;
      assert forall c :: c in text <==> c == text[0] || c in text[1..];
    }
  }

  // Requests --------------------------------------------------------------------------------------

  /** What a client may ask for; T is a text on the side that sends, and bytes on the side that receives. */
  datatype Request<T> =
    | Init(maxVms: nat, timeout: nat, share: bool)
    | Want(ip: T)
    | Free(id: nat)
    | Reuse(id: nat)

  /** The request with its text as it is on the wire. */
  function OnWire(r: Request<string>): Request<Bytes> {
    match r
    case Init(maxVms, timeout, share) => Init(maxVms, timeout, share)
    case Want(ip) => Want(Field(ip))
    case Free(id) => Free(id)
    case Reuse(id) => Reuse(id)
  }

  /** None is struct.error: a number or a text does not fit. */
  function Encode(r: Request<string>): Option<Bytes> {
    match r
    case Init(maxVms, timeout, share) =>
      if maxVms < TWO_32 && timeout < TWO_32
      then Some([INIT] + Pack32(maxVms) + Pack32(timeout) + [if share then 1 else 0]) else None
    case Want(ip) => if |ip| < TWO_16 then Some([WANT] + Pack16(|ip|) + Field(ip)) else None
    case Free(id) => if id < TWO_32 then Some([FREE] + Pack32(id)) else None
    case Reuse(id) => if id < TWO_32 then Some([REUSE] + Pack32(id)) else None
  }

  /** `send_vm_free`: nothing is sent for a connection without a guest. */
  function SendVmFree(vmId: Option<nat>, dirty: bool): Option<Request<string>> {
    if vmId == None then None else Some(if dirty then Free(vmId.value) else Reuse(vmId.value))
  }

  datatype Decoded = Ok(request: Request<Bytes>) | Ignored | StructError | IndexError

  /** The front half of the server's `dataReceived`: fixed formats must fit the data exactly. */
  function ServerDecode(data: Bytes): Decoded {
    if |data| == 0 then IndexError
    else if data[0] == INIT then
      if |data| != 10 then StructError
      else Ok(Init(Unpack32(data[1..5]), Unpack32(data[5..9]), data[9] != 0))
    else if data[0] == WANT then
      if |data| < 3 || |data| - 3 != Unpack16(data[1..3]) then StructError
      else Ok(Want(data[3..]))
    else if data[0] == FREE || data[0] == REUSE then
      if |data| != 5 then StructError
      else
        var id := Unpack32(data[1..5]);
        Ok(if data[0] == FREE then Free(id) else Reuse(id))
    else Ignored
  }

  /** Every request that can be sent at all is understood as it was meant, with the whole of its text
      exactly if that is ASCII, as addresses are. */
  lemma RequestRoundTrip(r: Request<string>)
    requires Encode(r).Some?
    ensures ServerDecode(Encode(r).value) == Ok(OnWire(r))
    ensures r.Want? ==> (OnWire(r) == Want(Utf8(r.ip)) <==> Ascii(r.ip))
  {
    hide Utf8, Field, Ascii;
    var b := Encode(r).value;
    match r
    case Init(maxVms, timeout, share) =>
      Unpack32Pack(maxVms);
      Unpack32Pack(timeout);
      assert b[1..5] == Pack32(maxVms) && b[5..9] == Pack32(timeout);
    case Want(ip) =>
      Unpack16Pack(|ip|);
      FieldWhole(ip);
      assert b[1..3] == Pack16(|ip|) && b[3..] == Field(ip);
    case Free(id) =>
      Unpack32Pack(id);
      Cut([FREE], Pack32(id));
      assert b[1..5] == b[|[FREE]|..];
    case Reuse(id) =>
      Unpack32Pack(id);
      Cut([REUSE], Pack32(id));
      assert b[1..5] == b[|[REUSE]|..];
  }

  /** The server's answers. */
  datatype Reply = InitReply | NoGuest | Guest(id: nat, ip: string, sshPort: nat, telnetPort: nat, snapshot: string)

  function EncodeReply(r: Reply): Option<Bytes> {
    match r
    case InitReply => Some([INIT] + Pack32(0))
    case NoGuest => Some([WANT] + Pack32(1))
    case Guest(id, ip, ssh, telnet, snapshot) =>
      if id < TWO_32 && |ip| < TWO_16 && ssh < TWO_16 && telnet < TWO_16 && |snapshot| < TWO_16
      then Some([WANT] + Pack32(0) + Pack32(id) + Pack16(|ip|) + Field(ip) + Pack16(ssh)
                + Pack16(telnet) + Pack16(|snapshot|) + Field(snapshot))
      else None
  }

  /** What the client's `dataReceived` does with an answer. */
  datatype Event =
    | Initialised(code: nat)
    | ConnectionLost
    | PoolData(ip: Bytes, snapshot: Bytes, sshPort: nat, telnetPort: nat)
    | Nothing
    | Failure

  datatype Received = Received(vmId: Option<nat>, event: Event, rest: Bytes)

  /** The fields of a guest that follow the status code.  The guest id is remembered as soon as it has
      been read, even if what follows is cut off. */
  function DecodeGuest(d0: Bytes, vmId: Option<nat>): Received {
    if |d0| < 4 then Received(vmId, Failure, d0) else
    var id, d1 := Some(Unpack32(d0[..4])), d0[4..];
    if |d1| < 2 then Received(id, Failure, d1) else
    var ipLen, d2 := Unpack16(d1[..2]), d1[2..];
    if |d2| < ipLen then Received(id, Failure, d2) else
    var ip, d3 := d2[..ipLen], d2[ipLen..];
    if |d3| < 4 then Received(id, Failure, d3) else
    var ssh, telnet, d4 := Unpack16(d3[..2]), Unpack16(d3[2..4]), d3[4..];
    if |d4| < 2 then Received(id, Failure, d4) else
    var length, d5 := Unpack16(d4[..2]), d4[2..];
    if |d5| < length then Received(id, Failure, d5) else
    Received(id, PoolData(ip, d5[..length], ssh, telnet), d5[length..])
  }

  function ClientDecode(input: Bytes, vmId: Option<nat>): Received {
    if |input| < 5 then Received(vmId, Failure, input)
    else
      var code, data := Unpack32(input[1..5]), input[5..];
      if input[0] == INIT then Received(vmId, Initialised(code), data)
      else if input[0] != WANT then Received(vmId, Nothing, data)
      else if code != 0 then Received(vmId, ConnectionLost, data)
      else DecodeGuest(data, vmId)
  }

  class PoolClient {
    var vmId: Option<nat>

    constructor ()
      ensures vmId == None
    {
      vmId := None;
    }

    /** `rest` is what is left of the data in the end; Failure is struct.error. */
    method DataReceived(input: Bytes) returns (event: Event, rest: Bytes)
      modifies this
      ensures Received(vmId, event, rest) == ClientDecode(input, old(vmId))
    {
      if |input| < 5 {
        return Failure, input;
      }
      var op, code := input[0], Unpack32(input[1..5]);
      var data := input[5..];
      if op == INIT {
        return Initialised(code), data;
      } else if op != WANT {
        return Nothing, data;
      } else if code != 0 {
        return ConnectionLost, data;
      }
      event, rest := GuestReceived(data);
    }

    method GuestReceived(input: Bytes) returns (event: Event, rest: Bytes)
      modifies this
      ensures Received(vmId, event, rest) == DecodeGuest(input, old(vmId))
    {
      var data := input;
      if |data| < 4 { return Failure, data; }
      vmId := Some(Unpack32(data[..4]));
      data := data[4..];
      if |data| < 2 { return Failure, data; }
      var ipLen := Unpack16(data[..2]);
      data := data[2..];
      if |data| < ipLen { return Failure, data; }
      var ip := data[..ipLen];
      data := data[ipLen..];
      if |data| < 4 { return Failure, data; }
      var ssh, telnet := Unpack16(data[..2]), Unpack16(data[2..4]);
      data := data[4..];
      if |data| < 2 { return Failure, data; }
      var length := Unpack16(data[..2]);
      data := data[2..];
      if |data| < length { return Failure, data; }
      var snapshot := data[..length];
      data := data[length..];
      return PoolData(ip, snapshot, ssh, telnet), data;
    }
  }

  function GuestBody(r: Reply): Bytes
    requires r.Guest? && EncodeReply(r).Some?
  {
    Pack32(r.id) + (Pack16(|r.ip|) + (Field(r.ip) + (Pack16(r.sshPort) + Pack16(r.telnetPort)
    + (Pack16(|r.snapshot|) + Field(r.snapshot)))))
  }

  lemma Cut(a: Bytes, b: Bytes)
    ensures (a + b)[..|a|] == a && (a + b)[|a|..] == b
  {
  }

  lemma BodyRoundTrip(r: Reply, vmId: Option<nat>)
    requires r.Guest? && EncodeReply(r).Some?
    ensures DecodeGuest(GuestBody(r), vmId) ==
      Received(Some(r.id), PoolData(Field(r.ip), Field(r.snapshot), r.sshPort, r.telnetPort), [])
  {
    hide Field;
    var d5 := Field(r.snapshot);
    var d4 := Pack16(|r.snapshot|) + d5;
    var d3 := Pack16(r.sshPort) + Pack16(r.telnetPort) + d4;
    var d2 := Field(r.ip) + d3;
    var d1 := Pack16(|r.ip|) + d2;
    Cut(Pack32(r.id), d1);
    Cut(Pack16(|r.ip|), d2);
    Cut(Field(r.ip), d3);
    Cut(Pack16(r.sshPort) + Pack16(r.telnetPort), d4);
    Cut(Pack16(|r.snapshot|), d5);
    assert d3[..2] == Pack16(r.sshPort) && d3[2..4] == Pack16(r.telnetPort);
    assert d5[..|d5|] == d5;
    Unpack32Pack(r.id);
    Unpack16Pack(|r.ip|);
    Unpack16Pack(r.sshPort);
    Unpack16Pack(r.telnetPort);
    Unpack16Pack(|r.snapshot|);
  }

  /** Every answer that can be sent at all is understood as it was meant, and fully consumed; its texts
      are whole exactly if they are ASCII. */
  lemma ReplyRoundTrip(r: Reply, vmId: Option<nat>)
    requires EncodeReply(r).Some?
    ensures ClientDecode(EncodeReply(r).value, vmId) ==
      match r
      case InitReply => Received(vmId, Initialised(0), [])
      case NoGuest => Received(vmId, ConnectionLost, [])
      case Guest(id, ip, ssh, telnet, snapshot) =>
        Received(Some(id), PoolData(Field(ip), Field(snapshot), ssh, telnet), [])
    ensures r.Guest? ==> (Field(r.ip) == Utf8(r.ip) <==> Ascii(r.ip))
    ensures r.Guest? ==> (Field(r.snapshot) == Utf8(r.snapshot) <==> Ascii(r.snapshot))
  {
    hide DecodeGuest, Field, Utf8, Ascii;
    var input := EncodeReply(r).value;
    var code := if r == NoGuest then 1 else 0;
    Unpack32Pack(code);
    assert input[1..5] == Pack32(code);
    if r.Guest? {
      FieldWhole(r.ip);
      FieldWhole(r.snapshot);
      assert input[5..] == GuestBody(r);
      BodyRoundTrip(r, vmId);
    }
  }

  /** A request for a guest and its release speak of the same guest. */
  lemma ReleaseNamesTheGuest(r: Reply, vmId: Option<nat>, dirty: bool)
    requires r.Guest? && EncodeReply(r).Some?
    ensures var request := SendVmFree(ClientDecode(EncodeReply(r).value, vmId).vmId, dirty);
      && request.Some? && Encode(request.value).Some?
      && ServerDecode(Encode(request.value).value) == Ok(if dirty then Free(r.id) else Reuse(r.id))
  {
    hide ServerDecode, ClientDecode;
    ReplyRoundTrip(r, vmId);
    RequestRoundTrip(if dirty then Free(r.id) else Reuse(r.id));
  }

  // The bytes themselves --------------------------------------------------------------------------

  /** The code point that a UTF-8 sequence stands for (RFC 3629, section 3). */
  function CodePoint(b: Bytes): int
    requires 1 <= |b| <= 4
  {
    if |b| == 1 then b[0]
    else if |b| == 2 then (b[0] as int - 0xC0) * 64 + (b[1] as int - 0x80)
    else if |b| == 3 then (b[0] as int - 0xE0) * 4096 + (b[1] as int - 0x80) * 64 + (b[2] as int - 0x80)
    else (b[0] as int - 0xF0) * 262144 + (b[1] as int - 0x80) * 4096 + (b[2] as int - 0x80) * 64 + (b[3] as int - 0x80)
  }

  /** The bytes stand for the character, the first one tells how many there are, and all others are
      continuation bytes. */
  lemma CharBytesMeaning(c: char)
    ensures var b := CharBytes(c);
      && |b| <= 4 && CodePoint(b) == c as int
      && (if b[0] < 0x80 then |b| == 1 else if b[0] < 0xE0 then |b| == 2 && b[0] >= 0xC0
          else if b[0] < 0xF0 then |b| == 3 else |b| == 4 && b[0] < 0xF8)
      && forall i | 1 <= i < |b| :: 0x80 <= b[i] < 0xC0
  {
    SixBits(c as int);
  }

  lemma SixBits(n: nat)
    ensures n == 64 * (n / 64) + n % 64 && n / 64 == 64 * (n / 4096) + n / 64 % 64
    ensures n / 4096 == 64 * (n / 262144) + n / 4096 % 64
  {
  }

  /** An ASCII text goes over the wire as the codes of its characters. */
  lemma {:induction false} AsciiBytes(text: string)
    requires Ascii(text)
    ensures |Utf8(text)| == |text| && forall i | 0 <= i < |text| :: Utf8(text)[i] == text[i] as int
  {
    if |text| > 0 {
      assert text[0] in text && forall c | c in text[1..] :: c in text;
      AsciiBytes(text[1..]);
      var b := Utf8(text);
      assert b == CharBytes(text[0]) + Utf8(text[1..]);
      forall i | 0 <= i < |text| ensures b[i] == text[i] as int {
        if i > 0 {
          assert b[i] == Utf8(text[1..])[i - 1] && text[i] == text[1..][i - 1];
        }
      }
    }
  }

  /** The server takes nothing but these layouts: op code, and numbers in network order or a text of
      exactly the announced length. */
  lemma ServerTakes(data: Bytes)
    ensures match ServerDecode(data)
      case Ok(Init(maxVms, timeout, share)) =>
        |data| == 10 && data[..9] == [105] + Pack32(maxVms) + Pack32(timeout) && (share <==> data[9] != 0)
      case Ok(Want(ip)) => |ip| < TWO_16 && data == [114] + Pack16(|ip|) + ip
      case Ok(Free(id)) => data == [102] + Pack32(id)
      case Ok(Reuse(id)) => data == [117] + Pack32(id)
      case Ignored => |data| > 0 && data[0] != 105 && data[0] != 114 && data[0] != 102 && data[0] != 117
      case StructError => |data| > 0 && (data[0] == 105 || data[0] == 114 || data[0] == 102 || data[0] == 117)
      case IndexError => data == []
  {
    hide Pack32, Pack16, Unpack32, Unpack16;
    if |data| == 10 {
      Repack32(data[1..5]);
      Repack32(data[5..9]);
    }
    if |data| == 5 {
      Repack32(data[1..5]);
      assert data == [data[0]] + data[1..5];
    }
    if |data| >= 3 {
      Repack16(data[1..3]);
      assert data == [data[0]] + data[1..3] + data[3..];
    }
  }

  /** The client heeds two op codes, takes every status code but zero for a failure, and remembers the
      guest as soon as its id has arrived. */
  lemma ClientTakes(input: Bytes, vmId: Option<nat>)
    ensures var r := ClientDecode(input, vmId);
      && (|input| < 5 ==> r == Received(vmId, Failure, input))
      && (|input| >= 5 && input[0] == 105 ==> r == Received(vmId, Initialised(Unpack32(input[1..5])), input[5..]))
      && (|input| >= 5 && input[0] != 105 && input[0] != 114 ==> r == Received(vmId, Nothing, input[5..]))
      && (|input| >= 5 && input[0] == 114 && input[1..5] != [0, 0, 0, 0] ==>
            r == Received(vmId, ConnectionLost, input[5..]))
      && (|input| >= 5 && input[0] == 114 && input[1..5] == [0, 0, 0, 0] ==>
            r.vmId == if |input| < 9 then vmId else Some(Unpack32(input[5..9])))
  {
    hide DecodeGuest, Unpack32;
    if |input| >= 5 {
      Repack32(input[1..5]);
      DecodedId(input[5..], vmId);
      assert |input| >= 9 ==> input[5..][..4] == input[5..9];
      if Unpack32(input[1..5]) == 0 {
        assert Pack32(0) == [0, 0, 0, 0];
      } else {
        ZeroCode(input[1..5]);
      }
    }
  }

  lemma ZeroCode(b: Bytes)
    requires |b| == 4 && Unpack32(b) != 0
    ensures b != [0, 0, 0, 0]
  {
  }

  lemma DecodedId(d: Bytes, vmId: Option<nat>)
    ensures DecodeGuest(d, vmId).vmId == if |d| < 4 then vmId else Some(Unpack32(d[..4]))
  {
    hide Unpack32, Unpack16;
  }

  /** An answer that is cut short anywhere fails. */
  lemma CutShort(r: Reply, vmId: Option<nat>, n: nat)
    requires EncodeReply(r).Some? && n < |EncodeReply(r).value|
    ensures ClientDecode(EncodeReply(r).value[..n], vmId).event == Failure
  {
    hide DecodeGuest, Field, Unpack32, Pack32, GuestBody;
    if n >= 5 {
      AnswerIs(r);
      hide EncodeReply;
      var input, body := EncodeReply(r).value[..n], GuestBody(r)[..n - 5];
      assert input == [WANT] + Pack32(0) + body;
      assert input[1..5] == Pack32(0) && input[5..] == body && input[0] == WANT;
      Unpack32Pack(0);
      BodyCutShort(r, vmId, n - 5);
    }
  }

  lemma AnswerIs(r: Reply)
    requires EncodeReply(r).Some?
    ensures if r.Guest? then EncodeReply(r).value == [WANT] + Pack32(0) + GuestBody(r) else |EncodeReply(r).value| == 5
  {
    hide Field, Pack32, Pack16;
  }

  lemma BodyCutShort(r: Reply, vmId: Option<nat>, n: nat)
    requires r.Guest? && EncodeReply(r).Some? && n < |GuestBody(r)|
    ensures DecodeGuest(GuestBody(r)[..n], vmId).event == Failure
  {
    hide Field, Unpack32, Unpack16, Pack32, Pack16;
    var b, k := GuestBody(r), |r.ip|;
    var d := b[..n];
    assert b[4..6] == Pack16(k) && b[10 + k..12 + k] == Pack16(|r.snapshot|);
    Unpack16Pack(k);
    Unpack16Pack(|r.snapshot|);
    assert n >= 6 ==> d[4..][..2] == b[4..6];
    assert n >= 12 + k ==> d[4..][2..][k..][4..][..2] == b[10 + k..12 + k];
  }

  /** What can be sent: the numbers fit in 32 and 16 bits, and so do the lengths of the texts. */
  lemma Encodable(r: Request<string>, a: Reply)
    ensures Encode(r).Some? <==>
      match r
      case Init(maxVms, timeout, _) => maxVms <= 0xFFFF_FFFF && timeout <= 0xFFFF_FFFF
      case Want(ip) => |ip| <= 0xFFFF
      case Free(id) => id <= 0xFFFF_FFFF
      case Reuse(id) => id <= 0xFFFF_FFFF
    ensures EncodeReply(a).Some? <==> a.Guest? ==>
      && a.id <= 0xFFFF_FFFF && |a.ip| <= 0xFFFF && |a.snapshot| <= 0xFFFF
      && a.sshPort <= 0xFFFF && a.telnetPort <= 0xFFFF
  {
  }

  lemma Repack32(b: Bytes)
    requires |b| == 4
    ensures Pack32(Unpack32(b)) == b
  {
    var n := Unpack32(b);
    var q := b[0] as int * 0x1_0000 + b[1] as int * 256 + b[2];
    assert n == 256 * q + b[3] && n / 256 == q;
    var r := b[0] as int * 256 + b[1];
    assert q == 256 * r + b[2] && q / 256 == r && n / 0x1_0000 == r && n / 0x100_0000 == r / 256;
  }

  lemma Repack16(b: Bytes)
    requires |b| == 2
    ensures Pack16(Unpack16(b)) == b
  {
  }

  /** A guest as it is sent, byte by byte: op code 'r', status 0, id 258, the address with its length, the
      two ports, and the snapshot with its length. */
  lemma ReplyExample()
    ensures EncodeReply(Guest(258, "10", 22, 23, "s")) ==
      Some([114, 0, 0, 0, 0, 0, 0, 1, 2, 0, 2, 49, 48, 0, 22, 0, 23, 0, 1, 115])
    ensures EncodeReply(NoGuest) == Some([114, 0, 0, 0, 1]) && EncodeReply(InitReply) == Some([105, 0, 0, 0, 0])
  {
    assert [WANT] + Pack32(1) == [114, 0, 0, 0, 1] && [INIT] + Pack32(0) == [105, 0, 0, 0, 0];
    AsciiBytes("10");
    AsciiBytes("s");
    assert Utf8("10") == [49, 48] && Utf8("s") == [115];
    assert Field("10") == [49, 48] && Field("s") == [115];
    assert [WANT] + Pack32(0) + Pack32(258) + Pack16(2) == [114, 0, 0, 0, 0, 0, 0, 1, 2, 0, 2];
    assert Pack16(22) + Pack16(23) + Pack16(1) == [0, 22, 0, 23, 0, 1];
    var head: Bytes := [WANT] + Pack32(0) + Pack32(258) + Pack16(2);
    assert head + [49, 48] + Pack16(22) + Pack16(23) + Pack16(1) + [115]
        == [114, 0, 0, 0, 0, 0, 0, 1, 2, 0, 2, 49, 48, 0, 22, 0, 23, 0, 1, 115];
  }
}
