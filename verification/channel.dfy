/** The authenticated command channel (`AutoOTAController`): the key check, the
    challenge/response exchange of `send_command`, the two-byte status decode and the
    rendering of info attributes.

    The wireless transport is an abstract `Device`: every attribute read or write the
    controller performs is an `Op`, and the device's reply to an op may depend on all the
    ops issued before it. Each operation returns the ops it issued, so that ordering and
    "no I/O before validation" are properties of the returned trace. AES-CMAC and SHA-256
    are parameters: arbitrary functions with fixed output widths. */
module Channel {
  import opened Results
  import opened Bytes
  import opened Commands

  /** A 16-byte value: an AES-128 key, or a CMAC tag. */
  type Block = s: bytes | |s| == 16 witness Zeros(16)

  /** A 32-byte SHA-256 digest. */
  type Digest = s: bytes | |s| == 32 witness Zeros(32)

  /** The cryptographic primitives, as arbitrary functions supplied by the caller. */
  datatype Primitives = Primitives(cmac: (Block, bytes) -> Block, sha256: bytes -> Digest)

  // ---------------------------------------------------------------------------
  // Attribute catalog
  // ---------------------------------------------------------------------------

  datatype Attr =
    | SystemId | ModelNumber | SerialNumber | FirmwareRevision
    | HardwareRevision | SoftwareRevision | ManufacturerName
    | OtaMain | OtaBuffer | OtaChallenge | OtaToken
    | OtaFlashBank | OtaFlashBankReadable | OtaFlashMode | OtaFlashModeReadable
    | OtaBootReason | OtaBootReasonReadable

  /** The `is_human_readable` flag of each descriptor: such values are decoded as text,
      all others rendered as hex. */
  predicate HumanReadable(a: Attr) {
    match a
    case ModelNumber | SerialNumber | FirmwareRevision | HardwareRevision
       | SoftwareRevision | ManufacturerName => true
    case OtaFlashBankReadable | OtaFlashModeReadable | OtaBootReasonReadable => true
    case _ => false
  }

  /** The Device Information catalog, in the order `read_device_info` walks it. */
  const DeviceInfoAttrs: seq<Attr> :=
    [SystemId, ModelNumber, SerialNumber, FirmwareRevision, HardwareRevision,
     SoftwareRevision, ManufacturerName]

  /** The OTA EEPROM attributes `read_ota_eeprom_info` reads, in its order. */
  const OtaEepromAttrs: seq<Attr> :=
    [OtaFlashBank, OtaFlashMode, OtaBootReason,
     OtaFlashBankReadable, OtaFlashModeReadable, OtaBootReasonReadable]

  // ---------------------------------------------------------------------------
  // Transport
  // ---------------------------------------------------------------------------

  /** One transport operation. `response` is the `response=` argument of the write:
      None lets the transport choose, Some(false) asks for write-without-response. */
  datatype Op =
    | ReadOp(attr: Attr)
    | WriteOp(attr: Attr, data: bytes, response: Option<bool>)
    | DisconnectOp

  /** The transport's own exception (`BleakError`) versus any other exception raised
      while reaching or using an attribute (lookup failures, runtime errors). */
  datatype Fault = BleakFault | OtherFault

  datatype Reply = Done(data: bytes) | Raised(fault: Fault)

  /** The connected peer. `writeResponse` is the session's no-response setting. */
  datatype Device = Device(writeResponse: Option<bool>, respond: (seq<Op>, Op) -> Reply)

  predicate IsWriteTo(op: Op, a: Attr) {
    op.WriteOp? && op.attr == a
  }

  /** The device's reply to the i-th op of `ops`, issued after `past`. */
  function ReplyAt(dev: Device, past: seq<Op>, ops: seq<Op>, i: int): Reply
    requires 0 <= i < |ops|
  {
    dev.respond(past + ops[..i], ops[i])
  }

  // ---------------------------------------------------------------------------
  // Controller
  // ---------------------------------------------------------------------------

  /** The `aes_key` argument of the controller: None, a bytes value, or something else. */
  datatype KeyArg = NoKey | KeyBytes(b: bytes) | KeyNotBytes

  datatype KeyError = KeyTypeError | KeyLengthError

  datatype Controller = Controller(key: Option<Block>)

  /** `AutoOTAController.__init__`: a missing key is accepted (with a warning); a key
      that is not bytes, or not 16 bytes long, is refused. */
  function MakeController(k: KeyArg): (r: Result<Controller, KeyError>)
    ensures k.NoKey? ==> r == Ok(Controller(None))
    ensures k.KeyNotBytes? ==> r == Err(KeyTypeError)
    ensures k.KeyBytes? ==> (r.Ok? <==> |k.b| == 16)
    ensures k.KeyBytes? && |k.b| != 16 ==> r == Err(KeyLengthError)
    ensures r.Ok? && k.KeyBytes? ==> r.value.key == Some(k.b)
  {
    match k
    case NoKey => Ok(Controller(None))
    case KeyNotBytes => Err(KeyTypeError)
    case KeyBytes(b) => if |b| != 16 then Err(KeyLengthError) else Ok(Controller(Some(b)))
  }

  // ---------------------------------------------------------------------------
  // Authenticated exchange
  // ---------------------------------------------------------------------------

  /** The MAC of the payload, or 16 zero bytes standing in for it when there is none. */
  function PayloadMac(cmac: (Block, bytes) -> Block, key: Block, payload: bytes): (m: Block)
    ensures |payload| == 0 ==> m == Zeros(16)
    ensures |payload| > 0 ==> m == cmac(key, payload)
  {
    if |payload| > 0 then cmac(key, payload) else Zeros(16)
  }

  /** token = CMAC(command bytes) ‖ CMAC(payload) or zeros ‖ challenge. */
  function Token(cmac: (Block, bytes) -> Block, key: Block, wire: bytes, payload: bytes,
                 challenge: bytes): (t: bytes)
    ensures |t| == 32 + |challenge|
    ensures t[..16] == cmac(key, wire)
    ensures t[16..32] == PayloadMac(cmac, key, payload)
    ensures t[32..] == challenge
  {
    cmac(key, wire) + PayloadMac(cmac, key, payload) + challenge
  }

  /** The value written to the token attribute: the CMAC, under the session key, of the
      token, a message that opens with the MAC of the command bytes and ends with the
      challenge itself. */
  function Signature(cmac: (Block, bytes) -> Block, key: Block, wire: bytes, payload: bytes,
                     challenge: bytes): (s: Block)
    ensures var m := Token(cmac, key, wire, payload, challenge);
      && s == cmac(key, m)
      && |m| == 32 + |challenge| && m[..16] == cmac(key, wire) && m[32..] == challenge
  {
    cmac(key, Token(cmac, key, wire, payload, challenge))
  }

  /** Why `send_command` raised. */
  datatype SendError =
    | NoKeySet                       // RuntimeError: AES key is not set
    | Invalid(reason: ValidationError)
    | PackError                      // struct.error from cmd_to_bytes
    | NoChallenge                    // RuntimeError: empty challenge
    | Transport(fault: Fault)

  datatype Exchange = Exchange(ops: seq<Op>, result: Result<Command, SendError>)

  /** The buffer write that precedes the challenge, present iff there is a payload. */
  function Preamble(cmd: Command, dev: Device): (pre: seq<Op>)
    ensures |pre| <= 1
    ensures pre != [] <==> |Payload(cmd)| > 0
    ensures pre != [] ==> pre[0] == WriteOp(OtaBuffer, Payload(cmd), dev.writeResponse)
  {
    if |Payload(cmd)| > 0 then [WriteOp(OtaBuffer, Payload(cmd), dev.writeResponse)] else []
  }

  /** The device's answer to the challenge read, which directly follows the preamble. */
  function ChallengeReply(dev: Device, past: seq<Op>, cmd: Command): Reply {
    dev.respond(past + Preamble(cmd, dev), ReadOp(OtaChallenge))
  }

  /** The nonce the device issued, or nothing when the challenge read raised. */
  function Challenge(dev: Device, past: seq<Op>, cmd: Command): bytes {
    var r := ChallengeReply(dev, past, cmd);
    if r.Done? then r.data else []
  }

  /** The token write: the signature over `challenge`, sent with the session's write mode. */
  function TokenWrite(key: Block, prim: Primitives, dev: Device, cmd: Command, wire: bytes,
                      challenge: bytes): Op
  {
    WriteOp(OtaToken, Signature(prim.cmac, key, wire, Payload(cmd), challenge), dev.writeResponse)
  }

  /** Every op of an exchange that runs to its end, in order: the optional buffer write,
      the challenge read, the token write, the main write, and for a command that needs a
      result the buffer read. */
  function Protocol(key: Block, prim: Primitives, dev: Device, past: seq<Op>,
                    cmd: Command, wire: bytes): seq<Op>
  {
    Preamble(cmd, dev)
      + [ReadOp(OtaChallenge), TokenWrite(key, prim, dev, cmd, wire, Challenge(dev, past, cmd)),
         WriteOp(OtaMain, wire, None)]
      + (if NeedResult(cmd) then [ReadOp(OtaBuffer)] else [])
  }

  /** The authenticated part of `send_command`, after validation and encoding. A raised
      reply ends it with that fault, and an empty challenge ends it at the challenge read. */
  function Authenticate(key: Block, prim: Primitives, dev: Device, past: seq<Op>,
                        cmd: Command, wire: bytes): (x: Exchange)
    ensures 0 < |x.ops| <= 5
    ensures x.result.Err? ==> x.result.error.Transport? || x.result.error.NoChallenge?
    ensures x.result == Err(NoChallenge) ==> ChallengeReply(dev, past, cmd) == Done([])
    ensures x.result.Ok? ==> |Challenge(dev, past, cmd)| > 0
    ensures x.result.Ok? && !NeedResult(cmd) ==> x.result.value == cmd
    ensures x.result.Ok? && NeedResult(cmd) ==>
              && dev.respond(past + x.ops[..|x.ops| - 1], ReadOp(OtaBuffer)).Done?
              && x.result.value == SetResult(cmd, dev.respond(past + x.ops[..|x.ops| - 1], ReadOp(OtaBuffer)).data)
  {
    var pre := Preamble(cmd, dev);
    var r0 := if pre == [] then Done([]) else dev.respond(past, pre[0]);
    if r0.Raised? then Exchange(pre, Err(Transport(r0.fault)))
    else
      var ops1 := pre + [ReadOp(OtaChallenge)];
      var ch := dev.respond(past + pre, ReadOp(OtaChallenge));
      if ch.Raised? then Exchange(ops1, Err(Transport(ch.fault)))
      else if |ch.data| == 0 then Exchange(ops1, Err(NoChallenge))
      else
        var tokenOp := TokenWrite(key, prim, dev, cmd, wire, ch.data);
        var ops2 := ops1 + [tokenOp];
        var r2 := dev.respond(past + ops1, tokenOp);
        if r2.Raised? then Exchange(ops2, Err(Transport(r2.fault)))
        else
          var mainOp := WriteOp(OtaMain, wire, None);
          var ops3 := ops2 + [mainOp];
          var r3 := dev.respond(past + ops2, mainOp);
          if r3.Raised? then Exchange(ops3, Err(Transport(r3.fault)))
          else if !NeedResult(cmd) then Exchange(ops3, Ok(cmd))
          else
            var ops4 := ops3 + [ReadOp(OtaBuffer)];
            assert ops4[..|ops4| - 1] == ops3;
            var r4 := dev.respond(past + ops3, ReadOp(OtaBuffer));
            if r4.Raised? then Exchange(ops4, Err(Transport(r4.fault)))
            else Exchange(ops4, Ok(SetResult(cmd, r4.data)))
  }

  /** Every token write follows a read of the challenge that the device answered with a
      non-empty nonce, and carries the signature over that very nonce. */
  predicate TokenBoundToChallenge(prim: Primitives, key: Block, dev: Device, past: seq<Op>,
                                  ops: seq<Op>, wire: bytes, payload: bytes)
  {
    forall i :: 0 <= i < |ops| && IsWriteTo(ops[i], OtaToken) ==>
      && 1 <= i
      && ops[i - 1] == ReadOp(OtaChallenge)
      && ReplyAt(dev, past, ops, i - 1).Done?
      && |ReplyAt(dev, past, ops, i - 1).data| > 0
      && ops[i].data == Signature(prim.cmac, key, wire, payload, ReplyAt(dev, past, ops, i - 1).data)
  }

  /** Every write to the main attribute carries the command bytes, is issued with the
      transport's default (acknowledged) write, and directly follows the token write. */
  predicate MainAfterToken(ops: seq<Op>, wire: bytes) {
    forall i :: 0 <= i < |ops| && IsWriteTo(ops[i], OtaMain) ==>
      && 1 <= i
      && IsWriteTo(ops[i - 1], OtaToken)
      && ops[i].data == wire
      && ops[i].response == None
  }

  /** A read of the buffer happens only for a command that needs a result, directly
      after the main write. */
  predicate ResultReadAfterMain(cmd: Command, ops: seq<Op>) {
    forall i :: 0 <= i < |ops| && ops[i] == ReadOp(OtaBuffer) ==>
      NeedResult(cmd) && 1 <= i && IsWriteTo(ops[i - 1], OtaMain)
  }

  /** The trace is non-empty and short, and only its first op may write the buffer: it
      does exactly when the command has a payload, and writes that payload. */
  predicate BufferFirst(cmd: Command, dev: Device, ops: seq<Op>) {
    && ops != [] && |ops| <= 5
    && (|Payload(cmd)| > 0 ==> ops[0] == WriteOp(OtaBuffer, Payload(cmd), dev.writeResponse))
    && (|Payload(cmd)| == 0 ==> !IsWriteTo(ops[0], OtaBuffer))
    && (forall i :: 1 <= i < |ops| ==> !IsWriteTo(ops[i], OtaBuffer))
  }

  /** Each failure ends the exchange: every op but the last was answered, a raised reply
      to the last op is exactly the `Transport` error, and a challenge read answered with
      nothing is the last op and gives `NoChallenge`. */
  predicate StopsAtFailure(dev: Device, past: seq<Op>, x: Exchange)
    requires x.ops != []
  {
    var n := |x.ops|;
    var last := ReplyAt(dev, past, x.ops, n - 1);
    && (forall i :: 0 <= i < n - 1 ==> ReplyAt(dev, past, x.ops, i).Done?)
    && (last.Raised? <==> x.result.Err? && x.result.error.Transport?)
    && (last.Raised? ==> x.result == Err(Transport(last.fault)))
    && (forall i :: 0 <= i < n && x.ops[i] == ReadOp(OtaChallenge) && ReplyAt(dev, past, x.ops, i) == Done([]) ==>
          i == n - 1 && x.result == Err(NoChallenge))
    && (x.result == Err(NoChallenge) ==> x.ops[n - 1] == ReadOp(OtaChallenge) && last == Done([]))
  }

  /** The exchange fails only with a transport fault or a missing challenge; it succeeds
      exactly when it issued the whole protocol and the last op was answered; a Read's
      result is the reply to the final buffer read. */
  predicate OutcomeMatches(dev: Device, past: seq<Op>, cmd: Command, x: Exchange, full: seq<Op>)
    requires x.ops != []
  {
    var n := |x.ops|;
    var last := ReplyAt(dev, past, x.ops, n - 1);
    && (x.result.Err? ==> x.result.error.Transport? || x.result.error.NoChallenge?)
    && (x.result.Ok? <==> n == |full| && last.Done?)
    && (x.result.Ok? && !NeedResult(cmd) ==> x.result.value == cmd)
    && (x.result.Ok? && NeedResult(cmd) ==>
          && x.ops[n - 1] == ReadOp(OtaBuffer)
          && last.Done?
          && x.result.value == SetResult(cmd, last.data))
  }

  /** What every authenticated exchange guarantees about the ops it issued: they are a
      prefix of the protocol, laid out as the predicates above say, and the exchange stops
      at its first failure with the matching error. */
  predicate WellOrdered(key: Block, prim: Primitives, dev: Device, past: seq<Op>,
                        cmd: Command, wire: bytes, x: Exchange)
  {
    var full := Protocol(key, prim, dev, past, cmd, wire);
    && 0 < |x.ops| <= |full| && x.ops == full[..|x.ops|]
    && BufferFirst(cmd, dev, x.ops)
    && TokenBoundToChallenge(prim, key, dev, past, x.ops, wire, Payload(cmd))
    && MainAfterToken(x.ops, wire)
    && ResultReadAfterMain(cmd, x.ops)
    && StopsAtFailure(dev, past, x)
    && OutcomeMatches(dev, past, cmd, x, full)
  }

  lemma AuthenticateWellOrdered(key: Block, prim: Primitives, dev: Device, past: seq<Op>,
                                cmd: Command, wire: bytes)
    ensures WellOrdered(key, prim, dev, past, cmd, wire, Authenticate(key, prim, dev, past, cmd, wire))
  {
    var pre := Preamble(cmd, dev);
    var ch := ChallengeReply(dev, past, cmd);
    if pre != [] && dev.respond(past, pre[0]).Raised? {
      StopAtBuffer(key, prim, dev, past, cmd, wire);
    } else if ch.Raised? || |ch.data| == 0 {
      StopAtChallenge(key, prim, dev, past, cmd, wire);
    } else {
      PastChallenge(key, prim, dev, past, cmd, wire);
    }
  }

  /** The buffer write raised. */
  lemma StopAtBuffer(key: Block, prim: Primitives, dev: Device, past: seq<Op>,
                     cmd: Command, wire: bytes)
    requires Preamble(cmd, dev) != [] && dev.respond(past, Preamble(cmd, dev)[0]).Raised?
    ensures WellOrdered(key, prim, dev, past, cmd, wire, Authenticate(key, prim, dev, past, cmd, wire))
  {
    var x := Authenticate(key, prim, dev, past, cmd, wire);
    var pre := Preamble(cmd, dev);
    ProtocolPrefixes(key, prim, dev, past, cmd, wire);
    assert past + [] == past;
    assert [] + [pre[0]] == pre;
    Exit(key, prim, dev, past, cmd, wire, x, [], pre[0]);
  }

  /** The buffer write, if any, was answered. */
  lemma PreambleAcked(dev: Device, past: seq<Op>, cmd: Command)
    requires Preamble(cmd, dev) == [] || dev.respond(past, Preamble(cmd, dev)[0]).Done?
    ensures Acked(dev, past, Preamble(cmd, dev))
  {
    var pre := Preamble(cmd, dev);
    if pre != [] {
      assert past + [] == past;
      AckedSnoc(dev, past, [], pre[0]);
      assert [] + [pre[0]] == pre;
    }
  }

  /** The challenge read raised or came back empty. */
  lemma StopAtChallenge(key: Block, prim: Primitives, dev: Device, past: seq<Op>,
                        cmd: Command, wire: bytes)
    requires Preamble(cmd, dev) == [] || dev.respond(past, Preamble(cmd, dev)[0]).Done?
    requires ChallengeReply(dev, past, cmd).Raised? || |ChallengeReply(dev, past, cmd).data| == 0
    ensures WellOrdered(key, prim, dev, past, cmd, wire, Authenticate(key, prim, dev, past, cmd, wire))
  {
    var x := Authenticate(key, prim, dev, past, cmd, wire);
    ProtocolPrefixes(key, prim, dev, past, cmd, wire);
    PreambleAcked(dev, past, cmd);
    Exit(key, prim, dev, past, cmd, wire, x, Preamble(cmd, dev), ReadOp(OtaChallenge));
  }

  /** The device issued a nonce: the exchange ends at the token write, the main write or
      the result read. */
  lemma PastChallenge(key: Block, prim: Primitives, dev: Device, past: seq<Op>,
                      cmd: Command, wire: bytes)
    requires Preamble(cmd, dev) == [] || dev.respond(past, Preamble(cmd, dev)[0]).Done?
    requires ChallengeReply(dev, past, cmd).Done? && |ChallengeReply(dev, past, cmd).data| > 0
    ensures WellOrdered(key, prim, dev, past, cmd, wire, Authenticate(key, prim, dev, past, cmd, wire))
  {
    var x := Authenticate(key, prim, dev, past, cmd, wire);
    var pre := Preamble(cmd, dev);
    var ch := ChallengeReply(dev, past, cmd);
    ProtocolPrefixes(key, prim, dev, past, cmd, wire);
    PreambleAcked(dev, past, cmd);
    AckedSnoc(dev, past, pre, ReadOp(OtaChallenge));
    var ops1 := pre + [ReadOp(OtaChallenge)];
    var tokenOp := TokenWrite(key, prim, dev, cmd, wire, ch.data);
    if dev.respond(past + ops1, tokenOp).Raised? {
      Exit(key, prim, dev, past, cmd, wire, x, ops1, tokenOp);
      return;
    }
    AckedSnoc(dev, past, ops1, tokenOp);
    var ops2 := ops1 + [tokenOp];
    var mainOp := WriteOp(OtaMain, wire, None);
    if dev.respond(past + ops2, mainOp).Raised? || !NeedResult(cmd) {
      Exit(key, prim, dev, past, cmd, wire, x, ops2, mainOp);
      return;
    }
    AckedSnoc(dev, past, ops2, mainOp);
    Exit(key, prim, dev, past, cmd, wire, x, ops2 + [mainOp], ReadOp(OtaBuffer));
  }

  /** The protocol's first ops, one stage at a time. */
  lemma ProtocolPrefixes(key: Block, prim: Primitives, dev: Device, past: seq<Op>,
                         cmd: Command, wire: bytes)
    ensures var full := Protocol(key, prim, dev, past, cmd, wire);
      var pre := Preamble(cmd, dev);
      var k := |pre|;
      var ops1 := pre + [ReadOp(OtaChallenge)];
      var ops2 := ops1 + [TokenWrite(key, prim, dev, cmd, wire, Challenge(dev, past, cmd))];
      var ops3 := ops2 + [WriteOp(OtaMain, wire, None)];
      && |full| == k + 3 + (if NeedResult(cmd) then 1 else 0)
      && full[..k] == pre && full[..k + 1] == ops1 && full[..k + 2] == ops2 && full[..k + 3] == ops3
      && (NeedResult(cmd) ==> full == ops3 + [ReadOp(OtaBuffer)])
  {
  }

  /** Every op of `ops` was answered. */
  predicate Acked(dev: Device, past: seq<Op>, ops: seq<Op>) {
    forall i :: 0 <= i < |ops| ==> ReplyAt(dev, past, ops, i).Done?
  }

  /** Appending an op leaves the earlier replies as they were; the new op's reply is the
      device's answer after all of `ops`. */
  lemma ReplyAtSnoc(dev: Device, past: seq<Op>, ops: seq<Op>, op: Op)
    ensures forall i :: 0 <= i < |ops| ==> ReplyAt(dev, past, ops + [op], i) == ReplyAt(dev, past, ops, i)
    ensures ReplyAt(dev, past, ops + [op], |ops|) == dev.respond(past + ops, op)
  {
    forall i | 0 <= i < |ops|
      ensures ReplyAt(dev, past, ops + [op], i) == ReplyAt(dev, past, ops, i)
    {
      assert (ops + [op])[..i] == ops[..i];
    }
    assert (ops + [op])[..|ops|] == ops;
  }

  lemma AckedSnoc(dev: Device, past: seq<Op>, ops: seq<Op>, op: Op)
    requires Acked(dev, past, ops) && dev.respond(past + ops, op).Done?
    ensures Acked(dev, past, ops + [op])
  {
    ReplyAtSnoc(dev, past, ops, op);
  }

  /** How an exchange that issued `before + [last]` ended, given the reply to `last`. */
  predicate EndedAt(key: Block, prim: Primitives, dev: Device, past: seq<Op>,
                    cmd: Command, wire: bytes, x: Exchange, before: seq<Op>, last: Op)
  {
    var full := Protocol(key, prim, dev, past, cmd, wire);
    var k := |Preamble(cmd, dev)|;
    var r := dev.respond(past + before, last);
    && x.ops == before + [last]
    && |before| < |full| && x.ops == full[..|before| + 1]
    && Acked(dev, past, before)
    && (|before| > k ==> ChallengeReply(dev, past, cmd).Done? && |ChallengeReply(dev, past, cmd).data| > 0)
    && (r.Raised? ==> x.result == Err(Transport(r.fault)))
    && (r.Done? && |before| == k && r.data == [] ==> x.result == Err(NoChallenge))
    && (r.Done? && !(|before| == k && r.data == []) ==>
          && |before| + 1 == |full|
          && x.result == Ok(if NeedResult(cmd) then SetResult(cmd, r.data) else cmd))
  }

  /** The exchange ended after `before + [last]`. */
  lemma Exit(key: Block, prim: Primitives, dev: Device, past: seq<Op>,
             cmd: Command, wire: bytes, x: Exchange, before: seq<Op>, last: Op)
    requires EndedAt(key, prim, dev, past, cmd, wire, x, before, last)
    ensures WellOrdered(key, prim, dev, past, cmd, wire, x)
  {
    ReplyAtSnoc(dev, past, before, last);
    PrefixLayout(key, prim, dev, past, cmd, wire, x.ops);
    ExitBound(key, prim, dev, past, cmd, wire, x, before, last);
    ExitStops(key, prim, dev, past, cmd, wire, x, before, last);
    ExitOutcome(key, prim, dev, past, cmd, wire, x, before, last);
  }

  /** What each position of the protocol holds. */
  lemma ProtocolAt(key: Block, prim: Primitives, dev: Device, past: seq<Op>,
                   cmd: Command, wire: bytes, i: int)
    requires 0 <= i < |Protocol(key, prim, dev, past, cmd, wire)|
    ensures var full := Protocol(key, prim, dev, past, cmd, wire);
      var k := |Preamble(cmd, dev)|;
      && (i < k ==> i == 0 && full[i] == WriteOp(OtaBuffer, Payload(cmd), dev.writeResponse))
      && (i == k ==> full[i] == ReadOp(OtaChallenge))
      && (i == k + 1 ==> full[i] == TokenWrite(key, prim, dev, cmd, wire, Challenge(dev, past, cmd)))
      && (i == k + 2 ==> full[i] == WriteOp(OtaMain, wire, None))
      && (i >= k + 3 ==> i == k + 3 && NeedResult(cmd) && full[i] == ReadOp(OtaBuffer))
  {
  }

  /** The layout facts hold of every non-empty prefix of the protocol. */
  lemma PrefixLayout(key: Block, prim: Primitives, dev: Device, past: seq<Op>,
                     cmd: Command, wire: bytes, ops: seq<Op>)
    requires 0 < |ops| <= |Protocol(key, prim, dev, past, cmd, wire)|
    requires ops == Protocol(key, prim, dev, past, cmd, wire)[..|ops|]
    ensures BufferFirst(cmd, dev, ops)
    ensures MainAfterToken(ops, wire)
    ensures ResultReadAfterMain(cmd, ops)
  {
    PrefixBuffer(key, prim, dev, past, cmd, wire, ops);
    PrefixMain(key, prim, dev, past, cmd, wire, ops);
    PrefixResultRead(key, prim, dev, past, cmd, wire, ops);
  }

  lemma PrefixBuffer(key: Block, prim: Primitives, dev: Device, past: seq<Op>,
                     cmd: Command, wire: bytes, ops: seq<Op>)
    requires 0 < |ops| <= |Protocol(key, prim, dev, past, cmd, wire)|
    requires ops == Protocol(key, prim, dev, past, cmd, wire)[..|ops|]
    ensures BufferFirst(cmd, dev, ops)
  {
    var full := Protocol(key, prim, dev, past, cmd, wire);
    ProtocolPrefixes(key, prim, dev, past, cmd, wire);
    forall i | 0 <= i < |ops|
      ensures i >= 1 ==> !IsWriteTo(ops[i], OtaBuffer)
      ensures i == 0 ==> (|Payload(cmd)| > 0 <==> IsWriteTo(ops[i], OtaBuffer))
      ensures i == 0 && |Payload(cmd)| > 0 ==> ops[i] == WriteOp(OtaBuffer, Payload(cmd), dev.writeResponse)
    {
      assert ops[i] == full[i];
      ProtocolAt(key, prim, dev, past, cmd, wire, i);
    }
  }

  lemma PrefixMain(key: Block, prim: Primitives, dev: Device, past: seq<Op>,
                   cmd: Command, wire: bytes, ops: seq<Op>)
    requires 0 < |ops| <= |Protocol(key, prim, dev, past, cmd, wire)|
    requires ops == Protocol(key, prim, dev, past, cmd, wire)[..|ops|]
    ensures MainAfterToken(ops, wire)
  {
    var full := Protocol(key, prim, dev, past, cmd, wire);
    forall i | 0 <= i < |ops| && IsWriteTo(ops[i], OtaMain)
      ensures 1 <= i && IsWriteTo(ops[i - 1], OtaToken) && ops[i].data == wire && ops[i].response == None
    {
      assert ops[i] == full[i];
      ProtocolAt(key, prim, dev, past, cmd, wire, i);
      assert ops[i - 1] == full[i - 1];
      ProtocolAt(key, prim, dev, past, cmd, wire, i - 1);
    }
  }

  lemma PrefixResultRead(key: Block, prim: Primitives, dev: Device, past: seq<Op>,
                         cmd: Command, wire: bytes, ops: seq<Op>)
    requires 0 < |ops| <= |Protocol(key, prim, dev, past, cmd, wire)|
    requires ops == Protocol(key, prim, dev, past, cmd, wire)[..|ops|]
    ensures ResultReadAfterMain(cmd, ops)
  {
    var full := Protocol(key, prim, dev, past, cmd, wire);
    forall i | 0 <= i < |ops| && ops[i] == ReadOp(OtaBuffer)
      ensures NeedResult(cmd) && 1 <= i && IsWriteTo(ops[i - 1], OtaMain)
    {
      assert ops[i] == full[i];
      ProtocolAt(key, prim, dev, past, cmd, wire, i);
      assert ops[i - 1] == full[i - 1];
      ProtocolAt(key, prim, dev, past, cmd, wire, i - 1);
    }
  }

  lemma ExitBound(key: Block, prim: Primitives, dev: Device, past: seq<Op>,
                  cmd: Command, wire: bytes, x: Exchange, before: seq<Op>, last: Op)
    requires EndedAt(key, prim, dev, past, cmd, wire, x, before, last)
    ensures TokenBoundToChallenge(prim, key, dev, past, x.ops, wire, Payload(cmd))
  {
    var full := Protocol(key, prim, dev, past, cmd, wire);
    var k := |Preamble(cmd, dev)|;
    ProtocolPrefixes(key, prim, dev, past, cmd, wire);
    forall i | 0 <= i < |x.ops| && IsWriteTo(x.ops[i], OtaToken)
      ensures 1 <= i && x.ops[i - 1] == ReadOp(OtaChallenge)
      ensures ReplyAt(dev, past, x.ops, i - 1) == ChallengeReply(dev, past, cmd)
      ensures ChallengeReply(dev, past, cmd).Done? && |ChallengeReply(dev, past, cmd).data| > 0
      ensures x.ops[i].data == Signature(prim.cmac, key, wire, Payload(cmd), Challenge(dev, past, cmd))
    {
      assert x.ops[i] == full[i];
      ProtocolAt(key, prim, dev, past, cmd, wire, i);
      assert i == k + 1;
      assert x.ops[..k] == Preamble(cmd, dev);
    }
  }

  lemma ExitStops(key: Block, prim: Primitives, dev: Device, past: seq<Op>,
                  cmd: Command, wire: bytes, x: Exchange, before: seq<Op>, last: Op)
    requires EndedAt(key, prim, dev, past, cmd, wire, x, before, last)
    ensures StopsAtFailure(dev, past, x)
  {
    var full := Protocol(key, prim, dev, past, cmd, wire);
    var n := |x.ops|;
    ReplyAtSnoc(dev, past, before, last);
    ProtocolPrefixes(key, prim, dev, past, cmd, wire);
    assert x.ops[n - 1] == full[n - 1];
    ProtocolAt(key, prim, dev, past, cmd, wire, n - 1);
    ExitChallenge(key, prim, dev, past, cmd, wire, x, before, last);
  }

  /** An empty challenge can only be the reply to the last op, and it ends the exchange. */
  lemma ExitChallenge(key: Block, prim: Primitives, dev: Device, past: seq<Op>,
                      cmd: Command, wire: bytes, x: Exchange, before: seq<Op>, last: Op)
    requires EndedAt(key, prim, dev, past, cmd, wire, x, before, last)
    ensures forall i :: 0 <= i < |x.ops| && x.ops[i] == ReadOp(OtaChallenge) && ReplyAt(dev, past, x.ops, i) == Done([]) ==>
              i == |x.ops| - 1 && x.result == Err(NoChallenge)
  {
    var full := Protocol(key, prim, dev, past, cmd, wire);
    var k := |Preamble(cmd, dev)|;
    var n := |x.ops|;
    ReplyAtSnoc(dev, past, before, last);
    forall i | 0 <= i < n && x.ops[i] == ReadOp(OtaChallenge) && ReplyAt(dev, past, x.ops, i) == Done([])
      ensures i == n - 1 && x.result == Err(NoChallenge)
    {
      assert x.ops[i] == full[i];
      ProtocolAt(key, prim, dev, past, cmd, wire, i);
      assert x.ops[..k] == Preamble(cmd, dev);
    }
  }

  lemma ExitOutcome(key: Block, prim: Primitives, dev: Device, past: seq<Op>,
                    cmd: Command, wire: bytes, x: Exchange, before: seq<Op>, last: Op)
    requires EndedAt(key, prim, dev, past, cmd, wire, x, before, last)
    ensures OutcomeMatches(dev, past, cmd, x, Protocol(key, prim, dev, past, cmd, wire))
  {
    var full := Protocol(key, prim, dev, past, cmd, wire);
    var n := |x.ops|;
    ReplyAtSnoc(dev, past, before, last);
    ProtocolPrefixes(key, prim, dev, past, cmd, wire);
    assert x.ops[n - 1] == full[n - 1];
    ProtocolAt(key, prim, dev, past, cmd, wire, n - 1);
  }

  /** `cmd_need_result` holds for a Read alone, and it decides how a successful exchange
      ends: with the buffer read exactly for a Read, and with the main write otherwise. */
  lemma ResultReadOnlyForRead(key: Block, prim: Primitives, dev: Device, past: seq<Op>,
                              cmd: Command, wire: bytes)
    requires Authenticate(key, prim, dev, past, cmd, wire).result.Ok?
    ensures var x := Authenticate(key, prim, dev, past, cmd, wire);
      && (x.ops[|x.ops| - 1] == ReadOp(OtaBuffer) <==> cmd.Read?)
      && (!cmd.Read? ==> x.ops[|x.ops| - 1] == WriteOp(OtaMain, wire, None))
  {
    var x := Authenticate(key, prim, dev, past, cmd, wire);
    var full := Protocol(key, prim, dev, past, cmd, wire);
    AuthenticateWellOrdered(key, prim, dev, past, cmd, wire);
    assert |x.ops| == |full| && x.ops[|x.ops| - 1] == full[|full| - 1];
    ProtocolAt(key, prim, dev, past, cmd, wire, |full| - 1);
  }

  /** `send_command`. */
  function SendCommand(ctl: Controller, prim: Primitives, dev: Device, past: seq<Op>,
                       cmd: Command): (x: Exchange)
    // Without a key nothing is read or written.
    ensures ctl.key.None? ==> x == Exchange([], Err(NoKeySet))
    // An invalid command, or one whose fields do not fit in u32, fails before any I/O.
    ensures ctl.key.Some? && !Valid(cmd) ==> x == Exchange([], Err(Invalid(Validate(cmd).error)))
    ensures ctl.key.Some? && Valid(cmd) && Encode(cmd).Err? ==> x == Exchange([], Err(PackError))
    // Any other outcome comes from an exchange that issued ops, in the protocol's order.
    ensures ctl.key.Some? && Valid(cmd) && Encode(cmd).Ok? ==>
              WellOrdered(ctl.key.value, prim, dev, past, cmd, Encode(cmd).value, x)
  {
    if ctl.key.None? then Exchange([], Err(NoKeySet))
    else
      var v := Validate(cmd);
      if v.Err? then Exchange([], Err(Invalid(v.error)))
      else
        var e := Encode(cmd);
        if e.Err? then Exchange([], Err(PackError))
        else
          AuthenticateWellOrdered(ctl.key.value, prim, dev, past, cmd, e.value);
          Authenticate(ctl.key.value, prim, dev, past, cmd, e.value)
  }

  /** Two exchanges that differ only in the challenge the device issued write different
      tokens: the signature is computed over the challenge itself. */
  lemma TokenDeterminesChallenge(cmac: (Block, bytes) -> Block, key: Block, wire: bytes,
                                 payload: bytes, c1: bytes, c2: bytes)
    requires Token(cmac, key, wire, payload, c1) == Token(cmac, key, wire, payload, c2)
    ensures c1 == c2
  {
    var t := Token(cmac, key, wire, payload, c1);
    assert c1 == t[32..] == c2;
  }

  /** Without a payload the middle block of the token is sixteen zero bytes; with one it
      is the payload's MAC. A signed token therefore commits to the payload sent. */
  lemma TokenPayloadBlock(cmac: (Block, bytes) -> Block, key: Block, wire: bytes,
                          payload: bytes, challenge: bytes)
    ensures |payload| == 0 ==> Token(cmac, key, wire, payload, challenge)[16..32] == Zeros(16)
    ensures |payload| > 0 ==> Token(cmac, key, wire, payload, challenge)[16..32] == cmac(key, payload)
    ensures |challenge| == 16 ==> |Token(cmac, key, wire, payload, challenge)| == 48
  {
  }

  // ---------------------------------------------------------------------------
  // Status and raw reads
  // ---------------------------------------------------------------------------

  datatype Status = Status(busy: bool, success: bool, code: byte)

  /** Why a status read failed: nothing came back (RuntimeError) or a single byte came
      back and the code byte is missing (IndexError). */
  datatype StatusError = StatusEmpty | StatusTooShort

  /** The decode in `read_ota_status`: byte 0 is the busy flag, byte 1 the status code,
      and success is a zero code while not busy. Bytes past the second are ignored. */
  function DecodeStatus(data: bytes): (r: Result<Status, StatusError>)
    ensures |data| == 0 ==> r == Err(StatusEmpty)
    ensures |data| == 1 ==> r == Err(StatusTooShort)
    ensures |data| >= 2 ==> r.Ok?
    ensures r.Ok? ==> && (r.value.busy <==> data[0] != 0)
                      && r.value.code == data[1]
                      && (r.value.success <==> data[..2] == [0, 0])
                      && (r.value.success ==> !r.value.busy)
  {
    if |data| == 0 then Err(StatusEmpty)
    else if |data| == 1 then Err(StatusTooShort)
    else
      var busy := data[0] != 0;
      Ok(Status(busy, data[1] == 0 && !busy, data[1]))
  }

  lemma SampleStatuses()
    ensures DecodeStatus([0x01, 0x00]) == Ok(Status(true, false, 0))
    ensures DecodeStatus([0x00, 0x00]) == Ok(Status(false, true, 0))
    ensures DecodeStatus([0x00, 0x07]) == Ok(Status(false, false, 7))
  {
  }

  datatype StatusFailure = StatusFault(fault: Fault) | StatusBad(reason: StatusError)

  datatype StatusRead = StatusRead(ops: seq<Op>, result: Result<Status, StatusFailure>)

  /** `read_ota_status`: one read of the main attribute, decoded. */
  function ReadOtaStatus(dev: Device, past: seq<Op>): (s: StatusRead)
    ensures s.ops == [ReadOp(OtaMain)]
    ensures dev.respond(past, ReadOp(OtaMain)).Raised? ==>
              s.result == Err(StatusFault(dev.respond(past, ReadOp(OtaMain)).fault))
    ensures s.result.Err? && s.result.error.StatusBad? ==>
              DecodeStatus(dev.respond(past, ReadOp(OtaMain)).data) == Err(s.result.error.reason)
    ensures s.result.Ok? ==> DecodeStatus(dev.respond(past, ReadOp(OtaMain)).data) == Ok(s.result.value)
  {
    var r := dev.respond(past, ReadOp(OtaMain));
    if r.Raised? then StatusRead([ReadOp(OtaMain)], Err(StatusFault(r.fault)))
    else
      match DecodeStatus(r.data)
      case Err(e) => StatusRead([ReadOp(OtaMain)], Err(StatusBad(e)))
      case Ok(st) => StatusRead([ReadOp(OtaMain)], Ok(st))
  }

  datatype BufferRead = BufferRead(ops: seq<Op>, result: Result<bytes, Fault>)

  /** `read_io_buffer`: one raw read of the buffer attribute. */
  function ReadIoBuffer(dev: Device, past: seq<Op>): (b: BufferRead)
    ensures b.ops == [ReadOp(OtaBuffer)]
    ensures b.result.Ok? <==> dev.respond(past, ReadOp(OtaBuffer)).Done?
    ensures b.result.Ok? ==> b.result.value == dev.respond(past, ReadOp(OtaBuffer)).data
  {
    var r := dev.respond(past, ReadOp(OtaBuffer));
    BufferRead([ReadOp(OtaBuffer)], if r.Raised? then Err(r.fault) else Ok(r.data))
  }

  // ---------------------------------------------------------------------------
  // Info attributes
  // ---------------------------------------------------------------------------

  /** A rendered attribute value: decoded text (the bytes of well-formed UTF-8, standing
      for the string they decode to) or lowercase hex. */
  datatype Rendered = Text(raw: bytes) | HexText(s: string)

  /** `value.decode('utf-8')` raised `UnicodeDecodeError`. */
  datatype RenderError = NotUtf8

  /** The value rule of `read_device_info` and `read_ota_eeprom_info`: an empty read is
      None, a human-readable attribute is decoded as UTF-8, any other is its hex string. */
  function RenderValue(raw: bytes, humanReadable: bool): (r: Result<Option<Rendered>, RenderError>)
    ensures |raw| == 0 ==> r == Ok(None)
    ensures r.Err? <==> humanReadable && |raw| > 0 && !ValidUtf8(raw)
    ensures r.Ok? && r.value.Some? && humanReadable ==> r.value.value == Text(raw) && ValidUtf8(raw)
    ensures !humanReadable && |raw| > 0 ==>
              && r.Ok? && r.value.Some? && r.value.value.HexText?
              && |r.value.value.s| == 2 * |raw| && FromHex(r.value.value.s) == Some(raw)
  {
    if |raw| == 0 then Ok(None)
    else if humanReadable then
      if ValidUtf8(raw) then Ok(Some(Text(raw))) else Err(NotUtf8)
    else
      FromHexOfHex(raw);
      Ok(Some(HexText(Hex(raw))))
  }

  /** Why an info read raised: the transport failed, or a readable value was not UTF-8. */
  datatype InfoError = ReadFault(fault: Fault) | Undecodable(attr: Attr)

  datatype InfoRead = InfoRead(ops: seq<Op>, result: Result<seq<Option<Rendered>>, InfoError>)

  /** Read each attribute in turn and render it; the first fault or undecodable value
      aborts. */
  function ReadValues(dev: Device, past: seq<Op>, attrs: seq<Attr>): (r: InfoRead)
    ensures |r.ops| <= |attrs|
    ensures forall i :: 0 <= i < |r.ops| ==> r.ops[i] == ReadOp(attrs[i])
    ensures r.result.Err? ==> 0 < |r.ops|
    ensures r.result.Err? && r.result.error.Undecodable? ==> HumanReadable(r.result.error.attr)
    ensures r.result.Ok? ==> |r.ops| == |attrs| && |r.result.value| == |attrs|
    decreases |attrs|
  {
    if attrs == [] then InfoRead([], Ok([]))
    else
      var op := ReadOp(attrs[0]);
      var reply := dev.respond(past, op);
      if reply.Raised? then InfoRead([op], Err(ReadFault(reply.fault)))
      else
        match RenderValue(reply.data, HumanReadable(attrs[0]))
        case Err(_) => InfoRead([op], Err(Undecodable(attrs[0])))
        case Ok(v) =>
          var rest := ReadValues(dev, past + [op], attrs[1..]);
          ReadsCons(attrs, rest.ops);
          match rest.result
          case Err(e) => InfoRead([op] + rest.ops, Err(e))
          case Ok(vs) => InfoRead([op] + rest.ops, Ok([v] + vs))
  }

  /** Reads of the later attributes, after a read of the first, read the attributes in order. */
  lemma ReadsCons(attrs: seq<Attr>, rest: seq<Op>)
    requires attrs != [] && |rest| < |attrs|
    requires forall i :: 0 <= i < |rest| ==> rest[i] == ReadOp(attrs[1..][i])
    ensures forall i :: 0 <= i < |[ReadOp(attrs[0])] + rest| ==> ([ReadOp(attrs[0])] + rest)[i] == ReadOp(attrs[i])
  {
  }

  /** Each reported failure is explained by the reply to the last read issued, and each
      rendered value is the rendering of the reply to its own read. */
  lemma ReadValuesReplies(dev: Device, past: seq<Op>, attrs: seq<Attr>)
    ensures var r := ReadValues(dev, past, attrs);
      && (r.result.Err? ==> FailureExplained(dev, past, r))
      && (r.result.Ok? ==>
            forall i :: 0 <= i < |attrs| ==>
              && ReplyAt(dev, past, r.ops, i).Done?
              && RenderValue(ReplyAt(dev, past, r.ops, i).data, HumanReadable(attrs[i])) == Ok(r.result.value[i]))
  {
    ReadValuesExplained(dev, past, attrs);
    var r := ReadValues(dev, past, attrs);
    if r.result.Ok? {
      forall i | 0 <= i < |attrs|
        ensures ReplyAt(dev, past, r.ops, i).Done?
        ensures RenderValue(ReplyAt(dev, past, r.ops, i).data, HumanReadable(attrs[i])) == Ok(r.result.value[i])
      {
        assert ValueExplained(dev, past, attrs, r, i);
      }
    }
  }

  /** The last read of a failed walk raised that fault, or returned a readable value that
      does not decode. */
  predicate FailureExplained(dev: Device, past: seq<Op>, r: InfoRead)
    requires r.result.Err? && r.ops != []
  {
    var last := ReplyAt(dev, past, r.ops, |r.ops| - 1);
    match r.result.error
    case ReadFault(f) => last == Raised(f)
    case Undecodable(a) =>
      && r.ops[|r.ops| - 1] == ReadOp(a)
      && last.Done?
      && RenderValue(last.data, HumanReadable(a)) == Err(NotUtf8)
  }

  /** The i-th value is the rendering of the reply to the i-th read. */
  predicate ValueExplained(dev: Device, past: seq<Op>, attrs: seq<Attr>, r: InfoRead, i: int)
    requires r.result.Ok? && |r.ops| == |attrs| == |r.result.value| && 0 <= i < |attrs|
  {
    && ReplyAt(dev, past, r.ops, i).Done?
    && RenderValue(ReplyAt(dev, past, r.ops, i).data, HumanReadable(attrs[i])) == Ok(r.result.value[i])
  }

  /** What `ReadValuesReplies` states, as one fact about a walk. */
  predicate RepliesExplained(dev: Device, past: seq<Op>, attrs: seq<Attr>) {
    var r := ReadValues(dev, past, attrs);
    && (r.result.Err? ==> FailureExplained(dev, past, r))
    && (r.result.Ok? ==> forall i :: 0 <= i < |attrs| ==> ValueExplained(dev, past, attrs, r, i))
  }

  lemma {:induction false} ReadValuesExplained(dev: Device, past: seq<Op>, attrs: seq<Attr>)
    ensures RepliesExplained(dev, past, attrs)
    decreases |attrs|, 1
  {
    if attrs != [] {
      var op := ReadOp(attrs[0]);
      var reply := dev.respond(past, op);
      if reply.Raised? || RenderValue(reply.data, HumanReadable(attrs[0])).Err? {
        ExplainedFirst(dev, past, attrs);
      } else {
        ReadValuesExplained(dev, past + [op], attrs[1..]);
        if ReadValues(dev, past, attrs).result.Err? {
          ExplainedConsErr(dev, past, attrs);
        } else {
          ExplainedConsOk(dev, past, attrs);
        }
      }
    }
  }

  /** A walk that failed at its first read. */
  lemma ExplainedFirst(dev: Device, past: seq<Op>, attrs: seq<Attr>)
    requires attrs != []
    requires var reply := dev.respond(past, ReadOp(attrs[0]));
      reply.Raised? || RenderValue(reply.data, HumanReadable(attrs[0])).Err?
    ensures RepliesExplained(dev, past, attrs)
  {
    var r := ReadValues(dev, past, attrs);
    assert r.ops == [ReadOp(attrs[0])];
    assert past + r.ops[..0] == past;
  }

  /** A walk that failed after a successful first read failed on the rest's last read. */
  lemma ExplainedConsErr(dev: Device, past: seq<Op>, attrs: seq<Attr>)
    requires attrs != [] && dev.respond(past, ReadOp(attrs[0])).Done?
    requires RenderValue(dev.respond(past, ReadOp(attrs[0])).data, HumanReadable(attrs[0])).Ok?
    requires RepliesExplained(dev, past + [ReadOp(attrs[0])], attrs[1..])
    requires ReadValues(dev, past, attrs).result.Err?
    ensures RepliesExplained(dev, past, attrs)
  {
    var op := ReadOp(attrs[0]);
    var r := ReadValues(dev, past, attrs);
    var rest := ReadValues(dev, past + [op], attrs[1..]);
    assert r.ops == [op] + rest.ops && r.result == rest.result;
    ConsPrefix(past, op, rest.ops, |rest.ops| - 1);
    assert FailureExplained(dev, past + [op], rest);
  }

  /** A successful walk: the first value renders the first reply, and the others are the
      rest's values, whose reads sit one place later. */
  lemma ExplainedConsOk(dev: Device, past: seq<Op>, attrs: seq<Attr>)
    requires attrs != [] && dev.respond(past, ReadOp(attrs[0])).Done?
    requires RenderValue(dev.respond(past, ReadOp(attrs[0])).data, HumanReadable(attrs[0])).Ok?
    requires RepliesExplained(dev, past + [ReadOp(attrs[0])], attrs[1..])
    requires ReadValues(dev, past, attrs).result.Ok?
    ensures RepliesExplained(dev, past, attrs)
  {
    var op := ReadOp(attrs[0]);
    var r := ReadValues(dev, past, attrs);
    var rest := ReadValues(dev, past + [op], attrs[1..]);
    assert r.ops == [op] + rest.ops;
    assert past + r.ops[..0] == past;
    forall i | 0 <= i < |attrs|
      ensures ValueExplained(dev, past, attrs, r, i)
    {
      if i > 0 {
        assert ValueExplained(dev, past + [op], attrs[1..], rest, i - 1);
        ExplainedLater(dev, past, attrs, i);
      }
    }
  }

  /** A later value of a successful walk is explained as the rest's value one place back. */
  lemma ExplainedLater(dev: Device, past: seq<Op>, attrs: seq<Attr>, i: int)
    requires 0 < i < |attrs| && dev.respond(past, ReadOp(attrs[0])).Done?
    requires RenderValue(dev.respond(past, ReadOp(attrs[0])).data, HumanReadable(attrs[0])).Ok?
    requires ReadValues(dev, past, attrs).result.Ok?
    requires var rest := ReadValues(dev, past + [ReadOp(attrs[0])], attrs[1..]);
      rest.result.Ok? && ValueExplained(dev, past + [ReadOp(attrs[0])], attrs[1..], rest, i - 1)
    ensures ValueExplained(dev, past, attrs, ReadValues(dev, past, attrs), i)
  {
    var op := ReadOp(attrs[0]);
    var rest := ReadValues(dev, past + [op], attrs[1..]);
    var r := ReadValues(dev, past, attrs);
    ReadValuesOkCons(dev, past, attrs);
    assert r.result.value[i] == rest.result.value[i - 1];
    ConsPrefix(past, op, rest.ops, i - 1);
    assert attrs[i] == attrs[1..][i - 1];
  }

  /** A successful walk is the first read, then the rest's walk. */
  lemma ReadValuesOkCons(dev: Device, past: seq<Op>, attrs: seq<Attr>)
    requires attrs != [] && ReadValues(dev, past, attrs).result.Ok?
    ensures var r := ReadValues(dev, past, attrs);
      var rest := ReadValues(dev, past + [ReadOp(attrs[0])], attrs[1..]);
      && rest.result.Ok?
      && r.ops == [ReadOp(attrs[0])] + rest.ops
      && r.result.value[1..] == rest.result.value
  {
  }

  lemma ConsPrefix(past: seq<Op>, op: Op, rest: seq<Op>, i: int)
    requires 0 <= i < |rest|
    ensures past + ([op] + rest)[..i + 1] == (past + [op]) + rest[..i]
    ensures ([op] + rest)[i + 1] == rest[i]
  {
    assert ([op] + rest)[..i + 1] == [op] + rest[..i];
  }

  /** `read_device_info`: the seven Device Information values. */
  function ReadDeviceInfo(dev: Device, past: seq<Op>): (r: InfoRead)
    ensures forall i :: 0 <= i < |r.ops| ==> r.ops[i].ReadOp?
    ensures r.result.Ok? ==> |r.result.value| == 7
  {
    ReadValues(dev, past, DeviceInfoAttrs)
  }

  /** `read_ota_eeprom_info`: flash bank, flash mode and boot reason, raw then readable.
      Only reads are issued, and the first value is the raw flash bank rendered as hex. */
  function ReadOtaEepromInfo(dev: Device, past: seq<Op>): (r: InfoRead)
    ensures forall i :: 0 <= i < |r.ops| ==> r.ops[i].ReadOp?
    ensures r.result.Ok? ==> |r.result.value| == 6
    ensures r.result.Ok? ==> FlashBankRendered(dev, past, r)
  {
    var r := ReadValues(dev, past, OtaEepromAttrs);
    FlashBankFirst(dev, past, r);
    r
  }

  /** The first value is the raw flash-bank reply, rendered as a non-readable value. */
  predicate FlashBankRendered(dev: Device, past: seq<Op>, r: InfoRead)
    requires r.result.Ok?
  {
    && |r.ops| > 0 && |r.result.value| > 0
    && r.ops[0] == ReadOp(OtaFlashBank)
    && ReplyAt(dev, past, r.ops, 0).Done?
    && RenderValue(ReplyAt(dev, past, r.ops, 0).data, false) == Ok(r.result.value[0])
  }

  lemma FlashBankFirst(dev: Device, past: seq<Op>, r: InfoRead)
    requires r == ReadValues(dev, past, OtaEepromAttrs)
    ensures r.result.Ok? ==> FlashBankRendered(dev, past, r)
  {
    if r.result.Ok? {
      ReadValuesReplies(dev, past, OtaEepromAttrs);
      assert r.ops[0] == ReadOp(OtaEepromAttrs[0]);
    }
  }
}
