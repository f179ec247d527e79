/** The region flows and the flash workflow of `flashtool.py`: the status poll that
    follows erase and verify, the verify digest check, reboot and commit with their rule
    that any failure but a transport error means the device rebooted, dual-bank target
    selection, and `flash`. */
module Flows {
  import opened Results
  import opened Bytes
  import opened Commands
  import opened Channel
  import opened Transfer

  // ---------------------------------------------------------------------------
  // Status poll
  // ---------------------------------------------------------------------------

  /** What one decoded status tells the poll loop to do: success is checked first, then
      busy; anything else ends the flow with the device's code. */
  datatype Decision = Finish | KeepPolling | Abort(code: byte)

  function Decide(st: Status): (d: Decision)
    ensures d == Finish <==> st.success
    ensures d == KeepPolling <==> !st.success && st.busy
    ensures d.Abort? <==> !st.success && !st.busy
    ensures d.Abort? ==> d.code == st.code
  {
    if st.success then Finish
    else if st.busy then KeepPolling
    else Abort(st.code)
  }

  datatype PollOutcome =
    | Completed                          // a status with success set
    | DeviceFailed(code: byte)           // neither busy nor success
    | Unreadable(failure: StatusFailure) // the status read raised
    | GaveUp                             // the fuel ran out while busy

  datatype PollRun = PollRun(ops: seq<Op>, outcome: PollOutcome)

  /** The status the i-th poll read saw. */
  function Reading(dev: Device, past: seq<Op>, ops: seq<Op>, i: int): Result<Status, StatusFailure>
    requires 0 <= i <= |ops|
  {
    ReadOtaStatus(dev, past + ops[..i]).result
  }

  /** Every read before index n saw a busy, not yet successful device. */
  predicate BusyBefore(dev: Device, past: seq<Op>, ops: seq<Op>, n: int)
    requires 0 <= n <= |ops|
  {
    forall i :: 0 <= i < n ==> Reading(dev, past, ops, i).Ok? && Decide(Reading(dev, past, ops, i).value) == KeepPolling
  }

  /** The `while True:` status loop of erase and verify, bounded by `fuel` reads. */
  function Poll(dev: Device, past: seq<Op>, fuel: nat): (p: PollRun)
    ensures |p.ops| <= fuel
    ensures forall i :: 0 <= i < |p.ops| ==> p.ops[i] == ReadOp(OtaMain)
    ensures p.outcome == GaveUp ==> |p.ops| == fuel && BusyBefore(dev, past, p.ops, |p.ops|)
    ensures p.outcome != GaveUp ==> |p.ops| > 0 && BusyBefore(dev, past, p.ops, |p.ops| - 1)
    ensures p.outcome == Completed ==>
              Reading(dev, past, p.ops, |p.ops| - 1).Ok? && Decide(Reading(dev, past, p.ops, |p.ops| - 1).value) == Finish
    ensures p.outcome.DeviceFailed? ==>
              Reading(dev, past, p.ops, |p.ops| - 1).Ok?
              && Decide(Reading(dev, past, p.ops, |p.ops| - 1).value) == Abort(p.outcome.code)
    ensures p.outcome.Unreadable? ==> Reading(dev, past, p.ops, |p.ops| - 1) == Err(p.outcome.failure)
    decreases fuel
  {
    if fuel == 0 then PollRun([], GaveUp)
    else
      var s := ReadOtaStatus(dev, past);
      assert past + s.ops[..0] == past;
      match s.result
      case Err(f) => PollRun(s.ops, Unreadable(f))
      case Ok(st) =>
        match Decide(st)
        case Finish => PollRun(s.ops, Completed)
        case Abort(code) => PollRun(s.ops, DeviceFailed(code))
        case KeepPolling =>
          var rest := Poll(dev, past + s.ops, fuel - 1);
          var p := PollRun(s.ops + rest.ops, rest.outcome);
          PollShift(dev, past, rest.ops);
          BusyCons(dev, past, rest.ops, if rest.outcome == GaveUp then |rest.ops| else |rest.ops| - 1);
          p
  }

  /** Readings of a poll that starts with one more read are the rest's readings, shifted. */
  lemma PollShift(dev: Device, past: seq<Op>, rest: seq<Op>)
    ensures forall i :: 0 <= i < |rest| ==>
              Reading(dev, past, [ReadOp(OtaMain)] + rest, i + 1) == Reading(dev, past + [ReadOp(OtaMain)], rest, i)
  {
    forall i | 0 <= i < |rest|
      ensures Reading(dev, past, [ReadOp(OtaMain)] + rest, i + 1) == Reading(dev, past + [ReadOp(OtaMain)], rest, i)
    {
      ConsPrefix(past, ReadOp(OtaMain), rest, i);
    }
  }

  /** A busy first read followed by a busy run of n reads is a busy run of n + 1 reads. */
  lemma BusyCons(dev: Device, past: seq<Op>, rest: seq<Op>, n: int)
    requires 0 <= n <= |rest|
    requires ReadOtaStatus(dev, past).result.Ok? && Decide(ReadOtaStatus(dev, past).result.value) == KeepPolling
    requires BusyBefore(dev, past + [ReadOp(OtaMain)], rest, n)
    ensures BusyBefore(dev, past, [ReadOp(OtaMain)] + rest, n + 1)
  {
    var ops := [ReadOp(OtaMain)] + rest;
    assert past + ops[..0] == past;
    PollShift(dev, past, rest);
    forall i | 0 <= i < n + 1
      ensures Reading(dev, past, ops, i).Ok? && Decide(Reading(dev, past, ops, i).value) == KeepPolling
    {
      if i > 0 {
        assert Reading(dev, past, ops, i) == Reading(dev, past + [ReadOp(OtaMain)], rest, i - 1);
      }
    }
  }

  /** Number of reads of attribute `a` in a trace. */
  function CountReads(h: seq<Op>, a: Attr): nat {
    if h == [] then 0 else (if h[0] == ReadOp(a) then 1 else 0) + CountReads(h[1..], a)
  }

  /** A device whose n-th status read answers `statuses[n]` (the last one repeating). */
  function Scripted(statuses: seq<bytes>): Device
    requires |statuses| > 0
  {
    Device(Some(true), (h: seq<Op>, op: Op) =>
      if op == ReadOp(OtaMain) then Done(statuses[Min(CountReads(h, OtaMain), |statuses| - 1)])
      else Done([]))
  }

  /** How many status reads the scripted device has seen after zero, one and two polls. */
  lemma ScriptCounts()
    ensures CountReads([], OtaMain) == 0
    ensures CountReads([ReadOp(OtaMain)], OtaMain) == 1
    ensures CountReads([ReadOp(OtaMain), ReadOp(OtaMain)], OtaMain) == 2
    ensures [] + [ReadOp(OtaMain)] == [ReadOp(OtaMain)]
    ensures [ReadOp(OtaMain)] + [ReadOp(OtaMain)] == [ReadOp(OtaMain), ReadOp(OtaMain)]
  {
    var r := ReadOp(OtaMain);
    assert [r][1..] == [];
    assert [r, r][1..] == [r];
  }

  /** Busy, busy, success: three reads and the poll completes. */
  lemma PollCompletesScenario()
    ensures Poll(Scripted([[1, 0], [1, 0], [0, 0]]), [], 10)
              == PollRun([ReadOp(OtaMain), ReadOp(OtaMain), ReadOp(OtaMain)], Completed)
  {
    ScriptCounts();
    SampleStatuses();
  }

  /** Busy, then error 3: two reads and the device's code is reported. */
  lemma PollFailsScenario()
    ensures Poll(Scripted([[1, 0], [0, 3]]), [], 10)
              == PollRun([ReadOp(OtaMain), ReadOp(OtaMain)], DeviceFailed(3))
  {
    ScriptCounts();
    SampleStatuses();
    assert DecodeStatus([0, 3]) == Ok(Status(false, false, 3));
  }

  // ---------------------------------------------------------------------------
  // Flow outcomes
  // ---------------------------------------------------------------------------

  /** Why a flow ended in `sys.exit(1)` or an uncaught exception. */
  datatype Failure =
    | Rejected(error: SendError)          // send_command raised
    | DeviceReported(code: byte)          // status neither busy nor success
    | StatusUnreadable(failure: StatusFailure)
    | StillBusy                           // poll fuel exhausted
    | NothingToVerify                     // computed verify length <= 0
    | BufferUnreadable(fault: Fault)
    | DigestMismatch
    | InfoUnavailable(why: InfoError)     // read_ota_eeprom_info raised
    | UnknownBank
    | CommitRefused(fault: Fault)         // commit failed with a Bleak error

  datatype Outcome = Success | Fail(failure: Failure)

  datatype FlowRun = FlowRun(ops: seq<Op>, outcome: Outcome)

  function PollFailure(o: PollOutcome): (f: Failure)
    requires o != Completed
  {
    match o
    case DeviceFailed(code) => DeviceReported(code)
    case Unreadable(failure) => StatusUnreadable(failure)
    case GaveUp => StillBusy
  }

  function Disconnect(disconnect: bool): seq<Op> {
    if disconnect then [DisconnectOp] else []
  }

  /** A command sent, then the status polled to completion. */
  function SendAndPoll(send: Send, dev: Device, past: seq<Op>, cmd: Command, fuel: nat): (r: FlowRun)
    ensures var x := send(past, cmd);
      && |x.ops| <= |r.ops| && r.ops[..|x.ops|] == x.ops
      && (x.result.Err? ==> r == FlowRun(x.ops, Fail(Rejected(x.result.error))))
      && (x.result.Ok? ==> r.ops == x.ops + Poll(dev, past + x.ops, fuel).ops)
      && (r.outcome.Success? <==> x.result.Ok? && Poll(dev, past + x.ops, fuel).outcome == Completed)
      && (x.result.Ok? && Poll(dev, past + x.ops, fuel).outcome != Completed ==>
            r.outcome == Fail(PollFailure(Poll(dev, past + x.ops, fuel).outcome)))
  {
    var x := send(past, cmd);
    if x.result.Err? then FlowRun(x.ops, Fail(Rejected(x.result.error)))
    else
      var p := Poll(dev, past + x.ops, fuel);
      assert (x.ops + p.ops)[..|x.ops|] == x.ops;
      FlowRun(x.ops + p.ops, if p.outcome == Completed then Success else Fail(PollFailure(p.outcome)))
  }

  // ---------------------------------------------------------------------------
  // Erase
  // ---------------------------------------------------------------------------

  function EraseCmd(address: int, length: int): Command {
    Erase(IntArg(address), IntArg(length))
  }

  /** `do_cmd_erase`: send Erase, poll until done, optionally disconnect. A rejected
      command ends the flow before any status read; a poll that does not complete ends it
      with the poll's reason and no disconnect. */
  function EraseFlow(send: Send, dev: Device, past: seq<Op>, address: int, length: int,
                     fuel: nat, disconnect: bool): (r: FlowRun)
    ensures var x := send(past, EraseCmd(address, length));
      var p := Poll(dev, past + x.ops, fuel);
      && (r.outcome.Success? <==> x.result.Ok? && p.outcome == Completed)
      && (x.result.Err? ==> r == FlowRun(x.ops, Fail(Rejected(x.result.error))))
      && (x.result.Ok? && p.outcome != Completed ==> r == FlowRun(x.ops + p.ops, Fail(PollFailure(p.outcome))))
      && (r.outcome.Success? ==> r.ops == x.ops + p.ops + Disconnect(disconnect))
  {
    var s := SendAndPoll(send, dev, past, EraseCmd(address, length), fuel);
    if s.outcome.Success? then FlowRun(s.ops + Disconnect(disconnect), Success) else s
  }

  /** A successful erase: the Erase exchange succeeded, every later op but the final
      disconnect is a status read, and the last of those reported success after a run of
      busy ones. */
  lemma EraseSuccessMeans(send: Send, dev: Device, past: seq<Op>, address: int, length: int,
                          fuel: nat, disconnect: bool)
    requires EraseFlow(send, dev, past, address, length, fuel, disconnect).outcome.Success?
    ensures var x := send(past, EraseCmd(address, length));
      var p := Poll(dev, past + x.ops, fuel);
      && x.result.Ok?
      && EraseFlow(send, dev, past, address, length, fuel, disconnect).ops == x.ops + p.ops + Disconnect(disconnect)
      && |p.ops| > 0
      && (forall i :: 0 <= i < |p.ops| ==> p.ops[i] == ReadOp(OtaMain))
      && BusyBefore(dev, past + x.ops, p.ops, |p.ops| - 1)
      && Reading(dev, past + x.ops, p.ops, |p.ops| - 1).Ok?
      && Reading(dev, past + x.ops, p.ops, |p.ops| - 1).value.success
  {
  }

  /** An erase the exchange rejects (an invalid length, say) never polls the status. */
  lemma EraseRejectedDoesNotPoll(ctl: Controller, prim: Primitives, dev: Device, past: seq<Op>,
                                 address: int, length: int, fuel: nat, disconnect: bool)
    requires ctl.key.Some? && length <= 0
    ensures EraseFlow(Sender(ctl, prim, dev), dev, past, address, length, fuel, disconnect)
              == FlowRun([], Fail(Rejected(Invalid(LengthNotPositive))))
  {
    assert Sender(ctl, prim, dev)(past, EraseCmd(address, length)) == Exchange([], Err(Invalid(LengthNotPositive)));
  }

  // ---------------------------------------------------------------------------
  // Verify
  // ---------------------------------------------------------------------------

  /** `args.length` as the command's keyword argument: None reaches it as missing. */
  function LengthArgOf(lengthArg: Option<int>): Arg {
    if lengthArg.Some? then IntArg(lengthArg.value) else Missing
  }

  function VerifyCmd(address: int, lengthArg: Option<int>): Command {
    Verify(IntArg(address), LengthArgOf(lengthArg))
  }

  /** The device's reply to the buffer read that follows the verify exchange `s`. */
  function DigestReply(dev: Device, past: seq<Op>, s: FlowRun): Reply {
    dev.respond(past + s.ops, ReadOp(OtaBuffer))
  }

  /** `do_cmd_verify` after reading the file. The local digest covers
      `min(len(file), --length)` bytes (all of them when --length is absent or 0) while
      the command carries --length itself. After the device has finished, one buffer read
      fetches its digest; the flow succeeds exactly when that digest is SHA-256 of the
      locally counted bytes. */
  function VerifyFlow(send: Send, sha256: bytes -> Digest, dev: Device, past: seq<Op>,
                      address: int, lengthArg: Option<int>, file: bytes,
                      fuel: nat, disconnect: bool): (r: FlowRun)
    ensures EffectiveLength(|file|, lengthArg) <= 0 ==> r == FlowRun([], Fail(NothingToVerify))
    ensures var n := EffectiveLength(|file|, lengthArg);
      var s := SendAndPoll(send, dev, past, VerifyCmd(address, lengthArg), fuel);
      var reply := DigestReply(dev, past, s);
      n > 0 ==>
        && (!s.outcome.Success? ==> r == s)
        && (s.outcome.Success? && reply.Raised? ==>
              r == FlowRun(s.ops + [ReadOp(OtaBuffer)], Fail(BufferUnreadable(reply.fault))))
        && (s.outcome.Success? && reply.Done? ==> r.ops == s.ops + [ReadOp(OtaBuffer)] + Disconnect(disconnect))
        && (r.outcome.Success? <==> s.outcome.Success? && reply == Done(sha256(file[..n])))
        && (r.outcome == Fail(DigestMismatch) <==>
              s.outcome.Success? && reply.Done? && reply.data != sha256(file[..n]))
  {
    var n := EffectiveLength(|file|, lengthArg);
    if n <= 0 then FlowRun([], Fail(NothingToVerify))
    else
      var s := SendAndPoll(send, dev, past, VerifyCmd(address, lengthArg), fuel);
      if !s.outcome.Success? then s
      else
        var b := ReadIoBuffer(dev, past + s.ops);
        if b.result.Err? then FlowRun(s.ops + b.ops, Fail(BufferUnreadable(b.result.error)))
        else
          FlowRun(s.ops + b.ops + Disconnect(disconnect),
                  if sha256(file[..n]) == b.result.value then Success else Fail(DigestMismatch))
  }

  /** Verify does no I/O when the local length is not positive, and only then reports
      nothing to verify. */
  lemma VerifyNothingToDo(send: Send, sha256: bytes -> Digest, dev: Device, past: seq<Op>,
                          address: int, lengthArg: Option<int>, file: bytes, fuel: nat, disconnect: bool)
    ensures var r := VerifyFlow(send, sha256, dev, past, address, lengthArg, file, fuel, disconnect);
      (r.outcome == Fail(NothingToVerify) <==> EffectiveLength(|file|, lengthArg) <= 0)
      && (EffectiveLength(|file|, lengthArg) <= 0 ==> r.ops == [])
  {
  }

  /** Once the device has finished and its buffer was read, verify succeeds exactly when
      that buffer equals SHA-256 of the file's first `n` bytes. The buffer read is the op
      just before the optional disconnect, after a completed poll of the accepted command. */
  lemma VerifyComparesDigest(send: Send, sha256: bytes -> Digest, dev: Device, past: seq<Op>,
                             address: int, lengthArg: Option<int>, file: bytes, fuel: nat, disconnect: bool)
    requires var r := VerifyFlow(send, sha256, dev, past, address, lengthArg, file, fuel, disconnect);
      r.outcome.Success? || r.outcome == Fail(DigestMismatch)
    ensures var r := VerifyFlow(send, sha256, dev, past, address, lengthArg, file, fuel, disconnect);
      var n := EffectiveLength(|file|, lengthArg);
      var k := |r.ops| - 1 - |Disconnect(disconnect)|;
      && 0 < n <= |file|
      && 0 <= k && r.ops[k] == ReadOp(OtaBuffer)
      && r.ops[k + 1..] == Disconnect(disconnect)
      && ReplyAt(dev, past, r.ops, k).Done?
      && (r.outcome.Success? <==> ReplyAt(dev, past, r.ops, k).data == sha256(file[..n]))
      && SendAndPoll(send, dev, past, VerifyCmd(address, lengthArg), fuel).outcome.Success?
  {
    var n := EffectiveLength(|file|, lengthArg);
    var s := SendAndPoll(send, dev, past, VerifyCmd(address, lengthArg), fuel);
    var b := ReadIoBuffer(dev, past + s.ops);
    var r := VerifyFlow(send, sha256, dev, past, address, lengthArg, file, fuel, disconnect);
    assert n > 0 && s.outcome.Success? && b.result.Ok?;
    assert r.ops == s.ops + [ReadOp(OtaBuffer)] + Disconnect(disconnect);
    assert r.outcome.Success? <==> sha256(file[..n]) == b.result.value;
    BufferReadAt(dev, past, s.ops, Disconnect(disconnect));
  }

  /** Where the buffer read sits in `before + [buffer read] + after`, and the reply it got. */
  lemma BufferReadAt(dev: Device, past: seq<Op>, before: seq<Op>, after: seq<Op>)
    ensures var ops := before + [ReadOp(OtaBuffer)] + after;
      var k := |before|;
      && k == |ops| - 1 - |after|
      && ops[k] == ReadOp(OtaBuffer)
      && ops[k + 1..] == after
      && ReplyAt(dev, past, ops, k) == dev.respond(past + before, ReadOp(OtaBuffer))
  {
    var ops := before + [ReadOp(OtaBuffer)] + after;
    assert ops[..|before|] == before;
  }

  // ---------------------------------------------------------------------------
  // Reboot and commit
  // ---------------------------------------------------------------------------

  /** How `do_cmd_reboot` / `do_cmd_commit` read the exchange: a Bleak error is fatal,
      any other exception is taken to mean the device dropped the link while rebooting. */
  datatype RestartOutcome = Requested | AssumedRebooted(error: SendError) | Fatal(fault: Fault)

  datatype RestartRun = RestartRun(ops: seq<Op>, outcome: RestartOutcome)

  /** Reboot (`cmd` = Reboot) or commit (`cmd` = Confirm), then the disconnect. */
  function RestartFlow(send: Send, past: seq<Op>, cmd: Command): (r: RestartRun)
    requires cmd == Reboot || cmd == Confirm
    ensures var x := send(past, cmd);
      && (r.outcome.Fatal? <==> x.result == Err(Transport(BleakFault)))
      && (r.outcome == Requested <==> x.result.Ok?)
      && (r.outcome.AssumedRebooted? ==> x.result == Err(r.outcome.error))
      && (r.outcome.Fatal? ==> r.ops == x.ops)
      && (!r.outcome.Fatal? ==> r.ops == x.ops + [DisconnectOp])
  {
    var x := send(past, cmd);
    if x.result.Ok? then RestartRun(x.ops + [DisconnectOp], Requested)
    else if x.result.error == Transport(BleakFault) then RestartRun(x.ops, Fatal(BleakFault))
    else RestartRun(x.ops + [DisconnectOp], AssumedRebooted(x.result.error))
  }

  /** With no key, or when the device answers the challenge read with nothing, commit
      still reports the device as rebooted: only a Bleak transport error is fatal. */
  lemma CommitWithoutKeyLooksRebooted(prim: Primitives, dev: Device, past: seq<Op>)
    ensures RestartFlow(Sender(Controller(None), prim, dev), past, Confirm)
              == RestartRun([DisconnectOp], AssumedRebooted(NoKeySet))
  {
    assert Sender(Controller(None), prim, dev)(past, Confirm) == Exchange([], Err(NoKeySet));
  }

  // ---------------------------------------------------------------------------
  // Dual-bank target selection
  // ---------------------------------------------------------------------------

  datatype Bank = BankA | BankB

  /** Where a flash goes: the region to erase and write, and which image to take. */
  datatype Target = Target(address: int, length: int, image: Bank)

  const BankAStart: int := 0x0000_1000
  const BankBStart: int := 0x0003_7000
  const BankSize: int := 0x0003_6000

  /** `ota_flash_bank` reads "a5a5a5a5" while bank A runs and "5a5a5a5a" while bank B runs. */
  const RunningAMarker: string := "a5a5a5a5"
  const RunningBMarker: string := "5a5a5a5a"

  function BankStart(b: Bank): int {
    if b == BankA then BankAStart else BankBStart
  }

  function Other(b: Bank): Bank {
    if b == BankA then BankB else BankA
  }

  /** The branch on the rendered `ota_flash_bank` value in `do_cmd_flash`: a target is
      chosen exactly for the two markers, each selecting the other bank; anything else,
      a missing value included, is an unknown bank state. */
  function SelectTarget(flashBank: Option<Rendered>): (r: Result<Target, Failure>)
    ensures r.Ok? <==> flashBank == Some(HexText(RunningAMarker)) || flashBank == Some(HexText(RunningBMarker))
    ensures flashBank == Some(HexText(RunningAMarker)) ==> r == Ok(Target(BankBStart, BankSize, BankB))
    ensures flashBank == Some(HexText(RunningBMarker)) ==> r == Ok(Target(BankAStart, BankSize, BankA))
    ensures r.Err? ==> r.error == UnknownBank
  {
    match flashBank
    case Some(HexText(marker)) =>
      if marker == RunningAMarker then Ok(Target(BankBStart, BankSize, BankB))
      else if marker == RunningBMarker then Ok(Target(BankAStart, BankSize, BankA))
      else Err(UnknownBank)
    case _ => Err(UnknownBank)
  }

  /** The target is always the bank that is not running: it starts at that bank's address,
      spans one bank, takes that bank's image, and its region never meets the running
      bank's region. */
  lemma TargetIsIdleBank(flashBank: Option<Rendered>, running: Bank)
    requires flashBank == Some(HexText(if running == BankA then RunningAMarker else RunningBMarker))
    ensures SelectTarget(flashBank).Ok?
    ensures var t := SelectTarget(flashBank).value;
      && t.image == Other(running)
      && t.address == BankStart(t.image) && t.length == BankSize
      && (t.address + t.length <= BankStart(running) || BankStart(running) + BankSize <= t.address)
  {
  }

  /** The raw flash-bank bytes select a target exactly when they are four 0xa5 or four
      0x5a bytes; any other value, an empty one included, is an unknown bank state. */
  lemma SelectTargetFromRaw(raw: bytes)
    ensures (SelectTarget(RenderValue(raw, false).value) == Ok(Target(BankBStart, BankSize, BankB)))
              <==> raw == [0xa5, 0xa5, 0xa5, 0xa5]
    ensures (SelectTarget(RenderValue(raw, false).value) == Ok(Target(BankAStart, BankSize, BankA)))
              <==> raw == [0x5a, 0x5a, 0x5a, 0x5a]
    ensures (SelectTarget(RenderValue(raw, false).value).Err?)
              <==> (raw != [0xa5, 0xa5, 0xa5, 0xa5] && raw != [0x5a, 0x5a, 0x5a, 0x5a])
  {
    if |raw| > 0 {
      assert RenderValue(raw, false) == Ok(Some(HexText(Hex(raw))));
      MarkerMatch(raw);
    }
  }

  /** A byte string renders as a marker exactly when it is that marker's four bytes. */
  lemma MarkerMatch(raw: bytes)
    ensures Hex(raw) == RunningAMarker <==> raw == [0xa5, 0xa5, 0xa5, 0xa5]
    ensures Hex(raw) == RunningBMarker <==> raw == [0x5a, 0x5a, 0x5a, 0x5a]
  {
    MarkerAHex();
    MarkerBHex();
    if Hex(raw) == RunningAMarker {
      HexInjective(raw, [0xa5, 0xa5, 0xa5, 0xa5]);
    }
    if Hex(raw) == RunningBMarker {
      HexInjective(raw, [0x5a, 0x5a, 0x5a, 0x5a]);
    }
  }

  /** Four 0xa5 bytes render as the bank-A-running marker. */
  lemma MarkerAHex()
    ensures Hex([0xa5, 0xa5, 0xa5, 0xa5]) == RunningAMarker
  {
    var a5: bytes := [0xa5, 0xa5, 0xa5, 0xa5];
    assert Hex(a5[3..]) == "a5";
    assert a5[2..][1..] == a5[3..];
    assert a5[1..][1..] == a5[2..];
    assert a5[1..] == [0xa5, 0xa5, 0xa5];
  }

  /** Four 0x5a bytes render as the bank-B-running marker. */
  lemma MarkerBHex()
    ensures Hex([0x5a, 0x5a, 0x5a, 0x5a]) == RunningBMarker
  {
    var x5a: bytes := [0x5a, 0x5a, 0x5a, 0x5a];
    assert Hex(x5a[3..]) == "5a";
    assert x5a[2..][1..] == x5a[3..];
    assert x5a[1..][1..] == x5a[2..];
    assert x5a[1..] == [0x5a, 0x5a, 0x5a];
  }

  // ---------------------------------------------------------------------------
  // Flash
  // ---------------------------------------------------------------------------

  function Image(t: Target, bankA: bytes, bankB: bytes): bytes {
    if t.image == BankA then bankA else bankB
  }

  // The four steps of `do_cmd_flash` on a target, each issued after the ops in `past`:
  // erase and write one bank's worth, verify against the image's own size, commit. The
  // write is the chunk loop of `do_cmd_write` without its disconnect.

  function EraseStep(send: Send, dev: Device, past: seq<Op>, t: Target, fuel: nat): FlowRun {
    EraseFlow(send, dev, past, t.address, t.length, fuel, false)
  }

  function WriteStep(send: Send, past: seq<Op>, t: Target, image: bytes): Run<int> {
    WriteChunks(send, past, t.address, image, ChunkPlan(0, EffectiveLength(|image|, Some(t.length))))
  }

  function VerifyStep(send: Send, sha256: bytes -> Digest, dev: Device, past: seq<Op>,
                      t: Target, image: bytes, fuel: nat): FlowRun {
    VerifyFlow(send, sha256, dev, past, t.address, Some(|image|), image, fuel, false)
  }

  function CommitStep(send: Send, past: seq<Op>): RestartRun {
    RestartFlow(send, past, Confirm)
  }

  /** Erase, write, verify and commit one target, each step only after the previous one
      succeeded. The ops are those of the steps that ran, in order; the flash succeeds
      exactly when the first three succeed and the commit is not refused by the
      transport. */
  function FlashTo(send: Send, sha256: bytes -> Digest, dev: Device, past: seq<Op>,
                   t: Target, image: bytes, fuel: nat): (r: FlowRun)
    ensures var e := EraseStep(send, dev, past, t, fuel);
      var w := WriteStep(send, past + e.ops, t, image);
      var v := VerifyStep(send, sha256, dev, past + e.ops + w.ops, t, image, fuel);
      var c := CommitStep(send, past + e.ops + w.ops + v.ops);
      && (r.outcome.Success? <==>
            e.outcome.Success? && w.result.Ok? && v.outcome.Success? && !c.outcome.Fatal?)
      && (e.outcome.Fail? ==> r == e)
      && (e.outcome.Success? && w.result.Err? ==>
            r == FlowRun(e.ops + w.ops, Fail(Rejected(w.result.error))))
      && (e.outcome.Success? && w.result.Ok? && v.outcome.Fail? ==>
            r == FlowRun(e.ops + w.ops + v.ops, v.outcome))
      && (e.outcome.Success? && w.result.Ok? && v.outcome.Success? ==>
            && r.ops == e.ops + w.ops + v.ops + c.ops
            && (c.outcome.Fatal? ==> r.outcome == Fail(CommitRefused(c.outcome.fault))))
  {
    var e := EraseStep(send, dev, past, t, fuel);
    if e.outcome.Fail? then e
    else
      var w := WriteStep(send, past + e.ops, t, image);
      if w.result.Err? then FlowRun(e.ops + w.ops, Fail(Rejected(w.result.error)))
      else
        var v := VerifyStep(send, sha256, dev, past + e.ops + w.ops, t, image, fuel);
        if v.outcome.Fail? then FlowRun(e.ops + w.ops + v.ops, v.outcome)
        else
          var c := CommitStep(send, past + e.ops + w.ops + v.ops);
          FlowRun(e.ops + w.ops + v.ops + c.ops,
                  if c.outcome.Fatal? then Fail(CommitRefused(c.outcome.fault)) else Success)
  }

  /** What a successful flash of `image` to `t` did: the device accepted the Erase of
      the region; the buffer received the image's first `min(|image|, t.length)` bytes,
      in order; and the device's digest after verify was SHA-256 of the whole, non-empty
      image. */
  predicate Flashed(send: Send, sha256: bytes -> Digest, dev: Device, past: seq<Op>,
                    t: Target, image: bytes, fuel: nat)
  {
    var e := EraseStep(send, dev, past, t, fuel);
    var w := WriteStep(send, past + e.ops, t, image);
    var s := SendAndPoll(send, dev, past + e.ops + w.ops, VerifyCmd(t.address, Some(|image|)), fuel);
    && send(past, EraseCmd(t.address, t.length)).result.Ok?
    && 0 < |image|
    && 0 <= Min(|image|, t.length)
    && BufferPayloads(w.ops) == image[..Min(|image|, t.length)]
    && DigestReply(dev, past + e.ops + w.ops, s) == Done(sha256(image))
  }

  /** The link was closed last. */
  predicate EndsDisconnected(ops: seq<Op>) {
    |ops| > 0 && ops[|ops| - 1] == DisconnectOp
  }

  lemma EndsDisconnectedAfter(pre: seq<Op>, ops: seq<Op>)
    requires EndsDisconnected(ops)
    ensures EndsDisconnected(pre + ops)
  {
    assert (pre + ops)[|pre + ops| - 1] == ops[|ops| - 1];
  }

  /** A successful flash means the region was erased, written with the image and checked
      against the image's digest, and the commit closed the link. */
  lemma FlashSuccessMeans(send: Send, sha256: bytes -> Digest, dev: Device, past: seq<Op>,
                          t: Target, image: bytes, fuel: nat)
    requires DeliversPayload(send)
    requires t.length > 0
    requires FlashTo(send, sha256, dev, past, t, image, fuel).outcome.Success?
    ensures Flashed(send, sha256, dev, past, t, image, fuel)
    ensures EndsDisconnected(FlashTo(send, sha256, dev, past, t, image, fuel).ops)
  {
    var e := EraseStep(send, dev, past, t, fuel);
    var w := WriteStep(send, past + e.ops, t, image);
    var v := VerifyStep(send, sha256, dev, past + e.ops + w.ops, t, image, fuel);
    var n := EffectiveLength(|image|, Some(t.length));
    assert 0 < |image| && n == Min(|image|, t.length);
    WriteSendsFileBytes(send, past + e.ops, t.address, image, 0, n);
    assert image[0..n] == image[..n];
    assert EffectiveLength(|image|, Some(|image|)) == |image| && image[..|image|] == image;
    var c := CommitStep(send, past + e.ops + w.ops + v.ops);
    EndsDisconnectedAfter(e.ops + w.ops + v.ops, c.ops);
  }

  datatype FlashRun = FlashRun(ops: seq<Op>, flashBank: Option<Rendered>, target: Option<Target>, outcome: Outcome)

  /** `do_cmd_flash` once both image files are read. The device-information read may fail
      without stopping the flow (the bare `except:` also swallows its `sys.exit`); the
      OTA-information read may not, and its flash-bank value picks the target. With a
      target, the rest of the trace is the flash of that bank's image. */
  function FlashFlow(send: Send, sha256: bytes -> Digest, dev: Device, past: seq<Op>,
                     bankA: bytes, bankB: bytes, fuel: nat): (r: FlashRun)
    ensures var info := ReadDeviceInfo(dev, past);
      var ota := ReadOtaEepromInfo(dev, past + info.ops);
      var pre := info.ops + ota.ops;
      && |pre| <= |r.ops| && r.ops[..|pre|] == pre
      && (ota.result.Err? ==> r == FlashRun(pre, None, None, Fail(InfoUnavailable(ota.result.error))))
      && (ota.result.Ok? ==> r.flashBank == ota.result.value[0])
      && (r.target.Some? <==> ota.result.Ok? && SelectTarget(r.flashBank).Ok?)
      && (r.target.Some? ==> SelectTarget(r.flashBank) == Ok(r.target.value))
      && (ota.result.Ok? && r.target.None? ==> r.ops == pre && r.outcome == Fail(UnknownBank))
      && (r.target.Some? ==>
            var f := FlashTo(send, sha256, dev, past + pre, r.target.value, Image(r.target.value, bankA, bankB), fuel);
            r.ops == pre + f.ops && r.outcome == f.outcome)
  {
    var info := ReadDeviceInfo(dev, past);
    var ota := ReadOtaEepromInfo(dev, past + info.ops);
    var pre := info.ops + ota.ops;
    assert (pre + [])[..|pre|] == pre;
    if ota.result.Err? then FlashRun(pre, None, None, Fail(InfoUnavailable(ota.result.error)))
    else
      var flashBank := ota.result.value[0];
      match SelectTarget(flashBank)
      case Err(_) => FlashRun(pre, flashBank, None, Fail(UnknownBank))
      case Ok(t) =>
        var f := FlashTo(send, sha256, dev, past + pre, t, Image(t, bankA, bankB), fuel);
        assert (pre + f.ops)[..|pre|] == pre;
        FlashRun(pre + f.ops, flashBank, Some(t), f.outcome)
  }

  /** End to end: a successful `flash` read a running-bank marker, flashed the other
      bank with that bank's image, and that image was erased, written and checked before
      the link was closed. `Transfer.Sender` is such a `send`. */
  lemma FlashFlowSuccessMeans(send: Send, sha256: bytes -> Digest, dev: Device, past: seq<Op>,
                              bankA: bytes, bankB: bytes, fuel: nat)
    requires DeliversPayload(send)
    requires FlashFlow(send, sha256, dev, past, bankA, bankB, fuel).outcome.Success?
    ensures var r := FlashFlow(send, sha256, dev, past, bankA, bankB, fuel);
      var info := ReadDeviceInfo(dev, past);
      var ota := ReadOtaEepromInfo(dev, past + info.ops);
      && r.target.Some?
      && (r.flashBank == Some(HexText(RunningAMarker)) || r.flashBank == Some(HexText(RunningBMarker)))
      && r.target.value.image == (if r.flashBank == Some(HexText(RunningAMarker)) then BankB else BankA)
      && Flashed(send, sha256, dev, past + (info.ops + ota.ops), r.target.value, Image(r.target.value, bankA, bankB), fuel)
      && EndsDisconnected(r.ops)
  {
    var r := FlashFlow(send, sha256, dev, past, bankA, bankB, fuel);
    var info := ReadDeviceInfo(dev, past);
    var ota := ReadOtaEepromInfo(dev, past + info.ops);
    var pre := info.ops + ota.ops;
    assert r.target.Some?;
    var t := r.target.value;
    var image := Image(t, bankA, bankB);
    var f := FlashTo(send, sha256, dev, past + pre, t, image, fuel);
    assert r.ops == pre + f.ops && f.outcome.Success? && t.length == BankSize;
    FlashSuccessMeans(send, sha256, dev, past + pre, t, image, fuel);
    EndsDisconnectedAfter(pre, f.ops);
  }
}
