/** The six AutoOTA commands: per-kind parameter validation, the fixed little-endian
    wire encoding, the optional I/O buffer and the optional read-back result.

    The source keeps parameters in a keyword bag; each field here is an `Arg` so that a
    missing parameter, a parameter of the wrong Python type and a well-typed one are all
    representable, and the validation branches can be stated exactly. */
module Commands {
  import opened Results
  import opened Bytes

  /** One keyword parameter as the command object sees it. `Missing` covers both an
      absent key and a key bound to None (`kwargs.get(k) is None`). */
  datatype Arg = Missing | IntArg(i: int) | BytesArg(b: bytes) | OtherArg

  datatype Command =
    | Read(address: Arg, length: Arg, readResult: Option<bytes>)
    | Program(address: Arg, data: Arg)
    | Erase(address: Arg, length: Arg)
    | Verify(address: Arg, length: Arg)
    | Reboot
    | Confirm

  const OpRead: byte := 0x00
  const OpProgram: byte := 0x01
  const OpErase: byte := 0x02
  const OpVerify: byte := 0x03
  const OpReboot: byte := 0x04
  const OpConfirm: byte := 0x05

  function Opcode(cmd: Command): byte {
    match cmd
    case Read(_, _, _) => OpRead
    case Program(_, _) => OpProgram
    case Erase(_, _) => OpErase
    case Verify(_, _) => OpVerify
    case Reboot => OpReboot
    case Confirm => OpConfirm
  }

  /** A fresh Read command, before any result has been stored. */
  function NewRead(address: int, length: int): Command {
    Read(IntArg(address), IntArg(length), None)
  }

  /** The kinds that address a region by (address, length). */
  predicate IsRegion(cmd: Command) {
    cmd.Read? || cmd.Erase? || cmd.Verify?
  }

  datatype ValidationError =
    | MissingAddress    // ValueError: requires 'address'
    | AddressNotInt     // TypeError: 'address' must be an integer
    | MissingLength     // ValueError: requires 'length'
    | LengthNotPositive // TypeError: 'length' must be a positive integer
    | MissingData       // ValueError: requires 'data'
    | DataNotBytes      // TypeError: 'data' must be of type bytes

  /** The checks shared by Read, Erase and Verify, in the order the source makes them. */
  function ValidateRegion(address: Arg, length: Arg): (r: Result<(), ValidationError>)
    ensures r.Ok? <==> address.IntArg? && length.IntArg? && length.i > 0
    ensures address.Missing? ==> r == Err(MissingAddress)
    ensures !address.Missing? && !address.IntArg? ==> r == Err(AddressNotInt)
    ensures address.IntArg? && length.Missing? ==> r == Err(MissingLength)
  {
    if address.Missing? then Err(MissingAddress)
    else if !address.IntArg? then Err(AddressNotInt)
    else if length.Missing? then Err(MissingLength)
    else if !length.IntArg? || length.i <= 0 then Err(LengthNotPositive)
    else Ok(())
  }

  /** `cmd_validate`: raises (here: Err) on the first failed parameter check. */
  function Validate(cmd: Command): (r: Result<(), ValidationError>)
    ensures IsRegion(cmd) ==>
              (r.Ok? <==> cmd.address.IntArg? && cmd.length.IntArg? && cmd.length.i > 0)
    ensures cmd.Program? ==> (r.Ok? <==> cmd.address.IntArg? && cmd.data.BytesArg?)
    ensures cmd.Reboot? || cmd.Confirm? ==> r.Ok?
  {
    match cmd
    case Read(a, n, _) => ValidateRegion(a, n)
    case Erase(a, n) => ValidateRegion(a, n)
    case Verify(a, n) => ValidateRegion(a, n)
    case Program(a, d) =>
      if a.Missing? then Err(MissingAddress)
      else if !a.IntArg? then Err(AddressNotInt)
      else if d.Missing? then Err(MissingData)
      else if !d.BytesArg? then Err(DataNotBytes)
      else Ok(())
    case Reboot => Ok(())
    case Confirm => Ok(())
  }

  predicate Valid(cmd: Command) {
    Validate(cmd).Ok?
  }

  /** `struct.pack('<I', x)` raises `struct.error` outside [0, 2^32). */
  datatype EncodeError = PackOutOfRange

  function PackU32(x: int): (r: Result<bytes, EncodeError>)
    ensures r.Ok? <==> InU32(x)
    ensures r.Ok? ==> r.value == LeU32(x)
  {
    if InU32(x) then Ok(LeU32(x)) else Err(PackOutOfRange)
  }

  /** `cmd_to_bytes` of a validated command. */
  function Encode(cmd: Command): (r: Result<bytes, EncodeError>)
    requires Valid(cmd)
    ensures IsRegion(cmd) ==>
              && (r.Ok? <==> InU32(cmd.address.i) && InU32(cmd.length.i))
              && (r.Ok? ==> |r.value| == 9 && r.value[0] == Opcode(cmd)
                            && ReadLeU32(r.value[1..5]) == cmd.address.i
                            && ReadLeU32(r.value[5..9]) == cmd.length.i)
    ensures cmd.Program? ==>
              && (r.Ok? <==> InU32(cmd.address.i))
              && (r.Ok? ==> |r.value| == 5 && r.value[0] == OpProgram
                            && ReadLeU32(r.value[1..5]) == cmd.address.i)
    ensures cmd.Reboot? ==> r == Ok([OpReboot])
    ensures cmd.Confirm? ==> r == Ok([OpConfirm])
  {
    match cmd
    case Reboot => Ok([OpReboot])
    case Confirm => Ok([OpConfirm])
    case Program(a, _) =>
      var addr :- PackU32(a.i);
      ReadLeU32OfLeU32(a.i);
      Layout(OpProgram, addr, []);
      Ok([OpProgram] + addr)
    case _ =>
      var addr :- PackU32(cmd.address.i);
      var len :- PackU32(cmd.length.i);
      ReadLeU32OfLeU32(cmd.address.i);
      ReadLeU32OfLeU32(cmd.length.i);
      Layout(Opcode(cmd), addr, len);
      Ok([Opcode(cmd)] + addr + len)
  }

  /** Where the fields sit in an opcode followed by a 4-byte field and a trailer. */
  lemma Layout(op: byte, field: bytes, trailer: bytes)
    requires |field| == 4
    ensures var out := [op] + field + trailer;
      && |out| == 5 + |trailer| && out[0] == op
      && out[1..5] == field && out[5..] == trailer
    ensures trailer == [] ==> [op] + field + trailer == [op] + field
  {
    var out := [op] + field + trailer;
    assert out[1..5] == field;
    assert out[5..] == trailer;
  }

  /** `cmd_get_iobuf`: only Program hands over a buffer, and it is its data. */
  function IoBuf(cmd: Command): (r: Option<bytes>)
    ensures r.Some? <==> cmd.Program? && cmd.data.BytesArg?
    ensures r.Some? ==> r.value == cmd.data.b
  {
    match cmd
    case Program(_, BytesArg(d)) => Some(d)
    case _ => None
  }

  /** The buffer as the exchange uses it: `if cmd_iobuf:` treats None and b'' alike. */
  function Payload(cmd: Command): (p: bytes)
    ensures |p| > 0 ==> cmd.Program?
    ensures IoBuf(cmd).Some? ==> p == IoBuf(cmd).value
  {
    IoBuf(cmd).GetOr([])
  }

  /** `cmd_need_result`: true for Read alone. */
  predicate NeedResult(cmd: Command) {
    cmd.Read?
  }

  /** `cmd_set_result`: only Read overrides it, storing the buffer unchanged; the base
      class raises, but the exchange calls it only when a result is needed. */
  function SetResult(cmd: Command, iobuf: bytes): (r: Command)
    requires NeedResult(cmd)
    ensures r.Read? && r.readResult == Some(iobuf)
    ensures r.address == cmd.address && r.length == cmd.length
  {
    cmd.(readResult := Some(iobuf))
  }

  // ---------------------------------------------------------------------------
  // Properties
  // ---------------------------------------------------------------------------

  /** The address and length fields of an encoded Read, Erase or Verify decode back to
      the command's parameters, and the byte form determines the command. */
  lemma RegionEncodingRoundTrip(c1: Command, c2: Command)
    requires IsRegion(c1) && Valid(c1) && Encode(c1).Ok?
    requires IsRegion(c2) && Valid(c2) && Encode(c2).Ok?
    requires Encode(c1) == Encode(c2)
    ensures Opcode(c1) == Opcode(c2)
    ensures c1.address == c2.address && c1.length == c2.length
  {
    var b := Encode(c1).value;
    assert ReadLeU32(b[1..5]) == c1.address.i == c2.address.i;
    assert ReadLeU32(b[5..9]) == c1.length.i == c2.length.i;
  }

  /** The sample wire forms: Read(0x1000, 256), Program(0x2000) and Reboot. */
  lemma SampleEncodings()
    ensures Encode(NewRead(0x1000, 256)) == Ok([0x00, 0x00, 0x10, 0x00, 0x00, 0x00, 0x01, 0x00, 0x00])
    ensures Encode(Program(IntArg(0x2000), BytesArg([0xAA]))) == Ok([0x01, 0x00, 0x20, 0x00, 0x00])
    ensures Encode(Reboot) == Ok([0x04])
  {
    assert LeU32(0x1000) == [0x00, 0x10, 0x00, 0x00];
    assert LeU32(256) == [0x00, 0x01, 0x00, 0x00];
    assert LeU32(0x2000) == [0x00, 0x20, 0x00, 0x00];
    assert Encode(NewRead(0x1000, 256)) == Ok([OpRead] + LeU32(0x1000) + LeU32(256));
    assert Encode(Program(IntArg(0x2000), BytesArg([0xAA]))) == Ok([OpProgram] + LeU32(0x2000));
    assert [OpRead] + LeU32(0x1000) + LeU32(256) == [0x00, 0x00, 0x10, 0x00, 0x00, 0x00, 0x01, 0x00, 0x00];
    assert [OpProgram] + LeU32(0x2000) == [0x01, 0x00, 0x20, 0x00, 0x00];
  }

  /** Program's data never reaches the command bytes: two Programs to the same address
      encode identically whatever they carry, empty data included. */
  lemma ProgramEncodingIgnoresData(address: int, d1: bytes, d2: bytes)
    ensures Valid(Program(IntArg(address), BytesArg(d1)))
    ensures Encode(Program(IntArg(address), BytesArg(d1))) == Encode(Program(IntArg(address), BytesArg(d2)))
  {
  }
}
