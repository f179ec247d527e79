/** The command-line layer of `flashtool.py` that decides what reaches the device: the
    per-mode option checks of `_validate_args` and the key conversion in `connect_ble`. */
module Cli {
  import opened Results
  import opened Bytes
  import opened Channel

  /** The positional `mode`, one per COMMAND_TABLE entry. */
  datatype Mode = Info | DevInfo | OtaInfo | ReadMode | WriteMode | EraseMode | VerifyMode
                | RebootMode | CommitMode | FlashMode

  /** The options `_validate_args` can demand. */
  datatype Opt = AesKey | Address | Length | File | BankA | BankB

  /** The parsed namespace; None is an option that was not given. Paths stay names. */
  datatype Args = Args(mode: Mode, aesKey: Option<string>, address: Option<int>,
                       length: Option<int>, file: Option<string>,
                       bankA: Option<string>, bankB: Option<string>)

  datatype ArgError = MissingOption(opt: Opt) | BadKey

  predicate Given(a: Args, o: Opt) {
    match o
    case AesKey => a.aesKey.Some?
    case Address => a.address.Some?
    case Length => a.length.Some?
    case File => a.file.Some?
    case BankA => a.bankA.Some?
    case BankB => a.bankB.Some?
  }

  /** The modes that talk to the protected OTA service. */
  predicate NeedsKey(m: Mode) {
    m in {ReadMode, WriteMode, EraseMode, VerifyMode, CommitMode, RebootMode, FlashMode}
  }

  /** `check_aes_key`: exactly 32 characters, all hex digits of either case. */
  predicate WellFormedKey(s: string) {
    |s| == 32 && forall i :: 0 <= i < |s| ==> IsHexChar(s[i])
  }

  /** The option table, stated per option: which modes need it. */
  predicate Required(m: Mode, o: Opt) {
    match o
    case AesKey => NeedsKey(m)
    case Address => m in {ReadMode, WriteMode, EraseMode, VerifyMode}
    case Length => m in {ReadMode, EraseMode, VerifyMode}
    case File => m in {WriteMode, VerifyMode}
    case BankA => m == FlashMode
    case BankB => m == FlashMode
  }

  function Need(a: Args, o: Opt): Result<(), ArgError> {
    if Given(a, o) then Ok(()) else Err(MissingOption(o))
  }

  /** `_validate_args`: the checks in the order the source makes them; the first failed
      one is the `sys.exit` message. */
  function ValidateArgs(a: Args): (r: Result<(), ArgError>)
    ensures r.Err? && r.error.MissingOption? ==> Required(a.mode, r.error.opt) && !Given(a, r.error.opt)
    ensures r.Err? && r.error.BadKey? ==> NeedsKey(a.mode) && a.aesKey.Some? && !WellFormedKey(a.aesKey.value)
  {
    var m := a.mode;
    var _ :- if NeedsKey(m) then Need(a, AesKey) else Ok(());
    var _ :- if NeedsKey(m) && !WellFormedKey(a.aesKey.value) then Err(BadKey) else Ok(());
    var _ :- if m in {ReadMode, WriteMode, EraseMode, VerifyMode} then Need(a, Address) else Ok(());
    var _ :- if m in {ReadMode, EraseMode, VerifyMode} then Need(a, Length) else Ok(());
    var _ :- if m in {WriteMode, VerifyMode} then Need(a, File) else Ok(());
    var _ :- if m == FlashMode then Need(a, BankA) else Ok(());
    if m == FlashMode then Need(a, BankB) else Ok(())
  }

  /** Validation passes exactly when every option the mode requires is given and, where
      a key is required, it is well formed. */
  lemma ValidateArgsComplete(a: Args)
    ensures ValidateArgs(a).Ok? <==>
              (forall o :: Required(a.mode, o) ==> Given(a, o))
              && (NeedsKey(a.mode) ==> a.aesKey.Some? && WellFormedKey(a.aesKey.value))
  {
    if ValidateArgs(a).Ok? {
      forall o | Required(a.mode, o)
        ensures Given(a, o)
      {
        match o
        case AesKey =>
        case Address =>
        case Length =>
        case File =>
        case BankA =>
        case BankB =>
      }
    } else {
      var e := ValidateArgs(a).error;
      if e.MissingOption? {
        assert Required(a.mode, e.opt) && !Given(a, e.opt);
      }
    }
  }

  /** The info modes need nothing: any combination of options validates. */
  lemma InfoModesNeedNothing(a: Args)
    requires a.mode in {Info, DevInfo, OtaInfo}
    ensures ValidateArgs(a).Ok?
  {
  }

  datatype ConnectError = KeyNotHex | KeyRejected(error: KeyError)

  /** `bytes.fromhex(args.aes_key) if args.aes_key else None`, handed to the controller.
      An absent or empty key gives a keyless controller. */
  function ControllerFromCli(aesKey: Option<string>): (r: Result<Controller, ConnectError>)
    ensures aesKey.None? || aesKey == Some("") ==> r == Ok(Controller(None))
    ensures r.Ok? && r.value.key.Some? ==> aesKey.Some? && FromHex(aesKey.value) == Some(r.value.key.value)
    // A non-empty key is refused when it is not hex, or when it spells other than 16 bytes.
    ensures aesKey.Some? && aesKey.value != "" ==>
              && (r == Err(KeyNotHex) <==> FromHex(aesKey.value).None?)
              && (r.Ok? <==> FromHex(aesKey.value).Some? && |FromHex(aesKey.value).value| == 16)
              && (r.Ok? ==> r.value.key.Some?)
              && (FromHex(aesKey.value).Some? && |FromHex(aesKey.value).value| != 16 ==> r == Err(KeyRejected(KeyLengthError)))
  {
    if aesKey.None? || aesKey.value == "" then Ok(Controller(None))
    else
      match FromHex(aesKey.value)
      case None => Err(KeyNotHex)
      case Some(b) =>
        match MakeController(KeyBytes(b))
        case Ok(c) => Ok(c)
        case Err(e) => Err(KeyRejected(e))
  }

  /** A key that passed `_validate_args` always yields a keyed controller whose key is the
      16 bytes the hex text spells. */
  lemma ValidatedKeyConnects(a: Args)
    requires NeedsKey(a.mode) && ValidateArgs(a).Ok?
    ensures var r := ControllerFromCli(a.aesKey);
      && r.Ok? && r.value.key.Some?
      && FromHex(a.aesKey.value) == Some(r.value.key.value)
  {
    var s := a.aesKey.value;
    FromHexAllDigits(s);
    assert |FromHex(s).value| == 16;
  }

  /** Key text with whitespace between its byte pairs, as `bytes.fromhex` allows it,
      connects with the bytes it spells. */
  lemma SpacedKeyConnects(a: bytes, b: bytes)
    requires |a| + |b| == 16
    ensures ControllerFromCli(Some(Hex(a) + " " + Hex(b))) == Ok(Controller(Some(a + b)))
  {
    var s := Hex(a) + " " + Hex(b);
    assert s == Hex(a) + (" " + Hex(b));
    FromHexOfHex(b);
    FromHexSkipsSpace(" ", Hex(b));
    FromHexAppend(a, " " + Hex(b));
    assert FromHex(s) == Some(a + b);
  }
}
