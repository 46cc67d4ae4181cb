/**
  The register commands of `PersonSensor`: each setter checks its argument,
  then hands a 2-byte `[register, value]` command to the I2C write. Here a
  setter returns the bytes it would write, or the `ValueError` it would
  raise instead of writing; the write itself is not part of the model.

  `Interpret` reads a 2-byte command the way the register table lays it
  out, and is the partner every setter is stated against: a setter's
  bytes are the one command that means what the call asked for.
 */
module Commands {
  import opened Wire

  const RegSetMode: byte := 0x01
  const RegEnableId: byte := 0x02
  const RegTriggerSingleShot: byte := 0x03
  const RegLabelId: byte := 0x04
  const RegPersistIds: byte := 0x05
  const RegEraseIds: byte := 0x06
  const RegDebugMode: byte := 0x07

  /** The device only infers when triggered. */
  const ModeStandby: byte := 0x00
  /** The device infers all the time. */
  const ModeContinuous: byte := 0x01

  /** Number of identities the device can learn: ids 0 to 7. */
  const NumIds: nat := 8

  /** The `ValueError`s the setters raise. */
  datatype CommandError = InvalidMode(mode: int) | InvalidId(id: int)

  /** What a register write asks the device to do. */
  datatype Command =
    | SelectMode(mode: byte)
    | IdentifyFaces(on: bool)
    | SingleShot
    | LabelNext(id: nat)
    | PersistLabels(on: bool)
    | EraseLabels
    | DebugLed(on: bool)

  /** A boolean as the value byte of a command. */
  function BoolByte(b: bool): (v: byte)
    ensures v == 1 <==> b
    ensures v == 0 <==> !b
  {
    if b then 0x01 else 0x00
  }

  /** Reads a command as the register table lays it out; `None` for anything else. */
  function Interpret(cmd: seq<byte>): (c: Option<Command>)
    ensures c.Some? ==> |cmd| == 2
  {
    if |cmd| != 2 then None
    else
      var reg, v := cmd[0], cmd[1];
      if reg == RegSetMode && (v == ModeStandby || v == ModeContinuous) then Some(SelectMode(v))
      else if reg == RegEnableId && v <= 1 then Some(IdentifyFaces(v == 1))
      else if reg == RegTriggerSingleShot && v == 0 then Some(SingleShot)
      else if reg == RegLabelId && v < NumIds then Some(LabelNext(v))
      else if reg == RegPersistIds && v <= 1 then Some(PersistLabels(v == 1))
      else if reg == RegEraseIds && v == 0 then Some(EraseLabels)
      else if reg == RegDebugMode && v <= 1 then Some(DebugLed(v == 1))
      else None
  }

  /**
    Two byte strings that mean the same command are the same bytes, so a
    setter's contract `Interpret(cmd) == Some(c)` fixes `cmd` exactly.
   */
  lemma InterpretInjective(a: seq<byte>, b: seq<byte>)
    requires Interpret(a).Some? && Interpret(a) == Interpret(b)
    ensures a == b
  {
  }

  /** `enable_debug_mode`: turn the indicator LED on or off. */
  function EnableDebugMode(enable: bool): (cmd: seq<byte>)
    ensures Interpret(cmd) == Some(DebugLed(enable))
  {
    [RegDebugMode, BoolByte(enable)]
  }

  /** `enable_id`: turn face identification on or off. */
  function EnableId(enable: bool): (cmd: seq<byte>)
    ensures Interpret(cmd) == Some(IdentifyFaces(enable))
  {
    [RegEnableId, BoolByte(enable)]
  }

  /** `set_mode`: only standby and continuous are accepted; anything else writes nothing. */
  function SetMode(mode: int): (r: Result<seq<byte>, CommandError>)
    ensures r.Success? <==> mode == ModeStandby || mode == ModeContinuous
    ensures r.Success? ==> Interpret(r.value) == Some(SelectMode(mode as byte))
    ensures r.Failure? ==> r.error == InvalidMode(mode)
  {
    if !(mode == ModeStandby || mode == ModeContinuous) then Failure(InvalidMode(mode))
    else Success([RegSetMode, mode as byte])
  }

  /** `trigger_single_shot`: run one inference (useful in standby mode). */
  function TriggerSingleShot(): (cmd: seq<byte>)
    ensures Interpret(cmd) == Some(SingleShot)
  {
    [RegTriggerSingleShot, 0x00]
  }

  /** `label_next_id`: only ids 0 to `NumIds - 1` are accepted; anything else writes nothing. */
  function LabelNextId(id: int): (r: Result<seq<byte>, CommandError>)
    ensures r.Success? <==> 0 <= id < NumIds
    ensures r.Success? ==> Interpret(r.value) == Some(LabelNext(id as nat))
    ensures r.Failure? ==> r.error == InvalidId(id)
  {
    if id < 0 || id >= NumIds then Failure(InvalidId(id))
    else Success([RegLabelId, id as byte])
  }

  /** `set_persist_ids`: keep learned ids across power cycles, or not. */
  function SetPersistIds(persist: bool): (cmd: seq<byte>)
    ensures Interpret(cmd) == Some(PersistLabels(persist))
  {
    [RegPersistIds, BoolByte(persist)]
  }

  /** `erase_ids`: forget every learned id. */
  function EraseIds(): (cmd: seq<byte>)
    ensures Interpret(cmd) == Some(EraseLabels)
  {
    [RegEraseIds, 0x00]
  }
}
