/**
 * c/src/command_interface.h: the 8-byte command words sent on the control
 * socket.  A command word is eight bytes, zero except for the opcode (byte
 * 6), an optional selector or argument byte (byte 4 or 0), and an optional
 * `long` argument written little-endian from byte 0 by katherine_cmd_long.
 * The bytes are `char` in the source; here they are their unsigned values.
 * A `long` is 64 bits wide (an LP64 host).
 */
module CommandInterface {
  import opened Bits
  import opened Wrappers

  /** sizeof(cmd) of every builder. */
  const CommandSize: nat := 8

  /** `char cmd[8] = {0}`. */
  function Blank(): (d: seq<Byte>)
    ensures |d| == CommandSize && forall i :: 0 <= i < |d| ==> d[i] == 0
  {
    [0, 0, 0, 0, 0, 0, 0, 0]
  }

  /** The values a 64-bit `long` holds. */
  predicate InLong(value: int)
  {
    -0x8000_0000_0000_0000 <= value < 0x8000_0000_0000_0000
  }

  // ---------------------------------------------------------------------
  // katherine_cmd_long (lines 77-91).

  /** The base-256 digits of v, least significant first, up to the highest non-zero one. */
  function LongBytes(v: nat): seq<Byte>
    decreases v
  {
    if v == 0 then [] else [v % 256] + LongBytes(v / 256)
  }

  /** The bytes katherine_cmd_long writes: none unless the value is positive. */
  function Bytes(value: int): seq<Byte>
  {
    if value <= 0 then [] else LongBytes(value)
  }

  /**
   * `(0xff & mlsb) | (0xff & mmsb) << 4` on two nibbles, in 8 bits: the low
   * nibble is lo and the high nibble is hi, so the OR adds them.
   */
  method NibbleOr(lo: nat, hi: nat) returns (b: Byte)
    requires lo < 16 && hi < 16
    ensures b == lo + 16 * hi
    ensures b % 16 == lo && b / 16 == hi
  {
    ByteBits(lo);
    ByteBits(hi);
    OrIsAdd(lo as bv8, hi as bv8);
    b := ((lo as bv8) | ((hi as bv8) << 4)) as int;
  }

  /** A nibble survives the trip through `bv8`. */
  lemma ByteBits(x: nat)
    requires x < 16
    ensures (x as bv8) as int == x
  {
  }

  /** Two nibbles in disjoint bits: the OR is the sum. */
  lemma OrIsAdd(lo: bv8, hi: bv8)
    requires lo as int < 16 && hi as int < 16
    ensures (lo | (hi << 4)) as int == lo as int + 16 * (hi as int)
  {
  }

  /** Two nibble steps of the loop take one byte off the value. */
  lemma Nibbles(v: nat)
    ensures v % 16 + 16 * ((v / 16) % 16) == v % 256
    ensures (v / 16) / 16 == v / 256
  {
    var q, r := v / 256, v % 256;
    assert v == 16 * (16 * q + r / 16) + r % 16;
    DivModUnique(v, 16, 16 * q + r / 16, r % 16);
    DivModUnique(v / 16, 16, q, r / 16);
  }

  /**
   * katherine_cmd_long: while the value is positive, two nibbles at a time
   * become the next byte of cmd from index 0.  The bytes it writes are
   * exactly Bytes(value); the rest of cmd keeps what it held.
   */
  method CmdLong(cmd: array<Byte>, value: int)
    requires |Bytes(value)| <= cmd.Length
    modifies cmd
    ensures cmd[..] == Bytes(value) + old(cmd[..])[|Bytes(value)|..]
  {
    ghost var written := Bytes(value);
    var i := 0;
    var v := value;
    while v > 0
      invariant 0 <= i && i + |Bytes(v)| == |written|
      invariant Bytes(v) == written[i..]
      invariant forall j :: 0 <= j < i ==> cmd[j] == written[j]
      invariant forall j :: i <= j < cmd.Length ==> cmd[j] == old(cmd[j])
      decreases v
    {
      ghost var v0 := v;
      var mlsb := v % 16;
      v := v / 16;
      var mmsb := v % 16;
      v := v / 16;
      var b := NibbleOr(mlsb, mmsb);
      assert written[i..] == [b] + Bytes(v) by {
        Nibbles(v0);
        assert v == v0 / 256 && b == v0 % 256;
        assert Bytes(v) == LongBytes(v0 / 256);
        assert Bytes(v0) == [v0 % 256] + LongBytes(v0 / 256);
      }
      cmd[i] := b;
      assert written[i + 1..] == written[i..][1..];
      i := i + 1;
    }
    assert i == |written|;
    assert cmd[..] == written + old(cmd[..])[i..];
  }

  // ---------------------------------------------------------------------
  // What katherine_cmd_long writes.

  lemma DivDiv(v: nat, a: nat, b: nat)
    requires a > 0 && b > 0
    ensures (v / a) / b == v / (a * b)
  {
    var q, r := v / a, v % a;
    var q2, r2 := q / b, q % b;
    assert v == q2 * (a * b) + (r2 * a + r) by {
      assert v == q * a + r;
      assert q == q2 * b + r2;
    }
    assert r2 * a + r < a * b by {
      assert r2 <= b - 1;
      assert r2 * a <= (b - 1) * a;
    }
    DivModUnique(v, a * b, q2, r2 * a + r);
  }

  /** Byte i is bits 8i..8i+7 of the value: cmd[i] = (value / 256^i) mod 256. */
  lemma {:induction false} LongBytesAt(v: nat, i: nat)
    requires i < |LongBytes(v)|
    ensures LongBytes(v)[i] == Extract(v, 8 * i, 8)
    decreases v
  {
    Pow2Values();
    if i == 0 {
      assert Pow2(0) == 1;
    } else {
      LongBytesAt(v / 256, i - 1);
      Pow2Add(8, 8 * (i - 1));
      DivDiv(v, 256, Pow2(8 * (i - 1)));
      assert 8 + 8 * (i - 1) == 8 * i;
    }
  }

  /** A value below 2^(8k) takes at most k bytes; so a `long` at most 8 iterations. */
  lemma {:induction false} LongBytesLength(v: nat, k: nat)
    requires v < Pow2(8 * k)
    ensures |LongBytes(v)| <= k
    decreases v
  {
    if v > 0 {
      assert k != 0 by {
        assert Pow2(8 * 0) == 1;
      }
      Pow2Add(8, 8 * (k - 1));
      Pow2Values();
      assert 8 + 8 * (k - 1) == 8 * k;
      LongBytesLength(v / 256, k - 1);
    }
  }

  /** A `long` never writes past the 8 bytes of a command. */
  lemma LongFits(value: int)
    requires InLong(value)
    ensures |Bytes(value)| <= CommandSize
  {
    if value > 0 {
      Pow2Values();
      LongBytesLength(value, 8);
    }
  }

  /** Round trip: the bytes written read back little-endian as the value. */
  lemma {:induction false} LittleEndianLongBytes(v: nat)
    ensures LittleEndian(LongBytes(v)) == v
    decreases v
  {
    if v > 0 {
      LittleEndianLongBytes(v / 256);
      assert LongBytes(v)[1..] == LongBytes(v / 256);
    }
  }

  /** Zero bytes above the value do not change it. */
  lemma {:induction false} LittleEndianZeros(s: seq<Byte>, z: seq<Byte>)
    requires forall i :: 0 <= i < |z| ==> z[i] == 0
    ensures LittleEndian(s + z) == LittleEndian(s)
    decreases |s| + |z|
  {
    if s == [] {
      assert s + z == z;
      if z != [] {
        LittleEndianZeros([], z[1..]);
        assert [] + z[1..] == z[1..];
      }
    } else {
      LittleEndianZeros(s[1..], z);
      assert (s + z)[1..] == s[1..] + z;
    }
  }

  // ---------------------------------------------------------------------
  // The builders (lines 60-75, 93-112).

  /** katherine_cmd6: eight zero bytes except the opcode in byte 6. */
  function Cmd6(val6: Byte): (d: seq<Byte>)
    ensures |d| == CommandSize && d[6] == val6
    ensures forall i :: 0 <= i < CommandSize && i != 6 ==> d[i] == 0
  {
    Blank()[6 := val6]
  }

  /** katherine_cmd60: as Cmd6, with the argument byte in byte 0. */
  function Cmd60(val6: Byte, val0: Byte): (d: seq<Byte>)
    ensures |d| == CommandSize && d[6] == val6 && d[0] == val0
    ensures forall i :: 0 < i < CommandSize && i != 6 ==> d[i] == 0
  {
    Blank()[6 := val6][0 := val0]
  }

  /** A command word with katherine_cmd_long applied on top of base. */
  function WithLong(base: seq<Byte>, value: int): (d: seq<Byte>)
    requires |base| == CommandSize && InLong(value)
    ensures |d| == CommandSize
  {
    LongFits(value);
    Bytes(value) + base[|Bytes(value)|..]
  }

  /** Byte i of WithLong: a byte of the value where one was written, the base byte elsewhere. */
  lemma WithLongAt(base: seq<Byte>, value: int, i: nat)
    requires |base| == CommandSize && InLong(value) && i < CommandSize
    ensures |WithLong(base, value)| == CommandSize
    ensures WithLong(base, value)[i] == if i < |Bytes(value)| then Extract(value, 8 * i, 8) else base[i]
  {
    LongFits(value);
    if i < |Bytes(value)| {
      LongBytesAt(value, i);
    }
  }

  /** The first k bytes of WithLong, when the value fits in them, read back as the value. */
  lemma WithLongValue(base: seq<Byte>, value: int, k: nat)
    requires |base| == CommandSize && 0 <= value && k < CommandSize && value < Pow2(8 * k)
    requires forall i :: 0 <= i < k ==> base[i] == 0
    ensures InLong(value) && LittleEndian(WithLong(base, value)[..k]) == value
  {
    Pow2Values();
    Pow2Monotone(8 * k, 56);
    assert value < Pow2(56);
    assert InLong(value);
    LongFits(value);
    LongBytesLength(value, k);
    var b := Bytes(value);
    var w := WithLong(base, value);
    assert w[..k] == b + base[|b|..k];
    LittleEndianZeros(b, base[|b|..k]);
    LittleEndianLongBytes(value);
  }

  /** katherine_cmd64_long: opcode in byte 6, selector in byte 4, then the value from byte 0. */
  method Cmd64Long(val6: Byte, val4: Byte, value: int) returns (d: seq<Byte>)
    requires InLong(value)
    ensures d == WithLong(Blank()[6 := val6][4 := val4], value)
  {
    var cmd := new Byte[8](_ => 0);
    cmd[6] := val6;
    cmd[4] := val4;
    assert cmd[..] == Blank()[6 := val6][4 := val4];
    LongFits(value);
    CmdLong(cmd, value);
    d := cmd[..];
  }

  /** katherine_cmd6_long: opcode in byte 6, then the value from byte 0. */
  method Cmd6Long(val6: Byte, value: int) returns (d: seq<Byte>)
    requires InLong(value)
    ensures d == WithLong(Cmd6(val6), value)
  {
    var cmd := new Byte[8](_ => 0);
    cmd[6] := val6;
    assert cmd[..] == Cmd6(val6);
    LongFits(value);
    CmdLong(cmd, value);
    d := cmd[..];
  }

  /**
   * cmd64_long keeps its selector and opcode, with the value in bytes 0-3,
   * exactly when the value is below 2^32.
   */
  lemma Cmd64LongFields(val6: Byte, val4: Byte, value: int)
    requires 0 <= value < 0x1_0000_0000
    ensures InLong(value)
    ensures var d := WithLong(Blank()[6 := val6][4 := val4], value);
      && d[6] == val6 && d[4] == val4 && d[5] == 0 && d[7] == 0
      && LittleEndian(d[..4]) == value
  {
    Pow2Values();
    var base := Blank()[6 := val6][4 := val4];
    WithLongValue(base, value, 4);
    LongBytesLength(value, 4);
    WithLongAt(base, value, 4);
    WithLongAt(base, value, 5);
    WithLongAt(base, value, 6);
    WithLongAt(base, value, 7);
  }

  /**
   * From 2^32 on the fifth byte of the value replaces the selector: line 89
   * assigns the byte rather than OR-ing it in.
   */
  lemma Cmd64LongOverwrites(val6: Byte, val4: Byte, value: int)
    requires 0x1_0000_0000 <= value && InLong(value)
    ensures WithLong(Blank()[6 := val6][4 := val4], value)[4] == Extract(value, 32, 8)
  {
    Pow2Values();
    var base := Blank()[6 := val6][4 := val4];
    assert |Bytes(value)| > 4 by {
      TooLong(value, 4);
    }
    WithLongAt(base, value, 4);
  }

  /** A value of at least 2^(8k) needs more than k bytes. */
  lemma {:induction false} TooLong(v: nat, k: nat)
    requires v >= Pow2(8 * k)
    ensures |LongBytes(v)| > k
    decreases k
  {
    Pow2Values();
    if k > 0 {
      Pow2Add(8, 8 * (k - 1));
      assert 8 + 8 * (k - 1) == 8 * k;
      assert v / 256 >= Pow2(8 * (k - 1)) by {
        DivModUnique(Pow2(8 * k), 256, Pow2(8 * (k - 1)), 0);
      }
      TooLong(v / 256, k - 1);
    } else {
      assert Pow2(0) == 1;
    }
  }

  /** cmd6_long keeps its opcode, with the value in bytes 0-5, for values below 2^48. */
  lemma Cmd6LongFields(val6: Byte, value: int)
    requires 0 <= value < 0x1_0000_0000_0000
    ensures InLong(value)
    ensures var d := WithLong(Cmd6(val6), value);
      d[6] == val6 && d[7] == 0 && LittleEndian(d[..6]) == value
  {
    Pow2Values();
    WithLongValue(Cmd6(val6), value, 6);
    LongBytesLength(value, 6);
    WithLongAt(Cmd6(val6), value, 6);
    WithLongAt(Cmd6(val6), value, 7);
  }

  /** A value that is not positive writes nothing: cmd6_long is cmd6. */
  lemma Cmd6LongNonPositive(val6: Byte, value: int)
    requires InLong(value) && value <= 0
    ensures WithLong(Cmd6(val6), value) == Cmd6(val6)
  {
  }

  // ---------------------------------------------------------------------
  // The command codes (lines 140-198) and the named commands the macros
  // define (lines 173-243).

  /** katherine_cmd_type_t: the opcode in byte 6. */
  datatype CmdType =
    | AcquisitionTimeSettingsLsb | BiasSettings | AcquisitionStart | InternalDacSettings
    | SeqReadoutStart | AcquisitionStop | HwCommandStart | SensorRegisterSetting
    | AcquisitionModeSetting | AcquisitionTimeSettingMsb | EchoChipId | GetBiasVoltage
    | GetAdcVoltage | GetBackReadRegister | InternalDacScan | SetPixelConfig
    | GetPixelConfig | SetAllPixelConfig | NumberOfFrames | GetAllDacScan
    | GetHwReadoutTemperature | LedSettings | GetReadoutStatus | GetCommunicationStatus
    | GetSensorTemperature | DigitalTest | AcquisitionSetup | InternalTriggerGenerator
    | ToaCalibrationSetup | InternalTdcSettings

  function Code(t: CmdType): Byte
  {
    match t
    case AcquisitionTimeSettingsLsb => 0x01
    case BiasSettings => 0x02
    case AcquisitionStart => 0x03
    case InternalDacSettings => 0x04
    case SeqReadoutStart => 0x05
    case AcquisitionStop => 0x06
    case HwCommandStart => 0x07
    case SensorRegisterSetting => 0x08
    case AcquisitionModeSetting => 0x09
    case AcquisitionTimeSettingMsb => 0x0A
    case EchoChipId => 0x0B
    case GetBiasVoltage => 0x0C
    case GetAdcVoltage => 0x0D
    case GetBackReadRegister => 0x0E
    case InternalDacScan => 0x0F
    case SetPixelConfig => 0x10
    case GetPixelConfig => 0x11
    case SetAllPixelConfig => 0x12
    case NumberOfFrames => 0x13
    case GetAllDacScan => 0x14
    case GetHwReadoutTemperature => 0x15
    case LedSettings => 0x16
    case GetReadoutStatus => 0x17
    case GetCommunicationStatus => 0x18
    case GetSensorTemperature => 0x19
    case DigitalTest => 0x20
    case AcquisitionSetup => 0x21
    case InternalTriggerGenerator => 0x23
    case ToaCalibrationSetup => 0x28
    case InternalTdcSettings => 0x32
  }

  /** The command type an opcode byte names, if any. */
  function CmdTypeOf(b: int): Option<CmdType>
  {
    match b
    case 0x01 => Some(AcquisitionTimeSettingsLsb)
    case 0x02 => Some(BiasSettings)
    case 0x03 => Some(AcquisitionStart)
    case 0x04 => Some(InternalDacSettings)
    case 0x05 => Some(SeqReadoutStart)
    case 0x06 => Some(AcquisitionStop)
    case 0x07 => Some(HwCommandStart)
    case 0x08 => Some(SensorRegisterSetting)
    case 0x09 => Some(AcquisitionModeSetting)
    case 0x0A => Some(AcquisitionTimeSettingMsb)
    case 0x0B => Some(EchoChipId)
    case 0x0C => Some(GetBiasVoltage)
    case 0x0D => Some(GetAdcVoltage)
    case 0x0E => Some(GetBackReadRegister)
    case 0x0F => Some(InternalDacScan)
    case 0x10 => Some(SetPixelConfig)
    case 0x11 => Some(GetPixelConfig)
    case 0x12 => Some(SetAllPixelConfig)
    case 0x13 => Some(NumberOfFrames)
    case 0x14 => Some(GetAllDacScan)
    case 0x15 => Some(GetHwReadoutTemperature)
    case 0x16 => Some(LedSettings)
    case 0x17 => Some(GetReadoutStatus)
    case 0x18 => Some(GetCommunicationStatus)
    case 0x19 => Some(GetSensorTemperature)
    case 0x20 => Some(DigitalTest)
    case 0x21 => Some(AcquisitionSetup)
    case 0x23 => Some(InternalTriggerGenerator)
    case 0x28 => Some(ToaCalibrationSetup)
    case 0x32 => Some(InternalTdcSettings)
    case _ => None
  }

  /** The opcodes are distinct: each names exactly one command type. */
  lemma CmdCodes(t: CmdType, b: int)
    ensures CmdTypeOf(Code(t)) == Some(t)
    ensures CmdTypeOf(b) == Some(t) ==> Code(t) == b
  {
  }

  /** katherine_hw_cmd_type_t: the argument byte 0 of a HW_COMMAND_START command. */
  datatype HwCmdType =
    | SensorConfigRegistersUpdate | InternalDacUpdate | InternalDacBackRead | TimerRead
    | TimerSet | ResetMatrixSequential | StopMatrixCommand | LoadColumnTestPulseRegister
    | ReadColumnTestPulseRegister | LoadPixelRegisterConfiguration
    | ReadPixelRegisterConfiguration | ReadPixelMatrixSequential
    | ReadPixelMatrixDataDrivenSetting | ChipIdRead | OutputBlockConfigUpdate | HwDigitalTest

  function HwCode(h: HwCmdType): Byte
  {
    match h
    case SensorConfigRegistersUpdate => 0
    case InternalDacUpdate => 1
    case InternalDacBackRead => 2
    case TimerRead => 3
    case TimerSet => 4
    case ResetMatrixSequential => 5
    case StopMatrixCommand => 6
    case LoadColumnTestPulseRegister => 7
    case ReadColumnTestPulseRegister => 8
    case LoadPixelRegisterConfiguration => 9
    case ReadPixelRegisterConfiguration => 10
    case ReadPixelMatrixSequential => 11
    case ReadPixelMatrixDataDrivenSetting => 12
    case ChipIdRead => 13
    case OutputBlockConfigUpdate => 14
    case HwDigitalTest => 15
  }

  function HwCmdTypeOf(b: int): Option<HwCmdType>
  {
    match b
    case 0 => Some(SensorConfigRegistersUpdate)
    case 1 => Some(InternalDacUpdate)
    case 2 => Some(InternalDacBackRead)
    case 3 => Some(TimerRead)
    case 4 => Some(TimerSet)
    case 5 => Some(ResetMatrixSequential)
    case 6 => Some(StopMatrixCommand)
    case 7 => Some(LoadColumnTestPulseRegister)
    case 8 => Some(ReadColumnTestPulseRegister)
    case 9 => Some(LoadPixelRegisterConfiguration)
    case 10 => Some(ReadPixelRegisterConfiguration)
    case 11 => Some(ReadPixelMatrixSequential)
    case 12 => Some(ReadPixelMatrixDataDrivenSetting)
    case 13 => Some(ChipIdRead)
    case 14 => Some(OutputBlockConfigUpdate)
    case 15 => Some(HwDigitalTest)
    case _ => None
  }

  lemma HwCodes(h: HwCmdType, b: int)
    ensures HwCmdTypeOf(HwCode(h)) == Some(h)
    ensures HwCmdTypeOf(b) == Some(h) ==> HwCode(h) == b
  {
  }

  /** The DAC selector (byte 4) of the set_dac_* commands, lines 226-243. */
  datatype Dac =
    | IbiasPreampOn | IbiasPreampOff | VpreampNcas | IbiasIkrum | Vfbk | VthresholdFine
    | VthresholdCoarse | IbiasDiscs1On | IbiasDiscs1Off | IbiasDiscs2On | IbiasDiscs2Off
    | IbiasPixeldac | IbiasTpbufferin | IbiasTpbufferout | VtpCoarse | VtpFine
    | IbiasCpPll | PllVcntrl

  function DacCode(s: Dac): Byte
  {
    match s
    case IbiasPreampOn => 0
    case IbiasPreampOff => 1
    case VpreampNcas => 2
    case IbiasIkrum => 3
    case Vfbk => 4
    case VthresholdFine => 5
    case VthresholdCoarse => 6
    case IbiasDiscs1On => 7
    case IbiasDiscs1Off => 8
    case IbiasDiscs2On => 9
    case IbiasDiscs2Off => 10
    case IbiasPixeldac => 11
    case IbiasTpbufferin => 12
    case IbiasTpbufferout => 13
    case VtpCoarse => 14
    case VtpFine => 15
    case IbiasCpPll => 16
    case PllVcntrl => 17
  }

  function DacOf(b: int): Option<Dac>
  {
    match b
    case 0 => Some(IbiasPreampOn)
    case 1 => Some(IbiasPreampOff)
    case 2 => Some(VpreampNcas)
    case 3 => Some(IbiasIkrum)
    case 4 => Some(Vfbk)
    case 5 => Some(VthresholdFine)
    case 6 => Some(VthresholdCoarse)
    case 7 => Some(IbiasDiscs1On)
    case 8 => Some(IbiasDiscs1Off)
    case 9 => Some(IbiasDiscs2On)
    case 10 => Some(IbiasDiscs2Off)
    case 11 => Some(IbiasPixeldac)
    case 12 => Some(IbiasTpbufferin)
    case 13 => Some(IbiasTpbufferout)
    case 14 => Some(VtpCoarse)
    case 15 => Some(VtpFine)
    case 16 => Some(IbiasCpPll)
    case 17 => Some(PllVcntrl)
    case _ => None
  }

  lemma DacCodes(s: Dac, b: int)
    ensures DacOf(DacCode(s)) == Some(s)
    ensures DacOf(b) == Some(s) ==> DacCode(s) == b
  {
  }

  /** The opcodes of the argument-less cmd6 commands (lines 173-179). */
  predicate IsQuery(t: CmdType)
  {
    t in {SetAllPixelConfig, EchoChipId, GetHwReadoutTemperature, GetSensorTemperature,
          GetReadoutStatus, GetCommunicationStatus, DigitalTest}
  }

  /** The opcodes of the cmd6_long commands with an integer argument (lines 217-223). */
  predicate IsLongCommand(t: CmdType)
  {
    t in {AcquisitionTimeSettingsLsb, AcquisitionTimeSettingMsb, NumberOfFrames,
          SeqReadoutStart, AcquisitionStart, AcquisitionStop, GetAdcVoltage}
  }

  /** A command the macros define, with its argument. */
  datatype Request =
    | Query(kind: CmdType)
    | Hw(command: HwCmdType)
    | Long(kind: CmdType, value: int)
    | SetDac(dac: Dac, value: int)

  /** The argument is a `long` (the `char` arguments widen to one). */
  predicate Encodable(r: Request)
  {
    match r
    case Long(_, v) => InLong(v)
    case SetDac(_, v) => InLong(v)
    case _ => true
  }

  /** The command word a request sends. */
  function Encode(r: Request): (d: seq<Byte>)
    requires Encodable(r)
    ensures |d| == CommandSize
  {
    LongFits(if r.Long? || r.SetDac? then r.value else 0);
    match r
    case Query(t) => Cmd6(Code(t))
    case Hw(h) => Cmd60(Code(HwCommandStart), HwCode(h))
    case Long(t, v) => WithLong(Cmd6(Code(t)), v)
    case SetDac(s, v) => WithLong(Blank()[6 := Code(InternalDacSettings)][4 := DacCode(s)], v)
  }

  /**
   * A request whose command word keeps all its fields: a defined command,
   * and an argument small enough not to reach the opcode (below 2^48) or the
   * DAC selector (below 2^32).  A negative argument writes no byte, so it is
   * sent as 0.
   */
  predicate WellFormed(r: Request)
  {
    match r
    case Query(t) => IsQuery(t)
    case Hw(_) => true
    case Long(t, v) => IsLongCommand(t) && 0 <= v < 0x1_0000_0000_0000
    case SetDac(_, v) => 0 <= v < 0x1_0000_0000
  }

  /** What the device reads from a command word: the request it stands for, if any. */
  function Decode(d: seq<Byte>): Option<Request>
    requires |d| == CommandSize
  {
    if d[7] != 0 then None
    else match CmdTypeOf(d[6])
      case None => None
      case Some(t) =>
        if t == HwCommandStart then
          if d[1] == 0 && d[2] == 0 && d[3] == 0 && d[4] == 0 && d[5] == 0 then
            match HwCmdTypeOf(d[0])
            case Some(h) => Some(Hw(h))
            case None => None
          else None
        else if t == InternalDacSettings then
          if d[5] == 0 then
            match DacOf(d[4])
            case Some(s) => Some(SetDac(s, LittleEndian(d[..4])))
            case None => None
          else None
        else if IsLongCommand(t) then Some(Long(t, LittleEndian(d[..6])))
        else if IsQuery(t) && d[0] == 0 && d[1] == 0 && d[2] == 0 && d[3] == 0 && d[4] == 0 && d[5] == 0 then
          Some(Query(t))
        else None
  }

  lemma DecodeQuery(t: CmdType)
    requires IsQuery(t)
    ensures Decode(Cmd6(Code(t))) == Some(Query(t))
  {
    CmdCodes(t, Code(t));
  }

  lemma DecodeHw(h: HwCmdType)
    ensures Decode(Cmd60(Code(HwCommandStart), HwCode(h))) == Some(Hw(h))
  {
    HwCodes(h, HwCode(h));
  }

  lemma DecodeLong(t: CmdType, v: int)
    requires IsLongCommand(t) && 0 <= v < 0x1_0000_0000_0000
    ensures InLong(v) && Decode(WithLong(Cmd6(Code(t)), v)) == Some(Long(t, v))
  {
    Cmd6LongFields(Code(t), v);
    CmdCodes(t, Code(t));
  }

  lemma DecodeDac(s: Dac, v: int)
    requires 0 <= v < 0x1_0000_0000
    ensures InLong(v)
    ensures Decode(WithLong(Blank()[6 := Code(InternalDacSettings)][4 := DacCode(s)], v)) == Some(SetDac(s, v))
  {
    Cmd64LongFields(Code(InternalDacSettings), DacCode(s), v);
    DacCodes(s, DacCode(s));
  }

  /** Round trip: every well-formed request is read back from its command word. */
  lemma DecodeEncode(r: Request)
    requires WellFormed(r)
    ensures Encodable(r) && Decode(Encode(r)) == Some(r)
  {
    match r
    case Query(t) => DecodeQuery(t);
    case Hw(h) => DecodeHw(h);
    case Long(t, v) => DecodeLong(t, v);
    case SetDac(s, v) => DecodeDac(s, v);
  }

  /** So two different well-formed requests never send the same command word. */
  lemma EncodeInjective(r1: Request, r2: Request)
    requires WellFormed(r1) && WellFormed(r2) && r1 != r2
    ensures Encodable(r1) && Encodable(r2) && Encode(r1) != Encode(r2)
  {
    DecodeEncode(r1);
    DecodeEncode(r2);
  }
}
