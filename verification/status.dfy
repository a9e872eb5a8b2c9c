/**
 * c/src/status.c: the status inquiries.  Each sends one command word and
 * waits for an 8-byte reply (the crd) on the control socket; the transport
 * is not modelled, so each operation takes the result code of the send
 * (`katherine_cmd_*`) and of the wait (`katherine_cmd_wait_ack_crd`), and
 * the reply bytes, as parameters.  A non-zero result code is returned as it
 * is and leaves the caller's output unwritten (Failure here).
 */
module Status {
  import opened Bits
  import opened Wrappers
  import opened Decimal
  import opened Crd

  /** `*(const uint64_t *) &crd`: the reply as a little-endian 64-bit word. */
  function Word(crd: seq<Byte>): nat
    requires |crd| == 8
  {
    LittleEndian(crd)
  }

  /** The result code of a send followed by a wait: the first non-zero one. */
  function Transfer(sendRes: int, ackRes: int): int
  {
    if sendRes != 0 then sendRes else ackRes
  }

  // ---------------------------------------------------------------------
  // katherine_get_readout_status (lines 24-46).

  datatype ReadoutStatus = ReadoutStatus(hwType: int, hwRevision: int, hwSerialNumber: int, fwVersion: int)

  /** The fields of a readout status fit their crd fields. */
  predicate ValidReadoutStatus(s: ReadoutStatus)
  {
    && 0 <= s.hwType < 0x100 && 0 <= s.hwRevision < 0x100
    && 0 <= s.hwSerialNumber < 0x1_0000 && 0 <= s.fwVersion < 0x1_0000
  }

  /** The four EXTRACTs of lines 37-40. */
  function ReadoutStatusOf(v: nat): (s: ReadoutStatus)
    ensures ValidReadoutStatus(s)
  {
    Pow2Values();
    ReadoutStatus(Get(v, HwType), Get(v, HwRevision), Get(v, HwSerialNumber), Get(v, FwVersion))
  }

  /** The reply word that carries a readout status (its bits 48-63 zero). */
  function ReadoutWord(s: ReadoutStatus): nat
    requires ValidReadoutStatus(s)
  {
    s.hwType + 0x100 * s.hwRevision + 0x1_0000 * s.hwSerialNumber + 0x1_0000_0000 * s.fwVersion
  }

  /** Round trip: a readout status survives being sent in a reply. */
  lemma ReadoutStatusRoundTrip(s: ReadoutStatus)
    requires ValidReadoutStatus(s)
    ensures ReadoutStatusOf(ReadoutWord(s)) == s
  {
    Pow2Values();
    var v := ReadoutWord(s);
    ExtractAt(v, 0, s.hwType, s.hwRevision + 0x100 * s.hwSerialNumber + 0x1_0000_00 * s.fwVersion,
      0, 8, 1, 0x100);
    ExtractAt(v, s.hwType, s.hwRevision, s.hwSerialNumber + 0x1_0000 * s.fwVersion,
      8, 8, 0x100, 0x100);
    ExtractAt(v, s.hwType + 0x100 * s.hwRevision, s.hwSerialNumber, s.fwVersion,
      16, 16, 0x1_0000, 0x1_0000);
    ExtractAt(v, s.hwType + 0x100 * s.hwRevision + 0x1_0000 * s.hwSerialNumber, s.fwVersion, 0,
      32, 16, 0x1_0000_0000, 0x1_0000);
  }

  /**
   * The other direction: the four fields give back bits 0-47 of any reply,
   * so nothing below bit 48 is lost and no two fields share a bit.
   */
  lemma ReadoutWordOf(v: nat)
    ensures ReadoutWord(ReadoutStatusOf(v)) == v % 0x1_0000_0000_0000
  {
    Layouts();
    Pow2Values();
    TiledSum(v, ReadoutStatusLayout, 0);
    var r := ReadoutStatusLayout;
    assert r[1..] == [HwRevision, HwSerialNumber, FwVersion];
    assert r[1..][1..] == [HwSerialNumber, FwVersion];
    assert r[1..][1..][1..] == [FwVersion];
    assert [FwVersion][1..] == [];
    assert Sum(v, r[1..][1..][1..], 32) == 0x1_0000_0000 * Get(v, FwVersion);
    assert Sum(v, r[1..][1..], 16) == 0x1_0000 * Get(v, HwSerialNumber) + 0x1_0000_0000 * Get(v, FwVersion);
    assert Pow2(0) == 1;
  }

  /** katherine_get_readout_status: the status, or the first failing result code. */
  function GetReadoutStatus(sendRes: int, ackRes: int, crd: seq<Byte>): (r: Result<ReadoutStatus, int>)
    requires |crd| == 8
    ensures r.Failure? <==> Transfer(sendRes, ackRes) != 0
    ensures r.Failure? ==> r.error == Transfer(sendRes, ackRes)
    ensures r.Success? ==> ValidReadoutStatus(r.value) && ReadoutWord(r.value) == Word(crd) % 0x1_0000_0000_0000
  {
    if sendRes != 0 then Failure(sendRes)
    else if ackRes != 0 then Failure(ackRes)
    else
      ReadoutWordOf(Word(crd));
      Success(ReadoutStatusOf(Word(crd)))
  }

  // ---------------------------------------------------------------------
  // katherine_get_comm_status (lines 54-75).

  datatype CommStatus = CommStatus(commLinesMask: int, dataRate: int, chipDetected: bool)

  /** What a decoded communication status can be: a data rate in steps of 5 up to 1275. */
  predicate ValidCommStatus(c: CommStatus)
  {
    0 <= c.commLinesMask < 0x100 && 0 <= c.dataRate <= 1275 && c.dataRate % 5 == 0
  }

  /**
   * Lines 67-69: the mask is bits 0-7 of the reply, the data rate five times
   * bits 8-15, and chip_detected says whether bits 16-23 are non-zero.
   */
  function CommStatusOf(v: nat): (c: CommStatus)
    ensures ValidCommStatus(c)
    ensures c.commLinesMask + 0x100 * (c.dataRate / 5) == v % 0x1_0000
    ensures c.chipDetected <==> (v / 0x1_0000) % 0x100 != 0
  {
    Pow2Values();
    ModSplit(v, 0, 8);
    ModSplit(v, 8, 8);
    ExtractIs(v, 16, 8);
    assert Pow2(0) == 1;
    CommStatus(Get(v, CommLinesMask), 5 * Get(v, TotalDataRate), Get(v, ChipDetectedFlag) != 0)
  }

  /** A reply word that carries a communication status (flag field 1 when detected). */
  function CommWord(c: CommStatus): nat
    requires ValidCommStatus(c)
  {
    c.commLinesMask + 0x100 * (c.dataRate / 5) + 0x1_0000 * (if c.chipDetected then 1 else 0)
  }

  /** Round trip: a communication status survives being sent in a reply. */
  lemma CommStatusRoundTrip(c: CommStatus)
    requires ValidCommStatus(c)
    ensures CommStatusOf(CommWord(c)) == c
  {
    Pow2Values();
    var v := CommWord(c);
    var rate := c.dataRate / 5;
    var flag := if c.chipDetected then 1 else 0;
    ExtractAt(v, 0, c.commLinesMask, rate + 0x100 * flag, 0, 8, 1, 0x100);
    ExtractAt(v, c.commLinesMask, rate, flag, 8, 8, 0x100, 0x100);
    ExtractAt(v, c.commLinesMask + 0x100 * rate, flag, 0, 16, 8, 0x1_0000, 0x100);
  }

  /** katherine_get_comm_status: the status, or the first failing result code. */
  function GetCommStatus(sendRes: int, ackRes: int, crd: seq<Byte>): (r: Result<CommStatus, int>)
    requires |crd| == 8
    ensures r.Failure? <==> Transfer(sendRes, ackRes) != 0
    ensures r.Failure? ==> r.error == Transfer(sendRes, ackRes)
    ensures r.Success? ==>
      && ValidCommStatus(r.value)
      && r.value.commLinesMask + 0x100 * (r.value.dataRate / 5) == Word(crd) % 0x1_0000
      && (r.value.chipDetected <==> (Word(crd) / 0x1_0000) % 0x100 != 0)
  {
    if sendRes != 0 then Failure(sendRes)
    else if ackRes != 0 then Failure(ackRes)
    else Success(CommStatusOf(Word(crd)))
  }

  // ---------------------------------------------------------------------
  // katherine_get_chip_id (lines 83-106).

  /** KATHERINE_CHIP_ID_STR_SIZE. */
  const ChipIdStrSize: nat := 16

  /**
   * Lines 95-98: `*(int *) crd` is bytes 0-3; the masks keep bits 0-3, 4-7
   * and 8-19 of it, whatever its sign, so the unsigned value gives the same
   * fields.  x is one less than the low nibble, y the next nibble and w
   * the twelve bits above it, so together they give back bits 0-19.
   */
  function ChipIdFields(crd: seq<Byte>): (f: (int, nat, nat))
    requires |crd| == 8
    ensures -1 <= f.0 < 15 && f.1 < 16 && f.2 < 4096
    ensures (f.0 + 1) + 0x10 * f.1 + 0x100 * f.2 == LittleEndian(crd[..4]) % 0x10_0000
  {
    Pow2Values();
    var id := LittleEndian(crd[..4]);
    ModSplit(id, 0, 4);
    ModSplit(id, 4, 4);
    ModSplit(id, 8, 12);
    assert Pow2(0) == 1;
    (Extract(id, 0, 4) - 1, Extract(id, 4, 4), Extract(id, 8, 12))
  }

  /** `sprintf("%c%d-W000%d", 65 + x, y, w)`: the letter, y, "-W000" and w. */
  function ChipIdText(x: int, y: nat, w: nat): string
    requires -1 <= x < 15
  {
    [(65 + x) as char] + FormatInt(y) + "-W000" + FormatInt(w)
  }

  /** The chip id of any reply takes at most 12 characters: it fits the 16-byte buffer with its NUL. */
  lemma ChipIdLength(x: int, y: nat, w: nat)
    requires -1 <= x < 15 && y < 16 && w < 4096
    ensures |ChipIdText(x, y, w)| <= 12
  {
    assert Pow10(2) == 100 && Pow10(4) == 10000;
    DigitsLength(y, 2, 100);
    DigitsLength(w, 4, 10000);
  }

  /** The chip id text of a reply. */
  function ChipIdOf(crd: seq<Byte>): string
    requires |crd| == 8
  {
    var f := ChipIdFields(crd);
    ChipIdText(f.0, f.1, f.2)
  }

  /** The letter is 'A' for a low nibble of 1 up to 'O' for 15; a low nibble of 0 gives '@'. */
  lemma ChipIdLetter(crd: seq<Byte>)
    requires |crd| == 8
    ensures var c := ChipIdOf(crd)[0];
      && '@' <= c <= 'O'
      && (c == '@' <==> Extract(LittleEndian(crd[..4]), 0, 4) == 0)
  {
    var nibble := Extract(LittleEndian(crd[..4]), 0, 4);
    Pow2Values();
    assert ChipIdOf(crd)[0] == (64 + nibble) as char;
  }

  /** Reading a chip id back: the letter, the digits of y, "-W000" and the digits of w. */
  function ParseChipId(s: string): Option<(int, nat, nat)>
  {
    if |s| == 0 then None
    else
      var t := s[1..];
      var n := LeadingDigits(t);
      var rest := t[n..];
      if n == 0 || |rest| <= 5 || rest[..5] != "-W000" || !AllDigits(rest[5..]) then None
      else Some((s[0] as int - 65, DigitsValue(t[..n]), DigitsValue(rest[5..])))
  }

  /** Round trip: the three fields can be read back from the chip id text. */
  lemma ChipIdRoundTrip(x: int, y: nat, w: nat)
    requires -1 <= x < 15
    ensures ParseChipId(ChipIdText(x, y, w)) == Some((x, y, w))
  {
    var s := ChipIdText(x, y, w);
    var t := s[1..];
    var tail := "-W000" + Digits(w);
    assert t == Digits(y) + tail;
    LeadingDigitsOf(Digits(y), tail);
    assert t[..|Digits(y)|] == Digits(y);
    assert t[|Digits(y)|..] == tail;
    assert tail[..5] == "-W000" && tail[5..] == Digits(w);
    DigitsValueOf(y);
    DigitsValueOf(w);
  }

  /** `memset` to NUL and then the text: the 16-byte buffer. */
  function ChipIdBuffer(text: string): (b: seq<char>)
    requires |text| < ChipIdStrSize
    ensures |b| == ChipIdStrSize && b[..|text|] == text
    ensures forall i :: |text| <= i < ChipIdStrSize ==> b[i] == '\0'
  {
    text + seq(ChipIdStrSize - |text|, _ => '\0')
  }

  /** katherine_get_chip_id: the NUL-padded buffer, or the first failing result code. */
  function GetChipId(sendRes: int, ackRes: int, crd: seq<Byte>): (r: Result<seq<char>, int>)
    requires |crd| == 8
    ensures r.Failure? <==> Transfer(sendRes, ackRes) != 0
    ensures r.Failure? ==> r.error == Transfer(sendRes, ackRes)
    ensures r.Success? ==>
      && |ChipIdOf(crd)| <= 12 && |r.value| == ChipIdStrSize
      && r.value[..|ChipIdOf(crd)|] == ChipIdOf(crd)
      && (forall i :: |ChipIdOf(crd)| <= i < ChipIdStrSize ==> r.value[i] == '\0')
      && ParseChipId(ChipIdOf(crd)) == Some(ChipIdFields(crd))
  {
    if sendRes != 0 then Failure(sendRes)
    else if ackRes != 0 then Failure(ackRes)
    else
      var f := ChipIdFields(crd);
      ChipIdLength(f.0, f.1, f.2);
      ChipIdRoundTrip(f.0, f.1, f.2);
      Success(ChipIdBuffer(ChipIdOf(crd)))
  }

  // ---------------------------------------------------------------------
  // katherine_perform_digital_test (lines 163-192).

  /** What one katherine_cmd_wait_ack_crd call gives: its result code and the reply. */
  datatype Ack = Ack(res: int, crd: seq<Byte>)

  /** `int attempts = 100`. */
  const DigitalTestAttempts: nat := 100

  /** The first of the wait calls that succeeds, if one does. */
  function FirstAck(acks: seq<Ack>, from: nat): (k: Option<nat>)
    ensures k.Some? ==>
      (from <= k.value < |acks| && acks[k.value].res == 0
       && forall j :: from <= j < k.value ==> acks[j].res != 0)
    ensures k.None? ==> forall j :: from <= j < |acks| ==> acks[j].res != 0
    decreases |acks| - from
  {
    if from >= |acks| then None
    else if acks[from].res == 0 then Some(from)
    else FirstAck(acks, from + 1)
  }

  /**
   * The result of the digital test when the k-th wait call returns acks[k]:
   * the send's error; otherwise, if none of the 100 waits succeeds, the last
   * wait's error; otherwise 0 when the first byte of the reply is 64 and 1
   * when it is not.
   */
  function DigitalTestResult(sendRes: int, acks: seq<Ack>): int
    requires |acks| == DigitalTestAttempts
    requires forall k :: 0 <= k < |acks| ==> |acks[k].crd| == 8
  {
    if sendRes != 0 then sendRes
    else match FirstAck(acks, 0)
      case None => acks[DigitalTestAttempts - 1].res
      case Some(k) => if acks[k].crd[0] != 64 then 1 else 0
  }

  /** The k-th wait is the first that succeeds, and its reply reads 64. */
  predicate FirstPass(acks: seq<Ack>, k: int)
    requires forall k :: 0 <= k < |acks| ==> |acks[k].crd| == 8
  {
    0 <= k < |acks| && acks[k].res == 0 && acks[k].crd[0] == 64
    && forall j :: 0 <= j < k ==> acks[j].res != 0
  }

  /** The test passes exactly when the send and some wait succeed and the first reply reads 64. */
  lemma DigitalTestPasses(sendRes: int, acks: seq<Ack>)
    requires |acks| == DigitalTestAttempts
    requires forall k :: 0 <= k < |acks| ==> |acks[k].crd| == 8
    ensures DigitalTestResult(sendRes, acks) == 0 <==>
      sendRes == 0 && exists k :: FirstPass(acks, k)
  {
    if sendRes == 0 {
      match FirstAck(acks, 0)
      case None =>
      case Some(k) =>
        if acks[k].crd[0] == 64 {
          assert FirstPass(acks, k);
        } else {
          forall j | FirstPass(acks, j)
            ensures false
          {
          }
        }
    }
  }

  /**
   * katherine_perform_digital_test: the do/while loop waits for the reply
   * until a wait succeeds or the attempts run out.  `calls` is the number of
   * wait calls made: never more than 100.
   */
  method DigitalTest(sendRes: int, acks: seq<Ack>) returns (res: int, calls: nat)
    requires |acks| == DigitalTestAttempts
    requires forall k :: 0 <= k < |acks| ==> |acks[k].crd| == 8
    ensures res == DigitalTestResult(sendRes, acks)
    ensures calls <= DigitalTestAttempts
    ensures sendRes != 0 ==> calls == 0
    ensures sendRes == 0 ==> calls == match FirstAck(acks, 0)
      case None => DigitalTestAttempts
      case Some(k) => k + 1
  {
    calls := 0;
    if sendRes != 0 {
      return sendRes, 0;
    }
    var crd: seq<Byte>;
    var attempts := DigitalTestAttempts;
    while true
      invariant calls + attempts == DigitalTestAttempts && calls < DigitalTestAttempts
      invariant forall j :: 0 <= j < calls ==> acks[j].res != 0
      decreases attempts
    {
      res := acks[calls].res;
      crd := acks[calls].crd;
      calls := calls + 1;
      attempts := attempts - 1;
      if !(res != 0 && attempts != 0) {
        break;
      }
    }
    if res != 0 {
      return;
    }
    if crd[0] != 64 {
      res := 1;
      return;
    }
    return 0, calls;
  }
}
