/**
 * The wire vocabulary shared by every payload (payload.go): the status and opcode
 * constants, the errors a request can end in, and the library text services the
 * decoders rely on.
 */
module Protocol {
  import opened Wrappers
  import opened Text
  import opened Utils

  /** statusOK: the status of every request and of every successful reply. */
  const StatusOK: Bytes := [ZERO, ZERO, ZERO, ZERO]

  const OpError: int := -1
  const OpInformation: int := 402
  const OpTime: int := 407
  const OpIssue: int := 451
  const OpResetErrorCount: int := 452
  const OpUseHistory: int := 453
  const OpHelp: int := 454

  /** The opcodes that have a payload. */
  predicate IsWireOpcode(op: int)
  {
    op == OpInformation || op == OpTime || op == OpIssue || op == OpResetErrorCount || op == OpUseHistory || op == OpHelp
  }

  /**
   * How a request can end. ServerStatus is a reply whose status is not statusOK, with its
   * body decoded from EUC-KR; Transport stands for every failure of the network exchange;
   * Crash is a Go run-time panic (a nil payload, a slice out of range, a partial block).
   */
  datatype Error =
    | InvalidPacket
    | InvalidAccount
    | InvalidPage
    | ServerStatus(status: Bytes, message: Bytes)
    | Transport
    | Crash

  /**
   * Library services over text: EUC-KR decoding (golang.org/x/text) and time.ParseInLocation
   * with the layouts "2006-01-02" and "2006-01-0215:04:05" in the local zone.
   */
  datatype TextLib = TextLib(
    decodeEucKr: Bytes -> Bytes,
    parseDate: Bytes -> Option<DateTime>,
    parseDateTime: Bytes -> Option<DateTime>)

  /** The zero time.Time: January 1 of year 1, 00:00:00. */
  const ZeroTime: DateTime := DateTime(1, 1, 1, 0, 0, 0)

  /** The status is four bytes, exactly the width of the status field, and reads as the number 0. */
  lemma StatusOKFillsField()
    ensures |StatusOK| == 4 && AllDigits(StatusOK) && DigitsValue(StatusOK) == 0
  {
    DigitsValueLeadingZeros(StatusOK, []);
    assert StatusOK + [] == StatusOK;
  }

  /** A number below 1000 prints as exactly three digits under %03d and reads back under Atoi. */
  lemma ThreeDigits(n: nat)
    requires n < 1000
    ensures |ZeroPad(n, 3)| == 3 && Atoi(ZeroPad(n, 3)) == Some(n)
  {
    assert Pow10(3) == 1000 by {
      assert Pow10(1) == 10;
      assert Pow10(2) == 100;
    }
    ZeroPadValue(n, 3);
    AtoiOfZeroPad(n, 3);
  }

  /** The six wire opcodes are pairwise distinct three-digit numbers, and none is opCodeError. */
  lemma WireOpcodes(op: int)
    requires IsWireOpcode(op)
    ensures op != OpError && 100 <= op <= 999
    ensures |{OpInformation, OpTime, OpIssue, OpResetErrorCount, OpUseHistory, OpHelp}| == 6
  {
  }
}
