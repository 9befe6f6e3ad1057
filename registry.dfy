/**
 * The payload interface of payload.go as one tagged union: each variant is one of the
 * six payload types, and opcode, needsCommonHeader, encode and decode dispatch on it.
 */
module Payloads {
  import opened Wrappers
  import opened Text
  import opened Protocol
  import PayloadTime
  import PayloadIssue
  import PayloadInformation
  import PayloadHistory
  import PayloadHelp
  import PayloadResetErrorCount

  datatype Payload =
    | Time(time: PayloadTime.TimePayload)
    | Issue(issue: PayloadIssue.IssuePayload)
    | Information(information: PayloadInformation.InformationPayload)
    | ResetErrorCount(reset: PayloadResetErrorCount.ResetErrorCountPayload)
    | History(history: PayloadHistory.History)
    | Help(help: PayloadHelp.HelpPayload)
  {
    function Opcode(): (op: int)
      ensures IsWireOpcode(op)
    {
      match this
      case Time(p) => p.Opcode()
      case Issue(p) => p.Opcode()
      case Information(p) => p.Opcode()
      case ResetErrorCount(p) => p.Opcode()
      case History(p) => p.Opcode()
      case Help(p) => p.Opcode()
    }

    predicate NeedsCommonHeader()
    {
      match this
      case Time(p) => p.NeedsCommonHeader()
      case Issue(p) => p.NeedsCommonHeader()
      case Information(p) => p.NeedsCommonHeader()
      case ResetErrorCount(p) => p.NeedsCommonHeader()
      case History(p) => p.NeedsCommonHeader()
      case Help(p) => p.NeedsCommonHeader()
    }

    function Encode(): Bytes
    {
      match this
      case Time(p) => p.Encode()
      case Issue(p) => p.Encode()
      case Information(p) => p.Encode()
      case ResetErrorCount(p) => p.Encode()
      case History(p) => p.Encode()
      case Help(p) => p.Encode()
    }
  }

  /**
   * The switch of newPacket: the zero value of the payload type of a wire opcode, and None
   * for every other opcode (where newPacket goes on to call a method of a nil interface).
   */
  function ForOpcode(op: int): (r: Option<Payload>)
    ensures r.Some? <==> IsWireOpcode(op)
    ensures r.Some? ==> r.value.Opcode() == op
  {
    if op == OpTime then Some(Time(PayloadTime.Empty))
    else if op == OpIssue then Some(Issue(PayloadIssue.Empty))
    else if op == OpResetErrorCount then Some(ResetErrorCount(PayloadResetErrorCount.ResetErrorCountPayload))
    else if op == OpInformation then Some(Information(PayloadInformation.Empty))
    else if op == OpUseHistory then Some(History(PayloadHistory.Empty))
    else if op == OpHelp then Some(Help(PayloadHelp.Empty))
    else None
  }

  /** Only time requests travel without the common header, and only a history request has a body. */
  lemma HeaderAndBody(op: int)
    requires IsWireOpcode(op)
    ensures ForOpcode(op).value.NeedsCommonHeader() <==> op != OpTime
    ensures op != OpUseHistory ==> ForOpcode(op).value.Encode() == []
  {
  }

  /**
   * decode of the payload a packet holds: a successful decode keeps the payload's variant,
   * and a failed one is an invalid packet or a run-time panic.
   */
  function Decode(lib: TextLib, p: Payload, data: Bytes): (r: Result<Payload, Error>)
    ensures r.Success? ==> r.value.Opcode() == p.Opcode()
    ensures r.Failure? ==> r.error == InvalidPacket || r.error == Crash
  {
    match p
    case Time(_) =>
      (match PayloadTime.Decode(data)
       case Failure(e) => Failure(e)
       case Success(v) => Success(Time(v)))
    case Issue(_) =>
      (match PayloadIssue.Decode(data)
       case Failure(e) => Failure(e)
       case Success(v) => Success(Issue(v)))
    case Information(_) =>
      (match PayloadInformation.Decode(data)
       case Failure(e) => Failure(e)
       case Success(v) => Success(Information(v)))
    case ResetErrorCount(_) =>
      (match PayloadResetErrorCount.Decode(data)
       case Failure(e) => Failure(e)
       case Success(v) => Success(ResetErrorCount(v)))
    case History(h) =>
      (match PayloadHistory.Decoded(lib, h, data)
       case Failure(e) => Failure(e)
       case Success(v) => Success(History(v)))
    case Help(_) =>
      (match PayloadHelp.Decode(lib, data)
       case Failure(e) => Failure(e)
       case Success(v) => Success(Help(v)))
  }

  /** decode, run through the step-by-step history decoder where the payload is a History. */
  method DecodePayload(lib: TextLib, p: Payload, data: Bytes) returns (r: Result<Payload, Error>)
    ensures r == Decode(lib, p, data)
  {
    if p.History? {
      var h := PayloadHistory.DecodeHistory(lib, p.history, data);
      if h.Failure? {
        return Failure(h.error);
      }
      return Success(History(h.value));
    }
    return Decode(lib, p, data);
  }
}
