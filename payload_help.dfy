/** The help payload (payload_help.go): the server's help text, one message per '|'-separated piece. */
module PayloadHelp {
  import opened Wrappers
  import opened Text
  import opened Protocol

  datatype HelpPayload = HelpPayload(messages: seq<Bytes>)
  {
    function Opcode(): int
    {
      OpHelp
    }

    predicate NeedsCommonHeader()
    {
      true
    }

    function Encode(): Bytes
    {
      []
    }
  }

  const Empty: HelpPayload := HelpPayload([])

  /** The trailer the decoder drops from the end of a help reply. */
  const TrailerSize: nat := 8

  /**
   * decode: drop the last eight bytes, decode the rest from EUC-KR and split it at every '|'.
   * A reply shorter than the trailer is an invalid packet. The messages hold no '|' and,
   * joined with '|', give back the whole decoded text.
   */
  function Decode(lib: TextLib, data: Bytes): (r: Result<HelpPayload, Error>)
    ensures r.Failure? <==> |data| < TrailerSize
    ensures r.Failure? ==> r.error == InvalidPacket
    ensures r.Success? ==>
      var text := lib.decodeEucKr(data[..|data| - 8]);
      |r.value.messages| == Count(text, PIPE) + 1 &&
      (forall i | 0 <= i < |r.value.messages| :: PIPE !in r.value.messages[i]) &&
      Join(r.value.messages, PIPE) == text
  {
    if |data| < TrailerSize then Failure(InvalidPacket)
    else
      var text := lib.decodeEucKr(data[..|data| - 8]);
      JoinSplit(text, PIPE);
      Success(HelpPayload(Split(text, PIPE)))
  }

  /** A reply that is only the trailer holds a single empty message. */
  lemma TrailerOnly(lib: TextLib, data: Bytes)
    requires |data| == TrailerSize && lib.decodeEucKr([]) == []
    ensures Decode(lib, data) == Success(HelpPayload([[]]))
  {
    assert data[..|data| - 8] == [];
  }
}
