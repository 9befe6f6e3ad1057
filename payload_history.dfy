/** The usage-history payload (payload_history.go): one page of the account's OTP use. */
module PayloadHistory {
  import opened Wrappers
  import opened Text
  import opened Utils
  import opened Protocol

  /** HistoryEntry: when the OTP was used, what kind of use, and where. */
  datatype HistoryEntry = HistoryEntry(at: DateTime, kind: Bytes, name: Bytes)

  /**
   * History: the page and period a request asks for, and the reply's period, page numbers
   * and entries. The request fields are never negative: GetHistory sets a page of at least 1.
   */
  datatype History = History(
    requestPage: nat,
    requestPeriod: nat,
    periodStart: DateTime,
    periodEnd: DateTime,
    pageCurrent: int,
    pageTotal: int,
    entries: seq<HistoryEntry>)
  {
    function Opcode(): int
    {
      OpUseHistory
    }

    predicate NeedsCommonHeader()
    {
      true
    }

    /** encode: the page as %04d, then the period as %1d. */
    function Encode(): Bytes
    {
      ZeroPad(requestPage, 4) + ZeroPad(requestPeriod, 1)
    }
  }

  const Empty: History := History(0, 0, ZeroTime, ZeroTime, 0, 0, [])

  /** A page below 10000 and a one-digit period fill exactly five bytes, from which both read back. */
  lemma EncodeFields(h: History)
    requires h.requestPage < 10000 && h.requestPeriod < 10
    ensures |h.Encode()| == 5
    ensures Atoi(h.Encode()[..4]) == Some(h.requestPage)
    ensures Atoi(h.Encode()[4..]) == Some(h.requestPeriod)
  {
    assert Pow10(4) == 10000 by {
      assert Pow10(2) == 100;
    }
    ZeroPadValue(h.requestPage, 4);
    ZeroPadValue(h.requestPeriod, 1);
    var e := h.Encode();
    assert e[..4] == ZeroPad(h.requestPage, 4);
    assert e[4..] == ZeroPad(h.requestPeriod, 1);
    AtoiOfZeroPad(h.requestPage, 4);
    AtoiOfZeroPad(h.requestPeriod, 1);
  }

  /** The fixed head (two dates, two page numbers, the entry count) and the size of one entry. */
  const HeadSize: nat := 30
  const RecordSize: nat := 98

  /** The bytes of entry i. */
  function Record(data: Bytes, i: nat): (r: Bytes)
    requires 30 + 98 * (i + 1) <= |data|
    ensures |r| == RecordSize
  {
    data[30 + 98 * i..30 + 98 * (i + 1)]
  }

  /**
   * One entry: an 18-byte date and time ("2006-01-0215:04:05"), then 40 bytes of kind and
   * 40 bytes of name, both EUC-KR and trimmed. A time that does not parse fails the entry.
   */
  function DecodeEntry(lib: TextLib, record: Bytes): (r: Option<HistoryEntry>)
    requires |record| == RecordSize
    ensures r.Some? <==> lib.parseDateTime(record[..18]).Some?
    ensures r.Some? ==> Trimmed(r.value.kind) && Trimmed(r.value.name)
  {
    match lib.parseDateTime(record[..18])
    case None => None
    case Some(at) =>
      Some(HistoryEntry(at, TrimSpace(lib.decodeEucKr(record[18..58])), TrimSpace(lib.decodeEucKr(record[58..98]))))
  }

  /** The first n entries, in order, or None when one of them fails. */
  function Entries(lib: TextLib, data: Bytes, n: nat): (r: Option<seq<HistoryEntry>>)
    requires 30 + 98 * n <= |data|
    ensures r.Some? ==> |r.value| == n
  {
    if n == 0 then Some([])
    else
      match Entries(lib, data, n - 1)
      case None => None
      case Some(es) =>
        match DecodeEntry(lib, Record(data, n - 1))
        case None => None
        case Some(e) => Some(es + [e])
  }

  /**
   * decode, as a whole: a slice past the end of the reply is a run-time panic; a date or
   * number that does not parse, a reply too short for its entry count or an entry whose time
   * does not parse is an invalid packet; a negative count panics in make. The request fields
   * are kept.
   */
  function Decoded(lib: TextLib, h: History, data: Bytes): (r: Result<History, Error>)
    ensures |data| < 10 ==> r == Failure(Crash)
    ensures r.Failure? ==> r.error == InvalidPacket || r.error == Crash
    ensures r.Success? ==>
      r.value.requestPage == h.requestPage && r.value.requestPeriod == h.requestPeriod &&
      |data| >= 30 + 98 * |r.value.entries| &&
      Atoi(data[28..30]) == Some(|r.value.entries|)
  {
    if |data| < 10 then Failure(Crash)
    else if lib.parseDate(data[..10]).None? then Failure(InvalidPacket)
    else if |data| < 20 then Failure(Crash)
    else if lib.parseDate(data[10..20]).None? then Failure(InvalidPacket)
    else if |data| < 24 then Failure(Crash)
    else if Atoi(data[20..24]).None? then Failure(InvalidPacket)
    else if |data| < 28 then Failure(Crash)
    else if Atoi(data[24..28]).None? then Failure(InvalidPacket)
    else if |data| < 30 then Failure(Crash)
    else if Atoi(data[28..30]).None? then Failure(InvalidPacket)
    else
      var count := Atoi(data[28..30]).value;
      if |data| < 30 + 98 * count then Failure(InvalidPacket)
      else if count < 0 then Failure(Crash)
      else
        match Entries(lib, data, count)
        case None => Failure(InvalidPacket)
        case Some(es) =>
          Success(h.(
            periodStart := lib.parseDate(data[..10]).value,
            periodEnd := lib.parseDate(data[10..20]).value,
            pageTotal := Atoi(data[20..24]).value,
            pageCurrent := Atoi(data[24..28]).value,
            entries := es))
  }

  /**
   * The head of a decoded history: the period is the two dates of the first twenty bytes,
   * then come the total and the current page number.
   */
  lemma DecodedHead(lib: TextLib, h: History, data: Bytes)
    requires Decoded(lib, h, data).Success?
    ensures |data| >= 30
    ensures lib.parseDate(data[..10]).Some? && lib.parseDate(data[10..20]).Some?
    ensures Atoi(data[20..24]).Some? && Atoi(data[24..28]).Some?
    ensures var v := Decoded(lib, h, data).value;
      v.periodStart == lib.parseDate(data[..10]).value && v.periodEnd == lib.parseDate(data[10..20]).value &&
      v.pageTotal == Atoi(data[20..24]).value && v.pageCurrent == Atoi(data[24..28]).value
  {
  }

  /** A head long enough to read in which a date or a number does not parse is an invalid packet. */
  lemma HeadRefused(lib: TextLib, h: History, data: Bytes)
    requires |data| >= 30
    requires lib.parseDate(data[..10]).None? || lib.parseDate(data[10..20]).None? ||
      Atoi(data[20..24]).None? || Atoi(data[24..28]).None? || Atoi(data[28..30]).None?
    ensures Decoded(lib, h, data) == Failure(InvalidPacket)
  {
  }

  /** A head that parses but announces more entries than the reply holds is an invalid packet. */
  lemma ShortForCount(lib: TextLib, h: History, data: Bytes, n: int)
    requires |data| >= 30
    requires lib.parseDate(data[..10]).Some? && lib.parseDate(data[10..20]).Some?
    requires Atoi(data[20..24]).Some? && Atoi(data[24..28]).Some?
    requires Atoi(data[28..30]) == Some(n) && 0 <= n && |data| < 30 + 98 * n
    ensures Decoded(lib, h, data) == Failure(InvalidPacket)
  {
  }

  /** Once an entry fails, every longer prefix of entries fails. */
  lemma {:induction false} EntriesFailureStays(lib: TextLib, data: Bytes, i: nat, n: nat)
    requires i <= n && 30 + 98 * n <= |data|
    requires Entries(lib, data, i).None?
    ensures Entries(lib, data, n).None?
  {
    if i < n {
      EntriesFailureStays(lib, data, i, n - 1);
    }
  }

  /** The entries succeed exactly when every record's time parses, and entry i is record i decoded. */
  lemma {:induction false} EntriesAreRecords(lib: TextLib, data: Bytes, n: nat)
    requires 30 + 98 * n <= |data|
    ensures Entries(lib, data, n).Some? <==> forall i | 0 <= i < n :: DecodeEntry(lib, Record(data, i)).Some?
    ensures Entries(lib, data, n).Some? ==>
      forall i | 0 <= i < n :: Entries(lib, data, n).value[i] == DecodeEntry(lib, Record(data, i)).value
  {
    if n > 0 {
      assert 98 * (n - 1) + 98 == 98 * n;
      EntriesAreRecords(lib, data, n - 1);
      var prev := Entries(lib, data, n - 1);
      var last := DecodeEntry(lib, Record(data, n - 1));
      if prev.None? {
        assert Entries(lib, data, n).None?;
      } else if last.None? {
        assert Entries(lib, data, n).None?;
      } else {
        var es := prev.value + [last.value];
        assert Entries(lib, data, n) == Some(es);
        forall i | 0 <= i < n
          ensures es[i] == DecodeEntry(lib, Record(data, i)).value
        {
          if i < n - 1 {
            assert es[i] == prev.value[i];
          }
        }
      }
    }
  }

  /** A decoded page holds one entry per record, each decoded from its own 98 bytes. */
  lemma DecodedEntries(lib: TextLib, h: History, data: Bytes)
    requires Decoded(lib, h, data).Success?
    ensures var es := Decoded(lib, h, data).value.entries;
      forall i | 0 <= i < |es| :: DecodeEntry(lib, Record(data, i)) == Some(es[i])
  {
    var count := Atoi(data[28..30]).value;
    EntriesAreRecords(lib, data, count);
  }

  /** Bytes after the last entry are ignored. */
  lemma {:induction false} EntriesIgnoreTail(lib: TextLib, data: Bytes, rest: Bytes, n: nat)
    requires 30 + 98 * n <= |data|
    ensures Entries(lib, data + rest, n) == Entries(lib, data, n)
  {
    if n > 0 {
      assert 98 * (n - 1) + 98 == 98 * n;
      EntriesIgnoreTail(lib, data, rest, n - 1);
      var lo, hi := 30 + 98 * (n - 1), 30 + 98 * n;
      assert (data + rest)[lo..hi] == data[lo..hi];
      assert Record(data + rest, n - 1) == Record(data, n - 1);
    }
  }

  lemma DecodedIgnoresTail(lib: TextLib, h: History, data: Bytes, rest: Bytes)
    requires Decoded(lib, h, data).Success?
    ensures Decoded(lib, h, data + rest) == Decoded(lib, h, data)
  {
    DecodedHead(lib, h, data);
    var d := data + rest;
    assert d[..10] == data[..10] && d[10..20] == data[10..20];
    assert d[20..24] == data[20..24] && d[24..28] == data[24..28] && d[28..30] == data[28..30];
    var count := |Decoded(lib, h, data).value.entries|;
    assert Atoi(d[28..30]) == Some(count);
    assert Entries(lib, data, count).Some?;
    EntriesIgnoreTail(lib, data, rest, count);
  }

  /** decode, step by step: the fixed fields, then one entry per iteration at a running offset. */
  method DecodeHistory(lib: TextLib, h: History, data: Bytes) returns (r: Result<History, Error>)
    ensures r == Decoded(lib, h, data)
  {
    if |data| < 10 {
      return Failure(Crash);
    }
    var periodStart := lib.parseDate(data[..10]);
    if periodStart.None? {
      return Failure(InvalidPacket);
    }
    if |data| < 20 {
      return Failure(Crash);
    }
    var periodEnd := lib.parseDate(data[10..20]);
    if periodEnd.None? {
      return Failure(InvalidPacket);
    }
    if |data| < 24 {
      return Failure(Crash);
    }
    var pageTotal := Atoi(data[20..24]);
    if pageTotal.None? {
      return Failure(InvalidPacket);
    }
    if |data| < 28 {
      return Failure(Crash);
    }
    var pageCurrent := Atoi(data[24..28]);
    if pageCurrent.None? {
      return Failure(InvalidPacket);
    }
    if |data| < 30 {
      return Failure(Crash);
    }
    var dataCount := Atoi(data[28..30]);
    if dataCount.None? {
      return Failure(InvalidPacket);
    }
    var count := dataCount.value;
    if |data| < 30 + 98 * count {
      return Failure(InvalidPacket);
    }
    if count < 0 {
      return Failure(Crash);
    }
    var entries := DecodeEntries(lib, data, count);
    if entries.None? {
      return Failure(InvalidPacket);
    }
    return Success(h.(
      periodStart := periodStart.value,
      periodEnd := periodEnd.value,
      pageTotal := pageTotal.value,
      pageCurrent := pageCurrent.value,
      entries := entries.value));
  }

  /** The loop of decode: one 98-byte record per iteration at a running offset, stopping at the first failure. */
  method DecodeEntries(lib: TextLib, data: Bytes, count: nat) returns (r: Option<seq<HistoryEntry>>)
    requires 30 + 98 * count <= |data|
    ensures r == Entries(lib, data, count)
  {
    var offset := 30;
    var entries: seq<HistoryEntry> := [];
    var i := 0;
    while i < count
      invariant 0 <= i <= count
      invariant offset == 30 + 98 * i
      invariant Entries(lib, data, i) == Some(entries)
    {
      assert offset + 98 == 30 + 98 * (i + 1) <= 30 + 98 * count;
      var record := data[offset..offset + 98];
      assert record == Record(data, i);
      var entry := DecodeEntry(lib, record);
      if entry.None? {
        assert Entries(lib, data, i + 1).None?;
        EntriesFailureStays(lib, data, i + 1, count);
        return None;
      }
      entries := entries + [entry.value];
      assert Entries(lib, data, i + 1) == Some(entries);
      offset := offset + 98;
      i := i + 1;
    }
    return Some(entries);
  }
}
