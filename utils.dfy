/**
 * The client's clock formula and its digit-grouping helper (utils.go).
 */
module Utils {
  import opened Text

  // ---------------------------------------------------------------------------
  // otpNow

  /** A local calendar reading: the fields otpNow takes from time.Now. */
  datatype DateTime = DateTime(year: int, month: int, day: int, hour: int, minute: int, second: int)

  /**
   * Seconds since 2000-01-01 00:00:00 counted with 365-day years and 30-day months,
   * converted to uint32 (so taken modulo 2^32).
   */
  function OtpNow(t: DateTime): uint32
  {
    ((t.year - 2000) * 31536000 + (t.month - 1) * 2592000 + (t.day - 1) * 86400
      + t.hour * 3600 + t.minute * 60 + t.second) % 0x1_0000_0000
  }

  /** The epoch of the formula is the start of the year 2000. */
  lemma OtpNowEpoch()
    ensures OtpNow(DateTime(2000, 1, 1, 0, 0, 0)) == 0
  {
  }

  /** One more second within the same minute is one more unit, modulo 2^32. */
  lemma OtpNowNextSecond(t: DateTime)
    ensures OtpNow(t.(second := t.second + 1)) == (OtpNow(t) + 1) % 0x1_0000_0000
  {
  }

  /**
   * Months are counted as 30 days, so the last second of the 31st of a month lies after
   * the first second of the next month: the clock is not monotone across such month ends.
   */
  lemma OtpNowNotMonotone(year: int, month: int)
    requires 2000 <= year < 2136 && 1 <= month < 12
    ensures OtpNow(DateTime(year, month, 31, 23, 59, 59)) > OtpNow(DateTime(year, month + 1, 1, 0, 0, 0))
  {
    var base := (year - 2000) * 31536000 + (month - 1) * 2592000;
    assert base + 2592000 + 86399 < 0x1_0000_0000;
  }

  // ---------------------------------------------------------------------------
  // humanize

  /** The number of groups humanize allows; -1 asks for as many groups as the text needs (a ceiling). */
  function GroupLimit(n: nat, each: int, maxgroup: int): int
    requires maxgroup == -1 ==> each > 0
  {
    if maxgroup == -1 then (n + each - 1) / each else maxgroup
  }

  /**
   * What humanize's loop appends for the remaining text `t` when `c` characters of the
   * current group have been written and `g` groups have been opened, the limit being `m`.
   */
  function Resume(t: Bytes, sep: byte, each: int, m: int, c: int, g: int): Bytes
    decreases |t|
  {
    if t == [] then []
    else if g < m && c + 1 == each then [t[0], sep] + Resume(t[1..], sep, each, m, 0, g + 1)
    else [t[0]] + Resume(t[1..], sep, each, m, c + 1, g)
  }

  /** The result of humanize(text, sep, each, maxgroup). */
  function Humanized(text: Bytes, sep: byte, each: int, maxgroup: int): Bytes
    requires maxgroup == -1 ==> each > 0
  {
    Resume(text, sep, each, GroupLimit(|text|, each, maxgroup), 0, 1)
  }

  /** The text with a separator after each group of `each` characters, at most maxgroup - 1 of them. */
  method Humanize(text: Bytes, sep: byte, each: int, maxgroup: int) returns (r: Bytes)
    requires maxgroup == -1 ==> each > 0
    ensures r == Humanized(text, sep, each, maxgroup)
  {
    var m := maxgroup;
    if m == -1 {
      m := (|text| + each - 1) / each;
    }
    r := [];
    var rest := text;
    var charCount := 0;
    var groupCount := 1;
    while |rest| > 0
      invariant r + Resume(rest, sep, each, m, charCount, groupCount) == Resume(text, sep, each, m, 0, 1)
    {
      var ch := rest[0];
      ghost var done := r;
      rest := rest[1..];
      r := r + [ch];
      charCount := charCount + 1;
      if groupCount < m && charCount == each {
        charCount := 0;
        r := r + [sep];
        groupCount := groupCount + 1;
        ghost var tail := Resume(rest, sep, each, m, charCount, groupCount);
        assert r + tail == done + ([ch, sep] + tail);
      } else {
        ghost var tail := Resume(rest, sep, each, m, charCount, groupCount);
        assert r + tail == done + ([ch] + tail);
      }
    }
  }

  /**
   * Reference definition: a first run of `first` characters, then runs of `each`, each
   * run followed by the separator while fewer than `k` separators have been written and
   * the text still fills the run; whatever remains is the last group.
   */
  function Grouped(t: Bytes, sep: byte, first: nat, each: nat, k: int): Bytes
    requires first > 0 && each > 0
    decreases |t|
  {
    if k > 0 && |t| >= first then t[..first] + [sep] + Grouped(t[first..], sep, each, each, k - 1) else t
  }

  /** How many separators Grouped writes for a text of length n. */
  function SeparatorCount(n: nat, first: nat, each: nat, k: int): nat
    requires first > 0 && each > 0
    decreases n
  {
    if k > 0 && n >= first then 1 + SeparatorCount(n - first, each, each, k - 1) else 0
  }

  lemma {:induction false} ResumeExhausted(t: Bytes, sep: byte, each: int, m: int, c: int, g: int)
    requires g >= m
    ensures Resume(t, sep, each, m, c, g) == t
    decreases |t|
  {
    if t != [] {
      ResumeExhausted(t[1..], sep, each, m, c + 1, g);
      assert t == [t[0]] + t[1..];
    }
  }

  lemma {:induction false} ResumeNeverFull(t: Bytes, sep: byte, each: int, m: int, c: int, g: int)
    requires c >= 0 && each <= c
    ensures Resume(t, sep, each, m, c, g) == t
    decreases |t|
  {
    if t != [] {
      ResumeNeverFull(t[1..], sep, each, m, c + 1, g);
      assert t == [t[0]] + t[1..];
    }
  }

  /** The loop of humanize, started `c` characters into a group, agrees with the reference. */
  lemma {:induction false} ResumeIsGrouped(t: Bytes, sep: byte, each: nat, m: int, c: nat, g: int)
    requires c < each
    ensures Resume(t, sep, each, m, c, g) == Grouped(t, sep, each - c, each, m - g)
    decreases |t|
  {
    if t == [] {
    } else if g >= m {
      ResumeExhausted(t, sep, each, m, c, g);
    } else if c + 1 == each {
      ResumeIsGrouped(t[1..], sep, each, m, 0, g + 1);
      assert Resume(t, sep, each, m, c, g) == [t[0], sep] + Resume(t[1..], sep, each, m, 0, g + 1);
      assert [t[0], sep] == t[..1] + [sep];
    } else {
      ResumeIsGrouped(t[1..], sep, each, m, c + 1, g);
      assert Resume(t, sep, each, m, c, g) == [t[0]] + Resume(t[1..], sep, each, m, c + 1, g);
      GroupedCons(t, sep, each - c, each, m - g);
    }
  }

  /** Inside a run of two or more, the first byte passes through. */
  lemma GroupedCons(t: Bytes, sep: byte, first: nat, each: nat, k: int)
    requires first >= 2 && each > 0 && |t| > 0
    ensures Grouped(t, sep, first, each, k) == [t[0]] + Grouped(t[1..], sep, first - 1, each, k)
  {
    var rest := t[1..];
    if k > 0 && |t| >= first {
      assert t[..first] == [t[0]] + rest[..first - 1];
      assert t[first..] == rest[first - 1..];
    } else {
      assert t == [t[0]] + rest;
    }
  }

  /** humanize is the reference grouping: runs of `each` characters, at most limit - 1 separators. */
  lemma HumanizedIsGrouped(text: Bytes, sep: byte, each: nat, maxgroup: int)
    requires each > 0
    ensures Humanized(text, sep, each, maxgroup) == Grouped(text, sep, each, each, GroupLimit(|text|, each, maxgroup) - 1)
  {
    ResumeIsGrouped(text, sep, each, GroupLimit(|text|, each, maxgroup), 0, 1);
  }

  /** With a group size of zero or less no group is ever full, so nothing is inserted. */
  lemma HumanizedNoGroups(text: Bytes, sep: byte, each: int, maxgroup: int)
    requires each <= 0 && maxgroup != -1
    ensures Humanized(text, sep, each, maxgroup) == text
  {
    ResumeNeverFull(text, sep, each, maxgroup, 0, 1);
  }

  lemma {:induction false} CountConcat(a: Bytes, b: Bytes, x: byte)
    ensures Count(a + b, x) == Count(a, x) + Count(b, x)
    decreases |a|
  {
    if a != [] {
      assert (a + b)[0] == a[0] && (a + b)[1..] == a[1..] + b;
      CountConcat(a[1..], b, x);
    } else {
      assert a + b == b;
    }
  }

  /** Grouping adds exactly SeparatorCount separators, at most k of them, and nothing else. */
  lemma {:induction false} GroupedCount(t: Bytes, sep: byte, first: nat, each: nat, k: int)
    requires first > 0 && each > 0
    ensures |Grouped(t, sep, first, each, k)| == |t| + SeparatorCount(|t|, first, each, k)
    ensures Count(Grouped(t, sep, first, each, k), sep) == Count(t, sep) + SeparatorCount(|t|, first, each, k)
    ensures SeparatorCount(|t|, first, each, k) <= if k > 0 then k else 0
    decreases |t|
  {
    if k > 0 && |t| >= first {
      var rest := t[first..];
      GroupedCount(rest, sep, each, each, k - 1);
      CountConcat(t[..first] + [sep], Grouped(rest, sep, each, each, k - 1), sep);
      CountConcat(t[..first], [sep], sep);
      CountConcat(t[..first], rest, sep);
      assert t == t[..first] + rest;
    }
  }

  /** The bytes of `s` other than `x`, in order. */
  function Without(s: Bytes, x: byte): (r: Bytes)
    ensures x !in r
  {
    if s == [] then [] else if s[0] == x then Without(s[1..], x) else [s[0]] + Without(s[1..], x)
  }

  lemma {:induction false} WithoutConcat(a: Bytes, b: Bytes, x: byte)
    ensures Without(a + b, x) == Without(a, x) + Without(b, x)
    decreases |a|
  {
    if a != [] {
      assert (a + b)[0] == a[0] && (a + b)[1..] == a[1..] + b;
      WithoutConcat(a[1..], b, x);
    } else {
      assert a + b == b;
    }
  }

  lemma {:induction false} WithoutAbsent(s: Bytes, x: byte)
    requires x !in s
    ensures Without(s, x) == s
    decreases |s|
  {
    if s != [] {
      WithoutAbsent(s[1..], x);
      assert s == [s[0]] + s[1..];
    }
  }

  /** Deleting the separators from a grouping gives back the text, in order. */
  lemma {:induction false} UngroupGrouped(t: Bytes, sep: byte, first: nat, each: nat, k: int)
    requires first > 0 && each > 0 && sep !in t
    ensures Without(Grouped(t, sep, first, each, k), sep) == t
    decreases |t|
  {
    if k > 0 && |t| >= first {
      var rest := t[first..];
      assert sep !in rest && sep !in t[..first];
      UngroupGrouped(rest, sep, each, each, k - 1);
      WithoutConcat(t[..first] + [sep], Grouped(rest, sep, each, each, k - 1), sep);
      WithoutConcat(t[..first], [sep], sep);
      WithoutAbsent(t[..first], sep);
      assert t == t[..first] + rest;
    } else {
      WithoutAbsent(t, sep);
    }
  }

  /** When the separators run out before the text does, the output ends with the text's last byte. */
  lemma {:induction false} GroupedEndsInText(t: Bytes, sep: byte, first: nat, each: nat, k: int)
    requires first > 0 && each > 0 && |t| > 0
    requires k <= 0 || |t| > first + (k - 1) * each
    ensures |Grouped(t, sep, first, each, k)| > 0
    ensures Grouped(t, sep, first, each, k)[|Grouped(t, sep, first, each, k)| - 1] == t[|t| - 1]
    decreases |t|
  {
    if k > 0 && |t| >= first {
      var rest := t[first..];
      assert |rest| > (k - 1) * each;
      GroupedEndsInText(rest, sep, each, each, k - 1);
    }
  }

  lemma CeilingBound(n: nat, each: nat)
    requires each > 0 && n > 0
    ensures (n + each - 1) / each >= 1
    ensures ((n + each - 1) / each - 1) * each < n
  {
    var q := (n + each - 1) / each;
    assert q * each <= n + each - 1;
    assert (q - 1) * each == q * each - each;
  }

  /** Properties of the humanize call sites, each stated for the input they give it. */
  lemma HumanizedEdgeCases(text: Bytes, sep: byte, each: nat, maxgroup: int)
    requires each > 0
    ensures Humanized([], sep, each, maxgroup) == []
    ensures maxgroup == -1 && |text| > 0 ==>
      Humanized(text, sep, each, maxgroup)[|Humanized(text, sep, each, maxgroup)| - 1] == text[|text| - 1]
    ensures maxgroup == 2 && |text| >= each ==> Humanized(text, sep, each, maxgroup) == text[..each] + [sep] + text[each..]
    ensures maxgroup == 2 && |text| < each ==> Humanized(text, sep, each, maxgroup) == text
  {
    HumanizedIsGrouped(text, sep, each, maxgroup);
    HumanizedIsGrouped([], sep, each, maxgroup);
    if maxgroup == -1 && |text| > 0 {
      CeilingBound(|text|, each);
      GroupedEndsInText(text, sep, each, each, GroupLimit(|text|, each, maxgroup) - 1);
    }
  }

  /** Deleting the inserted separators from humanize's output gives back its input. */
  lemma UngroupHumanized(text: Bytes, sep: byte, each: nat, maxgroup: int)
    requires each > 0 && sep !in text
    ensures Without(Humanized(text, sep, each, maxgroup), sep) == text
  {
    HumanizedIsGrouped(text, sep, each, maxgroup);
    UngroupGrouped(text, sep, each, each, GroupLimit(|text|, each, maxgroup) - 1);
  }

  /** humanize inserts at most limit - 1 separators. */
  lemma HumanizedSeparators(text: Bytes, sep: byte, each: nat, maxgroup: int)
    requires each > 0 && sep !in text
    ensures Count(Humanized(text, sep, each, maxgroup), sep) <= if GroupLimit(|text|, each, maxgroup) > 1 then GroupLimit(|text|, each, maxgroup) - 1 else 0
  {
    var k := GroupLimit(|text|, each, maxgroup) - 1;
    HumanizedIsGrouped(text, sep, each, maxgroup);
    GroupedCount(text, sep, each, each, k);
    CountAbsent(text, sep);
  }

  lemma {:induction false} CountAbsent(s: Bytes, x: byte)
    requires x !in s
    ensures Count(s, x) == 0
    decreases |s|
  {
    if s != [] {
      CountAbsent(s[1..], x);
    }
  }

  /** A 16-character serial number grouped by 4 with the ceiling limit gets exactly 3 separators. */
  lemma SerialGrouping(serial: Bytes, sep: byte)
    requires |serial| == 16 && sep !in serial
    ensures Count(Humanized(serial, sep, 4, -1), sep) == 3
    ensures |Humanized(serial, sep, 4, -1)| == 19
    ensures Humanized(serial, sep, 4, -1) ==
      serial[..4] + [sep] + serial[4..8] + [sep] + serial[8..12] + [sep] + serial[12..]
  {
    HumanizedIsGrouped(serial, sep, 4, -1);
    assert GroupLimit(16, 4, -1) == 4;
    var t1, t2, t3 := serial[4..], serial[8..], serial[12..];
    assert t1[..4] == serial[4..8] && t1[4..] == t2;
    assert t2[..4] == serial[8..12] && t2[4..] == t3;
    assert Grouped(t3, sep, 4, 4, 0) == t3;
    assert Grouped(t2, sep, 4, 4, 1) == serial[8..12] + [sep] + t3;
    assert Grouped(t1, sep, 4, 4, 2) == serial[4..8] + [sep] + (serial[8..12] + [sep] + t3);
    assert Grouped(serial, sep, 4, 4, 3) == serial[..4] + [sep] + (serial[4..8] + [sep] + (serial[8..12] + [sep] + t3));
    GroupedCount(serial, sep, 4, 4, 3);
    CountAbsent(serial, sep);
    assert SeparatorCount(16, 4, 4, 3) == 1 + SeparatorCount(12, 4, 4, 2);
    assert SeparatorCount(12, 4, 4, 2) == 1 + SeparatorCount(8, 4, 4, 1);
    assert SeparatorCount(8, 4, 4, 1) == 1 + SeparatorCount(4, 4, 4, 0);
  }
}
