/** What a session file name is: its separators stand in fixed places, and civil time and identifier can
    be read back from the fields between them. */
module SessionNames {
  import opened Numbers
  import opened Calendar
  import opened Filenames = SessionFilename

  /** What a digit stands for; 16 for everything else. */
  function DigitValue(c: char): nat {
    if '0' <= c <= '9' then c as int - '0' as int
    else if 'a' <= c <= 'f' then c as int - 'a' as int + 10
    else 16
  }

  function NumberOf(text: string, base: nat): nat {
    if text == [] then 0 else base * NumberOf(text[..|text| - 1], base) + DigitValue(text[|text| - 1])
  }

  /** `text` is `n` written with `width` digits of the base. */
  ghost predicate Writes(text: string, n: nat, base: nat, width: nat) {
    && |text| == width && NumberOf(text, base) == n
    && forall i :: 0 <= i < |text| ==> DigitValue(text[i]) < base
  }

  lemma {:induction false} DigitsWrite(n: nat, base: nat, width: nat)
    requires 2 <= base <= 16 && n < Power(base, width)
    ensures Writes(Digits(n, base, width), n, base, width)
    decreases width
  {
    hide Digits;
    hide NumberOf;
    if width == 0 {
      NoDigits(n, base);
    } else {
      var q, r := LastDigit(n, base, width);
      DigitsWrite(q, base, width - 1);
      OneMoreDigit(Digits(q, base, width - 1), q, r, base);
    }
  }

  lemma NoDigits(n: nat, base: nat)
    requires 2 <= base <= 16 && n < Power(base, 0)
    ensures Writes(Digits(n, base, 0), n, base, 0)
  {
  }

  lemma LastDigit(n: nat, base: nat, width: nat) returns (q: nat, r: nat)
    requires 2 <= base <= 16 && 0 < width && n < Power(base, width)
    ensures n == base * q + r && r < base && q < Power(base, width - 1)
    ensures Digits(n, base, width) == Digits(q, base, width - 1) + [DigitChar(r)]
  {
    q, r := n / base, n % base;
    DivisionSplits(n, base);
    QuotientFits(n, base, width);
    hide Power;
  }

  lemma OneMoreDigit(front: string, q: nat, r: nat, base: nat)
    requires Writes(front, q, base, |front|) && r < base <= 16
    ensures Writes(front + [DigitChar(r)], base * q + r, base, |front| + 1)
  {
    assert (front + [DigitChar(r)])[..|front|] == front;
  }

  lemma PaddedWrites(n: nat, width: nat)
    requires 0 < width && n < Power(10, width)
    ensures Writes(Padded(n, width), n, 10, width)
  {
    PaddedIsDigits(n, width);
    DigitsWrite(n, 10, width);
  }

  // ----- the stamp -----

  /** A year field of `w` characters, then month, day, hour, minute and second behind their separators. */
  ghost predicate StampReads(stamp: string, w: nat, t: CivilTime)
    requires t.date.year >= 0 && t.date.month >= 0 && t.date.day >= 0
  {
    && |stamp| == w + 15
    && Writes(stamp[..w], t.date.year, 10, w) && stamp[w] == '-'
    && Writes(stamp[w + 1..w + 3], t.date.month, 10, 2) && stamp[w + 3] == '-'
    && Writes(stamp[w + 4..w + 6], t.date.day, 10, 2) && stamp[w + 6] == 'T'
    && Writes(stamp[w + 7..w + 9], t.hour, 10, 2) && stamp[w + 9] == '-'
    && Writes(stamp[w + 10..w + 12], t.minute, 10, 2) && stamp[w + 12] == '-'
    && Writes(stamp[w + 13..w + 15], t.second, 10, 2)
  }

  lemma FieldsOf(y: string, mo: string, d: string, h: string, mi: string, s: string)
    requires |mo| == |d| == |h| == |mi| == |s| == 2
    ensures var w := |y|;
      var stamp := y + ("-" + (mo + ("-" + (d + ("T" + (h + ("-" + (mi + ("-" + s)))))))));
      && |stamp| == w + 15 && stamp[..w] == y && stamp[w] == '-' && stamp[w + 1..w + 3] == mo && stamp[w + 3] == '-'
      && stamp[w + 4..w + 6] == d && stamp[w + 6] == 'T' && stamp[w + 7..w + 9] == h && stamp[w + 9] == '-'
      && stamp[w + 10..w + 12] == mi && stamp[w + 12] == '-' && stamp[w + 13..w + 15] == s
  {
  }

  function YearWidth(year: int): nat { if year < 10_000 then 4 else 5 }

  lemma StampIsRead(t: CivilTime)
    requires ValidTime(t) && t.date.year < 100_000
    ensures StampReads(Stamp(t), YearWidth(t.date.year), t)
  {
    PowersOfTen();
    if t.date.year < 10_000 {
      PaddedWrites(t.date.year, 4);
    } else {
      WideYear(t.date.year);
      DigitsWrite(t.date.year, 10, 5);
    }
    PaddedWrites(t.date.month, 2);
    PaddedWrites(t.date.day, 2);
    PaddedWrites(t.hour, 2);
    PaddedWrites(t.minute, 2);
    PaddedWrites(t.second, 2);
    hide Padded;
    hide NumberOf;
    hide Power;
    FieldsOf(Padded(t.date.year, 4), Padded(t.date.month, 2), Padded(t.date.day, 2), Padded(t.hour, 2),
             Padded(t.minute, 2), Padded(t.second, 2));
  }

  // ----- the identifier -----

  /** Thirty-two hexadecimal digits with hyphens behind the eighth, twelfth, sixteenth and twentieth. */
  ghost predicate IdReads(part: string, id: SessionId) {
    && |part| == 36 && part[8] == part[13] == part[18] == part[23] == '-'
    && Writes(part[..8] + part[9..13] + part[14..18] + part[19..23] + part[24..], id, 16, 32)
  }

  lemma IdIsRead(id: SessionId)
    ensures IdReads(Hyphenated(id), id)
  {
    var hex := Digits(id, 16, 32);
    Power16();
    DigitsWrite(id, 16, 32);
    hide Digits;
    hide NumberOf;
    GroupsOf(hex);
  }

  lemma GroupsOf(hex: string)
    requires |hex| == 32
    ensures var part := Hyphenate(hex, [8, 4, 4, 4]);
      && |part| == 36 && part[8] == part[13] == part[18] == part[23] == '-'
      && part[..8] + part[9..13] + part[14..18] + part[19..23] + part[24..] == hex
  {
    hide Hyphenate;
    var a, b, c, d, e := hex[..8], hex[8..12], hex[12..16], hex[16..20], hex[20..];
    assert a + b + c + d + e == hex;
    HyphensBetween(a, b, c, d, e);
    FiveGroups(a, b, c, d, e);
  }

  lemma HyphensBetween(a: string, b: string, c: string, d: string, e: string)
    requires |a| == 8 && |b| == |c| == |d| == 4
    ensures Hyphenate(a + b + c + d + e, [8, 4, 4, 4])
            == a + ("-" + (b + ("-" + (c + ("-" + (d + ("-" + e)))))))
  {
    var third := d + e;
    var second := c + third;
    var first := b + second;
    assert a + b + c + d + e == a + first;
    assert [8, 4, 4, 4][1..] == [4, 4, 4] && [4, 4, 4][1..] == [4, 4] && [4, 4][1..] == [4] && [4][1..] == [];
    FirstHyphen(d, e, [4]);
    assert Hyphenate(e, []) == e;
    FirstHyphen(c, third, [4, 4]);
    FirstHyphen(b, second, [4, 4, 4]);
    FirstHyphen(a, first, [8, 4, 4, 4]);
  }

  lemma FirstHyphen(group: string, rest: string, widths: seq<nat>)
    requires widths != [] && widths[0] == |group|
    ensures Hyphenate(group + rest, widths) == group + ("-" + Hyphenate(rest, widths[1..]))
  {
    assert (group + rest)[..|group|] == group && (group + rest)[|group|..] == rest;
  }

  lemma FiveGroups(a: string, b: string, c: string, d: string, e: string)
    requires |a| == 8 && |b| == |c| == |d| == 4 && |e| == 12
    ensures var part := a + ("-" + (b + ("-" + (c + ("-" + (d + ("-" + e)))))));
      && |part| == 36 && part[8] == part[13] == part[18] == part[23] == '-'
      && part[..8] == a && part[9..13] == b && part[14..18] == c && part[19..23] == d && part[24..] == e
  {
    var third := d + ("-" + e);
    var second := c + ("-" + third);
    var first := b + ("-" + second);
    var part := a + ("-" + first);
    BehindHyphen(a, first);
    BehindHyphen(b, second);
    BehindHyphen(c, third);
    BehindHyphen(d, e);
    GroupAt(part, 9);
    GroupAt(part, 14);
    GroupAt(part, 19);
  }

  lemma BehindHyphen(group: string, rest: string)
    ensures var text, n := group + ("-" + rest), |group|;
      |text| == n + 1 + |rest| && text[..n] == group && text[n] == '-' && text[n + 1..] == rest
  {
  }

  lemma GroupAt(text: string, i: nat)
    requires i + 5 <= |text|
    ensures text[i..][..4] == text[i..i + 4] && text[i..][4] == text[i + 4] && text[i..][5..] == text[i + 5..]
  {
  }

  // ----- the name -----

  /** The civil time `t` of a second since 1970. */
  ghost predicate IsTimeOf(t: CivilTime, seconds: nat) {
    && ValidTime(t) && t.date == CivilFromDays(seconds / 86_400)
    && t.hour * 3_600 + t.minute * 60 + t.second == seconds % 86_400
  }

  /** The name is the stamp of the id's second, an underscore, the identifier and the extension. */
  lemma NameReadsBack(id: SessionId) returns (t: CivilTime)
    ensures IsTimeOf(t, id / TWO_TO_80 / 1_000)
    ensures var name, w := Filenames.SessionFilename(id), YearWidth(t.date.year);
      && |name| == w + 58
      && StampReads(name[..w + 15], w, t) && name[w + 15] == '_'
      && IdReads(name[w + 16..w + 52], id) && name[w + 52..] == ".jsonl"
  {
    var seconds := Seconds(TimestampMillis(id));
    assert seconds == id / TWO_TO_80 / 1_000;
    t := TimeOf(seconds);
    TimesAreValid(id);
    TimeIsOf(seconds);
    StampIsRead(t);
    IdIsRead(id);
    hide Stamp;
    hide Hyphenated;
    hide StampReads;
    hide IdReads;
    PartsOf(Stamp(t), Hyphenated(id));
  }

  lemma PartsOf(stamp: string, part: string)
    requires |part| == 36
    ensures var name, n := stamp + ("_" + (part + ".jsonl")), |stamp|;
      && |name| == n + 43 && name[..n] == stamp && name[n] == '_' && name[n + 1..n + 37] == part
      && name[n + 37..] == ".jsonl"
  {
  }

  lemma TimeIsOf(seconds: nat)
    ensures var t := TimeOf(seconds);
      t.hour * 3_600 + t.minute * 60 + t.second == seconds % 86_400
  {
    SplitMinute(seconds % 86_400);
  }

  // ----- a name -----

  lemma NextDigit(m: nat, d: nat, base: nat, width: nat)
    requires 2 <= base <= 16 && d < base
    ensures Digits(base * m + d, base, width + 1) == Digits(m, base, width) + [DigitChar(d)]
  {
    DivisionIs(base * m + d, base, m);
    RemainderIs(base * m + d, base, m, d);
  }

  lemma FourMore(m: nat, a: nat, b: nat, c: nat, d: nat, base: nat, width: nat, n: nat)
    requires a < base && b < base && c < base && d < base && (base == 10 || base == 16)
    requires if base == 10 then n == 10_000 * m + 1_000 * a + 100 * b + 10 * c + d
             else n == 65_536 * m + 4_096 * a + 256 * b + 16 * c + d
    ensures Digits(n, base, width + 4)
            == Digits(m, base, width) + [DigitChar(a), DigitChar(b), DigitChar(c), DigitChar(d)]
  {
    hide Digits;
    hide DigitChar;
    if base == 10 {
      NextDigit(m, a, 10, width);
      NextDigit(10 * m + a, b, 10, width + 1);
      NextDigit(100 * m + 10 * a + b, c, 10, width + 2);
      NextDigit(1_000 * m + 100 * a + 10 * b + c, d, 10, width + 3);
    } else {
      NextDigit(m, a, 16, width);
      NextDigit(16 * m + a, b, 16, width + 1);
      NextDigit(256 * m + 16 * a + b, c, 16, width + 2);
      NextDigit(4_096 * m + 256 * a + 16 * b + c, d, 16, width + 3);
    }
  }

  lemma TwoDigits(n: nat)
    requires 10 <= n < 100
    ensures Padded(n, 2) == [DigitChar(n / 10), DigitChar(n % 10)]
  {
    assert Decimal(n) == Decimal(n / 10) + [DigitChar(n % 10)];
  }

  lemma HexGroupsOfAnId()
    ensures [DigitChar(0), DigitChar(1), DigitChar(8), DigitChar(11)]
            + [DigitChar(12), DigitChar(15), DigitChar(14), DigitChar(5)] == "018bcfe5"
    ensures [DigitChar(6), DigitChar(8), DigitChar(0), DigitChar(0)] == "6800"
    ensures [DigitChar(7), DigitChar(0), DigitChar(0), DigitChar(0)] == "7000"
    ensures [DigitChar(8), DigitChar(0), DigitChar(0), DigitChar(0)] == "8000"
    ensures [DigitChar(0), DigitChar(0), DigitChar(0), DigitChar(0)] == "0000"
    ensures [DigitChar(0), DigitChar(0), DigitChar(0), DigitChar(10)] == "000a"
  {
  }

  lemma HexOfAnId()
    ensures Digits(0x018b_cfe5_6800_7000_8000_0000_0000_000a, 16, 32)
            == "018bcfe5" + "6800" + "7000" + "8000" + "00000000000a"
  {
    hide Digits;
    hide DigitChar;
    HexGroupsOfAnId();
    EmptyDigits(0, 16);
    FourMore(0, 0, 1, 8, 11, 16, 0, 0x018b);
    FourMore(0x018b, 12, 15, 14, 5, 16, 4, 0x018b_cfe5);
    FourMore(0x018b_cfe5, 6, 8, 0, 0, 16, 8, 0x018b_cfe5_6800);
    FourMore(0x018b_cfe5_6800, 7, 0, 0, 0, 16, 12, 0x018b_cfe5_6800_7000);
    FourMore(0x018b_cfe5_6800_7000, 8, 0, 0, 0, 16, 16, 0x018b_cfe5_6800_7000_8000);
    assert Digits(0x018b_cfe5_6800_7000_8000, 16, 20) == "018bcfe5" + "6800" + "7000" + "8000";
    FourMore(0x018b_cfe5_6800_7000_8000, 0, 0, 0, 0, 16, 20, 0x018b_cfe5_6800_7000_8000_0000);
    FourMore(0x018b_cfe5_6800_7000_8000_0000, 0, 0, 0, 0, 16, 24, 0x018b_cfe5_6800_7000_8000_0000_0000);
    FourMore(0x018b_cfe5_6800_7000_8000_0000_0000, 0, 0, 0, 10, 16, 28, 0x018b_cfe5_6800_7000_8000_0000_0000_000a);
    LastGroup("018bcfe5" + "6800" + "7000" + "8000");
  }

  lemma LastGroup(front: string)
    ensures front + "0000" + "0000" + "000a" == front + "00000000000a"
  {
    assert "0000" + "0000" + "000a" == "00000000000a";
  }

  lemma EmptyDigits(n: nat, base: nat)
    requires 2 <= base <= 16
    ensures Digits(n, base, 0) == []
  {
  }

  lemma YearOfAnId()
    ensures Padded(2023, 4) == "2023"
  {
    PowersOfTen();
    PaddedIsDigits(2023, 4);
    hide Padded;
    hide Digits;
    hide Power;
    EmptyDigits(0, 10);
    FourMore(0, 2, 0, 2, 3, 10, 0, 2023);
  }

  lemma StampOfAnId()
    ensures Stamp(CivilTime(Date(2023, 11, 14), 22, 13, 20)) == "2023-11-14T22-13-20"
  {
    hide Padded;
    YearOfAnId();
    TwoDigits(11);
    TwoDigits(14);
    TwoDigits(22);
    TwoDigits(13);
    TwoDigits(20);
  }

  lemma DateOfAnId()
    ensures CivilFromDays(19_675) == Date(2023, 11, 14)
  {
    assert EraOf(739_143) == 5 && YearOfEra(8_658) == 23 && DayOfYear(8_658) == 258;
  }

  lemma TimeOfAnId()
    ensures TimeOf(1_700_000_000) == CivilTime(Date(2023, 11, 14), 22, 13, 20)
  {
    hide CivilFromDays;
    DateOfAnId();
    assert 1_700_000_000 / 86_400 == 19_675;
  }

  /** The name of one id. */
  lemma NameOfAnId()
    ensures var id: SessionId := 0x018b_cfe5_6800_7000_8000_0000_0000_000a;
      Filenames.SessionFilename(id)
      == "2023-11-14T22-13-20" + ("_" + ("018bcfe5-6800-7000-8000-00000000000a" + ".jsonl"))
  {
    hide Digits;
    hide TimeOf;
    hide Stamp;
    hide Hyphenate;
    var id: SessionId := 0x018b_cfe5_6800_7000_8000_0000_0000_000a;
    assert Seconds(TimestampMillis(id)) == 1_700_000_000;
    TimeOfAnId();
    StampOfAnId();
    HexOfAnId();
    HyphensBetween("018bcfe5", "6800", "7000", "8000", "00000000000a");
    HyphenatedLiteral();
  }

  lemma HyphenatedLiteral()
    ensures "018bcfe5" + ("-" + ("6800" + ("-" + ("7000" + ("-" + ("8000" + ("-" + "00000000000a")))))))
            == "018bcfe5-6800-7000-8000-00000000000a"
  {
  }
}
