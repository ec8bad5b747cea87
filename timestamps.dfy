/** Reading the capture date and the time-of-day slot of a session from its file
    name: `extract_info_from_filename`, used when the files are loaded, and
    `assign_mslot_from_filename_winter`, which goes through a Europe/Paris
    timestamp first. Both look for the leftmost `\d{8}_\d{4}` token. */
module Timestamps {
  import opened Wrappers
  import opened Calendar

  // ---------------------------------------------------------------------------
  // The `\d{8}_\d{4}` token
  // ---------------------------------------------------------------------------

  predicate IsDigit(c: char) {
    '0' <= c <= '9'
  }

  function DigitValue(c: char): (v: nat)
    requires IsDigit(c)
    ensures v < 10
  {
    c as int - '0' as int
  }

  /** The characters of `s[i..i + 13]` are eight digits, `_` and four digits. */
  predicate TokenAt(s: string, i: int) {
    && 0 <= i && i + 13 <= |s|
    && (forall k :: i <= k < i + 8 ==> IsDigit(s[k]))
    && s[i + 8] == '_'
    && (forall k :: i + 9 <= k < i + 13 ==> IsDigit(s[k]))
  }

  /** The leftmost token that starts at `i` or later. */
  function FindTokenFrom(s: string, i: nat): (r: Option<nat>)
    requires i <= |s|
    ensures r.None? <==> forall j :: i <= j ==> !TokenAt(s, j)
    ensures r.Some? ==> i <= r.value && TokenAt(s, r.value)
    ensures r.Some? ==> forall j :: i <= j < r.value ==> !TokenAt(s, j)
    decreases |s| - i
  {
    if i + 13 > |s| then None
    else if TokenAt(s, i) then Some(i)
    else FindTokenFrom(s, i + 1)
  }

  /** `re.search(r"(\d{8})_(\d{4})", s)`: the start of the leftmost match. */
  function FindToken(s: string): (r: Option<nat>)
    ensures r.None? <==> forall j :: !TokenAt(s, j)
    ensures r.Some? ==> TokenAt(s, r.value) && forall j :: 0 <= j < r.value ==> !TokenAt(s, j)
  {
    FindTokenFrom(s, 0)
  }

  /** Two names with the same token positions have the same leftmost token. */
  lemma FindTokenDependsOnTokens(s: string, t: string)
    requires forall j :: TokenAt(s, j) <==> TokenAt(t, j)
    ensures FindToken(s) == FindToken(t)
  {
  }

  /** The numbers written by two digits. */
  function TwoDigits(a: char, b: char): (n: nat)
    requires IsDigit(a) && IsDigit(b)
    ensures n < 100
  {
    10 * DigitValue(a) + DigitValue(b)
  }

  /** The hour written in the token at `i`: the first two of its time digits. */
  function HourAt(s: string, i: nat): (h: nat)
    requires TokenAt(s, i)
    ensures h < 100
  {
    TwoDigits(s[i + 9], s[i + 10])
  }

  // ---------------------------------------------------------------------------
  // Slots
  // ---------------------------------------------------------------------------

  /** The time-of-day buckets; `Unk` is the "UNK" of the source. */
  datatype Slot = M1 | M2 | M3 | M4 | Unk

  /** The value stored in the `M_slot` column. */
  function SlotName(s: Slot): string {
    match s
    case M1 => "M1"
    case M2 => "M2"
    case M3 => "M3"
    case M4 => "M4"
    case Unk => "UNK"
  }

  /** The four named slots, in the order of the day. */
  const DaySlots: seq<Slot> := [M1, M2, M3, M4]

  /** The slot of an hour: four three-hour ranges closed at the start and open at
      the end, from 8 to 20; every other hour is unknown. */
  function SlotOfHour(h: int): (r: Slot)
    ensures r != Unk <==> 8 <= h < 20
    ensures 8 <= h < 20 ==> r == DaySlots[(h - 8) / 3]
  {
    if 8 <= h < 11 then M1
    else if 11 <= h < 14 then M2
    else if 14 <= h < 17 then M3
    else if 17 <= h < 20 then M4
    else Unk
  }

  /** The edges of the ranges. */
  lemma SlotBoundaries()
    ensures SlotOfHour(7) == Unk && SlotOfHour(8) == M1
    ensures SlotOfHour(10) == M1 && SlotOfHour(11) == M2
    ensures SlotOfHour(13) == M2 && SlotOfHour(14) == M3
    ensures SlotOfHour(16) == M3 && SlotOfHour(17) == M4
    ensures SlotOfHour(19) == M4 && SlotOfHour(20) == Unk
  {
  }

  /** Later hours never fall in earlier slots. */
  lemma SlotsInDayOrder(h: int, h': int, i: nat, j: nat)
    requires h <= h' && i < 4 && j < 4
    requires SlotOfHour(h) == DaySlots[i] && SlotOfHour(h') == DaySlots[j]
    ensures i <= j
  {
  }

  // ---------------------------------------------------------------------------
  // extract_info_from_filename
  // ---------------------------------------------------------------------------

  /** What the loader learns from a file name: the date text `YYYY-MM-DD` and the
      slot, both missing when the name holds no token. */
  datatype FileInfo = FileInfo(date: Option<string>, slot: Option<Slot>)

  /** `date` is the eight digits `digits` with a `-` after the year and after the
      month. */
  predicate IsDateText(date: string, digits: string) {
    |date| == 10 && |digits| == 8 && date[4] == '-' && date[7] == '-'
    && date[..4] + date[5..7] + date[8..] == digits
  }

  /** `extract_info_from_filename(name)` */
  function ExtractInfo(name: string): (r: FileInfo)
    ensures r.date.None? <==> forall j :: !TokenAt(name, j)
    ensures r.slot.None? <==> r.date.None?
    ensures FindToken(name).Some? ==>
      var i := FindToken(name).value;
      && IsDateText(r.date.value, name[i..i + 8])
      && r.slot == Some(SlotOfHour(HourAt(name, i)))
  {
    match FindToken(name)
    case None => FileInfo(None, None)
    case Some(i) =>
      var datePart, timePart := name[i..i + 8], name[i + 9..i + 13];
      var dateStr := datePart[..4] + "-" + datePart[4..6] + "-" + datePart[6..];
      var hh := TwoDigits(timePart[0], timePart[1]);
      assert dateStr[..4] + dateStr[5..7] + dateStr[8..] == datePart;
      FileInfo(Some(dateStr), Some(SlotOfHour(hh)))
  }

  /** The minutes of the token do not change what is extracted. */
  lemma MinutesIgnored(name: string, name': string, i: nat)
    requires FindToken(name) == Some(i) && |name'| == |name|
    requires forall k :: 0 <= k < |name| && k != i + 11 && k != i + 12 ==> name'[k] == name[k]
    requires IsDigit(name'[i + 11]) && IsDigit(name'[i + 12])
    ensures ExtractInfo(name') == ExtractInfo(name)
  {
    assert TokenAt(name, i);
    forall j ensures TokenAt(name, j) <==> TokenAt(name', j) {
      SameShape(name, name', i, j);
    }
    FindTokenDependsOnTokens(name, name');
    assert name'[i..i + 8] == name[i..i + 8];
  }

  /** Changing two digits of a string into other digits keeps every token. */
  lemma SameShape(s: string, s': string, i: nat, j: int)
    requires |s'| == |s| && i + 13 <= |s|
    requires IsDigit(s[i + 11]) && IsDigit(s[i + 12])
    requires forall k :: 0 <= k < |s| && k != i + 11 && k != i + 12 ==> s'[k] == s[k]
    requires IsDigit(s'[i + 11]) && IsDigit(s'[i + 12])
    ensures TokenAt(s, j) <==> TokenAt(s', j)
  {
    if 0 <= j && j + 13 <= |s| {
      assert forall k :: 0 <= k < |s| ==> (IsDigit(s[k]) <==> IsDigit(s'[k]));
      assert forall k :: 0 <= k < |s| ==> (s[k] == '_' <==> s'[k] == '_');
    }
  }

  // ---------------------------------------------------------------------------
  // assign_mslot_from_filename_winter
  // ---------------------------------------------------------------------------

  /** Why `pd.Timestamp(...).tz_localize("Europe/Paris")` raises. */
  datatype TimestampError =
    | NotATimestamp        // the digits name no representable date and time
    | NotLocalizable       // the wall-clock time is skipped or repeated in Paris

  /** The date and time written in the token at `i`. */
  function WallClockAt(s: string, i: nat): (t: WallClock)
    requires TokenAt(s, i)
    ensures t.hour == HourAt(s, i)
  {
    WallClock(
      100 * TwoDigits(s[i], s[i + 1]) + TwoDigits(s[i + 2], s[i + 3]),
      TwoDigits(s[i + 4], s[i + 5]),
      TwoDigits(s[i + 6], s[i + 7]),
      TwoDigits(s[i + 9], s[i + 10]),
      TwoDigits(s[i + 11], s[i + 12]))
  }

  /** `assign_mslot_from_filename_winter(name)`. `localizes` stands for the time
      zone database: it answers whether `tz_localize` accepts a wall-clock time
      in Europe/Paris (times skipped or repeated by a clock change are refused).
      Localizing keeps the wall-clock hour, so the slot is the slot of the
      written hour. */
  function AssignSlotWinter(name: string, localizes: WallClock -> bool): (r: Result<Slot, TimestampError>)
    ensures FindToken(name).None? ==> r == Ok(Unk)
    ensures FindToken(name).Some? ==>
      var t := WallClockAt(name, FindToken(name).value);
      && (r == Err(NotATimestamp) <==> !Representable(t))
      && (r == Err(NotLocalizable) <==> Representable(t) && !localizes(t))
      && (r.Ok? <==> Representable(t) && localizes(t))
  {
    match FindToken(name)
    case None => Ok(Unk)
    case Some(i) =>
      var t := WallClockAt(name, i);
      if !Representable(t) then Err(NotATimestamp)
      else if !localizes(t) then Err(NotLocalizable)
      else Ok(SlotOfHour(t.hour))
  }

  /** The slot `extract_info_from_filename` gives, with a missing slot read as
      unknown. */
  function SlotOrUnknown(info: FileInfo): Slot {
    if info.slot.Some? then info.slot.value else Unk
  }

  /** Whenever the time-zone path answers, it answers the slot of the path that
      reads the raw hour digits; it answers for every name without a token and
      for every name whose timestamp is representable and localizable. */
  lemma WinterPathAgrees(name: string, localizes: WallClock -> bool)
    ensures AssignSlotWinter(name, localizes).Ok? ==>
      AssignSlotWinter(name, localizes).value == SlotOrUnknown(ExtractInfo(name))
    ensures (forall j :: !TokenAt(name, j)) ==> AssignSlotWinter(name, localizes) == Ok(Unk)
  {
  }

  // ---------------------------------------------------------------------------
  // Worked names
  // ---------------------------------------------------------------------------

  /** A name made of a digit-free prefix, a token and anything else gives the
      date and the slot written in that token. */
  lemma TokenAfterPlainPrefix(name: string, p: string, t: string, q: string)
    requires name == p + t + q
    requires forall k :: 0 <= k < |p| ==> !IsDigit(p[k])
    requires TokenAt(t, 0)
    ensures ExtractInfo(name)
         == FileInfo(Some(t[..4] + "-" + t[4..6] + "-" + t[6..8]), Some(SlotOfHour(TwoDigits(t[9], t[10]))))
  {
    forall j | 0 <= j < |p| ensures !TokenAt(name, j) {
      assert name[j] == p[j];
    }
    var i := |p|;
    assert name[i..i + 13] == t[..13];
    assert TokenAt(name, i);
    assert FindToken(name) == Some(i);
    var d := name[i..i + 8];
    assert d == t[..8];
    assert d[..4] == t[..4] && d[4..6] == t[4..6] && d[6..] == t[6..8];
    assert name[i + 9..i + 13][0] == t[9] && name[i + 9..i + 13][1] == t[10];
  }

  /** A name that follows the acquisition convention. */
  lemma ConventionalName(name: string)
    requires name == "picopatt_montpellier_antigone_20241107_1122.csv"
    ensures ExtractInfo(name) == FileInfo(Some("2024-11-07"), Some(M2))
  {
    var p, t, q := "picopatt_montpellier_antigone_", "20241107_1122", ".csv";
    assert name == p + t + q;
    PlainPrefix(p);
    ConventionalToken(t);
    TokenAfterPlainPrefix(name, p, t, q);
  }

  lemma PlainPrefix(p: string)
    requires p == "picopatt_montpellier_antigone_"
    ensures forall k :: 0 <= k < |p| ==> !IsDigit(p[k])
  {
  }

  lemma ConventionalToken(t: string)
    requires t == "20241107_1122"
    ensures TokenAt(t, 0)
    ensures t[..4] + "-" + t[4..6] + "-" + t[6..8] == "2024-11-07"
    ensures SlotOfHour(TwoDigits(t[9], t[10])) == M2
  {
    assert t[..4] == "2024" && t[4..6] == "11" && t[6..8] == "07";
    assert t[9] == '1' && t[10] == '1';
  }

  /** A name without a token gives neither a date nor a slot. */
  lemma NameWithoutToken(name: string)
    requires name == "no_timestamp_here.csv"
    ensures ExtractInfo(name) == FileInfo(None, None)
  {
    forall j ensures !TokenAt(name, j) {
      if 0 <= j && j + 13 <= |name| {
        assert !IsDigit(name[j]);
      }
    }
  }
}
