/** The index namer of the Elasticsearch plugin: one index per UTC day,
    named `<logsIndexName>-YYYY-MM-DD`, and the way the garbage collector
    reads a date back out of an index name. */
module IndexNamer {
  import opened Wrappers
  import opened Strings
  import opened Calendar

  /** `MM` and `DD` of the date format: a leading zero below 10. */
  function TwoDigits(n: nat): (s: string)
    ensures n < 100 ==> |s| == 2 && AllDigits(s) && DecimalValue(s) == n
  {
    if n < 10 then
      assert DecimalValue("0") == 0;
      "0" + NatToString(n)
    else
      DecimalValueOfNatToString(n);
      NatToString(n)
  }

  /** `YYYY` of the date format: the full year as JavaScript renders it. */
  function YearText(y: int): string {
    if y >= 0 then NatToString(y) else "-" + NatToString(-y)
  }

  /** `YYYY<sep>MM<sep>DD`. */
  function DateText(d: Date, sep: char): string
    requires ValidDate(d)
  {
    YearText(d.year) + [sep] + TwoDigits(d.month) + [sep] + TwoDigits(d.day)
  }

  /** `generateIndexName`: the index a date's logs go to. */
  function GenerateIndexName(logsIndexName: string, d: Date): (index: string)
    requires ValidDate(d)
    ensures |index| > |logsIndexName| + 1 && index[|logsIndexName|] == '-'
    ensures OccursAt(index, logsIndexName, 0)
  {
    logsIndexName + "-" + DateText(d, '-')
  }

  /** The index of the UTC day an instant falls on (the format call passes
      UTC offset 0). */
  function IndexNameOf(logsIndexName: string, ms: int): string {
    GenerateIndexName(logsIndexName, UtcDateOf(ms))
  }

  /** `getIndexDate`: drop the base name and one separator, then turn every
      `-` into `/`. */
  function GetIndexDate(logsIndexName: string, index: string): (text: string)
    ensures |text| == if |logsIndexName| + 1 <= |index| then |index| - |logsIndexName| - 1 else 0
    ensures forall k :: 0 <= k < |text| ==> text[k] != '-'
    ensures forall k :: 0 <= k < |text| ==>
      text[k] == if index[|logsIndexName| + 1 + k] == '-' then '/' else index[|logsIndexName| + 1 + k]
  {
    ReplaceAll(SliceFrom(index, |logsIndexName| + 1), '-', '/')
  }

  /** `new Date(text)` for the texts `getIndexDate` yields: `YYYY/MM/DD` with
      a four-digit year, a month from 1 to 12 and a day from 1 to 31 denotes
      that date (a day past the month's end rolls over, see DaysFromCivil);
      any other text is an invalid date. */
  function ParseSlashDate(s: string): (r: Option<Date>)
    ensures r.Some? ==> 0 <= r.value.year <= 9999 && 1 <= r.value.month <= 12 && 1 <= r.value.day <= 31
  {
    if |s| == 10 && s[4] == '/' && s[7] == '/'
       && AllDigits(s[..4]) && AllDigits(s[5..7]) && AllDigits(s[8..])
    then
      var year, month, day := DecimalValue(s[..4]), DecimalValue(s[5..7]), DecimalValue(s[8..]);
      assert year <= 9999 by { DecimalValueBound(s[..4]); }
      if 1 <= month <= 12 && 1 <= day <= 31 then Some(Date(year, month, day)) else None
    else None
  }

  lemma {:induction false} DecimalValueBound(s: string)
    requires AllDigits(s)
    ensures |s| == 4 ==> DecimalValue(s) <= 9999
    ensures |s| == 3 ==> DecimalValue(s) <= 999
    ensures |s| == 2 ==> DecimalValue(s) <= 99
    ensures |s| == 1 ==> DecimalValue(s) <= 9
  {
    if s != [] {
      DecimalValueBound(s[..|s| - 1]);
    }
  }

  /** The date the garbage collector reads out of an index name. */
  function IndexDate(logsIndexName: string, index: string): Option<Date> {
    ParseSlashDate(GetIndexDate(logsIndexName, index))
  }

  /** `getGcDate`: the instant `retention` days before `now`. */
  function GcDate(now: int, retention: int): (gcDate: int)
    ensures gcDate < now <==> 0 < retention
    ensures gcDate == now <==> retention == 0
  {
    now - retention * MsPerDay
  }

  /** Turning the separators of `YYYY-MM-DD` into `/` gives `YYYY/MM/DD`. */
  lemma DateTextSeparators(d: Date)
    requires ValidDate(d) && 0 <= d.year
    ensures ReplaceAll(DateText(d, '-'), '-', '/') == DateText(d, '/')
  {
    var y, m, dd := YearText(d.year), TwoDigits(d.month), TwoDigits(d.day);
    ReplaceAllJoints(y, m, dd, '-', '/');
  }

  /** `YYYY/MM/DD` of a date with a four-digit year parses to that date. */
  lemma SlashDateParses(d: Date)
    requires ValidDate(d) && 1000 <= d.year <= 9999
    ensures ParseSlashDate(DateText(d, '/')) == Some(d)
  {
    var y, m, dd := YearText(d.year), TwoDigits(d.month), TwoDigits(d.day);
    NatToStringFourDigits(d.year);
    DecimalValueOfNatToString(d.year);
    var text := DateText(d, '/');
    assert text[..4] == y && text[5..7] == m && text[8..] == dd;
  }

  /** Reading a generated name back: `getIndexDate` yields exactly
      `YYYY/MM/DD` of the same date, and that text parses to the date, for
      every date with a four-digit year. */
  lemma IndexDateRoundTrip(logsIndexName: string, d: Date)
    requires ValidDate(d) && 1000 <= d.year <= 9999
    ensures GetIndexDate(logsIndexName, GenerateIndexName(logsIndexName, d)) == DateText(d, '/')
    ensures IndexDate(logsIndexName, GenerateIndexName(logsIndexName, d)) == Some(d)
  {
    var name := GenerateIndexName(logsIndexName, d);
    assert SliceFrom(name, |logsIndexName| + 1) == DateText(d, '-');
    DateTextSeparators(d);
    SlashDateParses(d);
  }

  /** What the plugin's comparison of dates amounts to: the index an instant
      is written to is read back as local midnight of that instant's UTC day. */
  lemma IndexNameTruncatesToDay(logsIndexName: string, ms: int, tzOffsetMs: int)
    requires 1000 <= UtcDateOf(ms).year <= 9999
    ensures IndexDate(logsIndexName, IndexNameOf(logsIndexName, ms)) == Some(UtcDateOf(ms))
    ensures LocalMidnightMs(UtcDateOf(ms), tzOffsetMs) == ms / MsPerDay * MsPerDay - tzOffsetMs
  {
    IndexDateRoundTrip(logsIndexName, UtcDateOf(ms));
    var k := DaysFromCivil(UtcDateOf(ms));
    FloorDivision(ms, k);
  }

  lemma FloorDivision(ms: int, k: int)
    requires k * MsPerDay <= ms < k * MsPerDay + MsPerDay
    ensures ms / MsPerDay == k
  {
    var q, r := ms / MsPerDay, ms % MsPerDay;
    assert ms == q * MsPerDay + r && 0 <= r < MsPerDay;
  }
}
