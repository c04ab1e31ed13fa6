/**
  src/utils/formatDateTime.ts: splitting an ISO timestamp into its date and
  time text, and the fallback display used when `toLocaleString` throws.
*/
module FormatDateTime {
  import opened Wrappers
  import opened Text

  datatype DateTime = DateTime(date: string, time: string)

  /**
    `extractDateTime`: the text before the first `T`, and the text after it
    up to the next `T` or `.` (fractional seconds dropped). A missing or
    empty second piece gives an empty time.
  */
  function ExtractDateTime(isoString: Option<string>): DateTime {
    if isoString.None? || isoString.value == "" then DateTime("", "")
    else
      var parts := Split(isoString.value, 'T');
      var timeWithMs := if |parts| > 1 then parts[1] else "";
      var time := if timeWithMs != "" then Split(timeWithMs, '.')[0] else "";
      DateTime(parts[0], time)
  }

  /** Null and the empty string give empty date and time. */
  lemma ExtractDateTimeEmpty(isoString: Option<string>)
    requires isoString.None? || isoString.value == ""
    ensures ExtractDateTime(isoString) == DateTime("", "")
  {
  }

  /**
    The date is the input up to its first `T` (all of it when there is none)
    and holds no `T`; the time holds neither `T` nor `.`, is empty when the
    input has no `T`, and otherwise `date + "T" + time` starts the input and
    the time runs up to the end of the input, a `.` or a second `T`.
  */
  lemma ExtractDateTimeParts(s: string)
    ensures var r := ExtractDateTime(Some(s));
      && r.date == s[..IndexOf(s, 'T')]
      && 'T' !in r.date
      && 'T' !in r.time && '.' !in r.time
      && ('T' !in s ==> r.date == s && r.time == "")
      && ('T' in s ==> r.date + "T" + r.time <= s)
      && ('T' in s ==> var k := |r.date| + 1 + |r.time|; k == |s| || s[k] == '.' || s[k] == 'T')
  {
    if 'T' in s {
      SecondSegmentCut(s, 'T', '.');
      SecondSegmentEnd(s, 'T', '.');
    }
  }

  /** The `catch` branch: `""` without a date, the date alone without a time, else `date at time`. */
  function Fallback(dt: DateTime): string {
    if dt.date == "" then ""
    else if dt.time == "" then dt.date
    else dt.date + " at " + dt.time
  }

  /**
    `formatDateTime(isoString)`. `localized` is what `toLocaleString`
    produces for this input and time zone, or `None` when it throws.
  */
  function FormatDateTime(isoString: Option<string>, localized: Option<string>): string {
    if isoString.None? || isoString.value == "" then ""
    else if localized.Some? then localized.value
    else Fallback(ExtractDateTime(isoString))
  }

  /** Null and the empty string format as `""`, whatever the locale call would give. */
  lemma FormatDateTimeEmpty(isoString: Option<string>, localized: Option<string>)
    requires isoString.None? || isoString.value == ""
    ensures FormatDateTime(isoString, localized) == ""
  {
  }

  /**
    The fallback shows the date part, then ` at ` and the time part when
    there is one; it is empty exactly when the input starts with `T`, and it
    never shows the `T` separator.
  */
  lemma FallbackShape(s: string)
    requires s != ""
    ensures var r := FormatDateTime(Some(s), None);
      var date, time := s[..IndexOf(s, 'T')], ExtractDateTime(Some(s)).time;
      && (r == "" <==> s[0] == 'T')
      && (time == "" ==> r == date)
      && (date != "" && time != "" ==> r == date + " at " + time)
      && 'T' !in r
  {
    ExtractDateTimeParts(s);
    var dt := ExtractDateTime(Some(s));
    assert dt.date == "" <==> s[0] == 'T';
    if dt.date != "" && dt.time != "" {
      assert 'T' !in " at ";
    }
  }
}
