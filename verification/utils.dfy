/** utils.ts: the elapsed-time text of a job (`formatDuration`) and the
    plain-text job summary used as e-mail body and messaging fallback
    (`formatJobAsText`). Clock times are minutes since midnight on one
    reference day without daylight-saving shifts. */
module Utils {
  import opened Text
  import opened JobTypes

  const MinutesPerDay := 1440
  const MsPerMinute := 60000
  const MsPerHour := 3600000
  const MsPerDay := 86400000

  /** Minutes since midnight of a clock time: hours and minutes are the two
      numbers `split(':').map(Number)` reads from it. */
  function ClockMinutes(s: string): (m: nat)
    requires IsClock(s)
    ensures m < MinutesPerDay
  {
    60 * DigitsValue(s[..2]) + DigitsValue(s[3..])
  }

  /** Splitting a clock time at ':' gives exactly its hour and minute digits. */
  lemma ClockSplit(s: string)
    requires IsClock(s)
    ensures Split(s, ':') == [s[..2], s[3..]]
  {
    assert ':' !in s[..2] && ':' !in s[3..];
    assert s == s[..2] + [':'] + s[3..];
    SplitAtFirstSeparator(s[..2], ':', s[3..]);
    SplitWithoutSeparator(s[3..], ':');
  }

  /** Two-digit numerals with the same value are the same numeral. */
  lemma TwoDigitNumeralsEqual(x: string, y: string)
    requires |x| == 2 && |y| == 2 && AllDigits(x) && AllDigits(y)
    requires DigitsValue(x) == DigitsValue(y)
    ensures x == y
  {
    Pad2OfDigits(x);
    Pad2OfDigits(y);
  }

  /** Different clock times are different minutes of the day. */
  lemma ClockMinutesInjective(a: string, b: string)
    requires IsClock(a) && IsClock(b)
    requires ClockMinutes(a) == ClockMinutes(b)
    ensures a == b
  {
    var ha, ma := DigitsValue(a[..2]), DigitsValue(a[3..]);
    var hb, mb := DigitsValue(b[..2]), DigitsValue(b[3..]);
    assert 60 * ha + ma == 60 * hb + mb && ma < 60 && mb < 60;
    assert ha == hb && ma == mb;
    TwoDigitNumeralsEqual(a[..2], b[..2]);
    TwoDigitNumeralsEqual(a[3..], b[3..]);
    assert a == a[..2] + [':'] + a[3..];
    assert b == b[..2] + [':'] + b[3..];
  }

  /** Minutes from `inMin` forward to `outMin`, moving `outMin` to the next
      day when it is earlier: the one point on a 24-hour clock reached from
      `inMin` within a day. */
  function Elapsed(inMin: int, outMin: int): (e: int)
    requires 0 <= inMin < MinutesPerDay && 0 <= outMin < MinutesPerDay
    ensures 0 <= e < MinutesPerDay
    ensures (inMin + e) % MinutesPerDay == outMin
  {
    if outMin < inMin then outMin + MinutesPerDay - inMin else outMin - inMin
  }

  /** A count and its unit, `${n} hour${n > 1 ? 's' : ''}`, as two words. */
  function UnitWords(n: nat, unit: string): seq<string>
  {
    [NatToString(n), if n > 1 then unit + "s" else unit]
  }

  /** The words of the duration text: the hour part when there are whole
      hours, the minute part when there are minutes left over, and
      "0 minutes" when neither. */
  function DurationWords(elapsed: nat): seq<string>
  {
    var hours, minutes := elapsed / 60, elapsed % 60;
    var words := (if hours > 0 then UnitWords(hours, "hour") else [])
                 + (if minutes > 0 then UnitWords(minutes, "minute") else []);
    if words == [] then ["0", "minutes"] else words
  }

  function DurationText(elapsed: nat): string
  {
    Join(DurationWords(elapsed), ' ')
  }

  /** `formatDuration(timeIn, timeOut)`: "N/A" exactly when a time is
      missing, otherwise the text of the elapsed time. */
  function FormatDuration(timeIn: string, timeOut: string): (r: string)
    requires IsTimeInputValue(timeIn) && IsTimeInputValue(timeOut)
    ensures r == "N/A" <==> (timeIn == "" || timeOut == "")
  {
    if timeIn == "" || timeOut == "" then
      "N/A"
    else
      var text := DurationText(Elapsed(ClockMinutes(timeIn), ClockMinutes(timeOut)));
      assert IsDigit(text[0]) by { DurationTextStartsWithDigit(Elapsed(ClockMinutes(timeIn), ClockMinutes(timeOut))); }
      text
  }

  lemma DurationTextStartsWithDigit(elapsed: nat)
    ensures |DurationText(elapsed)| > 0 && IsDigit(DurationText(elapsed)[0])
  {
    var w := DurationWords(elapsed);
    assert |w| >= 2 && |w[0]| >= 1 && IsDigit(w[0][0]);
    assert DurationText(elapsed) == w[0] + [' '] + Join(w[1..], ' ');
  }

  // ------------------------------------------------- the source's steps

  /** `formatDuration` step by step: two Dates on one day in milliseconds,
      the overnight shift, whole hours and truncated minutes of the
      difference, and the text built up with `+=`. */
  method ComputeDuration(timeIn: string, timeOut: string) returns (durationString: string)
    requires IsTimeInputValue(timeIn) && IsTimeInputValue(timeOut)
    ensures durationString == FormatDuration(timeIn, timeOut)
  {
    if timeIn == "" || timeOut == "" {
      return "N/A";
    }
    ClockSplit(timeIn);
    ClockSplit(timeOut);
    var inParts, outParts := Split(timeIn, ':'), Split(timeOut, ':');
    var inHours, inMinutes := DigitsValue(inParts[0]), DigitsValue(inParts[1]);
    var outHours, outMinutes := DigitsValue(outParts[0]), DigitsValue(outParts[1]);

    var inDate := (inHours * 60 + inMinutes) * MsPerMinute;
    var outDate := (outHours * 60 + outMinutes) * MsPerMinute;
    if outDate < inDate {
      outDate := outDate + MsPerDay;
    }
    var diffMs := outDate - inDate;
    var diffHours := diffMs / MsPerHour;
    var diffMinutes := (diffMs % MsPerHour) / MsPerMinute;

    ghost var e := Elapsed(ClockMinutes(timeIn), ClockMinutes(timeOut));
    assert diffMs == e * MsPerMinute;
    MillisecondsToHoursAndMinutes(e);
    assert FormatDuration(timeIn, timeOut) == DurationText(e);
    DurationTextParts(e);

    durationString := "";
    if diffHours > 0 {
      var hourText := Phrase(diffHours, " hour");
      durationString := durationString + hourText;
      assert durationString == hourText && |hourText| > 0;
    }
    if diffMinutes > 0 {
      if durationString != "" {
        durationString := durationString + " ";
      }
      var minuteText := Phrase(diffMinutes, " minute");
      durationString := durationString + minuteText;
    }
    if durationString == "" {
      durationString := "0 minutes";
    }
  }

  lemma MillisecondsToHoursAndMinutes(e: nat)
    ensures (e * MsPerMinute) / MsPerHour == e / 60
    ensures ((e * MsPerMinute) % MsPerHour) / MsPerMinute == e % 60
  {
    var q, r := e / 60, e % 60;
    assert e * MsPerMinute == q * MsPerHour + r * MsPerMinute;
    assert 0 <= r * MsPerMinute < MsPerHour;
  }

  /** The template `${n} hour${n > 1 ? 's' : ''}` with the unit and its
      leading space given as `spacedUnit`. */
  function Phrase(n: nat, spacedUnit: string): string
  {
    NatToString(n) + spacedUnit + (if n > 1 then "s" else "")
  }

  lemma UnitText(n: nat, unit: string, spacedUnit: string)
    requires spacedUnit == [' '] + unit
    ensures Join(UnitWords(n, unit), ' ') == Phrase(n, spacedUnit)
  {
  }

  /** The duration text spelled the way the source concatenates it. */
  lemma DurationTextParts(e: nat)
    ensures var h, m := e / 60, e % 60;
            DurationText(e) ==
              if h > 0 && m > 0 then Phrase(h, " hour") + " " + Phrase(m, " minute")
              else if h > 0 then Phrase(h, " hour")
              else if m > 0 then Phrase(m, " minute")
              else "0 minutes"
  {
    var h, m := e / 60, e % 60;
    var hw, mw := UnitWords(h, "hour"), UnitWords(m, "minute");
    if h > 0 && m > 0 {
      assert DurationWords(e) == hw + mw;
      HoursAndMinutesText(h, m);
    } else if h > 0 {
      assert DurationWords(e) == hw;
      UnitText(h, "hour", " hour");
    } else if m > 0 {
      assert DurationWords(e) == mw;
      UnitText(m, "minute", " minute");
    } else {
      assert DurationWords(e) == ["0", "minutes"];
      ZeroText();
    }
  }

  lemma HoursAndMinutesText(h: nat, m: nat)
    ensures Join(UnitWords(h, "hour") + UnitWords(m, "minute"), ' ')
         == Phrase(h, " hour") + " " + Phrase(m, " minute")
  {
    JoinAppend(UnitWords(h, "hour"), UnitWords(m, "minute"), ' ');
    UnitText(h, "hour", " hour");
    UnitText(m, "minute", " minute");
  }

  lemma ZeroText()
    ensures Join(["0", "minutes"], ' ') == "0 minutes"
  {
    assert Join(["0", "minutes"], ' ') == "0" + [' '] + "minutes";
  }

  // ------------------------------------------------- reading the text back

  predicate IsCount(w: string)
  {
    |w| >= 1 && AllDigits(w)
  }

  predicate IsUnit(w: string, unit: string)
  {
    w == unit || w == unit + "s"
  }

  /** Reads a duration text back into minutes: "<h> hour[s] <m> minute[s]",
      "<h> hour[s]" or "<m> minute[s]", where a minute count is below 60, so
      that a reading is the hours and the left-over minutes of one time. */
  function ParseDuration(text: string): Option<nat>
  {
    ParseWords(Split(text, ' '))
  }

  function ParseWords(w: seq<string>): Option<nat>
  {
    if |w| == 4 && IsCount(w[0]) && IsUnit(w[1], "hour")
       && IsCount(w[2]) && DigitsValue(w[2]) < 60 && IsUnit(w[3], "minute") then
      Some(60 * DigitsValue(w[0]) + DigitsValue(w[2]))
    else if |w| == 2 && IsCount(w[0]) && IsUnit(w[1], "hour") then
      Some(60 * DigitsValue(w[0]))
    else if |w| == 2 && IsCount(w[0]) && DigitsValue(w[0]) < 60 && IsUnit(w[1], "minute") then
      Some(DigitsValue(w[0]))
    else
      None
  }

  lemma UnitWordsRead(n: nat, unit: string)
    requires unit == "hour" || unit == "minute"
    ensures var w := UnitWords(n, unit);
            IsCount(w[0]) && DigitsValue(w[0]) == n && IsUnit(w[1], unit)
            && ' ' !in w[0] && ' ' !in w[1]
  {
    var d := NatToString(n);
    assert forall i :: 0 <= i < |d| ==> d[i] != ' ';
  }

  lemma HourIsNotMinute(w: string)
    requires IsUnit(w, "hour")
    ensures !IsUnit(w, "minute")
  {
    assert w[0] == 'h';
  }

  lemma ParseDurationWords(elapsed: nat)
    ensures ParseWords(DurationWords(elapsed)) == Some(elapsed)
  {
    var h, m := elapsed / 60, elapsed % 60;
    assert elapsed == 60 * h + m;
    if h > 0 && m > 0 {
      ReadBothParts(elapsed, h, m);
    } else if h > 0 {
      ReadHourPart(elapsed, h);
    } else if m > 0 {
      ReadMinutePart(elapsed, m);
    } else {
      assert DurationWords(elapsed) == ["0", "minutes"];
      ReadZero();
    }
  }

  lemma ReadBothParts(elapsed: nat, h: nat, m: nat)
    requires h == elapsed / 60 && m == elapsed % 60 && elapsed == 60 * h + m
    requires h > 0 && m > 0
    ensures ParseWords(DurationWords(elapsed)) == Some(elapsed)
  {
    assert DurationWords(elapsed) == UnitWords(h, "hour") + UnitWords(m, "minute");
    ReadHoursAndMinutes(h, m);
  }

  lemma ReadHourPart(elapsed: nat, h: nat)
    requires h == elapsed / 60 && elapsed % 60 == 0 && elapsed == 60 * h && h > 0
    ensures ParseWords(DurationWords(elapsed)) == Some(elapsed)
  {
    assert DurationWords(elapsed) == UnitWords(h, "hour");
    ReadHours(h);
  }

  lemma ReadMinutePart(elapsed: nat, m: nat)
    requires elapsed / 60 == 0 && m == elapsed % 60 && elapsed == m && m > 0
    ensures ParseWords(DurationWords(elapsed)) == Some(elapsed)
  {
    assert DurationWords(elapsed) == UnitWords(m, "minute");
    ReadMinutes(m);
  }

  lemma ReadHoursAndMinutes(h: nat, m: nat)
    requires m < 60
    ensures ParseWords(UnitWords(h, "hour") + UnitWords(m, "minute")) == Some(60 * h + m)
  {
    UnitWordsRead(h, "hour");
    UnitWordsRead(m, "minute");
    var w := UnitWords(h, "hour") + UnitWords(m, "minute");
    assert w[0] == NatToString(h) && w[2] == NatToString(m);
    assert |w| == 4 && IsUnit(w[1], "hour") && IsUnit(w[3], "minute");
  }

  lemma ReadHours(h: nat)
    ensures ParseWords(UnitWords(h, "hour")) == Some(60 * h)
  {
    UnitWordsRead(h, "hour");
  }

  lemma ReadMinutes(m: nat)
    requires m < 60
    ensures ParseWords(UnitWords(m, "minute")) == Some(m)
  {
    UnitWordsRead(m, "minute");
    var w := UnitWords(m, "minute");
    assert !IsUnit(w[1], "hour") by {
      if IsUnit(w[1], "hour") { HourIsNotMinute(w[1]); }
    }
  }

  lemma ReadZero()
    ensures ParseWords(["0", "minutes"]) == Some(0)
  {
    assert !IsUnit("minutes", "hour") && IsUnit("minutes", "minute");
    assert DigitsValue("0") == 0 by { assert "0"[..0] == []; }
  }

  lemma DurationWordsHaveNoSpace(elapsed: nat)
    ensures var w := DurationWords(elapsed);
            |w| >= 1 && forall i :: 0 <= i < |w| ==> ' ' !in w[i]
  {
    var h, m := elapsed / 60, elapsed % 60;
    UnitWordsRead(h, "hour");
    UnitWordsRead(m, "minute");
  }

  /** The duration text determines the elapsed time: hours are the whole
      hours and minutes the truncated remainder, nothing is lost. */
  lemma DurationTextRoundTrip(elapsed: nat)
    ensures ParseDuration(DurationText(elapsed)) == Some(elapsed)
  {
    DurationWordsHaveNoSpace(elapsed);
    SplitOfJoin(DurationWords(elapsed), ' ');
    ParseDurationWords(elapsed);
  }

  /** Each unit is singular exactly when its count is 1: "1 hour" but
      "2 hours", "1 minute" but "0 minutes" and "59 minutes". */
  lemma UnitSingularExactlyAtOne(elapsed: nat)
    ensures var w, h, m := DurationWords(elapsed), elapsed / 60, elapsed % 60;
            && |w| >= 2
            && (h > 0 ==> (w[1] == "hour" <==> h == 1))
            && (m > 0 ==> (w[|w| - 1] == "minute" <==> m == 1))
            && (elapsed == 0 ==> w[1] == "minutes")
  {
    var h, m := elapsed / 60, elapsed % 60;
    var hw, mw := UnitWords(h, "hour"), UnitWords(m, "minute");
    if h > 0 && m > 0 {
      assert DurationWords(elapsed) == hw + mw;
    } else if h > 0 {
      assert DurationWords(elapsed) == hw;
    } else if m > 0 {
      assert DurationWords(elapsed) == mw;
    }
  }

  /** The hour part appears iff there are whole hours, the minute part iff
      minutes are left over (or the time is zero), and a text with both has
      four words joined by single spaces. */
  lemma DurationShape(elapsed: nat)
    ensures var w := DurationWords(elapsed);
            && (IsUnit(w[1], "hour") <==> elapsed / 60 > 0)
            && (IsUnit(w[|w| - 1], "minute") <==> (elapsed % 60 > 0 || elapsed == 0))
            && (|w| == 4 <==> (elapsed / 60 > 0 && elapsed % 60 > 0))
  {
    var w, h, m := DurationWords(elapsed), elapsed / 60, elapsed % 60;
    var hw, mw := UnitWords(h, "hour"), UnitWords(m, "minute");
    assert IsUnit(hw[1], "hour") && IsUnit(mw[1], "minute");
    if h > 0 && m > 0 {
      assert w == hw + mw;
      assert w[1] == hw[1] && w[3] == mw[1];
    } else if h > 0 {
      assert w == hw;
      HourIsNotMinute(hw[1]);
    } else if m > 0 {
      assert w == mw;
      if IsUnit(mw[1], "hour") {
        HourIsNotMinute(mw[1]);
      }
    } else {
      assert w == ["0", "minutes"];
      assert w[1][0] == 'm';
    }
  }

  /** The text is "0 minutes" exactly when the two clock times are equal. */
  lemma ZeroMinutesIffSameTime(timeIn: string, timeOut: string)
    requires IsClock(timeIn) && IsClock(timeOut)
    ensures FormatDuration(timeIn, timeOut) == "0 minutes" <==> timeIn == timeOut
  {
    var e := Elapsed(ClockMinutes(timeIn), ClockMinutes(timeOut));
    if FormatDuration(timeIn, timeOut) == "0 minutes" {
      DurationTextRoundTrip(e);
      DurationTextRoundTrip(0);
      assert DurationText(0) == "0 minutes";
      assert e == 0;
      ClockMinutesInjective(timeIn, timeOut);
    }
    if timeIn == timeOut {
      assert e == 0;
      assert DurationText(0) == "0 minutes";
    }
  }

  /** The value of a clock time read digit by digit. */
  lemma ClockValue(s: string)
    requires |s| == 5 && s[2] == ':'
    requires IsDigit(s[0]) && IsDigit(s[1]) && IsDigit(s[3]) && IsDigit(s[4])
    requires 10 * DigitValue(s[0]) + DigitValue(s[1]) < 24
    requires 10 * DigitValue(s[3]) + DigitValue(s[4]) < 60
    ensures IsClock(s)
    ensures ClockMinutes(s) == 60 * (10 * DigitValue(s[0]) + DigitValue(s[1]))
                               + 10 * DigitValue(s[3]) + DigitValue(s[4])
  {
    var hh, mm := s[..2], s[3..];
    assert hh[..1][..0] == [] && mm[..1][..0] == [];
    assert DigitsValue(hh[..1]) == DigitValue(s[0]);
    assert DigitsValue(mm[..1]) == DigitValue(s[3]);
    assert DigitsValue(hh) == 10 * DigitValue(s[0]) + DigitValue(s[1]);
    assert DigitsValue(mm) == 10 * DigitValue(s[3]) + DigitValue(s[4]);
  }

  /** The minutes between two clock times written as literals. */
  lemma ElapsedExample(a: string, b: string, e: int)
    requires |a| == 5 && a[2] == ':' && IsDigit(a[0]) && IsDigit(a[1]) && IsDigit(a[3]) && IsDigit(a[4])
    requires |b| == 5 && b[2] == ':' && IsDigit(b[0]) && IsDigit(b[1]) && IsDigit(b[3]) && IsDigit(b[4])
    requires 10 * DigitValue(a[0]) + DigitValue(a[1]) < 24 && 10 * DigitValue(a[3]) + DigitValue(a[4]) < 60
    requires 10 * DigitValue(b[0]) + DigitValue(b[1]) < 24 && 10 * DigitValue(b[3]) + DigitValue(b[4]) < 60
    requires var ma := 60 * (10 * DigitValue(a[0]) + DigitValue(a[1])) + 10 * DigitValue(a[3]) + DigitValue(a[4]);
             var mb := 60 * (10 * DigitValue(b[0]) + DigitValue(b[1])) + 10 * DigitValue(b[3]) + DigitValue(b[4]);
             e == Elapsed(ma, mb)
    ensures IsClock(a) && IsClock(b) && Elapsed(ClockMinutes(a), ClockMinutes(b)) == e
  {
    ClockValue(a);
    ClockValue(b);
  }

  lemma HourPhrase8()
    ensures Phrase(8, " hour") == "8 hours"
  {
    assert NatToString(8) == "8";
  }

  lemma MinutePhrase30()
    ensures Phrase(30, " minute") == "30 minutes"
  {
    assert NatToString(30) == "30";
  }

  lemma DayShiftText()
    ensures Phrase(8, " hour") + " " + Phrase(30, " minute") == "8 hours 30 minutes"
  {
    HourPhrase8();
    MinutePhrase30();
    assert "8 hours" + " " + "30 minutes" == "8 hours 30 minutes";
  }

  /** A day shift: "09:00" to "17:30" is "8 hours 30 minutes". */
  lemma DayShiftExample()
    ensures IsClock("09:00") && IsClock("17:30")
    ensures FormatDuration("09:00", "17:30") == "8 hours 30 minutes"
  {
    ElapsedExample("09:00", "17:30", 510);
    DurationTextParts(510);
    DayShiftText();
  }

  lemma HourPhrase4()
    ensures Phrase(4, " hour") == "4 hours"
  {
    assert NatToString(4) == "4";
  }

  /** A night shift rolls over midnight once: "22:00" to "02:00" is "4 hours". */
  lemma NightShiftExample()
    ensures IsClock("22:00") && IsClock("02:00")
    ensures FormatDuration("22:00", "02:00") == "4 hours"
  {
    ElapsedExample("22:00", "02:00", 240);
    DurationTextParts(240);
    HourPhrase4();
  }

  lemma HourPhrase1()
    ensures Phrase(1, " hour") == "1 hour"
  {
    assert NatToString(1) == "1";
  }

  lemma MinutePhrase1()
    ensures Phrase(1, " minute") == "1 minute"
  {
    assert NatToString(1) == "1";
  }

  lemma SingularText()
    ensures Phrase(1, " hour") + " " + Phrase(1, " minute") == "1 hour 1 minute"
  {
    HourPhrase1();
    MinutePhrase1();
    assert "1 hour" + " " + "1 minute" == "1 hour 1 minute";
  }

  /** Counts of one take the singular: "09:00" to "10:01" is "1 hour 1 minute". */
  lemma SingularExample()
    ensures IsClock("09:00") && IsClock("10:01")
    ensures FormatDuration("09:00", "10:01") == "1 hour 1 minute"
  {
    ElapsedExample("09:00", "10:01", 61);
    DurationTextParts(61);
    SingularText();
  }

  lemma HourPhrase2()
    ensures Phrase(2, " hour") == "2 hours"
  {
    assert NatToString(2) == "2";
  }

  lemma MinutePhrase2()
    ensures Phrase(2, " minute") == "2 minutes"
  {
    assert NatToString(2) == "2";
  }

  lemma PluralText()
    ensures Phrase(2, " hour") + " " + Phrase(2, " minute") == "2 hours 2 minutes"
  {
    HourPhrase2();
    MinutePhrase2();
    assert "2 hours" + " " + "2 minutes" == "2 hours 2 minutes";
  }

  /** Counts of two take the plural: "09:00" to "11:02" is "2 hours 2 minutes". */
  lemma PluralExample()
    ensures IsClock("09:00") && IsClock("11:02")
    ensures FormatDuration("09:00", "11:02") == "2 hours 2 minutes"
  {
    ElapsedExample("09:00", "11:02", 122);
    DurationTextParts(122);
    PluralText();
  }

  // ------------------------------------------------------ formatJobAsText

  const SummaryTitle := "--- JOB SUMMARY ---"
  const WorkHeading := "\n\n--- Work Performed ---"

  /** The fixed lines of the summary up to the "Work Performed" heading;
      the Time line is `timeIn - timeOut (duration)`. */
  function SummaryHead(job: Job, localeDate: string, duration: string): string
  {
    SummaryTitle + SummaryFields(job, localeDate, duration) + WorkHeading
  }

  /** The Client, Address, Date and Time lines. */
  function SummaryFields(job: Job, localeDate: string, duration: string): string
  {
    "\n\n*Client:* " + job.clientName
    + "\n*Address:* " + job.address
    + "\n*Date:* " + localeDate
    + "\n*Time:* " + job.timeIn + " - " + job.timeOut + " (" + duration + ")"
  }

  lemma SummaryHeadEnds(head: string, fields: string)
    requires head == SummaryTitle + fields + WorkHeading
    ensures |head| >= |SummaryTitle| && head[..|SummaryTitle|] == SummaryTitle
    ensures head[0] == '-' && head[|head| - 1] == '-'
  {
    assert head == SummaryTitle + (fields + WorkHeading);
    assert head[|head| - 1] == WorkHeading[|WorkHeading| - 1];
  }

  const MaterialsHeading := "--- Materials Used ---"

  /** The materials section, present only for non-empty materials. */
  function MaterialsSection(materials: string): string
  {
    if materials != "" then MaterialsHeading + "\n" + materials else ""
  }

  /** What follows the head in the template literal: the description, the
      materials section and the closing line's "\n  ". */
  function SummaryTail(description: string, materials: string): string
  {
    "\n" + description + "\n\n" + MaterialsSection(materials) + "\n  "
  }

  /** `trimEnd` of a solid part, a line and trailing white space keeps the
      solid part and the line with its own white space trimmed. */
  lemma TrimEndSolidThenLine(solid: string, line: string, w: string)
    requires solid != [] && !IsWhitespace(solid[|solid| - 1]) && AllWhitespace(w)
    ensures TrimEnd(solid + line + w) == solid + TrimEnd(line)
  {
    assert solid + line + w == solid + (line + w);
    TrimEndAfterSolid(solid, line + w);
    TrimEndAppendWhitespace(line, w);
  }

  /** What `trim` leaves of the tail: the materials section when there are
      materials, the description alone otherwise. */
  lemma TrimEndSummaryTail(description: string, materials: string)
    ensures materials != "" ==>
      TrimEnd(SummaryTail(description, materials))
        == "\n" + description + "\n\n" + MaterialsHeading + TrimEnd("\n" + materials)
    ensures materials == "" ==>
      TrimEnd(SummaryTail(description, materials)) == TrimEnd("\n" + description)
  {
    var tail := SummaryTail(description, materials);
    var closing := "\n  ";
    assert AllWhitespace(closing);
    if materials != "" {
      var solid := "\n" + description + "\n\n" + MaterialsHeading;
      assert tail == solid + ("\n" + materials) + closing;
      assert solid[|solid| - 1] == MaterialsHeading[|MaterialsHeading| - 1] == '-';
      TrimEndSolidThenLine(solid, "\n" + materials, closing);
    } else {
      var blank := "\n\n" + closing;
      assert tail == ("\n" + description) + blank;
      assert AllWhitespace(blank);
      TrimEndAppendWhitespace("\n" + description, blank);
    }
  }

  /** `trim` on a text that is a newline, then a part that starts and ends
      with a non-white-space character, then anything. */
  lemma TrimAroundSolid(head: string, tail: string)
    requires head != [] && !IsWhitespace(head[0]) && !IsWhitespace(head[|head| - 1])
    ensures Trim("\n" + head + tail) == head + TrimEnd(tail)
  {
    assert "\n" + head + tail == "\n" + (head + tail);
    TrimStartBeforeSolid("\n", head + tail);
    TrimEndAfterSolid(head, tail);
  }

  /** Trimming the template keeps the head whole and trims only the tail. */
  lemma TrimSummary(fields: string, tail: string)
    ensures var head := SummaryTitle + fields + WorkHeading;
            var r := Trim("\n" + head + tail);
            && r == head + TrimEnd(tail)
            && |r| >= |SummaryTitle| && r[..|SummaryTitle|] == SummaryTitle
  {
    var head := SummaryTitle + fields + WorkHeading;
    SummaryHeadEnds(head, fields);
    TrimAroundSolid(head, tail);
    var r := Trim("\n" + head + tail);
    assert r[..|head|] == head;
    assert r[..|SummaryTitle|] == head[..|SummaryTitle|];
  }

  /** `formatJobAsText(job)`, with `toLocaleDateString()` given as
      `localeDate`: the template, trimmed. */
  function FormatJobAsText(job: Job, localeDate: string): string
    requires IsTimeInputValue(job.timeIn) && IsTimeInputValue(job.timeOut)
  {
    var head := SummaryHead(job, localeDate, FormatDuration(job.timeIn, job.timeOut));
    var tail := SummaryTail(job.description, job.materials);
    Trim("\n" + head + tail)
  }

  /** Trimming touches only the two ends of the template: the text starts
      with the fixed head lines, whatever the fields hold, keeps the body
      up to its trailing white space, and neither starts nor ends with
      white space. */
  lemma FormatJobAsTextShape(job: Job, localeDate: string)
    requires IsTimeInputValue(job.timeIn) && IsTimeInputValue(job.timeOut)
    ensures var r := FormatJobAsText(job, localeDate);
      && r == SummaryHead(job, localeDate, FormatDuration(job.timeIn, job.timeOut))
              + TrimEnd(SummaryTail(job.description, job.materials))
      && |r| >= |SummaryTitle| && r[..|SummaryTitle|] == SummaryTitle
      && !IsWhitespace(r[0]) && !IsWhitespace(r[|r| - 1])
  {
    TrimSummary(SummaryFields(job, localeDate, FormatDuration(job.timeIn, job.timeOut)),
                SummaryTail(job.description, job.materials));
  }

  /** The materials section is appended exactly when there are materials:
      with materials the text ends with the heading and the materials
      (trailing white space trimmed); without, it ends with the description. */
  lemma MaterialsIffNonEmpty(job: Job, localeDate: string)
    requires IsTimeInputValue(job.timeIn) && IsTimeInputValue(job.timeOut)
    ensures var head := SummaryHead(job, localeDate, FormatDuration(job.timeIn, job.timeOut));
      && (job.materials != "" ==>
           FormatJobAsText(job, localeDate)
             == head + ("\n" + job.description + "\n\n" + MaterialsHeading + TrimEnd("\n" + job.materials)))
      && (job.materials == "" ==>
           FormatJobAsText(job, localeDate) == head + TrimEnd("\n" + job.description))
  {
    FormatJobAsTextShape(job, localeDate);
    TrimEndSummaryTail(job.description, job.materials);
  }
}
