/** components/JobCard.tsx: one job in the list. It shows a map link for
    the job's place and, while editing, keeps a working copy of the job
    whose fields the inputs change one at a time; saving hands the copy to
    the update callback, cancelling throws it away. */
module JobCard {
  import opened Text
  import opened JobTypes
  import opened UriEncoding

  // ------------------------------------------------------------ date input

  /** `formatDateForInput`: the full year as `String` prints it, then the
      month (index + 1) and the day, each padded to two digits. */
  function FormatDateForInput(d: LocalDate): string
    requires ValidDate(d)
  {
    IntToString(d.year) + "-" + Pad2(d.month + 1) + "-" + Pad2(d.day)
  }

  /** `value.split('-')` of a date input value gives its three numerals. */
  lemma DateSplit(s: string)
    requires IsDateInputValue(s)
    ensures Split(s, '-') == [s[..4], s[5..7], s[8..]]
  {
    assert '-' !in s[..4] && '-' !in s[5..7] && '-' !in s[8..];
    assert s == s[..4] + ['-'] + (s[5..7] + ['-'] + s[8..]);
    assert s[5..] == s[5..7] + ['-'] + s[8..];
    SplitAtFirstSeparator(s[..4], '-', s[5..]);
    SplitAtFirstSeparator(s[5..7], '-', s[8..]);
    SplitWithoutSeparator(s[8..], '-');
  }

  /** `handleDateChange`'s reading of a date input value:
      `split('-').map(Number)` and `new Date(y, m - 1, d)`, which takes a
      year from 0 to 99 as 1900 + year. */
  function DateFromInput(s: string): (d: LocalDate)
    requires IsDateInputValue(s)
    ensures ValidDate(d)
    ensures d.month == DigitsValue(s[5..7]) - 1 && d.day == DigitsValue(s[8..])
    ensures d.year == if DigitsValue(s[..4]) <= 99 then 1900 + DigitsValue(s[..4])
                      else DigitsValue(s[..4])
  {
    DateSplit(s);
    var parts := Split(s, '-');
    var y, m, day := DigitsValue(parts[0]), DigitsValue(parts[1]), DigitsValue(parts[2]);
    var year := if 0 <= y <= 99 then 1900 + y else y;
    TwoDigitYearSameCalendar(y, m - 1);
    LocalDate(year, m - 1, day)
  }

  /** Moving a year from 1 to 99 into the 1900s keeps its month lengths:
      1900 is a multiple of 4 and no year from 1901 to 1999 is one of 100. */
  lemma TwoDigitYearSameCalendar(y: int, month: int)
    requires 0 <= month < 12
    ensures 1 <= y <= 99 ==> DaysInMonth(1900 + y, month) == DaysInMonth(y, month)
  {
    if 1 <= y <= 99 {
      assert (1900 + y) % 4 == y % 4;
      assert (1900 + y) % 100 != 0 && y % 100 != 0;
    }
  }

  /** The number of digits `String` prints, by range. */
  lemma {:induction false} NumeralLength(n: nat)
    ensures n < 10 ==> |NatToString(n)| == 1
    ensures 10 <= n < 100 ==> |NatToString(n)| == 2
    ensures 100 <= n < 1000 ==> |NatToString(n)| == 3
    ensures 1000 <= n < 10000 ==> |NatToString(n)| == 4
    ensures 10000 <= n ==> |NatToString(n)| >= 5
  {
    if n >= 10 {
      NumeralLength(n / 10);
    }
  }

  /** A four-digit numeral's value is at least 1000 exactly when it does
      not start with '0'. */
  lemma FourDigitNumeral(s: string)
    requires |s| == 4 && AllDigits(s)
    ensures DigitsValue(s) < 10000
    ensures s[0] == '0' <==> DigitsValue(s) < 1000
  {
    var a, b, c, d := DigitValue(s[0]), DigitValue(s[1]), DigitValue(s[2]), DigitValue(s[3]);
    assert s[..3][..2] == s[..2] && s[..2][..1] == s[..1] && s[..1][..0] == [];
    assert s[..3] == s[..|s| - 1] && s[..3][|s[..3]| - 1] == s[2];
    assert s[..2][|s[..2]| - 1] == s[1] && s[..1][0] == s[0];
    assert DigitsValue(s[..1]) == a;
    assert DigitsValue(s[..2]) == 10 * a + b;
    assert DigitsValue(s[..3]) == 100 * a + 10 * b + c;
    assert DigitsValue(s) == 1000 * a + 100 * b + 10 * c + d;
  }

  /** Where the parts of the shown date sit. */
  lemma FormatDateParts(d: LocalDate)
    requires ValidDate(d)
    ensures var s, y := FormatDateForInput(d), IntToString(d.year);
      && |s| == |y| + 6 && s[..|y|] == y && s[|y|] == '-' && s[|y| + 3] == '-'
      && s[|y| + 1..|y| + 3] == Pad2(d.month + 1) && s[|y| + 4..] == Pad2(d.day)
  {
    var y, mm, dd := IntToString(d.year), Pad2(d.month + 1), Pad2(d.day);
    assert |mm| == 2 && |dd| == 2;
    assert FormatDateForInput(d) == y + "-" + mm + "-" + dd;
    DashedSlices(y, mm, dd);
  }

  /** Where the three parts of `a-b-c` sit. */
  lemma DashedSlices(a: string, b: string, c: string)
    ensures var s := a + "-" + b + "-" + c;
      && |s| == |a| + |b| + |c| + 2 && s[..|a|] == a && s[|a|] == '-'
      && s[|a| + 1..|a| + 1 + |b|] == b && s[|a| + 1 + |b|] == '-'
      && s[|a| + 2 + |b|..] == c
  {
    var s := a + "-" + b + "-" + c;
    assert s == a + ("-" + (b + ("-" + c)));
  }

  /** The card shows the date it was given back in the date input exactly
      for years from 1000 to 9999: `String(year)` is not padded, so other
      years do not give a "YYYY-MM-DD" value. */
  lemma FormatDateIsInputValue(d: LocalDate)
    requires ValidDate(d)
    ensures IsDateInputValue(FormatDateForInput(d)) <==> 1000 <= d.year <= 9999
  {
    var s, y := FormatDateForInput(d), IntToString(d.year);
    FormatDateParts(d);
    if d.year >= 0 {
      NumeralLength(d.year);
    } else {
      assert s[0] == '-';
    }
    if 1000 <= d.year <= 9999 {
      DigitsValuePositive(y);
    }
  }

  /** Editing keeps the date: a date with a four-digit year, shown in the
      input and read back by `handleDateChange`, is the same date. */
  lemma DateRoundTrip(d: LocalDate)
    requires ValidDate(d) && 1000 <= d.year <= 9999
    ensures IsDateInputValue(FormatDateForInput(d))
    ensures DateFromInput(FormatDateForInput(d)) == d
  {
    FormatDateIsInputValue(d);
    var s := FormatDateForInput(d);
    var y, mm, dd := IntToString(d.year), Pad2(d.month + 1), Pad2(d.day);
    FormatDateParts(d);
    NumeralLength(d.year);
    assert s[..4] == y && s[5..7] == mm && s[8..] == dd;
    assert DigitsValue(y) == d.year && DigitsValue(mm) == d.month + 1 && DigitsValue(dd) == d.day;
    var e := DateFromInput(s);
    assert e.year == d.year && e.month == d.month && e.day == d.day;
  }

  /** The other direction: a date input value with a year of at least 1000,
      read and shown again, is the same text. */
  lemma InputRoundTrip(s: string)
    requires IsDateInputValue(s) && DigitsValue(s[..4]) >= 1000
    ensures FormatDateForInput(DateFromInput(s)) == s
  {
    var y, m, day := s[..4], s[5..7], s[8..];
    var d := DateFromInput(s);
    FourDigitNumeral(y);
    NatToStringOfDigits(y);
    Pad2OfDigits(m);
    Pad2OfDigits(day);
    FormatOfParts(d, y, m, day);
    DashedParts(s);
  }

  lemma FormatOfParts(d: LocalDate, y: string, m: string, day: string)
    requires ValidDate(d)
    requires IntToString(d.year) == y && Pad2(d.month + 1) == m && Pad2(d.day) == day
    ensures FormatDateForInput(d) == y + "-" + m + "-" + day
  {
  }

  lemma DashedParts(s: string)
    requires |s| == 10 && s[4] == '-' && s[7] == '-'
    ensures s == s[..4] + "-" + s[5..7] + "-" + s[8..]
  {
  }

  /** A year below 100 in the date input comes back in the 1900s. */
  lemma TwoDigitYearExample()
    ensures IsDateInputValue("0050-03-15")
    ensures DateFromInput("0050-03-15") == LocalDate(1950, 2, 15)
  {
    var s := "0050-03-15";
    ExampleNumerals(s);
    assert DaysInMonth(50, 2) == 31;
    assert IsDateInputValue(s);
    var d := DateFromInput(s);
    assert d.year == 1950 && d.month == 2 && d.day == 15;
  }

  lemma ExampleNumerals(s: string)
    requires s == "0050-03-15"
    ensures |s| == 10 && s[4] == '-' && s[7] == '-'
    ensures s[..4] == "0050" && s[5..7] == "03" && s[8..] == "15"
    ensures AllDigits(s[..4]) && AllDigits(s[5..7]) && AllDigits(s[8..])
    ensures DigitsValue(s[..4]) == 50 && DigitsValue(s[5..7]) == 3 && DigitsValue(s[8..]) == 15
  {
    assert s[..4] == "0050" && s[5..7] == "03" && s[8..] == "15";
    assert "0"[..0] == [] && "1"[..0] == [];
    assert DigitsValue("0") == 0 && DigitsValue("1") == 1;
    assert "00"[..1] == "0" && "03"[..1] == "0" && "15"[..1] == "1";
    assert DigitsValue("00") == 0 && DigitsValue("03") == 3 && DigitsValue("15") == 15;
    assert "005"[..2] == "00";
    assert DigitsValue("005") == 5;
    assert "0050"[..3] == "005";
    assert DigitsValue("0050") == 50;
  }

  // ------------------------------------------------------------ text fields

  /** The text fields an input on the card edits. */
  datatype FieldName = ClientName | TimeIn | TimeOut | Address | Description | Materials

  function Get(j: Job, f: FieldName): string
  {
    match f
    case ClientName => j.clientName
    case TimeIn => j.timeIn
    case TimeOut => j.timeOut
    case Address => j.address
    case Description => j.description
    case Materials => j.materials
  }

  /** `{ ...editedJob, [field]: value }`: the named field takes the value
      and everything else, the id included, stays. */
  function Set(j: Job, f: FieldName, v: string): (r: Job)
    ensures Get(r, f) == v
    ensures forall g :: g != f ==> Get(r, g) == Get(j, g)
    ensures r.id == j.id && r.timestamp == j.timestamp && r.coordinates == j.coordinates
  {
    match f
    case ClientName => j.(clientName := v)
    case TimeIn => j.(timeIn := v)
    case TimeOut => j.(timeOut := v)
    case Address => j.(address := v)
    case Description => j.(description := v)
    case Materials => j.(materials := v)
  }

  /** Typing the old value back undoes an edit. */
  lemma SetBack(j: Job, f: FieldName, v: string)
    ensures Set(Set(j, f, v), f, Get(j, f)) == j
  {
  }

  // --------------------------------------------------------------- map link

  const MapsSearch := "https://www.google.com/maps/search/?api=1&query="

  /** `mapLink`: the coordinates as "latitude,longitude" when the job has
      them, otherwise the encoded address. How a number is printed is left
      to `numberText`. */
  function MapLink(job: Job, numberText: real -> string): (url: string)
    ensures |url| >= |MapsSearch| && url[..|MapsSearch|] == MapsSearch
  {
    match job.coordinates
    case Some(c) => MapsSearch + numberText(c.latitude) + "," + numberText(c.longitude)
    case None => MapsSearch + EncodeURIComponent(job.address)
  }

  /** What the query of the map link reads back as: the two coordinates
      (when their texts have no comma, as printed numbers do not), or the
      address itself. */
  lemma MapLinkQuery(job: Job, numberText: real -> string)
    ensures var q := MapLink(job, numberText)[|MapsSearch|..];
      match job.coordinates
      case Some(c) =>
        (',' !in numberText(c.latitude) && ',' !in numberText(c.longitude)) ==>
          Split(q, ',') == [numberText(c.latitude), numberText(c.longitude)]
      case None => DecodeURIComponent(q) == Some(job.address)
  {
    var url := MapLink(job, numberText);
    match job.coordinates
    case Some(c) =>
      var lat, lon := numberText(c.latitude), numberText(c.longitude);
      assert url == MapsSearch + (lat + [','] + lon);
      assert url[|MapsSearch|..] == lat + [','] + lon;
      if ',' !in lat && ',' !in lon {
        SplitAtFirstSeparator(lat, ',', lon);
        SplitWithoutSeparator(lon, ',');
      }
    case None =>
      assert url[|MapsSearch|..] == EncodeURIComponent(job.address);
      EncodeDecodeRoundTrip(job.address);
  }

  // ------------------------------------------------------------ edit state

  /** The card's state: the `job` prop as last received, whether the edit
      form is shown, and the working copy the edit form changes. */
  class JobCardState {
    var job: Job
    var isEditing: bool
    var editedJob: Job

    /** The working copy is always a version of the card's own job. */
    predicate Valid()
      reads this
    {
      editedJob.id == job.id && ValidJob(job) && ValidJob(editedJob)
    }

    constructor(job: Job)
      requires ValidJob(job)
      ensures Valid()
      ensures this.job == job && editedJob == job && !isEditing
    {
      this.job := job;
      isEditing := false;
      editedJob := job;
    }

    /** The value the date input shows. */
    function DateInputValue(): string
      reads this
      requires Valid()
    {
      FormatDateForInput(editedJob.timestamp)
    }

    /** The edit button. */
    method StartEditing()
      requires Valid()
      modifies this`isEditing
      ensures Valid() && isEditing
    {
      isEditing := true;
    }

    /** The effect on `[job]`: a new prop replaces the working copy. */
    method JobChanged(newJob: Job)
      requires ValidJob(newJob)
      modifies this`job, this`editedJob
      ensures Valid()
      ensures job == newJob && editedJob == newJob
    {
      job := newJob;
      editedJob := newJob;
    }

    /** The onChange handler of a text input or text area: one field of the
        working copy takes the typed value. Time inputs hold "HH:MM" or
        nothing. */
    method EditField(f: FieldName, value: string)
      requires Valid()
      requires (f == TimeIn || f == TimeOut) ==> IsTimeInputValue(value)
      modifies this`editedJob
      ensures Valid()
      ensures editedJob == Set(old(editedJob), f, value)
    {
      editedJob := Set(editedJob, f, value);
      assert Get(editedJob, TimeIn) == editedJob.timeIn && Get(editedJob, TimeOut) == editedJob.timeOut;
    }

    /** `handleDateChange`: only the timestamp changes; a value with a
        four-digit year is shown back unchanged. */
    method HandleDateChange(value: string)
      requires Valid() && IsDateInputValue(value)
      modifies this`editedJob
      ensures Valid()
      ensures editedJob == old(editedJob).(timestamp := DateFromInput(value))
      ensures DigitsValue(value[..4]) >= 1000 ==> DateInputValue() == value
    {
      var newDate := DateFromInput(value);
      editedJob := editedJob.(timestamp := newDate);
      if DigitsValue(value[..4]) >= 1000 {
        InputRoundTrip(value);
      }
    }

    /** `handleSave`: the working copy goes to the update callback, which
        is given this card's job id, and the form closes. */
    method HandleSave() returns (update: Job)
      requires Valid()
      modifies this`isEditing
      ensures Valid() && !isEditing
      ensures update == editedJob && update.id == job.id && ValidJob(update)
    {
      update := editedJob;
      isEditing := false;
    }

    /** `handleCancel`: the working copy goes back to the job and the form
        closes; nothing is passed on. */
    method HandleCancel()
      requires Valid()
      modifies this`isEditing, this`editedJob
      ensures Valid() && !isEditing
      ensures editedJob == job
    {
      editedJob := job;
      isEditing := false;
    }
  }
}
