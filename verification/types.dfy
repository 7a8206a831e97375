/** The job record of types.ts and the formats its fields carry: calendar
    dates as a Date built at local midnight, "HH:MM" clock strings from a
    time input, and "YYYY-MM-DD" strings from a date input. */
module JobTypes {
  import opened Text

  datatype Option<T> = None | Some(value: T)

  /** A latitude/longitude pair in degrees. */
  datatype Coordinates = Coordinates(latitude: real, longitude: real)

  /** A Date that was created at local midnight of a calendar day: the full
      year, the month index 0-11 (as `getMonth` returns it) and the day of
      the month. */
  datatype LocalDate = LocalDate(year: int, month: int, day: int)

  /** A logged job visit. `materials` is optional: the empty string means
      none. `coordinates` is present only when location capture succeeded. */
  datatype Job = Job(
    id: string,
    clientName: string,
    address: string,
    materials: string,
    description: string,
    timestamp: LocalDate,
    timeIn: string,
    timeOut: string,
    coordinates: Option<Coordinates>)

  /** `Omit<Job, 'id'>`: what the form hands over before an id is assigned. */
  datatype JobData = JobData(
    clientName: string,
    address: string,
    materials: string,
    description: string,
    timestamp: LocalDate,
    timeIn: string,
    timeOut: string,
    coordinates: Option<Coordinates>)

  function DataOf(j: Job): JobData
  {
    JobData(j.clientName, j.address, j.materials, j.description, j.timestamp,
            j.timeIn, j.timeOut, j.coordinates)
  }

  /** `{ ...jobData, id }`: the data with an id added and nothing else altered. */
  function WithId(data: JobData, id: string): (j: Job)
    ensures j.id == id && DataOf(j) == data
  {
    Job(id, data.clientName, data.address, data.materials, data.description,
        data.timestamp, data.timeIn, data.timeOut, data.coordinates)
  }

  // ------------------------------------------------------------------ dates

  predicate IsLeapYear(y: int)
  {
    y % 4 == 0 && (y % 100 != 0 || y % 400 == 0)
  }

  /** Days in the month with index `month` (0-11) of year y, Gregorian. */
  function DaysInMonth(y: int, month: int): int
    requires 0 <= month < 12
  {
    if month == 1 then (if IsLeapYear(y) then 29 else 28)
    else if month == 3 || month == 5 || month == 8 || month == 10 then 30
    else 31
  }

  predicate ValidDate(d: LocalDate)
  {
    0 <= d.month < 12 && 1 <= d.day <= DaysInMonth(d.year, d.month)
  }

  /** Calendar order of two dates. */
  predicate Earlier(a: LocalDate, b: LocalDate)
  {
    a.year < b.year
    || (a.year == b.year && a.month < b.month)
    || (a.year == b.year && a.month == b.month && a.day < b.day)
  }

  /** Stands for `timestamp.getTime()`, which the job list only compares:
      a number that orders valid dates as the calendar does. */
  function TimeValue(d: LocalDate): int
  {
    (d.year * 12 + d.month) * 31 + d.day
  }

  lemma TimeValueOrdersDates(a: LocalDate, b: LocalDate)
    requires ValidDate(a) && ValidDate(b)
    ensures TimeValue(a) < TimeValue(b) <==> Earlier(a, b)
    ensures TimeValue(a) == TimeValue(b) <==> a == b
  {
    var ma, mb := a.year * 12 + a.month, b.year * 12 + b.month;
    assert ma < mb <==> (a.year < b.year || (a.year == b.year && a.month < b.month));
    assert ma == mb <==> (a.year == b.year && a.month == b.month);
  }

  // ------------------------------------------------------- input formats

  /** A value of a time input: "HH:MM" on a 24-hour clock. */
  predicate IsClock(s: string)
  {
    && |s| == 5 && s[2] == ':'
    && AllDigits(s[..2]) && AllDigits(s[3..])
    && DigitsValue(s[..2]) < 24 && DigitsValue(s[3..]) < 60
  }

  /** What a time input can hold: nothing, or a clock time. */
  predicate IsTimeInputValue(s: string)
  {
    s == "" || IsClock(s)
  }

  /** A value of a date input: "YYYY-MM-DD", an existing calendar day of a
      year from 1 to 9999. */
  predicate IsDateInputValue(s: string)
  {
    && |s| == 10 && s[4] == '-' && s[7] == '-'
    && AllDigits(s[..4]) && AllDigits(s[5..7]) && AllDigits(s[8..])
    && DigitsValue(s[..4]) >= 1
    && 1 <= DigitsValue(s[5..7]) <= 12
    && 1 <= DigitsValue(s[8..]) <= DaysInMonth(DigitsValue(s[..4]), DigitsValue(s[5..7]) - 1)
  }

  /** What a job carries when it was built from the form or edited on a card. */
  predicate ValidJob(j: Job)
  {
    ValidDate(j.timestamp) && IsTimeInputValue(j.timeIn) && IsTimeInputValue(j.timeOut)
  }
}
