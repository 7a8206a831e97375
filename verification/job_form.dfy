/** components/JobForm.tsx: the form that logs a new job. It holds one
    state value per input, checks the required fields on submit, builds
    the job's date from the date input, and clears itself after a job was
    handed on. Two buttons fill fields from outside: the description from
    the text-generation service and the address from the browser's
    position. The clock, the service and the position are inputs here. */
module JobForm {
  import opened Text
  import opened JobTypes
  import opened JobCard

  const RequiredMessage := "All fields except materials are required."
  const GenerateFailedMessage := "Failed to generate description. Please check your API key and try again."
  const NoGeolocationMessage := "Geolocation is not supported by your browser."
  const LocationErrorPrefix := "Error getting location: "
  const GpsPrefix := "GPS: "

  /** What the awaited text-generation call did. */
  datatype Generated = Generated(text: string) | GenerateFailed

  /** `getTodayDateString`: today's date in the date input's format, read
      as `formatDateForInput` reads a date; `today` stands for `new Date()`. */
  function TodayDateString(today: LocalDate): (s: string)
    requires ValidDate(today) && 1000 <= today.year <= 9999
    ensures IsDateInputValue(s)
  {
    DateRoundTrip(today);
    FormatDateForInput(today)
  }

  /** A form left with today's date submits today. */
  lemma TodayReadsBack(today: LocalDate)
    requires ValidDate(today) && 1000 <= today.year <= 9999
    ensures DateFromInput(TodayDateString(today)) == today
  {
    DateRoundTrip(today);
  }

  /** The address text after a position was found,
      `GPS: ${latitude.toFixed(5)}, ${longitude.toFixed(5)}`, with the two
      `toFixed(5)` texts given. */
  function GpsAddress(latText: string, lonText: string): (a: string)
    ensures |a| >= |GpsPrefix| && a[..|GpsPrefix|] == GpsPrefix
  {
    GpsPrefix + latText + ", " + lonText
  }

  /** The two coordinates can be read back from the address: splitting what
      follows the prefix at ',' gives the latitude and the space-led
      longitude, since a fixed-point number has no comma. */
  lemma GpsAddressReadsBack(latText: string, lonText: string)
    requires ',' !in latText && ',' !in lonText
    ensures var a := GpsAddress(latText, lonText);
      Split(a[|GpsPrefix|..], ',') == [latText, " " + lonText]
  {
    var a := GpsAddress(latText, lonText);
    assert a == GpsPrefix + (latText + [','] + (" " + lonText));
    assert a[|GpsPrefix|..] == latText + [','] + (" " + lonText);
    SplitAtFirstSeparator(latText, ',', " " + lonText);
    SplitWithoutSeparator(" " + lonText, ',');
  }

  /** The form's state. `date` holds what the date input holds: nothing or
      a "YYYY-MM-DD" day; the time fields hold nothing or "HH:MM". */
  class JobFormState {
    var clientName: string
    var address: string
    var timeIn: string
    var timeOut: string
    var date: string
    var materials: string
    var description: string
    var coordinates: Option<Coordinates>
    var isFetchingLocation: bool
    var locationError: Option<string>
    var isGenerating: bool
    var error: Option<string>
    /** The busy flag and the error while the generation call was awaited. */
    ghost var whileGenerating: (bool, Option<string>)

    predicate Valid()
      reads this
    {
      && (date == "" || IsDateInputValue(date))
      && IsTimeInputValue(timeIn) && IsTimeInputValue(timeOut)
    }

    /** Every required field holds something; materials may be empty. */
    predicate Complete()
      reads this
    {
      clientName != "" && address != "" && description != ""
      && timeIn != "" && timeOut != "" && date != ""
    }

    /** The initial state: empty fields and today's date. */
    constructor(today: LocalDate)
      requires ValidDate(today) && 1000 <= today.year <= 9999
      ensures Valid()
      ensures clientName == "" && address == "" && timeIn == "" && timeOut == ""
      ensures materials == "" && description == "" && date == TodayDateString(today)
      ensures coordinates == None && locationError == None && error == None
      ensures !isFetchingLocation && !isGenerating
    {
      var todayString := TodayDateString(today);
      assert IsDateInputValue(todayString) && IsTimeInputValue("");
      clientName := "";
      address := "";
      timeIn := "";
      timeOut := "";
      date := todayString;
      materials := "";
      description := "";
      coordinates := None;
      isFetchingLocation := false;
      locationError := None;
      isGenerating := false;
      error := None;
      whileGenerating := (false, None);
    }

    function Get(f: FieldName): string
      reads this
    {
      match f
      case ClientName => clientName
      case TimeIn => timeIn
      case TimeOut => timeOut
      case Address => address
      case Description => description
      case Materials => materials
    }

    /** The onChange handler of a text input or text area. */
    method EditField(f: FieldName, value: string)
      requires Valid()
      requires (f == TimeIn || f == TimeOut) ==> IsTimeInputValue(value)
      modifies this`clientName, this`address, this`timeIn, this`timeOut,
               this`materials, this`description
      ensures Valid()
      ensures Get(f) == value
      ensures forall g :: g != f ==> Get(g) == old(Get(g))
    {
      match f
      case ClientName => clientName := value;
      case TimeIn => timeIn := value;
      case TimeOut => timeOut := value;
      case Address => address := value;
      case Description => description := value;
      case Materials => materials := value;
    }

    /** The onChange handler of the date input. */
    method EditDate(value: string)
      requires value == "" || IsDateInputValue(value)
      requires Valid()
      modifies this`date
      ensures Valid() && date == value
    {
      date := value;
    }

    /** `handleSubmit`. A form missing any required field is refused with
        the fixed message and left as it is. Otherwise the fields go to
        `onAddJob` unchanged, the date read as a local calendar day, and
        the form is cleared to today's date; the busy flags stay. */
    method HandleSubmit(today: LocalDate) returns (submitted: Option<JobData>)
      requires Valid()
      requires ValidDate(today) && 1000 <= today.year <= 9999
      modifies this`clientName, this`address, this`timeIn, this`timeOut, this`date,
               this`materials, this`description, this`coordinates,
               this`locationError, this`error
      ensures Valid()
      ensures submitted.Some? <==> old(Complete())
      ensures submitted.None? ==>
                && error == Some(RequiredMessage)
                && clientName == old(clientName) && address == old(address)
                && timeIn == old(timeIn) && timeOut == old(timeOut) && date == old(date)
                && materials == old(materials) && description == old(description)
                && coordinates == old(coordinates) && locationError == old(locationError)
      ensures submitted.Some? ==>
                && IsDateInputValue(old(date))
                && submitted.value == JobData(old(clientName), old(address), old(materials),
                                              old(description), DateFromInput(old(date)),
                                              old(timeIn), old(timeOut), old(coordinates))
                && ValidDate(submitted.value.timestamp)
                && IsClock(submitted.value.timeIn) && IsClock(submitted.value.timeOut)
      ensures submitted.Some? ==>
                && clientName == "" && address == "" && materials == "" && description == ""
                && timeIn == "" && timeOut == "" && date == TodayDateString(today)
                && coordinates == None && error == None && locationError == None
    {
      if clientName == "" || address == "" || description == "" || timeIn == "" || timeOut == "" || date == "" {
        error := Some(RequiredMessage);
        return None;
      }

      var timestamp := DateFromInput(date);

      submitted := Some(JobData(clientName, address, materials, description,
                                timestamp, timeIn, timeOut, coordinates));

      ResetFields(TodayDateString(today));
    }

    /** The clearing block at the end of `handleSubmit`, with the date
        input set to `todayString`. */
    method ResetFields(todayString: string)
      requires IsDateInputValue(todayString)
      modifies this`clientName, this`address, this`timeIn, this`timeOut, this`date,
               this`materials, this`description, this`coordinates,
               this`locationError, this`error
      ensures Valid()
      ensures clientName == "" && address == "" && materials == "" && description == ""
      ensures timeIn == "" && timeOut == "" && date == todayString
      ensures coordinates == None && error == None && locationError == None
    {
      clientName := "";
      address := "";
      materials := "";
      description := "";
      timeIn := "";
      timeOut := "";
      date := todayString;
      coordinates := None;
      error := None;
      locationError := None;
    }

    /** `handleGenerateDescription`, enabled while not generating and the
        description is not empty: busy with the error cleared while the
        service is awaited; its text replaces the description, or the
        fixed message is shown and the description kept; never busy after. */
    method HandleGenerateDescription(outcome: Generated)
      requires Valid()
      requires !isGenerating && description != ""
      modifies this`isGenerating, this`error, this`description, this`whileGenerating
      ensures Valid()
      ensures whileGenerating == (true, None)
      ensures !isGenerating
      ensures outcome.Generated? ==> description == outcome.text && error == None
      ensures outcome.GenerateFailed? ==>
                description == old(description) && error == Some(GenerateFailedMessage)
    {
      isGenerating := true;
      error := None;
      whileGenerating := (isGenerating, error);
      if outcome.Generated? {
        description := outcome.text;
      } else {
        error := Some(GenerateFailedMessage);
      }
      isGenerating := false;
    }

    /** `handleGetLocation`, enabled while no position is being fetched.
        Without geolocation only the location error is set; otherwise a
        fetch starts with the error and the coordinates cleared. */
    method HandleGetLocation(supported: bool)
      requires Valid()
      requires !isFetchingLocation
      modifies this`locationError, this`isFetchingLocation, this`coordinates
      ensures Valid()
      ensures !supported ==>
                locationError == Some(NoGeolocationMessage)
                && !isFetchingLocation && coordinates == old(coordinates)
      ensures supported ==> isFetchingLocation && locationError == None && coordinates == None
    {
      if !supported {
        locationError := Some(NoGeolocationMessage);
        return;
      }

      isFetchingLocation := true;
      locationError := None;
      coordinates := None;
    }

    /** The success callback of `getCurrentPosition`: the position is kept
        and written into the address; `latText` and `lonText` are the two
        `toFixed(5)` texts. */
    method OnPosition(latitude: real, longitude: real, latText: string, lonText: string)
      requires Valid()
      modifies this`coordinates, this`address, this`isFetchingLocation
      ensures Valid()
      ensures coordinates == Some(Coordinates(latitude, longitude))
      ensures address == GpsAddress(latText, lonText)
      ensures !isFetchingLocation
    {
      coordinates := Some(Coordinates(latitude, longitude));
      address := GpsAddress(latText, lonText);
      isFetchingLocation := false;
    }

    /** The error callback of `getCurrentPosition`: the message is shown,
        the address and the coordinates are left alone. */
    method OnPositionError(message: string)
      requires Valid()
      modifies this`locationError, this`isFetchingLocation
      ensures Valid()
      ensures locationError == Some(LocationErrorPrefix + message)
      ensures !isFetchingLocation
    {
      locationError := Some(LocationErrorPrefix + message);
      isFetchingLocation := false;
    }
  }
}
