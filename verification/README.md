# Job Logger — a Dafny model of its logic

Job Logger is a small React app for tradespeople. A job visit is logged in a form with:
- client, address and date;
- clock-in and clock-out times;
- a description and optional materials.

Logged jobs appear in a list, newest first. Each job card can be edited in place and links to a map of the job's place. A share dialog can do three things:
- export the job's summary card as an A4 PDF;
- share that PDF, or fall back to a WhatsApp text link;
- open a `mailto:` link whose body is a plain-text summary.

This project models that logic and proves what it promises. The markup is not modelled.

| file | module | models |
|---|---|---|
| `text.dfy` | `Text` | the JavaScript string built-ins the app relies on: white space and `trim`, `split`/`join`, `Number` of a decimal numeral, `String(n)`, `padStart(2, '0')` |
| `types.dfy` | `JobTypes` | the `Job` record; a calendar date as `new Date(y, m, d)` builds it; what a time input and a date input can hold |
| `utils.dfy` | `Utils` | `formatDuration`, both as a specification function and as a method following the code step by step, and `formatJobAsText` |
| `app.dfy` | `App` | the stable newest-first sort, `addJob`, `updateJob`, and the job list as a class |
| `uri.dfy` | `UriEncoding` | `encodeURIComponent` (UTF-8 bytes, `%XX` escapes, the unreserved set of ECMA-262) and a decoder that inverts it |
| `email_modal.dfy` | `EmailModal` | the PDF file name, the placement of the card image on the page, the export, and the WhatsApp and `mailto:` links; the dialog's handlers and busy flags as a class |
| `job_card.dfy` | `JobCard` | the date input's format and parse, the map link, and the edit state of a card as a class |
| `job_form.dfy` | `JobForm` | the new-job form as a class: submit, the description generator and the location button |

## How things are represented

**Dates and times**
- A `Date` is a `LocalDate` of year, month index 0–11 and day. Every date the app builds is local midnight of a calendar day.
- The list compares timestamps only, so `getTime()` is replaced by a number that orders valid dates as the calendar does.
- Clock times are minutes since midnight, with no daylight-saving shift.

**Async handlers**
- An awaited call becomes a parameter holding its outcome: the rendered canvas, whether the PDF was written, whether the browser can share files, the generated text or a failure, and whether geolocation exists.
- A ghost field records the busy flags as they stood while the call was awaited.

**Browser effects**
- What the share dialog asks the browser to do is appended to a list of effects: a download, a share, opening a window, or navigating.

## Model

| member | source | states |
|---|---|---|
| JobTypes.WithId | App.tsx:23-26 | the new job is the form data with the given id added; no other field differs |
| JobTypes.TimeValueOrdersDates | App.tsx:29 | the sort key orders valid dates as the calendar does, and equal keys mean the same date |
| Text.Trim | utils.ts:51 | the trimmed text is empty or starts and ends with a non-white-space character |
| Text.TrimIsInfix | utils.ts:51 | the trimmed text is what is left of the text between a leading and a trailing white-space run; it is empty exactly when the text is all white space |
| Text.Split | utils.ts:4-5 | `split` gives at least one part, no part holds the separator, and joining the parts with it gives back the text |
| Text.SplitOfJoin | utils.ts:4-5 | splitting parts joined by a separator they do not contain gives back exactly those parts |
| Text.NatToString | components/JobCard.tsx:28-30 | `String(n)` is a numeral of n without leading zeros |
| Text.NatToStringOfDigits | components/JobCard.tsx:28 | a numeral without leading zeros is what `String` prints for its value |
| Text.Pad2 | components/JobCard.tsx:29-30 | `padStart(2, '0')` of a number below 100 is two digits with that value |
| Text.Pad2OfDigits | components/JobCard.tsx:29-30 | any two-digit numeral is the padded text of its own value |
| Utils.ClockMinutes | utils.ts:4-5 | the hour and minute numbers of an "HH:MM" time give a minute of the day below 1440 |
| Utils.ClockSplit | utils.ts:4-5 | splitting a clock time at ':' gives exactly its hour and minute numerals |
| Utils.ClockMinutesInjective | utils.ts:4-11 | different clock times are different minutes of the day |
| Utils.Elapsed | utils.ts:13-18 | elapsed minutes lie in [0, 1439], and out is reached from in by moving forward that many minutes modulo a day; so there is at most one rollover |
| Utils.FormatDuration | utils.ts:1-2 | the result is "N/A" exactly when a time is missing |
| Utils.ComputeDuration | utils.ts:1-31 | the step-by-step computation builds exactly the duration text of the elapsed time: Date milliseconds, the overnight shift, whole hours, truncated minutes and `+=` |
| Utils.MillisecondsToHoursAndMinutes | utils.ts:18-20 | whole hours of the millisecond difference are elapsed div 60, and truncated minutes are elapsed mod 60 |
| Utils.DurationTextParts | utils.ts:22-31 | the text is the hour phrase and the minute phrase joined by one space, whichever of them are present, or "0 minutes" when neither is |
| Utils.DurationTextRoundTrip | utils.ts:19-31 | reading the text back, with minute counts below 60, gives exactly the elapsed minutes: the text fixes both the whole hours and the left-over minutes |
| Utils.DurationShape | utils.ts:23-29 | the hour part appears iff hours > 0; the minute part iff minutes > 0 or the time is zero; four words iff both |
| Utils.UnitSingularExactlyAtOne | utils.ts:24-28 | each unit is singular exactly when its own count is 1; zero reads "minutes" |
| Utils.ZeroMinutesIffSameTime | utils.ts:14-31 | the text is "0 minutes" exactly when the two clock times are equal |
| Utils.DayShiftExample | utils.ts:1-31 | "09:00" to "17:30" gives "8 hours 30 minutes" |
| Utils.NightShiftExample | utils.ts:13-16 | "22:00" to "02:00" gives "4 hours" |
| Utils.SingularExample | utils.ts:24-28 | "09:00" to "10:01" gives "1 hour 1 minute" |
| Utils.PluralExample | utils.ts:24-28 | "09:00" to "11:02" gives "2 hours 2 minutes" |
| Utils.TrimEndSummaryTail | utils.ts:48-51 | trimming the end of the template keeps the materials section when there are materials, and otherwise stops after the description |
| Utils.FormatJobAsTextShape | utils.ts:36-51 | the summary is the head lines (title, client, address, date, and time line `timeIn - timeOut (duration)`) followed by the end-trimmed body; it starts with "--- JOB SUMMARY ---" and neither starts nor ends with white space |
| Utils.MaterialsIffNonEmpty | utils.ts:50 | "--- Materials Used ---" and the materials are appended exactly when materials are non-empty |
| App.Insert | App.tsx:28-29 | inserting grows the list by one and adds exactly that job to its multiset |
| App.InsertKeepsOrder | App.tsx:29 | inserting into a newest-first list keeps it newest first |
| App.SortNewestFirst | App.tsx:29 | the sort result is a permutation of its input with timestamps non-increasing |
| App.SortIsStable | App.tsx:29 | for every timestamp, the jobs with that timestamp keep their input order |
| App.StableSortedUnique | App.tsx:29 | two newest-first lists with the same jobs per timestamp, in the same order, are equal |
| App.SortCharacterized | App.tsx:29 | every newest-first list that keeps each timestamp's jobs in input order is the sort result |
| App.SortOfSorted | App.tsx:29 | sorting a newest-first list changes nothing |
| App.InsertionPoint | App.tsx:28-29 | the new job's position: every job before it is strictly newer, and the job at it is not newer |
| App.SortAfterPrepend | App.tsx:28-29 | sorting a newest-first list with one job put in front inserts that job |
| App.AddToSorted | App.tsx:27-30 | the result is the old list with the new job spliced in, in front of every job with an equal timestamp; the old jobs keep their order |
| App.ReplaceById | App.tsx:35 | each entry whose id matches becomes the updated job; every other entry stays as it is |
| App.ReplaceKeepsOthers | App.tsx:35 | jobs with another id survive as a multiset; every job now carrying the id is the updated one |
| App.ReplaceUnknownId | App.tsx:35 | with no matching id the map changes nothing |
| App.UpdateSorted | App.tsx:33-38 | update keeps the length and the newest-first order, keeps other jobs as a multiset, and changes nothing for an unknown id |
| App.JobStore.constructor | App.tsx:9 | the list starts empty and newest first |
| App.JobStore.AddJob | App.tsx:22-31 | the list stays newest first; the old list gains the new job at its insertion point (same data, the fresh id); the multiset grows by exactly that job; it is the only job with that id |
| App.JobStore.UpdateJob | App.tsx:33-38 | the list becomes the sorted replacement; it stays newest first, keeps its length and the other jobs, and is unchanged for an unknown id |
| UriEncoding.HexValueOfDigit | components/EmailModal.tsx:102 | each hex digit of an escape reads back as its value |
| UriEncoding.Utf8RoundTrip | components/EmailModal.tsx:93 | decoding the UTF-8 bytes of a character gives the character back |
| UriEncoding.EncodeURIComponent | components/EmailModal.tsx:102 | the encoded text consists of unreserved characters and '%' only |
| UriEncoding.EncodeUnreservedIsIdentity | components/JobCard.tsx:25 | text made of unreserved characters is left as it is |
| UriEncoding.EncodeDecodeRoundTrip | components/EmailModal.tsx:93 | decoding the encoded text gives back the original text |
| EmailModal.CollapseWhitespace | components/EmailModal.tsx:23 | the client name with white-space runs replaced holds no white space |
| EmailModal.CollapseKeepsSolidText | components/EmailModal.tsx:23 | a name without white space is kept as it is |
| EmailModal.CollapseRun | components/EmailModal.tsx:23 | each maximal white-space run becomes exactly one '-', and the text around it is rewritten independently |
| EmailModal.DateString | components/EmailModal.tsx:22 | the date part is the prefix of the ISO text up to its first 'T': it holds no 'T', and it is either the whole text or followed by a 'T' |
| EmailModal.DateStringOfIso | components/EmailModal.tsx:22 | the date part of "date" + "T" + "time" is the date |
| EmailModal.FileNameShape | components/EmailModal.tsx:23 | the file name ends in ".pdf" and holds no white space when the date part holds none |
| EmailModal.PlaceImage | components/EmailModal.tsx:36-49 | the image fits the box within the 15 mm margins, keeps the canvas aspect ratio, fills the content width or the content height, is centred horizontally (so x ≥ 15) and has y = 15 |
| EmailModal.ShrinkKeepsWidthInside | components/EmailModal.tsx:44-46 | when full width is too tall, full height is narrow enough |
| EmailModal.PlacementIsLargest | components/EmailModal.tsx:42-47 | no box of the canvas shape that fits the content box is larger than the placed image |
| EmailModal.GeneratePdfAsFile | components/EmailModal.tsx:25-58 | a file exists exactly when the card is mounted, rendering succeeded and the PDF was written; it is the export of the rendering under that name: "application/pdf", the image inside the 15 mm margins of the A4 page, with the canvas aspect ratio, the full content width or height, centred, at the top margin |
| EmailModal.ExportIsUnique | components/EmailModal.tsx:36-54 | two files that are both the export of one rendering under one name are equal, so the placement leaves no choice |
| EmailModal.WhatsAppUrl | components/EmailModal.tsx:93 | the link starts with "https://wa.me/?text=", and its query decodes to the text |
| EmailModal.NoAmpersandInEncoded | components/EmailModal.tsx:102 | encoded text never holds the '&' that separates header fields |
| EmailModal.MailtoFields | components/EmailModal.tsx:100-102 | when the cc address has no '&' of its own, splitting the query at '&' gives exactly the cc, subject and body fields, and subject and body decode back to the subject and summary |
| EmailModal.LoadingText | components/EmailModal.tsx:105-106 | the loading text is non-empty exactly while busy; it is "Generating PDF..." exactly when downloading, and "Preparing to share..." exactly when sharing without downloading |
| EmailModal.ShareDialog.constructor | components/EmailModal.tsx:16-19 | the dialog starts idle with no effects; its text summary is `formatJobAsText` of the job |
| EmailModal.ShareDialog.HandleDownloadPdf | components/EmailModal.tsx:60-73 | while exporting only the download flag is set; afterwards the dialog is idle; exactly when a file was produced, one download is appended, under the file name, of the exported PDF of that rendering (its name, MIME type and placement) |
| EmailModal.ShareDialog.HandleShareWhatsApp | components/EmailModal.tsx:75-97 | while exporting only the share flag is set; afterwards the dialog is idle; exactly one effect is appended: the native share of the exported PDF of that rendering (its name, MIME type and placement; title "Job Summary", text naming the client) iff a file exists and can be shared, otherwise the WhatsApp link of the summary in a new window |
| EmailModal.ShareDialog.HandleSendEmail | components/EmailModal.tsx:99-103 | navigates to `mailto:` recipient with cc, subject "Job Summary: " + client and the summary as body; no busy flag is touched |
| JobCard.DateSplit | components/JobCard.tsx:35 | splitting a date input value at '-' gives its year, month and day numerals |
| JobCard.DateFromInput | components/JobCard.tsx:34-36 | the parsed date is valid, has month index M−1 and day D, and a year from 0 to 99 is read as 1900 + year |
| JobCard.NumeralLength | components/JobCard.tsx:28 | the length of `String(year)` by range, so it is four digits exactly for 1000..9999 |
| JobCard.FormatDateParts | components/JobCard.tsx:27-32 | the shown date is the year, '-', the padded month index + 1, '-', the padded day |
| JobCard.FormatDateIsInputValue | components/JobCard.tsx:27-32 | the shown date is a valid "YYYY-MM-DD" value exactly for years 1000..9999 |
| JobCard.DateRoundTrip | components/JobCard.tsx:27-38 | a date with a four-digit year, shown and read back, is the same date |
| JobCard.InputRoundTrip | components/JobCard.tsx:27-38 | a date input value with a year of at least 1000, read and shown, is the same text |
| JobCard.TwoDigitYearExample | components/JobCard.tsx:35-36 | "0050-03-15" is read as 15 March 1950 |
| JobCard.Set | components/JobCard.tsx:60 | a field handler sets the one named field and keeps every other field, id, timestamp and coordinates |
| JobCard.SetBack | components/JobCard.tsx:60 | typing the old value back restores the job |
| JobCard.MapLink | components/JobCard.tsx:23-25 | the map link starts with the Google Maps search prefix |
| JobCard.MapLinkQuery | components/JobCard.tsx:23-25 | with coordinates the query splits at ',' into the two number texts; without, it decodes to the address |
| JobCard.JobCardState.constructor | components/JobCard.tsx:16-17 | the card starts not editing, with the working copy equal to the job |
| JobCard.JobCardState.StartEditing | components/JobCard.tsx:156 | the edit button opens the form and keeps the working copy |
| JobCard.JobCardState.JobChanged | components/JobCard.tsx:19-21 | a new job prop replaces the working copy |
| JobCard.JobCardState.EditField | components/JobCard.tsx:60 | exactly the named field of the working copy changes; the id is kept |
| JobCard.JobCardState.HandleDateChange | components/JobCard.tsx:34-38 | only the timestamp of the working copy changes, to the parsed date; a four-digit-year value is shown back unchanged |
| JobCard.JobCardState.HandleSave | components/JobCard.tsx:40-43 | the update passed on is the working copy, with the card's id; the form closes |
| JobCard.JobCardState.HandleCancel | components/JobCard.tsx:45-48 | the working copy goes back to the job, the form closes, nothing is passed on |
| JobForm.TodayDateString | components/JobForm.tsx:17-23 | today's date in the input format is a valid date input value |
| JobForm.TodayReadsBack | components/JobForm.tsx:17-25 | a form left at today's date submits today |
| JobForm.GpsAddress | components/JobForm.tsx:61 | the address after a fix starts with "GPS: " |
| JobForm.GpsAddressReadsBack | components/JobForm.tsx:61 | after the prefix, the address splits at ',' into the latitude text and the space-led longitude text |
| JobForm.JobFormState.constructor | components/JobForm.tsx:11-32 | every field starts empty, the date is today, nothing is busy and there is no error |
| JobForm.JobFormState.EditField | components/JobForm.tsx:116 | an onChange handler changes the named field only |
| JobForm.JobFormState.EditDate | components/JobForm.tsx:149 | the date input's handler sets the date |
| JobForm.JobFormState.HandleSubmit | components/JobForm.tsx:72-104 | a job is submitted exactly when every field but materials is filled. On refusal: the fixed error, and no field changes. On success: the fields are passed on unchanged, with the date read as a local day; all fields are cleared, the date is reset to today, and both errors are cleared |
| JobForm.JobFormState.ResetFields | components/JobForm.tsx:94-103 | every text field is cleared, the date is set to today's text, coordinates and both errors are cleared |
| JobForm.JobFormState.HandleGenerateDescription | components/JobForm.tsx:34-45 | busy with no error while the service is awaited, never busy after; the generated text replaces the description, or on failure the description is kept and the fixed error is shown |
| JobForm.JobFormState.HandleGetLocation | components/JobForm.tsx:47-56 | without geolocation only the error is set; otherwise a fetch starts with the error and the coordinates cleared |
| JobForm.JobFormState.OnPosition | components/JobForm.tsx:58-63 | a position is kept as the coordinates, written into the address, and the fetch ends |
| JobForm.JobFormState.OnPositionError | components/JobForm.tsx:64-67 | the error message is shown and the fetch ends; address and coordinates are untouched |

## Left out

**Not modelled: browser, libraries and services**
- Rasterising the card with html2canvas and writing PDF bytes with jsPDF are not modelled.
  - The canvas size and whether the PDF could be written are inputs.
  - The page is A4 portrait, 210 × 297 mm (ISO 216).
  - The file carries its name, its MIME type and the image box only.
- Browser I/O is not modelled: the anchor-click download, object URLs, `navigator.share`/`canShare`, `window.open` and `window.location`. Each appears as a recorded effect or a boolean input.
- A rejected `navigator.share` is caught in the source. The model records the share request either way, and `console.error` logging is left out.
- `localStorage` persistence of the two e-mail addresses (App.tsx:10-19) is not modelled. The addresses are constructor parameters of the dialog.
- services/geminiService.ts is not part of this model. The outcome of the awaited call is a parameter.
- `navigator.geolocation.getCurrentPosition` is not part of this model.
  - Its two callbacks are the methods `OnPosition` and `OnPositionError`.
  - The `toFixed(5)` texts of the coordinates are parameters.
- `crypto.randomUUID` is not modelled. The id is a parameter that no listed job carries.
- The modal's open/close flag, JobList, JobSummaryCard and all markup and styling are presentation and are not modelled.
- Async interleavings are not modelled. Each handler runs to completion, and the await points only appear in the ghost flag snapshots.

**Taken as inputs**
- `toLocaleDateString()` (utils.ts:44) is locale-dependent, so its text is an input.
- `toISOString()` (components/EmailModal.tsx:22) is an input.
  - The date part of the file name is UTC while job dates are local midnights, so it can be a day off from the job's date.
  - The model does not claim they agree.
- `new Date()` in `getTodayDateString` is the `today` parameter.
- `MapLink`: how JavaScript prints a coordinate is the `numberText` parameter.
  - `MapLinkQuery` reads the two texts back only when they hold no comma.

**Numbers and dates**
- Numbers are exact integers and reals, not IEEE doubles. The placement arithmetic is over reals.
- `formatDuration` builds its two `Date`s on the current day, so a daylight-saving change in between can shift the result by an hour. The model counts minutes since midnight without daylight saving.
- `Utils.FormatDuration`, `Utils.FormatJobAsText` and `EmailModal.ShareDialog.constructor` require each time to be empty or a valid "HH:MM". This is all a time input can hold. `Number` of malformed text would give NaN, which is not modelled.
- Date input values are "" (form only) or a valid "YYYY-MM-DD" day with a year from 1 to 9999.
  - Years of five or more digits are not modelled.
  - A cleared date input on the card (which gives an Invalid Date) is not modelled.
- `JobForm.TodayDateString`, `JobForm.TodayReadsBack`, `JobForm.JobFormState.constructor` and `JobForm.JobFormState.HandleSubmit` require today's year to be 1000..9999. Only then is `String(year)` a four-digit year, which is what the date input accepts.
- `JobCard.DateRoundTrip` and `JobCard.InputRoundTrip` hold only for years 1000..9999, for two reasons:
  - `String(year)` is not padded (`FormatDateIsInputValue`).
  - `new Date(y, m - 1, d)` reads years 0–99 as 1900–1999 (`TwoDigitYearExample`).

**Contracts narrower than the source**
- `MailtoFields` requires the cc address to hold no '&'. The source inserts both addresses unencoded, so an address with '&' adds a header field.
- `JobCard.JobCardState.JobChanged` and the `JobCardState` invariant require a job that the form or a card could have produced: a valid date and time-input values.
- `EmailModal.ShareDialog.HandleDownloadPdf`, `EmailModal.ShareDialog.HandleShareWhatsApp` and `EmailModal.ShareDialog.HandleSendEmail` require the dialog not to be loading, as the disabled buttons ensure. `JobForm.JobFormState.HandleGetLocation` and `JobForm.JobFormState.HandleGenerateDescription` likewise require what their disabled buttons ensure.
- `EmailModal.ShareDialog.HandleShareWhatsApp`, `EmailModal.ShareDialog.HandleSendEmail` and `UriEncoding.EncodeURIComponent` take strings as sequences of Unicode scalar values, so lone surrogates are not modelled.
  - On a lone surrogate `encodeURIComponent` throws a URIError.
  - In the WhatsApp fallback (components/EmailModal.tsx:93) the throw comes before `setIsSharing(false)`, so the dialog would stay busy.
  - In `handleSendEmail` (components/EmailModal.tsx:102) no navigation would happen.
  - The promises that the dialog ends idle and that the `mailto:` link is followed hold only for text of scalar values.
- `EmailModal.ShareDialog.constructor`: the props never change while a dialog is open, so the text summary is computed once at construction, not in each handler.
