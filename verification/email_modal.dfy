/** components/EmailModal.tsx: the share dialog of one job. It names the
    PDF export after the client and the date, places the rendered summary
    card on an A4 page, and downloads the file, shares it (or falls back to
    a WhatsApp text link), or opens a mailto link. The rendering libraries
    and the browser are outside the model: the rendered canvas, whether the
    PDF could be written and whether the browser can share files are
    inputs, and what the dialog asks the browser to do is recorded as a
    list of effects. */
module EmailModal {
  import opened Text
  import opened JobTypes
  import opened Utils
  import opened UriEncoding

  // -------------------------------------------------------------- file name

  /** `s.replace(/\s+/g, '-')`: every maximal run of white space becomes
      one '-'. */
  function CollapseWhitespace(s: string): (r: string)
    ensures NoWhitespace(r)
    decreases |s|
  {
    if s == [] then []
    else if IsWhitespace(s[0]) then
      var rest := TrimStart(s);
      "-" + CollapseWhitespace(rest)
    else
      [s[0]] + CollapseWhitespace(s[1..])
  }

  /** A text without white space is kept as it is. */
  lemma {:induction false} CollapseKeepsSolidText(s: string)
    requires NoWhitespace(s)
    ensures CollapseWhitespace(s) == s
  {
    if s != [] {
      CollapseKeepsSolidText(s[1..]);
      assert s == [s[0]] + s[1..];
    }
  }

  /** White space before a part that ends in a non-white-space character
      is trimmed by `trimStart` without touching what follows the part. */
  lemma {:induction false} TrimStartBeforeSuffix(x: string, z: string)
    requires x != [] && !IsWhitespace(x[|x| - 1])
    ensures TrimStart(x + z) == TrimStart(x) + z
  {
    if IsWhitespace(x[0]) {
      assert (x + z)[1..] == x[1..] + z;
      TrimStartBeforeSuffix(x[1..], z);
    }
  }

  lemma CollapseAtRun(s: string)
    requires s != [] && IsWhitespace(s[0])
    ensures CollapseWhitespace(s) == "-" + CollapseWhitespace(TrimStart(s))
  {
  }

  lemma CollapseAtSolid(s: string)
    requires s != [] && !IsWhitespace(s[0])
    ensures CollapseWhitespace(s) == [s[0]] + CollapseWhitespace(s[1..])
  {
  }

  /** The run itself: leading white space before a solid part. */
  lemma CollapseLeadingRun(w: string, y: string)
    requires w != [] && AllWhitespace(w)
    requires y == [] || !IsWhitespace(y[0])
    ensures CollapseWhitespace(w + y) == "-" + CollapseWhitespace(y)
  {
    TrimStartBeforeSolid(w, y);
    CollapseAtRun(w + y);
  }

  /** Step for a part that starts with white space, given the claim for
      the part with that white space trimmed. */
  lemma CollapseRunStepRun(x: string, z: string, tail: string)
    requires x != [] && IsWhitespace(x[0])
    requires TrimStart(x + z) == TrimStart(x) + z
    requires CollapseWhitespace(TrimStart(x) + z) == CollapseWhitespace(TrimStart(x)) + tail
    ensures CollapseWhitespace(x + z) == CollapseWhitespace(x) + tail
  {
    assert (x + z)[0] == x[0];
    CollapseAtRun(x + z);
    CollapseAtRun(x);
    PrependAssoc("-", CollapseWhitespace(TrimStart(x)), tail,
                 CollapseWhitespace(x + z), CollapseWhitespace(x));
  }

  /** Step for a part that starts with a solid character. */
  lemma CollapseRunStepSolid(x: string, z: string, tail: string)
    requires x != [] && !IsWhitespace(x[0])
    requires CollapseWhitespace(x[1..] + z) == CollapseWhitespace(x[1..]) + tail
    ensures CollapseWhitespace(x + z) == CollapseWhitespace(x) + tail
  {
    assert (x + z)[0] == x[0] && (x + z)[1..] == x[1..] + z;
    CollapseAtSolid(x + z);
    CollapseAtSolid(x);
    PrependAssoc([x[0]], CollapseWhitespace(x[1..]), tail,
                 CollapseWhitespace(x + z), CollapseWhitespace(x));
  }

  lemma PrependAssoc(h: string, c: string, t: string, a: string, b: string)
    requires a == h + (c + t) && b == h + c
    ensures a == b + t
  {
  }

  /** A maximal white-space run between two other parts becomes exactly one
      '-' and the parts are rewritten independently. */
  lemma {:induction false} CollapseRun(x: string, w: string, y: string)
    requires w != [] && AllWhitespace(w)
    requires x == [] || !IsWhitespace(x[|x| - 1])
    requires y == [] || !IsWhitespace(y[0])
    ensures CollapseWhitespace(x + (w + y)) == CollapseWhitespace(x) + ("-" + CollapseWhitespace(y))
    decreases |x|
  {
    if x == [] {
      assert x + (w + y) == w + y;
      CollapseLeadingRun(w, y);
    } else if IsWhitespace(x[0]) {
      var tx := TrimStart(x);
      assert |tx| < |x| && tx != [];
      assert tx[|tx| - 1] == x[|x| - 1];
      CollapseRun(tx, w, y);
      TrimStartBeforeSuffix(x, w + y);
      CollapseRunStepRun(x, w + y, "-" + CollapseWhitespace(y));
    } else {
      assert x[1..] == [] || x[1..][|x[1..]| - 1] == x[|x| - 1];
      CollapseRun(x[1..], w, y);
      CollapseRunStepSolid(x, w + y, "-" + CollapseWhitespace(y));
    }
  }

  /** `toISOString().split('T')[0]`: the date part of an ISO timestamp. The
      ISO text is in UTC while job dates are local midnights, so this date
      can be the day before the job's own date; it is taken as given. */
  function DateString(isoTimestamp: string): (d: string)
    ensures 'T' !in d && d <= isoTimestamp
    ensures d == isoTimestamp || isoTimestamp[|d|] == 'T'
  {
    var parts := Split(isoTimestamp, 'T');
    SplitFirstIsPrefix(isoTimestamp, 'T');
    parts[0]
  }

  lemma {:induction false} SplitFirstIsPrefix(s: string, sep: char)
    ensures Split(s, sep)[0] <= s
    ensures Split(s, sep)[0] == s || s[|Split(s, sep)[0]|] == sep
  {
    var parts := Split(s, sep);
    if |parts| > 1 {
      JoinPrefix(parts, sep);
    }
  }

  lemma JoinPrefix(parts: seq<string>, sep: char)
    requires |parts| > 1
    ensures parts[0] <= Join(parts, sep)
    ensures |parts[0]| < |Join(parts, sep)| && Join(parts, sep)[|parts[0]|] == sep
  {
    assert Join(parts, sep) == parts[0] + ([sep] + Join(parts[1..], sep));
  }

  /** The date part is everything before the 'T'. */
  lemma DateStringOfIso(date: string, time: string)
    requires 'T' !in date
    ensures DateString(date + "T" + time) == date
  {
    SplitAtFirstSeparator(date, 'T', time);
  }

  /** `${clientName.replace(/\s+/g, '-')}-${dateString}.pdf`. */
  function FileName(clientName: string, isoTimestamp: string): string
  {
    CollapseWhitespace(clientName) + "-" + DateString(isoTimestamp) + ".pdf"
  }

  /** The file name holds no white space when the date part holds none,
      and it ends in ".pdf". */
  lemma FileNameShape(clientName: string, isoTimestamp: string)
    ensures var name := FileName(clientName, isoTimestamp);
            && |name| >= 4 && name[|name| - 4..] == ".pdf"
            && (NoWhitespace(DateString(isoTimestamp)) ==> NoWhitespace(name))
  {
    var stem, date := CollapseWhitespace(clientName), DateString(isoTimestamp);
    assert FileName(clientName, isoTimestamp) == stem + "-" + date + ".pdf";
    PdfNameParts(stem, date);
  }

  lemma PdfNameParts(stem: string, date: string)
    requires NoWhitespace(stem)
    ensures var name := stem + "-" + date + ".pdf";
            && |name| >= 4 && name[|name| - 4..] == ".pdf"
            && (NoWhitespace(date) ==> NoWhitespace(name))
  {
    var name := stem + "-" + date + ".pdf";
    assert name[|name| - 4..] == ".pdf";
    if NoWhitespace(date) {
      forall i | 0 <= i < |name| ensures !IsWhitespace(name[i]) {
        if i < |stem| {
          assert name[i] == stem[i];
        } else if i == |stem| {
          assert name[i] == '-';
        } else if i < |stem| + 1 + |date| {
          assert name[i] == date[i - |stem| - 1];
        } else {
          assert name[i] == ".pdf"[i - |stem| - 1 - |date|];
        }
      }
    }
  }

  // --------------------------------------------------------------- placing

  const Margin: real := 15.0
  /** A4 portrait in millimetres (ISO 216). */
  const A4Width: real := 210.0
  const A4Height: real := 297.0

  /** The image box on the page: the content box is the page less a 15 mm
      margin on each side; the image takes the full content width unless
      that makes it too tall, in which case it takes the full content
      height; the canvas aspect ratio is kept, the image is centred
      horizontally and sits at the top margin. */
  method PlaceImage(pdfWidth: real, pdfHeight: real, canvasWidth: real, canvasHeight: real)
    returns (x: real, y: real, imgWidth: real, imgHeight: real)
    requires pdfWidth > 2.0 * Margin && pdfHeight > 2.0 * Margin
    requires canvasWidth > 0.0 && canvasHeight > 0.0
    ensures var contentWidth, contentHeight := pdfWidth - 2.0 * Margin, pdfHeight - 2.0 * Margin;
            && 0.0 < imgWidth <= contentWidth && 0.0 < imgHeight <= contentHeight
            && imgWidth * canvasHeight == imgHeight * canvasWidth
            && (imgWidth == contentWidth || imgHeight == contentHeight)
            && x == (pdfWidth - imgWidth) / 2.0 && x >= Margin
            && y == Margin
  {
    var canvasAspectRatio := canvasWidth / canvasHeight;
    var contentWidth := pdfWidth - (Margin * 2.0);
    var contentHeight := pdfHeight - (Margin * 2.0);
    imgWidth := contentWidth;
    imgHeight := imgWidth / canvasAspectRatio;
    assert imgHeight * canvasWidth == imgWidth * canvasHeight by {
      AspectStep(imgWidth, canvasWidth, canvasHeight);
    }
    if imgHeight > contentHeight {
      imgHeight := contentHeight;
      imgWidth := imgHeight * canvasAspectRatio;
      assert imgWidth * canvasHeight == imgHeight * canvasWidth;
      assert imgWidth < contentWidth by {
        ShrinkKeepsWidthInside(contentWidth, contentHeight, canvasWidth, canvasHeight);
      }
    }
    x := (pdfWidth - imgWidth) / 2.0;
    y := Margin;
  }

  lemma AspectStep(w: real, cw: real, ch: real)
    requires cw > 0.0 && ch > 0.0
    ensures (w / (cw / ch)) * cw == w * ch
  {
    assert w / (cw / ch) == w * ch / cw;
  }

  /** When full width is too tall, full height is narrow enough. */
  lemma ShrinkKeepsWidthInside(contentWidth: real, contentHeight: real, cw: real, ch: real)
    requires contentWidth > 0.0 && contentHeight > 0.0 && cw > 0.0 && ch > 0.0
    requires contentWidth / (cw / ch) > contentHeight
    ensures contentHeight * (cw / ch) < contentWidth
  {
    var a := cw / ch;
    assert a > 0.0;
    assert contentWidth / a * a == contentWidth;
  }

  /** No larger box of the same shape fits: whatever fits the content box
      with the canvas aspect ratio is at most as wide as the placed image. */
  lemma PlacementIsLargest(contentWidth: real, contentHeight: real, cw: real, ch: real,
                           imgWidth: real, imgHeight: real, w: real, h: real)
    requires cw > 0.0 && ch > 0.0
    requires imgWidth * ch == imgHeight * cw
    requires imgWidth == contentWidth || imgHeight == contentHeight
    requires w * ch == h * cw && w <= contentWidth && h <= contentHeight
    ensures w <= imgWidth && h <= imgHeight
  {
    if imgWidth == contentWidth {
      assert h * cw <= imgHeight * cw;
    } else {
      assert w * ch <= imgWidth * ch;
    }
  }

  // ------------------------------------------------------------ the export

  /** What html2canvas produced for the summary card. */
  datatype Raster = Rendered(width: real, height: real) | RenderFailed

  /** The exported document: its name, its MIME type and where the card
      image sits on the single A4 page. */
  datatype PdfFile = PdfFile(name: string, mimeType: string,
                             x: real, y: real, width: real, height: real)

  const PdfMimeType := "application/pdf"

  /** f is the PDF exported from the rendered card under that name: the PDF
      MIME type, and the card image placed on the A4 page as `PlaceImage`
      places it (inside the margins, the canvas aspect ratio, the full
      content width or the full content height, centred, at the top
      margin). */
  predicate IsExportOf(f: PdfFile, name: string, raster: Raster)
  {
    && raster.Rendered?
    && f.name == name && f.mimeType == PdfMimeType
    && 0.0 < f.width <= A4Width - 2.0 * Margin
    && 0.0 < f.height <= A4Height - 2.0 * Margin
    && f.width * raster.height == f.height * raster.width
    && (f.width == A4Width - 2.0 * Margin || f.height == A4Height - 2.0 * Margin)
    && f.x == (A4Width - f.width) / 2.0 && f.y == Margin
  }

  /** The export of a rendering under a name is one file: the placement
      leaves no choice. */
  lemma ExportIsUnique(f: PdfFile, g: PdfFile, name: string, raster: Raster)
    requires raster.Rendered? ==> raster.width > 0.0 && raster.height > 0.0
    requires IsExportOf(f, name, raster) && IsExportOf(g, name, raster)
    ensures f == g
  {
    var cw, ch := A4Width - 2.0 * Margin, A4Height - 2.0 * Margin;
    PlacementIsLargest(cw, ch, raster.width, raster.height, f.width, f.height, g.width, g.height);
    PlacementIsLargest(cw, ch, raster.width, raster.height, g.width, g.height, f.width, f.height);
  }

  /** `generatePdfAsFile(name)`: null when the card is not mounted, when
      rendering fails or when writing the PDF throws; otherwise a file with
      that name and the placed image. */
  method GeneratePdfAsFile(name: string, cardMounted: bool, raster: Raster, pdfWritten: bool)
    returns (file: Option<PdfFile>)
    requires raster.Rendered? ==> raster.width > 0.0 && raster.height > 0.0
    ensures file.Some? <==> cardMounted && raster.Rendered? && pdfWritten
    ensures file.Some? ==> IsExportOf(file.value, name, raster)
  {
    if !cardMounted {
      return None;
    }
    if raster.RenderFailed? {
      return None;
    }
    var x, y, w, h := PlaceImage(A4Width, A4Height, raster.width, raster.height);
    if !pdfWritten {
      return None;
    }
    return Some(PdfFile(name, PdfMimeType, x, y, w, h));
  }

  // ------------------------------------------------------------- the links

  const WhatsAppPrefix := "https://wa.me/?text="

  /** The WhatsApp fallback link for a text. */
  function WhatsAppUrl(text: string): (url: string)
    ensures |url| >= |WhatsAppPrefix| && url[..|WhatsAppPrefix|] == WhatsAppPrefix
    ensures DecodeURIComponent(url[|WhatsAppPrefix|..]) == Some(text)
  {
    var url := WhatsAppPrefix + EncodeURIComponent(text);
    EncodeDecodeRoundTrip(text);
    assert url[|WhatsAppPrefix|..] == EncodeURIComponent(text);
    url
  }

  /** `mailto:${recipient}?cc=${user}&subject=...&body=...`; the addresses
      are inserted as they are, subject and body encoded. */
  function MailtoUrl(recipient: string, user: string, subject: string, body: string): string
  {
    "mailto:" + recipient + "?" + MailtoQuery(user, subject, body)
  }

  /** The query of the mailto link, the part after '?': three header
      fields separated by '&'. */
  function MailtoQuery(user: string, subject: string, body: string): string
  {
    Join(["cc=" + user, "subject=" + EncodeURIComponent(subject), "body=" + EncodeURIComponent(body)], '&')
  }

  /** Encoded text never holds the '&' that separates header fields. */
  lemma NoAmpersandInEncoded(s: string)
    ensures '&' !in EncodeURIComponent(s)
  {
  }

  /** A mail client that splits the query at '&' finds exactly the cc, the
      subject and the body fields, and decoding the last two gives back the
      subject and body text, provided the cc address has no '&' of its own. */
  lemma MailtoFields(user: string, subject: string, body: string)
    requires '&' !in user
    ensures Split(MailtoQuery(user, subject, body), '&')
         == ["cc=" + user, "subject=" + EncodeURIComponent(subject), "body=" + EncodeURIComponent(body)]
    ensures DecodeURIComponent(EncodeURIComponent(subject)) == Some(subject)
    ensures DecodeURIComponent(EncodeURIComponent(body)) == Some(body)
  {
    NoAmpersandInEncoded(subject);
    NoAmpersandInEncoded(body);
    SplitFields(user, EncodeURIComponent(subject), EncodeURIComponent(body));
    EncodeDecodeRoundTrip(subject);
    EncodeDecodeRoundTrip(body);
  }

  /** Three '&'-free field values joined at '&' split back into their fields. */
  lemma SplitFields(user: string, es: string, eb: string)
    requires '&' !in user && '&' !in es && '&' !in eb
    ensures var fields := ["cc=" + user, "subject=" + es, "body=" + eb];
            Split(Join(fields, '&'), '&') == fields
  {
    var fields := ["cc=" + user, "subject=" + es, "body=" + eb];
    assert '&' !in fields[0] by { assert fields[0] == "cc=" + user; }
    assert '&' !in fields[1] by { assert fields[1] == "subject=" + es; }
    assert '&' !in fields[2] by { assert fields[2] == "body=" + eb; }
    SplitOfJoin(fields, '&');
  }

  // ------------------------------------------------------------ the dialog

  /** What the dialog asks the browser to do. */
  datatype Effect =
    | SaveFile(file: PdfFile, downloadName: string)
    | ShareFile(file: PdfFile, title: string, text: string)
    | OpenWindow(url: string, target: string)
    | Navigate(url: string)

  const ShareTitle := "Job Summary"

  function ShareText(clientName: string): string
  {
    "Here is the job summary for " + clientName + "."
  }

  function EmailSubject(clientName: string): string
  {
    "Job Summary: " + clientName
  }

  /** `loadingText`: downloading wins over sharing. */
  function LoadingText(isDownloading: bool, isSharing: bool): (text: string)
    ensures text != "" <==> isDownloading || isSharing
    ensures text == "Generating PDF..." <==> isDownloading
    ensures text == "Preparing to share..." <==> !isDownloading && isSharing
  {
    if isDownloading then "Generating PDF..."
    else if isSharing then "Preparing to share..."
    else ""
  }

  /** The share dialog of one job, with the two busy flags it keeps. The
      job, both addresses, the locale date text and the ISO timestamp text
      are fixed for the dialog's life. */
  class ShareDialog {
    const job: Job
    const userEmail: string
    const recipientEmail: string
    const localeDate: string
    const isoTimestamp: string
    /** `formatJobAsText(job)`: the props never change while the dialog is
        open, so the text the handlers compute is this one value. */
    const textSummary: string
    var isDownloading: bool
    var isSharing: bool
    /** Everything asked of the browser so far, oldest first. */
    var effects: seq<Effect>
    /** The flags as they stood while the last handler awaited the export. */
    ghost var flagsWhileExporting: (bool, bool)

    constructor(job: Job, userEmail: string, recipientEmail: string,
                localeDate: string, isoTimestamp: string)
      requires IsTimeInputValue(job.timeIn) && IsTimeInputValue(job.timeOut)
      ensures this.job == job && this.userEmail == userEmail
      ensures this.recipientEmail == recipientEmail
      ensures this.localeDate == localeDate && this.isoTimestamp == isoTimestamp
      ensures !isDownloading && !isSharing && effects == []
      ensures textSummary == FormatJobAsText(job, localeDate)
    {
      this.job := job;
      this.userEmail := userEmail;
      this.recipientEmail := recipientEmail;
      this.localeDate := localeDate;
      this.isoTimestamp := isoTimestamp;
      isDownloading := false;
      isSharing := false;
      effects := [];
      flagsWhileExporting := (false, false);
      textSummary := FormatJobAsText(job, localeDate);
    }

    function DialogFileName(): string
    {
      FileName(job.clientName, isoTimestamp)
    }

    function IsLoading(): bool
      reads this
    {
      isDownloading || isSharing
    }

    /** `handleDownloadPdf`, whose button is disabled while the dialog is
        loading: busy downloading (and only that) while the export runs, a
        download of the file under the file name when there is one, idle
        afterwards. */
    method HandleDownloadPdf(cardMounted: bool, raster: Raster, pdfWritten: bool)
      requires !IsLoading()
      requires raster.Rendered? ==> raster.width > 0.0 && raster.height > 0.0
      modifies this`isDownloading, this`effects, this`flagsWhileExporting
      ensures flagsWhileExporting == (true, false)
      ensures !IsLoading()
      ensures var exported := cardMounted && raster.Rendered? && pdfWritten;
              && (exported ==> |effects| == |old(effects)| + 1
                               && effects[..|old(effects)|] == old(effects)
                               && effects[|old(effects)|].SaveFile?
                               && IsExportOf(effects[|old(effects)|].file, DialogFileName(), raster)
                               && effects[|old(effects)|].downloadName == DialogFileName())
              && (!exported ==> effects == old(effects))
    {
      isDownloading := true;
      flagsWhileExporting := (isDownloading, isSharing);
      var file := GeneratePdfAsFile(DialogFileName(), cardMounted, raster, pdfWritten);
      if file.Some? {
        effects := effects + [SaveFile(file.value, DialogFileName())];
      }
      isDownloading := false;
    }

    /** `handleShareWhatsApp`, whose button is disabled while the dialog is
        loading: busy sharing while the export runs; then the native share
        sheet when there is a file the browser can share, otherwise (also
        when the export failed) the WhatsApp link with the text summary. A
        rejected share is caught. */
    method HandleShareWhatsApp(cardMounted: bool, raster: Raster, pdfWritten: bool, canShareFile: bool)
      requires !IsLoading()
      requires raster.Rendered? ==> raster.width > 0.0 && raster.height > 0.0
      modifies this`isSharing, this`effects, this`flagsWhileExporting
      ensures flagsWhileExporting == (false, true)
      ensures !IsLoading()
      ensures |effects| == |old(effects)| + 1 && effects[..|old(effects)|] == old(effects)
      ensures var e := effects[|old(effects)|];
              var native := cardMounted && raster.Rendered? && pdfWritten && canShareFile;
              && (native ==> e.ShareFile? && IsExportOf(e.file, DialogFileName(), raster)
                             && e.title == ShareTitle && e.text == ShareText(job.clientName))
              && (!native ==> e == OpenWindow(WhatsAppUrl(textSummary), "_blank"))
    {
      isSharing := true;
      flagsWhileExporting := (isDownloading, isSharing);
      var file := GeneratePdfAsFile(DialogFileName(), cardMounted, raster, pdfWritten);
      if file.Some? && canShareFile {
        effects := effects + [ShareFile(file.value, ShareTitle, ShareText(job.clientName))];
      } else {
        var whatsappUrl := WhatsAppUrl(textSummary);
        effects := effects + [OpenWindow(whatsappUrl, "_blank")];
      }
      isSharing := false;
    }

    /** `handleSendEmail`, whose button is disabled while the dialog is
        loading: navigates to the mailto link; no busy flag. */
    method HandleSendEmail()
      requires !IsLoading()
      modifies this`effects
      ensures !IsLoading()
      ensures effects == old(effects) + [Navigate(MailtoUrl(recipientEmail, userEmail,
                                                   EmailSubject(job.clientName), textSummary))]
    {
      var subject := EmailSubject(job.clientName);
      effects := effects + [Navigate(MailtoUrl(recipientEmail, userEmail, subject, textSummary))];
    }
  }
}
