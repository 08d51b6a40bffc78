/**
 * The print exporter: it lays the collection out as print pages, two
 * pictures per page, reading the annotations straight from the state maps
 * and using each picture's data unresized.
 *
 * The HTML text the exporter writes is modelled as the sequence of page
 * containers it consists of, each container as the blocks inside it; the
 * style sheet, the print window and the print call are not part of this
 * model.
 */
module PdfGenerator {
  import opened Wrappers
  import opened JsText
  import opened AppState
  import opened FormText

  /** The checked glyph of this exporter. */
  const CheckedBox := '■'

  /** This exporter's `generateAccidentTagsText`. */
  function AccidentTagsText(tags: AccidentTags): string {
    TagsLine(tags, CheckedBox)
  }

  /** The state maps the exporter reads per image. */
  datatype SideMaps = SideMaps(
    descriptions: map<Id, string>,
    dates: map<Id, string>,
    addresses: map<Id, string>,
    tags: map<Id, AccidentTags>)

  /**
   * The date printed for an image: `customDate || (isAutoDate ? date ||
   * manualDate : manualDate)`.  It is empty only when every candidate it
   * may fall back to is empty, and a custom date always wins.
   */
  function ResolveDate(customDate: string, imageDate: string, isAutoDate: bool, manualDate: string): (r: string)
    ensures r == "" <==> customDate == "" && manualDate == "" && (isAutoDate ==> imageDate == "")
    ensures customDate != "" ==> r == customDate
    ensures customDate == "" && !isAutoDate ==> r == manualDate
    ensures customDate == "" && isAutoDate && imageDate != "" ==> r == imageDate
    ensures customDate == "" && isAutoDate && imageDate == "" ==> r == manualDate
  {
    OrElse(customDate, if isAutoDate then OrElse(imageDate, manualDate) else manualDate)
  }

  /**
   * The tables of a print page.  A traffic-accident table keeps the
   * checklist it prints; its description cell is that checklist's line,
   * DescriptionText.
   */
  datatype PrintTable =
    | CriminalTable(caseHeader: Option<(string, string)>, data: string, labelText: string,
                    date: string, photographer: string, address: string, description: string)
    | TrafficTable(data: string, date: string, number: string, checklist: AccidentTags)

  /** The description cell of a traffic-accident table: `generateAccidentTagsText` of its checklist. */
  function DescriptionText(t: PrintTable): string
    requires t.TrafficTable?
  {
    AccidentTagsText(t.checklist)
  }

  /** What a page container holds. */
  datatype PrintBlock = Heading(title: string) | Table(table: PrintTable) | Spacer

  /** One `page-container`. */
  datatype PrintPage = PageContainer(blocks: seq<PrintBlock>)

  /** The case-header row of the first table on a criminal-case page. */
  function CaseHeader(form: FormValues): (string, string) {
    (form.caseReason, form.caseUnit)
  }

  /** The criminal-case table of `img`, numbered `index`, with or without the case-header row. */
  function CriminalTableOf(img: ImageRecord, index: nat, header: Option<(string, string)>,
                           side: SideMaps, form: FormValues): (t: PrintTable)
    ensures t.CriminalTable? && t.caseHeader == header && t.data == img.data && t.labelText == Label(index)
    ensures t.address == (if Entry(side.addresses, img.id, "") != "" then side.addresses[img.id] else form.caseAddress)
    ensures t.description == Entry(side.descriptions, img.id, "") && t.photographer == form.caseNumber
  {
    CriminalTable(header, img.data, Label(index),
      ResolveDate(Entry(side.dates, img.id, ""), img.date, form.isAutoDate, form.caseDate),
      form.caseNumber,
      OrElse(Entry(side.addresses, img.id, ""), form.caseAddress),
      Entry(side.descriptions, img.id, ""))
  }

  /** The traffic-accident table of `img`, numbered `index`. */
  function TrafficTableOf(img: ImageRecord, index: nat, side: SideMaps, form: FormValues): (t: PrintTable)
    ensures t.TrafficTable? && t.data == img.data && t.number == NatToString(index)
    ensures t.checklist == Entry(side.tags, img.id, NoTags)
  {
    TrafficTable(img.data,
      ResolveDate(Entry(side.dates, img.id, ""), img.date, form.isAutoDate, form.caseDate),
      NatToString(index),
      Entry(side.tags, img.id, NoTags))
  }

  /**
   * Criminal-case page `p`: the title, picture 2p+1 under the case-header
   * row and, when it exists, a spacer and picture 2p+2 without that row.
   */
  function CriminalPage(title: string, images: seq<ImageRecord>, side: SideMaps, form: FormValues, p: nat): PrintPage
    requires 2 * p < |images|
  {
    PageContainer(
      [Heading(title), Table(CriminalTableOf(images[2 * p], 2 * p + 1, Some(CaseHeader(form)), side, form))]
      + (if 2 * p + 1 < |images|
         then [Spacer, Table(CriminalTableOf(images[2 * p + 1], 2 * p + 2, None, side, form))]
         else []))
  }

  /**
   * Traffic-accident page `p`: the title, picture 2p+1 and, when it exists,
   * a spacer and picture 2p+2.
   */
  function TrafficPage(title: string, images: seq<ImageRecord>, side: SideMaps, form: FormValues, p: nat): PrintPage
    requires 2 * p < |images|
  {
    PageContainer(
      [Heading(title), Table(TrafficTableOf(images[2 * p], 2 * p + 1, side, form))]
      + (if 2 * p + 1 < |images|
         then [Spacer, Table(TrafficTableOf(images[2 * p + 1], 2 * p + 2, side, form))]
         else []))
  }

  /** The criminal-case print pages of a collection: page p is CriminalPage(p), ceil(N/2) of them. */
  function CriminalContent(title: string, images: seq<ImageRecord>, side: SideMaps, form: FormValues): (r: seq<PrintPage>)
    ensures |r| == PageCount(|images|)
    ensures forall p :: 0 <= p < |r| ==> r[p] == CriminalPage(title, images, side, form, p)
  {
    seq(PageCount(|images|), p requires 0 <= p < PageCount(|images|) => CriminalPage(title, images, side, form, p))
  }

  /** The traffic-accident print pages of a collection: page p is TrafficPage(p), ceil(N/2) of them. */
  function TrafficContent(title: string, images: seq<ImageRecord>, side: SideMaps, form: FormValues): (r: seq<PrintPage>)
    ensures |r| == PageCount(|images|)
    ensures forall p :: 0 <= p < |r| ==> r[p] == TrafficPage(title, images, side, form, p)
  {
    seq(PageCount(|images|), p requires 0 <= p < PageCount(|images|) => TrafficPage(title, images, side, form, p))
  }

  /** The blocks of page `page` of `buildCriminalContent`: the title, the first table and, when a second picture exists, a spacer and its table. */
  method BuildCriminalPage(title: string, images: seq<ImageRecord>, side: SideMaps, form: FormValues, page: nat)
    returns (blocks: seq<PrintBlock>)
    requires 2 * page < |images|
    ensures PageContainer(blocks) == CriminalPage(title, images, side, form, page)
  {
    var startIdx := page * 2;
    blocks := [Heading(title)];
    var first := CriminalTableOf(images[startIdx], startIdx + 1, Some(CaseHeader(form)), side, form);
    blocks := blocks + [Table(first)];
    if startIdx + 1 < |images| {
      var second := CriminalTableOf(images[startIdx + 1], startIdx + 2, None, side, form);
      blocks := blocks + [Spacer, Table(second)];
    }
  }

  /** The blocks of page `page` of `buildTrafficAccidentContent`: the title, the first table and, when a second picture exists, a spacer and its table. */
  method BuildTrafficPage(title: string, images: seq<ImageRecord>, side: SideMaps, form: FormValues, page: nat)
    returns (blocks: seq<PrintBlock>)
    requires 2 * page < |images|
    ensures PageContainer(blocks) == TrafficPage(title, images, side, form, page)
  {
    var startIdx := page * 2;
    blocks := [Heading(title)];
    var first := TrafficTableOf(images[startIdx], startIdx + 1, side, form);
    blocks := blocks + [Table(first)];
    if startIdx + 1 < |images| {
      var second := TrafficTableOf(images[startIdx + 1], startIdx + 2, side, form);
      blocks := blocks + [Spacer, Table(second)];
    }
  }

  /** `buildCriminalContent`: one page per pair of pictures, in order. */
  method BuildCriminalContent(title: string, images: seq<ImageRecord>, side: SideMaps, form: FormValues)
    returns (content: seq<PrintPage>)
    ensures content == CriminalContent(title, images, side, form)
  {
    ghost var all := CriminalContent(title, images, side, form);
    content := [];
    var totalPages := (|images| + 1) / 2;
    var page := 0;
    while page < totalPages
      invariant 0 <= page <= totalPages
      invariant content == all[..page]
    {
      var blocks := BuildCriminalPage(title, images, side, form, page);
      assert all[..page + 1] == all[..page] + [all[page]];
      content := content + [PageContainer(blocks)];
      page := page + 1;
    }
    assert all[..page] == all;
  }

  /** `buildTrafficAccidentContent`: one page per pair of pictures, in order. */
  method BuildTrafficAccidentContent(title: string, images: seq<ImageRecord>, side: SideMaps, form: FormValues)
    returns (content: seq<PrintPage>)
    ensures content == TrafficContent(title, images, side, form)
  {
    ghost var all := TrafficContent(title, images, side, form);
    content := [];
    var totalPages := (|images| + 1) / 2;
    var page := 0;
    while page < totalPages
      invariant 0 <= page <= totalPages
      invariant content == all[..page]
    {
      var blocks := BuildTrafficPage(title, images, side, form, page);
      assert all[..page + 1] == all[..page] + [all[page]];
      content := content + [PageContainer(blocks)];
      page := page + 1;
    }
    assert all[..page] == all;
  }

  /**
   * Every criminal-case picture k is printed exactly where expected: on
   * page k/2, as that page's table k%2 (block 1 or 3, after the title and
   * after a spacer), numbered k+1, with the case-header row exactly when
   * it is the first of its page.  A page holds four blocks when its second
   * picture exists and two otherwise.
   */
  lemma CriminalPictureSlot(title: string, images: seq<ImageRecord>, side: SideMaps, form: FormValues, k: nat)
    requires k < |images|
    ensures k / 2 < PageCount(|images|)
    ensures var blocks := CriminalPage(title, images, side, form, k / 2).blocks;
            && |blocks| == (if 2 * (k / 2) + 1 < |images| then 4 else 2)
            && blocks[0] == Heading(title)
            && (|blocks| == 4 ==> blocks[2] == Spacer)
            && blocks[1 + 2 * (k % 2)]
               == Table(CriminalTableOf(images[k], k + 1, if k % 2 == 0 then Some(CaseHeader(form)) else None, side, form))
  {
    assert k == 2 * (k / 2) + k % 2;
  }

  /**
   * Every traffic-accident picture k is printed on page k/2, as that page's
   * table k%2, numbered k+1, with its own checklist line.
   */
  lemma TrafficPictureSlot(title: string, images: seq<ImageRecord>, side: SideMaps, form: FormValues, k: nat)
    requires k < |images|
    ensures k / 2 < PageCount(|images|)
    ensures var blocks := TrafficPage(title, images, side, form, k / 2).blocks;
            && |blocks| == (if 2 * (k / 2) + 1 < |images| then 4 else 2)
            && blocks[0] == Heading(title)
            && (|blocks| == 4 ==> blocks[2] == Spacer)
            && blocks[1 + 2 * (k % 2)] == Table(TrafficTableOf(images[k], k + 1, side, form))
  {
    assert k == 2 * (k / 2) + k % 2;
  }

  // ------------------------------------------------------------------ dispatch

  /** What a print request produces. */
  datatype PrintOutcome =
    | NoImages
    | PrintJob(title: string, pages: seq<PrintPage>)

  /** `FORMAT_TITLES[format]` written into a template: the title, or "undefined" for an unknown format. */
  function TitleText(format: string): string
  {
    if format in FormatTitles() then FormatTitles()[format] else "undefined"
  }

  /**
   * What a print request for a given state produces: nothing for an empty
   * collection; otherwise the title and the pages of the selected format,
   * and no pages at all for an unknown format.
   */
  function PrintSpec(format: string, images: seq<ImageRecord>, side: SideMaps, form: FormValues): (r: PrintOutcome)
    ensures r == NoImages <==> images == []
    ensures r.PrintJob? ==> r.title == TitleText(format)
    ensures r.PrintJob? && format in FormatTitles() ==> |r.pages| == PageCount(|images|)
    ensures r.PrintJob? && format !in FormatTitles() ==> r.pages == []
    ensures r.PrintJob? && format == Criminal ==> r.pages == CriminalContent(r.title, images, side, form)
    ensures r.PrintJob? && format == Traffic ==> r.pages == TrafficContent(r.title, images, side, form)
  {
    if images == [] then NoImages
    else
      var title := TitleText(format);
      if format == Criminal then PrintJob(title, CriminalContent(title, images, side, form))
      else if format == Traffic then PrintJob(title, TrafficContent(title, images, side, form))
      else PrintJob(title, [])
  }

  /** `handleGeneratePDF`: reads the state and the form and builds the print pages. */
  method HandleGeneratePDF(st: State, form: FormValues) returns (outcome: PrintOutcome)
    ensures outcome == PrintSpec(st.selectedFormat, st.selectedImages,
      SideMaps(st.imageDescriptions, st.imageDates, st.imageAddresses, st.imageAccidentTags), form)
  {
    if |st.selectedImages| == 0 {
      return NoImages;
    }
    var side := SideMaps(st.imageDescriptions, st.imageDates, st.imageAddresses, st.imageAccidentTags);
    var title := TitleText(st.selectedFormat);
    var pages: seq<PrintPage> := [];
    if st.selectedFormat == Criminal {
      pages := BuildCriminalContent(title, st.selectedImages, side, form);
    } else if st.selectedFormat == Traffic {
      pages := BuildTrafficAccidentContent(title, st.selectedImages, side, form);
    }
    outcome := PrintJob(title, pages);
  }
}
