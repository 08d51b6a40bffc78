/**
 * The Word exporter: the snapshot of the collection it works from, the
 * per-image display values (date, address, picture box, checklist line),
 * the block list of the two form layouts, the format dispatch, the file
 * name and the re-entry guard around a generation.
 *
 * A document is modelled as its header title and the abstract sequence of
 * body blocks; styles, margins, the footer and the packing into a file are
 * not part of this model.
 */
module DocxGenerator {
  import opened Wrappers
  import opened JsText
  import opened AppState
  import opened FormText
  import Utils

  /**
   * One image as the document sees it: the record with its data replaced by
   * the resized copy, and its annotations with a missing entry read as ""
   * (or as an empty checklist).
   */
  datatype DocImage = DocImage(
    image: ImageRecord,
    description: string,
    customDate: string,
    customAddress: string,
    accidentTags: AccidentTags)

  /** The snapshot of one record, given the data URL its resize produced. */
  function SnapshotImage(image: ImageRecord, resizedData: string,
                         descriptions: map<Id, string>, dates: map<Id, string>,
                         addresses: map<Id, string>, tags: map<Id, AccidentTags>): DocImage
  {
    DocImage(image.(data := resizedData),
      Entry(descriptions, image.id, ""),
      Entry(dates, image.id, ""),
      Entry(addresses, image.id, ""),
      Entry(tags, image.id, NoTags))
  }

  /**
   * The snapshot of the whole collection, in collection order.  Only the
   * data changes; id, name, size, dimensions and capture date are kept.
   */
  function Snapshot(images: seq<ImageRecord>, resized: seq<string>,
                    descriptions: map<Id, string>, dates: map<Id, string>,
                    addresses: map<Id, string>, tags: map<Id, AccidentTags>): (r: seq<DocImage>)
    requires |resized| == |images|
    ensures |r| == |images|
    ensures forall k :: 0 <= k < |r| ==> r[k].image == images[k].(data := resized[k])
    ensures forall k :: 0 <= k < |r| ==> r[k] == SnapshotImage(images[k], resized[k], descriptions, dates, addresses, tags)
  {
    seq(|images|, k requires 0 <= k < |images| =>
      SnapshotImage(images[k], resized[k], descriptions, dates, addresses, tags))
  }

  /**
   * On a consistent collection the checklist default is never used: every
   * snapshot carries the checklist stored for its image, and every stored
   * description, date or address reaches the snapshot unchanged.
   */
  lemma SnapshotKeepsAnnotations(images: seq<ImageRecord>, resized: seq<string>,
                                 descriptions: map<Id, string>, dates: map<Id, string>,
                                 addresses: map<Id, string>, tags: map<Id, AccidentTags>,
                                 rotations: map<Id, int>, k: nat)
    requires |resized| == |images| && k < |images|
    requires Consistent(images, descriptions, dates, addresses, tags, rotations)
    ensures var s := Snapshot(images, resized, descriptions, dates, addresses, tags)[k];
            && images[k].id in tags
            && s.accidentTags == tags[images[k].id]
            && (images[k].id in descriptions ==> s.description == descriptions[images[k].id])
            && (images[k].id in dates ==> s.customDate == dates[images[k].id])
            && (images[k].id in addresses ==> s.customAddress == addresses[images[k].id])
  {
    assert images[k].id in Ids(images);
  }

  // ---------------------------------------------------------------- checklist

  /** The checked glyph of this exporter. */
  const CheckedBox := '▓'

  /** This exporter's `generateAccidentTagsText`. */
  function AccidentTagsText(tags: AccidentTags): string {
    TagsLine(tags, CheckedBox)
  }

  // ------------------------------------------------------------ display values

  /**
   * The date shown for an image: its own custom date when set, else in auto
   * mode the capture date or, failing that, the manual date, and in manual
   * mode the manual date.
   */
  function DisplayDate(customDate: string, imageDate: string, isAutoDate: bool, manualDate: string): (r: string)
    ensures r == "" <==> customDate == "" && manualDate == "" && (isAutoDate ==> imageDate == "")
    ensures customDate != "" ==> r == customDate
    ensures customDate == "" && !isAutoDate ==> r == manualDate
    ensures customDate == "" && isAutoDate && imageDate != "" ==> r == imageDate
    ensures customDate == "" && isAutoDate && imageDate == "" ==> r == manualDate
  {
    if customDate != "" then customDate
    else if isAutoDate then OrElse(imageDate, manualDate)
    else manualDate
  }

  /** The address shown for a criminal-case image: its own, else the case address. */
  function DisplayAddress(customAddress: string, caseAddress: string): (r: string)
    ensures customAddress != "" ==> r == customAddress
    ensures customAddress == "" ==> r == caseAddress
  {
    OrElse(OrElse(customAddress, caseAddress), "")
  }

  /** The picture box's height before the width check. */
  const BoxHeight: real := 350.0
  /** The widest picture box. */
  const BoxWidth: real := 580.0

  /**
   * The picture box: 350 high and as wide as the aspect ratio asks, unless
   * that is at least 580 wide, in which case 580 wide and as high as the
   * ratio asks.  The box keeps the image's aspect ratio, fits 580 x 350,
   * and touches that bound on one side.
   */
  function DisplaySize(width: Pixels, height: Pixels): (r: (real, real))
    ensures 0.0 < r.0 <= BoxWidth && 0.0 < r.1 <= BoxHeight
    ensures r.0 * (height as real) == r.1 * (width as real)
    ensures r.0 == BoxWidth || r.1 == BoxHeight
  {
    var ratio := width as real / height as real;
    var w := BoxHeight * ratio;
    if w >= BoxWidth then
      WideBox(width as real, height as real);
      (BoxWidth, BoxWidth / ratio)
    else
      assert w * (height as real) == BoxHeight * (width as real);
      (w, BoxHeight)
  }

  /** The wide branch of DisplaySize keeps the ratio and fits the height. */
  lemma WideBox(w: real, h: real)
    requires w > 0.0 && h > 0.0 && BoxHeight * (w / h) >= BoxWidth
    ensures 0.0 < BoxWidth / (w / h) <= BoxHeight
    ensures BoxWidth * h == BoxWidth / (w / h) * w
  {
    var ratio := w / h;
    assert ratio * h == w;
    var h' := BoxWidth / ratio;
    assert h' * ratio == BoxWidth;
    assert h' * w == h' * ratio * h;
  }

  // -------------------------------------------------------------------- blocks

  /**
   * The body blocks of a document.  A traffic-accident table keeps the
   * checklist it shows; its description cell is that checklist's line,
   * DescriptionText.
   */
  datatype DocBlock =
    | HeaderTable(caseReason: string, caseUnit: string)
    | ImageTable(data: string, width: real, height: real, labelText: string,
                 date: string, photographer: string, address: string, description: string)
    | TrafficTable(data: string, width: real, height: real, date: string,
                   number: string, checklist: AccidentTags)
    | BlankParagraph
    | PageBreak

  /** The description cell of a traffic-accident table: `generateAccidentTagsText` of its checklist. */
  function DescriptionText(b: DocBlock): string
    requires b.TrafficTable?
  {
    AccidentTagsText(b.checklist)
  }

  /** A document: the title in the page header and the body blocks. */
  datatype Document = Document(title: string, children: seq<DocBlock>)

  /** The case-header table opening every criminal-case page. */
  function HeaderOf(form: FormValues): DocBlock {
    HeaderTable(OrElse(form.caseReason, ""), OrElse(form.caseUnit, ""))
  }

  /** `createImageTable`: the picture table of one criminal-case image, then a blank paragraph. */
  function CreateImageTable(img: DocImage, index: nat, form: FormValues): (r: seq<DocBlock>)
    ensures |r| == 2 && r[1] == BlankParagraph
    ensures r[0].ImageTable? && r[0].labelText == Label(index) && r[0].data == img.image.data
    ensures r[0].width <= BoxWidth && r[0].height <= BoxHeight
    ensures (r[0].width, r[0].height) == DisplaySize(img.image.width, img.image.height)
    ensures r[0].date == DisplayDate(img.customDate, img.image.date, form.isAutoDate, form.caseDate)
    ensures r[0].address == DisplayAddress(img.customAddress, form.caseAddress)
    ensures r[0].photographer == OrElse(form.caseNumber, "") && r[0].description == OrElse(img.description, "")
  {
    var size := DisplaySize(img.image.width, img.image.height);
    [ ImageTable(img.image.data, size.0, size.1, Label(index),
        DisplayDate(img.customDate, img.image.date, form.isAutoDate, form.caseDate),
        OrElse(form.caseNumber, ""),
        DisplayAddress(img.customAddress, form.caseAddress),
        OrElse(img.description, "")),
      BlankParagraph ]
  }

  /** `createTrafficAccidentImageTable`: the picture table of one traffic-accident image. */
  function TrafficImageTable(img: DocImage, index: nat, form: FormValues): (b: DocBlock)
    ensures b.TrafficTable? && b.number == NatToString(index) && b.data == img.image.data
    ensures b.width <= BoxWidth && b.height <= BoxHeight
    ensures (b.width, b.height) == DisplaySize(img.image.width, img.image.height)
    ensures b.date == DisplayDate(img.customDate, img.image.date, form.isAutoDate, form.caseDate)
    ensures b.checklist == img.accidentTags
  {
    var size := DisplaySize(img.image.width, img.image.height);
    TrafficTable(img.image.data, size.0, size.1,
      DisplayDate(img.customDate, img.image.date, form.isAutoDate, form.caseDate),
      NatToString(index), img.accidentTags)
  }

  // ------------------------------------------------------- criminal-case layout

  /** The picture tables of a criminal-case body, picture k numbered k+1. */
  function PictureTables(images: seq<DocImage>, form: FormValues): (ts: seq<seq<DocBlock>>)
    ensures |ts| == |images|
    ensures forall k :: 0 <= k < |ts| ==> ts[k] == CreateImageTable(images[k], k + 1, form)
    ensures PlainTables(ts, HeaderOf(form))
  {
    seq(|images|, k requires 0 <= k < |images| => CreateImageTable(images[k], k + 1, form))
  }

  /** No picture table holds the header or a page break. */
  predicate PlainTables(ts: seq<seq<DocBlock>>, header: DocBlock) {
    forall k :: 0 <= k < |ts| ==> PageBreak !in ts[k] && header !in ts[k]
  }

  /** The criminal-case blocks from pair start `i` on, given the picture tables. */
  function CriminalFrom(header: DocBlock, ts: seq<seq<DocBlock>>, i: nat): seq<DocBlock>
    decreases |ts| - i
  {
    if i >= |ts| then []
    else
      [header] + ts[i]
      + (if i + 1 < |ts| then ts[i + 1] else [])
      + (if i + 2 < |ts| then [PageBreak] else [])
      + CriminalFrom(header, ts, i + 2)
  }

  /** The whole criminal-case body. */
  function CriminalLayout(images: seq<DocImage>, form: FormValues): seq<DocBlock> {
    CriminalFrom(HeaderOf(form), PictureTables(images, form), 0)
  }

  /** `createImageTables`: pairs of pictures, each pair under a header, pairs separated by page breaks. */
  method CreateImageTables(images: seq<DocImage>, form: FormValues) returns (tables: seq<DocBlock>)
    ensures tables == CriminalLayout(images, form)
  {
    ghost var ts := PictureTables(images, form);
    tables := [];
    var i := 0;
    while i < |images|
      invariant 0 <= i <= |images| + 1
      invariant tables + CriminalFrom(HeaderOf(form), ts, i) == CriminalFrom(HeaderOf(form), ts, 0)
    {
      var step := [HeaderOf(form)] + CreateImageTable(images[i], i + 1, form);
      if i + 1 < |images| {
        step := step + CreateImageTable(images[i + 1], i + 2, form);
      }
      if i + 2 < |images| {
        step := step + [PageBreak];
      }
      CriminalLoopStep(HeaderOf(form), ts, i, tables, step);
      tables := tables + step;
      i := i + 2;
    }
  }

  /** One round of the criminal-case loop keeps its invariant. */
  lemma CriminalLoopStep(header: DocBlock, ts: seq<seq<DocBlock>>, i: nat, tables: seq<DocBlock>, step: seq<DocBlock>)
    requires i < |ts| && tables + CriminalFrom(header, ts, i) == CriminalFrom(header, ts, 0)
    requires step == [header] + ts[i] + (if i + 1 < |ts| then ts[i + 1] else [])
                     + (if i + 2 < |ts| then [PageBreak] else [])
    ensures (tables + step) + CriminalFrom(header, ts, i + 2) == CriminalFrom(header, ts, 0)
  {
    var rest := CriminalFrom(header, ts, i + 2);
    assert CriminalFrom(header, ts, i) == step + rest;
    assert (tables + step) + rest == tables + (step + rest);
  }

  /** Page `q` cut from the picture tables: the header and the pair's tables. */
  function CriminalPageOf(header: DocBlock, ts: seq<seq<DocBlock>>, q: nat): seq<DocBlock>
    requires 2 * q < |ts|
  {
    [header] + ts[2 * q] + (if 2 * q + 1 < |ts| then ts[2 * q + 1] else [])
  }

  /** One pair of CriminalFrom is one page, then a page break and the rest when more pictures follow. */
  lemma CriminalFromStep(header: DocBlock, ts: seq<seq<DocBlock>>, q: nat)
    requires 2 * q < |ts|
    ensures 2 * q + 2 < |ts| ==>
      CriminalFrom(header, ts, 2 * q) == CriminalPageOf(header, ts, q) + [PageBreak] + CriminalFrom(header, ts, 2 * (q + 1))
    ensures 2 * q + 2 >= |ts| ==> CriminalFrom(header, ts, 2 * q) == CriminalPageOf(header, ts, q)
  {
    var page := CriminalPageOf(header, ts, q);
    var rest := CriminalFrom(header, ts, 2 * q + 2);
    var brk := if 2 * q + 2 < |ts| then [PageBreak] else [];
    assert CriminalFrom(header, ts, 2 * q) == page + brk + rest;
    if 2 * q + 2 >= |ts| {
      assert rest == [] && brk == [];
    }
    assert 2 * (q + 1) == 2 * q + 2;
  }

  /** A criminal-case page holds no page break. */
  lemma CriminalPageHasNoBreak(header: DocBlock, ts: seq<seq<DocBlock>>, q: nat)
    requires 2 * q < |ts| && header.HeaderTable? && PlainTables(ts, header)
    ensures PageBreak !in CriminalPageOf(header, ts, q)
  {
    var second := if 2 * q + 1 < |ts| then ts[2 * q + 1] else [];
    assert PageBreak !in ts[2 * q] && PageBreak !in second;
  }

  /** Each criminal-case page holds exactly one header table. */
  lemma CriminalPageHeaders(header: DocBlock, ts: seq<seq<DocBlock>>, q: nat)
    requires 2 * q < |ts| && PlainTables(ts, header)
    ensures Count(CriminalPageOf(header, ts, q), header) == 1
  {
    var second := if 2 * q + 1 < |ts| then ts[2 * q + 1] else [];
    assert header !in ts[2 * q] && header !in second;
    CountZero(ts[2 * q], header);
    CountZero(second, header);
    CountConcat([header], ts[2 * q], header);
    CountConcat([header] + ts[2 * q], second, header);
  }

  /** `pages` are the criminal-case pages from page `q` on, one per pair of pictures. */
  predicate CriminalPagesAre(header: DocBlock, ts: seq<seq<DocBlock>>, q: nat, pages: seq<seq<DocBlock>>) {
    && |pages| == PageCount(|ts|) - q
    && forall p :: 0 <= p < |pages| ==> 2 * (q + p) < |ts| && pages[p] == CriminalPageOf(header, ts, q + p)
  }

  /** Cutting the body from page `q` on at its page breaks gives the pages from `q` on. */
  lemma {:induction false} CriminalPagesFrom(header: DocBlock, ts: seq<seq<DocBlock>>, q: nat)
    requires 2 * q < |ts| && header.HeaderTable? && PlainTables(ts, header)
    ensures CriminalPagesAre(header, ts, q, Split(CriminalFrom(header, ts, 2 * q), PageBreak))
    decreases |ts| - 2 * q
  {
    if 2 * q + 2 < |ts| {
      CriminalPagesFrom(header, ts, q + 1);
      CriminalPagesStep(header, ts, q);
    } else {
      CriminalPageSplit(header, ts, q);
      CriminalLastPage(header, ts, q);
    }
  }

  /** The pages from `q + 1` on, with page `q` in front, are the pages from `q` on. */
  lemma CriminalPagesStep(header: DocBlock, ts: seq<seq<DocBlock>>, q: nat)
    requires 2 * q + 2 < |ts| && header.HeaderTable? && PlainTables(ts, header)
    requires CriminalPagesAre(header, ts, q + 1, Split(CriminalFrom(header, ts, 2 * (q + 1)), PageBreak))
    ensures CriminalPagesAre(header, ts, q, Split(CriminalFrom(header, ts, 2 * q), PageBreak))
  {
    CriminalPageSplit(header, ts, q);
    CriminalPagesShift(header, ts, q, Split(CriminalFrom(header, ts, 2 * q), PageBreak), Split(CriminalFrom(header, ts, 2 * (q + 1)), PageBreak));
  }

  /** When page `q` is the last, it alone is the pages from `q` on. */
  lemma CriminalLastPage(header: DocBlock, ts: seq<seq<DocBlock>>, q: nat)
    requires 2 * q < |ts| <= 2 * q + 2
    ensures CriminalPagesAre(header, ts, q, [CriminalPageOf(header, ts, q)])
  {
    assert PageCount(|ts|) == q + 1;
  }

  /** Page `q` in front of the pages from `q + 1` on gives the pages from `q` on. */
  lemma CriminalPagesShift(header: DocBlock, ts: seq<seq<DocBlock>>, q: nat, pages: seq<seq<DocBlock>>, rest: seq<seq<DocBlock>>)
    requires 2 * q + 2 < |ts| && pages == [CriminalPageOf(header, ts, q)] + rest
    requires CriminalPagesAre(header, ts, q + 1, rest)
    ensures CriminalPagesAre(header, ts, q, pages)
  {
    forall p | 0 < p < |pages|
      ensures 2 * (q + p) < |ts| && pages[p] == CriminalPageOf(header, ts, q + p)
    {
      var k := p - 1;
      assert pages[p] == rest[k];
      assert q + 1 + k == q + p;
    }
  }

  /** Cutting the body from page `q` on at its first page break: page `q`, then the cuts of the rest. */
  lemma CriminalPageSplit(header: DocBlock, ts: seq<seq<DocBlock>>, q: nat)
    requires 2 * q < |ts| && header.HeaderTable? && PlainTables(ts, header)
    ensures 2 * q + 2 < |ts| ==>
      Split(CriminalFrom(header, ts, 2 * q), PageBreak)
      == [CriminalPageOf(header, ts, q)] + Split(CriminalFrom(header, ts, 2 * (q + 1)), PageBreak)
    ensures 2 * q + 2 >= |ts| ==> Split(CriminalFrom(header, ts, 2 * q), PageBreak) == [CriminalPageOf(header, ts, q)]
  {
    var page := CriminalPageOf(header, ts, q);
    CriminalFromStep(header, ts, q);
    CriminalPageHasNoBreak(header, ts, q);
    SplitNoSeparator(page, PageBreak);
    if 2 * q + 2 < |ts| {
      SplitAround(page, PageBreak, CriminalFrom(header, ts, 2 * (q + 1)));
    }
  }

  /**
   * Page `p` of the criminal-case body: the header, picture 2p+1 and, when
   * it exists, picture 2p+2, each followed by a blank paragraph.
   */
  function CriminalPage(images: seq<DocImage>, form: FormValues, p: nat): seq<DocBlock>
    requires 2 * p < |images|
  {
    [HeaderOf(form)]
    + CreateImageTable(images[2 * p], 2 * p + 1, form)
    + (if 2 * p + 1 < |images| then CreateImageTable(images[2 * p + 1], 2 * p + 2, form) else [])
  }

  /**
   * Cutting the criminal-case body at its page breaks gives exactly the
   * ceil(N/2) pages, page p holding pictures 2p+1 and 2p+2 with those
   * numbers in their labels.
   */
  lemma CriminalPages(images: seq<DocImage>, form: FormValues)
    requires |images| >= 1
    ensures var pages := Split(CriminalLayout(images, form), PageBreak);
            && |pages| == PageCount(|images|)
            && forall p :: 0 <= p < |pages| ==> pages[p] == CriminalPage(images, form, p)
  {
    var ts := PictureTables(images, form);
    CriminalPagesFrom(HeaderOf(form), ts, 0);
    forall p | 0 <= p < PageCount(|images|)
      ensures Split(CriminalFrom(HeaderOf(form), ts, 0), PageBreak)[p] == CriminalPage(images, form, p)
    {
      CriminalPageIsPageOf(images, form, p);
    }
  }

  /** The page cut from the picture tables is the page of pictures 2p+1 and 2p+2. */
  lemma CriminalPageIsPageOf(images: seq<DocImage>, form: FormValues, p: nat)
    requires 2 * p < |images|
    ensures CriminalPageOf(HeaderOf(form), PictureTables(images, form), p) == CriminalPage(images, form, p)
  {
    var ts := PictureTables(images, form);
    assert ts[2 * p] == CreateImageTable(images[2 * p], 2 * p + 1, form);
    if 2 * p + 1 < |images| {
      assert ts[2 * p + 1] == CreateImageTable(images[2 * p + 1], 2 * p + 2, form);
    }
  }

  /**
   * Picture k sits on criminal-case page k/2 as block 1 + 2(k%2), right
   * after the header or after the first picture's blank paragraph; a page
   * has five blocks when its second picture exists and three otherwise.
   */
  lemma CriminalPictureSlot(images: seq<DocImage>, form: FormValues, k: nat)
    requires k < |images|
    ensures 2 * (k / 2) < |images|
    ensures var page := CriminalPage(images, form, k / 2);
            && |page| == (if 2 * (k / 2) + 1 < |images| then 5 else 3)
            && page[0] == HeaderOf(form)
            && page[1 + 2 * (k % 2)] == CreateImageTable(images[k], k + 1, form)[0]
  {
    assert k == 2 * (k / 2) + k % 2;
  }

  /**
   * The criminal-case body of N >= 1 pictures holds ceil(N/2) header tables
   * and ceil(N/2) - 1 page breaks.
   */
  lemma CriminalCounts(images: seq<DocImage>, form: FormValues)
    requires |images| >= 1
    ensures Count(CriminalLayout(images, form), HeaderOf(form)) == PageCount(|images|)
    ensures Count(CriminalLayout(images, form), PageBreak) == PageCount(|images|) - 1
  {
    CriminalHeadersFrom(HeaderOf(form), PictureTables(images, form), 0);
    CriminalPages(images, form);
    SplitCountsSeparators(CriminalLayout(images, form), PageBreak);
  }

  lemma {:induction false} CriminalHeadersFrom(header: DocBlock, ts: seq<seq<DocBlock>>, q: nat)
    requires 2 * q < |ts| && header.HeaderTable? && PlainTables(ts, header)
    ensures Count(CriminalFrom(header, ts, 2 * q), header) == PageCount(|ts|) - q
    decreases |ts| - 2 * q
  {
    if 2 * q + 2 < |ts| {
      CriminalHeadersFrom(header, ts, q + 1);
      CriminalHeadersStep(header, ts, q);
    } else {
      CriminalHeadersLast(header, ts, q);
    }
  }

  /** The last page holds one header. */
  lemma CriminalHeadersLast(header: DocBlock, ts: seq<seq<DocBlock>>, q: nat)
    requires 2 * q < |ts| <= 2 * q + 2 && header.HeaderTable? && PlainTables(ts, header)
    ensures Count(CriminalFrom(header, ts, 2 * q), header) == PageCount(|ts|) - q
  {
    CriminalPageHeaders(header, ts, q);
    CriminalFromStep(header, ts, q);
    assert PageCount(|ts|) == q + 1;
  }

  /** Page `q` adds one header to those of the pages after it. */
  lemma CriminalHeadersStep(header: DocBlock, ts: seq<seq<DocBlock>>, q: nat)
    requires 2 * q + 2 < |ts| && header.HeaderTable? && PlainTables(ts, header)
    ensures Count(CriminalFrom(header, ts, 2 * q), header) == 1 + Count(CriminalFrom(header, ts, 2 * (q + 1)), header)
  {
    var page := CriminalPageOf(header, ts, q);
    var rest := CriminalFrom(header, ts, 2 * (q + 1));
    CriminalPageHeaders(header, ts, q);
    CriminalFromStep(header, ts, q);
    CountConcat(page + [PageBreak], rest, header);
    CountConcat(page, [PageBreak], header);
  }



  // ------------------------------------------------------ traffic-accident layout

  /** The traffic-accident picture tables, picture k numbered k+1. */
  function TrafficTables(images: seq<DocImage>, form: FormValues): (ts: seq<DocBlock>)
    ensures |ts| == |images|
    ensures forall k :: 0 <= k < |ts| ==> ts[k] == TrafficImageTable(images[k], k + 1, form)
    ensures TrafficOnly(ts)
  {
    seq(|images|, k requires 0 <= k < |images| => TrafficImageTable(images[k], k + 1, form))
  }

  /** Every block of `ts` is a picture table. */
  predicate TrafficOnly(ts: seq<DocBlock>) {
    forall k :: 0 <= k < |ts| ==> ts[k].TrafficTable?
  }

  /** The traffic-accident blocks from picture `i` on, given the picture tables. */
  function TrafficFrom(ts: seq<DocBlock>, i: nat): seq<DocBlock>
    decreases |ts| - i
  {
    if i >= |ts| then [] else [ts[i]] + TrafficSeparators(|ts|, i) + TrafficFrom(ts, i + 1)
  }

  /**
   * What follows picture `i` of `n`: a blank paragraph unless it is the last,
   * then a page break when it is the second of its page and not the last.
   */
  function TrafficSeparators(n: nat, i: nat): seq<DocBlock> {
    (if i < n - 1 then [BlankParagraph] else [])
    + (if (i + 1) % 2 == 0 && i + 1 < n then [PageBreak] else [])
  }

  /** One blank paragraph follows every picture but the last. */
  lemma SeparatorBlanks(n: nat, i: nat)
    ensures Count(TrafficSeparators(n, i), BlankParagraph) == if i < n - 1 then 1 else 0
  {
    var blank := if i < n - 1 then [BlankParagraph] else [];
    var pageBreak := if (i + 1) % 2 == 0 && i + 1 < n then [PageBreak] else [];
    CountConcat(blank, pageBreak, BlankParagraph);
  }

  /** The separators after the first, second and last picture of a page. */
  lemma SeparatorsByPosition(n: nat, q: nat)
    ensures 2 * q + 1 < n ==> TrafficSeparators(n, 2 * q) == [BlankParagraph]
    ensures 2 * q + 2 < n ==> TrafficSeparators(n, 2 * q + 1) == [BlankParagraph, PageBreak]
    ensures 2 * q + 2 == n ==> TrafficSeparators(n, 2 * q + 1) == []
    ensures 2 * q + 1 == n ==> TrafficSeparators(n, 2 * q) == []
  {
    assert (2 * q + 1) % 2 == 1 && (2 * q + 2) % 2 == 0;
  }

  /** The whole traffic-accident body. */
  function TrafficLayout(images: seq<DocImage>, form: FormValues): seq<DocBlock> {
    TrafficFrom(TrafficTables(images, form), 0)
  }

  /**
   * `createTrafficAccidentContent`: every picture numbered in order, a blank
   * paragraph after all but the last, a page break after every second one
   * that is not the last.
   */
  method CreateTrafficAccidentContent(images: seq<DocImage>, form: FormValues) returns (tables: seq<DocBlock>)
    ensures tables == TrafficLayout(images, form)
  {
    ghost var ts := TrafficTables(images, form);
    tables := [];
    var i := 0;
    while i < |images|
      invariant 0 <= i <= |images|
      invariant tables + TrafficFrom(ts, i) == TrafficFrom(ts, 0)
    {
      var step := [TrafficImageTable(images[i], i + 1, form)];
      if i < |images| - 1 {
        step := step + [BlankParagraph];
      }
      if (i + 1) % 2 == 0 && i + 1 < |images| {
        step := step + [PageBreak];
      }
      TrafficLoopStep(ts, i, tables, step);
      tables := tables + step;
      i := i + 1;
    }
  }

  /** One unfolding of TrafficFrom. */
  lemma TrafficFromStep(ts: seq<DocBlock>, i: nat)
    requires i < |ts|
    ensures TrafficFrom(ts, i) == [ts[i]] + TrafficSeparators(|ts|, i) + TrafficFrom(ts, i + 1)
  {
  }

  /** One round of the traffic-accident loop keeps its invariant. */
  lemma TrafficLoopStep(ts: seq<DocBlock>, i: nat, tables: seq<DocBlock>, step: seq<DocBlock>)
    requires i < |ts| && tables + TrafficFrom(ts, i) == TrafficFrom(ts, 0)
    requires step == [ts[i]] + (if i < |ts| - 1 then [BlankParagraph] else [])
                     + (if (i + 1) % 2 == 0 && i + 1 < |ts| then [PageBreak] else [])
    ensures (tables + step) + TrafficFrom(ts, i + 1) == TrafficFrom(ts, 0)
  {
    TrafficFromStep(ts, i);
  }

  /** Page `q` cut from the picture tables. */
  function TrafficPageOf(ts: seq<DocBlock>, q: nat): seq<DocBlock>
    requires 2 * q < |ts|
  {
    if 2 * q + 2 < |ts| then [ts[2 * q], BlankParagraph, ts[2 * q + 1], BlankParagraph]
    else if 2 * q + 1 < |ts| then [ts[2 * q], BlankParagraph, ts[2 * q + 1]]
    else [ts[2 * q]]
  }

  /** Two steps of TrafficFrom from an even start make one page. */
  lemma TrafficPageStep(ts: seq<DocBlock>, q: nat)
    requires 2 * q < |ts|
    ensures 2 * q + 2 < |ts| ==>
      TrafficFrom(ts, 2 * q) == TrafficPageOf(ts, q) + [PageBreak] + TrafficFrom(ts, 2 * q + 2)
    ensures 2 * q + 2 >= |ts| ==> TrafficFrom(ts, 2 * q) == TrafficPageOf(ts, q)
  {
    if 2 * q + 2 < |ts| {
      TrafficFullPage(ts, q);
    } else if 2 * q + 1 < |ts| {
      TrafficLastPair(ts, q);
    } else {
      TrafficLastSingle(ts, q);
    }
  }

  /** A page followed by another: two pictures, each with its blank paragraph, then a page break. */
  lemma TrafficFullPage(ts: seq<DocBlock>, q: nat)
    requires 2 * q + 2 < |ts|
    ensures TrafficFrom(ts, 2 * q) == TrafficPageOf(ts, q) + [PageBreak] + TrafficFrom(ts, 2 * q + 2)
  {
    var rest := TrafficFrom(ts, 2 * q + 2);
    SeparatorsByPosition(|ts|, q);
    TrafficFromStep(ts, 2 * q + 1);
    assert TrafficFrom(ts, 2 * q + 1) == [ts[2 * q + 1], BlankParagraph, PageBreak] + rest;
    TrafficFromStep(ts, 2 * q);
    assert TrafficFrom(ts, 2 * q) == [ts[2 * q], BlankParagraph] + TrafficFrom(ts, 2 * q + 1);
    assert TrafficPageOf(ts, q) == [ts[2 * q], BlankParagraph, ts[2 * q + 1], BlankParagraph];
  }

  /** The last page with two pictures: a blank paragraph between them and nothing after. */
  lemma TrafficLastPair(ts: seq<DocBlock>, q: nat)
    requires 2 * q + 2 == |ts|
    ensures TrafficFrom(ts, 2 * q) == TrafficPageOf(ts, q)
  {
    SeparatorsByPosition(|ts|, q);
    TrafficFromStep(ts, 2 * q + 1);
    assert TrafficFrom(ts, 2 * q + 1) == [ts[2 * q + 1]];
    TrafficFromStep(ts, 2 * q);
    assert TrafficFrom(ts, 2 * q) == [ts[2 * q], BlankParagraph] + TrafficFrom(ts, 2 * q + 1);
  }

  /** The last page with one picture: that picture alone. */
  lemma TrafficLastSingle(ts: seq<DocBlock>, q: nat)
    requires 2 * q + 1 == |ts|
    ensures TrafficFrom(ts, 2 * q) == TrafficPageOf(ts, q)
  {
    SeparatorsByPosition(|ts|, q);
    TrafficFromStep(ts, 2 * q);
  }

  lemma TrafficPageHasNoBreak(ts: seq<DocBlock>, q: nat)
    requires 2 * q < |ts| && TrafficOnly(ts)
    ensures PageBreak !in TrafficPageOf(ts, q)
  {
    assert ts[2 * q].TrafficTable?;
    if 2 * q + 1 < |ts| {
      assert ts[2 * q + 1].TrafficTable?;
    }
  }

  /** `pages` are the traffic-accident pages from page `q` on, one per pair of pictures. */
  predicate TrafficPagesAre(ts: seq<DocBlock>, q: nat, pages: seq<seq<DocBlock>>) {
    && |pages| == PageCount(|ts|) - q
    && forall p :: 0 <= p < |pages| ==> 2 * (q + p) < |ts| && pages[p] == TrafficPageOf(ts, q + p)
  }

  /** Cutting the body from page `q` on at its page breaks gives the pages from `q` on. */
  lemma {:induction false} TrafficPagesFrom(ts: seq<DocBlock>, q: nat)
    requires 2 * q < |ts| && TrafficOnly(ts)
    ensures TrafficPagesAre(ts, q, Split(TrafficFrom(ts, 2 * q), PageBreak))
    decreases |ts| - 2 * q
  {
    if 2 * q + 2 < |ts| {
      TrafficPagesFrom(ts, q + 1);
      TrafficPagesStep(ts, q);
    } else {
      TrafficPageSplit(ts, q);
      TrafficLastPage(ts, q);
    }
  }

  /** The pages from `q + 1` on, with page `q` in front, are the pages from `q` on. */
  lemma TrafficPagesStep(ts: seq<DocBlock>, q: nat)
    requires 2 * q + 2 < |ts| && TrafficOnly(ts)
    requires TrafficPagesAre(ts, q + 1, Split(TrafficFrom(ts, 2 * (q + 1)), PageBreak))
    ensures TrafficPagesAre(ts, q, Split(TrafficFrom(ts, 2 * q), PageBreak))
  {
    TrafficPageSplit(ts, q);
    TrafficPagesShift(ts, q, Split(TrafficFrom(ts, 2 * q), PageBreak), Split(TrafficFrom(ts, 2 * (q + 1)), PageBreak));
  }

  /** When page `q` is the last, it alone is the pages from `q` on. */
  lemma TrafficLastPage(ts: seq<DocBlock>, q: nat)
    requires 2 * q < |ts| <= 2 * q + 2
    ensures TrafficPagesAre(ts, q, [TrafficPageOf(ts, q)])
  {
    assert PageCount(|ts|) == q + 1;
  }

  /** Page `q` in front of the pages from `q + 1` on gives the pages from `q` on. */
  lemma TrafficPagesShift(ts: seq<DocBlock>, q: nat, pages: seq<seq<DocBlock>>, rest: seq<seq<DocBlock>>)
    requires 2 * q + 2 < |ts| && pages == [TrafficPageOf(ts, q)] + rest
    requires TrafficPagesAre(ts, q + 1, rest)
    ensures TrafficPagesAre(ts, q, pages)
  {
    forall p | 0 < p < |pages|
      ensures 2 * (q + p) < |ts| && pages[p] == TrafficPageOf(ts, q + p)
    {
      var k := p - 1;
      assert pages[p] == rest[k];
      assert q + 1 + k == q + p;
    }
  }

  /** Cutting the body from page `q` on at its first page break: page `q`, then the cuts of the rest. */
  lemma TrafficPageSplit(ts: seq<DocBlock>, q: nat)
    requires 2 * q < |ts| && TrafficOnly(ts)
    ensures 2 * q + 2 < |ts| ==>
      Split(TrafficFrom(ts, 2 * q), PageBreak) == [TrafficPageOf(ts, q)] + Split(TrafficFrom(ts, 2 * (q + 1)), PageBreak)
    ensures 2 * q + 2 >= |ts| ==> Split(TrafficFrom(ts, 2 * q), PageBreak) == [TrafficPageOf(ts, q)]
  {
    var page := TrafficPageOf(ts, q);
    TrafficPageStep(ts, q);
    TrafficPageHasNoBreak(ts, q);
    SplitNoSeparator(page, PageBreak);
    if 2 * q + 2 < |ts| {
      assert 2 * (q + 1) == 2 * q + 2;
      SplitAround(page, PageBreak, TrafficFrom(ts, 2 * q + 2));
    }
  }

  /**
   * Page `p` of the traffic-accident body: picture 2p+1 and, when it exists,
   * a blank paragraph and picture 2p+2, then one more blank paragraph when
   * a page follows.
   */
  function TrafficPage(images: seq<DocImage>, form: FormValues, p: nat): seq<DocBlock>
    requires 2 * p < |images|
  {
    var first := TrafficImageTable(images[2 * p], 2 * p + 1, form);
    if 2 * p + 2 < |images| then
      [first, BlankParagraph, TrafficImageTable(images[2 * p + 1], 2 * p + 2, form), BlankParagraph]
    else if 2 * p + 1 < |images| then
      [first, BlankParagraph, TrafficImageTable(images[2 * p + 1], 2 * p + 2, form)]
    else [first]
  }

  /**
   * Cutting the traffic-accident body at its page breaks gives the ceil(N/2)
   * pages, page p holding pictures 2p+1 and 2p+2 with those numbers.
   */
  lemma TrafficPages(images: seq<DocImage>, form: FormValues)
    requires |images| >= 1
    ensures var pages := Split(TrafficLayout(images, form), PageBreak);
            && |pages| == PageCount(|images|)
            && forall p :: 0 <= p < |pages| ==> pages[p] == TrafficPage(images, form, p)
  {
    var ts := TrafficTables(images, form);
    TrafficPagesFrom(ts, 0);
    forall p | 0 <= p < PageCount(|images|)
      ensures Split(TrafficFrom(ts, 0), PageBreak)[p] == TrafficPage(images, form, p)
    {
      TrafficPageIsPageOf(images, form, p);
    }
  }

  /** The page cut from the picture tables is the page of pictures 2p+1 and 2p+2. */
  lemma TrafficPageIsPageOf(images: seq<DocImage>, form: FormValues, p: nat)
    requires 2 * p < |images|
    ensures TrafficPageOf(TrafficTables(images, form), p) == TrafficPage(images, form, p)
  {
    var ts := TrafficTables(images, form);
    assert ts[2 * p] == TrafficImageTable(images[2 * p], 2 * p + 1, form);
    if 2 * p + 1 < |images| {
      assert ts[2 * p + 1] == TrafficImageTable(images[2 * p + 1], 2 * p + 2, form);
    }
  }

  /**
   * Picture k sits on traffic-accident page k/2 as block 2(k%2); a page has
   * four blocks when a page follows it, three when it is the last and holds
   * two pictures, one otherwise.
   */
  lemma TrafficPictureSlot(images: seq<DocImage>, form: FormValues, k: nat)
    requires k < |images|
    ensures 2 * (k / 2) < |images|
    ensures var page := TrafficPage(images, form, k / 2);
            && |page| == (if 2 * (k / 2) + 2 < |images| then 4 else if 2 * (k / 2) + 1 < |images| then 3 else 1)
            && page[2 * (k % 2)] == TrafficImageTable(images[k], k + 1, form)
  {
    assert k == 2 * (k / 2) + k % 2;
  }

  /**
   * Every traffic-accident page but the last ends with a blank paragraph,
   * so a blank paragraph stands right before every page break.
   */
  lemma TrafficBlankBeforeBreak(images: seq<DocImage>, form: FormValues, p: nat)
    requires 2 * p + 2 < |images|
    ensures var pages := Split(TrafficLayout(images, form), PageBreak);
            && p < |pages| - 1
            && |pages[p]| == 4
            && pages[p][3] == BlankParagraph
  {
    TrafficPages(images, form);
  }

  /**
   * The traffic-accident body of N >= 1 pictures holds N - 1 blank
   * paragraphs and floor((N-1)/2) page breaks, so a page break follows
   * picture k exactly when k is even and not the last.
   */
  lemma TrafficCounts(images: seq<DocImage>, form: FormValues)
    requires |images| >= 1
    ensures Count(TrafficLayout(images, form), BlankParagraph) == |images| - 1
    ensures Count(TrafficLayout(images, form), PageBreak) == (|images| - 1) / 2
  {
    TrafficBlanksFrom(TrafficTables(images, form), 0);
    TrafficPages(images, form);
    SplitCountsSeparators(TrafficLayout(images, form), PageBreak);
  }

  lemma {:induction false} TrafficBlanksFrom(ts: seq<DocBlock>, i: nat)
    requires i < |ts| && TrafficOnly(ts)
    ensures Count(TrafficFrom(ts, i), BlankParagraph) == |ts| - 1 - i
    decreases |ts| - i
  {
    TrafficFromStep(ts, i);
    var seps := TrafficSeparators(|ts|, i);
    SeparatorBlanks(|ts|, i);
    CountConcat([ts[i]], seps, BlankParagraph);
    CountConcat([ts[i]] + seps, TrafficFrom(ts, i + 1), BlankParagraph);
    if i + 1 < |ts| {
      TrafficBlanksFrom(ts, i + 1);
    }
  }

  // ------------------------------------------------------------------ dispatch

  /**
   * `createDocument`: the criminal-case form for "left", the
   * traffic-accident form for "middle", and an error (None) for any other
   * format.  The header title is the format's title.
   */
  method CreateDocument(format: string, images: seq<DocImage>, form: FormValues) returns (doc: Option<Document>)
    ensures doc.Some? <==> format in FormatTitles()
    ensures doc.Some? ==> doc.value.title == FormatTitles()[format]
    ensures format == Criminal ==> doc == Some(Document(FormatTitles()[format], CriminalLayout(images, form)))
    ensures format == Traffic ==> doc == Some(Document(FormatTitles()[format], TrafficLayout(images, form)))
  {
    if format == Criminal {
      var children := CreateImageTables(images, form);
      doc := Some(Document("刑案照片黏貼表", children));
    } else if format == Traffic {
      var children := CreateTrafficAccidentContent(images, form);
      doc := Some(Document("(非)道路交通事故照片黏貼紀錄表", children));
    } else {
      doc := None;
    }
  }

  /** What pressing "generate" leads to. */
  datatype GenerateOutcome =
    | NoImages                                     // the "choose at least one image" alert
    | Saved(fileName: string, document: Document)  // the download of the packed document
    | Failed                                       // the error alert

  /** Every resize succeeded. */
  predicate AllResized(resized: seq<Option<string>>) {
    forall k :: 0 <= k < |resized| ==> resized[k].Some?
  }

  /** The resized data URLs, once all resizes have succeeded. */
  function ResizedData(resized: seq<Option<string>>): (r: seq<string>)
    requires AllResized(resized)
    ensures |r| == |resized| && forall k :: 0 <= k < |r| ==> Some(r[k]) == resized[k]
  {
    seq(|resized|, k requires 0 <= k < |resized| => resized[k].value)
  }

  /** The download name: the format's short name, the form name, the time stamp. */
  function FileName(format: string, now: Utils.DateParts): string
    requires format in FormatNames()
  {
    FormatNames()[format] + "照片黏貼表_" + Utils.GetFormattedDate(now) + ".docx"
  }

  /** The body of a known format's document. */
  function Layout(format: string, images: seq<DocImage>, form: FormValues): seq<DocBlock> {
    if format == Criminal then CriminalLayout(images, form) else TrafficLayout(images, form)
  }

  /**
   * `handleGenerate` as a function of the collection, the outcome of each
   * image's resize (None for one that failed), the form and the clock.
   */
  function GenerateSpec(images: seq<ImageRecord>, descriptions: map<Id, string>, dates: map<Id, string>,
                        addresses: map<Id, string>, tags: map<Id, AccidentTags>, format: string,
                        resized: seq<Option<string>>, form: FormValues, now: Utils.DateParts): (r: GenerateOutcome)
    requires |resized| == |images|
    ensures r == NoImages <==> |images| == 0
    ensures r.Saved? <==> |images| > 0 && AllResized(resized) && format in FormatTitles()
    ensures r.Saved? ==> r.document.title == FormatTitles()[format]
    ensures r.Saved? ==> |r.fileName| > 5 && r.fileName[|r.fileName| - 5..] == ".docx"
    ensures r.Saved? ==>
      && format in FormatNames()
      && r.fileName == FormatNames()[format] + "照片黏貼表_" + Utils.GetFormattedDate(now) + ".docx"
    ensures r.Saved? ==>
      r.document.children
      == Layout(format, Snapshot(images, ResizedData(resized), descriptions, dates, addresses, tags), form)
  {
    if |images| == 0 then NoImages
    else if !AllResized(resized) || format !in FormatTitles() then Failed
    else
      var snapshot := Snapshot(images, ResizedData(resized), descriptions, dates, addresses, tags);
      Saved(FileName(format, now), Document(FormatTitles()[format], Layout(format, snapshot, form)))
  }

  /**
   * `handleGenerate`: nothing for an empty collection; otherwise the
   * snapshot, the document for the selected format and its file name, or
   * the error alert when a resize fails or the format is unknown.
   */
  method HandleGenerate(st: State, resized: seq<Option<string>>, form: FormValues, now: Utils.DateParts)
    returns (outcome: GenerateOutcome)
    requires |resized| == |st.selectedImages|
    ensures outcome == GenerateSpec(st.selectedImages, st.imageDescriptions, st.imageDates, st.imageAddresses,
                                    st.imageAccidentTags, st.selectedFormat, resized, form, now)
  {
    if |st.selectedImages| == 0 {
      return NoImages;
    }
    if !AllResized(resized) {
      return Failed;
    }
    var snapshot := Snapshot(st.selectedImages, ResizedData(resized), st.imageDescriptions, st.imageDates,
                             st.imageAddresses, st.imageAccidentTags);
    var doc := CreateDocument(st.selectedFormat, snapshot, form);
    if doc.None? {
      return Failed;
    }
    outcome := Saved(FileName(st.selectedFormat, now), doc.value);
  }

  /**
   * `handleGenerateWrapper`: a press while a generation is in progress does
   * nothing (None); otherwise the flag is raised and the generation runs.
   * The flag stays raised until ReleaseGenerating.
   */
  method HandleGenerateWrapper(st: State, resized: seq<Option<string>>, form: FormValues, now: Utils.DateParts)
    returns (outcome: Option<GenerateOutcome>)
    requires |resized| == |st.selectedImages|
    modifies st`isGenerating
    ensures old(st.isGenerating) ==> outcome == None && unchanged(st)
    ensures !old(st.isGenerating) ==> st.isGenerating
    ensures !old(st.isGenerating) ==> outcome == Some(GenerateSpec(st.selectedImages, st.imageDescriptions,
              st.imageDates, st.imageAddresses, st.imageAccidentTags, st.selectedFormat, resized, form, now))
  {
    if st.isGenerating {
      return None;
    }
    st.isGenerating := true;
    var r := HandleGenerate(st, resized, form, now);
    outcome := Some(r);
  }

  /** The delayed reset of the in-progress flag. */
  method ReleaseGenerating(st: State)
    modifies st`isGenerating
    ensures !st.isGenerating
  {
    st.isGenerating := false;
  }
}
