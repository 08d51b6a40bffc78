/**
 * The Word and the print exporter lay out the same collection the same
 * way: the same dates, addresses, descriptions, numbers and checklists,
 * the same number of pages, and each picture on the same page in the same
 * slot.  They differ in the picture data (the Word exporter uses the
 * resized copy), in the checked glyph of the checklist line, and in the
 * blocks around the tables (a blank paragraph after each Word table, a
 * spacer between the two print tables).
 */
module ExportAgreement {
  import opened Wrappers
  import opened JsText
  import opened AppState
  import opened FormText
  import Docx = DocxGenerator
  import Pdf = PdfGenerator

  /** Both exporters resolve an image's date by the same rule. */
  lemma DatesAgree(customDate: string, imageDate: string, isAutoDate: bool, manualDate: string)
    ensures Pdf.ResolveDate(customDate, imageDate, isAutoDate, manualDate)
         == Docx.DisplayDate(customDate, imageDate, isAutoDate, manualDate)
  {
  }

  /** The Word snapshot of a collection, given the resized data. */
  function WordImages(images: seq<ImageRecord>, resized: seq<string>, side: Pdf.SideMaps): (r: seq<Docx.DocImage>)
    requires |resized| == |images|
    ensures |r| == |images|
  {
    Docx.Snapshot(images, resized, side.descriptions, side.dates, side.addresses, side.tags)
  }

  /**
   * Picture k's criminal-case table carries the same label, date,
   * photographer, address and description in both exporters; the Word
   * table shows the resized data and the print table the original.
   */
  lemma CriminalTablesAgree(images: seq<ImageRecord>, resized: seq<string>, side: Pdf.SideMaps, form: FormValues,
                            k: nat, header: Option<(string, string)>)
    requires |resized| == |images| && k < |images|
    ensures var w := Docx.CreateImageTable(WordImages(images, resized, side)[k], k + 1, form)[0];
            var p := Pdf.CriminalTableOf(images[k], k + 1, header, side, form);
            && w.labelText == p.labelText && w.date == p.date && w.photographer == p.photographer
            && w.address == p.address && w.description == p.description
            && w.data == resized[k] && p.data == images[k].data
  {
    var img := images[k];
    var d := WordImages(images, resized, side)[k];
    assert d.image == img.(data := resized[k]);
    DatesAgree(Entry(side.dates, img.id, ""), img.date, form.isAutoDate, form.caseDate);
  }

  /**
   * Picture k's traffic-accident table carries the same date, number and
   * checklist in both exporters, so the two checklist lines differ only in
   * the checked glyph.
   */
  lemma TrafficTablesAgree(images: seq<ImageRecord>, resized: seq<string>, side: Pdf.SideMaps, form: FormValues, k: nat)
    requires |resized| == |images| && k < |images|
    ensures var w := Docx.TrafficImageTable(WordImages(images, resized, side)[k], k + 1, form);
            var p := Pdf.TrafficTableOf(images[k], k + 1, side, form);
            && w.date == p.date && w.number == p.number && w.checklist == p.checklist
            && |TagFragments(w.checklist, Docx.CheckedBox)| == |TagFragments(p.checklist, Pdf.CheckedBox)|
            && (forall j :: 0 <= j < |TagFragments(w.checklist, Docx.CheckedBox)| ==>
                  && TagFragments(w.checklist, Docx.CheckedBox)[j][1..] == TagFragments(p.checklist, Pdf.CheckedBox)[j][1..]
                  && (TagFragments(w.checklist, Docx.CheckedBox)[j][0] == Docx.CheckedBox
                      <==> TagFragments(p.checklist, Pdf.CheckedBox)[j][0] == Pdf.CheckedBox))
  {
    var img := images[k];
    var d := WordImages(images, resized, side)[k];
    assert d.image == img.(data := resized[k]);
    DatesAgree(Entry(side.dates, img.id, ""), img.date, form.isAutoDate, form.caseDate);
    TagsLinesAgree(d.accidentTags, Docx.CheckedBox, Pdf.CheckedBox);
  }

  /**
   * The criminal-case document cut at its page breaks and the print pages
   * have the same number of pages, and each Word page is the one that
   * Docx.CriminalPage describes.
   */
  lemma CriminalPageCountsAgree(images: seq<ImageRecord>, resized: seq<string>, side: Pdf.SideMaps,
                                form: FormValues, title: string)
    requires |resized| == |images| && |images| >= 1
    ensures var wordPages := Split(Docx.CriminalLayout(WordImages(images, resized, side), form), Docx.PageBreak);
            && |wordPages| == |Pdf.CriminalContent(title, images, side, form)| == PageCount(|images|)
            && forall p :: 0 <= p < |wordPages| ==> wordPages[p] == Docx.CriminalPage(WordImages(images, resized, side), form, p)
  {
    Docx.CriminalPages(WordImages(images, resized, side), form);
  }

  /**
   * Criminal-case page p of the Word document opens with the same case
   * reason and unit that the first table of print page p carries.
   */
  lemma CriminalHeadersAgree(images: seq<ImageRecord>, resized: seq<string>, side: Pdf.SideMaps, form: FormValues,
                             title: string, p: nat)
    requires |resized| == |images| && 2 * p < |images|
    ensures Docx.CriminalPage(WordImages(images, resized, side), form, p)[0] == Docx.HeaderTable(form.caseReason, form.caseUnit)
    ensures var b := Pdf.CriminalPage(title, images, side, form, p).blocks[1];
            b.Table? && b.table.CriminalTable? && b.table.caseHeader == Some((form.caseReason, form.caseUnit))
  {
  }

  /**
   * On both criminal-case pages k/2 picture k is block 1 + 2(k%2), with
   * the same label, date, photographer, address and description.
   */
  lemma CriminalSlotsAgree(images: seq<ImageRecord>, resized: seq<string>, side: Pdf.SideMaps, form: FormValues,
                           title: string, k: nat)
    requires |resized| == |images| && k < |images|
    ensures 2 * (k / 2) < |images|
    ensures var wordPage := Docx.CriminalPage(WordImages(images, resized, side), form, k / 2);
            var printPage := Pdf.CriminalPage(title, images, side, form, k / 2);
            && |wordPage| == (if 2 * (k / 2) + 1 < |images| then 5 else 3)
            && |printPage.blocks| == (if 2 * (k / 2) + 1 < |images| then 4 else 2)
            && var w := wordPage[1 + 2 * (k % 2)];
               var p := printPage.blocks[1 + 2 * (k % 2)];
               && w.ImageTable? && p.Table? && p.table.CriminalTable?
               && w.labelText == p.table.labelText == Label(k + 1) && w.date == p.table.date
               && w.photographer == p.table.photographer && w.address == p.table.address
               && w.description == p.table.description
  {
    var doc := WordImages(images, resized, side);
    Docx.CriminalPictureSlot(doc, form, k);
    Pdf.CriminalPictureSlot(title, images, side, form, k);
    CriminalTablesAgree(images, resized, side, form, k, if k % 2 == 0 then Some(Pdf.CaseHeader(form)) else None);
  }

  /**
   * The traffic-accident document cut at its page breaks and the print
   * pages have the same number of pages, and each Word page is the one
   * that Docx.TrafficPage describes.
   */
  lemma TrafficPageCountsAgree(images: seq<ImageRecord>, resized: seq<string>, side: Pdf.SideMaps,
                               form: FormValues, title: string)
    requires |resized| == |images| && |images| >= 1
    ensures var wordPages := Split(Docx.TrafficLayout(WordImages(images, resized, side), form), Docx.PageBreak);
            && |wordPages| == |Pdf.TrafficContent(title, images, side, form)| == PageCount(|images|)
            && forall p :: 0 <= p < |wordPages| ==> wordPages[p] == Docx.TrafficPage(WordImages(images, resized, side), form, p)
  {
    Docx.TrafficPages(WordImages(images, resized, side), form);
  }

  /**
   * On both traffic-accident pages k/2 picture k is a table with the same
   * date, number k+1 and checklist: Word block 2(k%2), print block
   * 1 + 2(k%2).
   */
  lemma TrafficSlotsAgree(images: seq<ImageRecord>, resized: seq<string>, side: Pdf.SideMaps, form: FormValues,
                          title: string, k: nat)
    requires |resized| == |images| && k < |images|
    ensures 2 * (k / 2) < |images|
    ensures var wordPage := Docx.TrafficPage(WordImages(images, resized, side), form, k / 2);
            var printPage := Pdf.TrafficPage(title, images, side, form, k / 2);
            && |wordPage| == (if 2 * (k / 2) + 2 < |images| then 4 else if 2 * (k / 2) + 1 < |images| then 3 else 1)
            && |printPage.blocks| == (if 2 * (k / 2) + 1 < |images| then 4 else 2)
            && var w := wordPage[2 * (k % 2)];
               var p := printPage.blocks[1 + 2 * (k % 2)];
               && w.TrafficTable? && p.Table? && p.table.TrafficTable?
               && w.number == p.table.number == NatToString(k + 1) && w.date == p.table.date
               && w.checklist == p.table.checklist
  {
    Docx.TrafficPictureSlot(WordImages(images, resized, side), form, k);
    Pdf.TrafficPictureSlot(title, images, side, form, k);
    TrafficTablesAgree(images, resized, side, form, k);
  }
}
