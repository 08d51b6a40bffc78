/**
 * The page wiring's own logic: naming the entries and the archive of the
 * photo zip download, the two picture-size buttons, which sidebar fields
 * a format shows, and the run-once guard of the start-up code.
 */
module AppMain {
  import opened Wrappers
  import opened JsText
  import opened AppState

  // ------------------------------------------------------------- zip download

  /** One file of the archive: its name and its base64 payload (None when the data URL has no comma). */
  datatype ZipEntry = ZipEntry(name: string, payload: Option<string>)

  /** What the zip button leads to. */
  datatype ZipOutcome =
    | NothingToZip                                  // the "no photos" toast
    | Archive(fileName: string, entries: seq<ZipEntry>)

  /** The fixed part of every entry name. */
  const EntryMarker := "照片黏貼表-編號"

  /** The name of entry `i` (0-based): prefix, marker, number i+1, a dot and the original extension. */
  function EntryName(prefix: string, i: nat, originalName: string): string {
    prefix + EntryMarker + NatToString(i + 1) + "." + LastField(originalName, '.')
  }

  /** The archive's download name. */
  function ArchiveName(prefix: string): string {
    prefix + "照片打包下載.zip"
  }

  /** The entries for a collection, entry i from picture i. */
  function ZipEntries(prefix: string, images: seq<ImageRecord>): (r: seq<ZipEntry>)
    ensures |r| == |images|
    ensures forall i :: 0 <= i < |r| ==> r[i] == ZipEntry(EntryName(prefix, i, images[i].name), FieldAt(images[i].data, ',', 1))
  {
    seq(|images|, i requires 0 <= i < |images| => ZipEntry(EntryName(prefix, i, images[i].name), FieldAt(images[i].data, ',', 1)))
  }

  /** The loop that fills the archive: one entry per picture, in collection order. */
  method BuildZipEntries(prefix: string, images: seq<ImageRecord>) returns (entries: seq<ZipEntry>)
    ensures entries == ZipEntries(prefix, images)
  {
    entries := [];
    for i := 0 to |images|
      invariant |entries| == i
      invariant forall j :: 0 <= j < i ==> entries[j] == ZipEntry(EntryName(prefix, j, images[j].name), FieldAt(images[j].data, ',', 1))
    {
      var img := images[i];
      var ext := LastField(img.name, '.');
      var newName := prefix + EntryMarker + NatToString(i + 1) + "." + ext;
      var data := FieldAt(img.data, ',', 1);
      entries := entries + [ZipEntry(newName, data)];
    }
  }

  /**
   * The zip button: nothing for an empty collection; otherwise the archive
   * named after the trimmed prefix (empty when there is no prefix input)
   * holding one entry per picture.
   */
  method DownloadZip(st: State, prefixInput: Option<string>) returns (outcome: ZipOutcome)
    ensures st.selectedImages == [] <==> outcome == NothingToZip
    ensures outcome.Archive? ==>
              var prefix := if prefixInput.Some? then Trim(prefixInput.value) else "";
              outcome == Archive(ArchiveName(prefix), ZipEntries(prefix, st.selectedImages))
  {
    if |st.selectedImages| == 0 {
      return NothingToZip;
    }
    var prefix := if prefixInput.Some? then Trim(prefixInput.value) else "";
    var entries := BuildZipEntries(prefix, st.selectedImages);
    outcome := Archive(ArchiveName(prefix), entries);
  }

  /** An entry name keeps the original name's extension: its text after the last dot. */
  lemma EntryKeepsExtension(prefix: string, i: nat, originalName: string)
    ensures LastField(EntryName(prefix, i, originalName), '.') == LastField(originalName, '.')
  {
    var ext := LastField(originalName, '.');
    assert EntryName(prefix, i, originalName) == (prefix + EntryMarker + NatToString(i + 1)) + ['.'] + ext;
    LastFieldAfter(prefix + EntryMarker + NatToString(i + 1), '.', ext);
  }

  /**
   * Entries of one archive never share a name: the number after the marker
   * tells them apart, whatever the original names.
   */
  lemma EntryNamesDistinct(prefix: string, i: nat, j: nat, name1: string, name2: string)
    requires i != j
    ensures EntryName(prefix, i, name1) != EntryName(prefix, j, name2)
  {
    if EntryName(prefix, i, name1) == EntryName(prefix, j, name2) {
      var head := prefix + EntryMarker;
      var d1, d2 := NatToString(i + 1), NatToString(j + 1);
      var e1, e2 := LastField(name1, '.'), LastField(name2, '.');
      var rest1, rest2 := d1 + ['.'] + e1, d2 + ['.'] + e2;
      assert EntryName(prefix, i, name1) == head + rest1;
      assert EntryName(prefix, j, name2) == head + rest2;
      assert rest1 == (head + rest1)[|head|..];
      assert rest2 == (head + rest2)[|head|..];
      DigitsHaveNoDot(d1);
      DigitsHaveNoDot(d2);
      SplitAround(d1, '.', e1);
      SplitAround(d2, '.', e2);
      SplitNoSeparator(d1, '.');
      SplitNoSeparator(d2, '.');
      assert Split(rest1, '.')[0] == d1;
      assert Split(rest2, '.')[0] == d2;
      NatToStringInjective(i + 1, j + 1);
    }
  }

  // ------------------------------------------------------------ picture size

  /** How far one press of a size button moves the slider. */
  const SizeStep := 40

  /** The minus button: 40 smaller, but not below the slider's minimum. */
  function SizeDown(min: int, value: int): (r: int)
    ensures r >= min && r >= value - SizeStep
    ensures r == min || r == value - SizeStep
  {
    if min > value - SizeStep then min else value - SizeStep
  }

  /** The plus button: 40 larger, but not above the slider's maximum. */
  function SizeUp(max: int, value: int): (r: int)
    ensures r <= max && r <= value + SizeStep
    ensures r == max || r == value + SizeStep
  {
    if max < value + SizeStep then max else value + SizeStep
  }

  /**
   * A value inside the slider's range stays inside it after either button,
   * and one press of each button undoes the other away from the ends.
   */
  lemma SizeButtonsKeepRange(min: int, max: int, value: int)
    requires min <= value <= max
    ensures min <= SizeDown(min, value) <= value
    ensures value <= SizeUp(max, value) <= max
    ensures value - SizeStep >= min ==> SizeUp(max, SizeDown(min, value)) == value
    ensures value + SizeStep <= max ==> SizeDown(min, SizeUp(max, value)) == value
  {
  }

  // ----------------------------------------------------------- sidebar fields

  /** A field is shown when its space-separated format list names the format. */
  predicate IsFieldVisible(dataFormat: string, format: string) {
    format in Split(dataFormat, ' ')
  }

  /** A field listing one format is shown for exactly that format. */
  lemma SingleFormatField(dataFormat: string, format: string)
    requires ' ' !in dataFormat
    ensures IsFieldVisible(dataFormat, format) <==> format == dataFormat
  {
    SplitNoSeparator(dataFormat, ' ');
  }

  /** A field listing two formats is shown for each of them. */
  lemma TwoFormatField(f1: string, f2: string)
    requires ' ' !in f1 && ' ' !in f2
    ensures var dataFormat := f1 + " " + f2;
            && IsFieldVisible(dataFormat, f1) && IsFieldVisible(dataFormat, f2)
            && forall g :: IsFieldVisible(dataFormat, g) ==> g == f1 || g == f2
  {
    SplitAround(f1, ' ', f2);
    SplitNoSeparator(f1, ' ');
    SplitNoSeparator(f2, ' ');
  }

  /** `updateSidebarFields`: the display style of every field, "" when shown and "none" when hidden. */
  method UpdateSidebarFields(dataFormats: seq<string>, format: string) returns (display: seq<string>)
    ensures |display| == |dataFormats|
    ensures forall i :: 0 <= i < |display| ==>
              (display[i] == "" <==> IsFieldVisible(dataFormats[i], format))
              && (display[i] == "none" <==> !IsFieldVisible(dataFormats[i], format))
  {
    display := [];
    for i := 0 to |dataFormats|
      invariant |display| == i
      invariant forall j :: 0 <= j < i ==> display[j] == (if IsFieldVisible(dataFormats[j], format) then "" else "none")
    {
      var formats := Split(dataFormats[i], ' ');
      if format in formats {
        display := display + [""];
      } else {
        display := display + ["none"];
      }
    }
  }

  // ------------------------------------------------------------------ start-up

  /**
   * `init`: the first call marks the state initialised and, when the page
   * holds the required elements, wires the handlers (true); every later
   * call does nothing.
   */
  method Init(st: State, elementsPresent: bool) returns (wired: bool)
    modifies st`isInitialized
    ensures st.isInitialized
    ensures wired <==> !old(st.isInitialized) && elementsPresent
  {
    if st.isInitialized {
      return false;
    }
    st.isInitialized := true;
    if !elementsPresent {
      return false;
    }
    wired := true;
  }
}
