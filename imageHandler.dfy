/**
 * The image collection and its edits: importing a batch of files (HEIC
 * detection, renaming and date choice), the duplicate gate, appending,
 * drag-and-drop reordering, confirmed removal, the image being edited,
 * rotation, and the per-image inputs that write the side maps.
 *
 * Browser work (file reading, decoding, HEIC conversion, canvas drawing,
 * metadata parsing) is represented by its results, handed in as values;
 * confirmation dialogs are yes/no inputs.
 */
module ImageHandler {
  import opened Wrappers
  import opened JsText
  import opened AppState
  import opened Utils

  // ---------------------------------------------------------------------
  // One file: HEIC detection, renaming, and the record it becomes
  // ---------------------------------------------------------------------

  /** Whether a lower-cased name ends in one of the HEIC suffixes. */
  predicate NameSaysHeic(name: string) {
    EndsWith(ToLower(name), ".heic") || EndsWith(ToLower(name), ".heif")
  }

  /** The HEIC test: by MIME type, or by file-name suffix in any letter case. */
  predicate IsHeic(mimeType: string, name: string) {
    mimeType == "image/heic" || mimeType == "image/heif" || NameSaysHeic(name)
  }

  /** The name given to a converted file: a trailing `.heic`/`.heif` (any case) becomes `.jpg`. */
  function HeicRename(name: string): string
  {
    if NameSaysHeic(name) then name[..|name| - 5] + ".jpg" else name
  }

  /** Renaming changes a name exactly when it has a HEIC suffix, and then the result ends in `.jpg`. */
  lemma HeicRenameChangesOnlyHeicNames(name: string)
    ensures HeicRename(name) != name <==> NameSaysHeic(name)
    ensures NameSaysHeic(name) ==> (EndsWith(HeicRename(name), ".jpg") && |HeicRename(name)| == |name| - 1)
  {
    if NameSaysHeic(name) {
      var r := HeicRename(name);
      assert r[|r| - 4..] == ".jpg";
      assert ToLower(r)[|r| - 1] == 'g';
      assert r[|r| - 1] != name[|name| - 1] by {
        assert ToLower(name)[|name| - 1] == 'c' || ToLower(name)[|name| - 1] == 'f';
      }
    }
  }

  /** The capture-time fields a HEIC metadata read hands back. */
  datatype HeicExif = HeicExif(dateTimeOriginal: ExifValue, createDate: ExifValue, modifyDate: ExifValue)

  /** `a || b || c` over metadata values: the first truthy one, else the last. */
  function FirstTruthy(a: ExifValue, b: ExifValue, c: ExifValue): (r: ExifValue)
    ensures Truthy(r) <==> Truthy(a) || Truthy(b) || Truthy(c)
    ensures Truthy(a) ==> r == a
    ensures !Truthy(a) && Truthy(b) ==> r == b
    ensures !Truthy(a) && !Truthy(b) ==> r == c
  {
    if Truthy(a) then a else if Truthy(b) then b else c
  }

  /**
   * The date read from a HEIC file before conversion: `None` (null) when
   * there is no metadata or no truthy capture field, otherwise the first
   * truthy of original time, creation time and modification time,
   * formatted.
   */
  function HeicDate(exif: Option<HeicExif>): (r: Option<string>)
    ensures r.Some? <==> exif.Some? && Truthy(FirstTruthy(exif.value.dateTimeOriginal,
                                                   exif.value.createDate, exif.value.modifyDate))
    ensures exif.Some? && Truthy(exif.value.dateTimeOriginal) ==>
      r == Some(FormatExifDate(exif.value.dateTimeOriginal))
    ensures exif.Some? && !Truthy(exif.value.dateTimeOriginal) && Truthy(exif.value.createDate) ==>
      r == Some(FormatExifDate(exif.value.createDate))
    ensures exif.Some? && !Truthy(exif.value.dateTimeOriginal) && !Truthy(exif.value.createDate)
            && Truthy(exif.value.modifyDate) ==>
      r == Some(FormatExifDate(exif.value.modifyDate))
  {
    match exif
    case None => None
    case Some(e) =>
      var v := FirstTruthy(e.dateTimeOriginal, e.createDate, e.modifyDate);
      if Truthy(v) then Some(FormatExifDate(v)) else None
  }

  /** What the HEIC converter did with a file. */
  datatype HeicStep = HeicFailed | HeicConverted(exif: Option<HeicExif>, blobSize: nat)

  /**
   * What reading and decoding produced: failure (reader error, image
   * error, thumbnail error) or the data URL, thumbnail, pixel size and the
   * capture-time tag of the decoded image.
   */
  datatype Decoding = DecodeFailed
                    | Decoded(dataUrl: string, thumbnail: string, width: Pixels, height: Pixels, exifTag: ExifValue)

  /**
   * One submitted file together with the results of the browser work on
   * it, and the fresh id it will receive.
   */
  datatype FileInput = FileInput(
    id: Id,
    name: string,
    mimeType: string,
    size: nat,
    heic: HeicStep,
    decoding: Decoding)

  /** The record built from a decoded blob; a date found before decoding wins over the tag. */
  function RecordOf(id: Id, name: string, size: nat, d: Decoding, preDate: Option<string>): Option<ImageRecord> {
    match d
    case DecodeFailed => None
    case Decoded(dataUrl, thumbnail, w, h, tag) =>
      var date := if preDate.Some? then preDate.value else FormatExifDate(tag);
      Some(ImageRecord(id, dataUrl, thumbnail, name, size, w, h, date))
  }

  /**
   * The promise of one file: `None` when it rejects.  A HEIC file must be
   * converted first; it then carries the renamed name, the converted
   * size and the date read from its metadata (if any).
   */
  function ProcessFile(f: FileInput): (r: Option<ImageRecord>)
    ensures r.Some? ==> r.value.id == f.id
    ensures r.Some? <==> f.decoding.Decoded? && (IsHeic(f.mimeType, f.name) ==> f.heic.HeicConverted?)
    ensures r.Some? && !IsHeic(f.mimeType, f.name) ==>
      r.value.name == f.name && r.value.size == f.size && r.value.date == FormatExifDate(f.decoding.exifTag)
    ensures r.Some? && IsHeic(f.mimeType, f.name) ==>
      r.value.name == HeicRename(f.name) && r.value.size == f.heic.blobSize
    ensures r.Some? ==>
      r.value.data == f.decoding.dataUrl && r.value.thumbnail == f.decoding.thumbnail &&
      r.value.width == f.decoding.width && r.value.height == f.decoding.height
  {
    if IsHeic(f.mimeType, f.name) then
      match f.heic
      case HeicFailed => None
      case HeicConverted(exif, blobSize) => RecordOf(f.id, HeicRename(f.name), blobSize, f.decoding, HeicDate(exif))
    else
      RecordOf(f.id, f.name, f.size, f.decoding, None)
  }

  /** A HEIC file's metadata date, when present, is the record's date, even an empty one. */
  lemma HeicDateWins(f: FileInput)
    requires IsHeic(f.mimeType, f.name) && f.heic.HeicConverted? && f.decoding.Decoded?
    requires HeicDate(f.heic.exif).Some?
    ensures ProcessFile(f).Some? && ProcessFile(f).value.date == HeicDate(f.heic.exif).value
  {
  }

  /** Without a metadata date a HEIC file falls back to the decoded image's tag. */
  lemma HeicWithoutDateUsesTag(f: FileInput)
    requires IsHeic(f.mimeType, f.name) && f.heic.HeicConverted? && f.decoding.Decoded?
    requires HeicDate(f.heic.exif).None?
    ensures ProcessFile(f).Some? && ProcessFile(f).value.date == FormatExifDate(f.decoding.exifTag)
  {
  }

  // ---------------------------------------------------------------------
  // The duplicate gate and appending
  // ---------------------------------------------------------------------

  /** Two records describe the same file: same name, byte size and pixel size. */
  predicate SameFile(a: ImageRecord, b: ImageRecord) {
    a.name == b.name && a.size == b.size && a.width == b.width && a.height == b.height
  }

  /** `isDuplicateImage`: does some record in the collection match (`.some`)? */
  predicate IsDuplicateImage(images: seq<ImageRecord>, rec: ImageRecord)
    decreases |images|
  {
    images != [] && (SameFile(images[0], rec) || IsDuplicateImage(images[1..], rec))
  }

  /** The duplicate test is exactly "some record matches on name, size, width and height". */
  lemma {:induction false} IsDuplicateImageIff(images: seq<ImageRecord>, rec: ImageRecord)
    ensures IsDuplicateImage(images, rec) <==> exists k :: 0 <= k < |images| && SameFile(images[k], rec)
    decreases |images|
  {
    if images != [] {
      IsDuplicateImageIff(images[1..], rec);
      if IsDuplicateImage(images[1..], rec) {
        var k :| 0 <= k < |images[1..]| && SameFile(images[1..][k], rec);
        assert SameFile(images[k + 1], rec);
      }
      if exists k :: 0 <= k < |images| && SameFile(images[k], rec) {
        var k :| 0 <= k < |images| && SameFile(images[k], rec);
        if k > 0 {
          assert SameFile(images[1..][k - 1], rec);
        }
      }
    }
  }

  /** The id, data URLs and date of the new record play no part in the duplicate test. */
  lemma IsDuplicateIgnoresIdDataDate(images: seq<ImageRecord>, rec: ImageRecord,
                                     id: Id, data: string, thumbnail: string, date: string)
    ensures IsDuplicateImage(images, rec)
        == IsDuplicateImage(images, rec.(id := id, data := data, thumbnail := thumbnail, date := date))
  {
    var other := rec.(id := id, data := data, thumbnail := thumbnail, date := date);
    IsDuplicateImageIff(images, rec);
    IsDuplicateImageIff(images, other);
    assert forall k :: 0 <= k < |images| ==> (SameFile(images[k], rec) <==> SameFile(images[k], other));
  }

  /**
   * The collection after offering one record: a duplicate is appended only
   * on a "yes", anything else is appended.
   */
  function AddOne(images: seq<ImageRecord>, rec: ImageRecord, yes: bool): (r: seq<ImageRecord>)
    ensures r == images || r == images + [rec]
    ensures r == images + [rec] <==> !IsDuplicateImage(images, rec) || yes
  {
    if IsDuplicateImage(images, rec) && !yes then images else images + [rec]
  }

  /**
   * The collection after offering a batch in order, `answers[k]` being the
   * reply to the confirmation that record `k` would raise.
   */
  function AddAll(images: seq<ImageRecord>, recs: seq<ImageRecord>, answers: seq<bool>): (r: seq<ImageRecord>)
    requires |answers| == |recs|
    ensures |images| <= |r| <= |images| + |recs|
    ensures r[..|images|] == images
    ensures forall k :: |images| <= k < |r| ==> r[k] in recs
    decreases |recs|
  {
    if recs == [] then images
    else
      var prev := AddAll(images, recs[..|recs| - 1], answers[..|answers| - 1]);
      AddOne(prev, recs[|recs| - 1], answers[|answers| - 1])
  }

  /** When every confirmation is answered "yes" the whole batch is appended in submission order. */
  lemma {:induction false} AddAllYes(images: seq<ImageRecord>, recs: seq<ImageRecord>, answers: seq<bool>)
    requires |answers| == |recs|
    requires forall k :: 0 <= k < |answers| ==> answers[k]
    ensures AddAll(images, recs, answers) == images + recs
    decreases |recs|
  {
    if recs != [] {
      var n := |recs| - 1;
      AddAllYes(images, recs[..n], answers[..n]);
      assert recs == recs[..n] + [recs[n]];
    }
  }

  /** A record whose id is fresh leaves by its id exactly what it brought. */
  lemma AddOneThenRemove(images: seq<ImageRecord>, rec: ImageRecord, yes: bool)
    requires rec.id !in Ids(images)
    ensures FilterOut(AddOne(images, rec, yes), rec.id) == images
  {
    FilterOutAbsent(images, rec.id);
    FilterOutAppend(images, rec);
  }

  /** The ids after appending. */
  lemma IdsAppend(images: seq<ImageRecord>, rec: ImageRecord)
    ensures Ids(images + [rec]) == Ids(images) + {rec.id}
  {
    var r := images + [rec];
    assert forall k :: 0 <= k < |images| ==> r[k] == images[k];
    assert r[|images|] == rec;
  }

  /**
   * `handleImageAddition` followed by `addImageToCollection`: append the
   * record unless it is a duplicate the user declined; an appended record
   * gets an empty checklist entry when it has none.
   */
  method HandleImageAddition(st: State, rec: ImageRecord, yes: bool)
    requires st.Valid() && rec.id !in Ids(st.selectedImages)
    modifies st`selectedImages, st`imageAccidentTags
    ensures st.Valid()
    ensures st.selectedImages == AddOne(old(st.selectedImages), rec, yes)
    ensures st.imageAccidentTags == if st.selectedImages == old(st.selectedImages) then old(st.imageAccidentTags)
                                    else old(st.imageAccidentTags)[rec.id := NoTags]
  {
    if IsDuplicateImage(st.selectedImages, rec) {
      if yes {
        AddImageToCollection(st, rec);
      }
    } else {
      AddImageToCollection(st, rec);
    }
  }

  /** Appending a record with a fresh id, with an empty checklist entry, keeps the invariant. */
  lemma ConsistentAppend(images: seq<ImageRecord>, d: map<Id, string>, da: map<Id, string>, a: map<Id, string>,
                         t: map<Id, AccidentTags>, r: map<Id, int>, rec: ImageRecord)
    requires Consistent(images, d, da, a, t, r) && rec.id !in Ids(images)
    ensures Consistent(images + [rec], d, da, a, t[rec.id := NoTags], r)
  {
    IdsAppend(images, rec);
    DistinctIdsAppend(images, rec);
  }

  /** `addImageToCollection`: push the record and make sure it has a checklist entry. */
  method AddImageToCollection(st: State, rec: ImageRecord)
    requires st.Valid() && rec.id !in Ids(st.selectedImages)
    modifies st`selectedImages, st`imageAccidentTags
    ensures st.Valid()
    ensures st.selectedImages == old(st.selectedImages) + [rec]
    ensures st.imageAccidentTags == old(st.imageAccidentTags)[rec.id := NoTags]
  {
    ghost var images, tags := st.selectedImages, st.imageAccidentTags;
    st.selectedImages := st.selectedImages + [rec];
    if rec.id !in st.imageAccidentTags {
      st.imageAccidentTags := st.imageAccidentTags[rec.id := NoTags];
    }
    ValidAfterAppend(st, images, tags, rec);
  }

  /** The invariant after `addImageToCollection`, stated on the new state. */
  lemma ValidAfterAppend(st: State, images: seq<ImageRecord>, tags: map<Id, AccidentTags>, rec: ImageRecord)
    requires Consistent(images, st.imageDescriptions, st.imageDates, st.imageAddresses, tags, st.imageRotations)
    requires rec.id !in Ids(images)
    requires st.selectedImages == images + [rec] && st.imageAccidentTags == tags[rec.id := NoTags]
    ensures st.Valid()
  {
    ConsistentAppend(images, st.imageDescriptions, st.imageDates, st.imageAddresses, tags, st.imageRotations, rec);
  }

  lemma DistinctIdsAppend(images: seq<ImageRecord>, rec: ImageRecord)
    requires DistinctIds(images) && rec.id !in Ids(images)
    ensures DistinctIds(images + [rec])
  {
    var r := images + [rec];
    forall i, j | 0 <= i < j < |r| ensures r[i].id != r[j].id {
      if j == |images| {
        assert r[i] == images[i];
      } else {
        assert r[i] == images[i] && r[j] == images[j];
      }
    }
  }

  /** Every file of the batch resolves (`Promise.all` succeeds). */
  predicate AllResolve(files: seq<FileInput>) {
    forall k :: 0 <= k < |files| ==> ProcessFile(files[k]).Some?
  }

  /** Awaiting the batch: true exactly when no file rejects. */
  method CheckAllResolve(files: seq<FileInput>) returns (ok: bool)
    ensures ok <==> AllResolve(files)
    ensures !ok ==> exists k :: 0 <= k < |files| && ProcessFile(files[k]).None?
  {
    var k := 0;
    while k < |files|
      invariant 0 <= k <= |files|
      invariant forall j :: 0 <= j < k ==> ProcessFile(files[j]).Some?
    {
      if ProcessFile(files[k]).None? {
        return false;
      }
      k := k + 1;
    }
    return true;
  }

  /** The records of a batch, when every file resolved. */
  function BatchRecords(files: seq<FileInput>): (recs: seq<ImageRecord>)
    requires AllResolve(files)
    ensures |recs| == |files|
    ensures forall k :: 0 <= k < |files| ==> recs[k] == ProcessFile(files[k]).value && recs[k].id == files[k].id
  {
    seq(|files|, k requires 0 <= k < |files| => ProcessFile(files[k]).value)
  }

  /** The ids a batch will receive: fresh for the collection and pairwise distinct. */
  predicate FreshBatchIds(images: seq<ImageRecord>, files: seq<FileInput>) {
    && (forall k :: 0 <= k < |files| ==> files[k].id !in Ids(images))
    && (forall i, j :: 0 <= i < j < |files| ==> files[i].id != files[j].id)
  }

  /** Records whose ids are new to the collection and pairwise distinct. */
  predicate FreshRecords(images: seq<ImageRecord>, recs: seq<ImageRecord>) {
    && (forall k :: 0 <= k < |recs| ==> recs[k].id !in Ids(images))
    && (forall i, j :: 0 <= i < j < |recs| ==> recs[i].id != recs[j].id)
  }

  /** The checklist map only gained entries, each of them empty. */
  predicate TagsExtended(before: map<Id, AccidentTags>, after: map<Id, AccidentTags>) {
    && before.Keys <= after.Keys
    && forall id :: id in after ==> after[id] == if id in before then before[id] else NoTags
  }

  lemma FreshBatchRecords(images: seq<ImageRecord>, files: seq<FileInput>)
    requires AllResolve(files) && FreshBatchIds(images, files)
    ensures FreshRecords(images, BatchRecords(files))
  {
  }

  /** Offering the first of a fresh batch leaves the rest fresh. */
  lemma FreshAfterOffer(images: seq<ImageRecord>, recs: seq<ImageRecord>, yes: bool)
    requires recs != [] && FreshRecords(images, recs)
    ensures FreshRecords(AddOne(images, recs[0], yes), recs[1..])
  {
    IdsAppend(images, recs[0]);
    var rest := recs[1..];
    forall k | 0 <= k < |rest| ensures rest[k].id != recs[0].id && rest[k].id !in Ids(images) {
      assert rest[k] == recs[k + 1];
    }
    forall a, b | 0 <= a < b < |rest| ensures rest[a].id != rest[b].id {
      assert rest[a] == recs[a + 1] && rest[b] == recs[b + 1];
    }
  }

  lemma TagsExtendedStep(before: map<Id, AccidentTags>, after: map<Id, AccidentTags>, id: Id)
    requires TagsExtended(before, after) && id !in after
    ensures TagsExtended(before, after[id := NoTags])
  {
  }

  /** One turn of the offering loop keeps the loop's invariants. */
  lemma OfferStep(start: seq<ImageRecord>, tags0: map<Id, AccidentTags>, images: seq<ImageRecord>,
                  tags: map<Id, AccidentTags>, recs: seq<ImageRecord>, answers: seq<bool>, i: nat,
                  images': seq<ImageRecord>, tags': map<Id, AccidentTags>)
    requires |answers| == |recs| && i < |recs|
    requires images == AddAll(start, recs[..i], answers[..i])
    requires FreshRecords(images, recs[i..]) && TagsExtended(tags0, tags) && tags.Keys == Ids(images)
    requires images' == AddOne(images, recs[i], answers[i])
    requires tags' == if images' == images then tags else tags[recs[i].id := NoTags]
    ensures images' == AddAll(start, recs[..i + 1], answers[..i + 1])
    ensures FreshRecords(images', recs[i + 1..]) && TagsExtended(tags0, tags')
  {
    FreshAfterOffer(images, recs[i..], answers[i]);
    assert recs[i..][1..] == recs[i + 1..];
    assert recs[i..][0] == recs[i];
    if images' != images {
      TagsExtendedStep(tags0, tags, recs[i].id);
    }
    assert recs[..i + 1][..i] == recs[..i];
    assert answers[..i + 1][..i] == answers[..i];
  }

  /**
   * The records of a resolved batch offered one by one, in submission
   * order, each with its own confirmation answer.
   */
  method OfferBatch(st: State, recs: seq<ImageRecord>, answers: seq<bool>)
    requires st.Valid() && |answers| == |recs| && FreshRecords(st.selectedImages, recs)
    modifies st`selectedImages, st`imageAccidentTags
    ensures st.Valid()
    ensures st.selectedImages == AddAll(old(st.selectedImages), recs, answers)
    ensures TagsExtended(old(st.imageAccidentTags), st.imageAccidentTags)
  {
    var i := 0;
    while i < |recs|
      invariant 0 <= i <= |recs|
      invariant st.Valid()
      invariant st.selectedImages == AddAll(old(st.selectedImages), recs[..i], answers[..i])
      invariant FreshRecords(st.selectedImages, recs[i..])
      invariant TagsExtended(old(st.imageAccidentTags), st.imageAccidentTags)
    {
      ghost var images, tags := st.selectedImages, st.imageAccidentTags;
      HandleImageAddition(st, recs[i], answers[i]);
      OfferStep(old(st.selectedImages), old(st.imageAccidentTags), images, tags, recs, answers, i,
        st.selectedImages, st.imageAccidentTags);
      i := i + 1;
    }
    assert recs[..|recs|] == recs;
    assert answers[..|answers|] == answers;
  }

  /**
   * `processFiles`: every file is processed; if any one rejects, nothing of
   * the batch is added; otherwise the records are offered in submission
   * order.
   */
  method ProcessFiles(st: State, files: seq<FileInput>, answers: seq<bool>)
    requires st.Valid() && |answers| == |files|
    requires FreshBatchIds(st.selectedImages, files)
    modifies st`selectedImages, st`imageAccidentTags
    ensures st.Valid()
    ensures !AllResolve(files) ==> unchanged(st)
    ensures AllResolve(files) ==> st.selectedImages == AddAll(old(st.selectedImages), BatchRecords(files), answers)
    ensures TagsExtended(old(st.imageAccidentTags), st.imageAccidentTags)
  {
    var ok := CheckAllResolve(files);
    if ok {
      FreshBatchRecords(st.selectedImages, files);
      OfferBatch(st, BatchRecords(files), answers);
    }
  }

  // ---------------------------------------------------------------------
  // Reordering
  // ---------------------------------------------------------------------

  /** The two splices of a drop: take the record out at `from`, put it in at `to`. */
  function Move<T>(s: seq<T>, from: nat, to: nat): (r: seq<T>)
    requires from < |s| && to < |s|
    ensures |r| == |s|
  {
    SpliceIn(SpliceOut(s, from), to, s[from])
  }

  /** A move is a permutation. */
  lemma MovePermutes<T>(s: seq<T>, from: nat, to: nat)
    requires from < |s| && to < |s|
    ensures multiset(Move(s, from, to)) == multiset(s)
  {
    SpliceOutMultiset(s, from);
    SpliceInMultiset(SpliceOut(s, from), to, s[from]);
  }

  /** The moved record lands at the drop index, and taking it out again leaves the others in their old order. */
  lemma MovePlacesAndKeepsOrder<T>(s: seq<T>, from: nat, to: nat)
    requires from < |s| && to < |s|
    ensures Move(s, from, to)[to] == s[from]
    ensures SpliceOut(Move(s, from, to), to) == SpliceOut(s, from)
  {
    SpliceOutOfSpliceIn(SpliceOut(s, from), to, s[from]);
  }

  /** Dropping a record onto its own place changes nothing, and moving it back undoes a move. */
  lemma MoveOntoItselfAndBack<T>(s: seq<T>, from: nat, to: nat)
    requires from < |s| && to < |s|
    ensures Move(s, from, from) == s
    ensures Move(Move(s, from, to), to, from) == s
  {
    SpliceInOfSpliceOut(s, from);
    MovePlacesAndKeepsOrder(s, from, to);
  }

  /** Taking a record out removes exactly its id from a collection without repeated ids. */
  lemma IdsSpliceOut(s: seq<ImageRecord>, i: nat)
    requires i < |s| && DistinctIds(s)
    ensures DistinctIds(SpliceOut(s, i))
    ensures Ids(SpliceOut(s, i)) == Ids(s) - {s[i].id}
  {
    var r := SpliceOut(s, i);
    forall id | id in Ids(s) - {s[i].id} ensures id in Ids(r) {
      var k :| 0 <= k < |s| && s[k].id == id;
      if k < i { assert r[k] == s[k]; } else { assert r[k - 1] == s[k]; }
    }
    forall a, b | 0 <= a < b < |r| ensures r[a].id != r[b].id {
      var a', b' := if a < i then a else a + 1, if b < i then b else b + 1;
      assert r[a] == s[a'] && r[b] == s[b'];
    }
  }

  /** Putting in a record with a fresh id adds exactly its id. */
  lemma IdsSpliceIn(s: seq<ImageRecord>, i: nat, x: ImageRecord)
    requires i <= |s| && DistinctIds(s) && x.id !in Ids(s)
    ensures DistinctIds(SpliceIn(s, i, x))
    ensures Ids(SpliceIn(s, i, x)) == Ids(s) + {x.id}
  {
    DistinctIdsSpliceIn(s, i, x);
    var r := SpliceIn(s, i, x);
    assert r[i] == x;
    forall id | id in Ids(r) ensures id in Ids(s) + {x.id} {
      var k :| 0 <= k < |r| && r[k].id == id;
      if k < i {
        assert r[k] == s[k];
      } else if k > i {
        assert r[k] == s[k - 1];
      }
    }
    forall id | id in Ids(s) ensures id in Ids(r) {
      var k :| 0 <= k < |s| && s[k].id == id;
      if k < i {
        assert r[k] == s[k];
      } else {
        assert r[k + 1] == s[k];
      }
    }
  }

  lemma DistinctIdsSpliceIn(s: seq<ImageRecord>, i: nat, x: ImageRecord)
    requires i <= |s| && DistinctIds(s) && x.id !in Ids(s)
    ensures DistinctIds(SpliceIn(s, i, x))
  {
    var r := SpliceIn(s, i, x);
    forall a, b | 0 <= a < b < |r| ensures r[a].id != r[b].id {
      if a == i {
        assert r[b] == s[b - 1];
      } else if b == i {
        assert r[a] == s[a];
      } else {
        var a', b' := if a < i then a else a - 1, if b < i then b else b - 1;
        assert r[a] == s[a'] && r[b] == s[b'];
      }
    }
  }

  /** A move keeps the ids and their distinctness. */
  lemma MoveKeepsIds(s: seq<ImageRecord>, from: nat, to: nat)
    requires from < |s| && to < |s| && DistinctIds(s)
    ensures DistinctIds(Move(s, from, to)) && Ids(Move(s, from, to)) == Ids(s)
  {
    IdsSpliceOut(s, from);
    IdsSpliceIn(SpliceOut(s, from), to, s[from]);
  }

  /** A move keeps the invariant. */
  lemma ConsistentMove(images: seq<ImageRecord>, d: map<Id, string>, da: map<Id, string>, a: map<Id, string>,
                       t: map<Id, AccidentTags>, r: map<Id, int>, from: nat, to: nat)
    requires Consistent(images, d, da, a, t, r) && from < |images| && to < |images|
    ensures Consistent(Move(images, from, to), d, da, a, t, r)
  {
    MoveKeepsIds(images, from, to);
  }

  /** The invariant after a drop, stated on the new state. */
  lemma ValidAfterMove(st: State, images: seq<ImageRecord>, from: nat, to: nat)
    requires Consistent(images, st.imageDescriptions, st.imageDates, st.imageAddresses, st.imageAccidentTags,
                        st.imageRotations)
    requires from < |images| && to < |images| && st.selectedImages == Move(images, from, to)
    ensures st.Valid()
  {
    ConsistentMove(images, st.imageDescriptions, st.imageDates, st.imageAddresses, st.imageAccidentTags,
      st.imageRotations, from, to);
  }

  /**
   * `handleImageDrop`: when the dragged card is found and differs from the
   * drop target, the record at `draggedIndex` moves to `dropIndex` and the
   * counter is recounted; otherwise nothing happens.  The indices are the
   * cards' positions, which follow the collection order.
   */
  method HandleImageDrop(st: State, draggedIndex: Option<nat>, dropIndex: nat)
    requires st.Valid()
    requires dropIndex < |st.selectedImages|
    requires draggedIndex.Some? ==> draggedIndex.value < |st.selectedImages|
    modifies st`selectedImages, st`imageCounter
    ensures st.Valid()
    ensures draggedIndex.None? || draggedIndex.value == dropIndex ==> unchanged(st)
    ensures draggedIndex.Some? && draggedIndex.value != dropIndex ==>
      && st.selectedImages == Move(old(st.selectedImages), draggedIndex.value, dropIndex)
      && st.imageCounter == |st.selectedImages|
  {
    if draggedIndex.Some? && draggedIndex.value != dropIndex {
      var from := draggedIndex.value;
      ghost var images := st.selectedImages;
      st.selectedImages := Move(st.selectedImages, from, dropIndex);
      st.imageCounter := |st.selectedImages|;
      ValidAfterMove(st, images, from, dropIndex);
    }
  }

  // ---------------------------------------------------------------------
  // Removal
  // ---------------------------------------------------------------------

  /** `images.filter(img => img.id !== id)`. */
  function FilterOut(images: seq<ImageRecord>, id: Id): (r: seq<ImageRecord>)
    ensures |r| <= |images|
    decreases |images|
  {
    if images == [] then []
    else if images[0].id == id then FilterOut(images[1..], id)
    else [images[0]] + FilterOut(images[1..], id)
  }

  /** After filtering, the id is gone and every other id is still there. */
  lemma {:induction false} FilterOutIds(images: seq<ImageRecord>, id: Id)
    ensures Ids(FilterOut(images, id)) == Ids(images) - {id}
    decreases |images|
  {
    if images != [] {
      FilterOutIds(images[1..], id);
      assert images == [images[0]] + images[1..];
      IdsCons(images[0], images[1..]);
      if images[0].id != id {
        IdsCons(images[0], FilterOut(images[1..], id));
      }
    }
  }

  lemma IdsCons(x: ImageRecord, s: seq<ImageRecord>)
    ensures Ids([x] + s) == {x.id} + Ids(s)
  {
    var r := [x] + s;
    assert r[0] == x;
    forall id | id in Ids(s) ensures id in Ids(r) {
      var k :| 0 <= k < |s| && s[k].id == id;
      assert r[k + 1] == s[k];
    }
    forall id | id in Ids(r) ensures id == x.id || id in Ids(s) {
      var k :| 0 <= k < |r| && r[k].id == id;
      if k > 0 {
        assert r[k] == s[k - 1];
      }
    }
  }

  /** Filtering keeps the records without that id, in order: it removes exactly the one record carrying it. */
  lemma {:induction false} FilterOutAt(images: seq<ImageRecord>, k: nat)
    requires k < |images| && DistinctIds(images)
    ensures FilterOut(images, images[k].id) == SpliceOut(images, k)
    decreases |images|
  {
    var id := images[k].id;
    var tail := images[1..];
    assert DistinctIds(tail) by {
      forall i, j | 0 <= i < j < |tail| ensures tail[i].id != tail[j].id {
        assert tail[i] == images[i + 1] && tail[j] == images[j + 1];
      }
    }
    if k == 0 {
      assert id !in Ids(tail) by {
        forall j | 0 <= j < |tail| ensures tail[j].id != id {
          assert tail[j] == images[j + 1];
        }
      }
      FilterOutAbsent(tail, id);
    } else {
      assert tail[k - 1] == images[k];
      FilterOutAt(tail, k - 1);
      assert images[0].id != id;
      assert SpliceOut(images, k) == [images[0]] + SpliceOut(tail, k - 1);
    }
  }

  /** Filtering by an absent id changes nothing. */
  lemma {:induction false} FilterOutAbsent(images: seq<ImageRecord>, id: Id)
    requires id !in Ids(images)
    ensures FilterOut(images, id) == images
    decreases |images|
  {
    if images != [] {
      assert images[0].id != id;
      assert Ids(images[1..]) <= Ids(images) by {
        forall j | 0 <= j < |images[1..]| ensures images[1..][j].id in Ids(images) {
          assert images[1..][j] == images[j + 1];
        }
      }
      FilterOutAbsent(images[1..], id);
      assert images == [images[0]] + images[1..];
    }
  }

  /** Removing the last-appended record gives back the collection before it. */
  lemma {:induction false} FilterOutAppend(images: seq<ImageRecord>, rec: ImageRecord)
    requires rec.id !in Ids(images)
    ensures FilterOut(images + [rec], rec.id) == images
    decreases |images|
  {
    if images == [] {
      assert [rec][1..] == [];
    } else {
      var s := images + [rec];
      assert s[0] == images[0] && s[1..] == images[1..] + [rec];
      assert Ids(images[1..]) <= Ids(images) by {
        forall j | 0 <= j < |images[1..]| ensures images[1..][j].id in Ids(images) {
          assert images[1..][j] == images[j + 1];
        }
      }
      FilterOutAppend(images[1..], rec);
      assert images == [images[0]] + images[1..];
    }
  }

  /** Filtering keeps distinct ids distinct. */
  lemma FilterOutDistinct(images: seq<ImageRecord>, id: Id)
    requires DistinctIds(images)
    ensures DistinctIds(FilterOut(images, id))
  {
    if id in Ids(images) {
      var k :| 0 <= k < |images| && images[k].id == id;
      FilterOutAt(images, k);
      IdsSpliceOut(images, k);
    } else {
      FilterOutAbsent(images, id);
    }
  }

  /** Filtering out an id and deleting it from every side map keeps the invariant. */
  lemma ConsistentRemove(images: seq<ImageRecord>, d: map<Id, string>, da: map<Id, string>, a: map<Id, string>,
                         t: map<Id, AccidentTags>, r: map<Id, int>, id: Id)
    requires Consistent(images, d, da, a, t, r)
    ensures Consistent(FilterOut(images, id), d - {id}, da - {id}, a - {id}, t - {id}, r - {id})
  {
    FilterOutIds(images, id);
    FilterOutDistinct(images, id);
  }

  /**
   * `removeImage`: after a declined confirmation nothing changes.  After a
   * confirmed one, the edited image (if it is this one) is released, the
   * records with the id are filtered out, the id is deleted from all five
   * side maps and the counter is recounted.
   */
  method RemoveImage(st: State, id: Id, confirmed: bool)
    requires st.Valid()
    modifies st`selectedImages, st`imageCounter, st`imageDescriptions, st`imageDates, st`imageAddresses,
             st`imageAccidentTags, st`imageRotations, st`editingImageId
    ensures st.Valid()
    ensures !confirmed ==> unchanged(st)
    ensures confirmed ==>
      && st.selectedImages == FilterOut(old(st.selectedImages), id)
      && st.imageCounter == |st.selectedImages|
      && st.imageDescriptions == old(st.imageDescriptions) - {id}
      && st.imageDates == old(st.imageDates) - {id}
      && st.imageAddresses == old(st.imageAddresses) - {id}
      && st.imageAccidentTags == old(st.imageAccidentTags) - {id}
      && st.imageRotations == old(st.imageRotations) - {id}
      && st.editingImageId == (if old(st.editingImageId) == Some(id) then None else old(st.editingImageId))
  {
    if !confirmed {
      return;
    }
    if st.editingImageId == Some(id) {
      st.editingImageId := None;
    }
    ConsistentRemove(st.selectedImages, st.imageDescriptions, st.imageDates, st.imageAddresses,
      st.imageAccidentTags, st.imageRotations, id);
    st.selectedImages := FilterOut(st.selectedImages, id);
    st.imageDescriptions := st.imageDescriptions - {id};
    st.imageDates := st.imageDates - {id};
    st.imageAddresses := st.imageAddresses - {id};
    st.imageAccidentTags := st.imageAccidentTags - {id};
    st.imageRotations := st.imageRotations - {id};
    st.imageCounter := |st.selectedImages|;
  }

  // ---------------------------------------------------------------------
  // The image being edited, and rotation
  // ---------------------------------------------------------------------

  /** `setEditingImage`: the given id becomes the edited image; `None` (null) releases it. */
  method SetEditingImage(st: State, imageId: Option<Id>)
    requires st.Valid()
    modifies st`editingImageId
    ensures st.Valid()
    ensures st.editingImageId == imageId
  {
    if imageId.Some? {
      st.editingImageId := Some(imageId.value);
    } else {
      st.editingImageId := None;
    }
  }

  /** `cancelEditing`. */
  method CancelEditing(st: State)
    requires st.Valid()
    modifies st`editingImageId
    ensures st.Valid()
    ensures st.editingImageId == None
  {
    SetEditingImage(st, None);
  }

  /** `handleImageClick` on a card: clicking the edited image releases it, any other becomes the edited one. */
  method HandleImageClick(st: State, imageId: Id)
    requires st.Valid()
    modifies st`editingImageId
    ensures st.Valid()
    ensures st.editingImageId == if old(st.editingImageId) == Some(imageId) then None else Some(imageId)
  {
    if st.editingImageId == Some(imageId) {
      CancelEditing(st);
    } else {
      SetEditingImage(st, Some(imageId));
    }
  }

  /** `(current + degrees + 360) % 360`: the stored angle after one rotation step. */
  function NextRotation(current: int, degrees: int): (r: int)
    requires 0 <= current < 360 && (degrees == 90 || degrees == -90)
    ensures 0 <= r < 360
  {
    JsRem(current + degrees + 360, 360)
  }

  /** One quarter turn, spelled out: add or subtract 90, wrapping around at 360. */
  lemma NextRotationValue(current: int, degrees: int)
    requires 0 <= current < 360 && (degrees == 90 || degrees == -90)
    ensures NextRotation(current, degrees) == if current + degrees >= 360 then current + degrees - 360
                                              else if current + degrees < 0 then current + degrees + 360
                                              else current + degrees
  {
    var n := current + degrees + 360;
    assert 270 <= n < 810;
    if n >= 720 {
      assert n % 360 == n - 720;
    } else if n >= 360 {
      assert n % 360 == n - 360;
    } else {
      assert n % 360 == n;
    }
  }

  /** A quarter turn one way followed by one the other way restores the angle; four quarter turns do too. */
  lemma RotationRoundTrip(current: int)
    requires 0 <= current < 360
    ensures NextRotation(NextRotation(current, 90), -90) == current
    ensures NextRotation(NextRotation(current, -90), 90) == current
    ensures NextRotation(NextRotation(NextRotation(NextRotation(current, 90), 90), 90), 90) == current
  {
    var a := NextRotation(current, 90);
    NextRotationValue(current, 90);
    NextRotationValue(a, -90);
    var b := NextRotation(current, -90);
    NextRotationValue(current, -90);
    NextRotationValue(b, 90);
    var c := NextRotation(a, 90);
    NextRotationValue(a, 90);
    var e := NextRotation(c, 90);
    NextRotationValue(c, 90);
    NextRotationValue(e, 90);
  }

  /** The stored angle, `0` when there is none (`|| 0`). */
  function StoredRotation(rotations: map<Id, int>, id: Id): int {
    if id in rotations then rotations[id] else 0
  }

  /** The index of the first record with the id (`find`), if any. */
  function FindIndex(images: seq<ImageRecord>, id: Id): (r: Option<nat>)
    ensures r.Some? ==> r.value < |images| && images[r.value].id == id
    ensures r.Some? ==> forall j :: 0 <= j < r.value ==> images[j].id != id
    ensures r.None? ==> id !in Ids(images)
    decreases |images|
  {
    if images == [] then None
    else if images[0].id == id then Some(0)
    else
      var t := FindIndex(images[1..], id);
      if t.Some? then Some(t.value + 1)
      else
        assert forall j :: 1 <= j < |images| ==> images[j] == images[1..][j - 1];
        None
  }

  /** A record turned a quarter: new pixel data, width and height exchanged. */
  function Rotated(rec: ImageRecord, data: string, thumbnail: string): (r: ImageRecord)
    ensures r.id == rec.id && r.name == rec.name && r.size == rec.size && r.date == rec.date
    ensures r.width == rec.height && r.height == rec.width
    ensures r.data == data && r.thumbnail == thumbnail
  {
    rec.(data := data, thumbnail := thumbnail, width := rec.height, height := rec.width)
  }

  /**
   * `rotateImage`: with no edited image, or none matching it, nothing
   * changes.  Otherwise its stored angle advances by `degrees` modulo 360
   * and its record takes the rotated pixel data (computed by the canvas,
   * passed in) with width and height exchanged.
   */
  method RotateImage(st: State, degrees: int, rotatedData: string, rotatedThumbnail: string)
    requires st.Valid() && (degrees == 90 || degrees == -90)
    modifies st`selectedImages, st`imageRotations
    ensures st.Valid()
    ensures old(st.editingImageId).None? || FindIndex(old(st.selectedImages), old(st.editingImageId).value).None? ==>
      unchanged(st)
    ensures old(st.editingImageId).Some? && FindIndex(old(st.selectedImages), old(st.editingImageId).value).Some? ==>
      (var id := old(st.editingImageId).value;
       var k := FindIndex(old(st.selectedImages), id).value;
       && st.imageRotations == old(st.imageRotations)[id := NextRotation(StoredRotation(old(st.imageRotations), id), degrees)]
       && st.selectedImages == old(st.selectedImages)[k := Rotated(old(st.selectedImages)[k], rotatedData, rotatedThumbnail)])
  {
    if st.editingImageId.None? {
      return;
    }
    var id := st.editingImageId.value;
    var found := FindIndex(st.selectedImages, id);
    if found.None? {
      return;
    }
    var k := found.value;
    var current := StoredRotation(st.imageRotations, id);
    var angle := NextRotation(current, degrees);
    var updated := Rotated(st.selectedImages[k], rotatedData, rotatedThumbnail);
    ghost var images, rotations := st.selectedImages, st.imageRotations;
    st.imageRotations := st.imageRotations[id := angle];
    st.selectedImages := st.selectedImages[k := updated];
    ValidAfterRotate(st, images, rotations, k, id, updated, angle);
  }

  /** The invariant after a rotation, stated on the new state. */
  lemma ValidAfterRotate(st: State, images: seq<ImageRecord>, r: map<Id, int>, k: nat, id: Id, rec: ImageRecord,
                         angle: int)
    requires Consistent(images, st.imageDescriptions, st.imageDates, st.imageAddresses, st.imageAccidentTags, r)
    requires k < |images| && rec.id == id == images[k].id && 0 <= angle < 360
    requires st.selectedImages == images[k := rec] && st.imageRotations == r[id := angle]
    ensures st.Valid()
  {
    ConsistentRotate(images, st.imageDescriptions, st.imageDates, st.imageAddresses, st.imageAccidentTags, r,
      k, id, rec, angle);
  }

  /** Replacing a record by one with the same id and storing an angle in range for it keeps the invariant. */
  lemma ConsistentRotate(images: seq<ImageRecord>, d: map<Id, string>, da: map<Id, string>, a: map<Id, string>,
                         t: map<Id, AccidentTags>, r: map<Id, int>, k: nat, id: Id, rec: ImageRecord, angle: int)
    requires Consistent(images, d, da, a, t, r) && k < |images| && rec.id == id == images[k].id && 0 <= angle < 360
    ensures Consistent(images[k := rec], d, da, a, t, r[id := angle])
  {
    ReplaceKeepsIds(images, k, rec);
  }

  /** Replacing a record by one with the same id keeps the ids. */
  lemma ReplaceKeepsIds(images: seq<ImageRecord>, k: nat, rec: ImageRecord)
    requires k < |images| && rec.id == images[k].id
    ensures Ids(images[k := rec]) == Ids(images)
    ensures DistinctIds(images) ==> DistinctIds(images[k := rec])
  {
    var r := images[k := rec];
    assert forall j :: 0 <= j < |images| ==> r[j].id == images[j].id;
  }

  // ---------------------------------------------------------------------
  // The per-image inputs
  // ---------------------------------------------------------------------

  /** Which per-image text input fired. */
  datatype TextField = DateField | AddressField | DescriptionField

  /** The date, address or description input of a present image stores its new text under the id. */
  method SetImageText(st: State, id: Id, field: TextField, text: string)
    requires st.Valid() && id in Ids(st.selectedImages)
    modifies st`imageDates, st`imageAddresses, st`imageDescriptions
    ensures st.Valid()
    ensures st.imageDates == if field == DateField then old(st.imageDates)[id := text] else old(st.imageDates)
    ensures st.imageAddresses == if field == AddressField then old(st.imageAddresses)[id := text] else old(st.imageAddresses)
    ensures st.imageDescriptions == if field == DescriptionField then old(st.imageDescriptions)[id := text]
                                    else old(st.imageDescriptions)
  {
    match field
    case DateField => st.imageDates := st.imageDates[id := text];
    case AddressField => st.imageAddresses := st.imageAddresses[id := text];
    case DescriptionField => st.imageDescriptions := st.imageDescriptions[id := text];
  }

  /** A checklist box of a present image records whether that option is ticked. */
  method SetTagChecked(st: State, id: Id, optionId: string, checked: bool)
    requires st.Valid() && id in Ids(st.selectedImages)
    modifies st`imageAccidentTags
    ensures st.Valid()
    ensures id in st.imageAccidentTags && (optionId in st.imageAccidentTags[id].checked) == checked
    ensures st.imageAccidentTags == old(st.imageAccidentTags)[id := old(st.imageAccidentTags)[id].(
      checked := if checked then old(st.imageAccidentTags)[id].checked + {optionId}
                 else old(st.imageAccidentTags)[id].checked - {optionId})]
  {
    var tags := st.imageAccidentTags[id];
    var boxes := if checked then tags.checked + {optionId} else tags.checked - {optionId};
    st.imageAccidentTags := st.imageAccidentTags[id := tags.(checked := boxes)];
  }

  /** The text next to the `other` option of a present image. */
  method SetOtherText(st: State, id: Id, text: string)
    requires st.Valid() && id in Ids(st.selectedImages)
    modifies st`imageAccidentTags
    ensures st.Valid()
    ensures st.imageAccidentTags == old(st.imageAccidentTags)[id := old(st.imageAccidentTags)[id].(otherText := text)]
  {
    st.imageAccidentTags := st.imageAccidentTags[id := st.imageAccidentTags[id].(otherText := text)];
  }
}
