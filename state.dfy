/**
 * The shared application state: the ordered image collection, the per-image
 * side maps keyed by image id, the accident checklist vocabulary and the two
 * form formats.
 */
module AppState {
  import opened Wrappers

  /**
   * An image id: an opaque value, fresh for every imported image.  Ids are
   * built from a clock reading plus a random fraction, so they are never 0
   * and every truthiness test on a present id succeeds.
   */
  type Id = n: int | n > 0 witness 1

  /** A pixel dimension of a decoded image. */
  type Pixels = n: int | n > 0 witness 1

  /**
   * One imported photograph.  `data` and `thumbnail` are data URLs, `name`
   * and `size` describe the file (after HEIC conversion), `width`/`height`
   * the current orientation, `date` the formatted capture date ("" when the
   * file carried none).
   */
  datatype ImageRecord = ImageRecord(
    id: Id,
    data: string,
    thumbnail: string,
    name: string,
    size: nat,
    width: Pixels,
    height: Pixels,
    date: string)

  /**
   * The checklist of one image: the ids of the options whose box is ticked,
   * and the text typed next to the `other` option.
   */
  datatype AccidentTags = AccidentTags(checked: set<string>, otherText: string)

  /** The entry created for a new image, and the default used when none exists (`{}`). */
  const NoTags := AccidentTags({}, "")

  datatype TagOption = TagOption(id: string, caption: string)

  /** The id of the one option that carries free text. */
  const OtherId := "other"

  /** The accident checklist vocabulary, in display order. */
  function AccidentTagOptions(): (opts: seq<TagOption>)
    ensures |opts| == 13
    ensures opts[0] == TagOption("scene", "現場全景")
    ensures opts[12] == TagOption(OtherId, "其他：")
    ensures forall i, j :: 0 <= i < j < |opts| ==> opts[i].id != opts[j].id
    ensures forall i :: 0 <= i < |opts| ==> (opts[i].id == OtherId <==> i == 12)
  {
    [ TagOption("scene", "現場全景"),
      TagOption("carDamage", "車損"),
      TagOption("scratchMark", "車體擦痕"),
      TagOption("motorcycleFall", "機車倒地"),
      TagOption("brakeMark", "煞車痕"),
      TagOption("scrapeMark", "刮地痕"),
      TagOption("dragMark", "拖痕"),
      TagOption("roadFacility", "道路設施"),
      TagOption("personFall", "人倒地"),
      TagOption("injuryPart", "人受傷部位"),
      TagOption("fallenSoil", "落土"),
      TagOption("debris", "碎片"),
      TagOption(OtherId, "其他：") ]
  }

  /** Format key of the criminal-case photo log. */
  const Criminal := "left"
  /** Format key of the traffic-accident photo log. */
  const Traffic := "middle"

  /** Short format names, used in the document file name. */
  function FormatNames(): (m: map<string, string>)
    ensures m.Keys == {Criminal, Traffic}
    ensures m[Criminal] == "刑案" && m[Traffic] == "交通事故"
  {
    map[Criminal := "刑案", Traffic := "交通事故"]
  }

  /** Page titles of the two forms. */
  function FormatTitles(): (m: map<string, string>)
    ensures m.Keys == {Criminal, Traffic}
    ensures m[Criminal] == "刑案照片黏貼表" && m[Traffic] == "(非)道路交通事故照片黏貼紀錄表"
  {
    map[Criminal := "刑案照片黏貼表", Traffic := "(非)道路交通事故照片黏貼紀錄表"]
  }

  /** The ids present in a collection. */
  function Ids(images: seq<ImageRecord>): (r: set<Id>)
    ensures forall k :: 0 <= k < |images| ==> images[k].id in r
    ensures forall id :: id in r ==> exists k :: 0 <= k < |images| && images[k].id == id
  {
    set k | 0 <= k < |images| :: images[k].id
  }

  /** No two records share an id. */
  predicate DistinctIds(images: seq<ImageRecord>) {
    forall i, j :: 0 <= i < j < |images| ==> images[i].id != images[j].id
  }

  /**
   * The collection invariant: ids are unique, every side-map entry belongs
   * to a present image, every present image has a checklist entry, and
   * stored rotations lie in [0, 360).
   */
  ghost predicate Consistent(images: seq<ImageRecord>, descriptions: map<Id, string>, dates: map<Id, string>,
                             addresses: map<Id, string>, tags: map<Id, AccidentTags>, rotations: map<Id, int>)
  {
    && DistinctIds(images)
    && descriptions.Keys <= Ids(images)
    && dates.Keys <= Ids(images)
    && addresses.Keys <= Ids(images)
    && tags.Keys == Ids(images)
    && rotations.Keys <= Ids(images)
    && (forall id :: id in rotations ==> 0 <= rotations[id] < 360)
  }

  /**
   * The entry stored for `id`, or `default` when the map has none (`m[id] ?? default`).
   * Where the source writes `m[id] || default` with default `""` or an empty
   * checklist this is the same; a `||` over a non-empty default is modelled
   * with OrElse on top.
   */
  function Entry<V>(m: map<Id, V>, id: Id, default: V): (v: V)
    ensures id in m ==> v == m[id]
    ensures id !in m ==> v == default
  {
    if id in m then m[id] else default
  }

  /**
   * The sidebar inputs both exporters read when a document is made: case
   * reason, unit, address, the manual date, the photographer field and the
   * auto-date switch.
   */
  datatype FormValues = FormValues(
    caseReason: string,
    caseUnit: string,
    caseAddress: string,
    caseDate: string,
    caseNumber: string,
    isAutoDate: bool)

  /** The value of every state field at one moment, so that a change can be stated as one record update. */
  datatype StateData = StateData(
    selectedImages: seq<ImageRecord>,
    imageCounter: nat,
    isGenerating: bool,
    isInitialized: bool,
    selectedFormat: string,
    viewMode: string,
    imageDescriptions: map<Id, string>,
    imageDates: map<Id, string>,
    imageAddresses: map<Id, string>,
    imageAccidentTags: map<Id, AccidentTags>,
    editingImageId: Option<Id>,
    imageRotations: map<Id, int>)

  /** The shared state object that every module reads and updates. */
  class State {
    var selectedImages: seq<ImageRecord>
    var imageCounter: nat
    var isGenerating: bool
    var isInitialized: bool
    var selectedFormat: string
    var viewMode: string
    var imageDescriptions: map<Id, string>
    var imageDates: map<Id, string>
    var imageAddresses: map<Id, string>
    var imageAccidentTags: map<Id, AccidentTags>
    var editingImageId: Option<Id>
    var imageRotations: map<Id, int>

    /** All fields at once. */
    function Data(): StateData
      reads this
    {
      StateData(selectedImages, imageCounter, isGenerating, isInitialized, selectedFormat, viewMode,
        imageDescriptions, imageDates, imageAddresses, imageAccidentTags, editingImageId, imageRotations)
    }

    /** The collection invariant, on the current field values. */
    ghost predicate Valid()
      reads this
    {
      Consistent(selectedImages, imageDescriptions, imageDates, imageAddresses, imageAccidentTags, imageRotations)
    }

    /** The state at page load. */
    constructor ()
      ensures Valid()
      ensures Data() == StateData([], 0, false, false, Criminal, "grid", map[], map[], map[], map[], None, map[])
    {
      selectedImages := [];
      imageCounter := 0;
      isGenerating := false;
      isInitialized := false;
      selectedFormat := Criminal;
      viewMode := "grid";
      imageDescriptions := map[];
      imageDates := map[];
      imageAddresses := map[];
      imageAccidentTags := map[];
      editingImageId := None;
      imageRotations := map[];
    }
  }
}
