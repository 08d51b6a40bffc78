/**
 * Text that both exporters put on a photo log page in the same way: the
 * accident checklist line (each exporter with its own checked glyph), the
 * number label of a criminal-case picture, and the two-pictures-per-page
 * page count.
 */
module FormText {
  import opened JsText
  import opened AppState

  // ---------------------------------------------------------------- checklist

  /** The unchecked glyph of both exporters. */
  const UncheckedBox := '□'
  /** What stands after "其他:" when no free text is shown: eleven underscores. */
  const OtherPlaceholder := "___________"

  /** The text after the box: the caption, or for `other` "其他:" and the free text or the placeholder. */
  function FragmentBody(tags: AccidentTags, option: TagOption): string {
    if option.id == OtherId then
      "其他:" + (if option.id in tags.checked && tags.otherText != "" then tags.otherText else OtherPlaceholder)
    else
      option.caption
  }

  /** The text of one checklist option for one image's checklist, ticked boxes drawn as `checkedBox`. */
  function TagFragment(tags: AccidentTags, option: TagOption, checkedBox: char): (f: string)
    ensures |f| >= 1
    ensures f[0] == (if option.id in tags.checked then checkedBox else UncheckedBox)
    ensures f[1..] == FragmentBody(tags, option)
  {
    [if option.id in tags.checked then checkedBox else UncheckedBox] + FragmentBody(tags, option)
  }

  /** One fragment per checklist option, in vocabulary order. */
  function TagFragments(tags: AccidentTags, checkedBox: char): (fs: seq<string>)
    ensures |fs| == |AccidentTagOptions()|
    ensures forall k :: 0 <= k < |fs| ==> fs[k] == TagFragment(tags, AccidentTagOptions()[k], checkedBox)
  {
    var options := AccidentTagOptions();
    seq(|options|, k requires 0 <= k < |options| => TagFragment(tags, options[k], checkedBox))
  }

  /** `generateAccidentTagsText`: the fragments joined by single spaces. */
  function TagsLine(tags: AccidentTags, checkedBox: char): string {
    Join(TagFragments(tags, checkedBox), " ")
  }

  /** No option caption holds a space, so the line splits back at its spaces. */
  lemma CaptionsHaveNoSpace()
    ensures forall k :: 0 <= k < |AccidentTagOptions()| ==> ' ' !in AccidentTagOptions()[k].caption
  {
    var options := AccidentTagOptions();
    forall k | 0 <= k < |options|
      ensures ' ' !in options[k].caption
    {
      assert options[k].caption in {"現場全景", "車損", "車體擦痕", "機車倒地", "煞車痕", "刮地痕", "拖痕",
        "道路設施", "人倒地", "人受傷部位", "落土", "碎片", "其他："};
    }
  }

  /**
   * The checklist line decodes back: splitting it at spaces gives the first
   * twelve fragments unchanged, each starting with the checked glyph exactly
   * when its option is ticked, followed by the fields of the `other`
   * fragment; that fragment shows the free text exactly when `other` is
   * ticked and the text is non-empty.
   */
  lemma {:induction false} TagsLineDecodes(tags: AccidentTags, checkedBox: char)
    requires checkedBox != ' '
    ensures var fields := Split(TagsLine(tags, checkedBox), ' ');
            var options := AccidentTagOptions();
            && |fields| >= 13
            && (forall k :: 0 <= k < 12 ==>
                  fields[k] == [if options[k].id in tags.checked then checkedBox else UncheckedBox] + options[k].caption)
            && fields[12..] == Split(TagFragments(tags, checkedBox)[12], ' ')
    ensures var other := TagFragments(tags, checkedBox)[12];
            && other[..4] == [other[0]] + "其他:"
            && (OtherId in tags.checked && tags.otherText != "" ==> other[4..] == tags.otherText)
            && (!(OtherId in tags.checked && tags.otherText != "") ==> other[4..] == OtherPlaceholder)
  {
    var fs := TagFragments(tags, checkedBox);
    var options := AccidentTagOptions();
    CaptionsHaveNoSpace();
    var head := fs[..12];
    forall k | 0 <= k < 12
      ensures ' ' !in head[k]
    {
      assert head[k] == [head[k][0]] + options[k].caption;
    }
    JoinSnoc(head, fs[12], " ");
    assert head + [fs[12]] == fs;
    SplitAround(Join(head, " "), ' ', fs[12]);
    SplitJoin(head, ' ');
    var other := fs[12];
    assert other == TagFragment(tags, options[12], checkedBox);
  }

  /**
   * Two checklist lines drawn with different checked glyphs hold the same
   * fragments up to their first character, and each fragment starts with
   * its exporter's checked glyph under the same condition.
   */
  lemma TagsLinesAgree(tags: AccidentTags, box1: char, box2: char)
    requires box1 != UncheckedBox && box2 != UncheckedBox
    ensures var fs1, fs2 := TagFragments(tags, box1), TagFragments(tags, box2);
            && |fs1| == |fs2|
            && forall k :: 0 <= k < |fs1| ==>
                 && fs1[k][1..] == fs2[k][1..]
                 && (fs1[k][0] == box1 <==> fs2[k][0] == box2)
  {
  }

  // ---------------------------------------------------------------- numbering

  /** The number label of a criminal-case picture. */
  function Label(index: nat): string {
    "編號(" + NatToString(index) + ")"
  }

  /** Different numbers give different labels. */
  lemma LabelInjective(a: nat, b: nat)
    ensures Label(a) == Label(b) <==> a == b
  {
    if Label(a) == Label(b) {
      var sa, sb := NatToString(a), NatToString(b);
      assert Label(a)[3..|Label(a)| - 1] == sa;
      assert Label(b)[3..|Label(b)| - 1] == sb;
      NatToStringInjective(a, b);
    }
  }

  /** Number of pages of N pictures laid out two per page: `Math.ceil(N / 2)`. */
  function PageCount(n: nat): (r: nat)
    ensures 2 * r - 1 <= n <= 2 * r
    ensures n == 0 <==> r == 0
  {
    (n + 1) / 2
  }
}
