/**
 * Pure helpers: capture-date formatting in Republic-of-China years, the
 * time stamp used in file names, and the dimension arithmetic of the two
 * canvas resizes (preview thumbnail and document copy).
 */
module Utils {
  import opened Wrappers
  import opened JsText
  import opened AppState

  /** Gregorian year minus this is the Republic-of-China (Minguo) year. */
  const RocOffset: int := 1911

  type Month0 = m: int | 0 <= m < 12
  type Day = d: int | 1 <= d <= 31 witness 1
  type Hour = h: int | 0 <= h < 24
  type Minute = m: int | 0 <= m < 60

  /** The local-time fields of a JavaScript `Date`, as its getters return them (month from 0). */
  datatype DateParts = DateParts(year: int, month0: Month0, day: Day, hours: Hour, minutes: Minute)

  /**
   * A capture date as a metadata reader hands it over: nothing (`null`,
   * `undefined`), a string (EXIF.js, "YYYY:MM:DD hh:mm:ss"), a `Date`
   * (exifr), or any other value.
   */
  datatype ExifValue = Missing | Text(s: string) | When(d: DateParts) | OtherValue

  /** JavaScript truthiness of a metadata value. */
  predicate Truthy(v: ExifValue) {
    match v
    case Missing => false
    case Text(s) => s != ""
    case When(_) => true
    case OtherValue => true
  }

  /** `String(n).padStart(2, "0")`. */
  function PadStart2(n: nat): (s: string)
    ensures n < 100 ==> |s| == 2 && AllDigits(s) && DigitsValue(s) == n
  {
    var t := NatToString(n);
    NatToStringRoundTrip(n);
    if |t| >= 2 then t else "0" + t
  }

  /** `("0" + n).slice(-2)`: the last two characters. */
  function LastTwo(n: nat): (s: string)
    ensures |s| == 2
  {
    var t := "0" + NatToString(n);
    t[|t| - 2..]
  }

  /** The two padding idioms agree on every value below 100. */
  lemma LastTwoIsPadStart2(n: nat)
    requires n < 100
    ensures LastTwo(n) == PadStart2(n)
  {
    var t := NatToString(n);
    if n >= 10 {
      assert |NatToString(n / 10)| == 1;
      assert |t| == 2;
      assert ("0" + t)[1..] == t;
    }
  }

  /** How JavaScript's template literal prints a destructured field that may be `undefined`. */
  function Shown(field: Option<string>): string {
    field.GetOr("undefined")
  }

  /** `${n - 1911}` for a parsed year `n`; `NaN` when nothing was parsed. */
  function YearShown(n: Option<int>): string {
    if n.Some? then IntToString(n.value - RocOffset) else "NaN"
  }

  /** `${parseInt(y, 10) - 1911}`; `NaN` when `y` has no leading digits. */
  function RocYearText(y: string): string {
    YearShown(ParseInt(y))
  }

  /**
   * `formatExifDate`: the capture date as "ROC-year/MM/DD hh:mm".  A `Date`
   * has its fields zero-padded; a string is split at the first space into a
   * date and a time part and at colons inside each, the fields passing
   * through as written and the seconds dropped.  Falsy input, other values
   * and a string without both parts give "".
   */
  function FormatExifDate(v: ExifValue): string {
    match v
    case Missing => ""
    case OtherValue => ""
    case When(d) =>
      IntToString(d.year - RocOffset) + "/" + PadStart2(d.month0 + 1) + "/" + PadStart2(d.day)
      + " " + PadStart2(d.hours) + ":" + PadStart2(d.minutes)
    case Text(s) =>
      if s == "" then ""
      else
        var datePart := Split(s, ' ')[0];
        var timePart := FieldAt(s, ' ', 1);
        if datePart == [] || timePart.None? || timePart.value == [] then ""
        else
          RocYearText(Split(datePart, ':')[0]) + "/" + Shown(FieldAt(datePart, ':', 1))
          + "/" + Shown(FieldAt(datePart, ':', 2))
          + " " + Shown(FieldAt(timePart.value, ':', 0)) + ":" + Shown(FieldAt(timePart.value, ':', 1))
  }

  /** The three ways to get "": nothing usable, a non-string non-date, or a string lacking a date or time part. */
  lemma FormatExifDateEmptyIff(v: ExifValue)
    ensures FormatExifDate(v) == "" <==>
      || !Truthy(v)
      || v.OtherValue?
      || (v.Text? && (Split(v.s, ' ')[0] == [] || |Split(v.s, ' ')| < 2 || Split(v.s, ' ')[1] == []))
  {
    if v.When? {
      assert |FormatExifDate(v)| >= 1;
    }
  }

  /** Splitting "a<sep>b<sep>c" where no part holds the separator. */
  lemma SplitThree(a: string, b: string, c: string, sep: char)
    requires sep !in a && sep !in b && sep !in c
    ensures Split(a + [sep] + b + [sep] + c, sep) == [a, b, c]
  {
    SplitAround(b, sep, c);
    SplitNoSeparator(b, sep);
    SplitNoSeparator(c, sep);
    assert Split(b + [sep] + c, sep) == [b, c];
    assert a + [sep] + b + [sep] + c == a + [sep] + (b + [sep] + c);
    SplitAround(a, sep, b + [sep] + c);
    SplitNoSeparator(a, sep);
  }

  /** Reading a string whose space split and colon splits are known. */
  lemma FormatExifDateOfFields(s: string, datePart: string, timePart: string,
                               y: string, mo: string, d: string, h: string, mi: string, sec: string)
    requires s != [] && datePart != [] && timePart != []
    requires Split(s, ' ') == [datePart, timePart]
    requires Split(datePart, ':') == [y, mo, d]
    requires Split(timePart, ':') == [h, mi, sec]
    ensures FormatExifDate(Text(s)) == RocYearText(y) + "/" + mo + "/" + d + " " + h + ":" + mi
  {
    assert FieldAt(s, ' ', 1) == Some(timePart);
    assert FieldAt(datePart, ':', 1) == Some(mo);
    assert FieldAt(datePart, ':', 2) == Some(d);
    assert FieldAt(timePart, ':', 0) == Some(h);
    assert FieldAt(timePart, ':', 1) == Some(mi);
  }

  lemma DigitsHaveNoSeparators(y: string)
    requires AllDigits(y)
    ensures ' ' !in y && ':' !in y
  {
    forall i | 0 <= i < |y| ensures y[i] != ' ' && y[i] != ':' {
      assert IsDigit(y[i]);
    }
  }

  /**
   * An EXIF string "Y:M:D h:m:s" becomes "(Y-1911)/M/D h:m": the year goes
   * through `parseInt`, the month, day, hour and minute pass through
   * verbatim and the seconds are dropped.
   */
  lemma FormatExifDateOfExifString(y: string, mo: string, d: string, h: string, mi: string, sec: string)
    requires y != [] && ':' !in y && ' ' !in y
    requires ':' !in mo && ':' !in d && ':' !in h && ':' !in mi && ':' !in sec
    requires ' ' !in mo && ' ' !in d && ' ' !in h && ' ' !in mi && ' ' !in sec
    ensures FormatExifDate(Text(y + ":" + mo + ":" + d + " " + h + ":" + mi + ":" + sec))
         == RocYearText(y) + "/" + mo + "/" + d + " " + h + ":" + mi
  {
    var datePart := y + [':'] + mo + [':'] + d;
    var timePart := h + [':'] + mi + [':'] + sec;
    var s := datePart + [' '] + timePart;
    assert s == y + ":" + mo + ":" + d + " " + h + ":" + mi + ":" + sec;
    assert ' ' !in datePart && ' ' !in timePart;
    SplitAround(datePart, ' ', timePart);
    SplitNoSeparator(datePart, ' ');
    SplitNoSeparator(timePart, ' ');
    SplitThree(y, mo, d, ':');
    SplitThree(h, mi, sec, ':');
    FormatExifDateOfFields(s, datePart, timePart, y, mo, d, h, mi, sec);
  }

  /** A year written in decimal is shown as `year - 1911`. */
  lemma RocYearTextOfNat(year: nat)
    ensures RocYearText(NatToString(year)) == IntToString(year - RocOffset)
  {
    ParseIntOfNatToString(year);
    assert RocYearText(NatToString(year)) == YearShown(Some(year));
  }

  /** The EXIF text form "YYYY:MM:DD hh:mm:ss" of a date (seconds given separately). */
  function ExifString(d: DateParts, seconds: nat): string
    requires d.year >= 0
  {
    NatToString(d.year) + ":" + PadStart2(d.month0 + 1) + ":" + PadStart2(d.day)
    + " " + PadStart2(d.hours) + ":" + PadStart2(d.minutes) + ":" + PadStart2(seconds)
  }

  /** A two-digit field holds neither separator. */
  lemma TwoDigitsHaveNoSeparators(n: nat)
    requires n < 100
    ensures ':' !in PadStart2(n) && ' ' !in PadStart2(n)
  {
    var s := PadStart2(n);
    assert IsDigit(s[0]) && IsDigit(s[1]);
  }

  /**
   * The two metadata readers agree: a capture time handed over as a `Date`
   * (HEIC files) and the same time as an EXIF string (other files) are
   * shown identically.
   */
  lemma DateAndExifStringAgree(d: DateParts, seconds: nat)
    requires d.year >= 0 && seconds < 60
    ensures FormatExifDate(When(d)) == FormatExifDate(Text(ExifString(d, seconds)))
  {
    TwoDigitsHaveNoSeparators(d.month0 + 1);
    TwoDigitsHaveNoSeparators(d.day);
    TwoDigitsHaveNoSeparators(d.hours);
    TwoDigitsHaveNoSeparators(d.minutes);
    TwoDigitsHaveNoSeparators(seconds);
    RocYearTextOfNat(d.year);
    DigitsHaveNoSeparators(NatToString(d.year));
    FormatExifDateOfExifString(NatToString(d.year), PadStart2(d.month0 + 1), PadStart2(d.day),
      PadStart2(d.hours), PadStart2(d.minutes), PadStart2(seconds));
  }

  /** `getFormattedDate`: ROC year, then month, day, "_", hour and minute, two digits each. */
  function GetFormattedDate(now: DateParts): string {
    IntToString(now.year - RocOffset) + LastTwo(now.month0 + 1) + LastTwo(now.day)
    + "_" + LastTwo(now.hours) + LastTwo(now.minutes)
  }

  /**
   * The time stamp splits back into its fields: after the year come the
   * two-character month, day, "_", hour and minute.
   */
  lemma GetFormattedDateFields(now: DateParts)
    ensures var y := IntToString(now.year - RocOffset);
      var r := GetFormattedDate(now);
      && |r| == |y| + 9
      && r[..|y|] == y
      && r[|y| + 4] == '_'
      && r[|y|..|y| + 2] == LastTwo(now.month0 + 1)
      && r[|y| + 2..|y| + 4] == LastTwo(now.day)
      && r[|y| + 5..|y| + 7] == LastTwo(now.hours)
      && r[|y| + 7..] == LastTwo(now.minutes)
  {
    StampFields(IntToString(now.year - RocOffset), LastTwo(now.month0 + 1), LastTwo(now.day),
      LastTwo(now.hours), LastTwo(now.minutes));
  }

  /** Each two-character field of the stamp reads back as the number it was made from. */
  lemma LastTwoReadsBack(n: nat)
    requires n < 100
    ensures AllDigits(LastTwo(n)) && DigitsValue(LastTwo(n)) == n
  {
    LastTwoIsPadStart2(n);
  }

  /** Slicing "y mo d _ h mi" (each of mo, d, h, mi two characters) back into its fields. */
  lemma StampFields(y: string, mo: string, d: string, h: string, mi: string)
    requires |mo| == 2 && |d| == 2 && |h| == 2 && |mi| == 2
    ensures var r := y + mo + d + "_" + h + mi;
      && |r| == |y| + 9
      && r[..|y|] == y && r[|y|..|y| + 2] == mo && r[|y| + 2..|y| + 4] == d
      && r[|y| + 4] == '_' && r[|y| + 5..|y| + 7] == h && r[|y| + 7..] == mi
  {
  }

  // ---------------------------------------------------------------------
  // Resize arithmetic.  A canvas dimension is an integer: assigning a
  // fractional size truncates it.
  // ---------------------------------------------------------------------

  const MaxThumbnailSide := 800
  const MaxDocSide := 1200

  /**
   * The reference rule: a picture whose longer side is within `limit` keeps
   * its size; otherwise the longer side (width on a tie goes to height)
   * becomes `limit` and the other side is scaled by the same factor,
   * truncated.
   */
  function FitLongestSide(w: Pixels, h: Pixels, limit: Pixels): (nat, nat) {
    if w <= limit && h <= limit then (w, h)
    else if w > h then (limit, (h * limit) / w)
    else ((w * limit) / h, limit)
  }

  /** `createThumbnail`'s size computation, branch for branch. */
  function ThumbnailSize(w: Pixels, h: Pixels): (r: (nat, nat))
    ensures r == FitLongestSide(w, h, MaxThumbnailSide)
  {
    if w > h then
      if w > MaxThumbnailSide then (MaxThumbnailSide, (h * MaxThumbnailSide) / w) else (w, h)
    else
      if h > MaxThumbnailSide then ((w * MaxThumbnailSide) / h, MaxThumbnailSide) else (w, h)
  }

  /** `resizeImageForDoc`'s size computation, branch for branch. */
  function DocResizeSize(w: Pixels, h: Pixels): (r: (nat, nat))
    ensures r == FitLongestSide(w, h, MaxDocSide)
  {
    if w > MaxDocSide || h > MaxDocSide then
      if w > h then (MaxDocSide, (h * MaxDocSide) / w) else ((w * MaxDocSide) / h, MaxDocSide)
    else (w, h)
  }

  /** Truncating division brackets the exact quotient. */
  lemma DivBrackets(a: nat, b: Pixels)
    ensures (a / b) * b <= a < (a / b + 1) * b
  {
    var q, r := a / b, a % b;
    assert a == q * b + r && 0 <= r < b;
  }

  /**
   * Scaling the shorter side by limit/longer: the result stays within both
   * the side and the limit, and brackets the exact proportional value.
   */
  lemma ScaledSide(short: Pixels, long: Pixels, limit: Pixels)
    requires short <= long && limit < long
    ensures var n := (short * limit) / long;
      && n <= short && n <= limit
      && n * long <= short * limit < (n + 1) * long
  {
    var n := (short * limit) / long;
    DivBrackets(short * limit, long);
    assert short * limit <= short * long;
    assert short * limit <= limit * long;
    CancelFactor(n, short, long);
    CancelFactor(n, limit, long);
  }

  /** Cancelling a positive factor on both sides of `<=`. */
  lemma CancelFactor(a: int, b: int, c: Pixels)
    requires a * c <= b * c
    ensures a <= b
  {
    assert a > b ==> (a - b) * c >= c;
  }

  /**
   * The fitted size never enlarges, keeps both sides within `limit`, is the
   * original exactly when the original already fits, sets the longer side to
   * `limit` otherwise, and keeps the aspect ratio up to truncation of the
   * shorter side.
   */
  lemma FitLongestSideProperties(w: Pixels, h: Pixels, limit: Pixels)
    ensures var (nw, nh) := FitLongestSide(w, h, limit);
      && nw <= w && nh <= h
      && nw <= limit && nh <= limit
      && ((nw, nh) == (w, h) <==> (w <= limit && h <= limit))
      && (w > limit || h > limit ==> (if w > h then nw == limit else nh == limit))
      && (w > limit || h > limit ==>
            if w > h then nh * w <= h * limit < (nh + 1) * w
            else nw * h <= w * limit < (nw + 1) * h)
  {
    if !(w <= limit && h <= limit) {
      if w > h {
        ScaledSide(h, w, limit);
      } else {
        ScaledSide(w, h, limit);
      }
    }
  }
}
