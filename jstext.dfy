/**
 * The JavaScript built-ins the application relies on, stated over Dafny
 * sequences and integers: `String(n)` for integers, `split` on one
 * separator, `join`, `pop` of a split, `toLowerCase` (ASCII letters),
 * `endsWith`, `trim`, `parseInt(s, 10)`, the two uses of `splice`, and the
 * `%` operator.
 */
module JsText {
  import opened Wrappers

  // ---------------------------------------------------------------------
  // Decimal digits and `String(n)`
  // ---------------------------------------------------------------------

  predicate IsDigit(c: char) {
    '0' <= c <= '9'
  }

  predicate AllDigits(s: string) {
    forall i :: 0 <= i < |s| ==> IsDigit(s[i])
  }

  function DigitChar(d: nat): (c: char)
    requires d < 10
    ensures IsDigit(c)
  {
    (d + '0' as int) as char
  }

  function DigitValue(c: char): (d: nat)
    requires IsDigit(c)
    ensures d < 10 && DigitChar(d) == c
  {
    c as int - '0' as int
  }

  /** `String(n)` for a non-negative integer: decimal digits, no leading zero. */
  function NatToString(n: nat): (s: string)
    ensures |s| >= 1 && AllDigits(s)
    ensures n < 10 <==> |s| == 1
    decreases n
  {
    if n < 10 then [DigitChar(n)] else NatToString(n / 10) + [DigitChar(n % 10)]
  }

  /** The value of a string of decimal digits (the inverse of NatToString). */
  function DigitsValue(s: string): nat
    requires AllDigits(s)
    decreases |s|
  {
    if s == [] then 0 else DigitsValue(s[..|s| - 1]) * 10 + DigitValue(s[|s| - 1])
  }

  /** Printing a number and reading it back gives the number. */
  lemma {:induction false} NatToStringRoundTrip(n: nat)
    ensures DigitsValue(NatToString(n)) == n
    decreases n
  {
    var s := NatToString(n);
    if n >= 10 {
      assert s[..|s| - 1] == NatToString(n / 10);
      NatToStringRoundTrip(n / 10);
    }
  }

  /** Distinct numbers print differently. */
  lemma NatToStringInjective(a: nat, b: nat)
    requires NatToString(a) == NatToString(b)
    ensures a == b
  {
    NatToStringRoundTrip(a);
    NatToStringRoundTrip(b);
  }

  /** `String(i)` (template-literal interpolation) for any integer. */
  function IntToString(i: int): (s: string)
    ensures |s| >= 1
    ensures i >= 0 ==> s == NatToString(i)
    ensures i < 0 ==> s == "-" + NatToString(-i)
  {
    if i < 0 then "-" + NatToString(-i) else NatToString(i)
  }

  // ---------------------------------------------------------------------
  // `split` and `join` on one separator
  // ---------------------------------------------------------------------

  /**
   * `s.split(sep)` for a one-element separator: the maximal runs between
   * separators, so there is always at least one field and an empty input
   * gives one empty field.  Generic so that the page-break split of a
   * block list uses the same definition.
   */
  function Split<T(==)>(s: seq<T>, sep: T): (r: seq<seq<T>>)
    ensures |r| >= 1
    decreases |s|
  {
    if s == [] then [[]]
    else if s[0] == sep then [[]] + Split(s[1..], sep)
    else
      var t := Split(s[1..], sep);
      [[s[0]] + t[0]] + t[1..]
  }

  /** The split has more than one field exactly when the separator occurs. */
  lemma {:induction false} SplitSingleIff<T>(s: seq<T>, sep: T)
    ensures |Split(s, sep)| == 1 <==> sep !in s
    decreases |s|
  {
    if s != [] {
      SplitSingleIff(s[1..], sep);
      assert s == [s[0]] + s[1..];
    }
  }

  /** Without a separator the input is its own single field. */
  lemma {:induction false} SplitNoSeparator<T>(s: seq<T>, sep: T)
    requires sep !in s
    ensures Split(s, sep) == [s]
    decreases |s|
  {
    if s != [] {
      SplitNoSeparator(s[1..], sep);
      assert [s[0]] + s[1..] == s;
    }
  }

  /** One step of the split: a leading separator opens a new field, any other element joins the first. */
  lemma SplitCons<T>(c: T, t: seq<T>, sep: T)
    ensures Split([c] + t, sep)
         == if c == sep then [[]] + Split(t, sep)
            else [[c] + Split(t, sep)[0]] + Split(t, sep)[1..]
  {
    assert ([c] + t)[0] == c && ([c] + t)[1..] == t;
  }

  /** Splitting around a separator splits each side on its own. */
  lemma {:induction false} SplitAround<T>(a: seq<T>, sep: T, b: seq<T>)
    ensures Split(a + [sep] + b, sep) == Split(a, sep) + Split(b, sep)
    decreases |a|
  {
    if a == [] {
      assert a + [sep] + b == [sep] + b;
      SplitCons(sep, b, sep);
    } else {
      SplitAround(a[1..], sep, b);
      SplitAroundStep(a[0], a[1..], sep, b);
      assert a == [a[0]] + a[1..];
    }
  }

  /** The inductive step of SplitAround: one more element in front of the left side. */
  lemma SplitAroundStep<T>(c: T, a: seq<T>, sep: T, b: seq<T>)
    requires Split(a + [sep] + b, sep) == Split(a, sep) + Split(b, sep)
    ensures Split([c] + a + [sep] + b, sep) == Split([c] + a, sep) + Split(b, sep)
  {
    assert [c] + a + [sep] + b == [c] + (a + [sep] + b);
    SplitCons(c, a + [sep] + b, sep);
    SplitCons(c, a, sep);
    if c == sep {
      PrependAssoc([], Split(a, sep), Split(b, sep));
    } else {
      MergeHeadAssoc([c], Split(a, sep), Split(b, sep));
    }
  }

  lemma PrependAssoc<U>(x: U, p: seq<U>, q: seq<U>)
    ensures [x] + (p + q) == ([x] + p) + q
  {
  }

  lemma MergeHeadAssoc<U>(c: seq<U>, p: seq<seq<U>>, q: seq<seq<U>>)
    requires |p| >= 1
    ensures [c + (p + q)[0]] + (p + q)[1..] == ([c + p[0]] + p[1..]) + q
  {
    assert (p + q)[0] == p[0];
    assert (p + q)[1..] == p[1..] + q;
  }

  /** No field of a split contains the separator. */
  lemma {:induction false} SplitFieldsHaveNoSeparator<T>(s: seq<T>, sep: T, k: nat)
    requires k < |Split(s, sep)|
    ensures sep !in Split(s, sep)[k]
    decreases |s|
  {
    if s != [] {
      var t := Split(s[1..], sep);
      if s[0] == sep {
        if k > 0 { SplitFieldsHaveNoSeparator(s[1..], sep, k - 1); }
      } else if k == 0 {
        SplitFieldsHaveNoSeparator(s[1..], sep, 0);
        assert Split(s, sep)[0] == [s[0]] + t[0];
      } else {
        SplitFieldsHaveNoSeparator(s[1..], sep, k);
      }
    }
  }

  /** `parts.join(sep)`; joining nothing gives the empty string. */
  function Join<T>(parts: seq<seq<T>>, sep: seq<T>): (r: seq<T>)
    ensures |parts| == 1 ==> r == parts[0]
    decreases |parts|
  {
    if |parts| == 0 then []
    else if |parts| == 1 then parts[0]
    else parts[0] + sep + Join(parts[1..], sep)
  }

  /** Joining one more part appends the separator and that part. */
  lemma {:induction false} JoinSnoc<T>(parts: seq<seq<T>>, last: seq<T>, sep: seq<T>)
    requires |parts| >= 1
    ensures Join(parts + [last], sep) == Join(parts, sep) + sep + last
    decreases |parts|
  {
    if |parts| > 1 {
      JoinSnoc(parts[1..], last, sep);
      assert (parts + [last])[1..] == parts[1..] + [last];
    }
  }

  /** Splitting a join recovers the parts when no part holds the separator. */
  lemma {:induction false} SplitJoin<T>(parts: seq<seq<T>>, sep: T)
    requires |parts| >= 1
    requires forall k :: 0 <= k < |parts| ==> sep !in parts[k]
    ensures Split(Join(parts, [sep]), sep) == parts
    decreases |parts|
  {
    if |parts| == 1 {
      SplitNoSeparator(parts[0], sep);
    } else {
      SplitJoin(parts[1..], sep);
      SplitAround(parts[0], sep, Join(parts[1..], [sep]));
      SplitNoSeparator(parts[0], sep);
      assert parts == [parts[0]] + parts[1..];
    }
  }

  /** `a || b` on strings: `a` unless it is empty. */
  function OrElse(a: string, b: string): (r: string)
    ensures r == "" <==> a == "" && b == ""
    ensures r == a || r == b
  {
    if a != "" then a else b
  }

  /** Digits never hold a dot. */
  lemma DigitsHaveNoDot(s: string)
    requires AllDigits(s)
    ensures '.' !in s
  {
  }

  /**
   * `s.split(sep).pop()`: the text after the last separator, or all of `s`.
   * The result is a separator-free tail of `s` that is either all of `s` or
   * comes right after a separator.
   */
  function LastField<T(==)>(s: seq<T>, sep: T): (r: seq<T>)
    ensures sep !in r
    ensures |r| <= |s| && r == s[|s| - |r|..]
    ensures |r| < |s| ==> s[|s| - |r| - 1] == sep
    ensures sep !in s ==> r == s
  {
    var fields := Split(s, sep);
    SplitFieldsHaveNoSeparator(s, sep, |fields| - 1);
    LastSplitFieldIsTail(s, sep);
    if sep !in s then SplitNoSeparator(s, sep); fields[|fields| - 1] else fields[|fields| - 1]
  }

  /** The last field of a split is a tail of the input, preceded by a separator unless it is all of it. */
  lemma {:induction false} LastSplitFieldIsTail<T>(s: seq<T>, sep: T)
    ensures var fields := Split(s, sep);
            var f := fields[|fields| - 1];
            && |f| <= |s| && f == s[|s| - |f|..]
            && (|f| < |s| ==> s[|s| - |f| - 1] == sep)
    decreases |s|
  {
    if s != [] {
      var fields, t := Split(s, sep), Split(s[1..], sep);
      LastSplitFieldIsTail(s[1..], sep);
      var f := t[|t| - 1];
      assert s[1..][|s| - 1 - |f|..] == s[|s| - |f|..];
      if s[0] != sep && |t| == 1 {
        SplitSingleIff(s[1..], sep);
        SplitNoSeparator(s[1..], sep);
        assert fields[|fields| - 1] == [s[0]] + s[1..] == s;
      } else {
        assert fields[|fields| - 1] == f;
        if |f| < |s| - 1 {
          assert s[|s| - |f| - 1] == s[1..][|s| - 1 - |f| - 1];
        } else if s[0] != sep {
          SplitSingleIff(s[1..], sep);
          SplitFieldsHaveNoSeparator(s[1..], sep, |t| - 1);
          assert false;
        }
      }
    }
  }

  /** Splitting `a`, a separator and a separator-free `b` ends with the field `b`. */
  lemma LastFieldAfter<T>(a: seq<T>, sep: T, b: seq<T>)
    requires sep !in b
    ensures LastField(a + [sep] + b, sep) == b
  {
    SplitAround(a, sep, b);
    SplitNoSeparator(b, sep);
  }

  /** Field `k` of `s.split(sep)`, or `None` when the split has fewer fields (`undefined`). */
  function FieldAt<T(==)>(s: seq<T>, sep: T, k: nat): Option<seq<T>> {
    var fields := Split(s, sep);
    if k < |fields| then Some(fields[k]) else None
  }

  // ---------------------------------------------------------------------
  // Case, suffixes, whitespace
  // ---------------------------------------------------------------------

  function LowerChar(c: char): char {
    if 'A' <= c <= 'Z' then (c as int + 32) as char else c
  }

  /** `toLowerCase`, on the ASCII letters. */
  function ToLower(s: string): (r: string)
    ensures |r| == |s|
    ensures forall i :: 0 <= i < |s| ==> r[i] == LowerChar(s[i])
  {
    seq(|s|, i requires 0 <= i < |s| => LowerChar(s[i]))
  }

  predicate EndsWith<T(==)>(s: seq<T>, suffix: seq<T>) {
    |suffix| <= |s| && s[|s| - |suffix|..] == suffix
  }

  /** The characters JavaScript's `trim` and `parseInt` skip: white space and line terminators. */
  predicate IsJsSpace(c: char) {
    c == '\t' || c == '\n' || c == '\U{000B}' || c == '\U{000C}' || c == '\r' || c == ' '
    || c == '\U{00A0}' || c == '\U{1680}' || ('\U{2000}' <= c <= '\U{200A}')
    || c == '\U{2028}' || c == '\U{2029}' || c == '\U{202F}' || c == '\U{205F}'
    || c == '\U{3000}' || c == '\U{FEFF}'
  }

  function TrimStart(s: string): (r: string)
    ensures |r| <= |s| && r == s[|s| - |r|..]
    ensures forall i :: 0 <= i < |s| - |r| ==> IsJsSpace(s[i])
    ensures r != [] ==> !IsJsSpace(r[0])
    decreases |s|
  {
    if s != [] && IsJsSpace(s[0]) then TrimStart(s[1..]) else s
  }

  function TrimEnd(s: string): (r: string)
    ensures |r| <= |s| && r == s[..|r|]
    ensures forall i :: |r| <= i < |s| ==> IsJsSpace(s[i])
    ensures r != [] ==> !IsJsSpace(r[|r| - 1])
    decreases |s|
  {
    if s != [] && IsJsSpace(s[|s| - 1]) then TrimEnd(s[..|s| - 1]) else s
  }

  /** `s.trim()`: white space cut from both ends. */
  function Trim(s: string): (r: string)
    ensures |r| <= |s|
    ensures r != [] ==> !IsJsSpace(r[0]) && !IsJsSpace(r[|r| - 1])
  {
    var t := TrimStart(s);
    var r := TrimEnd(t);
    assert r != [] ==> r[0] == t[0];
    r
  }

  // ---------------------------------------------------------------------
  // `parseInt(s, 10)`
  // ---------------------------------------------------------------------

  /** The longest prefix of `s` made of decimal digits. */
  function DigitPrefix(s: string): (r: string)
    ensures |r| <= |s| && AllDigits(r) && r == s[..|r|]
    ensures |r| < |s| ==> !IsDigit(s[|r|])
    decreases |s|
  {
    if s != [] && IsDigit(s[0]) then [s[0]] + DigitPrefix(s[1..]) else []
  }

  /**
   * `parseInt(s, 10)`: leading white space is skipped, one optional sign is
   * read, then the longest run of digits; `None` stands for `NaN`, the
   * result when there is no digit at all.
   */
  function ParseInt(s: string): Option<int> {
    var t := TrimStart(s);
    var negative := |t| > 0 && t[0] == '-';
    var body := if |t| > 0 && (t[0] == '-' || t[0] == '+') then t[1..] else t;
    var digits := DigitPrefix(body);
    var magnitude: int := if digits == [] then 0 else DigitsValue(digits);
    if digits == [] then None
    else if negative then Some(-magnitude)
    else Some(magnitude)
  }

  /** A plain digit string parses to its value. */
  lemma ParseIntOfDigits(s: string)
    requires s != [] && AllDigits(s)
    ensures ParseInt(s) == Some(DigitsValue(s))
  {
    assert !IsJsSpace(s[0]);
    assert TrimStart(s) == s;
    DigitPrefixOfDigits(s);
  }

  /** `parseInt(String(n), 10) == n`. */
  lemma ParseIntOfNatToString(n: nat)
    ensures ParseInt(NatToString(n)) == Some(n)
  {
    ParseIntOfDigits(NatToString(n));
    NatToStringRoundTrip(n);
  }

  lemma {:induction false} DigitPrefixOfDigits(s: string)
    requires AllDigits(s)
    ensures DigitPrefix(s) == s
    decreases |s|
  {
    if s != [] {
      DigitPrefixOfDigits(s[1..]);
      assert [s[0]] + s[1..] == s;
    }
  }

  // ---------------------------------------------------------------------
  // Counting occurrences
  // ---------------------------------------------------------------------

  /** How many elements of `s` equal `x`. */
  function Count<T(==)>(s: seq<T>, x: T): (n: nat)
    ensures n <= |s|
    decreases |s|
  {
    if s == [] then 0 else (if s[0] == x then 1 else 0) + Count(s[1..], x)
  }

  /** The count is zero exactly when `x` does not occur. */
  lemma {:induction false} CountZero<T>(s: seq<T>, x: T)
    ensures Count(s, x) == 0 <==> x !in s
    decreases |s|
  {
    if s != [] {
      CountZero(s[1..], x);
      assert x in s <==> s[0] == x || x in s[1..];
    }
  }

  /** Counting distributes over concatenation. */
  lemma {:induction false} CountConcat<T>(a: seq<T>, b: seq<T>, x: T)
    ensures Count(a + b, x) == Count(a, x) + Count(b, x)
    decreases |a|
  {
    if a != [] {
      CountConcat(a[1..], b, x);
      assert (a + b)[1..] == a[1..] + b;
    } else {
      assert a + b == b;
    }
  }

  /** A split has one more field than the input has separators. */
  lemma {:induction false} SplitCountsSeparators<T>(s: seq<T>, sep: T)
    ensures |Split(s, sep)| == Count(s, sep) + 1
    decreases |s|
  {
    if s != [] {
      SplitCountsSeparators(s[1..], sep);
    }
  }

  // ---------------------------------------------------------------------
  // `splice` and `%`
  // ---------------------------------------------------------------------

  /** `a.splice(i, 1)` on an in-range index: the array without element `i`. */
  function SpliceOut<T>(a: seq<T>, i: nat): (r: seq<T>)
    requires i < |a|
    ensures |r| == |a| - 1
    ensures forall k :: 0 <= k < i ==> r[k] == a[k]
    ensures forall k :: i <= k < |r| ==> r[k] == a[k + 1]
  {
    a[..i] + a[i + 1..]
  }

  /** `a.splice(i, 0, x)` with `i <= a.length`: `x` inserted so that it lands at index `i`. */
  function SpliceIn<T>(a: seq<T>, i: nat, x: T): (r: seq<T>)
    requires i <= |a|
    ensures |r| == |a| + 1 && r[i] == x
    ensures forall k :: 0 <= k < i ==> r[k] == a[k]
    ensures forall k :: i < k < |r| ==> r[k] == a[k - 1]
  {
    a[..i] + [x] + a[i..]
  }

  /** Taking out what was just put in gives the array back. */
  lemma SpliceOutOfSpliceIn<T>(a: seq<T>, i: nat, x: T)
    requires i <= |a|
    ensures SpliceOut(SpliceIn(a, i, x), i) == a
  {
  }

  /** Putting back what was just taken out gives the array back. */
  lemma SpliceInOfSpliceOut<T>(a: seq<T>, i: nat)
    requires i < |a|
    ensures SpliceIn(SpliceOut(a, i), i, a[i]) == a
  {
  }

  /** Taking an element out removes exactly one occurrence of it. */
  lemma SpliceOutMultiset<T>(a: seq<T>, i: nat)
    requires i < |a|
    ensures multiset(SpliceOut(a, i)) + multiset{a[i]} == multiset(a)
  {
    assert a == a[..i] + [a[i]] + a[i + 1..];
  }

  /** Putting an element in adds exactly one occurrence of it. */
  lemma SpliceInMultiset<T>(a: seq<T>, i: nat, x: T)
    requires i <= |a|
    ensures multiset(SpliceIn(a, i, x)) == multiset(a) + multiset{x}
  {
    assert a == a[..i] + a[i..];
  }

  /** JavaScript's `%`: the remainder takes the sign of the dividend (division truncates toward zero). */
  function JsRem(a: int, b: int): (r: int)
    requires b > 0
    ensures a >= 0 ==> 0 <= r < b && r == a % b
    ensures a < 0 ==> -b < r <= 0 && r == a + b * ((-a) / b)
  {
    if a >= 0 then a % b else -((-a) % b)
  }
}
