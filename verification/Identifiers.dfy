/**
 Matriculation numbers and employee ids: a prefix and a zero-padded counter, continued from the
 largest stored one in string order (src/users/users.service.ts:1358-1416).
 */
module Identifiers {
  import opened Basics
  import opened Clock

  // ---------- printing and parsing ----------

  function DigitChar(d: nat): (c: char)
    requires d < 10
    ensures IsDigit(c) && DigitValue(c) == d
  {
    ('0' as int + d) as char
  }

  function Digits(n: nat): (s: string)
    ensures s != [] && forall k :: 0 <= k < |s| ==> IsDigit(s[k])
  {
    if n < 10 then [DigitChar(n)] else Digits(n / 10) + [DigitChar(n % 10)]
  }

  function PadStart(s: string, width: nat): string
    decreases width - |s|
  {
    if |s| >= width then s else PadStart(['0'] + s, width)
  }

  function LeadingDigits(s: string): (d: string)
    ensures forall k :: 0 <= k < |d| ==> IsDigit(d[k])
  {
    if s == [] || !IsDigit(s[0]) then [] else [s[0]] + LeadingDigits(s[1..])
  }

  /** parseInt: the number written by the digits at the front, or NaN. */
  function ParseInt(s: string): Option<nat> {
    var digits := LeadingDigits(s);
    if digits == [] then None else Some(NumberOf(digits))
  }

  function Numeral(n: Option<nat>): string {
    if n.Some? then Digits(n.value) else "NaN"
  }

  // ---------- the generator ----------

  predicate StartsWith(s: string, prefix: string) {
    |prefix| <= |s| && s[..|prefix|] == prefix
  }

  /** The first row in descending string order among those with the prefix. */
  function Last(stored: seq<string>, prefix: string): (r: Option<string>)
    ensures r.None? ==> forall s :: s in stored ==> !StartsWith(s, prefix)
    ensures r.Some? ==> r.value in stored && StartsWith(r.value, prefix)
  {
    if stored == [] then None
    else
      var rest := Last(stored[1..], prefix);
      if StartsWith(stored[0], prefix) && (rest.None? || StringLe(rest.value, stored[0])) then Some(stored[0]) else rest
  }

  function Next(stored: seq<string>, prefix: string, width: nat): string {
    var last := Last(stored, prefix);
    var numPart := if last.Some? then last.value[|prefix|..] else "";
    var parsed := ParseInt(numPart);
    var next :=
      if numPart == "" then Some(1)
      else if parsed.Some? then Some(parsed.value + 1)
      else None;
    prefix + PadStart(Numeral(next), width)
  }

  function NextMatricNumber(stored: seq<string>, prefix: string, year: nat): string {
    Next(stored, prefix + "/" + Digits(year) + "/", 4)
  }

  function NextTeacherEmployeeId(stored: seq<string>, prefix: string): string {
    Next(stored, prefix + "/TCH/", 3)
  }

  function NextStaffEmployeeId(stored: seq<string>, prefix: string): string {
    Next(stored, prefix + "/EMP/", 3)
  }

  // ---------- padding then parsing is the identity ----------

  ghost predicate AllDigits(s: string) {
    forall k :: 0 <= k < |s| ==> IsDigit(s[k])
  }

  lemma {:induction false} DigitsNumber(n: nat)
    ensures NumberOf(Digits(n)) == n
  {
    if n >= 10 {
      DigitsNumber(n / 10);
      assert Digits(n)[..|Digits(n)| - 1] == Digits(n / 10);
    } else {
      assert NumberOf([]) == 0;
    }
  }

  lemma {:induction false} LeadingZero(s: string)
    requires AllDigits(s)
    ensures NumberOf(['0'] + s) == NumberOf(s)
  {
    if s != [] {
      LeadingZero(s[..|s| - 1]);
      assert (['0'] + s)[..|s|] == ['0'] + s[..|s| - 1];
    } else {
      assert ['0'][..0] == [];
    }
  }

  lemma {:induction false} PaddingKeepsNumber(s: string, width: nat)
    requires AllDigits(s)
    ensures AllDigits(PadStart(s, width)) && NumberOf(PadStart(s, width)) == NumberOf(s)
    ensures |PadStart(s, width)| == if |s| < width then width else |s|
    decreases width - |s|
  {
    if |s| < width {
      LeadingZero(s);
      PaddingKeepsNumber(['0'] + s, width);
    }
  }

  lemma {:induction false} AllLeadingDigits(s: string)
    requires AllDigits(s)
    ensures LeadingDigits(s) == s
  {
    if s != [] {
      AllLeadingDigits(s[1..]);
    }
  }

  function Padded(n: nat, width: nat): string {
    PadStart(Digits(n), width)
  }

  /** Padding a number and parsing it back gives the number, whatever the width. */
  lemma PadParseRoundTrip(n: nat, width: nat)
    ensures ParseInt(Padded(n, width)) == Some(n)
  {
    DigitsNumber(n);
    PaddingKeepsNumber(Digits(n), width);
    AllLeadingDigits(Padded(n, width));
    assert Padded(n, width) != [];
  }

  // ---------- string order on equal widths is number order ----------

  function Pow10(k: nat): (p: nat)
    ensures p >= 1
  {
    if k == 0 then 1 else 10 * Pow10(k - 1)
  }

  lemma {:induction false} NumberBound(s: string)
    requires AllDigits(s)
    ensures NumberOf(s) < Pow10(|s|)
  {
    if s != [] {
      NumberBound(s[..|s| - 1]);
    }
  }

  lemma TenTimes(d: nat, p: nat)
    ensures 10 * (d * p) == d * (10 * p)
  {}

  lemma {:induction false} NumberFromFront(s: string)
    requires s != [] && AllDigits(s)
    ensures NumberOf(s) == DigitValue(s[0]) * Pow10(|s| - 1) + NumberOf(s[1..])
  {
    var front := s[..|s| - 1];
    if front == [] {
      assert NumberOf(front) == 0 && NumberOf(s[1..]) == 0 && Pow10(0) == 1;
    } else {
      NumberFromFront(front);
      assert s[1..][..|s| - 2] == front[1..];
      TenTimes(DigitValue(s[0]), Pow10(|s| - 2));
    }
  }

  lemma LeadingDigitDecides(x: nat, y: nat, p: nat, a: nat, b: nat)
    requires a < p && b < p
    ensures x * p + a <= y * p + b <==> x < y || (x == y && a <= b)
  {
    if x < y {
      assert (x + 1) * p <= y * p;
    } else if y < x {
      assert (y + 1) * p <= x * p;
    }
  }

  lemma {:induction false} StringOrderIsNumberOrder(a: string, b: string)
    requires |a| == |b| && AllDigits(a) && AllDigits(b)
    ensures StringLe(a, b) <==> NumberOf(a) <= NumberOf(b)
  {
    if a != [] {
      StringOrderIsNumberOrder(a[1..], b[1..]);
      NumberFromFront(a);
      NumberFromFront(b);
      NumberBound(a[1..]);
      NumberBound(b[1..]);
      LeadingDigitDecides(DigitValue(a[0]), DigitValue(b[0]), Pow10(|a| - 1), NumberOf(a[1..]), NumberOf(b[1..]));
    }
  }

  // ---------- the next identifier is new and larger ----------

  /** Generated numbers of the padded width. */
  ghost predicate IsGenerated(s: string, prefix: string, width: nat, n: nat) {
    s == prefix + Padded(n, width) && |Digits(n)| <= width
  }

  ghost predicate AllGenerated(stored: seq<string>, prefix: string, width: nat) {
    forall s :: s in stored && StartsWith(s, prefix) ==> exists n: nat :: IsGenerated(s, prefix, width, n)
  }

  lemma SamePrefixLe(prefix: string, a: string, b: string)
    ensures StringLe(prefix + a, prefix + b) <==> StringLe(a, b)
  {
    if prefix == [] {
      assert prefix + a == a && prefix + b == b;
    } else {
      assert (prefix + a)[1..] == prefix[1..] + a && (prefix + b)[1..] == prefix[1..] + b;
      SamePrefixLe(prefix[1..], a, b);
    }
  }

  lemma GeneratedStartsWith(s: string, prefix: string, width: nat, n: nat)
    ensures IsGenerated(s, prefix, width, n) ==> StartsWith(s, prefix)
  {}

  lemma GeneratedOrder(s: string, t: string, prefix: string, width: nat, m: nat, n: nat)
    requires IsGenerated(s, prefix, width, m) && IsGenerated(t, prefix, width, n)
    ensures StringLe(s, t) <==> m <= n
  {
    PaddingKeepsNumber(Digits(m), width);
    PaddingKeepsNumber(Digits(n), width);
    DigitsNumber(m);
    DigitsNumber(n);
    SamePrefixLe(prefix, Padded(m, width), Padded(n, width));
    StringOrderIsNumberOrder(Padded(m, width), Padded(n, width));
  }

  lemma {:induction false} LastIsMaximum(stored: seq<string>, prefix: string, s: string)
    requires s in stored && StartsWith(s, prefix)
    ensures Last(stored, prefix).Some? && StringLe(s, Last(stored, prefix).value)
  {
    var last, rest := Last(stored, prefix).value, Last(stored[1..], prefix);
    StringLeTotal(last, last);
    if rest.Some? {
      StringLeTotal(rest.value, stored[0]);
    }
    if s in stored[1..] {
      LastIsMaximum(stored[1..], prefix, s);
      StringLeTransitive(s, rest.value, last);
    }
  }

  /** The string maximum carries the numeric maximum. */
  lemma LastIsLargest(stored: seq<string>, prefix: string, width: nat, s: string, n: nat)
    requires AllGenerated(stored, prefix, width) && s in stored && IsGenerated(s, prefix, width, n)
    ensures Last(stored, prefix).Some?
    ensures exists m: nat :: IsGenerated(Last(stored, prefix).value, prefix, width, m) && n <= m
  {
    assert StartsWith(s, prefix);
    LastIsMaximum(stored, prefix, s);
    var last := Last(stored, prefix).value;
    var m: nat :| IsGenerated(last, prefix, width, m);
    GeneratedOrder(s, last, prefix, width, n, m);
  }

  /** After last number m the generator continues with m + 1. */
  lemma NextContinues(stored: seq<string>, prefix: string, width: nat, m: nat)
    requires 0 < width && Last(stored, prefix).Some? && IsGenerated(Last(stored, prefix).value, prefix, width, m)
    ensures Next(stored, prefix, width) == prefix + Padded(m + 1, width)
  {
    var last := Last(stored, prefix).value;
    assert last[|prefix|..] == Padded(m, width);
    PaddingKeepsNumber(Digits(m), width);
    PadParseRoundTrip(m, width);
  }

  lemma DifferentNumbersDiffer(prefix: string, width: nat, m: nat, n: nat)
    requires prefix + Padded(m, width) == prefix + Padded(n, width)
    ensures m == n
  {
    assert (prefix + Padded(m, width))[|prefix|..] == Padded(m, width);
    assert (prefix + Padded(n, width))[|prefix|..] == Padded(n, width);
    PadParseRoundTrip(m, width);
    PadParseRoundTrip(n, width);
  }

  /**
   As long as every stored number under the prefix was generated and has the padded width, the next
   identifier carries a number greater than every stored one and is itself not stored.
   */
  lemma NextIsNewAndLarger(stored: seq<string>, prefix: string, width: nat) returns (next: nat)
    requires 0 < width && AllGenerated(stored, prefix, width)
    ensures Next(stored, prefix, width) == prefix + Padded(next, width)
    ensures forall s, n: nat :: s in stored && IsGenerated(s, prefix, width, n) ==> n < next
    ensures Next(stored, prefix, width) !in stored
  {
    var last := Last(stored, prefix);
    next := 1;
    if last.Some? {
      var m: nat :| IsGenerated(last.value, prefix, width, m);
      NextContinues(stored, prefix, width, m);
      next := m + 1;
      forall s, n: nat | s in stored && IsGenerated(s, prefix, width, n) ensures n < next {
        LastIsLargest(stored, prefix, width, s, n);
        var k: nat :| IsGenerated(last.value, prefix, width, k) && n <= k;
        DifferentNumbersDiffer(prefix, width, m, k);
      }
    } else {
      forall s, n: nat | s in stored ensures !IsGenerated(s, prefix, width, n) {
        GeneratedStartsWith(s, prefix, width, n);
      }
    }
    NewIdNotStored(stored, prefix, width, next);
  }

  /** The three kinds of identifier: as long as all of a kind were generated, at its width, the next one is new. */
  lemma EachKindIsNew(stored: seq<string>, prefix: string, year: nat)
    ensures AllGenerated(stored, prefix + "/" + Digits(year) + "/", 4) ==>
      NextMatricNumber(stored, prefix, year) !in stored
    ensures AllGenerated(stored, prefix + "/TCH/", 3) ==> NextTeacherEmployeeId(stored, prefix) !in stored
    ensures AllGenerated(stored, prefix + "/EMP/", 3) ==> NextStaffEmployeeId(stored, prefix) !in stored
  {
    hide Next, AllGenerated;
    if AllGenerated(stored, prefix + "/" + Digits(year) + "/", 4) {
      var next := NextIsNewAndLarger(stored, prefix + "/" + Digits(year) + "/", 4);
    }
    if AllGenerated(stored, prefix + "/TCH/", 3) {
      var next := NextIsNewAndLarger(stored, prefix + "/TCH/", 3);
    }
    if AllGenerated(stored, prefix + "/EMP/", 3) {
      var next := NextIsNewAndLarger(stored, prefix + "/EMP/", 3);
    }
  }

  lemma NewIdNotStored(stored: seq<string>, prefix: string, width: nat, next: nat)
    requires AllGenerated(stored, prefix, width)
    requires forall s, n: nat :: s in stored && IsGenerated(s, prefix, width, n) ==> n < next
    ensures prefix + Padded(next, width) !in stored
  {
    var id := prefix + Padded(next, width);
    if id in stored {
      assert StartsWith(id, prefix);
      var n: nat :| IsGenerated(id, prefix, width, n);
      DifferentNumbersDiffer(prefix, width, n, next);
    }
  }

  // ---------- where the numbering stops ----------

  lemma {:induction false} DigitCount(n: nat, width: nat)
    requires 0 < width
    ensures |Digits(n)| <= width <==> n < Pow10(width)
  {
    if n < 10 {
      assert Pow10(width) == 10 * Pow10(width - 1);
    } else if width == 1 {
      assert Pow10(1) == 10 * Pow10(0);
      assert Digits(n / 10) != [];
    } else {
      DigitCount(n / 10, width - 1);
    }
  }

  lemma {:induction false} PowerStartsWithOne(k: nat)
    ensures Digits(Pow10(k))[0] == '1' && |Digits(Pow10(k))| == k + 1
  {
    if k == 0 {
      assert Pow10(0) == 1;
    } else {
      PowerStartsWithOne(k - 1);
      assert Pow10(k) / 10 == Pow10(k - 1);
    }
  }

  lemma {:induction false} AllNines(k: nat)
    requires 0 < k
    ensures Pow10(k) >= 10 && Digits(Pow10(k) - 1)[0] == '9' && |Digits(Pow10(k) - 1)| == k
  {
    if k == 1 {
      assert Pow10(1) == 10 * Pow10(0) == 10;
    } else {
      AllNines(k - 1);
      assert (Pow10(k) - 1) / 10 == Pow10(k - 1) - 1;
    }
  }

  /** The numbers 1..m in order of generation. */
  function Series(prefix: string, width: nat, m: nat): seq<string> {
    if m == 0 then [] else Series(prefix, width, m - 1) + [prefix + Padded(m, width)]
  }

  lemma {:induction false} SeriesMembers(prefix: string, width: nat, m: nat)
    ensures forall s :: s in Series(prefix, width, m) <==>
      exists n: nat :: 1 <= n <= m && s == prefix + Padded(n, width)
  {
    if m > 0 {
      SeriesMembers(prefix, width, m - 1);
    }
  }

  lemma SeriesGenerated(prefix: string, width: nat, m: nat)
    requires 0 < width && m < Pow10(width)
    ensures AllGenerated(Series(prefix, width, m), prefix, width)
  {
    SeriesMembers(prefix, width, m);
    forall s | s in Series(prefix, width, m) ensures exists n: nat :: IsGenerated(s, prefix, width, n) {
      var n: nat :| 1 <= n <= m && s == prefix + Padded(n, width);
      DigitCount(n, width);
      assert IsGenerated(s, prefix, width, n);
    }
  }

  /** Below the capacity of the width, each generated number extends the series by one. */
  lemma SeriesExtends(prefix: string, width: nat, m: nat)
    requires 0 < width && m < Pow10(width)
    ensures Next(Series(prefix, width, m), prefix, width) == prefix + Padded(m + 1, width)
    ensures Next(Series(prefix, width, m), prefix, width) !in Series(prefix, width, m)
  {
    SeriesGenerated(prefix, width, m);
    SeriesMembers(prefix, width, m);
    var next := NextIsNewAndLarger(Series(prefix, width, m), prefix, width);
    if m > 0 {
      DigitCount(m, width);
      assert IsGenerated(prefix + Padded(m, width), prefix, width, m);
      var last := Last(Series(prefix, width, m), prefix);
      assert StartsWith(prefix + Padded(m, width), prefix);
      var k: nat :| 1 <= k <= m && last.value == prefix + Padded(k, width);
      DigitCount(k, width);
      NextContinues(Series(prefix, width, m), prefix, width, k);
      DifferentNumbersDiffer(prefix, width, next, k + 1);
    } else {
      DifferentNumbersDiffer(prefix, width, next, 1);
    }
  }

  /** Once 10^width exists, the largest string is still the one of nines before it. */
  lemma {:induction false} NinesStayLast(prefix: string, width: nat)
    requires 0 < width
    ensures Last(Series(prefix, width, Pow10(width)), prefix) == Some(prefix + Padded(Pow10(width) - 1, width))
  {
    var m := Pow10(width);
    AllNines(width);
    PowerStartsWithOne(width);
    var nines, power := prefix + Padded(m - 1, width), prefix + Padded(m, width);
    LastOfSeries(prefix, width, m - 1);
    assert Series(prefix, width, m) == Series(prefix, width, m - 1) + [power];
    assert !StringLe(Padded(m - 1, width), Padded(m, width));
    SamePrefixLe(prefix, Padded(m - 1, width), Padded(m, width));
    LastWithSmaller(Series(prefix, width, m - 1), power, prefix);
  }

  lemma {:induction false} LastOfSeries(prefix: string, width: nat, m: nat)
    requires 0 < width && 0 < m < Pow10(width)
    ensures Last(Series(prefix, width, m), prefix) == Some(prefix + Padded(m, width))
  {
    SeriesGenerated(prefix, width, m);
    SeriesMembers(prefix, width, m);
    DigitCount(m, width);
    var top := prefix + Padded(m, width);
    assert IsGenerated(top, prefix, width, m) && top in Series(prefix, width, m);
    LastIsLargest(Series(prefix, width, m), prefix, width, top, m);
    var last := Last(Series(prefix, width, m), prefix).value;
    var k: nat :| IsGenerated(last, prefix, width, k) && m <= k;
    var n: nat :| 1 <= n <= m && last == prefix + Padded(n, width);
    DifferentNumbersDiffer(prefix, width, k, n);
  }

  /** Appending a row that is not string-larger than the current last one changes nothing. */
  lemma LastWithSmaller(stored: seq<string>, s: string, prefix: string)
    requires StartsWith(s, prefix)
    requires Last(stored, prefix).Some? && !StringLe(Last(stored, prefix).value, s)
    ensures Last(stored + [s], prefix) == Last(stored, prefix)
  {
    var last := Last(stored, prefix).value;
    assert last in stored + [s];
    LastIsMaximum(stored + [s], prefix, last);
    var now := Last(stored + [s], prefix).value;
    assert now in stored;
    LastIsMaximum(stored, prefix, now);
    StringLeTotal(now, last);
  }

  /**
   When the numbers stored under a prefix are exactly 1..m, the next identifier is new if and only if m
   is below the capacity of the width. (With 10^width stored, the generator repeats it for ever.)
   */
  lemma NextIsNewIffBelowCapacity(prefix: string, width: nat, m: nat)
    requires 0 < width && m <= Pow10(width)
    ensures Next(Series(prefix, width, m), prefix, width) !in Series(prefix, width, m) <==> m < Pow10(width)
  {
    if m < Pow10(width) {
      SeriesExtends(prefix, width, m);
    } else {
      NinesStayLast(prefix, width);
      AllNines(width);
      DigitCount(m - 1, width);
      NextContinues(Series(prefix, width, m), prefix, width, m - 1);
      SeriesMembers(prefix, width, m);
    }
  }

  // ---------- the three formats ----------

  /** The first of each kind: prefix, year or kind, and a one padded to four or three digits. */
  lemma FirstOfEachKind()
    ensures NextMatricNumber([], "GFA", 2026) == "GFA/2026/0001"
    ensures NextTeacherEmployeeId([], "GFA") == "GFA/TCH/001"
    ensures NextStaffEmployeeId([], "GFA") == "GFA/EMP/001"
  {
    OnePadded();
    YearPrinted();
    assert Next([], "GFA/2026/", 4) == "GFA/2026/" + "0001";
    assert Next([], "GFA/TCH/", 3) == "GFA/TCH/" + "001";
    assert Next([], "GFA/EMP/", 3) == "GFA/EMP/" + "001";
    assert "GFA" + "/" + "2026" + "/" == "GFA/2026/" && "GFA" + "/TCH/" == "GFA/TCH/" && "GFA" + "/EMP/" == "GFA/EMP/";
  }

  lemma OnePadded()
    ensures Digits(1) == "1" && PadStart("1", 3) == "001" && PadStart("1", 4) == "0001"
  {
    assert DigitChar(1) == '1';
    assert ['0'] + "1" == "01" && ['0'] + "01" == "001" && ['0'] + "001" == "0001";
    assert PadStart("001", 4) == PadStart("0001", 4) == "0001";
    assert PadStart("1", 4) == PadStart("01", 4) == PadStart("001", 4);
  }

  lemma YearPrinted()
    ensures Digits(2026) == "2026"
  {
    assert Digits(2) == "2" && Digits(20) == "2" + "0" && Digits(202) == "20" + "2";
    assert Digits(2026) == "202" + "6";
  }

  /** After a stored identifier of the series the next one counts on: prefix and the padded successor. */
  lemma NextAfterLargest(stored: seq<string>, prefix: string, width: nat, m: nat)
    requires 0 < width && AllGenerated(stored, prefix, width)
    requires prefix + Padded(m, width) in stored && |Digits(m)| <= width
    requires forall s, n: nat :: s in stored && IsGenerated(s, prefix, width, n) ==> n <= m
    ensures Next(stored, prefix, width) == prefix + Padded(m + 1, width)
  {
    var s := prefix + Padded(m, width);
    assert IsGenerated(s, prefix, width, m);
    LastIsLargest(stored, prefix, width, s, m);
    var last := Last(stored, prefix).value;
    var k: nat :| IsGenerated(last, prefix, width, k) && m <= k;
    NextContinues(stored, prefix, width, k);
  }
}
