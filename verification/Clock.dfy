/**
 Times of day as "HH:MM" strings: ordered as strings by the database, compared as minutes by the
 service (src/timetable/dto/timetable-slot.dto.ts:13, src/timetable/timetable.service.ts:653-672).
 */
module Clock {

  predicate IsDigit(c: char) {
    '0' <= c <= '9'
  }

  /** The pattern ^([01]\d|2[0-3]):([0-5]\d)$ that every request is validated against. */
  predicate MatchesPattern(s: string) {
    && |s| == 5 && s[2] == ':'
    && (('0' <= s[0] <= '1' && IsDigit(s[1])) || (s[0] == '2' && '0' <= s[1] <= '3'))
    && '0' <= s[3] <= '5' && IsDigit(s[4])
  }

  type Time = s: string | MatchesPattern(s) witness "00:00"

  function DigitValue(c: char): nat
    requires IsDigit(c)
  {
    c as int - '0' as int
  }

  /** The number written by a string of digits. */
  function NumberOf(s: string): nat
    requires forall k :: 0 <= k < |s| ==> IsDigit(s[k])
  {
    if s == [] then 0 else 10 * NumberOf(s[..|s| - 1]) + DigitValue(s[|s| - 1])
  }

  /** The parts before and after the colon, read as numbers. */
  function TimeToMinutes(t: Time): nat {
    NumberOf(t[..2]) * 60 + NumberOf(t[3..])
  }

  predicate TimesOverlap(aStart: Time, aEnd: Time, bStart: Time, bEnd: Time) {
    TimeToMinutes(aStart) < TimeToMinutes(bEnd) && TimeToMinutes(aEnd) > TimeToMinutes(bStart)
  }

  /** Lexicographic order by character code. */
  predicate StringLe(a: string, b: string) {
    if a == [] then true
    else if b == [] then false
    else a[0] < b[0] || (a[0] == b[0] && StringLe(a[1..], b[1..]))
  }

  lemma {:induction false} StringLeTotal(a: string, b: string)
    ensures StringLe(a, b) || StringLe(b, a)
    ensures StringLe(a, b) && StringLe(b, a) ==> a == b
  {
    if a != [] && b != [] {
      StringLeTotal(a[1..], b[1..]);
      assert a == [a[0]] + a[1..] && b == [b[0]] + b[1..];
    }
  }

  lemma {:induction false} StringLeTransitive(a: string, b: string, c: string)
    requires StringLe(a, b) && StringLe(b, c)
    ensures StringLe(a, c)
  {
    if a != [] && b != [] && c != [] && a[0] == b[0] == c[0] {
      StringLeTransitive(a[1..], b[1..], c[1..]);
    }
  }

  lemma MinutesByDigits(t: Time)
    ensures TimeToMinutes(t)
            == 600 * DigitValue(t[0]) + 60 * DigitValue(t[1]) + 10 * DigitValue(t[3]) + DigitValue(t[4])
    ensures TimeToMinutes(t) < 1440
  {
    assert t[..2] == [t[0], t[1]] && t[3..] == [t[3], t[4]];
    assert [t[0], t[1]][..1] == [t[0]] && [t[3], t[4]][..1] == [t[3]];
    assert [t[0]][..0] == [] && [t[3]][..0] == [];
    assert NumberOf([t[0]]) == DigitValue(t[0]) && NumberOf([t[3]]) == DigitValue(t[3]);
  }

  lemma StringLeFrom(a: string, b: string, k: nat)
    requires k < |a| && k < |b|
    ensures StringLe(a[k..], b[k..]) <==> a[k] < b[k] || (a[k] == b[k] && StringLe(a[k + 1..], b[k + 1..]))
  {
    assert a[k..][1..] == a[k + 1..] && b[k..][1..] == b[k + 1..];
  }

  lemma TwoTimesLe(a: Time, b: Time)
    ensures StringLe(a, b) <==>
      a[0] < b[0]
        || (a[0] == b[0] && (a[1] < b[1] || (a[1] == b[1] && (a[3] < b[3] || (a[3] == b[3] && a[4] <= b[4])))))
  {
    StringLeFrom(a, b, 0);
    StringLeFrom(a, b, 1);
    StringLeFrom(a, b, 2);
    StringLeFrom(a, b, 3);
    StringLeFrom(a, b, 4);
    assert a[0..] == a && b[0..] == b && StringLe(a[5..], b[5..]);
  }

  /** Sorting by string is sorting by time of day. */
  lemma StringOrderIsTimeOrder(a: Time, b: Time)
    ensures StringLe(a, b) <==> TimeToMinutes(a) <= TimeToMinutes(b)
  {
    TwoTimesLe(a, b);
    MinutesByDigits(a);
    MinutesByDigits(b);
  }

  /** Different strings are different times. */
  lemma TimeToMinutesInjective(a: Time, b: Time)
    requires TimeToMinutes(a) == TimeToMinutes(b)
    ensures a == b
  {
    StringOrderIsTimeOrder(a, b);
    StringOrderIsTimeOrder(b, a);
    StringLeTotal(a, b);
  }
}
