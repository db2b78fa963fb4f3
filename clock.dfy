/**
  Time-of-day strings as the availability calculator handles them.

  The calculator never does arithmetic on times itself: it splits strings at
  ':', converts the pieces with JavaScript's Number, sets them as hour and
  minute of a dayjs instant, formats instants back as "HH:mm:ss" and compares
  the formatted strings with JavaScript's relational operators. This module
  states each of those steps, and proves the facts the calculator's
  properties rest on: formatting and reading back are inverse, and the
  lexicographic order of formatted times is the order of the clock.
*/
module Clock {
  import opened Outcome

  /** Minutes since midnight. */
  type MinuteOfDay = m: int | 0 <= m < 1440

  /** Seconds since midnight. */
  type SecondOfDay = s: int | 0 <= s < 86400

  /** What dayjs's format gives for an instant built from NaN. */
  const InvalidDate: string := "Invalid Date"

  // ---------------------------------------------------------------------------
  // Characters and digits

  predicate IsDigit(c: char) {
    '0' <= c <= '9'
  }

  function DigitValue(c: char): (d: nat)
    requires IsDigit(c)
    ensures d < 10
  {
    c as int - '0' as int
  }

  function DigitChar(d: nat): (c: char)
    requires d < 10
    ensures IsDigit(c) && DigitValue(c) == d
  {
    (d + '0' as int) as char
  }

  // ---------------------------------------------------------------------------
  // JavaScript string order

  /**
    JavaScript's `a < b` on strings: lexicographic by character, a proper
    prefix before the longer string.
  */
  predicate LexLess(a: string, b: string) {
    if |a| == 0 then |b| > 0
    else if |b| == 0 then false
    else if a[0] != b[0] then a[0] < b[0]
    else LexLess(a[1..], b[1..])
  }

  /** No string is before itself: `s < s` is false in JavaScript. */
  lemma {:induction false} LexLessIrreflexive(s: string)
    ensures !LexLess(s, s)
  {
    if |s| > 0 {
      LexLessIrreflexive(s[1..]);
    }
  }

  /**
    The order is a strict total order: of two strings, exactly one is before
    the other, or they are equal.
  */
  lemma {:induction false} LexLessTrichotomy(a: string, b: string)
    ensures LexLess(a, b) || a == b || LexLess(b, a)
    ensures !(LexLess(a, b) && LexLess(b, a))
    ensures a == b ==> !LexLess(a, b)
  {
    if |a| > 0 && |b| > 0 && a[0] == b[0] {
      LexLessTrichotomy(a[1..], b[1..]);
      if a[1..] == b[1..] {
        assert a == [a[0]] + a[1..] && b == [b[0]] + b[1..];
      }
    }
  }

  /**
    Comparing two strings that share a first part of the same length: the
    first parts decide unless they are equal, and then the rest decides.
  */
  lemma {:induction false} LexLessAppend(x1: string, y1: string, x2: string, y2: string)
    requires |x1| == |x2|
    ensures LexLess(x1 + y1, x2 + y2) == (LexLess(x1, x2) || (x1 == x2 && LexLess(y1, y2)))
  {
    if |x1| == 0 {
      assert x1 + y1 == y1 && x2 + y2 == y2;
    } else if x1[0] != x2[0] {
      assert (x1 + y1)[0] == x1[0] && (x2 + y2)[0] == x2[0];
    } else {
      assert (x1 + y1)[1..] == x1[1..] + y1;
      assert (x2 + y2)[1..] == x2[1..] + y2;
      LexLessAppend(x1[1..], y1, x2[1..], y2);
      assert x1 == x2 <==> x1[1..] == x2[1..] by {
        if x1[1..] == x2[1..] {
          assert x1 == [x1[0]] + x1[1..] && x2 == [x2[0]] + x2[1..];
        }
      }
    }
  }

  // ---------------------------------------------------------------------------
  // Formatting: dayjs's format("HH:mm:ss")

  function TwoDigits(n: nat): (s: string)
    requires n < 100
  {
    [DigitChar(n / 10), DigitChar(n % 10)]
  }

  /** An instant's time of day, formatted "HH:mm:ss" with zero padding. */
  function Render(t: SecondOfDay): (s: string)
  {
    var h, r := t / 3600, t % 3600;
    TwoDigits(h) + ":" + TwoDigits(r / 60) + ":" + TwoDigits(r % 60)
  }

  /**
    The formatted bound or slot that the calculator compares: the time of day
    of an instant whose seconds were set to 0, or dayjs's "Invalid Date" when
    the instant was built from NaN.
  */
  function FormatMinute(m: Option<MinuteOfDay>): string
  {
    match m
    case None => InvalidDate
    case Some(minute) => Render(minute * 60)
  }

  // ---------------------------------------------------------------------------
  // Well-formed "HH:MM:SS" strings

  function TwoDigitValue(hi: char, lo: char): nat
    requires IsDigit(hi) && IsDigit(lo)
  {
    10 * DigitValue(hi) + DigitValue(lo)
  }

  /** A zero-padded 24-hour "HH:MM:SS" string, as the canonical slots are. */
  predicate WellFormed(s: string) {
    && |s| == 8 && s[2] == ':' && s[5] == ':'
    && IsDigit(s[0]) && IsDigit(s[1]) && IsDigit(s[3])
    && IsDigit(s[4]) && IsDigit(s[6]) && IsDigit(s[7])
    && TwoDigitValue(s[0], s[1]) < 24
    && TwoDigitValue(s[3], s[4]) < 60
    && TwoDigitValue(s[6], s[7]) < 60
  }

  /** The hour and minute of a well-formed time, in minutes since midnight. */
  function ClockMinute(s: string): (m: MinuteOfDay)
    requires WellFormed(s)
  {
    60 * TwoDigitValue(s[0], s[1]) + TwoDigitValue(s[3], s[4])
  }

  /** A well-formed time in seconds since midnight. */
  function SecondsOf(s: string): (t: SecondOfDay)
    requires WellFormed(s)
  {
    60 * ClockMinute(s) + TwoDigitValue(s[6], s[7])
  }

  lemma TwoDigitsOfValue(hi: char, lo: char)
    requires IsDigit(hi) && IsDigit(lo)
    ensures TwoDigits(TwoDigitValue(hi, lo)) == [hi, lo]
  {
    var n := TwoDigitValue(hi, lo);
    assert n / 10 == DigitValue(hi) && n % 10 == DigitValue(lo);
  }

  /** Formatting a time of day gives a well-formed string that reads back as that time. */
  lemma RenderWellFormed(t: SecondOfDay)
    ensures WellFormed(Render(t)) && SecondsOf(Render(t)) == t
  {
    var h, r := t / 3600, t % 3600;
    var s := Render(t);
    assert s[0] == DigitChar(h / 10) && s[1] == DigitChar(h % 10);
    assert s[3] == DigitChar(r / 60 / 10) && s[4] == DigitChar(r / 60 % 10);
    assert s[6] == DigitChar(r % 60 / 10) && s[7] == DigitChar(r % 60 % 10);
    assert TwoDigitValue(s[0], s[1]) == h;
    assert TwoDigitValue(s[3], s[4]) == r / 60;
    assert TwoDigitValue(s[6], s[7]) == r % 60;
  }

  /** "Invalid Date" exactly for NaN; otherwise a well-formed time denoting the minute with 0 seconds. */
  lemma FormatMinuteReadsBack(m: Option<MinuteOfDay>)
    ensures m.None? <==> FormatMinute(m) == InvalidDate
    ensures m.Some? ==> WellFormed(FormatMinute(m)) && SecondsOf(FormatMinute(m)) == 60 * m.value
  {
    if m.Some? {
      RenderWellFormed(m.value * 60);
    }
  }

  /** A well-formed string is the formatting of the time it denotes. */
  lemma RenderSecondsOf(s: string)
    requires WellFormed(s)
    ensures Render(SecondsOf(s)) == s
  {
    var h, m, sec := TwoDigitValue(s[0], s[1]), TwoDigitValue(s[3], s[4]), TwoDigitValue(s[6], s[7]);
    var t := SecondsOf(s);
    assert t / 3600 == h && t % 3600 == 60 * m + sec;
    assert (60 * m + sec) / 60 == m && (60 * m + sec) % 60 == sec;
    TwoDigitsOfValue(s[0], s[1]);
    TwoDigitsOfValue(s[3], s[4]);
    TwoDigitsOfValue(s[6], s[7]);
    assert Render(t) == [s[0], s[1]] + ":" + [s[3], s[4]] + ":" + [s[6], s[7]];
  }

  /** Formatting a well-formed time with its seconds set to 0 keeps its "HH:MM" part. */
  lemma HourMinuteKept(s: string)
    requires WellFormed(s)
    ensures Render(60 * ClockMinute(s))[..5] == s[..5]
  {
    var t := 60 * ClockMinute(s);
    var m := TwoDigitValue(s[3], s[4]);
    assert t / 3600 == TwoDigitValue(s[0], s[1]) && t % 3600 == 60 * m;
    assert (60 * m) / 60 == m;
    TwoDigitsOfValue(s[0], s[1]);
    TwoDigitsOfValue(s[3], s[4]);
    assert Render(t)[..5] == [s[0], s[1]] + ":" + [s[3], s[4]];
  }

  /** A formatted time equals a well-formed string exactly when it is the time that string denotes. */
  lemma RenderMatches(t: SecondOfDay, s: string)
    requires WellFormed(s)
    ensures Render(t) == s <==> t == SecondsOf(s)
  {
    RenderWellFormed(t);
    RenderSecondsOf(s);
  }

  lemma TwoDigitsOrder(p: nat, q: nat)
    requires p < 100 && q < 100
    ensures LexLess(TwoDigits(p), TwoDigits(q)) == (p < q)
    ensures TwoDigits(p) == TwoDigits(q) <==> p == q
  {
    LexLessAppend([DigitChar(p / 10)], [DigitChar(p % 10)], [DigitChar(q / 10)], [DigitChar(q % 10)]);
    assert TwoDigits(p) == TwoDigits(q) ==> p / 10 == q / 10 && p % 10 == q % 10 by {
      if TwoDigits(p) == TwoDigits(q) {
        assert TwoDigits(p)[0] == TwoDigits(q)[0] && TwoDigits(p)[1] == TwoDigits(q)[1];
      }
    }
  }

  /** Prefixing both strings with ':' does not change their order. */
  lemma ColonPrefixedOrder(x: string, y: string)
    ensures LexLess(":" + x, ":" + y) == LexLess(x, y)
    ensures ":" + x == ":" + y <==> x == y
  {
    LexLessAppend(":", x, ":", y);
    LexLessIrreflexive(":");
    if ":" + x == ":" + y {
      assert x == (":" + x)[1..] && y == (":" + y)[1..];
    }
  }

  /** The "mm:ss" part of a formatted time orders as the seconds within the hour. */
  lemma MinuteSecondOrder(ra: nat, rb: nat)
    requires ra < 3600 && rb < 3600
    ensures LexLess(TwoDigits(ra / 60) + (":" + TwoDigits(ra % 60)), TwoDigits(rb / 60) + (":" + TwoDigits(rb % 60))) == (ra < rb)
  {
    TwoDigitsOrder(ra / 60, rb / 60);
    TwoDigitsOrder(ra % 60, rb % 60);
    ColonPrefixedOrder(TwoDigits(ra % 60), TwoDigits(rb % 60));
    LexLessAppend(TwoDigits(ra / 60), ":" + TwoDigits(ra % 60), TwoDigits(rb / 60), ":" + TwoDigits(rb % 60));
    assert (ra < rb) == (ra / 60 < rb / 60 || (ra / 60 == rb / 60 && ra % 60 < rb % 60));
  }

  /**
    The order of formatted times is the order of the clock, which is why the
    calculator may compare "HH:mm:ss" strings instead of numbers.
  */
  lemma RenderOrder(a: SecondOfDay, b: SecondOfDay)
    ensures LexLess(Render(a), Render(b)) == (a < b)
  {
    var ha, ra, hb, rb := a / 3600, a % 3600, b / 3600, b % 3600;
    var tailA := TwoDigits(ra / 60) + (":" + TwoDigits(ra % 60));
    var tailB := TwoDigits(rb / 60) + (":" + TwoDigits(rb % 60));
    assert Render(a) == TwoDigits(ha) + (":" + tailA);
    assert Render(b) == TwoDigits(hb) + (":" + tailB);
    MinuteSecondOrder(ra, rb);
    LexLessIrreflexive(tailA);
    assert tailA == tailB ==> ra == rb by {
      if tailA == tailB {
        assert !LexLess(tailA, tailB) && !LexLess(tailB, tailA);
        MinuteSecondOrder(rb, ra);
      }
    }
    ColonPrefixedOrder(tailA, tailB);
    TwoDigitsOrder(ha, hb);
    LexLessAppend(TwoDigits(ha), ":" + tailA, TwoDigits(hb), ":" + tailB);
    assert (a < b) == (ha < hb || (ha == hb && ra < rb));
  }

  /** Between well-formed times, JavaScript's string `<` is the order of the clock. */
  lemma WellFormedOrder(s1: string, s2: string)
    requires WellFormed(s1) && WellFormed(s2)
    ensures LexLess(s1, s2) == (SecondsOf(s1) < SecondsOf(s2))
  {
    RenderSecondsOf(s1);
    RenderSecondsOf(s2);
    RenderOrder(SecondsOf(s1), SecondsOf(s2));
  }

  /** Every formatted time sorts before "Invalid Date", since digits come before 'I'. */
  lemma RenderBeforeInvalidDate(t: SecondOfDay)
    ensures LexLess(Render(t), InvalidDate)
    ensures !LexLess(InvalidDate, Render(t))
  {
    var s := Render(t);
    assert s[0] == DigitChar(t / 3600 / 10);
  }

  // ---------------------------------------------------------------------------
  // Reading times back: split(":") and Number

  /** The text before the first ':' (the whole string if there is none): `s.split(":")[0]`. */
  function BeforeColon(s: string): (r: string)
    ensures |r| <= |s| && r == s[..|r|]
    ensures ':' !in r
  {
    if |s| == 0 || s[0] == ':' then [] else [s[0]] + BeforeColon(s[1..])
  }

  /** The text after the first ':', or None when there is no ':'. */
  function AfterColon(s: string): (r: Option<string>)
    ensures r.Some? ==> |r.value| < |s| && ':' in s
    ensures r.None? ==> ':' !in s
  {
    if |s| == 0 then None
    else if s[0] == ':' then Some(s[1..])
    else AfterColon(s[1..])
  }

  /** `s.split(":")[1]`: None when the string has no ':' (JavaScript's undefined). */
  function SecondField(s: string): Option<string>
  {
    match AfterColon(s)
    case None => None
    case Some(rest) => Some(BeforeColon(rest))
  }

  /** The second field exists exactly when there is a ':', and it holds no ':' of its own. */
  lemma SecondFieldShape(s: string)
    ensures SecondField(s).Some? <==> ':' in s
    ensures SecondField(s).Some? ==> ':' !in SecondField(s).value && |SecondField(s).value| < |s|
  {
  }

  /** Splitting at the first ':' loses nothing: the two pieces and the ':' make up the string again. */
  lemma {:induction false} SplitRejoins(s: string)
    ensures AfterColon(s).None? ==> BeforeColon(s) == s
    ensures AfterColon(s).Some? ==> s == BeforeColon(s) + [':'] + AfterColon(s).value
  {
    if |s| > 0 && s[0] != ':' {
      SplitRejoins(s[1..]);
      assert s == [s[0]] + s[1..];
    }
  }

  predicate AllDigits(f: string) {
    forall i :: 0 <= i < |f| ==> IsDigit(f[i])
  }

  function DecimalValue(f: string): nat
    requires AllDigits(f)
  {
    if |f| == 0 then 0 else 10 * DecimalValue(f[..|f| - 1]) + DigitValue(f[|f| - 1])
  }

  lemma DecimalTwoDigits(f: string)
    requires |f| == 2 && AllDigits(f)
    ensures DecimalValue(f) == TwoDigitValue(f[0], f[1])
  {
    assert f[..|f| - 1] == [f[0]];
    assert [f[0]][..0] == [];
    assert DecimalValue([f[0]]) == DigitValue(f[0]);
  }

  /**
    JavaScript's Number on a field: the empty string is 0, a run of decimal
    digits is its value, anything else is NaN (None).
  */
  function JsNumber(f: Option<string>): (n: Option<nat>)
    ensures f == Some("") ==> n == Some(0)
    ensures f.None? ==> n.None?
  {
    match f
    case None => None
    case Some(text) => if AllDigits(text) then Some(DecimalValue(text)) else None
  }

  /**
    The UTC time of day of `dayjs().utc().set("hour", Number(f0))
    .set("minute", Number(f1)).set("second", 0)` where f0 and f1 are the
    first two ':'-separated fields of s. An hour or minute past its range
    rolls over into the next hour or day as JavaScript's Date does, so only
    the minutes since midnight modulo a day remain; NaN gives None.
  */
  function UtcMinuteOf(s: string): (m: Option<MinuteOfDay>)
  {
    var hour, minute := JsNumber(Some(BeforeColon(s))), JsNumber(SecondField(s));
    if hour.None? || minute.None? then None
    else Some((60 * hour.value + minute.value) % 1440)
  }

  /** `.local()`: the same instant seen at the given offset from UTC. */
  function ToLocal(m: MinuteOfDay, offsetMinutes: int): (local: MinuteOfDay)
    ensures offsetMinutes == 0 ==> local == m
    ensures (local - m - offsetMinutes) % 1440 == 0
  {
    (m + offsetMinutes) % 1440
  }

  /**
    An hour past 23 rolls over into the next day rather than being rejected:
    "24:30" reads as half past midnight, and a missing minute field is NaN.
  */
  lemma HourRollsOver()
    ensures UtcMinuteOf("24:30") == Some(30)
    ensures UtcMinuteOf("24") == None
  {
    assert BeforeColon("24:30") == "24";
    assert AfterColon("24:30") == Some("30");
    assert BeforeColon("30") == "30";
    DecimalTwoDigits("24");
    DecimalTwoDigits("30");
    assert AfterColon("24") == None;
  }

  /** A well-formed time reads back as its hour and minute; its seconds are dropped. */
  lemma UtcMinuteOfWellFormed(s: string)
    requires WellFormed(s)
    ensures UtcMinuteOf(s) == Some(ClockMinute(s))
  {
    assert BeforeColon(s[2..]) == [];
    assert BeforeColon(s[1..]) == [s[1]] + BeforeColon(s[2..]);
    assert BeforeColon(s) == s[..2];
    DecimalTwoDigits(s[..2]);
    var rest := s[3..];
    assert AfterColon(s[2..]) == Some(rest);
    assert AfterColon(s[1..]) == Some(rest);
    assert AfterColon(s) == Some(rest);
    assert rest[2] == ':' && rest[2..] == s[5..];
    assert BeforeColon(rest[2..]) == [];
    assert BeforeColon(rest[1..]) == [rest[1]] + BeforeColon(rest[2..]);
    assert BeforeColon(rest) == s[3..5];
    DecimalTwoDigits(s[3..5]);
  }
}
