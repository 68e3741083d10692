/** Conversions between whole seconds and the fixed `HH:MM:SS` text the
    timer panel shows (timer.js: secToHHMMSS, timeStringToSeconds). */
module TimeText {
  import opened Options

  /** 99:59:59, the largest duration the panel accepts. */
  const MaxSeconds: nat := 99 * 3600 + 59 * 60 + 59

  predicate IsDigit(c: char) { '0' <= c <= '9' }

  predicate AllDigits(s: string) { forall i :: 0 <= i < |s| ==> IsDigit(s[i]) }

  function DigitChar(d: nat): (c: char)
    requires d < 10
    ensures IsDigit(c)
  {
    ('0' as int + d) as char
  }

  function DigitValue(c: char): (d: nat)
    requires IsDigit(c)
    ensures d < 10 && DigitChar(d) == c
  {
    c as int - '0' as int
  }

  lemma DigitCharValue(d: nat)
    requires d < 10
    ensures DigitValue(DigitChar(d)) == d
  {
  }

  function Pow10(k: nat): (p: nat)
    ensures p >= 1
  {
    if k == 0 then 1 else 10 * Pow10(k - 1)
  }

  function Min(a: nat, b: nat): nat { if a <= b then a else b }

  /** JavaScript's `String(n)` for a non-negative whole number. */
  function DecimalString(n: nat): (r: string)
    ensures |r| >= 1 && AllDigits(r)
    ensures r[0] == '0' ==> n == 0
    decreases n
  {
    if n < 10 then [DigitChar(n)] else DecimalString(n / 10) + [DigitChar(n % 10)]
  }

  /** JavaScript's `Number(s)` for a string of decimal digits; `Number("")` is 0. */
  function DecimalValue(s: string): (v: nat)
    requires AllDigits(s)
    ensures v < Pow10(|s|)
  {
    if |s| == 0 then 0
    else
      var v' := DecimalValue(s[..|s| - 1]);
      assert 10 * v' <= 10 * (Pow10(|s| - 1) - 1);
      10 * v' + DigitValue(s[|s| - 1])
  }

  /** `Number(field)`: a number when the field is made of digits, NaN (None) otherwise. */
  function NumberOf(field: string): (r: Option<nat>)
    ensures r.Some? <==> AllDigits(field)
  {
    if AllDigits(field) then Some(DecimalValue(field)) else None
  }

  /** `s.padStart(width, "0")`. */
  function ZeroPad(s: string, width: nat): (r: string)
    ensures |r| == if |s| >= width then |s| else width
  {
    if |s| >= width then s else seq(width - |s|, _ => '0') + s
  }

  /** Each character of a padded string is a pad zero or the matching
      character of the original. */
  lemma ZeroPadAt(s: string, width: nat, i: nat)
    requires i < |ZeroPad(s, width)|
    ensures var r := ZeroPad(s, width); var k := |r| - |s|;
      r[i] == if i < k then '0' else s[i - k]
  {
  }

  function TwoDigits(n: nat): string { ZeroPad(DecimalString(n), 2) }

  /** secToHHMMSS: hours, minutes and seconds, each padded to two digits. */
  function SecToHHMMSS(s: nat): string
  {
    TwoDigits(s / 3600) + ":" + TwoDigits((s % 3600) / 60) + ":" + TwoDigits(s % 60)
  }

  /** `s.split(":")`. */
  function Split(s: string): (r: seq<string>)
    ensures |r| >= 1
  {
    if |s| == 0 then [""]
    else if s[0] == ':' then [""] + Split(s[1..])
    else
      var rest := Split(s[1..]);
      [[s[0]] + rest[0]] + rest[1..]
  }

  /** timeStringToSeconds: split on ':', read three numbers, clamp them to
      99, 59 and 59. A missing or non-numeric component makes the result NaN. */
  function TimeStringToSeconds(t: string): (r: Option<nat>)
    ensures r.Some? ==> r.value <= MaxSeconds
  {
    var f := Split(t);
    if |f| < 3 then None
    else
      match (NumberOf(f[0]), NumberOf(f[1]), NumberOf(f[2]))
      case (Some(h), Some(m), Some(s)) => Some(Min(h, 99) * 3600 + Min(m, 59) * 60 + Min(s, 59))
      case _ => None
  }

  /** The text of every display the panel can show: two digits, a colon,
      two digits, a colon, two digits. */
  predicate IsMask(t: string)
  {
    |t| == 8 && IsDigit(t[0]) && IsDigit(t[1]) && t[2] == ':'
    && IsDigit(t[3]) && IsDigit(t[4]) && t[5] == ':' && IsDigit(t[6]) && IsDigit(t[7])
  }

  /** The number two digit characters stand for. */
  function PairValue(a: char, b: char): (v: nat)
    requires IsDigit(a) && IsDigit(b)
    ensures v < 100
  {
    10 * DigitValue(a) + DigitValue(b)
  }

  function HoursOf(t: string): nat requires IsMask(t) { PairValue(t[0], t[1]) }
  function MinutesOf(t: string): nat requires IsMask(t) { PairValue(t[3], t[4]) }
  function SecondsOf(t: string): nat requires IsMask(t) { PairValue(t[6], t[7]) }

  /** A mask read field by field, hours as they are and minutes and seconds
      clamped to 59; MaskParse shows this is what timeStringToSeconds gives. */
  function MaskSeconds(t: string): (r: nat)
    requires IsMask(t)
    ensures r <= MaxSeconds
  {
    HoursOf(t) * 3600 + Min(MinutesOf(t), 59) * 60 + Min(SecondsOf(t), 59)
  }

  // ---------------------------------------------------------------------
  // Two-digit fields

  /** A number below 100 is shown as exactly two digit characters. */
  lemma TwoDigitsChars(n: nat)
    requires n < 100
    ensures TwoDigits(n) == [DigitChar(n / 10), DigitChar(n % 10)]
  {
    if n >= 10 {
      assert DecimalString(n / 10) == [DigitChar(n / 10)];
    } else {
      assert DigitChar(0) == '0';
    }
  }

  /** Number reads two digit characters as the value they stand for. */
  lemma PairDecimal(d: string)
    requires |d| == 2 && IsDigit(d[0]) && IsDigit(d[1])
    ensures AllDigits(d) && DecimalValue(d) == PairValue(d[0], d[1])
  {
    assert d[..1] == [d[0]];
    assert [d[0]][..0] == [];
  }

  // ---------------------------------------------------------------------
  // Splitting on ':'

  lemma {:induction false} SplitColonFree(a: string)
    requires ':' !in a
    ensures Split(a) == [a]
  {
    if |a| > 0 {
      assert a[0] in a;
      assert forall c :: c in a[1..] ==> c in a;
      SplitColonFree(a[1..]);
      assert [a[0]] + a[1..] == a;
    }
  }

  lemma {:induction false} SplitField(a: string, t: string)
    requires ':' !in a
    ensures Split(a + ":" + t) == [a] + Split(t)
  {
    var s := a + ":" + t;
    if |a| == 0 {
      assert s[1..] == t;
    } else {
      assert a[0] in a;
      assert forall c :: c in a[1..] ==> c in a;
      assert s[1..] == a[1..] + ":" + t;
      SplitField(a[1..], t);
      assert [a[0]] + a[1..] == a;
    }
  }

  lemma MaskJoin(t: string)
    requires |t| == 8 && t[2] == ':' && t[5] == ':'
    ensures t == t[0..2] + ":" + t[3..5] + ":" + t[6..8]
  {
  }

  /** Splitting a mask gives its three two-digit fields. */
  lemma MaskFields(t: string)
    requires IsMask(t)
    ensures Split(t) == [t[0..2], t[3..5], t[6..8]]
  {
    var a, b, c := t[0..2], t[3..5], t[6..8];
    assert a == [t[0], t[1]] && b == [t[3], t[4]] && c == [t[6], t[7]];
    MaskJoin(t);
    SplitField(a, b + ":" + c);
    SplitField(b, c);
    SplitColonFree(c);
    assert t == a + ":" + (b + ":" + c);
  }

  /** timeStringToSeconds on a mask is its field-by-field reading. */
  lemma MaskParse(t: string)
    requires IsMask(t)
    ensures TimeStringToSeconds(t) == Some(MaskSeconds(t))
  {
    MaskFields(t);
    PairDecimal(t[0..2]);
    PairDecimal(t[3..5]);
    PairDecimal(t[6..8]);
  }

  // ---------------------------------------------------------------------
  // The display text and its parse

  lemma DivModParts(s: nat)
    ensures s / 3600 * 3600 + (s % 3600) / 60 * 60 + s % 60 == s
    ensures (s % 3600) / 60 < 60 && s % 60 < 60
  {
    var r := s % 3600;
    assert s == s / 3600 * 3600 + r;
    assert r == r / 60 * 60 + r % 60;
    assert r % 60 == s % 60 by {
      assert s == (s / 3600 * 60) * 60 + r;
    }
  }

  /** The eight characters that show hours `h`, minutes `m` and seconds `x`. */
  function Shown(h: nat, m: nat, x: nat): string
    requires h < 100 && m < 100 && x < 100
  {
    [DigitChar(h / 10), DigitChar(h % 10), ':', DigitChar(m / 10), DigitChar(m % 10),
     ':', DigitChar(x / 10), DigitChar(x % 10)]
  }

  lemma ShownIsMask(h: nat, m: nat, x: nat)
    requires h < 100 && m < 100 && x < 100
    ensures IsMask(Shown(h, m, x))
    ensures HoursOf(Shown(h, m, x)) == h
    ensures MinutesOf(Shown(h, m, x)) == m
    ensures SecondsOf(Shown(h, m, x)) == x
  {
    DigitCharValue(h / 10);
    DigitCharValue(h % 10);
    DigitCharValue(m / 10);
    DigitCharValue(m % 10);
    DigitCharValue(x / 10);
    DigitCharValue(x % 10);
  }

  lemma ShownFromFields(h: nat, m: nat, x: nat)
    requires h < 100 && m < 100 && x < 100
    ensures TwoDigits(h) + ":" + TwoDigits(m) + ":" + TwoDigits(x) == Shown(h, m, x)
  {
    TwoDigitsChars(h);
    TwoDigitsChars(m);
    TwoDigitsChars(x);
  }

  lemma SecToHHMMSSChars(s: nat)
    requires s <= MaxSeconds
    ensures SecToHHMMSS(s) == Shown(s / 3600, (s % 3600) / 60, s % 60)
  {
    DivModParts(s);
    ShownFromFields(s / 3600, (s % 3600) / 60, s % 60);
  }

  /** Zero is shown as 00:00:00. */
  lemma ZeroShown()
    ensures SecToHHMMSS(0) == "00:00:00"
  {
    SecToHHMMSSChars(0);
  }

  /** The longest duration the timer holds is shown as 99:59:59. */
  lemma CapShown()
    ensures SecToHHMMSS(MaxSeconds) == "99:59:59"
  {
    SecToHHMMSSChars(MaxSeconds);
  }

  /** Every duration up to 99:59:59 is shown as a well-formed mask whose
      fields are its hours, minutes and seconds. */
  lemma SecToHHMMSSIsMask(s: nat)
    requires s <= MaxSeconds
    ensures IsMask(SecToHHMMSS(s))
    ensures HoursOf(SecToHHMMSS(s)) == s / 3600
    ensures MinutesOf(SecToHHMMSS(s)) == (s % 3600) / 60
    ensures SecondsOf(SecToHHMMSS(s)) == s % 60
  {
    DivModParts(s);
    SecToHHMMSSChars(s);
    ShownIsMask(s / 3600, (s % 3600) / 60, s % 60);
  }

  /** Reading back the shown text of a duration up to 99:59:59 gives the duration. */
  lemma ShowThenRead(s: nat)
    requires s <= MaxSeconds
    ensures IsMask(SecToHHMMSS(s))
    ensures MaskSeconds(SecToHHMMSS(s)) == s
  {
    SecToHHMMSSIsMask(s);
    DivModParts(s);
    var t := SecToHHMMSS(s);
    assert MaskSeconds(t) == s / 3600 * 3600 + (s % 3600) / 60 * 60 + s % 60;
  }

  /** Parsing the shown text of a duration up to 99:59:59 gives the duration back. */
  lemma ShowThenParse(s: nat)
    requires s <= MaxSeconds
    ensures TimeStringToSeconds(SecToHHMMSS(s)) == Some(s)
  {
    ShowThenRead(s);
    MaskParse(SecToHHMMSS(s));
  }

  lemma DivByParts(h: nat, m: nat, x: nat)
    requires m < 60 && x < 60
    ensures (h * 3600 + m * 60 + x) / 3600 == h
    ensures ((h * 3600 + m * 60 + x) % 3600) / 60 == m
    ensures (h * 3600 + m * 60 + x) % 60 == x
  {
    var s := h * 3600 + m * 60 + x;
    var r := m * 60 + x;
    assert 0 <= r < 3600;
    assert s / 3600 == h && s % 3600 == r by {
      assert s == h * 3600 + r;
    }
    assert r / 60 == m && r % 60 == x;
    assert s % 60 == x by {
      assert s == (h * 60 + m) * 60 + x;
    }
  }

  /** A mask is the text of its own three fields. */
  lemma MaskIsShown(t: string)
    requires IsMask(t)
    ensures t == Shown(HoursOf(t), MinutesOf(t), SecondsOf(t))
  {
    var a, b := DigitValue(t[0]), DigitValue(t[1]);
    assert (10 * a + b) / 10 == a && (10 * a + b) % 10 == b;
    a, b := DigitValue(t[3]), DigitValue(t[4]);
    assert (10 * a + b) / 10 == a && (10 * a + b) % 10 == b;
    a, b := DigitValue(t[6]), DigitValue(t[7]);
    assert (10 * a + b) / 10 == a && (10 * a + b) % 10 == b;
  }

  lemma CanonicalMaskReshown(t: string)
    requires IsMask(t) && MinutesOf(t) <= 59 && SecondsOf(t) <= 59
    ensures SecToHHMMSS(MaskSeconds(t)) == t
  {
    var h, m, x := HoursOf(t), MinutesOf(t), SecondsOf(t);
    var v := MaskSeconds(t);
    assert v == h * 3600 + m * 60 + x;
    DivByParts(h, m, x);
    assert v / 3600 == h && (v % 3600) / 60 == m && v % 60 == x;
    SecToHHMMSSChars(v);
    MaskIsShown(t);
  }

  lemma ClampedMaskNotReshown(t: string)
    requires IsMask(t) && (MinutesOf(t) > 59 || SecondsOf(t) > 59)
    ensures SecToHHMMSS(MaskSeconds(t)) != t
  {
    var v := MaskSeconds(t);
    SecToHHMMSSIsMask(v);
    DivModParts(v);
  }

  /** The other direction: re-showing the parse of a mask gives the mask back
      exactly when its minutes and seconds need no clamping. */
  lemma ParseThenShow(t: string)
    requires IsMask(t)
    ensures SecToHHMMSS(MaskSeconds(t)) == t <==> MinutesOf(t) <= 59 && SecondsOf(t) <= 59
  {
    if MinutesOf(t) <= 59 && SecondsOf(t) <= 59 {
      CanonicalMaskReshown(t);
    } else {
      ClampedMaskNotReshown(t);
    }
  }
}
