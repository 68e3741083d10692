/** The six-digit sliding edit buffer behind the time field while it is
    being edited (timer.js: timeStringToDigits, digitsToTimeString and the
    digit and Backspace/Delete branches of handleKeydown). */
module DigitBuffer {
  import opened Options
  import opened TimeText

  /** timeStringToDigits: the text with every ':' removed. */
  function TimeStringToDigits(t: string): (r: string)
    ensures ':' !in r
    ensures |r| <= |t|
  {
    if |t| == 0 then []
    else (if t[0] == ':' then [] else [t[0]]) + TimeStringToDigits(t[1..])
  }

  /** digitsToTimeString: pad to six characters with leading zeros, then
      show the first six as `HH:MM:SS`. */
  function DigitsToTimeString(d: string): string
  {
    var p := ZeroPad(d, 6);
    p[0..2] + ":" + p[2..4] + ":" + p[4..6]
  }

  /** `s.slice(-6)`: the last six characters (all of them when fewer). */
  function LastSix(s: string): (r: string)
    ensures |r| == if |s| <= 6 then |s| else 6
    ensures r == s[|s| - |r|..]
  {
    if |s| <= 6 then s else s[|s| - 6..]
  }

  /** The soft cap while typing: three numeric components, each at most 99. */
  predicate WithinTypingCap(t: string)
  {
    var f := Split(t);
    |f| >= 3 &&
    match (NumberOf(f[0]), NumberOf(f[1]), NumberOf(f[2]))
    case (Some(h), Some(m), Some(s)) => h <= 99 && m <= 99 && s <= 99
    case _ => false
  }

  /** The field text after typing digit `c`; unchanged when the soft cap rejects it. */
  function TypeDigit(t: string, c: char): string
  {
    var next := DigitsToTimeString(LastSix(TimeStringToDigits(t) + [c]));
    if WithinTypingCap(next) then next else t
  }

  /** The field text after Backspace or Delete: the last digit is dropped and
      an empty buffer becomes "0". */
  function Backspace(t: string): string
  {
    var d := TimeStringToDigits(t);
    var rest := if |d| == 0 then [] else d[..|d| - 1];
    DigitsToTimeString(if |rest| == 0 then "0" else rest)
  }

  // ---------------------------------------------------------------------

  lemma {:induction false} DigitsOfConcat(a: string, b: string)
    ensures TimeStringToDigits(a + b) == TimeStringToDigits(a) + TimeStringToDigits(b)
  {
    if |a| > 0 {
      assert (a + b)[1..] == a[1..] + b;
      DigitsOfConcat(a[1..], b);
    } else {
      assert a + b == b;
    }
  }

  lemma DigitsOfPair(a: char, b: char)
    requires a != ':' && b != ':'
    ensures TimeStringToDigits([a, b]) == [a, b]
  {
    assert [a, b][1..] == [b];
  }

  lemma DigitsStep(s: string)
    requires |s| > 0
    ensures TimeStringToDigits(s) == (if s[0] == ':' then [] else [s[0]]) + TimeStringToDigits(s[1..])
  {
  }

  /** The buffer behind a mask is its six digits. */
  lemma MaskDigits(t: string)
    requires IsMask(t)
    ensures TimeStringToDigits(t) == [t[0], t[1], t[3], t[4], t[6], t[7]]
    ensures |TimeStringToDigits(t)| == 6 && AllDigits(TimeStringToDigits(t))
  {
    assert t[6..] == [t[6], t[7]];
    DigitsOfPair(t[6], t[7]);
    assert t[5..][1..] == t[6..];
    DigitsStep(t[5..]);
    assert t[4..][1..] == t[5..];
    DigitsStep(t[4..]);
    assert t[3..][1..] == t[4..];
    DigitsStep(t[3..]);
    assert t[2..][1..] == t[3..];
    DigitsStep(t[2..]);
    assert t[1..][1..] == t[2..];
    DigitsStep(t[1..]);
    DigitsStep(t);
  }

  /** Up to six digits are always shown as a mask. */
  lemma DigitsToTimeStringIsMask(d: string)
    requires |d| <= 6 && AllDigits(d)
    ensures IsMask(DigitsToTimeString(d))
  {
    var p := ZeroPad(d, 6);
    forall i | 0 <= i < 6 ensures IsDigit(p[i]) {
      ZeroPadAt(d, 6, i);
    }
    PaddedShown(d);
  }

  /** Padded to six characters and shown, character by character. */
  lemma PaddedShown(d: string)
    requires |d| <= 6
    ensures var p := ZeroPad(d, 6);
      DigitsToTimeString(d) == [p[0], p[1], ':', p[2], p[3], ':', p[4], p[5]]
  {
  }

  /** Six digits shown as a mask, character by character. */
  lemma SixDigitsShown(d: string)
    requires |d| == 6
    ensures DigitsToTimeString(d) == [d[0], d[1], ':', d[2], d[3], ':', d[4], d[5]]
  {
    assert ZeroPad(d, 6) == d;
  }

  /** Removing the colons of a mask and putting them back gives the mask. */
  lemma MaskDigitsRoundTrip(t: string)
    requires IsMask(t)
    ensures DigitsToTimeString(TimeStringToDigits(t)) == t
  {
    MaskDigits(t);
    SixDigitsShown(TimeStringToDigits(t));
  }

  /** Showing six digits as a mask and removing the colons gives the digits. */
  lemma DigitsMaskRoundTrip(d: string)
    requires |d| == 6 && AllDigits(d)
    ensures TimeStringToDigits(DigitsToTimeString(d)) == d
  {
    SixDigitsShown(d);
    DigitsToTimeStringIsMask(d);
    MaskDigits(DigitsToTimeString(d));
  }

  /** Each component of a mask is two digits, so the soft cap of 99 while
      typing never rejects a mask. */
  lemma MaskWithinTypingCap(t: string)
    requires IsMask(t)
    ensures WithinTypingCap(t)
  {
    MaskFields(t);
    PairDecimal(t[0..2]);
    PairDecimal(t[3..5]);
    PairDecimal(t[6..8]);
  }

  /** Typing a digit into a mask slides the buffer: the oldest digit drops
      out on the left and the new one enters on the right. */
  lemma TypeDigitShifts(t: string, c: char)
    requires IsMask(t) && IsDigit(c)
    ensures TypeDigit(t, c) == DigitsToTimeString(TimeStringToDigits(t)[1..] + [c])
    ensures TypeDigit(t, c) == [t[1], t[3], ':', t[4], t[6], ':', t[7], c]
    ensures IsMask(TypeDigit(t, c))
  {
    MaskDigits(t);
    var d := TimeStringToDigits(t);
    var e := d[1..] + [c];
    assert e == [t[1], t[3], t[4], t[6], t[7], c];
    assert LastSix(d + [c]) == e;
    SixDigitsShown(e);
    var next := DigitsToTimeString(e);
    assert IsMask(next);
    MaskWithinTypingCap(next);
  }

  /** Backspace on a mask is a right shift that brings in a leading zero. */
  lemma BackspaceShifts(t: string)
    requires IsMask(t)
    ensures |TimeStringToDigits(t)| == 6
    ensures Backspace(t) == DigitsToTimeString("0" + TimeStringToDigits(t)[..5])
    ensures Backspace(t) == ['0', t[0], ':', t[1], t[3], ':', t[4], t[6]]
    ensures IsMask(Backspace(t))
  {
    MaskDigits(t);
    var d := TimeStringToDigits(t);
    var rest := d[..5];
    assert ZeroPad(rest, 6) == "0" + rest;
    assert ZeroPad("0" + rest, 6) == "0" + rest;
    assert AllDigits("0" + rest);
    DigitsToTimeStringIsMask("0" + rest);
    SixDigitsShown("0" + rest);
  }

  /** A buffer that Backspace would leave empty becomes "0", shown as 00:00:00. */
  lemma BackspaceToZero(t: string)
    requires |TimeStringToDigits(t)| <= 1
    ensures Backspace(t) == "00:00:00"
  {
    assert ZeroPad("0", 6) == "000000";
  }

  /** Three digits typed into a mask: the three oldest digits drop out. */
  lemma TypeThree(t: string, a: char, b: char, c: char)
    requires IsMask(t) && IsDigit(a) && IsDigit(b) && IsDigit(c)
    ensures IsMask(TypeDigit(TypeDigit(TypeDigit(t, a), b), c))
    ensures TypeDigit(TypeDigit(TypeDigit(t, a), b), c) == [t[4], t[6], ':', t[7], a, ':', b, c]
  {
    TypeDigitShifts(t, a);
    var t1 := TypeDigit(t, a);
    TypeDigitShifts(t1, b);
    var t2 := TypeDigit(t1, b);
    TypeDigitShifts(t2, c);
  }

  /** Typing 1, 2, 3, 0, 0, 0 into 00:00:00 shows 12:30:00, which reads as
      12 hours and 30 minutes. */
  lemma TypingExample()
    ensures TypeDigit(TypeDigit(TypeDigit(TypeDigit(TypeDigit(TypeDigit(
              "00:00:00", '1'), '2'), '3'), '0'), '0'), '0') == "12:30:00"
    ensures TimeStringToSeconds("12:30:00") == Some(45000)
  {
    var t0 := "00:00:00";
    assert IsMask(t0);
    TypeThree(t0, '1', '2', '3');
    var t3 := TypeDigit(TypeDigit(TypeDigit(t0, '1'), '2'), '3');
    assert t3 == "00:01:23";
    TypeThree(t3, '0', '0', '0');
    ExampleValue();
  }

  lemma ExampleValue()
    ensures TimeStringToSeconds("12:30:00") == Some(45000)
  {
    ExampleReading();
    MaskParse("12:30:00");
  }

  lemma ExampleReading()
    ensures IsMask("12:30:00") && MaskSeconds("12:30:00") == 45000
  {
    var t := "12:30:00";
    assert IsMask(t);
    assert HoursOf(t) == 12 && MinutesOf(t) == 30 && SecondsOf(t) == 0;
  }

  /** 45000 seconds are shown as 12:30:00. */
  lemma ExampleShown()
    ensures SecToHHMMSS(45000) == "12:30:00"
  {
    SecToHHMMSSChars(45000);
  }
}
