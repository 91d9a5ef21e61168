/** The time-of-day strings that `at()` accepts, and what `at()` does with
    them. The accepted language is that of the regular expression
        ^\s*([0-2]?\d)(:([0-5]\d)(:([0-5]\d)(.(\d{1,3}))?)?)?(\s*(am|pm))?$
    with JavaScript's meaning of `\s` and `.` and without the `i` and `u`
    flags. Without `u` the expression reads UTF-16 code units, so `.` takes
    a character only when it is one code unit (in the Basic Multilingual
    Plane); a character above U+FFFF is two, and the `\d` after `.` then
    meets the second. A `Capture` holds the pieces the groups match;
    `WellFormed` and `Render` describe the language piece by piece, and
    `Parse` is a deterministic recogniser proved to be their inverse. */
module TimeOfDay {
  import opened Wrappers
  import opened EcmaDate

  predicate IsDigit(c: char) { '0' <= c <= '9' }

  /** `\s`: the WhiteSpace and LineTerminator characters of ECMA-262. */
  predicate IsSpace(c: char) {
    c == '\t' || c == '\n' || c == '\U{000B}' || c == '\U{000C}' || c == '\r' || c == ' '
    || c == '\U{00A0}' || c == '\U{1680}' || ('\U{2000}' <= c <= '\U{200A}')
    || c == '\U{2028}' || c == '\U{2029}' || c == '\U{202F}' || c == '\U{205F}'
    || c == '\U{3000}' || c == '\U{FEFF}'
  }

  /** The characters `.` does not match when the `s` flag is absent. */
  predicate IsLineTerminator(c: char) {
    c == '\n' || c == '\r' || c == '\U{2028}' || c == '\U{2029}'
  }

  predicate AllSpace(s: string) { forall i | 0 <= i < |s| :: IsSpace(s[i]) }

  predicate AllDigits(s: string) { forall i | 0 <= i < |s| :: IsDigit(s[i]) }

  // ---------------------------------------------------------------------
  // The language

  datatype Meridiem = Am | Pm

  /** `(.(\d{1,3}))`: a separator, any one code unit but a line
      terminator, then the digits. */
  datatype Fraction = Fraction(sep: char, digits: string)

  /** `(\s*(am|pm))` */
  datatype Suffix = Suffix(space: string, meridiem: Meridiem)

  /** What follows the hour: the optional groups. */
  datatype Tail = Tail(
    minutes: Option<string>,
    seconds: Option<string>,
    fraction: Option<Fraction>,
    suffix: Option<Suffix>)

  datatype Capture = Capture(lead: string, hour: string, tail: Tail)

  /** `[0-2]?\d` */
  predicate HourField(h: string) {
    (|h| == 1 && IsDigit(h[0])) || (|h| == 2 && '0' <= h[0] <= '2' && IsDigit(h[1]))
  }

  /** `[0-5]\d` */
  predicate SexagesimalField(m: string) {
    |m| == 2 && '0' <= m[0] <= '5' && IsDigit(m[1])
  }

  /** A character that is one UTF-16 code unit. */
  predicate IsCodeUnit(c: char) { c <= '\U{FFFF}' }

  predicate FractionField(f: Fraction) {
    IsCodeUnit(f.sep) && !IsLineTerminator(f.sep) && 1 <= |f.digits| <= 3 && AllDigits(f.digits)
  }

  /** The groups nest: seconds only after minutes, the fraction only after
      seconds. */
  predicate TailField(g: Tail) {
    && (g.minutes.Some? ==> SexagesimalField(g.minutes.value))
    && (g.seconds.Some? ==> g.minutes.Some? && SexagesimalField(g.seconds.value))
    && (g.fraction.Some? ==> g.seconds.Some? && FractionField(g.fraction.value))
    && (g.suffix.Some? ==> AllSpace(g.suffix.value.space))
  }

  predicate WellFormed(c: Capture) {
    AllSpace(c.lead) && HourField(c.hour) && TailField(c.tail)
  }

  function MeridiemText(m: Meridiem): string {
    if m == Am then "am" else "pm"
  }

  function ColonText(field: Option<string>): string {
    if field.Some? then ":" + field.value else ""
  }

  function FractionText(f: Option<Fraction>): string {
    if f.Some? then [f.value.sep] + f.value.digits else ""
  }

  function SuffixText(x: Option<Suffix>): string {
    if x.Some? then x.value.space + MeridiemText(x.value.meridiem) else ""
  }

  function TailText(g: Tail): string {
    ColonText(g.minutes) + ColonText(g.seconds) + FractionText(g.fraction) + SuffixText(g.suffix)
  }

  /** The string a capture was matched from. */
  function Render(c: Capture): string {
    c.lead + c.hour + TailText(c.tail)
  }

  // ---------------------------------------------------------------------
  // The recogniser

  /** Length of the run of `\s` characters that s starts with. */
  function SpaceRun(s: string): (n: nat)
    ensures n <= |s| && AllSpace(s[..n]) && (n < |s| ==> !IsSpace(s[n]))
  {
    if |s| == 0 || !IsSpace(s[0]) then 0
    else
      var n := 1 + SpaceRun(s[1..]);
      assert s[..n] == [s[0]] + s[1..][..n - 1];
      n
  }

  /** Length of the run of digits that s starts with. */
  function DigitRun(s: string): (n: nat)
    ensures n <= |s| && AllDigits(s[..n]) && (n < |s| ==> !IsDigit(s[n]))
  {
    if |s| == 0 || !IsDigit(s[0]) then 0
    else
      var n := 1 + DigitRun(s[1..]);
      assert s[..n] == [s[0]] + s[1..][..n - 1];
      n
  }

  /** An optional `:[0-5]\d` at the start of r, and what follows it. */
  function Sexagesimal(r: string): (Option<string>, string) {
    if |r| >= 3 && r[0] == ':' && '0' <= r[1] <= '5' && IsDigit(r[2]) then (Some(r[1..3]), r[3..])
    else (None, r)
  }

  /** An optional separator and digit run at the start of r. */
  function FractionPart(r: string): (Option<Fraction>, string) {
    if |r| >= 2 && IsCodeUnit(r[0]) && !IsLineTerminator(r[0]) && IsDigit(r[1]) then
      var k := DigitRun(r[1..]);
      (Some(Fraction(r[0], r[1..1 + k])), r[1 + k..])
    else (None, r)
  }

  /** The rest after the last numeric group: nothing, or `\s*(am|pm)` up to
      the end. None when it is anything else. */
  function SuffixPart(r: string): Option<Option<Suffix>> {
    if |r| == 0 then Some(None)
    else
      var w := SpaceRun(r);
      if r[w..] == "am" then Some(Some(Suffix(r[..w], Am)))
      else if r[w..] == "pm" then Some(Some(Suffix(r[..w], Pm)))
      else None
  }

  function Finish(minutes: Option<string>, seconds: Option<string>, fraction: Option<Fraction>, r: string): Option<Tail> {
    match SuffixPart(r)
    case None => None
    case Some(suffix) => Some(Tail(minutes, seconds, fraction, suffix))
  }

  /** After the seconds: the fraction takes the whole digit run, and a run
      longer than three digits fails the match. */
  function ParseFraction(minutes: Option<string>, seconds: Option<string>, r: string): Option<Tail> {
    var p := FractionPart(r);
    if p.0.Some? && |p.0.value.digits| > 3 then None else Finish(minutes, seconds, p.0, p.1)
  }

  function ParseSeconds(minutes: Option<string>, r: string): Option<Tail> {
    var p := Sexagesimal(r);
    if p.0.None? then Finish(minutes, None, None, r) else ParseFraction(minutes, p.0, p.1)
  }

  /** Everything after the hour. */
  function ParseTail(r: string): Option<Tail> {
    var p := Sexagesimal(r);
    if p.0.None? then Finish(None, None, None, r) else ParseSeconds(p.0, p.1)
  }

  /** `time.match(...)`: the groups, or None where the expression does not
      match. The hour takes two digits whenever it can. */
  function Parse(s: string): Option<Capture> {
    var n := SpaceRun(s);
    var r0 := s[n..];
    if |r0| == 0 || !IsDigit(r0[0]) then None
    else
      var hl := if |r0| >= 2 && '0' <= r0[0] <= '2' && IsDigit(r0[1]) then 2 else 1;
      match ParseTail(r0[hl..])
      case None => None
      case Some(tail) => Some(Capture(s[..n], r0[..hl], tail))
  }

  // ---------------------------------------------------------------------
  // Parse is sound: what it returns is well formed and renders back to s

  lemma SexagesimalSound(r: string)
    ensures Sexagesimal(r).0.Some? ==> SexagesimalField(Sexagesimal(r).0.value)
    ensures r == ColonText(Sexagesimal(r).0) + Sexagesimal(r).1
  {
    if |r| >= 3 && r[0] == ':' && '0' <= r[1] <= '5' && IsDigit(r[2]) {
      assert r == ":" + r[1..3] + r[3..];
    }
  }

  lemma FractionSound(r: string)
    ensures FractionPart(r).0.Some? ==>
      IsCodeUnit(FractionPart(r).0.value.sep) && !IsLineTerminator(FractionPart(r).0.value.sep)
      && 1 <= |FractionPart(r).0.value.digits| && AllDigits(FractionPart(r).0.value.digits)
    ensures r == FractionText(FractionPart(r).0) + FractionPart(r).1
  {
    if |r| >= 2 && IsCodeUnit(r[0]) && !IsLineTerminator(r[0]) && IsDigit(r[1]) {
      var k := DigitRun(r[1..]);
      assert r[1..][..k] == r[1..1 + k];
      assert r == [r[0]] + r[1..1 + k] + r[1 + k..];
    }
  }

  lemma SuffixSound(r: string)
    ensures SuffixPart(r).Some? ==>
      var x := SuffixPart(r).value;
      (x.Some? ==> AllSpace(x.value.space)) && r == SuffixText(x)
  {
    if |r| > 0 {
      var w := SpaceRun(r);
      assert r == r[..w] + r[w..];
    }
  }

  lemma FinishSound(minutes: Option<string>, seconds: Option<string>, fraction: Option<Fraction>, r: string)
    ensures Finish(minutes, seconds, fraction, r).Some? ==>
      var g := Finish(minutes, seconds, fraction, r).value;
      g.minutes == minutes && g.seconds == seconds && g.fraction == fraction
      && (g.suffix.Some? ==> AllSpace(g.suffix.value.space)) && SuffixText(g.suffix) == r
  {
    SuffixSound(r);
  }

  lemma ParseFractionSound(minutes: Option<string>, seconds: Option<string>, r: string)
    requires minutes.Some? && SexagesimalField(minutes.value)
    requires seconds.Some? && SexagesimalField(seconds.value)
    ensures ParseFraction(minutes, seconds, r).Some? ==>
      var g := ParseFraction(minutes, seconds, r).value;
      TailField(g) && g.minutes == minutes && g.seconds == seconds
      && FractionText(g.fraction) + SuffixText(g.suffix) == r
  {
    var p := FractionPart(r);
    FractionSound(r);
    FinishSound(minutes, seconds, p.0, p.1);
  }

  lemma ParseSecondsSound(minutes: Option<string>, r: string)
    requires minutes.Some? && SexagesimalField(minutes.value)
    ensures ParseSeconds(minutes, r).Some? ==>
      var g := ParseSeconds(minutes, r).value;
      TailField(g) && g.minutes == minutes
      && ColonText(g.seconds) + FractionText(g.fraction) + SuffixText(g.suffix) == r
  {
    var p := Sexagesimal(r);
    SexagesimalSound(r);
    if p.0.None? {
      assert ParseSeconds(minutes, r) == Finish(minutes, None, None, r);
      FinishSound(minutes, None, None, r);
    } else {
      assert ParseSeconds(minutes, r) == ParseFraction(minutes, p.0, p.1);
      ParseFractionSound(minutes, p.0, p.1);
      if ParseSeconds(minutes, r).Some? {
        var g := ParseSeconds(minutes, r).value;
        SeqAssoc(ColonText(g.seconds), FractionText(g.fraction), SuffixText(g.suffix));
      }
    }
  }

  lemma ParseTailSound(r: string)
    ensures ParseTail(r).Some? ==> TailField(ParseTail(r).value) && TailText(ParseTail(r).value) == r
  {
    var p := Sexagesimal(r);
    SexagesimalSound(r);
    if p.0.None? {
      assert ParseTail(r) == Finish(None, None, None, r);
      FinishSound(None, None, None, r);
    } else {
      assert ParseTail(r) == ParseSeconds(p.0, p.1);
      ParseSecondsSound(p.0, p.1);
      if ParseTail(r).Some? {
        var g := ParseTail(r).value;
        var rest := ColonText(g.seconds) + FractionText(g.fraction) + SuffixText(g.suffix);
        SeqAssoc4(ColonText(g.minutes), ColonText(g.seconds), FractionText(g.fraction), SuffixText(g.suffix));
        assert TailText(g) == ColonText(g.minutes) + rest;
      }
    }
  }

  lemma ParseSound(s: string)
    ensures Parse(s).Some? ==> WellFormed(Parse(s).value) && Render(Parse(s).value) == s
  {
    var n := SpaceRun(s);
    var r0 := s[n..];
    if Parse(s).Some? {
      var hl := if |r0| >= 2 && '0' <= r0[0] <= '2' && IsDigit(r0[1]) then 2 else 1;
      var lead, hour, rest := s[..n], r0[..hl], r0[hl..];
      ParseTailSound(rest);
      var c := Parse(s).value;
      assert c == Capture(lead, hour, ParseTail(rest).value);
      assert HourField(hour);
      assert Render(c) == lead + hour + rest;
      SplitAt(r0, hl);
      SplitAt(s, n);
      SeqAssoc(lead, hour, rest);
    }
  }

  lemma SplitAt(s: string, n: nat)
    requires n <= |s|
    ensures s[..n] + s[n..] == s
  {
  }

  lemma SeqAssoc(a: string, b: string, c: string)
    ensures a + b + c == a + (b + c)
  {
  }

  lemma SeqAssoc4(a: string, b: string, c: string, d: string)
    ensures a + b + c + d == a + (b + c + d)
  {
  }

  // ---------------------------------------------------------------------
  // Parse is complete: every well-formed capture is recovered from its
  // rendering

  lemma {:induction false} SpaceRunOf(a: string, b: string)
    requires AllSpace(a) && (|b| == 0 || !IsSpace(b[0]))
    ensures SpaceRun(a + b) == |a|
    decreases |a|
  {
    if |a| == 0 {
      assert a + b == b;
    } else {
      assert (a + b)[0] == a[0];
      assert (a + b)[1..] == a[1..] + b;
      SpaceRunOf(a[1..], b);
    }
  }

  lemma {:induction false} DigitRunOf(a: string, b: string)
    requires AllDigits(a) && (|b| == 0 || !IsDigit(b[0]))
    ensures DigitRun(a + b) == |a|
    decreases |a|
  {
    if |a| == 0 {
      assert a + b == b;
    } else {
      assert (a + b)[0] == a[0];
      assert (a + b)[1..] == a[1..] + b;
      DigitRunOf(a[1..], b);
    }
  }

  /** The suffix starts with neither a digit nor ':', and has no digit in
      second place. */
  lemma SuffixTextStart(x: Option<Suffix>)
    requires x.Some? ==> AllSpace(x.value.space)
    ensures |SuffixText(x)| > 0 ==> !IsDigit(SuffixText(x)[0]) && SuffixText(x)[0] != ':'
    ensures |SuffixText(x)| > 1 ==> !IsDigit(SuffixText(x)[1])
  {
    if x.Some? {
      var sp, mt := x.value.space, MeridiemText(x.value.meridiem);
      assert SuffixText(x) == sp + mt;
      if |sp| > 1 {
        assert SuffixText(x)[1] == sp[1];
      } else if |sp| == 1 {
        assert SuffixText(x)[1] == mt[0];
      }
    }
  }

  lemma SexagesimalComplete(field: Option<string>, rest: string)
    requires field.Some? ==> SexagesimalField(field.value)
    requires field.None? ==> |rest| == 0 || rest[0] != ':'
    ensures Sexagesimal(ColonText(field) + rest) == (field, rest)
  {
    if field.Some? {
      var r := ColonText(field) + rest;
      assert r == ":" + field.value + rest;
      assert r[0] == ':' && r[1] == field.value[0] && r[2] == field.value[1];
      assert r[1..3] == field.value && r[3..] == rest;
    } else {
      assert ColonText(field) + rest == rest;
    }
  }

  lemma FractionComplete(f: Option<Fraction>, rest: string)
    requires f.Some? ==> FractionField(f.value) && (|rest| == 0 || !IsDigit(rest[0]))
    requires f.None? ==> |rest| < 2 || !IsDigit(rest[1])
    ensures FractionPart(FractionText(f) + rest) == (f, rest)
  {
    if f.Some? {
      var ds := f.value.digits;
      var r := [f.value.sep] + ds + rest;
      assert r == FractionText(f) + rest;
      assert r[1..] == ds + rest;
      DigitRunOf(ds, rest);
      assert r[0] == f.value.sep && r[1] == ds[0];
      assert r[1..1 + |ds|] == ds && r[1 + |ds|..] == rest;
    } else {
      assert FractionText(f) + rest == rest;
    }
  }

  lemma SuffixComplete(x: Option<Suffix>)
    requires x.Some? ==> AllSpace(x.value.space)
    ensures SuffixPart(SuffixText(x)) == Some(x)
  {
    if x.Some? {
      var sp, mt := x.value.space, MeridiemText(x.value.meridiem);
      var r := sp + mt;
      SpaceRunOf(sp, mt);
      assert r[..|sp|] == sp && r[|sp|..] == mt;
    }
  }

  lemma FinishComplete(g: Tail)
    requires g.suffix.Some? ==> AllSpace(g.suffix.value.space)
    ensures Finish(g.minutes, g.seconds, g.fraction, SuffixText(g.suffix)) == Some(g)
  {
    SuffixComplete(g.suffix);
  }

  lemma ParseFractionComplete(g: Tail)
    requires TailField(g) && g.seconds.Some?
    ensures ParseFraction(g.minutes, g.seconds, FractionText(g.fraction) + SuffixText(g.suffix)) == Some(g)
  {
    SuffixTextStart(g.suffix);
    FractionComplete(g.fraction, SuffixText(g.suffix));
    FinishComplete(g);
  }

  lemma ParseSecondsComplete(g: Tail)
    requires TailField(g) && g.minutes.Some?
    ensures ParseSeconds(g.minutes, ColonText(g.seconds) + FractionText(g.fraction) + SuffixText(g.suffix)) == Some(g)
  {
    var rest := FractionText(g.fraction) + SuffixText(g.suffix);
    assert ColonText(g.seconds) + FractionText(g.fraction) + SuffixText(g.suffix) == ColonText(g.seconds) + rest;
    SuffixTextStart(g.suffix);
    SexagesimalComplete(g.seconds, rest);
    if g.seconds.Some? {
      ParseFractionComplete(g);
    } else {
      assert rest == SuffixText(g.suffix);
      FinishComplete(g);
    }
  }

  lemma ParseTailComplete(g: Tail)
    requires TailField(g)
    ensures ParseTail(TailText(g)) == Some(g)
  {
    var rest := ColonText(g.seconds) + FractionText(g.fraction) + SuffixText(g.suffix);
    assert TailText(g) == ColonText(g.minutes) + rest;
    SuffixTextStart(g.suffix);
    SexagesimalComplete(g.minutes, rest);
    if g.minutes.Some? {
      ParseSecondsComplete(g);
    } else {
      assert rest == SuffixText(g.suffix);
      FinishComplete(g);
    }
  }

  lemma ParseComplete(c: Capture)
    requires WellFormed(c)
    ensures Parse(Render(c)) == Some(c)
  {
    var s := Render(c);
    var tail := TailText(c.tail);
    SuffixTextStart(c.tail.suffix);
    assert |tail| > 0 ==> !IsDigit(tail[0]);
    assert s == c.lead + (c.hour + tail);
    SpaceRunOf(c.lead, c.hour + tail);
    var r0 := s[|c.lead|..];
    assert r0 == c.hour + tail;
    assert s[..|c.lead|] == c.lead;
    if |c.hour| == 1 {
      assert |r0| >= 2 ==> r0[1] == tail[0];
    }
    var hl := if |r0| >= 2 && '0' <= r0[0] <= '2' && IsDigit(r0[1]) then 2 else 1;
    assert hl == |c.hour|;
    assert r0[..hl] == c.hour && r0[hl..] == tail;
    ParseTailComplete(c.tail);
  }

  // ---------------------------------------------------------------------
  // Field values

  function Pow10(n: nat): (p: nat)
    ensures p >= 1
  {
    if n == 0 then 1 else 10 * Pow10(n - 1)
  }

  /** `parseInt` of a digit string: its decimal value, below 10 to the
      power of its length. */
  function DigitsValue(s: string): (v: nat)
    requires AllDigits(s)
    ensures v < Pow10(|s|)
  {
    if |s| == 0 then 0
    else DigitsValue(s[..|s| - 1]) * 10 + (s[|s| - 1] as int - '0' as int)
  }

  /** The hour group reads as 0 to 29, a sexagesimal group as 0 to 59 and
      the fraction group as 0 to 999. */
  lemma FieldRanges(c: Capture)
    requires WellFormed(c)
    ensures DigitsValue(c.hour) <= 29
    ensures c.tail.minutes.Some? ==> DigitsValue(c.tail.minutes.value) < 60
    ensures c.tail.seconds.Some? ==> DigitsValue(c.tail.seconds.value) < 60
    ensures c.tail.fraction.Some? ==> DigitsValue(c.tail.fraction.value.digits) < 1000
  {
    HourRange(c.hour);
    if c.tail.minutes.Some? {
      SexagesimalRange(c.tail.minutes.value);
    }
    if c.tail.seconds.Some? {
      SexagesimalRange(c.tail.seconds.value);
    }
    if c.tail.fraction.Some? {
      var ds := c.tail.fraction.value.digits;
      assert Pow10(|ds|) <= Pow10(3) by {
        if |ds| < 3 {
          assert Pow10(|ds|) <= 100;
        }
      }
    }
  }

  lemma HourRange(h: string)
    requires HourField(h)
    ensures DigitsValue(h) <= 29
  {
    if |h| == 2 {
      assert h[..1][..0] == [];
      assert DigitsValue(h) == (h[0] as int - '0' as int) * 10 + (h[1] as int - '0' as int);
    } else {
      assert h[..0] == [];
    }
  }

  lemma SexagesimalRange(m: string)
    requires SexagesimalField(m)
    ensures DigitsValue(m) < 60
  {
    assert m[..1][..0] == [];
    assert DigitsValue(m) == (m[0] as int - '0' as int) * 10 + (m[1] as int - '0' as int);
  }

  /** The hour group's value, the hour `setHours` is first given. */
  function HourValue(c: Capture): nat
    requires WellFormed(c)
  {
    DigitsValue(c.hour)
  }

  /** A present group's value, or the field the time value already has. */
  function FieldOr(f: Option<string>, current: int): int
    requires f.Some? ==> SexagesimalField(f.value)
  {
    if f.Some? then DigitsValue(f.value) else current
  }

  function FractionOr(f: Option<Fraction>, current: int): int
    requires f.Some? ==> FractionField(f.value)
  {
    if f.Some? then DigitsValue(f.value.digits) else current
  }

  /** The hour a twelve-hour clock reading stands for: 12 am is 0, and pm
      adds twelve. */
  function MeridiemHour(h: int, m: Meridiem): int {
    (if h == 12 then 0 else h) + (if m == Pm then 12 else 0)
  }

  // ---------------------------------------------------------------------
  // at()

  datatype AtError =
    | InvalidFormat       // the string does not match
    | MeridiemIn24Hour    // am or pm after an hour above 12

  /** The time value after `at(s)`, and the error it throws, if any. The
      clock fields are set before the am/pm check, so the second error
      leaves them set. */
  datatype AtOutcome = AtOutcome(time: int, error: Option<AtError>)

  /** The clock fields of a match applied in the order `at()` applies them:
      the hour, then each present group. */
  function SetFields(t: int, c: Capture): int
    requires WellFormed(c)
  {
    var g := c.tail;
    var t1 := SetHours(t, HourValue(c));
    var t2 := if g.minutes.Some? then SetMinutes(t1, DigitsValue(g.minutes.value)) else t1;
    var t3 := if g.seconds.Some? then SetSeconds(t2, DigitsValue(g.seconds.value)) else t2;
    if g.fraction.Some? then SetMilliseconds(t3, DigitsValue(g.fraction.value.digits)) else t3
  }

  /** The am/pm step on a time value whose hour is at most 12. */
  function ApplyMeridiem(t: int, m: Meridiem): int {
    var t5 := if HourFromTime(t) == 12 then SetHours(t, 0) else t;
    if m == Pm then SetHours(t5, HourFromTime(t5) + 12) else t5
  }

  function At(t: int, s: string): AtOutcome {
    match Parse(s)
    case None => AtOutcome(t, Some(InvalidFormat))
    case Some(c) =>
      ParseSound(s);
      var t4 := SetFields(t, c);
      match c.tail.suffix
      case None => AtOutcome(t4, None)
      case Some(x) =>
        if HourValue(c) > 12 then AtOutcome(t4, Some(MeridiemIn24Hour))
        else AtOutcome(ApplyMeridiem(t4, x.meridiem), None)
  }

  /** The fields of a match set the clock of t's day to the hour group's
      value and to each present group, keeping the fields of t for the
      groups that are absent; an hour past 23 runs on into the next day. */
  lemma SetFieldsClock(t: int, c: Capture)
    requires WellFormed(c)
    ensures SetFields(t, c) == MakeDate(Day(t), MakeTime(HourValue(c),
      FieldOr(c.tail.minutes, MinFromTime(t)), FieldOr(c.tail.seconds, SecFromTime(t)),
      FractionOr(c.tail.fraction, MsFromTime(t))))
  {
    var g := c.tail;
    FieldRanges(c);
    var d, h := Day(t), HourValue(c);
    var m, sec, ms := FieldOr(g.minutes, MinFromTime(t)), FieldOr(g.seconds, SecFromTime(t)), FractionOr(g.fraction, MsFromTime(t));
    var t1 := SetHours(t, h);
    assert t1 == MakeDate(d, MakeTime(h, MinFromTime(t), SecFromTime(t), MsFromTime(t)));
    var t2 := if g.minutes.Some? then SetMinutes(t1, DigitsValue(g.minutes.value)) else t1;
    if g.minutes.Some? {
      SetMinutesOnClock(d, h, MinFromTime(t), SecFromTime(t), MsFromTime(t), m);
    }
    assert t2 == MakeDate(d, MakeTime(h, m, SecFromTime(t), MsFromTime(t)));
    var t3 := if g.seconds.Some? then SetSeconds(t2, DigitsValue(g.seconds.value)) else t2;
    if g.seconds.Some? {
      SetSecondsOnClock(d, h, m, SecFromTime(t), MsFromTime(t), sec);
    }
    assert t3 == MakeDate(d, MakeTime(h, m, sec, MsFromTime(t)));
    if g.fraction.Some? {
      SetMillisecondsOnClock(d, h, m, sec, MsFromTime(t), ms);
    }
  }

  /** The am/pm step turns an hour of at most 12 into the hour it stands
      for and leaves the other fields alone. */
  lemma ApplyMeridiemClock(day: int, h: int, m: int, s: int, ms: int, mer: Meridiem)
    requires 0 <= h <= 12 && SubHourFields(m, s, ms)
    ensures ApplyMeridiem(MakeDate(day, MakeTime(h, m, s, ms)), mer)
      == MakeDate(day, MakeTime(MeridiemHour(h, mer), m, s, ms))
  {
    var t := MakeDate(day, MakeTime(h, m, s, ms));
    DecodeClock(day, h, m, s, ms);
    var h5 := if h == 12 then 0 else h;
    var t5 := if HourFromTime(t) == 12 then SetHours(t, 0) else t;
    if h == 12 {
      SetHoursOnClock(day, h, m, s, ms, 0);
    }
    assert t5 == MakeDate(day, MakeTime(h5, m, s, ms));
    if mer == Pm {
      DecodeClock(day, h5, m, s, ms);
      SetHoursOnClock(day, h5, m, s, ms, h5 + 12);
    }
  }

  /** The time value of t's day at hour h with the minute, second and
      millisecond groups of c, or t's own where a group is absent. */
  function ClockOf(t: int, c: Capture, h: int): int
    requires WellFormed(c)
  {
    MakeDate(Day(t), MakeTime(h, FieldOr(c.tail.minutes, MinFromTime(t)),
      FieldOr(c.tail.seconds, SecFromTime(t)), FractionOr(c.tail.fraction, MsFromTime(t))))
  }

  /** The steps `at()` takes on a string the expression matches. */
  lemma AtOfMatch(t: int, s: string, c: Capture)
    requires Parse(s) == Some(c)
    ensures WellFormed(c)
    ensures c.tail.suffix.None? ==> At(t, s) == AtOutcome(SetFields(t, c), None)
    ensures c.tail.suffix.Some? && HourValue(c) > 12 ==>
      At(t, s) == AtOutcome(SetFields(t, c), Some(MeridiemIn24Hour))
    ensures c.tail.suffix.Some? && HourValue(c) <= 12 ==>
      At(t, s) == AtOutcome(ApplyMeridiem(SetFields(t, c), c.tail.suffix.value.meridiem), None)
  {
    ParseSound(s);
  }

  /** What `at()` does with a string it accepts. Without am/pm the clock is
      set to the groups as given. With am/pm and an hour above 12 it throws,
      after the groups have been set. Otherwise the hour is read on the
      twelve-hour clock. */
  lemma AtOfRender(t: int, c: Capture)
    requires WellFormed(c)
    ensures c.tail.suffix.None? ==>
      At(t, Render(c)) == AtOutcome(ClockOf(t, c, HourValue(c)), None)
    ensures c.tail.suffix.Some? && HourValue(c) > 12 ==>
      At(t, Render(c)) == AtOutcome(ClockOf(t, c, HourValue(c)), Some(MeridiemIn24Hour))
    ensures c.tail.suffix.Some? && HourValue(c) <= 12 ==>
      At(t, Render(c)) == AtOutcome(ClockOf(t, c, MeridiemHour(HourValue(c), c.tail.suffix.value.meridiem)), None)
  {
    var s := Render(c);
    ParseComplete(c);
    AtOfMatch(t, s, c);
    SetFieldsClock(t, c);
    if c.tail.suffix.Some? && HourValue(c) <= 12 {
      var g := c.tail;
      FieldRanges(c);
      ApplyMeridiemClock(Day(t), HourValue(c), FieldOr(g.minutes, MinFromTime(t)),
        FieldOr(g.seconds, SecFromTime(t)), FractionOr(g.fraction, MsFromTime(t)), g.suffix.value.meridiem);
    }
  }

  /** `at()` rejects exactly the strings that are not the rendering of a
      well-formed match, and then leaves the time value as it was. */
  lemma AtRejects(t: int, s: string)
    ensures At(t, s).error == Some(InvalidFormat) <==> !exists c :: WellFormed(c) && Render(c) == s
    ensures At(t, s).error == Some(InvalidFormat) ==> At(t, s).time == t
  {
    forall c | WellFormed(c) && Render(c) == s
      ensures Parse(s) == Some(c)
    {
      ParseComplete(c);
    }
    if Parse(s).Some? {
      ParseSound(s);
      var c := Parse(s).value;
      assert WellFormed(c) && Render(c) == s;
      AtOfMatch(t, s, c);
    }
  }

  /** The clock that a successful `at()` sets reads, on a day, the hour it
      stands for and the groups given. */
  lemma ClockFieldsOf(t: int, c: Capture, h: int)
    requires WellFormed(c) && 0 <= h < 24
    ensures Day(ClockOf(t, c, h)) == Day(t) && HourFromTime(ClockOf(t, c, h)) == h
    ensures MinFromTime(ClockOf(t, c, h)) == FieldOr(c.tail.minutes, MinFromTime(t))
    ensures SecFromTime(ClockOf(t, c, h)) == FieldOr(c.tail.seconds, SecFromTime(t))
    ensures MsFromTime(ClockOf(t, c, h)) == FractionOr(c.tail.fraction, MsFromTime(t))
  {
    FieldRanges(c);
    var g := c.tail;
    DecodeMakeDate(Day(t), h, FieldOr(g.minutes, MinFromTime(t)),
      FieldOr(g.seconds, SecFromTime(t)), FractionOr(g.fraction, MsFromTime(t)));
  }

  // ---------------------------------------------------------------------
  // The documented readings, on a day at midnight

  lemma MidnightFields(t: int)
    requires TimeWithinDay(t) == 0
    ensures HourFromTime(t) == 0 && MinFromTime(t) == 0 && SecFromTime(t) == 0 && MsFromTime(t) == 0
    ensures t == MakeDate(Day(t), MakeTime(0, 0, 0, 0))
  {
    SplitTime(t);
    DecodeMakeDate(Day(t), 0, 0, 0, 0);
  }

  /** "12am" is midnight. */
  lemma AtTwelveAm(t: int)
    requires TimeWithinDay(t) == 0
    ensures At(t, "12am") == AtOutcome(t, None)
  {
    var c := Capture("", "12", Tail(None, None, None, Some(Suffix("", Am))));
    assert Render(c) == "12am";
    assert HourValue(c) == 12 by {
      assert c.hour[..1] == "1" && c.hour[..1][..0] == [];
    }
    MidnightFields(t);
    AtOfRender(t, c);
  }

  /** "4:45am" keeps the hour and sets the minutes. */
  lemma AtQuarterToFive(t: int)
    requires TimeWithinDay(t) == 0
    ensures At(t, "4:45am") == AtOutcome(t + MakeTime(4, 45, 0, 0), None)
  {
    MidnightFields(t);
    var c := Capture("", "4", Tail(Some("45"), None, None, Some(Suffix("", Am))));
    assert Render(c) == "4:45am";
    assert HourValue(c) == 4 by {
      assert c.hour[..0] == [];
    }
    assert DigitsValue("45") == 45 by {
      assert "45"[..1] == "4" && "4"[..0] == [];
    }
    AtOfRender(t, c);
  }

  /** "4:45:32am" sets the seconds as well. */
  lemma AtQuarterToFiveAndSeconds(t: int)
    requires TimeWithinDay(t) == 0
    ensures At(t, "4:45:32am") == AtOutcome(t + MakeTime(4, 45, 32, 0), None)
  {
    MidnightFields(t);
    var c := Capture("", "4", Tail(Some("45"), Some("32"), None, Some(Suffix("", Am))));
    assert Render(c) == "4:45:32am";
    assert HourValue(c) == 4 by {
      assert c.hour[..0] == [];
    }
    assert DigitsValue("45") == 45 && DigitsValue("32") == 32 by {
      assert "45"[..1] == "4" && "4"[..0] == [];
      assert "32"[..1] == "3" && "3"[..0] == [];
    }
    AtOfRender(t, c);
  }

  /** "5:42:23.123 pm" on the twelve-hour clock. */
  lemma AtAfternoonMeridiem(t: int)
    ensures At(t, "5:42:23.123 pm") == AtOutcome(MakeDate(Day(t), MakeTime(17, 42, 23, 123)), None)
  {
    var c := Capture("", "5", Tail(Some("42"), Some("23"), Some(Fraction('.', "123")), Some(Suffix(" ", Pm))));
    assert Render(c) == "5:42:23.123 pm";
    assert HourValue(c) == 5 by {
      assert c.hour[..0] == [];
    }
    assert DigitsValue("42") == 42 && DigitsValue("23") == 23 && DigitsValue("123") == 123 by {
      assert "42"[..1] == "4" && "4"[..0] == [];
      assert "23"[..1] == "2" && "2"[..0] == [];
      assert "123"[..2] == "12" && "12"[..1] == "1" && "1"[..0] == [];
    }
    AtOfRender(t, c);
  }

  /** "17:42:23.123" on the 24-hour clock is the same time of day. */
  lemma AtAfternoon24Hour(t: int)
    ensures At(t, "17:42:23.123") == AtOutcome(MakeDate(Day(t), MakeTime(17, 42, 23, 123)), None)
  {
    var c := Capture("", "17", Tail(Some("42"), Some("23"), Some(Fraction('.', "123")), None));
    assert Render(c) == "17:42:23.123";
    assert HourValue(c) == 17 by {
      assert c.hour[..1] == "1" && c.hour[..1][..0] == [];
    }
    assert DigitsValue("42") == 42 && DigitsValue("23") == 23 && DigitsValue("123") == 123 by {
      assert "42"[..1] == "4" && "4"[..0] == [];
      assert "23"[..1] == "2" && "2"[..0] == [];
      assert "123"[..2] == "12" && "12"[..1] == "1" && "1"[..0] == [];
    }
    AtOfRender(t, c);
  }

  // ---------------------------------------------------------------------
  // Readings the expression and the steps of at() give as written

  /** am/pm must be lower case, and nothing may follow it. */
  lemma AtRejectsUpperCaseAndTrailingSpace(t: int)
    ensures At(t, "5PM") == AtOutcome(t, Some(InvalidFormat))
    ensures At(t, "5pm ") == AtOutcome(t, Some(InvalidFormat))
  {
    assert SpaceRun("5PM") == 0 && SpaceRun("PM") == 0;
    assert "5PM"[0..][1..] == "PM" && "PM"[0..] == "PM";
    assert SpaceRun("5pm ") == 0 && SpaceRun("pm ") == 0;
    assert "5pm "[0..][1..] == "pm " && "pm "[0..] == "pm ";
  }

  /** The separator before the fraction is one code unit: a character
      above U+FFFF there does not match. */
  lemma AtRejectsAstralSeparator(t: int)
    ensures At(t, "0:00:00\U{1F600}1") == AtOutcome(t, Some(InvalidFormat))
  {
    var s := "0:00:00\U{1F600}1";
    assert SpaceRun(s) == 0 && s[0..] == s;
    var r := s[1..];
    assert r == ":00:00\U{1F600}1";
    var r2 := ":00\U{1F600}1";
    assert r[1..3] == "00" && r[3..] == r2;
    assert Sexagesimal(r) == (Some("00"), r2);
    assert r2[1..3] == "00" && r2[3..] == "\U{1F600}1";
    assert Sexagesimal(r2) == (Some("00"), "\U{1F600}1");
    var rest := "\U{1F600}1";
    assert FractionPart(rest) == (None, rest);
    assert SpaceRun(rest) == 0 && rest[0..] == rest;
    assert SuffixPart(rest) == None;
  }

  /** An hour above 12 with am/pm throws, and the clock fields stay set. */
  lemma AtMeridiemAfterTwelve(t: int)
    ensures At(t, "13:30pm") == AtOutcome(MakeDate(Day(t), MakeTime(13, 30, SecFromTime(t), MsFromTime(t))), Some(MeridiemIn24Hour))
  {
    var c := Capture("", "13", Tail(Some("30"), None, None, Some(Suffix("", Pm))));
    assert Render(c) == "13:30pm";
    assert HourValue(c) == 13 by {
      assert c.hour[..1] == "1" && c.hour[..1][..0] == [];
    }
    assert DigitsValue("30") == 30 by {
      assert "30"[..1] == "3" && "3"[..0] == [];
    }
    AtOfRender(t, c);
  }

  /** The fraction group is read as a whole number of milliseconds, so
      ".5" is 5 milliseconds. */
  lemma AtFractionIsMilliseconds(t: int)
    ensures At(t, "0:00:00.5") == AtOutcome(MakeDate(Day(t), 5), None)
  {
    var c := Capture("", "0", Tail(Some("00"), Some("00"), Some(Fraction('.', "5")), None));
    assert Render(c) == "0:00:00.5";
    assert HourValue(c) == 0 && DigitsValue("5") == 5 by {
      assert c.hour[..0] == [] && "5"[..0] == [];
    }
    assert DigitsValue("00") == 0 by {
      assert "00"[..1] == "0" && "0"[..0] == [];
    }
    AtOfRender(t, c);
  }

  /** The hour group may be 24 to 29; the clock then runs on into the next
      day. */
  lemma AtPastMidnight(t: int)
    requires TimeWithinDay(t) == 0
    ensures At(t, "25:00") == AtOutcome(t + MsPerDay + MakeTime(1, 0, 0, 0), None)
  {
    MidnightFields(t);
    var c := Capture("", "25", Tail(Some("00"), None, None, None));
    assert Render(c) == "25:00";
    assert HourValue(c) == 25 by {
      assert c.hour[..1] == "2" && c.hour[..1][..0] == [];
    }
    assert DigitsValue("00") == 0 by {
      assert "00"[..1] == "0" && "0"[..0] == [];
    }
    AtOfRender(t, c);
  }
}
