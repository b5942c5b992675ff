/** Date helpers of src/utils/date.ts, with the clock and the `Date` object
    taken out: `getRelativeTime` is a function of the elapsed time in
    milliseconds, and `formatDate` of the template and the calendar fields
    the `Date` getters return. */
module DateUtils {
  import opened Wrappers
  import opened Decimal
  import opened StringUtils
  import opened Seqs

  // ---------------------------------------------------------------------
  // getRelativeTime

  const MinuteMs: nat := 60 * 1000
  const HourMs: nat := 60 * MinuteMs
  const DayMs: nat := 24 * HourMs
  const MonthMs: nat := 30 * DayMs
  const YearMs: nat := 365 * DayMs

  datatype Unit = Minutes | Hours | Days | Months | Years

  /** The description `getRelativeTime` picks: "just now", or a count of
      whole units ago. */
  datatype Span = JustNow | Ago(count: nat, unit: Unit)

  function UnitMs(u: Unit): nat {
    match u
    case Minutes => MinuteMs
    case Hours => HourMs
    case Days => DayMs
    case Months => MonthMs
    case Years => YearMs
  }

  /** Where the bucket of a unit ends: the size of the next unit. */
  function BucketEnd(u: Unit): nat
    requires u != Years
  {
    match u
    case Minutes => HourMs
    case Hours => DayMs
    case Days => MonthMs
    case Months => YearMs
  }

  /** The largest count a bucket can show. */
  function MaxCount(u: Unit): nat
    requires u != Years
  {
    match u
    case Minutes => 59
    case Hours => 23
    case Days => 29
    case Months => 12
  }

  /** The thresholds of `getRelativeTime`, tested in increasing order. Each
      unit's bucket runs from one such unit up to the next larger unit, so
      exactly one bucket applies; less than a minute, a negative elapsed
      time included, is "just now". */
  function Classify(diff: int): (s: Span)
    ensures s.JustNow? <==> diff < MinuteMs
    ensures s.Ago? ==> UnitMs(s.unit) <= diff && s.count == diff / UnitMs(s.unit) && s.count >= 1
    ensures s.Ago? && s.unit != Years ==> diff < BucketEnd(s.unit) && s.count <= MaxCount(s.unit)
  {
    if diff < MinuteMs then JustNow
    else if diff < HourMs then InBucket(diff, Minutes); Ago(diff / MinuteMs, Minutes)
    else if diff < DayMs then InBucket(diff, Hours); Ago(diff / HourMs, Hours)
    else if diff < MonthMs then InBucket(diff, Days); Ago(diff / DayMs, Days)
    else if diff < YearMs then InBucket(diff, Months); Ago(diff / MonthMs, Months)
    else DivAtLeastOne(diff, YearMs); Ago(diff / YearMs, Years)
  }

  /** At least one whole unit has elapsed. */
  lemma DivAtLeastOne(diff: int, unit: nat)
    requires 0 < unit <= diff
    ensures diff / unit >= 1
  {
  }

  /** Inside a unit's bucket, the count is between 1 and the unit's
      largest count. */
  lemma InBucket(diff: int, u: Unit)
    requires u != Years && UnitMs(u) <= diff < BucketEnd(u)
    ensures 1 <= diff / UnitMs(u) <= MaxCount(u)
  {
    match u
    case Minutes =>
    case Hours =>
    case Days =>
    case Months =>
  }

  function Suffix(u: Unit): string {
    match u
    case Minutes => "分钟前"
    case Hours => "小时前"
    case Days => "天前"
    case Months => "个月前"
    case Years => "年前"
  }

  const JustNowText: string := "刚刚"

  /** The text of a span: `${count}` followed by the unit's suffix. */
  function Describe(s: Span): string {
    match s
    case JustNow => JustNowText
    case Ago(n, u) => NatToString(n) + Suffix(u)
  }

  /** `getRelativeTime` for an elapsed time of diff milliseconds. */
  function RelativeTime(diff: int): string {
    Describe(Classify(diff))
  }

  /** The position of a span on the time line. */
  function Rank(s: Span): nat {
    match s
    case JustNow => 0
    case Ago(_, u) =>
      match u
      case Minutes => 1
      case Hours => 2
      case Days => 3
      case Months => 4
      case Years => 5
  }

  /** A longer elapsed time never gets a smaller unit, nor, within one
      unit, a smaller count. */
  lemma ClassifyMonotone(d1: int, d2: int)
    requires d1 <= d2
    ensures Rank(Classify(d1)) <= Rank(Classify(d2))
    ensures Classify(d1).Ago? && Classify(d2).Ago? && Classify(d1).unit == Classify(d2).unit
      ==> Classify(d1).count <= Classify(d2).count
  {
  }

  /** Reads a description back: the inverse of `Describe` on what
      `getRelativeTime` produces. */
  function ParseRelative(r: string): Option<Span> {
    if r == JustNowText then Some(JustNow)
    else
      var k := DigitRun(r);
      if k == 0 then None
      else
        var n := ParseNat(r[..k]);
        var rest := r[k..];
        if rest == Suffix(Minutes) then Some(Ago(n, Minutes))
        else if rest == Suffix(Hours) then Some(Ago(n, Hours))
        else if rest == Suffix(Days) then Some(Ago(n, Days))
        else if rest == Suffix(Months) then Some(Ago(n, Months))
        else if rest == Suffix(Years) then Some(Ago(n, Years))
        else None
  }

  /** Length of the run of ASCII digits at the start of r. */
  function DigitRun(r: string): (k: nat)
    ensures k <= |r| && AllDigits(r[..k])
    ensures k < |r| ==> !IsDigit(r[k])
  {
    if r == [] || !IsDigit(r[0]) then 0
    else
      var k := 1 + DigitRun(r[1..]);
      assert forall i :: 1 <= i < k ==> r[..k][i] == r[1..][..k - 1][i - 1];
      k
  }

  lemma DigitRunOfNumber(n: nat, u: Unit)
    ensures DigitRun(NatToString(n) + Suffix(u)) == |NatToString(n)|
  {
    var s, t := NatToString(n), Suffix(u);
    DigitRunPrefix(s, t);
  }

  lemma {:induction false} DigitRunPrefix(s: string, t: string)
    requires AllDigits(s)
    requires |t| > 0 && !IsDigit(t[0])
    ensures DigitRun(s + t) == |s|
  {
    if s != [] {
      assert (s + t)[1..] == s[1..] + t;
      DigitRunPrefix(s[1..], t);
    } else {
      assert s + t == t;
    }
  }

  /** Reading back what `getRelativeTime` wrote gives the bucket and count
      it chose, so different choices never print the same text. */
  lemma RelativeTimeParses(diff: int)
    ensures ParseRelative(RelativeTime(diff)) == Some(Classify(diff))
  {
    match Classify(diff)
    case JustNow =>
    case Ago(n, u) =>
      var s := NatToString(n);
      var r := s + Suffix(u);
      DigitRunOfNumber(n, u);
      assert r[..|s|] == s && r[|s|..] == Suffix(u);
      assert r != JustNowText by { assert IsDigit(r[0]); }
      ParseNatToString(n);
  }

  /** The examples: 30 s, 5 min, 2 h, 3 days, 2 months (61 days) and
      2 years (730 days). */
  lemma RelativeTimeExamples()
    ensures Classify(30 * 1000) == JustNow
    ensures Classify(5 * MinuteMs) == Ago(5, Minutes)
    ensures Classify(2 * HourMs) == Ago(2, Hours)
    ensures Classify(3 * DayMs + 100 * MinuteMs) == Ago(3, Days)
    ensures Classify(61 * DayMs) == Ago(2, Months)
    ensures Classify(730 * DayMs) == Ago(2, Years)
  {
  }

  // ---------------------------------------------------------------------
  // formatDate

  /** What the `Date` getters return: `getMonth()` counts from 0. */
  datatype Fields = Fields(year: int, month: nat, day: nat, hours: nat, minutes: nat, seconds: nat)

  /** `padStart(2, '0')`. */
  function Pad2(s: string): (r: string)
    ensures |r| == if |s| < 2 then 2 else |s|
    ensures r[|r| - |s|..] == s
    ensures forall i :: 0 <= i < |r| - |s| ==> r[i] == '0'
  {
    if |s| < 2 then seq(2 - |s|, _ => '0') + s else s
  }

  /** pat occurs in s starting at index j. */
  predicate OccursAt(s: string, pat: string, j: nat) {
    j + |pat| <= |s| && s[j..j + |pat|] == pat
  }

  lemma OccursAtTail(s: string, pat: string, j: nat)
    requires |s| > 0
    ensures OccursAt(s, pat, j + 1) <==> OccursAt(s[1..], pat, j)
  {
    if j + 1 + |pat| <= |s| {
      assert s[j + 1..j + 1 + |pat|] == s[1..][j..j + |pat|];
    }
  }

  /** The first index at which pat occurs in s, if any. */
  function FindFirst(s: string, pat: string): (r: Option<nat>)
    requires |pat| > 0
    ensures r.Some? ==> OccursAt(s, pat, r.value)
    ensures r.Some? ==> forall j: nat :: j < r.value ==> !OccursAt(s, pat, j)
    ensures r.None? ==> forall j: nat :: !OccursAt(s, pat, j)
  {
    if |s| < |pat| then None
    else if s[..|pat|] == pat then Some(0)
    else match FindFirst(s[1..], pat)
      case None =>
        assert forall j: nat :: OccursAt(s, pat, j + 1) <==> OccursAt(s[1..], pat, j) by {
          forall j: nat { OccursAtTail(s, pat, j); }
        }
        assert forall j: nat :: j > 0 ==> !OccursAt(s, pat, j) by {
          forall j: nat | j > 0
            ensures !OccursAt(s, pat, j)
          {
            OccursAtTail(s, pat, j - 1);
          }
        }
        None
      case Some(i) =>
        OccursAtTail(s, pat, i);
        assert forall j: nat :: 0 < j < i + 1 ==> !OccursAt(s, pat, j) by {
          forall j: nat | 0 < j < i + 1
            ensures !OccursAt(s, pat, j)
          {
            OccursAtTail(s, pat, j - 1);
          }
        }
        Some(i + 1)
  }

  /** `s.replace(pat, rep)` with a string pattern: only the first
      occurrence is replaced. The replacement texts used here hold no `$`,
      so no replacement pattern applies. */
  function ReplaceFirst(s: string, pat: string, rep: string): (r: string)
    requires |pat| > 0
  {
    match FindFirst(s, pat)
    case None => s
    case Some(i) => s[..i] + rep + s[i + |pat|..]
  }

  const DefaultTemplate: string := "YYYY-MM-DD"

  /** `formatDate(date, template)` given the date's fields: the year in
      full, the others padded to two digits, each substituted for the first
      occurrence of its token, in the order YYYY, MM, DD, HH, mm, ss. */
  function FormatDate(template: string, f: Fields): string {
    Substitute(template, Texts(f))
  }

  /** The six texts that stand in for YYYY, MM, DD, HH, mm and ss. */
  function Texts(f: Fields): seq<string> {
    [IntToString(f.year), Pad2(NatToString(f.month + 1)), Pad2(NatToString(f.day)),
     Pad2(NatToString(f.hours)), Pad2(NatToString(f.minutes)), Pad2(NatToString(f.seconds))]
  }

  /** The chain of `replace` calls, given the six replacement texts. */
  function Substitute(template: string, texts: seq<string>): string
    requires |texts| == 6
  {
    var t1 := ReplaceFirst(template, "YYYY", texts[0]);
    var t2 := ReplaceFirst(t1, "MM", texts[1]);
    var t3 := ReplaceFirst(t2, "DD", texts[2]);
    var t4 := ReplaceFirst(t3, "HH", texts[3]);
    var t5 := ReplaceFirst(t4, "mm", texts[4]);
    ReplaceFirst(t5, "ss", texts[5])
  }

  lemma {:induction false} ValueOfLeadingZero(ds: seq<int>)
    requires forall i :: 0 <= i < |ds| ==> 0 <= ds[i] <= 9
    ensures ValueOf([0] + ds) == ValueOf(ds)
  {
    if ds != [] {
      var front := ds[..|ds| - 1];
      assert ([0] + ds)[..|ds|] == [0] + front;
      ValueOfLeadingZero(front);
    }
  }

  /** Padding keeps the number: the padded text has at least two digits and
      still reads as n; below 100 it has exactly two. */
  lemma Pad2Value(n: nat)
    ensures AllDigits(Pad2(NatToString(n)))
    ensures ParseNat(Pad2(NatToString(n))) == n
    ensures n < 100 ==> |Pad2(NatToString(n))| == 2
  {
    var s := NatToString(n);
    ParseNatToString(n);
    if |s| < 2 {
      Pad2Short(s);
    }
    if n < 100 {
      DigitsLength(n, 2);
    }
  }

  /** A single digit gets one `0` in front, which does not change its value. */
  lemma Pad2Short(s: string)
    requires |s| == 1 && AllDigits(s)
    ensures AllDigits(Pad2(s)) && ParseNat(Pad2(s)) == ParseNat(s)
  {
    var p := Pad2(s);
    assert p == "0" + s;
    assert DigitsOfString(p) == [0] + DigitsOfString(s);
    ValueOfLeadingZero(DigitsOfString(s));
  }

  /** Text in which no token can start: no letters at all. */
  predicate NoLetters(s: string) {
    forall i :: 0 <= i < |s| ==> !IsUpper(s[i]) && !IsLower(s[i])
  }

  /** A template without any of the six tokens comes back unchanged. */
  lemma FormatDateNoTokens(template: string, f: Fields)
    requires FindFirst(template, "YYYY").None? && FindFirst(template, "MM").None?
    requires FindFirst(template, "DD").None? && FindFirst(template, "HH").None?
    requires FindFirst(template, "mm").None? && FindFirst(template, "ss").None?
    ensures FormatDate(template, f) == template
  {
    var texts := Texts(f);
    assert Substitute(template, texts) == template;
  }

  /** An optional position moved n places to the right. */
  function ShiftBy(o: Option<nat>, n: nat): Option<nat>
  {
    match o
    case None => None
    case Some(i) => Some(i + n)
  }

  lemma FindFirstAfterText(a: string, b: string, pat: string)
    requires |pat| > 0 && NoLetters(a) && (IsUpper(pat[0]) || IsLower(pat[0]))
    ensures FindFirst(a + b, pat) == ShiftBy(FindFirst(b, pat), |a|)
  {
    NoLettersNoStart(a, pat);
    FindFirstSkip(a, b, pat);
  }

  /** A token cannot start inside letter-free text. */
  lemma NoLettersNoStart(a: string, pat: string)
    requires |pat| > 0 && NoLetters(a) && (IsUpper(pat[0]) || IsLower(pat[0]))
    ensures pat[0] !in a
  {
    forall i | 0 <= i < |a| ensures a[i] != pat[0] {
    }
  }

  /** Text in front that lacks the token's first character does not change
      which occurrence comes first. */
  lemma {:induction false} FindFirstSkip(a: string, b: string, pat: string)
    requires |pat| > 0 && pat[0] !in a
    ensures FindFirst(a + b, pat) == ShiftBy(FindFirst(b, pat), |a|)
  {
    if a == [] {
      assert a + b == b;
    } else {
      var s := a + b;
      DropCons(a, b);
      assert !(|s| >= |pat| && s[..|pat|] == pat) by {
        if |s| >= |pat| {
          assert s[..|pat|][0] == a[0] && a[0] in a;
        }
      }
      FindFirstCons(s, pat);
      assert pat[0] !in a[1..] by {
        assert forall c :: c in a[1..] ==> c in a;
      }
      FindFirstSkip(a[1..], b, pat);
    }
  }

  /** Where pat does not start s, the search goes on one character later. */
  lemma FindFirstCons(s: string, pat: string)
    requires |pat| > 0 && s != [] && !(|s| >= |pat| && s[..|pat|] == pat)
    ensures FindFirst(s, pat) == ShiftBy(FindFirst(s[1..], pat), 1)
  {
  }

  lemma NoLettersFindNone(s: string, pat: string)
    requires |pat| > 0 && NoLetters(s) && (IsUpper(pat[0]) || IsLower(pat[0]))
    ensures FindFirst(s, pat).None?
  {
    FindFirstAfterText(s, [], pat);
    assert s + [] == s;
  }

  lemma PaddedNoLetters(n: nat)
    ensures NoLetters(Pad2(NatToString(n)))
  {
    Pad2Value(n);
  }

  lemma YearNoLetters(y: int)
    ensures NoLetters(IntToString(y))
  {
    if y < 0 {
      assert forall i :: 1 <= i < |IntToString(y)| ==> IntToString(y)[i] == NatToString(-y)[i - 1];
    }
  }

  lemma NoLettersAppend(a: string, b: string)
    requires NoLetters(a) && NoLetters(b)
    ensures NoLetters(a + b)
  {
    assert forall i :: |a| <= i < |a + b| ==> (a + b)[i] == b[i - |a|];
  }

  /** A token that follows letter-free text is the first occurrence, and
      is the one replaced. */
  lemma ReplaceAfterText(a: string, pat: string, rest: string, rep: string)
    requires |pat| > 0 && NoLetters(a) && (IsUpper(pat[0]) || IsLower(pat[0]))
    ensures ReplaceFirst(a + pat + rest, pat, rep) == a + rep + rest
  {
    NoLettersNoStart(a, pat);
    ReplaceSkip(a, pat, rest, rep);
  }

  /** The same when the text in front merely lacks the token's first
      character. */
  lemma ReplaceSkip(a: string, pat: string, rest: string, rep: string)
    requires |pat| > 0 && pat[0] !in a
    ensures ReplaceFirst(a + pat + rest, pat, rep) == a + rep + rest
  {
    var s := a + pat + rest;
    assert s == a + (pat + rest);
    assert (pat + rest)[..|pat|] == pat;
    FindFirstSkip(a, pat + rest, pat);
    assert s[..|a|] == a && s[|a| + |pat|..] == rest;
  }

  /** FormatDate when the first three tokens are found and the last three
      are not. */
  lemma FormatThree(template: string, texts: seq<string>, t1: string, t2: string, t3: string)
    requires |texts| == 6
    requires ReplaceFirst(template, "YYYY", texts[0]) == t1
    requires ReplaceFirst(t1, "MM", texts[1]) == t2
    requires ReplaceFirst(t2, "DD", texts[2]) == t3
    requires FindFirst(t3, "HH").None? && FindFirst(t3, "mm").None? && FindFirst(t3, "ss").None?
    ensures Substitute(template, texts) == t3
  {
  }

  lemma ReplaceYear(y: string)
    ensures ReplaceFirst(DefaultTemplate, "YYYY", y) == y + "-MM-DD"
  {
    assert DefaultTemplate == "YYYY" + "-MM-DD";
    ReplaceLeading("YYYY", "-MM-DD", y);
  }

  /** A placeholder at the very start of a template is replaced there. */
  lemma ReplaceLeading(pat: string, rest: string, rep: string)
    requires |pat| > 0 && (IsUpper(pat[0]) || IsLower(pat[0]))
    ensures ReplaceFirst(pat + rest, pat, rep) == rep + rest
  {
    assert [] + pat + rest == pat + rest;
    assert [] + rep + rest == rep + rest;
    ReplaceAfterText([], pat, rest, rep);
  }

  lemma ReplaceMonth(y: string, m: string)
    requires NoLetters(y)
    ensures ReplaceFirst(y + "-MM-DD", "MM", m) == y + "-" + m + "-DD"
  {
    assert NoLetters("-");
    NoLettersAppend(y, "-");
    assert y + "-MM-DD" == (y + "-") + "MM" + "-DD";
    ReplaceAfterText(y + "-", "MM", "-DD", m);
  }

  lemma ReplaceDay(y: string, m: string, d: string)
    requires NoLetters(y) && NoLetters(m)
    ensures ReplaceFirst(y + "-" + m + "-DD", "DD", d) == y + "-" + m + "-" + d
  {
    var a := y + "-" + m + "-";
    assert NoLetters("-");
    NoLettersAppend(y, "-");
    NoLettersAppend(y + "-", m);
    NoLettersAppend(y + "-" + m, "-");
    assert y + "-" + m + "-DD" == a + "DD" + "";
    assert a + d + "" == y + "-" + m + "-" + d;
    ReplaceAfterText(a, "DD", "", d);
  }

  lemma DefaultSubstitute(y: string, m: string, d: string, h: string, mi: string, s: string)
    requires NoLetters(y) && NoLetters(m) && NoLetters(d)
    ensures Substitute(DefaultTemplate, [y, m, d, h, mi, s]) == y + "-" + m + "-" + d
  {
    var t1, t2, t3 := y + "-MM-DD", y + "-" + m + "-DD", y + "-" + m + "-" + d;
    ReplaceYear(y);
    ReplaceMonth(y, m);
    ReplaceDay(y, m, d);
    assert NoLetters(t3) by {
      assert NoLetters("-");
      NoLettersAppend(y, "-");
      NoLettersAppend(y + "-", m);
      NoLettersAppend(y + "-" + m, "-");
      NoLettersAppend(y + "-" + m + "-", d);
    }
    NoLettersFindNone(t3, "HH");
    NoLettersFindNone(t3, "mm");
    NoLettersFindNone(t3, "ss");
    FormatThree(DefaultTemplate, [y, m, d, h, mi, s], t1, t2, t3);
  }

  /** The default template gives the year, then the month and the day padded
      to two digits, separated by `-`. */
  lemma DefaultFormat(f: Fields)
    ensures FormatDate(DefaultTemplate, f)
      == IntToString(f.year) + "-" + Pad2(NatToString(f.month + 1)) + "-" + Pad2(NatToString(f.day))
  {
    var y, m, d := IntToString(f.year), Pad2(NatToString(f.month + 1)), Pad2(NatToString(f.day));
    var h, mi, s := Pad2(NatToString(f.hours)), Pad2(NatToString(f.minutes)), Pad2(NatToString(f.seconds));
    assert Texts(f) == [y, m, d, h, mi, s];
    assert NoLetters(y) by { YearNoLetters(f.year); }
    assert NoLetters(m) by { PaddedNoLetters(f.month + 1); }
    assert NoLetters(d) by { PaddedNoLetters(f.day); }
    DefaultSubstitute(y, m, d, h, mi, s);
  }
  /** One replacement of a template whose tokens appear in order: the
      token after letter-free text p is replaced, and the replaced text
      together with the letter-free text b after it is again letter-free. */
  lemma FillStep(p: string, pat: string, rep: string, b: string, next: string, rest: string)
    requires |pat| > 0 && (IsUpper(pat[0]) || IsLower(pat[0]))
    requires NoLetters(p) && NoLetters(rep) && NoLetters(b)
    ensures ReplaceFirst(p + pat + (b + next + rest), pat, rep) == (p + rep + b) + next + rest
    ensures NoLetters(p + rep + b)
  {
    ReplaceAfterText(p, pat, b + next + rest, rep);
    assert p + rep + (b + next + rest) == (p + rep + b) + next + rest;
    NoLettersAppend(p, rep);
    NoLettersAppend(p + rep, b);
  }

  /** A template holding the six tokens in the order they are replaced,
      separated by letter-free text: each token is replaced where it stands.
      Only the last text may contain letters. */
  lemma OrderedSubstitute(a0: string, a1: string, a2: string, a3: string, a4: string,
                          a5: string, a6: string, texts: seq<string>)
    requires |texts| == 6
    requires NoLetters(a0) && NoLetters(a1) && NoLetters(a2) && NoLetters(a3)
    requires NoLetters(a4) && NoLetters(a5)
    requires NoLetters(texts[0]) && NoLetters(texts[1]) && NoLetters(texts[2])
    requires NoLetters(texts[3]) && NoLetters(texts[4])
    ensures Substitute(a0 + "YYYY" + (a1 + "MM" + (a2 + "DD" + (a3 + "HH" + (a4 + "mm" + (a5 + "ss" + a6))))), texts)
      == a0 + texts[0] + a1 + texts[1] + a2 + texts[2] + a3 + texts[3] + a4 + texts[4] + a5 + texts[5] + a6
  {
    var r4 := a5 + "ss" + a6;
    var r3 := a4 + "mm" + r4;
    var r2 := a3 + "HH" + r3;
    var r1 := a2 + "DD" + r2;
    FillStep(a0, "YYYY", texts[0], a1, "MM", r1);
    var p1 := a0 + texts[0] + a1;
    FillStep(p1, "MM", texts[1], a2, "DD", r2);
    var p2 := p1 + texts[1] + a2;
    FillStep(p2, "DD", texts[2], a3, "HH", r3);
    var p3 := p2 + texts[2] + a3;
    FillStep(p3, "HH", texts[3], a4, "mm", r4);
    var p4 := p3 + texts[3] + a4;
    FillStep(p4, "mm", texts[4], a5, "ss", a6);
    var p5 := p4 + texts[4] + a5;
    ReplaceAfterText(p5, "ss", a6, texts[5]);
  }

  /** `YYYY-MM-DD HH:mm:ss`: every text in its place. */
  lemma FullSubstitute(y: string, m: string, d: string, h: string, mi: string, s: string)
    requires NoLetters(y) && NoLetters(m) && NoLetters(d) && NoLetters(h) && NoLetters(mi)
    ensures Substitute("YYYY-MM-DD HH:mm:ss", [y, m, d, h, mi, s])
      == y + "-" + m + "-" + d + " " + h + ":" + mi + ":" + s
  {
    assert NoLetters("") && NoLetters("-") && NoLetters(" ") && NoLetters(":");
    FullTemplateParts();
    OrderedSubstitute("", "-", "-", " ", ":", ":", "", [y, m, d, h, mi, s]);
    assert "" + y == y;
    var full := y + "-" + m + "-" + d + " " + h + ":" + mi + ":" + s;
    assert full + "" == full;
  }

  /** The tokens of `YYYY-MM-DD HH:mm:ss` and the text between them. */
  lemma FullTemplateParts()
    ensures "YYYY-MM-DD HH:mm:ss"
      == "" + "YYYY" + ("-" + "MM" + ("-" + "DD" + (" " + "HH" + (":" + "mm" + (":" + "ss" + "")))))
  {
    assert ":" + "ss" + "" == ":ss";
    assert ":" + "mm" + ":ss" == ":mm:ss";
    assert " " + "HH" + ":mm:ss" == " HH:mm:ss";
    assert "-" + "DD" + " HH:mm:ss" == "-DD HH:mm:ss";
    assert "-" + "MM" + "-DD HH:mm:ss" == "-MM-DD HH:mm:ss";
    assert "" + "YYYY" + "-MM-DD HH:mm:ss" == "YYYY-MM-DD HH:mm:ss";
  }

  /** `MM/DD/YYYY`: the year is found after the month and the day, since
      no `Y` comes before it, and the output is month/day/year. */
  lemma UsSubstitute(y: string, m: string, d: string, h: string, mi: string, s: string)
    requires NoLetters(y) && NoLetters(m) && NoLetters(d)
    ensures Substitute("MM/DD/YYYY", [y, m, d, h, mi, s]) == m + "/" + d + "/" + y
  {
    UsYear(y);
    UsMonth(y, m);
    UsDay(y, m, d);
    UsNoTime(y, m, d);
    FormatThree("MM/DD/YYYY", [y, m, d, h, mi, s], "MM/DD/" + y, m + ("/DD/" + y), m + "/" + d + "/" + y);
  }

  lemma UsNoTime(y: string, m: string, d: string)
    requires NoLetters(y) && NoLetters(m) && NoLetters(d)
    ensures FindFirst(m + "/" + d + "/" + y, "HH").None?
    ensures FindFirst(m + "/" + d + "/" + y, "mm").None?
    ensures FindFirst(m + "/" + d + "/" + y, "ss").None?
  {
    var t3 := m + "/" + d + "/" + y;
    assert NoLetters(t3) by {
      assert NoLetters("/");
      NoLettersAppend(m, "/");
      NoLettersAppend(m + "/", d);
      NoLettersAppend(m + "/" + d, "/");
      NoLettersAppend(m + "/" + d + "/", y);
    }
    NoLettersFindNone(t3, "HH");
    NoLettersFindNone(t3, "mm");
    NoLettersFindNone(t3, "ss");
  }

  lemma UsYear(y: string)
    ensures ReplaceFirst("MM/DD/YYYY", "YYYY", y) == "MM/DD/" + y
  {
    assert "MM/DD/YYYY" == "MM/DD/" + "YYYY" + "";
    assert 'Y' !in "MM/DD/";
    ReplaceSkip("MM/DD/", "YYYY", "", y);
    assert "MM/DD/" + y + "" == "MM/DD/" + y;
  }

  lemma UsMonth(y: string, m: string)
    ensures ReplaceFirst("MM/DD/" + y, "MM", m) == m + ("/DD/" + y)
  {
    assert "MM/DD/" + y == "MM" + ("/DD/" + y);
    ReplaceLeading("MM", "/DD/" + y, m);
  }

  lemma UsDay(y: string, m: string, d: string)
    requires NoLetters(m)
    ensures ReplaceFirst(m + ("/DD/" + y), "DD", d) == m + "/" + d + "/" + y
  {
    assert NoLetters("/");
    NoLettersAppend(m, "/");
    assert m + ("/DD/" + y) == (m + "/") + "DD" + ("/" + y);
    ReplaceAfterText(m + "/", "DD", "/" + y, d);
    assert (m + "/") + d + ("/" + y) == m + "/" + d + "/" + y;
  }

  /** The six texts of a date's fields. */
  lemma FieldTexts(f: Fields) returns (y: string, m: string, d: string, h: string, mi: string, s: string)
    ensures Texts(f) == [y, m, d, h, mi, s]
    ensures y == IntToString(f.year) && m == Pad2(NatToString(f.month + 1))
    ensures d == Pad2(NatToString(f.day)) && h == Pad2(NatToString(f.hours))
    ensures mi == Pad2(NatToString(f.minutes)) && s == Pad2(NatToString(f.seconds))
    ensures NoLetters(y) && NoLetters(m) && NoLetters(d) && NoLetters(h) && NoLetters(mi) && NoLetters(s)
  {
    y, m, d := IntToString(f.year), Pad2(NatToString(f.month + 1)), Pad2(NatToString(f.day));
    h, mi, s := Pad2(NatToString(f.hours)), Pad2(NatToString(f.minutes)), Pad2(NatToString(f.seconds));
    YearNoLetters(f.year);
    PaddedNoLetters(f.month + 1);
    PaddedNoLetters(f.day);
    PaddedNoLetters(f.hours);
    PaddedNoLetters(f.minutes);
    PaddedNoLetters(f.seconds);
  }

  /** `formatDate(date, 'YYYY-MM-DD HH:mm:ss')`: year, month and day joined
      by `-`, then a space, then hours, minutes and seconds joined by `:`,
      all but the year padded to two digits. */
  lemma FullFormat(f: Fields)
    ensures FormatDate("YYYY-MM-DD HH:mm:ss", f)
      == IntToString(f.year) + "-" + Pad2(NatToString(f.month + 1)) + "-" + Pad2(NatToString(f.day))
        + " " + Pad2(NatToString(f.hours)) + ":" + Pad2(NatToString(f.minutes))
        + ":" + Pad2(NatToString(f.seconds))
  {
    var y, m, d, h, mi, s := FieldTexts(f);
    FullSubstitute(y, m, d, h, mi, s);
  }

  /** `formatDate(date, 'MM/DD/YYYY')`: month, day and year joined by `/`. */
  lemma UsFormat(f: Fields)
    ensures FormatDate("MM/DD/YYYY", f)
      == Pad2(NatToString(f.month + 1)) + "/" + Pad2(NatToString(f.day)) + "/" + IntToString(f.year)
  {
    var y, m, d, h, mi, s := FieldTexts(f);
    UsSubstitute(y, m, d, h, mi, s);
  }
  /** A two-digit number prints as its two digits, and padding keeps it. */
  lemma TwoDigits(n: nat, s: string)
    requires 10 <= n <= 99 && |s| == 2
    requires s[0] as int == '0' as int + n / 10 && s[1] as int == '0' as int + n % 10
    ensures NatToString(n) == s && Pad2(NatToString(n)) == s
  {
    DigitsShift(n / 10, n % 10);
    assert s == [DigitChar(n / 10), DigitChar(n % 10)];
  }

  lemma Year2023(y: int)
    requires y == 2023
    ensures IntToString(y) == "2023"
  {
    DigitsShift(2, 0);
    DigitsShift(20, 2);
    DigitsShift(202, 3);
  }

  /** 25 December 2023, 10:30:45 with the template `YYYY-MM-DD HH:mm:ss`. */
  lemma FullFormatExample(f: Fields)
    requires f == Fields(2023, 11, 25, 10, 30, 45)
    ensures FormatDate("YYYY-MM-DD HH:mm:ss", f) == "2023-12-25 10:30:45"
  {
    FullFormat(f);
    Year2023(f.year);
    TwoDigits(f.month + 1, "12");
    TwoDigits(f.day, "25");
    TwoDigits(f.hours, "10");
    TwoDigits(f.minutes, "30");
    TwoDigits(f.seconds, "45");
    FullJoin(IntToString(f.year), Pad2(NatToString(f.month + 1)), Pad2(NatToString(f.day)),
      Pad2(NatToString(f.hours)), Pad2(NatToString(f.minutes)), Pad2(NatToString(f.seconds)));
  }

  lemma FullJoin(y: string, m: string, d: string, h: string, mi: string, s: string)
    requires y == "2023" && m == "12" && d == "25" && h == "10" && mi == "30" && s == "45"
    ensures y + "-" + m + "-" + d + " " + h + ":" + mi + ":" + s == "2023-12-25 10:30:45"
  {
  }

  /** The same date with the template `MM/DD/YYYY`. */
  lemma UsFormatExample(f: Fields)
    requires f == Fields(2023, 11, 25, 10, 30, 45)
    ensures FormatDate("MM/DD/YYYY", f) == "12/25/2023"
  {
    UsFormat(f);
    Year2023(f.year);
    TwoDigits(f.month + 1, "12");
    TwoDigits(f.day, "25");
    UsJoin(Pad2(NatToString(f.month + 1)), Pad2(NatToString(f.day)), IntToString(f.year));
  }

  lemma UsJoin(m: string, d: string, y: string)
    requires m == "12" && d == "25" && y == "2023"
    ensures m + "/" + d + "/" + y == "12/25/2023"
  {
  }
}
