/** Number helpers of src/utils/number.ts: the Chinese numeral renderer
    `numberToChinese`, thousands separators for integers (`formatNumber`)
    and the parity tests `isEven` / `isOdd`. */
module NumberUtils {
  import opened Wrappers
  import opened Decimal
  import opened Seqs

  // ---------------------------------------------------------------------
  // numberToChinese

  /** Unit word for each absolute digit position (0 = ones). There is no
      grouping by 万: positions 5..7 carry the whole words 十万, 百万, 千万. */
  const Units: seq<string> := ["", "十", "百", "千", "万", "十万", "百万", "千万", "亿"]

  /** Glyph of each digit 0..9. */
  const Chars: seq<char> := ['零', '一', '二', '三', '四', '五', '六', '七', '八', '九']

  const RangeMessage: string := "数字超出支持范围 (0-999999999) 或不是整数"

  /** Every character the renderer can produce. */
  predicate InVocabulary(ch: char) {
    ch in Chars || ch in "十百千万亿"
  }

  /** Digit sequences the renderer walks: at most nine decimal digits. */
  predicate ValidDigits(ds: seq<int>) {
    |ds| <= 9 && forall i :: 0 <= i < |ds| ==> 0 <= ds[i] <= 9
  }

  predicate HasNonZero(ds: seq<int>) {
    exists j :: 0 <= j < |ds| && ds[j] != 0
  }

  /** A `零` goes in front of the glyph of digit i exactly when digit i - 1
      is zero and some digit before i is non-zero: one `零` per run of zeros
      that has non-zero digits on both sides. */
  predicate ZeroBefore(ds: seq<int>, i: int)
    requires 0 <= i <= |ds|
  {
    0 < i && ds[i - 1] == 0 && HasNonZero(ds[..i])
  }

  /** The unit word of the digit at index i, counted from the left. */
  function UnitAt(ds: seq<int>, i: int): (u: string)
    requires ValidDigits(ds) && 0 <= i < |ds|
    ensures i == |ds| - 1 <==> u == ""
    ensures forall k :: 0 <= k < |u| ==> InVocabulary(u[k]) && u[k] != '零'
  {
    var p := |ds| - 1 - i;
    if p > 0 then Units[p] else ""
  }

  /** What digit i contributes to the output: nothing for a zero; otherwise
      an optional `零`, the digit's glyph and its unit word. */
  function Piece(ds: seq<int>, i: int): string
    requires ValidDigits(ds) && 0 <= i < |ds|
  {
    if ds[i] == 0 then ""
    else (if ZeroBefore(ds, i) then "零" else "") + [Chars[ds[i]]] + UnitAt(ds, i)
  }

  /** The pieces of the first k digits, in order. */
  function Emitted(ds: seq<int>, k: nat): string
    requires ValidDigits(ds) && k <= |ds|
  {
    if k == 0 then "" else Emitted(ds, k - 1) + Piece(ds, k - 1)
  }

  /** The single rewrite applied at the end: a leading `一十` becomes `十`. */
  function StripLeadingOneTen(s: string): string {
    if |s| >= 2 && s[0] == '一' && s[1] == '十' then s[1..] else s
  }

  /** The rendering of 0 < n < 10^9. */
  function Rendered(n: nat): string
    requires 0 < n < 1000000000
  {
    DigitsBound(n);
    StripLeadingOneTen(Emitted(Digits(n), |Digits(n)|))
  }

  lemma DigitsBound(n: nat)
    requires n < 1000000000
    ensures ValidDigits(Digits(n))
  {
    assert Pow10(9) == 1000000000;
    DigitsLength(n, 9);
  }

  /** The output so far is non-empty exactly when a non-zero digit has been
      passed. */
  lemma {:induction false} EmittedNonEmpty(ds: seq<int>, k: nat)
    requires ValidDigits(ds) && k <= |ds|
    ensures Emitted(ds, k) != "" <==> HasNonZero(ds[..k])
  {
    if k > 0 {
      var pre, x := ds[..k - 1], ds[k - 1];
      assert Emitted(ds, k) == Emitted(ds, k - 1) + Piece(ds, k - 1);
      assert Emitted(ds, k - 1) != "" <==> HasNonZero(pre) by { EmittedNonEmpty(ds, k - 1); }
      assert Piece(ds, k - 1) != "" <==> x != 0 by { PieceEmpty(ds, k - 1); }
      HasNonZeroPrefix(ds, k);
    }
  }

  lemma PieceEmpty(ds: seq<int>, i: int)
    requires ValidDigits(ds) && 0 <= i < |ds|
    ensures Piece(ds, i) == "" <==> ds[i] == 0
  {
    if ds[i] != 0 {
      assert |Piece(ds, i)| >= |[Chars[ds[i]]]|;
    }
  }

  /** One more digit: the prefix has a non-zero digit exactly when the
      shorter prefix has one or the new digit is non-zero. */
  lemma HasNonZeroPrefix(ds: seq<int>, k: int)
    requires 0 < k <= |ds|
    ensures HasNonZero(ds[..k]) <==> HasNonZero(ds[..k - 1]) || ds[k - 1] != 0
  {
    var pre, cur := ds[..k - 1], ds[..k];
    if HasNonZero(pre) {
      var j :| 0 <= j < |pre| && pre[j] != 0;
      assert cur[j] == pre[j];
    }
    if ds[k - 1] != 0 {
      assert cur[k - 1] != 0;
    }
    if HasNonZero(cur) {
      var j :| 0 <= j < |cur| && cur[j] != 0;
      if j < k - 1 {
        assert pre[j] == cur[j];
      }
    }
  }

  /** Converts an integer to Chinese numerals. 0 gives `零`; a value outside
      [0, 999999999] is refused with the range error and no output. */
  method NumberToChinese(num: int) returns (r: Result<string, string>)
    ensures num == 0 ==> r == Ok("零")
    ensures (num < 0 || num >= 1000000000) ==> r == Err(RangeMessage)
    ensures 0 < num < 1000000000 ==> r == Ok(Rendered(num))
  {
    if num == 0 {
      return Ok("零");
    }
    if num < 0 || num >= 1000000000 {
      return Err(RangeMessage);
    }
    var str := NatToString(num);
    ghost var ds := Digits(num);
    DigitsBound(num);
    var result := "";
    var hasZero := false;
    for i := 0 to |str|
      invariant result == Emitted(ds, i)
      invariant hasZero <==> (0 < i && ds[i - 1] == 0)
    {
      var digit := str[i] as int - '0' as int;
      assert digit == ds[i] by { assert str[i] == DigitChar(ds[i]); }
      var unit := |str| - i - 1;
      if digit != 0 {
        var word := if unit > 0 then Units[unit] else "";
        EmitStep(ds, i, result, hasZero, word);
        if hasZero && result != "" {
          result := result + "零";
        }
        result := result + [Chars[digit]] + word;
        hasZero := false;
      } else {
        assert Emitted(ds, i + 1) == Emitted(ds, i) + Piece(ds, i);
        hasZero := true;
      }
    }
    r := Ok(StripLeadingOneTen(result));
  }

  /** One pass of the loop body for a non-zero digit: the `零` test on the
      pending flag and the output so far agrees with `ZeroBefore`. */
  lemma EmitStep(ds: seq<int>, i: int, result: string, hasZero: bool, word: string)
    requires ValidDigits(ds) && 0 <= i < |ds| && ds[i] != 0
    requires result == Emitted(ds, i)
    requires hasZero <==> (0 < i && ds[i - 1] == 0)
    requires word == if |ds| - i - 1 > 0 then Units[|ds| - i - 1] else ""
    ensures Emitted(ds, i + 1)
      == (if hasZero && result != "" then result + "零" else result) + [Chars[ds[i]]] + word
  {
    var zeroFirst := hasZero && result != "";
    var zero := if zeroFirst then "零" else "";
    assert zeroFirst == ZeroBefore(ds, i) by { EmittedNonEmpty(ds, i); }
    assert Piece(ds, i) == zero + [Chars[ds[i]]] + word by { PieceNonZero(ds, i, word); }
    Append3(result, zero, [Chars[ds[i]]], word);
  }

  lemma Append3(a: string, z: string, g: string, w: string)
    ensures a + (z + g + w) == (if z == "" then a else a + z) + g + w
  {
    if z == "" {
      assert z + g + w == g + w;
    }
  }

  lemma PieceNonZero(ds: seq<int>, i: int, word: string)
    requires ValidDigits(ds) && 0 <= i < |ds| && ds[i] != 0
    requires word == if |ds| - i - 1 > 0 then Units[|ds| - i - 1] else ""
    ensures Piece(ds, i) == (if ZeroBefore(ds, i) then "零" else "") + [Chars[ds[i]]] + word
  {
  }

  // ---------------------------------------------------------------------
  // Properties of the rendering

  /** The digits 1..9 render as their bare glyph. */
  lemma SingleDigit(n: nat)
    requires 1 <= n <= 9
    ensures Rendered(n) == [Chars[n]]
  {
    var ds := Digits(n);
    assert ds == [n];
    assert Emitted(ds, 1) == Piece(ds, 0);
  }

  predicate AllInVocabulary(s: string) {
    forall k :: 0 <= k < |s| ==> InVocabulary(s[k])
  }

  /** Every `零` is directly followed by a character other than `零`; in
      particular the string does not end with `零`. */
  predicate ZeroFollowed(s: string) {
    forall k :: 0 <= k < |s| && s[k] == '零' ==> k + 1 < |s| && s[k + 1] != '零'
  }

  /** Shape of the unrewritten output: vocabulary only, no `零` at either
      end, and every `零` followed by a non-`零` character. */
  predicate WellShaped(s: string) {
    AllInVocabulary(s) && ZeroFollowed(s) && (|s| > 0 ==> s[0] != '零')
  }

  /** Every piece is built from the vocabulary, a `零` in it is always
      directly followed by the glyph of a non-zero digit, and without a
      pending zero it starts with that glyph. */
  lemma PieceShape(ds: seq<int>, i: int)
    requires ValidDigits(ds) && 0 <= i < |ds|
    ensures AllInVocabulary(Piece(ds, i)) && ZeroFollowed(Piece(ds, i))
    ensures ds[i] != 0 && !ZeroBefore(ds, i) ==> Piece(ds, i)[0] != '零'
  {
    if ds[i] != 0 {
      var z := if ZeroBefore(ds, i) then "零" else "";
      var g := [Chars[ds[i]]];
      var u := UnitAt(ds, i);
      assert g[0] != '零' && InVocabulary(g[0]);
      var p := Piece(ds, i);
      assert p == z + g + u;
      forall k | 0 <= k < |p|
        ensures InVocabulary(p[k])
        ensures p[k] == '零' ==> k + 1 < |p| && p[k + 1] != '零'
      {
        if k < |z| {
          assert p[k + 1] == g[0];
        } else if k < |z| + 1 {
          assert p[k] == g[0];
        } else {
          assert p[k] == u[k - |z| - 1];
        }
      }
    }
  }

  lemma ConcatShaped(a: string, p: string)
    requires WellShaped(a) && AllInVocabulary(p) && ZeroFollowed(p)
    requires a == "" && p != "" ==> p[0] != '零'
    ensures WellShaped(a + p)
  {
    var s := a + p;
    forall j | 0 <= j < |s| && s[j] == '零'
      ensures j + 1 < |s| && s[j + 1] != '零'
    {
      if j < |a| {
        assert a[j] == '零';
        assert s[j + 1] == a[j + 1];
      } else {
        assert p[j - |a|] == '零';
        assert s[j + 1] == p[j - |a| + 1];
      }
    }
    forall j | 0 <= j < |s| ensures InVocabulary(s[j]) {
      if j < |a| { assert s[j] == a[j]; } else { assert s[j] == p[j - |a|]; }
    }
  }

  lemma {:induction false} EmittedWellShaped(ds: seq<int>, k: nat)
    requires ValidDigits(ds) && k <= |ds|
    ensures WellShaped(Emitted(ds, k))
  {
    if k > 0 {
      EmittedWellShaped(ds, k - 1);
      EmittedShapedStep(ds, k);
    }
  }

  lemma EmittedShapedStep(ds: seq<int>, k: nat)
    requires ValidDigits(ds) && 0 < k <= |ds| && WellShaped(Emitted(ds, k - 1))
    ensures WellShaped(Emitted(ds, k))
  {
    ShapedWithPiece(ds, k - 1, Emitted(ds, k - 1));
  }

  /** A well-shaped output stays well-shaped when the next piece is added. */
  lemma ShapedWithPiece(ds: seq<int>, i: nat, a: string)
    requires ValidDigits(ds) && i < |ds| && WellShaped(a) && a == Emitted(ds, i)
    ensures WellShaped(a + Piece(ds, i))
  {
    PieceShape(ds, i);
    PieceStart(ds, i);
    ConcatShaped(a, Piece(ds, i));
  }

  /** The first non-empty piece does not start with `零`. */
  lemma PieceStart(ds: seq<int>, i: nat)
    requires ValidDigits(ds) && i < |ds|
    ensures Emitted(ds, i) == "" && Piece(ds, i) != "" ==> Piece(ds, i)[0] != '零'
  {
    if Emitted(ds, i) == "" && Piece(ds, i) != "" {
      PieceEmpty(ds, i);
      FirstPieceLead(ds, i);
    }
  }

  /** With nothing emitted yet no non-zero digit was passed, so the next
      piece does not start with `零`. */
  lemma FirstPieceLead(ds: seq<int>, i: nat)
    requires ValidDigits(ds) && i < |ds| && Emitted(ds, i) == "" && ds[i] != 0
    ensures Piece(ds, i)[0] != '零'
  {
    EmittedNonEmpty(ds, i);
    PieceShape(ds, i);
  }

  /** For 0 < n < 10^9 the output is non-empty, uses only the glyph and unit
      vocabulary, does not start or end with `零`, and never repeats `零`:
      a run of zeros yields at most one `零`, and trailing zeros none. */
  lemma RenderedShape(n: nat)
    requires 0 < n < 1000000000
    ensures Rendered(n) != ""
    ensures forall k :: 0 <= k < |Rendered(n)| ==> InVocabulary(Rendered(n)[k])
    ensures Rendered(n)[0] != '零' && Rendered(n)[|Rendered(n)| - 1] != '零'
    ensures forall k :: 0 <= k < |Rendered(n)| - 1 ==> !(Rendered(n)[k] == '零' && Rendered(n)[k + 1] == '零')
  {
    var ds := Digits(n);
    DigitsBound(n);
    EmittedWellShaped(ds, |ds|);
    EmittedNonEmpty(ds, |ds|);
    assert ds[..|ds|] == ds;
    assert ds[0] != 0;
    StripShaped(Emitted(ds, |ds|));
  }

  /** The final rewrite keeps the output non-empty and well-shaped. */
  lemma StripShaped(e: string)
    requires WellShaped(e) && e != ""
    ensures StripLeadingOneTen(e) != "" && WellShaped(StripLeadingOneTen(e))
  {
    var r := StripLeadingOneTen(e);
    if r != e {
      forall k | 0 <= k < |r| ensures r[k] == e[k + 1] { }
    }
  }

  /** The final rewrite fires exactly when the leading digit is 1 and sits at
      position 1 (10..19) or at position 5, whose unit word is 十万 (so
      110000 renders as 十万一万); otherwise the output starts with the
      leading digit's glyph. */
  lemma OneTenRewrite(n: nat)
    requires 0 < n < 1000000000
    ensures var ds := Digits(n);
            var r := Rendered(n);
            && |r| > 0
            && (r[0] == '十' <==> ds[0] == 1 && (|ds| == 2 || |ds| == 6))
            && (r[0] != '十' ==> r[0] == Chars[ds[0]])
  {
    if n < 10 {
      SingleDigit(n);
      GlyphsDistinct(n);
    } else {
      LeadingPieceOfLong(n);
    }
  }

  lemma LeadingPieceOfLong(n: nat)
    requires 10 <= n < 1000000000
    ensures var ds := Digits(n);
            var r := Rendered(n);
            && |r| > 0
            && (r[0] == '十' <==> ds[0] == 1 && (|ds| == 2 || |ds| == 6))
            && (r[0] != '十' ==> r[0] == Chars[ds[0]])
  {
    var ds := Digits(n);
    DigitsBound(n);
    EmittedLead(ds);
    GlyphsDistinct(ds[0]);
    UnitLeads(|ds| - 1);
  }

  /** With two or more digits the output starts with the leading digit's
      glyph followed by the first character of its unit word. */
  lemma EmittedLead(ds: seq<int>)
    requires ValidDigits(ds) && |ds| >= 2 && ds[0] != 0
    ensures var e := Emitted(ds, |ds|);
            |e| >= 2 && e[0] == Chars[ds[0]] && e[1] == Units[|ds| - 1][0]
  {
    var u := UnitAt(ds, 0);
    var head := [Chars[ds[0]]] + u;
    UnitLeads(|ds| - 1);
    EmittedPrefix(ds, |ds|, head);
    var e := Emitted(ds, |ds|);
    assert e[0] == e[..|head|][0] && e[1] == e[..|head|][1];
  }

  lemma GlyphsDistinct(d: int)
    requires 0 <= d <= 9
    ensures Chars[d] != '十'
    ensures Chars[d] == '一' <==> d == 1
  {
  }

  /** Of the unit words, only those of positions 1 and 5 start with 十. */
  lemma UnitLeads(p: int)
    requires 1 <= p <= 8
    ensures |Units[p]| >= 1 && (Units[p][0] == '十' <==> p == 1 || p == 5)
  {
  }

  /** The output starts with the first digit's glyph and unit word. */
  lemma {:induction false} EmittedPrefix(ds: seq<int>, k: nat, head: string)
    requires ValidDigits(ds) && 1 <= k <= |ds| && ds[0] != 0
    requires head == [Chars[ds[0]]] + UnitAt(ds, 0)
    ensures |head| <= |Emitted(ds, k)| && Emitted(ds, k)[..|head|] == head
  {
    if k == 1 {
      assert !ZeroBefore(ds, 0);
      assert Emitted(ds, 1) == Piece(ds, 0);
    } else {
      EmittedPrefix(ds, k - 1, head);
      PrefixAppend(Emitted(ds, k - 1), Piece(ds, k - 1), head);
    }
  }

  /** 10 renders as 十 and 11..19 as 十 followed by the ones glyph. */
  lemma Teens(n: nat)
    requires 10 <= n <= 19
    ensures Rendered(n) == if n == 10 then "十" else ['十', Chars[n - 10]]
  {
    DigitsShift(1, n - 10);
    EmittedTeen(Digits(n), n - 10);
  }

  lemma EmittedTeen(ds: seq<int>, d: int)
    requires 0 <= d <= 9 && ds == [1, d]
    ensures Emitted(ds, 2) == if d == 0 then "一十" else ['一', '十', Chars[d]]
  {
    assert Emitted(ds, 1) == "一十";
    assert !ZeroBefore(ds, 1);
  }

  /** One `零` stands for the two zeros of 10001. */
  lemma TenThousandAndOne()
    ensures Rendered(10001) == "一万零一"
  {
    DigitsOf10001();
    EmittedOf10001(Digits(10001));
  }

  lemma DigitsOf10001()
    ensures Digits(10001) == [1, 0, 0, 0, 1]
  {
    DigitsShift(1, 0);
    DigitsShift(10, 0);
    DigitsShift(100, 0);
    DigitsShift(1000, 1);
  }

  lemma EmittedOf10001(ds: seq<int>)
    requires ds == [1, 0, 0, 0, 1]
    ensures Emitted(ds, 5) == "一万零一"
  {
    assert Emitted(ds, 1) == "一万";
    EmittedZero(ds, 2);
    EmittedZero(ds, 3);
    EmittedZero(ds, 4);
    assert ZeroBefore(ds, 4) by { assert ds[..4][0] != 0; }
  }

  /** A `一十` that is not at the very start survives the rewrite. */
  lemma OneThousandTen()
    ensures Rendered(1010) == "一千零一十"
  {
    DigitsOf1010();
    EmittedOf1010(Digits(1010));
  }

  lemma DigitsOf1010()
    ensures Digits(1010) == [1, 0, 1, 0]
  {
    DigitsShift(1, 0);
    DigitsShift(10, 1);
    DigitsShift(101, 0);
  }

  lemma EmittedOf1010(ds: seq<int>)
    requires ds == [1, 0, 1, 0]
    ensures Emitted(ds, 4) == "一千零一十"
  {
    assert Emitted(ds, 1) == "一千";
    assert Piece(ds, 1) == "";
    assert ZeroBefore(ds, 2) by { assert ds[..2][0] != 0; }
    assert Piece(ds, 2) == "零一十";
    assert Piece(ds, 3) == "";
    assert Emitted(ds, 2) == "一千";
    assert "一千" + "零一十" == "一千零一十";
  }

  /** Without grouping by 万, 110000 renders as 十万一万. */
  lemma OneHundredTenThousand()
    ensures Rendered(110000) == "十万一万"
  {
    var ds := Digits(110000);
    DigitsOf110000();
    EmittedOf110000(ds);
  }

  lemma DigitsOf110000()
    ensures Digits(110000) == [1, 1, 0, 0, 0, 0]
  {
    DigitsShift(1, 1);
    DigitsShift(11, 0);
    DigitsShift(110, 0);
    DigitsShift(1100, 0);
    DigitsShift(11000, 0);
  }

  lemma EmittedOf110000(ds: seq<int>)
    requires ds == [1, 1, 0, 0, 0, 0]
    ensures Emitted(ds, 6) == "一十万一万"
  {
    assert Emitted(ds, 1) == "一十万";
    assert Emitted(ds, 2) == "一十万一万";
    EmittedZero(ds, 3);
    EmittedZero(ds, 4);
    EmittedZero(ds, 5);
    EmittedZero(ds, 6);
  }

  /** A zero digit adds nothing to the output. */
  lemma EmittedZero(ds: seq<int>, m: nat)
    requires ValidDigits(ds) && 0 < m <= |ds| && ds[m - 1] == 0
    ensures Emitted(ds, m) == Emitted(ds, m - 1)
  {
    assert Piece(ds, m - 1) == "";
  }

  // ---------------------------------------------------------------------
  // formatNumber on integers

  /** The separator pass of `formatNumber`: after each digit, insert sep
      when the digits still to come are a positive multiple of three. */
  function Grouped(d: string, sep: string): string {
    if d == [] then []
    else [d[0]] + (if |d| > 1 && (|d| - 1) % 3 == 0 then sep else "") + Grouped(d[1..], sep)
  }

  /** `formatNumber(n, sep)` for an integer n: the sign stays in front. */
  function FormatNumber(n: int, sep: string): string {
    if n < 0 then "-" + Grouped(NatToString(-n), sep) else Grouped(NatToString(n), sep)
  }

  /** The digit groups, the first holding one to three digits and every
      other exactly three. */
  function Groups(d: string): (gs: seq<string>)
    requires |d| >= 1
    ensures |gs| >= 1 && 1 <= |gs[0]| <= 3
    ensures forall i :: 1 <= i < |gs| ==> |gs[i]| == 3
    ensures |gs| == (|d| - 1) / 3 + 1
  {
    if |d| <= 3 then [d] else Groups(d[..|d| - 3]) + [d[|d| - 3..]]
  }

  lemma {:induction false} GroupsConcat(d: string)
    requires |d| >= 1
    ensures Concat(Groups(d)) == d
  {
    if |d| > 3 {
      var front, last := d[..|d| - 3], d[|d| - 3..];
      GroupsConcat(front);
      ConcatSnoc(Groups(front), last);
      assert d == front + last;
    }
  }

  lemma {:induction false} GroupedSplitLast(d: string, sep: string)
    requires |d| > 3
    ensures Grouped(d, sep) == Grouped(d[..|d| - 3], sep) + sep + d[|d| - 3..]
    decreases |d|
  {
    if |d| == 4 {
      GroupedFour(d, sep);
    } else {
      var mid, tail := d[1..|d| - 3], d[|d| - 3..];
      assert d[1..] == mid + tail && d[1..][..|d| - 4] == mid && d[1..][|d| - 4..] == tail;
      assert d == [d[0]] + mid + tail && d[..|d| - 3] == [d[0]] + mid;
      GroupedSplitLast(d[1..], sep);
      GroupedStep(d[0], mid, tail, sep);
    }
  }

  /** The induction step of `GroupedSplitLast`: the split before the last
      three digits carries over when one more digit goes in front. */
  lemma GroupedStep(c: char, mid: string, tail: string, sep: string)
    requires |mid| >= 1 && |tail| == 3
    requires Grouped(mid + tail, sep) == Grouped(mid, sep) + sep + tail
    ensures Grouped([c] + mid + tail, sep) == Grouped([c] + mid, sep) + sep + tail
  {
    var s := SepAt(|mid|, sep);
    var g := Grouped(mid, sep);
    assert ([c] + mid + tail)[1..] == mid + tail;
    assert ([c] + mid)[1..] == mid;
    GroupedCons([c] + mid + tail, sep);
    GroupedCons([c] + mid, sep);
    SepAtShift(|mid|, sep);
    Regroup([c], s, g, sep, tail);
  }

  /** What the separator pass puts after a digit with n digits after it. */
  function SepAt(n: int, sep: string): string {
    if n > 0 && n % 3 == 0 then sep else ""
  }

  lemma SepAtShift(n: nat, sep: string)
    ensures SepAt(n + 3, sep) == SepAt(n, sep) || n == 0
  {
  }

  lemma GroupedCons(d: string, sep: string)
    requires d != []
    ensures Grouped(d, sep) == [d[0]] + SepAt(|d| - 1, sep) + Grouped(d[1..], sep)
  {
  }

  lemma GroupedFour(d: string, sep: string)
    requires |d| == 4
    ensures Grouped(d, sep) == [d[0]] + sep + d[1..]
  {
    GroupedShort(d[1..], sep);
  }

  lemma {:induction false} GroupedShort(d: string, sep: string)
    requires |d| <= 3
    ensures Grouped(d, sep) == d
  {
    if d != [] {
      GroupedShort(d[1..], sep);
    }
  }

  /** The separator pass is the groups joined by the separator. */
  lemma {:induction false} GroupedIsJoin(d: string, c: char)
    requires |d| >= 1
    ensures Grouped(d, [c]) == Join(Groups(d), c)
    decreases |d|
  {
    if |d| <= 3 {
      GroupedShort(d, [c]);
    } else {
      GroupedSplitLast(d, [c]);
      GroupedIsJoin(d[..|d| - 3], c);
      JoinSnoc(Groups(d[..|d| - 3]), d[|d| - 3..], c);
    }
  }

  /** With a one-character separator that is neither a digit nor `-`,
      splitting the output on it gives back the sign-prefixed first group
      (one to three digits) and then groups of exactly three digits, whose
      concatenation is the plain decimal string: a separator stands before
      exactly those digits, never the first, whose count of remaining digits
      is a positive multiple of three. */
  lemma FormatNumberGroups(n: int, c: char)
    requires !IsDigit(c) && c != '-'
    ensures var parts := Split(FormatNumber(n, [c]), c);
            && Concat(parts) == IntToString(n)
            && (if n < 0 then 2 else 1) <= |parts[0]| <= (if n < 0 then 4 else 3)
            && (forall i :: 1 <= i < |parts| ==> |parts[i]| == 3)
            && |parts| == (|NatToString(if n < 0 then -n else n)| - 1) / 3 + 1
  {
    var d := NatToString(if n < 0 then -n else n);
    var gs := Groups(d);
    assert c !in d;
    GroupsConcat(d);
    if n < 0 {
      SplitSigned(d, c);
      ConcatPrefix(gs, "-");
    } else {
      SplitPlain(d, c);
    }
  }

  /** Splitting the grouped digits on the separator gives the groups back. */
  lemma SplitPlain(d: string, c: char)
    requires |d| >= 1 && c !in d
    ensures Split(Grouped(d, [c]), c) == Groups(d)
  {
    var gs := Groups(d);
    GroupedIsJoin(d, c);
    forall i | 0 <= i < |gs| ensures c !in gs[i] {
      GroupsInside(d, i, c);
    }
    SplitJoin(gs, c);
  }

  /** With a sign in front, the sign joins the first group. */
  lemma SplitSigned(d: string, c: char)
    requires |d| >= 1 && c !in d && c != '-'
    ensures Split("-" + Grouped(d, [c]), c) == ["-" + Groups(d)[0]] + Groups(d)[1..]
  {
    var gs := Groups(d);
    var gs' := ["-" + gs[0]] + gs[1..];
    GroupedIsJoin(d, c);
    JoinPrefix(gs, "-", c);
    forall i | 0 <= i < |gs'| ensures c !in gs'[i] {
      GroupsInside(d, i, c);
      if i > 0 { assert gs'[i] == gs[i]; }
    }
    SplitJoin(gs', c);
  }

  lemma GroupsInside(d: string, i: int, c: char)
    requires |d| >= 1 && 0 <= i < |Groups(d)| && c !in d
    ensures c !in Groups(d)[i]
    decreases |d|
  {
    if |d| > 3 {
      var front := d[..|d| - 3];
      assert d == front + d[|d| - 3..];
      if i < |Groups(front)| {
        GroupsInside(front, i, c);
      }
    }
  }

  lemma JoinPrefix(parts: seq<string>, p: string, c: char)
    requires |parts| >= 1
    ensures Join([p + parts[0]] + parts[1..], c) == p + Join(parts, c)
  {
    var parts' := [p + parts[0]] + parts[1..];
    if |parts| > 1 {
      assert parts'[1..] == parts[1..];
    }
  }

  lemma {:induction false} ConcatPrefix(gs: seq<string>, p: string)
    requires |gs| >= 1
    ensures Concat([p + gs[0]] + gs[1..]) == p + Concat(gs)
  {
    if |gs| > 1 {
      var gs' := [p + gs[0]] + gs[1..];
      ConcatPrefix(gs[..|gs| - 1], p);
      assert gs'[..|gs'| - 1] == [p + gs[0]] + gs[..|gs| - 1][1..];
    } else {
      assert Concat(gs) == Concat([]) + gs[0];
    }
  }

  // ---------------------------------------------------------------------
  // isEven / isOdd

  /** JavaScript's `%`: the remainder takes the sign of the dividend. */
  function JsRem(a: int, b: int): (r: int)
    requires b > 0
    ensures (a >= 0 ==> 0 <= r < b) && (a < 0 ==> -b < r <= 0)
    ensures exists q :: a == q * b + r
  {
    if a >= 0 then
      assert a == (a / b) * b + a % b;
      a % b
    else
      assert a == -((-a) / b) * b - (-a) % b;
      -((-a) % b)
  }

  function IsEven(n: int): bool { JsRem(n, 2) == 0 }

  function IsOdd(n: int): bool { JsRem(n, 2) != 0 }

  /** isOdd is the negation of isEven, negative numbers included, and both
      agree with divisibility by two. */
  lemma Parity(n: int)
    ensures IsOdd(n) == !IsEven(n)
    ensures IsEven(n) <==> exists k :: n == 2 * k
    ensures IsEven(n) == IsEven(-n) && IsEven(n) != IsEven(n + 1)
  {
    if n % 2 == 0 { assert n == 2 * (n / 2); }
    if exists k :: n == 2 * k {
      var k :| n == 2 * k;
      assert n % 2 == 0;
    }
  }
}
