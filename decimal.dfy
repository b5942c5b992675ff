/** Decimal digits and the text helpers the utility modules share: the
    digit sequence of a number (what `toString()` produces for an integer),
    parsing a run of ASCII digits back, and `split` on a one-character
    separator. */
module Decimal {
  import opened Seqs

  predicate IsDigit(c: char) { '0' <= c <= '9' }

  predicate AllDigits(s: string) { forall i :: 0 <= i < |s| ==> IsDigit(s[i]) }

  /** The characters that `\s` matches in a JavaScript regular expression:
      the ECMAScript white space and line terminator characters. */
  predicate IsSpace(c: char) {
    ('\U{0009}' <= c <= '\U{000D}') || c == ' ' || c == '\U{00A0}' || c == '\U{1680}'
    || ('\U{2000}' <= c <= '\U{200A}') || c == '\U{2028}' || c == '\U{2029}'
    || c == '\U{202F}' || c == '\U{205F}' || c == '\U{3000}' || c == '\U{FEFF}'
  }

  function DigitChar(d: int): (c: char)
    requires 0 <= d <= 9
    ensures IsDigit(c) && c as int - '0' as int == d
  {
    ('0' as int + d) as char
  }

  function Pow10(k: nat): (p: nat)
    ensures p >= 1
  {
    if k == 0 then 1 else 10 * Pow10(k - 1)
  }

  /** The decimal digits of n, most significant first, without leading zeros. */
  function Digits(n: nat): (ds: seq<int>)
    ensures 1 <= |ds|
    ensures forall i :: 0 <= i < |ds| ==> 0 <= ds[i] <= 9
    ensures ds[0] == 0 <==> n == 0
    ensures n < 10 ==> ds == [n]
  {
    if n < 10 then [n] else Digits(n / 10) + [n % 10]
  }

  /** Multiplying by ten and adding a digit appends that digit. */
  lemma DigitsShift(n: nat, d: nat)
    requires n > 0 && d <= 9
    ensures Digits(10 * n + d) == Digits(n) + [d]
  {
    assert (10 * n + d) / 10 == n && (10 * n + d) % 10 == d;
  }

  /** The number that a sequence of digits denotes, read most significant first. */
  function ValueOf(ds: seq<int>): nat
    requires forall i :: 0 <= i < |ds| ==> 0 <= ds[i] <= 9
  {
    if ds == [] then 0 else 10 * ValueOf(ds[..|ds| - 1]) + ds[|ds| - 1]
  }

  lemma {:induction false} ValueOfDigits(n: nat)
    ensures ValueOf(Digits(n)) == n
  {
    if n >= 10 {
      ValueOfDigits(n / 10);
      var ds := Digits(n);
      assert ds[..|ds| - 1] == Digits(n / 10);
    }
  }

  /** Digits has exactly k digits when n lies in [10^(k-1), 10^k). */
  lemma {:induction false} DigitsLength(n: nat, k: nat)
    requires 1 <= k
    ensures |Digits(n)| <= k <==> n < Pow10(k)
  {
    if n >= 10 && k > 1 {
      DigitsLength(n / 10, k - 1);
    }
  }

  /** The characters `toString()` gives for a non-negative integer. */
  function NatToString(n: nat): (s: string)
    ensures |s| == |Digits(n)| && AllDigits(s)
    ensures forall i :: 0 <= i < |s| ==> s[i] == DigitChar(Digits(n)[i])
    ensures s[0] == '0' <==> n == 0
  {
    var ds := Digits(n);
    seq(|ds|, i requires 0 <= i < |ds| => DigitChar(ds[i]))
  }

  /** `String(i)` for an integer: a minus sign, then the digits of |i|. */
  function IntToString(i: int): (s: string)
    ensures |s| >= 1
    ensures i < 0 ==> s == "-" + NatToString(-i)
    ensures i >= 0 ==> s == NatToString(i)
  {
    if i < 0 then "-" + NatToString(-i) else NatToString(i)
  }

  function DigitsOfString(s: string): (ds: seq<int>)
    requires AllDigits(s)
    ensures |ds| == |s|
    ensures forall i :: 0 <= i < |ds| ==> 0 <= ds[i] <= 9 && DigitChar(ds[i]) == s[i]
  {
    seq(|s|, i requires 0 <= i < |s| => s[i] as int - '0' as int)
  }

  /** `parseInt(s, 10)` of a non-empty run of ASCII digits. */
  function ParseNat(s: string): nat
    requires AllDigits(s)
  {
    ValueOf(DigitsOfString(s))
  }

  /** Parsing undoes printing. */
  lemma ParseNatToString(n: nat)
    ensures ParseNat(NatToString(n)) == n
  {
    var s := NatToString(n);
    assert DigitsOfString(s) == Digits(n);
    ValueOfDigits(n);
  }

  lemma {:induction false} DigitsOfValue(ds: seq<int>)
    requires 1 <= |ds|
    requires forall i :: 0 <= i < |ds| ==> 0 <= ds[i] <= 9
    requires ds[0] != 0 || |ds| == 1
    ensures Digits(ValueOf(ds)) == ds
  {
    if |ds| > 1 {
      var front := ds[..|ds| - 1];
      DigitsOfValue(front);
      PositiveValue(front);
    }
  }

  lemma {:induction false} PositiveValue(ds: seq<int>)
    requires 1 <= |ds|
    requires forall i :: 0 <= i < |ds| ==> 0 <= ds[i] <= 9
    requires ds[0] != 0
    ensures ValueOf(ds) >= 1
  {
    if |ds| > 1 {
      PositiveValue(ds[..|ds| - 1]);
    }
  }

  /** Printing undoes parsing, for digit strings without a leading zero. */
  lemma NatToStringParse(s: string)
    requires 1 <= |s| && AllDigits(s)
    requires s[0] != '0' || |s| == 1
    ensures NatToString(ParseNat(s)) == s
  {
    var ds := DigitsOfString(s);
    DigitsOfValue(ds);
  }

  /** The unsigned part of a printed integer: what follows a leading
      minus sign, if there is one. */
  function Magnitude(s: string): string {
    if |s| > 0 && s[0] == '-' then s[1..] else s
  }

  /** A printed integer reads back as itself: it starts with a minus sign
      exactly when the value is negative, and the rest is a digit string
      without a leading zero whose value is the absolute value. */
  lemma IntToStringParse(i: int)
    ensures var s := IntToString(i); var m := Magnitude(s);
      (s[0] == '-' <==> i < 0)
      && 1 <= |m| && AllDigits(m) && (m[0] != '0' || |m| == 1)
      && ParseNat(m) == if i < 0 then -i else i
  {
    var n := if i < 0 then -i else i;
    var s := IntToString(i);
    assert Magnitude(s) == NatToString(n);
    ParseNatToString(n);
  }

  /** Distinct integers print differently. */
  lemma IntToStringInjective(i: int, j: int)
    requires IntToString(i) == IntToString(j)
    ensures i == j
  {
    IntToStringParse(i);
    IntToStringParse(j);
  }

  // ---------------------------------------------------------------------
  // `split` and `join` on a one-character separator

  /** Index of the first occurrence of c in s. */
  function IndexOf(s: string, c: char): (k: nat)
    requires c in s
    ensures k < |s| && s[k] == c && c !in s[..k]
  {
    if s[0] == c then 0 else 1 + IndexOf(s[1..], c)
  }

  /** `s.split(c)`: the pieces between occurrences of c; always at least one. */
  function Split(s: string, c: char): (parts: seq<string>)
    ensures 1 <= |parts|
    ensures forall i :: 0 <= i < |parts| ==> c !in parts[i]
    decreases |s|
  {
    if c !in s then [s]
    else
      var k := IndexOf(s, c);
      [s[..k]] + Split(s[k + 1..], c)
  }

  /** `parts.join(c)`. */
  function Join(parts: seq<string>, c: char): string
    requires 1 <= |parts|
  {
    if |parts| == 1 then parts[0] else parts[0] + [c] + Join(parts[1..], c)
  }

  /** Joining one more part adds the separator and the part. */
  lemma {:induction false} JoinSnoc(parts: seq<string>, last: string, c: char)
    requires |parts| >= 1
    ensures Join(parts + [last], c) == Join(parts, c) + [c] + last
  {
    if |parts| > 1 {
      JoinSnoc(parts[1..], last, c);
      assert (parts + [last])[1..] == parts[1..] + [last];
    } else {
      assert (parts + [last])[1..] == [last];
    }
  }

  lemma {:induction false} JoinSplit(s: string, c: char)
    ensures Join(Split(s, c), c) == s
    decreases |s|
  {
    if c in s {
      var k := IndexOf(s, c);
      var head, tail := s[..k], s[k + 1..];
      var parts := Split(tail, c);
      assert Split(s, c) == [head] + parts;
      assert ([head] + parts)[0] == head && ([head] + parts)[1..] == parts;
      assert Join(Split(s, c), c) == head + [c] + Join(parts, c);
      JoinSplit(tail, c);
      SplitAround(s, k);
    }
  }

  lemma {:induction false} SplitJoin(parts: seq<string>, c: char)
    requires 1 <= |parts|
    requires forall i :: 0 <= i < |parts| ==> c !in parts[i]
    ensures Split(Join(parts, c), c) == parts
  {
    if |parts| > 1 {
      var tail := parts[1..];
      assert forall i :: 0 <= i < |tail| ==> c !in tail[i] by {
        assert forall i :: 0 <= i < |tail| ==> tail[i] == parts[i + 1];
      }
      SplitJoin(tail, c);
      SplitJoinStep(parts, c);
    }
  }

  lemma SplitJoinStep(parts: seq<string>, c: char)
    requires |parts| > 1 && c !in parts[0]
    requires Split(Join(parts[1..], c), c) == parts[1..]
    ensures Split(Join(parts, c), c) == parts
  {
    var head, tail := parts[0], parts[1..];
    var rest := Join(tail, c);
    assert Join(parts, c) == head + [c] + rest;
    SplitCons(head, c, rest);
    assert [head] + tail == parts;
  }

  /** Splitting at the first separator: the part before it comes first. */
  lemma SplitCons(head: string, c: char, rest: string)
    requires c !in head
    ensures Split(head + [c] + rest, c) == [head] + Split(rest, c)
  {
    IndexOfAfterPrefix(head, c, rest);
    SliceAround(head, c, rest);
  }

  lemma IndexOfAfterPrefix(p: string, c: char, rest: string)
    requires c !in p
    ensures c in p + [c] + rest && IndexOf(p + [c] + rest, c) == |p|
  {
    SliceAround(p, c, rest);
  }
}
