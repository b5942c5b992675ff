/** Format validators of src/utils/validator.ts. Each regular expression
    becomes a predicate over the characters of the string. `\d` matches the
    ASCII digits only and `$` only the end of the input, since none of the
    expressions has the `u` or `m` flag. Only the shape is checked: no
    checksum is computed, as in the library. */
module Validators {
  import opened Decimal
  import opened StringUtils
  import opened Seqs

  // ---------------------------------------------------------------------
  // isEmail

  /** A non-empty run of `[^\s@]`. */
  predicate IsWord(w: string) {
    |w| > 0 && forall i :: 0 <= i < |w| ==> !IsSpace(w[i]) && w[i] != '@'
  }

  /** A `.` somewhere strictly inside d. */
  predicate InnerDot(d: string) {
    exists i :: 0 < i < |d| - 1 && d[i] == '.'
  }

  /** `isEmail`: one `@` with a non-empty part before it, no white space,
      and a `.` after the `@` with at least one character on each side. */
  predicate IsEmail(s: string) {
    && '@' in s
    && (forall i :: 0 <= i < |s| ==> !IsSpace(s[i]))
    && var k := IndexOf(s, '@');
    && k > 0
    && '@' !in s[k + 1..]
    && InnerDot(s[k + 1..])
  }

  /** The three runs the regular expression matches. */
  predicate EmailSplit(s: string, local: string, host: string, tld: string) {
    s == local + "@" + host + "." + tld && IsWord(local) && IsWord(host) && IsWord(tld)
  }

  /** `isEmail` accepts exactly the strings the regular expression matches:
      a word, `@`, a word, `.` and a word, where words may contain dots. */
  lemma EmailShape(s: string)
    ensures IsEmail(s) <==> exists local, host, tld :: EmailSplit(s, local, host, tld)
  {
    if IsEmail(s) {
      var local, host, tld := EmailToSplit(s);
    }
    if exists local, host, tld :: EmailSplit(s, local, host, tld) {
      var local, host, tld :| EmailSplit(s, local, host, tld);
      EmailFromSplit(s, local, host, tld);
    }
  }

  lemma EmailFromSplit(s: string, local: string, host: string, tld: string)
    requires EmailSplit(s, local, host, tld)
    ensures IsEmail(s)
  {
    var domain := host + "." + tld;
    assert s == local + "@" + domain;
    IndexOfAfterPrefix(local, '@', domain);
    SliceAround(local, '@', domain);
    DomainShape(host, tld);
    NoSpaceAppend(local, "@");
    NoSpaceAppend(local + "@", domain);
  }

  /** The runs around the first `@` and a dot after it. */
  lemma EmailToSplit(s: string) returns (local: string, host: string, tld: string)
    requires IsEmail(s)
    ensures EmailSplit(s, local, host, tld)
  {
    var k := IndexOf(s, '@');
    var domain := s[k + 1..];
    var i :| 0 < i < |domain| - 1 && domain[i] == '.';
    local, host, tld := s[..k], domain[..i], domain[i + 1..];
    assert s == local + "@" + host + "." + tld by {
      SplitAround(s, k);
      SplitAround(domain, i);
      Join5(local, '@', host, '.', tld);
    }
    assert NoSpace(s);
    WordSlice(s, 0, k);
    WordSlice(s, k + 1 + 0, k + 1 + i);
    WordSlice(s, k + 2 + i, |s|);
  }

  /** A non-empty slice free of white space and `@` is a word. */
  lemma WordSlice(s: string, a: nat, b: nat)
    requires a < b <= |s| && NoSpace(s) && '@' !in s[a..b]
    ensures IsWord(s[a..b])
  {
    assert forall j :: 0 <= j < b - a ==> s[a..b][j] == s[a + j];
  }

  predicate NoSpace(s: string) {
    forall i :: 0 <= i < |s| ==> !IsSpace(s[i])
  }

  lemma NoSpaceAppend(a: string, b: string)
    requires NoSpace(a) && NoSpace(b)
    ensures NoSpace(a + b)
  {
    assert forall i :: |a| <= i < |a + b| ==> (a + b)[i] == b[i - |a|];
  }

  /** What follows the `@`: no `@`, no white space, and an inner dot. */
  lemma DomainShape(host: string, tld: string)
    requires IsWord(host) && IsWord(tld)
    ensures var domain := host + "." + tld;
      '@' !in domain && NoSpace(domain) && InnerDot(domain)
  {
    var domain := host + "." + tld;
    SliceAround(host, '.', tld);
    assert forall j :: 0 <= j < |tld| ==> domain[|host| + 1 + j] == tld[j];
    forall i | 0 <= i < |domain| ensures domain[i] != '@' && !IsSpace(domain[i]) {
      if i > |host| {
        assert domain[i] == tld[i - |host| - 1];
      }
    }
  }

  // ---------------------------------------------------------------------
  // isPhone, isNumeric, isBankCard, isIdCard

  /** `isNumeric`: /^\d+$/. */
  predicate IsNumeric(s: string) { |s| > 0 && AllDigits(s) }

  /** `isPhone`: /^1[3-9]\d{9}$/. */
  predicate IsPhone(s: string) {
    |s| == 11 && s[0] == '1' && '3' <= s[1] <= '9'
    && forall i :: 2 <= i < |s| ==> IsDigit(s[i])
  }

  /** A phone number is an eleven-digit numeric string. */
  lemma PhoneIsNumeric(s: string)
    requires IsPhone(s)
    ensures IsNumeric(s) && |s| == 11
  {
  }

  /** `isBankCard`: /^[1-9]\d{12,18}$/. */
  predicate IsBankCard(s: string) {
    13 <= |s| <= 19 && '1' <= s[0] <= '9' && AllDigits(s)
  }

  lemma {:induction false} Pow10Monotone(i: nat, j: nat)
    requires i <= j
    ensures Pow10(i) <= Pow10(j)
  {
    if i < j {
      Pow10Monotone(i, j - 1);
    }
  }

  /** A bank card number is numeric, and the number it spells has 13 to 19
      digits: it lies in [10^12, 10^19). */
  lemma BankCardValue(s: string)
    requires IsBankCard(s)
    ensures IsNumeric(s)
    ensures Pow10(12) <= ParseNat(s) < Pow10(19)
  {
    var v := ParseNat(s);
    NatToStringParse(s);
    assert |Digits(v)| == |s|;
    DigitsLength(v, |s|);
    DigitsLength(v, |s| - 1);
    Pow10Monotone(|s|, 19);
    Pow10Monotone(12, |s| - 1);
  }

  /** `isIdCard`: /(^\d{15}$)|(^\d{18}$)|(^\d{17}(\d|X|x)$)/. */
  predicate IsIdCard(s: string) {
    || (|s| == 15 && AllDigits(s))
    || (|s| == 18 && AllDigits(s))
    || (|s| == 18 && AllDigits(s[..17]) && (IsDigit(s[17]) || s[17] == 'X' || s[17] == 'x'))
  }

  /** The second alternative is covered by the third: an ID card number is
      15 digits, or 17 digits and a final digit or `X`/`x`. */
  lemma IdCardShape(s: string)
    ensures IsIdCard(s) <==>
      (|s| == 15 && AllDigits(s))
      || (|s| == 18 && AllDigits(s[..17]) && (IsDigit(s[17]) || s[17] == 'X' || s[17] == 'x'))
  {
    if |s| == 18 && AllDigits(s[..17]) && IsDigit(s[17]) {
      assert AllDigits(s) by {
        assert forall i :: 0 <= i < 17 ==> s[..17][i] == s[i];
      }
    }
  }

  // ---------------------------------------------------------------------
  // isStrongPassword

  predicate IsSpecial(c: char) {
    c == '@' || c == '$' || c == '!' || c == '%' || c == '*' || c == '?' || c == '&'
  }

  /** A character of `[A-Za-z\d@$!%*?&]`. */
  predicate IsPasswordChar(c: char) { IsUpper(c) || IsLower(c) || IsDigit(c) || IsSpecial(c) }

  /** `isStrongPassword`: eight or more characters of the allowed class,
      with a lower-case letter, an upper-case letter, a digit and a special
      character among them. The look-aheads use `.*`, which stops at a line
      terminator, but the allowed class has none, so each look-ahead just
      asks for one character of its kind. */
  predicate IsStrongPassword(s: string) {
    && (exists i :: 0 <= i < |s| && IsLower(s[i]))
    && (exists i :: 0 <= i < |s| && IsUpper(s[i]))
    && (exists i :: 0 <= i < |s| && IsDigit(s[i]))
    && (exists i :: 0 <= i < |s| && IsSpecial(s[i]))
    && |s| >= 8
    && forall i :: 0 <= i < |s| ==> IsPasswordChar(s[i])
  }

  /** Appending allowed characters keeps a strong password strong. */
  lemma StrongPasswordExtend(s: string, t: string)
    requires IsStrongPassword(s)
    requires forall i :: 0 <= i < |t| ==> IsPasswordChar(t[i])
    ensures IsStrongPassword(s + t)
  {
    assert forall i :: 0 <= i < |s| ==> (s + t)[i] == s[i];
    assert forall i :: 0 <= i < |t| ==> (s + t)[|s| + i] == t[i];
  }

  lemma PasswordExamples()
    ensures IsStrongPassword("Password123!")
    ensures !IsStrongPassword("Password1")
    ensures !IsStrongPassword("Pass1!")
  {
    var p := "Password123!";
    assert IsLower(p[1]) && IsUpper(p[0]) && IsDigit(p[8]) && IsSpecial(p[11]);
  }

  // ---------------------------------------------------------------------
  // isChinese

  /** `isChinese`: /^[一-龥]+$/, the CJK Unified Ideographs block
      up to U+9FA5. Outside the Basic Multilingual Plane a character is two
      UTF-16 code units in JavaScript, neither in the range, and here one
      character outside the range: both reject it. */
  predicate IsChinese(s: string) {
    |s| > 0 && forall i :: 0 <= i < |s| ==> '\U{4E00}' <= s[i] <= '\U{9FA5}'
  }

  /** Chinese text and numeric text never overlap, and a concatenation of
      Chinese texts is Chinese. */
  lemma ChineseNotNumeric(s: string)
    requires IsChinese(s)
    ensures !IsNumeric(s)
  {
    assert !IsDigit(s[0]);
  }

  lemma ChineseAppend(s: string, t: string)
    requires IsChinese(s) && IsChinese(t)
    ensures IsChinese(s + t)
  {
    assert forall i :: 0 <= i < |s| ==> (s + t)[i] == s[i];
    assert forall i :: 0 <= i < |t| ==> (s + t)[|s| + i] == t[i];
  }

  // ---------------------------------------------------------------------
  // isIP

  /** One part of a dotted quad: digits only, no leading zero unless the
      part is "0", and a value of at most 255. */
  predicate IsOctet(p: string) {
    |p| > 0 && AllDigits(p) && !(|p| > 1 && p[0] == '0') && ParseNat(p) <= 255
  }

  /** `isIP`: the empty string is rejected first; otherwise the string must
      split on `.` into exactly four octets. */
  predicate IsIP(s: string) {
    s != "" && var parts := Split(s, '.'); |parts| == 4 && forall i :: 0 <= i < 4 ==> IsOctet(parts[i])
  }

  /** The dotted rendering of four numbers. */
  function Dotted(a: nat, b: nat, c: nat, d: nat): string {
    Join([NatToString(a), NatToString(b), NatToString(c), NatToString(d)], '.')
  }

  predicate IsQuad(s: string, a: nat, b: nat, c: nat, d: nat) {
    a <= 255 && b <= 255 && c <= 255 && d <= 255 && s == Dotted(a, b, c, d)
  }

  lemma OctetOfNat(n: nat)
    requires n <= 255
    ensures IsOctet(NatToString(n)) && ParseNat(NatToString(n)) == n
  {
    ParseNatToString(n);
  }

  /** `isIP` holds exactly for the dotted renderings of four numbers in
      0..255. */
  lemma IPShape(s: string)
    ensures IsIP(s) <==> exists a, b, c, d :: IsQuad(s, a, b, c, d)
  {
    if IsIP(s) {
      var parts := Split(s, '.');
      var a, b, c, d := ParseNat(parts[0]), ParseNat(parts[1]), ParseNat(parts[2]), ParseNat(parts[3]);
      NatToStringParse(parts[0]);
      NatToStringParse(parts[1]);
      NatToStringParse(parts[2]);
      NatToStringParse(parts[3]);
      assert [NatToString(a), NatToString(b), NatToString(c), NatToString(d)] == parts;
      JoinSplit(s, '.');
      assert IsQuad(s, a, b, c, d);
    }
    if exists a, b, c, d :: IsQuad(s, a, b, c, d) {
      var a, b, c, d :| IsQuad(s, a, b, c, d);
      IPFromQuad(a, b, c, d);
    }
  }

  lemma IPFromQuad(a: nat, b: nat, c: nat, d: nat)
    requires a <= 255 && b <= 255 && c <= 255 && d <= 255
    ensures IsIP(Dotted(a, b, c, d))
  {
    var parts := [NatToString(a), NatToString(b), NatToString(c), NatToString(d)];
    assert forall i :: 0 <= i < 4 ==> '.' !in parts[i];
    SplitJoin(parts, '.');
    OctetOfNat(a);
    OctetOfNat(b);
    OctetOfNat(c);
    OctetOfNat(d);
    assert Dotted(a, b, c, d) == parts[0] + ['.'] + Join(parts[1..], '.');
  }

  lemma DottedZeros()
    ensures Dotted(0, 0, 0, 0) == "0.0.0.0"
  {
    var z := NatToString(0);
    assert z == "0";
    assert Join([z, z], '.') == "0.0";
    assert Join([z, z, z], '.') == "0.0.0";
  }

  /** "0.0.0.0" is an address. */
  lemma IPZeros()
    ensures IsIP("0.0.0.0")
  {
    IPFromQuad(0, 0, 0, 0);
    DottedZeros();
  }
}
