/** String helpers of src/utils/string.ts. Case mapping is restricted to
    the ASCII letters: every other character is its own upper and lower
    case here. */
module StringUtils {
  import opened Decimal
  import opened Seqs

  predicate IsUpper(c: char) { 'A' <= c <= 'Z' }
  predicate IsLower(c: char) { 'a' <= c <= 'z' }

  function ToLower(c: char): (l: char)
    ensures !IsUpper(l)
    ensures IsUpper(c) ==> IsLower(l)
    ensures !IsUpper(c) ==> l == c
  {
    if IsUpper(c) then (c as int + 32) as char else c
  }

  function ToUpper(c: char): (u: char)
    ensures !IsLower(u)
    ensures IsLower(c) ==> IsUpper(u) && ToLower(u) == c
    ensures !IsLower(c) ==> u == c
  {
    if IsLower(c) then (c as int - 32) as char else c
  }

  function LowerAll(s: string): (r: string)
    ensures |r| == |s|
    ensures forall i :: 0 <= i < |r| ==> r[i] == ToLower(s[i])
  {
    seq(|s|, i requires 0 <= i < |s| => ToLower(s[i]))
  }

  /** Lower-casing leaves no upper-case letter, and it changes a string
      exactly when the string has one. */
  lemma LowerAllFixed(s: string)
    ensures NoUpper(LowerAll(s))
    ensures LowerAll(s) == s <==> NoUpper(s)
  {
    if NoUpper(s) {
      assert forall i :: 0 <= i < |s| ==> LowerAll(s)[i] == s[i];
    }
  }

  lemma LowerAllIdempotent(s: string)
    ensures LowerAll(LowerAll(s)) == LowerAll(s)
  {
    LowerAllFixed(s);
    LowerAllFixed(LowerAll(s));
  }

  // ---------------------------------------------------------------------
  // capitalize

  /** `capitalize`: the empty string comes back as is; otherwise the first
      character is upper-cased and the rest lower-cased. */
  function Capitalize(s: string): (r: string)
    ensures |r| == |s|
    ensures |s| > 0 ==> r[0] == ToUpper(s[0])
    ensures forall i :: 1 <= i < |r| ==> r[i] == ToLower(s[i])
  {
    if s == "" then s else [ToUpper(s[0])] + LowerAll(s[1..])
  }

  /** Text that is already capitalized is left alone, and so capitalizing
      twice is the same as capitalizing once. */
  lemma CapitalizeFixed(s: string)
    requires |s| > 0 ==> !IsLower(s[0])
    requires forall i :: 1 <= i < |s| ==> !IsUpper(s[i])
    ensures Capitalize(s) == s
  {
  }

  lemma CapitalizeIdempotent(s: string)
    ensures Capitalize(Capitalize(s)) == Capitalize(s)
  {
    CapitalizeFixed(Capitalize(s));
  }

  // ---------------------------------------------------------------------
  // camelCase

  /** A character of the class `[-_\s]`. */
  predicate IsSeparator(c: char) { c == '-' || c == '_' || IsSpace(c) }

  predicate NoSeparators(s: string) { forall i :: 0 <= i < |s| ==> !IsSeparator(s[i]) }

  /** `camelCase`: every maximal run of separators is deleted together with
      the character after it, which comes back upper-cased; a run at the end
      leaves nothing. The run is maximal because `+` is greedy, and the
      character after it is never a line terminator (all of those are in
      `\s`), so `.` always matches it. */
  function CamelCase(s: string): (r: string)
    ensures NoSeparators(r)
    ensures |r| <= |s|
    decreases |s|
  {
    if s == [] then []
    else if IsSeparator(s[0]) then AfterSeparators(s[1..])
    else [s[0]] + CamelCase(s[1..])
  }

  /** The rest of the input once a separator has been read. */
  function AfterSeparators(s: string): (r: string)
    ensures NoSeparators(r)
    ensures |r| <= |s|
    decreases |s|
  {
    if s == [] then []
    else if IsSeparator(s[0]) then AfterSeparators(s[1..])
    else [ToUpper(s[0])] + CamelCase(s[1..])
  }

  /** Text without separators comes back unchanged. */
  lemma {:induction false} CamelCaseNoSeparators(s: string)
    requires NoSeparators(s)
    ensures CamelCase(s) == s
  {
    if s != [] {
      CamelCaseNoSeparators(s[1..]);
    }
  }

  lemma {:induction false} CamelCasePrefix(w: string, t: string)
    requires NoSeparators(w)
    ensures CamelCase(w + t) == w + CamelCase(t)
  {
    if w != [] {
      assert (w + t)[0] == w[0] && (w + t)[1..] == w[1..] + t;
      CamelCasePrefix(w[1..], t);
      assert w == [w[0]] + w[1..];
    } else {
      assert w + t == t;
    }
  }

  lemma {:induction false} SkipRun(run: string, t: string)
    requires forall i :: 0 <= i < |run| ==> IsSeparator(run[i])
    ensures AfterSeparators(run + t) == AfterSeparators(t)
  {
    if run != [] {
      assert run == [run[0]] + run[1..];
      assert (run + t)[0] == run[0] && (run + t)[1..] == run[1..] + t;
      SkipRun(run[1..], t);
    } else {
      assert run + t == t;
    }
  }

  /** One word boundary: a separator-free word, a non-empty run of
      separators and the character c after it become the word followed by
      c upper-cased; the rest is converted on its own. */
  lemma CamelCaseBoundary(w: string, run: string, c: char, rest: string)
    requires NoSeparators(w) && !IsSeparator(c)
    requires |run| > 0 && forall i :: 0 <= i < |run| ==> IsSeparator(run[i])
    ensures CamelCase(w + run + [c] + rest) == w + [ToUpper(c)] + CamelCase(rest)
  {
    var u := [c] + rest;
    Assoc4(w, run, [c], rest);
    CamelCasePrefix(w, run + u);
    CamelCaseRun(run, u);
    AfterSeparatorsChar(c, rest);
    assert w + ([ToUpper(c)] + CamelCase(rest)) == w + [ToUpper(c)] + CamelCase(rest);
  }

  /** A non-empty run of separators switches to AfterSeparators. */
  lemma CamelCaseRun(run: string, u: string)
    requires |run| > 0 && forall i :: 0 <= i < |run| ==> IsSeparator(run[i])
    ensures CamelCase(run + u) == AfterSeparators(u)
  {
    DropCons(run, u);
    assert IsSeparator(run[0]);
    CamelCaseSeparator(run + u);
    SeparatorsTail(run);
    SkipRun(run[1..], u);
  }

  lemma CamelCaseSeparator(t: string)
    requires t != [] && IsSeparator(t[0])
    ensures CamelCase(t) == AfterSeparators(t[1..])
  {
  }

  lemma SeparatorsTail(run: string)
    requires |run| > 0 && forall i :: 0 <= i < |run| ==> IsSeparator(run[i])
    ensures forall i :: 0 <= i < |run[1..]| ==> IsSeparator(run[1..][i])
  {
    forall i | 0 <= i < |run[1..]| ensures IsSeparator(run[1..][i]) {
      assert run[1..][i] == run[i + 1];
    }
  }

  /** The first character after a run of separators is upper-cased. */
  lemma AfterSeparatorsChar(c: char, rest: string)
    requires !IsSeparator(c)
    ensures AfterSeparators([c] + rest) == [ToUpper(c)] + CamelCase(rest)
  {
    assert ([c] + rest)[0] == c && ([c] + rest)[1..] == rest;
  }

  /** A run of separators at the end of the text is dropped. */
  lemma CamelCaseTrailing(w: string, run: string)
    requires NoSeparators(w)
    requires |run| > 0 && forall i :: 0 <= i < |run| ==> IsSeparator(run[i])
    ensures CamelCase(w + run) == w
  {
    CamelCasePrefix(w, run);
    SkipRun(run[1..], []);
    assert run[1..] + [] == run[1..];
  }

  // ---------------------------------------------------------------------
  // kebabCase and snakeCase

  /** Each upper-case letter becomes sep followed by its lower case. */
  function Separate(s: string, sep: char): (r: string)
    requires !IsUpper(sep)
    ensures forall i :: 0 <= i < |r| ==> !IsUpper(r[i])
  {
    if s == [] then []
    else (if IsUpper(s[0]) then [sep, ToLower(s[0])] else [s[0]]) + Separate(s[1..], sep)
  }

  /** The shared transform of `kebabCase` and `snakeCase`: separate the
      upper-case letters, then drop one leading sep, whether it was
      inserted or was already in the input. */
  function SeparateWords(s: string, sep: char): (r: string)
    requires !IsUpper(sep)
    ensures forall i :: 0 <= i < |r| ==> !IsUpper(r[i])
  {
    var d := Separate(s, sep);
    if |d| > 0 && d[0] == sep then d[1..] else d
  }

  /** Separate works character by character: the result for a
      concatenation is the concatenation of the results. */
  lemma {:induction false} SeparateAppend(a: string, b: string, sep: char)
    requires !IsUpper(sep)
    ensures Separate(a + b, sep) == Separate(a, sep) + Separate(b, sep)
  {
    if a == [] {
      assert a + b == b;
    } else {
      assert (a + b)[0] == a[0] && (a + b)[1..] == a[1..] + b;
      SeparateAppend(a[1..], b, sep);
    }
  }

  /** One character: an upper-case letter becomes sep and its lower case,
      anything else stays. */
  lemma SeparateChar(c: char, sep: char)
    requires !IsUpper(sep)
    ensures Separate([c], sep) == if IsUpper(c) then [sep, ToLower(c)] else [c]
  {
    assert [c][1..] == [];
  }

  /** What the leading character contributes to SeparateWords: the sep
      inserted before a leading capital is dropped, and so is a sep that
      the input itself starts with; the rest is separated as usual. */
  lemma SeparateWordsCons(c: char, s: string, sep: char)
    requires !IsUpper(sep)
    ensures SeparateWords([], sep) == []
    ensures SeparateWords([c] + s, sep)
      == (if IsUpper(c) then [ToLower(c)] else if c == sep then [] else [c]) + Separate(s, sep)
  {
    SeparateAppend([c], s, sep);
    SeparateChar(c, sep);
  }

  /** The case conversion of `kebabCase` and `snakeCase` with a separator
      that is not a letter: no upper-case letter remains, and on input
      without the separator, deleting the separators again gives the
      input in lower case. SeparateWordsCons describes it character by
      character. */
  function SeparatedCase(s: string, sep: char): (r: string)
    requires !IsUpper(sep) && !IsLower(sep)
    ensures forall i :: 0 <= i < |r| ==> !IsUpper(r[i])
    ensures sep !in s ==> Remove(r, sep) == LowerAll(s)
  {
    if sep in s then SeparateWords(s, sep)
    else SeparateWordsRemove(s, sep); SeparateWords(s, sep)
  }

  /** `kebabCase`. */
  function KebabCase(s: string): string { SeparatedCase(s, '-') }

  /** `snakeCase`. */
  function SnakeCase(s: string): string { SeparatedCase(s, '_') }

  /** s with every c deleted. */
  function Remove(s: string, c: char): (r: string)
    ensures c !in r
  {
    if s == [] then [] else (if s[0] == c then [] else [s[0]]) + Remove(s[1..], c)
  }

  lemma {:induction false} RemoveAppend(a: string, b: string, c: char)
    ensures Remove(a + b, c) == Remove(a, c) + Remove(b, c)
  {
    if a != [] {
      assert a == [a[0]] + a[1..];
      assert (a + b)[0] == a[0] && (a + b)[1..] == a[1..] + b;
      RemoveAppend(a[1..], b, c);
    } else {
      assert a + b == b;
    }
  }

  lemma {:induction false} RemoveSeparate(s: string, sep: char)
    requires !IsUpper(sep) && !IsLower(sep) && sep !in s
    ensures Remove(Separate(s, sep), sep) == LowerAll(s)
  {
    if s != [] {
      var head := if IsUpper(s[0]) then [sep, ToLower(s[0])] else [s[0]];
      var tail := Separate(s[1..], sep);
      assert Separate(s, sep) == head + tail;
      RemoveAppend(head, tail, sep);
      RemoveSeparate(s[1..], sep);
      assert Remove(head, sep) == [ToLower(s[0])] by {
        if IsUpper(s[0]) {
          assert head == [sep] + [ToLower(s[0])];
          RemoveAppend([sep], [ToLower(s[0])], sep);
        }
      }
      LowerAllCons(s);
    }
  }

  lemma LowerAllCons(s: string)
    requires s != []
    ensures LowerAll(s) == [ToLower(s[0])] + LowerAll(s[1..])
  {
    assert forall i :: 1 <= i < |s| ==> s[1..][i - 1] == s[i];
  }

  /** Deleting the separators again gives the input in lower case: the
      transform only inserts separators and lowers letters. */
  lemma SeparateWordsRemove(s: string, sep: char)
    requires !IsUpper(sep) && !IsLower(sep) && sep !in s
    ensures Remove(SeparateWords(s, sep), sep) == LowerAll(s)
  {
    var d := Separate(s, sep);
    RemoveSeparate(s, sep);
    if |d| > 0 && d[0] == sep {
      assert d == [sep] + d[1..];
      RemoveAppend([sep], d[1..], sep);
    }
  }

  lemma {:induction false} SeparateNoUpper(s: string, sep: char)
    requires !IsUpper(sep)
    requires forall i :: 0 <= i < |s| ==> !IsUpper(s[i])
    ensures Separate(s, sep) == s
  {
    if s != [] {
      SeparateNoUpper(s[1..], sep);
    }
  }

  /** Text without upper-case letters that does not start with sep is left
      alone; one that does start with sep loses it. */
  lemma SeparateWordsNoUpper(s: string, sep: char)
    requires !IsUpper(sep)
    requires forall i :: 0 <= i < |s| ==> !IsUpper(s[i])
    ensures |s| > 0 && s[0] == sep ==> SeparateWords(s, sep) == s[1..]
    ensures (|s| == 0 || s[0] != sep) ==> SeparateWords(s, sep) == s
  {
    SeparateNoUpper(s, sep);
  }

  /** No upper-case letter in s. */
  predicate NoUpper(s: string) {
    forall i :: 0 <= i < |s| ==> !IsUpper(s[i])
  }

  /** camelCase text such as "helloWorld": the first word stays, the
      capital of the second becomes `-` and its lower case. */
  lemma KebabCamel(w1: string, c: char, w2: string)
    requires w1 != [] && w1[0] != '-' && NoUpper(w1) && IsUpper(c) && NoUpper(w2)
    ensures KebabCase(w1 + [c] + w2) == w1 + ['-', ToLower(c)] + w2
  {
    SeparateTwoWords(w1, c, w2, '-');
  }

  /** PascalCase text such as "HelloWorld": the capital that starts the
      text is lowered with no separator before it. */
  lemma KebabPascal(c1: char, w1: string, c2: char, w2: string)
    requires IsUpper(c1) && NoUpper(w1) && IsUpper(c2) && NoUpper(w2)
    ensures KebabCase([c1] + w1 + [c2] + w2) == [ToLower(c1)] + w1 + ['-', ToLower(c2)] + w2
  {
    PascalWords(c1, w1, c2, w2, '-');
  }

  /** The same for `snakeCase`, with `_`. */
  lemma SnakePascal(c1: char, w1: string, c2: char, w2: string)
    requires IsUpper(c1) && NoUpper(w1) && IsUpper(c2) && NoUpper(w2)
    ensures SnakeCase([c1] + w1 + [c2] + w2) == [ToLower(c1)] + w1 + ['_', ToLower(c2)] + w2
  {
    PascalWords(c1, w1, c2, w2, '_');
  }

  lemma PascalWords(c1: char, w1: string, c2: char, w2: string, sep: char)
    requires !IsUpper(sep) && IsUpper(c1) && NoUpper(w1) && IsUpper(c2) && NoUpper(w2)
    ensures SeparateWords([c1] + w1 + [c2] + w2, sep) == [ToLower(c1)] + w1 + [sep, ToLower(c2)] + w2
  {
    var t := [c2] + w2;
    assert [c1] + w1 + [c2] + w2 == [c1] + w1 + t;
    SeparateCapital(c1, w1, t, sep);
    assert w1 + t == w1 + [c2] + w2;
    SeparateTwoWords(w1, c2, w2, sep);
  }

  /** A capital between lower-case text: separated, it gives sep and its
      lower case, and the text around it is kept. */
  lemma SeparateTwoWords(w1: string, c: char, w2: string, sep: char)
    requires !IsUpper(sep) && IsUpper(c) && NoUpper(w1) && NoUpper(w2)
    ensures Separate(w1 + [c] + w2, sep) == w1 + [sep, ToLower(c)] + w2
  {
    assert w1 + [c] + w2 == w1 + ([c] + w2);
    SeparatePrefix(w1, [c] + w2, sep);
    assert ([c] + w2)[1..] == w2;
    SeparateNoUpper(w2, sep);
  }

  /** A leading capital becomes sep and its lower case, and SeparateWords
      drops that sep again. */
  lemma SeparateCapital(c: char, w: string, t: string, sep: char)
    requires !IsUpper(sep) && IsUpper(c)
    ensures SeparateWords([c] + w + t, sep) == [ToLower(c)] + Separate(w + t, sep)
  {
    var s := [c] + w + t;
    var r := Separate(w + t, sep);
    assert s[0] == c && s[1..] == w + t;
    assert Separate(s, sep) == [sep, ToLower(c)] + r;
    DropCons([sep, ToLower(c)], r);
    assert [sep, ToLower(c)][1..] == [ToLower(c)];
  }

  lemma {:induction false} SeparatePrefix(w: string, t: string, sep: char)
    requires !IsUpper(sep) && NoUpper(w)
    ensures Separate(w + t, sep) == w + Separate(t, sep)
  {
    if w != [] {
      assert w == [w[0]] + w[1..];
      assert (w + t)[0] == w[0] && (w + t)[1..] == w[1..] + t;
      SeparatePrefix(w[1..], t, sep);
    } else {
      assert w + t == t;
    }
  }

  // ---------------------------------------------------------------------
  // truncate

  /** Where `slice(0, end)` stops on a string of length n: a negative end
      counts back from the end, clamped at 0. */
  function SliceEnd(n: nat, end: int): (k: nat)
    ensures k <= n
    ensures 0 <= end <= n ==> k == end
    ensures end > n ==> k == n
    ensures end < 0 ==> k == if n + end < 0 then 0 else n + end
  {
    if end < 0 then (if n + end < 0 then 0 else n + end)
    else if end > n then n
    else end
  }

  /** The suffix `truncate` appends when none is given. */
  const DefaultSuffix: string := "..."

  /** `truncate(str, length, suffix)`. */
  function Truncate(s: string, length: int, suffix: string): (r: string)
    ensures |s| <= length ==> r == s
    ensures 0 <= length < |s| ==> r == s[..length] + suffix && |r| == length + |suffix|
    ensures length < 0 ==> r == s[..SliceEnd(|s|, length)] + suffix
  {
    if |s| <= length then s else s[..SliceEnd(|s|, length)] + suffix
  }

  /** A truncated string is a strictly shorter prefix of the input followed
      by the suffix. */
  lemma TruncateShape(s: string, length: int, suffix: string)
    requires |s| > length
    ensures var r := Truncate(s, length, suffix);
      |r| >= |suffix| && |r| - |suffix| <= |s|
      && (|s| > 0 ==> |r| - |suffix| < |s|)
      && r[..|r| - |suffix|] == s[..|r| - |suffix|]
      && r[|r| - |suffix|..] == suffix
  {
  }

  lemma TruncateExamples()
    ensures Truncate("hello world", 5, DefaultSuffix) == "hello..."
    ensures Truncate("hello", 10, DefaultSuffix) == "hello"
    ensures Truncate("hello world", 5, "***") == "hello***"
  {
    assert "hello world"[..5] == "hello";
  }

  // ---------------------------------------------------------------------
  // stripHtml

  /** `/<[^>]*>/g` replaced by nothing: a `<` with a `>` somewhere after it
      is deleted up to and including the first such `>`; a `<` without one
      is kept, as is every other character. */
  function StripHtml(s: string): (r: string)
    ensures |r| <= |s|
    ensures '<' !in s ==> r == s
    decreases |s|
  {
    if s == [] then []
    else if s[0] == '<' && '>' in s[1..] then StripHtml(s[IndexOf(s[1..], '>') + 2..])
    else [s[0]] + StripHtml(s[1..])
  }

  /** Stripping only deletes: every character of the result is one of the
      input's. */
  lemma {:induction false} StripHtmlChars(s: string)
    ensures forall c :: c in StripHtml(s) ==> c in s
    decreases |s|
  {
    if s != [] {
      if s[0] == '<' && '>' in s[1..] {
        var k := IndexOf(s[1..], '>') + 2;
        assert StripHtml(s) == StripHtml(s[k..]);
        StripHtmlChars(s[k..]);
        SuffixChars(s, k);
      } else {
        assert StripHtml(s) == [s[0]] + StripHtml(s[1..]);
        StripHtmlChars(s[1..]);
        SuffixChars(s, 1);
      }
    }
  }

  lemma SuffixChars(s: string, k: nat)
    requires k <= |s|
    ensures forall c :: c in s[k..] ==> c in s
  {
    forall c | c in s[k..] ensures c in s {
      var j :| 0 <= j < |s[k..]| && s[k..][j] == c;
      assert s[k + j] == c;
    }
  }

  /** No `<` is followed, anywhere later, by a `>`. */
  predicate TagFree(s: string) {
    forall i, j :: 0 <= i < j < |s| && s[i] == '<' ==> s[j] != '>'
  }

  /** The output holds no complete tag. */
  lemma {:induction false} StripHtmlTagFree(s: string)
    ensures TagFree(StripHtml(s))
    decreases |s|
  {
    if s != [] {
      if s[0] == '<' && '>' in s[1..] {
        StripHtmlTagFree(s[IndexOf(s[1..], '>') + 2..]);
      } else {
        var rest := StripHtml(s[1..]);
        StripHtmlTagFree(s[1..]);
        StripHtmlChars(s[1..]);
        var r := [s[0]] + rest;
        forall i, j | 0 <= i < j < |r| && r[i] == '<'
          ensures r[j] != '>'
        {
          if i == 0 {
            assert r[j] == rest[j - 1] && rest[j - 1] in rest;
          } else {
            assert r[i] == rest[i - 1] && r[j] == rest[j - 1];
          }
        }
      }
    }
  }

  /** Tag-free text is left alone, so stripping twice is stripping once. */
  lemma {:induction false} StripHtmlTagFreeFixed(s: string)
    requires TagFree(s)
    ensures StripHtml(s) == s
    decreases |s|
  {
    if s != [] {
      if s[0] == '<' {
        assert '>' !in s[1..] by {
          assert forall j :: 0 <= j < |s[1..]| ==> s[1..][j] == s[j + 1];
        }
      }
      assert TagFree(s[1..]) by {
        assert forall j :: 0 <= j < |s[1..]| ==> s[1..][j] == s[j + 1];
      }
      StripHtmlTagFreeFixed(s[1..]);
    }
  }

  lemma StripHtmlIdempotent(s: string)
    ensures StripHtml(StripHtml(s)) == StripHtml(s)
  {
    StripHtmlTagFree(s);
    StripHtmlTagFreeFixed(StripHtml(s));
  }

  lemma {:induction false} StripHtmlPrefix(a: string, t: string)
    requires '<' !in a
    ensures StripHtml(a + t) == a + StripHtml(t)
  {
    if a != [] {
      DropCons(a, t);
      StripHtmlCons(a + t);
      assert '<' !in a[1..] by { assert forall c :: c in a[1..] ==> c in a; }
      StripHtmlPrefix(a[1..], t);
      ConsTail(a, StripHtml(t));
    } else {
      assert a + t == t;
    }
  }

  /** A first character other than `<` is kept as it is. */
  lemma StripHtmlCons(s: string)
    requires s != [] && s[0] != '<'
    ensures StripHtml(s) == [s[0]] + StripHtml(s[1..])
  {
  }

  /** One tag: text without `<`, then `<`, a body without `>` and `>`: the
      text is kept, the tag deleted, and the rest stripped on its own. */
  lemma StripHtmlTag(a: string, body: string, rest: string)
    requires '<' !in a && '>' !in body
    ensures StripHtml(a + "<" + body + ">" + rest) == a + StripHtml(rest)
  {
    var t := "<" + body + ">" + rest;
    assert a + "<" + body + ">" + rest == a + t;
    StripHtmlPrefix(a, t);
    StripHtmlTagStart(body, rest);
  }

  /** A tag at the very start is deleted. */
  lemma StripHtmlTagStart(body: string, rest: string)
    requires '>' !in body
    ensures StripHtml("<" + body + ">" + rest) == StripHtml(rest)
  {
    var u := body + ">" + rest;
    assert "<" + body + ">" + rest == ['<'] + u;
    StripHtmlOpen(u);
    IndexOfAfterPrefix(body, '>', rest);
    SliceAround(body, '>', rest);
  }

  /** A `<` with a `>` later on starts a tag, deleted up to that `>`. */
  lemma StripHtmlOpen(u: string)
    requires '>' in u
    ensures StripHtml(['<'] + u) == StripHtml(u[IndexOf(u, '>') + 1..])
  {
  }
}
