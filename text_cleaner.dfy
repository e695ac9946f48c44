/**
 * `clean_text` (app3.py): a fixed chain of regular-expression rewrites.
 * The Unicode classes `\w`, `\d` and `\s` are abstract predicates, and the
 * preceding `html.unescape` step is a function parameter.
 */
module TextCleaner {

  /** The character classes `\w`, `\d` and `\s` (and `str.isspace`). */
  datatype CharClasses = CharClasses(isWord: char -> bool, isDigit: char -> bool, isSpace: char -> bool)

  /**
   * What the Unicode classes promise and the proofs rely on: digits are word
   * characters, no word character is whitespace, `' '` is whitespace, the
   * markup characters below are not word characters, and the letters of the
   * URL prefixes are not whitespace.
   */
  ghost predicate Consistent(cc: CharClasses)
  {
    && (forall c :: cc.isDigit(c) ==> cc.isWord(c))
    && (forall c :: !(cc.isWord(c) && cc.isSpace(c)))
    && cc.isSpace(' ')
    && !cc.isWord('<') && !cc.isWord('&') && !cc.isWord('.') && !cc.isWord(':')
    && (forall i :: 0 <= i < |"https://www."| ==> !cc.isSpace("https://www."[i]))
  }

  // ---------------------------------------------------------------- generic helpers

  /** The characters of `s` that satisfy `p`, in order. */
  function Keep(p: char -> bool, s: string): (r: string)
    ensures |r| <= |s|
  {
    if s == [] then [] else (if p(s[0]) then [s[0]] else []) + Keep(p, s[1..])
  }

  lemma {:induction false} KeepMembers(p: char -> bool, s: string)
    ensures forall c :: c in Keep(p, s) <==> c in s && p(c)
  {
    if s != [] {
      KeepMembers(p, s[1..]);
      assert s == [s[0]] + s[1..];
    }
  }

  lemma {:induction false} KeepAll(p: char -> bool, s: string)
    requires forall i :: 0 <= i < |s| ==> p(s[i])
    ensures Keep(p, s) == s
  {
    if s != [] {
      KeepAll(p, s[1..]);
      assert s == [s[0]] + s[1..];
    }
  }

  /** The first position of `c` in `s`. */
  function FirstIndex(s: string, c: char): (r: nat)
    requires c in s
    ensures r < |s| && s[r] == c && c !in s[..r]
  {
    if s[0] == c then 0
    else
      var r := 1 + FirstIndex(s[1..], c);
      assert s[..r] == [s[0]] + s[1..][..r - 1];
      r
  }

  // ---------------------------------------------------------------- re.sub(r'<[^>]+>', '', text)

  /** `<[^>]+>` matches at the start of `t`: a `<`, then a non-`>`, then a `>` somewhere later. */
  predicate TagAt(t: string)
  {
    |t| >= 2 && t[0] == '<' && t[1] != '>' && '>' in t[2..]
  }

  /** The length of the tag matched at the start of `t`: up to and including the first `>`. */
  function TagLength(t: string): (r: nat)
    requires TagAt(t)
    ensures 3 <= r <= |t| && t[r - 1] == '>' && '>' !in t[1..r - 1]
  {
    var r := 3 + FirstIndex(t[2..], '>');
    assert t[1..r - 1] == [t[1]] + t[2..][..r - 3];
    r
  }

  /** Scanning left to right, each match is removed and every other character kept. */
  function StripTags(s: string): (r: string)
    ensures |r| <= |s|
  {
    if s == [] then []
    else if TagAt(s) then StripTags(s[TagLength(s)..])
    else [s[0]] + StripTags(s[1..])
  }

  ghost predicate NoTags(t: string)
  {
    forall i :: 0 <= i < |t| ==> !TagAt(t[i..])
  }

  lemma {:induction false} StripTagsMembers(s: string)
    ensures forall c :: c in StripTags(s) ==> c in s
  {
    if s != [] {
      if TagAt(s) {
        StripTagsMembers(s[TagLength(s)..]);
      } else {
        StripTagsMembers(s[1..]);
      }
      assert forall c :: c in s[1..] ==> c in s;
    }
  }

  /** After the rewrite no tag is left, since a tag could only form from characters the scan already passed. */
  lemma {:induction false} StripTagsNoTags(s: string)
    ensures NoTags(StripTags(s))
  {
    if s != [] {
      if TagAt(s) {
        StripTagsNoTags(s[TagLength(s)..]);
      } else {
        var t := StripTags(s[1..]);
        var r := [s[0]] + t;
        StripTagsNoTags(s[1..]);
        forall i | 1 <= i < |r| ensures !TagAt(r[i..]) {
          assert r[i..] == t[i - 1..];
        }
        if |s| >= 2 && s[0] == '<' && s[1] != '>' {
          assert '>' !in s[2..];
          assert s[1..] == [s[1]] + s[2..];
          StripTagsMembers(s[1..]);
          assert '>' !in t;
          if |r| >= 2 {
            assert r[2..] == t[1..];
            assert forall c :: c in t[1..] ==> c in t;
          }
        } else if |s| >= 2 && s[0] == '<' {
          assert !TagAt(s[1..]) && s[1..] != [];
          assert t[0] == '>';
        }
      }
    }
  }

  /** A string without `<` passes unchanged. */
  lemma {:induction false} StripTagsNoOpen(s: string)
    requires '<' !in s
    ensures StripTags(s) == s
  {
    if s != [] {
      StripTagsNoOpen(s[1..]);
      assert s == [s[0]] + s[1..];
    }
  }

  // ---------------------------------------------------------------- re.sub(r'https?://\S+|www\.\S+', '', text)

  /** `t` starts with `p` followed by a non-space character. */
  predicate StartsUrl(cc: CharClasses, t: string, p: string)
  {
    |t| > |p| && t[..|p|] == p && !cc.isSpace(t[|p|])
  }

  /** Either alternative of the URL pattern matches at the start of `t`. */
  predicate UrlAt(cc: CharClasses, t: string)
  {
    StartsUrl(cc, t, "https://") || StartsUrl(cc, t, "http://") || StartsUrl(cc, t, "www.")
  }

  /** The longest prefix of `t` without whitespace (what `\S+` consumes greedily). */
  function NonSpaceRun(cc: CharClasses, t: string): (r: string)
    ensures r <= t
    ensures forall i :: 0 <= i < |r| ==> !cc.isSpace(r[i])
    ensures |r| == |t| || cc.isSpace(t[|r|])
  {
    if t == [] || cc.isSpace(t[0]) then [] else [t[0]] + NonSpaceRun(cc, t[1..])
  }

  /** The literal prefix the URL match at the start of `t` begins with. */
  function UrlPrefix(cc: CharClasses, t: string): (p: string)
    requires UrlAt(cc, t)
    ensures StartsUrl(cc, t, p)
  {
    if StartsUrl(cc, t, "https://") then "https://"
    else if StartsUrl(cc, t, "http://") then "http://"
    else "www."
  }

  /** The length of the URL match at the start of `t`: the prefix and the whole non-space run after it. */
  function UrlLength(cc: CharClasses, t: string): (r: nat)
    requires UrlAt(cc, t)
    ensures 0 < r <= |t|
    ensures r == |t| || cc.isSpace(t[r])
  {
    var p := |UrlPrefix(cc, t)|;
    p + |NonSpaceRun(cc, t[p..])|
  }

  function StripUrls(cc: CharClasses, s: string): (r: string)
    ensures |r| <= |s|
  {
    if s == [] then []
    else if UrlAt(cc, s) then StripUrls(cc, s[UrlLength(cc, s)..])
    else [s[0]] + StripUrls(cc, s[1..])
  }

  ghost predicate NoUrls(cc: CharClasses, t: string)
  {
    forall i :: 0 <= i < |t| ==> !UrlAt(cc, t[i..])
  }

  lemma {:induction false} StripUrlsMembers(cc: CharClasses, s: string)
    ensures forall c :: c in StripUrls(cc, s) ==> c in s
  {
    if s != [] {
      if UrlAt(cc, s) {
        StripUrlsMembers(cc, s[UrlLength(cc, s)..]);
        assert forall c :: c in s[UrlLength(cc, s)..] ==> c in s;
      } else {
        StripUrlsMembers(cc, s[1..]);
        assert forall c :: c in s[1..] ==> c in s;
      }
    }
  }

  /** The non-space run at the start of the output is a prefix of the input's. */
  lemma {:induction false} StripUrlsRun(cc: CharClasses, s: string)
    ensures NonSpaceRun(cc, StripUrls(cc, s)) <= NonSpaceRun(cc, s)
  {
    if s != [] {
      if UrlAt(cc, s) {
        var e := UrlLength(cc, s);
        StripUrlsRun(cc, s[e..]);
        assert NonSpaceRun(cc, s[e..]) == [];
      } else {
        StripUrlsRun(cc, s[1..]);
        var t := StripUrls(cc, s[1..]);
        assert ([s[0]] + t)[1..] == t;
      }
    }
  }

  /** A prefix of `t` without whitespace lies inside its non-space run. */
  lemma {:induction false} RunCovers(cc: CharClasses, t: string, k: nat)
    requires k <= |t| && forall i :: 0 <= i < k ==> !cc.isSpace(t[i])
    ensures |NonSpaceRun(cc, t)| >= k
  {
    if k > 0 {
      RunCovers(cc, t[1..], k - 1);
    }
  }

  lemma UrlPrefixNonSpace(cc: CharClasses, t: string)
    requires Consistent(cc) && UrlAt(cc, t)
    ensures forall i :: 0 <= i <= |UrlPrefix(cc, t)| ==> !cc.isSpace(t[i])
  {
    var p := UrlPrefix(cc, t);
    var all := "https://www.";
    forall i | 0 <= i < |p| ensures !cc.isSpace(t[i]) {
      assert t[i] == p[i];
      assert p[i] in all;
    }
  }

  /** The rewrite leaves no URL behind: a URL could only form from characters the scan already passed. */
  lemma {:induction false} StripUrlsNoUrls(cc: CharClasses, s: string)
    requires Consistent(cc)
    ensures NoUrls(cc, StripUrls(cc, s))
  {
    if s != [] {
      if UrlAt(cc, s) {
        StripUrlsNoUrls(cc, s[UrlLength(cc, s)..]);
      } else {
        var t := StripUrls(cc, s[1..]);
        var r := [s[0]] + t;
        StripUrlsNoUrls(cc, s[1..]);
        forall i | 1 <= i < |r| ensures !UrlAt(cc, r[i..]) {
          assert r[i..] == t[i - 1..];
        }
        CopiedHeadNoUrl(cc, s);
      }
    }
  }

  /** Where no URL starts in the input, none starts in the output either. */
  lemma CopiedHeadNoUrl(cc: CharClasses, s: string)
    requires Consistent(cc) && s != [] && !UrlAt(cc, s)
    ensures !UrlAt(cc, StripUrls(cc, s))
  {
    var r := StripUrls(cc, s);
    if UrlAt(cc, r) {
      var p := UrlPrefix(cc, r);
      UrlPrefixNonSpace(cc, r);
      StripUrlsRun(cc, s);
      StartsUrlTransfer(cc, r, s, p);
    }
  }

  /** A URL start made of non-space characters carries over to a string whose non-space run extends it. */
  lemma StartsUrlTransfer(cc: CharClasses, r: string, s: string, p: string)
    requires StartsUrl(cc, r, p)
    requires forall i :: 0 <= i <= |p| ==> !cc.isSpace(r[i])
    requires NonSpaceRun(cc, r) <= NonSpaceRun(cc, s)
    ensures StartsUrl(cc, s, p)
  {
    var k := |p| + 1;
    RunCovers(cc, r, k);
    var runR := NonSpaceRun(cc, r);
    var runS := NonSpaceRun(cc, s);
    assert forall i :: 0 <= i < k ==> s[i] == runS[i] == runR[i] == r[i];
    assert s[..|p|] == r[..|p|];
  }

  /** Every URL prefix contains `.` or `:`. */
  lemma NoUrlWithoutDots(cc: CharClasses, s: string)
    requires '.' !in s && ':' !in s
    ensures !UrlAt(cc, s)
  {
    if |s| > 4 {
      assert s[..4][3] == s[3] && s[3] in s;
    }
    if |s| > 7 {
      assert s[..7][4] == s[4] && s[4] in s;
    }
    if |s| > 8 {
      assert s[..8][5] == s[5] && s[5] in s;
    }
  }

  /** A string without `.` and `:` contains no URL and passes unchanged. */
  lemma {:induction false} StripUrlsNoDots(cc: CharClasses, s: string)
    requires '.' !in s && ':' !in s
    ensures StripUrls(cc, s) == s
  {
    if s != [] {
      NoUrlWithoutDots(cc, s);
      assert s == [s[0]] + s[1..];
      StripUrlsNoDots(cc, s[1..]);
    }
  }

  // ---------------------------------------------------------------- symbols, digits, whitespace

  predicate WordOrSpace(cc: CharClasses, c: char)
  {
    cc.isWord(c) || cc.isSpace(c)
  }

  predicate NotDigit(cc: CharClasses, c: char)
  {
    !cc.isDigit(c)
  }

  /** `re.sub(r'[^\w\s]', '', text)`. */
  function RemoveSymbols(cc: CharClasses, s: string): string
  {
    Keep(c => WordOrSpace(cc, c), s)
  }

  /** `re.sub(r'\d+', '', text)`: removing every run of digits removes every digit. */
  function RemoveDigits(cc: CharClasses, s: string): string
  {
    Keep(c => NotDigit(cc, c), s)
  }

  /** Drops the whitespace at the start of `s` (`lstrip()`). */
  function DropLeading(cc: CharClasses, s: string): (r: string)
    ensures |r| <= |s| && r == s[|s| - |r|..]
    ensures r == [] || !cc.isSpace(r[0])
    ensures forall i :: 0 <= i < |s| - |r| ==> cc.isSpace(s[i])
  {
    if s != [] && cc.isSpace(s[0]) then DropLeading(cc, s[1..]) else s
  }

  /** Drops the whitespace at the end of `s` (`rstrip()`). */
  function DropTrailing(cc: CharClasses, s: string): (r: string)
    ensures |r| <= |s| && r == s[..|r|]
    ensures r == [] || !cc.isSpace(r[|r| - 1])
    ensures forall i :: |r| <= i < |s| ==> cc.isSpace(s[i])
  {
    if s != [] && cc.isSpace(s[|s| - 1]) then DropTrailing(cc, s[..|s| - 1]) else s
  }

  /** `re.sub(r'\s+', ' ', text)`: each maximal run of whitespace becomes one `' '`. */
  function CollapseSpaces(cc: CharClasses, s: string): (r: string)
    ensures |r| <= |s|
    ensures s != [] && !cc.isSpace(s[0]) ==> r != [] && r[0] == s[0]
  {
    if s == [] then []
    else if cc.isSpace(s[0]) then [' '] + CollapseSpaces(cc, DropLeading(cc, s[1..]))
    else [s[0]] + CollapseSpaces(cc, s[1..])
  }

  /** `text.strip()`. */
  function Strip(cc: CharClasses, s: string): string
  {
    DropTrailing(cc, DropLeading(cc, s))
  }

  /** The whole cleaning chain applied to `text`. */
  function CleanText(unescape: string -> string, cc: CharClasses, text: string): string
  {
    var noTags := StripTags(unescape(text));
    var noUrls := StripUrls(cc, noTags);
    Strip(cc, CollapseSpaces(cc, RemoveDigits(cc, RemoveSymbols(cc, noUrls))))
  }

  /** No two adjacent characters are both whitespace. */
  ghost predicate NoDoubleSpace(cc: CharClasses, t: string)
  {
    forall i :: 0 <= i < |t| - 1 ==> !(cc.isSpace(t[i]) && cc.isSpace(t[i + 1]))
  }

  /** Every character is `' '` or a non-space character of `s`. */
  ghost predicate SpacesOrFrom(cc: CharClasses, t: string, s: string)
  {
    forall i :: 0 <= i < |t| ==> t[i] == ' ' || (!cc.isSpace(t[i]) && t[i] in s)
  }

  lemma ConsNoDouble(cc: CharClasses, h: char, t: string)
    ensures NoDoubleSpace(cc, [h] + t) <==>
      NoDoubleSpace(cc, t) && (t == [] || !(cc.isSpace(h) && cc.isSpace(t[0])))
  {
    var r := [h] + t;
    assert r[0] == h;
    if t != [] {
      assert r[1] == t[0];
    }
    if NoDoubleSpace(cc, r) {
      forall i | 0 <= i < |t| - 1 ensures !(cc.isSpace(t[i]) && cc.isSpace(t[i + 1])) {
        assert t[i] == r[i + 1] && t[i + 1] == r[i + 2];
      }
    }
    if NoDoubleSpace(cc, t) && (t == [] || !(cc.isSpace(h) && cc.isSpace(t[0]))) {
      forall i | 0 <= i < |r| - 1 ensures !(cc.isSpace(r[i]) && cc.isSpace(r[i + 1])) {
        if i > 0 {
          assert r[i] == t[i - 1] && r[i + 1] == t[i];
        }
      }
    }
  }

  lemma ConsFrom(cc: CharClasses, h: char, t: string, s: string)
    ensures SpacesOrFrom(cc, [h] + t, s) <==>
      (h == ' ' || (!cc.isSpace(h) && h in s)) && SpacesOrFrom(cc, t, s)
  {
    var r := [h] + t;
    assert r[0] == h;
    if SpacesOrFrom(cc, r, s) {
      forall i | 0 <= i < |t| ensures t[i] == ' ' || (!cc.isSpace(t[i]) && t[i] in s) {
        assert t[i] == r[i + 1];
      }
    }
    if (h == ' ' || (!cc.isSpace(h) && h in s)) && SpacesOrFrom(cc, t, s) {
      forall i | 0 <= i < |r| ensures r[i] == ' ' || (!cc.isSpace(r[i]) && r[i] in s) {
        if i > 0 {
          assert r[i] == t[i - 1];
        }
      }
    }
  }

  lemma FromWiden(cc: CharClasses, t: string, d: string, s: string)
    requires SpacesOrFrom(cc, t, d) && forall c :: c in d ==> c in s
    ensures SpacesOrFrom(cc, t, s)
  {
  }

  /** Collapsing leaves no two whitespace characters in a row. */
  lemma {:induction false} CollapseSpacesNoDouble(cc: CharClasses, s: string)
    ensures NoDoubleSpace(cc, CollapseSpaces(cc, s))
  {
    if s != [] {
      if cc.isSpace(s[0]) {
        var d := DropLeading(cc, s[1..]);
        CollapseSpacesNoDouble(cc, d);
        ConsNoDouble(cc, ' ', CollapseSpaces(cc, d));
      } else {
        CollapseSpacesNoDouble(cc, s[1..]);
        ConsNoDouble(cc, s[0], CollapseSpaces(cc, s[1..]));
      }
    }
  }

  /** Each character of the collapsed string is `' '` or a non-space character of the input. */
  lemma {:induction false} CollapseSpacesFrom(cc: CharClasses, s: string)
    ensures SpacesOrFrom(cc, CollapseSpaces(cc, s), s)
  {
    if s != [] {
      assert forall c :: c in s[1..] ==> c in s;
      if cc.isSpace(s[0]) {
        var d := DropLeading(cc, s[1..]);
        CollapseSpacesFrom(cc, d);
        assert forall c :: c in d ==> c in s[1..];
        FromWiden(cc, CollapseSpaces(cc, d), d, s);
        ConsFrom(cc, ' ', CollapseSpaces(cc, d), s);
      } else {
        CollapseSpacesFrom(cc, s[1..]);
        FromWiden(cc, CollapseSpaces(cc, s[1..]), s[1..], s);
        ConsFrom(cc, s[0], CollapseSpaces(cc, s[1..]), s);
      }
    }
  }

  /** Without whitespace other than single `' '` characters, collapsing changes nothing. */
  lemma {:induction false} CollapseSpacesSingle(cc: CharClasses, s: string)
    requires NoDoubleSpace(cc, s)
    requires forall i :: 0 <= i < |s| ==> cc.isSpace(s[i]) ==> s[i] == ' '
    ensures CollapseSpaces(cc, s) == s
  {
    if s != [] {
      ConsNoDouble(cc, s[0], s[1..]);
      assert s == [s[0]] + s[1..];
      if cc.isSpace(s[0]) {
        assert s[1..] == [] || !cc.isSpace(s[1..][0]);
        assert DropLeading(cc, s[1..]) == s[1..];
      }
      CollapseSpacesSingle(cc, s[1..]);
    }
  }

  // ---------------------------------------------------------------- the whole chain

  /** What `clean_text` returns is made of word characters and single spaces. */
  ghost predicate CleanShape(cc: CharClasses, t: string)
  {
    && (forall i :: 0 <= i < |t| ==> !cc.isDigit(t[i]))
    && (forall i :: 0 <= i < |t| ==> cc.isWord(t[i]) || t[i] == ' ')
    && (t == [] || (!cc.isSpace(t[0]) && !cc.isSpace(t[|t| - 1])))
    && NoDoubleSpace(cc, t)
  }

  lemma SliceSpec(cc: CharClasses, c: string, u: string, a: nat, b: nat)
    requires a <= b <= |c|
    requires NoDoubleSpace(cc, c) && SpacesOrFrom(cc, c, u)
    ensures NoDoubleSpace(cc, c[a..b]) && SpacesOrFrom(cc, c[a..b], u)
  {
    var r := c[a..b];
    assert forall i :: 0 <= i < |r| ==> r[i] == c[a + i];
  }

  /** Stripping keeps the single spaces and the characters, and removes the spaces at both ends. */
  lemma StripSpec(cc: CharClasses, c: string, u: string)
    requires NoDoubleSpace(cc, c) && SpacesOrFrom(cc, c, u)
    ensures NoDoubleSpace(cc, Strip(cc, c)) && SpacesOrFrom(cc, Strip(cc, c), u)
    ensures var r := Strip(cc, c); r == [] || (!cc.isSpace(r[0]) && !cc.isSpace(r[|r| - 1]))
  {
    var l := DropLeading(cc, c);
    var r := DropTrailing(cc, l);
    SliceSpec(cc, c, u, |c| - |l|, |c| - |l| + |r|);
    assert r == c[|c| - |l|..|c| - |l| + |r|];
  }

  /**
   * The output has no digit, every character is a word character or a
   * space, there is no leading or trailing space and no two spaces in a row.
   */
  lemma CleanTextShape(unescape: string -> string, cc: CharClasses, text: string)
    requires Consistent(cc)
    ensures CleanShape(cc, CleanText(unescape, cc, text))
  {
    var noUrls := StripUrls(cc, StripTags(unescape(text)));
    var sym := RemoveSymbols(cc, noUrls);
    var u := RemoveDigits(cc, sym);
    KeepMembers(c => WordOrSpace(cc, c), noUrls);
    KeepMembers(c => NotDigit(cc, c), sym);
    forall ch | ch in u ensures WordOrSpace(cc, ch) && !cc.isDigit(ch) {
      assert ch in sym && NotDigit(cc, ch);
      assert ch in noUrls;
    }
    var c := CollapseSpaces(cc, u);
    CollapseSpacesNoDouble(cc, u);
    CollapseSpacesFrom(cc, u);
    StripSpec(cc, c, u);
    var r := Strip(cc, c);
    forall i | 0 <= i < |r| ensures !cc.isDigit(r[i]) && (cc.isWord(r[i]) || r[i] == ' ') {
      if r[i] != ' ' {
        assert r[i] in u && !cc.isSpace(r[i]);
      }
    }
  }

  /** Every character of the output is `' '` or a non-space character of the unescaped input. */
  lemma CleanTextFrom(unescape: string -> string, cc: CharClasses, text: string)
    ensures SpacesOrFrom(cc, CleanText(unescape, cc, text), unescape(text))
  {
    var noTags := StripTags(unescape(text));
    var noUrls := StripUrls(cc, noTags);
    var sym := RemoveSymbols(cc, noUrls);
    var u := RemoveDigits(cc, sym);
    StripTagsMembers(unescape(text));
    StripUrlsMembers(cc, noTags);
    KeepMembers(c => WordOrSpace(cc, c), noUrls);
    KeepMembers(c => NotDigit(cc, c), sym);
    var c := CollapseSpaces(cc, u);
    CollapseSpacesNoDouble(cc, u);
    CollapseSpacesFrom(cc, u);
    StripSpec(cc, c, u);
    FromWiden(cc, Strip(cc, c), u, unescape(text));
  }

  /**
   * Text that has no word character left once its tags and URLs are removed
   * (markup, links or punctuation only) cleans to the empty string.
   */
  lemma NoWordLeftCleansEmpty(unescape: string -> string, cc: CharClasses, text: string)
    requires Consistent(cc)
    requires forall c :: c in StripUrls(cc, StripTags(unescape(text))) ==> !cc.isWord(c)
    ensures CleanText(unescape, cc, text) == ""
  {
    var noUrls := StripUrls(cc, StripTags(unescape(text)));
    var sym := RemoveSymbols(cc, noUrls);
    var u := RemoveDigits(cc, sym);
    KeepMembers(c => WordOrSpace(cc, c), noUrls);
    KeepMembers(c => NotDigit(cc, c), sym);
    var c := CollapseSpaces(cc, u);
    CollapseSpacesNoDouble(cc, u);
    CollapseSpacesFrom(cc, u);
    StripSpec(cc, c, u);
    CleanTextShape(unescape, cc, text);
  }

  /** Text whose unescaped form has no word character at all cleans to the empty string. */
  lemma NoWordCleansEmpty(unescape: string -> string, cc: CharClasses, text: string)
    requires Consistent(cc)
    requires forall c :: c in unescape(text) ==> !cc.isWord(c)
    ensures CleanText(unescape, cc, text) == ""
  {
    var noTags := StripTags(unescape(text));
    StripTagsMembers(unescape(text));
    StripUrlsMembers(cc, noTags);
    NoWordLeftCleansEmpty(unescape, cc, text);
  }

  /** A lone `<br>` tag, which unescaping leaves alone, cleans to the empty string. */
  lemma TagOnlyCleansEmpty(unescape: string -> string, cc: CharClasses)
    requires Consistent(cc)
    requires unescape("<br>") == "<br>"
    ensures CleanText(unescape, cc, "<br>") == ""
  {
    assert TagAt("<br>");
    assert StripTags("<br>") == "";
    assert StripUrls(cc, "") == "";
    NoWordLeftCleansEmpty(unescape, cc, "<br>");
  }

  /** A string already in the cleaned shape passes through cleaning unchanged. */
  lemma CleanShapeFixed(unescape: string -> string, cc: CharClasses, t: string)
    requires Consistent(cc) && CleanShape(cc, t)
    requires forall x :: '&' !in x ==> unescape(x) == x
    ensures CleanText(unescape, cc, t) == t
  {
    assert '&' !in t && '<' !in t && '.' !in t && ':' !in t;
    StripTagsNoOpen(t);
    StripUrlsNoDots(cc, t);
    KeepAll(c => WordOrSpace(cc, c), t);
    KeepAll(c => NotDigit(cc, c), t);
    CollapseSpacesSingle(cc, t);
  }

  /** Cleaning is idempotent when unescaping leaves text without `&` alone. */
  lemma CleanTextIdempotent(unescape: string -> string, cc: CharClasses, text: string)
    requires Consistent(cc)
    requires forall x :: '&' !in x ==> unescape(x) == x
    ensures CleanText(unescape, cc, CleanText(unescape, cc, text)) == CleanText(unescape, cc, text)
  {
    CleanTextShape(unescape, cc, text);
    CleanShapeFixed(unescape, cc, CleanText(unescape, cc, text));
  }
}
