/**
 * `extract_keywords` (app3.py) from the tokenizer's output onward: keep the
 * content words, count them and the bigrams of adjacent distinct words, add
 * the two Counters and take `most_common(n)`.
 */
module Keywords {
  import opened SeqFacts
  import opened Strings
  import opened Ranking
  import opened Counters
  import opened TextCleaner

  /** What the morphological analyser reports for one token. */
  datatype Token = Token(partOfSpeech: string, baseForm: string)

  /**
   * The library behaviour the keyword extraction calls into: `html.unescape`,
   * the Unicode character classes, the tokenizer and `str.lower`.
   */
  datatype TextLib = TextLib(
    unescape: string -> string,
    classes: CharClasses,
    tokenize: string -> seq<Token>,
    lower: string -> string)

  /** Nouns, verbs and adjectives. */
  const ContentClasses: set<string> := {"名詞", "動詞", "形容詞"}

  const StopWords: set<string> := {
    "の", "に", "は", "を", "た", "が", "で", "て", "と", "し", "れ", "さ", "ある", "いる", "も", "する", "から",
    "な", "こと", "として", "い", "や", "れる", "など", "なっ", "ない", "この", "ため", "その", "あっ", "よう", "また",
    "もの", "という", "あり", "まで", "られ", "なる", "へ", "か", "だ", "これ", "によって", "により", "おり", "より", "による",
    "ず", "なり", "られる", "において", "ば", "なかっ", "なく", "しかし", "について", "せ", "だっ", "その後", "できる", "それ",
    "う", "ので", "なお", "のみ", "でき", "き", "つ", "における", "および", "いう", "さらに", "でも", "ら", "たり", "その他",
    "に関する", "たち", "ます", "ん", "なら", "に対して", "特に", "せる", "及び", "これら", "とき", "では", "にて", "ほか",
    "ながら", "うち", "そして", "とともに", "ただし", "かつて", "それぞれ", "または", "お", "ほど", "ものの", "に対する", "ほとんど",
    "と共に", "といった", "です", "とも", "ところ", "ここ"
  }

  /** The coarse class: the part of speech up to its first comma, or all of it when it has none. */
  function CoarseClass(pos: string): (r: string)
    ensures r <= pos && ',' !in r
    ensures r == pos || (|r| < |pos| && pos[|r|] == ',')
  {
    SplitHead(pos, ",");
    PrefixIsFree(pos);
    Split(pos, ",")[0]
  }

  lemma PrefixIsFree(pos: string)
    ensures Split(pos, ",")[0] <= pos && ',' !in Split(pos, ",")[0]
    ensures var r := Split(pos, ",")[0]; r == pos || (|r| < |pos| && pos[|r|] == ',')
  {
    SplitHead(pos, ",");
    var e := match Find(pos, ",") case None => |pos| case Some(i) => i;
    assert Split(pos, ",")[0] == pos[..e];
    forall j | 0 <= j < e ensures pos[j] != ',' {
      assert !OccursAt(pos, ",", j);
      if j + 1 <= |pos| {
        assert pos[j..j + 1] == [pos[j]];
      }
    }
    match Find(pos, ",")
    case None =>
      assert pos[..e] == pos;
    case Some(i) =>
      assert pos[i..i + 1] == ",";
  }

  predicate IsContent(t: Token)
  {
    CoarseClass(t.partOfSpeech) in ContentClasses
  }

  /** A lowered base form is kept when it is not a stop-word and longer than one character. */
  predicate Keeps(word: string)
  {
    word !in StopWords && |word| > 1
  }

  /** A content token whose lowered base form is kept. */
  predicate KeptToken(lower: string -> string, t: Token)
  {
    IsContent(t) && Keeps(lower(t.baseForm))
  }

  /** The word one token contributes: its lowered base form when kept, nothing otherwise. */
  function TokenWord(lower: string -> string): Token -> seq<string>
  {
    t => if KeptToken(lower, t) then [lower(t.baseForm)] else []
  }

  /** The tests `extract_keywords` applies to one token, written out. */
  lemma TokenWordTests(lower: string -> string, t: Token)
    ensures TokenWord(lower)(t) ==
      if CoarseClass(t.partOfSpeech) in ContentClasses && lower(t.baseForm) !in StopWords && |lower(t.baseForm)| > 1
      then [lower(t.baseForm)] else []
  {
    var w := lower(t.baseForm);
    assert TokenWord(lower)(t) == if KeptToken(lower, t) then [w] else [];
    assert KeptToken(lower, t) <==> IsContent(t) && Keeps(w);
  }

  /** The lowered base forms of the kept tokens, in token order. */
  function KeptWords(lower: string -> string, tokens: seq<Token>): seq<string>
  {
    ConcatMap(TokenWord(lower), tokens)
  }

  /** The loop over the tokens, appending each kept word. */
  method FilterWords(lower: string -> string, tokens: seq<Token>) returns (words: seq<string>)
    ensures words == KeptWords(lower, tokens)
  {
    words := [];
    for i := 0 to |tokens|
      invariant words == KeptWords(lower, tokens[..i])
    {
      ConcatMapSnoc(TokenWord(lower), tokens, i);
      var token := tokens[i];
      TokenWordTests(lower, token);
      if CoarseClass(token.partOfSpeech) in ContentClasses {
        var word := lower(token.baseForm);
        if word !in StopWords && |word| > 1 {
          words := words + [word];
        }
      }
    }
    assert tokens[..|tokens|] == tokens;
  }

  /** A word is kept exactly when some kept token lowers to it. */
  lemma KeptWordsMembers(lower: string -> string, tokens: seq<Token>, w: string)
    ensures w in KeptWords(lower, tokens) <==>
      exists j :: 0 <= j < |tokens| && KeptToken(lower, tokens[j]) && lower(tokens[j].baseForm) == w
  {
    ConcatMapMembers(TokenWord(lower), tokens, w);
    forall j | 0 <= j < |tokens|
      ensures w in TokenWord(lower)(tokens[j]) <==> KeptToken(lower, tokens[j]) && lower(tokens[j].baseForm) == w
    {
    }
  }

  /**
   * Every kept word is the lowered base form of a noun, verb or adjective,
   * is not a stop-word and has more than one character.
   */
  lemma KeptWordsQualify(lower: string -> string, tokens: seq<Token>, w: string)
    requires w in KeptWords(lower, tokens)
    ensures w !in StopWords && |w| > 1
    ensures exists j ::
      0 <= j < |tokens| && CoarseClass(tokens[j].partOfSpeech) in ContentClasses && lower(tokens[j].baseForm) == w
  {
    KeptWordsMembers(lower, tokens, w);
  }

  /** Filtering keeps token order: the words of two token runs are the two word lists in order. */
  lemma KeptWordsAppend(lower: string -> string, a: seq<Token>, b: seq<Token>)
    ensures KeptWords(lower, a + b) == KeptWords(lower, a) + KeptWords(lower, b)
  {
    ConcatMapAppend(TokenWord(lower), a, b);
  }


  /** `' '.join(pair)` over `zip(words, words[1:])`, skipping pairs of equal words. */
  function Bigrams(words: seq<string>): (r: seq<string>)
    ensures |words| < 2 ==> r == []
    ensures |words| >= 1 ==> |r| <= |words| - 1
  {
    if |words| < 2 then []
    else (if words[0] != words[1] then [words[0] + " " + words[1]] else []) + Bigrams(words[1..])
  }

  /** A bigram is exactly two adjacent distinct words joined by one space. */
  lemma {:induction false} BigramsMembers(words: seq<string>, b: string)
    ensures b in Bigrams(words) <==>
      exists i :: 0 <= i < |words| - 1 && words[i] != words[i + 1] && b == words[i] + " " + words[i + 1]
  {
    if |words| >= 2 {
      var rest := words[1..];
      BigramsMembers(rest, b);
      if exists i :: 0 <= i < |words| - 1 && words[i] != words[i + 1] && b == words[i] + " " + words[i + 1] {
        var i :| 0 <= i < |words| - 1 && words[i] != words[i + 1] && b == words[i] + " " + words[i + 1];
        if i > 0 {
          assert rest[i - 1] == words[i] && rest[i] == words[i + 1];
        }
      }
      if exists i :: 0 <= i < |rest| - 1 && rest[i] != rest[i + 1] && b == rest[i] + " " + rest[i + 1] {
        var i :| 0 <= i < |rest| - 1 && rest[i] != rest[i + 1] && b == rest[i] + " " + rest[i + 1];
        assert rest[i] == words[i + 1] && rest[i + 1] == words[i + 2];
      }
    }
  }

  /** `(Counter(words) + Counter(bigrams)).most_common(n)`. */
  function KeywordCounts(words: seq<string>, n: nat): Counter<string>
  {
    MostCommon(Add(CountAll(words), CountAll(Bigrams(words))), n)
  }

  /** `extract_keywords(text, n)` as a function of its input. */
  function TextKeywords(lib: TextLib, text: string, n: nat): Counter<string>
  {
    KeywordCounts(TextWords(lib, text), n)
  }

  /** The kept words of the cleaned, tokenised text. */
  function TextWords(lib: TextLib, text: string): seq<string>
  {
    KeptWords(lib.lower, lib.tokenize(CleanText(lib.unescape, lib.classes, text)))
  }

  method ExtractKeywords(lib: TextLib, text: string, n: nat := 10) returns (keywords: Counter<string>)
    ensures keywords == TextKeywords(lib, text, n)
  {
    var cleaned := CleanText(lib.unescape, lib.classes, text);
    var tokens := lib.tokenize(cleaned);
    var words := FilterWords(lib.lower, tokens);
    var wordCounts := CountAll(words);
    var bigramCounts := CountAll(Bigrams(words));
    var allCounts := Add(wordCounts, bigramCounts);
    keywords := MostCommon(allCounts, n);
  }

  /** The unigram counts add up to the number of kept words. */
  lemma UnigramTotal(words: seq<string>)
    ensures SumCounts(CountAll(words)) == |words|
  {
    CountAllSum(words);
  }

  /**
   * The Counter sum has one entry per word or bigram, with positive counts,
   * each the number of occurrences as a word plus as a bigram.
   */
  lemma CombinedCounts(words: seq<string>)
    ensures var sum := Add(CountAll(words), CountAll(Bigrams(words)));
      && DistinctKeys(sum) && AllPositive(sum)
      && (forall k :: Get(sum, k) == multiset(words)[k] + multiset(Bigrams(words))[k])
      && forall k :: k in Keys(sum) <==> k in words + Bigrams(words)
  {
    var uni := CountAll(words);
    var bi := CountAll(Bigrams(words));
    var sum := Add(uni, bi);
    CountAllKeys(words);
    CountAllKeys(Bigrams(words));
    AddSpec(uni, bi);
    forall k ensures Get(sum, k) == multiset(words)[k] + multiset(Bigrams(words))[k] {
      CountAllGet(words, k);
      CountAllGet(Bigrams(words), k);
    }
    forall k ensures k in Keys(sum) <==> k in words + Bigrams(words) {
      KeysPositive(sum, k);
    }
  }

  /**
   * `min(n, distinct words and bigrams)` keywords come back, by non-increasing
   * count, and no word or bigram left out occurs more often than one listed.
   */
  lemma KeywordCountsSpec(words: seq<string>, n: nat)
    ensures |KeywordCounts(words, n)| == Min(n, |set k | k in words + Bigrams(words)|)
    ensures NonIncreasing(KeywordCounts(words, n), EntryCount)
    ensures forall k, e :: k in words + Bigrams(words) && k !in Keys(KeywordCounts(words, n)) && e in KeywordCounts(words, n) ==>
      multiset(words)[k] + multiset(Bigrams(words))[k] <= e.1
  {
    var sum := Add(CountAll(words), CountAll(Bigrams(words)));
    CombinedCounts(words);
    SameMembers(Keys(sum), words + Bigrams(words));
    MostCommonSpec(sum, n);
    MostCommonSize(sum, n);
    MostCommonLeftOutKeys(sum, n);
  }

  /** Each keyword's count is its number of occurrences as a word plus as a bigram. */
  lemma KeywordCountsExact(words: seq<string>, n: nat)
    ensures forall e :: e in KeywordCounts(words, n) ==>
      e.1 > 0 && e.1 == multiset(words)[e.0] + multiset(Bigrams(words))[e.0]
  {
    var uni := CountAll(words);
    var bi := CountAll(Bigrams(words));
    CountAllKeys(words);
    CountAllKeys(Bigrams(words));
    MostCommonOfSum(uni, bi, n);
    forall e | e in KeywordCounts(words, n)
      ensures e.1 > 0 && e.1 == multiset(words)[e.0] + multiset(Bigrams(words))[e.0]
    {
      CountAllGet(words, e.0);
      CountAllGet(Bigrams(words), e.0);
    }
  }

  /** Every bigram contains a space. */
  lemma BigramsHaveSpace(words: seq<string>, b: string)
    requires b in Bigrams(words)
    ensures ' ' in b
  {
    BigramsMembers(words, b);
    var i :| 0 <= i < |words| - 1 && words[i] != words[i + 1] && b == words[i] + " " + words[i + 1];
    assert b[|words[i]|] == ' ';
  }

  /**
   * When no kept word contains a space, the combined Counter lists the
   * unigrams first and then the bigrams, each in first-occurrence order; this
   * is the order `most_common` breaks ties by.
   */
  lemma CombinedOrder(words: seq<string>)
    requires forall i :: 0 <= i < |words| ==> ' ' !in words[i]
    ensures Add(CountAll(words), CountAll(Bigrams(words))) == CountAll(words) + CountAll(Bigrams(words))
    ensures Keys(CountAll(words) + CountAll(Bigrams(words))) == FirstOccurrences(words) + FirstOccurrences(Bigrams(words))
  {
    var uni := CountAll(words);
    var bi := CountAll(Bigrams(words));
    CountAllKeys(words);
    CountAllKeys(Bigrams(words));
    FirstOccurrencesMembers(words);
    FirstOccurrencesMembers(Bigrams(words));
    forall i | 0 <= i < |uni| ensures uni[i].0 !in Keys(bi) {
      assert uni[i].0 == Keys(uni)[i] && uni[i].0 in words;
      if uni[i].0 in Keys(bi) {
        BigramsHaveSpace(words, uni[i].0);
      }
    }
    AddDisjoint(uni, bi);
    KeysAppend(uni, bi);
  }
  /**
   * `extract_keywords(text, n)` ranks the kept words of the cleaned text and
   * their bigrams: `min(n, distinct words and bigrams)` keywords by
   * non-increasing count, each with its exact positive count, and none left
   * out occurring more often than one listed.
   */
  lemma TextKeywordsSpec(lib: TextLib, text: string, n: nat)
    ensures var words := TextWords(lib, text);
      var r := TextKeywords(lib, text, n);
      && |r| == Min(n, |set k | k in words + Bigrams(words)|)
      && NonIncreasing(r, EntryCount)
      && AllPositive(r)
      && (forall e :: e in r ==> e.1 == multiset(words)[e.0] + multiset(Bigrams(words))[e.0])
      && forall k, e :: k in words + Bigrams(words) && k !in Keys(r) && e in r ==>
        multiset(words)[k] + multiset(Bigrams(words))[k] <= e.1
  {
    var words := TextWords(lib, text);
    KeywordCountsSpec(words, n);
    KeywordCountsExact(words, n);
    var r := KeywordCounts(words, n);
    assert forall i :: 0 <= i < |r| ==> r[i] in r;
  }
}
