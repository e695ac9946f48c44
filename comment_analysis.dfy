/**
 * `analyze_comments` (app3.py): the tables drawn from the comment rows, namely
 * the top commenters, the most liked and most replied comments, and the
 * keyword ranking merged across comments.
 */
module CommentAnalysis {
  import opened SeqFacts
  import opened Ranking
  import opened Counters
  import opened Tables
  import opened ThreadRows
  import opened TextCleaner
  import opened Keywords

  /** Rows shown in each top-N table. */
  const TableSize: nat := 10

  /** Keywords shown in the merged keyword ranking. */
  const KeywordTableSize: nat := 20

  /** Keywords each comment contributes (the default `n` of `extract_keywords`). */
  const PerCommentKeywords: nat := 10

  function Likes(c: Comment): int
  {
    c.likes
  }

  function ReplyCount(c: Comment): int
  {
    c.replyCount
  }

  function Author(c: Comment): string
  {
    c.author
  }

  function Text(c: Comment): string
  {
    c.text
  }

  /** The `author` column. */
  function Authors(rows: seq<Comment>): seq<string>
  {
    Column(rows, Author)
  }

  /** The `text` column. */
  function Texts(rows: seq<Comment>): seq<string>
  {
    Column(rows, Text)
  }

  /** The number of rows written by `author`. */
  function RowsBy(rows: seq<Comment>, author: string): nat
  {
    RowsWith(rows, Author, author)
  }

  /** `df.nlargest(TOP_N, 'likes')`. */
  function MostLiked(rows: seq<Comment>): seq<Comment>
  {
    TopN(rows, Likes, TableSize)
  }

  /** `df.nlargest(TOP_N, 'reply_count')`. */
  function MostReplied(rows: seq<Comment>): seq<Comment>
  {
    TopN(rows, ReplyCount, TableSize)
  }

  /** `df['author'].value_counts().head(TOP_N)`. */
  function TopCommenters(rows: seq<Comment>): Counter<string>
  {
    MostCommon(CountAll(Authors(rows)), TableSize)
  }

  /**
   * The most-liked table has `min(10, rows)` rows taken from the comments, by
   * non-increasing likes, and no comment left out has more likes than one shown.
   */
  lemma MostLikedSpec(rows: seq<Comment>)
    ensures |MostLiked(rows)| == Min(TableSize, |rows|)
    ensures multiset(MostLiked(rows)) <= multiset(rows)
    ensures NonIncreasing(MostLiked(rows), Likes)
    ensures forall x, y :: x in multiset(rows) - multiset(MostLiked(rows)) && y in MostLiked(rows) ==>
      x.likes <= y.likes
  {
    TopNSpec(rows, Likes, TableSize);
    TopNLeftOut(rows, Likes, TableSize);
  }

  /**
   * The most-replied table has `min(10, rows)` rows taken from the comments, by
   * non-increasing reply count, and no comment left out has more replies than one shown.
   */
  lemma MostRepliedSpec(rows: seq<Comment>)
    ensures |MostReplied(rows)| == Min(TableSize, |rows|)
    ensures multiset(MostReplied(rows)) <= multiset(rows)
    ensures NonIncreasing(MostReplied(rows), ReplyCount)
    ensures forall x, y :: x in multiset(rows) - multiset(MostReplied(rows)) && y in MostReplied(rows) ==>
      x.replyCount <= y.replyCount
  {
    TopNSpec(rows, ReplyCount, TableSize);
    TopNLeftOut(rows, ReplyCount, TableSize);
  }

  /**
   * `min(10, distinct authors)` commenters come back, by non-increasing
   * count; each count is that author's number of rows, and no author left
   * out wrote more rows than one listed.
   */
  lemma TopCommentersSpec(rows: seq<Comment>)
    ensures |TopCommenters(rows)| == Min(TableSize, |set a | a in Authors(rows)|)
    ensures NonIncreasing(TopCommenters(rows), EntryCount)
    ensures forall e :: e in TopCommenters(rows) ==> e.1 == RowsBy(rows, e.0) > 0
    ensures forall a, e :: a in Authors(rows) && a !in Keys(TopCommenters(rows)) && e in TopCommenters(rows) ==>
      RowsBy(rows, a) <= e.1
  {
    var authors := Authors(rows);
    MostCommonSpec(CountAll(authors), TableSize);
    MostCommonOfCounts(authors, TableSize);
    MostCommonOfCountsRank(authors, TableSize);
    forall a | a in authors ensures multiset(authors)[a] == RowsBy(rows, a) {
      ColumnCount(rows, Author, a);
    }
    forall e | e in TopCommenters(rows) ensures e.1 == RowsBy(rows, e.0) > 0 {
      ColumnCount(rows, Author, e.0);
    }
  }

  // ---------------------------------------------------------------- keyword merge

  /** `extract_keywords` with its default `n`, as a function value. */
  function KeywordsOf(lib: TextLib): string -> Counter<string>
  {
    text => TextKeywords(lib, text, PerCommentKeywords)
  }

  /** `all_keywords`: each text's keyword list, one after the other. */
  function AllKeywords(lib: TextLib, texts: seq<string>): seq<(string, int)>
  {
    ConcatMap(KeywordsOf(lib), texts)
  }

  /** `Counter(dict(processed_keywords)).most_common(KEYWORD_TOP_N)`. */
  function MergedKeywords(lib: TextLib, texts: seq<string>): Counter<string>
  {
    MostCommon(FromPairs(AllKeywords(lib, texts)), KeywordTableSize)
  }

  /** `display_keyword_analysis` up to the table it shows. */
  method KeywordAnalysis(lib: TextLib, rows: seq<Comment>) returns (keywordCounts: Counter<string>)
    ensures keywordCounts == MergedKeywords(lib, Texts(rows))
  {
    var allKeywords := CollectKeywords(lib, Texts(rows));
    var processed := ProcessKeywords(allKeywords);
    keywordCounts := MostCommon(FromPairs(processed), KeywordTableSize);
  }

  /** The first loop: `all_keywords.extend(extract_keywords(text))` for each text. */
  method CollectKeywords(lib: TextLib, texts: seq<string>) returns (allKeywords: seq<(string, int)>)
    ensures allKeywords == AllKeywords(lib, texts)
  {
    allKeywords := [];
    for i := 0 to |texts|
      invariant allKeywords == AllKeywords(lib, texts[..i])
    {
      var keywords := ExtractKeywords(lib, texts[i], PerCommentKeywords);
      ConcatMapSnoc(KeywordsOf(lib), texts, i);
      allKeywords := allKeywords + keywords;
    }
    assert texts[..|texts|] == texts;
  }

  /** The second loop: every keyword is a string, so each pair is copied as it is. */
  method ProcessKeywords(allKeywords: seq<(string, int)>) returns (processed: seq<(string, int)>)
    ensures processed == allKeywords
  {
    processed := [];
    for i := 0 to |allKeywords|
      invariant processed == allKeywords[..i]
    {
      processed := processed + [allKeywords[i]];
    }
  }

  /** Every per-comment keyword count is positive. */
  lemma {:induction false} AllKeywordsPositive(lib: TextLib, texts: seq<string>)
    ensures AllPositive(AllKeywords(lib, texts))
  {
    if texts != [] {
      var n := |texts| - 1;
      AllKeywordsPositive(lib, texts[..n]);
      TextKeywordsSpec(lib, texts[n], PerCommentKeywords);
      PositiveAppend(AllKeywords(lib, texts[..n]), KeywordsOf(lib)(texts[n]));
    }
  }

  /**
   * `min(20, distinct keywords)` keywords come back, by non-increasing count;
   * each carries the count of the LAST per-comment list that mentions it, and
   * no keyword left out kept a larger count than one listed.
   */
  lemma MergedKeywordsSpec(lib: TextLib, texts: seq<string>)
    ensures |MergedKeywords(lib, texts)| == Min(KeywordTableSize, |set k | k in Keys(AllKeywords(lib, texts))|)
    ensures NonIncreasing(MergedKeywords(lib, texts), EntryCount)
    ensures forall e :: e in MergedKeywords(lib, texts) ==>
      var all := AllKeywords(lib, texts);
      exists i :: 0 <= i < |all| && all[i] == e && forall j :: i < j < |all| ==> all[j].0 != e.0
    ensures forall k, e ::
      k in Keys(AllKeywords(lib, texts)) && k !in Keys(MergedKeywords(lib, texts)) && e in MergedKeywords(lib, texts) ==>
      Get(FromPairs(AllKeywords(lib, texts)), k) <= e.1
  {
    var all := AllKeywords(lib, texts);
    var merged := FromPairs(all);
    FromPairsKeys(all);
    FirstOccurrencesMembers(Keys(all));
    SameMembers(Keys(merged), Keys(all));
    MostCommonSize(merged, KeywordTableSize);
    MostCommonSpec(merged, KeywordTableSize);
    MostCommonLeftOutKeys(merged, KeywordTableSize);
    forall e | e in MergedKeywords(lib, texts)
      ensures exists i :: 0 <= i < |all| && all[i] == e && forall j :: i < j < |all| ==> all[j].0 != e.0
    {
      FromPairsEntry(all, e);
    }
  }

  /**
   * The merge does not add up: a keyword listed for two comments ends up with
   * less than the sum of its per-comment counts.
   */
  lemma MergeKeepsLast(lib: TextLib, texts: seq<string>, i: nat, j: nat)
    requires var all := AllKeywords(lib, texts);
      i < j < |all| && all[i].0 == all[j].0 && forall l :: j < l < |all| ==> all[l].0 != all[j].0
    ensures var all := AllKeywords(lib, texts);
      Get(FromPairs(all), all[j].0) == all[j].1 < SumOf(all, all[j].0)
  {
    AllKeywordsPositive(lib, texts);
    FromPairsLosesRepeats(AllKeywords(lib, texts), i, j);
  }
}
