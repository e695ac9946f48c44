/**
 * The top-level script of app.py: extract the video id, walk the comment
 * pages, then show the first comments and the top commenters, or a notice
 * when there are no comments.
 */
module VideoAnalyzer {
  import opened Wrappers
  import opened Ranking
  import opened Counters
  import opened Tables
  import opened YouTubeApi
  import opened VideoUrl
  import opened MessageRows

  /** Comments written out on the page. */
  const ShownComments: nat := 10

  /** Authors in the top-commenters chart. */
  const ChartAuthors: nat := 10

  /** What the script shows once the comments are fetched. */
  datatype Report =
    | NoComments
    | CommentReport(shown: seq<Message>, authorCounts: Counter<string>)

  function Author(m: Message): string
  {
    m.author
  }

  /** `comments[:10]`. */
  function Shown(comments: seq<Message>): seq<Message>
  {
    comments[..Min(ShownComments, |comments|)]
  }

  /** `df['author'].value_counts().head(10)`. */
  function AuthorCounts(comments: seq<Message>): Counter<string>
  {
    MostCommon(CountAll(Column(comments, Author)), ChartAuthors)
  }

  function ReportOf(comments: seq<Message>): Report
  {
    if comments == [] then NoComments else CommentReport(Shown(comments), AuthorCounts(comments))
  }

  /** The script for one URL, with the pages the comment API returns for it. */
  method Analyze(url: string, pages: seq<Page>) returns (r: Result<Report, UrlError>)
    requires VideoId(url).Success? ==> Ends(pages)
    ensures r.Failure? <==> VideoId(url).Failure?
    ensures r.Success? ==> r.value == ReportOf(PagesMessages(Fetched(pages)))
  {
    var videoId := VideoId(url);
    if videoId.Failure? {
      return Failure(videoId.error);
    }
    var comments := MessageRows.GetVideoComments(pages);
    r := Success(ReportOf(comments));
  }

  /**
   * No comments means the notice and nothing else. Otherwise the first
   * `min(10, n)` comments are shown in fetch order, and `min(10, distinct
   * authors)` authors are charted by non-increasing count, each with their
   * number of comments, none left out having written more than one charted.
   */
  lemma ReportSpec(comments: seq<Message>)
    ensures ReportOf(comments).NoComments? <==> comments == []
    ensures ReportOf(comments).CommentReport? ==>
      var report := ReportOf(comments);
      var authors := Column(comments, Author);
      && |report.shown| == Min(ShownComments, |comments|)
      && report.shown <= comments
      && |report.authorCounts| == Min(ChartAuthors, |set a | a in authors|)
      && NonIncreasing(report.authorCounts, EntryCount)
      && (forall e :: e in report.authorCounts ==> e.1 == RowsWith(comments, Author, e.0) > 0)
      && forall a, e :: a in authors && a !in Keys(report.authorCounts) && e in report.authorCounts ==>
        RowsWith(comments, Author, a) <= e.1
  {
    if comments != [] {
      var authors := Column(comments, Author);
      MostCommonSpec(CountAll(authors), ChartAuthors);
      MostCommonOfCounts(authors, ChartAuthors);
      MostCommonOfCountsRank(authors, ChartAuthors);
      forall a | a in authors ensures multiset(authors)[a] == RowsWith(comments, Author, a) {
        ColumnCount(comments, Author, a);
      }
      forall e | e in AuthorCounts(comments) ensures e.1 == RowsWith(comments, Author, e.0) > 0 {
        ColumnCount(comments, Author, e.0);
      }
    }
  }
}
