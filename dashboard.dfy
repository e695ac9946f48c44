/**
 * The replies-aware dashboard (`main` and `analyze_comments` in app3.py):
 * extract the video id, walk the comment pages, then derive the analysis
 * tables. The exceptions that end the run are results.
 */
module Dashboard {
  import opened Wrappers
  import opened Counters
  import opened YouTubeApi
  import opened VideoUrl
  import opened ThreadRows
  import opened Keywords
  import opened CommentAnalysis

  /** The exceptions `main` shows instead of an analysis. */
  datatype AppError =
    | IndexError  // the URL has no `v=`
    | KeyError    // no comment rows, so the table has no `published_at` column

  /** The figures and tables of `analyze_comments` that do not need floating point or dates. */
  datatype Analysis = Analysis(
    totalComments: nat,
    uniqueCommenters: nat,
    topCommenters: Counter<string>,
    mostLiked: seq<Comment>,
    mostReplied: seq<Comment>,
    keywords: Counter<string>)

  function AnalysisOf(lib: TextLib, rows: seq<Comment>): Analysis
  {
    Analysis(
      |rows|,
      |FirstOccurrences(Authors(rows))|,
      TopCommenters(rows),
      MostLiked(rows),
      MostReplied(rows),
      MergedKeywords(lib, Texts(rows)))
  }

  method AnalyzeComments(lib: TextLib, rows: seq<Comment>) returns (analysis: Analysis)
    ensures analysis == AnalysisOf(lib, rows)
  {
    var keywords := KeywordAnalysis(lib, rows);
    analysis := Analysis(
      |rows|,
      |FirstOccurrences(Authors(rows))|,
      TopCommenters(rows),
      MostLiked(rows),
      MostReplied(rows),
      keywords);
  }

  /** The run for one URL, with the pages the comment API returns for it. */
  method AnalyzeVideo(lib: TextLib, url: string, pages: seq<Page>) returns (r: Result<Analysis, AppError>)
    requires VideoId(url).Success? ==> Ends(pages)
    ensures r == Failure(AppError.IndexError) <==> VideoId(url).Failure?
    ensures VideoId(url).Success? && PagesRows(Fetched(pages)) == [] ==> r == Failure(KeyError)
    ensures VideoId(url).Success? && PagesRows(Fetched(pages)) != [] ==>
      r == Success(AnalysisOf(lib, PagesRows(Fetched(pages))))
  {
    var videoId := VideoId(url);
    if videoId.Failure? {
      return Failure(AppError.IndexError);
    }
    var comments := ThreadRows.GetVideoComments(pages);
    if comments == [] {
      return Failure(KeyError);
    }
    var analysis := AnalyzeComments(lib, comments);
    r := Success(analysis);
  }

  /**
   * The total is the number of rows and the unique-commenter figure is the
   * number of distinct authors (`nunique()`).
   */
  lemma AnalysisCounts(lib: TextLib, rows: seq<Comment>)
    ensures AnalysisOf(lib, rows).totalComments == |rows|
    ensures AnalysisOf(lib, rows).uniqueCommenters == |set a | a in Authors(rows)|
  {
    DistinctCount(Authors(rows));
  }
}
