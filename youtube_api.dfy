/**
 * The comment-thread pages the data source returns, and the rule both
 * dashboards use to decide which pages get fetched: requests go on until a
 * response has no `nextPageToken`, or an empty one.
 */
module YouTubeApi {
  import opened Wrappers
  import opened SeqFacts

  /** The `snippet` of one comment: top-level or reply. */
  datatype Snippet = Snippet(
    authorDisplayName: string,
    textDisplay: string,
    likeCount: nat,
    publishedAt: string)

  /**
   * One comment-thread item: its top-level comment, `totalReplyCount`, and
   * the `replies.comments` list when the item has a `replies` part.
   */
  datatype ThreadItem = ThreadItem(
    topLevelComment: Snippet,
    totalReplyCount: nat,
    replies: Option<seq<Snippet>>)

  /** One response of `commentThreads().list`. */
  datatype Page = Page(items: seq<ThreadItem>, nextPageToken: Option<string>)

  /** Python's truth test on `response.get('nextPageToken')`: present and non-empty. */
  predicate HasNext(page: Page)
  {
    page.nextPageToken.Some? && page.nextPageToken.value != ""
  }

  /** The source eventually answers with a page that ends the walk. */
  predicate Ends(pages: seq<Page>)
  {
    exists k :: 0 <= k < |pages| && !HasNext(pages[k])
  }

  lemma EndsTail(pages: seq<Page>)
    requires Ends(pages) && HasNext(pages[0])
    ensures Ends(pages[1..])
  {
    var k :| 0 <= k < |pages| && !HasNext(pages[k]);
    assert pages[1..][k - 1] == pages[k];
  }

  /** Index of the last page fetched: the first one without a next-page token. */
  function LastFetched(pages: seq<Page>): (k: nat)
    requires Ends(pages)
    ensures k < |pages| && !HasNext(pages[k])
    ensures forall j :: 0 <= j < k ==> HasNext(pages[j])
  {
    if !HasNext(pages[0]) then 0
    else
      EndsTail(pages);
      var k := LastFetched(pages[1..]);
      assert forall j :: 1 <= j < k + 1 ==> pages[j] == pages[1..][j - 1];
      1 + k
  }

  /** The pages the walk requests, in order. */
  function Fetched(pages: seq<Page>): (fetched: seq<Page>)
    requires Ends(pages)
  {
    pages[..LastFetched(pages) + 1]
  }

  /**
   * Which pages are fetched: a non-empty prefix of the responses in which every
   * page but the last carries a next-page token and the last does not.
   */
  lemma FetchedSpec(pages: seq<Page>)
    requires Ends(pages)
    ensures 1 <= |Fetched(pages)| <= |pages|
    ensures Fetched(pages) <= pages
    ensures !HasNext(Fetched(pages)[|Fetched(pages)| - 1])
    ensures forall j :: 0 <= j < |Fetched(pages)| - 1 ==> HasNext(Fetched(pages)[j])
    ensures !HasNext(pages[0]) ==> Fetched(pages) == [pages[0]]
  {
  }

  function PageItems(page: Page): seq<ThreadItem>
  {
    page.items
  }

  /** All thread items of the given pages, page after page. */
  function ItemsOf(pages: seq<Page>): seq<ThreadItem>
  {
    ConcatMap(PageItems, pages)
  }
}
