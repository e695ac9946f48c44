/**
 * The comment walk of the replies-aware dashboard (`get_video_comments` in
 * app3.py): every thread item becomes one row for its top-level comment,
 * followed by one row per reply carried in the item.
 */
module ThreadRows {
  import opened Wrappers
  import opened SeqFacts
  import opened YouTubeApi

  /** One row of the comment table. */
  datatype Comment = Comment(
    author: string,
    text: string,
    likes: nat,
    publishedAt: string,
    replyCount: nat)

  /** The row of a thread's top-level comment; it carries `totalReplyCount`. */
  function TopLevelRow(item: ThreadItem): Comment
  {
    var c := item.topLevelComment;
    Comment(c.authorDisplayName, c.textDisplay, c.likeCount, c.publishedAt, item.totalReplyCount)
  }

  /** The row of a reply; replies are never counted as having replies. */
  function ReplyRow(reply: Snippet): Comment
  {
    Comment(reply.authorDisplayName, reply.textDisplay, reply.likeCount, reply.publishedAt, 0)
  }

  /** The replies an item carries: none when it has no `replies` part. */
  function Replies(item: ThreadItem): seq<Snippet>
  {
    if item.replies.Some? then item.replies.value else []
  }

  function ReplyRows(replies: seq<Snippet>): seq<Comment>
  {
    if replies == [] then []
    else ReplyRows(replies[..|replies| - 1]) + [ReplyRow(replies[|replies| - 1])]
  }

  /** The rows of one thread item: its top-level row, then its replies' rows. */
  function ItemRows(item: ThreadItem): seq<Comment>
  {
    [TopLevelRow(item)] + ReplyRows(Replies(item))
  }

  function ItemsRows(items: seq<ThreadItem>): seq<Comment>
  {
    ConcatMap(ItemRows, items)
  }

  function PageRows(page: Page): seq<Comment>
  {
    ItemsRows(page.items)
  }

  function PagesRows(pages: seq<Page>): seq<Comment>
  {
    ConcatMap(PageRows, pages)
  }

  /** Rows the items contribute: one each, plus one per reply they carry. */
  function Weight(items: seq<ThreadItem>): nat
  {
    if items == [] then 0
    else Weight(items[..|items| - 1]) + 1 + |Replies(items[|items| - 1])|
  }

  /**
   * Walks the pages as the source does, appending rows, and stops after the
   * first page whose `nextPageToken` is missing or empty.
   */
  method GetVideoComments(pages: seq<Page>) returns (comments: seq<Comment>)
    requires Ends(pages)
    ensures comments == PagesRows(Fetched(pages))
    ensures |comments| == Weight(ItemsOf(Fetched(pages)))
    ensures !HasNext(pages[0]) ==> comments == ItemsRows(pages[0].items)
  {
    comments := [];
    var nextPageToken: Option<string> := None;
    var k := 0;
    ghost var last := LastFetched(pages);
    while true
      invariant k <= last
      invariant comments == PagesRows(pages[..k])
      decreases last - k
    {
      // the request made with `nextPageToken` is answered by pages[k]
      var response := pages[k];
      comments := AppendPageRows(comments, response.items);
      ConcatMapSnoc(PageRows, pages, k);
      nextPageToken := response.nextPageToken;
      if !(nextPageToken.Some? && nextPageToken.value != "") {
        break;
      }
      k := k + 1;
    }
    assert pages[..k + 1] == Fetched(pages);
    assert !HasNext(pages[0]) ==> Fetched(pages) == [pages[0]];
    ConcatMapSingle(PageRows, pages[0]);
    PagesRowsFlatten(Fetched(pages));
    ItemsRowsLength(ItemsOf(Fetched(pages)));
  }

  /**
   * The `for item in response['items']` loop: appends each item's top-level
   * row and then, when the item has a `replies` part, one row per reply.
   */
  method AppendPageRows(comments0: seq<Comment>, items: seq<ThreadItem>) returns (comments: seq<Comment>)
    ensures comments == comments0 + ItemsRows(items)
    ensures |comments| == |comments0| + Weight(items)
  {
    comments := comments0;
    var j := 0;
    while j < |items|
      invariant j <= |items|
      invariant comments == comments0 + ItemsRows(items[..j])
    {
      var item := items[j];
      ghost var before := comments;
      comments := comments + [TopLevelRow(item)];
      if item.replies.Some? {
        var replies := item.replies.value;
        var r := 0;
        while r < |replies|
          invariant r <= |replies|
          invariant comments == before + [TopLevelRow(item)] + ReplyRows(replies[..r])
          invariant j < |items| && item == items[j]
        {
          comments := comments + [ReplyRow(replies[r])];
          ReplyRowsSnoc(replies, r);
          AppendAssoc(before + [TopLevelRow(item)], ReplyRows(replies[..r]), [ReplyRow(replies[r])]);
          r := r + 1;
        }
        assert replies[..r] == replies;
        AppendAssoc(before, [TopLevelRow(item)], ReplyRows(replies));
      }
      assert comments == before + ItemRows(item);
      ConcatMapSnoc(ItemRows, items, j);
      AppendAssoc(comments0, ItemsRows(items[..j]), ItemRows(item));
      j := j + 1;
    }
    assert items[..j] == items;
    ItemsRowsLength(items);
  }

  lemma ReplyRowsSnoc(replies: seq<Snippet>, r: nat)
    requires r < |replies|
    ensures ReplyRows(replies[..r + 1]) == ReplyRows(replies[..r]) + [ReplyRow(replies[r])]
  {
    assert replies[..r + 1][..r] == replies[..r];
  }

  /** The page walk's rows are the rows of all items of those pages, in page order. */
  lemma {:induction false} PagesRowsFlatten(pages: seq<Page>)
    ensures PagesRows(pages) == ItemsRows(ItemsOf(pages))
  {
    if pages != [] {
      var n := |pages| - 1;
      PagesRowsFlatten(pages[..n]);
      ConcatMapAppend(ItemRows, ItemsOf(pages[..n]), pages[n].items);
    }
  }

  lemma {:induction false} ReplyRowsAt(replies: seq<Snippet>)
    ensures |ReplyRows(replies)| == |replies|
    ensures forall i :: 0 <= i < |replies| ==> ReplyRows(replies)[i] == ReplyRow(replies[i])
  {
    if replies != [] {
      ReplyRowsAt(replies[..|replies| - 1]);
    }
  }

  /** The number of rows is the number of items plus the number of replies they carry. */
  lemma {:induction false} ItemsRowsLength(items: seq<ThreadItem>)
    ensures |ItemsRows(items)| == Weight(items)
  {
    if items != [] {
      ItemsRowsLength(items[..|items| - 1]);
      ReplyRowsAt(Replies(items[|items| - 1]));
    }
  }

  /**
   * The rows of one item: first the top-level comment with the item's
   * `totalReplyCount`, then each carried reply, in order, with reply count 0.
   */
  lemma ItemRowsShape(item: ThreadItem)
    ensures |ItemRows(item)| == 1 + |Replies(item)|
    ensures ItemRows(item)[0] == TopLevelRow(item)
    ensures ItemRows(item)[0].replyCount == item.totalReplyCount
    ensures forall i :: 1 <= i < |ItemRows(item)| ==>
      ItemRows(item)[i] == ReplyRow(Replies(item)[i - 1]) && ItemRows(item)[i].replyCount == 0
  {
    ReplyRowsAt(Replies(item));
  }

  /**
   * Position of each item's rows in the table: the rows of item `j` come right
   * after the rows of the items before it and right before those after it.
   */
  lemma ItemRowsInPlace(items: seq<ThreadItem>, j: nat)
    requires j < |items|
    ensures ItemsRows(items) == ItemsRows(items[..j]) + ItemRows(items[j]) + ItemsRows(items[j + 1..])
  {
    assert items == items[..j + 1] + items[j + 1..];
    ConcatMapAppend(ItemRows, items[..j + 1], items[j + 1..]);
    ConcatMapSnoc(ItemRows, items, j);
  }

  /** Items without replies contribute exactly one row each. */
  lemma {:induction false} NoRepliesOneRowEach(items: seq<ThreadItem>)
    requires forall i :: 0 <= i < |items| ==> Replies(items[i]) == []
    ensures Weight(items) == |items|
  {
    if items != [] {
      NoRepliesOneRowEach(items[..|items| - 1]);
    }
  }
}
