/**
 * The comment walk of the first dashboard (`get_video_comments` in app.py):
 * one row per top-level comment, with its author, text and timestamp; replies
 * are neither requested nor emitted.
 */
module MessageRows {
  import opened Wrappers
  import opened SeqFacts
  import opened YouTubeApi

  /** One row: `{'author', 'message', 'timestamp'}`. */
  datatype Message = Message(author: string, message: string, timestamp: string)

  function ItemMessage(item: ThreadItem): seq<Message>
  {
    var c := item.topLevelComment;
    [Message(c.authorDisplayName, c.textDisplay, c.publishedAt)]
  }

  function PageMessages(page: Page): seq<Message>
  {
    ConcatMap(ItemMessage, page.items)
  }

  function PagesMessages(pages: seq<Page>): seq<Message>
  {
    ConcatMap(PageMessages, pages)
  }

  /** Walks the pages and stops after the first page without a non-empty `nextPageToken`. */
  method GetVideoComments(pages: seq<Page>) returns (comments: seq<Message>)
    requires Ends(pages)
    ensures comments == PagesMessages(Fetched(pages))
    ensures |comments| == |ItemsOf(Fetched(pages))|
    ensures forall i :: 0 <= i < |comments| ==>
      var c := ItemsOf(Fetched(pages))[i].topLevelComment;
      comments[i] == Message(c.authorDisplayName, c.textDisplay, c.publishedAt)
  {
    comments := [];
    var nextPageToken: Option<string> := None;
    var k := 0;
    ghost var last := LastFetched(pages);
    while true
      invariant k <= last
      invariant comments == PagesMessages(pages[..k])
      decreases last - k
    {
      // the request made with `nextPageToken` is answered by pages[k]
      var response := pages[k];
      var j := 0;
      while j < |response.items|
        invariant j <= |response.items|
        invariant comments == PagesMessages(pages[..k]) + ConcatMap(ItemMessage, response.items[..j])
      {
        var comment := response.items[j].topLevelComment;
        comments := comments + [Message(comment.authorDisplayName, comment.textDisplay, comment.publishedAt)];
        ConcatMapSnoc(ItemMessage, response.items, j);
        AppendAssoc(PagesMessages(pages[..k]), ConcatMap(ItemMessage, response.items[..j]),
                    ItemMessage(response.items[j]));
        j := j + 1;
      }
      assert response.items[..j] == response.items;
      ConcatMapSnoc(PageMessages, pages, k);
      nextPageToken := response.nextPageToken;
      if !(nextPageToken.Some? && nextPageToken.value != "") {
        break;
      }
      k := k + 1;
    }
    assert pages[..k + 1] == Fetched(pages);
    MessagesAt(Fetched(pages));
  }

  lemma {:induction false} ItemMessagesAt(items: seq<ThreadItem>)
    ensures |ConcatMap(ItemMessage, items)| == |items|
    ensures forall i :: 0 <= i < |items| ==> ConcatMap(ItemMessage, items)[i] == ItemMessage(items[i])[0]
  {
    if items != [] {
      ItemMessagesAt(items[..|items| - 1]);
    }
  }

  /**
   * Exactly one row per top-level comment of the fetched pages, in page and
   * item order, copying its author, text and publication time.
   */
  lemma {:induction false} MessagesAt(pages: seq<Page>)
    ensures |PagesMessages(pages)| == |ItemsOf(pages)|
    ensures forall i :: 0 <= i < |PagesMessages(pages)| ==>
      var c := ItemsOf(pages)[i].topLevelComment;
      PagesMessages(pages)[i] == Message(c.authorDisplayName, c.textDisplay, c.publishedAt)
  {
    MessagesFlatten(pages);
    ItemMessagesAt(ItemsOf(pages));
  }

  lemma {:induction false} MessagesFlatten(pages: seq<Page>)
    ensures PagesMessages(pages) == ConcatMap(ItemMessage, ItemsOf(pages))
  {
    if pages != [] {
      var n := |pages| - 1;
      MessagesFlatten(pages[..n]);
      ConcatMapAppend(ItemMessage, ItemsOf(pages[..n]), pages[n].items);
    }
  }
}
