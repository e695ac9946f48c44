/**
 * Extraction of the video id from a watch URL, `video_url.split('v=')[1]`
 * in both dashboards.
 */
module VideoUrl {
  import opened Wrappers
  import opened Strings

  /** Indexing piece 1 of a split that produced a single piece. */
  datatype UrlError = IndexError

  /** The query-parameter marker the dashboards split on. */
  const Marker: string := "v="

  /** `video_url.split('v=')[1]`, with the `IndexError` as a value. */
  function VideoId(url: string): Result<string, UrlError>
  {
    var parts := Split(url, Marker);
    if |parts| < 2 then Failure(IndexError) else Success(parts[1])
  }

  /**
   * The id is exactly the text between the first `v=` and the next `v=` (or
   * the end of the URL); a URL without `v=` fails with an index error.
   */
  lemma VideoIdSpec(url: string)
    ensures VideoId(url).Failure? <==> Find(url, Marker).None?
    ensures VideoId(url).Success? ==>
      var p := Find(url, Marker).value;
      var id := VideoId(url).value;
      var e := p + |Marker| + |id|;
      && e <= |url| && url[p + |Marker|..e] == id
      && Find(id, Marker).None?
      && (e == |url| || OccursAt(url, Marker, e))
  {
    SplitHead(url, Marker);
    match Find(url, Marker)
    case None =>
    case Some(p) =>
      var rest := url[p + |Marker|..];
      SplitHead(rest, Marker);
      SplitPiecesFree(rest, Marker);
      var id := Split(rest, Marker)[0];
      assert VideoId(url) == Success(id);
      match Find(rest, Marker)
      case None =>
        assert id == rest;
      case Some(q) =>
        assert id == rest[..q];
        var e := p + |Marker| + q;
        assert rest[q] == url[e] && rest[q + 1] == url[e + 1];
        assert url[e..e + |Marker|] == rest[q..q + |Marker|];
  }

  /** Every URL that carries `v=` once, as `...watch?v=ID`, yields `ID`. */
  lemma {:induction false} WatchUrl(prefix: string, id: string)
    requires Find(prefix, Marker).None? && Find(id, Marker).None?
    requires |prefix| == 0 || prefix[|prefix| - 1] != 'v'
    ensures VideoId(prefix + Marker + id) == Success(id)
  {
    var url := prefix + Marker + id;
    var p := |prefix|;
    assert url[p..p + 2] == Marker;
    forall j | 0 <= j < p
      ensures !OccursAt(url, Marker, j)
    {
      if j + 2 <= p {
        assert url[j..j + 2] == prefix[j..j + 2];
        assert !OccursAt(prefix, Marker, j);
      } else {
        assert j == p - 1;
        assert url[j] == prefix[p - 1];
      }
    }
    assert Find(url, Marker) == Some(p) by {
      FindFirst(url, Marker, 0, p);
    }
    var rest := url[p + 2..];
    assert rest == id;
    SplitHead(url, Marker);
    SplitHead(rest, Marker);
  }

  /** A scan from `from` finds `p` when `p` occurs and nothing before it does. */
  lemma {:induction false} FindFirst(s: string, sep: string, from: nat, p: nat)
    requires from <= p && OccursAt(s, sep, p)
    requires forall j :: from <= j < p ==> !OccursAt(s, sep, j)
    ensures FindFrom(s, sep, from) == Some(p)
    decreases p - from
  {
    if from < p {
      FindFirst(s, sep, from + 1, p);
    }
  }
}
