/**
 * Turning the URL a user pastes into the id the fetchers need:
 * `extract_video_id` and `extract_tweet_id`, identical in all three scripts.
 */
module UrlIds {
  import opened Options
  import opened Text

  /** The substring that marks a video link. */
  const WatchMarker: string := "youtube.com/watch?v="

  /** The query key the video id follows. */
  const VideoKey: string := "v="

  /** A video link contains the query key 18 characters into the marker. */
  lemma MarkerHasKey(url: string)
    requires Contains(url, WatchMarker)
    ensures Contains(url, VideoKey)
  {
    var i :| 0 <= i <= |url| && OccursAt(url, WatchMarker, i);
    assert url[i + 18..i + 20] == url[i..i + 20][18..20];
    assert OccursAt(url, VideoKey, i + 18);
  }

  /** A prefix of a string that does not contain `t` does not contain `t` either. */
  lemma PrefixFree(s: string, t: string, n: nat)
    requires n <= |s| && !Contains(s, t)
    ensures !Contains(s[..n], t)
  {
    forall j | 0 <= j <= n && OccursAt(s[..n], t, j) ensures false {
      assert s[..n][j..j + |t|] == s[j..j + |t|];
      assert OccursAt(s, t, j);
    }
  }

  /**
   * `extract_video_id`: `None` when the URL lacks the marker, otherwise the
   * text after the first `v=` up to the next `&` or `v=`, so the id holds neither.
   */
  function ExtractVideoId(url: string): (id: Option<string>)
    ensures id.None? <==> !Contains(url, WatchMarker)
    ensures id.Some? ==> '&' !in id.value && !Contains(id.value, VideoKey)
  {
    if Contains(url, WatchMarker) then
      MarkerHasKey(url);
      SplitCount(url, VideoKey);
      var afterKey := Split(url, VideoKey)[1];
      var pieces := Split(afterKey, "&");
      SplitPiecesFree(url, VideoKey);
      SplitPiecesFree(afterKey, "&");
      CharOccurs(pieces[0], '&');
      SplitFromHead(afterKey, "&", 0);
      PrefixFree(afterKey, VideoKey, |pieces[0]|);
      assert afterKey[..|pieces[0]|] == afterKey[0..|pieces[0]|];
      Some(pieces[0])
    else
      None
  }

  /**
   * Where the video id sits in the URL: right after the first `v=`, and it
   * ends at the end of the URL, at a `&`, or at another `v=`.
   */
  lemma VideoIdLocated(url: string)
    requires Contains(url, WatchMarker)
    ensures Find(url, VideoKey).Some?
    ensures var k := Find(url, VideoKey).value;
      var id := ExtractVideoId(url).value;
      var e := k + 2 + |id|;
      && OccursAt(url, VideoKey, k)
      && (forall j :: 0 <= j < k ==> !OccursAt(url, VideoKey, j))
      && e <= |url| && url[k + 2..e] == id
      && (e == |url| || url[e] == '&' || OccursAt(url, VideoKey, e))
  {
    MarkerHasKey(url);
    FindContains(url, VideoKey);
    VideoIdAfterKey(url, Find(url, VideoKey).value);
  }

  /** The first `&`-piece of the second `v=`-piece sits right after the first `v=`, at `k`. */
  lemma VideoIdAfterKey(url: string, k: nat)
    requires Find(url, VideoKey) == Some(k)
    ensures var id := Split(Split(url, VideoKey)[1], "&")[0];
      var e := k + 2 + |id|;
      e <= |url| && url[k + 2..e] == id
      && (e == |url| || url[e] == '&' || OccursAt(url, VideoKey, e))
  {
    KeyPiece(url, k);
    var h := Split(url, VideoKey)[1];
    AmpHead(h);
    HeadWithin(url, k + 2, h, Split(h, "&")[0]);
  }

  /** The second `v=`-piece runs from just after the first `v=` to the next `v=` or the end. */
  lemma KeyPiece(url: string, k: nat)
    requires Find(url, VideoKey) == Some(k)
    ensures |Split(url, VideoKey)| > 1
    ensures var h := Split(url, VideoKey)[1];
      k + 2 + |h| <= |url| && url[k + 2..k + 2 + |h|] == h
      && (k + 2 + |h| == |url| || OccursAt(url, VideoKey, k + 2 + |h|))
  {
    SecondPiece(url, VideoKey, k);
    SplitFromHead(url, VideoKey, k + 2);
  }

  /** The first `&`-piece is a prefix that ends at the end or at a `&`. */
  lemma AmpHead(h: string)
    ensures var id := Split(h, "&")[0];
      |id| <= |h| && h[0..|id|] == id && (|id| == |h| || OccursAt(h, "&", |id|))
  {
    SplitFromHead(h, "&", 0);
  }

  /** The second piece of a split starts right after the first separator. */
  lemma SecondPiece(s: string, sep: string, k: nat)
    requires sep != "" && Find(s, sep) == Some(k)
    ensures |Split(s, sep)| > 1
    ensures Split(s, sep)[1] == SplitFrom(s, sep, k + |sep|)[0]
  {
    assert Split(s, sep) == [s[..k]] + SplitFrom(s, sep, k + |sep|);
  }

  /**
   * A first `&`-piece `id` of a string `h` found at `start` in `s` sits at
   * `start` in `s` too, and ends at the end of `h` or at a `&`.
   */
  lemma HeadWithin(s: string, start: nat, h: string, id: string)
    requires start + |h| <= |s| && s[start..start + |h|] == h
    requires |id| <= |h| && h[0..|id|] == id
    requires |id| == |h| || OccursAt(h, "&", |id|)
    ensures s[start..start + |id|] == id
    ensures |id| == |h| || s[start + |id|] == '&'
  {
    assert s[start..start + |id|] == h[0..|id|];
    if |id| < |h| {
      assert h[|id|] == h[|id|..|id| + 1][0];
      assert s[start + |id|] == h[|id|];
    }
  }

  /**
   * `extract_tweet_id`: the last `/`-separated segment once leading and
   * trailing slashes are stripped; it has no `/`, and it is empty only when
   * the URL is nothing but slashes.
   */
  function ExtractTweetId(url: string): (id: string)
    ensures '/' !in id
    ensures id == "" <==> AllChar(url, '/')
  {
    LastSegmentFacts(url);
    Last(Split(StripChar(url, '/'), "/"))
  }

  /** The facts `ExtractTweetId` promises, about the expression it returns. */
  lemma LastSegmentFacts(url: string)
    ensures var id := Last(Split(StripChar(url, '/'), "/"));
      '/' !in id && (id == "" <==> AllChar(url, '/'))
  {
    var trimmed := StripChar(url, '/');
    var id := Last(Split(trimmed, "/"));
    LastPieceFree(trimmed);
    LastPieceEmpty(trimmed);
    StripCharEmpty(url, '/');
  }

  /** The last `/`-piece holds no `/`. */
  lemma LastPieceFree(t: string)
    ensures '/' !in Last(Split(t, "/"))
  {
    SplitPiecesFree(t, "/");
    CharOccurs(Last(Split(t, "/")), '/');
  }

  /** The last `/`-piece of a string that does not end in `/` is empty only when the string is. */
  lemma LastPieceEmpty(t: string)
    requires t == [] || t[|t| - 1] != '/'
    ensures Last(Split(t, "/")) == "" <==> t == ""
  {
    SplitFromLast(t, "/", 0);
    LastCutPlaced(t, "/", 0);
    var p := LastCut(t, "/", 0);
    if p == |t| && t != "" {
      SlashAt(t, |t| - 1);
    }
  }

  /** An occurrence of `"/"` is a `/` character. */
  lemma SlashAt(t: string, p: nat)
    requires OccursAt(t, "/", p)
    ensures t[p] == '/'
  {
    assert t[p] == t[p..p + 1][0];
  }

  /**
   * Where the tweet id sits: at the end of the stripped URL, right after
   * a `/` or at its start.
   */
  lemma TweetIdLocated(url: string)
    ensures var t := StripChar(url, '/');
      var id := ExtractTweetId(url);
      && |id| <= |t| && t[|t| - |id|..] == id
      && (|id| == |t| || t[|t| - |id| - 1] == '/')
  {
    var t := StripChar(url, '/');
    var id := Last(Split(t, "/"));
    assert ExtractTweetId(url) == id;
    SplitFromLast(t, "/", 0);
    LastCutPlaced(t, "/", 0);
    var p := LastCut(t, "/", 0);
    assert id == t[p..] && |id| == |t| - p;
    if p > 0 {
      SlashAt(t, p - 1);
    }
  }
}
