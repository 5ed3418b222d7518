/**
 * The home page (src/app/page.tsx): the published posts newest first
 * ("Latest"), and the three most-read of them ("Top Read"). The fetch of the
 * published posts is the `FetchResult` parameter.
 */
module Home {
  import opened Wrappers
  import Seqs
  import Posts

  /** Non-increasing view counts. */
  predicate SortedByViews(s: seq<Posts.Post>) {
    forall i, j :: 0 <= i < j < |s| ==> Posts.Views(s[i]) >= Posts.Views(s[j])
  }

  /**
   * Inserts `x` into a list sorted by views, before the first post with no
   * more views than `x`, so that earlier posts stay ahead of later ties.
   */
  function InsertByViews(x: Posts.Post, s: seq<Posts.Post>): (r: seq<Posts.Post>)
    ensures multiset(r) == multiset(s) + multiset{x}
    ensures |r| == |s| + 1
  {
    if s == [] || Posts.Views(s[0]) <= Posts.Views(x) then
      [x] + s
    else
      assert s == [s[0]] + s[1..];
      [s[0]] + InsertByViews(x, s[1..])
  }

  /** A bound on the views of `x` and of every post in `s` bounds the result too. */
  lemma {:induction false} InsertBounded(x: Posts.Post, s: seq<Posts.Post>, bound: int)
    requires Posts.Views(x) <= bound
    requires forall k :: 0 <= k < |s| ==> Posts.Views(s[k]) <= bound
    ensures forall k :: 0 <= k < |InsertByViews(x, s)| ==> Posts.Views(InsertByViews(x, s)[k]) <= bound
  {
    if s != [] && Posts.Views(s[0]) > Posts.Views(x) {
      InsertBounded(x, s[1..], bound);
    }
  }

  /** Inserting into a list sorted by views keeps it sorted. */
  lemma {:induction false} InsertKeepsSorted(x: Posts.Post, s: seq<Posts.Post>)
    requires SortedByViews(s)
    ensures SortedByViews(InsertByViews(x, s))
  {
    if s != [] && Posts.Views(s[0]) > Posts.Views(x) {
      var tail := s[1..];
      var rest := InsertByViews(x, tail);
      InsertKeepsSorted(x, tail);
      InsertBounded(x, tail, Posts.Views(s[0]));
      var r := InsertByViews(x, s);
      assert r == [s[0]] + rest;
      forall i, j | 0 <= i < j < |r| ensures Posts.Views(r[i]) >= Posts.Views(r[j]) {
        assert r[j] == rest[j - 1];
        if i > 0 {
          assert r[i] == rest[i - 1];
        }
      }
    }
  }

  /** `[...posts].sort((a, b) => (b.view_count || 0) - (a.view_count || 0))`, as an insertion sort. */
  function SortByViews(posts: seq<Posts.Post>): (r: seq<Posts.Post>)
    ensures multiset(r) == multiset(posts)
    ensures |r| == |posts|
    ensures SortedByViews(r)
  {
    if posts == [] then []
    else
      assert posts == [posts[0]] + posts[1..];
      InsertKeepsSorted(posts[0], SortByViews(posts[1..]));
      InsertByViews(posts[0], SortByViews(posts[1..]))
  }

  /** `topReadPosts`: the first three of the sorted copy. */
  function TopRead(posts: seq<Posts.Post>): (r: seq<Posts.Post>)
  {
    Seqs.Take(SortByViews(posts), 3)
  }

  /** The Top Read list holds three posts, or all of them when there are fewer. */
  lemma TopReadSize(posts: seq<Posts.Post>)
    ensures |TopRead(posts)| <= 3
    ensures |TopRead(posts)| == if |posts| < 3 then |posts| else 3
  {
  }

  /** The Top Read list is ordered by views, most read first. */
  lemma TopReadOrdered(posts: seq<Posts.Post>)
    ensures SortedByViews(TopRead(posts))
  {
    var sorted := SortByViews(posts);
    var top := TopRead(posts);
    forall i, j | 0 <= i < j < |top| ensures Posts.Views(top[i]) >= Posts.Views(top[j]) {
      assert top[i] == sorted[i] && top[j] == sorted[j];
    }
  }

  /** Every Top Read post is one of the fetched posts, with no post repeated beyond its occurrences. */
  lemma TopReadFromPosts(posts: seq<Posts.Post>)
    ensures multiset(TopRead(posts)) <= multiset(posts)
  {
    var sorted := SortByViews(posts);
    var top := TopRead(posts);
    assert top == sorted[..|top|];
    assert sorted == top + sorted[|top|..];
    assert multiset(sorted) == multiset(top) + multiset(sorted[|top|..]);
  }

  /** In a list sorted by views, nothing after position `k` outranks anything before it. */
  lemma SortedSplitDominates(sorted: seq<Posts.Post>, k: nat)
    requires SortedByViews(sorted) && k <= |sorted|
    ensures forall x, y :: x in multiset(sorted[k..]) && y in sorted[..k] ==> Posts.Views(x) <= Posts.Views(y)
  {
    forall x, y | x in multiset(sorted[k..]) && y in sorted[..k]
      ensures Posts.Views(x) <= Posts.Views(y)
    {
      assert x in sorted[k..];
      var j :| 0 <= j < |sorted[k..]| && sorted[k..][j] == x;
      var i :| 0 <= i < k && sorted[..k][i] == y;
      assert sorted[k + j] == x && sorted[i] == y;
    }
  }

  /** No post left out of Top Read has more views than a post in it. */
  lemma TopReadIsTop(posts: seq<Posts.Post>)
    ensures forall x, y :: x in multiset(posts) - multiset(TopRead(posts)) && y in TopRead(posts) ==>
              Posts.Views(x) <= Posts.Views(y)
  {
    var sorted := SortByViews(posts);
    var top := TopRead(posts);
    var k := |top|;
    assert top == sorted[..k];
    assert sorted == sorted[..k] + sorted[k..];
    assert multiset(posts) - multiset(top) == multiset(sorted[k..]);
    SortedSplitDominates(sorted, k);
  }

  /** `posts.some(p => (p.view_count || 0) > 0)`. */
  predicate SomeViewed(posts: seq<Posts.Post>) {
    exists i | 0 <= i < |posts| :: Posts.Views(posts[i]) > 0
  }

  /** The Top Read section condition of line 79. */
  predicate ShowTopRead(posts: seq<Posts.Post>) {
    |TopRead(posts)| > 0 && SomeViewed(posts)
  }

  /** The section is shown exactly when its first post has been read at least once. */
  lemma ShowTopReadIffLeaderViewed(posts: seq<Posts.Post>)
    ensures ShowTopRead(posts) <==> |TopRead(posts)| > 0 && Posts.Views(TopRead(posts)[0]) > 0
  {
    var sorted := SortByViews(posts);
    if |posts| > 0 {
      assert TopRead(posts)[0] == sorted[0];
      if SomeViewed(posts) {
        var i :| 0 <= i < |posts| && Posts.Views(posts[i]) > 0;
        assert posts[i] in multiset(sorted);
        var j :| 0 <= j < |sorted| && sorted[j] == posts[i];
        assert j == 0 || Posts.Views(sorted[0]) >= Posts.Views(sorted[j]);
      }
      if Posts.Views(sorted[0]) > 0 {
        assert sorted[0] in multiset(posts);
        var i :| 0 <= i < |posts| && posts[i] == sorted[0];
        assert Posts.Views(posts[i]) > 0;
      }
    }
  }

  /** The answer of the published-posts query. */
  datatype FetchResult =
    | Fetched(data: Option<seq<Posts.Post>>)
    | FetchError(code: string, message: string)

  /** The page the server renders. */
  datatype HomeView =
    | SetupRequired                      // "Database Setup Required"
    | LoadFailed(message: string)        // "Failed to load posts. Error: ..."
    | NoPosts                            // "No posts published yet."
    | Feed(latest: seq<Posts.Post>, topRead: seq<Posts.Post>, showTopRead: bool)

  /** `Home()`: error first, then the empty case, then the two sections. */
  function HomePage(result: FetchResult): (r: HomeView)
    ensures result.FetchError? ==>
              r == if result.code == "PGRST205" then SetupRequired else LoadFailed(result.message)
    ensures r.NoPosts? <==> result.Fetched? && (result.data.None? || result.data.value == [])
    ensures r.Feed? ==> result.Fetched? && result.data.Some? && r.latest == result.data.value
    ensures r.Feed? ==> 1 <= |r.topRead| <= 3 && SortedByViews(r.topRead)
    ensures r.Feed? ==> multiset(r.topRead) <= multiset(r.latest)
    ensures r.Feed? ==> (r.showTopRead <==> Posts.Views(r.topRead[0]) > 0)
    ensures r.Feed? ==> r.topRead == TopRead(r.latest) && r.showTopRead == ShowTopRead(r.latest)
  {
    match result
    case FetchError(code, message) =>
      if code == "PGRST205" then SetupRequired else LoadFailed(message)
    case Fetched(data) =>
      if data.None? || |data.value| == 0 then NoPosts
      else
        var posts := data.value;
        TopReadSize(posts);
        TopReadOrdered(posts);
        TopReadFromPosts(posts);
        ShowTopReadIffLeaderViewed(posts);
        Feed(posts, TopRead(posts), ShowTopRead(posts))
  }
}
