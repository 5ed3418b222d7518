/**
 * The admin posts table (src/components/admin/AdminPostsTable.tsx): the
 * case-insensitive search filter and the selection used by the bulk actions.
 * The bulk `delete` and `update` calls are the `succeeded` parameters.
 */
module PostsTable {
  import Seqs
  import Ascii
  import Posts
  import Wrappers

  // ---------------------------------------------------------------------------
  // Search
  // ---------------------------------------------------------------------------

  /** Some tag of the post includes the (lower-cased) query. */
  predicate TagMatches(tags: seq<string>, q: string) {
    exists i | 0 <= i < |tags| :: Ascii.Contains(Ascii.Lower(tags[i]), q)
  }

  /**
   * The filter of lines 25-33: the lower-cased query is included in the title,
   * the slug, a non-empty excerpt or one of the tags, all lower-cased.
   */
  predicate Matches(p: Posts.Post, query: string) {
    var q := Ascii.Lower(query);
    || Ascii.Contains(Ascii.Lower(p.title), q)
    || Ascii.Contains(Ascii.Lower(p.slug), q)
    || (p.excerpt != "" && Ascii.Contains(Ascii.Lower(p.excerpt), q))
    || (p.tags.Some? && TagMatches(p.tags.value, q))
  }

  /** `filteredPosts`: the matching posts, in their original order. */
  function FilterPosts(posts: seq<Posts.Post>, query: string): (r: seq<Posts.Post>)
    ensures Seqs.IsSubsequence(r, posts)
    ensures forall p :: p in r <==> p in posts && Matches(p, query)
    ensures forall p :: multiset(r)[p] == if Matches(p, query) then multiset(posts)[p] else 0
  {
    Seqs.Filter(posts, (p: Posts.Post) => Matches(p, query))
  }

  /** An empty search box shows every post. */
  lemma EmptyQueryKeepsAll(posts: seq<Posts.Post>)
    ensures FilterPosts(posts, "") == posts
  {
    forall i | 0 <= i < |posts| ensures Matches(posts[i], "") {
      Ascii.ContainsEmpty(Ascii.Lower(posts[i].title));
    }
    Seqs.FilterKeepsAll(posts, (p: Posts.Post) => Matches(p, ""));
  }

  /** Lower-casing twice is lower-casing once. */
  lemma LowerIdempotent(s: string)
    ensures Ascii.Lower(Ascii.Lower(s)) == Ascii.Lower(s)
  {
  }

  /** The search ignores the case of the query. */
  lemma SearchIgnoresQueryCase(p: Posts.Post, query: string)
    ensures Matches(p, query) <==> Matches(p, Ascii.Lower(query))
  {
    LowerIdempotent(query);
  }

  // ---------------------------------------------------------------------------
  // Selection
  // ---------------------------------------------------------------------------

  /** `toggleOne`: `id` leaves the selection if it was in it, joins it otherwise. */
  function Toggle(selected: set<string>, id: string): (r: set<string>)
    ensures id in r <==> id !in selected
    ensures forall x :: x != id ==> (x in r <==> x in selected)
  {
    if id in selected then selected - {id} else selected + {id}
  }

  /** Toggling the same id twice restores the selection. */
  lemma ToggleTwice(selected: set<string>, id: string)
    ensures Toggle(Toggle(selected, id), id) == selected
  {
  }

  /** `new Set(filteredPosts.map(p => p.id))`. */
  function IdsOf(posts: seq<Posts.Post>): set<string> {
    if posts == [] then {} else {posts[0].id} + IdsOf(posts[1..])
  }

  /** The ids of the shown posts, and nothing else. */
  lemma {:induction false} IdsOfMembers(posts: seq<Posts.Post>)
    ensures forall x :: x in IdsOf(posts) <==> exists i :: 0 <= i < |posts| && posts[i].id == x
  {
    if posts != [] {
      var tail := posts[1..];
      IdsOfMembers(tail);
      forall x ensures x in IdsOf(posts) <==> exists i :: 0 <= i < |posts| && posts[i].id == x {
        if x in IdsOf(tail) {
          var j :| 0 <= j < |tail| && tail[j].id == x;
          assert posts[j + 1].id == x;
        }
        if exists i :: 0 <= i < |posts| && posts[i].id == x {
          var i :| 0 <= i < |posts| && posts[i].id == x;
          if i > 0 {
            assert tail[i - 1].id == x;
          }
        }
      }
    }
  }

  /** `isAllSelected`: compares the sizes only. */
  predicate AllSelected(selected: set<string>, filtered: seq<Posts.Post>) {
    |filtered| > 0 && |selected| == |filtered|
  }

  /** `toggleAll`: clears a selection that looks complete, otherwise selects exactly the filtered ids. */
  function ToggleAll(selected: set<string>, filtered: seq<Posts.Post>): (r: set<string>)
    ensures AllSelected(selected, filtered) ==> r == {}
    ensures !AllSelected(selected, filtered) ==>
              forall x :: x in r <==> exists i :: 0 <= i < |filtered| && filtered[i].id == x
  {
    IdsOfMembers(filtered);
    if |selected| == |filtered| && |filtered| > 0 then {} else IdsOf(filtered)
  }

  /** The size test can report a full selection that misses a visible post. */
  lemma AllSelectedIgnoresMembership()
    ensures var p := Posts.Post("a", "A", "a", "", "", true, "", Wrappers.None, Wrappers.None, Wrappers.None);
            AllSelected({"b"}, [p]) && "a" !in {"b"}
  {
  }

  /** No two posts share an id. */
  predicate DistinctIds(posts: seq<Posts.Post>) {
    forall i, j :: 0 <= i < j < |posts| ==> posts[i].id != posts[j].id
  }

  /** With distinct ids there are as many ids as posts. */
  lemma {:induction false} IdsOfDistinct(posts: seq<Posts.Post>)
    requires DistinctIds(posts)
    ensures |IdsOf(posts)| == |posts|
  {
    if posts != [] {
      var tail := posts[1..];
      IdsOfDistinct(tail);
      IdsOfMembers(tail);
      forall j | 0 <= j < |tail| ensures tail[j].id != posts[0].id {
        assert tail[j] == posts[j + 1];
      }
      assert posts[0].id !in IdsOf(tail);
    }
  }

  /** With distinct ids, "select all" makes the header box checked, and a second click clears. */
  lemma ToggleAllThenClear(selected: set<string>, filtered: seq<Posts.Post>)
    requires DistinctIds(filtered) && |filtered| > 0
    requires !AllSelected(selected, filtered)
    ensures AllSelected(ToggleAll(selected, filtered), filtered)
    ensures ToggleAll(ToggleAll(selected, filtered), filtered) == {}
  {
    IdsOfDistinct(filtered);
  }

  class AdminPostsTable {
    const initialPosts: seq<Posts.Post>
    var selectedIds: set<string>
    var loading: bool
    var searchQuery: string

    constructor (initialPosts: seq<Posts.Post>)
      ensures this.initialPosts == initialPosts
      ensures selectedIds == {} && !loading && searchQuery == ""
    {
      this.initialPosts := initialPosts;
      selectedIds := {};
      loading := false;
      searchQuery := "";
    }

    /** The rows currently shown. */
    function Filtered(): seq<Posts.Post>
      reads this
    {
      FilterPosts(initialPosts, searchQuery)
    }

    /** The header check box. */
    predicate IsAllSelected()
      reads this
    {
      AllSelected(selectedIds, Filtered())
    }

    /** Typing in the search box; the selection is kept. */
    method SetSearchQuery(query: string)
      modifies this`searchQuery
      ensures searchQuery == query
    {
      searchQuery := query;
    }

    method ToggleOne(id: string)
      modifies this`selectedIds
      ensures selectedIds == Toggle(old(selectedIds), id)
    {
      var newSelected := selectedIds;
      if id in newSelected {
        newSelected := newSelected - {id};
      } else {
        newSelected := newSelected + {id};
      }
      selectedIds := newSelected;
    }

    method ToggleAllRows()
      modifies this`selectedIds
      ensures selectedIds == ToggleAll(old(selectedIds), Filtered())
    {
      var rows := Filtered();
      if |selectedIds| == |rows| && |rows| > 0 {
        selectedIds := {};
      } else {
        selectedIds := IdsOf(rows);
      }
    }

    /** `handleBulkDelete`: after confirmation, deletes the selected ids; clears the selection on success. */
    method BulkDelete(confirmed: bool, succeeded: bool) returns (request: Wrappers.Option<set<string>>)
      modifies this`selectedIds, this`loading
      ensures !confirmed ==> request == Wrappers.None && selectedIds == old(selectedIds) && loading == old(loading)
      ensures confirmed ==> request == Wrappers.Some(old(selectedIds)) && !loading
      ensures confirmed ==> selectedIds == if succeeded then {} else old(selectedIds)
    {
      if !confirmed {
        return Wrappers.None;
      }
      loading := true;
      request := Wrappers.Some(selectedIds);
      if succeeded {
        selectedIds := {};
      }
      loading := false;
    }

    /** `handleBulkStatusChange`: sets `published` on the selected ids; clears the selection on success. */
    method BulkStatusChange(published: bool, succeeded: bool) returns (request: set<string>, status: bool)
      modifies this`selectedIds, this`loading
      ensures request == old(selectedIds) && status == published && !loading
      ensures selectedIds == if succeeded then {} else old(selectedIds)
    {
      loading := true;
      request, status := selectedIds, published;
      if succeeded {
        selectedIds := {};
      }
      loading := false;
    }
  }
}
