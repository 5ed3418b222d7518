/**
 * The bookmark toggle (src/components/blog/BookmarkButton.tsx): an optimistic
 * flip that is reverted when the remote call fails. `Click` runs
 * `toggleBookmark` up to its first `await`; `Finish` runs the rest, given the
 * user the session reported and whether the insert or delete succeeded.
 */
module Bookmarks {
  import opened Wrappers

  /** The remote call issued once the session user is known. */
  datatype BookmarkRequest =
    | Remove(userId: string, postId: string)   // delete ... eq('user_id').eq('post_id')
    | Add(userId: string, postId: string)      // insert { user_id, post_id }

  /** The request for the state before the click: a bookmarked post is removed, any other added. */
  function RequestFor(previousState: bool, userId: string, postId: string): (r: BookmarkRequest)
    ensures r.Remove? <==> previousState
    ensures r.userId == userId && r.postId == postId
  {
    if previousState then Remove(userId, postId) else Add(userId, postId)
  }

  /** The state after the call: the flip stands only if a user was found and the call succeeded. */
  function Settled(previousState: bool, sessionUser: Option<string>, succeeded: bool): (r: bool)
    ensures r != previousState <==> sessionUser.Some? && succeeded
  {
    if sessionUser.Some? && succeeded then !previousState else previousState
  }

  class BookmarkButton {
    const postId: string
    const isLoggedIn: bool
    var isBookmarked: bool
    var isLoading: bool
    var previousState: Option<bool>   // captured by the call in flight

    constructor (postId: string, initialIsBookmarked: bool, isLoggedIn: bool)
      ensures this.postId == postId && this.isLoggedIn == isLoggedIn
      ensures isBookmarked == initialIsBookmarked && !isLoading && previousState == None
    {
      this.postId := postId;
      this.isLoggedIn := isLoggedIn;
      isBookmarked := initialIsBookmarked;
      isLoading := false;
      previousState := None;
    }

    /** A call is in flight exactly while `isLoading` is set, and the shown state is its optimistic flip. */
    predicate Valid()
      reads this
    {
      (isLoading <==> previousState.Some?)
      && (previousState.Some? ==> isBookmarked == !previousState.value)
    }

    /** The first half of `toggleBookmark`: login check, `isLoading` guard, optimistic flip. */
    method Click() returns (redirectToLogin: bool)
      requires Valid()
      modifies this`isBookmarked, this`isLoading, this`previousState
      ensures Valid()
      ensures redirectToLogin <==> !isLoggedIn
      ensures !isLoggedIn || old(isLoading) ==> unchanged(this)
      ensures isLoggedIn && !old(isLoading) ==>
                isLoading && previousState == Some(old(isBookmarked)) && isBookmarked == !old(isBookmarked)
    {
      if !isLoggedIn {
        return true;
      }
      redirectToLogin := false;
      if isLoading {
        return;
      }
      isLoading := true;
      previousState := Some(isBookmarked);
      isBookmarked := !isBookmarked;
    }

    /** The second half: issue the call for the session user, revert on any failure, clear `isLoading`. */
    method Finish(sessionUser: Option<string>, succeeded: bool) returns (request: Option<BookmarkRequest>)
      requires Valid()
      modifies this`isBookmarked, this`isLoading, this`previousState
      ensures Valid() && !isLoading
      ensures old(previousState).None? ==> request == None && isBookmarked == old(isBookmarked)
      ensures old(previousState).Some? ==>
                && isBookmarked == Settled(old(previousState).value, sessionUser, succeeded)
                && request == if sessionUser.Some?
                              then Some(RequestFor(old(previousState).value, sessionUser.value, postId))
                              else None
    {
      request := None;
      if previousState.Some? {
        var prev := previousState.value;
        if sessionUser.Some? {
          request := Some(RequestFor(prev, sessionUser.value, postId));
        }
        if sessionUser.None? || !succeeded {
          isBookmarked := prev;
        }
      }
      isLoading := false;
      previousState := None;
    }
  }
}
