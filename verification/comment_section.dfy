/**
 * The public comment thread of a post (src/components/blog/CommentSection.tsx):
 * splitting the flat list into roots and nested replies, posting a comment or a
 * reply with its one-shot fallback insert, deleting a comment with its direct
 * replies, and the id-to-secret ledger that lets an author delete later.
 *
 * The backend calls are the parameters of the handlers: the response of each
 * insert, of the `delete_comment` procedure and of the confirmation dialog.
 */
module Comments {
  import opened Wrappers
  import Seqs
  import Ascii
  import Identity

  /** A comment as held in the component's list. */
  datatype Comment = Comment(
    id: string,
    name: string,
    comment: string,
    createdAt: string,
    parentId: Option<string>,
    userId: Option<string>,
    avatarUrl: Option<string>,
    isAdmin: bool)

  // ---------------------------------------------------------------------------
  // Thread structure (pure)
  // ---------------------------------------------------------------------------

  /** `!c.parent_id`: the parent is null or the empty string. */
  predicate IsRoot(c: Comment) {
    c.parentId == None || c.parentId == Some("")
  }

  /** `c.parent_id === id`. */
  predicate IsReplyTo(c: Comment, id: string) {
    c.parentId == Some(id)
  }

  /** `comments.filter(c => !c.parent_id)`: the top-level comments, in list order. */
  function Roots(cs: seq<Comment>): (r: seq<Comment>)
    ensures Seqs.IsSubsequence(r, cs)
    ensures forall c :: c in r <==> c in cs && IsRoot(c)
    ensures forall c :: multiset(r)[c] == if IsRoot(c) then multiset(cs)[c] else 0
  {
    Seqs.Filter(cs, IsRoot)
  }

  /** `allComments.filter(c => c.parent_id === comment.id)`: the replies drawn under `p`, in list order. */
  function Replies(cs: seq<Comment>, p: Comment): (r: seq<Comment>)
    ensures Seqs.IsSubsequence(r, cs)
    ensures forall c :: c in r <==> c in cs && IsReplyTo(c, p.id)
    ensures forall c :: multiset(r)[c] == if IsReplyTo(c, p.id) then multiset(cs)[c] else 0
  {
    Seqs.Filter(cs, c => IsReplyTo(c, p.id))
  }

  /**
   * `c` is drawn at nesting depth `depth`: the thread maps the roots at depth 0
   * and, under every drawn comment, its replies one level deeper.
   */
  ghost predicate RenderedAt(cs: seq<Comment>, c: Comment, depth: nat)
    decreases depth
  {
    if depth == 0 then c in Roots(cs)
    else exists p :: p in cs && RenderedAt(cs, p, depth - 1) && c in Replies(cs, p)
  }

  /** Some comment of the list carries the id `id`. */
  predicate HasId(cs: seq<Comment>, id: string) {
    exists i :: 0 <= i < |cs| && cs[i].id == id
  }

  /** A drawn comment is in the list, and is either a root or the reply of a comment of the list. */
  lemma RenderedHasParent(cs: seq<Comment>, c: Comment, depth: nat)
    requires RenderedAt(cs, c, depth)
    ensures c in cs
    ensures IsRoot(c) || (c.parentId.Some? && HasId(cs, c.parentId.value))
  {
    if depth > 0 {
      var p :| p in cs && RenderedAt(cs, p, depth - 1) && c in Replies(cs, p);
      var i :| 0 <= i < |cs| && cs[i] == p;
      assert cs[i].id == c.parentId.value;
    }
  }

  /** A comment whose parent id matches no comment of the list is drawn nowhere. */
  lemma OrphanIsNeverRendered(cs: seq<Comment>, c: Comment)
    requires c.parentId.Some? && c.parentId.value != ""
    requires !HasId(cs, c.parentId.value)
    ensures forall depth: nat :: !RenderedAt(cs, c, depth)
  {
    forall depth: nat ensures !RenderedAt(cs, c, depth) {
      if RenderedAt(cs, c, depth) {
        RenderedHasParent(cs, c, depth);
      }
    }
  }

  /** Replies nest to any depth: a reply to a drawn comment is drawn one level deeper. */
  lemma ReplyOfRenderedIsRendered(cs: seq<Comment>, p: Comment, c: Comment, depth: nat)
    requires p in cs && RenderedAt(cs, p, depth)
    requires c in cs && IsReplyTo(c, p.id)
    ensures RenderedAt(cs, c, depth + 1)
  {
    assert c in Replies(cs, p);
  }

  /** `getInitials`: the first letter of each of the first two space-separated words, upper-cased. */
  function Initials(name: string): (r: string)
    ensures |r| <= 2
    ensures forall i :: 0 <= i < |r| ==> !Ascii.IsLower(r[i])
    ensures name != [] && name[0] != ' ' ==> |r| >= 1 && r[0] == Ascii.UpperChar(name[0])
  {
    var pieces := Ascii.Split(name, ' ');
    var firsts := seq(|pieces|, i requires 0 <= i < |pieces| => FirstChar(pieces[i]));
    var two := Seqs.Take(firsts, 2);
    var joined := Ascii.Join(two, "");
    JoinIsShort(two);
    if name != [] && name[0] != ' ' then
      FirstPieceStartsLikeString(name, ' ');
      JoinStartsWith(two, name[0]);
      Ascii.Upper(joined)
    else
      Ascii.Upper(joined)
  }

  /** A join with "" starts with the first character of its first piece. */
  lemma JoinStartsWith(ps: seq<string>, ch: char)
    requires |ps| >= 1 && ps[0] == [ch]
    ensures |Ascii.Join(ps, "")| >= 1 && Ascii.Join(ps, "")[0] == ch
  {
    if |ps| > 1 {
      assert Ascii.Join(ps, "") == ps[0] + "" + Ascii.Join(ps[1..], "");
    }
  }

  /** `n => n[0]`: the first character, `undefined` (joined as nothing) for an empty word. */
  function FirstChar(piece: string): (r: string)
    ensures |r| <= 1
    ensures piece != [] ==> r == [piece[0]]
  {
    if piece == [] then [] else [piece[0]]
  }

  /** Joining at most two strings of at most one character with "" gives at most two. */
  lemma JoinIsShort(ps: seq<string>)
    requires |ps| <= 2
    requires forall i :: 0 <= i < |ps| ==> |ps[i]| <= 1
    ensures |Ascii.Join(ps, "")| <= 2
  {
    if |ps| == 2 {
      assert Ascii.Join(ps, "") == ps[0] + "" + Ascii.Join(ps[1..], "");
    }
  }

  /** The first piece of a split starts with the first character when that is not the separator. */
  lemma FirstPieceStartsLikeString(s: string, d: char)
    requires s != [] && s[0] != d
    ensures Ascii.Split(s, d)[0] != [] && Ascii.Split(s, d)[0][0] == s[0]
  {
  }

  /**
   * A name whose first two words are `first` and `last` (a single space
   * between them, and a space or nothing after `last`) gives the two
   * upper-cased first letters; later words are ignored.
   */
  lemma InitialsOfFirstTwoWords(first: string, last: string, tail: string)
    requires first != [] && last != []
    requires ' ' !in first && ' ' !in last
    requires tail == [] || tail[0] == ' '
    ensures Initials(first + " " + last + tail) == [Ascii.UpperChar(first[0]), Ascii.UpperChar(last[0])]
  {
    Seqs.AppendAssoc(first + " ", last, tail);
    Ascii.SplitPrefix(first, ' ', last + tail);
    var rest := Ascii.Split(last + tail, ' ');
    assert rest[0] == last by {
      if tail == [] {
        assert last + tail == last;
        Ascii.SplitNoSeparator(last, ' ');
      } else {
        assert tail == " " + tail[1..];
        Seqs.AppendAssoc(last, " ", tail[1..]);
        Ascii.SplitPrefix(last, ' ', tail[1..]);
      }
    }
    InitialsOfPieces(first + " " + last + tail);
  }

  /** A one-word name gives its upper-cased first letter alone. */
  lemma InitialsOfOneWord(w: string)
    requires w != [] && ' ' !in w
    ensures Initials(w) == [Ascii.UpperChar(w[0])]
  {
    Ascii.SplitNoSeparator(w, ' ');
  }

  /** An empty name, as an anonymous visitor's form starts, gives no initials. */
  lemma InitialsOfEmptyName()
    ensures Initials("") == ""
  {
    Ascii.SplitNoSeparator("", ' ');
  }

  /** The initials are the upper-cased first letters of the first two pieces. */
  lemma InitialsOfPieces(name: string)
    requires |Ascii.Split(name, ' ')| >= 2
    requires Ascii.Split(name, ' ')[0] != [] && Ascii.Split(name, ' ')[1] != []
    ensures Initials(name) == [Ascii.UpperChar(Ascii.Split(name, ' ')[0][0]), Ascii.UpperChar(Ascii.Split(name, ' ')[1][0])]
  {
    var pieces := Ascii.Split(name, ' ');
    var two := [[pieces[0][0]], [pieces[1][0]]];
    assert Ascii.Join(two, "") == [pieces[0][0]] + "" + Ascii.Join(two[1..], "");
  }

  // ---------------------------------------------------------------------------
  // Local state updates after a backend answer (pure)
  // ---------------------------------------------------------------------------

  /** `comments.filter(c => c.id !== id && c.parent_id !== id)`: one level of cascade. */
  function RemoveWithReplies(cs: seq<Comment>, id: string): (r: seq<Comment>)
    ensures Seqs.IsSubsequence(r, cs)
    ensures forall c :: c in r <==> c in cs && c.id != id && !IsReplyTo(c, id)
    ensures forall c: Comment :: c.id != id && !IsReplyTo(c, id) ==> multiset(r)[c] == multiset(cs)[c]
  {
    Seqs.Filter(cs, SurvivesDelete(id))
  }

  /** The test a comment passes to stay after `id` is deleted. */
  function SurvivesDelete(id: string): Comment -> bool {
    (c: Comment) => c.id != id && !IsReplyTo(c, id)
  }

  /** `myComments[id]` is truthy: the ledger holds a non-empty secret for the id. */
  predicate HoldsSecret(ledger: map<string, string>, id: string) {
    id in ledger && ledger[id] != ""
  }

  /** The ledger after a successful delete: the entry goes only if it was truthy. */
  function ForgetSecret(ledger: map<string, string>, id: string): (r: map<string, string>)
    ensures HoldsSecret(ledger, id) ==> r.Keys == ledger.Keys - {id}
    ensures !HoldsSecret(ledger, id) ==> r == ledger
    ensures forall k :: k in r ==> k in ledger && r[k] == ledger[k]
    ensures !HoldsSecret(r, id)
  {
    if HoldsSecret(ledger, id) then ledger - {id} else ledger
  }

  /**
   * Line 364: the delete control of comment `c` is drawn for the administrator,
   * for the holder of its secret and for the account that wrote it.
   */
  predicate ShowsDelete(viewerIsAdmin: bool, ledger: map<string, string>, viewer: Option<Identity.Account>, c: Comment) {
    viewerIsAdmin || HoldsSecret(ledger, c.id) || (viewer.Some? && c.userId == Some(viewer.value.id))
  }

  /** A viewer who is none of the three sees no delete control. */
  lemma DeleteHiddenFromStrangers(ledger: map<string, string>, viewer: Option<Identity.Account>, c: Comment)
    requires !HoldsSecret(ledger, c.id)
    requires viewer.None? || c.userId != Some(viewer.value.id)
    ensures !ShowsDelete(false, ledger, viewer, c)
  {
  }

  /** `replyTo === id ? null : id`: clicking Reply opens the form, clicking again closes it. */
  function NextReplyTarget(replyTo: Option<string>, id: string): (r: Option<string>)
    ensures r == Some(id) <==> replyTo != Some(id)
    ensures r.Some? ==> r == Some(id)
  {
    if replyTo == Some(id) then None else Some(id)
  }

  /** Clicking Reply on the same comment twice restores the reply target. */
  lemma ReplyToggleTwice(replyTo: Option<string>, id: string)
    requires replyTo == None || replyTo == Some(id)
    ensures NextReplyTarget(NextReplyTarget(replyTo, id), id) == replyTo
  {
  }

  /** The worked example: a root "1", its reply "2", and the reply "3" to that reply. */
  const ExampleRoot := Comment("1", "A", "x", "t", None, None, None, false)
  const ExampleReply := Comment("2", "B", "y", "t", Some("1"), None, None, false)
  const ExampleNested := Comment("3", "C", "z", "t", Some("2"), None, None, false)

  /** Deleting the root removes it and its reply, and keeps the reply's reply. */
  lemma DeleteExampleKeepsNested()
    ensures RemoveWithReplies([ExampleRoot, ExampleReply, ExampleNested], "1") == [ExampleNested]
  {
    var keep := SurvivesDelete("1");
    var cs := [ExampleRoot, ExampleReply, ExampleNested];
    assert cs[1..] == [ExampleReply, ExampleNested] && cs[1..][1..] == [ExampleNested];
    assert [ExampleNested][1..] == [];
    assert Seqs.Filter([ExampleNested], keep) == [ExampleNested];
    assert Seqs.Filter(cs[1..], keep) == [ExampleNested];
  }

  /** ... and the kept reply's reply is no longer drawn anywhere: it is orphaned. */
  lemma DeleteExampleOrphansNested()
    ensures forall depth: nat :: !RenderedAt([ExampleNested], ExampleNested, depth)
  {
    assert !HasId([ExampleNested], "2");
    OrphanIsNeverRendered([ExampleNested], ExampleNested);
  }

  // ---------------------------------------------------------------------------
  // The controller
  // ---------------------------------------------------------------------------

  /** How the optional `avatar_url` column is sent in an insert. */
  datatype AvatarField = Sent(url: Option<string>) | Omitted

  /** One `comments` insert request. */
  datatype InsertRequest = InsertRequest(
    postId: string,
    parentId: Option<string>,
    userId: string,
    name: string,
    email: string,
    comment: string,
    avatar: AvatarField,
    approved: bool,
    userSecret: string)

  /** The answer to an insert: the new row's id and timestamp, or an error. */
  datatype InsertResponse = Inserted(id: string, createdAt: string) | InsertFailed

  /** One call of the `delete_comment` procedure. */
  datatype DeleteRequest = DeleteRequest(commentId: string, secretKey: Option<string>)

  /** The banner above the thread. */
  datatype Message = Posted | PostFailed

  class CommentSection {
    const postId: string
    var comments: seq<Comment>
    var user: Option<Identity.Account>
    var isAdmin: bool
    var replyTo: Option<string>
    var name: string
    var email: string
    var body: string
    var isSubmitting: bool
    var message: Option<Message>
    /** `my_comments`: comment id to the secret generated when it was posted. */
    var myComments: map<string, string>

    constructor (postId: string, initialComments: seq<Comment>)
      ensures this.postId == postId && comments == initialComments
      ensures user == None && !isAdmin && replyTo == None
      ensures name == "" && email == "" && body == ""
      ensures !isSubmitting && message == None && myComments == map[]
    {
      this.postId := postId;
      comments := initialComments;
      user := None;
      isAdmin := false;
      replyTo := None;
      name := "";
      email := "";
      body := "";
      isSubmitting := false;
      message := None;
      myComments := map[];
    }

    /**
     * The mount effect: takes the session user (pre-filling name and email,
     * deciding the admin flag by the exact address test) and the stored ledger.
     */
    method Load(session: Option<Identity.Account>, storedLedger: Option<map<string, string>>)
      modifies this`user, this`isAdmin, this`name, this`email, this`myComments
      ensures user == session
      ensures session.Some? ==> isAdmin == Identity.IsAdminEmail(session.value.email)
      ensures session.None? ==> isAdmin == old(isAdmin) && name == old(name) && email == old(email)
      ensures session.Some? && isAdmin ==> name == Identity.AdminName
      ensures session.Some? && !isAdmin && Identity.Truthy(session.value.fullName) ==> name == session.value.fullName.value
      ensures session.Some? && !isAdmin && !Identity.Truthy(session.value.fullName) ==> name == old(name)
      ensures email == if session.Some? && Identity.Truthy(session.value.email) then session.value.email.value else old(email)
      ensures myComments == if storedLedger.Some? then storedLedger.value else old(myComments)
    {
      user := session;
      if session.Some? {
        var u := session.value;
        isAdmin := Identity.IsAdminEmail(u.email);
        if isAdmin {
          name := Identity.AdminName;
        } else if Identity.Truthy(u.fullName) {
          name := u.fullName.value;
        }
        if Identity.Truthy(u.email) {
          email := u.email.value;
        }
      }
      if storedLedger.Some? {
        myComments := storedLedger.value;
      }
    }

    /** The comment appended after the insert answered `id`/`createdAt`. */
    function NewComment(u: Identity.Account, parentId: Option<string>, id: string, createdAt: string): Comment
      reads this
    {
      Comment(id, name, body, createdAt, parentId, Some(u.id), u.avatarUrl, isAdmin)
    }

    /** The insert request; `avatar` says whether the avatar column is sent. */
    function Request(u: Identity.Account, parentId: Option<string>, secret: string, avatar: AvatarField): InsertRequest
      reads this
    {
      InsertRequest(postId, parentId, u.id, name, email, body, avatar, true, secret)
    }

    /**
     * `handleSubmit`: without a user nothing happens. Otherwise insert with the
     * avatar; only if that fails, insert once more without it. On success the
     * new comment is appended, its secret recorded and the form cleared; on
     * failure only the error banner changes.
     */
    method HandleSubmit(parentId: Option<string>, secret: string, first: InsertResponse, retry: InsertResponse)
      returns (requests: seq<InsertRequest>)
      modifies this`isSubmitting, this`message, this`comments, this`myComments, this`body, this`replyTo
      ensures old(user).None? ==> requests == [] && unchanged(this)
      ensures old(user).Some? ==>
        var u := old(user).value;
        var answer := if first.Inserted? then first else retry;
        && !isSubmitting
        && |requests| == (if first.InsertFailed? then 2 else 1)
        && requests[0] == old(Request(u, parentId, secret, Sent(u.avatarUrl)))
        && (first.InsertFailed? ==> requests[1] == old(Request(u, parentId, secret, Omitted)))
        && (answer.Inserted? ==>
              && comments == old(comments) + [old(NewComment(u, parentId, answer.id, answer.createdAt))]
              && myComments == old(myComments)[answer.id := secret]
              && message == Some(Posted) && body == "" && replyTo == None)
        && (answer.InsertFailed? ==>
              && comments == old(comments) && myComments == old(myComments)
              && message == Some(PostFailed) && body == old(body) && replyTo == old(replyTo))
    {
      if user.None? {
        return [];
      }
      var u := user.value;
      isSubmitting := true;
      message := None;

      var firstRequest := Request(u, parentId, secret, Sent(u.avatarUrl));
      requests := [firstRequest];
      var answer := first;
      if answer.InsertFailed? {
        var retryRequest := Request(u, parentId, secret, Omitted);
        requests := requests + [retryRequest];
        answer := retry;
      }

      if answer.InsertFailed? {
        message := Some(PostFailed);
      } else {
        var added := NewComment(u, parentId, answer.id, answer.createdAt);
        comments := comments + [added];
        myComments := myComments[answer.id := secret];
        message := Some(Posted);
        body := "";
        replyTo := None;
      }
      isSubmitting := false;
    }

    /**
     * `handleDelete`: after confirmation, call `delete_comment` with the secret
     * if the ledger holds one. On success drop the comment and its direct
     * replies and forget its secret; on failure change nothing.
     */
    method HandleDelete(commentId: string, confirmed: bool, succeeded: bool)
      returns (request: Option<DeleteRequest>)
      modifies this`comments, this`myComments
      ensures !confirmed ==> request == None && unchanged(this)
      ensures confirmed ==> request == Some(DeleteRequest(commentId,
                if HoldsSecret(old(myComments), commentId) then Some(old(myComments)[commentId]) else None))
      ensures confirmed && succeeded ==>
                comments == RemoveWithReplies(old(comments), commentId) &&
                myComments == ForgetSecret(old(myComments), commentId)
      ensures !(confirmed && succeeded) ==> comments == old(comments) && myComments == old(myComments)
    {
      if !confirmed {
        return None;
      }
      var secret := if HoldsSecret(myComments, commentId) then Some(myComments[commentId]) else None;
      request := Some(DeleteRequest(commentId, secret));
      if succeeded {
        comments := RemoveWithReplies(comments, commentId);
        myComments := ForgetSecret(myComments, commentId);
      }
    }

    /** The Reply button: sends a visitor to the login page, otherwise toggles the reply form. */
    method ToggleReply(commentId: string) returns (redirectToLogin: bool)
      modifies this`replyTo
      ensures redirectToLogin <==> user.None?
      ensures replyTo == if user.None? then old(replyTo) else NextReplyTarget(old(replyTo), commentId)
    {
      redirectToLogin := user.None?;
      if !redirectToLogin {
        replyTo := NextReplyTarget(replyTo, commentId);
      }
    }

    /** The Cancel button of a reply form. */
    method CancelReply()
      modifies this`replyTo
      ensures replyTo == None
    {
      replyTo := None;
    }

    /** Whether the delete control of `c` is drawn for the current viewer. */
    predicate CanDelete(c: Comment)
      reads this
    {
      ShowsDelete(isAdmin, myComments, user, c)
    }
  }

  /** After a successful submit the author sees the delete control of the new comment. */
  lemma SubmitterSeesDelete(viewerIsAdmin: bool, ledger: map<string, string>, u: Identity.Account,
                            c: Comment, secret: string)
    requires secret != "" || c.userId == Some(u.id)
    ensures ShowsDelete(viewerIsAdmin, ledger[c.id := secret], Some(u), c)
  {
  }

  /** A successful delete leaves no trace of the comment or its direct replies, and keeps deeper replies. */
  lemma DeleteKeepsDeeperReplies(cs: seq<Comment>, id: string, c: Comment)
    requires c in cs && c.id != id && c.parentId.Some? && c.parentId.value != id
    ensures c in RemoveWithReplies(cs, id)
    ensures forall x :: x in RemoveWithReplies(cs, id) ==> x.id != id && x.parentId != Some(id)
  {
  }
}
