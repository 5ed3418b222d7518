/**
 * The admin moderation table (src/components/admin/CommentList.tsx): approve or
 * unapprove one comment, delete one comment (no cascade), and the status labels.
 * The `update` and `delete` calls are the `succeeded` parameters.
 */
module Moderation {
  import Seqs

  /** A row of the moderation table. */
  datatype ModeratedComment = ModeratedComment(
    id: string,
    postId: string,
    name: string,
    email: string,
    comment: string,
    approved: bool,
    createdAt: string)

  /** `comments.map(c => c.id === id ? { ...c, approved: status } : c)`. */
  function WithApproval(cs: seq<ModeratedComment>, id: string, status: bool): (r: seq<ModeratedComment>)
    ensures |r| == |cs|
    ensures forall i :: 0 <= i < |cs| && cs[i].id != id ==> r[i] == cs[i]
    ensures forall i :: 0 <= i < |cs| && cs[i].id == id ==> r[i].approved == status
    ensures forall i :: 0 <= i < |cs| ==> r[i].(approved := cs[i].approved) == cs[i]
  {
    seq(|cs|, i requires 0 <= i < |cs| => if cs[i].id == id then cs[i].(approved := status) else cs[i])
  }

  /** `comments.filter(c => c.id !== id)`: only that id goes, replies stay. */
  function WithoutId(cs: seq<ModeratedComment>, id: string): (r: seq<ModeratedComment>)
    ensures Seqs.IsSubsequence(r, cs)
    ensures forall c :: c in r <==> c in cs && c.id != id
    ensures forall c: ModeratedComment :: c.id != id ==> multiset(r)[c] == multiset(cs)[c]
  {
    Seqs.Filter(cs, (c: ModeratedComment) => c.id != id)
  }

  /** Every row with that id currently has approval `status`. */
  predicate ApprovalIs(cs: seq<ModeratedComment>, id: string, status: bool) {
    forall i :: 0 <= i < |cs| && cs[i].id == id ==> cs[i].approved == status
  }

  /** Clicking the action button twice on the same row restores the list. */
  lemma {:induction false} ApproveTwiceRestores(cs: seq<ModeratedComment>, id: string, status: bool)
    requires ApprovalIs(cs, id, status)
    ensures WithApproval(WithApproval(cs, id, !status), id, status) == cs
  {
    var once := WithApproval(cs, id, !status);
    var twice := WithApproval(once, id, status);
    forall i | 0 <= i < |cs| ensures twice[i] == cs[i] {
      if cs[i].id == id {
        assert once[i] == cs[i].(approved := !status);
        assert twice[i] == cs[i].(approved := status);
      }
    }
  }

  /** The status badge: "Approved" or "Pending". */
  function StatusLabel(approved: bool): (r: string)
    ensures r == "Approved" <==> approved
    ensures r == "Pending" <==> !approved
  {
    if approved then "Approved" else "Pending"
  }

  /** The action button names the status the click will set. */
  function ActionLabel(approved: bool): (r: string)
    ensures r == "Approve" <==> StatusLabel(!approved) == "Approved"
    ensures r == "Unapprove" <==> StatusLabel(!approved) == "Pending"
  {
    if approved then "Unapprove" else "Approve"
  }

  class CommentList {
    var comments: seq<ModeratedComment>

    constructor (initialComments: seq<ModeratedComment>)
      ensures comments == initialComments
    {
      comments := initialComments;
    }

    /** `handleApprove(id, currentStatus)`: sets `!currentStatus` on that id once the update succeeds. */
    method HandleApprove(id: string, currentStatus: bool, succeeded: bool) returns (newStatus: bool)
      modifies this`comments
      ensures newStatus == !currentStatus
      ensures comments == if succeeded then WithApproval(old(comments), id, newStatus) else old(comments)
    {
      newStatus := !currentStatus;
      if succeeded {
        comments := WithApproval(comments, id, newStatus);
      }
    }

    /** `handleDelete(id)`: after confirmation, drops that id once the delete succeeds. */
    method HandleDelete(id: string, confirmed: bool, succeeded: bool) returns (requested: bool)
      modifies this`comments
      ensures requested == confirmed
      ensures comments == if confirmed && succeeded then WithoutId(old(comments), id) else old(comments)
    {
      requested := confirmed;
      if confirmed && succeeded {
        comments := WithoutId(comments, id);
      }
    }
  }
}
