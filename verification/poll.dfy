/**
 * The in-post poll (src/components/blog/Poll.tsx): vote counts per option,
 * the rounded percentages and the one-vote-per-user flow. The `poll_votes`
 * insert is split in two steps, `HandleVote` (up to the `await`) and
 * `FinishVote` (after it), so that the `loading` guard is visible.
 */
module Polls {
  import opened Wrappers

  /** `votes[optionId] || 0`. */
  function Count(votes: map<string, nat>, optionId: string): nat {
    if optionId in votes then votes[optionId] else 0
  }

  /** `Object.values(votes).reduce((a, b) => a + b, 0)`; the order of summation does not matter. */
  ghost function TotalVotes(votes: map<string, nat>): nat
    decreases |votes|
  {
    if votes == map[] then 0
    else
      var k :| k in votes;
      votes[k] + TotalVotes(votes - {k})
  }

  /** Any option may be taken out first. */
  lemma TotalVotesRemove(votes: map<string, nat>, k: string)
    requires k in votes
    ensures TotalVotes(votes) == votes[k] + TotalVotes(votes - {k})
    decreases |votes|
  {
    var j :| j in votes && TotalVotes(votes) == votes[j] + TotalVotes(votes - {j});
    if j != k {
      TotalVotesRemove(votes - {j}, k);
      TotalVotesRemove(votes - {k}, j);
      assert votes - {j} - {k} == votes - {k} - {j};
    }
  }

  /** No option has more votes than the poll. */
  lemma CountAtMostTotal(votes: map<string, nat>, optionId: string)
    ensures Count(votes, optionId) <= TotalVotes(votes)
  {
    if optionId in votes {
      TotalVotesRemove(votes, optionId);
    }
  }

  /** `{ ...prev, [optionId]: (prev[optionId] || 0) + 1 }`. */
  function AddVote(votes: map<string, nat>, optionId: string): (r: map<string, nat>)
    ensures Count(r, optionId) == Count(votes, optionId) + 1
    ensures forall o :: o != optionId ==> Count(r, o) == Count(votes, o)
    ensures r.Keys == votes.Keys + {optionId}
  {
    votes[optionId := Count(votes, optionId) + 1]
  }

  /** A vote adds exactly one to the total. */
  lemma AddVoteTotal(votes: map<string, nat>, optionId: string)
    ensures TotalVotes(AddVote(votes, optionId)) == TotalVotes(votes) + 1
  {
    var r := AddVote(votes, optionId);
    TotalVotesRemove(r, optionId);
    if optionId in votes {
      TotalVotesRemove(votes, optionId);
      assert r - {optionId} == votes - {optionId};
    } else {
      assert r - {optionId} == votes;
    }
  }

  /**
   * `getPercentage`: 0 for an empty poll, otherwise `100 * count / total`
   * rounded to the nearest integer, halves upwards.
   */
  function Percentage(count: nat, total: nat): (r: int)
    ensures total == 0 ==> r == 0
    ensures total > 0 ==> 2 * total * r <= 200 * count + total < 2 * total * (r + 1)
  {
    if total == 0 then 0 else (200 * count + total) / (2 * total)
  }

  /** Multiplying by a non-negative factor keeps the order. */
  lemma MulMonotone(a: int, b: int, c: int)
    requires a >= 0 && b <= c
    ensures a * b <= a * c
  {
    assert a * c - a * b == a * (c - b);
  }

  /** A percentage lies between 0 and 100. */
  lemma PercentageBounded(count: nat, total: nat)
    requires count <= total
    ensures 0 <= Percentage(count, total) <= 100
  {
    if total > 0 {
      var r := Percentage(count, total);
      var t := 2 * total;
      assert t * r <= 200 * count + total < t * (r + 1);
      if r < 0 {
        MulMonotone(t, r + 1, 0);
        assert false;
      }
      if r > 100 {
        MulMonotone(t, 101, r);
        MulMonotone(200, count, total);
        assert false;
      }
    }
  }

  /** Every option's bar is between 0 and 100 per cent. */
  lemma OptionPercentageBounded(votes: map<string, nat>, optionId: string)
    ensures 0 <= Percentage(Count(votes, optionId), TotalVotes(votes)) <= 100
  {
    CountAtMostTotal(votes, optionId);
    PercentageBounded(Count(votes, optionId), TotalVotes(votes));
  }

  /** The `poll_votes` row inserted by a vote. */
  datatype VoteRequest = VoteRequest(pollId: string, userId: string, optionId: string)

  /** What a call of `handleVote` does before its `await`. */
  datatype VoteStart = RedirectToLogin | Ignored | Sent(request: VoteRequest)

  class Poll {
    const pollId: string
    const options: seq<string>
    const user: Option<string>       // the signed-in user's id
    var votes: map<string, nat>
    var userVote: Option<string>
    var loading: bool
    var pending: Option<string>      // the option of the insert in flight

    constructor (pollId: string, options: seq<string>, initialVotes: map<string, nat>,
                 initialUserVote: Option<string>, user: Option<string>)
      ensures this.pollId == pollId && this.options == options && this.user == user
      ensures votes == initialVotes && userVote == initialUserVote
      ensures !loading && pending == None
    {
      this.pollId := pollId;
      this.options := options;
      this.user := user;
      votes := initialVotes;
      userVote := initialUserVote;
      loading := false;
      pending := None;
    }

    /** A vote is in flight exactly while `loading` is set. */
    predicate Valid()
      reads this
    {
      loading <==> pending.Some?
    }

    /** `showResults = !!userVote`. */
    predicate ShowResults()
      reads this
    {
      userVote.Some? && userVote.value != ""
    }

    /** `disabled={showResults || loading}` on every option button. */
    predicate OptionsDisabled()
      reads this
    {
      ShowResults() || loading
    }

    /** `handleVote(optionId)` up to the insert: login first, then the `loading` guard. */
    method HandleVote(optionId: string) returns (outcome: VoteStart)
      requires Valid()
      modifies this`loading, this`pending
      ensures Valid()
      ensures user.None? ==> outcome == RedirectToLogin && unchanged(this)
      ensures user.Some? && old(loading) ==> outcome == Ignored && unchanged(this)
      ensures user.Some? && !old(loading) ==>
                outcome == Sent(VoteRequest(pollId, user.value, optionId)) && loading && pending == Some(optionId)
    {
      if user.None? {
        return RedirectToLogin;
      }
      if loading {
        return Ignored;
      }
      loading := true;
      pending := Some(optionId);
      outcome := Sent(VoteRequest(pollId, user.value, optionId));
    }

    /** `handleVote` after the insert: count the vote on success, clear `loading` either way. */
    method FinishVote(succeeded: bool)
      requires Valid()
      modifies this`votes, this`userVote, this`loading, this`pending
      ensures Valid() && !loading
      ensures old(pending).Some? && succeeded ==>
                userVote == old(pending) && votes == AddVote(old(votes), old(pending).value)
                && TotalVotes(votes) == TotalVotes(old(votes)) + 1
      ensures old(pending).None? || !succeeded ==> votes == old(votes) && userVote == old(userVote)
    {
      if pending.Some? {
        if succeeded {
          userVote := pending;
          AddVoteTotal(votes, pending.value);
          votes := AddVote(votes, pending.value);
        }
      }
      loading := false;
      pending := None;
    }

    /** The option button: a disabled button, or one with results shown, does nothing. */
    method Click(optionId: string) returns (outcome: VoteStart)
      requires Valid()
      modifies this`loading, this`pending
      ensures Valid()
      ensures old(OptionsDisabled()) ==> outcome == Ignored && unchanged(this)
      ensures !old(OptionsDisabled()) && user.Some? ==>
                outcome == Sent(VoteRequest(pollId, user.value, optionId)) && loading && pending == Some(optionId)
      ensures !old(OptionsDisabled()) && user.None? ==> outcome == RedirectToLogin && unchanged(this)
    {
      if OptionsDisabled() {
        return Ignored;
      }
      outcome := HandleVote(optionId);
    }
  }
}
