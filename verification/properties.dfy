/** Properties of whole runs of commands: the registry invariant, what a
    command may change, one vote per user per poll, closing, and the tally. */
module Properties {
  import opened Wrappers
  import opened Text
  import opened Decimal
  import opened Registry
  import opened Commands

  /** `q` is a later version of poll `p`: only the closed flag may change,
      and only from open to closed. */
  predicate Keeps(p: Poll, q: Poll)
  {
    && q.question == p.question
    && q.options == p.options
    && q.author == p.author
    && (p.closed ==> q.closed)
  }

  /** `t` is a later version of state `s`: vote rows are only appended,
      polls are never removed and keep their contents, and the rows of a
      closed poll no longer change. */
  predicate Evolves(s: State, t: State)
  {
    && s.votes <= t.votes
    && (forall id :: id in s.polls ==> id in t.polls && Keeps(s.polls[id], t.polls[id]))
    && (forall id :: id in s.polls && s.polls[id].closed ==> PollVotes(t.votes, id) == PollVotes(s.votes, id))
  }

  lemma PollVotesAppend(votes: seq<VoteRecord>, rec: VoteRecord, id: string)
    ensures PollVotes(votes + [rec], id) == PollVotes(votes, id) + (if rec.pollId == id then [rec.option] else [])
  {
    assert (votes + [rec])[..|votes|] == votes;
  }

  lemma EmptyValid()
    ensures Valid(Empty)
  {
  }

  lemma CreatePreservesValid(s: State, arg: string, user: string, id: string)
    requires Valid(s)
    ensures Valid(HandleCreate(s, arg, user, id).0)
  {
    var (t, o) := HandleCreate(s, arg, user, id);
    if '|' in arg && id !in s.polls {
      OccurrencesPositive(arg, '|');
      assert t.polls == s.polls[id := Poll(o.question, o.options, user, false)];
      forall i | 0 <= i < |t.votes| ensures Recorded(t.polls, t.votes[i]) {
        assert Recorded(s.polls, s.votes[i]);
      }
    }
  }

  lemma VotePreservesValid(s: State, arg: string, user: string)
    requires Valid(s)
    ensures Valid(HandleVote(s, arg, user).0)
  {
    var (t, o) := HandleVote(s, arg, user);
    if o.Voted? {
      var rec :| FreshVote(s, rec, user) && t == State(s.polls, s.votes + [rec]);
      forall i, j | 0 <= i < j < |t.votes|
        ensures !(t.votes[i].pollId == t.votes[j].pollId && t.votes[i].user == t.votes[j].user)
      {
        if j == |s.votes| {
          assert t.votes[j] == rec;
          assert t.votes[i] == s.votes[i];
        }
      }
    }
  }

  lemma ClosePreservesValid(s: State, pollId: string, user: string)
    requires Valid(s)
    ensures Valid(ClosePoll(s, pollId, user).0)
  {
    var t := ClosePoll(s, pollId, user).0;
    forall i | 0 <= i < |t.votes| ensures Recorded(t.polls, t.votes[i]) {
      assert Recorded(s.polls, s.votes[i]);
    }
  }

  /** Every command keeps the registry invariant. */
  lemma StepPreservesValid(s: State, c: Command)
    requires Valid(s)
    ensures Valid(Step(s, c).0)
  {
    if HasPrefix(c.text, CreatePrefix) {
      CreatePreservesValid(s, c.text[|CreatePrefix|..], c.user, c.freshId);
    } else if HasPrefix(c.text, VotePrefix) {
      VotePreservesValid(s, c.text[|VotePrefix|..], c.user);
    } else if !HasPrefix(c.text, ResultsPrefix) && HasPrefix(c.text, ClosePrefix) {
      ClosePreservesValid(s, c.text[|ClosePrefix|..], c.user);
    }
  }

  /** What one command may change. */
  lemma StepEvolves(s: State, c: Command)
    requires Valid(s)
    ensures Evolves(s, Step(s, c).0)
  {
    var (t, o) := Step(s, c);
    if HasPrefix(c.text, CreatePrefix) {
    } else if HasPrefix(c.text, VotePrefix) && o.Voted? {
      var rec :| FreshVote(s, rec, c.user) && t == State(s.polls, s.votes + [rec]);
      forall id | id in s.polls && s.polls[id].closed
        ensures PollVotes(t.votes, id) == PollVotes(s.votes, id)
      {
        PollVotesAppend(s.votes, rec, id);
      }
    }
  }

  lemma {:induction false} RunPreservesValid(s: State, cmds: seq<Command>)
    requires Valid(s)
    ensures Valid(Run(s, cmds))
    decreases |cmds|
  {
    if |cmds| > 0 {
      StepPreservesValid(s, cmds[0]);
      RunPreservesValid(Step(s, cmds[0]).0, cmds[1..]);
    }
  }

  /** Every run of commands only extends the state. */
  lemma {:induction false} RunEvolves(s: State, cmds: seq<Command>)
    requires Valid(s)
    ensures Evolves(s, Run(s, cmds))
    decreases |cmds|
  {
    if |cmds| > 0 {
      var s1 := Step(s, cmds[0]).0;
      StepEvolves(s, cmds[0]);
      StepPreservesValid(s, cmds[0]);
      RunEvolves(s1, cmds[1..]);
    }
  }

  /** A vote, once recorded, stays recorded with the same option, whatever
      commands follow: it is never overwritten and never duplicated. */
  lemma VoteNeverOverwritten(s: State, cmds: seq<Command>, pollId: string, user: string, k: int)
    requires Valid(s)
    requires VoteOf(s.votes, pollId, user) == Some(k)
    ensures VoteOf(Run(s, cmds).votes, pollId, user) == Some(k)
  {
    var t := Run(s, cmds);
    RunEvolves(s, cmds);
    RunPreservesValid(s, cmds);
    var i :| 0 <= i < |s.votes| && s.votes[i] == VoteRecord(pollId, user, k);
    assert t.votes[i] == s.votes[i];
    var r := VoteOf(t.votes, pollId, user);
    var j :| 0 <= j < |t.votes| && t.votes[j] == VoteRecord(pollId, user, r.value);
    assert i == j;
  }

  /** After `user` has voted in a poll, no later `vote` of theirs in that
      poll succeeds or changes anything, whatever happened in between. */
  lemma NoSecondVote(s: State, req: VoteRequest, user: string, cmds: seq<Command>, arg: string)
    requires Valid(s) && req.option >= 1
    requires CastVote(s, req, user).1.Voted?
    requires ParseVote(arg).Success? && ParseVote(arg).value.pollId == req.pollId
    ensures var t := Run(CastVote(s, req, user).0, cmds);
      && HandleVote(t, arg, user).0 == t
      && HandleVote(t, arg, user).1 in {VotingFinished, NoSuchOption, AlreadyVoted}
  {
    var s1 := CastVote(s, req, user).0;
    assert VoteOf(s1.votes, req.pollId, user) == Some(req.option) by {
      assert s1.votes[|s1.votes| - 1] == VoteRecord(req.pollId, user, req.option);
    }
    assert Valid(s1) by {
      forall i, j | 0 <= i < j < |s1.votes|
        ensures !(s1.votes[i].pollId == s1.votes[j].pollId && s1.votes[i].user == s1.votes[j].user)
      {
        if j == |s.votes| {
          assert s1.votes[i] == s.votes[i];
        }
      }
      forall i | 0 <= i < |s1.votes| ensures Recorded(s1.polls, s1.votes[i]) {
        if i < |s.votes| {
          assert s1.votes[i] == s.votes[i];
        }
      }
    }
    VoteNeverOverwritten(s1, cmds, req.pollId, user, req.option);
    RunEvolves(s1, cmds);
  }

  /** The checks of `vote` in their order, the first failing one deciding
      the answer: field count, number, unknown poll, closed poll, option
      bound, earlier vote. No rejection changes the state. */
  lemma VotePrecedence(s: State, arg: string, user: string)
    ensures var (t, o) := HandleVote(s, arg, user);
      var fs := Fields(arg);
      && (!o.Voted? ==> t == s)
      && (|fs| != 2 ==> o == VoteFormatError)
      && (|fs| == 2 && (ParseInt(fs[1]).None? || ParseInt(fs[1]).value < 1) ==> o == BadNumber)
      && (|fs| == 2 && ParseInt(fs[1]).Some? && ParseInt(fs[1]).value >= 1 ==>
            var id := fs[0];
            var n := ParseInt(fs[1]).value;
            && (id !in s.polls ==> o == NotFound(id))
            && (id in s.polls && s.polls[id].closed ==> o == VotingFinished)
            && (id in s.polls && !s.polls[id].closed && n > |s.polls[id].options| ==> o == NoSuchOption)
            && ((id in s.polls && !s.polls[id].closed && n <= |s.polls[id].options| &&
                 VoteOf(s.votes, id, user).Some?) ==> o == AlreadyVoted)
            && ((id in s.polls && !s.polls[id].closed && n <= |s.polls[id].options| &&
                 VoteOf(s.votes, id, user).None?) ==>
                   && o == Voted(user, s.polls[id].options[n - 1], s.polls[id].question)
                   && t == State(s.polls, s.votes + [VoteRecord(id, user, n)])))
  {
  }

  /** The option bound is checked before the earlier vote: a user who has
      voted and names a missing option is told the option does not exist. */
  lemma MissingOptionBeforeAlreadyVoted(s: State, req: VoteRequest, user: string)
    requires req.option >= 1
    requires req.pollId in s.polls && !s.polls[req.pollId].closed
    requires VoteOf(s.votes, req.pollId, user).Some?
    ensures CastVote(s, req, user).1 == (if req.option > |s.polls[req.pollId].options| then NoSuchOption else AlreadyVoted)
  {
  }

  /** Closing is final: a closed poll stays closed and its rows stay as they
      are, whatever commands follow. */
  lemma ClosedStaysClosed(s: State, cmds: seq<Command>, pollId: string)
    requires Valid(s)
    requires pollId in s.polls && s.polls[pollId].closed
    ensures var t := Run(s, cmds);
      pollId in t.polls && t.polls[pollId].closed && PollVotes(t.votes, pollId) == PollVotes(s.votes, pollId)
  {
    RunEvolves(s, cmds);
  }

  /** After the author closes a poll, any later vote in it reports that the
      voting is over and a second close reports that it is already closed. */
  lemma AfterClose(s: State, pollId: string, author: string, cmds: seq<Command>, req: VoteRequest, user: string)
    requires Valid(s)
    requires ClosePoll(s, pollId, author).1.PollClosed?
    requires req.pollId == pollId && req.option >= 1
    ensures var t := Run(ClosePoll(s, pollId, author).0, cmds);
      && CastVote(t, req, user) == (t, VotingFinished)
      && ClosePoll(t, pollId, author) == (t, AlreadyClosed)
  {
    var s1 := ClosePoll(s, pollId, author).0;
    ClosePreservesValid(s, pollId, author);
    ClosedStaysClosed(s1, cmds, pollId);
  }

  // ---------------------------------------------------------------- tally

  lemma {:induction false} PollVotesInRange(votes: seq<VoteRecord>, id: string, n: nat)
    requires forall i :: 0 <= i < |votes| && votes[i].pollId == id ==> 1 <= votes[i].option <= n
    ensures InRange(PollVotes(votes, id), n) == |PollVotes(votes, id)|
  {
    if |votes| > 0 {
      var prefix := votes[..|votes| - 1];
      var rest := PollVotes(votes, id);
      PollVotesInRange(prefix, id, n);
      var last := votes[|votes| - 1];
      if last.pollId == id {
        assert 1 <= votes[|votes| - 1].option <= n;
        assert rest == PollVotes(prefix, id) + [last.option];
        assert rest[..|rest| - 1] == PollVotes(prefix, id);
        assert rest[|rest| - 1] == last.option;
        assert InRange(rest, n) == InRange(PollVotes(prefix, id), n) + 1;
      } else {
        assert rest == PollVotes(prefix, id) + [];
        assert rest == PollVotes(prefix, id);
        assert InRange(PollVotes(prefix, id), n) == |PollVotes(prefix, id)|;
      }
    }
  }

  lemma {:induction false} VotersCount(votes: seq<VoteRecord>, id: string)
    requires UniqueKeys(votes)
    ensures |Voters(votes, id)| == |PollVotes(votes, id)|
  {
    if |votes| > 0 {
      var prefix := votes[..|votes| - 1];
      var last := votes[|votes| - 1];
      VotersCount(prefix, id);
      if last.pollId == id {
        assert Voters(votes, id) == Voters(prefix, id) + {last.user};
        assert last.user !in Voters(prefix, id);
      } else {
        assert Voters(votes, id) == Voters(prefix, id);
      }
    }
  }

  /** The reported counts add up to the poll's in-range rows, and in a
      reachable state to the number of distinct users who voted in it. */
  lemma ResultsSum(s: State, id: string)
    requires id in s.polls
    ensures Sum(GetResults(s, id).counts) == InRange(PollVotes(s.votes, id), |s.polls[id].options|)
    ensures Valid(s) ==> Sum(GetResults(s, id).counts) == |Voters(s.votes, id)|
  {
    var n := |s.polls[id].options|;
    TallySum(n, PollVotes(s.votes, id));
    if Valid(s) {
      forall i | 0 <= i < |s.votes| && s.votes[i].pollId == id ensures 1 <= s.votes[i].option <= n {
        assert Recorded(s.polls, s.votes[i]);
      }
      PollVotesInRange(s.votes, id, n);
      VotersCount(s.votes, id);
    }
  }

  lemma {:induction false} PollVotesNone(votes: seq<VoteRecord>, id: string)
    requires forall i :: 0 <= i < |votes| ==> votes[i].pollId != id
    ensures PollVotes(votes, id) == []
  {
    if |votes| > 0 {
      PollVotesNone(votes[..|votes| - 1], id);
    }
  }

  /** A created poll is open, belongs to its creator, has no votes yet, and
      every other poll and every vote row is left alone. */
  lemma NewPoll(s: State, arg: string, user: string, id: string)
    requires Valid(s)
    requires '|' in arg && id !in s.polls
    ensures var (t, o) := HandleCreate(s, arg, user, id);
      && id in t.polls
      && t.polls[id] == Poll(o.question, o.options, user, false)
      && PollVotes(t.votes, id) == []
      && t.votes == s.votes
      && forall other :: other in s.polls ==> other in t.polls && t.polls[other] == s.polls[other]
  {
    forall i | 0 <= i < |s.votes| ensures s.votes[i].pollId != id {
      assert Recorded(s.polls, s.votes[i]);
    }
    PollVotesNone(s.votes, id);
  }
}
