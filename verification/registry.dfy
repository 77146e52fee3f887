/** The poll registry of the bot: the `polls` and `poll_votes` spaces as an
    immutable state, and the four command handlers as pure transitions from
    a state and the command's argument text to a new state and an outcome. */
module Registry {
  import opened Wrappers
  import opened Text
  import opened Decimal

  /** A row of the `polls` space. The poll's ID is its key in `State.polls`;
      the Go struct's `Votes` map is never filled, so it has no counterpart. */
  datatype Poll = Poll(question: string, options: seq<string>, author: string, closed: bool)

  /** A row of the `poll_votes` space: (poll_id, user, option_num). */
  datatype VoteRecord = VoteRecord(pollId: string, user: string, option: int)

  /** The two spaces. Vote rows are kept in insertion order. */
  datatype State = State(polls: map<string, Poll>, votes: seq<VoteRecord>)

  /** A parsed `vote` argument. */
  datatype VoteRequest = VoteRequest(pollId: string, option: int)

  /** What a command answers, in place of the reply text. */
  datatype Outcome =
    | UnknownCommand
    | CreateFormatError
    | Created(id: string, question: string, options: seq<string>)
    | VoteFormatError
    | BadNumber
    | NotFound(id: string)
    | VotingFinished
    | NoSuchOption
    | AlreadyVoted
    | Voted(user: string, option: string, question: string)
    | AlreadyClosed
    | NotAuthor
    | PollClosed(question: string)
    | Results(question: string, options: seq<string>, counts: seq<nat>)

  const Empty: State := State(map[], [])

  // ------------------------------------------------------------ invariant

  /** The primary key (poll_id, user) of `poll_votes`: no two rows share it. */
  predicate UniqueKeys(votes: seq<VoteRecord>)
  {
    forall i, j :: 0 <= i < j < |votes| ==> !(votes[i].pollId == votes[j].pollId && votes[i].user == votes[j].user)
  }

  /** A vote row names an existing poll and one of its options. */
  predicate Recorded(polls: map<string, Poll>, r: VoteRecord)
  {
    r.pollId in polls && 1 <= r.option <= |polls[r.pollId].options|
  }

  /** What every reachable state satisfies. */
  predicate Valid(s: State)
  {
    && UniqueKeys(s.votes)
    && (forall id :: id in s.polls ==> |s.polls[id].options| >= 1)
    && (forall i :: 0 <= i < |s.votes| ==> Recorded(s.polls, s.votes[i]))
  }

  // -------------------------------------------------------------- lookups

  /** `CheckVote`: the option `user` chose in poll `pollId`, if they voted. */
  function VoteOf(votes: seq<VoteRecord>, pollId: string, user: string): (r: Option<int>)
    ensures r.None? <==> forall i :: 0 <= i < |votes| ==> !(votes[i].pollId == pollId && votes[i].user == user)
    ensures r.Some? ==> exists i :: 0 <= i < |votes| && votes[i] == VoteRecord(pollId, user, r.value)
  {
    if |votes| == 0 then None
    else
      var last := votes[|votes| - 1];
      if last.pollId == pollId && last.user == user then Some(last.option)
      else
        var r := VoteOf(votes[..|votes| - 1], pollId, user);
        assert forall i :: 0 <= i < |votes| - 1 ==> votes[..|votes| - 1][i] == votes[i];
        r
  }

  /** The positions of the rows of poll `pollId` that name option `k`. */
  function RowsNaming(votes: seq<VoteRecord>, pollId: string, k: int): set<nat>
  {
    set i: nat | i < |votes| && votes[i].pollId == pollId && votes[i].option == k
  }

  /** Adding a row adds its index to the rows naming its option, and to
      no other. */
  lemma RowsNamingLast(votes: seq<VoteRecord>, pollId: string, k: int)
    requires |votes| > 0
    ensures var last := votes[|votes| - 1];
      |RowsNaming(votes, pollId, k)| ==
      |RowsNaming(votes[..|votes| - 1], pollId, k)| + (if last.pollId == pollId && last.option == k then 1 else 0)
  {
    var n := |votes| - 1;
    var prefix := votes[..n];
    var before := RowsNaming(prefix, pollId, k);
    var after := RowsNaming(votes, pollId, k);
    assert forall i :: 0 <= i < n ==> prefix[i] == votes[i];
    if votes[n].pollId == pollId && votes[n].option == k {
      assert after == before + {n};
      assert n !in before;
    } else {
      assert after == before;
    }
  }

  /** The `poll_id` index select of `handleResults`: the option numbers of
      the rows of poll `pollId`, in insertion order. Each number occurs as
      often as there are rows of the poll naming it. */
  function PollVotes(votes: seq<VoteRecord>, pollId: string): (options: seq<int>)
    ensures |options| <= |votes|
    ensures forall k :: multiset(options)[k] == |RowsNaming(votes, pollId, k)|
  {
    if |votes| == 0 then
      assert forall k :: RowsNaming(votes, pollId, k) == {};
      []
    else
      var prefix := votes[..|votes| - 1];
      var last := votes[|votes| - 1];
      var options := PollVotes(prefix, pollId) + (if last.pollId == pollId then [last.option] else []);
      assert forall k :: multiset(options)[k] == |RowsNaming(votes, pollId, k)| by {
        forall k ensures multiset(options)[k] == |RowsNaming(votes, pollId, k)| {
          RowsNamingLast(votes, pollId, k);
        }
      }
      options
  }

  /** The users who have a row for poll `pollId`. */
  function Voters(votes: seq<VoteRecord>, pollId: string): set<string>
  {
    set i | 0 <= i < |votes| && votes[i].pollId == pollId :: votes[i].user
  }

  // ---------------------------------------------------------------- tally

  /** One loop step of the tally: count option `k` when it is in range. */
  function Bump(counts: seq<nat>, k: int): seq<nat>
  {
    if 1 <= k <= |counts| then counts[k - 1 := counts[k - 1] + 1] else counts
  }

  /** The tally loop of `handleResults`: `n` counters, the i-th holding how
      many of `options` equal i + 1; out-of-range numbers are ignored. */
  function Tally(n: nat, options: seq<int>): (counts: seq<nat>)
    ensures |counts| == n
    ensures forall i :: 0 <= i < n ==> counts[i] == multiset(options)[i + 1]
  {
    if |options| == 0 then seq(n, _ => 0)
    else
      var prefix := options[..|options| - 1];
      assert options == prefix + [options[|options| - 1]];
      Bump(Tally(n, prefix), options[|options| - 1])
  }

  function Sum(xs: seq<nat>): nat
  {
    if |xs| == 0 then 0 else xs[0] + Sum(xs[1..])
  }

  /** How many of `options` lie in [1, n]. */
  function InRange(options: seq<int>, n: nat): nat
  {
    if |options| == 0 then 0
    else InRange(options[..|options| - 1], n) + (if 1 <= options[|options| - 1] <= n then 1 else 0)
  }

  lemma {:induction false} SumZeros(n: nat)
    ensures Sum(seq(n, _ => 0)) == 0
  {
    if n > 0 {
      assert seq(n, _ => 0)[1..] == seq(n - 1, _ => 0);
      SumZeros(n - 1);
    }
  }

  lemma {:induction false} SumIncrement(xs: seq<nat>, k: nat)
    requires k < |xs|
    ensures Sum(xs[k := xs[k] + 1]) == Sum(xs) + 1
  {
    if k > 0 {
      assert xs[k := xs[k] + 1][1..] == xs[1..][k - 1 := xs[1..][k - 1] + 1];
      SumIncrement(xs[1..], k - 1);
    } else {
      assert xs[k := xs[k] + 1][1..] == xs[1..];
    }
  }

  /** The counters add up to the number of in-range option numbers. */
  lemma {:induction false} TallySum(n: nat, options: seq<int>)
    ensures Sum(Tally(n, options)) == InRange(options, n)
  {
    if |options| == 0 {
      SumZeros(n);
    } else {
      var prefix := options[..|options| - 1];
      var k := options[|options| - 1];
      TallySum(n, prefix);
      if 1 <= k <= n {
        SumIncrement(Tally(n, prefix), k - 1);
      }
    }
  }

  // --------------------------------------------------------------- create

  /** The argument of `create`: split at `|`, the trimmed first piece is the
      question and the trimmed other pieces are the options; the new poll is
      open and belongs to `user`. Nothing checks for empty texts. */
  function ParseCreate(arg: string, user: string): (r: Option<Poll>)
    ensures r.None? <==> '|' !in arg
    ensures r.Some? ==> r.value.author == user && !r.value.closed
    ensures r.Some? ==> |r.value.options| == Occurrences(arg, '|')
    ensures r.Some? ==> exists k :: 0 <= k < |arg| && arg[k] == '|' && '|' !in arg[..k] && r.value.question == TrimSpace(arg[..k])
  {
    var parts := Split(arg, '|');
    OccurrencesPositive(arg, '|');
    if |parts| < 2 then None
    else
      SplitFirst(arg, '|');
      var options := seq(|parts| - 1, i requires 0 <= i < |parts| - 1 => TrimSpace(parts[i + 1]));
      Some(Poll(TrimSpace(parts[0]), options, user, false))
  }

  /** The converse view of ParseCreate: for any decomposition of the
      argument into `|`-free pieces, the question is the first piece trimmed
      and the options are the other pieces trimmed, in their order. */
  lemma CreatePieces(pieces: seq<string>, user: string)
    requires |pieces| >= 2
    requires forall i :: 0 <= i < |pieces| ==> '|' !in pieces[i]
    ensures var r := ParseCreate(Join(pieces, '|'), user);
      && r.Some?
      && r.value.question == TrimSpace(pieces[0])
      && |r.value.options| == |pieces| - 1
      && forall i :: 0 <= i < |pieces| - 1 ==> r.value.options[i] == TrimSpace(pieces[i + 1])
  {
    var arg := Join(pieces, '|');
    SplitJoin(pieces, '|');
    assert Split(arg, '|') == pieces;
    OccurrencesPositive(arg, '|');
    var r := ParseCreate(arg, user);
    assert r.Some?;
    assert r.value.question == TrimSpace(pieces[0]);
  }

  /** `handleCreatePoll` with `id` standing for the time-based ID. When `id`
      is already taken the insert fails, which is only logged: the state
      stays as it was and the reply still announces the poll. */
  function HandleCreate(s: State, arg: string, user: string, id: string): (r: (State, Outcome))
    ensures '|' !in arg ==> r == (s, CreateFormatError)
    ensures '|' in arg ==> r.1.Created? && r.1.id == id && |r.1.options| == Occurrences(arg, '|')
    ensures r.1.Created? && id !in s.polls ==> r.0 == State(s.polls[id := Poll(r.1.question, r.1.options, user, false)], s.votes)
    ensures id in s.polls ==> r.0 == s
    ensures '|' in arg ==>
      && r.1.question == ParseCreate(arg, user).value.question
      && r.1.options == ParseCreate(arg, user).value.options
  {
    match ParseCreate(arg, user)
    case None => (s, CreateFormatError)
    case Some(poll) =>
      var s' := if id in s.polls then s else s.(polls := s.polls[id := poll]);
      (s', Created(id, poll.question, poll.options))
  }

  // ----------------------------------------------------------------- vote

  /** The argument of `vote`: exactly two white-space-separated fields, the
      second a decimal integer of at least 1. */
  function ParseVote(arg: string): (r: Result<VoteRequest, Outcome>)
    ensures r.Failure? ==> (r.error == VoteFormatError <==> |Fields(arg)| != 2)
    ensures r.Failure? ==> r.error in {VoteFormatError, BadNumber}
    ensures r.Success? ==> 1 <= r.value.option <= MaxInt64
    ensures r.Success? ==> |r.value.pollId| > 0 && NoSpace(r.value.pollId)
    ensures r.Success? ==> |Fields(arg)| == 2 && Fields(arg)[0] == r.value.pollId && ParseInt(Fields(arg)[1]) == Some(r.value.option)
    ensures |Fields(arg)| == 2 && ParseInt(Fields(arg)[1]).Some? && ParseInt(Fields(arg)[1]).value >= 1 ==>
      r == Success(VoteRequest(Fields(arg)[0], ParseInt(Fields(arg)[1]).value))
  {
    var parts := Fields(arg);
    if |parts| != 2 then Failure(VoteFormatError)
    else
      match ParseInt(parts[1])
      case None => Failure(BadNumber)
      case Some(n) => if n < 1 then Failure(BadNumber) else Success(VoteRequest(parts[0], n))
  }

  /** A well-formed argument, a poll ID and a positive number in decimal,
      is read back as exactly that request. */
  lemma ParseVoteRoundTrip(pollId: string, n: int)
    requires |pollId| > 0 && NoSpace(pollId)
    requires 1 <= n <= MaxInt64
    ensures ParseVote(pollId + " " + FormatInt(n)) == Success(VoteRequest(pollId, n))
  {
    var digits := FormatInt(n);
    assert NoSpace(digits) by {
      forall i | 0 <= i < |digits| ensures !IsSpace(digits[i]) {
        assert IsDigit(digits[i]);
      }
    }
    FieldsJoin([pollId, digits]);
    assert Join([pollId, digits], ' ') == pollId + " " + digits;
    ParseFormat(n);
  }

  /** The registry part of `handleVote`: the poll must exist, be open, have
      the option and not yet hold a vote of `user`; then exactly one row is
      added. The option bound is checked before the earlier vote. */
  function CastVote(s: State, req: VoteRequest, user: string): (r: (State, Outcome))
    requires req.option >= 1
    ensures r.1.Voted? <==>
      && req.pollId in s.polls
      && !s.polls[req.pollId].closed
      && req.option <= |s.polls[req.pollId].options|
      && VoteOf(s.votes, req.pollId, user).None?
    ensures r.1.Voted? ==>
      var p := s.polls[req.pollId];
      && r.0 == State(s.polls, s.votes + [VoteRecord(req.pollId, user, req.option)])
      && r.1 == Voted(user, p.options[req.option - 1], p.question)
    ensures !r.1.Voted? ==> r.0 == s
    ensures r.1 in {NotFound(req.pollId), VotingFinished, NoSuchOption, AlreadyVoted} || r.1.Voted?
  {
    if req.pollId !in s.polls then (s, NotFound(req.pollId))
    else
      var p := s.polls[req.pollId];
      if p.closed then (s, VotingFinished)
      else if req.option > |p.options| then (s, NoSuchOption)
      else if VoteOf(s.votes, req.pollId, user).Some? then (s, AlreadyVoted)
      else
        (State(s.polls, s.votes + [VoteRecord(req.pollId, user, req.option)]),
         Voted(user, p.options[req.option - 1], p.question))
  }

  /** `handleVote`. */
  function HandleVote(s: State, arg: string, user: string): (r: (State, Outcome))
    ensures !r.1.Voted? ==> r.0 == s
    ensures r.1.Voted? ==> exists rec :: FreshVote(s, rec, user) && r.0 == State(s.polls, s.votes + [rec])
    ensures ParseVote(arg).Failure? ==> r == (s, ParseVote(arg).error)
    ensures ParseVote(arg).Success? ==> r == CastVote(s, ParseVote(arg).value, user)
  {
    match ParseVote(arg)
    case Failure(e) => (s, e)
    case Success(req) =>
      var r := CastVote(s, req, user);
      assert r.1.Voted? ==> FreshVote(s, VoteRecord(req.pollId, user, req.option), user);
      r
  }

  /** A row `user` may add: their own, for an open poll and one of its
      options, with no earlier row of theirs for that poll. */
  predicate FreshVote(s: State, rec: VoteRecord, user: string)
  {
    && rec.user == user
    && Recorded(s.polls, rec)
    && !s.polls[rec.pollId].closed
    && VoteOf(s.votes, rec.pollId, user).None?
  }

  // ---------------------------------------------------------------- close

  /** `handleClose`: only the author closes an open poll, and closing touches
      nothing but that poll's flag. */
  function ClosePoll(s: State, pollId: string, user: string): (r: (State, Outcome))
    ensures pollId !in s.polls ==> r == (s, NotFound(pollId))
    ensures r.1.PollClosed? <==> pollId in s.polls && !s.polls[pollId].closed && s.polls[pollId].author == user
    ensures pollId in s.polls && s.polls[pollId].closed ==> r.1 == AlreadyClosed
    ensures pollId in s.polls && !s.polls[pollId].closed && s.polls[pollId].author != user ==> r.1 == NotAuthor
    ensures r.1.PollClosed? ==>
      && r.0 == State(s.polls[pollId := s.polls[pollId].(closed := true)], s.votes)
      && r.1.question == s.polls[pollId].question
    ensures !r.1.PollClosed? ==> r.0 == s
  {
    if pollId !in s.polls then (s, NotFound(pollId))
    else
      var p := s.polls[pollId];
      if p.closed then (s, AlreadyClosed)
      else if p.author != user then (s, NotAuthor)
      else (s.(polls := s.polls[pollId := p.(closed := true)]), PollClosed(p.question))
  }

  // -------------------------------------------------------------- results

  /** `handleResults`: the question, the options in creation order and, for
      each option, the number of the poll's rows naming it. Open and closed
      polls alike. */
  function GetResults(s: State, pollId: string): (o: Outcome)
    ensures pollId !in s.polls ==> o == NotFound(pollId)
    ensures pollId in s.polls ==>
      && o.Results?
      && o.question == s.polls[pollId].question
      && o.options == s.polls[pollId].options
      && |o.counts| == |o.options|
      && (forall i :: 0 <= i < |o.counts| ==> o.counts[i] == multiset(PollVotes(s.votes, pollId))[i + 1])
      && (forall i :: 0 <= i < |o.counts| ==> o.counts[i] == |RowsNaming(s.votes, pollId, i + 1)|)
  {
    if pollId !in s.polls then NotFound(pollId)
    else
      var p := s.polls[pollId];
      Results(p.question, p.options, Tally(|p.options|, PollVotes(s.votes, pollId)))
  }
}
