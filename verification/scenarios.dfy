/** A worked conversation with the bot: alice asks a question, bob votes
    and cannot vote twice, carol may not close alice's poll, dave still votes. */
module Scenarios {
  import opened Wrappers
  import opened Text
  import opened Decimal
  import opened Registry
  import opened Commands

  const Question: string := "Language?"
  const Options: seq<string> := ["Go", "Rust"]
  const Opened: State := State(map["poll-1" := Poll(Question, Options, "alice", false)], [])
  const AfterBob: State := State(Opened.polls, [VoteRecord("poll-1", "bob", 2)])

  const Pieces: seq<string> := ["Language? ", " Go ", " Rust"]

  lemma LanguagePieces()
    ensures Join(Pieces, '|') == "Language? | Go | Rust"
  {
    assert Join(Pieces[2..], '|') == " Rust";
    assert Join(Pieces[1..], '|') == " Go | Rust";
  }

  lemma TrimQuestion()
    ensures TrimSpace("Language? ") == Question
  {
    TrimSpacePadded("", Question, " ");
    assert "" + Question + " " == "Language? ";
  }

  lemma TrimGo()
    ensures TrimSpace(" Go ") == "Go"
  {
    TrimSpacePadded(" ", "Go", " ");
    assert " " + "Go" + " " == " Go ";
  }

  lemma TrimRust()
    ensures TrimSpace(" Rust") == "Rust"
  {
    TrimSpacePadded(" ", "Rust", "");
    assert " " + "Rust" + "" == " Rust";
  }

  lemma TrimmedLanguagePoll(poll: Poll)
    requires poll.question == TrimSpace("Language? ") && poll.author == "alice" && !poll.closed
    requires |poll.options| == 2 && poll.options[0] == TrimSpace(" Go ") && poll.options[1] == TrimSpace(" Rust")
    ensures poll == Poll(Question, Options, "alice", false)
  {
    TrimQuestion();
    TrimGo();
    TrimRust();
    assert poll.options == Options;
  }

  lemma ParseLanguagePoll()
    ensures ParseCreate(Join(Pieces, '|'), "alice") == Some(Poll(Question, Options, "alice", false))
  {
    CreatePieces(Pieces, "alice");
    var r := ParseCreate(Join(Pieces, '|'), "alice");
    assert Pieces[0] == "Language? " && Pieces[1] == " Go " && Pieces[2] == " Rust";
    TrimmedLanguagePoll(r.value);
  }

  lemma CreateLanguagePoll()
    ensures Step(Empty, Command("create Language? | Go | Rust", "alice", "poll-1"))
         == (Opened, Created("poll-1", Question, Options))
  {
    var text := "create Language? | Go | Rust";
    assert HasPrefix(text, CreatePrefix);
    assert text[|CreatePrefix|..] == "Language? | Go | Rust";
    LanguagePieces();
    ParseLanguagePoll();
  }

  lemma RoutesToVote(s: State, c: Command, arg: string)
    requires c.text == VotePrefix + arg
    ensures Step(s, c) == HandleVote(s, arg, c.user)
  {
    NotPrefix(c.text, CreatePrefix, 0);
    assert c.text[..|VotePrefix|] == VotePrefix;
  }

  lemma RoutesToResults(s: State, c: Command, arg: string)
    requires c.text == ResultsPrefix + arg
    ensures Step(s, c) == (s, GetResults(s, arg))
  {
    NotPrefix(c.text, CreatePrefix, 0);
    NotPrefix(c.text, VotePrefix, 0);
    assert c.text[..|ResultsPrefix|] == ResultsPrefix;
  }

  lemma RoutesToClose(s: State, c: Command, arg: string)
    requires c.text == ClosePrefix + arg
    ensures Step(s, c) == ClosePoll(s, arg, c.user)
  {
    NotPrefix(c.text, CreatePrefix, 1);
    NotPrefix(c.text, VotePrefix, 0);
    NotPrefix(c.text, ResultsPrefix, 0);
    assert c.text[..|ClosePrefix|] == ClosePrefix;
  }

  /** A vote command made of a white-space-free poll ID and a positive
      number in decimal reaches CastVote with exactly that request. */
  lemma RoutesToCastVote(s: State, c: Command, pollId: string, n: int)
    requires |pollId| > 0 && NoSpace(pollId) && 1 <= n <= MaxInt64
    requires c.text == VotePrefix + (pollId + " " + FormatInt(n))
    ensures Step(s, c) == CastVote(s, VoteRequest(pollId, n), c.user)
  {
    RoutesToVote(s, c, pollId + " " + FormatInt(n));
    ParseVoteRoundTrip(pollId, n);
  }

  /** `vote poll-1 <n>` for a one-digit `n` reaches CastVote with that request. */
  lemma VoteInPollOne(s: State, c: Command, n: int)
    requires 1 <= n <= 9 && c.text == "vote poll-1 " + FormatInt(n)
    ensures Step(s, c) == CastVote(s, VoteRequest("poll-1", n), c.user)
  {
    assert NoSpace("poll-1");
    assert c.text == VotePrefix + ("poll-1" + " " + FormatInt(n));
    RoutesToCastVote(s, c, "poll-1", n);
  }

  lemma BobVotesRust()
    ensures Step(Opened, Command("vote poll-1 2", "bob", "")) == (AfterBob, Voted("bob", "Rust", Question))
  {
    assert FormatInt(2) == "2";
    VoteInPollOne(Opened, Command("vote poll-1 2", "bob", ""), 2);
    assert Opened.votes + [VoteRecord("poll-1", "bob", 2)] == AfterBob.votes;
  }

  lemma ResultsAfterBob()
    ensures Step(AfterBob, Command("results poll-1", "carol", "")).1 == Results(Question, Options, [0, 1])
  {
    RoutesToResults(AfterBob, Command("results poll-1", "carol", ""), "poll-1");
    assert PollVotes(AfterBob.votes, "poll-1") == [2];
    assert multiset([2])[1] == 0;
  }

  lemma BobVotesAgain()
    ensures Step(AfterBob, Command("vote poll-1 1", "bob", "")) == (AfterBob, AlreadyVoted)
  {
    assert FormatInt(1) == "1";
    VoteInPollOne(AfterBob, Command("vote poll-1 1", "bob", ""), 1);
  }

  lemma CarolCannotClose()
    ensures Step(AfterBob, Command("close poll-1", "carol", "")) == (AfterBob, NotAuthor)
  {
    RoutesToClose(AfterBob, Command("close poll-1", "carol", ""), "poll-1");
  }

  lemma DaveStillVotes()
    ensures Step(AfterBob, Command("vote poll-1 1", "dave", "")).1 == Voted("dave", "Go", Question)
  {
    assert FormatInt(1) == "1";
    VoteInPollOne(AfterBob, Command("vote poll-1 1", "dave", ""), 1);
    assert VoteOf(AfterBob.votes, "poll-1", "dave").None?;
  }

  /** The poll ID after `close ` is taken verbatim: a trailing space names
      a different, unknown poll. */
  lemma CloseIdIsNotTrimmed()
    ensures Step(AfterBob, Command("close poll-1 ", "alice", "")) == (AfterBob, NotFound("poll-1 "))
  {
    RoutesToClose(AfterBob, Command("close poll-1 ", "alice", ""), "poll-1 ");
  }
}
