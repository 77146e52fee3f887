/** The command router of `handleCommand` and runs of several commands. */
module Commands {
  import opened Text
  import opened Registry

  /** One request: its text, the requesting user, and the ID a `create`
      would take, standing for the ID `handleCreatePoll` builds from the
      clock. */
  datatype Command = Command(text: string, user: string, freshId: string)

  const CreatePrefix: string := "create "
  const VotePrefix: string := "vote "
  const ResultsPrefix: string := "results "
  const ClosePrefix: string := "close "

  /** `handleCommand`: the prefixes are tried in a fixed order and the text
      after the first one that matches goes to its handler. */
  function Step(s: State, c: Command): (r: (State, Outcome))
    ensures r.1 == UnknownCommand <==>
      !HasPrefix(c.text, CreatePrefix) && !HasPrefix(c.text, VotePrefix) &&
      !HasPrefix(c.text, ResultsPrefix) && !HasPrefix(c.text, ClosePrefix)
    ensures r.1 == UnknownCommand ==> r.0 == s
    ensures !HasPrefix(c.text, CreatePrefix) && !HasPrefix(c.text, VotePrefix) && HasPrefix(c.text, ResultsPrefix) ==> r.0 == s
  {
    var text := c.text;
    if HasPrefix(text, CreatePrefix) then HandleCreate(s, text[|CreatePrefix|..], c.user, c.freshId)
    else if HasPrefix(text, VotePrefix) then HandleVote(s, text[|VotePrefix|..], c.user)
    else if HasPrefix(text, ResultsPrefix) then (s, GetResults(s, text[|ResultsPrefix|..]))
    else if HasPrefix(text, ClosePrefix) then ClosePoll(s, text[|ClosePrefix|..], c.user)
    else (s, UnknownCommand)
  }

  /** The state after the commands are handled one after another. */
  function Run(s: State, cmds: seq<Command>): State
    decreases |cmds|
  {
    if |cmds| == 0 then s else Run(Step(s, cmds[0]).0, cmds[1..])
  }

  /** Which handler a text reaches, and with what argument. */
  lemma Routing(s: State, c: Command)
    ensures HasPrefix(c.text, CreatePrefix) ==>
      Step(s, c) == HandleCreate(s, c.text[7..], c.user, c.freshId)
    ensures !HasPrefix(c.text, CreatePrefix) && HasPrefix(c.text, VotePrefix) ==>
      Step(s, c) == HandleVote(s, c.text[5..], c.user)
    ensures !HasPrefix(c.text, CreatePrefix) && !HasPrefix(c.text, VotePrefix) && HasPrefix(c.text, ResultsPrefix) ==>
      Step(s, c) == (s, GetResults(s, c.text[8..]))
    ensures (!HasPrefix(c.text, CreatePrefix) && !HasPrefix(c.text, VotePrefix) &&
             !HasPrefix(c.text, ResultsPrefix) && HasPrefix(c.text, ClosePrefix)) ==>
      Step(s, c) == ClosePoll(s, c.text[6..], c.user)
  {
  }
}
