# Poll bot registry, modelled in Dafny

The bot answers chat commands that arrive as one line of text from a user:

- `create Question | Option 1 | Option 2 …` opens a poll;
- `vote <pollID> <number>` casts the user's single vote;
- `results <pollID>` shows the per-option tally;
- `close <pollID>` lets the poll's author end voting.

The state is kept in two Tarantool spaces. `polls` holds the question, the
ordered options, the author and the closed flag. `poll_votes` holds one row
`(poll_id, user, option_num)` per vote, with a primary key on
`(poll_id, user)`.

The model replaces the database with an immutable `State`: a map from poll ID
to `Poll`, plus the sequence of vote rows in insertion order. Each command
becomes a pure transition from the old state, the command text, the user and a
fresh ID to a new state and an `Outcome`. `Outcome` is a datatype of success
payloads and error kinds. It stands in for the reply text.

Modules:

- `Wrappers`: `Option` and `Result`.
- `Text`: `strings.HasPrefix`, `strings.Split` with a one-character separator, `strings.TrimSpace` and `strings.Fields`. White space is exactly the set `unicode.IsSpace` accepts.
- `Decimal`: `strconv.Atoi` with 64-bit `int`, and a decimal formatter as its partner.
- `Registry`: the data model and the four handlers.
- `Commands`: the prefix router `handleCommand` and runs of several commands.
- `Properties`: the invariant every command keeps, and what a run of commands may change.
- `Scenarios`: a worked conversation.

Vote rows are a sequence rather than a map. The uniqueness of `(poll_id, user)`
is therefore an invariant (`Registry.Valid`) that every command is proved to
keep, not a property of the type. "Never overwritten" becomes "the old rows
are a prefix of the new rows".

Behaviour of `cmd/main.go` worth knowing:

- `handleVote` checks the option bound before the earlier-vote check. A user who already voted and names a missing option gets `NoSuchOption`, not `AlreadyVoted`.
- In `handleVote`, option `0`, a negative number and a non-number are all rejected by the number check as `BadNumber`, before the poll is looked up.
- `handleCreatePoll` only requires at least one bar (`|`). An empty question, empty option labels and a poll with a single option are all accepted.
- `handleCommand` passes the text after the `results ` and `close ` prefixes verbatim to `handleResults` and `handleClose` as the poll ID, without trimming. `close poll-1 ` (trailing space) therefore answers `NotFound` (`Scenarios.CloseIdIsNotTrimmed`).
- When the insert of a new poll in `handleCreatePoll` fails, the failure is only logged and the reply still announces the poll. The one failure a sequential model can produce is an ID that is already taken. `HandleCreate` models that case as "state unchanged, outcome `Created`".
- No handler takes a lock. Each runs as a straight sequence of store calls.

## Model

| member | source | states |
|---|---|---|
| `Commands.Step` | cmd/main.go:86-116 | A command gets `UnknownCommand` exactly when its text starts with none of `create `, `vote `, `results `, `close `; such a command, and every command routed to `results` whether its poll exists or not, leaves the state unchanged |
| `Commands.Routing` | cmd/main.go:94-110 | Prefixes are tried in the order create, vote, results, close, and the handler receives the text after the first matching prefix (offsets 7, 5, 8, 6) |
| `Text.Split` | cmd/main.go:192 | Splitting on the bar character yields one more piece than there are bars; no piece contains a bar; joining the pieces with bars gives back the text |
| `Text.SplitFirst` | cmd/main.go:192-197 | When the text contains a bar, the first piece is exactly the text before the first bar |
| `Text.SplitJoin` | cmd/main.go:192 | Splitting undoes joining bar-free pieces, so the decomposition into pieces is unique |
| `Text.TrimSpace` | cmd/main.go:197-201 | The trimmed text is a slice of the input with all-white-space margins on both sides, and it neither starts nor ends with white space |
| `Text.TrimSpacePadded` | cmd/main.go:197-201 | Conversely, any white-space padding around a trimmed text is removed exactly |
| `Text.TrimSpaceIdempotent` | cmd/main.go:197-201 | Trimming twice is the same as trimming once |
| `Text.Fields` | cmd/main.go:245 | Every field is non-empty and white-space free, and the fields concatenated are the input with its white space deleted |
| `Text.FieldsSpacePrefix` | cmd/main.go:245 | Leading white space of any length contributes no field |
| `Text.FieldsPadded` | cmd/main.go:245-251 | Fields are maximal runs: for any white-space margins and any non-empty white-space gaps between non-empty white-space-free words, the fields are exactly those words, so every input's fields are determined |
| `Text.FieldsJoin` | cmd/main.go:245-251 | Splitting into fields undoes joining non-empty white-space-free words with single spaces |
| `Decimal.ParseInt` | cmd/main.go:253-255 | A text is accepted exactly when it is an optional `+` or `-` followed by at least one ASCII digit and nothing else, and the signed decimal value it denotes lies in the 64-bit range; the result is that value |
| `Decimal.SignAndZeros` | cmd/main.go:253-255 | Leading zeros and a leading `+` leave the parsed number unchanged and a leading `-` negates it, with the 64-bit bound applied to the signed value (so `-9223372036854775808` is accepted and its positive counterpart is not) |
| `Decimal.ParseFormat` | cmd/main.go:253-255 | Parsing the decimal rendering of any integer returns it exactly when it fits in 64 bits, and fails otherwise |
| `Registry.VoteOf` | cmd/main.go:338-350 | The earlier-vote lookup finds nothing exactly when no row has that (poll, user) key, and a found option is the option of such a row |
| `Registry.PollVotes` | cmd/main.go:158-164 | The select by `poll_id` yields the option numbers of that poll's rows: each number occurs exactly as often as there are rows of the poll naming it, and there are never more numbers than rows |
| `Registry.Tally` | cmd/main.go:170-179 | There is one counter per option; counter i holds how many of the poll's option numbers equal i + 1, so out-of-range numbers are counted nowhere |
| `Registry.TallySum` | cmd/main.go:170-179 | The counters add up to the number of in-range option numbers |
| `Registry.ParseCreate` | cmd/main.go:192-201 | Creation input is rejected exactly when it has no bar. Otherwise the poll is open and owned by the requester, has as many options as there are bars, and its question is the trimmed text before the first bar |
| `Registry.CreatePieces` | cmd/main.go:192-201 | For any split of the input into bar-free pieces, the question is the first piece trimmed and the options are the remaining pieces trimmed, in order |
| `Registry.HandleCreate` | cmd/main.go:191-232 | No bar gives a format error and no change. Otherwise the reply announces the given ID with one option per bar. The announced question and options are the parsed ones. A free ID stores exactly the new open poll of the requester, with votes untouched; a taken ID leaves the state unchanged |
| `Registry.ParseVote` | cmd/main.go:245-258 | A vote argument is accepted only with exactly two fields, of which the second parses to an integer in [1, 2^63-1]. The poll ID is the first field, non-empty and white-space free. A wrong field count is always the format error; every other rejection is the number error. Conversely, two fields whose second parses to a number of at least 1 are always accepted as that poll ID and number |
| `Registry.ParseVoteRoundTrip` | cmd/main.go:245-258 | An argument made of a white-space-free ID, a space and a positive 64-bit number in decimal is read back as exactly that request |
| `Registry.CastVote` | cmd/main.go:259-292 | A vote succeeds exactly when the poll exists, is open, has the option and holds no row for the user. Success appends the single row (poll, user, option), keeps every poll, and reports the option's label and the question. Every rejection is one of not-found, finished, no-such-option or already-voted and changes nothing |
| `Registry.HandleVote` | cmd/main.go:243-293 | An argument that does not parse is answered with the parse error and changes nothing; a parsed one is decided by the registry checks of `CastVote`. A rejected vote changes nothing. A successful one appends one row of the user's own, for an open poll and an existing option, for which the user had no earlier row |
| `Registry.ClosePoll` | cmd/main.go:118-147 | Checks run in the order not-found, already-closed, not-author. The close succeeds exactly when the poll exists, is open and the requester is its author, and then only that poll's flag becomes true. Every other outcome changes nothing |
| `Registry.GetResults` | cmd/main.go:150-187 | An unknown ID gives not-found. Otherwise, open or closed, the reply has the question, the options in creation order, and one count per option equal to the number of the poll's rows naming it |
| `Properties.CreatePreservesValid` | cmd/main.go:191-218 | `create` keeps the invariant: unique (poll, user) keys, every poll with at least one option, every row naming an existing poll and one of its options |
| `Properties.VotePreservesValid` | cmd/main.go:243-292 | `vote` keeps the invariant; in particular the appended row never duplicates a (poll, user) key |
| `Properties.ClosePreservesValid` | cmd/main.go:118-147 | `close` keeps the invariant |
| `Properties.StepPreservesValid` | cmd/main.go:86-116 | Every command keeps the invariant |
| `Properties.RunPreservesValid` | cmd/main.go:86-116 | Every sequence of commands keeps the invariant |
| `Properties.StepEvolves` | cmd/main.go:86-116 | One command only appends vote rows, never removes a poll, never changes a poll's question, options or author, never reopens a poll, and never changes a closed poll's rows |
| `Properties.RunEvolves` | cmd/main.go:86-116 | The same holds between a state and the state after any sequence of commands |
| `Properties.VoteNeverOverwritten` | cmd/main.go:276-285 | Once a user has a row in a poll, after any further commands the lookup still finds that same option |
| `Properties.NoSecondVote` | cmd/main.go:259-284 | After a user's successful vote in a poll, any later vote of theirs in that poll, after any commands in between, is rejected without a state change |
| `Properties.VotePrecedence` | cmd/main.go:245-292 | The first failing check decides the answer, in the order field count, number, unknown poll, closed poll, option bound, earlier vote; no rejection changes the state; when every check passes, the row (poll, user, number) is appended and the reply names the option's label and the question |
| `Properties.MissingOptionBeforeAlreadyVoted` | cmd/main.go:270-284 | A user who already voted in an open poll is told the option does not exist when it is out of range, and already-voted otherwise |
| `Properties.ClosedStaysClosed` | cmd/main.go:125-141 | A closed poll stays closed and its rows stay the same through any sequence of commands |
| `Properties.AfterClose` | cmd/main.go:266-269 | After the author closes a poll, and after any later commands, every vote in it reports that voting is over, and a second close by the author reports already-closed; neither changes the state |
| `Properties.ResultsSum` | cmd/main.go:170-185 | The reported counts add up to the poll's in-range rows; in a reachable state they add up to the number of distinct users who voted in the poll |
| `Properties.NewPoll` | cmd/main.go:202-218 | A poll created under a free ID is stored open, owned by the requester and without votes. Every other poll and every vote row is unchanged |
| `Scenarios.CreateLanguagePoll` | cmd/main.go:191-232 | alice creating the poll "Language?" with options Go and Rust under ID poll-1 stores the open poll "Language?" with options Go and Rust |
| `Scenarios.BobVotesRust` | cmd/main.go:243-293 | bob's `vote poll-1 2` records (poll-1, bob, 2) and reports Rust |
| `Scenarios.ResultsAfterBob` | cmd/main.go:150-187 | The results then count Go 0 and Rust 1 |
| `Scenarios.BobVotesAgain` | cmd/main.go:276-284 | bob's second vote gets already-voted and changes nothing |
| `Scenarios.CarolCannotClose` | cmd/main.go:130-133 | carol, who is not the author, cannot close the poll, and the state is unchanged |
| `Scenarios.DaveStillVotes` | cmd/main.go:285-292 | dave can still vote after carol's refused close |
| `Scenarios.CloseIdIsNotTrimmed` | cmd/main.go:107-121 | `close poll-1 ` with a trailing space looks up the ID `poll-1 ` and answers not-found |

## Left out

- `main`: the Tarantool connection, its address and credentials, and the HTTP server. These are I/O.
- Reading `text` and `user_name` from the form in `handleCommand`. The model receives them as `Command.text` and `Command.user`.
- `respond`, the JSON encoding, and the exact (Russian) reply texts. Each reply is an `Outcome` constructor carrying the values the text shows.
- Logging.
- Msgpack tuple decoding and the type assertions in `LoadPoll` and `handleResults`. `LoadPoll` is a map lookup, and the `poll_id` index select in `handleResults` is `Registry.PollVotes`. `LoadAllVotes` is never called and is not modelled.
- The Lua `Eval` that closes a poll. It is modelled only as setting the closed flag.
- The `poll-<nanoseconds>` ID taken from the clock. The ID is an input (`Command.freshId`).
- Store failures other than a taken poll ID: failed selects (answered as not-found or as an error reply), a failed vote insert, a failed close `Eval`, a failed results select. These depend on the database and the network.
- The check-then-act race between `CheckVote` and `SaveVote` when requests run concurrently. The model is sequential.
- The `ID` and `Votes` fields of the Go `Poll` struct. The ID is the map key. `Votes` is always the empty map and is never read.
- Go strings are bytes, and the model's texts are sequences of Unicode scalar values. Invalid UTF-8 input is not modelled.
- `Decimal.FormatNat` and `Decimal.FormatInt` are not in the program. They are the reference partner `Decimal.ParseInt` is proved against.
