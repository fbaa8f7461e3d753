# MorenoCore engines: models and proofs

MorenoCore is a game server written in Go. Most of it is game content and plumbing; this
project models the self-contained engines in it that carry state, re-entrancy or algebra, and
proves what they promise:

- `Hooks.dfy`, `HooksCalm.dfy`, `HooksNested.dfy`: the Lua hook dispatcher. Handlers may register,
  cancel, clear and dispatch again while a dispatch walks its snapshot; the run of a handler is an
  arbitrary finite tree of such calls.
- `Timers.dfy`: the Lua timers and their catch-up loop.
- `Achievements.dfy`, `AchievementLaws.dfy`: the criteria index and the mutual recursion between
  criteria progress, completion tests, awards, meta-achievements and achievement points.
- `Bytes.dfy`, `Srp6.dfy`: the SRP-6 handshake (message shapes of section 3 of RFC 2945, interleaved
  hash of its section 3.1, little-endian) over an arbitrary hash function.
- `Base32.dfy`, `Base32Numbers.dfy`: the codec of section 6 of RFC 4648, with its bit accumulators and
  its lenient decoder, and what it does to the numbers that bytes and symbols write.
- `EventQueue.dfy`, `EventCalls.dfy`: the heap of timed events, refined to a table ordered by due time
  and id, and the calls of due functions outside the lock, interleaved with all operations.
- `Migrations.dfy`: the migration runner over the updates table and its deadlock-retrying transaction.
- `ReentrantMutex.dfy`, `WorkerPool.dfy`, `WorkerPoolLaws.dfy`, `WorkerPoolProgress.dfy`: two concurrent
  protocols as state machines whose steps are the atomic operations of the code, interleaved in any
  order.
- `SqlText.dfy`, `SqlLaws.dfy`, `SqlScripts.dfy`, `MySqlLiterals.dfy`, `MySqlLaws.dfy` (with `Text.dfy`,
  `Hex.dfy`): the statement splitter against the printer, and the literal rewriter against a reader of
  MySQL's text and a reader of SQLite's, both defined without it.
- `Absorption.dfy`, `AbsorptionLaws.dfy` (with `Numbers.dfy`): absorption shields on players and creatures.
- `Aead.dfy`, `TotpKeys.dfy`, `TotpSecrets.dfy`: the stored TOTP secrets over server starts with
  changing master keys.

Methods and classes keep the imperative form of the code and are proved equal to functions of the
old state; the lemmas state the laws of those functions. What every operation computes is also stated
in terms of its inputs and fields alone, beside the function that names it: in the contracts, and in
the files named Laws. Where a law that one would expect is false of the code, a lemma gives a concrete
input, and another says exactly when or by how much it fails:

- a hook can be called more often than it has shots, since outer dispatches still walk older
  snapshots (`HooksNested.NestedDispatchOvercalls`): at most n + d - 1 times for n shots and
  dispatches of its event nested d deep (`HooksNested.OvercallsAreBounded`), a bound that is reached
  for all n and d (`HooksNested.OvercallsReachBound`); what is conserved is shots against completed
  dispatches;
- an absolute criteria update to 0 can leave a satisfied achievement without its award
  (`Achievements.ZeroUpdateCanLeaveBehind`, `Achievements.ZeroUpdateClosedExactly`);
- an accepted asynchronous call can stay without a result after its parent context is cancelled
  (`WorkerPool.CancelledCallCanBeLost`, `WorkerPool.LostCallsAreQueued`);
- decoding and encoding again changes some accepted Base32 texts (`Base32.LoneSymbolIsDropped`,
  `Base32.LowerCaseDoesNotComeBack`): all but those with a possible number of symbols, all their
  padding and no lower case or look-alike (`Base32.TextComesBack`);
- an event can run after its `Cancel` has answered false (`EventCalls.CancelCanBeTooLate`), exactly
  when a `RunDue` had taken it out and not called it yet (`EventCalls.CancelStopsUnlessTaken`);
- splitting is not idempotent (`SqlText.GluedDashes`): a printed list of statements comes back
  exactly when every statement in it is clean (`SqlScripts.ListComesBack`, `SqlScripts.SplitAgain`);
- rewritten literals can say something else to SQLite than they said to MySQL: other escapes than
  `\n`, `\r`, `\t` and those of the character itself, odd numbers of hexadecimal digits, 0x inside words
  and other quotes, literals behind a stray single quote (`MySqlLiterals.OtherEscapeDiffers`,
  `MySqlLiterals.OddDigitsDiffer`, `MySqlLiterals.NumberInTextDiffers`,
  `MySqlLiterals.NumberInWordDiffers`, `MySqlLiterals.StrayQuoteDiffers`). Every statement that MySQL
  can read keeps what it says exactly when a scan finds none of these
  (`MySqlLiterals.RewriteKeepsMeaning`);
- a creature can lose its last point of mana and absorb nothing, since its mana is taken before the
  absorb is known (`Absorption.CreatureWasteExists`, `Absorption.CreatureWaste`).

`dafny verify dfyconfig.toml` checks everything.

## Model

| member | source | states |
|---|---|---|
| Hooks.ShotsConserved | engine/scripting/runtime.go:706-791 | over every script and any nesting, a hook with n > 0 shots has max(0, n - completed dispatches that called it) left and is gone exactly at 0 or when cancelled; 0 shots never expire |
| Hooks.DroppedStaysSilent | engine/scripting/runtime.go:712-788 | once cancelled or cleared, a hook is called by no dispatch, not even an outer one on an older snapshot; ids are unique, increasing, below nextHook and disjoint from the cancelled set |
| Hooks.DispatchCallsSnapshot | engine/scripting/runtime.go:706-791 | a dispatch calls, in registration order, exactly the matching hooks of its snapshot that are not cancelled when their turn comes; hooks registered meanwhile are not called and are kept |
| Hooks.RunKeepsInv | engine/scripting/runtime.go:706-791 | every tree of register, cancel, clear and dispatch calls keeps the list equal to the live hooks with the shots they have left |
| Hooks.CancelDrops | engine/scripting/runtime.go:2002-2011 | a cancel marks the id and leaves exactly the other hooks, in their order |
| Hooks.ClearDrops | engine/scripting/runtime.go:1990-2000 | a clear leaves exactly the hooks of another kind, or of another event when one is named, in their order, and marks those it drops |
| Hooks.CancelledIsSilent | engine/scripting/runtime.go:712-788 | in every continuation of a cancel, at any depth of dispatches, the hook is never called |
| Hooks.ClearedAreSilent | engine/scripting/runtime.go:712-788 | the same for every hook that a clear meets |
| Hooks.DispatchReturns | engine/scripting/runtime.go:729-760 | a dispatch returns the values of the handlers it called, in calling order |
| Hooks.ReturnedInOrder | engine/scripting/runtime.go:729-760 | and a failed handler adds none |
| HooksCalm.CalmRunCallsFirstDispatches | engine/scripting/runtime.go:706-791 | over every script without nested dispatch of its own event, whatever other events do and wherever it was registered, an uncancelled hook has been called min(n, r) times (r times for 0 shots), where r counts the dispatches of the event that began after its registration; a cancelled one at most as often |
| HooksNested.NestedDispatchOvercalls | engine/scripting/runtime.go:729-788 | with nesting, a one-shot hook can be called twice |
| HooksNested.OvercallsAreBounded | engine/scripting/runtime.go:706-791 | over every script, a hook with n > 0 shots is called at most n + d - 1 times when dispatches of its event nest at most d deep |
| HooksNested.OvercallsReachBound | engine/scripting/runtime.go:706-791 | for every n and d some script reaches that bound |
| Hooks.Runtime.RegisterHook | engine/scripting/runtime.go:1883-1903 | appends the hook under the next id |
| Hooks.Runtime.CancelHook | engine/scripting/runtime.go:2002-2011 | marks the id cancelled and removes exactly its hook, keeping the order of the rest |
| Hooks.Runtime.ClearHooks | engine/scripting/runtime.go:1990-2000 | cancels and removes exactly the matching hooks; a negative event matches every event of the kind |
| Hooks.Runtime.HasHook | engine/scripting/runtime.go:679-691 | true exactly when a live hook of this event exists |
| Hooks.Runtime.Trigger | engine/scripting/runtime.go:706-791 | the in-place dispatch equals the dispatch function for all handlers, its results are theirs, and history only grows |
| Hooks.Runtime.WalkSnapshot | engine/scripting/runtime.go:713-760 | the snapshot loop records exactly the hooks fired and skipped |
| Hooks.Runtime.Merged | engine/scripting/runtime.go:761-788 | the merge applies only this dispatch's outcomes to the list its handlers left |
| Timers.FiringsInOrder | engine/scripting/runtime.go:1059-1098 | callback i reports the i-th delay and the repeats left before it; a survivor has 0 <= elapsed < delay |
| Timers.FiresWhenDue | engine/scripting/runtime.go:1059-1098 | a timer fires once for each delay passed in full; consumed delays plus leftover equal the time received; a counted timer ends exactly at its last repeat |
| Timers.CatchUpAddsUp | engine/scripting/runtime.go:1059-1098 | one timer given a and then b time behaves as given a + b |
| Timers.TickIsPerTimer | engine/scripting/runtime.go:1059-1098 | among all callbacks of a tick, those of one timer are what it fires alone |
| Timers.TickKeepsList | engine/scripting/runtime.go:1059-1098 | a tick keeps distinct ids and settled timers, and every callback belongs to a timer of the list |
| Timers.TicksAddUp | engine/scripting/runtime.go:1059-1098 | Tick(a) then Tick(b) leaves the same timers and gives each the same callbacks as Tick(a+b), for the same delays |
| Timers.TicksInOrder | engine/scripting/runtime.go:1059-1098 | timers fire in the order of the list and stay in it |
| Timers.AnyDelaysCanCome | engine/scripting/runtime.go:2050-2055 | every sequence of delays within the bounds is drawn for some source |
| Timers.FixedDelay | engine/scripting/runtime.go:1067-1090 | with equal bounds a timer fires once for every such delay: the quotient of the time by it, with the remainder left |
| Timers.TimerDelay | engine/scripting/runtime.go:2050-2055 | a delay lies between its bounds |
| Timers.TimerList.CreateLuaEvent | engine/scripting/runtime.go:2021-2048 | a timer is added exactly when 1 <= min <= max, with a fresh id and its first delay |
| Timers.TimerList.Tick | engine/scripting/runtime.go:1059-1098 | the loop over the list equals the tick function; a negative time changes nothing |
| Timers.TimerList.CatchUpInPlace | engine/scripting/runtime.go:1067-1090 | the inner loop terminates and equals the catch-up function |
| Achievements.BuildIndex | engine/world/achievements.go:425-550 | each index list is the rows of its key, in order; the last row of an achievement id wins |
| Achievements.ReachedIsMonotone | engine/world/achievements.go:1043-1104 | a completed criterion stays completed at every higher counter |
| Achievements.Player.UpdateCriteria | engine/world/achievements.go:995-1027 | terminates on every graph; every award came once and after its test held; no satisfied achievement is left behind; every matched criterion has advanced |
| Achievements.Player.ApplyProgress | engine/world/achievements.go:1121-1157 | a criterion whose gates are open (not earned, requirements met, not timed out, not complete) advances by exactly the quantity and any other stays; with the same closure |
| Achievements.Player.CheckComplete | engine/world/achievements.go:1444-1455 | afterwards nothing that tests this achievement's criteria is satisfied and unearned, summing achievements included |
| Achievements.Player.CheckSingle | engine/world/achievements.go:1462-1508 | awards this achievement exactly when its test holds, it is no counter and awards are not blocked, and otherwise changes nothing; what the test is says AchievementLaws.DeservedExactly |
| Achievements.Player.CountCompleted | engine/world/achievements.go:1493-1499 | counts exactly the completed criteria |
| Achievements.Player.SumTest | engine/world/achievements.go:1480-1492 | true exactly when some criterion with a counter is reached by the sum of the counters up to it |
| Achievements.Player.Complete | engine/world/achievements.go:1513-1589 | refuses the blocked, the earned and the counters without effect; otherwise awards exactly once and spreads the award |
| Achievements.Player.SpreadAward | engine/world/achievements.go:1577-1589 | the meta-achievements over the award and the points criteria are updated |
| Achievements.Player.EarnedPoints | engine/world/achievements.go:1580-1588 | the sum of points over everything earned |
| Achievements.TotalPointsAnyOrder | engine/world/achievements.go:1580-1588 | that sum does not depend on the order of the map |
| Achievements.Player.SetCriteria | engine/world/achievements.go:1194-1258 | raises and never lowers; closed for every value above 0; an update to 0 only creates zero counters |
| Achievements.Player.SetOne | engine/world/achievements.go:1219-1258 | the same for one criterion |
| Achievements.AllTestersChecked | engine/world/achievements.go:1444-1455 | an achievement and those that share its criteria are all that test them |
| Achievements.PointsUpdateClosed | engine/world/achievements.go:1580-1589 | the absolute update inside a completion is always closed |
| Achievements.ZeroFilledClosed | engine/world/achievements.go:1194-1258 | zero counters are harmless when nothing is complete at zero |
| Achievements.ZeroUpdateClosedExactly | engine/world/achievements.go:1194-1258 | an absolute update to 0 is closed exactly when zero tips no achievement |
| Achievements.ZeroUpdateCanLeaveBehind | engine/world/achievements.go:1194-1258 | such an update can leave a satisfied achievement without its award |
| AchievementLaws.ReachedByKind | engine/world/achievements.go:1056-1104 | the counter that completes a criterion, kind by kind, and the kinds that nothing completes |
| AchievementLaws.CompletedExactly | engine/world/achievements.go:1043-1055 | a criterion with a counter that reaches it is complete, unless its achievement is a realm first that the realm holds |
| AchievementLaws.DeservedExactly | engine/world/achievements.go:1462-1508 | who passes the completion test: a player of the faction, if it names one, with enough complete criteria, or enough counters together for a summing one |
| AchievementLaws.AwardIsDeserved | engine/world/achievements.go:1462-1540 | every award not granted outright went to a player of its faction, Horde for 0 and Alliance for 1, for criteria complete at that moment |
| AchievementLaws.CheckedHasIt | engine/world/achievements.go:1444-1508 | after a check a player of the right team with the criteria complete has the achievement, unless awards are blocked or it is a counter or a summing one |
| AchievementLaws.DeservingHasIt | engine/world/achievements.go:995-1027 | after any update nobody newly deserves an achievement without having it |
| AchievementLaws.MatchedExactly | engine/world/achievements.go:995-1027 | an update is for the criteria of its kind on its asset or on asset 0, and no others |
| AchievementLaws.UpdateReaches | engine/world/achievements.go:1121-1157 | each of them is earned, complete or advanced by the amount, unless it is disabled, timed or its requirements are not met |
| AchievementLaws.UpdateSparesOthers | engine/world/achievements.go:1121-1157 | no other counter moves but those that awards move |
| AchievementLaws.UpdateMovesOnce | engine/world/achievements.go:1121-1157 | a criterion listed once moves by at most the amount |
| AchievementLaws.AwardReachesMetas | engine/world/achievements.go:1577-1579 | every award is told to the criteria on it |
| AchievementLaws.AwardReachesPoints | engine/world/achievements.go:1580-1589 | and the points of all that is earned to the criteria on points |
| AchievementLaws.FinishedStays | engine/world/achievements.go:1121-1157 | what is earned or complete keeps its counter, and the realm remembers new achievements when there is a place to store them |
| AchievementLaws.RowsInOrder | engine/world/achievements.go:425-550 | the lists of the index follow the order of the rows |
| Srp6.LittleInt | engine/crypto/srp6.go:176-182 | the little-endian value of the bytes |
| Srp6.LittleBytes | engine/crypto/srp6.go:184-190 | the 32 low little-endian digits of the value |
| Srp6.ResidueBytes | engine/crypto/srp6.go:176-190 | reading back the bytes of a residue gives the residue |
| Bytes.LittleEndianJoins | engine/crypto/srp6.go:176-182 | a byte is its own value, and what follows counts by its place |
| Srp6.Interleave | engine/crypto/srp6.go:142-164 | strips leading zeros to even length, hashes the halves and zips them, in bounds for every input |
| Srp6.PowersOfSevenNonZero | engine/crypto/srp6.go:30-56 | no power of 7 is 0 modulo N |
| Srp6.SharedSecret | engine/crypto/srp6.go:30-132 | (A v^u)^b and (B - 3 g^x)^(a + u x) agree modulo N |
| Srp6.SessionKeysAgree | engine/crypto/srp6.go:30-140 | client and server derive the same key, A is never 0 modulo N, and the server accepts the client's proof |
| Srp6.AcceptedSharesKey | engine/crypto/srp6.go:30-132 | for every password and stored verifier, a client with the server's key is accepted, and an accepted client has the server's key unless the hash collides on the two named proof texts |
| Srp6.NumbersExactly | engine/crypto/srp6.go:30-140 | verifier, A, B and both secrets are 32 bytes of the powers modulo N that the protocol names, with x and u from the hashes of salt, credentials, A and B |
| Srp6.ProofExactly | engine/crypto/srp6.go:46-54 | a proof is the hash of H(N) xor H(g), the hash of the name, salt, A, B and the key, in this order |
| Srp6.KeyExactly | engine/crypto/srp6.go:142-164 | the key interleaves the hashes of every other byte behind an even number of bytes that are 0 but for the last at most |
| Srp6.CutExists | engine/crypto/srp6.go:142-164 | every secret has such a place |
| Srp6.CalculateVerifier | engine/crypto/srp6.go:134-140 | the verifier of the username and password |
| Srp6.MakeClientProof | engine/crypto/srp6.go:30-56 | the client's answer, and the refusal of an empty private key |
| Srp6.NewSRP6WithReader | engine/crypto/srp6.go:88-98 | the server's B for its secret, not yet used; nothing when the random source fails |
| Srp6.Handshake.VerifyChallengeResponse | engine/crypto/srp6.go:100-132 | accepts exactly when A is not 0 modulo N and the proof is the one for the key, which it returns; answers once, a second answer is refused |
| Base32.DecodesFolded | engine/crypto/base32.go:17-35 | a character decodes to the value of the symbol it stands for: itself, its capital, or O, L, B for 0, 1, 8; and not at all when it stands for none |
| Base32.SymbolDecodes | engine/crypto/base32.go:25-33 | every symbol of the alphabet decodes to its own value |
| Base32.ByteTakenIn | engine/crypto/base32.go:45-52 | taking in a byte appends its bits; the wrap of the 32-bit accumulator never drops a pending bit |
| Base32.EncodeSymbols | engine/crypto/base32.go:43-55 | the emitted symbols are the 5-bit groups of the bytes |
| Base32.Base32Encode | engine/crypto/base32.go:37-60 | the groups padded with '=' to a multiple of eight |
| Base32.EncodedLength | engine/crypto/base32.go:37-60 | the length is 8 * ceil(n / 5) |
| Base32.DecodeSymbols | engine/crypto/base32.go:62-85 | the accumulator holds the bits of the symbols read |
| Base32.Base32Decode | engine/crypto/base32.go:62-101 | accepts exactly symbols, then at most the missing '=' signs, with zero leftover bits, and returns the whole bytes of the groups |
| Base32.DecodeEncode | engine/crypto/base32.go:37-101 | decoding an encoding returns the bytes, for every byte string |
| Base32.EncodeDecode | engine/crypto/base32.go:37-101 | re-encoding an accepted text gives its symbols exactly when their number modulo 8 is not 1, 3 or 6 |
| Base32.TextComesBack | engine/crypto/base32.go:37-101 | an accepted text is the encoding of the bytes it decodes to exactly when its number of symbols modulo 8 is not 1, 3 or 6, all its padding is there, and every symbol is a capital letter or a digit 2 to 7 |
| Base32.LowerCaseDoesNotComeBack | engine/crypto/base32.go:17-101 | such a text: "aa" decodes to one zero byte, whose encoding is another text |
| Base32.LoneSymbolIsDropped | engine/crypto/base32.go:37-101 | an accepted text whose encoding is another: "A" decodes to nothing |
| Base32Numbers.DecodesExactly | engine/crypto/base32.go:17-35 | the values of the characters: both cases of the letters, 2 to 7, and 0, 1, 8 as O, L, B; nothing else has one |
| Base32Numbers.EncodesNumber | engine/crypto/base32.go:37-60 | the symbols are the base-32 digits, in the alphabet of the RFC, of the big-endian number of the bytes shifted to whole digits; then '=' up to a multiple of eight |
| Base32Numbers.AcceptsExactly | engine/crypto/base32.go:62-101 | with the symbols before the first '=' read as one number: accepted exactly when only '=' follows, not too many, and 2^leftover divides the number; the bytes then write the quotient |
| EventQueue.RootIsLeast | engine/runtime/events.go:24-47 | in heap order the root is least by due time and id |
| EventQueue.SiftedUp | engine/runtime/events.go:24-47 | one swap upwards moves the only possible violation up |
| EventQueue.SiftedDown | engine/runtime/events.go:24-47 | one swap with the smaller child moves it down |
| EventQueue.Queue.Push | engine/runtime/events.go:34-38 | restores heap order and index fields with the same events and the new one |
| EventQueue.Queue.Pop | engine/runtime/events.go:39-47 | removes the root and keeps the rest in heap order |
| EventQueue.Queue.Add | engine/runtime/events.go:57-64 | a fresh id, and a new live event beside the ones in the heap |
| EventQueue.Queue.Cancel | engine/runtime/events.go:70-80 | true exactly when a live event of the heap has the id, which it marks and no other |
| EventQueue.Queue.RunDue | engine/runtime/events.go:82-100 | calls exactly the due, live events of the heap that have a function, in order of due time and id, and keeps exactly the later ones |
| EventQueue.Queue.NextDue | engine/runtime/events.go:102-112 | the least due time of a live event of the heap, none when there is none; all live events stay |
| EventQueue.TouchedAtMostOnce | engine/runtime/events.go:70-100 | over every run an event is called at most once, cancelled at most once, and never both |
| EventQueue.RanIsDistinct | engine/runtime/events.go:82-100 | one RunDue calls no event twice |
| EventQueue.RunsWhenDue | engine/runtime/events.go:57-100 | an event that is not cancelled is called by the first RunDue at or after its due time |
| EventQueue.AddedIdsGrow | engine/runtime/events.go:57-64 | ids grow strictly |
| EventCalls.PathKeepsInv | engine/runtime/events.go:57-112 | with the calls outside the lock and interleaved in any way, every function taken out waits in one place or was called, never both |
| EventCalls.CalledAtMostOnce | engine/runtime/events.go:82-100 | in every such run no function is called twice |
| EventCalls.CancelStopsUnlessTaken | engine/runtime/events.go:70-100 | after `Cancel` of an id handed out, the event is called in some continuation exactly when a `RunDue` has taken it out and not called it yet; after the answer true it is never called |
| EventCalls.CancelCanBeTooLate | engine/runtime/events.go:70-100 | a run in which `Cancel` answers false and the function is called afterwards |
| Migrations.SortedByName | engine/database/migrations.go:99-101 | sorting by name is an ordered permutation |
| Migrations.RunsAreIdempotent | engine/database/migrations.go:91-207 | for all options, a second run executes no body, counts nothing and changes at most the state of rows renamed before; a third changes nothing |
| Migrations.AfterAllDone | engine/database/migrations.go:118-172 | after a run every file has a row that the next run accepts |
| Migrations.RunOverDone | engine/database/migrations.go:118-172 | a run over files that are done executes nothing and counts nothing |
| Migrations.CleanedKeepsFiles | engine/database/migrations.go:173-205 | cleaning orphans keeps the rows of files, and leaves no orphan when it applies |
| Migrations.CommittedHaveRows | engine/database/migrations.go:118-172 | after a run stopped anywhere, every committed body has its row and every file not reached has the row it had |
| Migrations.DecidedWithRow | engine/database/migrations.go:127-156 | a file with a row: its body runs exactly when the row is checked, has another hash and is not to be filled in; the row is corrected or filled in otherwise |
| Migrations.DecidedWithoutRow | engine/database/migrations.go:157-171 | a file without a row: its body runs, unless the first row with its hash, by name, belongs to no file and is renamed |
| Migrations.KnownFileRuns | engine/database/migrations.go:118-172 | over a whole run, the body of a file that had a row is committed once exactly in that case and else not at all |
| Migrations.UnknownFileRuns | engine/database/migrations.go:118-172 | the body of a file that had none is committed once, unless at its turn the first row with its hash belongs to no file |
| Migrations.NewFileRuns | engine/database/migrations.go:165-171 | in particular a file new by name and by hash is executed, whatever the options |
| Migrations.BodiesAreFiles | engine/database/migrations.go:118-172 | only bodies of files are executed, and as many as are counted as applied |
| Migrations.ExecutedGrows | engine/database/migrations.go:118-172 | the statements executed are those of these bodies that are not blank, in the order of the files |
| Migrations.CountersOfRun | engine/database/migrations.go:118-172 | applied counts the committed bodies, rehashed the rows filled in, archived the new archived files |
| Migrations.LessExactly | engine/database/migrations.go:99-101 | names are ordered by their first different byte, prefixes first |
| Migrations.BodyStep | engine/database/migrations.go:264-271 | blank statements are not executed, all others are, in order |
| Migrations.Store.RunTransactionOnce | engine/database/transaction.go:89-99 | writes the row and commits the body together, or changes nothing |
| Migrations.Store.RunTransaction | engine/database/transaction.go:75-87 | whatever deadlocks, the body is committed exactly once or not at all, with bounded attempts |
| Migrations.Store.FindFirstWithHash | engine/database/migrations.go:215-242 | the first row with the hash, in name order |
| Migrations.Store.ApplyFile | engine/database/migrations.go:118-172 | one file is skipped, corrected, renamed or executed as its row and the options say, and counted so; an error changes nothing and comes from a failed call |
| Migrations.Store.RejectDuplicates | engine/database/migrations.go:102-117 | rejects exactly lists with a repeated version or name, and names one |
| Migrations.Store.ApplyFiles | engine/database/migrations.go:118-172 | the files in order up to the first error |
| Migrations.Store.CleanOrphans | engine/database/migrations.go:173-205 | removes exactly the rows whose file is gone when the flag or the limit allows it, and none otherwise |
| Migrations.Store.ApplyMigrations | engine/database/migrations.go:91-207 | a duplicate is rejected before any body; success is the whole run; an error leaves the state of a prefix of the run, and only a duplicate or a failed call gives one |
| ReentrantMutex.MutualExclusion | engine/scripting/reentrant_mutex.go:41-70 | in every interleaving at most one goroutine is inside, owner is 0 or the holder, and depth is the holder's nesting |
| ReentrantMutex.FastPathOnlyByHolder | engine/scripting/reentrant_mutex.go:41-50 | the fast path is taken exactly by the holder |
| ReentrantMutex.TryNeverEntersHeldLock | engine/scripting/reentrant_mutex.go:60-70 | TryLockFree never succeeds while anyone, itself included, is inside |
| ReentrantMutex.RunKeepsInv | engine/scripting/reentrant_mutex.go:41-70 | every atomic step of every goroutine keeps the invariant |
| ReentrantMutex.NestedLocksHold | engine/scripting/reentrant_mutex.go:41-50 | a goroutine that locks again and again never waits for itself |
| ReentrantMutex.UnlocksReleaseLast | engine/scripting/reentrant_mutex.go:52-58 | only the last of as many unlocks as locks releases |
| ReentrantMutex.LastUnlockFrees | engine/scripting/reentrant_mutex.go:52-58 | after as many unlocks as locks and two more steps nobody holds the lock, owner and depth are 0 and the goroutine is ready |
| ReentrantMutex.UnlockFrees | engine/scripting/reentrant_mutex.go:52-58 | over every run, an Unlock that has brought the depth to 0 frees the lock by its next two steps, whatever others do in between |
| ReentrantMutex.LockEnters | engine/scripting/reentrant_mutex.go:41-50 | over every run, a waiting Lock enters by its next three steps once it finds the lock free |
| ReentrantMutex.TryEnters | engine/scripting/reentrant_mutex.go:60-70 | TryLockFree on a lock that stays free until its next step enters |
| WorkerPool.NeverPanics | engine/runtime/workers.go:38-81 | nobody sends on or closes a closed channel, no task runs twice, and a result is delivered into an empty place |
| WorkerPool.CloseRunsEverything | engine/runtime/workers.go:38-81 | unless the parent is cancelled, when Close returns every accepted task has run exactly once and every call has exactly one result |
| WorkerPool.LostCallsAreQueued | engine/database/pool.go:24-46 | the accepted calls without result are exactly those left in the queue, and only after cancellation |
| WorkerPool.CancelledCallCanBeLost | engine/runtime/workers.go:66-81 | such a run exists |
| WorkerPool.RunKeepsInv | engine/runtime/workers.go:22-81 | every step of callers, closers, workers and the parent context keeps the invariant |
| WorkerPoolLaws.FreshExactly | engine/runtime/workers.go:22-36 | a new pool has the workers asked for, at least one, and a queue no shorter than that |
| WorkerPoolLaws.CallIsQueued | engine/runtime/workers.go:39-53 | on an open pool with room a task goes to the end of the queue and is accepted |
| WorkerPoolLaws.CallIsRefused | engine/database/pool.go:24-46 | on a closed pool a call is refused and delivers its own one result |
| WorkerPoolLaws.CallWaits | engine/runtime/workers.go:38-53 | a call waits for the write lock, and for room or the end of the context |
| WorkerPoolLaws.WorkerServes | engine/runtime/workers.go:66-81 | an idle worker runs the task that has waited longest and delivers its result |
| WorkerPoolLaws.WorkerLeavesExactly | engine/runtime/workers.go:66-81 | it leaves exactly at a closed empty queue or at the end of the context |
| WorkerPoolLaws.CloseGoesThrough | engine/runtime/workers.go:55-64 | the first Close marks the pool and closes the queue, later ones only wait |
| WorkerPoolLaws.CloseEnds | engine/runtime/workers.go:55-64 | Close returns when all workers have left, and not before |
| WorkerPoolProgress.CloseCanFinish | engine/runtime/workers.go:38-81 | the pool cannot get stuck: from every state of every run, without cancelling the parent, every Close can still return |
| WorkerPoolProgress.WorkersLeave | engine/runtime/workers.go:66-81 | once the queue is closed, the workers can run all that is left and go |
| WorkerPoolProgress.MakeRoom | engine/runtime/workers.go:38-53 | while a caller waits at a full queue, some worker is left to take from it or the context has ended |
| SqlText.SplitSQL | engine/database/sqlsplit.go:5-73 | the character loop equals the scanner function |
| SqlText.QuietIsKept | engine/database/sqlsplit.go:5-73 | a quiet text goes into the statement unchanged, across escapes, doubled quotes and all three quote kinds |
| SqlText.NormalizeSchemaScript | engine/database/dump.go:137-165 | the header, then each non-empty trimmed part of the statements outside routines with ";\n"; or an error when one cannot be converted |
| SqlText.RoutineIsSkipped | engine/database/dump.go:141-152 | from the statement that begins it to its END, a routine leaves no trace |
| SqlText.SplitPrinted | engine/database/dump.go:139-164 | splitting what was printed from clean statements returns the list |
| SqlScripts.ListComesBack | engine/database/sqlsplit.go:5-73 | splitting what is printed from a list gives back the list exactly when every statement is clean |
| SqlScripts.SplitAgain | engine/database/sqlsplit.go:5-73 | printing and splitting again changes nothing exactly when all statements of the text are clean |
| SqlScripts.PrintedComesBack | engine/database/sqlsplit.go:5-73 | a printed statement comes back as itself exactly when it is clean |
| SqlScripts.LateFails | engine/database/sqlsplit.go:5-73 | a scanner that is behind on its line can never give out the rest of the list |
| SqlText.LineCommentIsDropped | engine/database/sqlsplit.go:13-18 | a line comment leaves no trace, whatever is in it |
| SqlText.BlockCommentIsDropped | engine/database/sqlsplit.go:19-25 | neither does a block comment |
| SqlText.LastNewline | engine/database/sqlsplit.go:5-73 | a newline at the end of a text changes nothing, whatever is open there |
| SqlText.ScanBound | engine/database/sqlsplit.go:5-73 | statements are only appended, and no character is used twice |
| SqlText.StatementsArePrintable | engine/database/sqlsplit.go:5-73 | every statement is trimmed, not empty, and starts with no separator |
| SqlText.GluedDashes | engine/database/sqlsplit.go:41-66 | removing a comment can glue two dashes, so splitting is not idempotent |
| SqlLaws.SeparatorEnds | engine/database/sqlsplit.go:61-73 | a separator, or the end in any mode, ends the statement; white space alone is none |
| SqlLaws.OrdinaryIsKept | engine/database/sqlsplit.go:41-66 | every other character is kept, two dashes before something visible too |
| SqlLaws.QuotedIsKept | engine/database/sqlsplit.go:26-47 | a text in any of the three quotes is kept whole, separators and comment openers included |
| SqlLaws.EscapeIsKept | engine/database/sqlsplit.go:26-40 | a backslash or a doubled quote keeps the text open |
| SqlLaws.LinesInOrder | engine/database/dump.go:157-162 | each part that is not blank is printed trimmed, with ";" and a newline, in order |
| SqlLaws.ConvertedInOrder | engine/database/dump.go:141-155 | statements outside routines give their parts in order; one that cannot be converted gives up the script |
| SqlLaws.RoutineEndExactly | engine/database/dump.go:299-302 | a routine ends with a statement that is END, in any case, alone or before a blank |
| Text.TrimExactly | engine/database/sqlsplit.go:67-73 | trimming takes white space from both ends, and all of it |
| MySqlLiterals.NormalizeMySQLLiterals | engine/database/dump.go:389-447 | the character loop equals the rewriting function |
| MySqlLiterals.RewriteKeepsMeaning | engine/database/dump.go:389-447 | for every statement that MySQL can read, the rewritten text reads in SQLite as the statement reads in MySQL (characters, texts in all three quotes, binary values, NULL, open texts) exactly when the scan `Keeps` finds nothing in it: no `\N`, no NUL, no escape read otherwise, no 0x and digits outside a literal or of an odd number, no literal behind a quote miscounted |
| MySqlLiterals.RestKeepsMeaning | engine/database/dump.go:389-447 | the same from every place of the reading, inside every kind of quotes, whether or not the rewriting is right about being in a string |
| MySqlLiterals.HexThenQuoteMerges | engine/database/dump.go:400-411 | 0x1f'b' becomes X'1f''b': two literals as before where SQLite ends a blob literal at its first quote, as its tokenizer does, and an illegal one where a doubled quote belongs to it |
| MySqlLiterals.OtherEscapeDiffers | engine/database/dump.go:414-434 | '\Z', a control character to MySQL, becomes 'Z' |
| MySqlLiterals.OddDigitsDiffer | engine/database/dump.go:400-411 | 0x1, a byte to MySQL, becomes a blob literal that SQLite refuses |
| MySqlLiterals.NumberInTextDiffers | engine/database/dump.go:395-413 | 0x and digits in double quotes are rewritten too |
| MySqlLiterals.NumberInWordDiffers | engine/database/dump.go:400-411 | so are those inside a word |
| MySqlLiterals.StrayQuoteDiffers | engine/database/dump.go:395-445 | behind a single quote in double quotes, escapes are not rewritten |
| MySqlLiterals.HexRunIsLongest | engine/database/dump.go:400-411 | the digits of a literal are taken as far as they go |
| MySqlLaws.EscapeIsWritten | engine/database/dump.go:414-434 | what is written for every escape in a string |
| MySqlLaws.QuoteIsWritten | engine/database/dump.go:395-445 | a quote opens and closes a string, a doubled one stays |
| MySqlLaws.NumberIsWritten | engine/database/dump.go:400-411 | outside strings 0x or 0X and the longest run of digits becomes X'...' |
| MySqlLaws.OtherIsWritten | engine/database/dump.go:412-445 | every other character is written as it is |
| MySqlLaws.EscapeIsReadByMySQL | engine/database/dump.go:414-434 | the escapes of MySQL that the rewriting is measured by |
| Absorption.PriorityLadder | engine/world/absorption.go:37-80 | wards first, then the named shields in their order, then shields of some schools, of all schools, and after all school shields the mana shields |
| Absorption.SortOrders | engine/world/absorption.go:440-447 | sorting any listing of the shields gives the order by priority and spell id |
| Absorption.OrderIsUnique | engine/world/absorption.go:440-447 | there is one such order, so nothing depends on the iteration order of the map |
| Absorption.HitIsAccounted | engine/world/absorption.go:399-545 | absorbed plus remaining is the damage, and absorbed is what the shields lose; exactly the shields used up are removed; school shields give min(damage, their sum); a player's mana drops only when something is absorbed |
| Absorption.LossIsAbsorbed | engine/world/absorption.go:449-532 | the shields together lose what the damage loses |
| Absorption.ExhaustedAreEmptied | engine/world/absorption.go:449-532 | the exhausted list is exactly the shields that reach 0, in order |
| Absorption.SchoolsAbsorbFirst | engine/world/absorption.go:449-532 | school shields together absorb min(damage, sum), and while that covers the damage no mana shield and no mana is touched |
| Absorption.ManaBuysAbsorption | engine/world/absorption.go:486-530 | a player's mana drops only when a mana shield absorbs |
| Absorption.AbsorbedIsPaid | engine/world/absorption.go:495-530 | at every price, a player pays at least the truncated price of what was absorbed and at most that of the candidate; a multiplier of 0 counts as 1 |
| Absorption.ShareFits | engine/world/absorption.go:511-521 | the share bought with too little mana never exceeds the candidate, and is 0 exactly when candidate times mana is below the cost; over the reals, see below |
| Absorption.TakeFits | engine/world/absorption.go:449-532 | no subtraction underflows |
| Absorption.CreatureWastesMana | engine/world/absorption.go:610-639 | a creature's shield takes mana for nothing exactly when its last point meets two points or more |
| Absorption.CreatureWaste | engine/world/absorption.go:548-652 | a whole hit costs mana and absorbs nothing exactly in that case of the first shield concerned |
| Absorption.CreatureWasteExists | engine/world/absorption.go:610-639 | such a hit: two points of damage, one point of mana, a shield of two points |
| AbsorptionLaws.PlayerTakes | engine/world/absorption.go:449-532 | a player's shield: a school shield that answers absorbs the lesser of amount and damage; a mana shield that answers absorbs that candidate for exactly its truncated price when the mana covers it, else the quotient of candidate times mana by the price, and the mana is gone exactly when that is positive |
| AbsorptionLaws.CreatureTakes | engine/world/absorption.go:579-641 | the same for a creature at one and a half a point, the mana gone in any case |
| AbsorptionLaws.CostExactly | engine/world/absorption.go:495-505 | the price of points is cut off to a whole number |
| AbsorptionLaws.ShareExactly | engine/world/absorption.go:511-521 | the share is the whole quotient |
| AbsorptionLaws.AnswersExactly | engine/world/absorption.go:449-455 | a shield answers when its misc value and the school share a bit; 0 answers to nothing, 127 to every school |
| AbsorptionLaws.OrderIsByPriority | engine/world/absorption.go:440-447 | shields are used by priority, then by spell id |
| AbsorptionLaws.HitSpendsShields | engine/world/absorption.go:399-545 | when damage remains of a hit, every school shield that answers is used up, and every mana shield that answers is, unless the mana did not cover its candidate |
| AbsorptionLaws.TooLittleExactly | engine/world/absorption.go:495-521 | how little mana that is |
| Absorption.Victim.ListShields | engine/world/absorption.go:421-429 | lists exactly the active shields, each once |
| Absorption.Victim.UsePlayerShield | engine/world/absorption.go:449-532 | one shield in place: its amount and the mana drop by what it takes, which AbsorptionLaws.PlayerTakes tells from the fields |
| Absorption.Victim.UseCreatureShield | engine/world/absorption.go:579-641 | the same for creatures, mana first; see AbsorptionLaws.CreatureTakes |
| Absorption.Victim.RemoveExhausted | engine/world/absorption.go:537-542 | removes the exhausted ids and nothing else |
| Absorption.Victim.ApplyAbsorptionShields | engine/world/absorption.go:399-545 | for every iteration order of the map the state afterwards is the one of the sorted order |
| Absorption.Victim.ApplyCreatureAbsorptionShields | engine/world/absorption.go:548-652 | the same for creatures |
| Aead.Process | engine/crypto/aead.go:26-50 | encrypts or decrypts the buffer in place; a failure leaves it unchanged |
| Aead.EncryptWithRandomIV | engine/crypto/aead.go:52-68 | ciphertext, vector, tag; refused without randomness |
| Aead.DecryptWithTrailingIVAndTag | engine/crypto/aead.go:70-86 | opens exactly what the cipher accepts at those places; too short is refused |
| Aead.StoredOpens | engine/crypto/aead.go:52-86 | decrypting what was encrypted returns the data |
| TotpKeys.ParseTOTPMasterSecret | engine/auth/server.go:229-258 | the key is the low 128 bits of the number, in little-endian order; the two refusals |
| TotpKeys.ReverseInPlace | engine/auth/server.go:254-256 | the two-index loop reverses the array |
| TotpKeys.CanonicalTOTPMasterSecret | engine/auth/totp_secret.go:128-137 | the number in capital digits without leading zeros |
| TotpKeys.ParseCanonical | engine/auth/totp_secret.go:128-137 | parsing the canonical text returns the key, for all 16-byte keys |
| TotpKeys.CanonicalIsInjective | engine/auth/totp_secret.go:128-137 | different keys have different canonical texts |
| TotpKeys.ParseReadsNumber | engine/auth/server.go:229-258 | refused exactly when not hexadecimal, with the 0x prefix told apart; otherwise the number modulo 2^128 |
| TotpKeys.SameNumberSameKey | engine/auth/server.go:229-258 | two texts give the same key exactly when their numbers agree modulo 2^128 |
| Hex.DigitsInOrder | engine/auth/server.go:229-258 | the hexadecimal digits and their values, in small and capital letters |
| Hex.LastDigit | engine/auth/server.go:229-258 | the last digit counts once, those before it sixteenfold |
| Hex.UpperHexIsShort | engine/auth/totp_secret.go:128-137 | the canonical text has only capital digits and no leading zero |
| TotpSecrets.Server.InitializeTOTPSecrets | engine/auth/totp_secret.go:14-126 | the outcome is that of the start function; an error changes nothing, and "database failed" is answered only when a call failed; on success the server holds the configured key, if any |
| TotpSecrets.Server.Rewrite | engine/auth/totp_secret.go:64-121 | all rows and the digest change together or not at all |
| TotpSecrets.Server.RewriteRows | engine/auth/totp_secret.go:93-108 | every row is recoded, in any order |
| TotpSecrets.RecodedOpens | engine/auth/totp_secret.go:93-108 | a recoded secret is the stored form of the same plain text under the new key, and opens to it |
| TotpSecrets.StoredIsRead | engine/auth/totp_secret.go:93-108 | without a key a secret is plain text; under a key it is read from ciphertext, vector and tag |
| TotpSecrets.StartKeepsSecrets | engine/auth/totp_secret.go:14-126 | a failed start changes nothing; after a successful one every secret keeps its plain text and the server holds a key exactly when a digest is stored, the key of that digest |
| TotpSecrets.StartSucceedsExactly | engine/auth/totp_secret.go:14-126 | barring faults, a start succeeds exactly when both texts parse and the secrets are plain or under one of the two keys |
| TotpSecrets.RunsKeepSecrets | engine/auth/totp_secret.go:14-126 | over every sequence of restarts each secret keeps its plain text under the key given by the digest |

## Left out

- Hooks: the return before any state exists, negative shots, arguments and padding of return values, and dispatches aborted by an unsupported argument before the merge; handlers that never end.
- Timers: callbacks that add or remove timers, and errors returned by callbacks.
- Achievements: announcements, mails, titles, chat, criteria scripts, the expiry and re-arming of timed criteria; `meetsCriteriaRequirements`, the GM gate, faction and the realm-first table are fixed during one update; criterion ids are distinct; counters are unbounded, so 32-bit wrap-around is not modelled.
- Achievements.Player.UpdateCriteria: its closure leaves out summing achievements, which the code tests only when one of their criteria completes (then `CheckComplete` awards them), and counter achievements, which are never awarded.
- Srp6: SHA-1 is an arbitrary function to 20 bytes; registration with random salts and the constant-time comparison are not modelled.
- EventQueue: the context argument; times are integers, and an operation under the lock is one step. Callbacks appear in EventCalls as steps between the operations, whatever they call.
- Migrations: walking the directory, timestamps and timings of rows, the column upgrades of the metadata table (one call here), and a commit whose outcome is unknown.
- ReentrantMutex: a goroutine id that fails to parse; ids are positive and distinct, and only the holder unlocks.
- WorkerPool: tasks that call back into the pool, nil tasks and panics inside tasks.
- SqlText.NormalizeSchemaScript: which statements begin a routine, and the conversion of one statement, are parameters; capitals are those of ASCII letters.
- SqlText and TotpKeys: white space is the ASCII white space of `strings.TrimSpace`.
- MySqlLiterals: of both languages, strings with a charset or N or B in front, adjacent strings, comments (`SplitSQL` has dropped them), words behind a period or beginning with a digit, `[` of SQLite, the NUL that MySQL refuses in backquotes, other SQL modes than the default, and whether a quoted text is a name or a string.
- Table rewriting in engine/database/dump.go, `matchingParen` and `splitTopLevel`: their meaning rests on regular expressions.
- Absorption: multipliers are reals instead of floats, amounts and costs are unbounded, a creature without a motion record is one with no mana, and the auras do not change between listing and use; the effects of removing an aura besides its removal.
- Absorption.ShareFits: proved over reals; the code's float quotient can fall just below a whole number and truncate one lower, as 49 * (1 / 49) does to 0. `Absorption.CreatureWaste` is not affected.
- Aead: AES-GCM is any cipher with the right sizes that opens what it sealed; forgery is not modelled. Callers that share the decrypted buffer are not modelled.
- TotpSecrets: the digest is checked exactly for the hashed text, as an ideal hash would; a commit whose outcome is unknown, and accounts added while the server runs, are not modelled.
- The Lua VM, sockets, drivers, configuration, and the rest of the game content.
