# A verified model of the FSD server's state machines and codecs

The server relays traffic between pilots and controllers of a flight-simulation network over the
line-based FSD protocol and keeps users, flight plans, activities and histories in a database. This
project models its self-contained cores in Dafny 4.11 and proves what they promise. `dafny verify
dfyconfig.toml` checks everything. Nothing here runs the server.

Code that updates objects in place is a class whose methods are proved against functions on values. For each
such function lemmas state its whole effect and every answer without naming its body, and the theorems about
whole runs are lemmas about it too. Protocols of several goroutines are
state machines whose steps interleave freely.

## The parts

**RateLimiter.** The sliding-window limiter keeps a pruned list of accepted times per key and forgets idle
keys in the background. The reference is a log that never forgets. On a clock that does not go back,
every answer is the one the reference gives, cleanups cannot be observed, and no closed interval as long as
the window holds more than the limit. Clock readings are parameters.

**Framing, Packet.** The scanner cuts a byte stream at CRLF; its lines do not depend on how the stream was
cut into reads. The packet printer fills a buffer of a precomputed length; the parser searches a table of
command prefixes. Print-then-parse and parse-then-print are round trips, with the exact condition for the
former. A Go byte string is a `string` whose characters stand for bytes.

**FlightPlanCodec, FlightPlanLock.** A plan printed as a `$FP` packet and read back restores its fifteen
fields exactly when no text holds a colon or a CRLF. The locking machine has three steps: a pilot's
submission, a controller's edit, a controller's cruise-altitude edit. It keeps a client's in-memory plan equal to its
row and gives a locked plan to the controllers.

**Activities.** Editing an activity merges its base information, compares the old and the new facility list and
deletes, inserts and updates rows; it is a correct reconciliation for every order in which maps are visited. Every run of
serialised sign-ups, leaves and edits keeps the tables in order.

**Sessions, SessionObjects.** Login, the reconnect window with its timer, kill, deletion with its accounting,
and shutdown, over any number of clients and callsigns. `Sessions` states each public operation as a
function on the whole world and proves the registry and the accounting properties for all runs;
`SessionObjects` has the objects whose methods compute those functions. A session's read loop may end at any
time, so a loop that outlives a reconnect and then drops the resumed client is among the runs.

**Broadcast.** The fan-out over a snapshot with a semaphore and a WaitGroup: every interleaving of the loop,
its workers and clients that disconnect and come back. `disconnectClients` has the same shape.

**CachedValue.** The double-checked cache, for any number of callers that interleave, and as an object that
one caller uses at a time.

**EmailCodes, Pbh, Permissions.** One-time codes over any sequence of sends and verifications; the packed
pitch-bank-heading word over exact reals; the fold of an unordered permission request into a mask.

## Assumptions

- Each public operation of a client or of the manager is one atomic step: nothing happens between `Delete`'s
  test and its lock (client.go:124-125), between `MarkedDisconnect` and the `Delete` it ends with
  (client.go:181-186), within one login, or between Shutdown's snapshot and its disconnects.
- Database writes do not fail, transactions are serialised, and a facility named in a sign-up is read in the
  same step. Tables are maps with the declared unique indexes, cascade and column default.
- Logins are successful ones. Logins after a shutdown are included: they create clients that are never
  registered (client_manager.go:134-136, with the error ignored at command_handler.go:86).
- Filters of a broadcast, lower-casing of an address, random codes, clock readings and what the mail server
  answers are parameters.

## What turned out false, and the exact condition

- "Erasing every pilot submission that names the current route of an initially locked plan changes nothing" fails
  after the pilot has named another route, because that unlocks the plan (client.go:228-229):
  `UnlockedSubmissionCounts` is a concrete run. `SubmissionIgnoredExactly` says when one submission does
  nothing, `RefusedSubmissionsErased` and `LockedPlanBelongsToControllers` what can be erased.
- "Each user is credited the seconds of that user's histories" fails when another user reconnects under the
  callsign, because `SetUser` (command_handler.go:57) changes who is credited but not whose history it is:
  `ReconnectMovesCredit`. It holds after every run in which clients are resumed by their history's own user
  (`CreditedPerUser`), and `RemovalPerUserExactly` says when one removal keeps it. The sum over all users is always
  right.
- "An edit stores the base information asked for" fails for a blank text or a zero in place of something else, which
  keep the old value: `InfoAsWanted`.
- "The edited rows agree with the new list" fails for a new facility that asks for rating 0, which Create
  replaces by the column default 2 (model.go:141): `EntryHasRow` has the condition.
- "The broadcast always returns" fails when `MaxBroadcastWorkers` is 0, which the configuration does not exclude
  (internal/interfaces/config/fsd_server.go:49 caps it from above only): `NoWorkersBlock` is a concrete run,
  `CallStuckExactly` the condition for every interleaving, `QuietCallReturnsExactly` one to be checked before the call.
- The broadcast always appends CRLF (client_manager.go:212), also to a packet that ends in one, so its
  recipients get an empty line as well: `TerminatedOnce`.
- Without the length check that `handleCommand` makes beforehand, a short submission with another route
  unlocks the plan in memory only: `SubmissionSyncedExactly`. A short controller's edit likewise locks it in memory
  only: `ShortEdit`. `EnabledIsAdmitted` ties the lengths of the runs to the command table.
- Angles outside ten signed bits do not survive the PBH word: `PitchAndBankWithinHalfStep`.

## Model

| member | source | states |
|---|---|---|
| RateLimiter.SlidingWindowLimiter.Allow | internal/http_server/middleware/limiter.go:29-53 | trimming loop, answer and new records equal the step function that the run theorems are about, other keys untouched |
| RateLimiter.SlidingWindowLimiter.Cleanup | internal/http_server/middleware/limiter.go:64-76 | in any key order, exactly the keys whose last time is older than two windows disappear |
| RateLimiter.AnswerMeetsSpecification | internal/http_server/middleware/limiter.go:29-53 | after any run a request is accepted if and only if fewer than the limit were accepted for its key in the closed window that ends now, counted in a log that never forgets |
| RateLimiter.StoredLogAgrees | internal/http_server/middleware/limiter.go:39-52 | refinement invariant: seen from any later window start, the pruned log is the full log |
| RateLimiter.CleanupIsUnobservable | internal/http_server/middleware/limiter.go:64-76 | erasing all cleanups from a run changes no answer |
| RateLimiter.SweepForgetsIdleKeys | internal/http_server/middleware/limiter.go:64-76 | in a reachable state a cleanup drops exactly the keys that have times, all older than two windows, and leaves the others alone |
| RateLimiter.GrantedIsAccepted | internal/http_server/middleware/limiter.go:29-53 | the requests that the limiter itself accepts in a run are the reference log |
| RateLimiter.NoWindowOverfull | internal/http_server/middleware/limiter.go:45-52 | every closed interval of window length, wherever it starts, holds at most the limit of requests per key that the limiter has accepted |
| RateLimiter.StoredLogsBounded | internal/http_server/middleware/limiter.go:39-52 | in every reachable state each stored log is sorted, no longer than the limit, and not empty when the limit is positive |
| Framing.Index | internal/fsd_server/packet/net_utils.go:24 | the first occurrence of CRLF, or -1 exactly when there is none |
| Framing.Scan | internal/fsd_server/packet/connection_handler.go:100-109 | for any cutting of a stream into reads, also between CR and LF, the lines are those of the whole stream |
| Framing.Drain | internal/fsd_server/packet/net_utils.go:24-26 | taking complete lines out of a buffer neither loses nor invents lines for any continuation, and leaves no separator behind |
| Framing.DrainAtEnd | internal/fsd_server/packet/net_utils.go:21-29 | at the end of the stream a non-empty rest is the last line and an empty rest is dropped |
| Framing.LinesAreSignFree | internal/fsd_server/packet/net_utils.go:24-26 | no line contains CRLF |
| Framing.FramingRoundTrip | internal/fsd_server/packet/net_utils.go:19-32 | they arrive as they were if and only if none contains CRLF |
| Framing.TerminateLines | internal/fsd_server/packet/net_utils.go:19-32 | terminating the lines of a stream gives the stream back, up to a missing last CRLF |
| Packet.ParserCommandLine | internal/fsd_server/packet/packet_utils.go:17-25 | the parser is the search through the command table that the theorems are about |
| Packet.SearchPrefix | internal/fsd_server/packet/packet_utils.go:18-24 | the loop finds the first command that begins the line and splits the rest at colons |
| Packet.MakePacket | internal/fsd_server/packet/packet_utils.go:27-54 | the filled buffer is the command, the colon-separated parts and CRLF, with no byte left over |
| Packet.JoinLength | internal/fsd_server/packet/packet_utils.go:28-36 | the precomputed length is right |
| Packet.CommandsPrefixFree | internal/interfaces/fsd/constant.go:31-34 | no listed command is the beginning of another; none contains a colon, CR or LF |
| Packet.KnownCommands | internal/interfaces/fsd/constant.go:31-52 | the commands the parser knows are those with a length requirement and the two that remove a client |
| Packet.ParseCharacterised | internal/fsd_server/packet/packet_utils.go:17-25 | a line parses to a command and parts if and only if it is that command followed by those colon-free parts |
| Packet.ParseUnrecognised | internal/fsd_server/packet/packet_utils.go:24 | a line is temporary data if and only if no listed command begins it |
| Packet.TableOrderIrrelevant | internal/fsd_server/packet/packet_utils.go:18-23 | any two prefix-free tables with the same commands parse every line alike |
| Packet.SplitJoin | internal/fsd_server/packet/packet_utils.go:21 | splitting colon-free parts that were joined gives them back |
| Packet.JoinSplit | internal/fsd_server/packet/packet_utils.go:21 | joining what was split gives the text back |
| Packet.PacketRoundTrip | internal/fsd_server/packet/packet_utils.go:17-54 | a printed packet, framed and parsed, is its command and parts if and only if there is a part and no part contains a colon or CRLF |
| Packet.RecognisedLinePrintsBack | internal/fsd_server/packet/packet_utils.go:17-54 | printing a recognised line again gives that line and CRLF, which parses the same |
| Packet.TerminatedOnce | internal/fsd_server/packet/client.go:313-332 | sending a line delivers one line whether or not it was terminated; appending CRLF to a terminated one, as a broadcast does, delivers an empty line too |
| FlightPlanCodec.DecimalReadBack | internal/utils/cast_utils.go:6-12 | every 64-bit integer printed in decimal reads back as itself, whatever the default |
| FlightPlanCodec.StrToIntExactly | internal/utils/cast_utils.go:6-12 | a text reads as a number if and only if it is an optional sign, leading zeros and that number's digits; every other text gives the default |
| FlightPlanCodec.FieldsReadBack | internal/database/flight_plan_operation.go:75-91 | the printed positions are the positions read: all fifteen fields are restored, nothing else changes |
| FlightPlanCodec.PlanRoundTrip | internal/database/flight_plan_operation.go:145-151 | print, frame, parse and update restore callsign, receiver and fifteen fields if and only if no text contains a colon or CRLF |
| FlightPlanCodec.EditWritesLikeSubmission | internal/fsd_server/packet/command_handler.go:357 | a controller's edit, applied from its second part on, writes what a pilot's submission with the same tail writes |
| FlightPlanLock.FlightPlan.UpdateFlightPlanData | internal/database/flight_plan_operation.go:75-91 | the fifteen assignments in place amount to the field update of the codec |
| FlightPlanLock.FlightPlanOperation.UpsertFlightPlan | internal/database/flight_plan_operation.go:43-73 | short data is refused; an existing row is overwritten, otherwise one is created; nothing is stored on a simulator server; other users' rows are untouched |
| FlightPlanLock.FlightPlanOperation.UpdateFlightPlan | internal/database/flight_plan_operation.go:93-114 | outcome, plan and row after the length check, the lock check and the update; other rows untouched |
| FlightPlanLock.FlightPlanOperation.UpdateCruiseAltitude | internal/database/flight_plan_operation.go:116-143 | altitude and lock are set in memory and in the row's two columns; a missing row is reported as locked |
| FlightPlanLock.Client.constructor | internal/fsd_server/packet/client.go:67-75 | a new client remembers the stored plan, except on a simulator server |
| FlightPlanLock.Client.UpsertFlightPlan | internal/fsd_server/packet/client.go:212-234 | the submission step: create, ignore on a simulator server, unlock on another route, update |
| FlightPlanLock.Client.HandleAtcEditPlan | internal/fsd_server/packet/command_handler.go:356-357 | the controller's edit step: lock outside simulator mode, then overwrite |
| FlightPlanLock.Client.HandleCruiseEdit | internal/fsd_server/packet/command_handler.go:250 | the cruise-altitude step |
| FlightPlanLock.StepKeepsSynced | internal/database/flight_plan_operation.go:93-143 | outside simulator mode memory equals row after every step, accepted or refused, and controller steps leave the plan locked |
| FlightPlanLock.FirstSubmission | internal/database/flight_plan_operation.go:43-73 | a client without a plan: refused if and only if too short; otherwise it holds the submitted values field by field, in its own name or in place of the stored row, stored unless on a simulator server |
| FlightPlanLock.LaterSubmission | internal/fsd_server/packet/client.go:221-233 | a client with a plan: which submissions are ignored, too short or refused as locked; an accepted one opens the plan, holds the submitted values and is stored |
| FlightPlanLock.EditExactly | internal/fsd_server/packet/command_handler.go:356-357 | a controller's edit writes what a submission with the same tail would, keeps cid and callsign, locks the plan and stores it; open and not stored on a simulator server |
| FlightPlanLock.ShortEdit | internal/fsd_server/packet/command_handler.go:356-357 | without the length check a refused edit has still locked the plan in memory |
| FlightPlanLock.CruiseEditExactly | internal/database/flight_plan_operation.go:116-143 | altitude and lock are written in memory and in the row and nothing else is, only the altitude in memory on a simulator server |
| FlightPlanLock.EnabledIsAdmitted | internal/interfaces/fsd/constant.go:36-52 | the lengths the runs assume are those the command table demands of `$FP` and `$AM` |
| FlightPlanLock.SubmissionSyncedExactly | internal/fsd_server/packet/client.go:225-232 | a submission keeps memory and row equal unless, and only unless, the plan is locked, the route differs and parts are missing |
| FlightPlanLock.SubmissionIgnoredExactly | internal/fsd_server/packet/client.go:225-232 | a submission changes nothing if and only if the plan is locked and the route is the current one, or the plan is open and each of the fifteen submitted values is already there |
| FlightPlanLock.RefusedSubmissionsErased | internal/fsd_server/packet/client.go:212-234 | in any run, erasing each submission that names the current route of a locked plan leaves the final plan unchanged |
| FlightPlanLock.LockedPlanBelongsToControllers | internal/fsd_server/packet/client.go:225-232 | while the pilot keeps the route, a locked plan stays locked and is what the controllers' steps alone make of it |
| FlightPlanLock.UnlockedSubmissionCounts | internal/fsd_server/packet/client.go:228-232 | concrete run in which a submission naming the current route may not be erased |
| Activities.Activity.Diff | internal/interfaces/operation/model.go:93-136 | `other` becomes the requested information, except that a blank text or a zero keeps what is there; the map holds exactly the columns that changed, with their new values |
| Activities.InfoWritten | internal/interfaces/operation/model.go:93-136 | writing those columns makes the row equal to the activity in memory; the map is empty if and only if nothing changed, and a second edit writes nothing |
| Activities.MergedColumns | internal/interfaces/operation/model.go:93-136 | column by column: a blank text or a zero keeps the current value, time, status and NOTAMs are always taken over |
| Activities.InfoAsWanted | internal/interfaces/operation/model.go:95-126 | the result is exactly what was asked for if and only if no blank text and no zero was asked for in place of something else |
| Activities.ActivityOperation.Compare | internal/database/activity_operation.go:245-268 | fails if and only if a non-zero id is unknown or repeated; otherwise deletes are the ids not named again, inserts the new entries in order, updates the differing ones |
| Activities.ActivityOperation.Update | internal/database/activity_operation.go:291-297 | for every map order, each named row gets its columns and no other row changes |
| Activities.ActivityOperation.Transaction | internal/database/activity_operation.go:272-299 | base information, delete with cascade, create, update |
| Activities.ActivityOperation.UpdateActivityInfo | internal/database/activity_operation.go:231-300 | the whole edit is the reconciled table and the updated base information, or the tables untouched and the inconsistency error |
| Activities.ActivityOperation.SignFacilityController | internal/database/activity_operation.go:157-176 | the controller's sign-up step with its four refusals |
| Activities.ActivityOperation.UnsignFacilityController | internal/database/activity_operation.go:178-195 | the controller's leave step with its refusals |
| Activities.ActivityOperation.SignActivityPilot | internal/database/activity_operation.go:197-216 | the pilot's sign-up step with its two refusals |
| Activities.ActivityOperation.UnsignActivityPilot | internal/database/activity_operation.go:218-229 | the pilot's leave step |
| Activities.ChangesReconcile | internal/database/activity_operation.go:272-299 | the three writes prepared by the comparison produce the reconciled table |
| Activities.EntryHasRow | internal/database/activity_operation.go:245-298 | each entry has its row, under its old id if it had one, with its callsign and frequency, and with its rating unless it is new and asks for 0 |
| Activities.AssignedIdsDistinct | internal/database/activity_operation.go:245-298 | different entries have different rows |
| Activities.RowHasEntry | internal/database/activity_operation.go:265-283 | each row of the activity stands for an entry, and rows of other activities are untouched |
| Activities.EditStoresInfo | internal/database/activity_operation.go:274-276 | after an accepted edit the stored base information is what the activity in memory has become; other activities' rows are untouched |
| Activities.EditDropsSignUps | internal/interfaces/operation/model.go:144 | an edit removes exactly the sign-ups of the facilities it drops |
| Activities.RefusedTouchesNothing | internal/database/activity_operation.go:157-300 | a refused step writes nothing in any table, base information included |
| Activities.EditRefusedExactly | internal/database/activity_operation.go:246-262 | an edit is refused if and only if some non-zero id is no facility of the activity or comes twice |
| Activities.RunKeepsOk | internal/interfaces/operation/model.go:168-186 | after every run: one controller row per activity and user and per activity and facility, one pilot row per activity and user and per activity and callsign, every controller row names a facility of its activity |
| Activities.SignSucceedsExactly | internal/database/activity_operation.go:157-176 | which of the five answers signing gets: unknown facility, rating not above the minimum, user already signed in the activity, facility taken, and success in all other cases |
| Activities.SignAddsRow | internal/database/activity_operation.go:169-170 | a success adds one row for this facility, its activity and this user, and changes nothing else |
| Activities.LeaveExactly | internal/database/activity_operation.go:178-195 | leaving succeeds if and only if this user has signed for this facility, and removes exactly that sign-up; which refusal otherwise |
| Activities.PilotSignsExactly | internal/database/activity_operation.go:197-216 | a pilot's sign-up succeeds if and only if neither user nor callsign is taken in the activity, and adds one row; otherwise the first row in the way decides the answer |
| Activities.PilotLeavesExactly | internal/database/activity_operation.go:218-229 | a signed pilot's leave removes exactly that sign-up; anybody else is told so |
| Activities.UnsignUndoesSign | internal/database/activity_operation.go:178-195 | leaving right after signing restores all sign-ups |
| Sessions.DeleteRemovesOwnEntry | internal/fsd_server/packet/client.go:123-155 | although it deletes by callsign, a deletion removes its own client's entry and no other |
| Sessions.LoginExactly | internal/fsd_server/packet/command_handler.go:31-58 | refused while the registered client is connected; otherwise resumed with timer stopped, new connection and user, history untouched; any other login creates a connected client and registers it unless shutting down |
| Sessions.DropOpensWindow | internal/fsd_server/packet/connection_handler.go:111-118 | a drop disconnects the client and starts its timer, and changes nothing else |
| Sessions.KillOpensWindow | internal/fsd_server/packet/command_handler.go:374-378 | a kill leaves the client registered, disconnected, with its timer pending; of an unknown callsign, nothing changes |
| Sessions.FireDeletes | internal/fsd_server/packet/client.go:123-155 | a timer that goes off unregisters its client, records it up to that moment and credits its user, unless it is a pilot on a simulator server |
| Sessions.ShutdownDeletesAll | internal/fsd_server/packet/client_manager.go:56-121 | the first shutdown leaves every client disconnected without timer and records each one that counts at the moment it is stopped; later ones do nothing |
| Sessions.ShutdownEmptiesRegistry | internal/fsd_server/packet/client_manager.go:56-80 | a shutdown leaves the registry empty |
| Sessions.StepKeepsOk | internal/fsd_server/packet/client_manager.go:133-169 | every step keeps the registry in order, and once shut down it is empty and stays so |
| Sessions.RegistrySafety | internal/fsd_server/packet/client_manager.go:133-169 | the registry properties in every state reachable from the empty server |
| Sessions.RunKeeps | internal/fsd_server/packet/client.go:123-210 | every run keeps registry and books |
| Sessions.Conservation | internal/fsd_server/packet/client.go:134-149 | after every run the credited seconds equal the sum of all histories' online time; each deleted client that counts has exactly one history, spanning its life however often it reconnected; on a simulator server no pilot is recorded or credited |
| Sessions.SecondsTruncates | internal/database/history_operation.go:41 | online time is whole seconds, cut off towards zero |
| Sessions.RemovalPerUserExactly | internal/fsd_server/packet/client.go:140-149 | a removal keeps the books of each single user if and only if the credited user is the history's user or no second is at stake |
| Sessions.CreditedPerUser | internal/fsd_server/packet/client.go:134-149 | after every run in which clients are resumed only by the user of their history, each user is credited exactly the seconds of the histories saved under that user |
| Sessions.ReconnectMovesCredit | internal/fsd_server/packet/command_handler.go:56-58 | concrete run: the history is one user's, the credit another's |
| SessionObjects.Database.EndRecordAndSaveHistory | internal/database/history_operation.go:39-43 | one history is appended, its online time the whole seconds since its start, truncated towards zero |
| SessionObjects.Client.Delete | internal/fsd_server/packet/client.go:123-155 | the object's deletion is the deletion step: timer stopped, history, credit, registry entry |
| SessionObjects.Client.Account | internal/fsd_server/packet/client.go:134-149 | which history is saved and who is credited, for controllers and pilots, with and without simulator mode |
| SessionObjects.Client.Reconnect | internal/fsd_server/packet/client.go:157-177 | succeeds if and only if the client is disconnected; stops the timer, clears the ATIS text, takes the new connection, keeps everything else |
| SessionObjects.Client.MarkedDisconnect | internal/fsd_server/packet/client.go:179-210 | the drop step, immediate or with a reconnect timer, and nothing for a client already disconnected unless immediate |
| SessionObjects.ClientManager.AddClient | internal/fsd_server/packet/client_manager.go:133-145 | refused if and only if shutting down or the callsign is registered |
| SessionObjects.ClientManager.GetClient | internal/fsd_server/packet/client_manager.go:147-157 | finds the registered client, nothing once shutting down |
| SessionObjects.ClientManager.DeleteClient | internal/fsd_server/packet/client_manager.go:159-169 | removes the entry of a callsign and reports whether there was one |
| SessionObjects.ClientManager.Login | internal/fsd_server/packet/command_handler.go:22-62 | the objects after a login are the login step: resumed, refused or created |
| SessionObjects.ClientManager.KillClient | internal/fsd_server/packet/command_handler.go:365-380 | a kill puts a found client into its reconnect window |
| SessionObjects.ClientManager.GetClientSnapshot | internal/fsd_server/packet/client_manager.go:82-95 | every registered client exactly once, in any order |
| SessionObjects.ClientManager.DisconnectClients | internal/fsd_server/packet/client_manager.go:98-121 | each snapshot client is disconnected for good, at its own clock reading |
| SessionObjects.ClientManager.Shutdown | internal/fsd_server/packet/client_manager.go:56-80 | the shutdown step; a second shutdown changes nothing |
| Broadcast.RunKeepsOk | internal/fsd_server/packet/client_manager.go:218-240 | invariant and step bound over whole interleavings |
| Broadcast.BroadcastSafety | internal/fsd_server/packet/client_manager.go:197-241 | at most `MaxBroadcastWorkers` hold the semaphore, nobody gets the message twice, sender and filtered clients never, at most six protocol steps per client and one more |
| Broadcast.StuckExactly | internal/fsd_server/packet/client_manager.go:216-240 | a state in order has no possible protocol step if and only if the call has returned or waits at a semaphore without room |
| Broadcast.ReturnedIsComplete | internal/fsd_server/packet/client_manager.go:240 | the call returns only after all workers, and then exactly the chosen clients have the message, once |
| Broadcast.DecidedAtCheck | internal/fsd_server/packet/client_manager.go:218-225 | in every interleaving a client is chosen if and only if it is eligible in the very step that looks at it, and the decision is final |
| Broadcast.DeliveredAsSeen | internal/fsd_server/packet/client_manager.go:197-241 | whatever clients connect and disconnect meanwhile: when the call has returned, each snapshot client has been looked at, and it has the message, once, if and only if it was then connected, not the sender, and passed the filter |
| Broadcast.SteadyClientReached | internal/fsd_server/packet/client_manager.go:197-241 | a client whose own connection does not change gets the message if and only if it is eligible at the start, whatever the others do |
| Broadcast.QuietBroadcastReachesEligible | internal/fsd_server/packet/client_manager.go:197-241 | corollary for calls during which no connection changes |
| Broadcast.CallStuckExactly | internal/fsd_server/packet/client_manager.go:216-240 | a call that has not returned cannot go on if and only if `MaxBroadcastWorkers` is 0 and the loop has looked at an eligible client; with room for one worker it never gets stuck |
| Broadcast.NoRoomNeverReturns | internal/fsd_server/packet/client_manager.go:228 | with `MaxBroadcastWorkers` 0 the call does not return while a client that is eligible at the start keeps its connection |
| Broadcast.QuietCallReturnsExactly | internal/fsd_server/packet/client_manager.go:216-240 | a call without connection changes that has come to rest has returned if and only if there is room for a worker or nobody to send to |
| Broadcast.NoWorkersBlock | internal/fsd_server/packet/client_manager.go:228 | concrete run: one client, `MaxBroadcastWorkers` 0, stuck after the first step |
| CachedValue.RunKeepsOk | internal/utils/cached_value.go:25-47 | the invariant over every interleaving |
| CachedValue.RefreshesNeverOverlap | internal/utils/cached_value.go:36-44 | two callers are never refreshing at once |
| CachedValue.RefreshOnlyWhenStale | internal/utils/cached_value.go:39-44 | a refresh after a non-nil value starts only when that value is older than the cache time |
| CachedValue.ReturnsAreFresh | internal/utils/cached_value.go:25-47 | every returned value was generated no longer than the cache time before the check that released it |
| CachedValue.NeverStuck | internal/utils/cached_value.go:29-46 | while a caller is inside, some caller can move |
| CachedValue.CallAlone | internal/utils/cached_value.go:25-47 | a call that meets nobody is a run of the protocol that returns a current value unchanged and replaces any other |
| CachedValue.CachedValue.GetValue | internal/utils/cached_value.go:25-47 | the object's data, time and answer are those of the protocol run; without a positive cache time the first value is returned for ever |
| EmailCodes.EmailService.VerifyCode | internal/http_server/service/email.go:100-124 | accepted without a mail server; otherwise the verification step with its four refusals, and only success removes the code |
| EmailCodes.EmailService.SendEmailCode | internal/http_server/service/email.go:126-162 | nothing without a mail server; too early or unrendered changes nothing, otherwise code and time are recorded even when the mail server fails |
| EmailCodes.MapsHoldLatest | internal/http_server/service/email.go:100-162 | the maps hold each address's latest recorded send, and its code unless it has been used |
| EmailCodes.SuccessMatchesLatestSend | internal/http_server/service/email.go:100-124 | a success has the code and user of the latest send to its address and is not later than the expiry time |
| EmailCodes.SuccessesUseDifferentSends | internal/http_server/service/email.go:122 | no send serves two successes |
| EmailCodes.SucceedsExactly | internal/http_server/service/email.go:100-124 | a verification succeeds if and only if there is no mail server, or the latest send to its address is unused, unexpired and has its code and user |
| EmailCodes.VerifyAnswers | internal/http_server/service/email.go:105-123 | which of the four refusals a verification gets, from the latest send to its address |
| EmailCodes.RecordedExactly | internal/http_server/service/email.go:126-157 | a send is recorded if and only if there is a mail server, the template renders and the latest recorded send to the address is at least the interval ago |
| EmailCodes.SendAnswers | internal/http_server/service/email.go:131-161 | which answer a send gets, in the source's order |
| EmailCodes.AcceptedWithoutServer | internal/http_server/service/email.go:101-129 | without a mail server everything is accepted and nothing recorded |
| EmailCodes.SendsSpaced | internal/http_server/service/email.go:131-135 | recorded sends to one address are at least the send interval apart |
| Pbh.PackPBH | internal/utils/pbh_utils.go:12-29 | the accumulated word is the word with the four rounded fields |
| Pbh.UnpackReadsFields | internal/utils/pbh_utils.go:31-44 | for every word the source's shift expressions read the fields as signed ten-bit numbers |
| Pbh.FieldUnits | internal/utils/pbh_utils.go:31-44 | units, signs and places of the four fields |
| Pbh.RoundIsNearest | internal/utils/pbh_utils.go:19-25 | rounding is to the nearest integer, halves away from zero |
| Pbh.PackUnpack | internal/utils/pbh_utils.go:12-44 | packing what was unpacked gives every 32-bit word back with bit 0 cleared |
| Pbh.UnpackedSteps | internal/utils/pbh_utils.go:12-44 | for each angle whose conversion Go defines, unpacking what was packed gives the rounded steps: heading modulo 1024, pitch and bank wrapped into ten signed bits |
| Pbh.PitchAndBankWithinHalfStep | internal/utils/pbh_utils.go:22-26 | pitch and bank that fit the integer conversion come back within 45/256 degree if and only if they round into ten signed bits |
| Pbh.HeadingWithinHalfStep | internal/utils/pbh_utils.go:19-20 | a heading that fits the unsigned conversion comes back within 45/256 degree up to whole turns, the ground flag exactly |
| Pbh.HeadingInCircle | internal/utils/pbh_utils.go:34-35 | the decoded heading of every word lies in [0, 360) |
| Permissions.UserService.EditUserPermission | internal/http_server/service/user.go:419-457 | for every order: success if and only if both users exist, the operator may edit permissions and holds every named bit, all names are known and all values booleans, and the write goes through; then only the target's mask changes, to the granted bits set and the revoked bits cleared; any failure changes no mask |
| Permissions.VisitRequest | internal/http_server/service/user.go:430-451 | the loop over the unordered request, and for each error an entry that explains it |
| Permissions.BitsByPosition | internal/interfaces/operation/permission.go:7-41 | the named bits are the declared ones, doubling from one to the next with the two unnamed left out |
| Permissions.UserService.AddUser | internal/database/user_operation.go:110-145 | a new user starts without permissions |
| Permissions.NamedBitFollowsRequest | internal/http_server/service/user.go:436-444 | a named bit ends up as the request says |
| Permissions.OtherBitsUntouched | internal/http_server/service/user.go:430-451 | bits without a name in the request are untouched |
| Permissions.UnionNeverGrows | internal/http_server/service/user.go:427-457 | nor does any run of them |

## Left out

- Fatal errors of `Client.SendError` (client.go:284-292) and failed authentication after a reconnect: they disconnect a client without a timer and unregister it past `Delete`, so the timer and accounting invariants do not cover them.
- Interleavings inside one public operation of the session objects, see Assumptions.
- SessionObjects.ClientManager.Shutdown: the five-second limit and the error it returns; the disconnects are one step.
- SessionObjects.Client.Reconnect: the session's own callsign, which it sets, and log lines.
- SessionObjects.Client.MarkedDisconnect: closing the connection, whose failure is ignored; a nil motd is not told from an empty one. Position data of a client are not modelled.
- Sessions.Conservation: rounding of `Duration.Seconds()` in floating point, and database writes that fail.
- Framing.Scan: the scanner's buffer limit, read errors, and the loop's early end once a session is disconnected.
- FlightPlanLock.Client.HandleAtcEditPlan: a target without a plan. The nil test at command_handler.go:353 compares the method, not the plan, so the step is stated for a target that has one; the same holds for the cruise-altitude step. Rights of the sender and the formatting of the altitude text are not modelled.
- FlightPlanLock: a plan object holds its struct as one value; two connected clients of one user, edits through the web interface and writes that fail are not modelled.
- Activities.ActivityOperation.UpdateActivityInfo: requires the loaded facility list to be the stored one; a list loaded before another transaction changed the table is not modelled.
- Activities: saving, deleting and status changes of activities and pilots; a facility loaded before another transaction changed it; soft deletion and the created and updated columns.
- Broadcast: a negative `MaxBroadcastWorkers`, with which the channel cannot be made; the early returns for an empty message, an empty snapshot and a server that is shutting down; what the filters compute; whether a handed-over message is dropped because its client has disconnected meanwhile.
- CachedValue: a nil getter, and callers of a cache without a positive cache time in the interleaved protocol (the object covers them).
- EmailCodes: concurrent calls.
- Pbh: floating-point rounding; conversions whose result Go does not define are excluded by `Convertible`.
- Permissions.UserService.EditUserPermission: which of several errors about the request is reported depends on the map order and is not fixed; a failing user query other than an unknown id, audit logs and the notification mail. Permissions of users changed by other means are not part of the runs.
- RateLimiter: a negative limit, with which `Allow` cannot allocate its list; the HTTP middleware around it.
- Distances and range filters, `OverflowTrigger`, `slice_utils`, field validators, rating tables, paging, configuration, logging, storage, templates, tokens and the HTTP controllers: libraries, I/O or members that would only be easy.
