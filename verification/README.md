# A model of the call back end, and what is proved about it

The back end relays signaling frames between the members of a call. This
project models the parts of it whose behaviour is hardest to see from the code
and proves what they promise, for every input, every interleaving of their steps
and every run.

`dafny verify dfyconfig.toml` checks all of it; the sources are plain Dafny 4.11.

## What is modelled

**The signaling hub.** One goroutine owns the rooms. Every send is non-blocking
into a bounded queue; a full queue means eviction, an eviction is announced to
the room, and the announcement can fill further queues. `Cascade` and
`HubOutcome` say on values what such a cascade does to a room; `SignalingHub`
is the imperative hub (mutually recursive `Announce`, `DropStalled`, `DropOne`,
`LeaveRoom`), proved against them, with a choice `c :| c in todo` wherever the
source ranges over a map. `Confluence` characterises the evicted clients as a
least fixed point and counts the pushes. `PresenceLog` and `HubPresence` follow
what every client was told: the hub keeps a ghost log of membership changes,
and the invariant `InStep` says that each member's accepted presence frames are
its welcome and then every later change of its room in log order. `Clients` is
the connection with its writer; it remembers what it was offered, what it took
of that, what its writer took off the queue and what reached the socket. The hub
has a constant `midStepDrains`: the scheduler may let writers run while a step is
in progress, and every contract says what holds then and what needs the queues
to hold still. `HubLifecycle` is the hub's loop and its callers as a state
machine, and `HubSteps` shows that what `SignalingHub` does for a call, and when
it closes up, is a step of that machine.

What a client was offered since its welcome is always the true story of its room
(`Told`). A client that is evicted while writers run may skip a part of it: it
refuses one announcement, its writer makes room, and it takes the next one
before the hub comes round to closing its queue. `HeardABeginning` is the exact
condition under which what it took still is a beginning of the story. It speaks
only of the frames offered and of which were taken: from the first refused
presence frame on, those taken must read like the frames from that one on. To
take none after a refusal is always enough, and is necessary unless the refused
frame is offered again, as it is when two connections of one user leave in a row.

`Deliver`, `Leave` and `Join` say what each client's queue was offered frame by
frame, with every field of every frame written out, and so do the reader, the
budget, the stores and the other hubs about their own results: their contracts
do not rest on the functions the proofs use.

**The reading side.** `TokenBuckets` is the lazily refilled message budget,
`ReadPump` the loop that spends it, stamps the sender and publishes. `Protocol`
separates the frames clients may send from those only the server emits.

**Sessions.** `SessionRecords` is the life of one stored session (a sliding
window capped by an absolute one), `SessionIndex` the keys and per-user index
sets in Redis and the transactions on them, `Sessions` the store with its loops.
Any command may fail; a failed write may have taken effect or not.

**Login limits.** `FixedWindow` is one counter and how much it lets through,
`RateLimit` the limiter over all keys, `Login` its use around password
verification. A login is two steps, so logins interleave freely. A matching
password clears the account's counter (`internal/auth/service.go:152`) before its
session is created (`internal/auth/service.go:156`), so matches, resets and
logins are counted apart, and the bound on guesses holds of logins exactly while
no reset comes with a failed creation.

**Migrations.** `Migrations` is the protocol of any number of replicas (advisory
lock, snapshot of the versions, one transaction per file, failures, lost
sessions, commits whose answer is lost, crashes); `Migrate` is one replica's
program as written, and every way it can go is shown to be a run of the protocol.

**The inbox hub** (`Inbox`) and **stored password hashes** (`Base64`,
`PasswordHash`).

Assumptions on the surroundings: Go's unbuffered channels hand over or do
nothing; a Redis transaction or script is atomic, a key with an expiry is gone
once the clock has passed it, and go-redis stores a key without an expiry when
the time to live is not positive; a PostgreSQL session that ends releases its
advisory locks and rolls its transaction back. Clocks are parameters.

Where the code and its comments differ, the code is followed:
`internal/signaling/protocol.go:51` says peers are filled in for a welcome only,
the hub fills them in for every presence frame (`hub.go:107`, `hub.go:138`);
`internal/auth/service.go:101` says every login attempt consumes both counters,
but a refusal by address returns before the account's counter is touched;
`internal/auth/password.go:102` speaks of weaker parameters, but a hash is
replaced whenever its parameters differ at all.

## Model

| member | source | states |
|---|---|---|
| SignalingHub.Hub.Push | internal/signaling/hub.go:188-195 | a frame is only ever offered to a member, whose queue is open; it is taken exactly if there is room, and a refusal leaves the queue as it was |
| SignalingHub.Hub.Announce | internal/signaling/hub.go:171-184 | everyone but one is offered the frame; the whole cascade it sets off, in one outcome: who left in which order, what every survivor's queue gained, how many pushes were made |
| SignalingHub.Hub.DropStalled | internal/signaling/hub.go:200-205 | every stalled client is gone afterwards, each having left exactly once even if it sits in several nested lists, and the evictions compose to one cascade; terminates |
| SignalingHub.Hub.Leave | internal/signaling/hub.go:118-146 | true exactly for a member, which then leaves first, its queue closed once; whoever stays is offered, and takes, exactly its departure and then everyone's who could not be told, each frame with the leaver's user id and display name; only a client whose queue could not hold them goes too; the number of pushes is exact; for anyone else nothing changes |
| SignalingHub.Hub.Remove | internal/signaling/hub.go:127-133 | the member goes from the map and is counted off, its queue is closed, a room it leaves empty goes with it, no other room changes, the log gains the departure |
| SignalingHub.Hub.Deliver | internal/signaling/hub.go:149-168 | every member but the sender whose user id is the addressee's, or every one if there is none, is offered the message once and first, nobody else is; then everyone is offered the departures of those who went before it; whoever stays took it all, whoever goes had a queue too full for it; the room, the count and all other rooms afterwards; at most n(n+1)/2 pushes to n members; without writers running inside the step exactly the least fixed point of clients is evicted, with them no one else |
| SignalingHub.Hub.Join | internal/signaling/hub.go:79-114 | the newcomer's welcome lists the user id and display name of every connection that was in the room, one entry each; the others are told its user id and display name, then of those who could not be told; who is evicted depends on the room before the join alone, not on the order of the peers in the welcome; a newcomer without room for its welcome is removed at once |
| SignalingHub.Hub.Enter | internal/signaling/hub.go:80-92 | the newcomer is in its room, which is made if need be, and counted; no other room changes |
| HubOutcome.WhoIsLeft | internal/signaling/hub.go:127-133 | after any step its room holds exactly the members that did not go, or is gone with the last of them; other rooms are as they were and the count is lower by those who went, each once |
| SignalingHub.Hub.OnRegister | internal/signaling/hub.go:64-65 | a registration has the outcome of join, keeps the hub valid and every client in step with the log; the evicted are the least fixed point |
| SignalingHub.Hub.OnUnregister | internal/signaling/hub.go:67-68 | a departure has the outcome of leave, keeps both, evicts the least fixed point that contains the leaver, and does nothing for a client already gone |
| SignalingHub.Hub.OnBroadcast | internal/signaling/hub.go:70-71 | a relayed message, from a member or not, is delivered as Deliver says, reaches no other room, and keeps both |
| SignalingHub.Hub.Handle | internal/signaling/hub.go:59-72 | one turn of the select comes to the outcome of the event it took |
| SignalingHub.Hub.Serve | internal/signaling/hub.go:58-73 | in every run: no client in two rooms, no empty room, the count right, queues open exactly for members, none closed twice, and every member in step with the log |
| SignalingHub.Hub.CloseAll | internal/signaling/hub.go:207-215 | every open queue is closed once, no queue's content changes, no room is left |
| SignalingHub.Hub.Run | internal/signaling/hub.go:54-74 | when the hub is done every client that ever registered has a closed queue |
| SignalingHub.Hub.BeginningExactlyWhen | internal/signaling/hub.go:171-205 | whatever writers do, what any client, evicted or not, took of the presence frames is a true beginning of what happened to its room if and only if it heard a beginning: no gap in what it took, which is to have taken none after a refusal unless a refused frame is offered again |
| SignalingHub.Hub.MembersHeardABeginning | internal/signaling/hub.go:171-205 | every member has, and so has everyone else if writers run between steps only |
| SignalingHub.Hub.WireShowsThePast | internal/signaling/client.go:212-240 | what has reached the socket of a client that heard a beginning, replayed as a multiset, is the membership of its room at one real moment of its stay, and more frames only move that moment forward |
| SignalingHub.Hub.DrainedMemberIsCurrent | internal/signaling/hub.go:76-114 | a member that has read everything believes exactly who else is in its room |
| SignalingHub.Hub.GoneIsLeast | internal/signaling/hub.go:197-205 | any outcome of any step evicts no more than the least fixed point, and exactly it when no writer ran meanwhile |
| Confluence.EvictedIsLeastFixedPoint | internal/signaling/hub.go:197-205 | the evicted set is overwhelmed by itself and contained in every set closed under being overwhelmed |
| Confluence.CascadeIsLeastFixedPoint | internal/signaling/hub.go:149-205 | a cascade in any visiting order evicts exactly the least fixed point |
| Confluence.EvictedDependsOnFree | internal/signaling/hub.go:188-205 | who is evicted depends on how much room each queue has and on nothing else about it |
| Confluence.OrderDoesNotMatter | internal/signaling/hub.go:118-205 | two departures or two relays from one state evict the same clients, and every survivor gains the same multiset of frames under both |
| Confluence.JoinOrderDoesNotMatter | internal/signaling/hub.go:79-114 | two joins of one client from one state, whatever order the map lists the peers in, evict the same clients; every older member gains the same multiset of frames, and so does the newcomer but for the order of the peers in its welcome |
| Confluence.DeliveredOnce | internal/signaling/hub.go:149-168 | a survivor gains the message exactly once if addressed and otherwise not at all, then one peer-left per evicted client |
| Confluence.CouldNotTakeIt | internal/signaling/hub.go:162-167 | an addressed client that refused the message is gone at the end of the step, whatever writers did; if none ran, so is everyone addressed whose queue was full |
| Confluence.LeftPushesExactly | internal/signaling/hub.go:197-205 | the announcements of k departures from n members, each to those still there, come to exactly k(n-1) - k(k-1)/2 pushes |
| Confluence.DeliverCost | internal/signaling/hub.go:149-205 | a message to n members and the announcements of everyone it evicts come to at most n(n+1)/2 pushes |
| Cascade.OfferThenDrop | internal/signaling/hub.go:171-184 | offering a frame and dropping those who refused is one cascade of that frame |
| Cascade.LeaveSettles | internal/signaling/hub.go:118-146 | removing a member and announcing it is that member's own eviction, one departure ahead of those it causes |
| Cascade.DropsCompose | internal/signaling/hub.go:200-205 | cascades one after another among the survivors are one cascade: each queue gained what it was offered in all, cut off where it was full |
| PresenceLog.StepKeepsSync | internal/signaling/hub.go:171-205 | a cascade, whatever writers do, leaves every survivor with every change once and in order, and has offered every evicted client all changes up to its own departure; if no writer ran, it took a beginning of them |
| PresenceLog.UnbrokenExactlyWhen | internal/signaling/hub.go:188-205 | what a client took reads as a beginning of what it was offered if it took nothing after a refusal, and only then if no refused frame is offered again |
| PresenceLog.TwinFramesHideAGap | internal/signaling/hub.go:134-140 | the exception: of two equal departures of one user it may miss the first and take the second |
| PresenceLog.TrueBeginningExactlyWhen | internal/signaling/hub.go:171-205 | for a client offered the true story, what it took is a true beginning if and only if it took its welcome and left no gap |
| PresenceLog.SkippedFrameIsNoBeginning | internal/signaling/hub.go:188-205 | a schedule that breaks it: three clients are evicted, the last one's queue is full at the first announcement, its writer takes a frame, and it takes the second; that is an outcome the hub allows, and no beginning of what happened |
| PresenceLog.BelievedAt | internal/signaling/hub.go:79-146 | a welcome followed by the room's changes up to a moment replays to the multiset of members at that moment without the reader |
| PresenceLog.RefusedWelcomeBreaksSync | internal/signaling/hub.go:101-105 | a newcomer that cannot hold its welcome is announced as leaving but never as joining, so whoever stays falls out of step: the capacity of at least one is needed |
| HubPresence.StepKeepsConsistent | internal/signaling/hub.go:118-205 | departures and messages keep log, map and everyone's frames in agreement |
| HubPresence.ArrivalKeepsConsistent | internal/signaling/hub.go:79-114 | so do arrivals |
| HubPresence.SeenIsAPastRoom | internal/signaling/hub.go:79-205 | any prefix of the accepted frames that has the welcome shows a past membership between joining and leaving |
| Clients.Client.WritePump | internal/signaling/client.go:212-240 | every frame taken off the queue reaches the socket, in order, but for the last if its write fails; a living writer takes one in every turn while there are any; it stops only for a failed write or a closed and empty queue; nothing is put on the queue |
| HubSteps.Serve | internal/signaling/hub.go:58-73 | serving a blocked call, as SignalingHub does it, is one step of the loop as HubLifecycle has it, with exactly the clients that were evicted named |
| HubSteps.CloseUp | internal/signaling/hub.go:207-215 | so is closing up |
| HubLifecycle.NobodyIsLeaked | internal/signaling/hub.go:54-56 | in every run, once done is closed, every client whose add returned true has had its queue closed exactly once |
| HubLifecycle.StopsOnlyWhenCancelled | internal/signaling/hub.go:58-62 | the loop is left only when the context has ended, and nobody is turned away before the hub has stopped |
| HubLifecycle.CancelledHubStops | internal/signaling/hub.go:54-62 | once the context ends a serving hub stops by its own steps, with no member left |
| HubLifecycle.NobodyIsStranded | internal/signaling/hub.go:217-241 | from every state with a blocked caller at most three steps of the hub and that caller alone let it return |
| HubLifecycle.NobodyComesTooLate | internal/signaling/hub.go:218-225 | after the hub left its loop no call is taken any more, so no add succeeds |
| Protocol.RelayedIsNeverPresence | internal/signaling/protocol.go:58-71 | no client frame can be taken for presence once relayed, and every presence type is refused on the way in |
| TokenBuckets.TokenBucket.Allow | internal/signaling/ratelimit.go:30-45 | the counter gains the rate for every second since the last call, up to the capacity, and one token is spent if there is one; after a pause of what is missing to one token divided by the rate a call is allowed; a clock that steps back credits nothing |
| TokenBuckets.BudgetMeansNoFlood | internal/signaling/ratelimit.go:25-45 | the first refusal is at message j if and only if j is the first that ends a stretch with more messages than the burst and the refill of that stretch |
| TokenBuckets.CounterIsLeastSlack | internal/signaling/ratelimit.go:30-45 | the single counter equals the smallest room left over all stretches ending now |
| TokenBuckets.BoundUnderAnyClock | internal/signaling/ratelimit.go:30-45 | under a clock that may step back, what is allowed is bounded by the burst and the refill for the progress of the largest time seen; tokens stay between zero and capacity |
| TokenBuckets.BoundOverAnyStretch | internal/signaling/ratelimit.go:30-45 | the same over any contiguous run of calls in a connection's life |
| ReadPump.Pump | internal/signaling/client.go:164-209 | what is published are, in order, exactly the frames before the stop that name one of the five client types, each with the addressee, type and payload the client wrote and the connection's own user, room and connection; with a clock that does not step back it stops for the rate exactly at the first frame that ends a stretch of more than 120 and 60 a second; under any clock no stretch has more than that for the time by which the clock passed what it had shown |
| ReadPump.PublishedIsStamped | internal/signaling/client.go:199-208 | everything published carries the connection's own user and room, whatever the client wrote, and none of it is presence |
| Sessions.SessionStore.Create | internal/auth/sessions.go:57-95 | the session, its expiry and its index entry, and the index expiry, in one; without errors at most 20 sessions stay indexed, the newest; on success whatever failed in trimming only dropped indexed sessions |
| Sessions.SessionStore.Get | internal/auth/sessions.go:100-124 | resolves exactly the sessions that exist and are not past their absolute expiry; one that is past it is revoked, from its key and from its user's index, and nothing else changes |
| Sessions.SessionStore.Touch | internal/auth/sessions.go:129-144 | writes nothing within a minute of the last write, otherwise the session seen now, with the earlier of its two deadlines as expiry, whatever became of the key |
| Sessions.SessionStore.Serve | internal/auth/middleware.go:67-92 | one request, with time passing between lookup and touch, resolves and slides the session, keeps the index complete and extends the session's history by one; no other key changes |
| Sessions.SessionStore.Revoke | internal/auth/sessions.go:148-165 | the key is gone and the id is gone from its owner's index, which goes with its last id; every other key and index is as before; an unknown token changes nothing and is no error |
| Sessions.SessionStore.RevokeAllForUser | internal/auth/sessions.go:170-206 | every listed session but the kept one is deleted and the index is that one or gone; no session of the user can be used any longer except the kept one; all other keys and indexes are as before; the result counts index entries |
| Sessions.SessionStore.TrimSessions | internal/auth/sessions.go:255-304 | without errors the newest sessions up to the cap are kept and the index is exactly those; with errors an id leaves the index only if its key is gone |
| Sessions.SessionStore.Oldest | internal/auth/sessions.go:285-290 | the first of the oldest entries |
| Sessions.SessionStore.Run | internal/auth/sessions.go:57-304 | in every run of creations, requests, lookups without a touch, revocations and pauses, whatever fails: the index stays complete, nothing that could not be used can be used again, and without failures nobody exceeds the cap |
| Sessions.SessionStore.LifeOfASession | internal/auth/sessions.go:97-144 | at any moment of any run: used often enough a session is accepted until its absolute expiry, an idle one is not, none is past that expiry, and an accepted one is in its user's index |
| SessionIndex.RevokeAllIsTotal | internal/auth/sessions.go:170-206 | revoking what the index lists revokes every acceptable session of the user but the kept one, and keeps the agreement |
| SessionIndex.CreateAgrees | internal/auth/sessions.go:78-88 | the creating transaction keeps every acceptable session indexed until its absolute expiry |
| SessionIndex.TouchAgrees | internal/auth/sessions.go:129-144 | so does storing a session again, even when its key is gone by then |
| SessionIndex.TrimDone | internal/auth/sessions.go:284-303 | a finished trim keeps the newest: no dropped session is strictly newer than a kept one, and some are dropped only if more than 20 were live |
| SessionRecords.ServedIsTimed | internal/auth/sessions.go:307-313 | after any requests the stored expiry is the earlier of last use plus idle window and absolute expiry, and there is none exactly if the last touch was at or after the absolute expiry |
| SessionRecords.RegularUseIsServed | internal/auth/sessions.go:126-144 | requests with gaps of at most the idle window less a minute are all accepted until the absolute expiry |
| SessionRecords.AbandonedSessionEnds | internal/auth/sessions.go:307-313 | a longer gap than the idle window ends a session, and no sequence of touches gets it past its absolute expiry |
| SessionRecords.GranuleIsNeeded | internal/auth/sessions.go:129-133 | without the minute's allowance a regularly used session can be lost |
| FixedWindow.AlwaysExpires | internal/auth/ratelimit.go:34-43 | a counter always carries an expiry, at most a window ahead |
| FixedWindow.RefusalDoesNotExtend | internal/auth/ratelimit.go:37-43 | refused attempts change neither the end of the window nor the answer |
| FixedWindow.WaitIsExact | internal/auth/ratelimit.go:47-67 | the attempt after a refusal passes if and only if it comes after the reported wait |
| FixedWindow.BoundInAnyInterval | internal/auth/ratelimit.go:37-76 | over any n windows with m resets at most (n+1+m) quotas of attempts pass, counted attempt by attempt |
| RateLimit.RateLimiter.Allow | internal/auth/ratelimit.go:47-67 | an open window counts one more and keeps its end, otherwise one begins with a count of one; allowed exactly within quota; a refusal reports the time to the end of the window; a failing script refuses, whether or not it counted |
| RateLimit.RateLimiter.Reset | internal/auth/ratelimit.go:71-76 | the counter is gone, for certain if the command did not fail, and no other changes |
| RateLimit.KeysAreApart | internal/auth/service.go:103-106 | no address makes a key that counts for an account |
| Login.LoginService.Begin | internal/auth/service.go:98-110 | the address counts against 20 and then, only if it passes, the account against 5 in a quarter of an hour; a password is looked at only if both pass; a refusal reports the wait of the counter that refused |
| Login.LoginService.Finish | internal/auth/service.go:112-162 | a matching password clears the account's counter, for certain if no command fails, and logs in exactly if its session can be created; no other outcome clears anything |
| Login.GuessBound | internal/auth/service.go:98-163 | over any n windows in which m passwords matched at most (n+1+m) times five passwords are tried on an account; m may count logins if no reset in that time went with a failed session creation |
| Login.LoginService.GuessesAreFew | internal/auth/service.go:98-163 | at any moment of any run, counted one by one: over any n quarters of an hour at most five passwords are tried on an account for each, five more, and five for each password that matched, or each login if no reset went with a failed session creation |
| Login.LoginBoundExactlyWhen | internal/auth/service.go:152-159 | counted in logins the bound holds of every history with so many resets that came to no login if and only if that many is none |
| Login.LoginService.Run | internal/auth/service.go:98-163 | both bounds for every interleaving of logins, accounts, addresses, other limited calls, failures and time |
| Migrations.InvHolds | internal/database/migrate.go:27-73 | every step of any replica leaves the database as it was or applies and records the next file in one moment; at most the lock holder is inside |
| Migrations.InitialIsInv | internal/database/migrate.go:40-62 | a database in which some first files are applied, and nobody holds the lock, is where every run may start |
| Migrations.FreshIsInitial | internal/database/migrate.go:50-57 | so is a database that never saw a replica |
| Migrations.EveryRunIsSequential | internal/database/migrate.go:19-73 | in every run of any number of replicas: the recorded versions are the first files and the database is their fold, those that take effect are the next ones, each once and in order, and success means all are applied |
| Migrations.RecordNeverCollides | internal/database/migrate.go:123-125 | the insert of a version never meets a row that is there already |
| Migrations.HolderFinishes | internal/database/migrate.go:40-48 | from every reachable state a replica that holds the lock and has not returned can run to its return and free it, without losing its session or crashing |
| Migrations.LockIsFreedExactlyBy | internal/database/migrate.go:45-48 | whoever holds the lock, it can be freed; once its holder has returned with a failed unlock, by nothing but the end of that holder's session |
| Migrations.AnythingMayFail | internal/database/migrate.go:40-48 | any replica may crash, lose its session or fail to get the lock at any moment; a crash changes nothing recorded and frees the lock |
| Migrate.Database.Migrate | internal/database/migrate.go:27-73 | one replica's program: the files that took effect are the next ones after those recorded, in order, each run on what the one before left, and exactly they are recorded; success means all; when no statement fails it succeeds and the lock is free again; and whatever fails, its statements are a run of Migrations that leads to the very state it ends in |
| Migrate.Database.AppliedVersions | internal/database/migrate.go:87-106 | the rows read are the recorded versions, or an error |
| Migrate.Database.ApplyMigration | internal/database/migrate.go:108-130 | the file's effect and its record appear together or not at all |
| Inbox.Hub.Deliver | internal/inbox/hub.go:38-55 | every connection of the user with room holds the event as its last and stays open and registered, every other one is closed with its queue as it was and removed, though the loop runs over the set it leaves; the count reported is of the former; a user left without connections goes from the map; other users are untouched |
| Inbox.Hub.Add | internal/inbox/hub.go:58-73 | registered exactly if the hub has not shut down, next to the user's other connections |
| Inbox.Hub.Remove | internal/inbox/hub.go:76-96 | removed and closed once, however often it is called; a connection that was never added is ignored; an emptied user goes from the map |
| Inbox.Hub.Shutdown | internal/inbox/hub.go:100-112 | every connection ever added is closed, none twice, and none is registered any more |
| Base64.DecodeIsInverse | internal/auth/password.go:172-177 | strict decoding accepts, up to line breaks, exactly the encodings: it yields some bytes if and only if the text is what they encode to |
| Base64.EncodesBits | internal/auth/password.go:97-98 | the i-th character stands for bits 6i to 6i+5 of the bytes, zeros filling the last, by the standard alphabet; no padding |
| Base64.SkipsOnlyLineBreaks | internal/auth/password.go:172-177 | carriage returns and line feeds, and nothing else, are skipped wherever they stand |
| PasswordHash.PrintThenDecode | internal/auth/password.go:93-99 | every printed hash reads back as the parameters, salt and key it was printed from |
| PasswordHash.PrintedForm | internal/auth/password.go:93-99 | the printed form, character by character around its numbers and encodings |
| PasswordHash.FreshForm | internal/auth/password.go:82-99 | a new hash is printed under version 19, 19456 KiB, 2 iterations and 1 lane |
| PasswordHash.WhatIsSaidIsDecoded | internal/auth/password.go:150-185 | every text of the stored form, blanks, signs and line breaks where scanning and decoding allow them, is decoded to what it says |
| PasswordHash.WhatIsDecodedIsSaid | internal/auth/password.go:150-185 | and only such a text is: whatever is decoded has that form, with version 19 and a salt and a key that are not empty |
| PasswordHash.IncompatibleExactly | internal/auth/password.go:150-165 | a text is refused as incompatible, not as malformed, exactly if it has its six parts but names another algorithm or another version |
| PasswordHash.VerdictOn | internal/auth/password.go:106-121 | against any stored hash a password matches exactly if it derives the stored key, and asks for a rehash exactly if it matches and any parameter differs |
| PasswordHash.PastHashesVerify | internal/auth/password.go:106-121 | a hash made under any past parameters matches exactly the passwords with the same derived key and asks for a rehash exactly if its parameters are not the current ones |
| PasswordHash.FreshHashVerifies | internal/auth/password.go:82-121 | a fresh hash verifies its password and asks for no rehash |

## Left out

- SignalingHub.Hub.WireShowsThePast: holds of a client that heard a beginning, which is exact (BeginningExactlyWhen, PresenceLog.SkippedFrameIsNoBeginning); members always have.
- SignalingHub.Hub.OnRegister: a queue has room for at least one frame, as every connection's has (64 in internal/signaling/client.go:26); what happens otherwise is Join and PresenceLog.RefusedWelcomeBreaksSync.
- SignalingHub.Hub.AskAll: announce and deliver share this push loop, which differs only in whom it skips.
- SignalingHub.Hub.DropOne: the body of dropStalled's loop, Greet, SendWelcome and Enter the first half of join, Remove the map part of leave, split off to keep each piece small; LeaveRoom, JoinRoom and DeliverToRoom are leave, join and deliver with their outcome on values, from which Leave, Join and Deliver draw what each queue was offered.
- HubLifecycle.NobodyIsLeaked: a step may evict anyone; whom it really evicts is SignalingHub's part, joined to this one step by step in HubSteps.
- ReadPump.Pump: the reader's last acts, dropping the client and closing the socket, are the hub's Unregister event; ping, pong, deadlines, size limit and close codes are not modelled.
- TokenBuckets.TokenBucket.Allow: real numbers, so no floating-point rounding.
- Sessions.SessionStore.Serve: lookup and touch of one request are not interleaved with other operations, only with time. Touch writes unconditionally, so a revocation in between would be undone.
- Sessions.SessionStore.RevokeAllForUser: listing and deleting are one step; a session created in between is not modelled. The count includes stale index entries.
- Sessions.SessionStore.Create: the token is a parameter that was never issued before, random bytes and SHA-256 are not modelled; the address and the user agent are dropped. That the new session survives trimming is not claimed: equal creation times can pick it.
- SessionIndex.CreateAgrees: expiry in milliseconds throughout; go-redis rounds a set's expiry down to whole seconds, which agrees for an absolute window of whole seconds.
- Sessions.SessionStore.TrimSessions: every stored value decodes; the branch for unreadable JSON is left out, in Get and Revoke as well.
- RateLimit.RateLimiter.Allow: each key is always counted against the same quota, as its callers do.
- Login.LoginService.Finish: the user store's answer is a parameter; rehashing and audit records are left out; of creating the session only whether it succeeds is modelled here, the rest is Sessions.SessionStore.Create. E-mail addresses arrive normalised.
- Migrations.InvHolds: a file's statements either take effect as a whole or fail; that its SQL is transactional is assumed. A failed lock request leaves no lock behind.
- Migrate.Database.Migrate: other replicas' steps are left to Migrations, whose invariant says that none of them comes between the statements of the lock holder; reading an embedded file and starting a transaction are one possible failure.
- Inbox.Hub.Deliver: each operation is one step, which is what the mutex is for; the writer's socket, pings and deadlines are left out.
- PasswordHash.WhatIsSaidIsDecoded: of the blanks that scanning skips before a number only the space, the tab and the carriage return are modelled. Argon2id is an uninterpreted function, its minimum cost and the limit on concurrent hashes are not modelled.
- JSON encoding and decoding: frames and stored sessions are datatypes; marshalling never fails.
- Logging, metrics, HTTP handlers, cookies, origin policy, configuration, TURN credentials, slugs, the common-password list and the PostgreSQL user and room stores: input and output or one-branch facts.
- Websocket tickets: one set and one atomic get-and-delete, with no state beyond the key.
