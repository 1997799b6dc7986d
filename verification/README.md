# NFT gate: a verified model

The gateway lets a wallet through to a protected origin when it answers a challenge and either owns a usable access
pass or has burnt one use of a pass on chain. This project models what that rests on and proves it in Dafny:

- **the redemption protocol**: one consume digest pays for one successful upload, over three stores (a hash map, SQL
  rows in a Durable Object, Redis keys), for any number of interleaved requests, lapsing leases, evictions, failing
  store calls and dying requests;
- **the nonce and rate tables** over whole histories, with caps, eviction, pruning, the Durable Object's random sweep
  and its region shards;
- **the protobuf and gRPC-web codec**: round trips, termination and bounds, the depth-bounded search against a search
  of the tree, the checks on full-node answers against the records they encode, `unframe` against the frames;
- **number and text codecs**: base58 lengths, the signed message and its preimage, Gregorian calendar arithmetic;
- **the admission decision, the ownership scan and its cache**.

`dafny verify dfyconfig.toml` checks everything.

## How it is laid out

| file | what it holds |
|---|---|
| `Words.dfy`, `AsciiText.dfy`, `Utf8Text.dfy`, `Positional.dfy` | machine words and saturation, soonest-deadline rule, ASCII, UTF-8 and its lossy reading, numbers in any base |
| `Holds.dfy` | the per-digest machine every store refines: free, leased, committed, and "drop a lease" |
| `Redemption.dfy`, `DurableObject.dfy`, `Redis.dfy` | the three stores as classes, and their refinement |
| `Gateway.dfy`, `RedeemFlow.dfy` | the protocol as a system of step machines over one store, and as the one method it is in the code |
| `SingleUse.dfy`, `DoubleSpend.dfy`, `InFlight.dfy`, `Custody.dfy`, `Replies.dfy` | what holds over every run of that system, and what every request is told |
| `Nonces.dfy`, `Rates.dfy`, `Budgets.dfy`, `Shards.dfy`, `Decision.dfy` | tables over histories, what a rate limit owes a caller, shard routing, admission |
| `ProtoWire.dfy`, `Values.dfy`, `Recency.dfy`, `ChainResponses.dfy`, `Framing.dfy` | the wire formats and what is read out of them |
| `WireFormat.dfy`, `Leaves.dfy`, `Passes.dfy`, `PlainReplies.dfy`, `ReplyStatus.dfy`, `SignedText.dfy`, `DecimalText.dfy`, `Scalars.dfy`, `WhiteSpace.dfy` | what those readers and writers come to, stated without them: bytes of the encoding, flat records, decimal and signed text, code points, the documented message |
| `ConsumeLookup.dfy`, `Ownership.dfy`, `NodeCalls.dfy` | the two chain queries: retries, pages, cache; and both from the bytes of the replies on |
| `Base58.dfy`, `AccessMessage.dfy`, `Calendar.dfy` | digests, the signed message, dates |

Times are milliseconds as naturals. One clock that never goes back is assumed, as `core/src/state.rs:20-24` demands of
the platform. A choice among equal deadlines is left open, so every result holds for each choice; the two
"changes no verdict" results fix one rule. Owner tokens are fresh. A store call that fails had no effect, and a release
that does not reach the store is one the model allows. Signature checks, address and type normalisation and the node
are parameters, so the results hold for any.

## What the code does that its texts do not say

- Startup accepts a retention equal to the largest event age (`core/src/config.rs:407-412`) so that "a spent consume
  must be remembered while it can be presented". That is not enough: the tolerated clock skew and the time between
  verifying an event and asking for its lease come on top. `DoubleSpend.SingleUseExactly` gives the exact condition,
  `DoubleSpend.TooShortARetention` builds the double spend, and `DoubleSpend.DefaultsAndTheEdge` shows that the
  defaults are safe for any delay below 2,159,940 seconds while equality never is.
- Redis answers a taken key by reading it again (`gateway-rust/src/challenge.rs:120-129`). If a commit's retention ends
  between the two commands the answer is "leased" although no lease existed at either moment.
  `Redis.TwoStepIsAtomic` shows that this is the only case that is not atomic; the answer `Ok` is always atomic.
- The cap on redemptions is called hard (`core/src/state.rs:101-102`), but a table full of commits still takes a lease.
  `Redemption.CommitAndLeaseExceedCap` shows two rows under a cap of one, `Redemption.CapBoundsRowsExactly` that the cap
  holds exactly in the runs that grant no lease while commits alone fill it, and `Redemption.ReachableRows` that the
  excess is one lease beside the commits.
- `unframe` panics on some trailers: it cuts each trimmed line of more than 12 bytes at byte 12 (`core/src/grpc.rs:305`),
  which is not allowed inside a character, as in the line "grpc-messagé". `Framing.PanicsExactly` gives the exact
  condition and `Framing.SplitLinePanics` the reply; `Framing.UnframeExactly` holds for every body.
- The ownership cache adds its deadline without saturation (`core/src/chain.rs:339`) and the build checks overflow, so a
  time to live that leaves 64 bits panics while the cache's lock is held (`Ownership.OwnershipCache.Store`).
- The second digest check after the nonce (`core/src/decision.rs:190-192`) never refuses: the message was only built
  from a digest that passed it (`Decision.AdmitsExactly` needs no such condition).
- The length bounds of the digest test (`core/src/proof.rs:101-103`) never decide: decoding to 32 bytes implies them
  (`Base58.TxDigestExactly`). They bound the work.

## Model

| member | source | states |
|---|---|---|
| `Redemption.RedemptionTable.TryLease` | core/src/redemption.rs:49-87 | lapsed rows go, a committed or leased key is refused, else a full table gives up one soonest lease (never a commit) and the key is leased until now + ttl, saturating |
| `Redemption.RedemptionTable.CommitKey` | core/src/redemption.rs:89-99 | a commit is accepted exactly for the holder of an unexpired lease, and then keeps the key until now + retention with no owner |
| `Redemption.RedemptionTable.Release` | core/src/redemption.rs:101-109 | a release removes the key exactly when the token owns its lease |
| `Redemption.ViewTick` | core/src/redemption.rs:57 | passing time only lets holds lapse |
| `Redemption.LeaseRefines` | core/src/redemption.rs:57-86 | the hash map's lease is the per-digest machine's lease after dropping at most one lease |
| `Redemption.VictimIsLease` | core/src/redemption.rs:66-77 | what a full table drops is a lease, and a table with room drops nothing |
| `Redemption.GivesUpSoonestLease` | core/src/redemption.rs:66-77 | only a full table gives a row up, and then a lease that no other lease expires before; a table full of commits gives up none |
| `Redemption.CommitRefines` | core/src/redemption.rs:89-99 | the hash map's commit is the per-digest machine's |
| `Redemption.ReleaseRefines` | core/src/redemption.rs:101-109 | the hash map's release is the per-digest machine's |
| `Redemption.RunWithinCap` | core/src/redemption.rs:57-86 | leases stay within max(cap - commits, 1) over any run from a table where they are |
| `Redemption.ReachableWithinCap` | core/src/redemption.rs:57-86 | every reachable table has at most max(cap - commits, 1) leases |
| `Redemption.GrantWithinCap` | core/src/redemption.rs:66-85 | granting a lease leaves the rows within the cap if and only if the unexpired commits alone had left room |
| `Redemption.CapBoundsRowsExactly` | core/src/redemption.rs:66-85 | the cap bounds the rows at every moment of a run if and only if no lease is granted while commits alone fill it |
| `Redemption.ReachableRows` | core/src/state.rs:101-102 | every reachable table has at most max(cap, commits + 1) rows |
| `Redemption.CommitAndLeaseExceedCap` | core/src/state.rs:101-102 | with a cap of one, a commit and the next lease make two rows |
| `Redemption.CommitSurvives` | core/src/redemption.rs:66-77 | no run of operations removes or changes a commit before its retention ends, even when the cap is full of commits |
| `DurableObject.NonceRateState.Issue` | worker/src/do_state.rs:71-86 | the SQL nonce insert leaves the rows the in-memory table would |
| `DurableObject.NonceRateState.TakeIfValid` | worker/src/do_state.rs:89-99 | the SQL take answers and leaves the rows the in-memory table would: present means gone |
| `DurableObject.NonceRateState.RateCheck` | worker/src/do_state.rs:102-132 | the SQL rate check gives the fixed-window verdict, and sweeps exactly the windows older than a minute when the coin says so |
| `DurableObject.NonceRateState.DropExpired` | worker/src/do_state.rs:138-145 | the two DELETE statements together are the hash map's retain |
| `DurableObject.NonceRateState.EvictSoonestLease` | worker/src/do_state.rs:160-166 | the nested DELETE removes one soonest lease, or nothing when there is none |
| `DurableObject.NonceRateState.LeaseKey` | worker/src/do_state.rs:136-177 | the SQL lease answers and leaves the rows the in-memory table would |
| `DurableObject.NonceRateState.CommitKey` | gateway-workers/src/state/durable_object.ts:162-175 | SELECT then UPDATE is the in-memory commit |
| `DurableObject.NonceRateState.Release` | gateway-workers/src/state/durable_object.ts:178-180 | the conditional DELETE is the in-memory release |
| `Redis.RedisStore.TryLease` | gateway-rust/src/challenge.rs:104-130 | a free key is claimed by the SET; a taken one is answered from what the GET finds after any interference |
| `Redis.RedisStore.CommitKey` | gateway-rust/src/challenge.rs:134-154 | the commit script writes exactly when the key still holds this token's lease |
| `Redis.RedisStore.Release` | gateway-rust/src/challenge.rs:158-172 | the release script deletes exactly when the key still holds this token's lease |
| `Redis.ViewTick` | gateway-rust/src/challenge.rs:101-103 | a key vanishes when its deadline is reached, and nothing else does |
| `Redis.SetNxRefines` | gateway-rust/src/challenge.rs:108-119 | SET NX is the per-digest machine's lease, and claims exactly when that would |
| `Redis.CommitRefines` | gateway-rust/src/challenge.rs:141-153 | the commit script is the per-digest machine's commit |
| `Redis.ReleaseRefines` | gateway-rust/src/challenge.rs:160-167 | the release script is the per-digest machine's release |
| `Redis.TwoStepRefines` | gateway-rust/src/challenge.rs:108-129 | the two commands answer from the holds at the SET and the holds at the GET |
| `Redis.TwoStepIsAtomic` | gateway-rust/src/challenge.rs:117-129 | the answer is the one atomic answer at the SET or at the GET, except exactly when a commit seen by the SET is gone by the GET |
| `Redis.LapseBetweenCommands` | gateway-rust/src/challenge.rs:117-129 | a run in which neither moment explains the answer |
| `Gateway.LeasedRefines` | core/src/redemption.rs:49-87 | over hash map, SQL rows and Redis keys alike a lease moves the holds as the per-digest machine says |
| `Gateway.EvictsLeasesOnly` | core/src/redemption.rs:66-77 | whatever the store, making room forgets at most a lease, and nothing while there is room |
| `Gateway.CommittedRefines` | core/src/redemption.rs:89-99 | over every store a commit moves the holds and answers as the per-digest machine says |
| `Gateway.ReleasedRefines` | core/src/redemption.rs:101-109 | over every store a release moves the holds as the per-digest machine says |
| `Gateway.StepRefines` | core/src/gateway.rs:244-291 | each event of the whole system moves the holds exactly as the specification says |
| `RedeemFlow.ReleaseLease` | core/src/gateway.rs:270 | the best-effort release ends the request as the system's release step does, on the table as it is by then |
| `RedeemFlow.CommitUpload` | core/src/gateway.rs:273-290 | commit, and release when the commit call fails, are the system's steps on the tables found at their own moments |
| `RedeemFlow.Forward` | core/src/gateway.rs:268-290 | from the lease on the method takes the system's steps, a throwing upstream included |
| `RedeemFlow.RedeemAndForward` | core/src/gateway.rs:244-291 | reply and table are those of playing the request's own steps of the system, each at its own moment, whatever others did to the table in between and whichever store calls fail |
| `RedeemFlow.FlowIsARun` | core/src/gateway.rs:244-291 | in every run of the system, with any events of others woven in, a request and the store end as playing its own steps at the moments it found |
| `RedeemFlow.SuccessIsRecorded` | core/src/gateway.rs:273-281 | a 2xx is passed on exactly when the commit was accepted, and the key is then kept for the retention |
| `RedeemFlow.FailedCommitHoldsNothing` | gateway-workers/src/redemption.ts:53-59 | after a failed commit whose release arrives the request holds no lease and the reply is a 502 |
| `RedeemFlow.SuccessLeavesCommit` | core/src/gateway.rs:244-291 | however the tables change between its steps, a flow that ends with success leaves its key committed |
| `RedeemFlow.UploadIsPlayed` | core/src/gateway.rs:268-281 | any 2xx while the lease is held: the flow commits, passes the upstream's own status on and keeps the key for the retention |
| `Replies.AcceptedUploadCommits` | core/src/gateway.rs:268-277 | for every status in 200..300 the holder of a lease goes on to a commit it can try at once, with its lease untouched |
| `Replies.OwnersCommitIsAccepted` | core/src/gateway.rs:273-279 | a commit tried by the lease's owner passes the upstream's status on and commits the digest until now + retention |
| `Replies.LeaseLasts` | core/src/redemption.rs:49-109 | in every run a request keeps its lease to the deadline, whatever the others do, unless a full table drops it |
| `Replies.AcceptedUploadSucceeds` | core/src/gateway.rs:268-281 | in every reachable state, for every 2xx: a commit that reaches the store before the lease lapses or is dropped ends in that 2xx, with the digest committed for the retention, whatever others do in between |
| `Replies.ReleasesOnlyAfterFailure` | core/src/gateway.rs:268-290 | a request releases only after a throw, an answer outside 200..300 (passed on as it is) or a failed commit call (a 502) |
| `Replies.LeaseReplies` | core/src/gateway.rs:246-267 | a free digest forwards, a leased one is the conflict "leased", a committed one the conflict "redeemed", each if and only if |
| `Replies.RedisLeaseReplies` | gateway-rust/src/challenge.rs:117-129 | over Redis the conflict code is that of the digest at the second command |
| `Replies.FaultReplies` | core/src/gateway.rs:246-290 | a store call that fails is "unavailable" before the lease and a 502 after the upload, never a conflict or a success |
| `Replies.LostCommitReplies` | core/src/gateway.rs:279-282 | a commit without the lease is a 502 and changes nothing held |
| `Replies.VerifyReplies` | core/src/chain.rs:191-200 | an event is accepted exactly when it is at most the age old and at most 60,000 ms ahead |
| `SingleUse.RequestsStayOk` | core/src/gateway.rs:244-291 | what a request knows of its event, its lease and its reply stays true through every step of every request |
| `SingleUse.NoLeaseAfterSuccess` | core/src/chain.rs:191-200 | with slack, a request whose event is still young finds the success it competes with still remembered |
| `SingleUse.SuccessStaysRemembered` | core/src/gateway.rs:244-291 | a success stays committed until its retention ends, through any step of anyone |
| `SingleUse.SuccessNeedsCommit` | core/src/gateway.rs:273-281 | only a commit the store accepted turns a request into a success |
| `SingleUse.StepKeepsInv` | core/src/gateway.rs:244-291 | every step keeps: successes are remembered, and no two share a digest |
| `SingleUse.AtMostOneSuccess` | core/src/gateway.rs:244-291 | in every interleaving over every store at most one request per digest returns a 2xx, when retention exceeds age, skew and lease delay together |
| `DoubleSpend.Spend` | core/src/gateway.rs:244-291 | a request for a young event on a free digest can lease, forward and commit it |
| `DoubleSpend.TooShortARetention` | core/src/config.rs:407-412 | a configuration startup accepts, without the slack, has a run with two successes for one digest |
| `DoubleSpend.SingleUseExactly` | core/src/config.rs:407-412 | single use over all runs holds if and only if age * 1000 + skew + delay < retention * 1000 |
| `DoubleSpend.DefaultsAndTheEdge` | core/src/config.rs:400-412 | the defaults are single-use exactly for delays below 2,159,940,000 ms; equal age and retention are never |
| `Custody.WinnersAfter` | core/src/gateway.rs:273-281 | a step adds to the successes of a digest exactly the request whose commit was accepted |
| `Custody.CommitsEqualSuccesses` | core/src/gateway.rs:268-290 | over every run the commits recorded for a digest equal its 2xx replies |
| `Custody.StepKeepsCustody` | core/src/gateway.rs:244-291 | every step keeps: tokens belong to one request, and a lease in the store is the one its token's request took |
| `Custody.EndsOnlyItsOwnLease` | core/src/gateway.rs:268-290 | in every reachable state a commit or release leaves other digests alone and ends only the very lease its request took |
| `Custody.FailureReleases` | core/src/gateway.rs:268-290 | an answer that is not a 2xx, a throw, or a failed commit call leads to a release that can be sent at once, and to no success |
| `Custody.RoomCanBeMade` | core/src/redemption.rs:66-77 | some choice of what to drop always makes room for a lease |
| `Custody.ReleaseFreesTheDigest` | core/src/gateway.rs:268-290 | when the holder's upload fails its release can be sent; once it reaches the store the holder is done without success, the digest is free, and any other request verified for it gets the lease |
| `InFlight.OthersLeaveIt` | core/src/redemption.rs:78-109 | no other request's step takes the lease of an upload in progress |
| `InFlight.ClockLeavesIt` | core/src/config.rs:391-399 | the clock does not reach an upload's lease before the upload's own deadlines |
| `InFlight.StepKeepsInv` | core/src/gateway.rs:244-291 | every timely step keeps: whoever uploads holds the lease of its digest |
| `InFlight.UploadsAreExclusive` | core/src/config.rs:391-399 | under the startup inequality, timely runs with room in the table have one upload per digest at a time and lose no commit |
| `InFlight.TooShortALease` | core/src/config.rs:391-399 | without it there is a timely run with two uploads of one digest |
| `InFlight.ExclusiveExactly` | core/src/config.rs:391-399 | one upload per digest over all timely runs holds if and only if upstream + body timeouts < lease |
| `Nonces.NonceTable.Issue` | core/src/redemption.rs:124-139 | expired nonces go, a full table gives up one soonest-to-expire, the nonce lives until now + ttl, saturating |
| `Nonces.NonceTable.TakeIfValid` | core/src/redemption.rs:141-146 | valid exactly when present and unexpired; gone either way |
| `Nonces.TakenAtMostOncePerIssue` | core/src/redemption.rs:124-151 | over every history a nonce is taken at most as often as it was issued |
| `Nonces.Conservation` | core/src/redemption.rs:124-151 | over every history successful takes plus stored nonces never exceed issues |
| `Nonces.RunWithinCap` | core/src/redemption.rs:124-139 | over every run the table never holds more than max(cap, 1) nonces |
| `Nonces.EvictionNeedsRivals` | core/src/redemption.rs:126-135 | the issue that evicts a live nonce leaves a whole table of others issued to expire no earlier |
| `Nonces.MissingOnlyWhenCrowdedOut` | core/src/redemption.rs:124-151 | an unexpired, untaken nonce is missing only after at least cap other nonces expiring no earlier were issued |
| `Nonces.AcceptedInTime` | core/src/redemption.rs:124-151 | over every history a nonce issued, not taken since and with fewer than cap rivals is accepted at any moment before now + ttl |
| `Nonces.AcceptedWasIssued` | core/src/redemption.rs:141-146 | a nonce is accepted only before a deadline it was issued with |
| `Rates.RateTable.CheckCapped` | core/src/redemption.rs:189-218 | the verdict of the 60 s window, and the rows after it: charged, with room made by pruning and then by one soonest window |
| `Rates.RateTable.Prune` | core/src/redemption.rs:222-225 | exactly the ended windows go |
| `Rates.StepWithinCap` | core/src/redemption.rs:203-215 | a request never takes the table over max(max_keys, 1) windows |
| `Rates.GivesUpOldest` | core/src/redemption.rs:203-215 | only a table full of running windows gives one up, and then one that no other began before |
| `Rates.RunningAfter` | core/src/redemption.rs:189-218 | verdict and running windows after a request depend only on the running windows before it |
| `Rates.PruningChangesNoVerdict` | core/src/redemption.rs:220-225 | tables that agree on their running windows give the same verdicts to every later request, whatever is pruned when, under a fixed choice among equal starts |
| `Rates.SweepChangesNoVerdict` | worker/src/do_state.rs:122-126 | the random sweep changes no verdict, for any coin flips |
| `Rates.RunWithinCap` | core/src/state.rs:207-214 | a capped table never holds more than max(max_keys, 1) windows over any run |
| `Rates.StepCredit` | core/src/redemption.rs:193-218 | each admission is paid for by the window count or by a window that has ended since |
| `Rates.AdmissionBound` | core/src/redemption.rs:189-218 | any k minutes admit at most (k + 1) budgets of a key whose window is never evicted |
| `Budgets.CountsAreAdmissions` | core/src/redemption.rs:193-217 | every count in a table is backed by as many admissions since its window began, whatever was forgotten |
| `Budgets.RefusedOnlyWhenSpent` | core/src/redemption.rs:187-202 | a request is refused only if at least its budget, which is not 0, was admitted in a window that began less than 60,000 ms before |
| `Budgets.LetInWithinBudget` | core/src/redemption.rs:187-202 | with fewer than the budget admitted in the last 60,000 ms a request is let in |
| `Budgets.VerdictExactly` | core/src/redemption.rs:189-218 | while a key's window is not evicted, it is let in if and only if the budget is 0 or not yet spent in the minute its first admission opened, read off the verdicts alone |
| `Budgets.LogsAreHistories` | worker/src/do_state.rs:102-132 | the capped table and the swept one, evicting, pruning or sweeping as they may, are such histories |
| `Budgets.BothLetInWithinBudget` | worker/src/do_state.rs:119-121 | both tables let every request in until its budget is spent |
| `Shards.RegionOf` | worker/src/region.rs:28-36 | the tag a nonce is issued under is always a known shard |
| `Shards.OwnContinent` | worker/src/region.rs:28-36 | a continent with a shard, in either case, gets its own tag; global mode and no continent are global |
| `Shards.OtherContinent` | worker/src/region.rs:28-36 | only such a continent gets another tag than the global one |
| `Shards.RoutesBack` | worker/src/region.rs:16-24 | a nonce issued under a tag routes back to that shard |
| `Shards.RoutesExactly` | worker/src/region.rs:16-24 | a nonce without a dot, or with nothing before it, is global; any other text before the first dot is the shard if it is a tag, and no shard if not |
| `Shards.ShardsAnswerAsOne` | worker/src/state.rs:129-152 | over every history in which no shard fills up the shards give the take verdicts of one global table |
| `Shards.CappedShardsAcceptNoMore` | worker/src/state.rs:129-152 | with caps, whatever full shards give up, the shards accept no take the one uncapped table would refuse |
| `Shards.UnknownTagTouchesNothing` | worker/src/state.rs:145-149 | an unknown tag is refused and touches no shard |
| `Shards.OneIsNonceTable` | worker/src/state.rs:129-152 | the global table the shards are compared with is the nonce table of `Nonces` |
| `Shards.FleetTakesOncePerIssue` | worker/src/state.rs:129-152 | over every history the fleet, capped or not, accepts a nonce at most as often as it was issued |
| `ProtoWire.ProtoWriter.PutVarint` | core/src/grpc.rs:30-41 | the loop appends the base-128 encoding of the value |
| `ProtoWire.ProtoWriter.PutTag` | core/src/grpc.rs:43-45 | a tag is the varint of field and wire type |
| `ProtoWire.ProtoWriter.BytesField` | core/src/grpc.rs:48-52 | appends one length-delimited field |
| `ProtoWire.ProtoWriter.UintField` | core/src/grpc.rs:60-63 | appends one varint field |
| `ProtoWire.ProtoReader.TakeVarint` | core/src/grpc.rs:94-109 | the cursor reads the varint at its position, ends on ten groups or the end of input, and stands right behind it |
| `ProtoWire.ProtoReader.Next` | core/src/grpc.rs:115-152 | the cursor yields the field at its position and stands right behind it, or ends |
| `ProtoWire.OrIsSum` | core/src/grpc.rs:94-109 | or-ing a group shifted above the bits read so far adds it |
| `ProtoWire.ReadsVarint` | core/src/grpc.rs:94-109 | every 64-bit value reads back, whatever follows it |
| `ProtoWire.ReadsField` | core/src/grpc.rs:115-152 | every written field reads back and leaves what follows it |
| `ProtoWire.ReadsBack` | core/src/grpc.rs:112-152 | any sequence of written fields followed by any bytes reads as that sequence and then as those bytes alone |
| `ProtoWire.ReadsBackExactly` | core/src/grpc.rs:30-63 | a written message reads back as exactly its fields |
| `ProtoWire.FieldsInBounds` | core/src/grpc.rs:112-152 | on any input the cursor ends within as many fields as bytes, each a slice of the input |
| `WireFormat.VarintExactly` | core/src/grpc.rs:30-41 | the bytes written for a number are the one sequence with the high bit on all bytes but the last, no padding and that value in seven-bit groups, least significant first |
| `WireFormat.ReadsAnyVarint` | core/src/grpc.rs:94-109 | on any bytes, shortest form or not: up to ten groups read as their value modulo 2^64; with no end within ten groups nothing is read |
| `WireFormat.KnownFields` | core/src/grpc.rs:43-63 | the number 150 in field 1 and the text "testing" in field 2 are the bytes of the Protocol Buffers encoding guide |
| `WireFormat.MalformedEnds` | core/src/grpc.rs:115-152 | a cut key, value or payload, or another wire type, ends the fields |
| `Values.EntryAgrees` | core/src/grpc.rs:217-236 | one encoded struct entry is searched as the entry of the tree |
| `Values.EntriesAgree` | core/src/grpc.rs:217-236 | an encoded struct is searched as the entries of the tree, in order |
| `Values.ItemsAgree` | core/src/grpc.rs:202-210 | an encoded list is searched as the items of the tree, in order |
| `Values.ValueAgrees` | core/src/grpc.rs:191-215 | at every depth searching an encoded value finds what searching the tree finds |
| `Values.SearchAgrees` | core/src/grpc.rs:187-189 | the search on an encoded tree is the depth-32 pre-order search of the tree |
| `Values.MemberAgrees` | core/src/grpc.rs:240-248 | the direct lookup on an encoded tree is the tree's own entry |
| `Values.FlagAgrees` | core/src/grpc.rs:251-256 | the bool reading of an encoded value is its flag, and none for anything else |
| `WireFormat.ShortValues` | core/src/grpc.rs:169-183 | null, number, string and bool are fields 1 to 4 of a value, with their wire types |
| `WireFormat.ShortStruct` | core/src/grpc.rs:169-183 | a struct is field 5, its entries field 1 of it |
| `WireFormat.ShortEntry` | core/src/grpc.rs:169-183 | an entry is its name in field 1 and its value in field 2 |
| `WireFormat.ShortList` | core/src/grpc.rs:169-183 | a list is field 6, its items field 1 of it |
| `Leaves.SearchSays` | core/src/grpc.rs:187-236 | the search on the bytes finds the first string entry of that name in reading order with fewer than 32 values around its struct |
| `Leaves.ReadWithinThirtyTwo` | core/src/grpc.rs:191-194 | a record inside n lists is read if and only if n is below 32 |
| `ChainResponses.SixteenDigitsFit` | core/src/chain.rs:192-195 | a timestamp is refused for its shape only: sixteen digits never overflow |
| `ChainResponses.TextAgrees` | core/src/chain.rs:268-275 | a string read out of optional JSON is the string the record holds, and none without JSON |
| `ChainResponses.ReadsFirst` | core/src/grpc.rs:156-161 | a lookup reads the first such field that was written, among any others in any order |
| `ChainResponses.ReadsEach` | core/src/chain.rs:259-262 | the repeated fields read are exactly those that were written |
| `ChainResponses.EventOfIsWellFormed` | core/src/chain.rs:417-423 | an event written with nothing but sender, type and JSON is such a record |
| `ChainResponses.ReplyOfIsWellFormed` | core/src/chain.rs:427-444 | a reply written with nothing but status and events is such a record, successful exactly when its flag says so |
| `ChainResponses.EventAgrees` | core/src/chain.rs:259-281 | the check on one written event says exactly whether it is the wanted consume, whatever other fields it carries |
| `ChainResponses.StatusReads` | core/src/chain.rs:230-236 | a written transaction is read as successful exactly when its effects report success |
| `ChainResponses.ConsumeExactly` | core/src/chain.rs:240-281 | the check on a written reply holds exactly when its transaction succeeded and some event is a recent consume of the wanted type, sender and gate, whatever else the node sent |
| `ChainResponses.ObjectAgrees` | core/src/chain.rs:286-305 | the check on one written object says exactly whether it is a usable pass for the gate, whatever other fields it carries |
| `ChainResponses.OwnedExactly` | core/src/chain.rs:286-305 | the check on a written page holds exactly when some object on it is a usable pass for the gate, whatever else the node sent |
| `ChainResponses.TokenReads` | core/src/chain.rs:124-127 | a page leads on exactly when it carries a token that is not empty |
| `ChainResponses.GateExactly` | core/src/chain.rs:156-166 | a gate blocks exactly when it is paused and its policy says so; a missing or non-boolean flag is an error |
| `DecimalText.WritesExactly` | core/src/chain.rs:192-195 | text writes a number, as zeros and then its digits, exactly when it is digits of that value |
| `Passes.NumberReads` | core/src/chain.rs:206-215 | a number is read exactly from its decimal text, of at most the width and 64 bits |
| `Passes.GrantsExactly` | core/src/chain.rs:206-215 | the text "UnlimitedPass" grants whatever its count, "SingleUse" exactly when its count writes a number from 1 to 2^64 - 1, anything else never |
| `Passes.PageDecides` | core/src/chain.rs:286-305 | the check on a written page finds a pass exactly when some object says one of these and names the gate |
| `Passes.Timely` | core/src/chain.rs:191-200 | a stamp is recent exactly when it writes, in at most sixteen digits, a time at most 60,000 ms ahead and the age old |
| `Passes.ReplyDecides` | core/src/chain.rs:240-281 | the check on a written reply passes exactly when its transaction succeeded and some event says the type, sender, time and gate asked for |
| `Passes.GateDecides` | core/src/chain.rs:156-166 | a gate with both flags is closed exactly when both are set; any other record is an error |
| `PlainReplies.PlainReplyDecides` | core/src/chain.rs:30-42 | the bytes of a plain transaction, each part in its own field number, are a redemption exactly when the status is 1 and the event says what is asked for |
| `PlainReplies.PlainPageDecides` | core/src/chain.rs:52-55 | the bytes of a plain page hold a pass exactly when its object lets its owner in, and lead on exactly by a token that is not empty |
| `PlainReplies.FirstEntryCounts` | core/src/grpc.rs:240-248 | of several entries with one name the direct lookup takes the first |
| `ConsumeLookup.ConsumeTxValid` | core/src/chain.rs:357-400 | only an unknown digest is asked for again, at most four times; the answer is that of the last call |
| `ConsumeLookup.ConsumedExactly` | core/src/chain.rs:365-400 | the lookup succeeds if and only if the first call that is not told "unknown", within four, is answered with a consume |
| `ConsumeLookup.LookupDecides` | core/src/chain.rs:357-400 | over written records that is a successful transaction that holds the event |
| `ConsumeLookup.FirstKnownDecides` | core/src/chain.rs:365-390 | up to the fourth, the first attempt not told "unknown" settles the lookup by its answer or its failure |
| `ConsumeLookup.UnknownFourTimes` | core/src/chain.rs:375-383 | a digest unknown four times is no consume and no error |
| `NodeCalls.LookupFromBytes` | core/src/chain.rs:357-400 | from bytes to verdict: after up to three NOT_FOUND headers, a framed transaction settles the lookup by whether it succeeded and one of its events redeems |
| `NodeCalls.UnknownFromBytes` | core/src/grpc.rs:324-336 | four NOT_FOUND headers are no consume, any other status is an error at once |
| `Utf8Text.LossyKeepsText` | core/src/grpc.rs:303 | the lossy reading keeps text as it is |
| `Utf8Text.LossyIsText` | core/src/grpc.rs:303 | the lossy reading of any bytes is text |
| `Scalars.HeadExactly` | core/src/grpc.rs:165-166 | a text begins with n well-formed bytes exactly when those are the UTF-8 form of a scalar value |
| `Scalars.TextExactly` | core/src/grpc.rs:165-166 | text is exactly the runs of UTF-8 forms of scalar values |
| `Scalars.PieceIsMaximal` | core/src/grpc.rs:303 | each replaced piece is one byte, or as many more as could still have begun a character |
| `Scalars.LossyExactly` | core/src/grpc.rs:303 | the characters in front of an ill-formed piece stay, the piece becomes U+FFFD, and the reading goes on behind it |
| `WhiteSpace.SpaceExactly` | core/src/grpc.rs:304 | a text begins with white space exactly when that is a code point with that property |
| `WhiteSpace.TrimExactly` | core/src/grpc.rs:304 | trimming takes off all the white space around a text that has none at its ends, and nothing else |
| `Framing.ReadTrailer` | core/src/grpc.rs:302-308 | the last status line of a trailer decides, readable or not; a line with byte 12 inside a character panics |
| `Framing.Unframe` | core/src/grpc.rs:288-328 | the loop computes the walk over the body's frames |
| `Framing.StatusAfterBoth` | core/src/grpc.rs:303-308 | trailers are read as one run of lines |
| `Framing.WalkFrames` | core/src/grpc.rs:292-319 | whole frames are taken in order, unless one is compressed or the payloads pass 4 MiB |
| `Framing.WholeFrames` | core/src/grpc.rs:292-322 | a verdict means the body was a whole number of frames |
| `Framing.UnframeExactly` | core/src/grpc.rs:288-328 | a verdict is reached if and only if the body is whole uncompressed frames of at most 4 MiB whose trailer lines can be cut, and is the payloads in order under a last status 0, the typed status or its absence otherwise |
| `Framing.PanicsExactly` | core/src/grpc.rs:304-306 | `unframe` panics if and only if, behind frames it reads, a trailer line has byte 12 inside a character |
| `Framing.SplitLinePanics` | core/src/grpc.rs:304-306 | a reply whose trailer is `grpc-messag` and a two-byte character panics |
| `Framing.LinesOfJoin` | core/src/grpc.rs:303 | cutting at line breaks undoes joining |
| `Framing.UnframesMessages` | core/src/grpc.rs:261-328 | `unframe` inverts any framed messages followed by an OK trailer |
| `ReplyStatus.SignedExactly` | core/src/grpc.rs:270-272 | a status is read exactly from the signed decimal text of a 64-bit number |
| `ReplyStatus.StatusReads` | core/src/grpc.rs:270-272 | white space around it does not matter |
| `ReplyStatus.StatusLineExactly` | core/src/grpc.rs:305 | a line names the status exactly when something stands behind "grpc-status:", in any case |
| `ReplyStatus.HeaderDecides` | core/src/grpc.rs:288-328 | a reply of headers only is success for 0 and the typed status for every other number its header writes |
| `ReplyStatus.LastLineDecides` | core/src/grpc.rs:288-328 | framed messages and a trailer: the number of the last status line decides, whatever headers and earlier lines said |
| `ReplyStatus.JoinOfLines` | core/src/grpc.rs:303 | the lines of a text hold no break and join to it |
| `ReplyStatus.CutBodies` | core/src/grpc.rs:292-323 | behind frames that are read, one to four bytes are a truncated header, a payload shorter than its big-endian length an overrun |
| `ReplyStatus.RefusedFrames` | core/src/grpc.rs:310-318 | a data frame with a flag is refused, and so is one that takes the message over 4,194,304 bytes |
| `ReplyStatus.NoStatusAtAll` | core/src/grpc.rs:324-328 | messages under no status are no answer |
| `Framing.RequestIsOneFrame` | core/src/grpc.rs:261-267 | a request is one uncompressed data frame |
| `ReplyStatus.LengthIsBigEndian` | core/src/grpc.rs:265 | the four length bytes are the length, most significant first |
| `Base58.MulAddInPlace` | core/src/proof.rs:82-93 | the inner loops multiply the magnitude by 58 and add a digit, without leaving 32 bits |
| `Base58.MulAddValue` | core/src/proof.rs:84-92 | the byte-wise step is multiplication and addition of the number |
| `Base58.MulAddShape` | core/src/proof.rs:81-93 | the step never leaves a high zero byte |
| `Base58.DecodedLen` | core/src/proof.rs:79-95 | leading ones plus the exact number of base-256 digits of the rest; none outside the alphabet |
| `Base58.EncodingLength` | core/src/proof.rs:301-317 | the encoding of n bytes decodes to n bytes |
| `Base58.DecodingEncodes` | core/src/proof.rs:301-317 | encoding the bytes a string stands for gives the string |
| `Base58.DecodedLengthExactly` | core/src/proof.rs:79-95 | the length is n for exactly the encodings of n-byte strings |
| `Base58.EncodingIsShort` | core/src/proof.rs:97-103 | every 32-byte value encodes to 32 to 44 characters |
| `Base58.TxDigestExactly` | core/src/proof.rs:101-103 | the digest test holds exactly for base58 encodings of 32 bytes, and its length bounds never decide |
| `Base58.Alphabet` | core/src/proof.rs:70-71 | the letters are the ASCII letters and digits without 0 O I l, in ascending order |
| `AccessMessage.PersonalMessage` | core/src/proof.rs:138-167 | the message of an accepted context, or the first reason to refuse it |
| `AccessMessage.JoinInjective` | core/src/proof.rs:155-166 | lines without a newline come back from their join |
| `AccessMessage.MessageInjective` | core/src/proof.rs:138-167 | no two accepted contexts share a message |
| `AccessMessage.WriteUleb128` | core/src/sig.rs:28-40 | the loop appends the base-128 encoding of the length |
| `AccessMessage.BuildPreimage` | core/src/sig.rs:44-48 | intent, length prefix, message |
| `AccessMessage.PreimageInjective` | core/src/sig.rs:44-48 | no two messages share a preimage |
| `AccessMessage.SignedBytesInjective` | core/src/sig.rs:42-49 | the bytes hashed for one accepted context are hashed for no other |
| `SignedText.AcceptedExactly` | core/src/proof.rs:64-135 | a context is accepted exactly when origin, gate, network, nonce and digest are in the documented grammar |
| `SignedText.RefusedForFirst` | core/src/proof.rs:138-154 | of several parts outside it the first in the order gate, network, nonce, digest, origin is named |
| `SignedText.MessageIsText` | core/src/proof.rs:11-18 | the message is the documented text, line by line, with no newline at its end |
| `SignedText.AdmittedSigned` | core/src/decision.rs:137-158 | whoever is let in signed the text of this gateway's own origin, gate, network, the nonce and the mode's digest |
| `SignedText.HashedExactly` | core/src/sig.rs:44-48 | the hashed bytes are 3, 0, 0, the shortest ULEB128 of the length, and the message |
| `Calendar.YearFormula` | core/src/quota.rs:190 | the year formula is exact on every day of an era |
| `Calendar.DateRoundTrip` | core/src/quota.rs:186-208 | every valid Gregorian date comes back from its day number |
| `Calendar.DayRoundTrip` | core/src/quota.rs:186-208 | every day number is a valid date and comes back from it |
| `Calendar.DaysInOrder` | core/src/quota.rs:186-197 | consecutive days are consecutive dates, by the Gregorian month and leap-year rules |
| `Calendar.Epoch` | core/src/quota.rs:185-197 | day 0 is 1 January 1970 |
| `Calendar.WindowStartIsLatest` | core/src/quota.rs:212-221 | the usage window starts at the latest midnight, or first-of-month midnight, at or before now |
| `Decision.VerifyAccessRequest` | core/src/decision.rs:130-224 | the outcome of the checks in their order, and that the nonce is consumed exactly when they get that far |
| `Decision.AdmitsExactly` | core/src/decision.rs:130-224 | admission is exactly a good signature over this gateway's own context, a live nonce, an open gate and the mode's on-chain fact; the redemption key is the signed digest |
| `Decision.DeniedForFirst` | core/src/decision.rs:130-224 | a denial is that of the first of the nine checks that fails, whatever the later ones would say |
| `Decision.AdmittedForAll` | core/src/decision.rs:130-224 | a request that passes all nine is let in with its canonical address and, in single-use mode, its digest |
| `Decision.SpendsNonce` | core/src/decision.rs:137-175 | the nonce is spent exactly when proof, message and signature are good and the store answers, whatever the verdict |
| `Decision.AdmissionTakes` | core/src/decision.rs:168-175 | every admission is a successful take of the nonce its proof answers |
| `Decision.AdmissionsWithinTakes` | core/src/decision.rs:168-175 | over every history the requests let in, of any kind, are no more than the successful takes |
| `Decision.AdmissionsForWithinTakes` | core/src/decision.rs:168-175 | those that answer one nonce, whatever messages they signed, are no more than its successful takes |
| `Decision.AdmittedWithinChallenges` | core/src/decision.rs:127-175 | over every history the requests let in are no more than the challenges issued |
| `Decision.AdmittedOncePerChallenge` | core/src/decision.rs:127-175 | each time a nonce is issued lets at most one request in, whatever messages, digests and signatures come with it; a nonce never issued lets none in |
| `Decision.MessageNamesNonce` | core/src/proof.rs:138-167 | a request admitted for a signed message answers the one nonce that message names, so the bounds hold for each message too |
| `Ownership.EndsForGood` | core/src/chain.rs:124-127 | past the page that leads nowhere there is no page |
| `Ownership.ScanOwned` | core/src/chain.rs:103-133 | an answer equals "some page of the whole listing holds a usable pass", in at most 100 calls, all in time and all but the last for pages that lead on; an error is a late clock, a failed page or a hundredth page that leads on |
| `Ownership.OneEnding` | core/src/chain.rs:103-133 | node and clock leave a scan one result and one number of calls |
| `Ownership.ReadableIsAnswered` | core/src/chain.rs:103-133 | a listing that ends within 100 pages, each answered and asked for in time, is answered, for the whole of it |
| `Ownership.ServedIsAnswered` | core/src/chain.rs:103-133 | for pages that lead to each other by their tokens the answer is whether one of them holds a pass |
| `Ownership.TooLongIsRefused` | core/src/chain.rs:129-131 | a listing of more than 100 pages is refused unless one of the first 100 holds a pass |
| `NodeCalls.ScanFromBytes` | core/src/chain.rs:103-133 | from bytes to verdict: framed pages, at most 100 and in time, answer whether some object on some page lets its owner in |
| `Ownership.WrittenListing` | core/src/chain.rs:286-305 | for a listing of written pages that is "some object on some page is a usable pass for the gate" |
| `Ownership.OwnershipCache.Store` | core/src/chain.rs:323-341 | expired entries go, a full cache gives up one oldest, the answer lives until now + ttl; it panics, with room made and nothing stored, exactly when that leaves 64 bits |
| `Ownership.OwnershipCache.OwnsNft` | core/src/chain.rs:308-345 | a hit repeats the cached answer; a miss ends as a scan of the node under the clock does, so a listing that can be read in time within 100 pages is answered; the answer is stored in the cache as the checks beside it left it, an error is not |
| `Ownership.HitIsRecent` | core/src/chain.rs:315-341 | over any order of concurrent scans a hit says whether the listing read by the last scan to end for its key held a usable pass, and that scan ended less than one time to live before |
| `Ownership.HitWhileFresh` | core/src/chain.rs:316-321 | until it expires, the answer of the last scan to end for a key that no full cache gave up since is a hit |
| `Ownership.GivenUpLast` | core/src/chain.rs:326-333 | a full cache gives up an answer only when none of the others it holds expires earlier |
| `Ownership.RunWithinCap` | core/src/chain.rs:325-334 | the cache never holds more than 10,000 entries, however many misses run at once |

## Left out

- Gateway: headers, bodies and the texts of replies; `RedeemFlow` is over the hash map alone, the system in `Gateway` over every store.
- Gateway: a store call that fails after taking effect (a commit whose reply is lost) is not modelled; a failed call had no effect.
- Gateway: `handle`'s routing, loop detection and rate charges around verification; the rate tables are proved on their own.
- InFlight.UploadsAreExclusive: assumes every forward ends within its two timeouts, the commit follows in under one second and a table (Redis has no cap) has room, as the startup check does.
- Rates.PruningChangesNoVerdict: assumes one fixed choice among equally old windows; without it two tables may evict different keys.
- Rates.AdmissionBound: assumes the key's window is never evicted; eviction is documented to fail open (`Budgets.RefusedOnlyWhenSpent` needs no such assumption).
- Nonces.AcceptedInTime: assumes, as its neighbours do, one time to live and that no stored nonce is issued again.
- Shards.ShardsAnswerAsOne: assumes no shard fills up; a capped shard evicts at a different moment than a global table, and then it may only refuse more (`Shards.CappedShardsAcceptNoMore`).
- DurableObject: rows from before owner tokens existed (a lease with no token), schema migration, request dispatch.
- Redis: nonce keys (SET with a deadline, GETDEL), key prefixes, connection retries.
- ProtoWire: fixed-width fields are skipped by the reader as in the code; their bits are never read.
- ChainResponses: address and type normalisation are parameters; request building is left out; JSON values are written with their one field and map entries with key before value, as protobuf encoders do.
- Ownership.ScanOwned: the listing does not change while it is scanned; the deadline of a single call is the transport's.
- Ownership.RunWithinCap: runs in which no deadline leaves 64 bits; the first one that does panics and ends the cache's life with its lock poisoned.
- NodeCalls.LookupFromBytes: an exchange whose reply makes `unframe` panic counts as a failed call; in the code it ends the request.
- ConsumeLookup.ConsumeTxValid: the pause between attempts is not modelled.
- Calendar: days are unbounded integers; `i64` and `u32` casts are exact for every day a 64-bit millisecond clock can name.
- AccessMessage.SignedBytesInjective: stops at the hashed bytes; the hash and the signature schemes are not modelled.
- Decision: decoding the proof token (base64, JSON and its field grammar) is a parameter.
- `MemoryStore` and `MemoryRates`: locking and the choice of table per scope; they pass clock, token and caps to the tables modelled here.
- Workers KV backend: documented as best effort.
- Configuration strings and URLs, CORS, header policies, the floating-point quota assessment, GraphQL, benchmarks and workflow scripts.
