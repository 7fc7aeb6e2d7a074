# Verified model of the zephyrtastic firmware core

This project models the parts of the firmware that have to be right without anyone watching: the
replicated configuration document and the gossip that keeps a fleet's copies equal, the wall clock
read without a lock, the chunked frame channel between a radio head and its brain with the
envelope it carries, the airtime accounting, the channel table and the heard-history ring. It
proves, for every input, run or reachable state, what each of them is for.

`dafny verify dfyconfig.toml` checks everything. Nothing here executes the firmware.

## How it is organised

| files | what they hold |
|---|---|
| `Bytes`, `Arithmetic`, `Stamps` | little-endian words, a few nonlinear facts, the hybrid logical clock |
| `Document`, `Table` | the cluster document as a sorted table of versions; the same operations on the fixed array, in place |
| `Digest`, `Merge` | what a digest says and what comparing two of them means; last writer wins in any order |
| `Fragments`, `Buckets`, `Sync` | cutting an entry into frames and putting it together; the token buckets; vector paging, the diff and the convergence of repeated walks |
| `Protocol`, `Node` | every cluster handler as a function on one state; the same handlers on the mutable member over its fixed array and buffer, each proved equal to its function |
| `Paging`, `Convergence`, `Pacing` | the frames that answer a vector request; two members' walks run through all handlers and frames; the pace at which they are afforded |
| `Sending`, `Overflow` | every frame a change broadcast and an entry reply put on the air; what a peer's rows make a member ask for, and when they make it narrow |
| `Invariants`, `Gossip`, `Provenance` | what every legal run of one member keeps, what it makes of what it hears, and where all it holds and has seen came from |
| `Persistence`, `Flash` | record names, record values, reboot; what is in flash over a run |
| `Seqlock`, `ClockRate` | the clock anchor under every interleaving; the rate correction |
| `FrameChannel`, `Envelope` | chunks, and the messages they carry |
| `Airtime`, `Channels`, `HeardRing` | the lazily decayed windows, the channel table, the ring of heard frames |
| `Witnesses` | concrete inputs for what the code does not do |

## Main results

- **Two members converge** (`Convergence.MembersConverge`). Two members under any two claims, each
  with room for its own document and for what the other offers inside its claim, and each trusting
  the offered rows it lacks, agree on everything both claim after enough completed walks in each
  direction, run frame by frame through both sides' handlers, and both digest comparisons match.
  Each walk removes exactly min(batch, remaining) of the keys the peer is ahead on
  (`Sync.WalkMakesProgress`), and one vector request is answered in full (`Paging.ReplyIsComplete`).
  Requests one serve interval apart are always afforded (`Pacing.PacedMembersConverge`), and a
  digest opens a walk exactly when the documents differ on the scope it can compare
  (`Gossip.WalkOpensExactly`).
- **Merging is order-independent** (`Merge.MergeIsOrderIndependent`), so one set of arrivals gives
  one digest.
- **Every legal run of a member** keeps its table sorted, bounded and inside its claim
  (`Invariants.RunKeepsDoc`), keeps its clock ahead of all it holds (`Invariants.RunKeepsCover`)
  stays within each token budget (`Invariants.RepliesStayInBudget`, `PushesStayInBudget`) and, left
  alone, narrows its claim at most once (`Gossip.NarrowsAtMostOnce`).
- **Nothing unauthorised gets in** (`Provenance.RunIsAccounted`): over every run each entry held was
  there at the start, written here as asked and signed, loaded from a well-formed record inside the
  claim, or heard in scope and in horizon past both the authorship gate and the vouching check. All
  that is held is well formed (`Provenance.HeldIsWellFormed`), and a local write outranks every stamp
  ever seen within the drift limit (`Provenance.WriteOutranksSeen`).
- **A change reaches its listeners** (`Sending.WriteReachesListeners`): the broadcast queue is sent
  whole, oldest first, to everyone (`Sending.PushesAreSent`), and a member that hears the frames and
  admits the entry merges exactly that entry. An entry request is answered in full
  (`Sending.EntryReplyIsComplete`).
- **A full table narrows the claim exactly** when a relevant new row is reached while there is no room
  (`Overflow.NarrowsExactly`); a batch is asked for exactly when it is full or the last chunk is in
  (`Overflow.AsksExactly`).
- **Reassembly never splices** two versions, neither in the slot
  (`Fragments.ReassemblyNeverSplices`) nor in the document over a whole run
  (`Gossip.RunNeverSplices`), and in-order delivery completes whatever harmless frames come in
  between (`Fragments.InOrderDeliveryCompletes`).
- **A digest match is agreement, up to a CRC collision**, and agreement never mismatches.
- **A reboot restores the document**, or the part of it the claim at boot covers, from its records
  in any order and whatever refused leftovers lie beside them (`Persistence.RebootRestoresDocument`);
  over every run, with deletes that may fail, flash is in the state that takes
  (`Flash.RunSurvivesReboot`).
- **A lock-free clock read is one published tuple** under every interleaving
  (`Seqlock.SuccessIsAtomic`); an attempt that meets no write succeeds exactly when the tuple is
  seeded (`Seqlock.QuietReadSucceeds`), and a read fails only unseeded or after four attempts
  (`Seqlock.FailureHasAReason`). Reported time never runs backwards exactly when the rate
  correction is at least -10^9 ppb (`ClockRate.TimeIsMonotone`).
- **A message arrives** through any chunking (`Envelope.MessageArrives`), bytes decode exactly when
  some message encodes to them (`Envelope.DecodesExactly`), and one frame completes
  exactly when no chunk of it was lost (`FrameChannel.LossIsDetected`).
- **Lazy decay is the sliding window** (`Airtime.Meter.ChannelPercent`, `TxPercent`) and the
  silent-minutes answer is the exact least wait (`Airtime.Meter.SilentMinutes`).
- **Exactly one PRIMARY channel** after every run of edits (`Channels.RunKeepsOnePrimary`); a channel's
  hash is the XOR of every byte of its resolved name and key (`Channels.HashIsOfNameAndKey`).
- **The heard ring answers for the whole log** while at most fifteen other frames have been
  taken up (`HeardRing.SoonIsExact`); the exact law for every log is `HeardRing.AgainIsExact`.

## Where the code does less than one would like

These were expected of the code, do not hold in general, and are proved with their exact condition.
`Witnesses` and `ClockRate.BadSyncPairIsAccepted` give a concrete input for each.

- A digest does not cover all that both sides claim: a CORE member compares only base with a FULL
  peer, so a difference in its own rows opens no walk (`Gossip.OwnRowsAreNotCompared`). The
  periodic backstop walk is there for this; the exact rule is `Gossip.WalkOpensExactly`.
- A record loaded from flash passes no drift horizon, so one stamped further ahead of the wall clock
  than the drift limit can make this node's own writes to its key stale until some clock passes it.
  In any state a rewrite is stored exactly when the wall clock, this node's clock or the config
  store's stamp gets past the held version (`Invariants.RewriteIsStoredExactly`); with one record
  loaded that is a condition on the clocks at load and at write
  (`Invariants.LoadedFutureRecordBlocksWrites`).
- A record that a failed delete left behind is harmless only under the claim that evicted it; widen
  the claim and boot, and it is loaded. Without widening it never is (`Flash.RunSurvivesReboot`).
- `publish` can name another node's key without a scope check. What makes the table leave its claim
  is decided before the call: a well-formed new entry, and either room and a claim without the key,
  or room after narrowing and a CORE claim without it (`Invariants.PublishKeepsClaimExactly`).
- Narrowing cannot make room on a node whose id is still 0, whose CORE claim is the full one
  (`Invariants.LocalWriteOutcome`).
- The rate estimate multiplies in 64 bits before its sanity bound. It is the true rate exactly when
  that product fits (`ClockRate.EstimateIsTrueExactly`); a concrete pair of readings slips past the
  bound (`ClockRate.BadSyncPairIsAccepted`).
- The key parser accepts names the writer never emits; the exact difference is
  `Persistence.ParsedNameIsCanonical`.
- A token bucket counts tokens and the intervals of a silence in 32 bits, so it refuses a request when
  they come to a multiple of 2^32 (`Buckets.SilenceEarnsExactly`).
- A relay with more than 249 wire bytes fits no envelope (`Envelope.RelayFitsExactly`).
- Two bytes appended to a short transmit result are read as its lag, where other fixed messages
  ignore an appended tail (`Envelope.AppendedFieldsAreIgnored`).
- Setting a PRIMARY channel without settings replaces slot 0 by the default channel
  (`Channels.WhereThePrimaryGoes`).
- Once sixteen other frames were taken up, the heard ring denies copies the log has
  (`HeardRing.AgainIsExact`).

## Model

| member | source | states |
|---|---|---|
| Stamps.Compare | src/meshtastic_hlc.c:111-127 | zero exactly on equal stamps |
| Stamps.NewerIsTotal | src/meshtastic_hlc.c:111-127 | of two distinct stamps exactly one is newer |
| Stamps.NewerTransitive | src/meshtastic_hlc.c:111-127 | newer is transitive, also across equality |
| Stamps.NewerIsGreater | src/meshtastic_hlc.c:111-127 | newer is the order of the stamps read as one number, time before counter before node |
| Stamps.BumpCounter | src/meshtastic_hlc.c:18-27 | the clock moves strictly forward even when the counter would wrap |
| Stamps.LocalAt | src/meshtastic_hlc.c:29-61 | a local event puts the clock strictly after its old value and not before the wall clock, negative readings included |
| Stamps.ObserveAt | src/meshtastic_hlc.c:63-109 | observing puts the clock strictly after its old value and not before the wall clock |
| Stamps.ObservePassesRemote | src/meshtastic_hlc.c:63-109 | observing passes the remote stamp exactly when it was not clamped or was already covered |
| Stamps.CoverIsStable | src/meshtastic_hlc.c:29-109 | a stamp the clock covers stays covered by every later event |
| Stamps.MintOutranksCovered | src/meshtastic_hlc.c:29-61 | a minted stamp is newer than every stamp the clock covers |
| Stamps.MintIsTheLatest | src/meshtastic_hlc.c:29-109 | observing and then minting outranks exactly what the wall clock at count one, the old clock bumped twice, or the observed stamp as the guard lets it through bumped twice outranks |
| Document.KeyCmp | src/meshtastic_cluster_doc.c:23-33 | zero exactly on equal keys |
| Document.KeyOrder | src/meshtastic_cluster_doc.c:23-33 | the key order is antisymmetric and transitive |
| Document.KeyOrderIsNumeric | src/meshtastic_cluster_doc.c:23-33 | the key order is the order of the keys read as one number, base before nodes, then node, then section |
| Document.Intersect | src/meshtastic_cluster_doc.c:57-76 | the intersection contains a key exactly when both scopes do |
| Document.Pos | src/meshtastic_cluster_doc.c:79-97 | everything before the position is smaller, the entry at it is not |
| Document.FindMember | src/meshtastic_cluster_doc.c:99-107 | in a sorted table every entry is found under its key |
| Merge.FindIsKeys | src/meshtastic_cluster_doc.c:99-107 | in a sorted table a lookup succeeds exactly when the key is held |
| Document.LookupDeterminesTable | src/meshtastic_cluster_doc.c:79-107 | two sorted tables that answer every lookup alike are the same table |
| Document.AcceptIsUpdate | src/meshtastic_cluster_doc.c:123-188 | accepting keeps the table sorted and bounded and changes the lookup of the accepted key and of no other; the length grows exactly on an insert |
| Document.WantMatchesAccept | src/meshtastic_cluster_doc.c:263-292 | an in-scope entry is asked for exactly when accepting it would store it, and reported as overflow exactly when it would not fit |
| Document.RestrictFind | src/meshtastic_cluster_doc.c:346-377 | retaining a scope keeps the table sorted and keeps exactly the lookups inside the scope |
| Document.NarrowingIsHarmless | src/meshtastic_cluster_doc.c:346-430 | retaining CORE(me) leaves the effective entry and the effective version of every section unchanged |
| Document.UnpinReverts | src/meshtastic_cluster_doc.c:379-430 | a newer tombstone over a pin reverts the section to its base entry and becomes its version |
| Table.Store.constructor | src/meshtastic_cluster_doc.c:14-21 | an empty table of the given capacity |
| Table.Store.Position | src/meshtastic_cluster_doc.c:79-97 | the scan finds the sorted position and whether the key is there |
| Table.Store.Lookup | src/meshtastic_cluster_doc.c:99-107 | the array lookup is the table's lookup |
| Table.Store.Accept | src/meshtastic_cluster_doc.c:123-188 | verdict and rows of the in-place operation are those of the table operation, on every path |
| Table.Store.Insert | src/meshtastic_cluster_doc.c:161-187 | shifting up and storing inserts one entry and moves nothing else |
| Table.Store.WantOf | src/meshtastic_cluster_doc.c:263-292 | the array form of the want test |
| Table.Store.CountScoped | src/meshtastic_cluster_doc.c:250-261 | the loop counts the in-scope rows |
| Table.Store.HashScoped | src/meshtastic_cluster_doc.c:222-240 | the loop hashes exactly the in-scope rows, in order |
| Table.Store.MaxStampScoped | src/meshtastic_cluster_doc.c:305-318 | the loop yields the newest in-scope stamp |
| Table.Store.Retain | src/meshtastic_cluster_doc.c:346-377 | compacting in place keeps exactly the in-scope rows, reports the evicted keys in order and clears the tail |
| Table.Store.Clear | src/meshtastic_cluster_doc.c:329-344 | nothing is left, every key is reported, every slot is cleared |
| Table.EvictedKeys | src/meshtastic_cluster_doc.c:346-377 | a key is reported evicted exactly when it was held and is not claimed; evicted and kept rows add up |
| Digest.RowInjective | src/meshtastic_cluster_doc.c:200-220 | the 24-byte row determines key, stamp and tombstone flag |
| Digest.MaxStampIsMax | src/meshtastic_cluster_doc.c:305-318 | the max leg is an upper bound of every row's stamp and is attained |
| Digest.LegsSeeOnlyVersions | src/meshtastic_cluster_doc.c:222-318 | hash, count and max stamp depend on the versions held and on nothing else |
| Digest.AgreementIsEqualRows | src/meshtastic_cluster_doc.c:200-240 | two documents agree over a scope exactly when their in-scope versions are equal row by row |
| Digest.EqualRowBytesAreEqualVersions | src/meshtastic_cluster_doc.c:200-240 | equal hashed bytes are equal versions, so a mistaken match is a CRC collision |
| Digest.BuiltDigestDescribes | src/meshtastic_cluster.c:1904-1952 | the digest a member sends is true of its document and names its claim |
| Digest.OneVersionOneDigest | src/meshtastic_cluster.c:1904-1952 | documents that hold the same versions send the same digest |
| Digest.AgreementNeverMismatches | src/meshtastic_cluster.c:2074-2121 | agreement over the scope intersection is never reported as a mismatch, and is incomparable exactly against a pre-scope sender from a narrow claim |
| Digest.MatchMeansAgreement | src/meshtastic_cluster.c:2074-2121 | a match means agreement over the compared scope, or a CRC collision |
| Digest.MatchComparesEveryLeg | src/meshtastic_cluster.c:2074-2121 | a match also means equally many rows over the compared scope and, where the sender's whole claim is compared, the same newest stamp, so a mistaken one has to fool all legs |
| Digest.ComparisonIsExact | src/meshtastic_cluster.c:2074-2121 | the whole law: incomparable exactly for a narrow claim against a pre-scope sender, else, short of a collision, a match exactly on agreement over the compared scope |
| Merge.NewestVersionWins | src/meshtastic_cluster_doc.c:123-188 | after any arrivals that fit, every key holds a newest version offered for it |
| Merge.AcceptAllStaysSorted | src/meshtastic_cluster_doc.c:123-188 | any arrivals leave a sorted, bounded table with no key from nowhere |
| Merge.MergeIsOrderIndependent | src/meshtastic_cluster_doc.c:79-188 | the same arrivals in any order with any repetition give the same table |
| Merge.MergeGivesOneDigest | src/meshtastic_cluster_doc.c:200-318 | and so the same digest under every claim |
| Fragments.FragTake | src/meshtastic_cluster_doc.c:432-441 | the slice stays inside the payload and the cap, a stale cursor restarts, and a live cursor always advances |
| Fragments.SenderIsHonest | src/meshtastic_cluster.c:1438-1467 | whatever the cursor, a sent fragment is a true slice of the version read now |
| Fragments.LastCarriesSignature | src/meshtastic_cluster.c:1438-1467 | only the last fragment carries the signature and all carry the same version |
| Fragments.Reassembler.constructor | src/meshtastic_cluster.c:1496-1501 | an idle slot |
| Fragments.Reassembler.Release | src/meshtastic_cluster.c:1496-1501 | releasing forgets whatever was half received |
| Fragments.Reassembler.Ingest | src/meshtastic_cluster.c:2576-2673 | the in-place slot does what the value-level reassembly does, on every path |
| Fragments.StepNeverSplices | src/meshtastic_cluster.c:2576-2673 | one honest fragment keeps the slot a prefix of one version and completes only that version's payload |
| Fragments.ReassemblyNeverSplices | src/meshtastic_cluster.c:2576-2673 | over every interleaving of honest fragments with loss, repetition, displacement and timeout, a completed payload is one version's payload |
| Fragments.InOrderDeliveryCompletes | src/meshtastic_cluster.c:2576-2673 | an entry's fragments arriving in order and in time, with any frames in between that do not displace the slot, complete the payload on the last one and on none before, for every length and cap |
| Fragments.BystanderIsHarmless | src/meshtastic_cluster.c:2594-2637 | a frame that does not fit, is whole in itself, or is the middle of something else leaves a half-received entry alone |
| Fragments.MisfitIsIgnored | src/meshtastic_cluster.c:2576-2600 | a fragment that claims too long a payload, carries more than a frame holds or reaches past its own payload changes nothing, and no completed payload is over the limit |
| Fragments.ResendCompletes | src/meshtastic_cluster.c:2576-2673 | a resend from an earlier cursor skips what is held and still completes |
| Fragments.AlreadyHeldIsIgnored | src/meshtastic_cluster.c:2576-2673 | a repeated fragment changes nothing |
| Buckets.GrantsAreBounded | src/meshtastic_cluster.c:2340-2372 | over any request times the grants are at most the burst plus the whole intervals passed |
| Buckets.QuietEarnsAGrant | src/meshtastic_cluster.c:1361-1381 | one quiet interval earns the next grant |
| Buckets.BurstIsGranted | src/meshtastic_cluster.c:2340-2372 | n requests at one instant are granted exactly as far as the tokens held and the whole intervals passed go, up to the burst |
| Buckets.QuietEarnsGrants | src/meshtastic_cluster.c:2340-2372 | from an empty bucket that is min(n, burst, whole intervals passed) grants |
| Buckets.CreditKeepsTheRest | src/meshtastic_cluster.c:2340-2365 | crediting at two times is crediting at the second, below the burst: the part of an interval already passed is never lost |
| Buckets.SilenceEarnsExactly | src/meshtastic_cluster.c:2340-2365 | a request is refused exactly when the tokens held and the whole intervals passed are together a multiple of 2^32, none included |
| Sync.ChunkFills | src/meshtastic_cluster.c:1555-1592 | a chunk is full or reaches the end of the table |
| Paging.PagesAreSent | src/meshtastic_cluster.c:1555-1593 | from any cursor, the frames the transmit handler sends for a vector are exactly the pages still to come, to the requester, and then it is done |
| Paging.ReplyIsComplete | src/meshtastic_cluster.c:2374-2405 | one accepted request is answered by frames whose rows are all in-scope rows, in order, each once, and the receiver's end test is true of a frame exactly when the rows up to it are all of them |
| Sync.DiffCollectsBehind | src/meshtastic_cluster.c:2407-2521 | diffing collects exactly the first batch of keys the peer is ahead on and reports no overflow while there is room |
| Sync.WalkMakesProgress | src/meshtastic_cluster.c:2407-2555 | a walk removes exactly the first batch of the keys the peer is ahead on and adds none |
| Sync.WalksDrain | src/meshtastic_cluster.c:2407-2555 | n walks remove exactly the first n batches |
| Sync.DrainedSidesAgree | src/meshtastic_cluster.c:2407-2935 | two drained sides agree on the intersection of their claims |
| Sync.RepeatedWalksConverge | src/meshtastic_cluster.c:1512-2935 | enough walks each way end in agreement and two matching digest comparisons |
| Convergence.VectorIsRequested | src/meshtastic_cluster.c:1971-2049 | starting a pull puts the requester in wait and the responder at the start of a paging under the requester's claim |
| Convergence.VectorIsDiffed | src/meshtastic_cluster.c:2407-2521 | the whole paged vector, diffed chunk by chunk, decides exactly the walk's batch |
| Convergence.EntriesAreRequested | src/meshtastic_cluster.c:2523-2555 | the request hands the responder exactly the decided keys |
| Convergence.BurstIsServed | src/meshtastic_cluster.c:1516-1542 | the responder sends every fragment of every requested entry in order and then stops |
| Convergence.BurstIsMerged | src/meshtastic_cluster.c:2783-2935 | receiving the burst merges every entry of it and nothing else |
| Convergence.LateChunksAreIgnored | src/meshtastic_cluster.c:2407-2427 | chunks still coming after the decision change nothing at the requester |
| Convergence.WalkFetchesTheBatch | src/meshtastic_cluster.c:1512-2935 | one walk through both members' handlers fetches exactly the batch and leaves both free |
| Convergence.RunFetchesBatches | src/meshtastic_cluster.c:1512-2935 | a run of walks is the run of batches |
| Convergence.MembersConverge | src/meshtastic_cluster.c:1512-2935 | two members that pull from each other, each with room for its own document and what the other offers inside its claim, agree on everything both claim and both comparisons match |
| Pacing.PauseEarnsAGrant | src/meshtastic_cluster.c:2340-2372 | after a pause of one serve interval or more a request is granted and the bucket is up to date |
| Pacing.FreshMemberHasItsBurst | src/meshtastic_cluster.c:3643-3692 | at init exactly the burst of replies and of pushes is granted |
| Pacing.PacedRunIsAfforded | src/meshtastic_cluster.c:2340-2555 | every walk of a run whose requests keep that pause is afforded |
| Pacing.PacedMembersConverge | src/meshtastic_cluster.c:1512-2935 | members that keep each other's pace converge, with no further condition on the budget |
| Invariants.StepKeepsDoc | src/meshtastic_cluster.c:1672-3560 | every step of a member (digest, vector, entry, requests, transmit, timeout, lost channel, write, scope choice, reset, load) keeps its document sorted, bounded, valid and inside its claim |
| Invariants.RunKeepsDoc | src/meshtastic_cluster.c:1672-3560 | and so does every legal run |
| Invariants.DigestCoversTheDocument | src/meshtastic_cluster.c:1904-1952 | after every legal run the scoped digest covers the whole document |
| Invariants.CoreClaimFits | src/meshtastic_cluster.c:361-385 | a document inside CORE always has room for one more shareable key in a table of twice the allowlist |
| Invariants.LocalWriteOutcome | src/meshtastic_cluster.c:3112-3158 | a local write finds no space exactly when the table is full of other keys and cannot narrow, because the claim is pinned or the node has no id; otherwise it is stored |
| Invariants.StepKeepsCover | src/meshtastic_cluster.c:2258-3158 | every step keeps the clock at or past every stamp held, if loaded records are within the horizon |
| Invariants.RunKeepsCover | src/meshtastic_cluster.c:2258-3158 | and so does every such run |
| Invariants.RewriteIsStoredExactly | src/meshtastic_cluster.c:3112-3158 | in any state and with any store stamp, rewriting a held key is stored exactly when the wall clock, this node's clock bumped twice, or the store's stamp as the drift guard lets it through bumped twice outranks the held version |
| Invariants.LoadedFutureRecordBlocksWrites | src/meshtastic_cluster.c:885-964 | so after a boot with one record a write to its key is stored exactly when the record was not clamped at load time or the clock at write time has passed it |
| Invariants.PublishKeepsClaimExactly | src/meshtastic_cluster.c:3273-3296 | a write takes the document out of its claim exactly when, before the call, the entry is well formed and new and either there is room and the claim lacks the key, or narrowing makes room and CORE lacks it |
| Invariants.LocalWriteTakesEffect | src/meshtastic_cluster.c:3112-3158 | a stored write is the newest version of its section, outranks the store it came from, decides what the node runs there and changes no other section |
| Invariants.StepSpends | src/meshtastic_cluster.c:1361-2555 | every step leaves a budget alone or makes one request of it, and only granted requests start a reply or queue a push |
| Invariants.RepliesStayInBudget | src/meshtastic_cluster.c:2340-2405 | at every time after init the reply walks started are at most burst plus elapsed over interval |
| Invariants.PushesStayInBudget | src/meshtastic_cluster.c:1361-1421 | at every time after init the pushes queued are at most burst plus elapsed over interval |
| Overflow.DiffTakes | src/meshtastic_cluster.c:2434-2465 | the batch is the wanted keys among any rows, in their order, cut off when it is full |
| Overflow.NarrowsExactly | src/meshtastic_cluster.c:2407-2474 | for any vector, the claim narrows and the table is compacted to CORE exactly when a row that is reached is relevant and new while the table is full, unless pinned or CORE; such a row ends the walk; else claim and document stay |
| Overflow.AsksExactly | src/meshtastic_cluster.c:2476-2521 | without overflow the batch is asked for exactly when it is full or the last chunk is in and something is wanted, from the same peer; with nothing wanted the walk ends; else the wait goes on |
| Overflow.UnsolicitedIsIgnored | src/meshtastic_cluster.c:2414-2427 | a vector from anyone else, or after the batch is decided, changes nothing |
| Overflow.DiffSees | src/meshtastic_cluster.c:2434-2450 | every row reached within the horizon is behind the clock afterwards |
| Provenance.HeardIsAuthorised | src/meshtastic_cluster.c:2783-2935 | an entry that hearing a fragment brings in is of a shared section, inside the claim, in horizon, past the gate on key and stamp and vouched for whole |
| Provenance.RefusedLeavesNoTrace | src/meshtastic_cluster.c:2783-2935 | a fragment refused by a gate changes nothing at all; an entry not vouched for moves neither document nor clock |
| Provenance.RunIsAccounted | src/meshtastic_cluster.c:2783-3158 | over every run every entry held was held at the start, written here as asked and signed, loaded well formed inside the claim, or heard as authorised |
| Provenance.HeldIsWellFormed | src/meshtastic_cluster_doc.c:123-188 | over every run from init every entry has a bounded payload that is empty exactly for a tombstone, a valid key, no base tombstone, a stamp, a shared section inside the claim, and its key to itself |
| Provenance.StepKeepsClock | src/meshtastic_cluster.c:2258-3158 | no step takes the clock back behind a stamp it covers |
| Provenance.WriteOutranksSeen | src/meshtastic_cluster.c:2258-3158 | over every run a write outranks every stamp seen before it in any digest, row, entry or record that was within the drift limit when seen |
| Provenance.RunKeepsPull | src/meshtastic_cluster.c:1971-2521 | over every run a member never pulls from itself or nobody, its batch stays within its bound, an entry request is never empty, and an idle pull keeps nothing |
| Sending.QueueIsSent | src/meshtastic_cluster.c:1635-1667 | from any cursor inside the oldest change the frames sent are the rest of it and every fragment of the later ones still held, in order, all broadcast, and then the queue is empty |
| Sending.PushesAreSent | src/meshtastic_cluster.c:1635-1667 | from the start of the queue that is every fragment of every queued entry still held |
| Sending.ReplacedEntryStartsOver | src/meshtastic_cluster.c:1438-1467 | an entry replaced by a shorter one while it was being sent is sent again from its start |
| Sending.WriteIsQueuedExactly | src/meshtastic_cluster.c:1392-1421 | a write is queued, at the end, exactly when it was stored, is not queued yet, and there is room and a token |
| Sending.WriteReachesListeners | src/meshtastic_cluster.c:1392-1667 | the frames a quiet member broadcasts after a stored write make every member that hears them in time and admits the entry merge exactly it |
| Sending.EntryReplyIsComplete | src/meshtastic_cluster.c:1516-1542 | one accepted entry request is answered by every fragment of every entry held under the first batch of its keys, in the order asked, to the requester, and then the responder is free |
| Sending.RepliesAreNotDisturbed | src/meshtastic_cluster.c:2374-2555 | a request that comes during the same kind of reply changes nothing |
| Sending.EvictionEndsJobs | src/meshtastic_cluster.c:1768-1792 | evicting anything ends every job that described the old document and evicting nothing ends none |
| Sending.LostChannelIsQuiet | src/meshtastic_cluster.c:1685-1696 | without its channel a member sends nothing but its queued changes, from their start |
| Sending.ClearedIsSilent | src/meshtastic_cluster.c:3515-3560 | a cleared member holds and sends nothing and keeps its clock |
| Sending.ExpiryFreesTheMember | src/meshtastic_cluster.c:1699-1704 | giving up on a vector frees the member for another walk and gives up nothing else |
| Gossip.WalkOpensExactly | src/meshtastic_cluster.c:2258-2315 | short of a CRC collision, an idle member that hears a digest opens a walk with its sender exactly when the two share a leg, the documents disagree on the compared scope and the backoff does not hold it; otherwise only its clock moves |
| Gossip.OwnRowsAreNotCompared | src/meshtastic_cluster.c:1850-1866 | a CORE member that agrees with a FULL peer on base opens no walk on its digest, whatever differs in its own rows, which both claim |
| Gossip.RunNeverSplices | src/meshtastic_cluster.c:2783-2935 | over every run of honest fragments, interleaved, lost or repeated, an entry held under another node's stamp has exactly the payload of its version |
| Gossip.CoreNeverOverflows | src/meshtastic_cluster.c:1814-1816 | diffing any rows against a CORE member's document never reports overflow |
| Gossip.NarrowsAtMostOnce | src/meshtastic_cluster.c:1794-1836 | over every run without an operator's scope choice the claim changes at most once, and then to CORE, never under a pin, and the pin itself does not change |
| Node.Member.constructor | src/meshtastic_cluster.c:3643-3692 | an empty table of the configured capacity, an idle slot and full buckets |
| Node.Member.ScopeSetLocked | src/meshtastic_cluster.c:1768-1792 | claiming a scope compacts the array to it, reports what went and, if anything did, drops every job that described the old document |
| Node.Member.Clear | src/meshtastic_cluster.c:3515-3560 | a reset empties the array, the queue and every job and goes back to the given claim |
| Node.Member.DemoteLocked | src/meshtastic_cluster.c:1818-1836 | narrowing is one way and never overrides a pin |
| Node.Member.StartPull | src/meshtastic_cluster.c:1971-2049 | one walk at a time, never with nobody or itself |
| Node.Member.MakeDigest | src/meshtastic_cluster.c:1904-1952 | the digest computed over the array is the document's |
| Node.Member.Compare | src/meshtastic_cluster.c:2074-2121 | the comparison computed over the array is the one the digest laws are about |
| Node.Member.HandleDigest | src/meshtastic_cluster.c:2258-2291 | the clock moves, and a mismatch that is not held back opens a walk |
| Node.Member.ExpirePull | src/meshtastic_cluster.c:1699-1704 | giving up drops a walk that waits for a vector and keeps any other |
| Node.Member.DropChannel | src/meshtastic_cluster.c:1685-1696 | a lost channel drops the walk, both replies and every fragment cursor and keeps the document and the queued pushes |
| Node.Member.HandleVector | src/meshtastic_cluster.c:2407-2521 | the handler's whole new state, whichever way the chunk goes |
| Node.Member.DiffChunk | src/meshtastic_cluster.c:2434-2465 | the row loop over the array collects what row-by-row diffing collects |
| Node.Member.MayServe | src/meshtastic_cluster.c:2340-2365 | credits whole intervals and says whether a token is there |
| Node.Member.HandleVectorReq | src/meshtastic_cluster.c:2374-2405 | one reply at a time, paid for, under the requester's claim |
| Node.Member.HandleEntryReq | src/meshtastic_cluster.c:2523-2555 | one burst at a time, paid for, of at most a batch |
| Node.Member.HandleEntry | src/meshtastic_cluster.c:2783-2935 | gates, reassembly in the buffer, clock and merge into the array, in the code's order |
| Node.Member.Load | src/meshtastic_cluster.c:924-964 | one record at boot: static gates, the scope filter, merge and clock |
| Node.Member.TakeEntry | src/meshtastic_cluster.c:1516-1542 | the next fragment of the burst, skipping keys no longer held |
| Node.Member.FillChunk | src/meshtastic_cluster.c:1555-1592 | the chunk loop emits the next in-scope rows and leaves the cursor after the last one looked at |
| Node.Member.TakeVector | src/meshtastic_cluster.c:1555-1592 | the next chunk, and the end of the paging |
| Node.Member.TakePush | src/meshtastic_cluster.c:1635-1667 | the next fragment of the oldest queued push, dropping keys no longer held |
| Node.Member.SendNext | src/meshtastic_cluster.c:1512-1670 | one frame by the code's priority order, or none |
| Node.Member.MayPush | src/meshtastic_cluster.c:1361-1381 | credits whole intervals and says whether a token is there |
| Node.Member.Enqueue | src/meshtastic_cluster.c:1392-1421 | a push is queued once, in order, if there is a token and room |
| Node.Member.IsQueued | src/meshtastic_cluster.c:1392-1421 | the ring scan finds a key exactly when it is queued |
| Node.Member.Write | src/meshtastic_cluster.c:3112-3158 | mint, accept, narrow and retry once, queue the push |
| Persistence.NameRoundTrip | src/meshtastic_cluster_key.h:21-71 | the parser undoes the writer for every layer, 32-bit node and 16-bit section |
| Persistence.ParsedNameIsCanonical | src/meshtastic_cluster_key.h:21-71 | a parsed name is the one its key would be written under exactly when it is canonical |
| Persistence.AliasesExactly | src/meshtastic_cluster.c:884-911 | two names are read as one key exactly when they have the same id, both or neither the letter b, and sections equal modulo 2^16 |
| Persistence.ParseEntryKey | src/meshtastic_cluster_key.h:21-71 | the hand-written scan accepts exactly the grammar, whole, with both numbers in range |
| Persistence.ParseId | src/meshtastic_cluster_key.h:33-48 | the digit loop reads the longest run of at most eight hex digits |
| Persistence.ParseSection | src/meshtastic_cluster_key.h:53-67 | the decimal loop accepts exactly the in-range numbers |
| Persistence.RecordRoundTrip | src/meshtastic_cluster.c:703-724 | a stored record decodes to its entry, tombstone and signature included |
| Persistence.RecordIsItsEntry | src/meshtastic_cluster.c:703-724 | a record decodes to an entry exactly when it is that entry's record: no other flag, length or signature shape is read as one |
| Persistence.LoadIsAccepting | src/meshtastic_cluster.c:885-964 | whatever is in flash, booting is accepting the records the loader takes, in their order |
| Persistence.SavedEntryLoads | src/meshtastic_cluster.c:885-964 | a saved entry comes back exactly when the claim at boot contains it |
| Persistence.AcceptingATableRebuildsIt | src/meshtastic_cluster.c:885-964 | accepting a table's entries in any order with any repetition rebuilds it |
| Persistence.RebootRestoresDocument | src/meshtastic_cluster.c:727-964 | a boot under any claim, with its records in any order and refused leftovers beside them, rebuilds exactly the part of the document that claim covers |
| Persistence.RebootKeepsEverything | src/meshtastic_cluster.c:747-883 | a member whose recorded or compiled claim survives comes back with its whole document |
| Persistence.BootClaims | src/meshtastic_cluster.c:836-883 | a compiled claim wins over any record; an AUTO build boots CORE exactly from a CORE record made for a table at least as large |
| Flash.StepShape | src/meshtastic_cluster.c:1672-3560 | every step but a load restricts the document to the claim it ends under, or empties it, and stores exactly what it writes to flash |
| Flash.StepKeepsFlash | src/meshtastic_cluster.c:703-745 | every step leaves each entry of the document in flash under its name and nothing else there inside the claim, whichever deletes fail |
| Flash.RunKeepsFlash | src/meshtastic_cluster.c:703-745 | and so does every run between two boots that widens its claim only over a clean flash |
| Flash.RunSurvivesReboot | src/meshtastic_cluster.c:727-964 | such a run and then a boot under the same or a narrower claim gives exactly the part of the document that claim covers |
| Seqlock.StepIsSound | src/meshtastic_clock.c:99-132 | every writer and reader step keeps memory a mix of at most the current and the next tuple and keeps an undisturbed copy true |
| Seqlock.SuccessIsAtomic | src/meshtastic_clock.c:99-132 | under every interleaving of single-word steps a successful read is, word by word, one published tuple, unless the 32-bit sequence lapped during it |
| Seqlock.QuietReadSucceeds | src/meshtastic_clock.c:115-132 | an attempt that begins between writes and meets none finishes in one step per word and two more, and succeeds exactly when the current tuple is seeded, with that tuple |
| Seqlock.FailureHasAReason | src/meshtastic_clock.c:115-132 | under every interleaving a read fails only if what it read whole is unseeded or all four attempts are used |
| Seqlock.UndisturbedCheckSucceeds | src/meshtastic_clock.c:115-132 | a whole copy that no write disturbed is reported, seeded or not, as the tuple it is a copy of |
| Seqlock.ReaderAlwaysFinishes | src/meshtastic_clock.c:115-132 | a reader is never stuck and finishes within four attempts, whatever writers do |
| ClockRate.NoStepBack | src/meshtastic_clock.c:476-494 | a later uptime is never reported as an earlier time |
| ClockRate.TimeIsMonotone | src/meshtastic_clock.c:476-494 | reported time is nondecreasing on both sides of the anchor exactly when the rate is at least minus 10^9 ppb |
| ClockRate.EstimateIsTrueExactly | src/meshtastic_clock.c:189-212 | the estimate is the true truncated rate exactly when the 64-bit product does not overflow |
| ClockRate.AcceptedExactly | src/meshtastic_clock.c:189-212 | where the product fits, a rate is accepted exactly when the window is long enough and the true rate within the bound, and is that rate |
| ClockRate.BadSyncPairIsAccepted | src/meshtastic_clock.c:189-212 | two readings whose true rate is far over the bound yield an accepted estimate |
| ClockRate.EstimateReproducesReference | src/meshtastic_clock.c:189-212 | over its own window an estimate reproduces the reference to less than 1 ms plus a billionth of the window and never over-corrects |
| FrameChannel.FrameRoundTrip | src/meshtastic_ble_peer_codec.c:153-222 | every accepted frame of every kind, cut at any buffer sizes of at least 4, arrives whole on the last chunk and not before, at a receiver in any state |
| FrameChannel.StartsExactly | src/meshtastic_ble_peer_codec.c:153-173 | a frame is taken exactly when it is not empty, fits its kind and the kind fits four bits |
| FrameChannel.LossIsDetected | src/meshtastic_ble_peer_codec.c:238-338 | over any subsequence of one frame's chunks at an idle receiver, a frame completes exactly when nothing was dropped |
| FrameChannel.IngestStaysInBuffer | src/meshtastic_ble_peer_codec.c:238-338 | on any bytes whatever the receiver stays below its declared length and a completed frame fits its kind |
| FrameChannel.VerdictsAreExact | src/meshtastic_ble_peer_codec.c:238-338 | "too long" is said of exactly the FIRST chunks that declare more than their kind allows, and after any chunk but a stub the receiver is mid-frame exactly when it expects more |
| FrameChannel.RepeatedChunkIsRefused | src/meshtastic_ble_peer_codec.c:301-317 | a continuation out of sequence ends the frame, so no chunk is taken twice |
| FrameChannel.ChunkOf | src/meshtastic_ble_peer_codec.c:181-222 | a chunk carries at least one byte and fits the caller's buffer |
| FrameChannel.Sender.constructor | src/meshtastic_ble_peer_codec.c:153-173 | a chunker at the start of its frame |
| FrameChannel.Sender.Next | src/meshtastic_ble_peer_codec.c:181-222 | refuses a small buffer, says when it is done, and otherwise writes exactly the next chunk and advances |
| FrameChannel.Receiver.constructor | src/meshtastic_ble_peer_codec.c:224-227 | an idle receiver |
| FrameChannel.Receiver.Begin | src/meshtastic_ble_peer_codec.c:258-300 | a FIRST chunk supersedes whatever was going on and opens the frame it declares, or says why not |
| FrameChannel.Receiver.Append | src/meshtastic_ble_peer_codec.c:301-317 | a continuation extends the frame exactly when its sequence number and length fit |
| FrameChannel.Receiver.Finish | src/meshtastic_ble_peer_codec.c:319-337 | a frame completes exactly on LAST at its declared length, and is dropped if the two disagree |
| FrameChannel.Receiver.Accept | src/meshtastic_ble_peer_codec.c:238-338 | ingesting into the buffer is the value-level ingest, and every write is inside the buffer |
| Envelope.EnvelopeRoundTrip | src/meshtastic_attachment_codec.c:37-297 | for every message and buffer, what encodes decodes to the message with excluded fields zero |
| Envelope.EncodesExactly | src/meshtastic_attachment_codec.c:37-186 | encoding is invalid exactly without a wire part and too large exactly for a long wire part or a short buffer, size by size |
| Envelope.DecodedWasEncoded | src/meshtastic_attachment_codec.c:188-297 | what decodes re-encodes to those bytes, whole for a frame and to their beginning for a fixed layout |
| Envelope.DecodesExactly | src/meshtastic_attachment_codec.c:188-297 | bytes decode exactly when some message encodes to them |
| Envelope.KnownRx | src/meshtastic_attachment_codec.c:37-61 | the byte positions of a received frame, little-endian and two's complement, on one message |
| Envelope.KnownTx | src/meshtastic_attachment_codec.c:63-96 | the order of a relay's fields |
| Envelope.KnownStatus | src/meshtastic_attachment_codec.c:120-149 | the order of a status report's fields |
| Envelope.KnownResult | src/meshtastic_attachment_codec.c:98-118 | the byte positions of a transmit result, on one message |
| Envelope.KnownOrders | src/meshtastic_attachment_codec.c:151-186 | the byte positions of the three orders, on one message each |
| Envelope.MessageArrives | src/meshtastic_attachment_codec.c:37-297 | what encodes into a full-size envelope is accepted by the chunker, arrives through any chunking and decodes to the message |
| Envelope.RelayFitsExactly | src/meshtastic_attachment_codec.c:63-96 | a frame to transmit encodes into a full-size envelope exactly when it is no relay or has at most 249 wire bytes |
| Envelope.AppendedFieldsAreIgnored | src/meshtastic_attachment_codec.c:188-297 | appended bytes leave a fixed-layout message's meaning alone except two or more after a short result |
| Airtime.AdvancedReflects | src/meshtastic_airtime.c:91-138 | bringing a ring forward over a gap of any length makes every bucket its part of the window at the new time |
| Airtime.RingSumIsTheWindow | src/meshtastic_airtime.c:182-192 | the buckets of a ring sum, as a 32-bit count, to the milliseconds marked in the window |
| Airtime.OneFrameCounts | src/meshtastic_airtime.c:140-171 | a frame counts on its own preset, sent or received, for six ten-second ticks, and as sent on any preset for sixty minutes |
| Airtime.LogsAdd | src/meshtastic_airtime.c:140-171 | two stretches of the log count for what each of them counts |
| Airtime.PercentOfAnHour | src/meshtastic_airtime.c:227-242 | a whole hour is a hundred percent, and shares add |
| Airtime.SlotsAreSeparate | src/meshtastic_airtime.c:57-72 | known presets have a slot each, and everything else shares one that is none of theirs |
| Airtime.SilentMinutesIsLeastWait | src/meshtastic_airtime.c:244-281 | from the current utilisation and a ceiling of at least zero the walk gives the first tick of silence at or under the ceiling |
| Airtime.ForecastHolds | src/meshtastic_airtime.c:244-281 | the same of the true window, over the ceiling at every earlier minute |
| Airtime.Meter.constructor | src/meshtastic_airtime.c:283-293 | empty rings, not yet started |
| Airtime.Meter.ClearChannels | src/meshtastic_airtime.c:112-125 | the loops age every preset's ring, not just the current one |
| Airtime.Meter.ClearTx | src/meshtastic_airtime.c:128-137 | the loop ages the transmit ring |
| Airtime.Meter.Advance | src/meshtastic_airtime.c:91-138 | after advancing, every ring reflects the whole log at the new ticks |
| Airtime.Meter.Log | src/meshtastic_airtime.c:140-171 | a call enters the log, and every ring reflects the longer log |
| Airtime.Meter.ChannelPercent | src/meshtastic_airtime.c:182-220 | a preset's utilisation is the milliseconds logged to its slot in the last six 10 s ticks |
| Airtime.Meter.TxPercent | src/meshtastic_airtime.c:227-242 | transmit utilisation is the milliseconds sent in the last sixty 60 s ticks |
| Airtime.Meter.SilentMinutes | src/meshtastic_airtime.c:244-281 | asked with the current utilisation, the answer is the first minute at which the true window, with nothing more sent, is at or under the ceiling |
| Channels.KeyIsUsable | src/meshtastic_channels.c:49-121 | for every table resolution ends with 0, 16 or 32 bytes, 16 exactly for 2 to 16 of material, keeps configured material up to zero padding, and lends the primary's key to a keyless secondary |
| Channels.KeyResolvesExactly | src/meshtastic_channels.c:49-121 | a key resolves exactly for a slot in use, unless it borrows from a primary that is not in use |
| Channels.ShortKeys | src/meshtastic_channels.c:39-47 | a one-byte key of 0 is no cipher, 1 is the well-known key, and n is that key with its last byte n - 1 further on |
| Channels.ShortKeysDiffer | src/meshtastic_channels.c:39-47 | different one-byte keys are different cipher keys |
| Channels.HashIsOfNameAndKey | src/meshtastic_channels.c:123-140 | the hash is the XOR of every byte of the resolved name followed by the resolved key, and 0 where no key resolves |
| Channels.DefaultIsWellKnown | src/meshtastic_channels.c:185-205 | the default primary resolves to the well-known key and hashes under the preset's name |
| Channels.XorAppend | src/meshtastic_channels.c:23-32 | the XOR of two byte strings joined is the XOR of their XORs |
| Channels.XorSeesEveryByte | src/meshtastic_channels.c:23-32 | changing any one byte changes the XOR |
| Channels.UnnamedFollowsThePreset | src/meshtastic_channels.c:123-140 | an unnamed channel hashes as the channel named after the preset, a named one does not depend on the preset |
| Channels.PrimaryStandsAlone | src/meshtastic_channels.c:49-140 | the key and hash of a PRIMARY slot depend on that slot alone |
| Channels.EditKeepsOnePrimary | src/meshtastic_channels.c:309-343 | any edit leaves exactly one PRIMARY, named by the primary index |
| Channels.WhereThePrimaryGoes | src/meshtastic_channels.c:213-236 | which slot is PRIMARY after an edit and what is in it, in every case |
| Channels.EditStoresTheChannel | src/meshtastic_channels.c:142-158 | an edit stores the channel's key, role and name, "Default" as unnamed, and one without settings as an unused slot |
| Channels.EditLeavesOthers | src/meshtastic_channels.c:160-236 | other slots change only by losing the role, or by the default restored at slot 0 |
| Channels.RunKeepsOnePrimary | src/meshtastic_channels.c:309-343 | after every run of edits exactly one slot is PRIMARY and the index names it |
| Channels.ComputeXor | src/meshtastic_channels.c:23-32 | the loop computes the XOR of all bytes |
| Channels.Table.Defaults | src/meshtastic_channels.c:238-254 | the default table is sound |
| Channels.Table.TakeConfig | src/meshtastic_channels.c:256-288 | the application's name and key leave a sound table whose cache is a fresh resolution, the well-known key stored in its short form |
| Channels.Table.Fixup | src/meshtastic_channels.c:142-158 | one slot is put in order and its hash is fresh |
| Channels.Table.GenerateHash | src/meshtastic_channels.c:123-140 | the hash of the resolved name and key, zero if there is no key to resolve |
| Channels.Table.DemoteOthers | src/meshtastic_channels.c:160-172 | every other PRIMARY becomes a SECONDARY and nothing else changes |
| Channels.Table.SeedDefault | src/meshtastic_channels.c:185-205 | the default primary at a slot, hash included |
| Channels.Table.Enforce | src/meshtastic_channels.c:213-236 | the scan keeps the last PRIMARY, else promotes or restores one, with a fresh hash |
| Channels.Table.SetSlot | src/meshtastic_channels.c:309-343 | any edit leaves a sound table and a cache equal to a fresh resolution of the primary; an edit that names no slot changes nothing |
| Channels.Table.SwitchPreset | src/meshtastic_channels.c:620-638 | after a preset switch every slot's cached hash is fresh, borrowed keys included |
| HeardRing.Slot | src/meshtastic_attachment_head.c:156-157 | the first slot that holds a frame, none before it |
| HeardRing.RingReflectsLog | src/meshtastic_attachment_head.c:145-183 | over every log the ring holds the last sixteen frames taken up, each with its count, its last time and the time and signal of its first |
| HeardRing.EntriesAreUnique | src/meshtastic_attachment_head.c:145-183 | no two occupied slots are for the same frame |
| HeardRing.AgainFromLog | src/meshtastic_attachment_head.c:186-195 | the ring's answer in terms of the log, 32-bit wrap included |
| HeardRing.HeldIsExact | src/meshtastic_attachment_head.c:145-195 | while fewer than sixteen other frames have been taken up, the ring says "again" exactly when the log has a later copy and the gap to the last one is positive as a signed 32-bit difference |
| HeardRing.AgainIsExact | src/meshtastic_attachment_head.c:145-195 | the exact law for every log: the same, and no more than fifteen other frames taken up since |
| HeardRing.SoonIsExact | src/meshtastic_attachment_head.c:145-195 | within 2^31 ms and fifteen other frames, "again" is exactly a later copy in the log |
| HeardRing.FirstHeardIsTakenUp | src/meshtastic_attachment_head.c:179-182 | a frame's first reception takes it up |
| HeardRing.Head.constructor | src/meshtastic_attachment_head.c:109-110 | the empty ring |
| HeardRing.Head.NoteFrame | src/meshtastic_attachment_head.c:145-183 | the scan and the insert do what noting the reception does; a frame shorter than a header is ignored |
| HeardRing.Head.HeardAgain | src/meshtastic_attachment_head.c:186-195 | true exactly when some slot holds a repeated, later copy |
| Witnesses.PublishLeavesTheClaim | src/meshtastic_cluster.c:3273-3296 | a CORE member that publishes an empty firmware intent for another node holds an entry outside its claim |
| Witnesses.NoIdCannotNarrow | src/meshtastic_cluster.c:3126-3138 | a node without an id and with a full table finds no space for its own write, though its claim is not pinned |
| Witnesses.MissingOwnRowIsNotNoticed | src/meshtastic_cluster.c:1850-1866 | a narrowed, empty member hears the digest of a FULL peer that holds an entry for it, and opens no walk |
| Witnesses.LoadedRecordBlocksAWrite | src/meshtastic_cluster.c:885-964 | a loaded record ahead of the clock refuses a write now and not once the clock has passed it |
| Witnesses.EarlierRecordHelpsAWrite | src/meshtastic_cluster.c:885-964 | with two records loaded, a write to the clamped second one is stored, because the first has moved the clock |
| Witnesses.LeftoverComesBack | src/meshtastic_cluster.c:727-735 | a record left in flash by a failed delete is harmless under the narrow claim and is loaded after the claim is widened |
| Witnesses.ShortNameIsParsed | src/meshtastic_cluster_key.h:21-71 | a name the writer never emits is parsed |
| Witnesses.LongRelayIsRefused | src/meshtastic_attachment_codec.c:63-96 | every relay of 250 wire bytes is refused |
| Witnesses.TailBecomesLag | src/meshtastic_attachment_codec.c:188-297 | two bytes appended to a result change its meaning |
| Witnesses.EmptyPrimaryTakesSlotZero | src/meshtastic_channels.c:309-343 | a PRIMARY without settings replaces a named channel in slot 0 |
| Witnesses.RingForgetsACopy | src/meshtastic_attachment_head.c:145-195 | after sixteen or more other frames the ring denies a copy the log has |

## Left out

- Bluetooth, GATT, advertising, scanning and connection management: callbacks into a stack outside this repository.
- Flash storage and lockdown wrapping: storage is taken to return what was stored.
- Protobuf encoding: messages are records, with the fields the handlers read.
- Signature arithmetic, authorship, owner and payload-shape checks on ingest: two abstract predicates of a member's configuration, one on key and stamp, one on the whole entry.
- The CRC: any function from a running value and bytes; collisions are stated, not excluded.
- The fruitless-walk backoff, the digest timer and the backstop's countdown: whether a digest's walk is held back, and when a deadline passes, are choices of the run; convergence takes a walk to run to its end, and what that takes is in its preconditions.
- The peers table, fleet view, statistics, logging and shell.
- Reconciling the configuration store with the document: only what a fresh local write does to the effective entry is stated.
- Node.Member.StartPull: the fruitless-walk hold is a choice of the caller and no deadline is recorded.
- Node.Member.ExpirePull: that the deadline has passed is a choice of the caller.
- Flash.RunKeepsFlash: a reset's deletes are taken to land, and loads happen at boot, not in the run.
- Invariants.RunKeepsDoc: writes name a key of this node's CORE claim; what a foreign publish does is Invariants.PublishKeepsClaimExactly.
- Seqlock.SuccessIsAtomic: memory is sequentially consistent word by word, there is one reader, and a read during which the 32-bit sequence wraps all the way round is set aside.
- Node.Member.Write: requires the minted clock to stay inside the signed 64-bit range, where the code would overflow.
- ClockRate.EstimateReproducesReference: only where the 64-bit product fits, which is exactly where the estimate is the true rate.
- ClockRate.EstimateIsTrueExactly: overflow of the signed product, which the C standard leaves undefined, is taken to wrap in two's complement.
- The clock's quality ladder, the GPS, NTP and mesh time sources and the skew window's bookkeeping.
- Frame integrity across two different BLE frames: losing the tail of one and the head of the next equal-length one can join them.
- Beats, advertisements and link statistics of the BLE peer codec: easy members.
- Encoders and decoder return values instead of filling the caller's buffer.
- Airtime percentages are exact rationals rather than floats, and uptime does not run backwards.
- Airtime.ForecastHolds: only for windows below 2^32 ms, which an hour of airtime cannot exceed.
- Uplink, downlink and position-precision settings of a channel, per-preset hashes and channel selection for sending.
- Cached hashes of keyless secondaries between a change of the primary and the next refresh: they can be stale, which only the refresh repairs.
- The pending-relay record that a heard copy cancels or delays, the transmit thread and its queues.
- Parsing the wire header of a heard frame: source and id are parameters.
- Deployment parameters (table capacity, intervals, timeouts) are parameters of the configuration.
