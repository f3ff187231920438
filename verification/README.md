# cert-me: verified models

Dafny models of the parts of cert-me, a private certificate authority service, whose correctness spans several
operations: the revocation ledger and the publication of revocation lists, the concurrent ownership protocols, the
one-shot delivery of private keys, calendar periods and key rotation, the DER and SAN encodings, and the searches and
lists of the stores. `dafny verify dfyconfig.toml` checks everything.

Each file is named after the module it holds; `Division` holds the division steps that `Calendar` needs.

| module | what it is about |
|---|---|
| `Outcomes`, `Ordering`, `Bytes` | results and instants, sorting, octets |
| `HexNumbers` | minimal hex serials and CRL numbers, UUID texts |
| `Revocations`, `CrlSigner` | ledger rows, the CRL state row, the entries of a signed list |
| `RevocationService`, `BatchFacts`, `RevocationStore` | the service transactions as functions, what a batch leaves field by field, and the transactions as code on the repositories with rollback |
| `CrlDemands` | the job rows behind the publication jobs of the protocol |
| `CrlProtocol`, `CrlHistory`, `CrlJobs`, `CrlStateChecks` | interleaved transactions, out-of-order signing and late publication, over all runs; when the job is done; the checks of the SQL store |
| `SecretInput` | the reference-counted secret buffer and the bounded read |
| `TlsManager` | prepared TLS configurations, applied at most once |
| `JobQueue`, `JobRuns` | the job rows with leases and versions, and runs with many workers |
| `Deliveries`, `DeliveryStore`, `DeliveryProtocol` | deliveries and links, their repository, and all interleavings |
| `Calendar`, `Renewals` | Gregorian dates and month arithmetic, periods, renewal runs |
| `Der`, `Pbes2`, `KeyImport` | tag-length-value reading, encrypted PKCS#8 keys, owned buffers and padding |
| `AssociatedData`, `Sans` | the authenticated data layout, subject alternative names |
| `PkiStore`, `Queries` | descendants and hash indexes, pages and scopes |

How the concurrent parts are modelled. One critical section or one committed transaction is one step of a state
machine; what a thread read earlier is part of the state, so its data may be stale when it commits. The lemmas are
about every sequence of steps. A transaction runs on a copy that is dropped on an error. Methods on classes hold the
original's fields and loops and are proved against the functions that the state machines use.

Lemmas named `...Exactly` say what an operation does on the fields of its rows, in both directions, without naming the
functions that compute it; results over runs build on them.

Numbers are unbounded integers except where the program's width decides something: periods wrap at 64 bits, the
length prefix of a field wraps at 32 bits, and CRL numbers leave their parser's 40 digits. An instant is a count of
microseconds, and 0 is what the program calls unset.

Where a property one would expect fails of the code, the model follows the code and a lemma says exactly when the
property holds:

- `CRLNumber.Increment` does not check its result again; it stays parseable exactly below 16^40 - 1
  (`HexNumbers.IncrementParseable`).
- Saving a job under its unchanged version, as the publication service does
  (internal/app/service/crl.go:474-490), would let a second save that was prepared from the same row land; the row lock
  prevents that (`JobRuns.SoundSaveExactly`, `JobRuns.SecondSaveLandsExactly`).
- A link consumed or a key marked compromised when the clock reads the unset instant does not read as consumed or
  compromised (`DeliveryProtocol.ReleaseSpendsExactly`, `DeliveryProtocol.ReachableChecksExactly`,
  `PkiStore.MarkWithdrawnExactly`; runs that reach it are `DeliveryProtocol.UnsetReleaseExample` and
  `PkiStore.MarkWithdrawnExample`).
- Adding calendar months is not monotone in the start (`Calendar.StartOrderReversedExactly`).
- A period that ends at Go's zero time is stored as ending in 1970 (`Renewals.WindowExact`).
- A revocation batch that changes one serial twice fails as a whole (`RevocationService.BatchSucceedsExactly`,
  `RevocationService.TwiceInBatchExample`).
- An imported number may be too long for Go's list writer, after which nothing can be signed
  (`CrlProtocol.HonestSigningExact`, `CrlProtocol.LargeNumberStalls`). The limits of that writer, and the years it can
  write, are taken from Go's `x509` package.
- The synthetic job ids of the in-memory store repeat from 2^60 on, where a new demand breaks the key index
  (`JobQueue.UpsertKeeps`, `JobQueue.IdsRepeat`).
- The SAN reader does not look at the compound bit, so a name marked compound is written back differently
  (`Sans.CompoundNameExample`). It would also accept URIs its writer refuses, but the program only gives it certificates
  that Go's parser has accepted, and that parser refuses such URIs (`Sans.RewrittenExactly` has both conditions).

## Model

| member | source | states |
|---|---|---|
| HexNumbers.ValidateMinimalHex | internal/domain/values.go:315-332 | The byte loop accepts exactly the minimal lower-case hex texts of allowed length, and reports the first failing rule otherwise |
| HexNumbers.TextIsMinimal | internal/domain/values.go:245-263 | The text of every number is minimal and reads back as that number |
| HexNumbers.MinimalIsText | internal/domain/values.go:315-332 | Every minimal text is the text of its own value, so text and value determine each other |
| HexNumbers.SerialBijection | internal/domain/values.go:234-263 | Serials built from big integers are exactly 1 .. 16^40 - 1, and each converts back |
| HexNumbers.SerialTextRoundTrip | internal/domain/values.go:234-263 | Parsing a serial's text and rebuilding it from its number both return it |
| HexNumbers.SerialEqualIsCompare | internal/domain/values.go:265-268 | Equal text is the same relation as equal number on serials |
| HexNumbers.CRLNumberBijection | internal/domain/values.go:278-303 | CRL numbers built from big integers are exactly 0 .. 16^40 - 1, and each converts back |
| HexNumbers.CRLNumberEqualIsCompare | internal/domain/values.go:278-305 | Numeric comparison confuses exactly one pair of CRL numbers: unset and "0" |
| HexNumbers.Increment | internal/domain/values.go:308-311 | The successor, never unset |
| HexNumbers.IncrementParseable | internal/domain/values.go:278-311 | The successor can be parsed again exactly when the number is below 16^40 - 1 |
| HexNumbers.IncrementLeavesDomain | internal/domain/values.go:308-311 | A parseable number whose successor is not parseable |
| HexNumbers.ParseUuid | internal/domain/values.go:47-65 | The loop accepts exactly canonical lower-case UUID texts |
| Revocations.MergeRun | internal/domain/revocation.go:168-234 | Any run of assertions keeps key, reason, time, source and generation, raises the review flag exactly on a conflict, and links a certificate exactly once |
| Revocations.MergeVersion | internal/domain/revocation.go:168-234 | The version counts the at most two changes a run of merges can make |
| Revocations.RowLife | internal/domain/revocation.go:168-299 | Over any mix of assertions, corrections and stamps: reason and time are those of the last accepted correction, the review flag says exactly whether a conflicting assertion came since, the generation is the highest stamp, and the version moves exactly when the row does |
| Revocations.FreshExactly | internal/domain/revocation.go:351-376 | A new key has reserved, published and recorded nothing |
| Revocations.EntryExactly | internal/domain/revocation.go:98-128 | What a new row needs |
| Revocations.MergeExactly | internal/domain/revocation.go:168-234 | One merge: its refusals, and that it either asks for review or links a certificate |
| Revocations.CorrectExactly | internal/domain/revocation.go:236-284 | What a correction needs, its refusals, and the fields it writes |
| Revocations.StampExactly | internal/domain/revocation.go:286-299 | A generation is stamped exactly when it is positive and above the row's |
| Revocations.VerdictExactly | internal/domain/revocation.go:440-455 | When a publication is refused on any state row |
| Revocations.MarkExactly | internal/domain/revocation.go:462-482 | What a publication writes on the state row, and its refusals |
| Revocations.ClosureExactly | internal/domain/revocation.go:487-529 | A closed row keeps its signing certificate; closing needs both facts |
| CrlSigner.TimeCeil | internal/cryptoengine/crl_signer.go:260-271 | The least whole second not before the instant |
| CrlSigner.ReasonTablesAgree | internal/cryptoengine/crl_signer.go:191-212 | Reason codes written to a list and reason codes read on import are inverse tables, defined exactly on the valid reasons |
| CrlSigner.RevokedEntries | internal/cryptoengine/crl_signer.go:163-189 | The sort and scan succeed exactly when every row belongs and serials are distinct; the result is strictly increasing and lists the rows exactly |
| CrlSigner.ScanExact | internal/cryptoengine/crl_signer.go:168-187 | From any row on, the scan succeeds exactly when rows belong and no neighbours collide, and maps them in order |
| CrlSigner.NeighboursSuffice | internal/cryptoengine/crl_signer.go:166-178 | In numeric order, comparing neighbours by text finds every duplicate, and distinct serials are strictly increasing |
| CrlSigner.AnySortExact | internal/cryptoengine/crl_signer.go:163-189 | The whole contract holds for every arrangement a library sort may return |
| CrlSigner.RevokedEntriesExact | internal/cryptoengine/crl_signer.go:163-189 | Success condition and listed content of the revoked entries |
| CrlSigner.SortChoiceInvisible | internal/cryptoengine/crl_signer.go:164-167 | Different sorts of one snapshot give the same list |
| CrlSigner.IncreasingUnique | internal/cryptoengine/crl_signer.go:163-189 | Strictly increasing lists with the same entries are equal |
| CrlSigner.SignedExactly | internal/cryptoengine/crl_signer.go:62-189 | Of any snapshot: when it is signed, from its fields, and that the list has its number, its times and exactly its rows |
| RevocationService.StoreAllExact | internal/app/service/revocations.go:205-240 | Stamping and writing resolved rows succeeds exactly when no serial was resolved twice, and then replaces exactly those rows |
| RevocationService.BatchEffect | internal/app/service/revocations.go:176-240 | A batch spends one generation only if it changes a row, stamps exactly the rows it changes with it, and keeps the ledger facts |
| RevocationService.BatchSucceedsExactly | internal/app/service/revocations.go:176-287 | A batch fails exactly when an assertion is refused or one serial is changed twice |
| RevocationService.TwiceInBatchExample | internal/app/service/revocations.go:176-240 | A batch that asserts one new serial twice fails where asserting it once succeeds |
| BatchFacts.ResolveExactly | internal/app/service/revocations.go:244-287 | One assertion, from its own fields: when it is accepted, when it changes the ledger, and the row it then leaves |
| BatchFacts.BatchRecords | internal/app/service/revocations.go:176-240 | After an accepted batch every asserted serial is in the ledger as the fields of its assertion say, every other row is as it was, and the count is that of the effective assertions |
| BatchFacts.KnownSerial | internal/domain/revocation.go:168-234 | A known serial keeps reason, time and source, is put up for review exactly when an assertion disputes it, and takes a certificate only when it had none |
| BatchFacts.AcceptedExactly | internal/app/service/revocations.go:176-287 | A batch is accepted exactly when the fields of each assertion are acceptable and no serial is changed twice |
| RevocationStore.Tx.FindForUpdate | internal/app/porttest/revocations.go:15-21 | Lookup by issuer and serial |
| RevocationStore.Tx.Insert | internal/app/porttest/revocations.go:23-36 | Insertion that refuses a taken key and changes one row otherwise |
| RevocationStore.Tx.Save | internal/app/porttest/revocations.go:38-48 | The version check against the stored row only, and the row written as given |
| RevocationStore.Tx.AppendRevision | internal/app/porttest/revocations.go:54-61 | A revision number is used once for a revocation; what is recorded never changes |
| RevocationStore.Tx.ListByIssuer | internal/app/porttest/revocations.go:65-74 | Every row of the issuer once, in numeric serial order, whatever order the map is walked in |
| RevocationStore.Tx.SaveState | internal/app/porttest/crl.go:26-40 | Optimistic lock, with expected version 0 as the insert path |
| RevocationStore.Tx.InsertDocument | internal/app/porttest/crl.go:45-63 | Documents are immutable; the digest index refuses a second copy exactly when a scan would |
| RevocationStore.Tx.ResolveBatch | internal/app/service/revocations.go:187-204 | Resolving all assertions before anything is written |
| RevocationStore.Tx.ApplyIssuerBatch | internal/app/service/revocations.go:176-240 | The transaction does to the stores what the batch function says, records one demand for the new generation if anything changed, and touches no other issuer |
| RevocationStore.Tx.ReserveSnapshot | internal/app/service/crl.go:242-333 | The refusals in their order, before anything is written; otherwise number, listing and generation come from one state |
| RevocationStore.Tx.FinalizePublish | internal/app/service/crl.go:395-490 | The refusals in their order, a missing state row and a foreign job among them; the document is stored whatever the verdict; the state moves only on a permitted publication; the running job row ends only when everything is covered |
| RevocationService.RefusalsExactly | internal/app/service/crl.go:395-460 | The refusals of a publication in their order |
| RevocationStore.UnitOfWork.WriteBatch | internal/app/porttest/state.go:419-440 | A failed batch leaves the store exactly as it was |
| RevocationStore.Tx.ApplyRevocations | internal/app/service/revocations.go:120-147 | Each issuer of the batch ends as its own batch leaves it, others as they were; totals and reported generations are exact |
| RevocationStore.OrderExact | internal/app/service/revocations.go:163-174 | The locking order is each issuer once, in string order |
| RevocationStore.BucketExactly | internal/app/service/revocations.go:150-162 | A bucket holds exactly its issuer's assertions, as often and in the order given |
| RevocationStore.WriteRecords | internal/app/service/revocations.go:120-147 | After a batch over several issuers each issuer's ledger reads as the fields of its own assertions say |
| RevocationStore.UnitOfWork.WriteRevocations | internal/app/service/revocations.go:120-174 | A batch over several issuers changes every issuer as its own batch would, with its demands, or nothing at all |
| RevocationStore.DemandsExact | internal/app/service/revocations.go:235-238 | Over a batch of several issuers the job of each issuer whose rows changed takes one demand, every other job none |
| CrlDemands.DemandSeen | internal/app/service/revocations.go:286-299 | Recording a demand in the queue is, on the key's one job, the demand step of the protocol; other keys' jobs stay |
| CrlDemands.DecimalExactly | internal/app/service/revocations.go:286-292 | A demanded generation is written in decimal digits and reads back as itself |
| CrlDemands.DemandExactly | internal/app/service/revocations.go:286-299 | What a demand says: one key's publication job, and the generation its list must reach |
| CrlDemands.ClaimSeen | internal/app/porttest/jobs.go:100-131 | A claim of due rows is, on a key's job, the claim step of the protocol or nothing |
| CrlDemands.OutcomeSeen | internal/app/service/crl.go:463-487 | What a publication saves on the job row is the end of the job in the protocol; other keys' jobs stay |
| CrlDemands.EndExactly | internal/app/service/crl.go:463-487 | How a publication ends its running row: done without an error, or waiting from the clock on |
| CrlDemands.PutBackClaimed | internal/app/service/crl.go:474-482 | A running job that a publication puts back is running again after any unlimited claim at a clock from then on |
| CrlDemands.DemandClaimed | internal/app/porttest/jobs.go:39-85 | A demand that makes or revives a row is claimed at any clock; a waiting row exactly when its time is unset or has come |
| RevocationStore.UnitOfWork.WritePublication | internal/app/porttest/state.go:419-440 | A failed publication leaves the store exactly as it was |
| CrlProtocol.Reachable | internal/domain/revocation.go:401-529 | The invariant of ledger, reservations, documents, publication, job and open transactions holds after every run |
| CrlProtocol.BatchIsAtomic | internal/app/service/revocations.go:176-240 | A batch that commits under the version check had read the current ledger, so it is the atomic batch |
| CrlProtocol.PublishedListCovers | internal/domain/revocation.go:401-482 | Every row changed at or below the published generation is on the published list with its serial, reason and rounded-up time; the list names only revoked serials |
| CrlProtocol.PublicationNeverRegresses | internal/domain/revocation.go:425-529 | Over any continuation: reserved numbers exceed all earlier reserved and imported ones, replacing publications carry larger numbers and no smaller generation, stored documents never change, a closed key keeps its publication |
| CrlProtocol.ReservedNumbersDistinct | internal/domain/revocation.go:413-420 | No two reservations of a run share a number, and later ones are larger |
| CrlProtocol.VerdictIsNumberOrder | internal/domain/revocation.go:440-455 | In reachable states closure and number order alone decide a publication; the generation rule never does |
| CrlProtocol.HonestSigningExact | internal/cryptoengine/crl_signer.go:76-189 | A captured snapshot is signed exactly when its times are acceptable and Go's library can write its number and times |
| CrlProtocol.LargeNumberStalls | internal/cryptoengine/crl_signer.go:76-85 | Once the counter has reached 2^159 - 1 every further reservation is refused by the signer |
| CrlSigner.WritableYears | internal/cryptoengine/crl_signer.go:76-85 | The instants the library can write are those of the years 0 to 9999 |
| CrlProtocol.CapturedTimesExact | internal/app/service/crl.go:242-320 | The captured times are acceptable exactly under a condition on clock, setting and issuer period |
| CrlProtocol.ReserveCapturesNow | internal/app/service/crl.go:242-320 | A reservation that commits captured the ledger and generation as they are at the commit |
| CrlProtocol.StoredStateReadable | internal/storage/sqlstore/revocation/crl.go:118-120 | The read check of the SQL store holds in every reachable state |
| CrlProtocol.UncoveredChangeHasWork | internal/app/service/crl.go:395-490 | While a change is unpublished the key's job is waiting or running |
| CrlHistory.DocumentTimes | internal/cryptoengine/crl_signer.go:76-153 | In every reachable state each stored document starts at the second of the clock at the reservation with its number, ends the set seconds later, and starts inside the issuer certificate's validity |
| CrlHistory.NextPublishDue | internal/app/service/crl.go:308-333 | The next publication is due one interval after the clock at the reservation of the published document |
| CrlHistory.RowProvenance | internal/domain/revocation.go:168-299 | Every ledger row repeats the reason and time of an assertion or a correction of its serial in the run |
| CrlHistory.PublishedEntries | internal/cryptoengine/crl_signer.go:163-189 | What the published list says of a covered row: its serial, the code an importer reads as its reason, its time rounded up to the second |
| CrlHistory.CorrectionExactly | internal/domain/revocation.go:236-299 | When a correction takes effect, and that it writes the new reason and time, settles the review and moves the generation |
| CrlHistory.BatchExactly | internal/app/service/revocations.go:176-240 | A batch commits exactly on the current row, when it names this key only, is accepted and changes something |
| CrlHistory.ReserveExactly | internal/app/service/crl.go:242-320 | A reservation commits exactly on the current row with a listing of the ledger it read |
| CrlHistory.ImportExactly | internal/domain/revocation.go:425-436 | An observed number raises the floor exactly when it is above it |
| CrlHistory.LowImport | internal/domain/revocation.go:425-436 | A number at or below the floor that was read needs no save |
| CrlHistory.PublishExactly | internal/app/service/crl.go:395-490 | When a signed list is stored, and that the state moves exactly when nothing with as large a number was published before |
| CrlHistory.CloseExactly | internal/domain/revocation.go:513-529 | Closing takes effect exactly once and only with both closure facts |
| CrlHistory.SigningCertificateExactly | internal/domain/revocation.go:487-498 | When the signing certificate is set |
| CrlHistory.StaleSetting | internal/app/porttest/crl.go:26-40 | A setting prepared on a row that moved since is not saved |
| CrlHistory.BatchCommits | internal/app/service/revocations.go:176-240 | An accepted batch, read and committed without interference, is in the ledger and leaves work for its publication |
| CrlJobs.JobDoneExactly | internal/app/service/crl.go:463-490 | A publication that lands on a running job ends it as succeeded exactly when the list then published covers every ledger row, and leaves it pending otherwise |
| CrlJobs.UncoveredChangeClaimed | internal/app/porttest/jobs.go:100-131 | With an unpublished change, an unlimited claim at or after the job row's time leaves the job running, and an earlier one leaves it waiting |
| CrlJobs.DemandStep | internal/app/service/revocations.go:286-299 | A demand in the queue, asked for or left by a batch, is the demand in the protocol |
| CrlJobs.ClaimStep | internal/app/porttest/jobs.go:100-131 | A claim of the key's due row is the claim in the protocol |
| CrlJobs.PublishStep | internal/app/service/crl.go:463-487 | The end of a publication saved on the job row is its end in the protocol |
| CrlStateChecks.SavesAcceptedExactly | internal/storage/sqlstore/revocation/crl.go:124-300 | Over all runs, a save of the state row meets every check of the SQL store exactly while the largest reserved number is below 16^40 |
| CrlStateChecks.ChainForward | internal/storage/sqlstore/revocation/crl.go:124-300 | The SQL store lets no writer move a row back: over any accepted saves versions, numbers, generations and closure only advance |
| CrlStateChecks.AcceptedRow | internal/storage/sqlstore/revocation/crl.go:124-300 | What a row that passed the checks is known to hold |
| CrlStateChecks.StorageExact | internal/storage/sqlstore/revocation/crl.go:206-208 | A number can be stored exactly when it is below 16^40, the unset one as "0" |
| SecretInput.Input.BeginUse | internal/secret/input.go:103-120 | A callback gets the owned array itself, unless the input is closed or empty |
| SecretInput.Input.EndUse | internal/secret/input.go:122-132 | The last callback out of a closed input wipes and drops the buffer |
| SecretInput.Input.CloseInput | internal/secret/input.go:158-174 | Wipes at once when nothing runs, later otherwise; a second close does nothing |
| SecretInput.Input.Len | internal/secret/input.go:134-147 | A positive length means Use would enter |
| SecretInput.BytesIntactThenWiped | internal/secret/input.go:103-174 | In every interleaving a running callback sees the original bytes, and a closed input with none running is wiped and dropped |
| SecretInput.SectionsExactly | internal/secret/input.go:103-174 | The critical sections in terms of the fields: when one enters, and when the memory is wiped |
| SecretInput.CloseDuringUse | internal/secret/input.go:103-174 | A callback over a close sees the bytes until it leaves, then they are gone and nobody enters any more |
| SecretInput.ClosedStaysClosed | internal/secret/input.go:103-174 | After Close no Use enters and nothing reopens the input |
| SecretInput.WipeIsTheLastExit | internal/secret/input.go:122-174 | The memory changes only in the step that leaves a closed input with nothing running |
| SecretInput.ReadAll | internal/secret/input.go:57-98 | The exact outcome for every sequence of reads, with no plaintext left in the scratch chunk, nor in the buffer unless it is handed over |
| TlsManager.ConfigManager.Prepare | internal/tlsruntime/manager.go:89-138 | A failed load, an early close and a done context register nothing; the loader's copy is always cleared; otherwise the built snapshot goes to Register |
| TlsManager.ConfigManager.Register | internal/tlsruntime/manager.go:116-138 | A built snapshot is registered under a new handle or cleared, as the state machine registers it |
| TlsManager.ConfigManager.Apply | internal/tlsruntime/manager.go:140-177 | The state machine's apply step: which refusal or success, what leaves the registry, what becomes active, what is cleared; the closed branch is dead |
| TlsManager.ConfigManager.Discard | internal/tlsruntime/manager.go:179-195 | The state machine's discard step: a discarded handle leaves the registry and its snapshot is cleared |
| TlsManager.ConfigManager.Handshake | internal/tlsruntime/manager.go:197-210 | A handshake gets the active snapshot, which is not cleared |
| TlsManager.ConfigManager.Close | internal/tlsruntime/manager.go:214-233 | The state machine's close step: everything pending and the active snapshot are cleared, once |
| TlsManager.StepKeeps | internal/tlsruntime/manager.go:89-233 | Each step keeps registry, active pointer and snapshot lives consistent, and only a successful Apply or Close moves the pointer |
| TlsManager.ReachableSafe | internal/tlsruntime/manager.go:140-233 | Pending and active snapshots are never cleared, the closed branch of Apply is unreachable, and until Close no handshake holds a cleared snapshot |
| TlsManager.HandleAppliesOnce | internal/tlsruntime/manager.go:140-195 | A handle once applied, discarded or consumed is refused for ever |
| TlsManager.HandshakeCounted | internal/tlsruntime/manager.go:197-210 | A snapshot once handed to a handshake stays counted as in use |
| TlsManager.SupersededSurvives | internal/tlsruntime/manager.go:140-233 | Superseded snapshots are never cleared; cleared ones never return |
| JobQueue.MakeSyntheticUuid | internal/app/porttest/jobs.go:183-197 | The nibble loop writes the specified id, always a valid UUID |
| JobQueue.SyntheticInjective | internal/app/porttest/jobs.go:183-197 | Different counters below 16^15 give different ids |
| JobQueue.UpsertKeeps | internal/app/porttest/jobs.go:39-85 | Merging a demand keeps exactly one row a dedup key, found by the index, exactly when the key has a row or the next synthetic id is unused; it is unused below 2^60 - 1 rows |
| JobQueue.UpsertExactly | internal/app/porttest/jobs.go:39-85 | What a demand leaves, field by field: a waiting row, a revived one, or a live one with its lease |
| JobQueue.IdsRepeat | internal/app/porttest/jobs.go:183-197 | The ids begin to repeat: counter 2^60 + 1 mints the id of counter 1 |
| JobQueue.SaveKeeps | internal/app/porttest/jobs.go:133-146 | A save keeps the index exactly when it leaves the key alone |
| JobQueue.JobRepository.UpsertDemand | internal/app/porttest/jobs.go:39-85 | The merge or insertion as specified, and exactly when it keeps one row a key |
| JobQueue.JobRepository.CollectDue | internal/app/porttest/jobs.go:100-118 | Every due row once, by id |
| JobQueue.JobRepository.ClaimDue | internal/app/porttest/jobs.go:100-131 | The first rows of the due listing get the lease, nothing else changes |
| JobQueue.UnlimitedClaim | internal/app/porttest/jobs.go:100-131 | From the fields of a row: leased exactly when it waits and its time is unset or has come, or when its lease has run out |
| JobQueue.LimitedClaim | internal/app/porttest/jobs.go:115-118 | A limited claim leases as many due rows as it may, those with the least ids |
| JobQueue.JobRepository.Save | internal/app/porttest/jobs.go:133-146 | The version check and the row written as given |
| JobQueue.JobRepository.GetByDedupKey | internal/app/porttest/jobs.go:200-210 | The index answers as a scan would |
| JobRuns.Reachable | internal/app/porttest/jobs.go:39-146 | The invariant of rows, worker copies and finished work holds after every run whose saves never go back in version |
| JobRuns.LatestDemandHeld | internal/app/port/jobs.go:38-60 | The one row of a key carries the latest demand, and is claimable or running unless its finisher had seen every demand |
| JobRuns.SaveNeedsAllDemandsSeen | internal/app/port/jobs.go:54-60 | A save takes effect only when its worker has seen every demand on the row |
| JobRuns.SoundSaveExactly | internal/app/porttest/jobs.go:133-146 | The optimistic lock stays sound after a save exactly when the save advances the version or changes nothing |
| JobRuns.NoLostUpdate | internal/app/porttest/jobs.go:133-146 | When every save advances the version, a save lands only on the row its worker read |
| JobRuns.SaveCommits | internal/app/porttest/jobs.go:133-146 | A row read and saved without interference holds the worker's fields with its own key and demand |
| JobRuns.SecondSaveLandsExactly | internal/app/service/crl.go:474-490 | Of two saves prepared from one row the second lands, erasing the first, exactly when the first kept the version |
| JobRuns.NoSecondClaimWithinLease | internal/app/porttest/jobs.go:100-131 | With a clock that never goes back, a row is claimed again within its lease only if it was saved in between |
| DeliveryStore.DeliveryRepository.GetGrantForUpdate | internal/app/porttest/delivery.go:26-32 | The hash index answers as a scan of all links would |
| DeliveryStore.DeliveryRepository.InsertGrant | internal/app/porttest/delivery.go:42-52 | Refuses a taken id or hash, keeps the index |
| DeliveryStore.SaveGrantKeepsExactly | internal/app/porttest/delivery.go:66-76 | Saving a link keeps the hash index exactly when its hash is the stored one |
| DeliveryStore.DeliveryRepository.SaveDelivery | internal/app/porttest/delivery.go:54-64 | The version check and the row written as given |
| DeliveryStore.DeliveryRepository.InvalidateGrants | internal/app/porttest/delivery.go:83-123 | The loops kill exactly the chosen links that are not consumed |
| DeliveryStore.DeliveryRepository.ReleaseKey | internal/app/service/distribution.go:412-441 | A private consumption fails exactly for a missing or unconsumable delivery; otherwise link and delivery are consumed, the stored ciphertext is deleted and the other links are killed |
| DeliveryStore.DeliveryRepository.CommitConsumption | internal/app/service/distribution.go:354-445 | It succeeds exactly for an unspent link within its deadline that is as prepared, and for a private one exactly when its delivery waits within its own deadline; what it writes, deletes and invalidates, field by field |
| Deliveries.TransitionsExactly | internal/domain/delivery.go:114-192 | When each delivery transition is allowed, its refusals, and the fields it changes |
| Deliveries.ValidateExactly | internal/domain/delivery.go:309-332 | A link is accepted exactly unspent, before its deadline and for what it was made for; the first failing rule is told |
| Deliveries.KilledExactly | internal/domain/delivery.go:350-362 | Invalidation marks exactly an unspent link |
| Deliveries.HitsExactly | internal/app/porttest/delivery.go:83-123 | The links one invalidation is about |
| Deliveries.NewRowsExactly | internal/domain/delivery.go:72-288 | What a new delivery and a new link need |
| DeliveryProtocol.Reachable | internal/domain/delivery.go:114-362 | The invariant of rows, history, links and open transactions holds after every run |
| DeliveryProtocol.OneRelease | internal/app/service/distribution.go:354-445 | At most one private key release per delivery, whatever links, requests and clocks |
| DeliveryProtocol.ReleaseExactly | internal/app/service/distribution.go:412-441 | When a private consumption releases the key: current rows, an unspent link within its deadline, a waiting delivery within its own |
| DeliveryProtocol.PublicExactly | internal/app/service/distribution.go:397-410 | When a public link is consumed, and that nothing else changes |
| DeliveryProtocol.PreparedOnly | internal/app/service/distribution.go:378-390 | A link is consumed only for the purpose and certificate the payload was prepared for |
| DeliveryProtocol.LinkDeadline | internal/domain/delivery.go:309-348 | In every run a consumed link was consumed before its deadline |
| DeliveryProtocol.ReleaseDeadlines | internal/app/service/distribution.go:354-445 | Every release used a private link of its delivery, before the deadlines of both |
| DeliveryProtocol.ExpiryWaits | internal/domain/delivery.go:178-192 | A delivery expires only at or after its deadline |
| DeliveryProtocol.MoveExactly | internal/app/service/maintenance.go:299-420 | When each finishing move takes effect and which failure code it leaves |
| DeliveryProtocol.SweepRefusals | internal/app/service/maintenance.go:299-420 | The sweeps pass over a delivery in any other state |
| DeliveryProtocol.MoveLands | internal/app/porttest/delivery.go:54-95 | A move lands exactly on the row it read, and the sweeps also invalidate the delivery's private links |
| DeliveryProtocol.RowsAdded | internal/app/porttest/delivery.go:34-52 | When a new delivery or link is stored |
| DeliveryProtocol.MoveCommits | internal/domain/delivery.go:114-192 | A delivery read and moved without interference is moved exactly when the move is allowed |
| DeliveryProtocol.LinkReleases | internal/app/service/distribution.go:354-445 | A private link redeemed without interference releases its key exactly when link and delivery allow it |
| DeliveryProtocol.PublicKills | internal/app/porttest/delivery.go:97-123 | A kill of public links marks exactly the unspent ones it is about |
| DeliveryProtocol.ForwardOnly | internal/domain/delivery.go:114-192 | No delivery returns to pending; moves only rise, one version each, at most three |
| DeliveryProtocol.FinishRecorded | internal/domain/delivery.go:141-192 | A finished delivery remembers the time of the move that finished it, and exactly a failed one has a failure code |
| DeliveryProtocol.ReachableChecksExactly | tools/generate_migrations.py:42 | Reachable rows meet the CHECKs on consumed_at, but exactly not those in transfer or completed whose key was released at the unset instant; a key is never released after its deadline |
| DeliveryProtocol.UnsetReleaseExample | internal/app/service/distribution.go:354-445 | A run whose release reads the unset instant ends with a row that breaks the CHECKs and a link that is not spent |
| DeliveryProtocol.OneConsumedLink | internal/domain/delivery.go:309-362 | At most one private link of a delivery ever reads consumed |
| DeliveryProtocol.ReleaseSpendsExactly | internal/app/porttest/delivery.go:78-95 | A release leaves every private link of its delivery spent exactly when the clock does not read the unset instant |
| DeliveryProtocol.SpentForever | internal/domain/delivery.go:302-362 | A spent link never changes again |
| DeliveryProtocol.LinksSpentForever | internal/app/porttest/delivery.go:78-95 | Every private link that existed at a release is spent ever after |
| Calendar.CivilBijection | internal/domain/values.go:354-358 | Day numbers and valid Gregorian dates determine each other |
| Calendar.DayOrder | internal/domain/series.go:118-138 | Day numbers order dates by month index and then day |
| Calendar.LastDayIsLength | internal/domain/series.go:133-138 | Day 0 of the next month is the last day of this one, leap rule included |
| Calendar.ClosedForm | internal/domain/series.go:118-138 | The day number counted by years and months is a closed form in year, month and day |
| Calendar.DateClosed | internal/domain/series.go:118-138 | A day number is shown as the date whose closed form it is |
| Calendar.TruncExactly | internal/domain/series.go:118-127 | The division of month counts truncates toward zero |
| Calendar.AddMonthsExact | internal/domain/series.go:118-131 | The month index moves by exactly the count, the day is clamped to the month, the time of day is kept, for positive and negative counts |
| Calendar.AddMonthsClosed | internal/domain/series.go:118-132 | The same in closed form: the day is the least of the start's day and the distance of two neighbouring firsts |
| Calendar.AddMonthsRises | internal/domain/series.go:98-131 | More months is strictly later, and a positive count ends after it begins |
| Calendar.StartOrderReversedExactly | internal/domain/series.go:118-131 | Two starts swap their order exactly when both clamp to one day and the later date has the earlier time |
| Calendar.StartOrderReversedExample | internal/domain/series.go:118-131 | 30 January 23:00 and 31 January 01:00 plus one month |
| Renewals.PeriodsRise | internal/domain/series.go:98-131 | Periods of every unit rise with the count; v years are 12v months; days keep the time of day |
| Renewals.PeriodUnits | internal/domain/series.go:69-77 | A period counts at least one unit |
| Renewals.PeriodClosed | internal/domain/series.go:98-112 | The end of a period in closed form for each unit |
| Renewals.WindowExact | internal/domain/series.go:98-112 | The stored window is the calendar period exactly when its end fits 64 bits and is not Go's zero time |
| Renewals.PlanExactly | internal/domain/series.go:417-503 | When a renewal may be planned, which key it uses, and the refusals of an archived series and of a key that is not ready |
| Renewals.PolicyExactly | internal/domain/series.go:150-158 | When a policy change is accepted |
| Renewals.RenewalCommits | internal/domain/series.go:417-503 | A renewal planned on the rows as they are takes effect exactly when it can be planned, and issues that plan |
| Renewals.PolicyCommits | internal/domain/series.go:239-250 | A policy change on the row as it is, and when it takes effect |
| Renewals.YearZeroExample | internal/domain/values.go:347-352 | A one-year period from year 0 is stored as ending in 1970 |
| Renewals.RenewalRuns | internal/domain/series.go:239-507 | Over any run of racing renewals, emergencies and policy changes: periods are the policy's and inside the issuer's, generations rise, and rotate_every bounds how often a key signs |
| Renewals.KeyUseBounded | internal/domain/series.go:476-505 | While rotate_every never exceeds R no key signs more than R certificates |
| Renewals.RoutineRotationExact | internal/domain/series.go:476-489 | Under a constant R a key replaced by a routine renewal has signed exactly R certificates |
| Renewals.GenerationsRise | internal/domain/series.go:455-489 | Generation numbers never fall along a series' certificates |
| Der.ReadEncoded | internal/cryptoformats/pki_parser.go:1199-1206 | Reading what was encoded gives the value and the rest |
| Der.EncodedRead | internal/cryptoformats/pki_parser.go:1199-1206 | Whatever the reader accepts is the one encoding of its fields and comes first in the input |
| Der.ParseFullExactly | internal/cryptoformats/pki_parser.go:1199-1206 | One whole value is accepted exactly when the input is its encoding |
| Der.SplitExactly | internal/cryptoformats/pki_parser.go:1208-1224 | The parts found are the only way to cut the content into encodings; their bytes joined are the content |
| Der.SequenceParts | internal/cryptoformats/pki_parser.go:1208-1224 | The loop ends on every input and finds exactly those parts |
| Der.ParsePositiveExactly | internal/cryptoformats/pki_parser.go:1226-1236 | A positive integer has one accepted encoding |
| Der.ParseIntExactly | internal/cryptoformats/pki_parser.go:1226-1236 | An integer is accepted exactly in at most eight octets, in two's complement, none of which could be left out |
| Der.ParseOidExactly | internal/cryptoformats/pki_parser.go:1166-1184 | An object identifier has one accepted encoding, so comparing arcs is comparing octets |
| Pbes2.InspectEncoded | internal/cryptoformats/pki_parser.go:448-547 | Every in-range parameter set, in each form, is inspected back unchanged |
| Pbes2.InspectedIsEncoded | internal/cryptoformats/pki_parser.go:435-547 | An accepted key is one of the encodings of its parameters, and looks like an encrypted key |
| Pbes2.InspectExactly | internal/cryptoformats/pki_parser.go:448-547 | Keys are accepted exactly when they encode in-range parameters |
| Pbes2.RangeExactly | internal/cryptoformats/pki_parser.go:448-547 | The ranges of iterations, salt, key size, IV and ciphertext |
| Pbes2.LooksExactly | internal/cryptoformats/pki_parser.go:435-446 | A file looks like an encrypted key exactly when it is one sequence whose first part names PBES2 |
| Pbes2.SchemeOctets | internal/cryptoformats/pki_parser.go:37-39 | The scheme identifiers in the octets a file holds |
| Pbes2.CipherOctets | internal/cryptoformats/pki_parser.go:40-42 | The cipher identifiers by key length, in the octets a file holds |
| KeyImport.ParsePbkdf2Parameters | internal/cryptoformats/pki_parser.go:509-547 | The parsed salt is an own copy |
| KeyImport.InspectEncryptedPkcs8 | internal/cryptoformats/pki_parser.go:448-500 | The result owns fresh arrays with the inspected content, untouched by zeroing the intermediate salt, which ends all zero |
| KeyImport.Pbes2Parameters.Clear | internal/cryptoformats/pki_parser.go:426-433 | Salt, IV and ciphertext are zeroed |
| KeyImport.RemovePkcs7Padding | internal/cryptoformats/pki_parser.go:569-586 | The masked loop accepts exactly block-aligned buffers whose last octet n is in range and repeated n times |
| KeyImport.BitwiseExactly | internal/cryptoformats/pki_parser.go:569-586 | The masks of the loop work bit by bit |
| KeyImport.LessOrEqExactly | internal/cryptoformats/pki_parser.go:569-586 | The mask of the loop is 1 or 0 by the comparison |
| KeyImport.PadUnpad | internal/cryptoformats/pki_parser.go:549-586 | Padding every message and taking it off gives the message |
| KeyImport.PreflightCAKeys | internal/cryptoformats/pki_parser.go:334-350 | Stopping at the first failure or overrun decides the same as the total |
| KeyImport.BudgetExactly | internal/cryptoformats/pki_parser.go:334-350 | The budget of a request: every key readable, four million iterations in all |
| AssociatedData.Build | internal/cryptoengine/keyengine.go:485-512 | Accepted exactly for valid metadata, and laid out as tagged length-prefixed fields |
| AssociatedData.SplitJoin | internal/cryptoengine/keyengine.go:507-512 | A parser inverts the layout for any fields shorter than 2^32 octets |
| AssociatedData.SplitExactly | internal/cryptoengine/keyengine.go:507-512 | A parser finds given fields exactly in the octets written for them |
| AssociatedData.AcceptedExactly | internal/cryptoengine/keyengine.go:485-512 | Which owners, purposes, formats and generations are accepted |
| AssociatedData.TagOctets | internal/cryptoengine/keyengine.go:485-512 | The octets of the domain tag |
| AssociatedData.NamesExactly | internal/cryptoengine/keyengine.go:485-512 | The texts of record and purpose that enter the data |
| AssociatedData.LayoutExactly | internal/cryptoengine/keyengine.go:485-512 | The order of the fields behind their lengths, with the texts of record and purpose |
| AssociatedData.Injective | internal/cryptoengine/keyengine.go:485-528 | Equal data means equal owner, purpose, format and generation, for any generation length |
| Sans.ValidateDnsValue | internal/domain/certificate.go:147-175 | The label loop accepts exactly dotted names of valid labels with at most a leading wildcard |
| Sans.IsValidDnsLabel | internal/domain/certificate.go:180-200 | The octet loop accepts exactly the label grammar |
| Sans.LabelOctetExactly | internal/domain/certificate.go:180-200 | The octets of a label are ASCII letters, digits and hyphens |
| Sans.LabelExactly | internal/domain/certificate.go:180-200 | One part of a name: 1 to 63 letters, digits and hyphens, no hyphen at either end |
| Sans.DnsExactly | internal/domain/certificate.go:147-175 | A name: at most 253 octets in two or more parts, the first perhaps one asterisk |
| Sans.LabelsExactly | internal/domain/certificate.go:147-160 | Joining the labels with dots gives the name back, and no other cut does |
| Sans.NewSanExactly | internal/domain/certificate.go:101-131 | What is built from a trimmed value, kind by kind |
| Sans.WrittenExactly | internal/cryptoengine/certificate_signer.go:601-622 | How a name is written: in ASCII only, addresses by their octets |
| Sans.NewSanCanonical | internal/domain/certificate.go:101-131 | Whatever is built is built again as it is |
| Sans.MarshalOrderedSans | internal/cryptoengine/certificate_signer.go:624-638 | The loop marshals the names in order |
| Sans.OrderedSansFromDer | internal/cryptoengine/certificate_signer.go:640-686 | No extension reads as no names, two are refused, one is decoded in order |
| Sans.RoundTripExactly | internal/cryptoengine/certificate_signer.go:601-686 | A marshalled list is read back in order exactly when each name is canonical |
| Sans.NewSansRoundTrip | internal/cryptoengine/certificate_signer.go:601-686 | Lists of built names come back the same |
| Sans.BootstrapRefused | internal/domain/certificate.go:132-139 | A list with the fixed name "cert-me" is marshalled but refused on the way back |
| Sans.BootstrapText | internal/domain/certificate.go:132-139 | The fixed name is "cert-me" |
| Sans.RewrittenExactly | internal/cryptoengine/certificate_signer.go:624-686 | An extension that was read is written back octet for octet exactly when its names are primitive and its URIs ASCII |
| Sans.CompoundNameExample | internal/cryptoengine/certificate_signer.go:624-686 | An extension whose one name is marked compound is read and is written back with another tag octet |
| PkiStore.PkiRepository.ListAffectedDescendants | internal/app/porttest/pki.go:279-300 | Terminates on any stored graph and returns each authority other than the start that reaches it, once, sorted, and nothing else |
| PkiStore.ClosedReaches | internal/app/porttest/pki.go:279-300 | A set closed under children contains everything that reaches its start, over paths of any length |
| PkiStore.PkiRepository.InsertKeyMaterial | internal/app/porttest/pki.go:116-128 | Refused exactly for a taken id or an SPKI hash some row has |
| PkiStore.PkiRepository.FindKeyBySpki | internal/app/porttest/pki.go:74-80 | The index finds what a scan would |
| PkiStore.PkiRepository.InsertCertificate | internal/app/porttest/pki.go:149-160 | Refused exactly for a taken id or a DER hash some row has |
| PkiStore.PkiRepository.FindCertificateByDer | internal/app/porttest/pki.go:46-52 | The index finds what a scan would |
| PkiStore.PkiRepository.MarkCompromised | internal/app/porttest/pki.go:243-259 | The mark of one key changes as specified, nothing else |
| PkiStore.EarliestReportKept | internal/app/porttest/pki.go:248-257 | However reports arrive, the mark is the earliest of them |
| PkiStore.MarkWithdrawnExactly | internal/app/porttest/pki.go:248-257 | The one report that withdraws a mark: the unset instant against a later mark |
| PkiStore.MarkWithdrawnExample | internal/app/porttest/pki.go:243-259 | Reports at 5 and then at the unset instant leave the key unmarked |
| Queries.Paginate | internal/app/porttest/queries.go:103-125 | The cut loop and the page as specified |
| Queries.PageSizeExactly | internal/app/porttest/queries.go:103-125 | A page holds what was asked for, or 50 |
| Queries.RestExactly | internal/app/porttest/queries.go:108-114 | What is left after a cursor is exactly the items with greater keys |
| Queries.PageExactly | internal/app/porttest/queries.go:103-125 | A page holds the least keys after the cursor and its next cursor is its last key |
| Queries.WalkRises | internal/app/porttest/queries.go:103-125 | Following cursors never repeats an item or breaks the order, however the list changes between calls |
| Queries.WalkFinds | internal/app/porttest/queries.go:103-125 | An item present in every listing is returned by any walk that ends |
| Queries.WalkComplete | internal/app/porttest/queries.go:103-125 | Over one list the walk ends, its pages joined are exactly the list, and all but the last are full |
| Queries.ListAuthorities | internal/app/porttest/queries.go:139-149 | The page of the one scope-filtered sorted listing, which exists |
| Queries.ScopedOnce | internal/app/porttest/queries.go:139-149 | The listing is determined by rows and scope |

## Left out

- Real cryptography, X.509 and PEM: signatures, hashes and public key equality do not appear; a digest is a text, and what
  Go's library checks about a generated list (`verifyGeneratedCRL`) is not modelled.
- Audit rows, metadata checks and error texts of the services: they do not change the modelled rows. Errors keep
  their kind only.
- `CrlProtocol`: the documents an import stores beside the observed number are not part of the protocol, and the checks
  on the signing authority (`loadCRLSigningAuthority`) are left to the caller.
- `RevocationStore.Tx.ReserveSnapshot`: the checks of authority, key, secret, issuer certificate and settings are parameters that
  hold their answer; `RevocationStore.Tx.FinalizePublish` takes its repeated checks the same way.
- `RevocationStore.Tx.ApplyIssuerBatch`: the audit row beside each stored row is not modelled.
- `CrlProtocol`: generations and versions are unbounded, while the program counts them in 64 bits.
- `CrlProtocol.UncoveredChangeHasWork`: the publication job is reduced to its state; its lease and payload are in `JobQueue`.
- `RevocationStore.Tx.FinalizePublish`: the superseded branch writes no state row, so it relies on the row lock it holds; the
  protocol gives it the current state for the same reason.
- `SecretInput`: only what the owned array holds is claimed, not copies that a callback or the Go runtime makes.
- `TlsManager.ConfigManager.Prepare`: what the certificate loader answers is a parameter.
- `JobRuns.Reachable`: runs of more than 2^60 - 1 steps, where the synthetic ids may repeat, are not covered.
- `JobRuns.Reachable`: workers change only the fields the publication service changes on its copy; a save that moved a
  row to another dedup key is covered by `JobQueue.SaveKeeps`.
- `ListRecoveryRequired`, `ListExpired`, `ListPending`, `ListTransferring`: filtered and sorted listings like
  `JobQueue.JobRepository.CollectDue`.
- `DeliveryProtocol`: the creation of links is an arbitrary insertion of a fresh one, because the service for it is not
  written yet; the deletion of the stored ciphertext beside the release is in `DeliveryStore` only.
- `DeliveryStore.DeliveryRepository.CommitConsumption`: the audit row and the lookup of the managing authority are left out; the
  lookup's answer is a parameter.
- `Renewals.WindowExact`: counts so large that the year leaves the range of Go's time type end outside 64 bits in the
  model; what wrapped value Go then stores is not claimed.
- `Renewals.RenewalRuns`: the custody and revocation facts behind "key ready" are parameters.
- `Pbes2.InspectExactly`: Go's reader is modelled as a reader of tag, length and value with its length and tag limits;
  all refusals are one.
- `Sans.MarshalOrderedSans`: a list of 2^31 octets or more, which Go writes and then refuses to read, is refused when
  written; address and URI parsing are parameters with stated laws (`Sans.OctetLibraryLawful` shows they can be met).
- `AssociatedData.Build`: trimming of the generation id is a parameter.
- `Queries.ListAuthorities`: the other lists filter by other relations before the same paging; the search match is a
  parameter.
- `PkiStore`: authorities, keys and certificates keep only the fields the searches use.
- Context cancellation, timers and admission limits, except where a cancelled context is a branch of a modelled call.
