# Delegated namespaces, verified

A Dafny model of the core of mount-rs: the persisted namespace and its validator
(`src/storage.rs`), the MRC3 directory-delegation protocol that hands out exclusive
authority over parts of it (`src/delegation.rs`), and the small total functions the
rest of the system leans on: path normalization, version and backing identities,
fixed-size chunking, per-inode publication and the short-transfer file loops.

Check the project with `dafny verify dfyconfig.toml`.

## How the model is built

`Storage` holds the data model and the predicate `Valid`, written with sets of directory
slots (a directory and an entry index) and unbounded integers. `Validator` is the validator
itself, loop by loop, with its u64 tables and stack; its methods are proved to accept exactly
`Valid`. `Tree` holds the graph theory: subtrees as least closed sets, sealing, and the
equivalence of the validator's counts with "one path from the root to every directory".

`Authority` gives the delegation state as a value, its validity, and one result function per
protocol step. `Delegation` is the class whose methods update that state in place, each proved
to produce exactly the step function's result and to change nothing when it refuses. `Safety`
and `Steps` prove what single steps do; `Runs`, `Ledger`, `Orphans` and `Holdings` prove what
every sequence of steps keeps; `Progress` proves what a live grant is sure to be allowed, and
`Acceptance` which publications are accepted, as a description of the whole change.
`Unlink` applies that to removing a file's directory entry, the change that makes orphans.
`Graft` shows that one grant's region of a valid namespace can be replaced by that of another
without losing validity, and `Merge` uses it to combine publications prepared side by side.
`InodePublication` covers the version-checked writes of single files and of whole namespaces.
`Kinds` relates the validator's kind rule to the file types of `src/types.rs`, and `Naming`
relates entry names to virtual paths. `Example` follows the opening of the repository's own
delegation tests and then lets the two sessions write at once; `Scenarios` takes the refusals
those tests assert, on their own inputs.

Reading conventions: a Rust `Result<()>` is `Outcome`, a `Result<T>` is `Result<T>` with an
uninterpreted error; `usize` is 64 bits; a `BTreeMap` or `BTreeSet` is a `map` or `set`, and a
loop over one visits its elements in any order, except where ascending order decides the
outcome (`Ascending`). `&mut Namespace` in `recover` becomes a returned namespace. The
namespaces before and after a publication are called `prior` and `proposed`.

Two results are about what the code does not promise by itself. `validate` on a version record
does not order a restore source from another volume: `Versioning.CrossVolumeCycle` gives two
records that pass it and name each other, and `Versioning.ReferencesPrecedeIff` shows that the
ordering holds exactly when the restore source is in the record's own volume, which is what
`validate_for_volume` adds. And the closing `candidate.validate(new)` of `authorize_publish`
is shown to be redundant: the checks before it already imply it.

A third is about sessions working at the same time. The publications of two live grants can be
combined in either order without losing a change of either, unless both allocate inodes: ids are
taken from one allocator, so both then claim the same id and the later one has to renumber.
`Merge.MergeIffOneAllocates` states this as an if and only if.

## Model

| member | source | states |
|---|---|---|
| Validator.ValidateFileExtents | src/storage.rs:428-456 | for lists of any length: accepted iff every extent is nonempty, named, free of overflow, inside the file, and every earlier extent ends before every later one starts |
| Extents.SuppliedByOne | src/storage.rs:428-456 | in an accepted list each stored offset is supplied by exactly one extent, from a named block at a position a u64 can hold |
| Extents.LengthsAddUp | src/storage.rs:428-456 | in an accepted list the stored offsets number exactly the sum of the lengths and all lie inside the file |
| Extents.StoredWithinFile | src/storage.rs:428-456 | an accepted list has at most as many extents as stored bytes and at most as many of those as the file size |
| Validator.ValidateNodeKind | src/storage.rs:397-426 | accepted iff the data variant agrees with the type bits of the mode and a file's chunker and extents are valid |
| Kinds.NodeKindIff | src/storage.rs:397-426 | a node's kind is accepted iff its data is the variant that the file type read from its mode calls for and, for a file, the type bits are those of a regular file and the layout is valid |
| Kinds.FromModeBits | src/types.rs:24-46 | the bits made from a file type read back as that type under any permissions |
| Validator.IncrementCount | src/storage.rs:827-837 | adds one to one inode's count and to no other, failing exactly at u64::MAX |
| Validator.TallyDirectory | src/storage.rs:258-285 | one directory's entries: names valid and unique, targets present, both reference tables and the child count exact; every refusal, overflow included, refutes validity |
| Validator.TallyEntries | src/storage.rs:255-285 | after all directories the tables are the true reference and child counts; every refusal refutes validity |
| Validator.DirectoryLinkCountsAllowed | src/storage.rs:784-808 | accepts iff the parent count is 0 for the root and 1 otherwise and nlink is children + 2 over unbounded integers |
| Validator.WalkDirectories | src/storage.rs:748-772 | once parent counts hold the walk terminates, never meets a directory twice, and visits exactly the directories reachable from the root |
| Validator.ValidateDirectoryLinks | src/storage.rs:729-782 | accepts iff every directory has exactly one chain of slots from the root and nlink is 2 + child directories |
| Tree.CountsIffTree | src/storage.rs:206-212 | zero links to the root, one to each other directory and reachability hold iff the directories form a tree of unique paths |
| Validator.ValidateNodeLinks | src/storage.rs:810-825 | accepts iff each non-directory's nlink is its number of references, zero included |
| Validator.ValidateNodes | src/storage.rs:245-253 | accepts iff every key is nonzero, equals stats.ino, and the node's kind is valid |
| Validator.ValidateHeader | src/storage.rs:214-243 | accepts iff version, chunker, allocator bound and root type hold; the u64::MAX test adds nothing |
| Validator.Validate | src/storage.rs:213-290 | for namespaces of any size: accepts iff `Valid` |
| Tree.LinkedIsRooted | src/storage.rs:810-825 | in a valid namespace a node with nonzero nlink is reachable from the root |
| Tree.OrphanIsUnreferenced | src/storage.rs:206-212 | in a valid namespace a node with nlink 0 is a non-directory outside every subtree |
| InodePublication.ValidateInodePublication | src/storage.rs:902-921 | accepts iff both nodes have valid kinds and all structural attributes agree |
| InodePublication.AllowedIffContentReplaced | src/storage.rs:924-947 | admitted replacements are exactly those that keep the node a valid file and change only layout, size, blocks, mtime and ctime |
| InodePublication.PublicationKeepsValid | src/storage.rs:900-921 | replacing a node by an admitted one keeps the whole namespace valid and its structure the same |
| InodePublication.ValidateSnapshot | src/storage.rs:878-891 | accepts iff the generation is nonzero, the namespace valid and the revision keys are the nodes |
| InodePublication.HistoryKeepsStructure | src/storage.rs:1030-1058 | any history of version-checked inode and structural writes keeps the snapshot valid; while the generation has not moved every inode, header field, structural attribute and subtree is the same |
| InodePublication.NoLostUpdate | src/storage.rs:1030-1058 | whatever was published since a snapshot was read, a write conditional on its versions is accepted only if the node it replaces, or for a structural write the entire snapshot, is still the one read |
| InodePublication.StaleWriteRefused | src/storage.rs:855-861 | an accepted write makes the versions it was conditional on stale for ever: no later write conditional on them is accepted, whatever happens in between |
| InodePublication.InodeWriteExact | src/storage.rs:1030-1043 | an inode write is accepted iff conditional on the current generation and revision, the revision has a successor, and only content is replaced; then just that node and its revision move |
| InodePublication.StructureWriteExact | src/storage.rs:1044-1058 | a structural write is accepted iff conditional on the current generation and every revision, with a next generation and a valid namespace; then every inode is at revision zero of the next generation |
| InodePublication.DistinctPublicationsCommute | src/storage.rs:1030-1043 | version-checked publications to distinct inodes have the same verdicts and the same result in either order |
| BackingIds.ToHex | src/storage.rs:42-49 | the text has two digits from 0-9a-f per byte, high half first, in order |
| BackingIds.HexInjective | src/storage.rs:42-49 | distinct identities have distinct texts |
| BackingIds.FromHex | src/storage.rs:51-71 | accepts exactly the texts of nonzero identities and returns the identity denoted: both round trips |
| Delegation.ComputeSubtree | src/delegation.rs:54-84 | terminates, never indexes a missing node, succeeds iff the root is a directory nothing outside links below, and returns exactly what is reachable |
| Tree.SubtreeIsReachable | src/delegation.rs:61-70 | the subtree, defined as the least set closed under entries, is exactly what following entries step by step reaches |
| Tree.SubtreesMeetIffNested | src/delegation.rs:171-176 | two claimable subtrees share an inode iff one root lies in the other's subtree |
| Delegation.ValidateTokens | src/delegation.rs:103-120 | the register loop accepts iff all tokens are well formed and no two entries share a fence or a (root, owner) pair |
| Delegation.ClaimAll | src/delegation.rs:133-137 | inserts succeed iff nothing was owned before, and then exactly these inodes are added |
| Delegation.ValidateGrant | src/delegation.rs:121-138 | one grant: filed under its root, claimable, genuine orphans, and disjoint from everything owned so far |
| Delegation.ValidateGrants | src/delegation.rs:121-138 | accepts iff all grants are valid and their holdings pairwise disjoint |
| Delegation.CheckForeignLinks | src/delegation.rs:219-223 | accepts iff nothing that existed outside the old subtree is in the new one |
| Delegation.CompareNamespaces | src/delegation.rs:224-248 | accepts iff every differing inode is an allowed change |
| Delegation.CheckAllocation | src/delegation.rs:252-277 | accepts iff the new ids in ascending order count up from the old allocator to the new one |
| Delegation.DelegationState.constructor | src/delegation.rs:86-93 | a new state has fence 1, no grants and no receipts |
| Delegation.DelegationState.Validate | src/delegation.rs:95-140 | accepts iff the state is valid against the namespace |
| Delegation.DelegationState.Checkout | src/delegation.rs:141-188 | ends in exactly the checkout step's state and grant, or refuses and changes nothing |
| Delegation.DelegationState.AuthorizePublish | src/delegation.rs:192-287 | ends in exactly the publish step's state, or refuses and changes nothing |
| Delegation.DelegationState.Checkin | src/delegation.rs:288-304 | ends in exactly the checkin step's state, or refuses and changes nothing |
| Delegation.DelegationState.Recover | src/delegation.rs:307-343 | ends in exactly the recovery step's state and namespace, or refuses and changes neither |
| Safety.NoEscape | src/delegation.rs:215-248 | after an accepted publication every inode of the old subtree that keeps a link is in the new subtree, also when the comparison skipped it as unchanged |
| Safety.OtherGrantUntouched | src/delegation.rs:217-248 | another grant keeps its subtree, every node in it and every orphan, bit for bit |
| Safety.OtherGrantStillValid | src/delegation.rs:71-82 | another grant's subtree is still sealed against everything in the new namespace |
| Safety.OrphanNotRelinked | src/delegation.rs:219-223 | a publication cannot give an unlinked inode a link again |
| Safety.AuthorityConserved | src/delegation.rs:217-283 | the publisher's holdings afterwards are exactly its old holdings less what it removed plus what it allocated, and every other old inode is unchanged |
| Safety.ClosingValidationRedundant | src/delegation.rs:282-285 | once the earlier checks pass the candidate state is valid against the new namespace, so the closing validation cannot fail |
| Steps.CheckoutRefusal | src/delegation.rs:148-176 | a directory nobody holds is granted iff the owner is named, no receipt has that root and owner, fewer than 4096 identities and a fence remain, the directory is claimable, and no live grant is an ancestor or descendant |
| Steps.LiveRootCheckout | src/delegation.rs:151-156 | a held directory is given to its holder again with nothing changed, and refused to everyone else |
| Steps.CheckoutGrantsOwner | src/delegation.rs:177-187 | every accepted checkout returns a grant for that root in that owner's name, live afterwards; a new one has the next fence and no orphans, and nothing else in the state moves |
| Steps.TokensOnFile | src/delegation.rs:103-124 | in a valid state every receipt and live token has an owner, a nonzero root and a fence from 1 to below the next, and each grant is filed under its token's root |
| Steps.CheckoutPreserves | src/delegation.rs:177-187 | a checkout keeps the state valid; linked inodes never meet another grant's orphans |
| Steps.PublishIffChecks | src/delegation.rs:198-286 | a publication is accepted iff its checks pass, and then the committed state is valid |
| Acceptance.PublishAcceptedIff | src/delegation.rs:192-287 | a publication is accepted iff the token is live, the proposal valid and the directory claimable in it, every header field but the allocator equal, everything not held unchanged, type bits, device and birth time of every kept inode equal, the new ids exactly the next ones and all in the new subtree, and the rest of that subtree old members; then only the publisher's orphans move |
| Steps.AllocationIsInterval | src/delegation.rs:249-277 | the ids added are exactly those from the old next_inode up to the new one |
| Steps.CheckinPreserves | src/delegation.rs:298-303 | a checkin keeps the state valid |
| Steps.CheckinExact | src/delegation.rs:288-304 | a checkin is accepted iff the token is a receipt, changing nothing, or live without orphans, becoming a receipt with all else as it was; repeating it changes nothing |
| Steps.PruneValid | src/delegation.rs:334-338 | removing orphans leaves a valid namespace |
| Steps.RecoveryTotalAndIdempotent | src/delegation.rs:313-342 | with the live fence recovery always succeeds, removes exactly the grant's orphans, leaves a valid state, and repeating it changes nothing |
| Steps.RecoverPreserves | src/delegation.rs:313-342 | every accepted recovery leaves a valid state and namespace |
| Steps.RecoverExact | src/delegation.rs:313-342 | recovery is accepted iff the root is live with exactly that fence, or not live and a receipt carries root and fence, the latter without effect; the former retires that grant, removes its orphans and leaves the rest |
| Runs.StepPreserves | src/delegation.rs:141-343 | each of the four steps keeps validity of state against namespace |
| Runs.RunPreserves | src/delegation.rs:141-343 | so does every run |
| Runs.InodeIdentityOverRuns | src/delegation.rs:205-277 | over any run each header field but the allocator is equal, ids are added only between the old and new allocator, and an inode present at both ends has the same type bits, device, birth time and data variant, and no link if it had none |
| Runs.RemovedNeverReturns | src/delegation.rs:245-247 | an id a run has removed is absent from every continuation |
| Runs.ReceiptsEvolveOverRuns | src/delegation.rs:177-186 | over any run receipts are kept and every later token has a later fence |
| Runs.RetiredForever | src/delegation.rs:157-163 | once retired, a token never publishes again in any run, and neither its fence nor its (root, owner) pair is issued again |
| Runs.TokensNeverShared | src/delegation.rs:151-187 | any two checkouts of a run get the same fence iff they name the same root and owner, and then the same token |
| Runs.RetiredFenceRecovery | src/delegation.rs:314-327 | in any run after a token is retired, recovery with its fence is refused while its directory is granted again and is a no-op while it is not |
| Ledger.StepConserves | src/delegation.rs:177-186 | each step keeps next_fence = 1 + grants + receipts with fences exactly 1 to next_fence - 1, moving the fence only on a fresh grant |
| Ledger.ReceiptConservation | src/delegation.rs:48-50 | in every run from a new state the ledger balances, at most 4096 grants are issued, and fence overflow is unreachable |
| Orphans.PublishKeepsUnaccounted | src/delegation.rs:278-283 | a publication leaves the set of unlinked inodes owned by no grant, and their nodes, exactly as they were |
| Orphans.RecoverKeepsUnaccounted | src/delegation.rs:334-341 | so does a recovery |
| Orphans.UnaccountedOverRuns | src/delegation.rs:141-343 | so does every run from any system: inodes leaked before it stay, untouched, and none is ever added |
| Orphans.OwnedOrphansExact | src/delegation.rs:121-138 | in a valid system the orphans of live grants are exactly the unlinked inodes that are not unaccounted for, and no two grants share one |
| Orphans.OrphansAccountedFor | src/delegation.rs:219-341 | started clean, every reachable state has each unlinked inode in exactly one live grant's orphans: none leaks, none is shared |
| Holdings.HoldingsUndisturbed | src/delegation.rs:189-191 | through any run in which its token is neither used nor ended, a grant stays live with the same subtree, orphans and nodes, whatever other sessions do |
| Progress.ContentWriteIffHeld | src/delegation.rs:224-248 | rewriting one file's content under a live token is accepted iff the grant holds that inode |
| Progress.IdlePublishAccepted | src/delegation.rs:192-287 | publishing the unchanged namespace under a live token is accepted and changes nothing |
| Progress.HolderCanRelease | src/delegation.rs:288-304 | a holder can always end its grant: publishing the namespace without the grant's orphans is accepted and the checkin after it retires the token |
| Unlink.UnlinkKeepsValid | src/storage.rs:206-212 | removing a directory entry for a file and counting one link less keeps any valid namespace valid, also when no link is left |
| Unlink.HolderCanUnlink | src/delegation.rs:192-287 | under a live token removing any entry for a file below the granted directory is accepted; the file becomes an orphan of the grant iff that was its last link, and nothing else in the state moves |
| Graft.NotBelowItself | src/storage.rs:748-782 | in a valid namespace no directory below a claimable one has it as an entry |
| Graft.GraftValid | src/storage.rs:213-290 | putting one namespace's claimable subtree and orphans in the place of another's, under the same root inode, gives a valid namespace with exactly that subtree, still claimable |
| Merge.ConcurrentPublicationsMerge | src/delegation.rs:192-287 | of two publications accepted from one state under different tokens, not both allocating, the merge is valid, has each inode as its holder proposed it and all else as it was, and is accepted after either; both orders end in the same state |
| Merge.MergeIffOneAllocates | src/delegation.rs:249-277 | after the first of two such publications, the second token can publish some namespace that keeps everything both decided iff they did not both allocate |
| Example.TestNamespaceValid | src/delegation.rs:351-425 | the namespace the delegation tests start from is valid, so the hypotheses of the theorems are met |
| Example.SiblingsGrantedRootRefused | src/delegation.rs:430-437 | in it a session obtains fence 1 on one directory, its retry returns the same grant and state, the root above is refused, and a second session obtains fence 2 on the sibling |
| Example.SiblingsWriteAtOnce | src/delegation.rs:192-287 | in that state both sessions touch their own file from the same namespace, both are accepted, and the merge carrying both changes is accepted after either, so the merge theorem is not vacuous |
| Scenarios.IntruderRefused | src/delegation.rs:151-156 | a directory held by session-a is refused to another session |
| Scenarios.CheckinTwice | src/delegation.rs:438-439 | checking session-a in gives its receipt, and doing it again changes nothing |
| Scenarios.RegrantedToAnother | src/delegation.rs:440-441 | session-a cannot check the directory out again; another session can, with fence 3 |
| Scenarios.StaleRecoveryRefused | src/delegation.rs:442-444 | recovery with fence 1 is then refused, with fence 3 it succeeds, and that token cannot publish |
| Scenarios.HostileProposalsRefused | src/delegation.rs:198-248 | changing an inode's kind, the umask, any inode outside the grant, or taking a passed id is refused |
| Scenarios.OrphanHoldsTheGrant | src/delegation.rs:491-519 | unlinking `/a/file` makes it session-a's orphan, checkin is refused until a publication drops it, and then succeeds |
| Scenarios.MalformedStatesRejected | src/delegation.rs:579-607 | the five malformed persisted states of the tests are invalid |
| Scenarios.DotDotLeaves | src/path.rs:110-116 | `/a/../ab` normalizes to `/ab` and is not inside `/a` |
| Paths.NormalizePath | src/path.rs:2-18 | the push and pop loop computes the rendering of the resolved segments |
| Paths.SegmentsOfName | src/path.rs:4-12 | a path of one segment resolves to that name, or to the root for an empty one, `.` and `..` |
| Paths.SegmentsExtend | src/path.rs:4-12 | appending a segment to any path leaves it for an empty one and `.`, drops the last segment for `..` and stops at the root, and adds any other name |
| Paths.ParentIsDirname | src/path.rs:2-38 | normalizing a path followed by `..` gives its directory name |
| Paths.NormalizeIdempotent | src/path.rs:2-18 | normalizing twice is normalizing once, and keeps the segments |
| Paths.SplitPathIsSegments | src/path.rs:20-26 | the split path is the list of resolved segments |
| Paths.JoinOfSplit | src/path.rs:20-30 | joining the split path gives the normalized path |
| Paths.DirnameBasename | src/path.rs:32-48 | the directory name renders all segments but the last, the base name is the last, and the root maps to itself |
| Paths.JoinOfDirnameBasename | src/path.rs:28-48 | joining directory name and base name gives the normalized path |
| Paths.InsideIffSegmentPrefix | src/path.rs:50-60 | the string containment test holds iff the parent's segments are a prefix of the path's |
| Paths.AcceptedIffCanonical | apps/mount-rs-cli/src/config.rs:718-725 | a checkout path is accepted iff it has no NUL and is a fixed point of normalization |
| Naming.EntryNameIsSegment | src/storage.rs:722-727 | a directory entry may carry a name iff it has no NUL and is the one segment of the path made from it |
| Naming.PathLeadsToOne | src/storage.rs:258-285 | in a valid namespace every path leads to at most one inode |
| Naming.DirectoryHasOnePath | apps/mount-rs-cli/src/config.rs:718-725 | in a valid namespace every directory has one and only one path that is accepted as a checkout path |
| Versioning.DecimalRoundTrip | src/versioning.rs:70-87 | the decimal text of a number is nonempty, all digits, without leading zero, and denotes it |
| Versioning.DecodeEncode | src/versioning.rs:70-88 | decoding an encoding returns the identity iff its volume is nonempty without colon or NUL and its sequence nonzero, and refuses it otherwise |
| Versioning.EncodeDecode | src/versioning.rs:74-88 | text that decodes is the volume, a colon and the decimal sequence of such an identity |
| Versioning.ValidateInfo | src/versioning.rs:168-196 | accepts iff sequence, parent, same-volume restore source and namespace are valid |
| Versioning.ValidateForVolume | src/versioning.rs:203-219 | accepts iff the record is valid and it and its references are in the volume |
| Versioning.ReferencesPrecedeIff | src/versioning.rs:173-194 | a record passing `validate` has all references earlier on its own timeline iff its restore source, if any, is in its volume |
| Versioning.CrossVolumeCycle | src/versioning.rs:189-194 | two records of different volumes can restore from each other and both pass `validate` |
| Versioning.ForVolumeOrdersReferences | src/versioning.rs:198-219 | `validate_for_volume` admits a record iff it is in the volume with a nonzero sequence and valid namespace, and its parent and restore source, where present, are earlier versions of that volume |
| Versioning.AncestryDescends | src/versioning.rs:198-219 | chains of parents and restore sources among admitted records strictly descend and have at most `sequence` records |
| Chunking.ConfigRoundTrip | src/chunking.rs:53-84 | a configuration is accepted with a size iff that is positive and the configuration is `fixed-size`, version 1, with `chunk_size` alone |
| Chunking.ChunksReassemble | src/chunking.rs:61-63 | chunks are nonempty, at most the chunk size, and concatenate to the input |
| Chunking.ChunkAt | src/chunking.rs:61-63 | chunk i exists iff i * size is inside the input, and is the slice starting there |
| Chunking.ChunkCount | src/chunking.rs:61-63 | the number of chunks is the length divided by the size, rounded up |
| Chunking.LocateAgrees | src/chunking.rs:44-49 | the byte at an offset is where `locate` says, and offsets past the end locate past the chunks |
| Driver.WriteFile | src/driver.rs:284-302 | it succeeds iff the open, every write and the close succeeded, and then the file is exactly the data under any schedule of counts; a failed open leaves the file alone, any other failure a prefix; once opened the file is always closed; a faithful handle always succeeds |
| Driver.ReadFile | src/driver.rs:539-563 | it succeeds iff the open, every read and the close succeeded, the last read reporting zero, and returns as many bytes of the file's front as the reads reported: all of it if zero is reported only at the end; once opened the file is always closed |
| Driver.WriteThenRead | src/driver.rs:284-302 | on any handle a successful write and read return a prefix of the data, all of it if zero is reported only at the end of the file; a faithful handle always returns the data, for every schedule of short transfers |

## Left out

- Error codes and messages: every refusal is the same error; only acceptance and the state left behind are modelled.
- Provider transactions: namespace and authority are committed together, and a version-checked write compares and updates in one step, as the storage traits require; leases, durability barriers, clocks and the check that a write names the mounted backing are not modelled.
- Providers' own integer columns: revisions and generations count up to `u64::MAX`; a provider that stores them in fewer bits refuses earlier.
- Serialization: the JSON forms, the MRC4 envelope and `matches_committed` rest on serde and are opaque.
- `LoadedMetadata::validate`, `VersionPublication::validate`, `BlockStoreId` and `PublicationId`: they test that a revision is zero exactly when no namespace is present, that identifiers are nonempty and free of NUL, and that references stay in the volume, and no theorem here depends on them.
- `OpenFlags`, `checked_buffer_reservation` and the rest of configuration parsing: finite case tables or single expressions.
- 32-bit platforms: `usize` is taken as 64 bits, so the conversions between `u64` and `usize` never fail.
- Text encoding: strings are sequences of characters, so byte offsets into UTF-8 appear as character offsets; backing-id text is modelled as bytes.
- Driver.ReadFile: a handle whose credible counts are not backed by file bytes is outside the model, because the source's loop then need not end.
- `Chunker` as a trait and `chunks` as a borrowed iterator: chunks are a sequence of sequences.
