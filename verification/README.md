# Githome, modelled and proved in Dafny

Githome is a self-hosted forge: API handlers over a SQL store and bare git repositories. Below the
handlers sit a number of self-contained algorithms and protocols, and this project models those and proves
what they are for. `dafny verify dfyconfig.toml` checks all of it.

Functions are the specifications. Where the code changes things step by step, a method or class does the
same, statement by statement, and is proved against its function; the lemmas then say what the function
guarantees. Concurrent protocols are state machines whose steps are the code's atomic sections (one mutex
hold, one transaction, one read), and their lemmas quantify over every list of steps.

| file | what it models |
|---|---|
| `DiffParse`, `DiffText`, `DiffCounts` | the unified-diff state machine, git's own diff text as its inverse, and the counts it reports |
| `DiffPosition`, `DiffAnchors`, `HunkText` | review anchors: positions and lines of a patch, each recovered from the other, down to the rows of printed hunks |
| `NodeId`, `NodeIdTables`, `Base64`, `Varint`, `Decimal` | the opaque ids of resources and git objects, down to the bytes |
| `Token`, `Crc32c`, `Castagnoli` | token format and checksum: CRC-32C as a shift register over GF(2), and as long division by its polynomial |
| `KnownAnswers` | published and recorded values of the codecs |
| `RepoCache`, `Checkout`, `Warmth`, `RepoStore` | the warm-handle cache and every interleaving of its users: what is safe, and what is kept warm |
| `CostLru`, `LruCache`, `DiffCache` | the byte-bounded LRU as a recency list, the shared-element structure that implements it, and diff caching over it |
| `IssueStore`, `IssueRuns`, `IssueFields` | issue and pull transactions under optimistic locking: the open-issue counter, the timeline, the state of merged pulls, and every field as last written |
| `TreeEdit`, `FileEdit` | one file written or deleted by rebuilding trees, and the branch update around it |
| `Push`, `PullSync` | the before/after ref diff of a push, and what it does to pull requests |
| `Scopes`, `ScopeTable` | scope normalisation over any acyclic table, and the table the server ships |
| `DeviceFlow`, `UserCode` | the OAuth device flow against the history of a device code |
| `Highlight`, `HighlightSpans` | the highlighted view of a file against its escaped fallback, and the markup read back |
| `ReviewThreads` | reply chaining and the thread listing |
| `Strings`, `Lists`, `Sorting` | the parts of Go's standard library these rely on |

## What the proofs found

- Decoding a printed diff is exact up to what the text hides. `parseDiff` reads back every status, blob id and
  patch and every previous path, except that it keeps the tab git appends to a path with a space, leaves the
  path empty where git prints no path line (an empty file created or deleted, a binary or mode-only change),
  and does not count a row whose own text makes it read like a `+++` or `---` line. `DiffText.ParsePrintTruth`
  is the exact condition.
- A handle checked out before a push can be handed out after it when its directory was evicted and seen
  again in between, because a new entry restarts at generation 0. `Checkout.ReleaseStaleExactly` says exactly
  when, `Checkout.RunFreshExactly` says it of whole runs, and `Checkout.RecycledEntryHandsOutStaleHandle` is a
  run of six steps.
- The comment on `MarkMerged` (store/queries_pull.go:399-401) says that a merged pull request is also a
  closed issue. An edit can reopen it, and nothing else can: `IssueRuns.StepKeepsPromiseExactly` and
  `IssueRuns.RunKeepsPromiseExactly` are the exact conditions for a step and for a run, and
  `IssueRuns.PromiseIsBroken` is a run of seven steps that opens, merges and reopens a pull.
- The comment in `rebuildTree` (git/repo_write_file.go:235) says a directory is kept only when it is
  non-empty. The code compares with the zero hash, which no tree has. `TreeEdit.NoEmptyDirsExactly` is the exact
  condition for an edit to leave no empty directory; `TreeEdit.EmptiedDirectoryStays` (the only file of a
  directory is deleted) and `TreeEdit.MissingDirectoryAppears` (a file is deleted from a directory that is not
  there) are the two ways it fails.
- A file path of two leading slashes gives a component with an empty name, `/` and the empty path give ".",
  and a path that climbs gives "..": `FileEdit.PartsProperExactly` is the exact condition for proper names.
- `FileWriteInput.ParentSHA` is there to detect races (git/repo_write_file.go:29), but the ref is set without
  looking again: of two overlapping edits that name the same parent, both succeed and the first is lost.
  `FileEdit.TwoPiecesAreOneExactly` and `FileEdit.RacedEditIsLost` say exactly when.
- `OpenPullsByHeadRef` (store/queries_pull.go:225-233) promises open pulls and selects unmerged ones, so a
  push also moves pulls that were closed without a merge (`PullSync.ClosedPullMoves`).
  `PullSync.OnlyOpenPullsMoveExactly` says exactly when it moves open ones only.
- Deleting the root of a review thread breaks the thread up into single comments
  (`ReviewThreads.DeletingRootSplits`).

## Model

| member | source | states |
|---|---|---|
| DiffParse.ParseDiff | git/diffparse.go:60-130 | the loop with its variables updated in place computes the line-by-line state machine, for every text |
| DiffText.ParsePrint | git/diffparse.go:60-130 | parsing any printed full-index diff (files modified, made, deleted, renamed or copied, empty ones and mode changes included) gives one entry per delta, in order, with status, both paths, the blob id of the side that exists, counts and patch |
| DiffText.ReportedTruly | git/diffparse.go:88-126 | an entry is reported as it really is if and only if its path line is read whole and no hunk row reads like a label line |
| DiffText.ParsePrintTruth | git/diffparse.go:60-130 | a whole printed diff is read back truly if and only if every entry is legible |
| DiffText.CountRowsBound | git/diffparse.go:88-101 | counted rows never exceed the rows led by the sign, with equality exactly when none looks like a label line |
| DiffText.EmptyFilesArePrinted | git/diffparse.go:70-87 | an empty file made or deleted is reported with its status and the blob id of the side that exists, and without a path |
| DiffCounts.CountsNeverExceedRows | git/diffparse.go:88-101 | for every text at all, a file's additions and deletions never exceed the '+' and '-' rows the review parser indexes in the same patch, with equality exactly when no row reads like a label line |
| DiffPosition.ParseFileDiff | domain/diff_position.go:52-107 | the loop over one patch builds exactly the three tables and the row list of the scan |
| DiffPosition.CountRow | domain/diff_position.go:83-104 | one row is stored under its position and its line numbers, and each side advances only past rows it holds |
| DiffPosition.ParseHunkHeader | domain/diff_position.go:149-164 | the field loop keeps the last start named on each side |
| DiffAnchors.HeaderRoundTrip | domain/diff_position.go:146-176 | both starts of any printed hunk header are read back, with or without counts and with any heading |
| DiffAnchors.RowAnchor | domain/diff_position.go:58-105 | the row at index i has position i and, on each side it is on, its hunk's start plus the rows of that side above it |
| DiffAnchors.LineThenPosition | domain/diff_position.go:114-137 | when hunks move forward, a position's line and side lead back to it |
| DiffAnchors.RightThenLine | domain/diff_position.go:114-137 | when hunks move forward, a RIGHT line's position leads back to it |
| DiffAnchors.LeftThenLine | domain/diff_position.go:114-137 | when hunks move forward, a LEFT line leads to the row that holds it, which answers with itself or with its head line |
| DiffAnchors.RoundTripExactly | domain/diff_position.go:114-137 | of any patch, a position survives the round trip if and only if no later row carries its line on its side |
| DiffAnchors.ContainsExactly | domain/diff_position.go:139-144 | of any patch, a line of a side is in it if and only if some row carries it there |
| DiffAnchors.PositionsIncrease | domain/diff_position.go:63-81 | positions strictly increase over all rows, across hunks |
| HunkText.PrintedMovesForward | domain/diff_position.go:52-107 | any patch printed as hunks whose headers count their rows and whose ranges ascend moves forward, so the anchor results hold of it |
| HunkText.PrintedRowAnchors | domain/diff_position.go:52-137 | in such a patch every row of every hunk has the position and lines the format gives it, and those lead back to it: added and context rows on the RIGHT, deleted and context rows on the LEFT, the last as its head line |
| Decimal.ParseFormat | nodeid/codec.go:117 | parsing a formatted 64-bit integer gives it back |
| Varint.VarintRoundTrip | nodeid/codec.go:122 | reading a written varint gives the integer and the bytes used, whatever follows, within ten bytes |
| Varint.UvarintValue | nodeid/codec.go:120-122 | the low seven bits of the bytes, low groups first, make up the number written |
| Varint.PutVarintInto | nodeid/codec.go:120-122 | the buffer holds the varint from the given offset on and is as before it on either side |
| Base64.RoundTrip | nodeid/codec.go:118-123 | decoding undoes encoding in both variants (RFC 4648 sections 4 and 5) |
| Base64.GroupIsNumber | nodeid/codec.go:118-123 | three bytes and their four sextets are one 24-bit number, highest first |
| Base64.AlphabetIsTable | nodeid/codec.go:118-123 | the symbols are those of the table of RFC 4648, section 4, but for two in the URL variant |
| Base64.EncodedLength | nodeid/codec.go:118-123 | a text is padded to whole groups, or cut to what the bytes need |
| Base64.ForeignCharacter | nodeid/codec.go:155-158 | one character outside the alphabet makes a text undecodable, in the unpadded variant also the padding sign |
| NodeId.DecodeEncode | nodeid/codec.go:111-137 | for every registered kind, every 64-bit id and both formats, Decode gives back the kind and id |
| NodeId.NamesUnique | nodeid/codec.go:163-178 | no legacy body reads as two kinds, although type names start one another |
| NodeId.LegacyLenIsLength | nodeid/codec.go:111-124 | the length column of every kind is a zero and the length of its type name |
| NodeId.EncodeInjective | nodeid/codec.go:111-124 | no two resources share an id, within or across formats |
| NodeId.FormatsDisjoint | nodeid/codec.go:111-124 | no text is an id of both formats |
| NodeId.DecodeEncodeGitObject | nodeid/repo.go:43-77 | every tag, repository id and object string comes back |
| NodeId.NeverBoth | nodeid/codec.go:127-152 | no text whatever is accepted by both decoders, although prefixes "C" and "T" are shared |
| NodeId.DecodeRejectsGitObjects | nodeid/repo.go:9-19 | Decode rejects every git-object id |
| NodeId.DecodeGitObjectRejectsResources | nodeid/repo.go:59-77 | DecodeGitObject rejects every resource id of either format |
| NodeIdTables.Tables.constructor | nodeid/codec.go:95-105 | filling the reverse maps in any order gives exact inverses of the registry |
| NodeIdTables.Tables.ScanNames | nodeid/codec.go:163-179 | whatever order the type names are visited in, the answer is the one number a name leaves |
| NodeIdTables.Tables.DecodeLegacy | nodeid/codec.go:154-180 | the legacy decoder does not depend on the order the map is ranged over |
| NodeIdTables.Tables.Decode | nodeid/codec.go:127-137 | the prefix dispatch over the maps is the dispatch over the registry |
| NodeIdTables.Encode | nodeid/codec.go:111-124 | filling the fixed buffer yields the specified id |
| KnownAnswers.LegacyUserOne | nodeid/codec_test.go:41-52 | the historical id of user 1 is produced and decoded |
| KnownAnswers.NewPullRequest | nodeid/codec.go:111-124 | the prefixed id of pull request 42, to the letter |
| KnownAnswers.ZeroToken | auth/token.go:73-85 | a token whose body is thirty zeros passes with 10IUsd and with no other six characters |
| Crc32c.BurstDetected | auth/token.go:125-126 | inputs equal but for a window of at most 32 bits leave different registers |
| Crc32c.ChecksumSeparates | auth/token.go:125-126 | texts that differ only within four adjacent bytes have different checksums |
| Castagnoli.FeedIsRemainder | auth/token.go:125-126 | the register after any bits is the remainder of long division by the Castagnoli polynomial, given by its powers (section 12.1 of RFC 3720) |
| Castagnoli.ChecksumIsRemainder | auth/token.go:125-126 | the checksum of a text is that remainder, with first and last thirty-two bits flipped |
| Castagnoli.CheckValue | auth/token.go:125-126 | the published check value of CRC-32C comes out |
| Token.NothingTruncated | auth/token.go:125-132 | six base62 digits hold every checksum, so nothing is cut off and the digits read back as the sum |
| Token.Base62InOrder | auth/token.go:30-32 | a number and one more digit are written in order, in the digits of the alphabet |
| Token.ClassPrefixOf | auth/token.go:91-100 | every class prefix is recognised as itself, whatever follows |
| Token.VerifyParts | auth/token.go:73-85 | a text of a known class and the right length passes if and only if it ends in its body's checksum |
| Token.VerifiesExactly | auth/token.go:73-85 | exactly the texts made of a known prefix, a body and its checksum pass |
| Token.BodyChangeRejected | auth/token.go:71-85 | a body changed within four adjacent characters is rejected with the old checksum |
| Token.Base62Uint | auth/token.go:135-147 | the eleven-byte buffer, filled from its end, is the base62 numeral for every uint64 |
| Token.LeftPad | auth/token.go:149-154 | the loop pads to the length with zeros and changes nothing longer |
| Token.TokenChecksum | auth/token.go:125-132 | the composed checksum text is the specified one |
| Token.FindClassPrefix | auth/token.go:93-100 | the loop finds the first matching prefix |
| Token.GenerateToken | auth/token.go:52-69 | exactly the known prefixes mint; a minted token keeps its class and body and passes the check |
| RepoCache.HandleCache.constructor | git/repocache.go:48-55 | the cache starts empty and valid |
| RepoCache.HandleCache.Acquire | git/repocache.go:61-73 | the entry moves to the front, its last idle handle is handed out with the generation, validity is kept |
| RepoCache.HandleCache.Release | git/repocache.go:78-90 | a handle is kept exactly when the entry exists at its generation with room, validity is kept |
| RepoCache.HandleCache.Invalidate | git/repocache.go:95-102 | the idle list empties, the generation grows, the order stays |
| RepoCache.HandleCache.Touch | git/repocache.go:106-124 | a new entry starts at generation 0 after the coldest made room; an old one moves to the front |
| Warmth.ReturnReusedExactly | git/repocache.go:61-90 | a handle returned to the entry it was taken from is the next one handed out if and only if no push came since and there is room |
| Warmth.AcquireWarmExactly | git/repocache.go:61-73 | an acquire is warm if and only if a handle is idle, and then hands out the one returned last |
| Warmth.SlotsExactly | git/repocache.go:57-124 | exactly which slots hold which handles after every step of the protocol |
| Warmth.EntriesExactly | git/repocache.go:106-124 | exactly which directories have an entry after every step |
| Warmth.RunRecency | git/repocache.go:106-124 | after every run the order list stands by the last use of each directory |
| Warmth.ColdestGoes | git/repocache.go:106-124 | an entry goes only for an unknown directory in a full cache, and it is the one used longest ago |
| Warmth.CheckoutGoesThrough | git/store.go:127-147 | a caller with nothing in hand can always come to hold a handle of the directory it asks for |
| RepoStore.Open | git/store.go:127-147 | an overridden directory never meets the cache; any other takes a warm handle first and carries its generation |
| RepoStore.Repo.Release | git/repo_read.go:46-57 | a handle goes back at most once, and never from outside the cache |
| Checkout.RunExclusive | git/repocache.go:57-102 | in every interleaving each handle is with one caller or once in one idle list, never both; bounds hold; the order list lists the entries without repetition |
| Checkout.ReleaseStaleExactly | git/repocache.go:78-90 | a return makes an idle handle stale if and only if its entry was recycled to the same generation with room, after an invalidation |
| Checkout.StepFreshExactly | git/repocache.go:57-124 | of all steps only such a return makes an idle handle stale |
| Checkout.RunFreshExactly | git/repocache.go:57-124 | idle handles are fresh after every prefix of a run if and only if no return of the run slips back |
| Checkout.SlippedHandleIsNext | git/repocache.go:61-73 | such a handle is the very next one handed out |
| Checkout.RunFresh | git/repocache.go:92-102 | in every run that recycles no entry under a held handle, no idle handle predates an invalidation |
| Checkout.WarmHandleIsCurrent | git/repocache.go:57-102 | in such a run every handle handed out was last taken after every invalidation so far |
| Checkout.RecycledEntryHandsOutStaleHandle | git/repocache.go:111-123 | a run of six steps shows that the hypothesis is needed |
| CostLru.TrimIsLongestPrefix | git/lru.go:73-82 | eviction keeps the longest most-recent prefix within the budget |
| CostLru.AdmittedSurvives | git/lru.go:56-83 | an admitted entry survives its own put when the cap is within the budget |
| CostLru.HistorySound | git/lru.go:43-83 | after any history there is one entry per key, the last one admitted under it, and the total is within the budget |
| CostLru.HistoryByRecency | git/lru.go:43-83 | after any history the entries stand by the last lookup or admitted put of their keys, the latest first |
| CostLru.PutExactly | git/lru.go:56-83 | a put over the cap changes nothing; any other keeps the longest prefix within the budget of the new entry and the others in their order |
| CostLru.GetExactly | git/lru.go:43-54 | a lookup answers with the entry stored under the key and loses none |
| LruCache.ByteLru.constructor | git/lru.go:33-41 | the structure starts empty |
| LruCache.ByteLru.Get | git/lru.go:43-54 | map, list and size answer and move like the recency list; hits count the hits |
| LruCache.ByteLru.Put | git/lru.go:56-83 | a put prices and stores like the recency list and counts no hit |
| LruCache.ByteLru.PutPriced | git/lru.go:58-82 | over the cap nothing changes; else the entry is first and the coldest go |
| LruCache.ByteLru.MoveToFront | git/lru.go:51-51 | moving the shared element moves its entry and keeps map and list on the same keys |
| LruCache.ByteLru.Reprice | git/lru.go:63-67 | a stored entry is overwritten in place and the size follows |
| LruCache.ByteLru.PushFront | git/lru.go:68-72 | a new element enters map, list and size together |
| LruCache.ByteLru.Evict | git/lru.go:73-82 | the loop leaves the longest prefix within the budget; its nil-tail exit needs a negative budget |
| DiffCache.KeyInjective | git/repo_merge.go:309-318 | two cacheable requests with one key ask for the same diff, in all five arguments |
| DiffCache.CachingIsInvisible | git/repo_merge.go:308-344 | in every interleaving every answer that git did not refuse is the parse of git's own output |
| DiffCache.ArgsInjective | git/repo_merge.go:323-331 | two cacheable requests that run the same command are the same request |
| DiffCache.AskGoesThrough | git/repo_merge.go:308-344 | every new caller is answered, at once or after git has run, with the parse of git's output |
| DiffCache.FilledAnswersNext | git/repo_merge.go:308-344 | once an answer that fits is stored, the next caller with the request is answered without git |
| DiffCache.ChangedFiles | git/repo_merge.go:308-344 | over the cache object the answer is the uncached one, and what the cache holds afterwards is stated exactly: only full object ids are looked up, only a new answer is stored |
| IssueStore.Store.AllocIssueNumber | store/queries_issue.go:327-337 | the next number is handed out once |
| IssueStore.Store.InsertIssueRow | store/queries_issue.go:341-363 | the row is stored under a new key |
| IssueStore.Store.UpdateIssueRow | store/queries_issue.go:365-393 | the row is written and its version bumped if and only if the version is the one read |
| IssueStore.Store.CreateIssueTx | domain/issue_service.go:211-227 | number, row, labels, assignees and counter change together |
| IssueStore.Store.CreatePullTx | domain/pr_service.go:233-247 | issue row, pull row with its branches and heads, and counter change together |
| IssueStore.Store.EditIssueTx | domain/issue_service.go:450-521 | the edit over the row that was read (title, body, state, milestone, labels, assignees, timeline event, count) commits whole or not at all |
| IssueStore.Store.PatchRow | domain/issue_service.go:452-495 | the patched row, the count's change and the event, whose fields IssueFields.StepWritesExactly gives one by one; without an event the count stays |
| IssueStore.Store.SetLockedTx | domain/issue_service.go:1125-1141 | the lock and its timeline event are written over the row that was read, or nothing is |
| IssueStore.Store.MergeTx | domain/pr_service.go:563-576 | mark, close and count happen together, or a lost race undoes all three |
| IssueRuns.CounterIsExact | domain/issue_service.go:450-525 | in every interleaving the counter is the number of open rows, closed rows and only they carry time and actor, numbers never collide, no pull is merged twice |
| IssueFields.CommitsExactly | store/queries_issue.go:365-393 | an edit, a lock or a merge goes through if and only if the row is as it was read; a lost edit waits to read again, a lost lock or merge is over |
| IssueFields.StepWritesExactly | domain/issue_service.go:450-521 | every step leaves every field of every issue at what it writes there, or else as it was |
| IssueFields.RunWritesExactly | domain/issue_service.go:450-525 | in every interleaving title, body, milestone, labels, assignees, state, closing, reason and lock are each what was last written, by the creation, an edit that named it, a lock or a merge |
| IssueFields.RunPullsExactly | domain/pr_service.go:563-576 | in every interleaving a pull joins the branches it was opened with and tells of its merge the recorded time, actor and commit |
| IssueFields.RunLogsExactly | domain/issue_service.go:510-519 | the timeline is one entry for every lock and every change of state by an edit, in order |
| IssueFields.NumbersHaveNoGap | store/queries_issue.go:327-337 | issues and pulls share one row of numbers without a gap |
| IssueFields.EditGoesThrough | domain/issue_service.go:430-525 | an edit that nobody disturbs has its effect |
| IssueFields.LockGoesThrough | domain/issue_service.go:1110-1141 | so has a lock |
| IssueFields.MergeGoesThrough | domain/pr_service.go:563-576 | and so has the merge of an open pull |
| IssueRuns.TimelineIsExact | domain/issue_service.go:510-519 | in every interleaving an issue's closings and the merge of its pull exceed its reopenings by one while it is closed and balance them while it is open |
| IssueRuns.StepKeepsPromiseExactly | store/queries_pull.go:399-409 | of all steps only an edit that commits and reopens the issue of a merged pull leaves a merged pull open |
| IssueRuns.RunKeepsPromiseExactly | store/queries_pull.go:399-409 | merged pulls stay closed throughout a run if and only if no step of it is such an edit |
| IssueRuns.MergedPullReopens | domain/issue_service.go:470-491 | from every reachable merged and closed pull three steps leave it merged and open |
| IssueRuns.PromiseIsBroken | domain/pr_service.go:563-576 | a run of seven steps opens a pull, merges it and leaves it merged and open |
| TreeEdit.RebuildTree | git/repo_write_file.go:184-260 | the recursive rebuild, entry by entry, is the specified tree |
| TreeEdit.RebuildEdits | git/repo_write_file.go:184-260 | at each path: what was written at the target, nothing above or below it, and elsewhere what was there |
| TreeEdit.FilesUpdated | git/repo_write_file.go:184-260 | the files afterwards are the old ones minus those at, above and below the target, plus the target on a write |
| TreeEdit.RebuildWellFormed | git/repo_write_file.go:193-244 | names stay distinct at every level, and exactly the directory entries hold trees |
| TreeEdit.RebuildCanonical | git/repo_write_file.go:246-250 | every rebuilt level is in git's canonical order |
| TreeEdit.KeyOrderIsGit | git/repo_write_file.go:245-248 | sorting by the key is sorting the way git compares tree entries |
| TreeEdit.WriteThenDelete | git/repo_write_file.go:203-212 | deleting what was just written leaves the files that deleting alone leaves |
| TreeEdit.NoEmptyDirsExactly | git/repo_write_file.go:231-242 | an edit of a tree without empty directories leaves none if and only if it does not delete a target alone in its directory below the root |
| TreeEdit.EmptiedDirectoryStays | git/repo_write_file.go:235-242 | deleting the only file of a directory leaves the directory, empty |
| TreeEdit.MissingDirectoryAppears | git/repo_write_file.go:228-242 | deleting a file from a directory that is not there makes it, empty |
| FileEdit.PartsProperExactly | git/repo_write_file.go:91-92 | the components are proper file names if and only if the path, less one slash, is relative, not ".", and does not climb |
| FileEdit.PartsRoundTrip | git/repo_write_file.go:91-92 | proper components joined by slashes split into themselves |
| FileEdit.NoiseGoes | git/repo_write_file.go:91-92 | empty components, dots, and a name with the double dot behind it leave a path as it is, wherever they stand |
| FileEdit.BranchNameReads | git/repo_write_file.go:52-64 | a branch is edited under the name a push reports it by |
| FileEdit.Branches.ApplyFileChange | git/repo_write_file.go:52-180 | refused exactly when the parent moved or there is no branch to delete from, and then nothing changes; else one commit on the old tip with the edited files, no other branch touched |
| FileEdit.TwoPiecesAreOneExactly | git/repo_write_file.go:65-168 | reading the tip first and setting the ref last is one atomic edit if and only if the branch did not move in between, or moved to the very commit being set and would now be refused |
| FileEdit.RacedEditIsLost | git/repo_write_file.go:29-42 | two edits that both name the tip both succeed when they overlap, and only the later one's files remain; one after the other, the second is refused |
| Push.DiffSnapshots | gittransport/receivepack.go:162-184 | whatever order the maps are ranged over, the batch lists exactly the refs that differ, each once, with both sides |
| Push.ApplyDiff | gittransport/receivepack.go:162-184 | replaying the batch over the old refs gives the new ones if and only if no moved ref holds the value that marks an absent side |
| Push.DiffReverses | gittransport/receivepack.go:162-184 | with its sides exchanged a batch is a diff the other way |
| Push.UpdatesReadTruly | domain/push.go:34-38 | between stored snapshots Created and Deleted hold exactly for refs gained and lost, never both, and no update is a no-op |
| Push.DiffTips | gittransport/receivepack.go:147-160 | the branches a batch moves are those there afterwards at another tip, with that tip |
| PullSync.HeadRefInjective | domain/pr_service.go:1345 | two pull requests never share a head ref |
| PullSync.Sink.OnPush | domain/push.go:57-101 | the time of the push and one event for a non-empty batch, one reindex exactly when it moves the default branch without deleting it |
| PullSync.Sink.RepointHeads | domain/pr_service.go:716-735 | in any row order, exactly the unmerged pulls on the branch record the tip, move their head ref, are queued and emit an event when their head changed |
| PullSync.Sink.OnHeadPush | domain/pr_service.go:705-744 | so do they, and exactly the pulls touched on either side are queued |
| PullSync.Sink.SyncPulls | gittransport/receivepack.go:147-160 | over a whole batch, branch after branch, the effects add up: every pull on a moved branch at its tip, with one event each |
| PullSync.Sink.ReceivePack | gittransport/receivepack.go:63-138 | after a push the directory's warm handles are gone and, in terms of the refs before and after: which pulls moved and where, which were queued, every event, the time, one reindex exactly when the default branch is there at another tip; nothing recorded when nothing moved |
| PullSync.OnlyOpenPullsMoveExactly | store/queries_pull.go:225-233 | a push moves open pulls only if and only if no pull closed without a merge has its head branch moved |
| PullSync.PushRowsExactly | domain/pr_service.go:698-744 | row by row, which pulls a push rewrites and how, and which it queues, in terms of the refs before and after |
| PullSync.ClosedPullMoves | store/queries_pull.go:225-233 | such a pull records the new tip like an open one |
| PullSync.PushKeepsTracking | domain/pr_service.go:698-744 | a push keeps every recorded head at its branch's tip, whatever refs it moved |
| PullSync.RunsKeepTracking | domain/pr_service.go:698-744 | so does any run of pushes, each of them what ReceivePack ensures |
| PullSync.UntouchedStays | domain/pr_service.go:698-744 | a pull whose head branch no push of a run moves keeps its row |
| Scopes.AllImplied | auth/scopes.go:59-75 | the walk lists, without repetition, exactly what the parent reaches |
| Scopes.DropImplied | auth/scopes.go:86-92 | deleting from the set while it is iterated, in any order, leaves exactly the maximal scopes |
| Scopes.NormalizeScopes | auth/scopes.go:77-99 | for any acyclic table and any order, the sorted maximal elements of the known input |
| Scopes.NormalUnique | auth/scopes.go:86-99 | an input has one normal form, so no order shows |
| Scopes.NormalIdempotent | auth/scopes.go:77-99 | a normal form is its own |
| Scopes.NormalKeepsHas | auth/scopes.go:101-112 | normalising keeps Has for every known scope |
| Scopes.Has | auth/scopes.go:101-112 | Has is membership or reachability from a member |
| Scopes.ParseHeader | auth/scopes.go:114-144 | a rendered list of words is read back |
| Scopes.ParseSpread | auth/scopes.go:122-144 | words apart by any spaces, commas and plus signs are read one by one |
| Scopes.NormalSurvivesHeader | auth/scopes.go:114-144 | a normal form rendered, parsed and normalised again is itself |
| ScopeTable.ShippedTableAcyclic | auth/scopes.go:16-35 | the shipped table has no cycle |
| ScopeTable.ShippedScopesAreWords | auth/scopes.go:16-57 | no known scope is empty or holds a delimiter |
| ScopeTable.NormalizeShipped | auth/scopes.go:77-99 | with the shipped table, the normal form |
| ScopeTable.ShippedNormalSurvivesHeader | auth/scopes.go:114-144 | the stored scope text of a device code is read back as the scopes it was made from |
| DeviceFlow.Service.RequestDeviceCode | auth/device.go:57-92 | a session opens pending with the normal form of the scopes asked for, unless the client is unknown, its flow is off or the user code is taken |
| DeviceFlow.Service.Decide | auth/device.go:96-122 | the session behind a typed code takes the verdict if and only if it is live; nothing else changes |
| DeviceFlow.Service.PollDeviceToken | auth/device.go:128-183 | every poll of a known code is answered as its history alone requires, and the rows stay what the history makes them |
| DeviceFlow.OneToken | auth/device.go:171-179 | in every history a device code yields at most one token, and none while it stands |
| DeviceFlow.AnsweredExactly | auth/device.go:128-183 | every poll of a lawful history: expired past fifteen minutes; else slow_down if too soon after the last accepted poll; else access_denied or a token, for whom and with which scopes, by the last decision; else pending |
| DeviceFlow.FinalEnds | auth/device.go:144-179 | an expired, denied or token answer ends the session |
| DeviceFlow.RowStandsExactly | auth/device.go:128-183 | a row stands if and only if its code was requested and got no such answer |
| DeviceFlow.RowTellsRequest | auth/device.go:78-92 | a standing row tells whose it is, the code to type and how long it lives |
| DeviceFlow.TokenNeedsApproval | auth/device.go:150-179 | a token goes only to the user of the last decision, an approval, within the lifetime, with the scopes of the request |
| DeviceFlow.SlowDownNamesInterval | auth/device.go:156-162 | slow_down names the interval in force from then on, five seconds more (RFC 8628 section 3.5) |
| DeviceFlow.PollsAreSpaced | auth/device.go:156-163 | accepted polls are at least 5 seconds plus 5 per slow_down apart |
| UserCode.NormalizeUserCode | auth/device.go:229-246 | the loop keeps letters and digits in upper case and groups eight of them |
| UserCode.SameCode | auth/device.go:229-246 | two typed codes are one code if and only if they have the same letters and digits |
| UserCode.CaseDoesNotMatter | auth/device.go:229-246 | a code typed in the other case, whole or in part, is the same code |
| UserCode.OthersDoNotMatter | auth/device.go:229-246 | a character that is no ASCII letter or digit may be typed anywhere |
| UserCode.LettersAndDigitsMatter | auth/device.go:229-246 | different upper-case letters and digits are different codes |
| UserCode.GenUserCode | auth/device.go:216-227 | the code is eight letters of the alphabet, grouped |
| UserCode.AlphabetExactly | auth/device.go:216-220 | the alphabet is the upper-case letters but A, E, I, O, U and Y |
| UserCode.GeneratedMatches | auth/device.go:216-246 | every way of typing a generated code normalises to the stored form |
| Highlight.HighlightTokens | markup/highlight_chroma.go:41-73 | the token loop writes exactly the lines of the token text, span by span, with the trailing-newline rule |
| Highlight.WriteToken | markup/highlight_chroma.go:49-66 | a token's first part goes on the current line and each later one on a new line |
| Highlight.EscapeLines | markup/highlight.go:90-104 | the fallback is the escaped lines, less a final empty one |
| Highlight.ViewsAgree | markup/highlight_chroma.go:41-73 | for every token sequence, erasing the spans gives the fallback of the tokens' text, line for line |
| HighlightSpans.SpansAreExact | markup/highlight_chroma.go:41-73 | the markup read back shows every character of the tokens, in order, under its token's class, and breaks lines exactly where the text does |
| HighlightSpans.FallbackIsExact | markup/highlight.go:90-104 | the fallback read back shows every character of the code, with the same lines |
| Highlight.CutDoesNotMatter | markup/highlight_chroma.go:49-66 | two ways of cutting one text into tokens show the same lines |
| Highlight.TrailingNewline | markup/highlight.go:93-98 | a trailing newline adds no line |
| Highlight.RunHighlight | markup/highlight.go:80-88 | both branches show the escaped text they were given |
| ReviewThreads.FoldThreads | domain/review_service.go:527-556 | the fold yields one thread per root, in order of first appearance, with the root's identity and state |
| ReviewThreads.ThreadsPartition | domain/review_service.go:529-551 | every comment is in exactly one thread, as often as it is a row |
| ReviewThreads.SharedThread | domain/review_service.go:531-542 | two comments share a thread if and only if they have the same root |
| ReviewThreads.UnderIsSubsequence | domain/review_service.go:551-551 | a thread keeps the row order |
| ReviewThreads.RunsStayFlat | domain/review_service.go:418-450 | in every interleaving of creating, replying and deleting, each reply points directly at an existing root of its own pull |
| ReviewThreads.RunsStayPlaced | domain/review_service.go:427-450 | in every interleaving a reply stands on the path and line of its root |
| ReviewThreads.ReplyAppearsExactly | domain/review_service.go:418-450 | a reply is appended under the root of the comment it answers if that root still stands, else nothing is |
| ReviewThreads.ThreadShowsRoot | domain/review_service.go:527-556 | after any run a listed thread shows the identity, place and state of its root |
| ReviewThreads.ThreadsOpenWithTheirRoot | domain/review_service.go:427-450 | after every such run a thread opens with its root and the rest are replies to it |
| ReviewThreads.DeletingRootSplits | store/queries_review.go:298-306 | deleting a root makes each of its replies a root of its own |
| ReviewThreads.DeletesExactly | store/queries_review.go:298-306 | deleting takes away one row and unhooks exactly its replies |

## Left out

- HTTP, routing, pages, presenters, configuration, authorisation and visibility checks: I/O and field copying.
- The git binary, go-git and SQL: diff output is a function of the arguments, refs are a map, a transaction is one step that aborts when the row version moved, a foreign key refuses a missing parent.
- Store and git failures in the middle of an operation, except where the code's answer depends on them (a failed git diff, a failed open, a lost race).
- SHA-256, random bodies, random codes and clocks are parameters; a device code is taken never to repeat.
- Go integers: counts, generations, cache sizes and line numbers are unbounded here; 64-bit ids, varints and parsed numbers keep their width.
- A repository cache with `max` below one keeps one entry, as the code does, because it makes room before it adds.
- RepoCache.HandleCache.Acquire: entries are values in the map rather than shared objects, so aliasing between map and order list is not modelled there; it is in LruCache, for the same kind of structure.
- `diffCache` shares `costLRU`'s structure and is modelled by it; `fragCache` and `objCache` likewise, and are not repeated.
- TreeEdit.RebuildTree: trees are nested values, so object storage, loading errors and hash addressing are not modelled.
- FileEdit.Branches.ApplyFileChange: commit signatures, times and messages are left out, so a commit here is its tree and its parents.
- IssueRuns.CounterIsExact: a repository at a time; names of labels, assignees and milestones are looked up before the step, titles arrive trimmed, assignees are a set, and an edit that loses a race may wait forever.
- IssueStore.Store.CreatePullTx: a pull's mergeability columns are left out, and its head as later pushes move it is in PullSync.
- The git side of Merge (creating the merge commit and moving the base branch) and concurrent pushes to the base branch during it.
- PullSync.Sink.ReceivePack: one push at a time, every sync succeeding; mergeability recomputation itself and webhook payloads are left out.
- Concurrent polls of one device code; the deletion of an approving user or of the application; incorrect client credentials beyond their answer.
- Highlight.ViewsAgree: lexing is an input, and a lexer that rewrites line ends shows its own text, not the file's; the size cap and the fragment cache are left out.
- ReviewThreads.FoldThreads: threads are values in the map rather than shared objects; listings are taken in key order, which is creation order while the clock does not go back.
- DiffText.ParsePrint: quoted paths, dissimilarity rows, combined diffs and binary patch data are not in the printed form; DiffParse.ParseDiff and DiffCounts take any text.
- Autolinks, markdown rendering and sanitising, gists, keys, teams, releases, labels, milestones and hooks: single-branch services.
