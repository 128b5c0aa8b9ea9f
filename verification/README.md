# Verified model of etcdmonitor

etcdmonitor watches etcd clusters, keeps their metrics, and lets users browse and edit keys. This
project models the parts of it that carry state or arithmetic, and proves what they keep.

| modules | what they model |
|---|---|
| `KeyPath`, `KeyTree`, `EtcdStore`, `KvClient` | keys as paths, the reference key tree, the flat keyspace, and the client that builds the tree from linked entries on the heap |
| `KeyData`, `KeyTreeLaws`, `KeyTreeFlatten`, `KeySubtree`, `KeyStrays`, `KeyAgreement` | what the tree promises about the keyspace: the data on every node, lookup, flattening, deletion, subtrees and exactly when they agree, key-only answers |
| `TabTable`, `TabRepo`, `TabSteps`, `TabWrites`, `TabRuns`, `TabHandlers` | the table of remote tabs, its SQL statements, the requests, probes and marks as one state machine, what each writes and answers, and the classes that take its steps |
| `PromChars`, `PromParser`, `PromRoundTrip`, `PromFiling` | the Prometheus text parser, a printer it undoes, and what each kind of line does |
| `Histogram` | percentiles of cumulative histograms |
| `Sessions`, `Accounts`, `Lockout` | the session store, the login and change-password handlers, the lockout as a rate bound |
| `Downsample` | the range query with its averaging tiers |
| `Rates`, `Scrapes` | counter rates of one scrape and of a whole run of scrapes |
| `CsvExport` | the audit log's CSV export and a reader for it |
| `PanelPrefs` | the merge of a user's panel settings with the defaults |

`Options` holds the shared option type and `Text` the joining of texts. Classes stand where the original updates fields in place
(tree entries, repository, manager, handlers, session store, collector); each method is proved equal
to a function on its state, and the lemmas speak about those functions.

## Where the code differs from what one would expect

Each of these is kept as the code has it and pinned down by a lemma.

- Counter rates: the baseline is replaced by the snapshot before the last one while its time is
  replaced by the current one, so a growing counter is reported too high, at equal intervals twice
  as high (`Scrapes.ReportedRateIsTrueExactly`, `Scrapes.SteadyCounterIsDoubled`).
- When the first fetch of a member fails, the mark it leaves serves as a baseline two scrapes later:
  all failed proposals ever are then reported as the rate of one interval
  (`Scrapes.FailedStartIsABaseline`).
- Asking for the path `/app` also shows `/app2/x`, below `/app` (`KeySubtree.StrayIsSwallowed`). The
  answer agrees with the full tree exactly when every such stray is overwritten by keys that lie
  under the path, as `/app-/x` is by `/app/x` (`KeyAgreement.SubtreeAgreesExactly`,
  `KeyAgreement.ShadowedStrayAgrees`).
- A reorder that names one tab twice is accepted, and can leave two tabs with one sort order
  (`TabTable.DuplicateIdsCollide`, `TabTable.ReorderGivesIdsExactly`).
- The escape of a line feed in a label value is read as the letter n; HELP texts are not unescaped,
  and lose white space at their end (`PromRoundTrip.LabelValueSurvivesExactly`,
  `PromRoundTrip.HelpSurvivesExactly`).
- A sample with labels and a timestamp is dropped, one without labels is kept
  (`PromRoundTrip.TimestampIsReadOverExactly`).
- A sample line, not a comment, whose last closing brace precedes its first opening brace makes the
  parser panic (`PromParser.TextPanicsExactly`, `PromParser.CrossedBracesPanic`).
- Histograms without observations write no percentiles, but the conversion to seconds still divides
  percentiles that are already there (`Histogram.MillisecondsScaleExactly`). The collector never
  gets there: it starts from an empty snapshot and uses each name once
  (internal/collector/collector.go:476, 575-578), so it takes another caller to see it.

## Model

| member | source | states |
|---|---|---|
| KeyPath.SegmentsGrow | internal/kvmanager/client_v3.go:262-308 | extending a key never loses a segment: all but the last stay, the last may grow; the segment count is monotone under string extension |
| KeyTree.PrefixSegmentsInRange | internal/kvmanager/client_v3.go:262-311 | cutting off the query's own segments stays in range for every key a prefix query can return |
| KeyPath.SegmentsOfRender | internal/kvmanager/client_v3.go:274-280 | writing a path with separators and cutting it again gives the path back |
| KeyPath.CanonicalIsRender | internal/kvmanager/client_v3.go:274-318 | a key starts with the separator and has no empty segment exactly when it is the rendering of its own non-empty path |
| KeyPath.UnderKeyIsPathPrefix | internal/kvmanager/client_v3.go:456-465 | on canonical keys the delete's string test "the key or below key + separator" decides path prefix, the bare separator included |
| KeyPath.UnderKeyExact | internal/kvmanager/client_v3.go:456-465 | that test decides path prefix for all canonical keys if and only if the key is empty, the separator or canonical |
| KeyTree.ChildNamesArePassed | internal/kvmanager/client_v3.go:313-326 | a segment names a child at a path exactly when some stored key passes through it |
| KeyTree.ChildNamesDistinct | internal/kvmanager/client_v3.go:315-324 | siblings never repeat a name |
| KvClient.NodeEntry.Mark | internal/kvmanager/client_v3.go:328-336 | the entry takes the key, its revisions and its version, and with values the value and the time left of its lease; in a key-only build those two are not touched |
| KvClient.PathSegments | internal/kvmanager/client_v3.go:274-280 | the loop over the raw parts yields the key's path |
| KvClient.Walk | internal/kvmanager/client_v3.go:313-326 | walking a path creates and links exactly the missing entries; the heap then stands for the keys so far plus the walked path, no entry shared by two paths |
| KvClient.KnownStep | internal/kvmanager/client_v3.go:315-325 | stepping along a child that exists leaves every entry as it is and still represents the extended walk |
| KvClient.AddChild | internal/kvmanager/client_v3.go:316-324 | a missing child is made with the key of its path, linked and appended to the order; every other entry still stands for its path |
| KvClient.InsertKey | internal/kvmanager/client_v3.go:271-337 | one round of the build keeps heap and reference tree equal, with the branches for a bare separator, the query key itself and a key with nothing below the query |
| KvClient.InsertAll | internal/kvmanager/client_v3.go:271-337 | after all rounds the heap represents exactly the answer |
| KvClient.ConvertEntry | internal/kvmanager/client_v3.go:339-371 | converting an entry gives the reference node at its path, all the way down |
| KvClient.ClientV3.GetTree | internal/kvmanager/client_v3.go:206-389 | the built tree equals the reference tree of what the prefix request returns, everything for the bare separator, for every keyspace, key and mode |
| EtcdStore.PrefixReturnsExactly | internal/kvmanager/client_v3.go:216-232 | the request returns each pair whose key has the prefix, as often as it is stored, and no other |
| KeyData.NodeShowsItsKey | internal/kvmanager/client_v3.go:271-353 | whatever was asked for, the node at a path has the key, create and modify revision and version of the last key shown there; with values also its value and the TTL of its lease, 0 without a lease, for a failed lookup and for an expired one; without values both are blank |
| KeyData.DirectoryCarriesNothing | internal/kvmanager/client_v3.go:314-366 | a path that keys only pass through is a directory without value, TTL, revisions or version, named by the segments of the first key passing |
| KeyData.NothingShown | internal/kvmanager/client_v3.go:308-326 | a path no key passes has no node |
| KeyData.TopShowsItsKey | internal/kvmanager/client_v3.go:282-306 | the answer's top node is named by the query and carries the data of the query key, or of a key of nothing but separators, if stored, else none |
| KvClient.ClientV3.GetPath | internal/kvmanager/client_v3.go:196-198 | the tree of the prefix query with values |
| KvClient.ClientV3.Keys | internal/kvmanager/client_v3.go:201-203 | the tree of the whole keyspace without values |
| KvClient.ClientV3.Delete | internal/kvmanager/client_v3.go:441-468 | the two delete requests leave exactly the keys that fail the combined test |
| EtcdStore.DeleteLeavesExactly | internal/kvmanager/client_v3.go:451-465 | a delete removes exactly the pair of the key and, for a directory, every pair below key + separator, for all keys whatever they look like |
| KeyTreeLaws.TreeAgreesWithStore | internal/kvmanager/client_v3.go:271-386 | a path leads to a node exactly when some stored key is at it or below; the node carries key, value, TTL and revisions of the last stored key with those segments, or is a bare directory keyed by the path |
| KeyTreeLaws.FindReaches | internal/kvmanager/client_v3.go:339-378 | looking a path up by node keys reaches the reference node, and only if some key passes |
| KeyTreeLaws.NodeKeyIsPath | internal/kvmanager/client_v3.go:317-345 | the key of a node always cuts into the path of the node |
| KeyTreeFlatten.FlattenGivesStore | internal/kvmanager/client_v3.go:271-386 | on canonical keys, flattening the tree gives exactly the stored keys with their data, each once |
| KeyTreeFlatten.TreeIsTidy | internal/kvmanager/client_v3.go:355-368 | for any keys, every node below the root is a directory exactly when it has children, and every childless node is a stored key |
| KeyTreeFlatten.SiblingsInFirstSeenOrder | internal/kvmanager/client_v3.go:323-378 | for any two siblings there is a moment at which the earlier one had been seen and the later one had not |
| KeyTreeFlatten.DirectoryDeleteIsExact | internal/kvmanager/client_v3.go:441-468 | after a directory delete the rebuilt tree flattens to the old entries minus exactly those at or below the deleted path |
| KeySubtree.SubtreeAgrees | internal/kvmanager/client_v3.go:196-337 | with no stray keys, the children returned for a path equal, node for node and in order, those of the node at the path in the full tree |
| KeySubtree.InPlaceForCanonical | internal/kvmanager/client_v3.go:216-229 | on canonical keys "no stray" is about string prefixes alone: a returned longer key is the query or below query + separator |
| KeySubtree.SubtreeWithTrailingSeparatorAgrees | internal/kvmanager/client_v3.go:196-337 | asked with a trailing separator the subtree always agrees, on every canonical keyspace |
| KeySubtree.StrayIsSwallowed | internal/kvmanager/client_v3.go:216-311 | /app2/x is shown below /app although the full tree has nothing there |
| KeySubtree.SubtreePathsAgreeExactly | internal/kvmanager/client_v3.go:216-311 | a canonical query shows exactly the full tree's paths if and only if each returned longer key has its relative path stored under the query too |
| KeyAgreement.SubtreeAgreesExactly | internal/kvmanager/client_v3.go:196-378 | on every canonical keyspace the children returned for a canonical path equal, node for node and in order, those in the full tree if and only if every stray comes before the keys under the path, passes only nodes of keys stored under it, and brings no new order of siblings |
| KeyAgreement.SubtreeAgreesWithoutStraysExactly | internal/kvmanager/client_v3.go:196-378 | where no stored key continues the path's text with a character before the separator, the subtree agrees if and only if there is no stray |
| KeyAgreement.ShadowedStrayAgrees | internal/kvmanager/client_v3.go:216-336 | /app-/x is picked up for /app and leaves no trace, as /app/x comes later and overwrites its node |
| KeySubtree.KeysOnlyIsErasure | internal/kvmanager/client_v3.go:206-388 | building without values equals building with them and blanking every value and TTL, for every key list |
| TabRepo.SQLiteRepo.ListByUser | internal/kvmanager/tabs/repo.go:104-126 | returns a listing: all of the user's rows, each once, by ascending sort order |
| TabRepo.SQLiteRepo.ListAll | internal/kvmanager/tabs/repo.go:339-359 | returns every row, each exactly once |
| TabRepo.SQLiteRepo.Get | internal/kvmanager/tabs/repo.go:129-145 | finds a row only under its owner |
| TabRepo.SQLiteRepo.CountByUser | internal/kvmanager/tabs/repo.go:327-336 | the number of the user's rows |
| TabRepo.SQLiteRepo.Create | internal/kvmanager/tabs/repo.go:148-197 | inserts under the next sort order; a missing user and a taken id leave the table unchanged |
| TabRepo.SQLiteRepo.UpdateByUser | internal/kvmanager/tabs/repo.go:200-247 | rewrites the given fields of the owner's row, or reports that there is none |
| TabRepo.SQLiteRepo.UpdateOrderByUser | internal/kvmanager/tabs/repo.go:250-293 | the loop inside the transaction renumbers all ids or, on a wrong count or a foreign id, rolls back to the old table |
| TabRepo.SQLiteRepo.UpdateStatus | internal/kvmanager/tabs/repo.go:296-308 | writes the status columns of one row, nothing for a missing one |
| TabRepo.SQLiteRepo.DeleteByUser | internal/kvmanager/tabs/repo.go:311-324 | removes the owner's row, or reports that there is none |
| TabTable.ListingUnique | internal/kvmanager/tabs/repo.go:104-111 | with distinct sort orders a user has exactly one possible listing |
| TabTable.InsertAppends | internal/kvmanager/tabs/repo.go:148-197 | a created tab is appended to its owner's list; other lists stay |
| TabTable.DeleteRemoves | internal/kvmanager/tabs/repo.go:311-324 | a deleted tab leaves its owner's list, order kept; other lists stay |
| TabTable.ReplaceInPlace | internal/kvmanager/tabs/repo.go:200-308 | rewriting a row apart from owner and order keeps every list |
| TabTable.ReorderGivesIdsExactly | internal/kvmanager/tabs/repo.go:250-293 | after a successful reorder the list is the ids sent if and only if no id was sent twice (pigeonhole on count and ownership) |
| TabTable.ReorderKeepsOthers | internal/kvmanager/tabs/repo.go:250-293 | a reorder never touches another user's list |
| TabTable.ReorderKeepsOrdersDistinctExactly | internal/kvmanager/tabs/repo.go:250-293 | a successful reorder keeps sort orders distinct if and only if no left-out row already has an order the request gave to a row |
| TabTable.DuplicateIdsCollide | internal/kvmanager/tabs/repo.go:250-293 | a request naming one id twice succeeds and leaves two rows with one sort order |
| TabWrites.CreateWrites | internal/kvmanager/tabs/handler.go:373-386 | a created tab has the requested name, endpoint and username, the cipher text, status ok, the next sort order and today's dates; no other row changes |
| TabWrites.CreateReplies | internal/kvmanager/tabs/handler.go:268-386 | which check refuses a create: exactly the first that fails, ten tabs being the limit; a refused create writes nothing |
| TabWrites.PatchWrites | internal/kvmanager/tabs/handler.go:436-522 | an accepted patch writes exactly the fields it brings, dates the row, and clears the status when the endpoint moved; all other fields and rows stay |
| TabWrites.PatchReplies | internal/kvmanager/tabs/handler.go:403-522 | which check refuses a patch: exactly the first that fails |
| TabWrites.RefusedPatchWrites | internal/kvmanager/tabs/handler.go:494-512 | a refused patch writes nothing, except that the status is already cleared when encryption fails after the endpoint was accepted |
| TabWrites.DeleteWrites | internal/kvmanager/tabs/handler.go:531-561 | a delete removes the owner's row and nothing else, or is refused with the reason |
| TabWrites.ReorderWrites | internal/kvmanager/tabs/repo.go:268-287 | a reorder gives each named row its last position and the date, and changes no other field and no other row |
| TabWrites.ReorderReplies | internal/kvmanager/tabs/handler.go:632-671 | which check refuses a reorder: exactly the first that fails; a refused reorder writes nothing |
| TabWrites.PingWrites | internal/kvmanager/tabs/manager.go:196-246 | what a probe writes: the check's date always, ok on success, the status kept on a first failure, error with the text of the failure from the second on; and what it counts |
| TabWrites.MarkWrites | internal/kvmanager/tabs/manager.go:267-277 | what a mark writes and when it forgets the failures; the default tab is left alone |
| TabSteps.AcceptedAlike | internal/kvmanager/tabs/handler.go:266-676 | create, delete and reorder are accepted exactly when the plain lists say so, and a refused request changes nothing |
| TabSteps.TableRefinesLists | internal/kvmanager/tabs/handler.go:266-676 | over every run in which no successful reorder repeats an id, the table shows each user the list that appending, removing and replacing plain sequences would give |
| TabSteps.SlotStepShape | internal/kvmanager/tabs/handler.go:494-529 | patches, probes and marks rewrite at most one existing row in its slot |
| TabRuns.NeverMoreThanTen | internal/kvmanager/tabs/handler.go:296-311 | in every reachable state every user has at most ten tabs |
| TabRuns.ListsAreUnambiguous | internal/kvmanager/tabs/handler.go:645-655 | in every reachable state of runs in which no successful reorder repeats an id, sort orders are distinct per user, so any listing is the refined list |
| TabRuns.ProbesKeepTheTable | internal/kvmanager/tabs/manager.go:184-277 | any number of probes and marks add or remove no row and change no field an owner edits |
| TabRuns.StatusSinceOk | internal/kvmanager/tabs/manager.go:221-276 | over every run in which only probes write a tab's status after a success, the status is ok until the second failing probe since then and error from there on |
| TabRuns.CounterCountsFailures | internal/kvmanager/tabs/manager.go:249-277 | in every run the counter is the number of failing probes since the last success |
| TabRuns.ErrorExactlyAtSecondFailure | internal/kvmanager/tabs/manager.go:221-246 | over whole runs a probe turns a tab that is not in error to error if and only if it fails and an earlier probe had failed with no success since |
| TabHandlers.Manager.Ping | internal/kvmanager/tabs/manager.go:184-247 | takes the probe step: lookup, decryption, reset or count, suppressed or stored status |
| TabHandlers.Manager.MarkStatus | internal/kvmanager/tabs/manager.go:267-277 | takes the mark step; the default tab is left alone |
| TabHandlers.TabHandler.HandleCreate | internal/kvmanager/tabs/handler.go:266-399 | takes the create step with every refusal in order |
| TabHandlers.TabHandler.HandlePatch | internal/kvmanager/tabs/handler.go:401-529 | takes the patch step; a changed endpoint is checked first and clears the status before the rest is written |
| TabHandlers.TabHandler.HandleDelete | internal/kvmanager/tabs/handler.go:531-561 | takes the delete step; the default tab is protected |
| TabHandlers.TabHandler.HandleReorder | internal/kvmanager/tabs/handler.go:630-676 | takes the reorder step; the default tab must come first |
| PromParser.ReadValue | internal/collector/parser.go:167-178 | reads a quoted value up to its closing quote, dropping backslashes, and says how far it got |
| PromParser.ParseLabels | internal/collector/parser.go:146-193 | the shrinking loop gives the label map of the text, malformed ends included |
| PromParser.ParseMetricLine | internal/collector/parser.go:116-144 | splits a line at its first opening and last closing brace, or at white space, or panics |
| PromParser.FileSample | internal/collector/parser.go:80-101 | a sample goes to the current family or to one named by its stripped name |
| PromParser.ParsePrometheusText | internal/collector/parser.go:28-105 | the scanning loop lists exactly the families of the text, each once in any order, or stops where a line panics |
| PromParser.CrashesExactly | internal/collector/parser.go:118-127 | a sample line is out of range exactly when its last closing brace precedes its first opening one |
| PromParser.TextPanicsExactly | internal/collector/parser.go:28-127 | parsing a text panics if and only if some line of it, trimmed, not empty and no comment, has its last closing brace before its first opening one |
| PromParser.CrossedBracesPanic | internal/collector/parser.go:120-127 | the text of two braces the wrong way round panics |
| PromParser.CommentsDoNotPanic | internal/collector/parser.go:73-75 | the same braces behind a hash sign give no families and no panic |
| PromFiling.SampleIsFiled | internal/collector/parser.go:77-97 | a sample is appended to the current family if its name begins with that family's, else to the family of its name without a suffix if there is one, else to one of its own name; nothing else changes |
| PromFiling.StripsExactly | internal/collector/parser.go:107-114 | stripping takes off exactly one of the four suffixes, or nothing |
| PromFiling.HelpWrites | internal/collector/parser.go:41-55 | HELP sets the text of a family, makes it when new, and makes it current |
| PromFiling.TypeWrites | internal/collector/parser.go:57-71 | TYPE sets the type of a family, makes it when new, and makes it current |
| PromFiling.HeadsCommute | internal/collector/parser.go:41-71 | HELP and TYPE may come in either order |
| PromFiling.IdleLinesDoNotMatter | internal/collector/parser.go:36-75 | blank lines and other comments may stand anywhere, between samples too |
| PromFiling.NamesKept | internal/collector/parser.go:82-97 | in every text every family is kept under its own name |
| PromFiling.BracedReads | internal/collector/parser.go:120-143 | a line with braces is split at the first opening and the last closing one, and dropped when the rest is no number |
| PromFiling.UnclosedReads | internal/collector/parser.go:121-126 | a line whose brace is never closed is dropped |
| PromFiling.PlainReads | internal/collector/parser.go:130-143 | a line without braces is its first two words, whatever follows, and dropped with fewer or without a number |
| PromFiling.UnfinishedLabels | internal/collector/parser.go:152-192 | labels end where no equals sign or no quote follows; an unclosed value is taken to the end |
| PromFiling.LinesOfText | internal/collector/parser.go:29-36 | the scanner hands out what stands before each line feed and what follows the last, carriage returns at line ends dropped |
| PromRoundTrip.ParseUndoesPrint | internal/collector/parser.go:28-193 | parsing a printed document gives exactly its families and samples in order, for all label values, braces, commas, quotes and backslashes included; HELP texts come back escaped and, like TYPE texts, without the white space at their end |
| PromRoundTrip.RoundTripExactly | internal/collector/parser.go:28-193 | the document comes back as meant if and only if no label value has a line feed, no HELP text has a backslash or a line feed, and no HELP or TYPE text ends in white space |
| PromRoundTrip.LabelValueSurvivesExactly | internal/collector/parser.go:167-178 | reading an escaped value gives the value back if and only if it has no line feed |
| PromRoundTrip.HelpSurvivesExactly | internal/collector/parser.go:36-47 | the parser reads a printed HELP text back if and only if it has no backslash and no line feed and does not end in white space |
| PromRoundTrip.LabelsComeBack | internal/collector/parser.go:146-193 | the printed label list is read back label by label |
| PromRoundTrip.SampleComesBack | internal/collector/parser.go:116-144 | a printed sample line is read back with name, labels and value |
| PromRoundTrip.TimestampIsReadOverExactly | internal/collector/parser.go:120-143 | a sample with a timestamp after its value is read as without it if and only if it has no labels, and is dropped otherwise |
| Histogram.HistogramPercentile | internal/collector/parser.go:263-298 | the loop computes the specified percentile for every bucket list |
| Histogram.PercentileInverts | internal/collector/parser.go:263-298 | where the share lies within the finite buckets the percentile is the least point at which the interpolated distribution reaches it; beyond them it is the largest finite bound |
| Histogram.PercentileInRange | internal/collector/parser.go:263-298 | percentiles lie between 0 and the largest finite bound |
| Histogram.PercentileMonotone | internal/collector/parser.go:263-298 | a larger share never has a smaller percentile |
| Histogram.PercentileScales | internal/collector/parser.go:263-298 | scaling the bounds scales every percentile, whatever the buckets |
| Histogram.CollectBuckets | internal/collector/parser.go:229-247 | exactly one bucket for each sample that has a bound label, in order, with the sample's value as count; +Inf is infinite and an unreadable bound 0 |
| Histogram.ExtractHistogram | internal/collector/parser.go:228-261 | with observations in proper buckets the p50, p90 and p99 entries are the least points at which the interpolated distribution reaches 0.5, 0.9 and 0.99 of the total, or the largest finite bound beyond, in ascending order; the count entry is the total; without observations only the count is written, without buckets nothing, and no other entry changes |
| Histogram.ExtractHistogramMs | internal/collector/parser.go:349-357 | the three entries are a thousandth of those extraction leaves, every other entry is as extraction leaves it |
| Histogram.ScaledSorting | internal/collector/parser.go:250-252 | the sorted form of buckets with scaled bounds is the sorted form scaled |
| Histogram.MillisecondsScaleExactly | internal/collector/parser.go:349-357 | dividing afterwards equals dividing the bounds beforehand if and only if the histogram has observations or only zeros stood in the three places |
| Sessions.MemorySessionStore.Create | internal/auth/auth.go:76-102 | stores a session under a fresh token; a negative timeout is refused, 0 never expires |
| Sessions.MemorySessionStore.Get | internal/auth/auth.go:105-120 | returns a live session; an expired one is deleted and not returned |
| Sessions.MemorySessionStore.Delete | internal/auth/auth.go:123-127 | removes one token |
| Sessions.MemorySessionStore.IsValid | internal/auth/auth.go:130-132 | valid exactly when the lookup returns a session |
| Sessions.MemorySessionStore.Cleanup | internal/auth/auth.go:160-174 | keeps exactly the sessions without an end or with one not yet passed, unchanged |
| Sessions.StepSimulates | internal/auth/auth.go:105-174 | each step of the store, with a lookup split into read, test and delete, keeps it in step with a store that never forgets |
| Sessions.AnswersAsIfNothingForgotten | internal/auth/auth.go:76-174 | under every interleaving all answers equal those of the store that never forgets |
| Sessions.KeptExactly | internal/auth/auth.go:76-127 | that store holds exactly the sessions created and not deleted since |
| Sessions.FoundExactly | internal/auth/auth.go:29-120 | a token is found at a time if and only if its session was created, not deleted since, and has not expired |
| Sessions.CreatedIsFoundExactly | internal/auth/auth.go:29-120 | a session created at a time and not deleted since is found until its timeout has passed and for ever with a timeout of 0, whatever cleanups and lookups happen, and it is the session created |
| Sessions.CleanupIsUnobservable | internal/auth/auth.go:160-174 | leaving every cleanup out of a run gives a possible run with the same answers |
| Accounts.Storage.IncrementFailedAttempts | internal/storage/user_repo.go:122-143 | adds one and returns the new count, nothing for an unknown user |
| Accounts.Storage.SetLocked | internal/storage/user_repo.go:146-163 | writes the lock time, or reports that there is no such user |
| Accounts.Storage.ResetLoginState | internal/storage/user_repo.go:166-184 | clears count and lock, or reports that there is no such user |
| Accounts.Storage.UpdatePassword | internal/storage/user_repo.go:94-118 | writes hash and flag and clears count and lock, or reports that there is no such user |
| Accounts.Storage.UpdateLastLogin | internal/storage/user_repo.go:187-204 | writes the login time, or reports that there is no such user |
| Accounts.AuthHandler.HandleFailedAttempt | internal/auth/handler.go:117-137 | counts, and from the threshold on locks for the duration, with the defaults for senseless settings |
| Accounts.AuthHandler.HandleLogin | internal/auth/handler.go:140-257 | the whole decision: reply, account table and the one session handed out |
| Accounts.AuthHandler.HandleChangePassword | internal/auth/handler.go:260-343 | the whole decision: reply and account table; policy refusals are not counted |
| Accounts.ComparisonExactly | internal/auth/handler.go:149-187 | a password is compared if and only if the account exists and its lock, if any, has run out, and counts as wrong if and only if it does not match the stored hash |
| Accounts.LoginReplies | internal/auth/handler.go:149-256 | exactly when a login is told what, and every field of the session it hands out |
| Accounts.LoginWrites | internal/auth/handler.go:117-197 | every field a login changes: failures, lock and login date cleared on success, one more failure and perhaps a lock when wrong, nothing otherwise; 5 and 900 as stand-ins |
| Accounts.ChangeReplies | internal/auth/handler.go:269-343 | exactly when a change of password is told what; 8 as stand-in for the least length |
| Accounts.ChangeWrites | internal/auth/handler.go:286-324 | every field a change of password changes, accepted, wrong or refused |
| Accounts.AdminWrites | cmd/etcdmonitor/admin_cli.go:60-116 | every field the administrator's reset and unlock change |
| Lockout.LockedExactlyFromThreshold | internal/auth/handler.go:117-137 | in every run an account carries a lock time exactly when its failures have reached the threshold |
| Lockout.LockHoldsOut | internal/auth/handler.go:158-284 | over every run of logins and changes within an account's lock the account stays exactly as it is, and none of them gets as far as comparing a password |
| Lockout.CountAndLock | internal/auth/handler.go:117-137 | without a reset the count is the number of wrong comparisons, and from the threshold on the lock outlasts the duration from the last of them |
| Lockout.WrongPasswordsAreRateLimited | internal/auth/handler.go:158-296 | with threshold T and duration D, in any run without a reset the k-th wrong comparison, logins and changes together, comes at least (k - T) * D seconds after the T-th |
| Lockout.AdmittedExactly | internal/auth/handler.go:117-196 | in any run without a reset a login finds the account locked if and only if the wrong passwords have reached the threshold and the duration since the last of them is not over; otherwise the right password hands out a session and clears failures and lock |
| Lockout.LockRunsOut | internal/auth/handler.go:127-196 | after the wrong password that reaches the threshold, the account left alone, the right one is refused until later + duration and accepted from then on |
| Downsample.SelectRaw | internal/storage/storage.go:366-374 | the raw statement: every selected row, by ascending time |
| Downsample.SelectAverages | internal/storage/storage.go:375-385 | the averaging statement: one row for each bucket and metric that has a value, with its average, by ascending bucket |
| Downsample.QueryRange | internal/storage/storage.go:334-408 | spelled out on the table: only asked metrics are shown; up to 30 min a metric's points are exactly the member's rows in the window by time, up to 2 h, 12 h, 48 h and beyond they are means over 30, 120, 300 and 600 s of exactly the member's rows in each span, ascending, every row of the window covered; no names give no result |
| Downsample.SelectedExactly | internal/storage/storage.go:369-381 | a row is selected if and only if it is the member's, of an asked metric and in the window, as often as the table holds it |
| Downsample.RowInExactlyOneBucket | internal/storage/storage.go:376-384 | every selected raw row falls in exactly one bucket of its metric |
| Downsample.DownsamplingConserves | internal/storage/storage.go:376-405 | bucket times ascend strictly and counts times averages add up to the raw sum |
| Downsample.TableIsConserved | internal/storage/storage.go:376-405 | counts times averages of an asked metric add up to the sum of the member's rows in the window |
| Downsample.TierSizes | internal/storage/storage.go:339-385 | at most 241, 361 and 577 points per metric in the 30 s, 120 s and 300 s tiers |
| Rates.ComputePrefixRates | internal/collector/collector.go:401-411 | whatever order the map is visited in, and whether or not keys inserted meanwhile are visited, the result is one and the same map |
| Rates.ComputeRates | internal/collector/collector.go:389-412 | both loops together give the specified snapshot |
| Rates.PrefixRatesExactly | internal/collector/collector.go:401-411 | exactly the keys that begin with a prefix, do not end in _rate and have not fallen get a rate, their growth over the elapsed time, never negative |
| Rates.PrefixRatesOnlyRates | internal/collector/collector.go:401-411 | the loop changes nothing else and adds no rate of a rate |
| Rates.ExactRatesExactly | internal/collector/collector.go:393-399 | exactly the listed keys that have not fallen get their growth over the elapsed time as rate; counters stay |
| Rates.RatesExactly | internal/collector/collector.go:389-412 | after both loops exactly the keys that are listed or begin with a prefix, and have not fallen, have their growth over the elapsed time as rate; counters stay |
| Scrapes.Collector.RecordScrape | internal/collector/collector.go:647-680 | derives the rates and shifts the three maps as written |
| Scrapes.Collector.RecordFailure | internal/collector/collector.go:433-441 | a failed fetch only marks the member as down in its last snapshot |
| Scrapes.BaselineLags | internal/collector/collector.go:674-678 | over every run the remembered baseline is the last but one reading while the remembered time is that of the last |
| Scrapes.ReportedRate | internal/collector/collector.go:652-680 | from the third reading on the reported rate is the growth over two intervals divided by the length of the last one |
| Scrapes.ReportedRateIsTrueExactly | internal/collector/collector.go:652-680 | in every run that rate is the true mean rate since the baseline was read if and only if the counter has not moved; otherwise it is too high by the ratio of the spans |
| Scrapes.SteadyCounterIsDoubled | internal/collector/collector.go:652-680 | read at equal intervals, a counter growing at a steady rate is reported at twice that rate |
| Scrapes.NamedRatesExactly | internal/collector/collector.go:647-667 | the failed-proposal rate and the CPU percentage are the growth per second, times 100 for the latter, of counters that have not fallen, a missing one counting as 0; without a baseline, or when no time has passed, a scrape adds nothing |
| Scrapes.FailedStartIsABaseline | internal/collector/collector.go:433-440 | after a failed first fetch the second scrape reports the whole count of failed proposals as one interval's rate |
| CsvExport.ExportRow | web/ops.js:729-749 | one record: six fields, escaped and joined |
| CsvExport.ExportCsv | web/ops.js:719-752 | byte order mark, header and one record per entry; nothing for no entries |
| CsvExport.ReadField | web/ops.js:734-741 | an RFC 4180 reader gives any escaped field back |
| CsvExport.ReadRow | web/ops.js:742-749 | the reader gives any joined record back |
| CsvExport.ExportReadsBack | web/ops.js:726-752 | after the mark the text reads as the six column names and, per entry, time, user, operation, target, outcome (success or failed, with its reason) and duration, commas, quotes and line feeds included |
| PanelPrefs.MergeWithDefaults | internal/prefs/prefs.go:182-208 | the loops compute the kept user items followed by the missing defaults, numbered onward |
| PanelPrefs.MergedHoldsEachOnce | internal/prefs/prefs.go:182-208 | the result holds each default panel id exactly once and no other |
| PanelPrefs.KeptInOrder | internal/prefs/prefs.go:186-192 | what is kept is exactly the first occurrences of known panels, in user order |
| PanelPrefs.MissingInOrder | internal/prefs/prefs.go:194-205 | what is appended is exactly the default panels the user lacks, in default order, with the default visibility, numbered on from what is kept |
| PanelPrefs.MergeIsIdempotent | internal/prefs/prefs.go:182-208 | merging a merged list changes nothing |

## Left out

- KeyPath.Split: the separator is one character; with a longer one the segment count can shrink when a key grows, and the cut at `segments[prefixSegCount:]` is then not known to be in range.
- KeyAgreement.SubtreeAgreesExactly: canonical keyspaces and paths; for other keys KeySubtree.SubtreeAgrees gives one direction.
- KvClient.ClientV3.GetTree: the time left of a lease comes from one map of answers, so an answer that changes between two lookups is not captured; a failed request to etcd returns its error and no tree.
- TabSteps.TableRefinesLists: runs whose successful reorders name no tab twice; the exact effect of the others is in TabTable.ReorderGivesIdsExactly and TabTable.ReorderKeepsOrdersDistinctExactly.
- TabHandlers.Manager.Ping: one step, as are requests and marks; a probe that reads a row, waits and writes the old status back over a newer one is not modelled.
- TabHandlers.TabHandler.HandleCreate: scheme, connection test, member comparison, default name and encryption enter as results; binding of JSON and audit lines are left out, and so is the manual connection test, which changes nothing.
- TabRepo.SQLiteRepo.Create: identifiers are parameters; a taken one is refused by the primary key.
- Lockout.WrongPasswordsAreRateLimited: requests one at a time; two failures counted concurrently are not modelled.
- Accounts.AuthHandler.HandleLogin: password hashing is an arbitrary match predicate, tokens are parameters; cookies, audit lines and the self-deleting initial password file are left out.
- Accounts.AuthHandler.HandleChangePassword: the length of a password is counted in characters, not in UTF-8 bytes.
- PromParser.ParsePrometheusText: numbers are read by a parameter, text is a sequence of characters, and the line length limit of the scanner is left out.
- PromRoundTrip.RoundTripExactly: label names distinct within a sample, as the format asks.
- PromRoundTrip.ParseUndoesPrint: documents whose families start with HELP and TYPE, have distinct names, no line feed in the type, and sample names that extend the family name; timestamps only in PromRoundTrip.TimestampIsReadOverExactly.
- Histogram.PercentileInverts: reals for floating point, so no rounding, NaN or negative infinity; one bucket per bound.
- Histogram.ExtractHistogram: buckets with equal bounds may be sorted either way, as the sort is not stable.
- Downsample.QueryRange: for windows that begin before 1970 the means are pinned by Downsample.RowInExactlyOneBucket and Downsample.DownsamplingConserves only, as the bucket around 1970 is twice as wide; the table is in memory and the two statements are methods held to their SQL meaning; a row that cannot be scanned does not occur.
- Scrapes.Collector.RecordScrape: the two rates with names of their own and the key lists are parameters; raft and lease entries added to a snapshot afterwards are left out, they are no rated counters.
- CsvExport.ExportCsv: time texts are parameters and durations are plain numbers; records end in a line feed, and a carriage return is not quoted by the code.
- PanelPrefs.MergeWithDefaults: the default panels are a parameter with distinct ids.
- Endpoint normalisation, member discovery, health checks, TLS, classification of connection errors, configuration defaults, logging, charts and pages: easy or bounded, or outside the logic modelled here.
- Database, network and file errors other than those named above.
