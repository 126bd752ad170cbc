# FindBugs cloud store and refresh queue, in Dafny

This project models two parts of FindBugs and proves properties about them.

**`DBCloud`** is the client side of the FindBugs cloud, where findings are
shared through a database. The model covers:

- the records kept per finding (`BugData`), and the maps from content hash
  and from database id to records;
- the read-side queries on a record's designations (evaluations);
- the write-behind queue of updates, and one step of the worker that
  drains it;
- filing a bug, annotating a finding, and the status line;
- the bug-component table and the URL-length ladder of `getBugLink`;
- `bugsPopulated`, the pass that merges a freshly loaded bug collection
  with the rows read from the database.

**`RefreshJob`** is the bug explorer's queue of resource deltas. It takes
each delta once and drains them REMOVED first.

The modules:

- `JavaLong` (java_long.dfy): Java `long` arithmetic, which wraps around.
- `Designations` (designations.dfy): a record's designation history and
  the queries over it.
- `Filing` (filing.dfy): filing status, `bugAlreadyFiled`,
  `Integer.parseInt` and the URL ladder.
- `Components` (components.dfy): the bug-component table.
- `Store` (store.dfy): the `DBCloud` class itself.
- `Refresh` (refresh_job.dfy): the refresh job.

Mutable state is modelled as classes:

- `BugData`, with its fields updated in place;
- the `DBCloud` class, with `instanceMap`, `idMap`, the queue and the
  error state;
- the worker's counter and connection flag (`SyncTask`);
- the refresh job's pending list.

The loops of `bugsPopulated` and `loadBugComponents` are `while` loops.
Each is proved against a specification, and the properties are proved as
lemmas about it:

- the attach loop against `SyncedHashes` and `GrownFrom` (the keys grow by
  the hashes of the findings not skipped, with fresh records);
- the issue loop against `Loaded`, `LastBinder` and `BindingsAfter` (each
  record holds the values of the last row that bound a new id to it, and
  each new id goes to the record of the first row naming it);
- the evaluation loop against `AttachEvaluations`;
- the reconciling loop against `Reconcile`;
- the component-file loop against `ComponentsAfter`.

Inputs from outside become parameters:

- The database is given as sequences of issue rows and evaluation rows.
- A generated key is an optional parameter.
- Whether a connection can be opened is a boolean.
- The clock is a `now` parameter.
- `BugDesignation.compareTo` is a comparison function fixed with the cloud.
- `isDirty` is a boolean parameter.
- The iteration order of the component `HashMap` is the order of the
  entry sequence passed in.

Two behaviours are modelled as the code has them, not as the class
comments suggest:

- `getStatusMsg` clears an error message while it is younger than two
  minutes and shows it only after that.
- `StoreNewBug.execute` marks a record as in the database even when no key
  came back.

## Model

| member | source | states |
|---|---|---|
| JavaLong.Wrap | findbugs/src/java/edu/umd/cs/findbugs/cloud/DBCloud.java:1134 | the result is a `long` congruent to the mathematical value modulo 2^64, and equal to it when it is in range, as Java's `long` subtraction and addition give |
| JavaLong.SubNonNegative | findbugs/src/java/edu/umd/cs/findbugs/cloud/DBCloud.java:1134 | subtracting an earlier non-negative time from a later one does not wrap |
| JavaLong.AddWrapsNegative | findbugs/src/java/edu/umd/cs/findbugs/cloud/DBCloud.java:1185 | a `long` sum past LONG_MAX wraps to a negative value |
| Designations.UserDesignation | findbugs/src/java/edu/umd/cs/findbugs/cloud/DBCloud.java:110-115 | None exactly when no designation names the user; otherwise the first designation of that user in set order |
| Designations.HasVoted | findbugs/src/java/edu/umd/cs/findbugs/cloud/DBCloud.java:154-159 | true exactly when some designation names the user, that is exactly when `UserDesignation` finds one |
| Designations.NonnullUserDesignation | findbugs/src/java/edu/umd/cs/findbugs/cloud/DBCloud.java:135-141 | the user's own designation when there is one; otherwise a new UNCLASSIFIED one with empty text, by the user, stamped with the clock reading |
| Designations.Users | findbugs/src/java/edu/umd/cs/findbugs/cloud/DBCloud.java:117-120 | the users (null included) of all designations, and nothing else |
| Designations.Reviewers | findbugs/src/java/edu/umd/cs/findbugs/cloud/DBCloud.java:117-124 | a name is a reviewer iff some designation has it as user and it is not ""; null is never one |
| Designations.ClaimedFrom | findbugs/src/java/edu/umd/cs/findbugs/cloud/DBCloud.java:125-134 | the loop of `isClaimed` from a set of seen users returns true iff some designation is the first of its user, its user was not seen, and its key is I_WILL_FIX |
| Designations.IsClaimed | findbugs/src/java/edu/umd/cs/findbugs/cloud/DBCloud.java:125-134 | a finding is claimed iff the first designation of some user, in set order, has key I_WILL_FIX; later designations of a user are never consulted |
| Designations.ClaimAfterInsert | findbugs/src/java/edu/umd/cs/findbugs/cloud/DBCloud.java:127-129 | an I_WILL_FIX designation placed before any other designation of its user makes the finding claimed |
| Designations.CanSeeCommentsByOthers | findbugs/src/java/edu/umd/cs/findbugs/cloud/DBCloud.java:145-152 | false in SECRET, true in COMMUNAL, and in VOTING true iff the user has some designation |
| Designations.ReportEntries | findbugs/src/java/edu/umd/cs/findbugs/cloud/DBCloud.java:1064-1067 | every listed designation is visible to the viewer; a designation is listed iff it is not the primary one and the viewer may see others' comments or wrote it |
| Designations.VotingHidesAllUntilVoted | findbugs/src/java/edu/umd/cs/findbugs/cloud/DBCloud.java:1064-1067 | in VOTING mode a viewer who has not voted is shown no evaluation in the cloud report |
| Designations.NothingOwnNothingListed | findbugs/src/java/edu/umd/cs/findbugs/cloud/DBCloud.java:1065-1067 | a viewer who may not see others and wrote nothing is listed nothing |
| Designations.VotingShowsAllOnceVoted | findbugs/src/java/edu/umd/cs/findbugs/cloud/DBCloud.java:1064-1067 | in VOTING mode, once the viewer has voted, every non-primary designation is listed |
| Designations.SecretListsOnlyOwn | findbugs/src/java/edu/umd/cs/findbugs/cloud/DBCloud.java:1064-1067 | in SECRET mode only the viewer's own designations are listed |
| Designations.InsertPosition | findbugs/src/java/edu/umd/cs/findbugs/cloud/DBCloud.java:282 | the search of `TreeSet.add`: no place only when some element compares equal; a place has every element before it comparing smaller and the one at it larger |
| Designations.StoreAt | findbugs/src/java/edu/umd/cs/findbugs/cloud/DBCloud.java:282 | the set is kept when there is no place; otherwise the element is at that place and the multiset grows by exactly it |
| Designations.Insert | findbugs/src/java/edu/umd/cs/findbugs/cloud/DBCloud.java:282 | `TreeSet.add` keeps the set or adds exactly the new designation, and adds it whenever no element compares equal |
| Designations.PlacedMeansAbsent | findbugs/src/java/edu/umd/cs/findbugs/cloud/DBCloud.java:282 | in a set sorted by a comparator, the place found for a designation has only larger elements from it on, so nothing compares equal |
| Designations.InsertKeepsSorted | findbugs/src/java/edu/umd/cs/findbugs/cloud/DBCloud.java:282 | on a set sorted by a comparator, `TreeSet.add` leaves the set unchanged iff some element compares equal, and the result is sorted |
| Filing.ParseInt | findbugs/src/java/edu/umd/cs/findbugs/cloud/DBCloud.java:1139-1145 | a parsed value is an `int`; the text after at most one leading sign is a non-empty run of digits and the value is their decimal value, negated after '-'; every such text whose magnitude fits in an `int` parses |
| Filing.NatToString | findbugs/src/java/edu/umd/cs/findbugs/cloud/DBCloud.java:1140 | the decimal text of a number is non-empty and all digits |
| Filing.DigitsOfNatToString | findbugs/src/java/edu/umd/cs/findbugs/cloud/DBCloud.java:1140 | the digits of a number read back as that number |
| Filing.ParseIntRoundTrip | findbugs/src/java/edu/umd/cs/findbugs/cloud/DBCloud.java:1139-1141 | every `int` written in decimal parses back to itself |
| Filing.NonDigitRejects | findbugs/src/java/edu/umd/cs/findbugs/cloud/DBCloud.java:1139-1145 | a non-digit after the first character makes `parseInt` throw |
| Filing.BugLinkStatus | findbugs/src/java/edu/umd/cs/findbugs/cloud/DBCloud.java:1126-1148 | the decision table: FILE_BUG iff unfiled, or pending by someone else and aged out; FILE_AGAIN iff pending by the viewer; BUG_PENDING iff pending by someone else within two hours; VIEW_BUG iff another link that parses as an `int`; NA iff another link that does not |
| Filing.StatusAfterFiling | findbugs/src/java/edu/umd/cs/findbugs/cloud/DBCloud.java:1131-1137 | after filing, the filer sees FILE_AGAIN at any time; others see BUG_PENDING for two hours and FILE_BUG after that |
| Filing.AgedOutStaysAgedOut | findbugs/src/java/edu/umd/cs/findbugs/cloud/DBCloud.java:1134-1135 | once a pending filing by someone else has aged out to FILE_BUG it stays FILE_BUG later |
| Filing.TrackerNumberIsViewable | findbugs/src/java/edu/umd/cs/findbugs/cloud/DBCloud.java:1139-1141 | a link holding any non-negative `int` in decimal is VIEW_BUG for every viewer and time |
| Filing.TextLinkIsNotViewable | findbugs/src/java/edu/umd/cs/findbugs/cloud/DBCloud.java:1139-1147 | a link other than the markers with a non-digit after its first character shows NA |
| Filing.AlreadyFiled | findbugs/src/java/edu/umd/cs/findbugs/cloud/DBCloud.java:681-687 | illegal exactly when the record is not in the database |
| Filing.AlreadyFiledAgreesWithStatus | findbugs/src/java/edu/umd/cs/findbugs/cloud/DBCloud.java:681-687 | for a record in the database and a link other than "", already filed iff the status is VIEW_BUG or NA |
| Filing.EmptyLinkCountsAsFiled | findbugs/src/java/edu/umd/cs/findbugs/cloud/DBCloud.java:1129 | an empty link is offered for filing by the status, yet counts as filed for `bugAlreadyFiled` |
| Filing.ChooseBugLink | findbugs/src/java/edu/umd/cs/findbugs/cloud/DBCloud.java:1014-1032 | the chosen URL length is that of the chosen report, a supplemental message comes exactly with the abridged report, and a warning exactly when the length is over 1500 |
| Filing.LadderPicksFirstFit | findbugs/src/java/edu/umd/cs/findbugs/cloud/DBCloud.java:1015-1020 | the full report is used iff it fits in 1999 characters, the shorter one iff only it fits, and the URL is too long only when all three are |
| Components.Scan | findbugs/src/java/edu/umd/cs/findbugs/cloud/DBCloud.java:423-431 | the loop of `getBugComponent`: once a result is found one is kept, and a new result is the component of an entry whose key is a prefix of the class name and longer than the best so far |
| Components.ScanFinds | findbugs/src/java/edu/umd/cs/findbugs/cloud/DBCloud.java:423-431 | the loop over the entries ends with nothing when no key is a prefix, and otherwise with the value of the longest matching key, the first of that length |
| Components.GetBugComponent | findbugs/src/java/edu/umd/cs/findbugs/cloud/DBCloud.java:421-433 | None iff no key is a prefix of the class name; otherwise the component of a longest matching key, earlier keys of that length winning |
| Components.LookupOverTable | findbugs/src/java/edu/umd/cs/findbugs/cloud/DBCloud.java:421-433 | over entries listing the loaded table: None iff no key of the table is a prefix, and otherwise the component of the longest prefix key, whatever the iteration order |
| Components.IndexOf | findbugs/src/java/edu/umd/cs/findbugs/cloud/DBCloud.java:444 | -1 iff the character is absent; otherwise the index of its first occurrence |
| Components.ParseComponentLine | findbugs/src/java/edu/umd/cs/findbugs/cloud/DBCloud.java:442-448 | nothing for a blank line; a line without a space maps the empty prefix to the whole line; otherwise the text after the first space is the prefix and the text before it the component |
| Components.ParseComponentLineRoundTrip | findbugs/src/java/edu/umd/cs/findbugs/cloud/DBCloud.java:444-448 | a line written as "component prefix", with a non-blank component free of spaces, reads back as that pair |
| Components.ReadLine | findbugs/src/java/edu/umd/cs/findbugs/cloud/DBCloud.java:442-448 | the table gains exactly the prefix the line defines, with its component, and keeps every other entry |
| Components.KeysAfterReading | findbugs/src/java/edu/umd/cs/findbugs/cloud/DBCloud.java:439-450 | after reading the file a prefix is in the table iff it was before or some non-blank line defines it |
| Components.LastDefining | findbugs/src/java/edu/umd/cs/findbugs/cloud/DBCloud.java:439-450 | the index of the last line defining a prefix, no later line defining it |
| Components.LastLineWins | findbugs/src/java/edu/umd/cs/findbugs/cloud/DBCloud.java:439-450 | each prefix ends up with the component of the last line that defines it, or keeps its earlier one when none does |
| Store.BugData.constructor | findbugs/src/java/edu/umd/cs/findbugs/cloud/DBCloud.java:90-102 | a new record has the hash and every field at its Java default |
| Store.SyncTask.constructor | findbugs/src/java/edu/umd/cs/findbugs/cloud/DBCloud.java:516-520 | the worker starts with no updates handled and no connection |
| Store.SyncTask.EstablishConnection | findbugs/src/java/edu/umd/cs/findbugs/cloud/DBCloud.java:522-526 | an open connection is kept; otherwise one is opened when the database is available |
| Store.SyncTask.CloseConnection | findbugs/src/java/edu/umd/cs/findbugs/cloud/DBCloud.java:528-533 | afterwards no connection is open, whether one was or not |
| Store.WithDefaults | findbugs/src/java/edu/umd/cs/findbugs/cloud/DBCloud.java:569-572 | key and time are kept; a null user becomes the current user and null text becomes ""; set values are kept |
| Store.Evaluated | findbugs/src/java/edu/umd/cs/findbugs/cloud/DBCloud.java:564-572 | the set is unchanged or grows by the designation with its defaults, keeping every old element; it grows whenever nothing compares equal to the designation as given |
| Store.EvaluatedKeepsAttribution | findbugs/src/java/edu/umd/cs/findbugs/cloud/DBCloud.java:568-572 | designations stored by the worker always name a user and carry text |
| Store.EvaluatedDropsOnlyDuplicates | findbugs/src/java/edu/umd/cs/findbugs/cloud/DBCloud.java:564-572 | on a sorted set the worker's evaluation is dropped iff some element compares equal to the designation as given |
| Store.DBCloud.constructor | findbugs/src/java/edu/umd/cs/findbugs/cloud/DBCloud.java:162-164 | a new cloud has no records, no bindings, an empty queue and a worker that has not connected |
| Store.DBCloud.GetBugData | findbugs/src/java/edu/umd/cs/findbugs/cloud/DBCloud.java:169-177 | the record of the hash; the map gains at most that key, with a fresh record whose fields are all at their defaults, and no other entry changes |
| Store.DBCloud.GetBugDataFor | findbugs/src/java/edu/umd/cs/findbugs/cloud/DBCloud.java:179-184 | as `GetBugData`, and the finding is added to the record's bugs unless already there; no other record's bugs change |
| Store.DBCloud.GetFirstSeen | findbugs/src/java/edu/umd/cs/findbugs/cloud/DBCloud.java:761-763 | the first-seen time of the finding's record; the map changes only as the lookup `GetBugDataFor` states |
| Store.DBCloud.LoadDatabaseInfo | findbugs/src/java/edu/umd/cs/findbugs/cloud/DBCloud.java:186-206 | unknown hash or already bound id changes nothing; otherwise the row's values are copied, a missing filing time becomes LONG_MAX, the record is in the database and the id is bound to it; no other record changes |
| Store.DBCloud.GetReviewers | findbugs/src/java/edu/umd/cs/findbugs/cloud/DBCloud.java:971-976 | the reviewers of the finding's record, after the lookup `GetBugDataFor` states |
| Store.DBCloud.IsClaimedFor | findbugs/src/java/edu/umd/cs/findbugs/cloud/DBCloud.java:977-982 | claimed iff some user's first designation has key I_WILL_FIX, after the lookup `GetBugDataFor` states |
| Store.DBCloud.StoreNewBug | findbugs/src/java/edu/umd/cs/findbugs/cloud/DBCloud.java:485-489 | exactly one insertion of the finding is appended to the queue |
| Store.DBCloud.StoreFirstSeen | findbugs/src/java/edu/umd/cs/findbugs/cloud/DBCloud.java:491-500 | exactly one first-seen update of the record is appended |
| Store.DBCloud.StoreUserAnnotation | findbugs/src/java/edu/umd/cs/findbugs/cloud/DBCloud.java:501-505 | exactly one annotation update is appended |
| Store.DBCloud.NewBug | findbugs/src/java/edu/umd/cs/findbugs/cloud/DBCloud.java:599-631 | nothing for a record in the database; otherwise the record is in the database iff a key came back, and then takes it as id; no other record changes |
| Store.DBCloud.ExecuteStoreNewBug | findbugs/src/java/edu/umd/cs/findbugs/cloud/DBCloud.java:711-718 | as `StoredNewBug`: the map gains at most the finding's hash and keeps every old entry; a record already in the database is unchanged; otherwise it is in the database afterwards, even when no key came back, and takes the generated key as id when one did; its designations are kept; no other record changes |
| Store.DBCloud.NewEvaluation | findbugs/src/java/edu/umd/cs/findbugs/cloud/DBCloud.java:564-572 | nothing for a record not in the database; otherwise the designation goes into the set with its defaults |
| Store.DBCloud.Execute | findbugs/src/java/edu/umd/cs/findbugs/cloud/DBCloud.java:544 | as `Executed`: an insertion leaves what `StoredNewBug` states (no-op in the database, generated key as id, at most its hash added); an annotation updates only its record's set, and only when that record is in the database; other updates change no record |
| Store.DBCloud.ProcessNext | findbugs/src/java/edu/umd/cs/findbugs/cloud/DBCloud.java:535-563 | a stopped worker does nothing; an empty queue closes the connection and changes no record; else the head is removed, and without a connection the worker stops, while with one the head takes effect as `Executed` states, the counter goes up by one, the total of handled and waiting updates is kept, and the status is published on every hundredth update and when the queue runs empty |
| Store.DBCloud.TakeHead | findbugs/src/java/edu/umd/cs/findbugs/cloud/DBCloud.java:538-547 | with an update waiting: it is taken off the queue; without a connection the worker stops and no record changes; with one the update takes effect as `Executed` states and is counted, the status being published on every hundredth update and when the queue runs empty |
| Store.DBCloud.RunUpdate | findbugs/src/java/edu/umd/cs/findbugs/cloud/DBCloud.java:544-547 | the update takes effect as `Executed` states, the counter goes up by one, and the status is published exactly on every hundredth update and when the queue is empty |
| Store.DBCloud.BugAlreadyFiled | findbugs/src/java/edu/umd/cs/findbugs/cloud/DBCloud.java:681-687 | illegal for a record not in the database; an unknown hash gains exactly one fresh record, not in the database, so the answer is then illegal, and no other entry changes; otherwise whether its link is a filed one |
| Store.DBCloud.NewFileBug | findbugs/src/java/edu/umd/cs/findbugs/cloud/DBCloud.java:690-697 | illegal iff the record is not in the database; an unknown hash gains exactly one fresh record and is illegal, no other entry changing; otherwise the record is pending, filed by the current user at the given time, the FileBug update for it is returned, and no other record changes |
| Store.DBCloud.BugFiled | findbugs/src/java/edu/umd/cs/findbugs/cloud/DBCloud.java:1152-1164 | illegal iff not in the database, so always for an unknown hash, which gains exactly one fresh record and nothing else; an already filed finding queues nothing; otherwise exactly one FileBug is queued and the filer then sees FILE_AGAIN at every time; no other record changes |
| Store.DBCloud.SetUserDesignation | findbugs/src/java/edu/umd/cs/findbugs/cloud/DBCloud.java:793-810 | no stored designation changes; no own designation and UNCLASSIFIED, or a clean one, queues nothing; otherwise exactly the own designation (or a new one) with the new key, stamped, is queued; the map changes only as the lookup `GetBugDataFor` states |
| Store.DBCloud.SetUserEvaluation | findbugs/src/java/edu/umd/cs/findbugs/cloud/DBCloud.java:814-829 | as `SetUserDesignation`, for the annotation text, an empty text creating nothing; the map changes only as the lookup `GetBugDataFor` states |
| Store.DBCloud.SetUserTimestamp | findbugs/src/java/edu/umd/cs/findbugs/cloud/DBCloud.java:833-841 | no stored designation changes; the own designation, or a new UNCLASSIFIED one, stamped with the time, is always queued; the map changes only as the lookup `GetBugDataFor` states |
| Store.DBCloud.StatusMsg0 | findbugs/src/java/edu/umd/cs/findbugs/cloud/DBCloud.java:1193-1201 | the handled count adds the updates handled in bulk to those the worker executed; the remaining count is the queue length, zero iff the queue is empty |
| Store.DBCloud.SetErrorMsg | findbugs/src/java/edu/umd/cs/findbugs/cloud/DBCloud.java:1171-1175 | the message and its time are set |
| Store.DBCloud.ClearErrorMsg | findbugs/src/java/edu/umd/cs/findbugs/cloud/DBCloud.java:1177-1180 | no message is set |
| Store.DBCloud.GetStatusMsg | findbugs/src/java/edu/umd/cs/findbugs/cloud/DBCloud.java:1183-1191 | the counts always; the message is shown iff set and at least two minutes old, and is cleared iff set and younger |
| Store.FreshErrorIsDropped | findbugs/src/java/edu/umd/cs/findbugs/cloud/DBCloud.java:1185-1186 | an error younger than two minutes is cleared without being shown |
| Store.OldErrorIsShown | findbugs/src/java/edu/umd/cs/findbugs/cloud/DBCloud.java:1185-1188 | an error two minutes old or older is shown, now and later |
| Store.DBCloud.GetBugLink | findbugs/src/java/edu/umd/cs/findbugs/cloud/DBCloud.java:987-1040 | VIEW_BUG gives a view link when a view pattern is set; FILE_BUG and FILE_AGAIN give the ladder's entry link when an entry pattern is set; pending or unparsable gives none; an over-long link sets the error message; the map changes only as the lookup `GetBugDataFor` states |
| Store.DBCloud.EntryLinkFor | findbugs/src/java/edu/umd/cs/findbugs/cloud/DBCloud.java:1007-1033 | the ladder's choice when an entry pattern is set, with the error message set exactly when the link is over 1500 characters |
| Store.DBCloud.LoadBugComponents | findbugs/src/java/edu/umd/cs/findbugs/cloud/DBCloud.java:434-456 | the table after the file is the table the lines define one after another |
| Store.DBCloud.AttachBug | findbugs/src/java/edu/umd/cs/findbugs/cloud/DBCloud.java:241-243 | the finding is attached to the record of its hash; the map gains at most that key and earlier findings stay attached |
| Store.DBCloud.AttachTurn | findbugs/src/java/edu/umd/cs/findbugs/cloud/DBCloud.java:241-243 | one finding more: the keys are the old ones plus the hashes of the findings so far not skipped, and every record added is fresh, not in the database and without designations |
| Store.DBCloud.AttachLoop | findbugs/src/java/edu/umd/cs/findbugs/cloud/DBCloud.java:241-243 | after all findings the keys grow by exactly the hashes of those not skipped, each new record fresh, not in the database and without designations, and every such finding is attached |
| Store.DBCloud.AttachBugs | findbugs/src/java/edu/umd/cs/findbugs/cloud/DBCloud.java:241-243 | every finding not skipped is attached to the record of its hash; the keys grow by exactly those hashes, each new record fresh, not in the database and without designations; old entries are unchanged, so the hashes in the database stay the same |
| Store.DBCloud.StoreRow | findbugs/src/java/edu/umd/cs/findbugs/cloud/DBCloud.java:186-206 | when the row's hash is known and its id unbound, the id is bound to that record and exactly that record's issue fields become the row's (id, first-seen time, in the database, link, filer, and filing time with LONG_MAX when missing); otherwise the bindings and every record's issue fields are unchanged |
| Store.DBCloud.LoadIssue | findbugs/src/java/edu/umd/cs/findbugs/cloud/DBCloud.java:250-259 | one more issue row keeps the binding invariant, and every record's issue fields are its old ones overwritten by the row's values, as `RowFields` gives them, exactly when that row binds a new id to it |
| Store.DBCloud.IssueLoop | findbugs/src/java/edu/umd/cs/findbugs/cloud/DBCloud.java:250-261 | after all rows, the bindings are as `IssuesLoaded` states, and each record holds the issue fields of the last row that bound a new id to it, or its old ones when no row did |
| Store.DBCloud.LoadIssues | findbugs/src/java/edu/umd/cs/findbugs/cloud/DBCloud.java:245-261 | an id is bound iff it was already or some row names it with a known hash; old bindings stay and each new one goes to the record of the first such row; the hashes in the database are the old ones plus exactly those some row bound a new id to; a newly bound record holds that row's id, first-seen time, link, filer and filing time (LONG_MAX when missing), the others keep theirs; no designation or finding changes |
| Store.LastBinderIsBound | findbugs/src/java/edu/umd/cs/findbugs/cloud/DBCloud.java:190-205 | a record has a row that bound a new id to it iff its hash is among the hashes bound by the rows |
| Store.LoadedInDatabase | findbugs/src/java/edu/umd/cs/findbugs/cloud/DBCloud.java:196-197 | after the rows, the records in the database are the old ones plus exactly those some row bound a new id to |
| Store.KnownIdsNamed | findbugs/src/java/edu/umd/cs/findbugs/cloud/DBCloud.java:245-261 | an id is among the known ones iff some issue row with a known hash names it |
| Store.BoundIds | findbugs/src/java/edu/umd/cs/findbugs/cloud/DBCloud.java:190-205 | once all rows are read, the bound ids are the old ones plus the ids of the rows whose hash is known |
| Store.DBCloud.LoadEvaluation | findbugs/src/java/edu/umd/cs/findbugs/cloud/DBCloud.java:269-283 | the row's designation is added to the record of its issue id, and to no other |
| Store.DBCloud.LoadEvaluations | findbugs/src/java/edu/umd/cs/findbugs/cloud/DBCloud.java:265-287 | each record's designations are its old ones with exactly its own rows' designations inserted in row order; a record with no id keeps its designations; no issue field, database flag or finding changes |
| Store.DBCloud.EvaluationLoop | findbugs/src/java/edu/umd/cs/findbugs/cloud/DBCloud.java:265-287 | each record bound to an id has its old designations with its own rows' designations inserted in row order, as `AttachEvaluations` gives |
| Store.AttachEvaluationsNoIds | findbugs/src/java/edu/umd/cs/findbugs/cloud/DBCloud.java:277-283 | a record with no id takes no designation from any row |
| Store.AttachEvaluationsOnlyAdds | findbugs/src/java/edu/umd/cs/findbugs/cloud/DBCloud.java:277-283 | reading evaluation rows keeps every earlier designation and adds only designations of the record's own rows |
| Store.AttachEvaluationsKeepsSorted | findbugs/src/java/edu/umd/cs/findbugs/cloud/DBCloud.java:277-283 | reading evaluation rows keeps a record's designations sorted by a comparator |
| Store.UnknownEvaluationsDropped | findbugs/src/java/edu/umd/cs/findbugs/cloud/DBCloud.java:277-283 | rows whose issue id is unknown change nothing: reading only the known rows gives the same history |
| Store.DBCloud.LoadRows | findbugs/src/java/edu/umd/cs/findbugs/cloud/DBCloud.java:245-288 | the issue rows are loaded as `LoadIssues` states (bindings, database flags, issue fields), then each record's designations are its old ones with exactly its own evaluation rows' designations inserted, a record with no id keeping its own; the findings stay attached |
| Store.Reconcile | findbugs/src/java/edu/umd/cs/findbugs/cloud/DBCloud.java:290-316 | the reconciliation keeps a first-seen time for every hash it started with |
| Store.ReconcileStep | findbugs/src/java/edu/umd/cs/findbugs/cloud/DBCloud.java:291-305 | a skipped finding changes nothing; otherwise at most one update is queued, the finding is counted in bulk iff its hash is in the database, and the first-seen times keep their keys |
| Store.ReconcileStepLowersOwnTime | findbugs/src/java/edu/umd/cs/findbugs/cloud/DBCloud.java:297-305 | one step moves only the finding's own first-seen time, and only down |
| Store.PendingAreUnsynced | findbugs/src/java/edu/umd/cs/findbugs/cloud/DBCloud.java:290-295 | every finding awaiting insertion is a finding of the collection, not skipped, whose hash is not in the database |
| Store.SkippedNeverQueued | findbugs/src/java/edu/umd/cs/findbugs/cloud/DBCloud.java:290-291 | a NOISE or dead finding is never queued for insertion |
| Store.ReconcileQueuesPending | findbugs/src/java/edu/umd/cs/findbugs/cloud/DBCloud.java:290-296 | exactly one insertion is queued per finding not skipped and not in the database, in order, and each finding in the database is counted once |
| Store.ReconcileQueuesOnly | findbugs/src/java/edu/umd/cs/findbugs/cloud/DBCloud.java:290-305 | only insertions of such findings and first-seen updates of records in the database are queued |
| Store.ReconcileLowersFirstSeen | findbugs/src/java/edu/umd/cs/findbugs/cloud/DBCloud.java:297-305 | a first-seen time only moves down, to a value not below MINIMUM_TIMESTAMP, and only for a record in the database |
| Store.DBCloud.LowerFirstSeen | findbugs/src/java/edu/umd/cs/findbugs/cloud/DBCloud.java:302-305 | the record takes the earlier first-seen time and exactly one first-seen update is queued |
| Store.DBCloud.ReconcileLoop | findbugs/src/java/edu/umd/cs/findbugs/cloud/DBCloud.java:290-316 | the loop queues, counts and lowers first-seen times exactly as `Reconcile` over the findings describes, and changes no record's database flag |
| Store.DBCloud.ReconcileBug | findbugs/src/java/edu/umd/cs/findbugs/cloud/DBCloud.java:291-305 | one finding takes one step of the reconciliation |
| Store.DBCloud.ReconcileBugs | findbugs/src/java/edu/umd/cs/findbugs/cloud/DBCloud.java:290-316 | the queue keeps its prefix and gains exactly one insertion per pending finding, in order, besides first-seen updates; the bulk count grows by the findings in the database; first-seen times only move down; no database flag or designation changes |
| Store.DBCloud.SyncWithDatabase | findbugs/src/java/edu/umd/cs/findbugs/cloud/DBCloud.java:245-316 | ids are bound and database flags set as `LoadIssues` states and designations loaded as `LoadRows` states; then only insertions and first-seen updates are queued, the insertions being exactly the findings not skipped whose hash was neither in the database before nor bound by an issue row, in order; the bulk count grows by the findings whose hash is in the database after loading; the findings stay attached |
| Store.DBCloud.BugsPopulated | findbugs/src/java/edu/umd/cs/findbugs/cloud/DBCloud.java:214-325 | every finding not skipped is attached and the keys grow by exactly their hashes; without a database nothing is queued or bound, the bulk count is kept and every old record keeps its issue fields and designations; with one, ids are bound as `LoadIssues` states, the hashes in the database grow by exactly those a row bound, each record's designations are its old ones (none for a new record) with its own evaluation rows' designations inserted, exactly one insertion is queued per finding not skipped whose hash was neither in the database before nor bound by a row, in order, and the bulk count grows by the findings whose hash is in the database after loading |
| Store.NewFindingIsQueued | findbugs/src/java/edu/umd/cs/findbugs/cloud/DBCloud.java:214-296 | on a new cloud with no issue rows, a finding not skipped gets a record that is not in the database, no id is bound, exactly that finding is queued for insertion, and nothing is counted in bulk |
| Store.FindingWithRowIsBound | findbugs/src/java/edu/umd/cs/findbugs/cloud/DBCloud.java:214-296 | on a new cloud with one issue row for a finding's hash, the row's id is bound to that finding's record, which is in the database, nothing is queued for insertion, and the finding is counted once in bulk |
| Refresh.Compare | eclipsePlugin/src/de/tobject/findbugs/view/explorer/RefreshJob.java:171-181 | 0 iff the kinds are equal; otherwise -1 iff the first delta is REMOVED, and 1 iff it is not |
| Refresh.CompareNotAntisymmetric | eclipsePlugin/src/de/tobject/findbugs/view/explorer/RefreshJob.java:171-181 | as written, an ADDED and an ADDED_PHANTOM delta each compare greater than the other |
| Refresh.CompareFixed | eclipsePlugin/src/de/tobject/findbugs/view/explorer/RefreshJob.java:168-181 | -1 iff only the first is REMOVED, 1 iff only the second is, 0 iff both or neither are |
| Refresh.CompareFixedIsComparator | eclipsePlugin/src/de/tobject/findbugs/view/explorer/RefreshJob.java:171-181 | the corrected comparator is antisymmetric and transitive, and equal elements compare alike |
| Refresh.CompareAgreesOnTwoKinds | eclipsePlugin/src/de/tobject/findbugs/view/explorer/RefreshJob.java:172-180 | on REMOVED and one other kind, the comparator as written agrees with the corrected one |
| Refresh.FilterKeeps | eclipsePlugin/src/de/tobject/findbugs/view/explorer/RefreshJob.java:136 | each group holds only deltas of its kind, drawn from the list |
| Refresh.FiltersArePermutation | eclipsePlugin/src/de/tobject/findbugs/view/explorer/RefreshJob.java:136 | together the two groups hold exactly the deltas of the list |
| Refresh.RemovedFirst | eclipsePlugin/src/de/tobject/findbugs/view/explorer/RefreshJob.java:136 | the sort with the corrected comparator gives a permutation of the queued list, with no REMOVED delta after another kind, and each group in queued order |
| Refresh.SortedSplits | eclipsePlugin/src/de/tobject/findbugs/view/explorer/RefreshJob.java:136 | a list sorted REMOVED first is its REMOVED deltas followed by the others |
| Refresh.StableSortIsRemovedFirst | eclipsePlugin/src/de/tobject/findbugs/view/explorer/RefreshJob.java:136 | any list sorted REMOVED first that keeps the queued order within each group is the one `fetchDeltas` returns |
| Refresh.RefreshJob.constructor | eclipsePlugin/src/de/tobject/findbugs/view/explorer/RefreshJob.java:47-55 | the pending list starts empty |
| Refresh.RefreshJob.AddToQueue | eclipsePlugin/src/de/tobject/findbugs/view/explorer/RefreshJob.java:140-152 | true iff the delta is not CHANGED and not pending, and then it is appended; otherwise nothing changes; the list never holds CHANGED deltas or duplicates |
| Refresh.RefreshJob.FetchDeltas | eclipsePlugin/src/de/tobject/findbugs/view/explorer/RefreshJob.java:127-138 | the pending list is emptied and its deltas returned as a permutation, REMOVED first, each group in queued order (empty for an empty list) |

## Left out

- JDBC and SQL are not modelled: connections, statements, result sets and the SQL text. The worker's `storeFirstSeen` and `fileBug` only talk to the database, so executing those updates changes no record.
- A database failure in the middle of `bugsPopulated` is not modelled. Either every row is read or, with no connection, none is.
- Threads are not modelled: the worker thread, `shutdown` and its waiting loop, `queue.poll` with its timeout, and `synchronized`. The worker is one sequential step, and the end of its loop is the `running` flag.
- `initialize` and the system-property lookups are not modelled. A configured view pattern or entry pattern is a boolean.
- The dead `if (false)` block at the start of `bugsPopulated` is not modelled.
- `displayMessage`, `updatedStatus` and `displayNonmodelMessage` are not modelled. They only notify the GUI or the log; publishing the status is a boolean result of `ProcessNext`.
- Report text is not modelled: `getBugReport*`, `urlEncode`, `String.format`, `new URL`, `getSourceLink` and the date formatting. The ladder of `getBugLink` works on the three URL lengths.
- Exceptions that `getBugLink` swallows (a malformed URL) are not modelled.
- `Mode.getPrimaryDesignation` is not part of this model. So `getUserDesignation(BugInstance)`, `getUserEvaluation` and `getUserTimestamp` are left out. The primary designation in the report filter is an optional position.
- Reconciliation does not model `b.setUserDesignation` on the `BugInstance`, because it also goes through `getPrimaryDesignation`. The unused `lastVersion`/`lastSeen` computation is left out too.
- `bugDesignationId` and the ids of evaluation rows are not modelled; they only serve the database.
- `Integer.parseInt` is modelled for ASCII digits only, not other Unicode decimal digits.
- Filing.ParseInt: accepts one leading '+', as `Integer.parseInt` does from Java 7 on; under Java 6 a link such as "+12" would show NA, where the model shows VIEW_BUG.
- The integer counters `issuesBulkHandled` and `handled` are unbounded (`nat`), so their 32-bit overflow is not modelled.
- `newEvaluation` changes the designation's user and text after adding it to the `TreeSet`. The model stores the completed designation at the place the unchanged one was looked up, and leaves out the effect on a later lookup.
- Store.DBCloud.SyncWithDatabase: the issue fields loaded (id, link, filer, filing time) are stated per record by `LoadRows` only, and the lowering of first-seen times by `ReconcileBugs` only; the composite states the bindings, database flags, designations, queue and bulk count.
- Store.DBCloud.BugsPopulated: when the database is reached, as `SyncWithDatabase`: the per-record issue fields are stated by `LoadRows` and the first-seen times by `ReconcileBugs`, not by this composite.
- Store.Evaluated: keeping the set sorted is not claimed for the worker's insertion, because the designation stored (with its defaults) is not the one the search compared; `Insert`, used when rows are read, is proved to keep it sorted.
- `loadDatabaseInfo` only asserts that a row with an id already bound agrees with the record. The model treats that case as changing nothing.
- The rest of `RefreshJob` is not modelled: `run`, `setViewer`, listener registration and viewer refresh. They are Eclipse UI plumbing.
- Refresh.RefreshJob.FetchDeltas: the result is what `Collections.sort` gives with the corrected comparator. Under the comparator as written (see Findings), the Java contract leaves the order of two non-REMOVED kinds unspecified. From Java 7 on, `Collections.sort` may instead throw `IllegalArgumentException` ("Comparison method violates its general contract") when it detects the inconsistency; the model does not capture that exception.

## Findings

| source | as written | input that shows it | evidently intended | confidence | as-written member | corrected member |
|---|---|---|---|---|---|---|
| eclipsePlugin/src/de/tobject/findbugs/view/explorer/RefreshJob.java:171-181 | `RemovedFirstComparator.compare` returns 1 whenever the kinds differ and the first is not REMOVED | an ADDED delta and an ADDED_PHANTOM delta: each compares greater than the other, which breaks the `Comparator` contract `Collections.sort` relies on | REMOVED first, all other kinds equal (the class comment) | not executed | Refresh.CompareNotAntisymmetric | Refresh.CompareFixedIsComparator |
