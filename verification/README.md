# Contact list, message history, file transfers and the old roster of Psi: a verified model

This project models four parts of the Psi instant-messaging client and proves what they keep, over all
inputs and all runs.

* **The contact list** (`GroupNames`, `GroupRequests`, `ContactTree`, `ContactTreeLaws`,
  `ContactListModelUpdater`). A tree of nested groups is edited in place whenever a contact names other
  groups (`A::B::C`). Two lookup maps, a view that follows row signals, and a deferred "somebody here is
  online" flag are kept beside it; an updater queues changes and applies them in batches. One invariant,
  `ContactListModel.Inv`, holds the tree, both maps, the view and the flags; every operation keeps it and says
  for every path and every contact whether the contact sits there afterwards.
* **The message history** (`LogText`, `EventLine`, `HistoryFile`, `HistoryStore`, `HistoryExport`,
  `TextWrap`). Events are encoded as lines of a file per contact; an index of line starts is built lazily and
  kept up by appends; handles put requests into one queue, served one at a time. `Store.Inv` ties the files
  and every answer so far to a run of the same requests on plain lists of events. The export pages through a
  history with a handle of its own while others go on logging, and wraps what it writes.
* **Transfer progress** (`TransferProgress`). A file size of up to 63 bits is scaled down to at most 65536
  steps; whether a transfer is done, and its `.part` file renamed, is decided by comparing steps. The last step
  means that all bytes are counted, and less than a block more (`DoneWhenAllSent`); such an excess is not
  reached, since the layer below cuts incoming data to what is missing
  (`iris/src/xmpp/xmpp-im/filetransfer.cpp:299-303`) and limits what it asks to send (`:144-153`).
* **The old roster** (`RosterProfile`). Passes that add needed items and remove unneeded ones, after changes
  of an entry, of alerts and of show flags, are proved to leave each entry in exactly the groups that one pure
  function gives.

`Lists` holds what is used of lists everywhere. Classes of the program are classes here, with the fields
that it updates; what is only for the proof is `ghost`. Time, hash order, the state of the file system before
the start, and what contacts say about themselves are parameters or are left open.

What a program and its specification both use (how names are cut, what an answer holds, how a line is
written, how the bar is scaled) is fixed besides by lemmas that say it in literal terms; most of their names end
in `Meaning`.

What the code does not do is stated as exactly as what it does:

* A rebuild of the layout while an addition is queued leaves the contact in a group it no longer names
  (`RebuildDuringAddition`). A commit puts a contact in its place exactly when `Converges` holds before it.
* If, after such a rebuild, the contact comes or goes before the commit, the addition and the update are
  simplified to the addition, which finds the contact in its group and starts no timer: the group's flag is
  then wrong with nothing pending (`RebuildHidesUpdate`). A commit leaves nothing unheard (`Heard`) exactly if
  no queued addition is of a contact in the tree that has come or gone (`Telling`).
* A tear-down removes each group's name after the names above it are gone, so the name map keeps exactly the
  full names of the groups two levels down or more (`LeftBehind`).
* `get` lets the position one past the last line through. `ReadsPast` says exactly which requests read
  there: a backward page that starts at or passes that position, as one from before a removal of the file
  does (`StalePageReadsPast`), and a search that runs off the end, as a forward search without a match does in
  a file whose lines all parse (`SearchMissesPast`).
* An event that cannot be copied is not queued, and the handle is then busy for good or takes the answer to
  somebody else's request 0 (`BusyForGood`, `ForeignAnswer`): `Handle.Append` keeps the store's invariant
  exactly for events that can be copied.
* An "unsubscribed" event is written with a number that the reader takes for no event (`Stored`).
* Enabling updates that are enabled starts the timer anew, so that an operation can wait without bound
  (`RestartedForever`); `SetUpdatesEnabled` says exactly when the bound of 31.1 seconds stays.
* Removing items and adding them agree exactly for entries where no transport is private or unlisted and
  nothing is deleted by itself (`HomeStays`); an entry that becomes private, or ceases to be, may keep an
  item in a group it does not belong in, exactly in the cases of `Profile.Misplaces` (`BecomesPrivate`).
* The export stops at a page without events, and misses what lies behind it (`GapHides`).

`src/eventdb.h` declares the constructor of `EDBItem` with the next position before the previous one; the
definition and its callers in `src/eventdb.cpp` have them the other way round, which is what is modelled.

## Model

| member | source | states |
|---|---|---|
| GroupNames.JoinSplit | src/contactlistgroup.cpp:79-82 | Joining what a split by the delimiter gives restores the name, for every non-empty delimiter. |
| GroupNames.SplitJoin | src/contactlistnestedgroup.cpp:132-142 | Splitting what was joined restores the parts exactly when no delimiter begins inside a part or across its end; with `::`, the part `a:` is the exception. |
| GroupNames.CutMeaning | src/contactlistnestedgroup.cpp:132-142 | Those lists of parts, written out: no delimiter begins inside a part, not even one that ends in the delimiter behind it; every split gives such a list. |
| GroupNames.IndexMeaning | src/contactlistnestedgroup.cpp:54-58 | A name is cut at the first place where the delimiter stands. |
| GroupNames.JoinMeaning | src/contactlistnestedgroup.cpp:132-142 | Joining puts one delimiter between two parts, and nothing else. |
| GroupNames.DropEmptyMeaning | src/contactlistgroup.cpp:79-82 | What is left of the parts of a name is a path exactly if the parts are those of the path, in order, but for any number of empty ones before, between and after. |
| GroupNames.PaddedName | src/contactlistgroup.cpp:79-82 | A name put together from the parts of a path with delimiters too many, anywhere in it, has just these parts left. |
| GroupNames.SanitizedIsPath | src/contactlistgroup.cpp:79-82 | A sanitized name is the join of the non-empty parts of the name, and splits into those again, also for a delimiter that overlaps itself as in `a:::b`. |
| GroupNames.SanitizeIdempotent | src/contactlistgroup.cpp:79-91 | Sanitizing twice is sanitizing once. |
| GroupNames.JoinInjective | src/contactlistgroup.cpp:57-67 | Different paths have different full names. |
| GroupRequests.ProperTarget | src/contactlistnestedgroup.cpp:47-80 | A name handed to a group asks for exactly one path, at or below that group. |
| GroupRequests.ProperBelow | src/contactlistnestedgroup.cpp:54-77 | The name with its first part dropped, handed to the subgroup on the way, asks for the same path. |
| GroupRequests.ProperFull | src/contactlistnestedgroup.cpp:168-177 | The full name put together for a group to be created asks for that group. |
| ContactTree.GroupCache.AddContact | src/contactlistgroupcache.cpp:51-60 | The group is listed for the contact once, after the others; no other contact's list changes. |
| ContactTree.GroupCache.RemoveContact | src/contactlistgroupcache.cpp:62-71 | The group is no longer listed for the contact, a list that became empty goes, nothing else changes. |
| ContactTree.GroupCache.AddGroup | src/contactlistgroupcache.cpp:73-77 | The group is found under its full name, as spelled by its path. |
| ContactTree.GroupCache.RemoveGroup | src/contactlistgroupcache.cpp:79-82 | Exactly the group's full name goes from the map. |
| ContactTree.Group.FullName | src/contactlistgroup.cpp:57-67 | The full name, gathered from the parents, is the join of the group's path. |
| ContactTree.Group.IndexOf | src/contactlistgroup.cpp:268-275 | The first row that shows the item. |
| ContactTree.Group.AddItem | src/contactlistgroup.cpp:169-177 | The row is added last, the flag's timer runs, and a view that is told rows has the new row and, for a group, the rows below it. |
| ContactTree.Group.RemoveItem | src/contactlistgroup.cpp:179-188 | Just the item's row is removed, the timer runs, and a view that is told rows drops the same row. |
| ContactTree.Group.AddSelf | src/contactlistgroup.cpp:190-203 | The contact is added to the group's own members unless it is one or no group is named; the whole invariant is kept. |
| ContactTree.Group.RemoveSelf | src/contactlistgroup.cpp:205-215 | Just the contact leaves the group's own members; the whole invariant is kept. |
| ContactTree.Group.FindGroup | src/contactlistnestedgroup.cpp:225-232 | Finds the subgroup of a name exactly when the tree has a group at that path. |
| ContactTree.Group.AddContact | src/contactlistnestedgroup.cpp:47-80 | Every contact is where it was, and this one also at exactly the paths asked for; missing groups are made on the way, none is left empty, nothing outside the group changes; if the contact is there already, no flag and no timer changes. |
| ContactTree.Group.SplitRequests | src/contactlistnestedgroup.cpp:96-115 | The split requests are exactly the paths below the group that the names ask for, and the flag tells whether the group itself is asked for. |
| ContactTree.Group.TakeMerged | src/contactlistnestedgroup.cpp:132-142 | The merged names are exactly the pending requests that start with one name, and those, found again by splitting, are exactly the ones removed: so each pass shrinks the list. |
| ContactTree.Group.NotifyListed | src/contactlistnestedgroup.cpp:117-150 | The loop ends; told and unnotified groups share out the subgroups, no request is lost, each group in and below a told one has been called exactly once, and there the contact is where it is asked for. |
| ContactTree.Group.NotifyRest | src/contactlistnestedgroup.cpp:152-158 | Each group in and below the subgroups that no request mentions is called exactly once, and the contact is taken out there. |
| ContactTree.Group.PassOn | src/contactlistnestedgroup.cpp:117-158 | The change is passed on so that each group there is below this one is called exactly once; the requests left over are those for subgroups that do not exist; the empty subgroups are exactly those collected. |
| ContactTree.Group.RemoveEmpty | src/contactlistnestedgroup.cpp:160-166 | No group below is left empty, and no contact is moved by that. |
| ContactTree.Group.CreateNew | src/contactlistnestedgroup.cpp:168-177 | The contact is added at exactly the paths left over. |
| ContactTree.Group.SelfGroupsChanged | src/contactlistgroup.cpp:242-253 | With names, the contact is added at every path asked for, again through the nested group; without, it leaves this group alone. |
| ContactTree.Group.ContactGroupsChanged | src/contactlistnestedgroup.cpp:93-190 | At and below the group the contact is at exactly the paths asked for and every other contact where it was; no group below is empty; each group there was, at and below, is called exactly once; it terminates. |
| ContactTree.Group.UpdateOnlineContactsFlag | src/contactlistgroup.cpp:306-337 | Recomputing the flag of a group, and of its parents as long as that changes anything, restores the invariant on the flags when only this group's was in doubt; its timer stops, and none starts. |
| ContactTree.Group.ContactUpdated | src/contactlistgroup.cpp:233-240 | A group that shows the contact will recompute its flag. |
| ContactTree.Group.Destroy | src/contactlistnestedgroup.cpp:36-45 | Tear-down takes exactly the groups at and below this one from the lists of all contacts, and from the name map exactly their last names. |
| ContactTree.ContactListModel.SanitizeGroupNames | src/contactlistgroup.cpp:84-91 | The sanitized names ask for exactly the paths that the pieces of the given names are, but for empty pieces. |
| ContactTree.ContactListModel.RequestsPadded | src/contactlistgroup.cpp:79-91 | A name put together from the parts of a path, with any number of delimiters too many, requests exactly that path. |
| ContactTree.ContactListModel.constructor | src/contactlistmodel.cpp:98-104 | A model as it is once it has its nested root: no contact, and the invariant holds. |
| ContactTree.ContactListModel.AddContact | src/contactlistmodel.cpp:220-224 | The contact is also at exactly the paths its sanitized groups name; other contacts stay, no group is empty. |
| ContactTree.ContactListModel.RemoveContact | src/contactlistmodel.cpp:208-211 | The contact is nowhere, every other one where it was, and no group is left empty. |
| ContactTree.ContactListModel.ContactGroupsChanged | src/contactlistmodel.cpp:245-249 | The contact is at exactly the paths its sanitized groups name, every other one where it was, no group is left empty, and each group there was is called exactly once. |
| ContactTree.ContactListModel.BeginBulkUpdate | src/contactlistmodel.cpp:124-136 | Updates nest; row signals stop with the first; the invariant is kept. |
| ContactTree.ContactListModel.EndBulkUpdate | src/contactlistmodel.cpp:138-161 | With the last one a view is reset if any row was touched, so that it shows the tree again; the invariant is kept. |
| ContactTree.ContactListModel.SetOnline | src/contactlistgroup.cpp:306-337 | A contact that comes or goes leaves the invariant as long as the model has still to be told. |
| ContactTree.ContactListModel.ContactUpdated | src/contactlistmodel.cpp:236-243 | Telling every group that shows the contact settles what was to be told about it. |
| ContactTree.ContactListModel.InvalidateLayout | src/contactlistmodel.cpp:179-196 | A rebuild puts every contact at exactly the paths its sanitized groups name, and no other contact anywhere. |
| ContactTree.ContactListModel.TearDown | src/contactlistmodel.cpp:179-196 | Dropping the old tree empties the contact map; what is left in the name map is recorded as stale. |
| ContactTree.ContactListModel.IndexOfGroup | src/contactlistgroup.cpp:282-289 | The index a group reports for itself denotes that group, and its rows are found under it. |
| ContactTree.ContactListModel.ParentOfIndex | src/contactlistmodel.cpp:459-492 | The parent of the index of any row is the index of the group that has the row. |
| ContactTree.ContactListModel.IndexOfParent | src/contactlistmodel.cpp:571-582 | Every row is found again from its parent and its number, and a group's own index is the one its row has. |
| ContactTree.ContactListModel.IndexesFor | src/contactlistmodel.cpp:226-234 | Gives every position of a contact, each exactly once. |
| ContactTreeLaws.GroupIffInhabited | src/contactlistnestedgroup.cpp:160-177 | A group other than the root exists exactly when some contact sits at or below it. |
| ContactTreeLaws.SamePlacesSameGroups | src/contactlistnestedgroup.cpp:93-190 | Two trees with their contacts in the same places have the same groups: editing step by step gives what a rebuild gives. |
| ContactTreeLaws.FlagsSettle | src/contactlistgroup.cpp:306-337 | When no timer runs and no contact in the tree has a change to be told, a group is flagged exactly when some contact in it or below it is online. |
| ContactTreeLaws.LeftBehind | src/contactlistnestedgroup.cpp:36-45 | A tear-down leaves in the name map exactly the full names of groups at depth two or more. |
| ContactListModelUpdater.Updater.Apply | src/contactlistmodelupdater.cpp:51-86 | One queue entry, simplified, moves its contact as its operations say and no other contact. |
| ContactListModelUpdater.Updater.Flush | src/contactlistmodelupdater.cpp:51-86 | The whole queue has the effect of all its entries, in whatever order the hash gives, with bulk updates paired. |
| ContactListModelUpdater.Updater.Commit | src/contactlistmodelupdater.cpp:51-86 | After an effective commit a monitored contact sits at exactly its current sanitized groups if and only if it was `Converges` before; no unmonitored one is in the tree; nothing waits any more; nothing stays unheard exactly if it was so before and each queued addition of a contact that came or went finds it nowhere; nothing happens while updates are disabled. |
| ContactListModelUpdater.Updater.Enqueue | src/contactlistmodelupdater.cpp:140-150 | The operation joins those queued for the contact, and the start time is that of the oldest one. |
| ContactListModelUpdater.Updater.CommitWhenDue | src/contactlistmodelupdater.cpp:152-156 | Commits at once exactly when the oldest operation has waited 31000 ms or more, which is more than 30 whole seconds, else waits for the timer, due in 100 ms; a commit will still put every contact in its place, and what was heard of stays so exactly as for `Commit`. |
| ContactListModelUpdater.Updater.AddContact | src/contactlistmodelupdater.cpp:88-100 | The contact is monitored with its addition queued, every monitored contact still converges, and what was heard of stays so exactly as for `Commit`. |
| ContactListModelUpdater.Updater.RemoveContact | src/contactlistmodelupdater.cpp:106-114 | The contact is out of the tree, the monitored ones and the queue at once; the others still converge, and what was heard of them stays so. |
| ContactListModelUpdater.Updater.ContactUpdated | src/contactlistmodelupdater.cpp:116-121 | The change of presence is recorded and its update queued, and every contact still converges; the model will hear of it exactly unless it commits at once and finds an addition of that contact, or of another one that came or went, in the tree. |
| ContactListModelUpdater.Updater.ContactGroupsChanged | src/contactlistmodelupdater.cpp:123-128 | After a change of groups every contact still converges, unless one in the tree already has its addition queued. |
| ContactListModelUpdater.Updater.SetUpdatesEnabled | src/contactlistmodelupdater.cpp:171-179 | Switching updates on starts the timer anew; the bound on waiting stays exactly if nothing is queued or the oldest operation has waited less than 31000 ms; neither way touches queue or tree, or what was heard of. |
| ContactListModelUpdater.Updater.InvalidateLayout | src/contactlistmodel.cpp:179-196 | A rebuild puts every monitored contact in its place; what was heard of stays so, always; `Fresh` is kept exactly if no contact that names a group has its addition queued. |
| ContactListModelUpdater.Updater.LongestWait | src/contactlistmodelupdater.cpp:140-156 | In a `Timely` state no operation has waited 31100 ms, however fast others arrived; queueing, commits, removals and time up to the deadline keep a state timely, and enabling updates does exactly as `SetUpdatesEnabled` says. |
| ContactListModelUpdater.Updater.TimePasses | src/contactlistmodelupdater.cpp:36-39 | A timely state stays timely while time passes up to the deadline of the timer. |
| ContactListModelUpdater.RestartedForever | src/contactlistmodelupdater.cpp:171-179 | A run in which updates are enabled again and again: the timer is never late, and a queued operation waits as long as one likes. |
| ContactListModelUpdater.Updater.FlagsPending | src/contactlistgroup.cpp:233-253 | Whenever each watched contact that came or went has an update or addition queued (`Heard`), also after a rebuild, each group but the root has its timer running, or holds a contact with a queued update or addition, or has the right flag for its rows. |
| ContactListModelUpdater.Updater.FlagsTrue | src/contactlistgroup.cpp:306-337 | With nothing unheard, an empty queue and no timer running, each group but the root is flagged exactly when some contact in it or below it is online. |
| ContactListModelUpdater.RebuildHidesUpdate | src/contactlistmodelupdater.cpp:158-164 | A run after whose commit nothing is queued, no timer runs, and a group that holds an online contact is not flagged. |
| ContactListModelUpdater.RebuildDuringAddition | src/contactlistmodelupdater.cpp:158-164 | A run of five steps after whose commit the contact is not at its groups. |
| LogText.LogEncode | src/common.cpp:166-172 | Three replacements, one after the other, escape each character on its own: the result has no bar and no newline. |
| LogText.EscapedMeaning | src/common.cpp:166-172 | A backslash is written as two, a bar as backslash and p, a newline as backslash and n, and any other character as it is. |
| LogText.LogDecode | src/common.cpp:174-197 | The loop reads every escape, drops unknown ones, and stops at a lone backslash at the end. |
| LogText.UnescapedMeaning | src/common.cpp:174-197 | Backslash and n is read as a newline, backslash and p as a bar, two backslashes as one, and a backslash before anything else drops both. |
| LogText.LogRoundTrip | src/common.cpp:166-197 | Decoding what was encoded restores the text, for every text. |
| LogText.EncodePassword | src/common.cpp:107-124 | Four hexadecimal digits per character, of the character and the repeated key; an empty key leaves the text as it is. |
| LogText.DecodePassword | src/common.cpp:126-148 | Reads four characters at a time, whatever they are, and ignores a shorter rest. |
| LogText.HexMeaning | src/common.cpp:107-124 | The digits of a number are written the highest first. |
| LogText.FromHexMeaning | src/common.cpp:138-141 | Any four characters count as the digits that they are read as: by `HexDigits`, small letters are written, capitals read too, and anything else is 0. |
| LogText.PasswordRoundTrip | src/common.cpp:107-148 | Decoding with the same key restores every 16-bit text, for every key, shorter or longer than the text. |
| EventLine.TimeRoundTrip | src/eventdb.cpp:802 | A time stamp is restored to the second, an invalid one as none. |
| EventLine.TimeKept | src/eventdb.cpp:802 | Year, month, day, hour, minute and second are kept, and no more. |
| EventLine.IsoReadMeaning | src/eventdb.cpp:802 | Exactly the texts of times are read, and as those: by `DaysMeaning` and `TimeMeaning`, of the days that a month has. |
| EventLine.ToIntMeaning | src/eventdb.cpp:799 | A text of digits is read as the decimal number, anything else as 0. |
| EventLine.HeaderRead | src/eventdb.cpp:750-771 | The reader finds time, number, origin and flags of a written line, and where the rest begins. |
| EventLine.FieldMeaning | src/eventdb.cpp:750-771 | A field ends before the next bar; without one it takes all there is, and what follows is read from the start of the line again. |
| EventLine.RestRead | src/eventdb.cpp:773-795 | The reader finds subject, address and body as the flags announce them. |
| EventLine.MessageRoundTrip | src/eventdb.cpp:750-904 | A written message is read back with its time to the second, its kind if it is a known one, origin, subject, body, and its first address unless that is empty. |
| EventLine.MessageKept | src/eventdb.cpp:750-904 | The same, field by field of the message that is read. |
| EventLine.AuthKept | src/eventdb.cpp:821-847 | A subscription event is read back as a remote one of its kind, an unknown kind as a request, and an "unsubscribed" one not at all. |
| EventLine.NumbersRead | src/eventdb.cpp:797-862 | What a line without extra fields is read as, for every number: 0, 1, 4 and 5 are messages, 3, 6 and 7 subscription events, 2 one by its text, and all others nothing. |
| EventLine.MessageLineMeaning | src/eventdb.cpp:864-904 | The line of a message, literally: bars, number, direction, flags and the fields that they announce. |
| EventLine.AuthLineMeaning | src/eventdb.cpp:905-928 | The line of a subscription event, literally. |
| EventLine.LineIsOneLine | src/eventdb.cpp:864-931 | A written event is one line, not empty and without a newline; it ends in a carriage return exactly when its text does. |
| EventLine.WriteEvent | src/eventdb.cpp:864-954 | The line, put together field by field, is the one whose reading back is proved above; empty for an event of another kind. |
| EventLine.ReadEvent | src/eventdb.cpp:750-862 | The cursor over a line in the present encoding, with whatever fields, reads those and makes the event that the round trips speak of. |
| EventLine.StoredRead | src/eventdb.cpp:750-954 | What any event reads back as through a file: `Stored` is exact, with subscription events restored up to origin, "unsubscribed" lost, and a carriage return at the end dropped. |
| HistoryFile.StartsMeaning | src/eventdb.cpp:641-682 | The index holds exactly the positions where a line begins that a newline ends, in ascending order. |
| HistoryFile.EntriesExtended | src/eventdb.cpp:721-748 | A line appended to a terminated file is one event more, read from that line, and no other event changes. |
| HistoryFile.EntriesTail | src/eventdb.cpp:641-682 | An empty file has no events, and text that no newline ends is none. |
| HistoryFile.StartsKept | src/eventdb.cpp:733-745 | Adding the end of the file to the index gives what a fresh scan would exactly when the file was empty or ended in a newline. |
| HistoryFile.ReadBackAll | src/eventdb.cpp:700-748 | After any appends to a terminated file the i-th appended event is read back from the i-th new position as `Stored` says, and the old ones as before. |
| HistoryFile.File.constructor | src/eventdb.cpp:609-625 | Opening makes an empty file where there is none, and changes no other. |
| HistoryFile.File.EnsureIndex | src/eventdb.cpp:641-682 | The scanning loops build the index of the whole file. |
| HistoryFile.File.Total | src/eventdb.cpp:684-688 | The number of events, whether or not the index was there. |
| HistoryFile.File.Get | src/eventdb.cpp:700-719 | The event at a position, none outside the file, and the undefined read exactly one past the end. |
| HistoryFile.File.Append | src/eventdb.cpp:721-748 | The event's line ends the file; an index that was built stays right exactly when the file was terminated; what is no loggable event changes nothing and fails. |
| HistoryStore.ScanMeaning | src/eventdb.cpp:550-581 | A search finds the nearest match if all lines before it are events; it looks past the end exactly when, forwards, all from a valid start on are events without it, or, backwards, it starts there. |
| HistoryStore.ReplyMeaning | src/eventdb.cpp:481-587 | The latest `len` are exactly the events at the last `len` positions, each once, the newest first; the oldest those at the first; a page those at `len` positions from its start on, forwards or backwards; each with its position and those next to it. A search gives the nearest message with the text, if all before it are events. |
| HistoryStore.ContainsMeaning | src/eventdb.cpp:568 | A text is found exactly where it stands, anywhere in the other, in whatever case. |
| HistoryStore.LowerMeaning | src/eventdb.cpp:568 | Exactly the two cases of a letter count as the same. |
| HistoryStore.MatchesMeaning | src/eventdb.cpp:565-573 | A search matches exactly the messages with the text in their bodies. |
| HistoryStore.SearchFinds | src/eventdb.cpp:550-581 | The search finds a message exactly if the text is in its body and all lines before it are events without it. |
| HistoryStore.ReadsPastMeaning | src/eventdb.cpp:700-719 | Which requests look past the end, written out. |
| HistoryStore.AfterMeaning | src/eventdb.cpp:544-585 | A message or subscription event logged is one event more, as its line reads; a removal leaves none; nothing else changes. |
| HistoryStore.SearchMissesPast | src/eventdb.cpp:708-709 | A forward search for a text that is nowhere looks past the end, where the intended guard would give an empty answer. |
| HistoryStore.StalePageReadsPast | src/eventdb.cpp:700-719 | A page read backwards from an old position in a removed file looks past the end, where the intended guard would give an empty answer. |
| HistoryStore.PageMeaning | src/eventdb.cpp:527-543 | A page holds the events of its range, each once, in order of the direction, with the positions before and after. |
| HistoryStore.Handle.constructor | src/eventdb.cpp:92-104 | A new handle is registered last and idle. |
| HistoryStore.Handle.GetLatest | src/eventdb.cpp:114-119 | The request, for one event at least, is the last in the queue, and the handle is busy with it. |
| HistoryStore.Handle.GetOldest | src/eventdb.cpp:121-126 | The same, for the oldest events. |
| HistoryStore.Handle.Get | src/eventdb.cpp:128-133 | The same, from a position in a direction. |
| HistoryStore.Handle.Find | src/eventdb.cpp:135-140 | The same, for a search. |
| HistoryStore.Handle.Append | src/eventdb.cpp:142-147 | The same, for an event that can be copied; exactly for others the store's invariant is lost, with the handle busy listening for 0. |
| HistoryStore.Handle.Erase | src/eventdb.cpp:149-154 | The same, for the removal of a file. |
| HistoryStore.Store.Enqueue | src/eventdb.cpp:348-434 | Requests get consecutive numbers and queue up behind each other. |
| HistoryStore.Store.Unreg | src/eventdb.cpp:106-112 | A destroyed handle is forgotten; its request stays. |
| HistoryStore.Store.EnsureFile | src/eventdb.cpp:436-455 | The one open file of a contact, opened if need be; no history changes by that. |
| HistoryStore.Store.DeleteFile | src/eventdb.cpp:457-479 | The contact's history is empty, every other as it was, and no open file is left over. |
| HistoryStore.Store.ReadPage | src/eventdb.cpp:525-545 | The loop gives the page, and reads one past the end exactly when the range passes there. |
| HistoryStore.Store.FindIn | src/eventdb.cpp:550-581 | The loop ends and gives what `Scan` finds, reading past the end exactly when that does. |
| HistoryStore.Store.Serve | src/eventdb.cpp:481-587 | Serving a request gives the answer, and the history afterwards, that it has on the plain list of events: the events that `Answers` says, written out. |
| HistoryStore.Store.Deliver | src/eventdb.cpp:274-297 | The handle that listens for the request gets the answer and is no longer busy; no other handle changes. |
| HistoryStore.Store.HandOver | src/eventdb.cpp:274-297 | The first handle that listens for the number gets the answer, whatever it asked for; no other handle changes. |
| HistoryStore.BusyForGood | src/eventdb.cpp:405-421 | A handle whose append was not queued stays busy through every delivery but that of request 0. |
| HistoryStore.ForeignAnswer | src/eventdb.cpp:405-421 | A run in which such a handle takes the answer that serving another one's request 0 gives, and the other stays busy. |
| HistoryStore.Store.QueueNumbers | src/eventdb.cpp:229-232 | The queue holds the consecutive numbers from that of the next answer on, so 0 is served at most once. |
| HistoryStore.Store.PerformRequests | src/eventdb.cpp:481-587 | The first request of the queue is served, as on plain lists, and its answer delivered; undefined exactly for a request that reads past the end. |
| HistoryStore.Store.FileTimeout | src/eventdb.cpp:589-594 | Closing any open file at any time keeps the invariant: nothing of histories, queue or handles changes. |
| HistoryStore.Store.RefinesLists | src/eventdb.cpp:481-587 | In every reachable state each answer is that of running the earlier requests one at a time on a map from contacts to lists of events, holds the events that `Answers` says, and the files hold the map that results. |
| HistoryStore.Store.BusyWhileQueued | src/eventdb.cpp:114-196 | A handle is busy exactly while the request it listens for is queued, which is its own last one and no other handle's; afterwards it holds the answer to it. |
| HistoryExport.Arrive | src/psiaccount.cpp:5386-5391 | Somebody else's request, by a handle of its own, goes last in the queue, which can still be served to its end. |
| HistoryExport.NextPage | src/historydlg.cpp:494-506 | Asking for a page and waiting ends, behind whatever queue can be served and while others log and read, with the page from the given position of the history that the queue before it leads to. |
| HistoryExport.ServeOne | src/historydlg.cpp:499-501 | While it waits, the export's request moves up one position with each service step, behind what leads to the same histories, until it has its page. |
| HistoryExport.ExportHistory | src/historydlg.cpp:491-556 | Whatever finitely many requests others make meanwhile to log and to read, the export ends; it visits events in ascending order, each once and no other, of a history that begins with the one the queue led to at the start: each event exactly if no gap of a page's length lies before it, so all exactly when there is no gap. |
| HistoryExport.OldEventsVisited | src/historydlg.cpp:491-556 | If the history at the start had no gap, all its events are visited, whatever was logged meanwhile. |
| HistoryExport.GapHides | src/historydlg.cpp:507-509 | A history whose one event lies behind such a gap, and whose first page is empty. |
| HistoryExport.EmptyPage | src/historydlg.cpp:507-509 | An empty page, or the end of the history, ends an export that visits each event exactly if no gap lies before it, and is complete exactly when the history has no gap. |
| TextWrap.GetNext | src/historydlg.cpp:52-69 | Splits off the next word with the spaces before it; none when only spaces are left. |
| TextWrap.WrapString | src/historydlg.cpp:72-105 | The loop ends; the text is its lines again but for spaces at breaks and ends; each line fits or is a single word, and begins only where its first word had no room. |
| TextWrap.GapsMeaning | src/historydlg.cpp:84-90 | Where a line breaks, written out: at spaces that had no room together with the word behind them. |
| TextWrap.WrapKeepsWords | src/historydlg.cpp:72-105 | The words of the text are the words of the lines, in order. |
| TextWrap.WordsMeaning | src/historydlg.cpp:52-69 | What words are: spaces have none, and a stretch of other characters between spaces is one. |
| TransferProgress.CalcShift | src/filetransdlg.cpp:47-57 | The loop finds the one shift that leaves 16 bits of the size. |
| TransferProgress.ShiftMeaning | src/filetransdlg.cpp:47-57 | The shifted size is less than 65536, and at least 32768 if it is shifted at all. |
| TransferProgress.BlockLimit | src/filetransdlg.cpp:59-67 | The block of a step is an int exactly for sizes below 2^46. |
| TransferProgress.Rounded | src/filetransdlg.cpp:59-74 | Size and complement together are exactly the total steps times the block. |
| TransferProgress.StepsMeaning | src/filetransdlg.cpp:59-79 | There are as many steps as blocks are needed for the bytes, and as many are left as are needed for the bytes that are. |
| TransferProgress.DoneWhenAllSent | src/filetransdlg.cpp:59-79 | The step equals the total exactly when at least all bytes, and less than a block more, are counted. |
| TransferProgress.StepsMonotone | src/filetransdlg.cpp:76-79 | More bytes never give fewer steps. |
| TransferProgress.StepsBounded | src/filetransdlg.cpp:47-79 | No step is beyond the last while no more than the file is counted, and there are at most 65536. |
| TransferProgress.WordExact | src/filetransdlg.cpp:1602-1611 | The product scaled to the bar fits in 32 bits, and the bar is full exactly when all is sent. |
| TransferProgress.WordMeaning | src/filetransdlg.cpp:1607-1611 | At every step the bar shows the part of 8192 that is done, rounded down. |
| TransferProgress.BarGrows | src/filetransdlg.cpp:1607-1611 | More bytes never give a smaller bar. |
| TransferProgress.Transfer.constructor | src/filetransdlg.cpp:1646-1672 | A transfer put on the list is done at once exactly when the file has no bytes; the invariant holds exactly for sizes below 2^46, since beyond the block overflows. |
| TransferProgress.Transfer.BytesMoved | src/filetransdlg.cpp:395-426 | Bytes read or written finish the transfer, and give a received file its name, exactly when the counted ones cover the file by less than a block more. |
| TransferProgress.Transfer.DoFinish | src/filetransdlg.cpp:466-474 | Reporting the step brings the list up to date with the count; the connection closes exactly when the count is the size. |
| TransferProgress.Transfer.UpdateProgress | src/filetransdlg.cpp:1493-1537 | Done, off the list and, if received, renamed: exactly when the step is the total. |
| TransferProgress.Transfer.LogSent | src/filetransdlg.cpp:1403-1412 | The array holds the last ten samples, in order. |
| TransferProgress.LastTenMeaning | src/filetransdlg.cpp:1403-1412 | What a run of samples leaves is the last ten of all of them, in order. |
| TransferProgress.Transfer.UpdateItems | src/filetransdlg.cpp:1716-1727 | The timer samples the count reported last, which is 0 at first also for a resumed transfer, and leaves an unfinished transfer as it is. |
| TransferProgress.Transfer.Error | src/filetransdlg.cpp:1700-1714 | A failed transfer leaves the list, its item done with an error and its .part file not renamed. |
| RosterProfile.HomeStays | src/contactview.cpp:475-577 | Removing takes no item from where adding puts one, exactly for entries that are regular and not deleted by themselves. |
| RosterProfile.KeepsMeaning | src/contactview.cpp:533-576 | The chain of rules for removing, group by group: in which cases an item stays. |
| RosterProfile.HomeOnly | src/contactview.cpp:533-568 | While the entry stays private or not, removing leaves items only where adding puts them, and for a regular entry all of those. |
| RosterProfile.RefreshPlaces | src/contactview.cpp:380-399 | The two passes over a changed entry put it in its groups exactly unless it became or ceased to be private and an old group is overlooked. |
| RosterProfile.PrivateKeepsOldItem | src/contactview.cpp:533-576 | Any contact outside the list that becomes private keeps its item in the group for those, by the rules for removing. |
| RosterProfile.BecomesPrivate | src/contactview.cpp:358-400 | A run of two updates after which an entry is not in its placement. |
| RosterProfile.Narrower | src/contactview.cpp:513-577 | When less is shown, removing alone gives the placement. |
| RosterProfile.Profile.EnsureGroup | src/contactview.cpp:325-341 | The one group of a kind or name, new and empty if there was none. |
| RosterProfile.Profile.EnsureContactItem | src/contactview.cpp:439-456 | The entry has one item in the group, which is added only if there was none. |
| RosterProfile.Profile.RemoveContactItem | src/contactview.cpp:458-473 | Just that item goes, and its group exactly when it was the last one there. |
| RosterProfile.Profile.AddNeeded | src/contactview.cpp:475-511 | The entry has items where it had them and in every group of its placement; no group is empty. |
| RosterProfile.Profile.RemoveUnneeded | src/contactview.cpp:513-577 | Exactly the items that the rules name are removed, and the groups they leave empty. |
| RosterProfile.Profile.UpdateEntry | src/contactview.cpp:358-400 | For any new state of the entry: it is in exactly its placement if and only if no overlooked item stays behind, every other entry is as before, and the invariant is kept exactly if the entry is regular besides. |
| RosterProfile.Profile.RemoveEntry | src/contactview.cpp:612-624 | Just that entry goes, with its items and the groups that only it was in. |
| RosterProfile.Profile.SetAlert | src/contactview.cpp:626-647 | The alerting entry is in its groups whatever the flags; the invariant is kept. |
| RosterProfile.Profile.ClearAlert | src/contactview.cpp:649-666 | The entry is where the flags let it be; the invariant is kept. |
| RosterProfile.Profile.SetShowOffline | src/contactview.cpp:2173-2189 | Every entry is in exactly the placement that the new flag gives. |
| RosterProfile.Profile.SetShowAway | src/contactview.cpp:2191-2207 | The same for entries that are away. |
| RosterProfile.Profile.SetShowHidden | src/contactview.cpp:2209-2225 | The same for hidden entries. |
| RosterProfile.Profile.SetShowAgents | src/contactview.cpp:2286-2302 | The same for transports. |
| RosterProfile.Profile.GroupIffPlaced | src/contactview.cpp:350-356 | A group is there exactly when some visible entry belongs in it. |

## Left out

- Flat group lists: the tree is the nested one, with groups enabled; the plain root group, fake groups for accounts, and contacts filtered before grouping are not modelled.
- ContactTree.ContactListModel.constructor: the time before the first layout, when the program has no root group yet, is not modelled.
- EventLine.ReadEvent: lines whose flags do not start with N are decoded from UTF-8 by the program, and as they are by the model.
- Renaming and reordering of groups, the saved expanded state, drag and drop, sorting, painting, menus and tooltips.
- A change of the group delimiter while a model exists: the delimiter is fixed per model, and any non-empty string.
- Deleted group objects: a group that has left the tree is not used again, but its memory is not modelled.
- `ContactTree.GroupCache.RemoveName` stands for `removeGroup` during tear-down, when the names above the group are gone and its full name is its own name only.
- Delayed layout signals of the model: a reset is taken to make a view read the whole tree again.
- Timers and the event loop: a timer is a step that may happen at its deadline; the finished signal of a handle is the end of a step, and what its receiver does is a later step.
- The file system: a file is a string of characters, one per contact; opening, writing and removing succeed; UTF-8, and lines in the encoding of old versions, are not modelled.
- EventLine.IsoReadMeaning: time stamps in any other shape than the one written are taken for none; what the library makes of some of them is left out.
- Texts of old system messages are compared in their original language only; mood events are left out.
- `QString::toInt` on signs and blanks, dates beyond the year 9999, and integers of 32 bits in positions of events.
- Debug builds, in which writing an event of another kind stops the program, are left out: the release build fails to append it. An HTTP confirmation event counts as the message that its copy is.
- HistoryFile.File.Get: what a read one past the end of the index gives is not defined, so the model only says when it happens.
- HistoryExport.ExportHistory: the requests queued when the export starts must be ones that can be served without looking past the end, and what comes while it waits is limited to events to be logged and pages that cannot do so either, no removals and no searches; the heading and layout of the exported text are left out.
- HistoryStore.Contains: case is folded for the Latin letters of ASCII only.
- TextWrap.IsSpace: the spaces are those of ASCII.
- TransferProgress.Transfer.constructor: a resumed offset beyond the size, and negative sizes, are left out; from 2^46 bytes on the program's int overflows, and the model says nothing of the steps.
- The rate and the remaining time of a transfer, and the renaming on the disk itself, which is a flag here.
- Disabled profiles, the own item of an account, several profiles in one view, and the automatic deletion of unlisted entries beyond `HomeStays`.
- XMPP itself, service discovery, encryption, chat windows and every other part of the client.
