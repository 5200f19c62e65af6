# g7ctrl: a verified model of the daemon's protocol and data core

g7ctrl is a C daemon that talks to GM7 GPS trackers over USB and GPRS, keeps their positions in a
database and serves command clients.  This project models the parts of it that keep state or
translate between formats, and proves what they do over every input, every run or every reachable
state.  `dafny verify dfyconfig.toml` checks everything.

The parts, and what is proved about them:

- **GPRS commands and replies** (`CommandQueue`, `CommandProtocol`, `CommandRuns`, `DeviceReply`,
  `SendReply`, `ReplyCut`, `SendRuns`).  Command threads draw a tag, claim one of 128 queue slots, send and poll; tracker
  threads find the slot a reply belongs to and then write through a slot pointer, with no lock held in
  between.  The threads are a step system in which finding and writing are separate steps, so other
  threads can act between them.  Proved: waiting commands own distinct slots; a slot keeps its
  identity until its own waiter clears it; an abandoned slot is lost for ever; exactly when a tagged
  reply reaches the command that sent the tag; exactly when every stored reply fits its slot; and, for a
  send that reports success, from which device the reply came and exactly when its tag was the
  command's own.  The reply parser is proved to invert the device's printing, for every length of name
  and tag.
- **Associative array and its JSON form** (`AssocArray`, `AssocJson`, `AssocJsonRoundTrip`).  The
  growing array refines an insertion-ordered map; importing an export performs the same puts as adding
  the exported array.
- **Address cache** (`GeoCache`, `GeoCacheLookup`, `GeoCacheStore`).  After any run of updates and
  lookups, from an empty or a reloaded cache, the ring's contents are a function of the start and the
  update history; exactly when the used slots stay a prefix; the scan that stops at the first empty slot
  is then a search of the most recent updates, and which address it answers with; exactly when a stored
  position is found again; saving and reloading gives the saved entries back.
- **Rate limiter and quota gate** (`RateLimiter`).  A counting bound over every run and every window,
  with a run that attains it; no service calls while the 24 hour block lasts.
- **Location ingestion** (`EventSplitter`, `FieldSplitter`, `LocationStore`, `PrintedRecords`,
  `Deduplication`).  The in-place splitter restores its buffer and hands on the longest prefix of
  complete lines; the four framings of a batch store the same rows; a malformed record, or one too long
  for its buffer, stores none; exactly which records printed from values are accepted, and that their
  values are what is stored; importing a download twice is importing it once.
- **GPX export** (`GpxExport`, `GpxTracks`).  The exported tracks are the one and only division of the
  points that cuts exactly where the time gap exceeds a limit, and the token stream reads back as them.
- **Template keywords** (`TemplateDict`, `TemplateLaws`).  Replacement is the unique division of the
  template into known references and copied characters; exactly when the work buffer suffices.
- **URL codec** (`UrlCodec`).  Decoding undoes encoding; encoding undoes decoding exactly on the texts
  encoding produces; the bounded decoder.
- **Client table** (`ClientTable`, `ClientRuns`).  The client count is exact in every interleaving; a
  number in the listing selects the slot it was shown for.

`Options`, `CText`, `SeqTools`, `Numbers` and `Arithmetic` hold what the others share.  Code that
changes fields or buffers is modelled by classes and methods with loops, each proved against a
specification function; the properties are proved of those functions.

## Where the code differs from what it seems to promise

- A reply found for one command can be written after that command timed out and its slot was claimed
  for another device (`CommandRuns.LateWriteMisdelivers`); if it is a location line, the other command's
  send even reports success (`SendRuns.LateLocationSucceeds`).  `CommandRuns.ValidReplyFitsExactly` and
  `SendRuns.LocationWriteExactly` give the exact conditions.
- The search for the end of a reply's name does not stop at the end of the line.  A short reply without
  tag and data passes for the answer to any command, given the right memory behind it
  (`ReplyCut.OpenHeadTakesAnyTag`); `SendRuns.OwnTagExactly` gives the exact condition.
- Tags repeat after 10000 draws, and an abandoned slot never goes away, so that 128 failed writes leave
  no room for any later command (`CommandRuns.TagCycleMisdirects`, `CommandRuns.OrphanForever`,
  `CommandRuns.OrphansBlockQueue`, `CommandRuns.QueueCanBeLost`); `CommandRuns.ReplyReachesSenderExactly`
  gives the exact condition for correct delivery.
- The length guards of the reply parser compare a counter that has been decremented once more, so they
  refuse exactly 13-character names and 6-character tags.  14-character names and 7-character tags are
  taken whole, the latter filling one byte more than `char tag[7]` at src/g7sendcmd.c:455 holds; longer
  tags are cut to 7 characters; a name of 15 or more is cut to 14 and its tag not read, so the reply
  counts as untagged and goes to the device's lowest slot (`DeviceReply.ParseOfHead`,
  `DeviceReply.LongNameLosesTag`).  A five-character tag is lost when the carriage return behind it has been
  overwritten by a NUL (`DeviceReply.ParseOfPrintCut`).
- The test that an error reply has exactly one field looks at the flag's address, not the flag
  (src/g7sendcmd.c:417), so error replies without a field pass (`DeviceReply.ParseOfPrintPlain`) and their
  number is read from old memory (`SendReply.VerdictOfLine`).
- An error reply whose number is -1 as a 32-bit int is reported as success (`SendReply.ErrorCodeWraps`).
- The export of an empty array cannot be imported (`AssocJsonRoundTrip.ImportOfExport`).
- Reusing a slot of the address cache copies all but the last character of each text, so with exact
  comparison a position stored in a reused slot is not found again unless another entry happens to match
  (`GeoCacheLookup.OwnPositionRecognised`, `GeoCacheLookup.ReusedSlotForgets`); the reported count misses
  one entry when the ring first wraps (`GeoCache.UsedSlotsArePrefix`).
- A line of the cache file that is skipped still uses up a slot, and lookups then stop at the hole
  (`GeoCacheStore.ReloadedRunsPrefix`, `GeoCache.PrefixExactly`).
- The work buffer of the template replacement has no room for the terminating NUL when the dictionary is
  empty and is too small when long values are used repeatedly (`TemplateLaws.EmptyDictionary`,
  `TemplateLaws.RepeatedKeyOverflows`); `TemplateLaws.FitsExactly` gives the exact condition, and
  `TemplateDict.Dict.ReplaceInBuf` stops there.
- The record buffer of the batch reader holds 512 bytes and is filled unchecked; the model stops at a
  longer record (`LocationStore.Database.StoreLocations`).
- The bounded URL decoder counts steps, not bytes written, and reports success when it is given no room
  at all (`UrlCodec.UrlDecodeBuff`).

## Model

| member | source | states |
|---|---|---|
| CommandQueue.Queue.Insert | src/g7sendcmd.c:106-131 | the lowest free slot is filled with socket, device, tag, command and time and nothing else changes; refused, with nothing changed, exactly when the tag has more than 5 or the command more than 255 characters or all 128 slots are taken |
| CommandQueue.Queue.Match | src/g7sendcmd.c:197-217 | the lowest slot of the device whose tag fits (any tag for an untagged reply), or -1 when there is none |
| CommandQueue.Queue.ClearIndex | src/g7sendcmd.c:224-234 | that slot becomes empty, the others stay; an index out of range is refused |
| CommandQueue.Queue.Poll | src/g7sendcmd.c:146-165 | a valid reply is collected and its slot cleared; a timeout clears the slot; otherwise nothing changes |
| CommandQueue.Queue.DrawTag | src/g7sendcmd.c:283-296 | the counter advances modulo 10000 and the tag is its four-digit form |
| CommandQueue.Queue.Deliver | src/tracker.c:606-668 | at most 1022 characters of the reply go to the first matching slot and to no other; unmatched replies change nothing and fail, except the automatic fence reply TR48 |
| CommandQueue.TagOfLocation | src/tracker.c:623-642 | a line that starts with a device id of at most eleven digits, the first a 3, is an untagged reply on the connection of the device it names, reduced to 32 bits, and unusable on every other |
| CommandQueue.TagOfLongId | src/tracker.c:628-635 | without a comma among its first twelve characters such a line is unusable |
| CommandProtocol.StepKeeps | src/g7sendcmd.c:106-234 | every step of every thread keeps: claimed slots carry the tag of the draw that claimed them, waiting threads own their slot, no two slots share a draw |
| CommandProtocol.RunInv | src/g7sendcmd.c:106-234 | that holds in every state of every run |
| CommandRuns.WaitersOwnDistinctSlots | src/g7sendcmd.c:116-128 | in every run distinct waiting commands own distinct slots |
| CommandRuns.SlotStable | src/g7sendcmd.c:116-164 | in every run a slot's socket, device, tag and command stay as inserted until its own waiter clears it |
| CommandRuns.OrphanForever | src/g7sendcmd.c:668-673 | a slot abandoned by a failed device write stays occupied, with the same identity, in every later state |
| CommandRuns.OrphansBlockQueue | src/g7sendcmd.c:668-673 | once every slot is abandoned, no command can be queued in any later state |
| CommandRuns.QueueCanBeLost | src/g7sendcmd.c:668-673 | a run that abandons every slot |
| CommandRuns.LiveTagsUnique | src/g7sendcmd.c:283-296 | while no claim is 10000 draws old, at most one occupied slot carries a given tag |
| CommandRuns.SharedTagExactly | src/g7sendcmd.c:283-296 | two occupied slots share a tag if and only if their draws are whole tag cycles apart |
| CommandRuns.TaggedReplyReachesItsSender | src/tracker.c:653-668 | in every run, while claims are young, a tagged reply changes exactly the slot of the command that sent this tag to this device |
| CommandRuns.ReplyReachesSenderExactly | src/g7sendcmd.c:197-217 | in every run the first match for a waiting command's tag is its own slot if and only if no lower slot for the device was claimed whole tag cycles away |
| CommandRuns.UntaggedReplyGoesLowest | src/g7sendcmd.c:209-212 | an untagged reply goes to the lowest slot of its device |
| CommandRuns.ValidReplyFitsSlot | src/tracker.c:654-667 | in every run without writes through stale pointers, a valid slot holds a reply from a connection with its device id and with its tag or none |
| CommandRuns.ValidReplyFitsExactly | src/tracker.c:654-667 | a run keeps that from beginning to end if and only if each reply still matches its slot when it is written |
| CommandRuns.UndisturbedFits | src/tracker.c:654-667 | runs without writes through stale pointers meet that condition |
| CommandRuns.TagCycleMisdirects | src/g7sendcmd.c:283-296 | the age bound is tight: a run in which, exactly 10000 draws later, a reply is matched to the older command |
| CommandRuns.LateWriteMisdelivers | src/tracker.c:654-667 | a run that ends with a slot for one device marked valid with another device's reply |
| DeviceReply.ScanTo | src/g7sendcmd.c:370-402 | the bounded scan stops at the first stop character or the limit, and its counter is zero exactly one short of the limit |
| DeviceReply.ExtractReply | src/g7sendcmd.c:339-428 | the parsing method returns what the specification of replies says for every memory content |
| DeviceReply.ParseOfHead | src/g7sendcmd.c:339-428 | for every length of name and tag, what is found of a printed head, whatever follows: refused for names of 13 and tags of 6 characters, whole below and at the limit, cut above it |
| DeviceReply.LongNameLosesTag | src/g7sendcmd.c:369-402 | a reply with a name of more than 14 characters is taken for untagged |
| DeviceReply.ParseOfPrintWithFields | src/g7sendcmd.c:339-428 | parsing inverts printing for replies with fields, for both statuses, independent of the memory behind the NUL |
| DeviceReply.ParseOfPrintPlain | src/g7sendcmd.c:339-428 | parsing inverts printing for replies closed by CRLF |
| DeviceReply.ParseOfPrintCut | src/g7sendcmd.c:686-693 | the same after the carriage return has been overwritten; five-character tags are then refused |
| DeviceReply.ParseOfShortError | src/g7sendcmd.c:357-363 | an error reply of one digit: the digit is its only field, and it has neither name nor tag |
| SendReply.VerdictOfLine | src/g7sendcmd.c:441-500 | for every reply line a device prints: -1 for a foreign tag, 0 for OK, the negated successor of the error number otherwise |
| SendReply.VerdictOfShortError | src/g7sendcmd.c:441-500 | no command with a tag takes a one-digit error for its answer |
| SendReply.MissingCrLf | src/g7sendcmd.c:686-692 | a collected text that does not end in CRLF makes the send fail |
| ReplyCut.CutKeepsTag | src/g7sendcmd.c:369-402 | for every memory content, a tag the command thread reads from its cut copy is the tag the tracker thread read from the line, unless the name is left open |
| ReplyCut.OpenHeadTakesAnyTag | src/g7sendcmd.c:369-402 | a reply whose name is left open passes for the answer to any command, for some memory behind it |
| SendRuns.CollectsOwnDevice | src/g7sendcmd.c:146-165 | in every run in which replies are written to slots they still match, a command collects the text of a line from a connection of its own device, without a tag or with its own |
| SendRuns.SuccessIsOwn | src/g7sendcmd.c:660-705 | in every such run a send that returns 0 collected a line of its own device: a location, or one in which the tracker thread found its own tag, or one with an open name |
| SendRuns.OwnTagExactly | src/g7sendcmd.c:660-705 | for a line that is no location, success means the own tag whatever memory lies behind the copy, if and only if the tracker thread found that tag or the name is not open |
| SendRuns.LocationVerdict | src/g7sendcmd.c:445-451 | a collected text that starts with 3 is a success exactly if it has more than 60 characters besides its CRLF |
| SendRuns.LocationAnswersCommand | src/g7sendcmd.c:660-705 | end to end: a location line of a waiting command's device is found, stored in the device's lowest slot and in no other, collected, and makes that send return 0 |
| SendRuns.LocationWriteExactly | src/g7sendcmd.c:444-451 | a location line written to a waiting command's slot makes its send return 0 in any case; it is from the own device if and only if it still matches the slot when written |
| SendRuns.LateLocationSucceeds | src/g7sendcmd.c:444-451 | for every location line, a run in which a command to another device collects it and its send returns 0 |
| SendReply.TagOfLine | src/tracker.c:646-652 | the tracker thread reads the printed tag off a reply line |
| SendReply.ParseOfCutLine | src/g7sendcmd.c:441-460 | the command thread recovers status, name, tag and fields from the cut line |
| SendReply.ErrorCodeWraps | src/g7sendcmd.c:470-500 | an error reply is success if and only if its number is -1 modulo 2^32 |
| SendReply.AnsweredCommandSucceeds | src/g7sendcmd.c:660-705 | end to end: the positive reply a device prints for a waiting command's tag is matched, stored, collected, and makes the send return 0 |
| SendReply.CollectedTagIsOwn | src/g7sendcmd.c:660-705 | the tag parsed from the collected text is the command's own |
| AssocArray.PutLookup | src/assocarray.c:155-188 | a put binds exactly a new non-empty name and changes no other lookup |
| AssocArray.PutAllLookup | src/assocarray.c:116-123 | adding an array: old bindings win, other names are bound as in the added array |
| AssocArray.PutAllToEmpty | src/assocarray.c:103-107 | copying reproduces the pairs in order |
| AssocArray.CommonIs | src/assocarray.c:133-146 | the intersection holds exactly the pairs of the one array whose names the other has |
| AssocArray.DeleteLookup | src/assocarray.c:217-245 | deleting unbinds one name and changes no other lookup |
| AssocArray.NewArray | src/assocarray.c:41-57 | sizes below four are refused, others give an empty array of that capacity |
| AssocArray.Assoc.Get | src/assocarray.c:65-78 | the value bound to the name in the ordered map, or none |
| AssocArray.Assoc.PutPair | src/assocarray.c:155-188 | the array becomes the map after the put, names stay distinct, capacity doubles exactly when the array was full, and the recursion through copy and add terminates |
| AssocArray.Assoc.Grow | src/assocarray.c:165-180 | growing doubles the capacity and changes no pair |
| AssocArray.Assoc.CopyFrom | src/assocarray.c:103-107 | the array becomes a copy; copying an array onto itself empties it |
| AssocArray.Assoc.AddFrom | src/assocarray.c:116-123 | the array becomes the map with all pairs of the other put, also when added to itself; with room it never grows |
| AssocArray.Assoc.Update | src/assocarray.c:197-209 | an existing name is rebound in place; otherwise nothing changes |
| AssocArray.Assoc.Delete | src/assocarray.c:217-245 | exactly the named pair is removed and the order of the others kept |
| AssocArray.Assoc.Intersect | src/assocarray.c:133-146 | the array becomes the intersection; empty when it is itself an operand |
| AssocJson.StrLoop | src/assocarray.c:362-399 | the string reader against its specification |
| AssocJson.NumLoop | src/assocarray.c:408-424 | the number reader against its specification |
| AssocJson.ReadMember | src/assocarray.c:464-511 | name and value members against their specification |
| AssocJson.ReadVector | src/assocarray.c:519-561 | the pairs read so far are put into the array even when a later one is malformed |
| AssocJson.ImportJson | src/assocarray.c:569-637 | result and array after an import of any text |
| AssocJsonRoundTrip.ExportJson | src/assocarray.c:328-343 | what the exporter leaves in a buffer of any size |
| AssocJsonRoundTrip.ExportFits | src/assocarray.c:328-343 | the export is complete if and only if the full text fits |
| AssocJsonRoundTrip.ExportFormat | src/assocarray.c:333-341 | the printed header, rows and footer written out |
| AssocJsonRoundTrip.NumberRead | src/assocarray.c:408-424 | digits and decimal points are read as one number behind blanks, tabs and newlines |
| AssocJsonRoundTrip.NumberRefused | src/assocarray.c:414-416 | what does not start with a digit is no number |
| AssocJsonRoundTrip.QuotableIsScannable | src/assocarray.c:362-399 | the condition on quotes and backslashes is exactly what the reader's left-to-right scan accepts |
| AssocJsonRoundTrip.StrBodyRoundTrip | src/assocarray.c:362-399 | a quoted text is read back whole if and only if its quotes are escaped, it does not end in a backslash, and it fits |
| AssocJsonRoundTrip.RowsRoundTrip | src/assocarray.c:519-561 | reading the printed rows performs the same puts as adding the array |
| AssocJsonRoundTrip.HeaderRoundTrip | src/assocarray.c:569-637 | the printed members before the rows are read back |
| AssocJsonRoundTrip.ImportOfExport | src/assocarray.c:328-343 | importing the export of a non-empty array into any array is adding it, and reproduces it in an empty one; the export of an empty array is refused |
| GeoCache.RunHoldsHistory | src/geoloc_cache.c:824-865 | after any run from any start each slot holds the latest accepted update that went to it, or what it held at the start; index and count follow from the start and the number of updates |
| GeoCache.UsedSlotsArePrefix | src/geoloc_cache.c:557-593 | from an empty, or any other clean, start the used slots are a prefix; from an empty or wholly reloaded cache the reported count is the occupancy or one less |
| GeoCache.PrefixExactly | src/geoloc_cache.c:557-593 | the used slots are a prefix in every run from a start if and only if the start is clean |
| GeoCacheLookup.LookupSearchesRing | src/geoloc_cache.c:557-593 | in every run from a clean start a lookup answers from the lowest matching slot of the whole ring and fails if there is none |
| GeoCacheLookup.LookupSearchesRecent | src/geoloc_cache.c:557-593 | a lookup succeeds if and only if one of the latest updates, as many as there are slots, or an entry left from the start matches |
| GeoCacheLookup.LookupAnswers | src/geoloc_cache.c:557-593 | a lookup answers exactly if some slot hits (same texts, or distance within the proximity), with the address text of the lowest: that of the update, whole for a fresh and without its last character for a reused slot, or of an entry of the start |
| GeoCacheLookup.OwnAddressReturned | src/geoloc_cache.c:847-853 | a position stored in a fresh slot is answered with its whole address unless a lower slot hits |
| GeoCacheLookup.OwnPositionRecognised | src/geoloc_cache.c:838-853 | in every run, with exact comparison, looking up a position right after storing it succeeds if and only if its slot was fresh or an older entry matches |
| GeoCacheLookup.OwnPositionFromEmpty | src/geoloc_cache.c:838-853 | the same from the empty cache, in terms of the number of updates |
| GeoCacheLookup.ReusedSlotForgets | src/geoloc_cache.c:838-853 | for every ring size a run of one more update than slots after which the last position is not found |
| GeoCacheStore.AddressCache.Store | src/geoloc_cache.c:824-865 | the update method against the ring specification; refused exactly outside 1 to 89 degrees; texts, coordinates and time of what is stored |
| GeoCacheStore.AddressCache.Find | src/geoloc_cache.c:557-593 | the lookup method against the specification; calls, hits and the highest index hit |
| GeoCacheStore.AddressCache.CountCall | src/geoloc_cache.c:80-93 | calls, hits and the highest index |
| GeoCacheStore.AddressCache.Save | src/geoloc_cache.c:335-338 | the lines written, the inclusive bound staying in range |
| GeoCacheStore.AddressCache.Load | src/geoloc_cache.c:429-460 | what reading any text leaves in the cache |
| GeoCacheStore.LineKinds | src/geoloc_cache.c:432-455 | which lines of the file are entries, which end the reading and which are skipped |
| GeoCacheStore.TrimExactly | src/libxstr/xstr.c:166-190 | exactly the spaces in front and the spaces, newlines and carriage returns at the end are trimmed |
| GeoCacheStore.LongLine | src/geoloc_cache.c:431-435 | a longer line is read in pieces of 254 characters |
| GeoCacheStore.SavedCount | src/geoloc_cache.c:335-338 | after any run from a clean start a save writes the first min(used, highest index + 1) entries |
| GeoCacheStore.LinesRoundTrip | src/geoloc_cache.c:429-460 | reading saved lines fills consecutive slots, one short of the ring size at most |
| GeoCacheStore.SaveReload | src/geoloc_cache.c:323-460 | saving after any run from a clean start and reloading gives exactly the first min(used, highest index + 1, size - 1) entries with equal time, texts and address |
| GeoCacheStore.ReloadedRunsPrefix | src/geoloc_cache.c:429-460 | when a whole file is read into an empty cache, the used slots are a prefix in every run that follows if and only if no line was skipped |
| RateLimiter.Limiter.Before | src/geoloc.c:163-174 | the sleep is just long enough to keep the limit since the last recorded call |
| RateLimiter.SuccessiveCallsApart | src/geoloc.c:163-174 | in every run recorded calls are at least the limit apart |
| RateLimiter.WindowBound | src/geoloc.c:149-174 | in every run every window of W ms holds at most W / limit + 1 calls |
| RateLimiter.BoundAttained | src/geoloc.c:149-174 | a run that attains the bound, for every number of limits |
| RateLimiter.QuotaGate.Ask | src/geoloc.c:744-824 | no call while blocked; the answer of the repetition replaces an over-quota answer; the gate's new state |
| RateLimiter.NoCallsWhileBlocked | src/geoloc.c:747-760 | in every run, no service call within 24 hours of a block |
| RateLimiter.BlockedAfterThree | src/geoloc.c:803-812 | in every run the gate is blocked if and only if the third over-quota answer since its opening has come |
| FieldSplitter.SplitFields | src/libxstr/xstr.c:694-736 | succeeds exactly on lines, fields and counts within the limits, with exactly the fields |
| FieldSplitter.SplitOfJoin | src/libxstr/xstr.c:694-736 | splitting undoes joining of fields without the delimiter |
| FieldSplitter.JoinOfSplit | src/libxstr/xstr.c:694-736 | joining undoes splitting for every line |
| Numbers.AtolStops | src/libxstr/xstr.c:229-246 | a number is read up to its last digit |
| Numbers.AtolSkipsSpace | src/libxstr/xstr.c:229-246 | white space in front of a number is skipped |
| Numbers.AtolOverflows | src/libxstr/xstr.c:229-246 | a number beyond a long counts as 0 |
| Numbers.AtoiRefuses | src/libxstr/xstr.c:197-221 | a text with anything but digits counts as 0 |
| Numbers.ToInt32Wraps | src/libxstr/xstr.c:220-220 | the reduction to an int changes a number by a multiple of 2^32 |
| EventSplitter.SplitEvents | src/tracker.c:912-949 | the buffer is as it was on every exit, and the events are those of the text in it |
| EventSplitter.EventsArePrefix | src/tracker.c:912-949 | each event is a line whose first carriage return starts its final CRLF; together they are a prefix |
| EventSplitter.EventsAreLongest | src/tracker.c:912-949 | no longer prefix consists of such lines |
| LocationStore.TakeRecord | src/dbcmd.c:413-428 | the copying loop takes the text up to the next CRLF, bracket or end, or reports too many fields; how much it writes to its buffer |
| LocationStore.Database.StoreLocations | src/dbcmd.c:382-580 | if every record is valid, all rows are committed in order and their number returned; a malformed record returns -1 with the table unchanged; a record too long for the buffer is reported as an overrun |
| LocationStore.RecordsConsume | src/dbcmd.c:439-446 | each accepted record takes at least 50 characters |
| PrintedRecords.RowOfPrinted | src/dbcmd.c:474-507 | the row read from a record printed from values holds those values in the right columns |
| PrintedRecords.PrintedRecordValid | src/dbcmd.c:430-472 | a record printed from values is accepted if and only if its device id is from 3000000000 to 3999999999, it has at least 50 characters, and line and texts are within the splitter's limits |
| PrintedRecords.PrintedBatchIsStored | src/dbcmd.c:382-580 | end to end: in each framing a batch of such records is read whole and its rows are the printed values in order |
| LocationStore.FramingsAgree | src/dbcmd.c:382-472 | for every list of records the four framings are read alike: as exactly these records if and only if all are valid and fit, otherwise as the first bad one |
| Deduplication.ImportDownload | src/g7sendcmd.c:1119-1131 | a download is stored, then deduplicated if anything was stored |
| Deduplication.DedupIsFirsts | src/g7sendcmd.c:1123-1130 | deleting every key that is not the minimum of its group keeps exactly the first row of each group |
| Deduplication.ImportGroups | src/g7sendcmd.c:1119-1131 | after an import no two rows share device and time, and no group of the old table or the batch is lost |
| Deduplication.ImportKeeps | src/g7sendcmd.c:1119-1131 | the first rows of the old groups stay where they are; without old duplicates all old rows do |
| Deduplication.ReimportChangesNothing | src/g7sendcmd.c:1119-1131 | importing the same download twice leaves the rows of importing it once, whatever clock and addresses were the second time |
| GpxExport.ExportGpx | src/export.c:400-455 | the written tokens are the specified tracks, numbered from one |
| GpxTracks.PointsInOrder | src/export.c:416-452 | the points of all segments of all tracks are the exported points in order |
| GpxTracks.TracksExactly | src/export.c:416-452 | the tracks are the one division of the points, without empty parts, that cuts exactly where the gap exceeds a limit |
| GpxTracks.CutInSeconds | src/export.c:417-428 | the cut between two points in seconds, for limits in minutes and times that may run backwards |
| GpxTracks.ExportIsDocument | src/export.c:413-454 | the token stream is well nested with tracks numbered 1..k and reads back as the tracks; nothing is empty unless there are no points |
| GpxTracks.TracksIgnoreSegments | src/export.c:417-436 | the division into tracks is what the track limit alone gives |
| GpxTracks.SegmentsIgnoreTracks | src/g7config.c:331-336 | in an accepted configuration the segments are those the segment limit alone gives: tracks only bundle them |
| GpxTracks.AcceptedLimitsNest | src/g7config.c:331-336 | in an accepted configuration a segment starts exactly where the segment limit, a track exactly where the track limit is exceeded |
| GpxTracks.RefusedLimits | src/g7config.c:331-336 | the configurations refused are exactly those in which a track is never divided |
| TemplateDict.Dict.Add | src/dict.c:175-207 | a new key is appended, a present one refused; a full dictionary doubles and keeps its tuples |
| TemplateDict.Dict.GetVal | src/dict.c:258-266 | the value of the key, or none exactly if it is absent |
| TemplateDict.Substitute | src/dict.c:62-103 | the loop computes the replacement and its counter never cuts the template short |
| TemplateDict.Dict.ReplaceInBuf | src/dict.c:49-113 | overruns the work buffer exactly if the result with its NUL does not fit it; succeeds exactly if nothing exceeds the limits, with the replaced text in the buffer; otherwise the buffer is unchanged |
| TemplateLaws.PiecesExactly | src/dict.c:62-103 | a template has exactly one division into copied characters and references to the first tuple, regardless of case, for a closed known name of at most 255 characters |
| TemplateLaws.SameKeyExactly | src/dict.c:76-79 | two names are the same key exactly if they agree but for the case of letters |
| TemplateLaws.ReferenceGivesValue | src/dict.c:76-88 | a name in brackets gives at most 1024 characters of the value of the first key alike to it |
| TemplateLaws.KeyGivesItsValue | src/dict.c:76-88 | with keys that differ regardless of case each key gives its own value |
| TemplateLaws.OtherNamesStay | src/dict.c:89-98 | a name that is unknown or longer than 255 characters stays as it is |
| TemplateLaws.ValuesNotRescanned | src/dict.c:76-88 | what is replaced depends on the keys only |
| TemplateLaws.LengthLaw | src/dict.c:76-88 | length of the result plus what references take equals length of the template plus what values give |
| TemplateLaws.FitsExactly | src/dict.c:52-60 | the result with its NUL fits the work buffer if and only if the values given stay below the references taken plus 1024 for each tuple |
| TemplateLaws.FitsWhenUsedOnce | src/dict.c:52-60 | with a non-empty dictionary and each tuple used at most once it fits |
| TemplateLaws.EmptyDictionary | src/dict.c:52-60 | with an empty dictionary the text is unchanged and never fits with its NUL |
| TemplateLaws.RepeatedKeyOverflows | src/dict.c:52-60 | a long value used twice does not fit |
| UrlCodec.UrlEncode | src/utils.c:627-647 | the buffer holds the encoded text and zeros, and the allocation suffices |
| UrlCodec.UrlDecode | src/utils.c:656-680 | the buffer holds the decoded text and zeros, for every text, malformed ones included |
| UrlCodec.UrlDecodeBuff | src/utils.c:701-728 | what the bounded decoder writes, that it touches nothing else, and exactly when it fails |
| UrlCodec.DecodeOfEncode | src/utils.c:627-680 | decoding undoes encoding for every byte string |
| UrlCodec.EncodeOfDecode | src/utils.c:627-680 | encoding undoes decoding if and only if the text is one that encoding can produce |
| UrlCodec.EncodedAlphabet | src/utils.c:633-643 | an encoded text consists of the unreserved set of section 2.3 of RFC 3986, plus signs and upper-case percent triplets |
| UrlCodec.EncodedByte | src/utils.c:633-643 | what each byte is encoded as, with the hex digits written out |
| UrlCodec.HexDigits | src/utils.c:604-617 | the value of every hex digit in both cases |
| UrlCodec.BrokenPercent | src/utils.c:663-669 | a percent sign without two bytes behind it is dropped |
| UrlCodec.Encode | src/utils.c:627-647 | the encoded text has at most three times the length |
| UrlCodec.DecodeSomeIsPrefix | src/utils.c:701-728 | a bounded decoding is a prefix of the full one, and all of it when the steps suffice |
| ClientTable.Table.Accept | src/socklistener.c:211-261 | the lowest free slot is filled with socket, address, time, thread and kind, without target, and the count raised, or the connection refused exactly when the count has reached the size |
| ClientTable.Table.Release | src/g7cmd.c:2320-2333 | the exiting thread's slot is cleared and the count lowered |
| ClientTable.Table.List | src/g7srvcmd.c:306-334 | row k + 1 shows address, time, device id and mark of the k-th wanted slot |
| ClientTable.Table.SetTarget | src/g7sendcmd.c:519-562 | a number makes socket, device id and index of exactly the slot the device listing shows under it the client's target and changes nothing else; other numbers fail and change nothing; -1 goes back to USB |
| ClientTable.ListingIsComplete | src/g7srvcmd.c:306-334 | rows are in slot order and every wanted slot is shown |
| ClientTable.NumberSelects | src/g7sendcmd.c:537-562 | a shown slot has exactly one number, counting the shown slots up to it |
| ClientRuns.StepKeeps | src/tracker.c:754-768 | every accept, exit or change of a thread's own slot keeps count and ownership right |
| ClientRuns.CountIsExact | src/socklistener.c:211-261 | in every interleaving the count is the number of taken slots and of running threads, at most the table size, and threads have different slots |
| ClientRuns.RefusedWhenFull | src/socklistener.c:211-261 | in every run a connection is turned away if and only if the count has reached the table size |

## Left out

- CommandProtocol.StepKeeps: drawing, inserting and clearing are steps under their locks; finding a slot, writing a reply, and collecting one are each one step although no lock protects them, so a reply that changes while it is being scanned or copied is not modelled.
- CommandProtocol.RunInv: the clock passed to an insertion is assumed positive, since a slot is free when its time is zero.
- RateLimiter.WindowBound: assumes a clock that does not run backwards, callers one at a time, and that a sleep lasts at least as long as asked.
- GeoCache.RunHoldsHistory: number reading and the distance function are uninterpreted parameters; stale memory behind a text that was shortened on reuse is not modelled.
- GeoCacheStore.SaveReload: for entries whose line fits the read buffer, whose texts hold no semicolon or newline, whose address has at least five characters and does not end in white space.
- LocationStore.Database.StoreLocations: what happens after an overrun of the record buffer, database failures, the locked-table retries and the progress output are not modelled.
- TemplateDict.Dict.ReplaceInBuf: what happens after an overrun of the work buffer is not modelled.
- SendRuns.SuccessIsOwn: the memory behind the collected text, and stale field text behind an error reply without fields, are arbitrary parameters; reading in front of a collected text shorter than two characters counts as a missing CRLF.
- LocationStore.FramingsAgree: records are texts without brackets, NUL or CRLF, and the last is not empty.
- Deduplication.ImportDownload: the reading of the download from the device and its header line are not modelled.
- ClientRuns.CountIsExact: steps are those done under the socket lock; the table size is fixed.
- AssocArray.Assoc.Intersect: two different arrays are assumed not to share their pair storage; sorting an array uses the C library and is left out.
- GpxExport.ExportGpx: the timestamps are taken as given, although they are parsed from the address column at src/export.c:153; document header, bounds and the text of each point are left out.
- The minimap cache: the same ring as the address cache with image data; it would add only easy members.
- KML, CSV and XML export, the PDF reports, table drawing and mail: output formats without state.
- Sockets, the serial port, `select`, signals, daemonising, logging, configuration reading and the command tables: operating-system plumbing and finite tables.
- Memory exhaustion and reconfiguration while running.
