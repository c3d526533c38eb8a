# stmp2log, verified

stmp2log receives alert mails over SMTP, keeps them in a log-structured store, and passes
them on. This Dafny project models the parts of it that have the most state, branching and
arithmetic, and proves what they promise.

- **The mail store** (`Segments.dfy`, `Store.dfy`, and on values the files from
  `StoreModel.dfy` on, `DeletedReturns.dfy` last). Numbered segments of metadata lines,
  bodies and attachments on disk, and an index in memory. Classes with the source's fields
  compute the functions of `StoreModel`, and the theorems are about every run of append,
  delete, clear, regroup, change of retention and restart from an empty directory;
  `StoreEffects.dfy` tells each operation by the index and the message alone.
- **The glob matcher** (`Glob.dfy`), against the declarative meaning of `*`.
- **The retry queue and its flusher** (`Retry.dfy`, `Flusher.dfy`). A class for the queue,
  and a state machine in which any number of pushing and trimming threads interleave with
  the one flusher; a push is two steps, insert with eviction and then the permit.
- **The SMTP session** (`DataReader.dfy`, `SmtpSession.dfy`, `SessionLaws.dfy`,
  `SessionRuns.dfy`, `SessionInput.dfy`, `SessionDialogs.dfy`, `Session.dfy`). A class with
  the source's loop, theorems over all sessions that judge the state by the transcript of
  commands and replies, and theorems from the bytes a peer sends to who is logged in and what
  is handed over.
- **A mail's way out and in** (`Compose.dfy`, `MailFraming.dfy`, `MailHeaders.dfy`,
  `EncodedWords.dfy`, `HeaderTexts.dfy`, `MailDate.dfy`, `MailParse.dfy`, `MailReading.dfy`,
  `ComposeShape.dfy` and the round trips). What the client composes, the server unframes and
  the parser reads, and how the parser reads what others write.
- **Multipart bodies** (`Multipart.dfy`), **calendar arithmetic** (`Calendar.dfy`) and the
  **rewriting of the ini file** (`IniText.dfy` to `IniRoundTrip.dfy`).

`Wrappers`, `Octets`, `Texts`, `TextLaws`, `Utf8`, `Base64` and `Quoted` hold what several of these share.

Where the code does not do what one would expect, the exact condition is proved:

- After a restart a deleted message can be back, an old group can count again, and an evicted
  message can reappear: `StoreSync.ReclaimUndoesIff` says exactly which reclaims do that, and
  `DeletedReturns.DeletedMessageReturns` is a run with one.
- A message that comes back can lack its body, and then vanish
  (`DeletedReturns.ReturnsWithoutBody`, `DeletedReturns.ReturnedMessageVanishes`).
- The glob matcher misses matches in texts that contain a star (`Glob.ExactScope`).
- An append larger than a segment never returns (`SegmentLaws.EnsureOpenReturnsIff`).
- A date in the years 0 to 99 is read back in another century (`MailDate.DateReadsBackIff`).
- A second rewrite of an ini text can change its line endings
  (`IniRewrite.SecondRewriteIff`).
- An older alert that arrives while another is in flight, and finds room, breaks the order of
  the queue (`Flusher.OlderPushBreaksOrderIff`).
- A command line that starts with white space gets no reply at all (`SessionLaws.BlankIff`,
  `SessionLaws.EveryCommandIsAnsweredOnce`, `SessionLaws.LeadingBlankIsIgnored`).
- A subject that holds an encoded word, or starts with a blank, is read as something else
  (`MailRoundTrip.SubjectComesBackIff`).
- Settings with blanks or quotes at their ends, or with line feeds, are written and read back
  changed (`IniRoundTrip.SettingsComeBackIff`, `IniRoundTrip.LeadingBlankIsLost`).
- Lines sent without dot-stuffing arrive whole only under a condition
  (`DataReader.UnstuffedArrivesIff`); the composed messages meet it
  (`MailFraming.MessageArrives`).

`dafny verify dfyconfig.toml` checks the whole project.

## Assumptions

The functions that stand for code outside the model are parameters: the JSON codec of body
records, whose output is assumed to read back and to hold no line break; the character
decoders, assumed to undo the UTF-8 encoding that the project defines but to drop a byte-order
mark in front of a labelled text, and to make no more characters than there are bytes; lossy
decoding of a command line, assumed to make nothing only of nothing and, in `SessionInput` and
`SessionDialogs`, to read UTF-8 as what was encoded; base64 inside AUTH, assumed there to undo
the encoding that the project defines; the reading of a content
type, assumed only for the one the client writes; the condition of a query on the metadata, the
mail queue's answer to a message, the outcome of sending a queued alert, the clock, and the
challenge of CRAM-MD5, about which nothing is assumed.

## Model

| member | source | states |
|---|---|---|
| `Glob.Glob` | crates/s2l-store/src/match_.rs:165-192 | the greedy matcher with one remembered star terminates and computes the scan that the lemmas speak about |
| `Glob.SoundAndComplete` | crates/s2l-store/src/match_.rs:165-192 | `true` implies a match of the declarative pattern meaning on every text; on texts with no star before their last character, `false` implies no match |
| `Glob.ExactScope` | crates/s2l-store/src/match_.rs:165-192 | the matcher is exact for all patterns if and only if the text has no star before its last character |
| `Glob.PrefixPatternMatches` | crates/s2l-store/src/match_.rs:165-192 | a text matches, by the meaning of patterns, the pattern that repeats it up to and including one of its stars |
| `Glob.PrefixPatternScan` | crates/s2l-store/src/match_.rs:165-192 | the matcher says `false` to that pattern whenever the text goes on behind the star |
| `SegmentLaws.EnsureOpenDelivers` | crates/s2l-store/src/seg.rs:217-263 | after `ensure_open` the highest-numbered segment is current, has room for the request and fewer than the maximum of records counted |
| `SegmentLaws.TwoSwitchesSuffice` | crates/s2l-store/src/seg.rs:217-263 | for a request within the segment limit, at most two segment switches happen |
| `SegmentLaws.RollsOnlyWhenFull` | crates/s2l-store/src/seg.rs:217-263 | a current segment is left exactly when the request or one more record does not fit, and then for an empty one with the next number |
| `SegmentLaws.ResumesNewest` | crates/s2l-store/src/seg.rs:217-263 | after a restart the newest segment on disk goes on being written where the request fits; otherwise the next one is opened |
| `SegmentLaws.EnsureOpenReturnsIff` | crates/s2l-store/src/seg.rs:217-263 | `ensure_open` returns if and only if the request is within the segment limit |
| `SegmentLaws.ReclaimIs` | crates/s2l-store/src/lib.rs:418-431 | `reclaim` keeps exactly the segments that a live record points at and the current one, with their contents unchanged |
| `SegmentFiles.Segments.constructor` | crates/s2l-store/src/seg.rs:38-57 | opening sorts the segment numbers and starts without a current segment |
| `SegmentFiles.Segments.EnsureOpen` | crates/s2l-store/src/seg.rs:217-263 | the recursive method in place, equal to the value model, terminating for requests within the limit |
| `SegmentFiles.Segments.Append` | crates/s2l-store/src/seg.rs:138-185 | attachments, body line and metadata line are appended to the current segment, and the record says where |
| `SegmentFiles.Segments.SwitchSegment` | crates/s2l-store/src/seg.rs:217-263 | one round of the recursion: the newest segment that is not current, or a new one, becomes current, as in the value model |
| `SegmentFiles.Segments.AppendMeta` | crates/s2l-store/src/seg.rs:187-195 | one metadata line goes behind the others of the current segment, which is rolled first where needed |
| `SegmentFiles.Segments.DropSegment` | crates/s2l-store/src/seg.rs:197-206 | a segment other than the current one loses its files and its number |
| `SegmentFiles.Segments.ReadBody` | crates/s2l-store/src/seg.rs:108-120 | reads exactly the bytes a location names, and decodes them |
| `SegmentFiles.Segments.ReadAttachment` | crates/s2l-store/src/seg.rs:74-86 | reads the bytes an offset and a length name, or nothing past the end |
| `SegmentFiles.Segments.Stream` | crates/s2l-store/src/seg.rs:122-136 | yields the decodable lines of a body file in order |
| `BodyFiles.ReadLocated` | crates/s2l-store/src/seg.rs:108-120 | reading at a written location gives back the record that was written there |
| `BodyFiles.StreamYieldsAll` | crates/s2l-store/src/seg.rs:122-136 | streaming a body file yields every record written to it, once, in order |
| `BodyFiles.SpotsSlice` | crates/s2l-store/src/seg.rs:74-86 | the offsets kept for attachments cut out exactly their bytes |
| `MailStore.Store.constructor` | crates/s2l-store/src/lib.rs:104-143 | opening folds the metadata lines of all segments, in number order, into the live records, then enforces retention |
| `MailStore.Store.Append` | crates/s2l-store/src/lib.rs:145-217 | the message gets the next id, its record, with the columns and the group of the message one by one, goes to the end of the index, and what stays is the newest records within the limits |
| `MailStore.Store.Enforce` | crates/s2l-store/src/lib.rs:393-416 | keeps the newest records within the number and the age allowed and no fewer, and only if something went writes a floor line and reclaims |
| `MailStore.Store.Reclaim` | crates/s2l-store/src/lib.rs:418-431 | drops the segments that no record of the index is in, except the current one |
| `MailStore.Store.Delete` | crates/s2l-store/src/lib.rs:283-296 | removes the ids from the index; one line per requested id only if something was removed |
| `MailStore.Store.Clear` | crates/s2l-store/src/lib.rs:298-307 | empties the index, raises the floor to the next id, reclaims |
| `MailStore.Store.SetGroup` | crates/s2l-store/src/lib.rs:309-321 | rewrites the group in the index and appends the whole record again |
| `MailStore.Store.SetRetention` | crates/s2l-store/src/lib.rs:323-329 | sets the limits, and keeps the newest records within them and no fewer |
| `MailStore.Store.Get` | crates/s2l-store/src/lib.rs:266-281 | finds the record by id and reads its body |
| `MailStore.Store.Attachment` | crates/s2l-store/src/lib.rs:247-264 | finds the n-th kept attachment of a message and reads its bytes |
| `MailStore.Store.Query` | crates/s2l-store/src/lib.rs:219-245 | the page of the sorted hits and their number; in every reachable state it is the page of the one listing of exactly the indexed records that match and whose text or HTML, as read, contains the needle |
| `MailStore.Store.Search` | crates/s2l-store/src/lib.rs:219-233 | the hits in index order: what matches, and with a needle what the streaming search keeps |
| `MailStore.Store.BodyMatches` | crates/s2l-store/src/lib.rs:433-461 | streams the segments of the candidates and collects the candidates whose body contains the needle |
| `MailStore.ListingIsUnique` | crates/s2l-store/src/seg.rs:38-57 | a set of segment numbers has only one ascending listing, so the order in which the directory lists them does not matter |
| `StoreEffects.RetainedRightly` | crates/s2l-store/src/lib.rs:393-406 | what retention keeps is the end of the index: at most the limit, nothing in front older than so many days of 86 400 000 milliseconds; every evicted record was over the limit or too old |
| `StoreEffects.OneRetention` | crates/s2l-store/src/lib.rs:393-406 | only one listing meets that |
| `StoreEffects.AppendStaysIff` | crates/s2l-store/src/seg.rs:138-185 | a message goes to the current segment if and only if its attachments and 4096 bytes more fit behind the bodies there and one more record does |
| `StoreEffects.KeptAsItCame` | crates/s2l-store/src/lib.rs:145-217 | over every run, a kept message is listed with its own time, subject, recipients, peer, origin, user, size and number of attachments, with the sender of its header or else of its envelope, and stored with its own body, attachments and headers, now and after any reopening |
| `StoreEffects.OperationHasEffect` | crates/s2l-store/src/lib.rs:104-431 | in every reachable store each operation does to the index just what it is for: append adds the record of the message with its group, deletion takes the ids out, regrouping touches one record, and append, a change of limits and reopening evict as retention says |
| `StoreTheorems.StepKeeps` | crates/s2l-store/src/lib.rs:145-431 | every operation keeps the store's invariant, and every operation but deletion keeps log and index exactly equal |
| `StoreTheorems.RunKeeps` | crates/s2l-store/src/lib.rs:104-431 | every run from an empty directory keeps the invariant |
| `StoreTheorems.ReplayYieldsIndex` | crates/s2l-store/src/lib.rs:104-143 | over every run without deletion, replaying the segments that are left yields exactly the index, in order, with the latest groups |
| `StoreTheorems.IdsAreNeverReused` | crates/s2l-store/src/lib.rs:107-134 | over every run, ids grow strictly, and a reopened store continues above all of them |
| `StoreTheorems.KeptMessagesSurvive` | crates/s2l-store/src/lib.rs:145-281 | over every run, a message neither deleted, cleared nor evicted since is there now and after any reopening, with its original text and attachment bytes |
| `StoreTheorems.KeptIsReadable` | crates/s2l-store/src/lib.rs:266-281 | `get` and `attachment` return a kept message's own columns, body and files |
| `StoreTheorems.KeptOnlyLeavesOnRequest` | crates/s2l-store/src/lib.rs:283-431 | a kept message stops being kept only by deletion, clearing or retention |
| `StoreTheorems.RolledSegmentsHoldBodies` | crates/s2l-store/src/seg.rs:217-263 | every segment that stopped being current holds at least one body of its own |
| `StoreTheorems.SearchFindsExactly` | crates/s2l-store/src/lib.rs:433-461 | in every reachable state, the streaming body search keeps exactly the candidates whose `get` text or HTML contains the needle |
| `StoreQuery.FoundIsAnswer` | crates/s2l-store/src/lib.rs:219-245 | in every reachable state the sorted hits are exactly the records asked for, each once and in the order asked for |
| `StoreQuery.AnswerIsFound` | crates/s2l-store/src/lib.rs:238-241 | only one listing is an answer, whatever the sort does with equal times |
| `StoreQuery.ArrangedIs` | crates/s2l-store/src/lib.rs:238-241 | sorting keeps the records and puts them in order of time and id |
| `StoreQuery.AnswersAreByTime` | crates/s2l-store/src/lib.rs:238-241 | the newest first and of the same time the one stored last, or the other way round |
| `StoreQuery.PageShows` | crates/s2l-store/src/lib.rs:219-245 | a page is the stretch from the offset on, as long as was asked for, fifty without a number and at most five hundred, with the number of all hits |
| `StoreQuery.PagesCover` | crates/s2l-store/src/lib.rs:243-244 | pages of the clamped length, one after the other, show all records once and in order |
| `StoreRuns.StoreKeeps` | crates/s2l-store/src/lib.rs:145-217 | append keeps the invariant and remembers the new message |
| `StoreRuns.EnforceKeeps` | crates/s2l-store/src/lib.rs:393-416 | retention keeps the invariant for the messages it leaves |
| `StoreRuns.DeleteKeeps` | crates/s2l-store/src/lib.rs:283-296 | deletion keeps the invariant for the messages it leaves |
| `StoreRuns.ClearKeeps` | crates/s2l-store/src/lib.rs:298-307 | clearing keeps the invariant |
| `StoreRuns.RegroupKeeps` | crates/s2l-store/src/lib.rs:309-321 | regrouping keeps the invariant |
| `StoreRuns.ReopenKeeps` | crates/s2l-store/src/lib.rs:104-143 | reopening keeps the invariant with the same messages remembered |
| `StoreExact.ExactReclaim` | crates/s2l-store/src/lib.rs:418-431 | without deletions, dropping segments with old floor and regroup lines does not change what a replay yields |
| `StoreExact.ReplayIsIndex` | crates/s2l-store/src/lib.rs:104-143 | without deletions, the replayed records are exactly those of the index |
| `StoreExact.OrphanIsSilent` | crates/s2l-store/src/lib.rs:418-431 | a segment that no live record points at holds no line that the replay still needs |
| `StoreLog.ReplayIsLog` | crates/s2l-store/src/lib.rs:107-134 | replaying the segments is replaying their lines as one log |
| `StoreLog.LogReclaim` | crates/s2l-store/src/lib.rs:418-431 | reclaiming takes exactly the lines of unreferenced segments other than the current one out of the log |
| `StoreLog.ReopenedShowsIff` | crates/s2l-store/src/lib.rs:104-143 | a reopened store shows a record if and only if it is the last line about its id still on disk and no floor still on disk is above it |
| `StoreSync.RunIsSound` | crates/s2l-store/src/lib.rs:283-321 | over every run, with deletions: no id is recorded again after its deletion, and the index holds nothing that its log speaks against |
| `StoreSync.DropKeepsMirrorIff` | crates/s2l-store/src/lib.rs:418-431 | dropping segments keeps what the log shows if and only if no overruled record gets the last word again and no shown id loses all its records |
| `StoreSync.ReclaimUndoesIff` | crates/s2l-store/src/lib.rs:283-431 | in every reachable store in sync, an operation leaves it in sync if and only if it does not reclaim, or the segments it drops hold no deletion, regrouping or floor that overrules a record which stays, and not every record of a shown id |
| `StoreSync.OnlyBodilessVanish` | crates/s2l-store/src/lib.rs:418-431 | the second case happens only to a message whose own segment is gone already |
| `StoreSync.CleanRunsStayInSync` | crates/s2l-store/src/lib.rs:104-143 | over every run with deletions whose reclaims undo nothing, replay yields exactly the index |
| `DeletedReturns.DeletedMessageReturns` | crates/s2l-store/src/lib.rs:283-296 | for every limit on records from two on: a run in which a deleted message is back after reopening, because the segment with its deletion line was reclaimed |
| `DeletedReturns.ReturnsWithoutBody` | crates/s2l-store/src/lib.rs:309-321 | a run in which a deleted message is back by its regrouping line alone, without its body |
| `DeletedReturns.ReturnedMessageVanishes` | crates/s2l-store/src/lib.rs:418-431 | that message is shown until the next reclaim and gone after the restart that follows |
| `Retry.Queue.Insert` | crates/stmp2log/src/retry.rs:193-196 | an alert goes behind the last one that is not newer |
| `Retry.Queue.EvictTo` | crates/stmp2log/src/retry.rs:198-209 | the oldest go until the limit holds; a limit of zero never evicts |
| `Retry.Queue.Push` | crates/stmp2log/src/retry.rs:96-121 | insert, evict, count the evicted, give the permit |
| `Retry.Queue.Trim` | crates/stmp2log/src/retry.rs:123-130 | evict to the new limit and count |
| `Retry.Queue.Pop` | crates/stmp2log/src/retry.rs:132-135 | takes the front |
| `Retry.Queue.Requeue` | crates/stmp2log/src/retry.rs:137-140 | puts back in front |
| `Retry.Queue.Kick` | crates/stmp2log/src/retry.rs:181-184 | gives both permits |
| `Retry.Queue.Recovered` | crates/stmp2log/src/retry.rs:186-190 | gives the permit of the backoff wait unless the queue is empty |
| `Retry.Queue.Flush` | crates/stmp2log/src/pipeline.rs:552-591 | one undisturbed pass settles the entries before the first that still fails and puts that one back |
| `Retry.InsertKeepsSorted` | crates/stmp2log/src/retry.rs:193-196 | insertion keeps the queue in order of alert time |
| `Retry.EvictKeepsNewest` | crates/stmp2log/src/retry.rs:198-209 | exactly as many newest entries stay as the limit says, and every evicted one is before every one that stays |
| `Retry.RequeueKeepsSortedIff` | crates/stmp2log/src/retry.rs:137-140 | putting back in front keeps the order if and only if no queued entry belongs before the one put back |
| `Flusher.EveryAlertIsInOnePlace` | crates/stmp2log/src/retry.rs:96-140 | under every interleaving each alert ever pushed is exactly once in one of queue, in flight, sent, given up, evicted |
| `Flusher.DroppedCountsEvictions` | crates/stmp2log/src/retry.rs:104-130 | the counter never exceeds the evictions and equals them when nobody is between eviction and count |
| `Flusher.RunsStayBounded` | crates/stmp2log/src/pipeline.rs:552-591 | with a fixed positive limit the queue and the entry in flight together exceed it by at most one |
| `Flusher.NeverStuck` | crates/stmp2log/src/pipeline.rs:534-550 | no lost wake-up: a waiting flusher with a non-empty queue has its permit or a push about to give it; delays stay within 30 to 300 seconds |
| `Flusher.BackoffIsExponential` | crates/stmp2log/src/pipeline.rs:534-550 | in every reachable state the delay is thirty seconds doubled for every pass in a row that got nothing sent, up to five minutes, and thirty again after a success or idleness |
| `Flusher.BacklogStaysInOrder` | crates/stmp2log/src/retry.rs:132-140 | the queue stays sorted, ties in arrival order, in every run in which no older push finds room while an entry is in flight |
| `Flusher.OlderPushBreaksOrderIff` | crates/stmp2log/src/retry.rs:137-140 | for every limit, putting the entry in flight back leaves the queue sorted if and only if the alert pushed meanwhile is not older or the queue was full |
| `Flusher.UndisturbedPass` | crates/stmp2log/src/pipeline.rs:552-591 | the interleaved steps of a pass nobody disturbs end in the state that the pass on values gives |
| `Flusher.FlushLeavesSuffix` | crates/stmp2log/src/pipeline.rs:552-591 | what a pass leaves is the suffix from the first entry that still fails, that one with its attempts raised by one |
| `Flusher.RunsKeep` | crates/stmp2log/src/pipeline.rs:534-591 | all of the flusher's invariants hold in every reachable state |
| `Calendar.DayRoundTrip` | crates/s2l-notify/src/providers.rs:532-543 | every day number has a valid date, and `days_from_civil` gives the number back |
| `Calendar.DateRoundTrip` | crates/s2l-mail/src/date.rs:82-90 | every valid date, negative years included, comes back from its day number |
| `Calendar.NextDayIsNextNumber` | crates/s2l-mail/src/date.rs:82-90 | the next calendar day has the next day number |
| `Calendar.Epoch` | crates/s2l-notify/src/providers.rs:532-543 | day 0 is 1 January 1970 |
| `Calendar.YearOfEraIs` | crates/s2l-notify/src/providers.rs:532-543 | the closed formula for the year of an era is right for every day of it |
| `Multipart.SplitParts` | crates/s2l-mail/src/parse.rs:231-276 | the two loops compute the delimiter lines and the parts between them |
| `Multipart.FindBounds` | crates/s2l-mail/src/parse.rs:236-258 | the scan finds the delimiter lines up to the closing one |
| `Multipart.SplitUndoesAssembly` | crates/s2l-mail/src/parse.rs:231-276 | splitting a body assembled as in section 5.1.1 of RFC 2046 gives back its non-empty parts, with any preamble and epilogue; it gives back all parts if and only if none is empty |
| `DataReader.ReadData` | crates/s2l-smtp/src/session.rs:477-517 | the loop reads the lines up to the terminator, keeps the text while it fits, and goes on reading when it does not |
| `DataReader.ReadingUndoesStuffing` | crates/s2l-smtp/src/session.rs:477-517 | reading undoes the dot-stuffing of section 4.5.2 of RFC 5321 for all lines, stops right behind the terminator, and is too big exactly if the unstuffed lines with their endings exceed the limit |
| `DataReader.LostPeerKeepsWhatArrived` | crates/s2l-smtp/src/session.rs:495-500 | lines that arrived before the connection ended are kept, an unfinished one too |
| `DataReader.UnstuffedArrivesIff` | crates/s2l-smtp/src/session.rs:501-509 | lines sent without stuffing arrive as they are if and only if none is a lone dot or starts with two dots |
| `Session.Session.Run` | crates/s2l-smtp/src/session.rs:103-275 | the loop over lines ends in a state and with replies that are those of a run of turns |
| `Session.Session.Handle` | crates/s2l-smtp/src/session.rs:144-273 | one command changes the state and replies as the value model says |
| `Session.Session.HandleAuth` | crates/s2l-smtp/src/session.rs:370-474 | the AUTH exchange as the value model says, false when the peer went away |
| `Session.Session.HandleData` | crates/s2l-smtp/src/session.rs:203-248 | 354, the message read and offered to the queue, one answer, the envelope reset |
| `Session.Session.ReadAuthLine` | crates/s2l-smtp/src/session.rs:545-575 | one line inside AUTH: cancelled by a star, gone at the end of the input, else decoded |
| `Session.Session.WriteEhlo` | crates/s2l-smtp/src/session.rs:297-321 | the capabilities, all but the last with a dash |
| `SessionInput.CommandWords` | crates/s2l-smtp/src/session.rs:139-273 | each command is recognised by its word, in any letter case, and by nothing else; EHLO and HELO take the trimmed rest of the line |
| `SessionInput.SenderIsRead` | crates/s2l-smtp/src/session.rs:181-189 | MAIL names as sender what stands in the brackets behind `FROM:`, or the first word without brackets, in any letter case and with any blanks around; an open bracket is a syntax error |
| `SessionInput.RecipientIsRead` | crates/s2l-smtp/src/session.rs:190-202 | RCPT names its recipient behind `TO:` in the same way |
| `SessionInput.PlainSenderIsRead` | crates/s2l-smtp/src/session.rs:614-630 | the bytes `MAIL FROM:<a>` name a as sender |
| `SessionInput.PlainRecipientIsRead` | crates/s2l-smtp/src/session.rs:614-630 | the bytes `RCPT TO:<a>` name a as recipient |
| `SessionInput.EveryTextIsAParam` | crates/s2l-smtp/src/session.rs:614-630 | every text behind the keyword is of one of these four forms, so the reading of all of them is known |
| `SessionInput.NoKeyword` | crates/s2l-smtp/src/session.rs:614-630 | without the keyword there is no address |
| `SessionInput.AuthGivesResponse` | crates/s2l-smtp/src/session.rs:380-389 | the second word of AUTH is the first response in base64, and `=` an empty one |
| `SessionDialogs.PlainLogsInIff` | crates/s2l-smtp/src/session.rs:401-420 | PLAIN with the response on the AUTH line or the next one logs the peer in as the second field if and only if the second and third fields are the user and the password that the policy names |
| `SessionDialogs.LoginLogsInIff` | crates/s2l-smtp/src/session.rs:421-436 | LOGIN takes the user from the AUTH line or the first answer and the password from the next, and logs in if and only if they are what the policy names |
| `SessionDialogs.CramLogsInIff` | crates/s2l-smtp/src/session.rs:437-448 | CRAM-MD5 takes the first word of the answer as the user and looks at nothing else, so a policy with a password refuses it |
| `SessionDialogs.AsteriskAborts` | crates/s2l-smtp/src/session.rs:362-368 | a lone asterisk in answer ends any exchange with 501 and nobody logged in by it |
| `SessionDialogs.TransactionIsHandedOver` | crates/s2l-smtp/src/session.rs:181-248 | the bytes of MAIL, one to a hundred RCPT, DATA, a message with its dots doubled and the dot: each line is answered, and unless the message is too big or the queue refuses it, exactly the addresses of those lines and the bytes of that message are handed over, with the user logged in |
| `SessionDialogs.MessageIsTaken` | crates/s2l-smtp/src/session.rs:203-248 | the same for DATA behind any envelope, with the placeholders where no sender or no recipient was named |
| `SessionDialogs.EnvelopeCommandCodes` | crates/s2l-smtp/src/session.rs:174-202 | MAIL and RCPT get 530 where a login is missing, else 501 without an address, 452 over a hundred recipients, or 250, and a refused one changes nothing |
| `SessionDialogs.GreetingCodes` | crates/s2l-smtp/src/session.rs:145-158 | EHLO and HELO get 250, keep the name and empty the envelope |
| `SessionDialogs.TlsCodes` | crates/s2l-smtp/src/session.rs:159-168 | STARTTLS gets 503 where TLS is active, 220 where it is offered and else 454, and only with 220 does a session switch to TLS |
| `SessionDialogs.PlainCommandCodes` | crates/s2l-smtp/src/session.rs:249-273 | the reply codes of RSET, NOOP, VRFY, HELP, QUIT and unknown words; only RSET changes anything and only QUIT ends the session |
| `SessionDialogs.DataCodes` | crates/s2l-smtp/src/session.rs:203-248 | DATA gets 354 and then 552, 250, 451 or 421 by the size and the queue's answer, or 530 where a login is missing |
| `SessionDialogs.AuthCodes` | crates/s2l-smtp/src/session.rs:362-474 | AUTH ends with 235, 535, 501 or 504 by the outcome of the exchange, behind the requests made |
| `SessionDialogs.OffersAreKept` | crates/s2l-smtp/src/session.rs:284-321 | EHLO offers STARTTLS exactly if the command would be accepted, and CRAM-MD5 exactly if some answer to its challenge could log in; it names the size limit |
| `SessionDialogs.LongLineIsCut` | crates/s2l-smtp/src/session.rs:519-543 | a line over 2048 bytes is read as its first 2048, and nothing of it is left |
| `SessionLaws.EveryCommandIsAnsweredOnce` | crates/s2l-smtp/src/session.rs:126-274 | each line read that begins with a command word gets exactly one closing reply, as the last thing said, unless the peer leaves inside AUTH; an empty line or one that starts with white space gets nothing and changes nothing |
| `SessionLaws.BlankIff` | crates/s2l-smtp/src/session.rs:605-612 | a line is read as no command if and only if it is empty or starts with white space |
| `SessionLaws.LeadingBlankIsIgnored` | crates/s2l-smtp/src/session.rs:605-612 | NOOP is answered, and the same line with a blank in front is not |
| `SessionLaws.WireTells` | crates/s2l-smtp/src/session.rs:297-321 | the reply on the wire tells its code, whether more lines follow, and so whether it closes the exchange |
| `SessionLaws.AuthAnswersOnce` | crates/s2l-smtp/src/session.rs:370-474 | AUTH gets 334s and then exactly one of 235, 501, 504, 535, or only 334s when the peer goes away |
| `SessionLaws.DataAnswersOnce` | crates/s2l-smtp/src/session.rs:203-248 | DATA gets 354 and then exactly one of 250, 451, 421, 552, and the input is read through the terminator in every case; without a required login 530 and nothing changes |
| `SessionRuns.RepliesStayInStep` | crates/s2l-smtp/src/session.rs:126-274 | over every session, as many closing replies as lines read that begin with a command word, but for a last AUTH the peer left |
| `SessionRuns.TakenAsTold` | crates/s2l-smtp/src/session.rs:224-237 | over every session, the messages handed over are as many as the replies `message accepted`, and the session's own count agrees |
| `SessionRuns.EnvelopeIsTheTranscripts` | crates/s2l-smtp/src/session.rs:145-248 | the envelope that the session keeps is what the transcript of commands and replies says was accepted, at most 100 recipients |
| `SessionRuns.EnvelopesStayApart` | crates/s2l-smtp/src/session.rs:277-282 | nothing from before the last MAIL, EHLO, HELO, RSET or DATA counts |
| `SessionRuns.UserIsTheLastLogins` | crates/s2l-smtp/src/session.rs:463-465 | the user is the one of the last exchange that passed the check |
| `SessionRuns.EveryMessageIsFaithful` | crates/s2l-smtp/src/session.rs:208-223 | every message handed over has the transcript's sender, recipients, bytes and user, with the placeholders where there is none, and under a login policy a checked user |
| `SessionRuns.PolicyHolds` | crates/s2l-smtp/src/session.rs:323-346 | over every session, under a policy that names a user or a password, every message handed over has that user, and the last login before it gave them |
| `Compose.Encoded` | crates/s2l-notify/src/smtp.rs:575-597 | the loop over characters cuts a subject into encoded words, or leaves it plain |
| `Compose.Base64Lines` | crates/s2l-notify/src/smtp.rs:561-573 | the body in lines of 76 characters, one empty line for an empty body |
| `Compose.MessageIsLines` | crates/s2l-notify/src/smtp.rs:526-543 | the composed message is its folded header lines, an empty line and its body lines |
| `MailFraming.PiecesAreExact` | crates/s2l-notify/src/smtp.rs:575-597 | cutting a subject loses nothing, and each encoded word has at most 75 characters |
| `ComposeShape.PiecesAreGreedy` | crates/s2l-notify/src/smtp.rs:575-597 | a piece ends only where the next character would not have fitted |
| `ComposeShape.SubjectIsPlainIff` | crates/s2l-notify/src/smtp.rs:575-597 | a subject of printable ASCII and line breaks is sent as it is with blanks for the breaks, and every other one in folded encoded words |
| `ComposeShape.ChunksAreFull` | crates/s2l-notify/src/smtp.rs:561-573 | the body's lines join to its base64 text, with 76 characters in each but the last |
| `ComposeShape.HeadersOfMessage` | crates/s2l-notify/src/smtp.rs:526-543 | a composed message has, for any reader, exactly its ten headers in their order, each with its name and value |
| `ComposeShape.RecipientsAreListed` | crates/s2l-notify/src/smtp.rs:526-543 | the To header unfolds to the recipients with a comma and a blank between them |
| `ComposeShape.ClockShows` | crates/s2l-notify/src/smtp.rs:599-616 | two digits each for hours, minutes and seconds |
| `ComposeShape.DaysAreNamed` | crates/s2l-notify/src/smtp.rs:599-616 | the name of the day is that of the day number |
| `MailFraming.MessageArrives` | crates/s2l-notify/src/smtp.rs:463-474 | a composed message sent without stuffing, then the terminator, is read by the server as exactly its bytes if it fits, and the rest of the stream is left |
| `Base64.DecodeUndoesEncode` | crates/s2l-mail/src/parse.rs:329-344 | decoding undoes encoding for all bytes |
| `Base64.EncodingShape` | crates/s2l-notify/src/smtp.rs:561-573 | four characters for every three bytes begun, all from the alphabet |
| `Base64.GroupsAreNumbers` | crates/s2l-notify/src/smtp.rs:561-573 | every four letters spell, in base 64, the number that their three bytes are in base 256, and padding stands exactly for the bytes that are missing |
| `Base64.DecodesIff` | crates/s2l-mail/src/parse.rs:329-344 | a text is decoded if and only if it is letters, not one more than a multiple of four, with at most as much padding as their number allows |
| `EncodedWords.Decode` | crates/s2l-mail/src/word.rs:4-56 | the loop over encoded words, held-back blanks and other text |
| `SubjectRoundTrip.ParseWordReadsWord` | crates/s2l-mail/src/word.rs:58-83 | an encoded word that the client wrote is read as its piece but for a byte-order mark in front, and consumed whole |
| `SubjectRoundTrip.JoinedWordsDecode` | crates/s2l-mail/src/word.rs:4-56 | encoded words with blanks between them decode to what is read of each, with nothing between them |
| `SubjectRoundTrip.EncodedSubjectComesBackIff` | crates/s2l-mail/src/word.rs:4-56 | a subject sent in encoded words comes back if and only if none of its pieces starts with a byte-order mark |
| `SubjectRoundTrip.PlainComesBackIff` | crates/s2l-mail/src/word.rs:4-83 | an ASCII text is decoded to itself if and only if no encoded word can be parsed in it, and never to something longer |
| `HeaderTexts.WordIsRead` | crates/s2l-mail/src/word.rs:58-83 | an encoded word with any charset, language and either encoding is read as its bytes under that charset, and consumed whole |
| `HeaderTexts.ValueIsRead` | crates/s2l-mail/src/word.rs:4-56 | any value of words and texts is decoded to what they mean: words by their charset, texts as they are, blanks between two words dropped and all others kept |
| `Quoted.Decode` | crates/s2l-mail/src/qp.rs:2-42 | the loop over escapes, soft line breaks and other bytes |
| `Quoted.NeverGrows` | crates/s2l-mail/src/qp.rs:2-42 | decoding quoted-printable gives no more bytes than it takes |
| `Quoted.TextIsRead` | crates/s2l-mail/src/qp.rs:2-51 | every text of plain bytes, escapes in either letter case, soft line breaks and, in headers, underscores is decoded to what these mean |
| `Quoted.StrayEqualsIsKept` | crates/s2l-mail/src/qp.rs:2-42 | an equals sign that begins none of these stands for itself |
| `MailHeaders.FindBlankLine` | crates/s2l-mail/src/parse.rs:62-72 | the scan for the first blank line |
| `MailHeaders.Unfold` | crates/s2l-mail/src/parse.rs:74-99 | the loop over header lines, with continuation lines joined to the header before them |
| `MailHeaders.SplitOfMessage` | crates/s2l-mail/src/parse.rs:47-60 | header lines, a blank line and a body are split exactly there |
| `MailParse.Parse` | crates/s2l-mail/src/parse.rs:8-45 | the loop over headers takes the last of each kind, then the body is decoded |
| `MailReading.MessageIsSplit` | crates/s2l-mail/src/parse.rs:47-99 | a message with either line ending is split at its first empty line, and its headers are those of its header lines |
| `MailReading.FieldIsTaken` | crates/s2l-mail/src/parse.rs:74-99 | a header line gives its trimmed name and its value without the blanks in front, with or without a carriage return |
| `MailReading.ContinuationIsTaken` | crates/s2l-mail/src/parse.rs:74-99 | a line that begins with a blank or a tab continues the header before it with one blank between, and is dropped where there is none |
| `MailReading.LastHeaderCounts` | crates/s2l-mail/src/parse.rs:8-32 | of the headers with the same name, in any letter case, the last one gives the subject or the date |
| `MailReading.EncodingIs` | crates/s2l-mail/src/parse.rs:311-327 | the transfer encoding is recognised by its name in any letter case and with blanks around |
| `MailReading.BodyIsDecoded` | crates/s2l-mail/src/parse.rs:278-284 | a base64 body with any white space in it gives its bytes, and itself if it is none; a quoted-printable body gives what it means; any other stays |
| `MailReading.EndingsAreFeeds` | crates/s2l-mail/src/parse.rs:217-222 | every line ending becomes a line feed and nothing else changes |
| `HeaderRoundTrip.FieldsUnfold` | crates/s2l-mail/src/parse.rs:74-99 | folded headers come back in order, each with its value unfolded |
| `HeaderRoundTrip.MessageSplits` | crates/s2l-mail/src/parse.rs:47-99 | splitting and unfolding a composed message gives its headers and its body |
| `MailDate.DateReadsBackIff` | crates/s2l-mail/src/date.rs:2-43 | the date the client writes is read back to the second if and only if its year is not between 0 and 99 |
| `MailDate.LocalTimeIsReadIff` | crates/s2l-mail/src/date.rs:2-80 | an instant in words, as the local time of any numeric zone, named zone or none, with or without the name of the day and a comment, is read as that instant if and only if the local year is not between 0 and 99 |
| `MailDate.ZoneIsRead` | crates/s2l-mail/src/date.rs:56-80 | hours and minutes with their sign, the named zones in any letter case as whole hours behind, and a zone that is missing, unknown or broken as universal time |
| `MailDate.WordingIsRead` | crates/s2l-mail/src/date.rs:2-43 | what counts in a date in words: its numbers, month, clock and zone, and neither the name of the day nor a comment |
| `MailDate.MonthIsReadIff` | crates/s2l-mail/src/date.rs:45-54 | a word is a month exactly by its first three letters, in any letter case |
| `MailDate.NumbersAssembled` | crates/s2l-mail/src/date.rs:21-43 | the numbers are put together as they are, and refused exactly if the day, hour, minute or second is none |
| `MailDate.SecondsAreOptional` | crates/s2l-mail/src/date.rs:31-35 | a clock without seconds is the full minute |
| `MailDate.TwoDigitYears` | crates/s2l-mail/src/date.rs:25-29 | a year of two digits is the one of 1950 to 2049 that ends with them |
| `MailRoundTrip.SubjectComesBackIff` | crates/s2l-notify/src/smtp.rs:575-597 | a subject comes back with its line breaks as blanks if and only if, plain, it starts with no blank and holds no encoded word or, encoded, no piece starts with a byte-order mark |
| `MailRoundTrip.TextComesBackIff` | crates/s2l-mail/src/parse.rs:329-344 | a body's text comes back if and only if it does not start with a byte-order mark |
| `MailRoundTrip.BodyComesBack` | crates/s2l-mail/src/parse.rs:329-344 | the body's base64 lines decode to its bytes |
| `MailRoundTrip.MessageIsRead` | crates/s2l-mail/src/parse.rs:8-45 | what the parser reads in every composed message: subject, date and text |
| `MailRoundTrip.MailComesBack` | crates/s2l-notify/src/smtp.rs:463-474 | the whole way of an alert, composed, framed, read by the server, parsed, with the exact conditions for subject, text and date |
| `IniText.Update` | crates/stmp2log/src/config.rs:506-554 | the loop over lines replaces the named settings, and missing ones are appended under a comment |
| `IniLaws.SettingIsRead` | crates/stmp2log/src/config.rs:431-434 | a written setting, with or without a comment behind it, is read as what the parser leaves of its value; without line feeds that is the value itself if and only if it has no comment sign and no blank or quote at its ends |
| `IniLaws.UpdateIsRead` | crates/stmp2log/src/config.rs:518-545 | in the updated lines other keys read as before, changed keys have what the parser leaves of the new value wherever they stand, none is missing |
| `IniLaws.SafeIff` | crates/stmp2log/src/config.rs:431-434 | the values without line feeds that the parser leaves alone are exactly those without comment signs and without blanks or quotes at their ends |
| `IniRewrite.RewriteIsRead` | crates/stmp2log/src/config.rs:506-554 | the same for the whole rewritten text |
| `IniRewrite.SecondRewriteIff` | crates/stmp2log/src/config.rs:506-554 | a second rewrite changes nothing if and only if the text did not end in a bare carriage return on a line that is kept, with no other line ending of both characters |
| `IniRewrite.BareReturnIsRewritten` | crates/stmp2log/src/config.rs:506-554 | the smallest text for which a second rewrite does change something |
| `IniReading.LineIsRead` | crates/stmp2log/src/config.rs:295-314 | a setting with byte-order marks, blanks and a comment around it is an entry of its name in small letters and of its value |
| `IniReading.ValueIsRead` | crates/stmp2log/src/config.rs:431-434 | a value is the text between its quotes, whose blanks stay, or else without the blanks around it, and in either case without the comment |
| `IniReading.OtherLinesStay` | crates/stmp2log/src/config.rs:518-545 | a rewrite leaves every line that no change names as it is, to the last character |
| `IniReading.ChangedLineIs` | crates/stmp2log/src/config.rs:518-545 | the line of a changed setting becomes name and new value, and keeps its comment behind one blank |
| `IniReading.MissingAreAppended` | crates/stmp2log/src/config.rs:535-545 | settings that no line had come last and in order, under the comment line, which an empty line sets off from text before it |
| `IniReading.LimitStaysPositive` | crates/stmp2log/src/config.rs:371-377 | whatever a file says, the limit on entries stays above zero |
| `IniReading.SwitchIsOnIff` | crates/stmp2log/src/config.rs:436-441 | a switch is on for `1`, `true`, `yes` and `on` in any letter case, and off for everything else |
| `IniReading.SizeIsRead` | crates/stmp2log/src/config.rs:476-491 | a size is its number times its unit, in either letter case, with or without a `b`, modulo the machine word |
| `IniSettings.Parse` | crates/stmp2log/src/config.rs:289-407 | the loop over lines sets one field per entry |
| `IniSettings.SizeComesBack` | crates/stmp2log/src/config.rs:476-491 | every size comes back from the short form of `human_size` |
| `IniRoundTrip.SettingsAreRead` | crates/stmp2log/src/config.rs:506-554 | for any text and any settings without line feeds, what is parsed from the rewritten text is what the parser makes of each setting, and every other key reads as before |
| `IniRoundTrip.SettingsComeBackIff` | crates/stmp2log/src/config.rs:506-554 | for any text and any settings in range, the settings come back if and only if every text has no line feed, no comment sign and no blank or quote at its ends, addresses no slash at theirs, and an empty host name was the one before |
| `IniRoundTrip.SecondUpdateIff` | crates/stmp2log/src/config.rs:506-554 | with such settings a second rewrite changes nothing unless the text ended in a bare carriage return |
| `IniRoundTrip.LeadingBlankIsLost` | crates/stmp2log/src/config.rs:150-157 | a password with a blank in front, which the page accepts, is read back without it |

## Left out

- File-system errors, torn writes, and a crash inside an operation: restarts happen between operations.
- The metadata codec: metadata lines are records, body lines go through an abstract codec.
- Machine integers of ids, segment numbers and times: ids are unbounded, so a deletion that names the largest 64-bit id is outside the model, as are day numbers near the 64-bit limits.
- StoreTheorems.KeptMessagesSurvive: for messages whose encoded body is below 4 GiB and which fit a segment with their attachments; lengths are stored as 32 bits in `StoreModel`, and larger appends are what `SegmentLaws.EnsureOpenReturnsIff` is about. The group is what a reclaimed regrouping line can take back, as `StoreSync.ReclaimUndoesIff` says.
- StoreTheorems.ReplayYieldsIndex: without deletion only; with it the statement is false, and `StoreSync.ReclaimUndoesIff` is the exact condition, step by step.
- MailStore.Store.Query: the metadata condition is a parameter, and the case-insensitive search is `env.contains`.
- Statistics and disk usage of the store.
- The directory listing, file handles and locks of the store; the store is used by one caller at a time, as its mutex enforces.
- Multipart.SplitUndoesAssembly: for boundaries without CR or LF, a preamble that is empty or ends its last line, and no delimiter at the start of a line of a part or of the preamble.
- MailParse.Parse: nested multipart messages, attachments and HTML bodies in `walk` are a parameter; addresses, the message id and the list of all headers are not part of the mail that is read.
- MailRoundTrip.MailComesBack: addresses and the message id without line breaks, which the client does not fold or encode.
- The random part of the Message-ID, and the character-set tables.
- Numbers in a Date header beyond 64 bits, which the source refuses and the model accepts.
- The wording of the replies behind their codes, which only people read.
- Time-outs, TLS, sockets, tracing and logging of the SMTP session, and its `421` reply to an idle peer; the offer of STARTTLS is fixed during a session.
- The server's settings cannot change in the middle of a session, as in the source, which takes a copy per connection.
- Flusher.NeverStuck: says that a step towards the next pass is always possible, not that a fair scheduler takes it; the backoff wait may end at any moment.
- Sending a queued alert: an oracle that says sent, later or give up.
- IniSettings.Parse: the listen addresses, the data directory, the web password and path are kept as the entries that were read, which the page cannot change and which stay the same; warnings and line numbers are not modelled.
- IniRoundTrip.SettingsComeBackIff: for numbers in the range of their types, at least one entry, a size in its short form, and a configuration that starts without line feeds in its texts, as the built-in one does.
- IniRewrite.SecondRewriteIff: for values without comment signs, line feeds, or blanks or quotes at their ends; the page refuses only the first of these.
- A size whose product with its unit exceeds 64 bits wraps around in `IniSettings.ParseSize`, as in a release build.
- HTTP delivery, web hooks, the web server, grouping rules and templates, which would add easier members only.
