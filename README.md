# Comic CMS bot — a verified model

The system is a Telegram bot plus a small web site for publishing comics
(`app.py`). The administrator talks to the bot to do three things:

- add a work (title, description, cover);
- add chapters to a work, either as a ZIP archive of chapter folders or page by page;
- delete a work.

The whole catalog is kept as JSON in one pinned message of a private channel.
`MASTER_MESSAGE_ID` is the handle of that message. The site lists the catalog.

This project models the core of that program in Dafny and proves its properties.

| file | models |
|---|---|
| `text.dfy` | the parts of Python's `str` the code relies on, on ASCII: `\w`, `\s`, `\d`, `lower`, `strip`, `startswith`/`endswith`, string order |
| `order.dfy` | Python's comparison of lists of strings and integers; `list.sort`/`sorted` as a stable insertion sort, proved to return a sorted permutation that keeps the order of equal keys |
| `slug.dfy` | `slugify`, as its three rewriting steps |
| `chapter_number.dfy` | `extract_chapter_number` |
| `natural_sort.dfy` | the natural-sort key of archive file names |
| `ingest.dfy` | `process_zip_chapters`: the functions that say what it returns, and the loops of the source as methods proved against them |
| `catalog.dfy` | the catalog (`MANGA_DATA`), the ways the handlers change it, its totals, the title lookup of the text commands, and the order of the home page |
| `persistence.dfy` | the JSON envelope, `load_data_from_channel` and `save_data_to_channel` as functions of what the channel answers |
| `conversation.dfy` | the conversation states, the handler table of `setup_bot`, the `admin_only` guard, every handler as an effect on catalog and session, and one update as a step of the whole state |
| `bot.dfy` | the running bot as a class whose fields are the mutable state; its methods are proved against the functions above |
| `wrappers.dfy` | `Option` |

Outside services are inputs to the model:

- The uploader is a function from entry name and caption to an optional file reference.
- The channel's answers to each send, edit, pin, unpin and delete are a `Sink` record.
- The length of the serialized JSON is a number.
- A pinned message is represented by the JSON value it parses to.

## Model

| member | source | states |
|---|---|---|
| Text.Lower | app.py:131 | lowering keeps the length and lowers each character; no upper-case letter is left |
| Text.Strip | app.py:985 | the result is a middle slice `s[a..b]` of its input with only white space before `a` and from `b` on, and it neither starts nor ends with white space |
| Text.LowerIdempotent | app.py:652 | lowering twice is lowering once, so comparisons of lowered titles are stable |
| Text.StrLessTotal | app.py:60 | two different strings are ordered one way or the other |
| Text.StrLessTransitive | app.py:60 | string order is transitive |
| Order.KeyLessTotal | app.py:177 | two different sort keys are ordered one way or the other |
| Order.KeyLessTransitive | app.py:177 | the order of sort keys is transitive |
| Order.SortByPermutation | app.py:177 | sorting returns a permutation of its input |
| Order.SortBySorted | app.py:177 | sorting returns a list in key order |
| Order.SortByStable | app.py:177 | for every key, the elements with that key keep their relative order |
| Order.SortByCorrect | app.py:60 | sorting is a stable sort: a sorted permutation that keeps the order of equal keys |
| Slug.Slugify | app.py:128-133 | the result is a slug: only lower-case letters, digits, `_` and `-`, no white space, no two hyphens in a row, no hyphen at either end |
| Slug.SlugifyKeepsWordChars | app.py:128-133 | the slug keeps exactly the word characters of the lowered title, in order; only hyphens are added |
| Slug.SlugifyFixedPoints | app.py:128-133 | a string is its own slug exactly when it is a slug, so slugifying twice is slugifying once |
| Slug.SlugifyPaddedJoin | app.py:128-133 | two words separated and surrounded by runs of white space and hyphens become the lowered words joined by one hyphen |
| Slug.SlugifyThreeWords | app.py:128-133 | three words separated by runs of white space and hyphens become the lowered words joined by single hyphens |
| Slug.SlugifyIgnoresUnkept | app.py:131 | characters other than word characters, white space and hyphens appended to a title leave its slug unchanged |
| Slug.SlugifyExampleTestComic | test_comprehensive.py:183 | "Test Comic" becomes "test-comic" |
| Slug.SlugifyExampleAmazingStory | test_comprehensive.py:184 | "My Amazing Story!" becomes "my-amazing-story" |
| Slug.SlugifyExampleSpecialCharacters | test_comprehensive.py:185 | "Special-Characters @#$" becomes "special-characters" |
| Slug.SlugifyExampleMultipleSpaces | test_comprehensive.py:186 | "   Multiple   Spaces   " becomes "multiple-spaces" |
| ChapterNumber.ExtractChapterNumberIsFirstNumeral | app.py:135-146 | the key is the integer-or-decimal numeral that starts at the name's first digit; a name with no digit is its own key, case kept; the label and lowering never change the result |
| ChapterNumber.Numeral | app.py:141 | the numeral is a prefix of its input, is a digit run with at most one `.` and digit run, and is the longest such prefix |
| ChapterNumber.SearchNumeral | app.py:141 | nothing is found exactly when there is no digit; otherwise the numeral at the first digit |
| ChapterNumber.LabelLength | app.py:138 | the label and separators removed contain no digit |
| ChapterNumber.SearchAfterLabel | app.py:138-141 | removing the label never changes the numeral found |
| ChapterNumber.SearchLowered | app.py:138-141 | lowering never changes the numeral found |
| ChapterNumber.ExtractAfterPrefix | app.py:135-146 | digit-free text followed by a digit gives the numeral at that digit |
| ChapterNumber.ExtractWithoutDigits | app.py:146 | a name without digits is returned unchanged |
| ChapterNumber.ExtractExampleChapter | test_comprehensive.py:199 | "Chapter 1" gives "1" |
| ChapterNumber.ExtractExampleCh | test_comprehensive.py:200 | "ch 2.5" gives "2.5" |
| ChapterNumber.ExtractExampleEpisode | test_comprehensive.py:201 | "Episode 10" gives "10" |
| ChapterNumber.ExtractExampleLeadingZero | test_comprehensive.py:202 | "chapter-03" gives "03": the leading zero stays |
| ChapterNumber.ExtractExampleWithoutDigits | test_comprehensive.py:203 | "Special Chapter" is its own key |
| NaturalSort.Split | app.py:177 | the pieces alternate text without digits and digit runs, starting and ending with text |
| NaturalSort.SplitConcat | app.py:177 | the pieces joined give the name back |
| NaturalSort.NaturalKey | app.py:177 | the key has strings at even positions and integers at odd ones, starting and ending with a string, so two keys never compare a string with an integer |
| NaturalSort.KeysAgreeInKind | app.py:177 | at any position two keys hold parts of the same kind |
| NaturalSort.NaturalKeyJoin | app.py:177 | text, digits and the rest give the lowered text, the digits' value, then the key of the rest |
| NaturalSort.NumberedPagesInNumericOrder | app.py:177 | names that differ in their number sort by its value, not by its digits |
| NaturalSort.LeadingZerosTie | app.py:177 | numbers with the same value, leading zeros or not, give equal keys |
| NaturalSort.NaturalKeyIgnoresCase | app.py:177 | lowering a name does not change its key |
| NaturalSort.NaturalSortedCorrect | app.py:177 | the files are sorted by key, are a permutation of the input, and files with equal keys keep archive order |
| NaturalSort.PageExamples | app.py:177 | page1.jpg < page2.jpg < page10.jpg, and page01.jpg ties with page1.jpg |
| Ingest.FolderOf | app.py:166 | the folder holds no `/`: it is the whole first component of the path |
| Ingest.GroupByFolder | app.py:163-169 | the loop returns the folders in first-appearance order with exactly their files, in archive order |
| Ingest.UploadFiles | app.py:179-202 | the loop returns the references of the image entries whose upload succeeded, in file order |
| Ingest.ProcessFolder | app.py:172-202 | one folder's pages: its files sorted naturally, then uploaded |
| Ingest.AddFolder | app.py:172-205 | one more folder adds its pages under its key when it has any |
| Ingest.AddFolders | app.py:172-205 | the folder loop builds the chapters of all folders in order |
| Ingest.ProcessZipChapters | app.py:148-219 | the method returns exactly the chapters ZipChapters specifies |
| Ingest.UploadAllInOrder | app.py:179-198 | pages come out in the order of the sorted files; a failed upload or a non-image entry contributes nothing |
| Ingest.UploadAllProvenance | app.py:179-198 | every reference came from an image entry whose upload returned it |
| Ingest.FilesInProvenance | app.py:164-169 | a file grouped under a folder is an entry inside a directory whose first component is that folder |
| Ingest.PageProvenance | app.py:163-205 | every page of the result came from an image entry inside a directory, from a folder whose key is the chapter's, uploaded with that chapter's caption |
| Ingest.ZipChapters | app.py:148-219 | an archive that cannot be opened gives no chapters, and no chapter of the result is empty |
| Ingest.AssembleNonEmpty | app.py:204-205 | a folder without pages adds no chapter, so no chapter of the result is empty |
| Ingest.ZipChaptersLastWins | app.py:205 | of two folders with the same key, the later one with pages decides the chapter |
| Ingest.AssembleLastWins | app.py:204-205 | a folder with pages that no later folder of the same key overrides gives its key's pages |
| Ingest.AssembleFromFolders | app.py:172-205 | every chapter comes from some folder with that key |
| Ingest.TopLevelEntriesIgnored | app.py:165 | an entry outside any directory, or a directory entry, does not change the result |
| Catalog.MergeChapters | app.py:512-514 | the work gains the given chapters, each overwriting the chapter of that number; its other chapters, its other fields and the other works stay; an unknown slug changes nothing |
| Catalog.MergeIdempotent | app.py:512-514 | merging the same chapters twice is merging once |
| Catalog.MergeNothing | app.py:512-514 | merging no chapters changes nothing |
| Catalog.AddWork | app.py:1026-1034 | the work is stored under the slug of its title with no chapters, replacing a work of the same slug; other works stay |
| Catalog.Remove | app.py:439-440 | exactly the given slug is gone; every other work stays |
| Catalog.TotalChaptersCountsPairs | app.py:244 | the chapter total equals the number of (work, chapter) pairs, whatever order the sum takes |
| Catalog.MergeChaptersTotal | app.py:786 | a merge raises the chapter total by the number of new chapter numbers |
| Catalog.MergeNewChaptersPages | app.py:787-790 | merging new chapters raises the page total by their pages |
| Catalog.AddWorkTotal | app.py:786 | adding a work removes the chapters of a replaced same-slug work from the total and adds one work when the slug is new |
| Catalog.RemoveTotal | app.py:786 | deleting a work lowers the totals by one work and by its chapters |
| Catalog.PagesAtLeastChapters | app.py:786-790 | with no empty chapter there are at least as many pages as chapters |
| Catalog.MergeKeepsChaptersNonEmpty | app.py:512-514 | merging non-empty chapters keeps every chapter non-empty |
| Catalog.QuickStats | app.py:778-796 | an empty catalog has no statistics; otherwise the number of works is positive, the chapters are the chapter total, which is the number of (work, chapter) pairs, the pages are the page total, and with no empty chapter there are at least as many pages as chapters |
| Catalog.PagesWhenNoEmptyChapters | app.py:786-790 | with no empty chapter the page total is at least the chapter total |
| Catalog.FindByTitle | app.py:649-654 | a found slug is a work whose title equals the given one ignoring case |
| Catalog.FindByTitleNone | app.py:649-654 | nothing is found exactly when no title matches ignoring case |
| Catalog.FindByTitleUnique | app.py:649-654 | when works sit under the slugs of their titles, the one matching work is found, whatever the dictionary order |
| Catalog.AddWorkKeepsSlugs | app.py:1026-1034 | adding a work keeps every work under the slug of its title |
| Catalog.MergeKeepsSlugs | app.py:512-514 | merging chapters keeps every work under its title's slug |
| Catalog.RemoveKeepsSlugs | app.py:439-440 | deleting keeps every other work under its title's slug |
| Catalog.SortedSlugsCorrect | app.py:56 | the slugs sorted are each slug once, in increasing order |
| Catalog.Index | app.py:53-61 | the home page lists as many entries as there are works, and exactly the works with their records and slugs |
| Catalog.IndexOrder | app.py:56-60 | the home page is ordered by title, and works of equal title by slug |
| Persistence.DecodeEncodeComics | app.py:248 | reading back the catalog's JSON gives the catalog |
| Persistence.LoadAfterSave | app.py:1096-1098 | loading the envelope a save wrote gives the saved catalog and the message's handle, whatever was loaded before |
| Persistence.LoadLegacy | app.py:1100-1101 | a bare catalog of the older format loads as itself when no slug is "data" |
| Persistence.LegacyDataSlugMisread | app.py:1097 | a bare catalog with a work whose slug is "data" is taken for an envelope, and only that work is read as the catalog |
| Persistence.Load | app.py:1082-1109 | a pinned message sets the handle before anything is parsed; unreadable or missing text keeps the catalog; no pinned message or no chat changes nothing |
| Persistence.Envelope | app.py:240-246 | the saved envelope holds version "3.0", the number of works, the chapter total, and the catalog's JSON as the payload that loading reads |
| Persistence.Payload | app.py:1097-1102 | a dictionary with `data` yields that field; anything else is taken whole |
| Persistence.SizeNotices | app.py:251-265 | the warning goes out above 3500 characters and the alarm above 4000 |
| Persistence.Save | app.py:227-237 | an empty catalog always ends with no handle, whatever unpin and delete did |
| Persistence.SaveAbortsOnUnsentNotice | app.py:251-265 | as written, a size notice that cannot be sent aborts the save before the write, and the save aborts exactly then |
| Persistence.DeliveredNotices | app.py:251-265 | a notice reaches the administrator exactly when the size calls for it and its send succeeds; when every send succeeds these are the size notices |
| Persistence.SaveUnblocked | app.py:221-316 | the corrected save: a catalog that is not empty is always written, after the size notices that got through |
| Persistence.SaveUnblockedAlwaysWrites | app.py:251-290 | the corrected save of a non-empty catalog never aborts; its handle and outcome are those of the write and its notices are the delivered ones first |
| Persistence.SaveUnblockedAgrees | app.py:221-316 | wherever the save as written does not abort, the corrected save gives the same result |
| Persistence.Recover | app.py:294-313 | a recovery send that succeeds gives the new handle; one that fails keeps the handle |
| Persistence.SaveFallsBackToNewMessage | app.py:269-306 | a failed edit of the pinned message falls back to a new message, which becomes the handle |
| Persistence.SaveBothFailKeepsHandle | app.py:291-313 | when the edit and the recovery send fail, the handle is kept and the administrator is alerted if that message gets through |
| Persistence.SaveKeepsUnpinnedFirstMessage | app.py:278-306 | with no handle, the new message's id is stored before the pin; if the pin fails the handle is the recovery message or, failing that, the unpinned first one |
| Persistence.SaveSizeOnlyWarns | app.py:251-306 | once delivered, the size notices only come first; the size changes neither the handle nor the outcome of the write |
| Persistence.Write | app.py:268-290 | the pinned message is updated exactly when there is a handle and the edit succeeds, a new message is created exactly when there is none and its send and pin succeed; every other case goes to recovery and ends with the recovery message or, failing that, the previous handle or the unpinned new message |
| Persistence.WriteOnlyPrepends | app.py:268-313 | the write passes the notices it is given through unchanged, in front of its own |
| Persistence.SaveSucceededHasHandle | app.py:227-306 | a save that wrote or kept the catalog ends with a handle, and only for a non-empty catalog |
| Conversation.FirstMatch | app.py:1140-1160 | the first route whose filter accepts the update gives the handler; none exactly when no filter accepts it |
| Conversation.FirstMatchAppend | app.py:1140-1160 | trying one list of routes and then another is trying them as one list |
| Conversation.Dispatch | app.py:1130-1161 | outside a conversation the entry points are tried; in one, the state's routes and then the fallbacks, as one list in which the first match wins |
| Conversation.Advance | app.py:1130-1161 | a returned state is entered, `END` drops the user, and returning nothing or raising keeps the state; no other user's state changes |
| Conversation.Run | app.py:107-126 | a guarded handler turns away anyone but the administrator: nothing changes and the conversation ends |
| Conversation.OnlySavingChangesCatalog | app.py:107-126 | a handler that does not save leaves the catalog as it was; an unguarded handler never changes or saves it |
| Conversation.OutsiderCannotEdit | app.py:107-126 | an update from anyone but the administrator changes neither the catalog nor the handle |
| Conversation.OnlyCancelInConversation | app.py:1140-1160 | in a conversation, no command but `/cancel` is delivered, except `/skip` while waiting for a cover and, in the corrected table, `/done` while adding pages |
| Conversation.ManualRoutesAsWritten | app.py:1153-1157 | while adding pages, photos and image documents go to the page handler, plain text to the chapter-number handler, `/cancel` to cancel, and nothing else is delivered |
| Conversation.DoneIgnoredAsWritten | app.py:1153-1157 | with the table as written, `/done` is not delivered while adding pages |
| Conversation.ManualHandlersNeverSave | app.py:1153-1160 | with the table as written, nothing delivered while adding pages saves or changes the catalog |
| Conversation.ManualChapterNeverStored | app.py:554-555 | with the table as written, a manual chapter is never stored: no update in that state changes the catalog or the handle |
| Conversation.DoneRouted | app.py:554-555 | with `/done` delivered, it reaches the page handler |
| Conversation.DoneFinishesChapter | app.py:586-615 | `/done` with pages stores them as the current chapter of the selected work, clears the session, saves and returns to the main menu |
| Conversation.DoneStoresChapter | app.py:586-615 | one `/done` update with collected pages stores the chapter, clears the session, goes back to the main menu and saves the new catalog |
| Conversation.NoPagesChangesNothing | app.py:592-597 | finishing with no pages changes nothing and stays in the manual state |
| Conversation.PageRouted | app.py:1155-1156 | a photo or an image document in the manual state reaches the page handler |
| Conversation.PageRecorded | app.py:560-584 | an accepted page is appended to the collected pages, in arrival order; the state stays |
| Conversation.PageAppended | app.py:560-584 | one page update adds the page at the end of the session's pages and changes nothing else |
| Conversation.TextRenumbersChapter | app.py:540-549 | plain text in the manual state is delivered to the chapter-number handler and overwrites the current chapter |
| Conversation.ButtonCallbackEffect | app.py:319-467 | a button press saves only on `confirm_delete`, which removes the recorded slug and clears the session; every other button leaves the catalog |
| Conversation.UnknownButtonFallsThrough | app.py:467 | data no branch knows leaves everything and goes to the main state |
| Conversation.ConfirmDeleteRemovesRecorded | app.py:433-453 | `confirm_delete` removes exactly the recorded slug, clears the session, saves and returns to the main menu |
| Conversation.ConfirmDeleteEmptySlug | app.py:437-455 | with no slug recorded nothing is deleted or saved |
| Conversation.ReceiveZipFileEffect | app.py:471-537 | an archive saves only when it yields chapters, which are merged into the selected work; the session is then cleared |
| Conversation.EmptyArchiveChangesNothing | app.py:503-508 | an archive without chapters changes nothing and waits for another archive |
| Conversation.ArchiveMergesChapters | app.py:510-529 | an archive with chapters merges them into the selected work, clears the session, saves and returns to the main menu |
| Conversation.NonZipNameRefused | app.py:481-486 | a file whose name does not end in `.zip` changes nothing |
| Conversation.FinishManualChapterEffect | app.py:586-615 | finishing saves only with pages, stored under the current chapter of the selected work |
| Conversation.ReceiveChapterPageEffect | app.py:552-584 | the page handler saves only through `/done` |
| Conversation.CommitWork | app.py:1021-1059 | a commit saves the work from the session's title, description and cover, or raises when either is missing |
| Conversation.ReceiveCoverEffect | app.py:1007-1059 | receiving a cover saves the work with the photo or image as its cover or with no cover |
| Conversation.ReceiveCoverDocumentEffect | app.py:618-628 | an image document commits the work with it as cover; other documents change nothing |
| Conversation.SkipCoverEffect | app.py:1062-1065 | `/skip` commits the work without cover |
| Conversation.CoverCommitsWork | app.py:1007-1059 | with title and description set, the cover message stores the work, clears the session and saves |
| Conversation.ReceiveTitleEffect | app.py:983-992 | the title is stored stripped (empty if it was only white space) and the catalog is untouched |
| Conversation.ReceiveDescriptionEffect | app.py:995-1004 | the description is stored stripped and the catalog is untouched |
| Conversation.ReceiveChapterNumberEffect | app.py:540-549 | the chapter number is stored stripped and the catalog is untouched |
| Conversation.AddComicCommandEffect | app.py:730-753 | `/addcomic` never changes the catalog |
| Conversation.AddChapterCommandEffect | app.py:631-678 | `/addchapter` never changes the catalog; a work found under the empty slug counts as not found and ends the conversation |
| Conversation.DeleteComicCommandEffect | app.py:680-728 | `/deletecomic` never changes the catalog; a work found under the empty slug counts as not found and ends the conversation |
| Conversation.QuotedTitle | app.py:637 | a command followed by white space and a quoted title yields that title |
| Conversation.NoQuoteNoTitle | app.py:637 | text without a quote yields no title |
| Conversation.AddComicTakesTitle | app.py:730-753 | `/addcomic "T"` records T as the title and asks for the description |
| Conversation.AddChapterSelectsWork | app.py:631-678 | `/addchapter "T"` selects the work titled T, found under a non-empty slug, and asks how to add chapters |
| Conversation.DeleteComicRecordsWork | app.py:680-728 | `/deletecomic "T"` records the work titled T, found under a non-empty slug, for deletion and asks for confirmation |
| Conversation.EmptySlugMatchEnds | app.py:649-661 | a title that matches only the work stored under the empty slug ends `/addchapter` and `/deletecomic` as if nothing were found, changing nothing |
| Conversation.UnquotedCommandEnds | app.py:639-644 | a title command without a quoted title ends the conversation and changes nothing |
| Conversation.UnusedStatesNeverEntered | app.py:101-105 | no handler goes to HELP_MENU, WAITING_FOR_COMMAND_INPUT or SELECT_CHAPTER_DELETE, the states with no handlers |
| Conversation.StepKeepsStatesEnterable | app.py:1140-1160 | no user ever ends up in one of those states |
| Conversation.Step | app.py:1130-1161 | an undelivered update leaves everything unchanged; no update changes another user's session or state |
| Conversation.StoreKeepsInvariant | app.py:510-514 | storing non-empty chapters keeps every work under its title's slug and no chapter empty |
| Conversation.ButtonKeepsInvariant | app.py:319-467 | a button press keeps that invariant |
| Conversation.AddWorkKeepsInvariant | app.py:1026-1034 | adding a work keeps it |
| Conversation.CoverKeepsInvariant | app.py:1007-1059 | receiving a cover keeps it |
| Conversation.CoverDocumentKeepsInvariant | app.py:618-628 | receiving a cover document keeps it |
| Conversation.SkipCoverKeepsInvariant | app.py:1062-1065 | skipping the cover keeps it |
| Conversation.ZipKeepsInvariant | app.py:471-537 | receiving an archive keeps it |
| Conversation.PageKeepsInvariant | app.py:552-615 | the page handler and `/done` keep it |
| Conversation.RunKeepsInvariant | app.py:107-126 | every handler keeps it |
| Conversation.StepKeepsInvariant | app.py:1130-1161 | every update keeps it |
| Bot.ComicBot.constructor | app.py:45-46 | the bot starts with an empty catalog, no sessions, no conversations and no handle |
| Bot.ComicBot.Restore | app.py:1082-1109 | the catalog and the handle become what Load gives; sessions and states stay |
| Bot.ComicBot.Flush | app.py:221-316 | the corrected save: the handle, the outcome and the notices become what SaveUnblocked gives; the catalog, sessions and states are not touched |
| Bot.ComicBot.WriteOut | app.py:268-290 | the write path gives what Write specifies |
| Bot.ComicBot.Resend | app.py:291-313 | the recovery path gives what Recover specifies |
| Bot.ComicBot.Store | app.py:510-514 | the chapters are stored one by one, in place; the catalog becomes what MergeChapters gives for the selected work, or stays when there is none |
| Bot.ComicBot.StoreFrom | app.py:600-602 | the in-place store of either chapter handler leaves the catalog as the handler's effect says |
| Bot.ComicBot.Apply | app.py:1130-1161 | the handler runs and the catalog becomes its effect's catalog; the rest stays |
| Bot.ComicBot.Settle | app.py:1130-1161 | the session and the state take the handler's result, and a handler that saves flushes |
| Bot.ComicBot.HandleUpdate | app.py:1130-1161 | one update leaves the bot exactly as Step specifies for the corrected program: `/done` delivered, and a save not stopped by a size notice |

## Findings

| source | as written | input that shows it | evidently intended | confidence | as-written member | corrected member |
|---|---|---|---|---|---|---|
| app.py:1153-1157 | While adding pages, only plain text (no commands), photos and image documents are delivered, plus the `/cancel` fallback. The `/done` test in `receive_chapter_page` (app.py:554) is therefore never reached, and a manual chapter can never be stored. | The administrator, with pages collected, sends the message `/done` | `/done` reaches `receive_chapter_page`, which calls `finish_manual_chapter` and stores the chapter | not executed | Conversation.ManualChapterNeverStored | Conversation.DoneStoresChapter |
| app.py:251-265 | The size notices are sent inside the save's `try`. When one of them cannot be sent the exception skips the write and lands in the `except` at app.py:315, so the channel keeps the previous catalog. | A catalog whose JSON has more than 3500 characters, with the warning's send failing | a notice that cannot be sent does not stop the catalog from being written | not executed | Persistence.SaveAbortsOnUnsentNotice | Persistence.SaveUnblockedAlwaysWrites |

The program is modelled twice:

- `AsWritten` is the handler table as written, and a save goes through `Save`. `DoneIgnoredAsWritten` and `ManualChapterNeverStored` are proved about it.
- `Corrected` adds a `/done` command route to the manual state, and a save goes through `SaveUnblocked`, which writes even when a size notice could not be sent. `DoneRouted`, `DoneFinishesChapter` and `DoneStoresChapter` are proved about it.

The `ComicBot` class runs the corrected program.

## Left out

- Telegram replies, message texts, keyboards, Markdown and `asyncio.sleep` are left out, and every reply is taken to be delivered. A reply that raises is not modelled: `confirm_delete`, for one, saves at app.py:442 and then edits its message at app.py:444, so a failed edit would skip the clearing of the session and leave the conversation state as it was.
- `threading.Lock`, the Flask thread, `run_polling` and `main` are left out: concurrency and start-up. Each update is one atomic step.
- `manga_detail`, `chapter_reader` and the image proxy are left out. The chapter sort of `manga_detail` uses `float`, and the other two are templates and network I/O. The home page order is modelled.
- `listcomics_command` is left out of the catalog listing. Its effect on the conversation (none) is modelled. The text it sends is I/O: a numbered list by slug, split into messages of 20 above 4000 characters.
- `show_statistics` is modelled only for its effect on the conversation. Its largest work and its average use `max` ties and floating point.
- The JSON text is left out. Its byte format and the `last_updated` time stamp are not modelled: a save's size is a parameter, and a pinned message is the JSON value it parses to.
- The temporary file, ZIP decoding and `os.unlink` are left out. An archive is its list of entry names, or `Unreadable` when it cannot be opened.
- A failed download in `receive_zip_file` raises. It lands in the handler's `except` and ends exactly as an archive without chapters does, so it is modelled as `Unreadable`.
- The `setup_bot` environment loading is left out. The administrator's id is a parameter.
- Updates without a user (`effective_user` is None) are left out.
- Conversations are keyed by user only. python-telegram-bot keys them by chat and user by default, so one administrator in two chats would hold two conversations; the model gives them one.
- Non-ASCII text is left out. Letters, digits, white space and lowering are modelled on ASCII only.
- Telegram's 4096-character message limit is left out. The size notices are modelled; the channel's refusal of a longer text is one more failure in `Sink`.
- Persistence.Load: a JSON value that is not a well-formed catalog keeps the catalog here. The source assigns whatever was parsed to `MANGA_DATA`.
- Catalog.FindByTitle: when several titles match ignoring case, it picks the least slug. The source picks the first in dictionary insertion order, and the model has no insertion order. With works stored under the slugs of their titles at most one title matches (FindByTitleUnique), so the two agree.
- Conversation.FinishManualChapterEffect: a chapter number that was never given is the Python key None. It is stored here under "null", which is how the saved JSON writes it.
- Conversation.Run: a handler that raises in Python yields `Raised`. Examples are `delete_comic` for a slug not in the catalog, and `receive_cover` without a title. Raising leaves the conversation state unchanged, and session changes made before the raise stay. The model makes that branch an outcome rather than a precondition.
- Bot.ComicBot.Store: it updates a local copy of the work's chapter dictionary and writes it back once. The source writes into the catalog's dictionary in place, and no aliasing between the two is modelled.
- Bot.ComicBot.HandleUpdate: it runs the corrected handler table and the corrected save (see Findings), not the program as written.
- Bot.ComicBot.Flush: it performs the corrected save, which writes after a size notice that could not be sent; the abort as written is stated by Persistence.SaveAbortsOnUnsentNotice.
