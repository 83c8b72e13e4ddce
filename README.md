# Qudrat question bank — a Dafny model

Qudrat is an admin panel for a bank of multiple-choice questions for the
Saudi aptitude test. Questions fall under a question type (verbal, "لفظي", or
quantitative, "كمي") and an internal type (a subtopic), and they may belong to a
reading passage. Students' answers are stored as attempts. This project models
the panel's core and proves properties of it:

- **The store** (`schema.dfy`, `storage.dfy`). The five tables are sequences of
  records, and the declared constraints are one predicate (`Schema.Consistent`):
  primary keys, unique type names, foreign keys, column widths.
  - Inserts fill in the column defaults.
  - Partial updates keep what was not supplied and stamp `updatedAt`.
  - Deletes follow the cascade and restrict rules.
  - The read queries (`getQuestions` with its filter branches, joins, ordering
    and LIMIT/OFFSET window; `getQuestion`; the passage and type listings; the
    ten dashboard counts) are functions of the tables.
  - `DatabaseStorage` is a class. Its fields are the tables and the serial
    counters, and each writing method keeps `Consistent`.
- **The hosted-table client** (`app.dfy`, from `src/App.jsx`):
  - pagination into pages of ten, with the "Showing a - b of n" label and the
    abbreviated page-button rule;
  - the subtype filter of the form;
  - the status and per-passage counts;
  - the page and form state cells, changed by the open, reset and close
    handlers.
- **The API client's components**:
  - the question form: its validation, the tag parsing and the record it
    submits (`question_modal.dfy`);
  - the recent-questions table: the row selection, the header checkbox, the
    difficulty band, the badges and "time ago" (`recent_questions_table.dfy`);
  - the passages page: the search, the counts, the day label and the delete
    dialog (`passages_page.dfy`);
  - the sidebar's active-route rule (`sidebar.dfy`);
  - the image picker's validation (`file_upload.dfy`).
- **Helper modules**: `wrappers.dfy` (Option/Result), `seqs.dfy` (filter,
  window, insertion sort, uniqueness by key) and `strings.dfy` (trim, split,
  join, ASCII lower case, decimal text, code-point order).

Outside effects become parameters or logs:

- The clock is a `now` parameter; the age labels take the millisecond
  difference.
- The serial sequences are counters in the store.
- Calls a component makes to its owner (`onFileSelect`, `onFileRemove`, the
  delete request) are appended to a log field of its class.

Facts about the code that the model keeps as they are:

- No constraint enforces totalAttempts ≥ correctAttempts, so `Consistent`
  does not require it.
- No code maintains the question and passage counters or the average
  difficulty: a new row gets 0 and attempts leave them unchanged
  (`Storage.AttemptKeepsCounters`).
- The `tags` column is text, but the form sends an array of tags. Only the
  client's parse and join are modelled.

## Model

| member | source | states |
|---|---|---|
| Schema.ParseInsertQuestion | shared/schema.ts:90-97 | The insert schema accepts a body exactly when question text, the four options, the correct letter, type and internal type are present; otherwise it lists the missing ones. The accepted value carries the optional columns as given. |
| Schema.ParseQuestionIgnoresServerColumns | shared/schema.ts:90-97 | qNo, avgDifficulty, the two counters and both timestamps in a body have no effect on what the insert schema yields. |
| Schema.ParseInsertPassage | shared/schema.ts:83-88 | A passage body is accepted exactly when it has an image, and then it keeps only title, image and status. |
| Schema.ParseInsertAttempt | shared/schema.ts:99-102 | An attempt body is accepted exactly when qNo, the selected answer and correctness are present. Errors name only those fields. |
| Schema.NewQuestion | shared/schema.ts:49-58 | A new question gets the serial key and the clock for both timestamps. avgDifficulty and both counters are 0, the order defaults to 1 and the status to "draft". Every supplied column is kept. |
| Schema.NewPassage | shared/schema.ts:25-33 | A new passage gets the serial key and both timestamps, avgDifficulty 0 and status "draft" unless one is given. Title and image are kept. |
| Schema.NewAttempt | shared/schema.ts:62-70 | A new attempt gets the serial key and the clock, and keeps every supplied column. |
| Schema.ApplyQuestionPatch | server/storage.ts:204-211 | A partial update keeps the key, creation time, average and counters, and sets updatedAt to the clock. |
| Schema.PatchChangesOnlySupplied | server/storage.ts:204-211 | Every column left out of the patch keeps its old value, and every one of the sixteen supplied columns takes the new value. |
| Schema.StatusOnlyPatch | server/storage.ts:204-211 | A patch with only a status changes the status and updatedAt and nothing else. |
| Schema.ApplyPassagePatch | server/storage.ts:240-247 | A passage update keeps the key, creation time and average, and stamps updatedAt. A supplied title, image or status takes the new value, and one not supplied keeps the old. |
| Schema.Consistent | shared/schema.ts:6-70 | The declared constraints as one predicate: every primary key unique, type names unique, every foreign key (internal type to type, question to type, internal type and passage, attempt to question) pointing at a stored row, and the passage, question and attempt columns within their widths. |
| Schema.TypeOfQuestionIsUnique | shared/schema.ts:7-9 | In consistent tables one type id, or one type name, picks out one question type. |
| Schema.DeleteQuestionCascade | shared/schema.ts:64 | Deleting a question removes it and exactly its attempts. Every other table is unchanged. |
| Schema.DeletePassageCascade | shared/schema.ts:48 | Deleting a passage removes it, exactly its questions, and those questions' attempts. Types are unchanged. |
| Schema.DeleteInternalType | shared/schema.ts:47 | Deleting an internal type is refused exactly when a question references it; otherwise it is gone. |
| Schema.DeleteQuestionType | shared/schema.ts:46-47 | Deleting a type is refused exactly when a question references the type or one of its internal types. Otherwise the type and exactly its internal types are gone. |
| Schema.DeleteQuestionKeepsConsistency | shared/schema.ts:64 | The question delete with its cascade keeps every schema constraint. |
| Schema.DeletePassageKeepsConsistency | shared/schema.ts:48 | The passage delete with its cascade keeps every schema constraint. |
| Schema.DeleteInternalTypeKeepsConsistency | shared/schema.ts:15-22 | An internal-type delete that is not refused keeps every schema constraint. |
| Schema.DeleteQuestionTypeKeepsConsistency | shared/schema.ts:6-17 | A type delete that is not refused keeps every schema constraint, unique names included. |
| Schema.FilterNamesUnique | shared/schema.ts:8-9 | Removing types keeps the type names unique. |
| Schema.DeleteAbsentPassage | server/storage.ts:249-251 | Deleting a passage id that does not exist changes nothing. |
| Schema.DeleteAbsentQuestion | server/storage.ts:213-215 | Deleting a qNo that does not exist changes nothing. |
| Schema.InsertQuestionRow | shared/schema.ts:36-59 | A question row is refused exactly when a column is too wide (checked first) or a referenced type, internal type or passage is missing. Otherwise it is appended. |
| Schema.InsertPassageRow | shared/schema.ts:25-33 | A passage row is refused exactly when a column is too wide; otherwise it is appended. |
| Schema.InsertAttemptRow | shared/schema.ts:62-70 | An attempt row is refused exactly when a column is too wide or its question is missing. Otherwise it is appended and the questions are untouched. |
| Schema.UpdateQuestionRows | server/storage.ts:204-211 | An update that goes through patches the rows with that qNo; with no such row nothing changes. |
| Schema.UpdatePassageRows | server/storage.ts:240-247 | An update that goes through patches the passage with that key; with no such passage nothing changes. |
| Schema.InsertQuestionKeepsConsistency | shared/schema.ts:36-59 | Inserting a question with a fresh key keeps every schema constraint. |
| Schema.InsertPassageKeepsConsistency | shared/schema.ts:25-33 | Inserting a passage with a fresh key keeps every schema constraint. |
| Schema.InsertAttemptKeepsConsistency | shared/schema.ts:62-70 | Inserting an attempt with a fresh key keeps every schema constraint. |
| Schema.PatchQuestionRowsKeys | server/storage.ts:204-211 | An update keeps the number of rows and every key, and leaves rows with other keys as they were. |
| Schema.UpdateQuestionKeepsConsistency | server/storage.ts:204-211 | A question update that goes through keeps every schema constraint. |
| Schema.UpdatePassageKeepsConsistency | server/storage.ts:240-247 | A passage update that goes through keeps every schema constraint. |
| Storage.OrUndefined | server/storage.ts:105-106 | `value \|\| undefined` gives a value exactly when it is present and not empty, and then gives it unchanged. |
| Storage.JoinRow | server/storage.ts:84-87 | A question joins exactly when its type and internal type exist, keeping the question. Without a passage, or when the passage is missing, the passage title and image are undefined. |
| Storage.Joined | server/storage.ts:84-87 | The joined listing holds exactly the joinable questions' detail rows. |
| Storage.JoinedUnique | server/storage.ts:84-87 | Distinct questions give detail rows with distinct qNos. |
| Storage.RowFilter | server/storage.ts:89-137 | Across the four branches, a row passes exactly when it matches the search in text or non-null title, if the search is non-empty, and has the filter's type name, if the filter is neither empty nor "all". |
| Storage.EffectiveWindow | server/storage.ts:54 | Limit and offset default to 50 and 0; a negative one is a query error. |
| Storage.OrderedMatches | server/storage.ts:99 | The matching rows are exactly the joined rows that pass the filter, in descending qNo. |
| Storage.GetQuestions | server/storage.ts:54-149 | The listing fails only for a negative window. Otherwise it has at most limit rows in descending qNo, each a stored question's join row that matches the active filters. It holds exactly the rows of the ordered matches from position offset on, min(limit, what is left) of them. |
| Storage.GetQuestionsStrictlyDescending | server/storage.ts:99 | With unique keys the listing is strictly descending in qNo. |
| Storage.GetQuestionsComplete | server/storage.ts:139-142 | With offset 0 and a limit of at least the table size, a question is listed exactly when it joins and matches the active filters. |
| Storage.ListingShowsEveryQuestion | server/storage.ts:139-142 | In consistent tables with no filters and a large enough limit, every question is listed. |
| Storage.JoinRowPassage | server/storage.ts:87-106 | A question with an existing passage carries that passage's title and image, each undefined when empty. |
| Storage.JoinRowNames | server/storage.ts:85-86 | The detail row carries the names of the question's own type and internal type. |
| Storage.GetQuestion | server/storage.ts:151-197 | A found row has the asked qNo and is that question's join row; undefined exactly when no question with that key joins. |
| Storage.GetQuestionFindsStored | server/storage.ts:188-196 | In consistent tables getQuestion is undefined exactly for an absent qNo. |
| Storage.GetQuestionAgreesWithListing | server/storage.ts:151-197 | Every row of the listing is what getQuestion returns for its qNo. |
| Storage.GetPassages | server/storage.ts:217-224 | The passage listing fails only for a negative window. Otherwise it has at most limit stored passages, newest first, and with offset 0 and a large limit all of them. It holds exactly the sorted passages from position offset on, min(limit, what is left) of them. |
| Storage.GetPassage | server/storage.ts:226-233 | A found passage has the asked key; undefined exactly when none does. |
| Storage.TypeNameLeTotal | server/storage.ts:254 | Ordering by type name is a total preorder. |
| Storage.InternalNameLeTotal | server/storage.ts:261-265 | Ordering by internal name is a total preorder. |
| Storage.GetQuestionTypes | server/storage.ts:253-255 | Every question type once, ordered by name. |
| Storage.GetInternalTypes | server/storage.ts:257-267 | With a non-zero type id, exactly that type's internal types; with 0 or none, all of them. Each row appears as often as in the table (a permutation of the filtered rows), ordered by name. |
| Storage.GetDashboardStats | server/storage.ts:274-350 | The totals are the table sizes. The active count is the number of positions of the questions table holding an active question; each type and subtype count is the number of positions holding a question whose type or internal type has that exact name. Every count is at most the question total. |
| Storage.VerbalAndQuantBounded | server/storage.ts:297-308 | Verbal plus quantitative questions never exceed the total. |
| Storage.SubtypesDisjoint | server/storage.ts:311-336 | No question is counted under two subtype names. |
| Storage.SubtypeCountsBounded | server/storage.ts:311-336 | The four subtype counts add up to at most the total. |
| Storage.StatsAfterFirstQuestion | server/storage.ts:274-350 | With one verbal reading-comprehension question, each count is 1 for the names it has and 0 for the others. |
| Storage.DatabaseStorage.constructor | server/storage.ts:53 | A store over consistent tables holds them, with the serial counters past every key. |
| Storage.DatabaseStorage.CreateQuestion | server/storage.ts:199-202 | Takes the next qNo. Either the table gains the defaulted row and it is returned, or the write is refused and nothing changes. Consistency is kept. |
| Storage.DatabaseStorage.UpdateQuestion | server/storage.ts:204-211 | Either the rows are patched and the updated question (undefined when none matched) is returned, or the write is refused and nothing changes. |
| Storage.DatabaseStorage.DeleteQuestion | server/storage.ts:213-215 | The tables become the cascade delete of the old ones. |
| Storage.DatabaseStorage.CreatePassage | server/storage.ts:235-238 | Takes the next passage id. Either the defaulted row is added and returned, or the write is refused and nothing changes. |
| Storage.DatabaseStorage.UpdatePassage | server/storage.ts:240-247 | Either the passage is patched and returned (undefined when absent), or the write is refused and nothing changes. |
| Storage.DatabaseStorage.DeletePassage | server/storage.ts:249-251 | The tables become the passage cascade delete of the old ones. |
| Storage.DatabaseStorage.CreateQuestionAttempt | server/storage.ts:269-272 | Takes the next attempt id, and leaves the questions table untouched. Either the attempt is added and returned, or the write is refused. |
| Storage.QuestionWithQNo | server/storage.ts:209-210 | The row returned by UPDATE ... RETURNING: the row with that qNo, or undefined exactly when there is none. |
| Storage.UpdateQuestionOutcome | server/storage.ts:204-211 | After an update the returned row is the old row with the patch applied, and every other question is still stored. |
| Storage.CreateThenGet | server/storage.ts:151-202 | A created question is found by getQuestion with its supplied columns, order 1 and status "draft" by default, and counters 0. |
| Storage.AttemptKeepsCounters | server/storage.ts:269-272 | Recording an attempt leaves what getQuestion returns for that question unchanged, counters included. |
| Storage.JoinedIgnoresAttempts | server/storage.ts:84-87 | The joined listing does not depend on the attempts table. |
| App.JsSlice | src/App.jsx:55 | `slice` gives the sub-sequence between two in-range indices, and nothing from past the end. |
| App.GetPaginatedData | src/App.jsx:52-56 | A page holds at most ten items, all from the list. |
| App.PageContents | src/App.jsx:52-56 | Page p holds at most ten items: the items from position (p-1)*10 on, in order. A page past the end is empty. |
| App.GetTotalPages | src/App.jsx:58-60 | The page count is the ceiling of n/10, and 0 exactly for an empty list. |
| App.PagesUpToPrefix | src/App.jsx:52-56 | Pages 1..k together are the first min(10k, n) items. |
| App.PagesCoverList | src/App.jsx:52-60 | Concatenating pages 1..getTotalPages(n) gives the whole list. |
| App.ShowingRange | src/App.jsx:566 | The label's last number never exceeds the list length, and from page 1 on the range is non-empty exactly when the page starts inside the list. |
| App.ShowingRangeMatchesPage | src/App.jsx:566 | On an existing page, "Showing a - b" names exactly the items on the page. |
| App.PageItemFor | src/App.jsx:318-345 | A button carries its own page number and is highlighted exactly on the current page; with up to seven pages, and for the first, last and current page, the item is a button. |
| App.PageItems | src/App.jsx:318-346 | One item per page, each given by the page-button rule. |
| App.PageItemRule | src/App.jsx:318-345 | With up to 7 pages every page is a button. Otherwise the buttons are exactly page 1, the last page and current±1, and current±2 that are not buttons are "...". A button is highlighted exactly on the current page. |
| App.AtMostSevenVisible | src/App.jsx:330-344 | The abbreviated controls show at most seven items. |
| App.AnchorsAreButtons | src/App.jsx:331 | The first, the last and the current page are always buttons, and only the current one is highlighted. |
| App.PreviousDisabled | src/App.jsx:307 | Previous is disabled exactly on page 1. |
| App.NextDisabled | src/App.jsx:350 | Next is disabled exactly on the last page. |
| App.ControlsShown | src/App.jsx:633 | The controls are drawn only for more than one page. |
| App.PreviousAndNextStayInRange | src/App.jsx:305-351 | Whenever Previous or Next is enabled on a page in range, it leads to a page in range. |
| App.StalePageShowsEmptyRange | src/App.jsx:566 | As written: with 20 items and the counter left on page 3, the label reads "21 - 20", the page is empty and Next is enabled. |
| App.ClampPage | src/App.jsx:71-74 | The corrected page of the src/App.jsx:566 finding (lines 71-74 use the raw counter): a page clamped into 1..total, unchanged when it was in range. |
| App.ShowingRangeClamped | src/App.jsx:566 | For a non-empty list the clamped label names a non-empty range inside the list. |
| App.ClampedLabelMatchesRows | src/App.jsx:566 | On the clamped page the label names exactly the rows shown, and from the last page on Next is disabled. |
| App.FilteredInternalTypes | src/App.jsx:263-265 | Exactly the internal types of the selected type. |
| App.FilteredInternalTypesInOrder | src/App.jsx:263-265 | The subtype filter keeps the loaded order. |
| App.PassageQuestionCount | src/App.jsx:696 | The count is the number of positions holding a question of that passage: at most the number of questions, and 0 exactly when no question has that passage. |
| App.StatusCount | src/App.jsx:489-503 | The active or draft card shows the number of positions holding a question with that status, at most the number of questions. |
| App.StatusCountsBounded | src/App.jsx:489-503 | The active and draft counts add up to at most the number of questions. |
| App.TextOr | src/App.jsx:198-213 | `value \|\| fallback` for text: the value unless it is missing or empty. |
| App.NumberOr | src/App.jsx:206-209 | `value \|\| fallback` for numbers: the value unless it is 0. |
| App.FormFromQuestion | src/App.jsx:195-216 | The edit form copies the text and the four options; a missing title, image or tags become "". The letter, type, internal type, order, passage and status are copied when truthy and otherwise take "A", 1, 1, 1, none and "draft". It never holds an empty letter or status, a 0 type, internal type or order, or passage 0. |
| App.FormFromPassage | src/App.jsx:224-232 | The passage edit form copies the image, turns a missing title into "", and copies the status, with an empty one becoming "draft". |
| App.AppState.constructor | src/App.jsx:17-18 | Both lists start on page 1, with empty forms and both modals closed. |
| App.AppState.HandlePageChange | src/App.jsx:62-68 | Only the named list's page changes; an unknown kind changes nothing. |
| App.AppState.ResetQuestionForm | src/App.jsx:234-253 | The question form becomes the empty form, and nothing else changes. |
| App.AppState.ResetPassageForm | src/App.jsx:255-261 | The passage form becomes the empty form, and nothing else changes. |
| App.AppState.OpenAddQuestion | src/App.jsx:189-193 | No question is being edited, the form is empty and the modal is open. |
| App.AppState.OpenEditQuestion | src/App.jsx:195-216 | The question is being edited, the form is filled from it and the modal is open. |
| App.AppState.CloseQuestionModal | src/App.jsx:1002-1006 | Closing clears the edited question and the form. |
| App.AppState.OpenAddPassage | src/App.jsx:218-222 | No passage is being edited, the form is empty and the modal is open. |
| App.AppState.OpenEditPassage | src/App.jsx:224-232 | The passage is being edited, the form is filled from it and the modal is open. |
| App.AppState.ClosePassageModal | src/App.jsx:1092-1096 | Closing clears the edited passage and the form. |
| QuestionModal.FieldErrors | client/src/components/question-modal.tsx:36-53 | A field is reported exactly when it breaks its rule. |
| QuestionModal.CanSubmit | client/src/components/question-modal.tsx:36-53 | The form submits exactly when the schema reports no failing field. |
| QuestionModal.CanSubmitRules | client/src/components/question-modal.tsx:36-53 | The form submits exactly when the text and all four options are non-empty, the letter is A to D, type, internal type and order are at least 1, and the status is draft, active or inactive. |
| QuestionModal.CreateDefaultsRejected | client/src/components/question-modal.tsx:157-176 | The create form as it opens fails on the question text, the type and the internal type, but not on its status. |
| QuestionModal.TypeChangeBlocksSubmit | client/src/components/question-modal.tsx:358-361 | After a type is chosen the internal type is reported until one is picked. |
| QuestionModal.TrimKeepsAbsent | client/src/components/question-modal.tsx:195 | Trimming never introduces a character. |
| QuestionModal.ParseTags | client/src/components/question-modal.tsx:195 | No tag is empty, padded or holds a comma, and an empty field gives no tags. |
| QuestionModal.SplitJoined | client/src/components/question-modal.tsx:154-195 | Splitting tags joined with ", " on commas gives one piece per tag: the first as is, the others with one leading space. |
| QuestionModal.TrimPieces | client/src/components/question-modal.tsx:154-195 | Trimming those pieces gives back the tags. |
| QuestionModal.TagsRoundTrip | client/src/components/question-modal.tsx:154-195 | Parsing the joined form of clean, non-empty tags gives back the same list. |
| QuestionModal.EditValues | client/src/components/question-modal.tsx:137-156 | Edit mode copies the text, the four options, the letter, type, internal type and status. A title or image is copied when present and otherwise "". A present passage is copied and a missing one becomes 0. A non-zero order is copied and 0 becomes 1. A tag list is joined with ", ", tag text is copied, and no tags become "". |
| QuestionModal.OrNull | client/src/components/question-modal.tsx:181-194 | `value \|\| null`: null exactly for "", otherwise the value. |
| QuestionModal.ToSubmitData | client/src/components/question-modal.tsx:179-197 | The required fields are copied. Empty title and images become null, passage 0 becomes null, and every other value is copied. A non-zero order is copied and 0 becomes 1. The tags are the parse of the tags text, and every tag is non-empty and trimmed. |
| QuestionModal.EditThenSubmit | client/src/components/question-modal.tsx:137-197 | Opening a stored question and submitting it unchanged sends back its own values (text, the four options, letter, title, images, type, internal type, passage, order, status) and its clean tag list. |
| QuestionModal.QuestionForm.constructor | client/src/components/question-modal.tsx:67-85 | The form starts with the create defaults. |
| QuestionModal.QuestionForm.ResetForEdit | client/src/components/question-modal.tsx:137-156 | The form holds the question's edit values. |
| QuestionModal.QuestionForm.ResetForCreate | client/src/components/question-modal.tsx:157-176 | The form holds the create defaults and cannot submit. |
| QuestionModal.QuestionForm.SelectType | client/src/components/question-modal.tsx:358-361 | Only type and internal type change, the internal type to 0, and the form cannot submit. |
| QuestionModal.QuestionForm.Submit | client/src/components/question-modal.tsx:179-199 | Submits the normalised record exactly when the form is valid; otherwise returns the failing fields. |
| RecentQuestionsTable.ShownQNos | client/src/components/recent-questions-table.tsx:47 | The listed rows' qNos in display order. |
| RecentQuestionsTable.Without | client/src/components/recent-questions-table.tsx:57 | Unchecking removes the qNo and keeps every other one. |
| RecentQuestionsTable.WithoutKeepsOthers | client/src/components/recent-questions-table.tsx:57 | Every other entry keeps its number of occurrences and its order. |
| RecentQuestionsTable.RowSelection.constructor | client/src/components/recent-questions-table.tsx:39 | The selection starts empty. |
| RecentQuestionsTable.RowSelection.HandleSelectAll | client/src/components/recent-questions-table.tsx:45-51 | Checking selects the listed qNos in order, and unchecking clears the selection. Afterwards every listed row is selected exactly when the box was checked over a non-empty list. |
| RecentQuestionsTable.RowSelection.HandleSelectQuestion | client/src/components/recent-questions-table.tsx:53-59 | Checking appends the qNo without deduplication; unchecking removes every occurrence. |
| RecentQuestionsTable.DistinctCard | client/src/components/recent-questions-table.tsx:149 | A selection without repeats has as many distinct ids as entries. |
| RecentQuestionsTable.WithoutDistinct | client/src/components/recent-questions-table.tsx:57 | Unchecking keeps a selection free of repeats. |
| RecentQuestionsTable.SelectionStaysInList | client/src/components/recent-questions-table.tsx:45-59 | While the list stays the same, select-all and row clicks keep the selection free of repeats and within the list. |
| RecentQuestionsTable.HeaderChecked | client/src/components/recent-questions-table.tsx:149 | As written: the header is checked when the selection has as many entries as a non-empty list. |
| RecentQuestionsTable.HeaderAgreesOnCurrentList | client/src/components/recent-questions-table.tsx:149 | For such a selection the header's length test is checked exactly when every listed row is selected. |
| RecentQuestionsTable.StaleSelectionChecksHeader | client/src/components/recent-questions-table.tsx:149 | As written: selection [1, 2] over rows [3, 4] shows the header checked although no listed row is selected. |
| RecentQuestionsTable.DifficultyBand | client/src/components/recent-questions-table.tsx:61-66 | Easy from 70, medium from 40 below 70, hard below 40. A missing value is hard. |
| RecentQuestionsTable.DifficultyBandMonotone | client/src/components/recent-questions-table.tsx:61-66 | A higher average never lands in a harder band. |
| RecentQuestionsTable.QuestionStatusBadge | client/src/components/recent-questions-table.tsx:68-77 | Each of the four known statuses has its style, and any other status gets the draft style. |
| RecentQuestionsTable.QuestionBadgesDistinct | client/src/components/recent-questions-table.tsx:69-74 | The four known statuses have four different styles. |
| RecentQuestionsTable.TimeAgo | client/src/components/recent-questions-table.tsx:79-89 | Under an hour is "Just now". Under a day gives the whole hours, from a day on the whole days, each bracketing the elapsed time. |
| PassagesPage.FilteredPassages | client/src/pages/passages.tsx:125-127 | A passage is listed exactly when it has a title whose lower case contains the lower-case term. |
| PassagesPage.FilteredKeepsOrder | client/src/pages/passages.tsx:125-127 | The search keeps the loaded order. |
| PassagesPage.EmptyTermListsTitled | client/src/pages/passages.tsx:125-127 | An empty term lists exactly the passages with a title. |
| PassagesPage.SearchIgnoresTermCase | client/src/pages/passages.tsx:126 | The term's letter case makes no difference. |
| PassagesPage.CountPassages | client/src/pages/passages.tsx:195-216 | The total is every loaded passage. The active and draft counts are the numbers of positions holding a passage with that status, and together they are at most the total. |
| PassagesPage.UntitledCountedNotListed | client/src/pages/passages.tsx:125-127 | A passage without a title is counted but never listed. |
| PassagesPage.FormatDays | client/src/pages/passages.tsx:114-123 | 0 whole days is "Today" and 1 is "Yesterday". Any other count, negative for a future date, brackets the elapsed time. |
| PassagesPage.PassageStatusBadge | client/src/pages/passages.tsx:104-112 | The three known statuses have their style, and any other status gets the draft style. |
| PassagesPage.UnderReviewLooksDraft | client/src/pages/passages.tsx:104-112 | "under_review" is shown with the draft style on this page. |
| PassagesPage.DeleteDialog.constructor | client/src/pages/passages.tsx:35-36 | The dialog starts closed, with no pending id and no request sent. |
| PassagesPage.DeleteDialog.HandleDeletePassage | client/src/pages/passages.tsx:69-72 | Remembers the id and opens the dialog, without sending anything. |
| PassagesPage.DeleteDialog.ConfirmDelete | client/src/pages/passages.tsx:74-78 | A delete is sent only for a pending, non-zero id, so id 0 is never sent. The confirm control closes the dialog and the pending id stays. |
| PassagesPage.DeleteDialog.DeleteSucceeded | client/src/pages/passages.tsx:51-59 | Success closes the dialog and forgets the id. |
| PassagesPage.DeleteDialog.Dismiss | client/src/pages/passages.tsx:349 | Cancel closes the dialog and keeps the id. |
| Sidebar.IsActive | client/src/components/sidebar.tsx:19-23 | `isActive`: the root path only at "/", any other path wherever the location starts with it. |
| Sidebar.ActiveRules | client/src/components/sidebar.tsx:19-23 | "/" is active exactly at "/". Any other path is active wherever the location begins with it, "/questionsX" included. |
| Sidebar.NothingActiveAtRoot | client/src/components/sidebar.tsx:19-31 | At "/" no navigation item is active. |
| Sidebar.PrefixesNest | client/src/components/sidebar.tsx:21 | Two prefixes of one location are prefixes of each other. |
| Sidebar.NoPathPrefixOfAnother | client/src/components/sidebar.tsx:25-31 | No navigation path is a prefix of another. |
| Sidebar.AtMostOneActive | client/src/components/sidebar.tsx:19-31 | At most one navigation item is active at any location. |
| FileUpload.ValidateFile | client/src/components/file-upload.tsx:30-40 | The result is no error, the size error for the configured limit, or the type error. |
| FileUpload.SizeRule | client/src/components/file-upload.tsx:31-33 | The size error comes exactly when a limit is set and the file exceeds that many MiB. Limit 0 disables the check, and a file of exactly the limit passes. |
| FileUpload.TypeRule | client/src/components/file-upload.tsx:35-37 | The type error comes exactly when the size passes, accept is "image/\*" and the type lacks the "image/" prefix; never for another accept. |
| FileUpload.DefaultPickerExamples | client/src/components/file-upload.tsx:19-40 | With the defaults, a 5 MiB PNG passes, a small PDF gets the type error and a PDF over 5 MiB gets the size error. |
| FileUpload.Picker.constructor | client/src/components/file-upload.tsx:16-27 | The picker starts with no error and no event. |
| FileUpload.Picker.HandleFileSelect | client/src/components/file-upload.tsx:42-51 | The error becomes the validation result, and the file is handed on exactly when there is none. |
| FileUpload.Picker.HandleDrop | client/src/components/file-upload.tsx:63-71 | Only the first dropped file is validated and handed on; an empty drop changes nothing. |
| FileUpload.Picker.HandleInputChange | client/src/components/file-upload.tsx:73-78 | Only the first chosen file is validated and handed on; no file changes nothing. |
| FileUpload.Picker.HandleRemoveFile | client/src/components/file-upload.tsx:84-90 | Clears the error and reports the removal when a handler is given. |

## Left out

- The database connection and the ORM driver (server/storage.ts:19-25): the
  tables are in-memory sequences.
- server/routes.ts is not part of this model. HTTP status codes, JSON and
  parameter parsing are left out, among them `parseInt(limit) || 50`, which turns
  limit 0 into 50. `GetQuestions` takes the limit as given.
- Storage.RowFilter: LIKE is plain substring search. `%` and `_` in a search
  term are not treated as wildcards.
- Storage.GetQuestionTypes: names are ordered by code point. A database
  collation may order them differently, and rows with equal names come out in
  whichever order the insertion sort gives; SQL leaves that order open.
- Storage.GetInternalTypes: internal names are ordered by code point. A
  database collation may order them differently, and rows with equal names
  come out in insertion-sort order, which SQL leaves open.
- Storage.GetPassages: passages with equal createdAt come out in
  insertion-sort order. SQL leaves that order open, and OFFSET/LIMIT can make
  it visible.
- Storage.GetQuestions: rows with equal qNo would come out in insertion-sort
  order. With unique keys (`Consistent`) there are none.
- Integer and decimal ranges: `int4` overflow of serials and counters and
  the precision of `decimal(5,2)` are not modelled. An average is an integer
  number of hundredths.
- Schema.NewQuestion: an explicit NULL for a defaulted column (order, status)
  is not distinguished from an absent one; both take the default.
- Schema.ApplyQuestionPatch: an update body may set the nullable order and
  status columns to NULL (the partial insert schema accepts null, and the
  body is spread into the SET clause). The model's stored order and status are
  never NULL, so such a patch is not expressible.
- Schema.ApplyPassagePatch: likewise, an update body setting the passage
  status to NULL is not expressible; the stored status is never NULL.
- Schema.InsertQuestionRow: which layer refuses an over-wide value (the
  schema validator or the database) is not visible. The model refuses it at
  the store, before the foreign-key check.
- Storage.GetDashboardStats: the SQL counts join rows; the model counts
  questions whose type or internal type has the name. With unique type ids
  (`Consistent`) the two are the same number.
- Storage.JoinRow: joins use the first row with the key. With unique keys
  this is the SQL join.
- Counters and average difficulty are never maintained by the code, so the
  model keeps them at their insert values.
- The clock: `new Date()` is a `now` parameter; the age labels take the
  millisecond difference.
- RecentQuestionsTable.DifficultyBand: works on the parsed value in
  hundredths. `parseFloat` of a malformed string and NaN are not modelled.
- QuestionModal.FieldErrors: the URL checks on the image fields
  (question-modal.tsx:39, 49-50) belong to the validation library and are not
  modelled; image fields are unconstrained text.
- PassagesPage.FilteredPassages: lower-casing is ASCII only; Unicode case
  mapping is not modelled.
- QuestionModal.ToSubmitData: the form sends tags as an array while the column
  is text. How the server stores the array is not visible, so only the
  client's parse and join are modelled.
- RecentQuestionsTable.QuestionStatusBadge: lookups of inherited object keys
  such as "constructor" in the styles object are not modelled.
- The network calls, alerts and confirms of src/App.jsx (loadData,
  handleSave\*, handleDelete\*, lines 76-187) are left out, apart from the
  state changes after a save, which are the close handlers. React Query
  caching, invalidation, toasts, JSX and styling are left out everywhere.
- FileUpload.Picker.HandleRemoveFile: clearing the hidden input's value and
  the drag-over highlight are display state and are not modelled.
- FileUpload.ValidateFile: maxSize is a whole number of MiB; a fractional
  limit is not modelled.
- Files that repeat logic already modelled, or only display it, are not part
  of this model:
  - src/components/\*.jsx;
  - client/src/pages/questions.tsx and client/src/pages/dashboard.tsx;
  - client/src/components/passage-modal.tsx and stats-cards.tsx;
  - client/src/App.tsx.
- App.FilteredInternalTypes: no code checks that a question's internal type
  belongs to its type, so `Consistent` does not require it.
- Sidebar: the system items (sidebar.tsx:33-37) are never highlighted and are
  not modelled.
- Concurrency between requests is not modelled; each store method is atomic.
- PassagesPage.DeleteDialog: a failed delete only shows a toast, which leaves
  the state as it was, so it has no method of its own.
- Display truncation and the label texts are left out; the label functions
  give the numbers and the bucket.

## Findings

| source | as written | input that shows it | evidently intended | confidence | as-written member | corrected member |
|---|---|---|---|---|---|---|
| src/App.jsx:566 | The page counter is not adjusted when the list shrinks, and the label, rows and Next button use it as is. | 20 questions with the counter on page 3, left there after deletes shrank the list from 21 or more: "Showing 21 - 20 of 20", an empty page, and Next enabled. | The page is clamped into 1..total, so the label names the rows shown and Next is disabled on the last page. | medium, not executed | App.StalePageShowsEmptyRange | App.ClampedLabelMatchesRows |
| client/src/components/recent-questions-table.tsx:149 | The header checkbox is checked when the selection is as long as the list, whichever ids it holds. | Select rows 1 and 2, then search so that rows 3 and 4 are listed: the header shows checked although neither listed row is selected. | The header is checked exactly when every listed row is selected. | medium, not executed | RecentQuestionsTable.StaleSelectionChecksHeader | RecentQuestionsTable.HeaderAgreesOnCurrentList |
