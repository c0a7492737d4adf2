# ObitFinder CRM — pipeline and relatives editor, modelled in Dafny

The CRM tracks outreach to the relatives of deceased people ("casos"). Each
relative ("contato") moves through a kanban pipeline of five stages: New,
Attempted, In Progress, Won and Lost. Its central rule is One-Win,
Close-All: when one relative of a deceased person is marked Won, every
other still-open relative linked to the same deceased is marked Lost and
gets an audit note. A first version of the application instead offered a
paged list of deceased records. Each record opened an editable grid of its
relatives, where a "contacted" flag and notes are saved back row by row.

This project models the logic of both applications over an in-memory
database. The database is a `Crm.Store` holding the `contatos` table as a
map from id to row and the `relacionamentos` table as a sequence of rows in
the order the database returns them. A query's result is an input sequence
of rows. A write that raises is a boolean parameter. The clock is a `Now`
parameter.

Modules:

- `Wrappers`: `Option`.
- `Text`: Python's `str.strip()` with Unicode whitespace, `', '.join`, the
  truthiness test `p and p.strip()` and slicing `s[:n]`.
- `Crm`: the two tables and the `Store` class.
- `Lookup`: the first row of a table whose key column holds a given id, as
  both the cascade (app.py) and the change diff (app_legacy.py) look it up.
- `Pipeline` (app.py):
  - the single-row writes, the stage menu, the One-Win, Close-All cascade and
    `move_to_stage`;
  - the writes and `move_to_stage` are module-level methods that take the
    `Store` and are proved against a function of its old state; the lemmas
    state the rule about that function;
  - the stage menu, `OtherStages`, is a plain function.
- `PipelineCards` (app.py): the flattening of joined rows into one kanban
  card per relative in `fetch_pipeline_cards`.
- `Editor` (app_legacy.py):
  - the flattening of a case's relatives;
  - the editor grid with aggregated phones;
  - the change-detection diff that writes the flag and notes back.
- `Pagination` (app_legacy.py): the page offset, the buttons that move it,
  the page number, the inclusive range requested and the "Showing" caption.

Three points about the code:

- The code has five stages. There is no Scheduled stage and no scheduled
  follow-up date.
- The cascade's read of a sibling selects only `status` (app.py:275). The
  notes it then writes are '' followed by the audit line (app.py:280). So
  the sibling's previous notes are replaced, not appended to. This is stated
  in `Pipeline.CascadeClosesOpenSiblings`.
- `move_to_stage` does not check that the new status is one of the stages,
  and neither does the model.

## Model

| member | source | states |
|---|---|---|
| Text.StripIsCore | app_legacy.py:239 | `strip()` yields the unique slice that has only whitespace outside it and non-whitespace at both of its ends |
| Text.StripEmptyIffBlank | app.py:157 | a string strips to '' exactly when every character is whitespace, so `p and p.strip()` rejects exactly None and the blank strings |
| Text.StripIdempotent | app_legacy.py:239 | stripping twice is stripping once |
| Text.Strip | app_legacy.py:239 | see `Text.StripIsCore` |
| Text.TrimStart | app_legacy.py:239 | the result is a suffix of the input, everything cut is whitespace, and it does not start with whitespace |
| Text.TrimEnd | app_legacy.py:239 | the result is a prefix of the input, everything cut is whitespace, and it does not end with whitespace |
| Text.TrimStartAt | app_legacy.py:239 | `lstrip()` starts at the first non-whitespace character |
| Text.TrimEndAt | app_legacy.py:239 | `rstrip()` ends after the last non-whitespace character |
| Text.FilledValues | app.py:163 | the kept values are at most as many as the inputs, and each strips to a non-empty string |
| Text.FilledValuesMembers | app.py:163 | a value is kept exactly when some entry holds it and is filled |
| Text.FilledValuesAppend | app.py:163 | filtering keeps the order: the kept values of `a + b` are those of `a` followed by those of `b` |
| Text.StrippedValues | app_legacy.py:239 | see `Text.StrippedValuesPointwise`, `Text.StrippedValuesSources` and `Text.StrippedValuesMembers` |
| Text.StrippedValuesCons | app_legacy.py:239 | the stripped list of a list starts with its head, stripped, when the head is filled, followed by the stripped list of its tail |
| Text.StrippedValuesAppend | app_legacy.py:239 | the stripped list of `a + b` is that of `a` followed by that of `b` |
| Text.StrippedValuesFour | app_legacy.py:237-239 | the four phones are kept in field order |
| Text.StrippedValuesSources | app_legacy.py:239 | every entry of the stripped list is some filled entry, stripped |
| Text.StrippedValuesMembers | app_legacy.py:239 | every filled entry, stripped, is an entry of the stripped list |
| Text.StrippedValuesPointwise | app_legacy.py:239 | the stripped list has one entry per kept value, in order, each equal to that value stripped |
| Text.FilledValuesEmptyIff | app.py:163 | nothing is kept exactly when no value is filled |
| Text.FilledValuesEmptyCons | app_legacy.py:239 | nothing is kept from a list exactly when its head is not filled and nothing is kept from its tail |
| Text.StrippedValuesOfStripped | app_legacy.py:239 | when every present value is already stripped, stripping the kept values changes nothing |
| Text.StripEdges | app_legacy.py:239 | a non-empty stripped string starts and ends with non-whitespace |
| Text.Join | app.py:163 | joining nothing gives ''; otherwise the result starts with the first part and ends with the last |
| Text.JoinEmptyIff | app_legacy.py:240 | joining non-empty parts gives '' exactly when there are no parts |
| Text.StripOfTrimmed | app_legacy.py:239 | a string with no whitespace at either end strips to itself |
| Text.JoinEnds | app_legacy.py:240 | a join of parts whose first and last parts are non-empty is non-empty, starts with the first part's first character and ends with the last part's last |
| Text.JoinOfStripped | app_legacy.py:240 | joining non-empty parts that have no whitespace at either end gives a stripped string |
| Text.JoinHasPart | app.py:163 | every part occurs in the joined string |
| Text.Prefix | app.py:169 | `s[:n]` has length min(len(s), n) and is a prefix of `s` |
| Pipeline.OtherStages | app.py:501 | the menu offers exactly the stages other than the current status |
| Pipeline.StagesDistinct | app.py:31 | no stage is listed twice |
| Pipeline.OtherStagesCount | app.py:501 | the menu offers 4 stages when the status is a stage and all 5 otherwise, including a NULL status |
| Pipeline.WithStatus | app.py:220-223 | writing a status changes only row `id`, setting status and timestamp; an unknown id changes nothing |
| Pipeline.WithNotes | app.py:233-235 | writing notes changes only the notes of row `id`; an unknown id changes nothing |
| Pipeline.UpdateContactStatus | app.py:218-228 | reports success exactly when the write does not raise; on success the contacts are `WithStatus` of the old ones, otherwise unchanged |
| Pipeline.UpdateContactNotes | app.py:231-240 | reports success exactly when the write does not raise; on success the contacts are `WithNotes` of the old ones, otherwise unchanged |
| Lookup.FirstFrom | app.py:255-260 | the index found is a row with the key sought and no earlier row has it; None means no row has it |
| Pipeline.CaseOf | app.py:255-260 | the winner's case is the case of its first relationship row, found by `Lookup.FirstFrom`; None when it has none |
| Pipeline.ContactIdsOfCase | app.py:263 | an id is listed exactly when some relationship row links it to the case |
| Pipeline.CloseSiblings | app.py:266-283 | the sibling loop keeps the set of contact ids and closes at most one relative per case row |
| Pipeline.CloseAll | app.py:255-258 | a winner without a relationship row leaves every contact as it was and closes 0 |
| Pipeline.ClosesInAppend | app.py:266-283 | one more case row adds its own contact, when open and not the winner, to the contacts the earlier rows close |
| Pipeline.CloseSiblingsContacts | app.py:266-283 | after the loop each contact is auto-closed exactly when the case rows close it, and is otherwise unchanged |
| Pipeline.ClosingSetStep | app.py:266-283 | one more case row adds its contact to the set the rows close exactly when it is an open sibling not listed before |
| Pipeline.CloseSiblingsCount | app.py:266-283 | the loop's count is the number of contacts the case rows close |
| Pipeline.CloseSiblingsEffect | app.py:266-283 | the loop closes exactly the open, non-winner contacts listed in the case rows, changing nothing else, and its count is the number of such contacts |
| Pipeline.CloseAllEffect | app.py:243-285 | the cascade rewrites exactly the open contacts other than the winner that are linked to the winner's first case; its count is their number |
| Pipeline.CascadeSparesOthers | app.py:260-277 | the winner, every contact already Won or Lost, and every contact outside the winner's first case come out unchanged |
| Pipeline.AutoClosed | app.py:277-281 | see `Pipeline.CascadeClosesOpenSiblings` |
| Pipeline.CascadeClosesOpenSiblings | app.py:275-282 | every open sibling ends Lost and stamped, with the newline plus the auto-closed line as its whole notes; no other field changes |
| Pipeline.CascadeCountsChanges | app.py:265-285 | the returned count equals the number of contacts whose row changed |
| Pipeline.CascadeIdempotent | app.py:277-285 | running the cascade again, at any later time, closes 0 and changes nothing |
| Pipeline.OneWinCloseAll | app.py:243-285 | the loop over the store leaves exactly the contacts and count of `CloseAll` on the old state; relationships are unchanged |
| Pipeline.MoveToStageEffect | app.py:288-308 | a move succeeds exactly when the primary write does; a failed move changes nothing and runs no cascade; a successful move sets the target's status; a move to a stage other than Won changes no other contact; a successful Won move changes exactly the contacts the cascade closes; a successful move reports the stage moved to, and a Won move reports the number of contacts the cascade closed |
| Pipeline.MoveToStageSpec | app.py:288-308 | see `Pipeline.MoveToStageEffect` |
| Pipeline.MoveToStage | app.py:288-308 | the method's success, message and new contacts are those of `MoveToStageSpec` on the old state |
| PipelineCards.PhoneDisplay | app.py:157 | see `PipelineCards.PhoneDisplayIsFirstFilled` and `PipelineCards.PhoneDisplayWithoutPhones` |
| PipelineCards.AllPhones | app.py:163 | see `PipelineCards.AllPhonesHasEveryPhone` and `PipelineCards.PhoneDisplayLeadsAllPhones` |
| PipelineCards.AllPhonesHasEveryPhone | app.py:163 | every filled phone occurs, as stored, in the card's phone list |
| PipelineCards.PhoneDisplayIsFirstFilled | app.py:156-157 | the display phone is the filled phone with the lowest index, as stored |
| PipelineCards.PhoneDisplayWithoutPhones | app.py:156-163 | with no filled phone the card shows 'No phone' and an empty phone list |
| PipelineCards.PhoneDisplayLeadsAllPhones | app.py:157-163 | when some phone is filled, the display phone is the first entry of the phone list |
| PipelineCards.CardOf | app.py:159-171 | the card carries the contact's id; it links a case exactly when the row has one; it falls back to 'No linked case', an empty city and an empty date without one; with a linked case it shows exactly the first ten characters of the date of death, and '' without one; the display phone and the phone list are `PhoneDisplay` and `AllPhones` of the contact's four phones |
| PipelineCards.CardIdsAppend | app.py:153 | adding a card adds exactly its contact id to the seen set |
| PipelineCards.Cards | app.py:143-171 | at most one card per row, and no two cards share a contact id |
| PipelineCards.CardsCoverContacts | app.py:148-153 | a contact has a card exactly when some row carries it; rows without a contact add nothing |
| PipelineCards.CardFromFirstRow | app.py:150-171 | a contact's card is built from the first row that carries it |
| PipelineCards.FetchPipelineCards | app.py:143-173 | the loop with its `seen_contacts` set returns `Cards(rows)`, with pairwise distinct contact ids |
| Editor.ToRelative | app_legacy.py:201-212 | see `Editor.RelativeDefaults` |
| Editor.RelativesOf | app_legacy.py:197-212 | at most one relative per row |
| Editor.RelativesOfRows | app_legacy.py:198-200 | the relatives are exactly the flattened rows that carry a contact; every row yields one exactly when every row has a contact |
| Editor.RelativeDefaults | app_legacy.py:210-211 | a NULL `contacted` reads as false and NULL notes as '' |
| Editor.FetchRelativesForCaso | app_legacy.py:196-213 | the loop returns `RelativesOf(rows)` |
| Editor.AggregatePhoneNumbers | app_legacy.py:221-240 | see `Editor.AggregateFieldOrder`, `Editor.AggregateHasEveryPhone` and `Editor.AggregateEmptyIffNoPhone` |
| Editor.AggregateFieldOrder | app_legacy.py:237-240 | the aggregate joins the filled phones, each stripped, in field order from telefone_1 to telefone_4 |
| Editor.JoinedStrippedHasFilled | app_legacy.py:239-240 | every filled value, stripped, occurs in the join of the stripped values |
| Editor.AggregateHasEveryPhone | app_legacy.py:237-240 | every filled phone, stripped, occurs in the aggregate |
| Editor.StrippedPhonesTrimmed | app_legacy.py:239 | every kept phone, stripped, is non-empty and has no whitespace at either end |
| Editor.StrippedJoinEmptyIff | app_legacy.py:239-240 | joining the kept phones gives '' exactly when no phone in the list is filled |
| Editor.NoPhoneKeptIffNoneFilled | app_legacy.py:237-239 | no phone is kept exactly when none of the four is filled |
| Editor.AggregateEmptyIffNoPhone | app_legacy.py:237-240 | the aggregate is '' exactly when none of the four phones is filled |
| Editor.AggregateIsStripped | app_legacy.py:237-240 | the aggregate has no leading or trailing whitespace and starts with the first phone stripped, when that phone is filled |
| Editor.AggregateMatchesCardPhones | app_legacy.py:237-240 | when the stored phones are already stripped, the aggregate equals the kanban card's phone list of app.py:163 |
| Editor.EditorRowOf | app_legacy.py:260-272 | see `Editor.FrameOf` and `Editor.FramePhonesEmptyIff` |
| Editor.FrameOf | app_legacy.py:258-274 | one grid row per relative, in order, keeping the relative's contact id, name, relationship, flag and notes |
| Editor.FramePhonesEmptyIff | app_legacy.py:264-269 | a grid row's phone cell is empty exactly when its relative has no filled phone |
| Editor.PrepareRelativesDataframe | app_legacy.py:254-274 | the loop returns the grid `FrameOf(relatives)`; no relatives give an empty grid |
| Editor.FirstById | app_legacy.py:337-341 | the original row matched is the first row of the contact, found by `Lookup.FirstFrom`; None when the contact has no original row |
| Editor.WrittenNotes | app_legacy.py:352 | the notes written are the cell's text; a cleared cell writes '' |
| Editor.NeedsWrite | app_legacy.py:343-347 | see `Editor.NeedsWriteIff` |
| Editor.NeedsWriteIff | app_legacy.py:336-347 | a row is written back exactly when the original grid has a row of its contact and the first such row differs in flag or notes |
| Editor.WithCrmFields | app_legacy.py:299-303 | writing the CRM fields keeps the set of contact ids, sets exactly the flag and notes of row `id`, and leaves every other row unchanged |
| Editor.UpdateContatoCrmFields | app_legacy.py:281-307 | reports success exactly when the write does not raise; on success only the flag and notes of row `id` change |
| Editor.SaveRows | app_legacy.py:333-355 | the diff loop keeps the set of contact ids and counts at most one write per edited row |
| Editor.DetectAndSave | app_legacy.py:324-328 | a missing or empty grid on either side writes nothing and counts 0 |
| Editor.LastSave | app_legacy.py:333-355 | the row found is the last edited row of the contact that is written back successfully; None means no edited row of the contact is |
| Editor.SaveRowsContact | app_legacy.py:333-355 | a contact keeps its row unless an edited row of it matched an original row, differed in flag or notes, and its write succeeded; it then carries the flag and notes of the last such row |
| Editor.SaveRowsCount | app_legacy.py:331-355 | the count is the number of edited rows whose write was issued and succeeded |
| Editor.SaveRowsNoSave | app_legacy.py:333-355 | when no edited row is written back successfully, nothing changes and the count is 0 |
| Editor.UnchangedFrameWritesNothing | app_legacy.py:337-347 | a grid compared with itself writes nothing, provided rows of one contact agree on its flag and notes |
| Editor.SameContactSameFields | app_legacy.py:198-211 | two flattened relatives of one contact agree on its flag and notes when each contact has one record |
| Editor.FreshGridWritesNothing | app_legacy.py:243-355 | a freshly fetched and prepared grid, saved unedited, writes nothing |
| Editor.DetectAndSaveChanges | app_legacy.py:310-355 | the loop leaves the contacts and count of `DetectAndSave` on the old state; relationships are unchanged |
| Pagination.RangeBounds | app_legacy.py:170 | the requested range starts at `offset` and spans exactly `limit` indices, both ends included |
| Pagination.RangeRows | app_legacy.py:170 | an inclusive range selects the rows whose index lies between its ends, in order |
| Pagination.FetchPage | app_legacy.py:170-175 | a page holds at most `limit` rows, each the row at its offset; it is full unless it reaches the end, and empty past the end |
| Pagination.FlattenCons | app_legacy.py:170 | flattening a page followed by more pages puts that page's rows first |
| Pagination.PagesFromStep | app_legacy.py:170 | the first page from `offset` is the slice up to the next offset or the end |
| Pagination.PagesTile | app_legacy.py:170 | stepping page by page shows every remaining row exactly once, in order |
| Pagination.RowOnItsPage | app_legacy.py:170 | each row is on the page that starts at the multiple of `limit` at or below its index |
| Pagination.CurrentPage | app_legacy.py:410 | the page number `offset // PAGE_SIZE + 1` is at least 1 and is the page whose span contains `offset` |
| Pagination.PreviousOffset | app_legacy.py:417 | Previous never makes the offset negative and moves back by one page, or to 0 |
| Pagination.PreviousUndoesNext | app_legacy.py:417-424 | Previous after Next returns to the same offset |
| Pagination.PageNumbers | app_legacy.py:410-424 | Next increases the page number by one; Previous decreases it by one, never below 1 |
| Pagination.ShowingRange | app_legacy.py:460-462 | the caption starts at `offset + 1` and ends at `min(offset + shown, total)`: no more than either, and equal to one of them |
| Pagination.StepAsWritten | app_legacy.py:416-435 | Previous is a no-op on the first page; Next always advances one page; every move clears the selected case |
| Pagination.NextPastLastPage | app_legacy.py:423-424 | with 25 records, Next from the second page moves to offset 40, past the last record, where the page query yields no rows |
| Pagination.Step | app_legacy.py:646-648 | as intended, Next is a no-op once `offset + PAGE_SIZE` reaches the total; Previous is a no-op on the first page; every move clears the selected case |
| Pagination.StepKeepsPage | app_legacy.py:416-435 | each intended press keeps the offset a whole number of pages on an existing page; as written, alignment alone is kept |
| Pagination.Run | app_legacy.py:416-435 | see `Pagination.RunKeepsPage` |
| Pagination.RunKeepsPage | app_legacy.py:416-435 | under any sequence of presses the offset stays on an existing page |
| Pagination.CaptionMatchesPage | app_legacy.py:460-462 | on an existing page the caption's first number is the page's first record and its span is the page's length |

## Findings

| source | as written | input that shows it | evidently intended | confidence | as-written member | corrected member |
|---|---|---|---|---|---|---|
| app_legacy.py:423-424, 646-648 | The Next button is never disabled. The check meant to disable it at the last page only runs `pass`. | 25 records, offset 20, press Next: the offset becomes 40, past the last record, and the page query yields no rows | Next is disabled once `offset + PAGE_SIZE >= total_count`, as the comments at lines 422 and 645 say | high that the code behaves so; not executed | Pagination.NextPastLastPage | Pagination.RunKeepsPage |

`Pagination.Run` uses the corrected `Pagination.Step`. `Pagination.StepAsWritten` keeps the behaviour as written.

## Left out

- Rendering, `st.session_state` bookkeeping, toasts and the "Move to Stage" menu's placeholder entry are user interface. Only the offset and the selected case are modelled for the page buttons; the filters the Reset button clears are not.
- Building the Supabase client and reading the secrets are not modelled: both are foreign calls.
- Schema migration via RPC or SQL text is database plumbing and is not modelled.
- File upload and file listing against the storage bucket are object-store I/O and are not modelled.
- Server-side filtering, ordering, `ilike`, `.limit` and exact counts are not modelled. The database's result rows are an input sequence, in the order returned.
- `get_stage_counts` and `fetch_contact_details` are display queries and are not modelled.
- `datetime.now()` is not modelled. Each call takes one `Now` value, used for every timestamp it writes. The code reads the clock separately for each write.
- A failing database write is a `writeFails` parameter, or a `failing` set of ids in the editor. The error message is not modelled.
- Pipeline.OneWinCloseAll: a sibling whose contact row is missing is skipped. The raising of `.single()` in that case, which would abort the cascade, is not modelled. An exception in the middle of the cascade, which would leave earlier siblings closed, is not modelled either.
- Pipeline.MoveToStage: the message is the `MoveMessage` datatype. The emoji and wording are not modelled.
- Editor.DetectAndSaveChanges returns the number of saved rows, which the source only shows in a toast. pandas' NaN comparison semantics for a cleared notes cell are not modelled: a cleared cell is None, and None equals None.
- pandas DataFrames are sequences of records. Column dtypes and index labels are not modelled.
- Pagination.FetchPage: a `limit` of 0, which the callers never pass, is modelled as an empty page. PostgREST's handling of such a range is not modelled.
- Pagination.NextPastLastPage: the database's answer to a page range past the last record is not modelled. PostgREST answers such a range with an error, which `main` catches at app_legacy.py:641-643; the screen then shows no cases and a total of 0.
- Pagination.RunKeepsPage holds for a fixed total. A filter change that shrinks the total while on a later page is not covered.
- Session and authentication lifecycle, and two cascades racing on the same sibling, are concurrency concerns and are not modelled.
