# Non-fiction book writer: a Dafny model of its core

This project models the logic of a browser application that writes
non-fiction manuscripts with a hosted generative-language API, behind a
username/password login and an admin panel for users kept in local
storage. The model covers four parts:

- **The generation pipeline** (`geminiService.ts`, module `Gemini`). It
  covers the retry wrapper `callGeminiWithRetry` and the three-stage
  `generateBookManuscript` (outline, then the chapter loop, then the
  bibliography). The remote client is an oracle: `client(n)` is the outcome
  of the n-th call. A `Host` object holds the call counter and one event log
  of calls, `sleep` waits and progress reports, in the order they happen.
  Each step of the source is a method on that host. Each method is proved
  equal to a specification function (`Retry`, `OutlineStage`,
  `ChaptersUpTo`, `BibliographyStage`, `AfterOutline`, `Stages`,
  `Generate`), and the lemmas state the properties of those functions:
  call counts, the wait schedule, report order, the `chapters`/`toc` match
  and all-or-nothing failure.
- **The session** (`App.tsx`, module `Session`). `handleLogin` is a
  first-match lookup over the static credential table followed by the
  stored custom users, and it updates the view, the user and the error.
  `handleLogout` resets them.
- **User administration** (`components/AdminPage.tsx`, module `Admin`).
  This covers the on-screen `users` table, the persisted `custom_users`
  store and the per-id password visibility flags, together with the
  handlers that load, add, update, delete and toggle.
- **The writing screen** (`components/Dashboard.tsx`, module
  `Dashboard`). It covers the state fields of `handleGenerate` and the
  table of contents and chapter headings rendered for a manuscript.

`Types` holds the records of `types.ts` and `constants.ts`. `Text` holds
three string operations the code relies on: `includes`, `toLowerCase` on
ASCII letters, and the decimal rendering of a number in a template literal.
`Wrappers` holds `Option` and `Result`.

Three behaviours of the code are worth noting. The model follows the code
in each:

- An outline whose `toc` is an empty array passes the `!baseData.toc`
  check, because an empty array is truthy. The manuscript then has no
  chapters (`Gemini.EmptyTocNoChapters`).
- When `JSON.parse` rejects the outline text, its own error reaches the
  `catch` and is rethrown unchanged unless its message is quota-marked.
  Only the missing-`toc` case throws "Gagal membuat kerangka buku."
- The backoff is linear (`attempt * 5000` ms), although the comment at
  geminiService.ts:28 calls it exponential.

## Model

| member | source | states |
|---|---|---|
| Text.ContainsIffOccurs | geminiService.ts:25 | `includes` as modelled holds exactly when the block occurs at some offset of the text |
| Text.Lower | geminiService.ts:25 | lower-casing keeps the length and maps each character to its lower-case form |
| Text.Decimal | geminiService.ts:86 | a number renders as a non-empty string of digits with no leading zero |
| Text.DecimalRoundTrip | geminiService.ts:86 | reading the rendered digits back gives the number |
| Gemini.IsQuotaMessage | geminiService.ts:25 | the quota test: "429" occurs, or "quota" occurs in the lower-cased message; pinned down by `NoMarkerWithout4OrQ`, `OutlineFailureUnmarked` and the retry lemmas |
| Gemini.NoMarkerWithout4OrQ | geminiService.ts:25 | a message with no '4', 'q' or 'Q' is not classed as a rate-limit failure |
| Gemini.LeadingQuota | geminiService.ts:20-34 | counts the attempts that fail on quota in a row, up to the bound, and no more |
| Gemini.Attempts | geminiService.ts:27-33 | after k quota failures the log alternates calls and waits of 5000, 10000, ... ms and ends in a call |
| Gemini.Retry | geminiService.ts:13-39 | the wrapper makes at most maxRetries calls; with 0 allowed it throws `undefined` and calls nothing; otherwise it calls at least once and never throws `undefined` |
| Gemini.RetryReturnsFirstResponse | geminiService.ts:20-34 | returns a response iff one arrives within maxRetries attempts after only quota failures; that response is returned unchanged, after a + 1 calls and the waits 5000 .. a * 5000 ms |
| Gemini.RetryStopsOnOtherFailure | geminiService.ts:23-35 | a failure without the quota marker is thrown right after its attempt, with no wait and no further call |
| Gemini.RetryExhausted | geminiService.ts:20-38 | if every attempt fails on quota: exactly maxRetries calls and maxRetries - 1 waits, and the last error is thrown |
| Gemini.DefaultSchedule | geminiService.ts:16-32 | with the default three attempts the waits are 5000 ms, then 10000 ms |
| Gemini.RetryCallsLogged | geminiService.ts:20-33 | a wrapped call logs exactly the calls it counts, and no report or pacing wait |
| Gemini.RetryEndsAt | geminiService.ts:20-35 | the wrapper settles on the first attempt that is the last allowed or does not fail on quota |
| Gemini.Host.Call | geminiService.ts:22 | one client call returns the next outcome of the oracle and logs the call |
| Gemini.Host.Sleep | geminiService.ts:8 | a wait logs its duration and makes no call |
| Gemini.Host.Report | geminiService.ts:44 | a progress report is logged in order and makes no call |
| Gemini.CallGeminiWithRetry | geminiService.ts:13-39 | the loop's result, its calls and its log equal `Retry` over the client's outcomes from the current call on |
| Gemini.Wrap | geminiService.ts:16 | a wrapped call with the default attempts makes between one and three calls |
| Gemini.CallWithDefaultRetries | geminiService.ts:53 | a call with the default attempts returns the wrapped outcome and logs the wrapped call's events |
| Gemini.WrapsWellLogged | geminiService.ts:20-33 | every wrapped call of a client logs exactly the calls it counts, and no report or pacing wait |
| Gemini.WrappedFirstResponse | geminiService.ts:20-22 | a call whose first attempt responds makes one call and passes the response through |
| Gemini.WrapResponds | geminiService.ts:20-34 | a wrapped call responds with t iff some attempt within three responds with t after only quota failures |
| Gemini.OutlineText | geminiService.ts:78 | a response without text is parsed as "{}"; pinned down by `EmptyOutlineResponse` |
| Gemini.ChapterStatus | geminiService.ts:86 | the report before chapter i; `ChapterStatuses` and `FirstChapterStatus` state its text |
| Gemini.OutlineStage | geminiService.ts:50-79 | stage 1 as a value; `OutlineSucceeded`, `MissingTocStopsBeforeChapters` and `WriteOutline` state it |
| Gemini.ChaptersUpTo | geminiService.ts:84-101 | the first n iterations of the chapter loop; `ChaptersSucceeded`, `ChaptersLogged`, `ChapterFailure`, `ChapterStep` and `WriteChapters` state it |
| Gemini.BibliographyStage | geminiService.ts:103-110 | stage 3 as a value; `WriteBibliography` and `AfterOutlineSplit` state it |
| Gemini.AfterOutline | geminiService.ts:81-120 | stages 2 and 3 and assembly; `AfterOutlineSucceeded`, `AfterOutlineSplit`, `AfterOutlineLogged` and `WriteAfterOutline` state it |
| Gemini.Stages | geminiService.ts:49-120 | the `try` block; `StagesSplit`, `StagesSucceeded`, `StagesLogged` and `RunStages` state it |
| Gemini.AtBoundary | geminiService.ts:123-126 | the `catch` rewrite of a message; `BoundaryHidesQuotaMarker` and `ChapterQuotaExhausted` state it |
| Gemini.Finish | geminiService.ts:121-127 | the `catch` applied to the stages' outcome; `BoundaryHidesQuotaMarker` states it |
| Gemini.Generate | geminiService.ts:41-128 | the whole operation as a value; `GenerateSucceeded`, `BoundaryHidesQuotaMarker`, `HappyPath` and `GenerateBookManuscript` state it |
| Gemini.ChapterStatuses | geminiService.ts:86 | the chapter reports are `Menulis Bab {i+1}: {toc[i]}...`, one per chapter, in order |
| Gemini.ChapterFailureIsFinal | geminiService.ts:84-101 | once a chapter call has failed, later chapters add no call and no event |
| Gemini.ChaptersSucceeded | geminiService.ts:84-101 | a successful chapter loop has one text per title, each the response of that chapter's wrapped call |
| Gemini.ChaptersLogged | geminiService.ts:84-101 | a successful chapter loop logs one report and one 2000 ms wait per chapter, in order, plus the calls it counts |
| Gemini.ChapterFailure | geminiService.ts:84-101 | the loop fails with the message of the first chapter call that raises; no later chapter is reported or called |
| Gemini.ChapterLogged | geminiService.ts:84-101 | one loop iteration extends the host's log, call count and chapters exactly as `ChaptersUpTo` does for one more chapter |
| Gemini.ChapterStep | geminiService.ts:84-100 | one chapter after successful earlier ones: report, wait, wrapped call, and its text appended or its error |
| Gemini.OutlineSucceeded | geminiService.ts:50-79 | a good outline comes from a response whose parse has a `toc`, after one report and one wrapped call |
| Gemini.AfterOutlineSucceeded | geminiService.ts:81-120 | after a good outline, success means one chapter per `toc` entry, each its call's response, and the bibliography response, with the outline's fields copied through |
| Gemini.AfterOutlineSplit | geminiService.ts:81-120 | after a good outline, a success keeps its `toc` and its log is the chapter loop's, then the bibliography report, one 2000 ms wait and the bibliography call |
| Gemini.AfterOutlineLogged | geminiService.ts:81-110 | after a good outline, a success logs the chapter reports, then the bibliography report, and `toc.length` + 1 pacing waits |
| Gemini.StagesOutlineFirst | geminiService.ts:49-79 | a success logs the outline report and call first, then the later stages, whose result it returns |
| Gemini.StagesSplit | geminiService.ts:49-120 | the stages succeed iff the outline succeeds and the later stages then succeed |
| Gemini.StagesSucceeded | geminiService.ts:49-120 | a successful `try` block returns the title, author, parsed outline, one response per chapter and the bibliography response |
| Gemini.StagesLogged | geminiService.ts:50-110 | on success the reports are the outline's, the chapters' in order, then the bibliography's; there are one pacing wait per chapter plus one and every call is logged |
| Gemini.ChapterFailureFailsStages | geminiService.ts:84-127 | a chapter call that raises fails the whole run with its message; no bibliography call and no book |
| Gemini.EmptyTocNoChapters | geminiService.ts:84 | an empty `toc` is accepted: no chapter call, and the book has no chapters |
| Gemini.BoundaryHidesQuotaMarker | geminiService.ts:121-127 | the `catch` changes only the error: a quota-marked message becomes the fixed advisory, any other passes unchanged, and the book is returned exactly when the stages built one |
| Gemini.GenerateSucceeded | geminiService.ts:41-120 | a successful generation copies title, author and outline, has chapters.length == toc.length, each chapter its response, the reports in pipeline order, one pacing wait per chapter plus one, and every call logged |
| Gemini.OutlineFailureUnmarked | geminiService.ts:79 | "Gagal membuat kerangka buku." carries no quota marker, so the boundary passes it unchanged |
| Gemini.MissingTocStopsBeforeChapters | geminiService.ts:78-79 | an outline whose parse has no `toc` fails with "Gagal membuat kerangka buku." after the outline call alone |
| Gemini.WrapperWraps | geminiService.ts:13-39 | a client's own wrapped calls satisfy the wrapping relation the pipeline assumes |
| Gemini.EmptyOutlineResponse | geminiService.ts:78-79 | a first outline response without text is parsed as "{}"; when that has no `toc`, the run fails after one call |
| Gemini.ResponseTexts | geminiService.ts:100 | the i-th text is the response of call start + i |
| Gemini.PacedCalls | geminiService.ts:84-98 | the log of n chapters answered at once is: report, 2000 ms wait, call, per chapter |
| Gemini.ChaptersAllRespond | geminiService.ts:84-101 | when every chapter call responds at once, chapter i is the i-th response and each chapter costs one call |
| Gemini.AllStagesSucceed | geminiService.ts:49-120 | the generation in terms of its outline call, chapter loop and bibliography call when each succeeds |
| Gemini.HappyPath | geminiService.ts:41-120 | when every call responds at once: the parsed outline, the chapter responses in `toc` order and the bibliography, after one call per chapter plus two with the reports and waits in order |
| Gemini.MenulisEfektif | geminiService.ts:41-120 | "Menulis Efektif" by "Budi" with toc ["Dasar", "Lanjutan"] yields chapters ["C1", "C2"] and bibliography "B" after four calls |
| Gemini.FirstChapterStatus | geminiService.ts:86 | the first chapter's report for "Dasar" is "Menulis Bab 1: Dasar..." |
| Gemini.TwoChapterReports | geminiService.ts:50-103 | for two chapters the reports are outline, chapter 1, chapter 2, bibliography |
| Gemini.FirstChapterFails | geminiService.ts:84-127 | a first chapter that raises ends the run there, with the message as the boundary leaves it |
| Gemini.ChapterQuotaExhausted | geminiService.ts:20-124 | three "429" failures on the first chapter give the fixed advisory after four calls and the waits 2000, 5000 and 10000 ms |
| Gemini.WriteOutline | geminiService.ts:50-79 | stage 1 equals `OutlineStage`: result, calls and log |
| Gemini.WriteChapters | geminiService.ts:81-101 | the chapter loop equals `ChaptersUpTo` over the whole `toc`: result, calls and log |
| Gemini.WriteBibliography | geminiService.ts:103-110 | stage 3 equals `BibliographyStage`: result, calls and log |
| Gemini.WriteAfterOutline | geminiService.ts:81-120 | stages 2 and 3 and assembly equal `AfterOutline` |
| Gemini.RunStages | geminiService.ts:49-120 | the `try` block equals `Stages` |
| Gemini.GenerateBookManuscript | geminiService.ts:41-128 | the whole operation equals `Generate`: the stages, then the boundary rewrite |
| Session.Candidates | App.tsx:20-23 | the static credentials in order, then the stored custom users; a missing store holds none |
| Session.Matches | App.tsx:26 | the `find` predicate: both username and password equal; `FirstMatch` and `LoginSucceedsIff` state what it selects |
| Session.FirstMatchFrom | App.tsx:25-27 | the first candidate at or after k that matches both username and password, or none matches |
| Session.FirstMatch | App.tsx:25-27 | `find`: the first candidate matching both fields exactly; none when no candidate matches |
| Session.SessionUser | App.tsx:30-35 | the session user takes the matched username and role and the login time; its id is the stored id if present, otherwise the fresh id |
| Session.LoginSucceedsIff | App.tsx:20-29 | a login succeeds iff a static credential or a stored user matches both fields |
| Session.StaticShadowsCustom | App.tsx:23-27 | a matching static credential wins over any stored user, whatever the store holds |
| Session.App.constructor | App.tsx:11-14 | the login view, no user, an empty form and no error |
| Session.App.HandleLogin | App.tsx:16-42 | a match sets the session user and the dashboard view and clears the error; no match sets the fixed error and leaves user and view unchanged |
| Session.App.HandleLogout | App.tsx:44-48 | no user, the login view, and an empty form |
| Admin.StaticIdsDistinct | components/AdminPage.tsx:54 | two static rows never share an id |
| Admin.StaticRows | components/AdminPage.tsx:53-59 | one row per static credential, with id `static-{index}` |
| Admin.CustomRows | components/AdminPage.tsx:60-66 | one row per stored user, in store order, with lastLogin '-' |
| Admin.LoadedUsers | components/AdminPage.tsx:52-67 | static rows first (lastLogin '2023-11-20 08:30' at index 0, '-' otherwise), then the stored users; the length is the sum of both |
| Admin.RemoveId | components/AdminPage.tsx:152 | `filter`: every survivor came from the list and has another id, and every entry with another id survives |
| Admin.RemoveIdAppend | components/AdminPage.tsx:152 | removal works piecewise, so the survivors keep their relative order |
| Admin.RemoveIdAbsent | components/AdminPage.tsx:152 | removing an id nobody has changes nothing |
| Admin.RemoveIdTwice | components/AdminPage.tsx:150-158 | deleting the same id twice is deleting it once |
| Admin.ReplaceUser | components/AdminPage.tsx:114 | only rows with the edited id are replaced; length and order are kept |
| Admin.AmendStored | components/AdminPage.tsx:121-127 | the matching stored entry gets the new role, and the new password unless it is blank; ids, usernames and all other entries are unchanged |
| Admin.Amended | components/AdminPage.tsx:122-126 | one stored entry after an edit; `AmendStored` states its fields |
| Admin.StoreAmended | components/AdminPage.tsx:118-129 | only an existing store is rewritten on an edit; `HandleUpdateUser` states it |
| Admin.StoreWithout | components/AdminPage.tsx:154-158 | only an existing store is filtered on a delete; `DeleteUser`, `LoadAfterDelete` and `DeletedStaticUserReappears` state it |
| Admin.Toggled | components/AdminPage.tsx:79-84 | only the flag of the id flips, where absent counts as hidden |
| Admin.ToggleTwice | components/AdminPage.tsx:79-84 | toggling twice restores every flag |
| Admin.CustomRowsAppend | components/AdminPage.tsx:101-104 | appending a stored user appends its row |
| Admin.CustomRowsRemove | components/AdminPage.tsx:152-157 | filtering the store by id and then listing it equals listing it and then filtering the rows |
| Admin.LoadAfterAdd | components/AdminPage.tsx:99-104 | after an add, a reload shows what the add appended on screen |
| Admin.LoadAfterDelete | components/AdminPage.tsx:150-158 | after deleting a non-static id, a reload shows what the delete left on screen |
| Admin.DeletedStaticUserReappears | components/AdminPage.tsx:150-158 | deleting a static user hides its row, but the next load lists it again |
| Admin.UpdatedPasswordLogsIn | components/AdminPage.tsx:118-129 | after setting a non-blank password on a stored user, that user logs in with it |
| Admin.BlankPasswordKeptInStore | components/AdminPage.tsx:114-126 | a blank edited password keeps the stored password, while the on-screen row takes the blank |
| Admin.AdminPage.constructor | components/AdminPage.tsx:26-38 | empty table, no flags, a reset form, no user being edited, both modals closed |
| Admin.AdminPage.LoadUsers | components/AdminPage.tsx:47-72 | the table becomes `LoadedUsers` of the store; nothing else changes |
| Admin.AdminPage.HandleAddUser | components/AdminPage.tsx:86-108 | with a blank field nothing changes; otherwise one entry is appended to the store and one row to the table, the form is reset and the modal closes; a table that showed the store still does |
| Admin.AdminPage.OpenEditModal | components/AdminPage.tsx:145-148 | the row becomes the user being edited and the edit modal opens |
| Admin.AdminPage.HandleUpdateUser | components/AdminPage.tsx:110-134 | with no user being edited nothing changes; otherwise `ReplaceUser` on the table, `AmendStored` on an existing store, and the modal closes |
| Admin.AdminPage.DeleteUser | components/AdminPage.tsx:150-162 | once confirmed, the id leaves the table and an existing store; unconfirmed, nothing changes; for a non-static id a table that showed the store still does |
| Admin.AdminPage.TogglePasswordVisibility | components/AdminPage.tsx:79-84 | flips the id's flag and changes nothing else |
| Dashboard.ErrorText | components/Dashboard.tsx:32 | the error shown is the message when there is one and exactly the default text when the message is empty; never empty |
| Dashboard.Writer.constructor | components/Dashboard.tsx:9-14 | empty fields, not loading, no result |
| Dashboard.Writer.HandleGenerate | components/Dashboard.tsx:17-39 | a blank title or author sets only the validation error and calls nothing; otherwise the generator runs once, its book or its error text is kept, and loading ends with the status cleared |
| Dashboard.ChapterNumbersDistinct | components/Dashboard.tsx:233 | different chapters carry different `BAB n` labels |
| Dashboard.ChapterPage | components/Dashboard.tsx:234 | the page listed for chapter idx; `TocWith`, `ElevenChaptersCollide` and `TocPagesIncrease` state it |
| Dashboard.TocWith | components/Dashboard.tsx:220-241 | foreword at page v, introduction at 1, chapter idx as `BAB {idx+1}: {toc[idx]}` at 10 + 15 * idx, then the bibliography |
| Dashboard.BibliographyPage | components/Dashboard.tsx:238-241 | the corrected bibliography page comes after the last other numbered page |
| Dashboard.TocWithPairInOrder | components/Dashboard.tsx:230-241 | two numbered entries are in page order when the bibliography comes last |
| Dashboard.TocWithIncreasesIff | components/Dashboard.tsx:230-241 | the listed pages increase iff the bibliography page is past the last chapter's |
| Dashboard.AsWrittenPagesIncreaseIff | components/Dashboard.tsx:230-241 | as rendered, with the bibliography at 160, the pages increase iff there are at most ten chapters |
| Dashboard.ElevenChaptersCollide | components/Dashboard.tsx:234-240 | with eleven chapters, chapter 11 and the bibliography are both listed at page 160 |
| Dashboard.TocPagesIncrease | components/Dashboard.tsx:230-241 | with the bibliography after the chapters, the pages always increase |
| Dashboard.TocAgreesForTenChapters | components/Dashboard.tsx:230-241 | for ten chapters the corrected and the rendered tables of contents are the same |
| Dashboard.Sections | components/Dashboard.tsx:254-264 | one section per chapter, headed `BAB {idx+1}` with subtitle `toc[idx]` |
| Dashboard.SectionsMatchToc | components/Dashboard.tsx:254-258 | the i-th section's heading and subtitle are the i-th chapter line of the table of contents |

## Left out

- The remote API (`GoogleGenAI`, `generateContent`), the model name and the prompt texts: the client is an oracle of outcomes. The outline text given to `JSON.parse` is modelled, but the prompts are not.
- `JSON.parse` of the outline is a parameter `parse`. `JSON.parse`/`stringify` of `custom_users` is left out: the store is a sequence of records.
- `localStorage` is the `store` field, `None` while nothing is saved. It is passed to the login as an input.
- `Date.now()`, `Math.random()`, `new Date().toLocaleString()` and `confirm()` are inputs: `newId`, `freshId`, `now` and `confirmed`.
- Real time: `sleep` only logs its duration. The toast and settings timeouts and `handleSaveSettings` are cosmetic.
- `console.warn`/`console.error` are diagnostics with no effect on state.
- Promise scheduling and overlapping generate runs are not modelled: each run is sequential.
- `copyAndOpenGoogleDocs`, the JSX rendering other than the table of contents and chapter headings, and components/Layout.tsx are not part of this model.
- An absent optional `password` or `message`, and a response without `text`, are the empty string. The source treats the absent and empty cases alike at every use modelled here.
- `toLowerCase` is modelled on ASCII letters only: the markers searched for are ASCII.
- Dashboard.Writer.HandleGenerate: the progress statuses written into `status` during the run, and the intermediate state (`error` cleared, `isLoading` true, `result` null), are not stated. The statuses are the `Reported` events in the host's log, and `status` is stated only once it has been cleared.
- Dashboard.Writer.HandleGenerate: the relation between the book and the responses (chapters.length == toc.length and so on) is not repeated in the handler's contract. `Gemini.GenerateSucceeded` states it about `Generate`, which the handler's contract names.
- The `activeTab` switch and the `settings` form of the admin page hold no logic.

## Findings

| source | as written | input that shows it | evidently intended | confidence | as-written member | corrected member |
|---|---|---|---|---|---|---|
| components/Dashboard.tsx:238-241 | the bibliography is always listed at page 160, while chapter idx is listed at 10 + 15 * idx | an outline with 11 `toc` entries: chapter 11 and the bibliography are both at page 160, and with more chapters the bibliography comes before the last ones | the bibliography page follows the last chapter (160 for the ten chapters the outline prompt asks for) | not executed; medium, since the prompt asks for ten chapters but nothing checks the count | Dashboard.ElevenChaptersCollide | Dashboard.TocPagesIncrease |
