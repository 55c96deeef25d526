# hablai-tts: the batch synthesis driver and the backup dump, in Dafny

This project models the two utilities that work on the `phrases` table
(`id, phrase, tts_ok, tts_attempts, tts_error`) and proves what they promise.

* **The resumable synthesis driver** (`generate_tts_azure_db.py`). It counts
  the eligible rows (`tts_ok = false AND tts_attempts < max_attempts`) and
  fixes a per-run target. It then pulls pages of at most `batch_size`
  eligible rows ordered by id, and takes one of three paths for each row.
  A row whose non-empty `{id:06d}.mp3` already exists is reconciled: it is
  marked done and the provider is not called. In dry-run a row is only
  previewed. Otherwise the provider is called, the attempt count goes up by
  one and the outcome is written back. The driver keeps the counters
  processed, done, skipped and failed. Module `Driver` (driver.dfy) holds the
  loop. Module `Synthesis` (synthesis.dfy) holds the outcome and error-message
  logic of `synthesize_to_file`, and module `Artifact` (artifact.dfy) holds the
  file-name rule.
* **The backup dump** (`dump_phrases_backup.py`). It writes every row as
  `id<TAB>phrase` under an `id<TAB>phrase` header, with tabs and line breaks
  in a phrase turned into spaces, and counts the rows written. It also decides
  where the file goes. Module `Backup` (backup.dfy) holds it. Besides the
  writer, the module has a reader that is proved to invert it.

Shared modules: `Wrappers` (Option, Result), `Decimal` (Python's `str(n)` and
`f"{n:06d}"` with a parser that inverts both), and `Ordering` (a finite set of
ids in ascending order, as `ORDER BY id` gives it).

How the environment is modelled:

* The database is a `map<int, Row>` holding the rows as the run's own
  connection sees them. With autocommit off (generate_tts_azure_db.py:159),
  an UPDATE is visible to the next page query on the same connection whether
  or not it is committed yet, so inside the run it is an immediate map update.
  Only the synthesis branch calls `conn.commit()` (:277). What is left in the
  database after `conn.close()` (:286) is `CommittedAsWritten`, and that
  differs from the run's view (see Findings).
* The output directory is the set of ids whose artifact exists and is
  non-empty. `ArtifactNameInjective` shows that no two ids share a file name,
  which is why a set of ids is enough.
* The speech provider is an oracle `provider: nat -> Reply` chosen by the
  caller. `provider(k)` is the reply to the k-th call of the run: a
  `SpeechResult` and whether a non-empty file was left at the destination.
  `Honest(provider)` is the assumption that a completed synthesis always
  leaves its file. Only the consistency result depends on it.
* The backup's database cursor is `SelectAll(table)`, the rows in ascending
  id order. The file is the string `Render(rows)`.

Consequences of the code as written, which the model keeps:

* The page query always starts again from the smallest eligible id. A row that
  fails but is still under `max_attempts` therefore stays eligible, and the
  same run fetches it again (`FailedRowIsFetchedAgain`). So `--max-phrases N`
  bounds row visits, not distinct rows: the `processed` counter reaches the
  target exactly (whenever `batch_size > 0`), and at most that many distinct
  rows change. Those rows can be fewer than N.
* A `--batch-size` of 0 makes every page empty, so nothing is processed even
  when rows are pending. A negative one makes the database reject the first
  page query (`aborted`).
* A NULL `tts_attempts` is never eligible, because SQL's `NULL < n` is not
  true. So the `or 0` of generate_tts_azure_db.py:224 never applies to a
  fetched row. The model still carries it.

## Model

| member | source | states |
|---|---|---|
| Synthesis.SynthesisOutcome | generate_tts_azure_db.py:85-97 | success exactly on `SynthesizingAudioCompleted`, and then no message. Any other reason gives a message starting `TTS failed, reason=<reason>`. `, cancel_reason=` is added only for `Canceled`, and `, details=` only when the details are non-empty |
| Synthesis.FailureMessageShape | generate_tts_azure_db.py:90-95 | a failure message is longer than its prefix, and it carries the cancel tag right after the reason if and only if the synthesis was canceled |
| Artifact.ArtifactNameShape | generate_tts_azure_db.py:226 | for a non-negative id the name is `<digits>.mp3`, with at least six digits (more only when the id needs them), and the digits denote the id |
| Artifact.ArtifactNameRoundTrip | generate_tts_azure_db.py:226 | reading the name back gives the id, for every id, including the sign-first padding of a negative one |
| Artifact.ArtifactNameInjective | generate_tts_azure_db.py:226 | two different ids never share an artifact file |
| Decimal.FormatZeroPaddedRoundTrip | generate_tts_azure_db.py:226 | the `:06d` rendering parses back to the same integer |
| Artifact.ArtifactName | generate_tts_azure_db.py:226 | the name ends in `.mp3` and is at least ten characters long; its digits and width are stated by ArtifactNameShape, its reading back by ArtifactNameRoundTrip |
| Artifact.WideArtifactName | generate_tts_azure_db.py:226 | for every id of six digits or more (at least 100000), the name is the id's plain decimal digits followed by `.mp3`: nothing is cut and nothing padded |
| Driver.Eligible | generate_tts_azure_db.py:204-207 | the WHERE clause under SQL's rules: `tts_ok` false and a non-NULL `tts_attempts` below `max_attempts`, so a NULL count is never selected; what it selects is stated by FetchPage and UntouchedPendingStillPending |
| Driver.CountEligible | generate_tts_azure_db.py:166-176 | the pending count is the number of eligible rows, the same set the page query draws from (FetchPage), and it is at most the number of rows in the table |
| Driver.TotalTarget | generate_tts_azure_db.py:178-181 | the target is at most the pending count, and at most a positive cap. It is one of the two, and with no cap (`<= 0`) it is the pending count |
| Driver.FetchPage | generate_tts_azure_db.py:201-213 | a negative LIMIT is rejected. Otherwise the page has `min(batch_size, eligible)` ids, all eligible, strictly ascending, and smaller than every eligible id left out |
| Driver.ProcessRow | generate_tts_azure_db.py:222-275 | the path a row takes is the one KindOf chooses; what each path does to the row and the directory is stated by ProcessRowEffect |
| Driver.KindOf | generate_tts_azure_db.py:229-252 | a row is reconciled if and only if its artifact exists outside dry-run, previewed if and only if in dry-run, and otherwise synthesized, successfully if and only if the reply is a completed synthesis |
| Driver.ProcessRowEffect | generate_tts_azure_db.py:222-275 | only the fetched row changes, never its text, and artifacts are only added, only for this row. Reconcile (artifact present, not dry-run): ok, error cleared, attempts unchanged, no call. Dry-run: nothing changes. Otherwise: attempts = fetched attempts or 0, plus 1; ok iff completed; the error column is exactly `synthesize_to_file`'s message (none on success); the artifact is there afterwards iff it was before or the call left one |
| Driver.ProcessRowConsistent | generate_tts_azure_db.py:229-277 | with an honest provider, processing a row keeps "every row marked ok has no error and has its artifact" |
| Driver.FailedRowIsFetchedAgain | generate_tts_azure_db.py:202-275 | a failed row that is still under the cap and was first on its page is first on the next page |
| Driver.StepKeepsAttempts | generate_tts_azure_db.py:248-274 | each provider call adds exactly one attempt to its own row, and a row eligible at the start never goes past `max_attempts` |
| Driver.UntouchedPendingStillPending | generate_tts_azure_db.py:206-207 | a row pending at the start that the run has not processed is still pending |
| Driver.NothingLeftMeansTargetReached | generate_tts_azure_db.py:215-216 | with a positive page size, an empty page means every row pending at the start is among the rows processed, so their number is at most the rows processed |
| Driver.OnePendingRow | generate_tts_azure_db.py:201-213 | with exactly one eligible row and a positive page size, the page is that row alone |
| Driver.Step | generate_tts_azure_db.py:218-282 | one row of the inner loop, with the reply to the next provider call: the table keeps its rows and every other row, the path's kind is recorded, the id joins the calls exactly on a synthesis, artifacts are only added, and a reconciled row ends ok |
| Driver.Replay | generate_tts_azure_db.py:199-282 | the rows processed one after the other: the table keeps its rows and one kind is recorded per row; the counts along it are stated by ReplayCounts and KindTotal |
| Driver.ReplayCounts | generate_tts_azure_db.py:248-275 | along the rows processed, the rows counted as done are exactly the provider calls answered with a completed synthesis, and every call is counted as done or failed |
| Driver.SkippedRowsWereReconciled | generate_tts_azure_db.py:229-246 | the row at position i was counted reconciled if and only if, outside dry-run, its artifact existed when its turn came, and previewed if and only if in dry-run |
| Driver.ReconciledRowsStayDone | generate_tts_azure_db.py:229-235 | a reconciled row is still marked done, with its artifact, after every later row of the run |
| Driver.KindTotal | generate_tts_azure_db.py:229-275 | every processed row took exactly one path, so the four kinds add up to the rows processed |
| Driver.CommittedAsWritten | generate_tts_azure_db.py:229-286 | with autocommit off (:159), what survives `conn.close()`: the table as it stood after the last provider call, since only that branch commits; it has the same rows as the start |
| Driver.CommittedIsLastCall | generate_tts_azure_db.py:229-286 | for every run there is a `j` such that the table `conn.close()` leaves is the run's view after the first `j` rows, row `j - 1` called the provider (or `j` is 0), and no row after it did: every update after the last commit is rolled back |
| Driver.ReconcileRolledBack | generate_tts_azure_db.py:229-286 | one pending row with its artifact, one row per run: the run reconciles it and counts it, but the saved table is the starting one and the row is still pending |
| Driver.ReconcileKeptWhenCommitted | generate_tts_azure_db.py:229-235 | the same run with the update committed: the row is saved as done and nothing is pending |
| Driver.ProcessOne | generate_tts_azure_db.py:222-282 | one row: the table, directory and calls become the row step of the replay, processed grows by one, done keeps counting the completed calls, and every counter, table, artifact and attempt invariant is kept |
| Driver.ProcessPage | generate_tts_azure_db.py:218-282 | the rows processed are the page's ids in page order, all of them or as many as the target leaves; afterwards the table, directory and calls are the replay of ProcessRow over the run's rows so far followed by these, done counts the completed calls, and processed = done + skipped + failed <= target with one backoff per failure when the pause is positive |
| Driver.PageExtendsRun | generate_tts_azure_db.py:199-220 | a non-empty page fetched from the current table, short of the target, and processed as far as the target allows is the run's next page, and the run's rows grow by exactly its rows |
| Driver.TakePage | generate_tts_azure_db.py:199-220 | one pass of the outer loop after a non-empty page: the page is processed as far as the target allows and recorded as the run's next page, processed grows, and the table, directory and calls stay the replay of the run's rows; stated by ProcessPage and PageExtendsRun |
| Driver.ProcessPages | generate_tts_azure_db.py:199-220 | the outer loop: each page is the page query on the table the earlier pages left; a negative page size aborts; a positive one reaches the target; short of it the last page was empty |
| Driver.Run | generate_tts_azure_db.py:165-292 | pending and target as counted. processed = done + skipped + failed <= target. processed = target whenever batch_size > 0, and nothing happens when the target is 0. The pages are the successive page queries, and the final table, directory and calls are ProcessRow replayed over their rows; done, failed and skipped are the numbers of rows that took the completed-synthesis, failed-synthesis, and reconcile or preview paths. done equals the completed provider replies, and each of them left its row marked done. Rows that were not eligible at the start are unchanged. At most `processed` rows change. Attempts grow by the number of calls per row and stay within the cap. Artifacts only grow, and only from calls. Dry-run changes and calls nothing and counts every row as skipped. Consistency is kept |
| Backup.ResolveOutputPath | dump_phrases_backup.py:64-69 | an absolute `--output` is kept as given. A relative one is joined under the audio directory. An absent or empty one gives `audio_dir/phrases_backup.tsv` |
| Backup.ResolvedUnderAudioDir | dump_phrases_backup.py:64-69 | unless `--output` is absolute, the resolved path starts with the audio directory's components, and when `--output` has no `..` component, no component after them is `..`, so the file lies inside the audio directory |
| Backup.ParentStepKept | dump_phrases_backup.py:64-67 | pathlib does not collapse `..`: an `--output` of `../b` under `a` resolves to `a/../b`, outside `a` |
| Backup.ParsePath | dump_phrases_backup.py:65 | `Path(s)`: rooted when the text starts with `/`, and every component is non-empty, not `.`, and free of `/` |
| Backup.Join | dump_phrases_backup.py:67-69 | pathlib's `/`: an absolute right-hand side replaces the base, otherwise the components are appended; stated through ResolveOutputPath |
| Backup.SelectAll | dump_phrases_backup.py:88 | one row per table entry, with its phrase, by strictly ascending id |
| Backup.SelectAllCovers | dump_phrases_backup.py:88 | no row of the table is missing from the query |
| Backup.Sanitize | dump_phrases_backup.py:98 | same length, no tab, CR or LF, each of them replaced by a space, every other character unchanged |
| Backup.SanitizeIdempotent | dump_phrases_backup.py:98 | cleaning a cleaned phrase changes nothing |
| Backup.Cell | dump_phrases_backup.py:95-98 | a NULL phrase is the empty string, a present one keeps its length, and the field has no tab, CR or LF |
| Backup.LineText | dump_phrases_backup.py:100 | the data line `{pid}\t{phr_clean}` without its newline; it has no newline (NoBreaksInLineText) and splits back into the id and the cleaned phrase (ParseLineText) |
| Backup.NoBreaksInLineText | dump_phrases_backup.py:100 | a data line holds no line break, so each row is exactly one line of the file |
| Backup.Render | dump_phrases_backup.py:86-100 | the whole file: the header, then one line per row in cursor order; stated by WriteBackup and BackupRoundTrip |
| Backup.ParseLineText | dump_phrases_backup.py:100 | a data line splits at its only tab into exactly the id and the cleaned phrase |
| Backup.WriteBackup | dump_phrases_backup.py:84-102 | the file is the header followed by one line per row in cursor order, and `rows_written` is the number of rows |
| Backup.DumpBackup | dump_phrases_backup.py:59-101 | a missing audio directory is an error, and the table is not dumped. Otherwise the file goes to the resolved path, holds the rendering of the ordered table, and `rows_written` equals the number of rows |
| Backup.BackupRoundTrip | dump_phrases_backup.py:86-100 | reading the file back gives exactly one record per row, in order, with the id and the cleaned phrase |
| Backup.BackupListsTable | dump_phrases_backup.py:86-101 | the dump of a table reads back as one record per row, in ascending id order, each with its id and cleaned phrase |
| Decimal.IntToStringRoundTrip | dump_phrases_backup.py:100 | the id field `f"{pid}"` parses back to the id |

## Left out

- Loading `.env`, the credential checks and `sys.exit` at import, DSN assembly and `get_conn` (generate_tts_azure_db.py:24-50, dump_phrases_backup.py:17-36): configuration and I/O glue.
- `create_speech_config` and the Azure SDK objects (generate_tts_azure_db.py:53-66, 79-85): foreign library calls. Only the reported result and the file the call leaves behind are modelled. Language, voice and output format do not affect the loop.
- Exceptions raised by the provider or by the database, other than the rejected negative LIMIT, and closing the connection in `finally`: the model has no exceptions other than that one.
- The SQL text and the cursors. Transactions are modelled only as far as the run's own view (every update visible at once) and what `conn.close()` keeps (`CommittedAsWritten`). A crash between an update and its commit is not expressed.
- Driver.Run: its table is the run's own view, so a reconcile counts as done for the rest of the run; in the source that update is lost at `conn.close()` when no synthesis commits after it (see Findings).
- `sleep(args.sleep_on_error)`: the pause is a blocking side effect with a float argument. It is recorded only as a count of backoffs.
- The `tqdm` progress bars, the `print` logging, the summary text, the dry-run preview `phrase[:60]`, and the dump's `SELECT COUNT(*)`, which only sizes the progress bar.
- `argparse`, `out_dir.mkdir` and opening the backup file with its encoding: command-line and file-system glue.
- A NULL `phrase` or a NULL `tts_ok` in the synthesis driver: a driver row always has text and a boolean flag. A NULL `tts_ok` would never be selected, and a NULL phrase would fail in the preview or the provider call.
- Rendering a `Backup.Path` to a string, and pathlib's special case of a leading `//`: the path is modelled by its absoluteness and components.
- How the provider's enums print: a reason's text is `ResultReason.` followed by the member name, which is the Python rendering of the enum. The cancellation reason is kept as the text it renders to.

## Findings

| source | as written | input that shows it | evidently intended | confidence | as-written member | corrected member |
|---|---|---|---|---|---|---|
| generate_tts_azure_db.py:229-286 | with autocommit off (:159), the reconcile UPDATE is never committed by its own branch; it survives only if a later synthesis in the same run calls `conn.commit()`, and `conn.close()` rolls back the rest (`CommittedAsWritten`) | one pending row `7` whose `000007.mp3` exists, `--max-phrases 1`, `--batch-size 1`, `--max-attempts 3`: the run reports it skipped, yet the saved table still has it pending, so every later run does the same | a reconciled row is saved as done | not executed | Driver.ReconcileRolledBack | Driver.ReconcileKeptWhenCommitted |
