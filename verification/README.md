# winroot: the root reconciliation and survivorship core

winroot reads minirhizotron worksheets. Each worksheet is one observation tube, and each
row is one sighting of one root in one imaging session. From these the program rebuilds
the life history of every physical root and counts how many root tips are alive at each
location over time. This project models that core in Dafny and proves properties about it.

- **Field scrubbing** (module `Fields`). Column names become attribute names by
  replacing every character outside `[a-zA-Z0-9_]` with `X`. A name that starts with a
  digit also gets an `X` in front. This builds the identity, required, synthesis and
  custom attribute maps, together with the checks that reject custom fields.
- **The root record** (module `RootRecord`). This is the attribute-map object of
  `root.py`, whose `get`/`set` go through the attribute map.
- **A row becomes a root** (module `Roots`). `root_from_row` classifies a root as
  anomalous, alive or gone.
- **The tube** (module `Tubes`). `insert_or_update_root` reconciles a new sighting with
  the root already on record:
  - alive → gone records the death;
  - gone → alive clears it.

  `finalize_root` stamps the last session's highest order, the gone-session sentinel 0
  and the censoring flag.
- **Tip survivorship** (modules `Counting` and `Survivorship`):
  - births are counted per (birth session, location);
  - deaths are counted per (gone session, location);
  - the distinct sessions at each location are sorted;
  - running totals are summed at each location.
- **Reading a worksheet** (module `Sheets`):
  - a header is looked up by value;
  - the first empty cell of column 0 ends the root data;
  - the root data table is built (`build_root_data_table`);
  - `build_data_from_fields` from `utility.py` is included;
  - sheet names are filtered by the "Root Synth" suffix.
- **A root's life history** (module `History`). The record a tube ends up holding for an
  identity is characterised from its sightings alone: the first sighting stamped with the
  tube's number, its status and gone session following the alive and gone sightings.
- **The worksheet pipeline** (modules `Worksheet` and `Process`). `process_worksheet`
  turns rows into roots and computes the maximum session and the session dates. It then
  inserts every root, finalizes the roots seen in the last session and attaches the tip
  counts.

Cell values are `Values.Value` (empty, text or integer) with Python truthiness. Failures
the program raises or signals with `False` are modelled as `Result`/`Option` values.

## Model

| member | source | states |
|---|---|---|
| Fields.ReplaceInvalid | fields.py:33 | keeps the length and produces only identifier characters |
| Fields.Scrub | fields.py:31-37 | fails exactly on the empty name, always yields a valid identifier otherwise, and leaves an already valid name unchanged |
| Fields.ScrubShape | fields.py:32-35 | the scrubbed name is the original with each invalid character replaced by `X`, preceded by one extra `X` exactly when the name starts with a digit |
| Fields.ScrubHashSuffix | fields.py:32-35 | a valid stem followed by `#` scrubs to the stem followed by `X` |
| Fields.IdentityNamesValid | fields.py:24-27 | the identity column names, with their `#` removed, are valid identifiers |
| Fields.OtherNamesValid | fields.py:43-48 | the remaining base and synthesis column names are valid identifiers |
| Fields.HashColumnsScrub | fields.py:24-43 | the three column names ending in `#` (`Location#`, `Tube#`, `Session#`) become the same stem ending in `X` |
| Fields.ScrubAll | fields.py:52-60 | scrubbing a list of names succeeds exactly when no name is empty, and a failure is always an unscrubbable-name error. On success the map holds exactly the earlier keys and the names; each name maps to its scrubbed form and every other earlier key keeps its value |
| Fields.ScrubAllTwo | fields.py:90-98 | scrubbing two names stores both scrubbed forms, in order |
| Fields.ScrubAllFour | fields.py:30-38 | scrubbing four names stores the four scrubbed forms, in order |
| Fields.IdentityAttributes | fields.py:23-38 | the identity attribute map is exactly RootName, LocationX, BirthSession and TubeX under their column names |
| Fields.BaseTailScrub | fields.py:43-48 | the last four base fields map to themselves |
| Fields.RequiredAttributesScrub | fields.py:50-60 | the required map is the identity map extended with the six base fields, `Session#` becoming `SessionX` |
| Fields.SynthesisAttributesScrub | fields.py:88-98 | the synthesis map is the identity map extended with the two synthesis fields under their own names |
| Fields.AddCustomFields | fields.py:65-81 | custom fields are accepted exactly when none duplicates a required or an earlier field, each propagation is BIRTH or FINAL and no name is empty. On success both maps gain every scrubbed custom name. Each error names the offending field |
| Fields.AddCustomFieldsStep | fields.py:67-81 | one accepted field moves into the taken set without changing whether the remaining fields are acceptable |
| Fields.ScrubbedCustomCons | fields.py:80-81 | adding the first custom field and then the rest gives the same map as adding all of them at once |
| Fields.NewRootDataFields | fields.py:41-81 | construction succeeds exactly when the custom fields are acceptable. The required attributes are then the required map plus the scrubbed custom names, and the custom attributes are the scrubbed custom names alone. Otherwise the custom-field error is raised |
| Fields.NewSynthesisDataFields | fields.py:84-98 | construction always succeeds with the identity map plus the two synthesis fields |
| RootRecord.NewRoot | root.py:19-25 | the identity is the (rootname, location, birthsession) triple. The four fixed attributes read `''` and every other mapped attribute reads the caller's default |
| RootRecord.Set | root.py:27-29 | writing through a key changes exactly the attributes mapped to the same name and keeps the identity and the map |
| RootRecord.SetTwice | root.py:27-29 | of two writes through the same key, the second one wins |
| RootRecord.GetThroughSharedName | root.py:31-33 | a read goes through the map, so two names mapped to the same attribute read the same value |
| RootRecord.SetWhatWasRead | root.py:27-33 | writing back the value just read from an attribute that was set leaves the record unchanged |
| Roots.RootFromRow | analyzer.py:269-293 | the failure case is a one-tip row whose status is not text. Otherwise: identity and session come from the row; any other tip count is an alive anomaly; a status beginning with 'A' is alive, one beginning with 'G' is gone at the row's session, and any other status stays unclassified; status and gone session agree |
| Tubes.NewTube | tube.py:13-19 | a new tube holds no roots, has maximum session 0, no session dates and no tip stats |
| Tubes.Reconcile | tube.py:41-53 | alive→gone takes the incoming gone session and gone→alive clears it to `''`. Every other pair leaves the root unchanged, and only status and gone session can change |
| Tubes.HasIdentityAppend | tube.py:33-35 | appending a root adds exactly its identity to the identities on record |
| Tubes.AddRoot | tube.py:33-35 | the root is appended stamped with the tube's number; the roots already stored and every other field of the tube are unchanged |
| Tubes.InsertOrUpdateRoot | tube.py:37-60 | always returns True. A new identity is appended with the tube's number. A known identity is reconciled in place, leaving other roots and the length unchanged. The identities after are those before plus the root's |
| Tubes.InsertKeepsUnique | tube.py:37-60 | insertion keeps identities unique |
| Tubes.InsertKeepsStatusAgreement | tube.py:44-53 | reconciliation keeps every root's status in agreement with its gone session |
| Tubes.InsertIdempotent | tube.py:37-60 | inserting the same sighting twice gives the same tube as inserting it once |
| Tubes.DeathThenResurrection | tube.py:44-53 | alive, then gone, then alive again yields one root. It is gone with the recorded session after the second sighting and alive with the session cleared after the third |
| Tubes.FinalizeOne | tube.py:66-72 | the highest order is taken only from a last-session sighting. An alive root gets gone session 0 and censored 1, and a gone root gets censored 0. An unclassified root keeps both, and only these three attributes change |
| Tubes.FinalizeRoot | tube.py:62-74 | reports success exactly when the identity is on record, finalizes exactly the roots with that identity, and keeps the length and every identity |
| History.FirstIndex | tube.py:37-59 | gives -1 exactly when the identity is never sighted, and otherwise the position of its first sighting, the one `insert_or_update_root` adds to the tube |
| History.FirstIds | tube.py:54-59 | lists exactly the sighted identities, one entry per identity |
| History.FirstIdsInOrder | tube.py:54-59 | the identities are listed in the order of their first sightings, the order in which they are appended to the tube |
| History.LastWith | tube.py:44-53 | gives the position of the last sighting of an identity with a given status, or -1; no later sighting of the identity has that status |
| History.Merged | tube.py:33-60 | a record exists exactly when the identity is sighted. It is the first sighting stamped with the tube's number, and only its status and gone session can differ from that sighting |
| History.MergedAppend | tube.py:40-59 | one more sighting leaves the record of every other identity as it was. It creates the record of a new identity, stamped with the tube's number, and is reconciled into the record of a known one |
| History.MergedHistory | tube.py:44-53 | the record is unclassified, with the first sighting's gone session, exactly when the first sighting is. Otherwise its status is that of the last alive or gone sighting. An alive record has its gone session cleared to `''` when some sighting was gone, and keeps the first sighting's otherwise. A gone record has the gone session of the first gone sighting after the last alive one |
| Counting.Tally | analyzer.py:196-204 | the counting loop's keys are exactly the visited keys. Each value is the number of visits, negated for the gone count |
| Counting.TallySum | analyzer.py:196-204 | the values of a tally sum to the number of visits |
| Survivorship.AliveTipStats | analyzer.py:196-204 | the keys are exactly the roots' tip identities, and each count is the number of roots with that tip identity (so at least 1) |
| Survivorship.TipKeysMultiplicity | analyzer.py:198-203 | each tip identity is visited once per root that has it |
| Survivorship.AliveTipSum | analyzer.py:196-204 | the birth counts sum to the number of roots |
| Survivorship.GoneKeys | analyzer.py:207-217 | the gone keys visited are exactly the (gone session, location) pairs of roots that have a truthy gone session and a counted tip identity |
| Survivorship.GoneTipStats | analyzer.py:207-217 | the keys are exactly those pairs, and each count is minus the number of roots with a counted tip identity and a truthy gone session at that pair (so at most -1) |
| Survivorship.GoneKeysMultiplicity | analyzer.py:209-216 | each death key is visited once per root with a counted tip identity and a truthy gone session there |
| Survivorship.GoneKeysCount | analyzer.py:209-212 | one decrement is made per root with a truthy gone session |
| Survivorship.GoneTipSum | analyzer.py:207-217 | the death counts sum to minus the number of roots with a truthy gone session |
| Survivorship.GoneKeysWhenAlive | analyzer.py:209-211 | with the birth counts as filter, no gone root is skipped |
| Survivorship.SortedDistinct | analyzer.py:248-251 | the de-duplicated, sorted session list is strictly increasing and holds exactly the set's elements |
| Survivorship.SessionsAt | analyzer.py:230-247 | collects exactly the sessions keyed at one location |
| Survivorship.RunningTotals | analyzer.py:253-262 | the running-total map has exactly the location's listed sessions as keys |
| Survivorship.RunningTotalsKeep | analyzer.py:253-262 | extending the session list keeps the running totals already recorded |
| Survivorship.RunningTotalsSums | analyzer.py:253-262 | each session's total is the sum of birth and death counts over that session and all earlier ones |
| Survivorship.WalkRunningTotals | analyzer.py:253-262 | the loop over the sorted sessions with its accumulator computes the reference running totals |
| Survivorship.PrefixSumsRun | analyzer.py:255-261 | the first total is that session's change, and each later total is the previous total plus the session's change |
| Survivorship.Locations | analyzer.py:225-228 | the location list holds exactly the locations of the roots |
| Survivorship.LocationSessions | analyzer.py:230-251 | a location's session list is strictly increasing and holds exactly the sessions with a birth or death count there |
| Survivorship.TotalsOver | analyzer.py:252-262 | the total map's keys are the counted pairs at the listed locations, and each location's totals are its prefix sums |
| Survivorship.TipStats | analyzer.py:220-264 | the keys are exactly the counted birth and death pairs. Every root's tip identity and every truthy gone key is among them |
| Survivorship.TipStatsPrefix | analyzer.py:220-264 | at every root location, each session's total is the cumulative birth-minus-death count up to that session |
| Survivorship.TipStatsRunning | analyzer.py:253-262 | at every root location the totals form a running sum over the sorted sessions |
| Survivorship.CumDeltaSplit | analyzer.py:253-262 | the cumulative change equals births counted over the sessions minus deaths counted over them |
| Survivorship.TipKeysAt | analyzer.py:196-204 | the number of tip identities at a location is the number of roots there |
| Survivorship.GoneKeysAt | analyzer.py:207-217 | the number of death keys at a location is the number of roots there with a truthy gone session |
| Survivorship.SessionCountsTotal | analyzer.py:220-262 | every root location has sessions, and the full cumulative change there is roots at the location minus roots gone from it |
| Survivorship.Conservation | analyzer.py:220-264 | the total at a location's last session equals the roots seen there minus the roots gone from there |
| Survivorship.TipStatsAgree | analyzer.py:220-264 | the statistics depend only on each root's identity and gone session: roots that agree on those, index by index, have the same statistics |
| Sheets.IndexByValue | analyzer.py:33-49 | returns no index exactly when the value is absent. Otherwise it returns the first position holding the value |
| Sheets.IndexAtNull | analyzer.py:52-59 | returns no index exactly when every cell is truthy. Otherwise it returns the first falsy position |
| Sheets.Project | analyzer.py:84-89 | each row becomes its cells under the looked-up header columns, in key order |
| Sheets.TableAbove | analyzer.py:84-89 | the table has one projected row per sheet row above the end marker, header included |
| Sheets.BuildRootDataTable | analyzer.py:65-90 | as written: the table is produced exactly when every header is found at a non-zero column and the end of data is found at a non-zero row, and then it is the rows above the end |
| Sheets.BuildRootDataTableCorrected | analyzer.py:65-90 | corrected: a header in column 0 is accepted, and otherwise the behaviour is the same |
| Sheets.RootDataTableShape | analyzer.py:82-90 | the table starts with the header row in key order, every row above the end has a truthy first cell, and whenever the as-written version succeeds it agrees with the corrected one |
| Sheets.ColumnZeroHeaderRejected | analyzer.py:73-76 | a sheet whose only header sits in column 0 is rejected as written but read by the corrected version |
| Sheets.RowDict | utility.py:107-109 | a row dictionary has exactly the required keys, each mapped to the cell under its header |
| Sheets.BuildDataFromFields | utility.py:94-110 | a missing header fails exactly when some required key is absent, and an end-of-data failure happens exactly on a one-row sheet. Otherwise there is one dictionary per row between the header and the last row |
| Sheets.RootSheets | analyzer.py:310-317 | keeps exactly the sheet names ending in "Root Synth", in workbook order: the result is the names at the increasing positions whose names end so |
| Worksheet.RootsFromRows | analyzer.py:136-152 | succeeds exactly when every row converts, and then gives one root per row in order. On failure it gives the first failing row's error |
| Worksheet.RootsMatchRows | analyzer.py:136-152 | converted roots carry their row's identity and session, and their order is the row's root notes |
| Worksheet.MaxSession | analyzer.py:134-155 | the maximum session starts at 1, bounds every root's session and is 1 or some root's session |
| Worksheet.SessionDates | analyzer.py:157-158 | the date map's keys are exactly the sessions seen, each with the date of its first row |
| Worksheet.InsertStep | analyzer.py:168-169 | one insertion keeps identities unique and keeps every root in the tube |
| Worksheet.InsertAll | analyzer.py:168-169 | inserting all roots gives the identities of the tube and of the roots together, unique and all in the tube. When the tube's roots are unique and all in the tube, the stored roots are one per identity, in the order of first sighting, and each is the `History.Merged` record of the tube's roots followed by the inserted ones |
| Worksheet.OwnHistory | tube.py:37-60 | roots with unique identities, all stamped with the tube's number, are each the merged record of themselves read as sightings |
| Worksheet.InsertExtendsHistory | tube.py:37-60 | when the tube holds the merged records of some sightings, inserting one more sighting gives the merged records of all of them, in the order of first sighting |
| Worksheet.UpdateExtendsHistory | tube.py:40-53 | a sighting of an identity on record is reconciled into its root and leaves the identities and their order unchanged |
| Worksheet.AppendExtendsHistory | tube.py:54-59 | a sighting of a new identity is appended, stamped with the tube's number, as the last identity in the order of first sighting |
| Worksheet.FinalRoots | analyzer.py:167-171 | the final list holds exactly the roots seen in the last session, in row order |
| Worksheet.LastOrder | tube.py:66-67 | gives an order exactly when some root with the identity was seen in the session, and then it is the order of the last such root |
| Worksheet.LastOrderOfFinals | analyzer.py:167-178 | keeping only the last session's roots does not change which of them was the last sighting of an identity in that session |
| Worksheet.LastNotes | analyzer.py:136-152 | gives root notes exactly when some row with the identity is in the session, and then they are those of the last such row |
| Worksheet.LastOrderOfRows | analyzer.py:136-152 | the last sighting among the converted roots carries the root notes of the last matching row |
| Worksheet.FinalizeAll | analyzer.py:174-178 | each root whose identity a final sighting has is settled by its status (an alive root gets gone session 0 and censored 1, a gone root censored 0) and takes as highest order the order of the last final sighting of it in the last session; nothing else about it changes. All other roots are unchanged. A miss is reported exactly for a final sighting whose identity is not on record |
| Worksheet.NoFinalizeMisses | analyzer.py:174-178 | after inserting every root, finalization never reports a miss |
| Worksheet.Annotate | analyzer.py:182-186 | each root gets its cohort's total as alive-tips-at-birth, and its gone key's total as alive-tips-at-gone exactly when it has a truthy gone session. Nothing else changes |
| Worksheet.Reconciled | analyzer.py:163-178 | the reconciled tube has unique identities, every root in the tube, and exactly the rows' identities. Every root seen in the last session is finalized, and its highest order is the order of its last sighting in that session |
| Worksheet.FinalizeMeetsLastSession | analyzer.py:170-178 | after finalization every root seen in the last session is finalized, with the order of its last sighting in that session as its highest order |
| Worksheet.FinalizedIsFinalRecord | tube.py:62-74 | finalizing the merged record of an identity against the last session gives its final record: the merged record, and when the identity was seen in the last session, that record settled by its status with the order of its last sighting there as its highest order |
| Worksheet.FinalizeMeetsFinalRecord | analyzer.py:167-178 | finalizing the merged records of the sightings leaves exactly the final records, in the order of first sighting |
| Worksheet.ReconciledRecords | analyzer.py:163-178 | the reconciled tube holds one root per sighted identity, in the order of first sighting, and each is the final record of its identity |
| Worksheet.FinalRecordStatus | tube.py:44-72 | the final record has the status `History.MergedHistory` gives the merged record, keeps its identity and the tube's number, and keeps its gone session, except that a root alive in the last session gets gone session 0 and censored 1, and a gone one censored 0 |
| Worksheet.OneAliveSighting | analyzer.py:163-178 | a single alive sighting in the last session gives exactly one root, alive with gone session 0, censored 1 and its order as highest order |
| Worksheet.ReconciledAgainstRows | analyzer.py:136-178 | every reconciled root seen in the last session is finalized with the root notes of its last row in that session as its highest order |
| Worksheet.Attach | analyzer.py:182-187 | attaching counts changes only the tip counts and stores the stats |
| Worksheet.AttachTipStats | analyzer.py:181-187 | the stats stored are the tip statistics of the tube's roots, only tip counts change, and every root's counts are looked up in the stats |
| Worksheet.TipCountsKeepStats | analyzer.py:181-187 | setting the tip counts does not change the tip statistics, so the stored stats are also those of the annotated roots |
| Worksheet.AttachedStatsAreTipStats | analyzer.py:181 | the stats attached are the tip statistics of the tube's roots |
| Worksheet.AttachKeepsReconciled | analyzer.py:182-187 | setting the tip counts keeps the sessions, the dates, uniqueness, tube membership, the identity set, and the finalization and highest order of the last session's roots |
| Worksheet.AnnotationKeepsRebuilt | analyzer.py:182-186 | setting the tip counts keeps every root the final record of its identity in everything but those counts, in the same order |
| Worksheet.ReconcileRows | analyzer.py:134-178 | the tube built from the rows has the tube's number, the maximum session (at least 1, bounding every row's session, and 1 or a session with a date) and the dates. Its identities are unique and exactly the rows'. Every root seen in the last session is finalized with the root notes of its last row in that session as its highest order. The roots are one per identity in the order of first sighting, each the final record of its identity up to the tip counts |
| Process.AttachKeepsAll | analyzer.py:180-187 | attaching the tip statistics to a tube built from the rows keeps every fact of `ReconcileRows` and annotates the tube |
| Process.Pipeline | analyzer.py:134-187 | the tube meets every fact of `ReconcileRows` against the rows and the roots, stores the tip statistics of its own roots, and every root carries its birth count and, when its gone session is truthy, its gone count from them |
| Process.ProcessWorksheet | analyzer.py:93-191 | processing fails exactly when some row cannot become a root. Otherwise the tube meets every fact of `Process.Pipeline` for the rows and the roots built from them: the sessions and dates, the final record of every identity in the order of first sighting, and the tip statistics with every root annotated from them |

## Left out

- The command-line interface, logging, workbook loading and writing (openpyxl), `write_out_data` and `utility.stats` are I/O or reporting outside the core.
- `get_tube_number` reads a workbook cell. The tube number is a parameter of `Process.ProcessWorksheet`.
- The exception-list branch of `process_worksheet` (analyzer.py:109-114, 138-150) does nothing with the values it reads, so it is not modelled. As written it would fail with a key error on its misspelled `'Sesssion#'` key, but only when the exception list has a non-empty entry for the tube. `main` never passes an exception list (analyzer.py:523).
- Header re-indexing and the conversion of table rows into typed rows are left out. `Process.ProcessWorksheet` takes typed rows (`Roots.Row`): integer session and birth session, other cells as values. Sheet parsing is modelled separately in `Sheets`.
- `Tube.__iter__`/`next` (tube.py:21-31) are modelled as a plain walk over the root list. The shared `index` cursor and its reset are left out.
- The identifier pattern's `$` also matches before a trailing newline. Names ending in a newline are not distinguished.
- The program is Python 2 (`next` at tube.py:25-31, `raw_input` at analyzer.py:369), where dictionaries iterate in an arbitrary order. The custom fields are modelled as a sequence of pairs in one fixed order. The required-attribute dictionary is a map, whose result does not depend on that order.
- Fields.Scrub: works on characters. In Python 2, `str(k)` gives a byte string, so a non-ASCII character becomes one `X` per UTF-8 byte, and a unicode key with non-ASCII characters raises `UnicodeEncodeError` (fields.py:31, 53, 73, 91). The model replaces each character by one `X` and raises nothing.
- Survivorship.GoneTipStats: the outer loop over the sorted birth counts is modelled as one pass over the roots filtered by membership in those counts. The loop only changes the order of the decrements, not their result.
- Survivorship.TipStats: the map's insertion order is not modelled.
- `DataError` and `FieldsError` messages are not modelled; errors carry the offending name where the model needs it.
- A status of `'D'` is not a separate branch. As in the code, only statuses beginning with 'A' or 'G' are classified, and all others stay unclassified.
- An empty worksheet is given an empty header row, and `Sheets.BuildDataFromFields` treats it like a one-row sheet. The workbook library reports one empty row for such a sheet.
- In `root.py`, `Root.__init__` takes an attribute map before the identity. The analyzer calls it with three arguments and reads `tipIdentity` and `location`, which `root.py` does not define. The analyzer's root is modelled as `Roots.Root`. Its initial values are assumptions taken from the record of `root.py`, since the analyzer's own root class is not part of this model; `Roots.RootFromRow` states them. They are `''` for `censored` and `highestOrder`, and `''` (`Unclassified`) for `isAlive` when the status begins with neither 'A' nor 'G'. `goneSession` is left unset, which is falsy, unless the root is gone. The attribute-map record of `root.py` is modelled separately as `RootRecord`.
- RootRecord.NewRoot: an attribute map that sends a name to one of the object's own attributes (`identity`, `attr_map`, `fixed_attributes`, `get`, `set` or a double-underscore name) is not modelled. Such a name would read or overwrite that attribute instead of a stored value.
- RootRecord.Set: the same collision is not modelled. A write to `identity` or `attr_map` would replace the identity or the map itself, which the model's contract says stay unchanged.
- RootRecord.Get: a name mapped to one of the object's own attributes would read that attribute. A key missing from the map passes `None` to `getattr`/`setattr` and raises `TypeError`; the model requires the key to be mapped.
- Floating-point and boolean cell values are not modelled. Cell values are empty, text or integers.

## Findings

| source | as written | input that shows it | evidently intended | confidence | as-written member | corrected member |
|---|---|---|---|---|---|---|
| analyzer.py:73-76 | `if not index` treats a header found at column 0 like a missing header and rejects the sheet | the sheet `[[Str(name)], [Str(cell)], [Empty]]` with the single key `name` | reject only a header that is not found, as `utility.py:100` does with `is False` | not executed | Sheets.BuildRootDataTable, Sheets.ColumnZeroHeaderRejected | Sheets.BuildRootDataTableCorrected |
