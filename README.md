# DSS-TRACK duplicate detection, modelled in Dafny

DSS-TRACK is a small web backend for finding semantic duplicates in tabular data.

1. A user uploads a CSV or Excel file, and the backend creates a session holding the rows.
2. The user picks some columns. For each row, the backend joins the selected values into one text per row, embeds the texts and computes their pairwise cosine similarity.
3. A greedy loop then turns the similarity matrix into duplicate groups.
4. The user marks each group as a true or false duplicate.
5. An export builds a workbook with four sheets: the original rows, the de-duplicated rows, the rows of confirmed groups with their canonical row, and summary statistics.
6. Separately, a JSON sanitiser prepares payloads for the client. It unwraps NumPy int8 to uint64 scalars and float16/32/64 scalars, and it replaces NaN and the infinities among Python floats and those NumPy floats with null.

This project models that core and proves properties of it:

- `types.dfy`: identifiers, rows, errors and small sequence vocabulary.
- `text.dfy`: the text each row is compared by. It contains `Join`, and a `Split` that inverts `Join` when no part contains the separator.
- `grouping.dfy`: the grouping loop. There is a specification `Visit`, with the state after the first i rows, and a method `FindGroups` proved against it. The file also builds the stored groups with their per-member similarity scores.
- `report.dfy`: the export's views. The removed-row set and the Duplicates records are each built by a loop method proved against a function. The de-duplicated rows, the statistics and the workbook file name are functions.
- `sessions.dfy`: the session store as two classes, `Session` and `SessionStore`, whose methods update fields in place. They implement upload, analyze, review, export and status.
- `sanitize.dfy`: the recursive JSON sanitiser over a value datatype.

The grouping follows the code, not an idealised clustering:

- Rows are visited in ascending order, and rows already placed are skipped.
- An unplaced row with at least one other row at or above the threshold becomes the seed of the group `[seed] + those rows`.
- Members other than the seed are never checked against the rows already placed. So a row can sit in several groups, and a group's first row need not be its lowest.
- The grouping is not connected components (union-find): two rows that are similar only through a third row can end up in different groups, and one row can be in two groups. The model follows the loop at `backend/main.py:173-204`.

Some parts are inputs to the model:

- The similarity matrix is produced by a total function `encodeSim` from texts to a square matrix of their size.
- Fresh uuid4 identifiers are supplied by the caller: a session id not yet in the store, and a sequence of group ids. Analyze requires the group ids to be distinct and to carry no verdict from an earlier analysis, as fresh uuid4 values are. It then ensures the new groups have distinct ids and that no earlier verdict confirms any of them.
- Whether the embedding model is loaded is a boolean argument.

## Model

| member | source | states |
|---|---|---|
| Text.CombinedTextRecoversValues | backend/main.py:161-162 | a row's comparison text is its selected values in column order, separated by single spaces; splitting it at spaces gives back exactly those values when none contains a space |
| Text.Join | backend/main.py:162 | joining no parts gives the empty string and one part gives that part; the result starts with the first part, followed by the separator when there are more parts |
| Text.CombinedTexts | backend/main.py:161-162 | one text per row; with no selected column the text is empty, with one it is that column's value, and otherwise it starts with the first selected value |
| Text.SplitJoin | backend/main.py:162 | joining parts with a one-character separator and splitting again returns the parts, provided no part contains the separator |
| Sessions.FirstMissing | backend/main.py:156-158 | the result is none exactly when every selected column exists; otherwise it is the first selected column that does not exist, with all earlier ones present |
| Sessions.CheckColumns | backend/main.py:156-158 | the column-validation loop returns exactly the first missing column, or none |
| Grouping.Matches | backend/main.py:181-184 | the result holds exactly the positions other than i whose score reaches the threshold, in strictly increasing order |
| Grouping.Step | backend/main.py:177-188 | one iteration keeps every group a seed group of in-range rows seeded below the next row, and adds at most one group |
| Grouping.Visit | backend/main.py:173-188 | after i rows there are at most i groups; each is the seed followed by exactly its matches, seeded at a visited row |
| Grouping.SeedGroups | backend/main.py:173-188 | the loop yields at most one group per row, each a seed row followed by exactly the other rows at or above the threshold against it, all rows of the matrix |
| Grouping.ProcessedIsUnion | backend/main.py:174-188 | after every prefix of the loop, the processed set equals the union of all group members |
| Grouping.GroupShape | backend/main.py:176-187 | every group has at least two members and no repeats; the first is the seed; the rest are exactly the other rows with score at or above the threshold against the seed, ascending |
| Grouping.SeedsAscendingAndFresh | backend/main.py:176-178 | group seeds strictly increase, and a later seed never belongs to an earlier group |
| Grouping.GroupCount | backend/main.py:176-188 | there are no more groups than rows, and no groups at all with fewer than two rows |
| Grouping.Coverage | backend/main.py:176-188 | every row with some other row at or above the threshold belongs to at least one group |
| Grouping.MemberHasMatch | backend/main.py:181-187 | with a symmetric matrix, every group member is a row with a match: the seed matches its second member, and any other member matches the seed |
| Grouping.MembersAreMatchedRows | backend/main.py:176-188 | with a symmetric matrix, a row belongs to some group exactly when it has a match |
| Grouping.SeedInOwnGroupOnly | backend/main.py:186-188 | with a symmetric matrix, a group's seed is not a member of any other group |
| Grouping.ChainedRowsOverlap | backend/main.py:176-188 | for the chain 0 ~ 1 ~ 2 with 0 and 2 apart, the groups are [0, 1] and [2, 1]: groups overlap, and a first member can exceed a later one |
| Grouping.TwoOfThreeAlike | backend/main.py:176-188 | a matrix where only rows 0 and 1 are alike gives the single group [0, 1] at 0.85, and no group at 0.99 |
| Grouping.Scores | backend/main.py:197-201 | a member's scores have exactly the other members of its group as keys, each mapped to the matrix entry from that member, whatever its value; with distinct members there are size − 1 of them |
| Grouping.GroupRows | backend/main.py:194-202 | one record per member, in group order, each carrying its member's row position |
| Grouping.Materialize | backend/main.py:190-204 | one stored group per index group, in order; the k-th carries the k-th fresh id and exactly that group's members |
| Grouping.MaterializedWellFormed | backend/main.py:186-204 | every stored group has at least two distinct members, all rows of the upload |
| Grouping.BuildGroupRows | backend/main.py:194-202 | the member loop builds exactly the group's records |
| Grouping.VisitRow | backend/main.py:176-204 | one loop iteration takes the processed set and the stored groups from their state after i rows to their state after i + 1 rows |
| Grouping.FindGroups | backend/main.py:173-204 | the loop returns exactly the groups built from the seed-greedy specification with fresh ids, and a processed set equal to the union of their members |
| Sessions.Similarities | backend/main.py:161-170 | the similarity matrix of the combined texts is square, with one row and one column per uploaded row |
| Sessions.Session.constructor | backend/main.py:78-87 | a new session holds the upload; no columns selected, threshold 0.85, no groups, no verdicts |
| Sessions.SessionStore.Upload | backend/main.py:119-131 | an empty table fails and leaves the store unchanged; otherwise a fresh session is filed under the fresh id, other sessions stay, and the response shows at most the first five rows |
| Sessions.Session.Analyze | backend/main.py:151-214 | the selection and threshold are written first; a missing column fails with that column and leaves the groups unchanged; otherwise the groups become exactly the seed-greedy groups of the combined texts' similarities, under distinct fresh ids that no earlier verdict names, so the new groups remove no row until they are reviewed. Verdicts never change |
| Sessions.SessionStore.Analyze | backend/main.py:138-214 | an unloaded model fails before any change; an unknown session fails; otherwise the session-level analyze applies, including its fresh, distinct group ids, and no other session changes |
| Sessions.SessionStore.Review | backend/main.py:226-237 | the verdict map gains or overwrites exactly one entry, with no check that the id is a current group; groups, selection and threshold are unchanged; the count of reviews grows by one only for a new id; pending drops by one only for a new id; repeating a call changes nothing; an unknown session fails |
| Sessions.SessionStore.Status | backend/main.py:380-393 | an unknown session fails; otherwise the status reports the row, group and verdict counts, and pending equals the workbook's "Groups Pending Review". It is negative exactly when verdicts outnumber groups |
| Sessions.SessionStore.Export | backend/main.py:251-367 | an unknown session fails; otherwise the result is exactly the workbook specified from the session's rows, groups, verdicts, threshold and selection |
| Report.RemovedRows | backend/main.py:268-276 | when no group is confirmed, no row is removed |
| Report.RemovedRowsMembers | backend/main.py:268-276 | a row is removed exactly when it is a non-first member of some confirmed group; a group without a verdict is not confirmed |
| Report.RemovedRowsInRange | backend/main.py:273-285 | every removed row is a row of the upload |
| Report.CollectRemoved | backend/main.py:265-276 | the first export loop computes exactly the removed-row set |
| Report.Kept | backend/main.py:284-286 | the kept positions are exactly the positions below n not removed, in strictly increasing order |
| Report.KeptCount | backend/main.py:284-286 | the kept positions and the removed positions below n add up to n |
| Report.DeduplicatedRows | backend/main.py:284-286 | the k-th de-duplicated row is the original row at the k-th kept position, a position not removed |
| Report.DeduplicatedKeepsOthers | backend/main.py:284-286 | every row that is not removed appears among the de-duplicated rows |
| Report.Deduplicated | backend/main.py:284-286 | there are no more de-duplicated rows than original rows, and the de-duplicated rows plus the removed positions below the row count add up to the row count |
| Report.DeduplicatedCount | backend/main.py:284-286 | original count − de-duplicated count = number of removed rows |
| Report.GroupRecords | backend/main.py:298-307 | one record per member in group order, with the member's row, position, the group's first member as canonical row and the group's id; a record is canonical exactly when it is the first of a group with distinct members |
| Report.DuplicateRecords | backend/main.py:292-307 | the Duplicates sheet is empty exactly when no group is confirmed |
| Report.DuplicateRecordsConfirmed | backend/main.py:292-307 | every record on the Duplicates sheet belongs to a confirmed group: it carries that group's id and the position of one of its members |
| Report.FreshGroupsUnconfirmed | backend/main.py:268-307 | groups whose ids carry no verdict remove no row and put no record on the Duplicates sheet |
| Report.MaterializedFresh | backend/main.py:190-192 | groups stored under distinct fresh ids have pairwise distinct ids, none carries a verdict, and together they remove no row and produce no Duplicates record |
| Report.BuildDuplicateRecords | backend/main.py:292-307 | the second export loop builds exactly the records of the confirmed groups, in group order |
| Report.GroupNonCanonical | backend/main.py:273-305 | within one group, the records not marked canonical are exactly those of the members after the first |
| Report.NonCanonicalAreRemoved | backend/main.py:268-307 | the rows the Duplicates sheet marks as not canonical are exactly the removed rows |
| Report.ConfirmedGroupKeepsOnlyCanonical | backend/main.py:272-286 | with a symmetric matrix, of every confirmed group exactly its first member survives de-duplication |
| Report.CountVerdicts | backend/main.py:321-324 | the number of verdicts with a given value is at most the number of verdicts |
| Report.VerdictCounts | backend/main.py:320-324 | groups confirmed as duplicates plus groups confirmed as non-duplicates equals groups reviewed |
| Report.TotalRows | backend/main.py:325-327 | the total is zero without groups and at least the size of every single group |
| Report.TotalRowsAtLeastTwice | backend/main.py:325-327 | the total rows in potential groups is at least twice the number of groups |
| Report.RemovedAtMostSurplus | backend/main.py:272-276 | the removed-row count is at most the sum over confirmed groups of size − 1 |
| Report.OverlapRemovesSharedRowOnce | backend/main.py:272-276 | confirming the overlapping groups [0, 1] and [2, 1] removes one row, although the sizes less one sum to two |
| Report.ComputeStatistics | backend/main.py:319-358 | original − de-duplicated = rows removed = confirmed rows removed = size of the removed set, at most the confirmed groups' sizes less one; confirmed + rejected = reviewed; pending = groups − reviewed; rows in groups ≥ twice the groups |
| Report.LastDot | backend/main.py:367 | the result is the position of the last '.', or −1 when there is none |
| Report.Stem | backend/main.py:367 | the stem is a prefix of the name; when it differs from the name, it is non-empty, and it stops at a '.' that is not the last character and is followed by no other '.' |
| Report.ReportFileName | backend/main.py:367 | the report name ends in "_duplicate_report.xlsx", and what precedes that suffix is a prefix of the uploaded name |
| Report.StemDropsExtension | backend/main.py:367 | the stem of "base.ext" is "base" for a non-empty base and a non-empty extension without dots |
| Report.ReportFileNameOfUpload | backend/main.py:367 | the report for "base.ext" is named "base_duplicate_report.xlsx" |
| Report.ExportWorkbook | backend/main.py:258-358 | the workbook holds the original rows and the de-duplicated rows, and a placeholder Duplicates sheet exactly when no group is confirmed; its de-duplicated count matches the sheet |
| Sanitize.Unwrap | backend/common_utils.py:13-15 | an int8 to uint64 NumPy scalar becomes the plain int and a float16/32/64 NumPy scalar the plain float with the same finiteness; any other value is unchanged, and no modelled NumPy scalar remains |
| Sanitize.SanitizeForJson | backend/common_utils.py:12-27 | the result is plain: no modelled NumPy scalar, no tuple, no non-finite float. Finite floats are kept and non-finite ones become null. Lists and tuples become lists of the same length with each element sanitised. Dictionaries keep their keys in order, each value sanitised. NumPy scalars are unwrapped, and other scalars are unchanged |
| Sanitize.PlainIsFixedPoint | backend/common_utils.py:12-27 | a value is left unchanged by the sanitiser exactly when it is plain |
| Sanitize.SanitizeIdempotent | backend/common_utils.py:12-27 | sanitising twice equals sanitising once |
| Sanitize.PlainIsFinite | backend/common_utils.py:17-19 | a plain value holds no non-finite float at any depth |
| Sanitize.SanitizedIsFinite | backend/common_utils.py:12-27 | the sanitised value holds no non-finite float at any depth |
| Sanitize.SanitizePreApiResp | backend/common_utils.py:6-9 | for anything but a data frame the result is exactly the sanitiser's output |

## Left out

- The web framework is not modelled: routing, CORS, HTTP status codes and the health endpoint. Every failure is one `Error` value. In the code each of them reaches the client as a server error.
- Loading the embedding model, with its retries and sleeps, is startup I/O. Only "model not loaded" is modelled, as a boolean argument.
- The extension check and the CSV/Excel parsing of an upload are not modelled. `Upload` takes the parsed column names and rows. Cells are their string rendering, so `astype(str)` is not modelled.
- Column labels are modelled as strings, as CSV headers always are. `pd.read_excel` keeps a numeric or date header cell as a non-string label, such as the int 2020. The analyze request's columns are strings (`backend/main.py:68`), so in the source such a column can never be selected: asking for "2020" fails with a missing column. In the model that label can only be the string "2020", which `Sessions.FirstMissing` finds.
- The embedding call and the cosine-similarity computation are foreign numeric code. They are the parameter `encodeSim`, which is required to return a square matrix. Scores are exact reals, so floating-point rounding is not modelled.
- `uuid.uuid4()` is randomness. Session and group ids are caller-supplied naturals.
- The session's embeddings field is written by analyze and never read. It is left out.
- Writing the workbook to disk and the file response are not modelled. The export returns the sheets as values, and the temporary file path is left out.
- The index-to-canonical mapping in the export is computed and never read. It is left out.
- The data-frame conversion in the sanitiser (`sanitize_pandas_df`) is a thin pandas wrapper and is not part of this model. `SanitizePreApiResp` returns none for a frame.
- Sanitize.Value: Python objects other than None, bools, ints, strings, floats, NumPy integer and floating scalars, lists, tuples and string-keyed dicts are not modelled. Examples are sets, arbitrary objects and the other NumPy scalars (`np.bool_`, complex and `np.datetime64` scalars). The sanitiser does not unwrap those and returns them unchanged. `np.timedelta64` is not modelled either. It is an `np.integer`, so the sanitiser does unwrap it, to a `datetime.timedelta` (an int for nanosecond or generic units, None for NaT), and returns that unchanged. `NumpyInt` stands only for the int8 to uint64 scalars, whose `.item()` is a Python int. `np.longdouble` is not modelled either. It is an `np.floating`, but `.item()` returns another longdouble rather than a Python float, so the float check fails and the value is returned unchanged, NaN and infinities included. `NumpyFloat` stands only for the float16, float32 and float64 scalars.
- Grouping.GroupRow: the member's position and scores are kept as separate fields. A data column named `original_index` or `similarity_scores` would be overwritten in the source, and that collision is not modelled.
- Report.DuplicateRecord: the cells and the four added fields are kept apart in the same way. On the Duplicates sheet the source writes `Original_Row_Index`, `Canonical_Row_Index`, `Is_Canonical` and `Duplicate_Group_ID` into the row's own dictionary (`backend/main.py:303-306`), overwriting any data column of the same name. That collision is not modelled. Score keys are row positions rather than their decimal strings.
- Report.Stem: directory components of the uploaded file name are not stripped. The name is whatever the client sends. Browsers send bare file names, and a name with a directory part would get a different report name.
- The de-duplicated rows assume the frame's default 0..n−1 row labels, which both readers produce. The export drops rows by label.
- The module-level session store has no locking. The model is single-threaded.
- The analyze request's default threshold of 0.85 (`backend/main.py:69`) is not modelled. The caller always passes the threshold `t`. `Sessions.DefaultThreshold` is only the value a new session starts with.
- Grouping.MemberHasMatch, Grouping.MembersAreMatchedRows, Grouping.SeedInOwnGroupOnly and Report.ConfirmedGroupKeepsOnlyCanonical assume a symmetric similarity matrix, as cosine similarity is. A non-seed member only has a score at or above the threshold from the seed, and symmetry gives the score in the other direction. The other lemmas do not assume symmetry.
