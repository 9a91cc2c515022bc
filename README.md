# Vocabulary loader: row mapping and upload into a document collection

The system is a one-shot batch script. It reads a vocabulary table whose
columns include `English word` and `English explanation` and writes one document per
usable row into a remote document collection. For each row it does one of two things:

- It skips the row and prints its display number: the 0-based row index plus 2, so
  the header is line 1. A row is skipped when its word is missing (None or NaN) or is
  the empty string.
- It writes a record `{word, definition}` under a document id. The id is the word with
  every `/` replaced by `-`. The definition is the explanation, or `""` when the
  explanation is missing.

Each write is a full overwrite (`set`). Rows are handled one at a time, in file order.
If the input file cannot be loaded, nothing is written.

The model has two modules:

- `RowMapper` (`row_mapper.dfy`) holds the pure part. The datatypes are `Cell`
  (`Missing | Str`), `Row`, `Record` and `Outcome` (`Write | Skip`). The functions model
  the guard (Python truthiness plus `pd.notna`), the id derivation and the per-row
  transform.
- `Uploader` (`uploader.dfy`) holds the collection and the loop. The collection is a
  class `Collection` whose `docs: map<string, Record>` field is changed by `Set`. The
  `Upload` method is the row loop. Its invariant says the collection equals the fold
  `Store` over the outcomes of the rows handled so far. `UploadFile` adds the
  load-failure guard. The lemmas about `Store` give:
  - last write wins;
  - keys that no row writes are left alone;
  - the set of keys after the run;
  - idempotence.

## Model

| member | source | states |
|---|---|---|
| `RowMapper.AcceptedIff` | upload_to_firestore.py:32 | The guard `english_word and pd.notna(english_word)` accepts a cell exactly when it is a string of length > 0. Missing/NaN and `""` are rejected. |
| `RowMapper.WhitespaceWordAccepted` | upload_to_firestore.py:32-40 | Every non-empty word made only of spaces is not skipped. It is written under itself, with nothing trimmed. |
| `RowMapper.DocumentId` | upload_to_firestore.py:34 | The id has the word's length and contains no `/`. Each position holds `-` where the word has `/`, and otherwise the word's character. |
| `RowMapper.DocumentIdIdempotent` | upload_to_firestore.py:34 | Replacing slashes in an id a second time gives the id back. |
| `RowMapper.DocumentIdFixedIff` | upload_to_firestore.py:34 | A word is its own id exactly when it has no `/`. |
| `RowMapper.DocumentIdCollides` | upload_to_firestore.py:34 | Two words of equal length that agree at every position up to `/` versus `-` get the same id. |
| `RowMapper.Definition` | upload_to_firestore.py:39 | The definition is the explanation when it is present, and `""` when it is missing/NaN. |
| `RowMapper.Transform` | upload_to_firestore.py:32-49 | A row is skipped exactly when the guard rejects its word. The skip names row `index + 2`. Otherwise the outcome is a write under `DocumentId(word)` of the record with the original word (slashes kept) and `Definition(expl)`. |
| `RowMapper.PlainWordKeepsItsName` | upload_to_firestore.py:34-40 | A non-empty word with no slash is written under itself. |
| `RowMapper.ExamplePlainWord` | upload_to_firestore.py:32-40 | "myocardial infarction" / "heart attack" becomes id "myocardial infarction" with record {"myocardial infarction", "heart attack"}. |
| `RowMapper.ExampleSlashWord` | upload_to_firestore.py:32-40 | "AM/PM" with a missing explanation becomes id "AM-PM" with record {"AM/PM", ""}. |
| `RowMapper.ExampleEmptyWord` | upload_to_firestore.py:32-49 | An empty word at index 5 is skipped and named as row 7. |
| `Uploader.StoreUntouched` | upload_to_firestore.py:43-46 | A key that no outcome writes is present after the run exactly when it was present before, and its value is unchanged. |
| `Uploader.StoreLastWrite` | upload_to_firestore.py:43-46 | After the run, a key holds the record of its last write in file order. |
| `Uploader.LastWriteExists` | upload_to_firestore.py:26-46 | A key that is written at least once has a last write. |
| `Uploader.StoreKeys` | upload_to_firestore.py:43-46 | The keys after the run are exactly the prior keys plus the ids that were written. |
| `Uploader.StoreIdempotent` | upload_to_firestore.py:43-46 | Applying the same outcomes a second time leaves the collection as the first application left it. |
| `Uploader.LastRowWins` | upload_to_firestore.py:26-46 | Take an accepted row whose id no later accepted row produces. The collection maps that id to this row's record {word, Definition(expl)}. |
| `Uploader.SlashHyphenCollision` | upload_to_firestore.py:34-46 | Rows "A/B" then "A-B" leave a single document "A-B". It holds the later row's record, and every other key is as before. |
| `Uploader.WritesPlusSkips` | upload_to_firestore.py:26-49 | Writes plus skips equals the number of outcomes. |
| `Uploader.SkippedRowsMembers` | upload_to_firestore.py:48-49 | The skip notices are exactly the display numbers carried by the skip outcomes. |
| `Uploader.RowsWrittenOrSkipped` | upload_to_firestore.py:26-49 | Each row ends as exactly one of written or skipped. Number `n` appears among the skip notices exactly when `2 <= n < |rows| + 2` and the row at index `n - 2` is rejected by the guard. |
| `Uploader.Collection.Set` | upload_to_firestore.py:43-46 | `set` replaces the whole document at the id. No other document changes. |
| `Uploader.Upload` | upload_to_firestore.py:26-49 | Visits each row once, in file order. The log is the transform of each row at its own index. The collection ends as `Store` of the old collection over that log. |
| `Uploader.UploadTwice` | upload_to_firestore.py:26-46 | Running the loop twice on the same rows ends with the same collection as running it once. |
| `Uploader.UploadFile` | upload_to_firestore.py:16-49 | If loading fails, the report is `LoadFailed` and the collection is unchanged, so there are zero writes. Otherwise the run is `Upload` over the loaded rows. |

## Left out

- Reading the CSV with pandas is not modelled. Instead, the input is a given sequence
  of rows, or `FileNotFound`. This leaves out `read_csv`, `iterrows` and `row.get`.
- `Missing` stands for both None (an absent column) and NaN (an empty field). Python
  treats NaN as truthy, but `pd.notna` rejects it, so the guard gives the same result
  for both.
- The row number is the row's position in the sequence. This is the DataFrame index
  that `read_csv` gives by default (a RangeIndex). A file whose quoted fields span several
  lines would move the physical line number, and that is not modelled.
- `read_csv` drops blank lines by default. That also shifts the physical line number
  against `index + 2`, and it is not modelled.
- `read_csv` reads its default NA strings ("NA", "N/A", "null", "None", "nan", and
  others) as NaN. A row whose word is "N/A" is therefore skipped, not written as "N-A".
  The model takes the cells as already parsed, so a `Str` cell is never one of these.
- Cells that are not strings, such as a numeric word or explanation, are not modelled.
  For a word, a zero is falsy and the row is skipped at line 32. Any other number
  reaches `.replace` at line 34, which raises and ends the run after the rows before it.
- The Firestore client is not modelled: authentication, the network, quotas, and
  exceptions raised by `set`. Such an exception would abort the run after a prefix of
  the rows. The model treats `set` as a total map update.
- Console output is not modelled, apart from the skip numbers returned in the log:
  the progress lines, "Processed document for", and the completion line. Neither are
  `exit()` and the fixed project id, file path and collection name. These are I/O and
  process control.
