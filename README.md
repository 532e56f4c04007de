# Chat Portal Libras backend: ingestion and lexical retrieval, in Dafny

This project models the logic core of the backend in `server.js`. The backend
syncs the PDF files of a Google Drive folder into an in-memory index of text
chunks. It then answers free-text questions by returning the chunks that
contain a word of the question. Three parts are modelled:

- **Chunker** (`chunker.dfy`). The loop at `server.js:74-77` cuts a file's
  extracted text into consecutive windows of 1800 characters. Each window
  becomes an entry `{id: fileId + "_" + offset, filename, chunk}`.
- **Index and sync handler** (`index_store.dfy`, `sync.dfy`). The module-level
  `indexDB` array becomes the class `IndexStore.Index`. Its field `entries`
  is only ever appended to. `Sync.SyncDrive` is the `/api/sync-drive` handler
  written as a method with a `while` loop over the listed files. It is proved
  equal to the specification function `Sync.SyncSpec`, and the handler's
  promises are proved as lemmas about that function.
- **Query engine** (`query.dfy`). `Query.Chat` is the `/api/chat` handler as a
  pure function over the index entries: lower-case the question, split it on
  white space, keep the entries whose lower-cased chunk contains any term,
  take the first five, and excerpt each to 400 characters.

Supporting modules:

- `results.dfy` holds `Option`, `Outcome` (a value or an error message) and `Min`.
- `text.dfy` models the JavaScript string primitives the handlers rely on:
  `toLowerCase`, `split(/\s+/)`, `includes`, `slice`, and decimal rendering
  inside a template literal.
- `scenarios.dfy` works one concrete document through chunking and two queries.

External collaborators are parameters of the model:

- `hasCredentials` stands for whether `getDriveClient` finds credentials.
- `listing` is the result of `drive.files.list`: the files, or the error
  message it threw.
- `fetch` maps a file id to its extracted text, or to the message of the error
  thrown while downloading or decoding it.

A chat request reads the index through `Index.entries`.

The model follows what the code does:

- The chunk size is 1800, although the comment at `server.js:73` says 2000.
- A failing file is not skipped. There is no per-file `try`, so the first
  download or extraction error aborts the whole sync with a 500. Chunks pushed
  for earlier files stay in the index.
- A missing credential is a 500 through the outer `catch`, not a distinct
  error kind.
- A question made only of white space is not rejected. It has no terms and
  gets zero matches.
- Re-syncing appends duplicate entries. Nothing is replaced.

## Model

| member | source | states |
|---|---|---|
| `Text.Lower` | server.js:94-95 | the lower-cased string has the same length and is lower-cased character by character |
| `Text.LowerOfLowercase` | server.js:94 | text with no capitals is unchanged by lower-casing |
| `Text.LowerKeepsSpaces` | server.js:94 | lower-casing neither creates nor removes white space: each character keeps its white-space status |
| `Text.TokensOfLower` | server.js:94 | lower-casing before splitting gives the same split: the tokens of the lower-cased question are its tokens lower-cased, in order |
| `Text.WordAt` | server.js:94 | the longest white-space-free prefix: a prefix of the input, free of white space, followed by white space or the end, non-empty when the input starts with a non-space |
| `Text.TokensAreWords` | server.js:94 | `split(/\s+/).filter(Boolean)` keeps only non-empty pieces, and no piece contains white space |
| `Text.TokensCoverNonSpace` | server.js:94 | the tokens joined in order are exactly the input's non-space characters in order |
| `Text.TokensEmptyIff` | server.js:94 | a string has no tokens if and only if it is entirely white space |
| `Text.TokensOfWord` | server.js:94 | a single non-empty word without white space tokenises to itself |
| `Text.TokensSplitAt` | server.js:94 | every white-space character is a split point: the tokens of a string are the tokens before that character followed by the tokens after it |
| `Text.TokensSplitAtSpace` | server.js:94 | the same with the pieces named: the tokens of `a + c + b` with `c` white space are the tokens of `a` followed by the tokens of `b`; with `TokensOfWord` and `TokensEmptyIff` this fixes the tokens of every string |
| `Text.IncludesIff` | server.js:95 | `hay.includes(w)` holds if and only if `w` occurs in `hay` at some position |
| `Text.IncludesFirstChar` | server.js:95 | a non-empty string found in `hay` starts with a character of `hay` |
| `Text.Dec` | server.js:76 | the decimal numeral of an offset is non-empty, all digits, has no leading zero, is the single digit `0` for 0, and is one digit long exactly for values below 10 |
| `Text.ParseDecOfDec` | server.js:76 | parsing the numeral of `n` gives back `n` |
| `Text.DecInjective` | server.js:76 | distinct offsets have distinct numerals |
| `Chunker.NumChunksIsCeiling` | server.js:74 | window k exists if and only if its start 1800k lies inside the text, so the count is ceil(length / 1800) |
| `Chunker.ChunkIsWindow` | server.js:74-76 | the k-th entry is `text[1800k .. min(1800k+1800, len)]`, non-empty, at most 1800 long, with id `fileId_1800k` and the file's name |
| `Chunker.NoChunksForEmptyText` | server.js:74 | empty text gives no entries |
| `Chunker.Reconstruction` | server.js:74-76 | a file's entries joined in push order give back its text exactly |
| `Chunker.ChunkIdInjective` | server.js:76 | ids `fileId + "_" + offset` with the same file id and different offsets differ |
| `Chunker.ChunkIdsDistinct` | server.js:74-76 | the ids of one file's entries are pairwise distinct |
| `IndexStore.Index.constructor` | server.js:55-56 | the index starts empty |
| `IndexStore.Index.IndexText` | server.js:74-77 | the chunking loop appends exactly the file's windows, in order, after the existing entries, which are left unchanged |
| `Sync.SyncDrive` | server.js:59-86 | the handler's response and the new index equal `SyncSpec` of the old index and the collaborators' answers |
| `Sync.IngestStopsAtFailure` | server.js:69-72 | once a file has failed, later files make no difference: the run ends there |
| `Sync.IngestCompletesIff` | server.js:69-80 | the loop gets through every file if and only if every download and extraction succeeds, and then `counted` equals the number of files |
| `Sync.IngestFailsAtFirstError` | server.js:69-72 | a failure at file k ends the loop with that file's error, keeps the entries of files 0..k-1, and pushes none of file k's |
| `Sync.SyncWithoutFolder` | server.js:61 | an empty folder id gives a 400 with the configuration message and leaves the index unchanged |
| `Sync.SyncOnlyAppends` | server.js:69-81 | the old index is a prefix of the new one, which grows by exactly the entries the loop pushed, and by none when the request stops before the loop |
| `Sync.SyncSucceedsIff` | server.js:61-81 | the sync answers ok if and only if the folder and credentials are present, the listing succeeds and every file is processed; it then reports every listed file and the index's final length |
| `Sync.SyncAbortsAtFirstError` | server.js:69-85 | a failure at file k gives a 500 carrying that error, and the entries of files 0..k-1 stay in the index |
| `Sync.ResyncDuplicates` | server.js:74-76 | a second identical successful sync appends the same entries again, so every id it pushes occurs twice |
| `Query.RelevantIff` | server.js:95 | an entry is selected if and only if some term occurs at some position in its lower-cased text |
| `Query.CandidateIndices` | server.js:95 | the filtered entries are the index's entries at strictly increasing positions, and a position is among them if and only if its entry is relevant |
| `Query.MatchesAreFirstRelevant` | server.js:95 | at most five matches, all relevant, in index order, and they are the first relevant ones: an unselected relevant entry comes after five selected ones |
| `Query.NoTermsNoCandidates` | server.js:94-95 | with no terms no entry is a candidate |
| `Query.SingleRelevantEntry` | server.js:95 | if exactly one entry is relevant, it is the only match |
| `Query.NoRelevantNoMatches` | server.js:95 | if no entry is relevant there are no matches |
| `Query.OneWordTerms` | server.js:94 | a one-word lower-case question has that word as its only term |
| `Query.OneWordQueryHit` | server.js:94-95 | a one-word question found in exactly one entry's text selects exactly that entry |
| `Query.OneWordQueryMiss` | server.js:94-95 | a one-word question found in no entry's text selects nothing |
| `Query.ChatRejectsOnlyMissingQuestion` | server.js:91-92 | the chat answers 400 "question required" if and only if the question is missing or empty |
| `Query.BlankQuestionMatchesNothing` | server.js:92-98 | a white-space-only question passes the check, has no terms, and gets zero matches with the answer for 0 |
| `Query.EmptyIndexMatchesNothing` | server.js:95-98 | an empty index answers any non-empty question with zero matches instead of failing |
| `Query.AnswerTextEmbedsCount` | server.js:98 | the answer sentence is the fixed opening, a decimal numeral that parses to the match count, and the fixed closing |
| `Query.ExcerptIsPrefix` | server.js:96 | `chunk.slice(0, 400)` is the chunk's prefix of length min(400, length) |
| `Query.AnswerShape` | server.js:95-98 | an answered question carries one context item per match (at most five), each with the match's file name and its first min(400, length) characters, under the sentence counting the matches |
| `Scenarios.SampleChunks` | server.js:74-76 | "alpha beta gamma" in file "doc" becomes the single entry `doc_0` holding the whole text |
| `Scenarios.SampleQueryHit` | server.js:94-96 | querying that entry with "beta" selects it, and its excerpt is the whole text |
| `Scenarios.SampleQueryMiss` | server.js:94-95 | querying it with "delta" selects nothing |

## Left out

- The Express, CORS and dotenv setup, routing, the root route and `app.listen`
  (`server.js:1-15`, `105-107`) are request plumbing. Handler results are the
  datatypes `SyncResponse` and `ChatResponse`, which carry a status and body.
- Loading credentials from `service-account.json` or the environment
  (`server.js:17-28`), and building the Drive client (`server.js:30-37`), are
  configuration and a foreign API. They are reduced to the boolean
  `hasCredentials`. Without credentials the sync answers 500 with the message `getDriveClient` throws.
- The Drive list query string, its fields and page size (`server.js:63-65`)
  are a remote call. They become the `listing` parameter. Pagination beyond
  one page is not modelled, and neither does the code handle it.
- `downloadFileToTemp`, the `tmp` directory and the unlink of the temporary
  file (`server.js:39-47`, `67-68`, `70`, `79`) are stream and file I/O. They
  and `extractTextFromPdfPath` with pdf-parse (`server.js:49-53`) together
  form the `fetch` oracle. A failure to create the `tmp` directory is not
  modelled. A failing unlink is swallowed by the code and has no effect.
- `console.error` logging is left out, because it is output only.
- `Text.Lower`: lower-cases only ASCII letters. JavaScript's `toLowerCase`
  uses full Unicode case mapping, which depends on tables outside this model.
- Strings are sequences of Dafny characters, which are Unicode scalar values.
  JavaScript measures `length` and `slice` in UTF-16 code units, so text
  outside the Basic Multilingual Plane is counted differently.
- A `question` that is present but not a string (a number, say) makes
  `toLowerCase` throw, and the code answers 500. The model types the question
  as an optional string, and treats any other falsy value as missing.
- The handlers are `async`. A chat request can run between two files of a
  sync and see the index partly grown. The model treats each request as one
  atomic step over the index.

