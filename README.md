# CustomClassifier scripts — a Dafny model

The repository is a set of Python scripts for building a custom document classifier on a
cloud document-intelligence service. First, `analyze_layout.py` runs layout analysis on
every training document and saves each result next to it as `<file>.ocr.json`. Then
`upload_documents.py` uploads each category directory to a blob container, together with a
JSON-lines manifest `<category>.jsonl` that lists the category's files. `build_classifier.py`
takes every `.jsonl` blob at the top level of the container as one document type and asks the service to
train a classifier. Last, `classify_document.py` posts a document for classification and
polls for the result with bounded exponential backoff.

This project models the logic in those four scripts and proves properties of it:

- `ClassifyDocument` (classify_document.dfy): the analyze URL, and the poll loop as a
  `method` with a `while` loop and `break`s. Its GET responses are a given function from
  query number to `Http(code, body) | Raised`, and each `time.sleep` is appended to a
  schedule of sleeps. The method is proved equal to a specification: how many GETs it makes,
  which sleeps it takes and which body it returns. Lemmas then prove the backoff bounds, the
  closed form `min(5·2^(k-1), 60)` of the k-th sleep, the 15-attempt limit and the
  early-exit rules.
- `UploadDocuments` (upload_documents.dfy): blob names, manifest records and manifest
  text, with the upload run as an outer `for` loop over directories and an inner one over
  each directory's entries. It proves that reading a manifest back
  gives exactly its records in order. It also proves that each directory's uploads form one
  block: its files in listing order, matching its records one for one, then its manifest.
- `BuildClassifier` (build_classifier.dfy): the empty-to-`None` environment defaults, the
  SAS URL and its validity window, and `get_doctypes` as a method with its two loops. The
  request assembly of `build_classifier` is also here.
- `AnalyzeLayout` (analyze_layout.dfy): the batch as two loops. The outer one, in
  `AnalyzeBatch`, runs over the directories. The inner one, `AnalyzeDirectory`, runs over one
  directory's entries and returns that directory's rejected files and saved outputs, which
  the outer loop appends in order. JSON entries are skipped. Each analysis completes, is rejected (caught and recorded; the batch goes on), or
  aborts (an uncaught exception from `poller.result()` that ends the run).
- `Pipeline` (pipeline.dfy): cross-script facts. A manifest uploaded as `d.jsonl` comes back
  as doc type `d` with `file_list` `d.jsonl`. Every plainly named uploaded directory becomes
  a doc type. An OCR output never becomes a doc type.
- `Paths` (paths.dfy) and `Wrappers` (wrappers.dfy): `str.endswith`, backslash replacement,
  Windows `os.path.join`, the root part of `os.path.splitext`, and `Option`.

Inputs given as parameters, not modelled: the HTTP and SDK calls, the environment variables,
`uuid.uuid4()`, the SAS token, the directory listings and the clock. Each clock reading is an
integer number of seconds.

Facts about the code that the model keeps:

- An exception during a poll GET ends the loop at once; it does not use up one attempt
  while polling goes on (classify_document.py:123-126).
- When the attempts run out, the loop returns the body of the last response; there is no
  separate "timed out" result (classify_document.py:97, 128).
- A JSON `null` body on a 200 response raises at `resp_json["status"]`, which the `except`
  clause catches: the loop ends and returns None (classify_document.py:105, 111, 123-126).
- Nothing checks file extensions, image sizes or a minimum number of files per category:
  every directory entry goes into the manifest (upload_documents.py:43-46). The only filter
  skips `.json` and `.jsonl` entries before analysis (analyze_layout.py:56).
- `walk_blobs()` is called with its default `/` delimiter, so `get_doctypes` sees only the
  top-level blob names (build_classifier.py:82). The manifests are uploaded at the top level
  (upload_documents.py:56-62); the documents are not.

An edge case of `os.path.splitext`: a blob named `.jsonl`, or one whose last name part is
only dots before `.jsonl`, keeps the whole name as its doc type. Its `file_list` then reads
`.jsonl.jsonl` (`Paths.SplitExtRootDotOnly`, `BuildClassifier.DocTypeWithoutStem`). The
manifest round trip holds for every directory name that has a character other than `.`
(`Pipeline.ManifestBecomesDocType`).

## Model

| member | source | states |
|---|---|---|
| `Paths.ReplaceBackslash` | upload_documents.py:45 | the result has the input's length; every `\` becomes `/` and every other character stays |
| `Paths.ReplaceBackslashRemovesAll` | upload_documents.py:45 | no `\` is left after the replacement |
| `Paths.Join` | upload_documents.py:42-44 | `os.path.join` puts the directory and the file name side by side, with at most one separator between them |
| `Paths.JoinEnds` | upload_documents.py:42-44 | the joined path starts with the directory and ends with the file name |
| `Paths.JoinAppend` | analyze_layout.py:55-58 | appending a suffix to a joined path is joining the directory with the suffixed file name |
| `Paths.SplitExtRootJsonl` | build_classifier.py:84-85 | a `.jsonl` name with a stem loses exactly its `.jsonl` suffix |
| `Paths.SplitExtRootDotOnly` | build_classifier.py:85 | the name `.jsonl` is returned whole (leading dots are not an extension) |
| `ClassifyDocument.AnalyzeUrl` | classify_document.py:48-51 | the URL is endpoint + `/documentintelligence/documentClassifiers/` + model id + `:analyze?api-version=2024-02-29-preview` |
| `ClassifyDocument.AnalyzeUrlRoundTrip` | classify_document.py:48-51 | the model id can be read back from the URL, so different models get different URLs |
| `ClassifyDocument.WaitAfter` | classify_document.py:93-121 | the wait starts at 5 s, becomes `min(2·wait, 60)` after each retry, and always lies in [5, 60] |
| `ClassifyDocument.Schedule` | classify_document.py:119-121 | after n retries the sleeps are n in number |
| `ClassifyDocument.ScheduleAt` | classify_document.py:119-121 | the k-th sleep (from 0) is the wait after k retries |
| `ClassifyDocument.ScheduleInRange` | classify_document.py:93-121 | every sleep lasts between 5 and 60 seconds |
| `ClassifyDocument.WaitClosedForm` | classify_document.py:119-121 | the wait after n retries is `min(5·2^n, 60)` |
| `ClassifyDocument.KthSleep` | classify_document.py:119-121 | the k-th sleep lasts `min(5·2^(k-1), 60)` seconds |
| `ClassifyDocument.FullSchedule` | classify_document.py:91-121 | a run that uses all 15 attempts sleeps 5, 10, 20, 40, then 60 s eleven times: 735 s in all |
| `ClassifyDocument.StopIndex` | classify_document.py:97-121 | the number of still-running responses before the loop stops, at most 15; all earlier responses were still running, and the one at that index (if below 15) was not |
| `ClassifyDocument.GetClassificationResults` | classify_document.py:83-128 | the loop makes `Queries` GETs, sleeps exactly `Schedule(StopIndex)`, and returns the parsed body of the last response that did not raise (None for a JSON `null`), or None if none did |
| `ClassifyDocument.PollBounded` | classify_document.py:91-97 | the loop always ends after 1 to 15 GETs and at most 15 sleeps; unless it used every attempt, it makes one sleep fewer than GETs |
| `ClassifyDocument.SleepsCountRunning` | classify_document.py:111-121 | the number of sleeps equals the number of still-running responses received |
| `ClassifyDocument.AllRunning` | classify_document.py:91-128 | if all responses are 200 with a non-terminal status, there are exactly 15 GETs and 15 sleeps, and the 15th body is returned |
| `ClassifyDocument.TerminalStatusStops` | classify_document.py:111-117 | a 200 response with status "succeeded" or "failed" ends the loop at once, with no further sleep, and its body is returned |
| `ClassifyDocument.Non200Stops` | classify_document.py:105-110 | a non-200 response ends the loop at once, and its parsed body is returned |
| `ClassifyDocument.MalformedStops` | classify_document.py:105-126 | a 200 response whose body is JSON `null` or lacks `status` ends the loop at once, with no further sleep, and its parsed body (None for `null`) is returned |
| `ClassifyDocument.RaisedStops` | classify_document.py:123-128 | an exception ends the loop at once; the result is the previous body, or None on the first GET |
| `ClassifyDocument.SucceedsOnThirdQuery` | classify_document.py:111-121 | success on the third GET means exactly two sleeps, 5 s then 10 s, and that body is returned |
| `UploadDocuments.BlobName` | upload_documents.py:44-45 | a blob name contains no `\` |
| `UploadDocuments.BlobNameReplaces` | upload_documents.py:44-45 | a blob name is the entry's root-relative path with every `\` replaced by `/` and every other character kept |
| `UploadDocuments.BlobNameTopLevel` | upload_documents.py:44-45 | in a top-level directory the blob name is `<dir>/<file>` |
| `UploadDocuments.BlobNamesAt` | upload_documents.py:43-45 | the i-th blob name of a listing is the blob name of its i-th entry |
| `UploadDocuments.RecordsAt` | upload_documents.py:46 | the i-th record names the i-th blob |
| `UploadDocuments.DirRecordsAt` | upload_documents.py:43-46 | a directory has one record per listing entry, in listing order, naming that entry's blob |
| `UploadDocuments.RecordsMatchBlobs` | upload_documents.py:45-51 | the manifest records name the uploaded entry blobs one for one, in the same order |
| `UploadDocuments.UploadEntries` | upload_documents.py:43-51 | the inner loop collects exactly the directory's records and uploads exactly its entry blobs, in listing order |
| `UploadDocuments.ManifestNames` | upload_documents.py:56-62 | the manifest of `d` is written at `<root>/d.jsonl` and uploaded as blob `d.jsonl` |
| `UploadDocuments.DumpsParses` | upload_documents.py:46 | a record line `{"file": "<name>"}` has no newline and reads back as the same record |
| `UploadDocuments.ManifestRoundTrip` | upload_documents.py:57-59 | the manifest text (each record's JSON followed by a newline) reads back as exactly the records, in order |
| `UploadDocuments.WriteManifest` | upload_documents.py:57-59 | the text written line by line is the manifest text of the records |
| `UploadDocuments.Upload` | upload_documents.py:39-67 | the uploads are each directory's entry blobs in listing order, then its manifest; the manifests written are the per-directory manifests |
| `UploadDocuments.ManifestAt` | upload_documents.py:39-59 | there is one manifest per directory, and the i-th is the i-th directory's |
| `UploadDocuments.ManifestListsDirectory` | upload_documents.py:40-59 | directory i's manifest is at `<name>.jsonl` and reads back as exactly that directory's records, so none comes from another directory |
| `UploadDocuments.DirectoryUploadBlock` | upload_documents.py:43-67 | directory i's entry blobs are uploaded as one contiguous block, in listing order, right after the uploads of the directories before it |
| `UploadDocuments.ManifestAfterFiles` | upload_documents.py:43-67 | directory i's manifest is uploaded right after its last entry blob |
| `UploadDocuments.ManifestIsUploaded` | upload_documents.py:62-65 | every directory's manifest blob is uploaded |
| `BuildClassifier.EnvDefault` | build_classifier.py:46-47 | an empty setting becomes None; a non-empty one passes through unchanged |
| `BuildClassifier.ContainerSasUrlRoundTrip` | build_classifier.py:117 | the SAS URL `container_url?token` splits back into the container URL and the token |
| `BuildClassifier.SasWindowAt` | build_classifier.py:104-105 | the window starts one minute before the first clock reading and expires five minutes after the second |
| `BuildClassifier.SasWindowOrdered` | build_classifier.py:104-105 | if the clock does not run backwards, the window starts before it expires, covers both readings and lasts at least six minutes |
| `BuildClassifier.DocTypeLabelsMember` | build_classifier.py:82-86 | a label is a doc type exactly when some blob ending in `.jsonl` has it as its splitext root |
| `BuildClassifier.DocTypeStripsJsonl` | build_classifier.py:85-92 | for a `.jsonl` blob with a stem, `file_list` (`doc_type + ".jsonl"`) rebuilds the blob name |
| `BuildClassifier.DocTypeWithoutStem` | build_classifier.py:85-92 | the blob `.jsonl` gives doc type `.jsonl` and a `file_list` that is not its blob name |
| `BuildClassifier.GetDocTypes` | build_classifier.py:77-95 | the keys are exactly the doc types of the `.jsonl` blobs; each maps to the shared SAS URL and `<doc type>.jsonl` |
| `BuildClassifier.BuildClassifierRequest` | build_classifier.py:44-58 | the request has the fresh id and the defaulted optional settings, and every doc type trains from the same container SAS URL |
| `AnalyzeLayout.ProcessedPrefix` | analyze_layout.py:51-55 | the entries processed before entry j of directory i are a prefix of the walk in traversal order, and the next entry of the walk is that entry |
| `AnalyzeLayout.DocsPrefix` | analyze_layout.py:51-54 | the entries of the first directories of the walk are a prefix of the whole walk's entries |
| `AnalyzeLayout.DirectoryStep` | analyze_layout.py:52-69 | a directory's pass appends its rejected paths and outputs to those before it; if it aborts, the run's report is that of the entries processed so far, and otherwise the processed prefix covers the directory |
| `AnalyzeLayout.AbortIndex` | analyze_layout.py:59-69 | the run reaches every entry before the first analysis whose result raises |
| `AnalyzeLayout.AnalyzeDirectory` | analyze_layout.py:54-69 | one directory's pass covers its entries up to the first one whose analysis aborts, and says whether one did; it returns the rejected paths and the OCR outputs for exactly those entries |
| `AnalyzeLayout.AnalyzeBatch` | analyze_layout.py:37-78 | the batch lists the rejected files among the entries before the first abort, and saves OCR outputs only for the non-JSON entries among them whose analysis completed; it finishes only if no analysis aborts, and shows the summary only when it finishes with rejections |
| `AnalyzeLayout.RejectedPathsMember` | analyze_layout.py:56-68 | a path is listed as incompatible exactly when it is a non-JSON entry whose analysis was rejected; skipped and completed files are never listed |
| `AnalyzeLayout.OcrOutputsMember` | analyze_layout.py:56-69 | an OCR output is saved exactly for each non-JSON entry whose analysis completed, at `<entry path>.ocr.json`; skipped and rejected entries get none |
| `AnalyzeLayout.RejectedPathsConcat` | analyze_layout.py:51-68 | the incompatible list follows traversal order |
| `AnalyzeLayout.OcrOutputsConcat` | analyze_layout.py:51-69 | the OCR outputs follow traversal order |
| `AnalyzeLayout.RejectionContinues` | analyze_layout.py:65-69 | a rejection does not stop the batch: when no analyzed entry aborts, it finishes, lists every rejected file and keeps every saved output |
| `AnalyzeLayout.FinishedIff` | analyze_layout.py:56-69 | the run finishes exactly when no analyzed entry aborts; a skipped JSON entry never ends it |
| `AnalyzeLayout.SummaryShownIff` | analyze_layout.py:72-76 | the skipped-files summary is shown exactly when the finished run's incompatible list is non-empty |
| `AnalyzeLayout.OcrOutputSkipped` | analyze_layout.py:56-58 | the OCR output is `<file>.ocr.json` in the document's directory and ends in `.json`, so a re-run skips it |
| `AnalyzeLayout.OcrNameEndsWithJson` | analyze_layout.py:56-58 | every name `<file>.ocr.json` ends in `.json` |
| `Pipeline.ManifestBecomesDocType` | upload_documents.py:56-62 | round trip: a directory's manifest blob `d.jsonl` yields doc type `d`, whose `file_list` is `d.jsonl` again |
| `Pipeline.TopLevel` | build_classifier.py:82 | the listing holds exactly the uploaded blob names without a `/` |
| `Pipeline.UploadedDirectoriesAreDocTypes` | build_classifier.py:82-92 | every plainly named directory of an upload run is a doc type of the container's top-level listing |
| `Pipeline.OcrOutputIsNoManifest` | analyze_layout.py:58 | an uploaded OCR output does not end in `.jsonl`, so it never becomes a doc type |

## Left out

- HTTP and SDK calls are inputs of the model, not operations in it: `post`, `get`,
  `begin_analyze_document`, `poller.result()`, `upload_blob`, `walk_blobs`,
  `generate_container_sas` and `begin_build_classifier`.
- The environment setup is not modelled: `load_dotenv`, `os.environ` lookups (a missing
  variable raises `KeyError`) and client construction in `create_clients`.
- Printing and logging are not modelled, and neither is `print_classifier_results`.
- Reading and writing files is not modelled. Manifest writes are recorded as path and text,
  and the OCR output's contents (the raw response body) are not modelled.
- `time.sleep` and `datetime.now` are not real clocks here: sleeps are recorded durations,
  and clock readings are parameters.
- `_post_to_classification_model` is modelled only for its URL. Reading the document, the
  headers, `quit()` on a non-202 reply and the swallowed exception (which returns None, and
  then fails at `post_response.headers`) are not modelled.
- The `__main__` block of `classify_document.py` is not modelled: the per-document loop,
  the `analyzeResult` printing and the `HttpResponseError` handling.
- `ClassifyDocument.GetClassificationResults`: a JSON `status` value that is not a string is
  treated like any other non-terminal status. A JSON value that is neither an object nor
  `null` (a list, string or number) is modelled as an object without `status`: indexing it
  raises, so the loop ends and returns it. The body's other content is an opaque string.
- `UploadDocuments.BlobName`: `os.path.relpath` is modelled as the Windows join of the walk
  root's relative path, the directory name and the entry name. Its normalisation (`.` and
  `..` parts, `/` turned into `\`) is not modelled.
- `UploadDocuments.Upload`: every upload is assumed to succeed. `upload_blob` without
  `overwrite=True` raises when the blob already exists, as on a re-run or when two nested
  directories share a name. That exception ends the script, and the model does not capture
  it.
- `UploadDocuments.Dumps`: `json.dumps` escaping is not modelled. The round trip is stated
  only for names of printable ASCII without `"` or `\`.
- `os.walk` is not modelled as recursion: each script gets the directories in walk order as
  a list. A failure of `open()` on a subdirectory entry is not modelled.
- `Paths.SplitExtRoot`: it follows `posixpath.splitext`, with `/` as the only separator.
  On Windows `\` is a separator too, which matters only for blob names that contain `\`.
  Uploaded names never do.
- `Pipeline.TopLevel`: `walk_blobs()` lists blobs in name order, while the model keeps upload
  order, so only membership in the listing is proved. Its `dir/` prefixes are left out; none
  ends in `.jsonl`.
- `BuildClassifier.GetDocTypes`: the result is a `map`, so the insertion order of the Python
  dict is not kept. The order of `doc_types_list` is kept (`DocTypeLabels`).
- `AnalyzeLayout.AnalyzeBatch`: any exception other than a rejected analysis or a failing
  `poller.result()` is not modelled, for example from `open`.
- The other scripts have no logic of their own to model: `sample_classify_document.py`,
  `list_classifiers.py` and `build_classifier_rest.py`.
