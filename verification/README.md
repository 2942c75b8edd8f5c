# Knowledge-base store of the study-assistant API

The API keeps named knowledge bases in memory. A knowledge base is an
ordered list of documents. Each document has an id, its extracted text and
the filename it came from. A counter hands out the ids. A manager maps
names to knowledge bases in insertion order. At start-up the manager holds
one empty knowledge base called "default".

On top of the store sit the knowledge-base endpoints:

- list knowledge bases;
- create, delete and clear a knowledge base by name;
- upload files into a knowledge base;
- list, fetch and delete single documents.

The summary, rewrite, chat and health-advice endpoints read the texts of
the first three documents of a named knowledge base as reference material
(`ReferenceDocs`). The fact-check endpoint does not use the store.
Separately, the chat endpoint turns the last ten history messages of its
request into a labelled transcript.

The model has five modules:

- `KnowledgeStore` (`knowledge_base.dfy`) holds the two classes,
  `KnowledgeBase` and `KnowledgeBaseManager`. Their fields are updated in
  place, as the source does. Their invariant says:
  - ids strictly increase along the list, and every id is below the counter;
  - every knowledge base is registered under its own name;
  - the insertion order lists each name exactly once.
- `Uploads` (`uploads.dfy`) holds:
  - the file-kind dispatch on the lower-cased filename;
  - the text each kind yields;
  - the upload loop that adds one document per file with real content.
- `ChatHistory` (`chat_history.dfy`) holds the ten-message window and the
  loop that builds the conversation context.
- `KnowledgeEndpoints` (`endpoints.dfy`) holds the endpoints. Each one is a
  method or function. An HTTP error becomes `Fail(status, detail)`.
- `PyText` (`text.dfy`) holds the Python string operations the endpoints
  rely on: `str.strip()`, the truthiness test `text and text.strip()`,
  ASCII `lower()` and `endswith`.

## Model

| member | source | states |
|---|---|---|
| KnowledgeStore.KnowledgeBase.constructor | api/index.py:75-79 | a new knowledge base has the given name, no documents and counter 0, and satisfies the id invariant |
| KnowledgeStore.KnowledgeBase.AddDocument | api/index.py:81-91 | appends exactly one document at the end, whose id is the old counter; returns that id; bumps the counter by exactly 1; keeps the id invariant |
| KnowledgeStore.KnowledgeBase.RemoveDocument | api/index.py:93-99 | reports true iff some document had the id. The new list is the old one with the first such document popped, or unchanged when there is none. The counter is untouched and the invariant kept |
| KnowledgeStore.KnowledgeBase.GetDocument | api/index.py:101-106 | returns the first document with the id, or `None` exactly when no document has it; changes nothing |
| KnowledgeStore.KnowledgeBase.Query | api/index.py:108-114 | the texts of the first `min(top_k, len)` documents in stored order, with Python's slice rules for a negative `top_k`; `[]` for an empty knowledge base |
| KnowledgeStore.QueryIgnoresText | api/index.py:108-114 | the query text does not affect the result |
| KnowledgeStore.KnowledgeBase.Clear | api/index.py:116-119 | afterwards there are no documents and the counter is 0, so the next added document gets id 0 |
| KnowledgeStore.FirstIndex | api/index.py:95-97 | the index the id scans stop at: none iff no document has the id; otherwise the first position holding it |
| KnowledgeStore.RemoveAt | api/index.py:97 | `list.pop(i)`: one element shorter; the elements before `i` stay put, and those after it shift down by one |
| KnowledgeStore.SliceStop | api/index.py:114 | the stop of `documents[:min(top_k, len)]`: never beyond the list, `min(top_k, len)` for `top_k >= 0`, counted back from the end and clamped at 0 otherwise |
| KnowledgeStore.IdsUnique | api/index.py:84-90 | under the invariant, no two documents share an id |
| KnowledgeStore.RemoveIsExact | api/index.py:93-99 | popping the first document with an id keeps the invariant, leaves no document with that id, and keeps every other document |
| KnowledgeStore.KnowledgeBaseManager.constructor | api/index.py:123-124 | a new manager has no knowledge bases |
| KnowledgeStore.KnowledgeBaseManager.CreateKb | api/index.py:126-132 | idempotent. An existing name returns the same knowledge base with its documents and counter intact and changes nothing. A new name registers a fresh empty one under that name, last in insertion order |
| KnowledgeStore.KnowledgeBaseManager.GetKb | api/index.py:134-136 | `Some` of the registered knowledge base iff the name is registered |
| KnowledgeStore.KnowledgeBaseManager.Infos | api/index.py:140-146 | one entry per given name, in order, with that knowledge base's document count |
| KnowledgeStore.KnowledgeBaseManager.ListKbs | api/index.py:138-146 | one entry per name in insertion order; each names a registered knowledge base and carries its document count |
| KnowledgeStore.ListKbsOnePerKb | api/index.py:138-146 | the listing has as many entries as there are knowledge bases; its names are pairwise different; every registered name appears |
| KnowledgeStore.KnowledgeBaseManager.DeleteKb | api/index.py:148-153 | true iff the name was registered; removes only that key and drops it from the insertion order |
| KnowledgeStore.Without | api/index.py:151 | deleting a key from the insertion order removes exactly that name, keeps the others, and keeps them distinct |
| KnowledgeStore.WithoutAppend | api/index.py:151 | deleting a name from two runs of names is deleting it from each |
| KnowledgeStore.WithoutKeepsOrder | api/index.py:138-153 | two names that stay after a delete keep their relative order, so `list_kbs` lists the remaining knowledge bases in the order they were created |
| KnowledgeEndpoints.InitialManager | api/index.py:156-158 | the start-up state: exactly one knowledge base, "default", empty with counter 0; all names normalized |
| KnowledgeEndpoints.ValidatedName | api/index.py:588-595 | Missing field: 400. Parse failure: 500 with the error prefix. Name blank after stripping: 400. Otherwise: Ok of the stripped name, which is non-empty, has no whitespace at either end, and equals its own strip |
| KnowledgeEndpoints.CreateKnowledgeBase | api/index.py:584-607 | the reply is the name check's. A valid new name adds exactly one fresh knowledge base, with no documents and counter 0, last in order. A failing or existing name changes nothing. Names stay normalized |
| KnowledgeEndpoints.DeleteKnowledgeBase | api/index.py:609-632 | a failing name check changes nothing. A valid name is deleted: Ok if it was registered, 404 with its name otherwise |
| KnowledgeEndpoints.ClearKnowledgeBase | api/index.py:634-657 | strips the name without an empty check. Unknown name: 404. Otherwise that knowledge base is emptied with counter 0 and every other one is untouched. A blank name always gets the 404 with an empty name |
| KnowledgeEndpoints.UploadToKnowledgeBase | api/index.py:659-710 | Failed name check: its error. Unknown knowledge base: 404. No first filename: 400. Otherwise documents are added exactly for the accepted files, with consecutive ids, and the reply is 400 exactly when there were none; on success it gives the count and the new total. Other knowledge bases are untouched |
| KnowledgeEndpoints.UploadInto | api/index.py:679-703 | the upload endpoint once the knowledge base is found: the no-file 400, the upload loop, and the no-valid-document 400 exactly when nothing was accepted, in which case the knowledge base is unchanged |
| KnowledgeEndpoints.Preview | api/index.py:724 | The preview starts with the text's first `min(200, len)` characters and is at most 203 long. It is the whole text when that fits. It has length 203 and ends in "..." exactly when the text is longer than 200 |
| KnowledgeEndpoints.Summarize | api/index.py:721-726 | a summary keeps the id and the filename, previews the text and reports its full length |
| KnowledgeEndpoints.ListDocuments | api/index.py:712-737 | 404 for an unknown knowledge base; otherwise one summary per document, in stored order |
| KnowledgeEndpoints.DeleteDocument | api/index.py:739-757 | 404 for an unknown knowledge base. Otherwise Ok iff some document had the id, else 404 "Document not found". Only that knowledge base's list changes, by popping the first match. No counter changes |
| KnowledgeEndpoints.FetchDocument | api/index.py:759-778 | 404 for an unknown knowledge base; otherwise Ok iff some document has the id, and then it is the first such document |
| KnowledgeEndpoints.ListKnowledgeBases | api/index.py:571-582 | the entries are `list_kbs()`'s, so they carry each knowledge base's document count; there is one entry per knowledge base, and the total equals their number |
| KnowledgeEndpoints.ReferenceDocs | api/index.py:209-214 | Empty exactly when no name is given, the name is empty or unknown, or that knowledge base has no documents. Otherwise the texts of its first three documents (fewer if it holds fewer) |
| Uploads.KindOf | api/index.py:48-68 | the kind dispatch on the lower-cased filename: PDF iff it ends in ".pdf"; text only for a text extension; image only for an image extension that is not a text one; other iff none of the extensions match |
| Uploads.ExtractText | api/index.py:44-68 | an image yields the marker naming the lower-cased filename, which is never blank; every other kind yields what the PDF reader or decoder produced, `None` when it raised |
| Uploads.AcceptedOne | api/index.py:684-689 | a file yields at most one entry, and it yields one exactly when it has a filename and its extracted text has a non-whitespace character; that entry is the text with the filename |
| Uploads.Accepted | api/index.py:683-693 | the entries of the batch in file order; never more than there are files |
| Uploads.KindOfIgnoresCase | api/index.py:48-68 | the kind dispatch sees only the lower-cased filename: a name and its lower-cased form are of the same kind |
| Uploads.ImageAlwaysAccepted | api/index.py:62-63 | a named image file always yields one document whose text is the marker naming the lower-cased file, whatever its bytes |
| Uploads.Stamped | api/index.py:84-90 | the documents a run of entries becomes when added one by one: same order, consecutive ids from the counter |
| Uploads.AddFile | api/index.py:684-691 | the loop body for one file: adds one document, with the old counter as its id, exactly when the file has a filename and its extracted text has a non-whitespace character; otherwise changes nothing; keeps the id invariant |
| Uploads.AddUpload | api/index.py:683-693 | one pass of the upload loop: the documents before it are those before the batch plus the entries of the earlier files with consecutive ids, and after it the same holds with this file included; the count grows by this file's contribution |
| Uploads.AddUploads | api/index.py:682-693 | the upload loop adds exactly the accepted files' documents, in file order, with consecutive ids from the old counter. It returns their number, bumps the counter by it, and keeps the id invariant |
| Uploads.AcceptedHaveContent | api/index.py:684-689 | every added document has a filename and non-blank text, extracted from a file of the batch with that filename |
| Uploads.NothingAcceptedIff | api/index.py:683-696 | the count is zero, which makes the endpoint fail, exactly when no file of the batch has both a filename and non-blank extracted text |
| ChatHistory.Window | api/index.py:427 | `history[-10:]`: the last `min(10, len)` messages, in order |
| ChatHistory.Label | api/index.py:428 | "User" exactly when the role is "user", "Assistant" otherwise (a missing role included) |
| ChatHistory.Lines | api/index.py:428-429 | one line per message, in order; the line of a message is `"<Label>: <content>\n\n"`, where the label is "User" or "Assistant" and a missing content counts as "" (`msg.get('content', '')`) |
| ChatHistory.ConversationContext | api/index.py:425-429 | the accumulated context is the transcript of the last ten messages, in order |
| ChatHistory.TranscriptAppend | api/index.py:427-429 | the transcript of two runs of messages is the two transcripts concatenated |
| ChatHistory.TranscriptSplitsAt | api/index.py:427-429 | each message's line appears right after the lines of the messages before it and right before those of the messages after it |
| ChatHistory.OlderMessagesIgnored | api/index.py:427 | messages older than the last ten never affect the context |
| PyText.Strip | api/index.py:592 | `str.strip()`: the whitespace at both ends removed, never longer than the text (what it keeps is stated by `StripSpec`) |
| PyText.TrimLeftSpec | api/index.py:592 | the left half of `strip()`: keeps a suffix, drops only whitespace, and stops at the first non-whitespace character |
| PyText.TrimRightSpec | api/index.py:592 | the right half of `strip()`: keeps a prefix, drops only whitespace, and stops at the last non-whitespace character |
| PyText.StripSpec | api/index.py:592 | `strip()` keeps the infix between the leading and trailing whitespace. The result is empty iff the text is all whitespace, and otherwise starts and ends with a non-whitespace character |
| PyText.StripIdempotent | api/index.py:592 | stripping twice is stripping once |
| PyText.HasContentIsStripTest | api/index.py:688 | the test `text and text.strip()` holds exactly when some character is not whitespace |
| PyText.AsciiLower | api/index.py:48 | `lower()` keeps the length and lower-cases each character on its own |

## Left out

- The Gemini model calls, prompt wording and reference banners are left out. They are network calls and text for the language model.
- The FastAPI app, CORS, route decorators, `handler`, async mechanics and the environment-variable check are left out. They are framework plumbing and configuration.
- The study, polish, fact-check, chat and health-advice flows are left out, apart from `ReferenceDocs` and the chat history window. Their input checks, file concatenation and answers are prompt assembly around the model call.
- `ConversationContext`: history entries that are not dictionaries, or whose content is not a string, are outside the model. A message is its optional role and optional content.
- `ValidatedName`: JSON parsing of the `request` form field is a library call. Its outcome is the input `NameForm`: missing field, a parse or strip failure with its message, or the `name` member ("" when absent).
- `ExtractText`: the PDF reader and the UTF-8 decoder are libraries. A file's `body` is their output, or `None` when they raised.
  - A failure while reading an image's bytes is not modelled. Images always yield their marker.
  - The `Error reading file` exception is caught by the upload loop, so it only shows up as a skipped file.
- `AsciiLower`: Python's `lower()` is modelled for ASCII letters only. Other cased letters keep their case, and letters whose lower-case form has a different length (such as 'İ') are not expanded. This changes the kind only for extensions with non-ASCII letters, but it changes the marker text of every image whose filename has such letters: for "Ärger.PNG" the source stores "[Image file: ärger.png]" and the model "[Image file: Ärger.png]".
- The success `message` strings of the 200 answers that interpolate the knowledge base's name are not modelled: create, delete and clear answer `Ok` of the name, upload answers its counts. The constant "Document deleted" of the document delete is kept, and so are all error details.
- `uploaded_at` and `created_at` are not modelled. They are always `None`.
- Ids are unique only within a knowledge base's current list. `Clear` restarts the counter at 0, as the source does, so an id seen before a clear can name a different document afterwards.
- The per-request `print` logging is left out.
- `test_memory_system.py` is not part of this model. It exercises only temporary JSON files and random UUIDs.
- Concurrency is left out. Requests are modelled one at a time.
