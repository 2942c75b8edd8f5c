/**
 * The knowledge-base endpoints of the API, reduced to what they do to the
 * store and what they answer. Each endpoint's request has already been
 * parsed; an `HTTPException` becomes a `Fail` reply carrying its status code
 * and detail, and a normal return becomes an `Ok` reply carrying the data
 * fields of the JSON answer.
 */
module KnowledgeEndpoints {
  import opened Wrappers
  import opened PyText
  import opened KnowledgeStore
  import opened Uploads

  /** The outcome of an endpoint: its 200 answer, or an HTTP error. */
  datatype Reply<T> = Ok(value: T) | Fail(status: int, detail: string)

  /** The `request` form field of the name-taking endpoints, after
      `json.loads(request).get("name", "")`. */
  datatype NameForm =
    | Absent                     // the form field was missing or empty
    | Malformed(reason: string)  // parsing or `.strip()` raised, with this message
    | Named(name: string)        // the `name` member, "" when it was missing

  const MissingName := "Please provide knowledge base name"
  const EmptyName := "Knowledge base name cannot be empty"
  const NoFiles := "Please upload at least one file"
  const NoValidDocuments := "No valid documents were uploaded"
  const DocumentNotFound := "Document not found"

  const CreateError := "Error creating knowledge base: "
  const DeleteError := "Error deleting knowledge base: "
  const ClearError := "Error clearing knowledge base: "
  const UploadError := "Error uploading to knowledge base: "

  /** How many documents the generation endpoints take from a knowledge base. */
  const ReferenceCount := 3

  function NotFound(kbName: string): string {
    "Knowledge base '" + kbName + "' not found"
  }

  /** Every registered name is non-empty and has no whitespace at either
      end: what the create endpoint lets through, and true of "default". */
  predicate NamesNormalized(names: set<string>) {
    forall n :: n in names ==> n != "" && Strip(n) == n
  }

  /** The name check of the create, delete and upload endpoints: a missing
      field is a 400, a parse failure a 500, and a name that is empty after
      stripping a 400; otherwise the stripped name, which is non-empty and
      has no whitespace at either end. */
  function ValidatedName(form: NameForm, errorPrefix: string): (r: Reply<string>)
    ensures r.Ok? <==> form.Named? && HasContent(form.name)
    ensures r.Ok? ==> && r.value == Strip(form.name) && r.value != []
                      && !IsWhitespace(r.value[0]) && !IsWhitespace(r.value[|r.value| - 1])
                      && NamesNormalized({r.value})
    ensures form.Named? && !HasContent(form.name) ==> r == Fail(400, EmptyName)
    ensures form.Absent? ==> r == Fail(400, MissingName)
    ensures form.Malformed? ==> r == Fail(500, errorPrefix + form.reason)
  {
    match form
    case Absent => Fail(400, MissingName)
    case Malformed(reason) => Fail(500, errorPrefix + reason)
    case Named(raw) =>
      StripSpec(raw);
      StripIdempotent(raw);
      var name := Strip(raw);
      if name == "" then Fail(400, EmptyName) else Ok(name)
  }

  /** The module's start-up state: a manager holding one empty knowledge
      base called "default". */
  method InitialManager() returns (m: KnowledgeBaseManager)
    ensures fresh(m) && m.Valid()
    ensures m.kbs.Keys == {"default"} && m.order == ["default"]
    ensures fresh(m.kbs["default"]) && m.kbs["default"].documents == [] && m.kbs["default"].nextId == 0
    ensures NamesNormalized(m.kbs.Keys)
  {
    m := new KnowledgeBaseManager();
    var _ := m.CreateKb("default");
    assert Strip("default") == "default";
  }

  /** POST /api/knowledge-bases/create: validates the name and creates the
      knowledge base unless it already exists, in which case nothing changes. */
  method CreateKnowledgeBase(m: KnowledgeBaseManager, form: NameForm) returns (reply: Reply<string>)
    requires m.Valid()
    modifies m
    ensures m.Valid()
    ensures reply == ValidatedName(form, CreateError)
    ensures reply.Fail? || reply.value in old(m.kbs) ==> m.kbs == old(m.kbs) && m.order == old(m.order)
    ensures reply.Ok? && reply.value !in old(m.kbs) ==>
      && m.kbs.Keys == old(m.kbs.Keys) + {reply.value}
      && (forall n :: n in old(m.kbs) ==> m.kbs[n] == old(m.kbs[n]))
      && fresh(m.kbs[reply.value]) && m.kbs[reply.value].documents == [] && m.kbs[reply.value].nextId == 0
      && m.order == old(m.order) + [reply.value]
    ensures NamesNormalized(old(m.kbs.Keys)) ==> NamesNormalized(m.kbs.Keys)
  {
    reply := ValidatedName(form, CreateError);
    if reply.Ok? {
      var _ := m.CreateKb(reply.value);
    }
  }

  /** POST /api/knowledge-bases/delete: validates the name and deletes that
      knowledge base, answering 404 when there is none. */
  method DeleteKnowledgeBase(m: KnowledgeBaseManager, form: NameForm) returns (reply: Reply<string>)
    requires m.Valid()
    modifies m
    ensures m.Valid()
    ensures var v := ValidatedName(form, DeleteError);
      v.Fail? ==> reply == v && m.kbs == old(m.kbs) && m.order == old(m.order)
    ensures var v := ValidatedName(form, DeleteError);
      v.Ok? ==> && reply == (if v.value in old(m.kbs) then Ok(v.value) else Fail(404, NotFound(v.value)))
                && m.kbs == old(m.kbs) - {v.value}
                && m.order == Without(old(m.order), v.value)
  {
    reply := ValidatedName(form, DeleteError);
    if reply.Ok? {
      var deleted := m.DeleteKb(reply.value);
      if !deleted {
        reply := Fail(404, NotFound(reply.value));
      }
    }
  }

  /** POST /api/knowledge-bases/clear: strips the name (without the empty
      check of the other endpoints), answers 404 when no knowledge base has
      that name, and otherwise empties it and restarts its id counter. */
  method ClearKnowledgeBase(m: KnowledgeBaseManager, form: NameForm) returns (reply: Reply<string>)
    requires m.Valid()
    modifies m.kbs.Values
    ensures m.Valid()
    ensures form.Absent? ==> reply == Fail(400, MissingName)
    ensures form.Malformed? ==> reply == Fail(500, ClearError + form.reason)
    ensures form.Named? && Strip(form.name) !in m.kbs ==> reply == Fail(404, NotFound(Strip(form.name)))
    ensures form.Named? && Strip(form.name) in m.kbs ==>
      && reply == Ok(Strip(form.name))
      && m.kbs[reply.value].documents == [] && m.kbs[reply.value].nextId == 0
    ensures forall n :: n in m.kbs && (reply.Fail? || n != reply.value) ==>
      m.kbs[n].documents == old(m.kbs[n].documents) && m.kbs[n].nextId == old(m.kbs[n].nextId)
    ensures NamesNormalized(m.kbs.Keys) && form.Named? && AllWhitespace(form.name) ==>
      reply == Fail(404, NotFound(""))
  {
    match form {
      case Absent => reply := Fail(400, MissingName);
      case Malformed(reason) => reply := Fail(500, ClearError + reason);
      case Named(raw) =>
        var name := Strip(raw);
        StripSpec(raw);
        match m.GetKb(name) {
          case None => reply := Fail(404, NotFound(name));
          case Some(kb) =>
            kb.Clear();
            reply := Ok(name);
        }
    }
  }

  /** The data fields of the upload endpoint's answer. */
  datatype UploadSummary = UploadSummary(uploadedCount: nat, totalDocuments: nat)

  /** POST /api/knowledge-bases/upload: validates the name, answers 404 for
      an unknown knowledge base and 400 when the first file has no filename;
      otherwise adds a document for every file with a filename and extracted
      text that is not blank, and answers 400 when there was none. */
  method UploadToKnowledgeBase(m: KnowledgeBaseManager, form: NameForm, files: seq<FileUpload>)
    returns (reply: Reply<UploadSummary>)
    requires m.Valid()
    modifies m.kbs.Values
    ensures m.Valid()
    ensures var v := ValidatedName(form, UploadError);
      v.Fail? ==> reply == Fail(v.status, v.detail)
    ensures var v := ValidatedName(form, UploadError);
      v.Ok? && v.value !in m.kbs ==> reply == Fail(404, NotFound(v.value))
    ensures var v := ValidatedName(form, UploadError);
      v.Ok? && v.value in m.kbs && (files == [] || files[0].filename == "") ==> reply == Fail(400, NoFiles)
    ensures var v := ValidatedName(form, UploadError);
      v.Ok? && v.value in m.kbs && files != [] && files[0].filename != "" ==>
        && (reply.Ok? <==> |Accepted(files)| > 0)
        && (reply.Fail? ==> reply == Fail(400, NoValidDocuments))
    ensures var v := ValidatedName(form, UploadError);
      reply.Ok? ==>
        && v.Ok? && v.value in m.kbs
        && reply.value.uploadedCount == |Accepted(files)|
        && m.kbs[v.value].documents == old(m.kbs[v.value].documents) + Stamped(Accepted(files), old(m.kbs[v.value].nextId))
        && m.kbs[v.value].nextId == old(m.kbs[v.value].nextId) + |Accepted(files)|
        && reply.value.totalDocuments == |m.kbs[v.value].documents|
    ensures var v := ValidatedName(form, UploadError);
      forall n :: n in m.kbs && !(reply.Ok? && n == v.value) ==>
        m.kbs[n].documents == old(m.kbs[n].documents) && m.kbs[n].nextId == old(m.kbs[n].nextId)
  {
    var v := ValidatedName(form, UploadError);
    if v.Fail? {
      return Fail(v.status, v.detail);
    }
    var name := v.value;
    match m.GetKb(name) {
      case None =>
        reply := Fail(404, NotFound(name));
      case Some(kb) =>
        reply := UploadInto(kb, files);
    }
  }

  /** The upload endpoint once the knowledge base is found: 400 when the
      first file has no filename, otherwise the upload loop, and 400 when it
      added nothing. */
  method UploadInto(kb: KnowledgeBase, files: seq<FileUpload>) returns (reply: Reply<UploadSummary>)
    requires kb.Valid()
    modifies kb
    ensures kb.Valid()
    ensures files == [] || files[0].filename == "" ==> reply == Fail(400, NoFiles)
    ensures files != [] && files[0].filename != "" ==>
      && (reply.Ok? <==> |Accepted(files)| > 0)
      && (reply.Fail? ==> reply == Fail(400, NoValidDocuments))
    ensures reply.Ok? ==>
      && reply.value.uploadedCount == |Accepted(files)|
      && reply.value.totalDocuments == |kb.documents|
    ensures files != [] && files[0].filename != "" ==>
      && kb.documents == old(kb.documents) + Stamped(Accepted(files), old(kb.nextId))
      && kb.nextId == old(kb.nextId) + |Accepted(files)|
    ensures reply.Fail? ==> kb.documents == old(kb.documents) && kb.nextId == old(kb.nextId)
  {
    if files == [] || files[0].filename == "" {
      return Fail(400, NoFiles);
    }
    var count := AddUploads(kb, files);
    if count == 0 {
      reply := Fail(400, NoValidDocuments);
    } else {
      reply := Ok(UploadSummary(count, |kb.documents|));
    }
  }

  /** One entry of the document listing: the id, the filename, a preview of
      the text and its full length. */
  datatype DocumentSummary = DocumentSummary(id: nat, filename: string, textPreview: string, textLength: nat)

  /** How many characters of a text the listing shows. */
  const PreviewLimit: nat := 200

  /** The listing's preview: the first 200 characters followed by "..." when
      the text is longer than that, otherwise the whole text. So it starts
      with as much of the text as fits, is at most 203 characters long, and
      carries the "..." marker (and length 203) exactly when the text was
      cut. */
  function Preview(text: string): (p: string)
    ensures var shown := if |text| < PreviewLimit then |text| else PreviewLimit;
      && |p| <= PreviewLimit + 3
      && shown <= |p| && p[..shown] == text[..shown]
      && (|text| <= PreviewLimit ==> p == text)
      && (|text| > PreviewLimit <==> |p| == PreviewLimit + 3)
      && (|text| > PreviewLimit ==> p[PreviewLimit..] == "...")
  {
    if |text| > PreviewLimit then
      var cut := text[..PreviewLimit];
      assert (cut + "...")[..PreviewLimit] == cut;
      cut + "..."
    else text
  }

  /** One entry of the document listing: the id and filename as stored, the
      preview of the text and the full length of the text. */
  function Summarize(doc: Document): (s: DocumentSummary)
    ensures s.id == doc.id && s.filename == doc.filename
    ensures s.textLength == |doc.text| && s.textPreview == Preview(doc.text)
  {
    DocumentSummary(doc.id, doc.filename, Preview(doc.text), |doc.text|)
  }

  /** GET /api/knowledge-bases/{kb_name}/documents: one summary per document,
      in stored order, or 404 for an unknown knowledge base. */
  function ListDocuments(m: KnowledgeBaseManager, kbName: string): (r: Reply<seq<DocumentSummary>>)
    reads m, m.kbs.Values
    ensures kbName !in m.kbs ==> r == Fail(404, NotFound(kbName))
    ensures kbName in m.kbs ==> && r.Ok? && |r.value| == |m.kbs[kbName].documents|
                                && forall k :: 0 <= k < |r.value| ==>
                                     r.value[k] == Summarize(m.kbs[kbName].documents[k])
  {
    match m.GetKb(kbName)
    case None => Fail(404, NotFound(kbName))
    case Some(kb) =>
      var docs := kb.documents;
      Ok(seq(|docs|, k requires 0 <= k < |docs| => Summarize(docs[k])))
  }

  /** POST /api/knowledge-bases/{kb_name}/documents/{doc_id}: removes the
      document, answering 404 for an unknown knowledge base or document. */
  method DeleteDocument(m: KnowledgeBaseManager, kbName: string, docId: int) returns (reply: Reply<string>)
    requires m.Valid()
    modifies m.kbs.Values
    ensures m.Valid()
    ensures kbName !in m.kbs ==> reply == Fail(404, NotFound(kbName))
    ensures kbName in m.kbs ==>
      var docs := old(m.kbs[kbName].documents);
      && (reply.Ok? <==> exists k :: 0 <= k < |docs| && docs[k].id == docId)
      && (reply.Fail? ==> reply == Fail(404, DocumentNotFound))
      && m.kbs[kbName].documents == match FirstIndex(docs, docId)
                                    case Some(i) => RemoveAt(docs, i)
                                    case None => docs
    ensures forall n :: n in m.kbs ==> m.kbs[n].nextId == old(m.kbs[n].nextId)
    ensures forall n :: n in m.kbs && n != kbName ==> m.kbs[n].documents == old(m.kbs[n].documents)
  {
    match m.GetKb(kbName) {
      case None =>
        reply := Fail(404, NotFound(kbName));
      case Some(kb) =>
        var removed := kb.RemoveDocument(docId);
        reply := if removed then Ok("Document deleted") else Fail(404, DocumentNotFound);
    }
  }

  /** GET /api/knowledge-bases/{kb_name}/documents/{doc_id}: the full
      document, or 404 for an unknown knowledge base or document. */
  method FetchDocument(m: KnowledgeBaseManager, kbName: string, docId: int) returns (reply: Reply<Document>)
    ensures kbName !in m.kbs ==> reply == Fail(404, NotFound(kbName))
    ensures kbName in m.kbs ==>
      var docs := m.kbs[kbName].documents;
      && (reply.Ok? <==> exists k :: 0 <= k < |docs| && docs[k].id == docId)
      && (reply.Fail? ==> reply == Fail(404, DocumentNotFound))
      && (reply.Ok? ==> FirstIndex(docs, docId).Some? && reply.value == docs[FirstIndex(docs, docId).value])
  {
    match m.GetKb(kbName) {
      case None =>
        reply := Fail(404, NotFound(kbName));
      case Some(kb) =>
        var doc := kb.GetDocument(docId);
        reply := match doc case Some(d) => Ok(d) case None => Fail(404, DocumentNotFound);
    }
  }

  /** The data fields of GET /api/knowledge-bases. */
  datatype KbListing = KbListing(knowledgeBases: seq<KbInfo>, total: nat)

  /** GET /api/knowledge-bases: every knowledge base with its document count,
      and how many there are. */
  function ListKnowledgeBases(m: KnowledgeBaseManager): (r: KbListing)
    requires m.Valid()
    reads m, m.kbs.Values
    ensures r.knowledgeBases == m.ListKbs()
    ensures r.total == |r.knowledgeBases| == |m.kbs|
    ensures forall n :: n in m.kbs <==> exists i :: 0 <= i < |r.knowledgeBases| && r.knowledgeBases[i].name == n
  {
    ListKbsOnePerKb(m);
    var kbs := m.ListKbs();
    KbListing(kbs, |kbs|)
  }

  /** The reference documents the summary, rewrite, chat and health-advice
      endpoints put into their prompts: nothing unless a non-empty knowledge
      base name was given and that knowledge base exists and holds documents;
      then the texts of its first three documents. */
  function ReferenceDocs(m: KnowledgeBaseManager, kbName: Option<string>, text: string): (r: seq<string>)
    reads m, m.kbs.Values
    ensures r == [] <==> kbName.None? || kbName.value == "" || kbName.value !in m.kbs
                         || m.kbs[kbName.value].documents == []
    ensures r != [] ==>
      var docs := m.kbs[kbName.value].documents;
      && |r| == (if |docs| < ReferenceCount then |docs| else ReferenceCount)
      && forall k :: 0 <= k < |r| ==> r[k] == docs[k].text
  {
    if kbName.None? || kbName.value == "" then []
    else
      match m.GetKb(kbName.value)
      case None => []
      case Some(kb) => if kb.documents == [] then [] else kb.Query(text, ReferenceCount)
  }
}
