/**
 * The upload path into a knowledge base: how a file's kind is read off its
 * lower-cased extension, what text each kind yields, and the loop that adds
 * every file with real content to the knowledge base and counts them.
 *
 * The PDF reader and the UTF-8 decoder are libraries outside the model: a
 * file's `body` is whatever they produced, or `None` when they raised.
 */
module Uploads {
  import opened Wrappers
  import opened PyText
  import opened KnowledgeStore

  datatype FileKind = Pdf | PlainText | Image | Other

  /** One uploaded file: the filename the client sent (`""` when it sent
      none) and the text the PDF reader or the UTF-8 decoder produced from
      its bytes, `None` when that raised. */
  datatype FileUpload = FileUpload(filename: string, body: Option<string>)

  /** One document the upload loop adds: the extracted text and the filename. */
  datatype Entry = Entry(text: string, filename: string)

  const ImageExtensions: seq<string> := [".jpg", ".jpeg", ".png", ".gif", ".bmp"]
  const PlainTextExtensions: seq<string> := [".txt", ".md", ".docx"]

  predicate EndsWithAny(s: string, suffixes: seq<string>) {
    exists k :: 0 <= k < |suffixes| && EndsWith(s, suffixes[k])
  }

  /** The dispatch of `extract_text_from_file` on the lower-cased filename;
      the first matching test wins. */
  function KindOf(filename: string): (kind: FileKind)
    ensures var lower := AsciiLower(filename);
      && (kind == Pdf <==> EndsWith(lower, ".pdf"))
      && (kind == PlainText ==> EndsWithAny(lower, PlainTextExtensions))
      && (kind == Image ==> EndsWithAny(lower, ImageExtensions) && !EndsWithAny(lower, PlainTextExtensions))
      && (kind == Other <==> !EndsWith(lower, ".pdf") && !EndsWithAny(lower, PlainTextExtensions)
                             && !EndsWithAny(lower, ImageExtensions))
  {
    var lower := AsciiLower(filename);
    if EndsWith(lower, ".pdf") then Pdf
    else if EndsWithAny(lower, PlainTextExtensions) then PlainText
    else if EndsWithAny(lower, ImageExtensions) then Image
    else Other
  }

  /** The text `extract_text_from_file` returns: a fixed marker naming the
      lower-cased filename for images, the library's output otherwise. */
  function ExtractText(file: FileUpload): (text: Option<string>)
    ensures KindOf(file.filename) != Image ==> text == file.body
    ensures KindOf(file.filename) == Image ==>
      && text.Some? && HasContent(text.value)
      && text.value == "[Image file: " + AsciiLower(file.filename) + "]"
  {
    if KindOf(file.filename) == Image then
      var marker := "[Image file: " + AsciiLower(file.filename) + "]";
      assert !IsWhitespace(marker[0]);
      Some(marker)
    else
      file.body
  }

  /** The classification ignores the case of ASCII letters: a filename and
      its lower-cased form are of the same kind. */
  lemma KindOfIgnoresCase(filename: string)
    ensures KindOf(AsciiLower(filename)) == KindOf(filename)
  {
    AsciiLowerIdempotent(filename);
  }

  /** What one file contributes to the knowledge base: nothing when it has
      no filename, when extraction raised, or when the text is empty or all
      whitespace; otherwise one entry. */
  function AcceptedOne(file: FileUpload): (r: seq<Entry>)
    ensures |r| <= 1
    ensures r != [] <==> file.filename != "" && ExtractText(file).Some? && HasContent(ExtractText(file).value)
    ensures r != [] ==> r[0] == Entry(ExtractText(file).value, file.filename)
  {
    if file.filename == "" then []
    else
      match ExtractText(file)
      case None => []
      case Some(text) => if HasContent(text) then [Entry(text, file.filename)] else []
  }

  /** The entries the upload loop adds for `files`, in file order: at most
      one per file. */
  function Accepted(files: seq<FileUpload>): (r: seq<Entry>)
    ensures |r| <= |files|
    decreases |files|
  {
    if files == [] then []
    else Accepted(files[..|files| - 1]) + AcceptedOne(files[|files| - 1])
  }

  /** The documents that `entries` become when added one by one to a
      knowledge base whose counter stands at `start`. */
  function Stamped(entries: seq<Entry>, start: nat): (r: seq<Document>)
    ensures |r| == |entries|
    ensures forall k :: 0 <= k < |r| ==> r[k] == Document(start + k, entries[k].text, entries[k].filename)
  {
    seq(|entries|, k requires 0 <= k < |entries| => Document(start + k, entries[k].text, entries[k].filename))
  }

  /** One pass of the upload loop, over file `i`: runs the loop body on the
      file and says how many documents it added. The documents before the pass are
      those before the batch followed by the entries of files `0..i-1`,
      stamped with consecutive ids; after it, the same holds of files
      `0..i`. */
  method AddUpload(kb: KnowledgeBase, files: seq<FileUpload>, i: nat, ghost docs0: seq<Document>, ghost id0: nat)
    returns (added: nat)
    requires i < |files|
    requires kb.Valid()
    requires kb.documents == docs0 + Stamped(Accepted(files[..i]), id0)
    requires kb.nextId == id0 + |Accepted(files[..i])|
    modifies kb
    ensures kb.Valid()
    ensures added == |AcceptedOne(files[i])|
    ensures |Accepted(files[..i + 1])| == |Accepted(files[..i])| + added
    ensures kb.nextId == id0 + |Accepted(files[..i + 1])|
    ensures kb.documents == docs0 + Stamped(Accepted(files[..i + 1]), id0)
  {
    ghost var before := kb.documents;
    added := AddFile(kb, files[i]);
    UploadStep(files, i, docs0, id0, before, kb.documents, added, kb.nextId);
  }

  /** The body of the upload loop for one file: adds the file's document
      when the file has a filename and its extracted text is not blank, and
      says how many documents it added. */
  method AddFile(kb: KnowledgeBase, file: FileUpload) returns (added: nat)
    requires kb.Valid()
    modifies kb
    ensures kb.Valid()
    ensures added == |AcceptedOne(file)|
    ensures kb.nextId == old(kb.nextId) + added
    ensures kb.documents == old(kb.documents) + Stamped(AcceptedOne(file), old(kb.nextId))
  {
    added := 0;
    if file.filename != "" {
      var text := ExtractText(file);
      if text.Some? && HasContent(text.value) {
        var _ := kb.AddDocument(text.value, file.filename);
        added := 1;
        assert AcceptedOne(file) == [Entry(text.value, file.filename)];
      } else {
        assert AcceptedOne(file) == [];
      }
    } else {
      assert AcceptedOne(file) == [];
    }
  }

  /** The upload loop: adds one document per accepted file, in file order,
      with consecutive fresh ids, and returns how many it added. */
  method AddUploads(kb: KnowledgeBase, files: seq<FileUpload>) returns (count: nat)
    requires kb.Valid()
    modifies kb
    ensures kb.Valid()
    ensures count == |Accepted(files)|
    ensures kb.nextId == old(kb.nextId) + count
    ensures kb.documents == old(kb.documents) + Stamped(Accepted(files), old(kb.nextId))
  {
    ghost var docs0, id0 := kb.documents, kb.nextId;
    count := 0;
    var i := 0;
    while i < |files|
      invariant 0 <= i <= |files|
      invariant kb.Valid()
      invariant count == |Accepted(files[..i])|
      invariant kb.nextId == id0 + count
      invariant kb.documents == docs0 + Stamped(Accepted(files[..i]), id0)
    {
      var added := AddUpload(kb, files, i, docs0, id0);
      count := count + added;
      i := i + 1;
    }
    assert files[..|files|] == files;
  }

  lemma AcceptedStep(files: seq<FileUpload>, i: nat)
    requires i < |files|
    ensures Accepted(files[..i + 1]) == Accepted(files[..i]) + AcceptedOne(files[i])
  {
    assert files[..i + 1][..i] == files[..i];
  }

  /** One pass of the upload loop keeps the loop's account of the
      documents: those before the batch, then the entries of the files seen
      so far, stamped with consecutive ids. */
  lemma UploadStep(files: seq<FileUpload>, i: nat, docs0: seq<Document>, id0: nat,
                   before: seq<Document>, after: seq<Document>, added: nat, next: nat)
    requires i < |files|
    requires before == docs0 + Stamped(Accepted(files[..i]), id0)
    requires added == |AcceptedOne(files[i])|
    requires next == id0 + |Accepted(files[..i])| + added
    requires after == before + Stamped(AcceptedOne(files[i]), id0 + |Accepted(files[..i])|)
    ensures |Accepted(files[..i + 1])| == |Accepted(files[..i])| + added
    ensures next == id0 + |Accepted(files[..i + 1])|
    ensures after == docs0 + Stamped(Accepted(files[..i + 1]), id0)
  {
    var done := Accepted(files[..i]);
    AcceptedStep(files, i);
    StampedAppend(done, AcceptedOne(files[i]), id0);
  }

  lemma StampedAppend(a: seq<Entry>, b: seq<Entry>, start: nat)
    ensures Stamped(a + b, start) == Stamped(a, start) + Stamped(b, start + |a|)
  {
  }

  /** Every added document has a filename and text with a non-whitespace
      character, and came from a file of the batch with that filename. */
  lemma {:induction false} AcceptedHaveContent(files: seq<FileUpload>)
    ensures forall e :: e in Accepted(files) ==>
      && e.filename != ""
      && HasContent(e.text)
      && exists k :: 0 <= k < |files| && files[k].filename == e.filename && ExtractText(files[k]) == Some(e.text)
    decreases |files|
  {
    if files != [] {
      var init := files[..|files| - 1];
      AcceptedHaveContent(init);
      forall e | e in Accepted(files)
        ensures && e.filename != ""
                && HasContent(e.text)
                && exists k :: 0 <= k < |files| && files[k].filename == e.filename && ExtractText(files[k]) == Some(e.text)
      {
        if e in Accepted(init) {
          var k :| 0 <= k < |init| && init[k].filename == e.filename && ExtractText(init[k]) == Some(e.text);
          assert files[k] == init[k];
        } else {
          assert e in AcceptedOne(files[|files| - 1]);
        }
      }
    }
  }

  /** The count is zero exactly when no file of the batch has both a
      filename and extracted text with content. */
  lemma {:induction false} NothingAcceptedIff(files: seq<FileUpload>)
    ensures |Accepted(files)| == 0 <==> forall k :: 0 <= k < |files| ==> AcceptedOne(files[k]) == []
    decreases |files|
  {
    if files != [] {
      var init, last := files[..|files| - 1], files[|files| - 1];
      NothingAcceptedIff(init);
      assert |Accepted(files)| == |Accepted(init)| + |AcceptedOne(last)|;
      if |Accepted(files)| == 0 {
        forall k | 0 <= k < |files|
          ensures AcceptedOne(files[k]) == []
        {
          if k < |init| {
            assert files[k] == init[k];
          }
        }
      } else if |Accepted(init)| != 0 {
        var k :| 0 <= k < |init| && AcceptedOne(init[k]) != [];
        assert files[k] == init[k];
      } else {
        assert AcceptedOne(files[|files| - 1]) != [];
      }
    }
  }

  /** A named image file always becomes a document: its marker text is never
      blank, whatever its bytes are. */
  lemma ImageAlwaysAccepted(file: FileUpload)
    requires file.filename != "" && KindOf(file.filename) == Image
    ensures AcceptedOne(file) == [Entry("[Image file: " + AsciiLower(file.filename) + "]", file.filename)]
  {
    var text := "[Image file: " + AsciiLower(file.filename) + "]";
    assert !IsWhitespace(text[0]);
  }
}
