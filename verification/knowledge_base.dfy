/**
 * The in-memory knowledge-base store: a `KnowledgeBase` holds an ordered list
 * of documents and the counter that hands out their ids; a
 * `KnowledgeBaseManager` maps names to knowledge bases.
 *
 * Both are objects whose state the source updates in place, so both are
 * classes here. The manager's dictionary keeps Python's insertion order,
 * which `list_kbs` exposes; the model keeps that order in `order`.
 */
module KnowledgeStore {
  import opened Wrappers

  /** One stored document. The source's record also carries `uploaded_at`,
      which is always `None`, so it is not kept. */
  datatype Document = Document(id: nat, text: string, filename: string)

  /** The invariant of a knowledge base: ids strictly increase along the
      list and all of them are below the next id to be handed out. */
  ghost predicate IdsOrdered(docs: seq<Document>, nextId: nat) {
    && (forall i, j :: 0 <= i < j < |docs| ==> docs[i].id < docs[j].id)
    && (forall i :: 0 <= i < |docs| ==> docs[i].id < nextId)
  }

  /** The position of the first document whose id is `docId`, if there is
      one: the index the source's scans over `documents` stop at. */
  function FirstIndex(docs: seq<Document>, docId: int): (r: Option<nat>)
    ensures r.None? <==> forall k :: 0 <= k < |docs| ==> docs[k].id != docId
    ensures r.Some? ==> r.value < |docs| && docs[r.value].id == docId
    ensures r.Some? ==> forall k :: 0 <= k < r.value ==> docs[k].id != docId
    decreases |docs|
  {
    if docs == [] then None
    else if docs[0].id == docId then Some(0)
    else
      match FirstIndex(docs[1..], docId)
      case None => None
      case Some(i) => Some(i + 1)
  }

  /** `docs` with the element at position `i` taken out, as `list.pop(i)`
      leaves it. */
  function RemoveAt(docs: seq<Document>, i: nat): (r: seq<Document>)
    requires i < |docs|
    ensures |r| == |docs| - 1
    ensures forall k :: 0 <= k < i ==> r[k] == docs[k]
    ensures forall k :: i <= k < |r| ==> r[k] == docs[k + 1]
  {
    docs[..i] + docs[i + 1..]
  }

  /** The stop index of the slice `docs[:min(top_k, n)]` in Python: a
      negative stop counts back from the end, and the slice is clamped to
      the list. */
  function SliceStop(topK: int, n: nat): (m: nat)
    ensures m <= n
    ensures topK >= 0 ==> m == if topK < n then topK else n
    ensures topK < 0 ==> m == if n + topK > 0 then n + topK else 0
  {
    var stop := if topK < n then topK else n;
    if stop >= 0 then stop else if n + stop > 0 then n + stop else 0
  }

  function Texts(docs: seq<Document>): (r: seq<string>)
    ensures |r| == |docs|
    ensures forall k :: 0 <= k < |docs| ==> r[k] == docs[k].text
  {
    seq(|docs|, k requires 0 <= k < |docs| => docs[k].text)
  }

  /** Under the invariant, no two documents share an id. */
  lemma IdsUnique(docs: seq<Document>, nextId: nat)
    requires IdsOrdered(docs, nextId)
    ensures forall i, j :: 0 <= i < |docs| && 0 <= j < |docs| && i != j ==> docs[i].id != docs[j].id
  {
    forall i, j | 0 <= i < |docs| && 0 <= j < |docs| && i != j
      ensures docs[i].id != docs[j].id
    {
      if i < j { assert docs[i].id < docs[j].id; } else { assert docs[j].id < docs[i].id; }
    }
  }

  /** Removal is exact: under the invariant, once the first document with
      `docId` is popped no document with that id is left, and every other
      document is still there (their order is `RemoveAt`'s contract). */
  lemma RemoveIsExact(docs: seq<Document>, nextId: nat, docId: int)
    requires IdsOrdered(docs, nextId)
    requires FirstIndex(docs, docId).Some?
    ensures var rest := RemoveAt(docs, FirstIndex(docs, docId).value);
      && IdsOrdered(rest, nextId)
      && (forall k :: 0 <= k < |rest| ==> rest[k].id != docId)
      && (forall d :: d in docs && d.id != docId ==> d in rest)
  {
    var i := FirstIndex(docs, docId).value;
    var rest := RemoveAt(docs, i);
    IdsUnique(docs, nextId);
    forall k | 0 <= k < |rest| ensures rest[k].id != docId {
      if k < i { assert rest[k] == docs[k]; } else { assert rest[k] == docs[k + 1]; }
    }
    forall d | d in docs && d.id != docId ensures d in rest {
      var j :| 0 <= j < |docs| && docs[j] == d;
      if j < i { assert rest[j] == d; } else { assert j != i; assert rest[j - 1] == d; }
    }
  }

  /** A knowledge base: `documents` in upload order and the counter
      `nextId` that the next added document receives as its id. */
  class KnowledgeBase {
    const name: string
    var documents: seq<Document>
    var nextId: nat

    ghost predicate Valid()
      reads this
    {
      IdsOrdered(documents, nextId)
    }

    constructor (name: string)
      ensures Valid()
      ensures this.name == name && documents == [] && nextId == 0
    {
      this.name := name;
      documents := [];
      nextId := 0;
    }

    /** Appends one document whose id is the old counter, bumps the counter
        by one and returns the new id. */
    method AddDocument(text: string, filename: string) returns (id: nat)
      requires Valid()
      modifies this
      ensures Valid()
      ensures id == old(nextId) && nextId == old(nextId) + 1
      ensures documents == old(documents) + [Document(id, text, filename)]
    {
      var doc := Document(nextId, text, filename);
      documents := documents + [doc];
      nextId := nextId + 1;
      id := doc.id;
    }

    /** Pops the first document whose id is `docId` and reports whether
        there was one; the counter is left alone. */
    method RemoveDocument(docId: int) returns (removed: bool)
      requires Valid()
      modifies this
      ensures Valid()
      ensures nextId == old(nextId)
      ensures removed <==> exists k :: 0 <= k < |old(documents)| && old(documents)[k].id == docId
      ensures documents == match FirstIndex(old(documents), docId)
                           case Some(i) => RemoveAt(old(documents), i)
                           case None => old(documents)
    {
      var i := 0;
      while i < |documents|
        invariant 0 <= i <= |documents|
        invariant forall k :: 0 <= k < i ==> documents[k].id != docId
      {
        if documents[i].id == docId {
          assert FirstIndex(documents, docId) == Some(i);
          documents := RemoveAt(documents, i);
          return true;
        }
        i := i + 1;
      }
      return false;
    }

    /** The first document whose id is `docId`, or `None`; reads only. */
    method GetDocument(docId: int) returns (doc: Option<Document>)
      ensures doc.None? <==> forall k :: 0 <= k < |documents| ==> documents[k].id != docId
      ensures doc.Some? ==> exists i :: FirstIndex(documents, docId) == Some(i) && doc.value == documents[i]
    {
      var i := 0;
      while i < |documents|
        invariant 0 <= i <= |documents|
        invariant forall k :: 0 <= k < i ==> documents[k].id != docId
      {
        if documents[i].id == docId {
          assert FirstIndex(documents, docId) == Some(i);
          return Some(documents[i]);
        }
        i := i + 1;
      }
      return None;
    }

    /** The naive retrieval: the texts of the first `topK` documents in
        stored order, whatever `queryText` says. */
    function Query(queryText: string, topK: int): (r: seq<string>)
      reads this
      ensures |r| == SliceStop(topK, |documents|)
      ensures topK >= 0 ==> |r| == if topK < |documents| then topK else |documents|
      ensures forall k :: 0 <= k < |r| ==> r[k] == documents[k].text
      ensures documents == [] ==> r == []
    {
      if documents == [] then [] else Texts(documents[..SliceStop(topK, |documents|)])
    }

    /** Drops every document and restarts the id counter at 0. */
    method Clear()
      modifies this
      ensures Valid()
      ensures documents == [] && nextId == 0
    {
      documents := [];
      nextId := 0;
    }
  }

  /** The query text plays no part in what `query` returns. */
  lemma QueryIgnoresText(kb: KnowledgeBase, a: string, b: string, topK: int)
    ensures kb.Query(a, topK) == kb.Query(b, topK)
  {
  }

  /** One entry of `list_kbs`. */
  datatype KbInfo = KbInfo(name: string, documentCount: nat)

  predicate Distinct(names: seq<string>) {
    forall i, j :: 0 <= i < j < |names| ==> names[i] != names[j]
  }

  /** `names` without `x`, the rest in the same order: what deleting a key
      does to a dictionary's insertion order. */
  function Without(names: seq<string>, x: string): (r: seq<string>)
    ensures forall y :: y in r <==> y in names && y != x
    ensures Distinct(names) ==> Distinct(r)
    ensures x !in names ==> r == names
    decreases |names|
  {
    if names == [] then []
    else if names[0] == x then Without(names[1..], x)
    else
      var rest := Without(names[1..], x);
      assert Distinct(names) ==> names[0] !in rest;
      [names[0]] + rest
  }

  /** Dropping a name from two runs of names is dropping it from each: the
      names that stay keep their order. */
  lemma {:induction false} WithoutAppend(a: seq<string>, b: seq<string>, x: string)
    ensures Without(a + b, x) == Without(a, x) + Without(b, x)
    decreases |a|
  {
    if a == [] {
      assert a + b == b;
    } else {
      var ab := a + b;
      assert ab[0] == a[0];
      assert ab[1..] == a[1..] + b;
      WithoutAppend(a[1..], b, x);
    }
  }

  /** Two names that both stay after deleting `x` come out in the order they
      went in. */
  lemma WithoutKeepsOrder(names: seq<string>, x: string, i: nat, j: nat)
    requires i < j < |names| && names[i] != x && names[j] != x
    ensures var r := Without(names, x);
      exists p, q :: 0 <= p < q < |r| && r[p] == names[i] && r[q] == names[j]
  {
    var front, back := names[..j], names[j..];
    assert names == front + back;
    WithoutAppend(front, back, x);
    assert back[0] == names[j];
    var wf := Without(front, x);
    assert names[i] == front[i];
    assert names[i] in front;
    assert names[i] in wf;
    var p :| 0 <= p < |wf| && wf[p] == names[i];
    var r := Without(names, x);
    assert r[p] == names[i];
    assert r[|wf|] == names[j];
  }

  /** The registry of knowledge bases by name, in insertion order. */
  class KnowledgeBaseManager {
    var kbs: map<string, KnowledgeBase>
    var order: seq<string>

    /** Every knowledge base is valid and registered under its own name, and
        `order` lists each registered name exactly once. */
    ghost predicate Valid()
      reads this, kbs.Values
    {
      && (forall n :: n in kbs ==> kbs[n].name == n && kbs[n].Valid())
      && Distinct(order)
      && (forall n :: n in kbs <==> n in order)
    }

    constructor ()
      ensures Valid()
      ensures kbs == map[] && order == []
    {
      kbs := map[];
      order := [];
    }

    /** Returns the knowledge base called `name`, creating an empty one when
        there is none; an existing one comes back with its documents intact. */
    method CreateKb(name: string) returns (kb: KnowledgeBase)
      requires Valid()
      modifies this
      ensures Valid()
      ensures kb.name == name
      ensures name in old(kbs) ==> && kb == old(kbs[name])
                                   && kb.documents == old(kbs[name].documents)
                                   && kb.nextId == old(kbs[name].nextId)
                                   && kbs == old(kbs) && order == old(order)
      ensures name !in old(kbs) ==> && fresh(kb) && kb.documents == [] && kb.nextId == 0
                                    && kbs == old(kbs)[name := kb]
                                    && order == old(order) + [name]
    {
      if name in kbs {
        return kbs[name];
      }
      kb := new KnowledgeBase(name);
      kbs := kbs[name := kb];
      order := order + [name];
    }

    /** The knowledge base called `name`, or `None`. */
    function GetKb(name: string): (r: Option<KnowledgeBase>)
      reads this
      ensures r.Some? <==> name in kbs
      ensures r.Some? ==> r.value == kbs[name]
    {
      if name in kbs then Some(kbs[name]) else None
    }

    function Infos(names: seq<string>): (r: seq<KbInfo>)
      requires forall n :: n in names ==> n in kbs
      reads this, kbs.Values
      ensures |r| == |names|
      ensures forall i :: 0 <= i < |r| ==>
        r[i].name == names[i] && r[i].documentCount == |kbs[names[i]].documents|
      decreases |names|
    {
      if names == [] then []
      else [KbInfo(names[0], |kbs[names[0]].documents|)] + Infos(names[1..])
    }

    /** One entry per knowledge base, in insertion order, each with the
        number of documents it holds. */
    function ListKbs(): (r: seq<KbInfo>)
      requires Valid()
      reads this, kbs.Values
      ensures |r| == |order|
      ensures forall i :: 0 <= i < |r| ==>
        r[i].name == order[i] && r[i].name in kbs && r[i].documentCount == |kbs[r[i].name].documents|
    {
      Infos(order)
    }

    /** Deletes the knowledge base called `name`, reporting whether there was
        one; no other entry changes. */
    method DeleteKb(name: string) returns (deleted: bool)
      requires Valid()
      modifies this
      ensures Valid()
      ensures deleted <==> name in old(kbs)
      ensures kbs == old(kbs) - {name}
      ensures order == Without(old(order), name)
    {
      deleted := name in kbs;
      kbs := kbs - {name};
      order := Without(order, name);
    }
  }

  /** `list_kbs` lists every knowledge base exactly once: its entries are
      as many as the registered names, their names are pairwise different,
      and every registered name has an entry. */
  lemma ListKbsOnePerKb(m: KnowledgeBaseManager)
    requires m.Valid()
    ensures |m.ListKbs()| == |m.kbs|
    ensures forall i, j :: 0 <= i < j < |m.ListKbs()| ==> m.ListKbs()[i].name != m.ListKbs()[j].name
    ensures forall n :: n in m.kbs ==> exists i :: 0 <= i < |m.ListKbs()| && m.ListKbs()[i].name == n
  {
    var r := m.ListKbs();
    DistinctCount(m.order, m.kbs.Keys);
    forall n | n in m.kbs ensures exists i :: 0 <= i < |r| && r[i].name == n {
      var i :| 0 <= i < |m.order| && m.order[i] == n;
      assert r[i].name == n;
    }
  }

  /** A list without repeats has as many elements as the set it enumerates. */
  lemma {:induction false} DistinctCount(names: seq<string>, keys: set<string>)
    requires Distinct(names)
    requires forall n :: n in keys <==> n in names
    ensures |keys| == |names|
    decreases |names|
  {
    if names != [] {
      var rest := names[1..];
      assert Distinct(rest);
      assert forall n :: n in keys - {names[0]} <==> n in rest;
      DistinctCount(rest, keys - {names[0]});
    }
  }
}
