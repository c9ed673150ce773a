/** Write-behind persistence of a set of documents
  * (deps/mongoclient/index_persister.go, deps/mongoclient/simple_record.go):
  * an in-memory map, a recorder of pending upserts and deletes, and an
  * unordered batch that may fail half way. */
module Persister {
  import opened Basics

  datatype Doc = Doc(index: int, body: int)

  /** One write of a batch. */
  datatype Model = ReplaceOne(id: int, doc: Doc) | DeleteOne(id: int)

  datatype Mode = Default | ReadOnly | NoDefaultLoad

  datatype Error = NoCollection | NoIndexValue | NotFound | Database | Codec

  function Lookup(m: map<int, Doc>, id: int): Option<Doc> {
    if id in m then Some(m[id]) else None
  }

  function Write(docs: map<int, Doc>, model: Model): map<int, Doc> {
    match model
    case ReplaceOne(id, doc) => docs[id := doc]
    case DeleteOne(id) => docs - {id}
  }

  function WriteAll(docs: map<int, Doc>, models: seq<Model>): map<int, Doc> {
    if models == [] then docs else Write(WriteAll(docs, models[..|models| - 1]), models[|models| - 1])
  }

  predicate DistinctIds(models: seq<Model>) {
    forall i, j :: 0 <= i < j < |models| ==> models[i].id != models[j].id
  }

  // ---------------------------------------------------------------------
  // Unordered batches

  function Effect(model: Model): Option<Doc> {
    if model.ReplaceOne? then Some(model.doc) else None
  }

  /** What a batch does to one document: its one write, or nothing. */
  lemma {:induction false} WriteAllAt(docs: map<int, Doc>, models: seq<Model>, i: nat)
    requires DistinctIds(models) && i < |models|
    ensures Lookup(WriteAll(docs, models), models[i].id) == Effect(models[i])
  {
    if i < |models| - 1 { WriteAllAt(docs, models[..|models| - 1], i); }
  }

  lemma {:induction false} WriteAllElsewhere(docs: map<int, Doc>, models: seq<Model>, id: int)
    requires forall i :: 0 <= i < |models| ==> models[i].id != id
    ensures Lookup(WriteAll(docs, models), id) == Lookup(docs, id)
  {
    if models != [] { WriteAllElsewhere(docs, models[..|models| - 1], id); }
  }

  lemma SameDocs(a: map<int, Doc>, b: map<int, Doc>)
    requires forall id :: Lookup(a, id) == Lookup(b, id)
    ensures a == b
  {
    forall id ensures id in a <==> id in b { assert Lookup(a, id) == Lookup(b, id); }
    forall id | id in a ensures a[id] == b[id] { assert Lookup(a, id) == Lookup(b, id); }
    SameMap(a, b);
  }

  /** A batch can be applied in any order. */
  lemma OrderIndependent(docs: map<int, Doc>, a: seq<Model>, b: seq<Model>)
    requires DistinctIds(a) && DistinctIds(b) && forall m :: m in a <==> m in b
    ensures WriteAll(docs, a) == WriteAll(docs, b)
  {
    RetryConverges(docs, [], a, b);
    assert WriteAll(docs, []) == docs;
  }

  /** After any part of the batch has been applied, in any order, the whole batch
    * leads where it would have led at once. */
  lemma RetryConverges(docs: map<int, Doc>, part: seq<Model>, a: seq<Model>, b: seq<Model>)
    requires DistinctIds(part) && DistinctIds(a) && DistinctIds(b)
    requires (forall m :: m in part ==> m in a) && forall m :: m in a <==> m in b
    ensures WriteAll(WriteAll(docs, part), b) == WriteAll(docs, a)
  {
    var half := WriteAll(docs, part);
    forall id ensures Lookup(WriteAll(half, b), id) == Lookup(WriteAll(docs, a), id) {
      if i: nat :| i < |a| && a[i].id == id {
        assert a[i] in b;
        var j: nat :| j < |b| && b[j] == a[i];
        WriteAllAt(docs, a, i);
        WriteAllAt(half, b, j);
      } else {
        forall j | 0 <= j < |b| ensures b[j].id != id {
          assert b[j] in a;
          var k :| 0 <= k < |a| && a[k] == b[j];
        }
        forall j | 0 <= j < |part| ensures part[j].id != id {
          assert part[j] in a;
          var k :| 0 <= k < |a| && a[k] == part[j];
        }
        WriteAllElsewhere(docs, a, id);
        WriteAllElsewhere(half, b, id);
        WriteAllElsewhere(docs, part, id);
      }
    }
    SameDocs(WriteAll(half, b), WriteAll(docs, a));
  }

  // ---------------------------------------------------------------------
  // Pending changes over a database

  datatype Pending = Pending(upserts: map<int, Doc>, deletes: set<int>)

  function Applied(docs: map<int, Doc>, p: Pending): map<int, Doc> {
    docs - p.deletes + p.upserts
  }

  /** On every id that has been loaded or touched, the pending changes applied
    * to the database give what is in memory. */
  ghost predicate Consistent(known: set<int>, data: map<int, Doc>, p: Pending, docs: map<int, Doc>) {
    && p.upserts.Keys !! p.deletes
    && data.Keys <= known && p.upserts.Keys <= known && p.deletes <= known
    && forall id :: id in known ==> Lookup(Applied(docs, p), id) == Lookup(data, id)
  }

  function WithUpsert(p: Pending, id: int, doc: Doc): Pending {
    Pending(p.upserts[id := doc], p.deletes - {id})
  }

  function WithDelete(p: Pending, id: int): Pending {
    Pending(p.upserts - {id}, p.deletes + {id})
  }

  lemma UpsertKeeps(known: set<int>, data: map<int, Doc>, p: Pending, docs: map<int, Doc>, id: int, doc: Doc)
    requires Consistent(known, data, p, docs)
    ensures Consistent(known + {id}, data[id := doc], WithUpsert(p, id, doc), docs)
  {
    var q := WithUpsert(p, id, doc);
    forall k | k in known + {id} ensures Lookup(Applied(docs, q), k) == Lookup(data[id := doc], k) {
      if k != id { assert Lookup(Applied(docs, p), k) == Lookup(data, k); }
    }
  }

  lemma DeleteKeeps(known: set<int>, data: map<int, Doc>, p: Pending, docs: map<int, Doc>, id: int)
    requires Consistent(known, data, p, docs)
    ensures Consistent(known + {id}, data - {id}, WithDelete(p, id), docs)
  {
    var q := WithDelete(p, id);
    forall k | k in known + {id} ensures Lookup(Applied(docs, q), k) == Lookup(data - {id}, k) {
      if k != id { assert Lookup(Applied(docs, p), k) == Lookup(data, k); }
    }
  }

  /** Reading a document that is not in memory keeps the two in step exactly
    * when the id has no pending delete; with one, the read brings the document
    * back in memory while the delete still stands. */
  lemma FetchKeepsIff(known: set<int>, data: map<int, Doc>, p: Pending, docs: map<int, Doc>, id: int)
    requires Consistent(known, data, p, docs) && id !in data && id in docs
    ensures Consistent(known + {id}, data[id := docs[id]], p, docs) <==> id !in p.deletes
  {
    if id !in p.deletes {
      assert id in known ==> Lookup(Applied(docs, p), id) == Lookup(data, id);
      forall k | k in known + {id} ensures Lookup(Applied(docs, p), k) == Lookup(data[id := docs[id]], k) {
        if k != id { assert Lookup(Applied(docs, p), k) == Lookup(data, k); }
      }
    } else {
      assert Lookup(Applied(docs, p), id) == None && Lookup(data[id := docs[id]], id) == Some(docs[id]);
    }
  }

  /** Other writers leave memory, pending changes and database in step exactly
    * when they write no known document but those with a change pending, which
    * the next save writes over. */
  lemma OthersKeepIff(known: set<int>, data: map<int, Doc>, p: Pending, docs: map<int, Doc>, docs': map<int, Doc>)
    requires Consistent(known, data, p, docs)
    ensures Consistent(known, data, p, docs') <==>
            forall id :: id in known && id !in p.upserts && id !in p.deletes ==> Lookup(docs', id) == Lookup(docs, id)
  {
    forall id | id in known
      ensures Lookup(Applied(docs', p), id) == Lookup(data, id) <==>
              id in p.upserts || id in p.deletes || Lookup(docs', id) == Lookup(docs, id)
    {
      assert Lookup(Applied(docs, p), id) == Lookup(data, id);
    }
  }

  /** Replacing the whole map records upserts only.  Memory and pending changes
    * stay in step exactly when no known document left out of the new map is in
    * the database: a smaller map does not delete. */
  lemma SetDataKeepsIff(known: set<int>, docs: map<int, Doc>, data: map<int, Doc>)
    ensures Consistent(known + data.Keys, data, Pending(data, {}), docs)
       <==> forall id :: id in known && id !in data ==> id !in docs
  {
    if forall id :: id in known && id !in data ==> id !in docs {
      forall id | id in known + data.Keys
        ensures Lookup(Applied(docs, Pending(data, {})), id) == Lookup(data, id)
      {
        assert id in data || id !in docs;
      }
    } else {
      var id :| id in known && id !in data && id in docs;
      assert id in known + data.Keys;
      assert Lookup(Applied(docs, Pending(data, {})), id) == Some(docs[id]);
    }
  }

  /** The batch: one write per pending change. */
  ghost predicate IsBatch(models: seq<Model>, p: Pending) {
    && DistinctIds(models)
    && (forall m :: m in models <==>
          match m
          case ReplaceOne(id, doc) => id in p.upserts && p.upserts[id] == doc
          case DeleteOne(id) => id in p.deletes)
  }

  /** Any part of the batch leaves memory, pending changes and database in step. */
  lemma PartKeeps(known: set<int>, data: map<int, Doc>, p: Pending, docs: map<int, Doc>,
                  models: seq<Model>, part: seq<Model>)
    requires Consistent(known, data, p, docs) && IsBatch(models, p)
    requires DistinctIds(part) && forall m :: m in part ==> m in models
    ensures Consistent(known, data, p, WriteAll(docs, part))
  {
    forall id | id in known
      ensures Lookup(Applied(WriteAll(docs, part), p), id) == Lookup(data, id)
    {
      assert Lookup(Applied(docs, p), id) == Lookup(data, id);
      if id !in p.upserts && id !in p.deletes {
        forall i | 0 <= i < |part| ensures part[i].id != id { assert part[i] in models; }
        WriteAllElsewhere(docs, part, id);
      }
    }
  }

  lemma BatchIsApplied(docs: map<int, Doc>, p: Pending, models: seq<Model>)
    requires IsBatch(models, p) && p.upserts.Keys !! p.deletes
    ensures WriteAll(docs, models) == Applied(docs, p)
  {
    forall id ensures Lookup(WriteAll(docs, models), id) == Lookup(Applied(docs, p), id) {
      if id in p.upserts || id in p.deletes {
        var m := if id in p.upserts then ReplaceOne(id, p.upserts[id]) else DeleteOne(id);
        assert m in models;
        var i: nat :| i < |models| && models[i] == m;
        WriteAllAt(docs, models, i);
      } else {
        forall i | 0 <= i < |models| ensures models[i].id != id { assert models[i] in models; }
        WriteAllElsewhere(docs, models, id);
      }
    }
    SameDocs(WriteAll(docs, models), Applied(docs, p));
  }

  lemma WholeClears(known: set<int>, data: map<int, Doc>, p: Pending, docs: map<int, Doc>)
    requires Consistent(known, data, p, docs)
    ensures Consistent(known, data, Pending(map[], {}), Applied(docs, p))
  {
    SameDocs(Applied(Applied(docs, p), Pending(map[], {})), Applied(docs, p));
  }

  // ---------------------------------------------------------------------

  function Indices(n: nat): (r: set<nat>)
    ensures forall i :: i in r <==> 0 <= i < n
  {
    if n == 0 then {} else Indices(n - 1) + {n - 1}
  }

  function Matching(docs: map<int, Doc>, indexValue: int): set<int> {
    set id | id in docs && docs[id].index == indexValue
  }

  class Collection {
    var docs: map<int, Doc>

    constructor ()
      ensures docs == map[]
    {
      docs := map[];
    }

    /** An unordered batch: writes are applied in any order, and an outage may
      * have applied any part of them. */
    method BulkWrite(models: seq<Model>, outage: bool) returns (ok: bool, ghost part: seq<Model>)
      requires DistinctIds(models)
      modifies this
      ensures docs == WriteAll(old(docs), part) && DistinctIds(part)
      ensures forall m :: m in part ==> m in models
      ensures ok == !outage && (ok ==> forall m :: m in models ==> m in part)
    {
      var left := Indices(|models|);
      part := [];
      ok := true;
      while left != {}
        invariant left <= Indices(|models|)
        invariant docs == WriteAll(old(docs), part) && DistinctIds(part)
        invariant forall m :: m in part ==> exists i :: 0 <= i < |models| && i !in left && models[i] == m
        invariant forall i :: 0 <= i < |models| && i !in left ==> models[i] in part
        decreases left
      {
        if outage {
          if * { return false, part; }
        }
        var i :| i in left;
        docs := Write(docs, models[i]);
        assert (part + [models[i]])[..|part|] == part;
        forall k | 0 <= k < |part| ensures part[k].id != models[i].id {
          assert part[k] in part;
          var j :| 0 <= j < |models| && j !in left && models[j] == part[k];
        }
        left, part := left - {i}, part + [models[i]];
      }
      ok := !outage;    // an outage may also lose the answer to a whole batch
    }

    method FindOne(id: int, indexValue: int, outage: bool) returns (doc: Option<Doc>, failed: bool)
      ensures failed == outage
      ensures !failed ==> doc == if id in docs && docs[id].index == indexValue then Some(docs[id]) else None
      ensures failed ==> doc == None
    {
      if outage { return None, true; }
      doc, failed := None, false;
      if id in docs && docs[id].index == indexValue { doc := Some(docs[id]); }
    }

    /** The `limit` documents of an index value with the largest ids. */
    method Find(indexValue: int, limit: nat, outage: bool) returns (found: map<int, Doc>, failed: bool)
      ensures failed == outage && (failed ==> found == map[])
      ensures forall id :: id in found ==> id in Matching(docs, indexValue) && found[id] == docs[id]
      ensures !failed ==> IsTop(Matching(docs, indexValue), found.Keys, limit)
    {
      found, failed := map[], false;
      if outage { return map[], true; }
      var rest := Matching(docs, indexValue);
      while rest != {} && |found| < limit
        invariant found.Keys + rest == Matching(docs, indexValue)
        invariant found.Keys !! rest && |found| <= limit
        invariant forall id :: id in found ==> id in docs && found[id] == docs[id]
        invariant AllBelow(rest, found.Keys)
        decreases rest
      {
        var id := Largest(rest);
        LargestMoves(rest, found.Keys, id);
        found := found[id := docs[id]];
        rest := rest - {id};
      }
    }
  }

  ghost predicate AllBelow(low: set<int>, high: set<int>) {
    forall id, k :: id in high && k in low ==> k < id
  }

  lemma LargestMoves(low: set<int>, high: set<int>, x: int)
    requires AllBelow(low, high) && x in low && forall k :: k in low ==> k <= x
    ensures AllBelow(low - {x}, high + {x})
  {
  }

  /** `top` is all of `ids`, or the `limit` largest of them. */
  ghost predicate IsTop(ids: set<int>, top: set<int>, limit: nat) {
    && top <= ids
    && (forall id, k :: id in top && k in ids && k !in top ==> k < id)
    && |top| <= limit && (top == ids || |top| == limit)
  }

  lemma SubsetNotLarger(a: set<int>, b: set<int>)
    requires a <= b && a != b
    ensures |a| < |b|
  {
    assert b == a + (b - a) && b - a != {};
  }

  lemma TopWithin(ids: set<int>, a: set<int>, b: set<int>, limit: nat)
    requires IsTop(ids, a, limit) && IsTop(ids, b, limit)
    ensures a <= b
  {
    forall x | x in a ensures x in b {
      if x !in b {
        forall y | y in b ensures y in a { assert x < y; }
        assert b <= a;
        SubsetNotLarger(b, a);
        assert false;
      }
    }
  }

  /** There is only one such part. */
  lemma TopUnique(ids: set<int>, a: set<int>, b: set<int>, limit: nat)
    requires IsTop(ids, a, limit) && IsTop(ids, b, limit)
    ensures a == b
  {
    TopWithin(ids, a, b, limit);
    TopWithin(ids, b, a, limit);
  }

  method Largest(ids: set<int>) returns (id: int)
    requires ids != {}
    ensures id in ids && forall k :: k in ids ==> k <= id
  {
    var rest := ids;
    Inhabited(ids);
    id :| id in ids;
    while rest != {}
      invariant rest <= ids && id in ids
      invariant forall k :: k in ids && k !in rest ==> k <= id
      decreases rest
    {
      Inhabited(rest);
      var k :| k in rest;
      if k > id { id := k; }
      rest := rest - {k};
    }
  }

  class MultiDocRecorder {
    var upserts: map<int, Doc>
    var deletes: set<int>

    ghost function View(): Pending
      reads this
    {
      Pending(upserts, deletes)
    }

    constructor ()
      ensures View() == Pending(map[], {})
    {
      upserts, deletes := map[], {};
    }

    method Set(id: int, doc: Doc)
      modifies this
      ensures View() == WithUpsert(old(View()), id, doc)
    {
      upserts := upserts[id := doc];
      deletes := deletes - {id};
    }

    method Unset(id: int)
      modifies this
      ensures View() == WithDelete(old(View()), id)
    {
      deletes := deletes + {id};
      upserts := upserts - {id};
    }

    method SaveAll(data: map<int, Doc>)
      modifies this
      ensures View() == Pending(data, {})
    {
      upserts, deletes := data, {};
    }

    method HasChanges() returns (changed: bool)
      ensures changed <==> View() != Pending(map[], {})
    {
      changed := |upserts| > 0 || |deletes| > 0;
    }

    method Clear()
      modifies this
      ensures View() == Pending(map[], {})
    {
      upserts, deletes := map[], {};
    }

    /** One replace per upsert, then one delete per delete; a map hands out its
      * entries in no particular order. */
    method GenWriteModels() returns (models: seq<Model>)
      requires upserts.Keys !! deletes
      ensures IsBatch(models, View())
    {
      models := [];
      var ids := upserts.Keys;
      while ids != {}
        invariant ids <= upserts.Keys && DistinctIds(models)
        invariant forall m :: m in models <==>
                    m.ReplaceOne? && m.id in upserts && m.id !in ids && upserts[m.id] == m.doc
        decreases ids
      {
        Inhabited(ids);
        var id :| id in ids;
        forall i | 0 <= i < |models| ensures models[i].id != id { assert models[i] in models; }
        models := models + [ReplaceOne(id, upserts[id])];
        ids := ids - {id};
      }
      var gone := deletes;
      while gone != {}
        invariant gone <= deletes && DistinctIds(models)
        invariant forall m :: m in models <==>
                    if m.ReplaceOne? then m.id in upserts && upserts[m.id] == m.doc
                    else m.id in deletes && m.id !in gone
        decreases gone
      {
        Inhabited(gone);
        var id :| id in gone;
        forall i | 0 <= i < |models| ensures models[i].id != id { assert models[i] in models; }
        models := models + [DeleteOne(id)];
        gone := gone - {id};
      }
    }
  }

  class IndexPersister {
    const col: Collection?
    const record: MultiDocRecorder
    const limit: nat
    const decodes: Doc -> bool     // what the codec can read back
    var indexValue: Option<int>
    var data: map<int, Doc>
    var loaded: bool
    var mode: Mode
    ghost var known: set<int>      // ids loaded or touched

    ghost function Docs(): map<int, Doc>
      reads col
    {
      if col == null then map[] else col.docs
    }

    ghost predicate Valid()
      reads this, record, col
    {
      Consistent(known, data, record.View(), Docs())
    }

    constructor (col: Collection?, indexValue: Option<int>, limit: int, mode: Mode, decodes: Doc -> bool)
      ensures Valid() && this.col == col && fresh(record) && data == map[] && known == {}
              && !loaded && this.mode == mode && this.decodes == decodes
              && this.indexValue == indexValue && this.limit == if limit <= 0 then 100 else limit
    {
      this.decodes := decodes;
      this.col, this.indexValue, this.limit, this.mode := col, indexValue, (if limit <= 0 then 100 else limit), mode;
      record := new MultiDocRecorder();
      data, loaded, known := map[], false, {};
    }

    method AddUpdateOp(id: int, doc: Option<Doc>)
      requires Valid()
      modifies this`data, this`known, record
      ensures Valid()
      ensures mode == ReadOnly || doc.None? ==>
                data == old(data) && record.View() == old(record.View()) && known == old(known)
      ensures mode != ReadOnly && doc.Some? ==>
                && data == old(data)[id := doc.value] && known == old(known) + {id}
                && record.View() == WithUpsert(old(record.View()), id, doc.value)
    {
      if mode == ReadOnly { return; }
      if doc.None? { return; }
      UpsertKeeps(known, data, record.View(), Docs(), id, doc.value);
      data := data[id := doc.value];
      record.Set(id, doc.value);
      known := known + {id};
    }

    method AddUnsetOp(id: int)
      requires Valid()
      modifies this`data, this`known, record
      ensures Valid()
      ensures mode == ReadOnly ==>
                data == old(data) && record.View() == old(record.View()) && known == old(known)
      ensures mode != ReadOnly ==>
                && data == old(data) - {id} && known == old(known) + {id}
                && record.View() == WithDelete(old(record.View()), id)
    {
      if mode == ReadOnly { return; }
      DeleteKeeps(known, data, record.View(), Docs(), id);
      data := data - {id};
      record.Unset(id);
      known := known + {id};
    }

    method SetData(newData: map<int, Doc>)
      modifies this`data, this`loaded, this`known, record
      ensures mode == ReadOnly ==>
                data == old(data) && loaded == old(loaded) && known == old(known) && record.View() == old(record.View())
      ensures mode != ReadOnly ==>
                && loaded && data == newData
                && record.View() == Pending(newData, {}) && known == old(known) + newData.Keys
                && (Valid() <==> forall id :: id in old(known) && id !in newData ==> id !in Docs())
    {
      if mode == ReadOnly { return; }
      SetDataKeepsIff(known, Docs(), newData);
      loaded := true;
      data := newData;
      record.SaveAll(newData);
      known := known + newData.Keys;
    }

    /** A read goes to the database and comes back. */
    ghost predicate Asks(id: int, data: map<int, Doc>, outage: bool)
      reads this`indexValue
    {
      id !in data && col != null && indexValue.Some? && !outage
    }

    /** The database holds a document under this id and the persister's index value. */
    ghost predicate Held(id: int)
      reads this`indexValue, col
    {
      id in Docs() && Some(Docs()[id].index) == indexValue
    }

    /** Memory first, then one document from the database.  Memory and pending
      * changes stay in step exactly unless it fetched an id pending deletion. */
    method Get(id: int, outage: bool) returns (doc: Option<Doc>, err: Option<Error>)
      requires Valid()
      modifies this`data, this`known
      ensures Valid() <==> !(err.None? && id !in old(data) && id in record.deletes)
      ensures doc.Some? <==> err.None?
      ensures id in old(data) ==> doc == Some(old(data)[id]) && data == old(data) && known == old(known)
      ensures id !in old(data) && doc.Some? ==>
                && id in Docs() && doc.value == Docs()[id] && Some(doc.value.index) == indexValue && decodes(doc.value)
                && data == old(data)[id := doc.value] && known == old(known) + {id}
      ensures doc.None? ==> data == old(data) && known == old(known)
      ensures err == Some(NoCollection) <==> id !in old(data) && col == null
      ensures err == Some(NoIndexValue) <==> id !in old(data) && col != null && indexValue.None?
      ensures err == Some(Database) <==> id !in old(data) && col != null && indexValue.Some? && outage
      ensures err == Some(NotFound) <==> Asks(id, old(data), outage) && !Held(id)
      ensures err == Some(Codec) <==> Asks(id, old(data), outage) && Held(id) && !decodes(Docs()[id])
    {
      if id in data { return Some(data[id]), None; }
      if col == null { return None, Some(NoCollection); }
      if indexValue.None? { return None, Some(NoIndexValue); }
      var found, failed := col.FindOne(id, indexValue.value, outage);
      if failed { return None, Some(Database); }
      if found.None? { return None, Some(NotFound); }
      if !decodes(found.value) { return None, Some(Codec); }
      FetchKeepsIff(known, data, record.View(), Docs(), id);
      data := data[id := found.value];
      known := known + {id};
      return found, None;
    }

    /** Load: starts afresh with all documents of the index value, or the `limit`
      * of them with the largest ids, and drops whatever was pending. */
    method Load(outage: bool) returns (err: Option<Error>)
      requires Valid()
      modifies this`data, this`loaded, this`known, record
      ensures Valid()
      ensures err == Some(NoIndexValue) <==> !old(loaded) && indexValue.None?
      ensures err == Some(NoCollection) <==> !old(loaded) && indexValue.Some? && col == null
      ensures old(loaded) ==> err.None?
      ensures err == Some(Database) <==> !old(loaded) && indexValue.Some? && col != null && outage
      ensures err != Some(NotFound)
      ensures old(loaded) || err.Some? ==>
                data == old(data) && loaded == old(loaded) && known == old(known) && record.View() == old(record.View())
      ensures !old(loaded) && err.None? ==>
                && loaded && record.View() == Pending(map[], {}) && known == data.Keys && indexValue.Some?
                && (forall id :: id in data ==> Held(id) && Docs()[id] == data[id] && decodes(data[id]))
                && |data| <= limit
                && (forall id :: Held(id) && id !in data ==> |data| == limit && forall k :: k in data ==> id < k)
      ensures err == Some(Codec) <==>
                !old(loaded) && indexValue.Some? && col != null && !outage && Unreadable(indexValue.value)
    {
      if loaded { return None; }
      if indexValue.None? { return Some(NoIndexValue); }
      if col == null { return Some(NoCollection); }
      var found, failed := col.Find(indexValue.value, limit, outage);
      if failed { return Some(Database); }
      forall top | IsTop(Matching(Docs(), indexValue.value), top, limit) ensures top == found.Keys {
        TopUnique(Matching(Docs(), indexValue.value), top, found.Keys, limit);
      }
      var readable := DecodeAll(found);
      if !readable { return Some(Codec); }
      assert forall id :: Held(id) <==> id in Matching(Docs(), indexValue.value);
      data := found;
      record.Clear();
      loaded := true;
      known := data.Keys;
      return None;
    }

    /** One of the documents to be loaded does not decode. */
    ghost predicate Unreadable(indexValue: int)
      reads col
    {
      exists top: set<int>, id ::
        IsTop(Matching(Docs(), indexValue), top, limit) && id in top && id in Docs() && !decodes(Docs()[id])
    }

    method DecodeAll(found: map<int, Doc>) returns (ok: bool)
      ensures ok <==> forall id :: id in found ==> decodes(found[id])
    {
      var rest := found.Keys;
      while rest != {}
        invariant rest <= found.Keys && forall id :: id in found && id !in rest ==> decodes(found[id])
        decreases rest
      {
        Inhabited(rest);
        var id :| id in rest;
        if !decodes(found[id]) { return false; }
        rest := rest - {id};
      }
      return true;
    }

    /** Save has something to write. */
    ghost predicate Saves()
      reads this, record
    {
      mode != ReadOnly && (loaded || mode == NoDefaultLoad) && record.View() != Pending(map[], {})
    }

    /** Save.  A success brings the database to what is in memory on every known
      * id; a failure of any kind keeps the pending changes for the next try. */
    method Save(codecFails: bool, outage: bool) returns (err: Option<Error>)
      requires Valid() && (Saves() ==> col != null)
      modifies record, col
      ensures Valid()
      ensures err == Some(Codec) <==> old(Saves()) && codecFails
      ensures err == Some(Database) <==> old(Saves()) && !codecFails && outage
      ensures err.None? || err == Some(Codec) || err == Some(Database)
      ensures !old(Saves()) ==> err.None? && Docs() == old(Docs()) && record.View() == old(record.View())
      ensures mode != ReadOnly && (loaded || mode == NoDefaultLoad) && err.None? ==>
                && Docs() == Applied(old(Docs()), old(record.View())) && record.View() == Pending(map[], {})
                && forall id :: id in known ==> Lookup(Docs(), id) == Lookup(data, id)
      ensures err.Some? ==>
                && record.View() == old(record.View())
                && Applied(Docs(), record.View()) == Applied(old(Docs()), record.View())
    {
      if mode == ReadOnly { return None; }
      if !loaded && mode != NoDefaultLoad { return None; }
      var changed := record.HasChanges();
      if !changed {
        SameDocs(Applied(Docs(), record.View()), Docs());
        return None;
      }
      if codecFails { return Some(Codec); }
      var models := record.GenWriteModels();
      err := Flush(models, outage);
    }

    method Flush(models: seq<Model>, outage: bool) returns (err: Option<Error>)
      requires Valid() && IsBatch(models, record.View()) && col != null
      modifies record, col
      ensures Valid() && err == if outage then Some(Database) else None
      ensures err.None? ==>
                col.docs == Applied(old(col.docs), old(record.View())) && record.View() == Pending(map[], {})
      ensures err.Some? ==>
                && record.View() == old(record.View())
                && Applied(col.docs, record.View()) == Applied(old(col.docs), record.View())
    {
      ghost var p, docs := record.View(), col.docs;
      var ok, part := col.BulkWrite(models, outage);
      PartKeeps(known, data, p, docs, models, part);
      PartThenApplied(docs, p, models, part);
      if !ok { return Some(Database); }
      OrderIndependent(docs, part, models);
      BatchIsApplied(docs, p, models);
      WholeClears(known, data, p, docs);
      record.Clear();
      return None;
    }
  }

  /** A document is loaded, its deletion recorded, and then it is read: it is back
    * in memory while the delete still stands. */
  lemma GetRevivesDeleted(doc: Doc)
    ensures var none, docs := Pending(map[], {}), map[1 := doc];
            var deleted := WithDelete(none, 1);
            && Consistent({1}, docs, none, docs) && Consistent({1}, docs - {1}, deleted, docs)
            && 1 !in docs - {1} && !Consistent({1}, (docs - {1})[1 := docs[1]], deleted, docs)
            && 1 !in Applied(docs, deleted)
  {
    var none, docs := Pending(map[], {}), map[1 := doc];
    SameDocs(Applied(docs, none), docs);
    DeleteKeeps({1}, docs, none, docs, 1);
    assert {1} + {1} == {1};
    FetchKeepsIff({1}, docs - {1}, WithDelete(none, 1), docs, 1);
  }

  /** Two documents are loaded and the map replaced by one of them: the other
    * stays in the database. */
  lemma SetDataDeletesNothing(doc: Doc)
    ensures var none, docs, data := Pending(map[], {}), map[1 := doc, 2 := doc], map[1 := doc];
            && Consistent({1, 2}, docs, none, docs)
            && !Consistent({1, 2}, data, Pending(data, {}), docs) && 2 in Applied(docs, Pending(data, {}))
  {
    var none, docs, data := Pending(map[], {}), map[1 := doc, 2 := doc], map[1 := doc];
    SameDocs(Applied(docs, none), docs);
    SetDataKeepsIff({1, 2}, docs, data);
    assert {1, 2} + data.Keys == {1, 2};
    assert 2 in {1, 2} && 2 !in data && 2 in docs;
  }

  /** A half-applied batch does not change where the pending changes lead. */
  lemma PartThenApplied(docs: map<int, Doc>, p: Pending, models: seq<Model>, part: seq<Model>)
    requires IsBatch(models, p) && p.upserts.Keys !! p.deletes
    requires DistinctIds(part) && forall m :: m in part ==> m in models
    ensures Applied(WriteAll(docs, part), p) == Applied(docs, p)
  {
    RetryConverges(docs, part, models, models);
    BatchIsApplied(WriteAll(docs, part), p, models);
    BatchIsApplied(docs, p, models);
  }
}
