/** A document collection as the consent engine uses one: documents in insertion order, keyed by
  * a unique `_id`. Every call may fail, with or without having taken effect. */
module Collection {

  datatype Doc<+T> = Doc(id: string, body: T)

  /** Fate of one remote call: carried out and reported so, not carried out, or carried out but
    * reported as an error (the acknowledgement was lost). */
  datatype Fate = Done | Lost | Unacknowledged

  predicate HasId<T(==)>(docs: seq<Doc<T>>, id: string) {
    exists d :: d in docs && d.id == id
  }

  predicate UniqueIds<T>(docs: seq<Doc<T>>) {
    forall i, j :: 0 <= i < j < |docs| ==> docs[i].id != docs[j].id
  }

  /** `insert_one`: the unique index never admits a second document with the same id. */
  function InsertOne<T(==)>(docs: seq<Doc<T>>, doc: Doc<T>, fate: Fate): seq<Doc<T>> {
    if fate.Lost? || HasId(docs, doc.id) then docs else docs + [doc]
  }

  /** `delete_one` by id: the first match goes; deleting nothing is not an error. */
  function Without<T>(docs: seq<Doc<T>>, id: string): seq<Doc<T>> {
    if docs == [] then []
    else if docs[0].id == id then docs[1..]
    else [docs[0]] + Without(docs[1..], id)
  }

  function DeleteOne<T>(docs: seq<Doc<T>>, id: string, fate: Fate): seq<Doc<T>> {
    if fate.Lost? then docs else Without(docs, id)
  }

  /** An insert loses nothing and appends one document exactly if it takes effect and the id is new;
    * whatever became of it, deleting the id again leaves the collection without that id as it was. */
  lemma InsertIsExact<T>(docs: seq<Doc<T>>, doc: Doc<T>, fate: Fate)
    requires UniqueIds(docs)
    ensures var r := InsertOne(docs, doc, fate);
            && UniqueIds(r)
            && (r == docs || r == docs + [doc])
            && (doc in r <==> doc in docs || !(fate.Lost? || HasId(docs, doc.id)))
            && (HasId(r, doc.id) <==> HasId(docs, doc.id) || !fate.Lost?)
            && Without(r, doc.id) == Without(docs, doc.id)
  {
    var r := InsertOne(docs, doc, fate);
    if r != docs {
      assert r[|docs|] == doc;
      WithoutAppended(docs, doc);
    }
  }

  /** What is appended under a new id is what deleting that id takes away. */
  lemma {:induction false} WithoutAppended<T>(docs: seq<Doc<T>>, doc: Doc<T>)
    requires !HasId(docs, doc.id)
    ensures Without(docs, doc.id) == docs == Without(docs + [doc], doc.id)
  {
    if docs == [] {
      assert (docs + [doc])[1..] == [];
    } else {
      assert docs[0] in docs && forall d :: d in docs[1..] ==> d in docs;
      WithoutAppended(docs[1..], doc);
      assert (docs + [doc])[1..] == docs[1..] + [doc];
    }
  }

  lemma {:induction false} WithoutMember<T>(docs: seq<Doc<T>>, id: string, d: Doc<T>)
    requires UniqueIds(docs)
    ensures d in Without(docs, id) <==> d in docs && d.id != id
  {
    if docs != [] {
      assert docs == [docs[0]] + docs[1..];
      if docs[0].id != id {
        WithoutMember(docs[1..], id, d);
      }
    }
  }

  lemma {:induction false} WithoutKeepsUnique<T>(docs: seq<Doc<T>>, id: string)
    requires UniqueIds(docs)
    ensures UniqueIds(Without(docs, id))
  {
    if docs != [] && docs[0].id != id {
      var rest := Without(docs[1..], id);
      WithoutKeepsUnique(docs[1..], id);
      forall i | 0 <= i < |rest|
        ensures rest[i].id != docs[0].id
      {
        WithoutMember(docs[1..], id, rest[i]);
      }
    }
  }

  /** The first document with this id is at `k`, and deleting the id closes the gap. */
  ghost predicate CutAt<T>(docs: seq<Doc<T>>, id: string, k: nat) {
    && k < |docs| && docs[k].id == id
    && (forall j :: 0 <= j < k ==> docs[j].id != id)
    && Without(docs, id) == docs[..k] + docs[k + 1..]
  }

  lemma CutDeeper<T>(docs: seq<Doc<T>>, id: string, k: nat)
    requires docs != [] && docs[0].id != id && CutAt(docs[1..], id, k)
    ensures CutAt(docs, id, k + 1)
  {
    assert docs[k + 1] == docs[1..][k];
    assert docs[..k + 1] == [docs[0]] + docs[1..][..k] && docs[k + 2..] == docs[1..][k + 1..];
  }

  lemma {:induction false} WithoutCutsOne<T>(docs: seq<Doc<T>>, id: string)
    ensures Without(docs, id) == docs || exists k: nat :: CutAt(docs, id, k)
  {
    if docs != [] && docs[0].id == id {
      assert CutAt(docs, id, 0);
    } else if docs != [] {
      WithoutCutsOne(docs[1..], id);
      if k: nat :| CutAt(docs[1..], id, k) {
        CutDeeper(docs, id, k);
      }
    }
  }

  lemma WithoutMembers<T>(docs: seq<Doc<T>>, id: string)
    requires UniqueIds(docs)
    ensures UniqueIds(Without(docs, id))
    ensures forall d :: d in Without(docs, id) <==> d in docs && d.id != id
  {
    forall d
      ensures d in Without(docs, id) <==> d in docs && d.id != id
    {
      WithoutMember(docs, id, d);
    }
    WithoutKeepsUnique(docs, id);
  }

  /** Deleting by id takes out exactly the document with that id and keeps the others in order. */
  lemma WithoutIsExact<T>(docs: seq<Doc<T>>, id: string)
    requires UniqueIds(docs)
    ensures UniqueIds(Without(docs, id))
    ensures forall d :: d in Without(docs, id) <==> d in docs && d.id != id
    ensures if HasId(docs, id) then exists k: nat :: CutAt(docs, id, k) else Without(docs, id) == docs
  {
    WithoutMembers(docs, id);
    WithoutCutsOne(docs, id);
  }

  function IdSet<T(==)>(docs: seq<Doc<T>>): set<string> {
    set d | d in docs :: d.id
  }

  lemma WithoutDropsId<T>(docs: seq<Doc<T>>, id: string)
    requires UniqueIds(docs)
    ensures IdSet(Without(docs, id)) == IdSet(docs) - {id}
  {
    WithoutMembers(docs, id);
    var rest := Without(docs, id);
    forall x | x in IdSet(docs) && x != id
      ensures x in IdSet(rest)
    {
      var d :| d in docs && d.id == x;
      assert d in rest;
    }
    forall x | x in IdSet(rest)
      ensures x in IdSet(docs) && x != id
    {
      var d :| d in rest && d.id == x;
      assert d in docs;
    }
  }

  /** The same documents with their bodies seen through `f`. */
  function Mapped<S, T>(docs: seq<Doc<S>>, f: S -> T): (r: seq<Doc<T>>)
    ensures |r| == |docs| && forall i :: 0 <= i < |docs| ==> r[i] == Doc(docs[i].id, f(docs[i].body))
  {
    seq(|docs|, i requires 0 <= i < |docs| => Doc(docs[i].id, f(docs[i].body)))
  }

  lemma MappedHasId<S, T>(docs: seq<Doc<S>>, f: S -> T, id: string)
    ensures HasId(Mapped(docs, f), id) <==> HasId(docs, id)
  {
    var r := Mapped(docs, f);
    forall i | 0 <= i < |docs|
      ensures r[i] in r && docs[i] in docs
    {
    }
  }

  lemma {:induction false} WithoutMapped<S, T>(docs: seq<Doc<S>>, f: S -> T, id: string)
    ensures Without(Mapped(docs, f), id) == Mapped(Without(docs, id), f)
  {
    if docs != [] {
      assert Mapped(docs, f)[1..] == Mapped(docs[1..], f);
      WithoutMapped(docs[1..], f, id);
    }
  }
}
