/**
 * The rows and objects a module installation keeps, and what publishing documents and storing assets
 * does to them (apps/seed/src/catalogue-seeder.ts, packages/module-distribution/src/import.ts). An id
 * is a number from a fresh-value source that has only handed out numbers below `next`.
 */
module ModuleCatalogue {
  import opened Options

  datatype Attribution = Attribution(author: string, licence: string, sourceUrl: Option<string>)

  datatype Document = Document(alias: string, version: string, attribution: Attribution, body: string)

  datatype Row = Row(id: nat, document: Document)

  datatype Stored = Stored(body: string, contentType: string)

  datatype Asset = Asset(key: string, stored: Stored)

  type Objects = map<string, Stored>

  // ----- A table of published documents -----

  predicate Has(rows: seq<Row>, alias: string, version: string)
  {
    exists i :: 0 <= i < |rows| && rows[i].document.alias == alias && rows[i].document.version == version
  }

  predicate HasAlias(rows: seq<Row>, alias: string) { exists i :: 0 <= i < |rows| && rows[i].document.alias == alias }

  /** All versions of an alias share one id, no two aliases do, and a version is published once. */
  predicate Coherent(rows: seq<Row>, next: nat)
  {
    (forall i :: 0 <= i < |rows| ==> rows[i].id < next)
    && (forall i, j :: 0 <= i < |rows| && 0 <= j < |rows| ==>
          (rows[i].document.alias == rows[j].document.alias <==> rows[i].id == rows[j].id))
    && (forall i, j :: 0 <= i < j < |rows| && rows[i].document.alias == rows[j].document.alias ==>
          rows[i].document.version != rows[j].document.version)
  }

  function IdOf(rows: seq<Row>, alias: string): (id: Option<nat>)
    ensures id.Some? <==> HasAlias(rows, alias)
    ensures id.Some? ==> exists i :: 0 <= i < |rows| && rows[i].document.alias == alias && rows[i].id == id.value
  {
    if rows == [] then None
    else if rows[|rows| - 1].document.alias == alias then Some(rows[|rows| - 1].id)
    else IdOf(rows[..|rows| - 1], alias)
  }

  /** A table and the next fresh id. */
  datatype Table = Table(rows: seq<Row>, next: nat)

  function PublishOne(t: Table, d: Document): Table
  {
    if Has(t.rows, d.alias, d.version) then t
    else
      match IdOf(t.rows, d.alias)
      case Some(id) => Table(t.rows + [Row(id, d)], t.next)
      case None => Table(t.rows + [Row(t.next, d)], t.next + 1)
  }

  /** Every document that is not there yet gets a row, under the id its alias has or a new one. */
  function Publish(t: Table, docs: seq<Document>): Table
    decreases docs
  {
    if docs == [] then t else Publish(PublishOne(t, docs[0]), docs[1..])
  }

  datatype Kind = Discipline | Profile

  datatype Status = Installed | Skipped

  datatype Seeded = Seeded(kind: Kind, alias: string, version: string, status: Status)

  function Report(kind: Kind, t: Table, docs: seq<Document>): seq<Seeded>
    decreases docs
  {
    if docs == [] then []
    else
      [Seeded(kind, docs[0].alias, docs[0].version, if Has(t.rows, docs[0].alias, docs[0].version) then Skipped else Installed)]
      + Report(kind, PublishOne(t, docs[0]), docs[1..])
  }

  /** No row of the document's alias has another attribution. */
  predicate Available(rows: seq<Row>, d: Document)
  {
    forall i :: 0 <= i < |rows| && rows[i].document.alias == d.alias ==> rows[i].document.attribution == d.attribution
  }

  predicate AllAvailable(rows: seq<Row>, docs: seq<Document>)
  {
    forall i :: 0 <= i < |docs| ==> Available(rows, docs[i])
  }

  lemma {:induction false} AliasHasOneId(rows: seq<Row>, next: nat, i: nat)
    requires Coherent(rows, next) && i < |rows|
    ensures IdOf(rows, rows[i].document.alias) == Some(rows[i].id)
  {
    hide IdOf;
    var alias := rows[i].document.alias;
    assert HasAlias(rows, alias);
    var id := IdOf(rows, alias);
    var k :| 0 <= k < |rows| && rows[k].document.alias == alias && rows[k].id == id.value;
    assert rows[i].document.alias == rows[k].document.alias;
  }

  lemma CoherentMore(t: Table, d: Document)
    requires Coherent(t.rows, t.next)
    ensures Coherent(PublishOne(t, d).rows, PublishOne(t, d).next)
    ensures t.next <= PublishOne(t, d).next && t.rows <= PublishOne(t, d).rows
    ensures Has(PublishOne(t, d).rows, d.alias, d.version)
  {
    hide IdOf;
    var p := PublishOne(t, d);
    if !Has(t.rows, d.alias, d.version) {
      var n := |t.rows|;
      assert p.rows[n].document == d && p.rows[..n] == t.rows;
      var id := IdOf(t.rows, d.alias);
      if id.Some? {
        var k :| 0 <= k < n && t.rows[k].document.alias == d.alias && t.rows[k].id == id.value;
        CoherentUnder(t, d, k);
      } else {
        assert forall i :: 0 <= i < n ==> t.rows[i].document.alias != d.alias;
      }
    }
  }

  lemma CoherentUnder(t: Table, d: Document, k: nat)
    requires Coherent(t.rows, t.next) && k < |t.rows| && t.rows[k].document.alias == d.alias
    requires !Has(t.rows, d.alias, d.version)
    ensures Coherent(t.rows + [Row(t.rows[k].id, d)], t.next)
  {
    var n := |t.rows|;
    var rows := t.rows + [Row(t.rows[k].id, d)];
    forall i | 0 <= i < n
      ensures rows[i].document.alias == rows[n].document.alias <==> rows[i].id == rows[n].id
      ensures rows[i].document.alias == rows[n].document.alias ==> rows[i].document.version != rows[n].document.version
    {
      assert t.rows[i].document.alias == t.rows[k].document.alias <==> t.rows[i].id == t.rows[k].id;
    }
  }

  /**
   * One document, on the rows themselves: nothing changes if a row has its alias and version, and
   * otherwise it is added, under the id of any row of its alias, or under the next id if there is none.
   */
  lemma PublishOneExactly(t: Table, d: Document, k: nat)
    requires Coherent(t.rows, t.next) && k < |t.rows|
    ensures t.rows[k].document.alias == d.alias && t.rows[k].document.version == d.version ==> PublishOne(t, d) == t
    ensures (forall i :: 0 <= i < |t.rows| ==> t.rows[i].document.alias != d.alias || t.rows[i].document.version != d.version)
            && t.rows[k].document.alias == d.alias
            ==> PublishOne(t, d) == Table(t.rows + [Row(t.rows[k].id, d)], t.next)
  {
    hide IdOf, Coherent;
    AliasHasOneId(t.rows, t.next, k);
  }

  lemma PublishNewExactly(t: Table, d: Document)
    requires forall i :: 0 <= i < |t.rows| ==> t.rows[i].document.alias != d.alias
    ensures PublishOne(t, d) == Table(t.rows + [Row(t.next, d)], t.next + 1)
  {
    hide IdOf;
  }

  /** Publishing keeps the table coherent, keeps its rows, and leaves every document in it. */
  lemma {:induction false} PublishKeepsCoherent(t: Table, docs: seq<Document>)
    requires Coherent(t.rows, t.next)
    ensures Coherent(Publish(t, docs).rows, Publish(t, docs).next)
    ensures t.next <= Publish(t, docs).next && t.rows <= Publish(t, docs).rows
    ensures forall i :: 0 <= i < |docs| ==> Has(Publish(t, docs).rows, docs[i].alias, docs[i].version)
    decreases docs
  {
    hide Coherent, PublishOne, Has;
    if docs != [] {
      CoherentMore(t, docs[0]);
      var one := PublishOne(t, docs[0]);
      PublishKeepsCoherent(one, docs[1..]);
      HasInMore(one.rows, Publish(t, docs).rows, docs[0].alias, docs[0].version);
      assert forall i :: 0 < i < |docs| ==> docs[i] == docs[1..][i - 1];
    }
  }

  lemma HasInMore(rows: seq<Row>, more: seq<Row>, alias: string, version: string)
    requires rows <= more && Has(rows, alias, version)
    ensures Has(more, alias, version)
  {
    var i :| 0 <= i < |rows| && rows[i].document.alias == alias && rows[i].document.version == version;
    assert more[i] == rows[i];
  }

  /** Publishing what is already there writes nothing and reports only skips. */
  lemma {:induction false} PresentIsSkipped(kind: Kind, t: Table, docs: seq<Document>)
    requires forall i :: 0 <= i < |docs| ==> Has(t.rows, docs[i].alias, docs[i].version)
    ensures Publish(t, docs) == t
    ensures forall s :: s in Report(kind, t, docs) ==> s.status == Skipped
    decreases docs
  {
    hide Has;
    if docs != [] {
      assert forall i :: 0 <= i < |docs[1..]| ==> docs[1..][i] == docs[i + 1];
      PresentIsSkipped(kind, t, docs[1..]);
    }
  }

  /** A second seeding writes nothing, takes no id, and reports only skips. */
  lemma SecondSeedSkips(kind: Kind, t: Table, docs: seq<Document>)
    requires Coherent(t.rows, t.next)
    ensures var first := Publish(t, docs);
            Publish(first, docs) == first && forall s :: s in Report(kind, first, docs) ==> s.status == Skipped
  {
    hide Coherent, Publish, Report, Has;
    PublishKeepsCoherent(t, docs);
    PresentIsSkipped(kind, Publish(t, docs), docs);
  }

  // ----- When a second seed passes the reserved-alias check -----

  /** The catalogue gives each alias one attribution. */
  predicate OneHolder(docs: seq<Document>)
  {
    forall i, j :: 0 <= i < |docs| && 0 <= j < |docs| && docs[i].alias == docs[j].alias ==> docs[i].attribution == docs[j].attribution
  }

  lemma {:induction false} PublishedFrom(t: Table, docs: seq<Document>)
    ensures forall r :: r in Publish(t, docs).rows ==> r in t.rows || r.document in docs
    ensures forall r :: r in t.rows ==> r in Publish(t, docs).rows
    decreases docs
  {
    hide Has;
    if docs != [] {
      PublishedFrom(PublishOne(t, docs[0]), docs[1..]);
      assert forall d :: d in docs[1..] ==> d in docs;
    }
  }

  /**
   * After a first seed of documents that were available, the same documents are available again
   * exactly if the catalogue gives each alias one attribution.
   */
  lemma AvailableAgainExactly(t: Table, docs: seq<Document>)
    requires Coherent(t.rows, t.next) && AllAvailable(t.rows, docs)
    ensures AllAvailable(Publish(t, docs).rows, docs) <==> OneHolder(docs)
  {
    hide Coherent, Publish;
    var rows := Publish(t, docs).rows;
    PublishKeepsCoherent(t, docs);
    PublishedFrom(t, docs);
    if AllAvailable(rows, docs) {
      forall i, j | 0 <= i < |docs| && 0 <= j < |docs| && docs[i].alias == docs[j].alias
        ensures docs[i].attribution == docs[j].attribution
      {
        assert Has(rows, docs[i].alias, docs[i].version);
        assert Available(rows, docs[i]) && Available(rows, docs[j]);
      }
    }
    if OneHolder(docs) {
      forall i, k | 0 <= i < |docs| && 0 <= k < |rows| && rows[k].document.alias == docs[i].alias
        ensures rows[k].document.attribution == docs[i].attribution
      {
        assert rows[k] in rows;
        if rows[k] in t.rows { assert Available(t.rows, docs[i]); }
      }
    }
  }

  /**
   * A document published from elsewhere leaves the catalogue's documents available exactly if its
   * version was there before or no document of the catalogue has its alias under another attribution:
   * a module that holds an alias which a later catalogue reserves makes that catalogue's seed refuse.
   */
  lemma AvailableBehindExactly(t: Table, d: Document, docs: seq<Document>)
    ensures AllAvailable(PublishOne(t, d).rows, docs) <==>
            AllAvailable(t.rows, docs)
            && (Has(t.rows, d.alias, d.version)
                || forall i :: 0 <= i < |docs| && docs[i].alias == d.alias ==> docs[i].attribution == d.attribution)
  {
    hide IdOf, Has;
    var rows := PublishOne(t, d).rows;
    if !Has(t.rows, d.alias, d.version) {
      var n := |t.rows|;
      assert |rows| == n + 1 && rows[n].document == d && rows[..n] == t.rows;
      forall i | 0 <= i < |docs|
        ensures Available(rows, docs[i])
                <==> Available(t.rows, docs[i]) && (docs[i].alias == d.alias ==> docs[i].attribution == d.attribution)
      {
        OneMoreAvailable(t.rows, rows[n], docs[i]);
        assert rows == t.rows + [rows[n]];
      }
    }
  }

  lemma OneMoreAvailable(rows: seq<Row>, row: Row, d: Document)
    ensures Available(rows + [row], d)
            <==> Available(rows, d) && (row.document.alias == d.alias ==> row.document.attribution == d.attribution)
  {
    var more := rows + [row];
    assert more[|rows|] == row;
    assert forall i :: 0 <= i < |rows| ==> more[i] == rows[i];
  }

  // ----- The object store -----

  /** Puts in order. */
  function PutAll(objects: Objects, assets: seq<Asset>): Objects
    decreases assets
  {
    if assets == [] then objects else PutAll(objects[assets[0].key := assets[0].stored], assets[1..])
  }

  function KeysOf(assets: seq<Asset>): set<string> { set a | a in assets :: a.key }

  /** Puts, and then the deletion of every key put but those whose deletion fails. */
  function Undone(objects: Objects, uploaded: seq<Asset>, undeletable: set<string>): Objects
  {
    PutAll(objects, uploaded) - (KeysOf(uploaded) - undeletable)
  }

  /** Puts of the assets that are missing. */
  function Ensured(objects: Objects, assets: seq<Asset>): Objects
    decreases assets
  {
    if assets == [] then objects
    else Ensured(if assets[0].key in objects then objects else objects[assets[0].key := assets[0].stored], assets[1..])
  }

  lemma {:induction false} PutAllLooksUp(objects: Objects, assets: seq<Asset>)
    ensures PutAll(objects, assets).Keys == objects.Keys + KeysOf(assets)
    ensures forall k :: k in objects && k !in KeysOf(assets) ==> PutAll(objects, assets)[k] == objects[k]
    decreases assets
  {
    if assets != [] {
      PutAllLooksUp(objects[assets[0].key := assets[0].stored], assets[1..]);
      assert KeysOf(assets) == {assets[0].key} + KeysOf(assets[1..]) by {
        assert forall a :: a in assets <==> a == assets[0] || a in assets[1..];
      }
    }
  }

  /** An upload that is undone leaves the store as it was exactly if none of its keys was in it. */
  lemma RestoredExactly(objects: Objects, uploaded: seq<Asset>)
    ensures Undone(objects, uploaded, {}) == objects <==> KeysOf(uploaded) !! objects.Keys
  {
    hide PutAll, KeysOf;
    PutAllLooksUp(objects, uploaded);
    var after := Undone(objects, uploaded, {});
    assert after.Keys == objects.Keys - KeysOf(uploaded);
  }

  /** Undoing an upload of keys that were there deletes them. */
  lemma UndoneDeletes(objects: Objects, uploaded: seq<Asset>)
    ensures Undone(objects, uploaded, {}) == objects - KeysOf(uploaded)
  {
    hide PutAll, KeysOf;
    PutAllLooksUp(objects, uploaded);
  }

  /** Assets that are all there are not put again. */
  lemma {:induction false} EnsuredKeys(objects: Objects, assets: seq<Asset>)
    ensures Ensured(objects, assets).Keys == objects.Keys + KeysOf(assets)
    ensures forall k :: k in objects ==> Ensured(objects, assets)[k] == objects[k]
    decreases assets
  {
    if assets != [] {
      var one := if assets[0].key in objects then objects else objects[assets[0].key := assets[0].stored];
      EnsuredKeys(one, assets[1..]);
      FirstKey(assets);
    }
  }

  lemma FirstKey(assets: seq<Asset>)
    requires assets != []
    ensures KeysOf(assets) == {assets[0].key} + KeysOf(assets[1..])
  {
    assert forall a :: a in assets <==> a == assets[0] || a in assets[1..];
  }

  lemma {:induction false} PresentAreKept(objects: Objects, assets: seq<Asset>)
    requires KeysOf(assets) <= objects.Keys
    ensures Ensured(objects, assets) == objects
    decreases assets
  {
    if assets != [] {
      FirstKey(assets);
      PresentAreKept(objects, assets[1..]);
    }
  }

  lemma EnsuredTwice(objects: Objects, assets: seq<Asset>)
    ensures forall k :: k in objects ==> k in Ensured(objects, assets) && Ensured(objects, assets)[k] == objects[k]
    ensures Ensured(Ensured(objects, assets), assets) == Ensured(objects, assets)
  {
    hide Ensured, KeysOf;
    EnsuredKeys(objects, assets);
    PresentAreKept(Ensured(objects, assets), assets);
  }
}
