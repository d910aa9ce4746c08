/**
 * Seeding the first-party catalogue (apps/seed/src/catalogue-seeder.ts) and importing a community
 * module (packages/module-distribution/src/import.ts): objects are stored before the transaction
 * opens and deleted again if anything behind them fails.
 *
 * Every call to the database, the file system or the object store may fail. `left` counts the calls
 * that still succeed, so a statement for every value of `left` holds for every point of failure. A
 * store call that fails has no effect. Deletions on the way out fail for the keys of `undeletable`.
 */
module ModuleInstall {
  import opened Options
  import opened Text
  import opened ModuleCatalogue

  datatype Catalogue = Catalogue(disciplines: seq<Document>, profiles: seq<Document>, assets: seq<Asset>, reservedAliases: seq<string>)

  datatype Module = Module(kind: Kind, document: Document, documentId: nat)

  /** A file of the package: its path under the assets directory and what is stored of it. */
  datatype File = File(path: string, stored: Stored)

  datatype AssetRow = AssetRow(alias: string, version: string, key: string)

  predicate HasModule(modules: seq<Module>, alias: string, version: string)
  {
    exists i :: 0 <= i < |modules| && modules[i].document.alias == alias && modules[i].document.version == version
  }

  /** No installed module of the alias has another attribution. */
  predicate Unheld(modules: seq<Module>, d: Document)
  {
    forall i :: 0 <= i < |modules| && modules[i].document.alias == d.alias ==> modules[i].document.attribution == d.attribution
  }

  /** A version is installed once, and the modules of an alias have one attribution. */
  predicate OneHolderEach(modules: seq<Module>)
  {
    forall i, j :: 0 <= i < j < |modules| && modules[i].document.alias == modules[j].document.alias ==>
      modules[i].document.version != modules[j].document.version
      && modules[i].document.attribution == modules[j].document.attribution
  }

  lemma HasModuleExactly(modules: seq<Module>, alias: string, version: string)
    ensures HasModule(modules, alias, version)
            <==> (alias, version) in set i | 0 <= i < |modules| :: (modules[i].document.alias, modules[i].document.version)
  {
  }

  lemma OneHolderMore(modules: seq<Module>, m: Module)
    requires OneHolderEach(modules) && Unheld(modules, m.document)
    requires !HasModule(modules, m.document.alias, m.document.version)
    ensures OneHolderEach(modules + [m])
  {
  }

  predicate NamesRow(m: Module, descriptors: seq<Row>, profiles: seq<Row>)
  {
    var rows := if m.kind == Discipline then descriptors else profiles;
    exists i :: 0 <= i < |rows| && rows[i].document.alias == m.document.alias
                && rows[i].document.version == m.document.version && rows[i].id == m.documentId
  }

  function ObjectKey(d: Document, path: string): string { "modules/" + d.alias + "/" + d.version + "/" + path }

  predicate SlashFree(d: Document) { '/' !in d.alias && '/' !in d.version }

  /** Where a module's file is stored: under `modules`, its alias, its version and its path. */
  lemma KeyParts(d: Document, path: string)
    requires SlashFree(d)
    ensures Split(ObjectKey(d, path), '/') == ["modules", d.alias, d.version] + Split(path, '/')
  {
    hide Split;
    SplitAppend(d.version, '/', path);
    SplitAppend(d.alias, '/', d.version + ['/'] + path);
    SplitAppend("modules", '/', d.alias + ['/'] + (d.version + ['/'] + path));
    assert ObjectKey(d, path) == "modules" + ['/'] + (d.alias + ['/'] + (d.version + ['/'] + path));
    assert ["modules"] + ([d.alias] + ([d.version] + Split(path, '/'))) == ["modules", d.alias, d.version] + Split(path, '/');
  }

  /** Two files have one key exactly if alias, version and path agree. */
  lemma KeysAgreeExactly(d: Document, path: string, e: Document, other: string)
    requires SlashFree(d) && SlashFree(e)
    ensures ObjectKey(d, path) == ObjectKey(e, other) <==> d.alias == e.alias && d.version == e.version && path == other
  {
    hide Split, ObjectKey;
    if ObjectKey(d, path) == ObjectKey(e, other) {
      KeyParts(d, path);
      KeyParts(e, other);
      var p, q := Split(path, '/'), Split(other, '/');
      var a, b := ["modules", d.alias, d.version] + p, ["modules", e.alias, e.version] + q;
      assert a[1] == d.alias && a[2] == d.version && a[3..] == p;
      assert b[1] == e.alias && b[2] == e.version && b[3..] == q;
      JoinSplit(path, '/');
      JoinSplit(other, '/');
    } else if d.alias == e.alias && d.version == e.version && path == other {
      SameKey(d, e, path);
    }
  }

  lemma SameKey(d: Document, e: Document, path: string)
    requires d.alias == e.alias && d.version == e.version
    ensures ObjectKey(d, path) == ObjectKey(e, path)
  {
  }

  /** Every object of another alias or version is still there, and the same. */
  ghost predicate OthersKept(d: Document, before: Objects, after: Objects)
  {
    forall e: Document, path: string ::
      SlashFree(e) && (e.alias != d.alias || e.version != d.version) && ObjectKey(e, path) in before
      ==> ObjectKey(e, path) in after && after[ObjectKey(e, path)] == before[ObjectKey(e, path)]
  }

  lemma NothingChanged(d: Document, objects: Objects)
    ensures OthersKept(d, objects, objects)
  {
  }

  lemma UploadsKeepOthers(d: Document, files: seq<File>, uploaded: seq<Asset>, before: Objects, undeletable: set<string>)
    requires SlashFree(d) && uploaded <= Uploads(d, files)
    ensures OthersKept(d, before, PutAll(before, uploaded)) && OthersKept(d, before, Undone(before, uploaded, undeletable))
  {
    hide PutAll, ObjectKey;
    PutAllLooksUp(before, uploaded);
    forall e: Document, path: string | SlashFree(e) && (e.alias != d.alias || e.version != d.version)
      ensures ObjectKey(e, path) !in KeysOf(uploaded)
    {
      forall a | a in uploaded ensures a.key != ObjectKey(e, path) {
        var i :| 0 <= i < |uploaded| && uploaded[i] == a;
        assert a == Uploads(d, files)[i];
        KeysAgreeExactly(d, files[i].path, e, path);
      }
    }
  }

  function Uploads(d: Document, files: seq<File>): seq<Asset>
  {
    seq(|files|, i requires 0 <= i < |files| => Asset(ObjectKey(d, files[i].path), files[i].stored))
  }

  function AssetRows(d: Document, files: seq<File>): seq<AssetRow>
  {
    seq(|files|, i requires 0 <= i < |files| => AssetRow(d.alias, d.version, ObjectKey(d, files[i].path)))
  }

  /** Every file declared has one asset row, of its document, with the key it is uploaded under. */
  lemma AssetRowsExactly(d: Document, files: seq<File>, i: nat)
    requires i < |files|
    ensures |AssetRows(d, files)| == |files| == |Uploads(d, files)|
    ensures var row := AssetRows(d, files)[i];
            row.alias == d.alias && row.version == d.version && row.key == Uploads(d, files)[i].key == ObjectKey(d, files[i].path)
    ensures Uploads(d, files)[i].stored == files[i].stored
  {
  }

  /** The whole catalogue passes its checks, on the tables as they are. */
  predicate Accepted(c: Catalogue, valid: Document -> bool, descriptors: seq<Row>, profiles: seq<Row>)
  {
    (forall d :: d in c.disciplines + c.profiles ==> valid(d)) && Distinct(c.reservedAliases)
    && AllAvailable(descriptors, c.disciplines) && AllAvailable(profiles, c.profiles)
  }

  /** The tables and the report behind a seed. */
  predicate SeededRows(c: Catalogue, descriptors: seq<Row>, profiles: seq<Row>, next: nat,
                       newDescriptors: seq<Row>, newProfiles: seq<Row>, newNext: nat, report: seq<Seeded>)
  {
    var d := Publish(Table(descriptors, next), c.disciplines);
    var p := Publish(Table(profiles, d.next), c.profiles);
    newDescriptors == d.rows && newProfiles == p.rows && newNext == p.next
    && report == Report(Discipline, Table(descriptors, next), c.disciplines) + Report(Profile, Table(profiles, d.next), c.profiles)
  }

  /** The tables behind an import. */
  predicate ImportedRows(kind: Kind, d: Document, files: seq<File>,
                         descriptors: seq<Row>, profiles: seq<Row>, modules: seq<Module>, assetRows: seq<AssetRow>, next: nat,
                         newDescriptors: seq<Row>, newProfiles: seq<Row>, newModules: seq<Module>, newAssetRows: seq<AssetRow>, newNext: nat)
  {
    var t := PublishOne(Table(if kind == Discipline then descriptors else profiles, next), d);
    newDescriptors == (if kind == Discipline then t.rows else descriptors)
    && newProfiles == (if kind == Discipline then profiles else t.rows)
    && newNext == t.next
    && |newModules| == |modules| + 1 && newModules[..|modules|] == modules
    && newModules[|modules|].kind == kind && newModules[|modules|].document == d
    && NamesRow(newModules[|modules|], newDescriptors, newProfiles)
    && newAssetRows == assetRows + AssetRows(d, files)
  }

  class Installation {
    var objects: Objects
    var descriptors: seq<Row>
    var profiles: seq<Row>
    var modules: seq<Module>
    var assetRows: seq<AssetRow>
    var nextId: nat
    var left: nat

    ghost predicate Valid()
      reads this
    {
      Coherent(descriptors, nextId) && Coherent(profiles, nextId)
      && (forall i :: 0 <= i < |modules| ==> NamesRow(modules[i], descriptors, profiles))
      && OneHolderEach(modules)
    }

    constructor (calls: nat)
      ensures Valid() && left == calls
    {
      objects, descriptors, profiles, modules, assetRows, nextId, left := map[], [], [], [], [], 0, calls;
    }

    /** Any call that can fail. */
    method Call() returns (ok: bool)
      modifies this`left
      ensures ok <==> old(left) > 0
      ensures left == if ok then old(left) - 1 else 0
    {
      ok := left > 0;
      if ok { left := left - 1; }
    }

    method Put(a: Asset) returns (ok: bool)
      modifies this`left, this`objects
      ensures ok <==> old(left) > 0
      ensures left == if ok then old(left) - 1 else 0
      ensures objects == if ok then old(objects)[a.key := a.stored] else old(objects)
    {
      ok := Call();
      if ok { objects := objects[a.key := a.stored]; }
    }

    /** The catch block: each uploaded object is deleted, and a deletion that fails is ignored. */
    method Compensate(uploaded: seq<Asset>, undeletable: set<string>)
      modifies this`objects
      ensures objects == old(objects) - (KeysOf(uploaded) - undeletable)
    {
      for k := 0 to |uploaded|
        invariant objects == old(objects) - (KeysOf(uploaded[..k]) - undeletable)
      {
        assert uploaded[..k + 1] == uploaded[..k] + [uploaded[k]];
        assert KeysOf(uploaded[..k + 1]) == KeysOf(uploaded[..k]) + {uploaded[k].key};
        if uploaded[k].key !in undeletable { objects := objects - {uploaded[k].key}; }
      }
      assert uploaded[..|uploaded|] == uploaded;
    }

    /** `ensureCatalogueAssets`: what was missing is put, read back, and noted in `uploaded`. */
    method EnsureAssets(assets: seq<Asset>) returns (ok: bool, uploaded: seq<Asset>)
      modifies this`left, this`objects
      ensures KeysOf(uploaded) !! old(objects).Keys
      ensures objects == PutAll(old(objects), uploaded)
      ensures ok ==> objects == Ensured(old(objects), assets)
      ensures old(left) >= 3 * |assets| ==> ok
      ensures ok ==> left <= old(left) <= left + 3 * |assets|
    {
      hide PutAll, KeysOf, Ensured;
      ok, uploaded := true, [];
      PutAllStep(objects, []);
      for k := 0 to |assets|
        invariant KeysOf(uploaded) !! old(objects).Keys
        invariant objects == PutAll(old(objects), uploaded)
        invariant objects.Keys == old(objects).Keys + KeysOf(uploaded)
        invariant Ensured(objects, assets[k..]) == Ensured(old(objects), assets)
        invariant left <= old(left) <= left + 3 * k
      {
        EnsuredStep(objects, assets[k..]);
        assert assets[k..][1..] == assets[k + 1..];
        var read := Call();
        if !read { return false, uploaded; }
        if assets[k].key in objects { continue; }
        var put := Put(assets[k]);
        if !put { return false, uploaded; }
        PutAllMore(old(objects), uploaded, assets[k]);
        uploaded := uploaded + [assets[k]];
        var readBack := Call();
        if !readBack { return false, uploaded; }
      }
      EnsuredStep(objects, []);
    }

    /** `findVersionsByAlias(alias)[0]`: which version comes first is left to the database's collation. */
    method FirstVersion(rows: seq<Row>, alias: string) returns (first: Option<Row>)
      ensures first.None? <==> !HasAlias(rows, alias)
      ensures first.Some? ==> first.value in rows && first.value.document.alias == alias
    {
      if HasAlias(rows, alias) {
        var i :| 0 <= i < |rows| && rows[i].document.alias == alias;
        return Some(rows[i]);
      }
      return None;
    }

    /** One document of the seed: skipped if its version is there, else published under its alias's id. */
    method SeedDocument(rows: seq<Row>, d: Document) returns (ok: bool, out: seq<Row>, status: Status)
      requires Coherent(rows, nextId)
      modifies this`left, this`nextId
      ensures nextId >= old(nextId)
      ensures ok ==> Table(out, nextId) == PublishOne(Table(rows, old(nextId)), d)
      ensures ok ==> status == if Has(rows, d.alias, d.version) then Skipped else Installed
      ensures old(left) >= 3 ==> ok
      ensures ok ==> left <= old(left) <= left + 3
    {
      hide PublishOne, Coherent, Has, HasAlias, IdOf, InsertRow;
      ok, out, status := false, rows, Skipped;
      var found := Call();
      if !found { return; }
      if Has(rows, d.alias, d.version) {
        PresentStays(Table(rows, nextId), d);
        return true, rows, Skipped;
      }
      var listed := Call();
      if !listed { return; }
      var existing := FirstVersion(rows, d.alias);
      AbsentIsAppended(Table(rows, nextId), d, existing);
      var id := if existing.Some? then existing.value.id else nextId;
      if existing.None? { nextId := nextId + 1; }
      var saved := Call();
      if !saved { return; }
      var inserted := InsertRow(rows, Row(id, d));
      if inserted.None? { return; }
      return true, inserted.value, Installed;
    }

    /** One of the two loops of the seed: the documents of one kind. */
    method SeedDocuments(kind: Kind, rows: seq<Row>, docs: seq<Document>) returns (ok: bool, out: seq<Row>, report: seq<Seeded>)
      requires Coherent(rows, nextId)
      modifies this`left, this`nextId
      ensures ok ==> Table(out, nextId) == Publish(Table(rows, old(nextId)), docs)
      ensures ok ==> report == Report(kind, Table(rows, old(nextId)), docs)
      ensures nextId >= old(nextId)
      ensures old(left) >= 3 * |docs| ==> ok
      ensures ok ==> left <= old(left) <= left + 3 * |docs|
    {
      hide Publish, Report, PublishOne, Coherent, Has;
      ok, out, report := true, rows, [];
      ghost var start := Table(rows, nextId);
      assert docs[0..] == docs;
      for k := 0 to |docs|
        invariant Coherent(out, nextId) && nextId >= old(nextId)
        invariant Publish(Table(out, nextId), docs[k..]) == Publish(start, docs)
        invariant report + Report(kind, Table(out, nextId), docs[k..]) == Report(kind, start, docs)
        invariant left <= old(left) <= left + 3 * k
      {
        ghost var t := Table(out, nextId);
        SeedAt(kind, t, docs, k);
        CoherentMore(t, docs[k]);
        var done, more, status := SeedDocument(out, docs[k]);
        if !done { return false, rows, []; }
        var line := Seeded(kind, docs[k].alias, docs[k].version, status);
        assert report + ([line] + Report(kind, PublishOne(t, docs[k]), docs[k + 1..]))
            == report + [line] + Report(kind, PublishOne(t, docs[k]), docs[k + 1..]);
        out := more;
        report := report + [line];
      }
      assert docs[|docs|..] == [];
      SeedStep(kind, Table(out, nextId), []);
    }

    /** `assertReservedAliasesAvailable` for the documents of one kind. */
    method CheckAvailable(rows: seq<Row>, docs: seq<Document>) returns (ok: bool)
      modifies this`left
      ensures ok ==> AllAvailable(rows, docs) && left <= old(left) <= left + |docs|
      ensures old(left) >= |docs| ==> (ok <==> AllAvailable(rows, docs))
    {
      for k := 0 to |docs|
        invariant forall i :: 0 <= i < k ==> Available(rows, docs[i])
        invariant left <= old(left) <= left + k
      {
        var listed := Call();
        if !listed || !Available(rows, docs[k]) { return false; }
      }
      return true;
    }

    /** The transaction of the seed: every row or none. */
    method SeedRows(c: Catalogue) returns (report: Option<seq<Seeded>>)
      requires Valid()
      modifies this`left, this`nextId, this`descriptors, this`profiles
      ensures Valid() && nextId >= old(nextId)
      ensures report.None? ==> descriptors == old(descriptors) && profiles == old(profiles)
      ensures report.Some? ==> SeededRows(c, old(descriptors), old(profiles), old(nextId), descriptors, profiles, nextId, report.value)
      ensures report.Some? ==> AllAvailable(old(descriptors), c.disciplines) && AllAvailable(old(profiles), c.profiles)
      ensures AllAvailable(old(descriptors), c.disciplines) && AllAvailable(old(profiles), c.profiles)
              ==> old(left) >= 4 * (|c.disciplines| + |c.profiles|) + 2 ==> report.Some?
    {
      hide Publish, Report, Coherent, NamesRow;
      var begun := Call();
      if !begun { return None; }
      var freeD := CheckAvailable(descriptors, c.disciplines);
      if !freeD { return None; }
      var freeP := CheckAvailable(profiles, c.profiles);
      if !freeP { return None; }
      ghost var start := Table(descriptors, nextId);
      PublishKeepsCoherent(start, c.disciplines);
      var okD, rowsD, reportD := SeedDocuments(Discipline, descriptors, c.disciplines);
      LaterIds(profiles, old(nextId), nextId);
      LaterIds(descriptors, old(nextId), nextId);
      if !okD { return None; }
      ghost var middle := Table(profiles, nextId);
      PublishKeepsCoherent(middle, c.profiles);
      var okP, rowsP, reportP := SeedDocuments(Profile, profiles, c.profiles);
      LaterIds(rowsD, middle.next, nextId);
      LaterIds(profiles, middle.next, nextId);
      LaterIds(descriptors, middle.next, nextId);
      if !okP { return None; }
      var committed := Call();
      if !committed { return None; }
      NamesRowsMore(modules, descriptors, profiles, rowsD, rowsP);
      descriptors, profiles := rowsD, rowsP;
      return Some(reportD + reportP);
    }

    /** `seedModuleCatalogue`; `valid` is the schema check of a document. */
    method Seed(c: Catalogue, valid: Document -> bool, undeletable: set<string>) returns (report: Option<seq<Seeded>>)
      requires Valid()
      modifies this
      ensures Valid() && nextId >= old(nextId) && modules == old(modules) && assetRows == old(assetRows)
      ensures report.None? ==> descriptors == old(descriptors) && profiles == old(profiles)
      ensures report.None? ==> old(objects).Keys <= objects.Keys <= old(objects).Keys + undeletable
                               && forall k :: k in old(objects) ==> objects[k] == old(objects)[k]
      ensures report.None? && undeletable == {} ==> objects == old(objects)
      ensures report.Some? ==> objects == Ensured(old(objects), c.assets)
      ensures report.Some? ==> SeededRows(c, old(descriptors), old(profiles), old(nextId), descriptors, profiles, nextId, report.value)
      ensures report.Some? ==> Accepted(c, valid, old(descriptors), old(profiles))
      ensures old(left) >= 3 * |c.assets| + 4 * (|c.disciplines| + |c.profiles|) + 2
              ==> (report.Some? <==> Accepted(c, valid, old(descriptors), old(profiles)))
    {
      hide Coherent, SeededRows, NamesRow, PutAll, KeysOf, Ensured, AllAvailable, Distinct;
      if !(forall d :: d in c.disciplines + c.profiles ==> valid(d)) || !Distinct(c.reservedAliases) { return None; }
      var ok, uploaded := EnsureAssets(c.assets);
      if ok {
        report := SeedRows(c);
      } else {
        report := None;
      }
      if report.None? {
        PutAllLooksUp(old(objects), uploaded);
        Compensate(uploaded, undeletable);
      }
    }

    /** `uploadModuleAssets`: every file is read and put, and noted in `uploaded`. */
    method Upload(d: Document, files: seq<File>) returns (ok: bool, uploaded: seq<Asset>)
      modifies this`left, this`objects
      ensures uploaded <= Uploads(d, files) && objects == PutAll(old(objects), uploaded)
      ensures ok ==> uploaded == Uploads(d, files) && left <= old(left) <= left + 2 * |files|
      ensures old(left) >= 2 * |files| ==> ok
    {
      hide PutAll, KeysOf;
      uploaded := [];
      PutAllStep(objects, []);
      for k := 0 to |files|
        invariant uploaded == Uploads(d, files)[..k]
        invariant objects == PutAll(old(objects), uploaded)
        invariant left <= old(left) <= left + 2 * k
      {
        var read := Call();
        if !read { return false, uploaded; }
        var a := Asset(ObjectKey(d, files[k].path), files[k].stored);
        var put := Put(a);
        if !put { return false, uploaded; }
        PutAllMore(old(objects), uploaded, a);
        uploaded := uploaded + [a];
      }
      return true, uploaded;
    }

    /** `saveArtifact`: the document's id, and its row unless that version is there. */
    method SaveArtifact(rows: seq<Row>, d: Document) returns (ok: bool, out: seq<Row>, id: nat)
      requires Coherent(rows, nextId)
      modifies this`left, this`nextId
      ensures nextId >= old(nextId)
      ensures ok ==> Table(out, nextId) == PublishOne(Table(rows, old(nextId)), d)
      ensures ok ==> exists i :: 0 <= i < |out| && out[i].document.alias == d.alias && out[i].document.version == d.version && out[i].id == id
      ensures old(left) >= 2 ==> ok
      ensures ok ==> left <= old(left) <= left + 2
    {
      hide Coherent, PublishOne, IdOf, HasAlias, InsertRow;
      ok, out, id := false, rows, 0;
      var listed := Call();
      if !listed { return; }
      if Has(rows, d.alias, d.version) {
        var i :| 0 <= i < |rows| && rows[i].document.alias == d.alias && rows[i].document.version == d.version;
        PresentStays(Table(rows, nextId), d);
        return true, rows, rows[i].id;
      }
      var first := FirstVersion(rows, d.alias);
      AbsentIsAppended(Table(rows, nextId), d, first);
      id := nextId;
      if first.Some? { id := first.value.id; }
      if first.None? { nextId := nextId + 1; }
      var saved := Call();
      if !saved { return; }
      var inserted := InsertRow(rows, Row(id, d));
      if inserted.None? { return; }
      ok, out := true, inserted.value;
      assert out[|rows|] == Row(id, d);
    }

    /** `findHolderByAlias` and the comparison: some module of the alias, if any, has this attribution. */
    method MayHold(d: Document) returns (may: bool)
      requires Valid()
      ensures may <==> Unheld(modules, d)
    {
      hide Coherent, NamesRow;
      if exists i :: 0 <= i < |modules| && modules[i].document.alias == d.alias {
        var i :| 0 <= i < |modules| && modules[i].document.alias == d.alias;
        may := modules[i].document.attribution == d.attribution;
        assert forall j :: 0 <= j < |modules| && modules[j].document.alias == d.alias ==>
            modules[j].document.attribution == modules[i].document.attribution;
      } else {
        may := true;
      }
    }

    /** The asset rows of an import. */
    method SaveAssets(files: seq<File>) returns (ok: bool)
      modifies this`left
      ensures old(left) >= |files| ==> ok
      ensures ok ==> old(left) <= left + |files|
    {
      for k := 0 to |files|
        invariant old(left) <= left + k
      {
        var saved := Call();
        if !saved { return false; }
      }
      return true;
    }

    /** The transaction of an import: the document, the module and its assets, or nothing. */
    method ImportRows(kind: Kind, d: Document, files: seq<File>) returns (done: bool)
      requires Valid() && Unheld(modules, d)
      modifies this`left, this`nextId, this`descriptors, this`profiles, this`modules, this`assetRows
      ensures Valid() && nextId >= old(nextId)
      ensures !done ==> descriptors == old(descriptors) && profiles == old(profiles) && modules == old(modules) && assetRows == old(assetRows)
      ensures done ==> !HasModule(old(modules), d.alias, d.version)
      ensures done ==> ImportedRows(kind, d, files, old(descriptors), old(profiles), old(modules), old(assetRows), old(nextId),
                                    descriptors, profiles, modules, assetRows, nextId)
      ensures old(left) >= |files| + 5 && !HasModule(old(modules), d.alias, d.version) ==> done
      ensures done ==> old(left) <= left + |files| + 5
    {
      hide Coherent, NamesRow, PublishOne, HasModule, Unheld, OneHolderEach, AssetRows, ImportedRows;
      var rows := if kind == Discipline then descriptors else profiles;
      var begun := Call();
      if !begun { return false; }
      CoherentMore(Table(rows, nextId), d);
      var ok, out, id := SaveArtifact(rows, d);
      LaterIds(descriptors, old(nextId), nextId);
      LaterIds(profiles, old(nextId), nextId);
      if !ok { return false; }
      var saved := Call();
      if !saved || HasModule(modules, d.alias, d.version) { return false; }
      var assetsSaved := SaveAssets(files);
      if !assetsSaved { return false; }
      var committed := Call();
      if !committed { return false; }
      var nextD := if kind == Discipline then out else descriptors;
      var nextP := if kind == Discipline then profiles else out;
      var m := Module(kind, d, id);
      CatalogueMore(modules, descriptors, profiles, kind, out, m);
      ImportedIs(kind, d, files, descriptors, profiles, modules, assetRows, old(nextId), out, id, nextId);
      descriptors, profiles := nextD, nextP;
      modules := modules + [m];
      assetRows := assetRows + AssetRows(d, files);
      return true;
    }

    /** `importValidatedModule`; `capable` says whether the capability check lets the module pass. */
    method Import(kind: Kind, d: Document, files: seq<File>, capable: bool, undeletable: set<string>)
      returns (done: bool, uploaded: seq<Asset>)
      requires Valid()
      modifies this
      ensures Valid() && nextId >= old(nextId)
      ensures uploaded <= Uploads(d, files)
      ensures !done ==> descriptors == old(descriptors) && profiles == old(profiles) && modules == old(modules) && assetRows == old(assetRows)
      ensures !done ==> objects == Undone(old(objects), uploaded, undeletable)
      ensures done ==> uploaded == Uploads(d, files) && objects == PutAll(old(objects), uploaded)
      ensures done ==> ImportedRows(kind, d, files, old(descriptors), old(profiles), old(modules), old(assetRows), old(nextId),
                                    descriptors, profiles, modules, assetRows, nextId)
      ensures !(Unheld(old(modules), d) && capable) ==> !done && uploaded == []
      ensures HasModule(old(modules), d.alias, d.version) ==> !done
      ensures old(left) >= 3 * |files| + 7 && Unheld(old(modules), d) && capable
              ==> uploaded == Uploads(d, files) && (done <==> !HasModule(old(modules), d.alias, d.version))
      ensures done ==> old(left) <= left + 3 * |files| + 7
      ensures SlashFree(d) ==> OthersKept(d, old(objects), objects)
    {
      hide Coherent, ImportedRows, NamesRow, PutAll, KeysOf, HasModule, Uploads, OthersKept;
      done, uploaded := false, [];
      PutAllStep(objects, []);
      assert OthersKept(d, objects, objects) by { NothingChanged(d, objects); }
      assert objects - ({} - undeletable) == objects;
      var asked := Call();
      if !asked { return; }
      var may := MayHold(d);
      if !may { return; }
      var checked := Call();
      if !checked || !capable { return; }
      var ok;
      ok, uploaded := Upload(d, files);
      if ok { done := ImportRows(kind, d, files); }
      if !done { Compensate(uploaded, undeletable); }
      if SlashFree(d) { UploadsKeepOthers(d, files, uploaded, old(objects), undeletable); }
    }
  }

  lemma PutAllStep(objects: Objects, assets: seq<Asset>)
    ensures PutAll(objects, assets)
            == if assets == [] then objects else PutAll(objects[assets[0].key := assets[0].stored], assets[1..])
    ensures assets == [] ==> KeysOf(assets) == {}
  {
  }

  lemma {:induction false} PutAllMore(objects: Objects, assets: seq<Asset>, a: Asset)
    ensures PutAll(objects, assets + [a]) == PutAll(objects, assets)[a.key := a.stored]
    ensures KeysOf(assets + [a]) == KeysOf(assets) + {a.key}
    decreases assets
  {
    if assets == [] {
      assert assets + [a] == [a] && [a][1..] == [];
    } else {
      PutAllMore(objects[assets[0].key := assets[0].stored], assets[1..], a);
      assert (assets + [a])[1..] == assets[1..] + [a];
    }
  }

  lemma EnsuredStep(objects: Objects, assets: seq<Asset>)
    ensures Ensured(objects, assets)
            == if assets == [] then objects
               else Ensured(if assets[0].key in objects then objects else objects[assets[0].key := assets[0].stored], assets[1..])
  {
  }

  /** An insert that does nothing on a repeated id and version, and fails on a repeated alias and version. */
  function InsertRow(rows: seq<Row>, row: Row): Option<seq<Row>>
  {
    if exists i :: 0 <= i < |rows| && rows[i].id == row.id && rows[i].document.version == row.document.version then Some(rows)
    else if Has(rows, row.document.alias, row.document.version) then None
    else Some(rows + [row])
  }

  lemma SeedStep(kind: Kind, t: Table, docs: seq<Document>)
    ensures Publish(t, docs) == if docs == [] then t else Publish(PublishOne(t, docs[0]), docs[1..])
    ensures Report(kind, t, docs) == if docs == [] then [] else
            [Seeded(kind, docs[0].alias, docs[0].version, if Has(t.rows, docs[0].alias, docs[0].version) then Skipped else Installed)]
            + Report(kind, PublishOne(t, docs[0]), docs[1..])
  {
  }

  lemma SeedAt(kind: Kind, t: Table, docs: seq<Document>, k: nat)
    requires k < |docs|
    ensures Publish(t, docs[k..]) == Publish(PublishOne(t, docs[k]), docs[k + 1..])
    ensures Report(kind, t, docs[k..])
            == [Seeded(kind, docs[k].alias, docs[k].version, if Has(t.rows, docs[k].alias, docs[k].version) then Skipped else Installed)]
               + Report(kind, PublishOne(t, docs[k]), docs[k + 1..])
  {
    hide PublishOne, Has, Publish, Report;
    SeedStep(kind, t, docs[k..]);
    assert docs[k..][0] == docs[k] && docs[k..][1..] == docs[k + 1..];
  }

  lemma PresentStays(t: Table, d: Document)
    requires Has(t.rows, d.alias, d.version)
    ensures PublishOne(t, d) == t
  {
  }

  /** The row the saga inserts is the one published, whichever version of the alias came first. */
  lemma AbsentIsAppended(t: Table, d: Document, first: Option<Row>)
    requires Coherent(t.rows, t.next) && !Has(t.rows, d.alias, d.version)
    requires first.None? <==> !HasAlias(t.rows, d.alias)
    requires first.Some? ==> first.value in t.rows && first.value.document.alias == d.alias
    ensures var row := Row(if first.Some? then first.value.id else t.next, d);
            InsertRow(t.rows, row) == Some(t.rows + [row])
            && PublishOne(t, d) == Table(t.rows + [row], if first.Some? then t.next else t.next + 1)
  {
    hide IdOf, HasAlias;
    var id := if first.Some? then first.value.id else t.next;
    assert forall i :: 0 <= i < |t.rows| && t.rows[i].id == id ==> t.rows[i].document.version != d.version by {
      if first.Some? {
        var k :| 0 <= k < |t.rows| && t.rows[k] == first.value;
        assert forall i :: 0 <= i < |t.rows| && t.rows[i].id == id ==> t.rows[i].document.alias == t.rows[k].document.alias;
      }
    }
    if first.Some? {
      var k :| 0 <= k < |t.rows| && t.rows[k] == first.value;
      AliasHasOneId(t.rows, t.next, k);
    }
  }

  lemma LaterIds(rows: seq<Row>, next: nat, later: nat)
    requires Coherent(rows, next) && next <= later
    ensures Coherent(rows, later)
  {
  }

  lemma NamesRowsMore(modules: seq<Module>, descriptors: seq<Row>, profiles: seq<Row>, moreD: seq<Row>, moreP: seq<Row>)
    requires descriptors <= moreD && profiles <= moreP
    requires forall i :: 0 <= i < |modules| ==> NamesRow(modules[i], descriptors, profiles)
    ensures forall i :: 0 <= i < |modules| ==> NamesRow(modules[i], moreD, moreP)
  {
    forall i | 0 <= i < |modules| ensures NamesRow(modules[i], moreD, moreP) {
      var m := modules[i];
      var rows := if m.kind == Discipline then descriptors else profiles;
      var more := if m.kind == Discipline then moreD else moreP;
      var k :| 0 <= k < |rows| && rows[k].document.alias == m.document.alias
               && rows[k].document.version == m.document.version && rows[k].id == m.documentId;
      assert more[k] == rows[k];
    }
  }

  lemma NamesThis(m: Module, descriptors: seq<Row>, profiles: seq<Row>)
    requires var rows := if m.kind == Discipline then descriptors else profiles;
             exists i :: 0 <= i < |rows| && rows[i].document.alias == m.document.alias
                         && rows[i].document.version == m.document.version && rows[i].id == m.documentId
    ensures NamesRow(m, descriptors, profiles)
  {
  }

  lemma ImportedIs(kind: Kind, d: Document, files: seq<File>, descriptors: seq<Row>, profiles: seq<Row>, modules: seq<Module>,
                   assetRows: seq<AssetRow>, next: nat, rows: seq<Row>, id: nat, newNext: nat)
    requires Table(rows, newNext) == PublishOne(Table(if kind == Discipline then descriptors else profiles, next), d)
    requires var nextD, nextP := if kind == Discipline then rows else descriptors, if kind == Discipline then profiles else rows;
             NamesRow((modules + [Module(kind, d, id)])[|modules|], nextD, nextP)
    ensures ImportedRows(kind, d, files, descriptors, profiles, modules, assetRows, next,
                         if kind == Discipline then rows else descriptors, if kind == Discipline then profiles else rows,
                         modules + [Module(kind, d, id)], assetRows + AssetRows(d, files), newNext)
  {
    hide PublishOne, NamesRow, AssetRows;
  }

  /** A module and the row it names keep what holds of modules. */
  lemma CatalogueMore(modules: seq<Module>, descriptors: seq<Row>, profiles: seq<Row>, kind: Kind, rows: seq<Row>, m: Module)
    requires forall i :: 0 <= i < |modules| ==> NamesRow(modules[i], descriptors, profiles)
    requires OneHolderEach(modules) && Unheld(modules, m.document) && !HasModule(modules, m.document.alias, m.document.version)
    requires m.kind == kind && (if kind == Discipline then descriptors else profiles) <= rows
    requires exists i :: 0 <= i < |rows| && rows[i].document.alias == m.document.alias
                         && rows[i].document.version == m.document.version && rows[i].id == m.documentId
    ensures var nextD, nextP := if kind == Discipline then rows else descriptors, if kind == Discipline then profiles else rows;
            var more := modules + [m];
            OneHolderEach(more) && forall i :: 0 <= i < |more| ==> NamesRow(more[i], nextD, nextP)
  {
    hide NamesRow, OneHolderEach, Unheld, HasModule;
    var nextD, nextP := if kind == Discipline then rows else descriptors, if kind == Discipline then profiles else rows;
    NamesRowsMore(modules, descriptors, profiles, nextD, nextP);
    NamesThis(m, nextD, nextP);
    OneHolderMore(modules, m);
  }

  lemma InstalledIsThere(modules: seq<Module>, d: Document)
    requires modules != [] && modules[|modules| - 1].document == d
    requires forall i :: 0 <= i < |modules| && modules[i].document.alias == d.alias ==> modules[i].document.attribution == d.attribution
    ensures HasModule(modules, d.alias, d.version) && Unheld(modules, d)
  {
  }

  /**
   * A second import of an installed version is refused, and its compensation deletes the stored assets
   * of the version that stays installed.
   */
  method ImportTwice(place: Installation, kind: Kind, d: Document, files: seq<File>)
    requires place.Valid() && place.left >= 6 * |files| + 14
    requires Unheld(place.modules, d) && !HasModule(place.modules, d.alias, d.version)
    modifies place
    ensures place.Valid() && HasModule(place.modules, d.alias, d.version)
    ensures place.objects == old(place.objects) - KeysOf(Uploads(d, files))
  {
    hide Coherent, NamesRow, PutAll, KeysOf, Uploads;
    var first, uploaded := place.Import(kind, d, files, true, {});
    InstalledIsThere(place.modules, d);
    var all := Uploads(d, files);
    PutAllLooksUp(old(place.objects), all);
    UndoneDeletes(place.objects, all);
    var second, again := place.Import(kind, d, files, true, {});
  }

  /**
   * A discipline imported by itself, and then the seed of a catalogue that was acceptable before: the
   * seed now refuses exactly if it has the imported alias under another attribution.
   */
  method ImportThenSeed(place: Installation, d: Document, files: seq<File>, c: Catalogue, valid: Document -> bool)
    returns (report: Option<seq<Seeded>>)
    requires place.Valid()
    requires place.left >= 3 * |files| + 7 + 3 * |c.assets| + 4 * (|c.disciplines| + |c.profiles|) + 2
    requires Unheld(place.modules, d) && !HasModule(place.modules, d.alias, d.version)
    requires !Has(place.descriptors, d.alias, d.version) && Accepted(c, valid, place.descriptors, place.profiles)
    modifies place
    ensures place.Valid()
    ensures report.None? <==> exists i :: 0 <= i < |c.disciplines| && c.disciplines[i].alias == d.alias
                                          && c.disciplines[i].attribution != d.attribution
  {
    hide Coherent, NamesRow, PutAll, KeysOf, Uploads, SeededRows, Ensured, AllAvailable, PublishOne, Has, HasModule, Unheld, Distinct;
    AvailableBehindExactly(Table(place.descriptors, place.nextId), d, c.disciplines);
    var done, uploaded := place.Import(Discipline, d, files, true, {});
    report := place.Seed(c, valid, {});
  }
}
