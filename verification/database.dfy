/**
 * The database façade (twoDB/database/storage/database.go): records of two
 * fields, an id and its data, each stored on a freshly allocated data page and
 * indexed by id in the B+Tree. Every call returns the store as the call leaves
 * it together with its result, so a step that fails after an earlier step has
 * written keeps that write, as the program does.
 */
module Database {
  import opened Results
  import opened GoStrings
  import opened Decimal
  import opened TextStore
  import opened PageStore
  import opened DataPage
  import opened BPlusTree
  import opened StringOrder

  /** An open database: the page store and the index root's page id. */
  datatype Db = Db(store: Pages, root: nat)

  /** What a call leaves behind, and what it reports. */
  datatype Reply<+T> = Reply(db: Db, result: Result<T>)

  /** OpenDatabase, once the file is loaded: NewBPlusTree on its pages. */
  function Open(s: Pages): (db: Db)
    ensures Read(s, 1).Ok? && Valid(s) ==> db == Db(s, 1)
  {
    var t := NewTree(s);
    Db(t.0, t.1)
  }

  /**
   * Steps 2 to 4 of Insert: allocate a page, make it a data page, add the
   * record to it, and write it; the store and the record's location come
   * back. Adding to a page just typed `Data` cannot fail, so the error return
   * of that step is never taken.
   */
  function StoreRecord(s: Pages, fields: seq<string>): (r: (Pages, Location))
  {
    var a := PageStore.Allocate(s);
    var page := a.1.(header := a.1.header.(pageType := DataType));
    var added := AddRecord(page, fields).value;
    (Write(a.0, added.0), Location(page.header.id, added.1))
  }

  /**
   * Insert: an id the index finds on a page other than 0 is rejected; any
   * other lookup outcome, errors included, lets the insert go ahead (a panic
   * in the lookup still ends the call). The record [id, data] goes onto a new
   * page, and then the id into the index.
   */
  function Insert(db: Db, id: string, data: string): (r: Reply<()>)
    ensures Find(db.store, db.root, id).Ok? && Find(db.store, db.root, id).value.pageId != 0 ==> r == Reply(db, Err(AlreadyExists))
  {
    var found := Find(db.store, db.root, id);
    if found == Err(Panic) then Reply(db, Err(Panic))
    else if found.Ok? && found.value.pageId != 0 then Reply(db, Err(AlreadyExists))
    else
      var (s1, loc) := StoreRecord(db.store, [id, data]);
      var s2 := BPlusTree.Insert(s1, db.root, id, loc.pageId, loc.entry);
      if s2.Err? then Reply(db.(store := s1), Err(s2.error))
      else Reply(db.(store := s2.value), Ok(()))
  }

  /** Get: the record the index points at; no record (and no error) when the id is not indexed. */
  function Get(db: Db, id: string): (r: Result<Option<Record>>)
    ensures Find(db.store, db.root, id).Err? ==> r == Err(Find(db.store, db.root, id).error)
    ensures Find(db.store, db.root, id) == Ok(Location(0, 0)) ==> r == Ok(None)
  {
    var loc :- Find(db.store, db.root, id);
    if loc.pageId == 0 then Ok(None)
    else
      var page :- Read(db.store, loc.pageId);
      var record :- GetRecord(page, loc.entry);
      Ok(Some(record))
  }

  /** Delete: remove the record from its page, write the page, then drop the id from the index. */
  function Delete(db: Db, id: string): (r: Reply<()>)
    ensures r.result == Err(MissingRecord) ==> r.db == db
  {
    var found := Find(db.store, db.root, id);
    if found.Err? then Reply(db, Err(found.error))
    else if found.value.pageId == 0 then Reply(db, Err(MissingRecord))
    else
      var page := Read(db.store, found.value.pageId);
      if page.Err? then Reply(db, Err(page.error))
      else
        var removed := DeleteRecord(page.value, found.value.entry);
        if removed.Err? then Reply(db, Err(removed.error))
        else
          var s1 := Write(db.store, removed.value);
          var s2 := BPlusTree.Delete(s1, db.root, id);
          if s2.Err? then Reply(db.(store := s1), Err(s2.error))
          else Reply(db.(store := s2.value), Ok(()))
  }

  /**
   * Update: replace the second field of the record and write its page back.
   * A record with fewer than two fields makes the field assignment panic.
   */
  function Update(db: Db, id: string, newData: string): (r: Reply<()>)
    ensures r.result.Err? ==> r.db == db
  {
    var found := Find(db.store, db.root, id);
    if found.Err? then Reply(db, Err(found.error))
    else if found.value.pageId == 0 then Reply(db, Err(MissingRecord))
    else
      var page := Read(db.store, found.value.pageId);
      if page.Err? then Reply(db, Err(page.error))
      else
        var previous := GetRecord(page.value, found.value.entry);
        if previous.Err? then Reply(db, Err(previous.error))
        else if |previous.value.fields| < 2 then Reply(db, Err(Panic))
        else
          var fields := previous.value.fields[1 := newData];
          var updated := page.value.(data := page.value.data[EntryKey(found.value.entry) := Join(fields, FieldSeparator)]);
          Reply(db.(store := Write(db.store, updated)), Ok(()))
  }

  // ---------------------------------------------------------------------------
  // The invariant

  /** A pointer that parses to a page other than 0 and the root, within the page count. */
  predicate PointsInto(p: string, root: nat, count: nat) {
    && ParsePointer(p).Ok?
    && 0 < ParsePointer(p).value.pageId <= count
    && ParsePointer(p).value.pageId != root
  }

  /**
   * Every indexed id is held once, and its pointer parses to a page id in
   * range that is neither 0 nor the root, a different page for each id. The
   * page itself is not read: whether it holds the record is a separate fact.
   */
  predicate Located(n: Node, root: nat, count: nat) {
    && Unique(n.keys)
    && (forall q :: 0 <= q < |n.pointers| ==> PointsInto(n.pointers[q], root, count))
    && (forall q, r :: 0 <= q < r < |n.pointers| ==> PageOf(n.pointers[q]) != PageOf(n.pointers[r]))
  }

  /** The page a pointer names, 0 for one that does not parse. */
  function PageOf(p: string): nat {
    if ParsePointer(p).Ok? then ParsePointer(p).value.pageId else 0
  }

  /**
   * What the façade keeps: a valid store with nothing on the free list (the
   * handler never adds to it), a well-formed leaf root, and index entries whose
   * pointers name distinct in-range pages other than the root.
   */
  predicate DbOk(db: Db) {
    && Valid(db.store)
    && db.store.freeList == []
    && LeafOk(db.store, db.root)
    && Located(ReadNode(db.store, db.root).value, db.root, db.store.pageCount)
  }

  /** The ids the index holds; none when the root cannot be read. */
  function Keys(db: Db): (ks: seq<string>)
    ensures LeafOk(db.store, db.root) ==> |ks| <= MaxKeys
  {
    if ReadNode(db.store, db.root).Ok? then ReadNode(db.store, db.root).value.keys else []
  }

  /** The root's lookups depend only on what reading the root page gives. */
  lemma RootFrame(s: Pages, t: Pages, root: nat, key: string)
    requires Read(s, root) == Read(t, root)
    ensures ReadNode(s, root) == ReadNode(t, root)
    ensures Find(s, root, key) == Find(t, root, key)
  {
  }

  /** An indexed id is found on a data page that is neither 0 nor the root. */
  lemma FindIndexed(db: Db, id: string)
    requires DbOk(db) && id in Keys(db)
    ensures Find(db.store, db.root, id).Ok?
    ensures var loc := Find(db.store, db.root, id).value;
      && 0 < loc.pageId <= db.store.pageCount && loc.pageId != db.root
      && loc.pageId == PageOf(ReadNode(db.store, db.root).value.pointers[FirstIndex(Keys(db), id)])
  {
    var n := ReadNode(db.store, db.root).value;
    var i := FirstIndex(n.keys, id);
    assert PointsInto(n.pointers[i], db.root, db.store.pageCount);
  }

  /** Two indexed ids are on different pages. */
  lemma IndexedApart(db: Db, id: string, other: string)
    requires DbOk(db) && id in Keys(db) && other in Keys(db) && id != other
    ensures Find(db.store, db.root, id).value.pageId != Find(db.store, db.root, other).value.pageId
  {
    FindIndexed(db, id);
    FindIndexed(db, other);
    var i := FirstIndex(Keys(db), id);
    var j := FirstIndex(Keys(db), other);
    var ps := ReadNode(db.store, db.root).value.pointers;
    if i < j {
      assert PageOf(ps[i]) != PageOf(ps[j]);
    } else {
      assert PageOf(ps[j]) != PageOf(ps[i]);
    }
  }

  /** Get, once the index has located the record on a page that reads. */
  lemma GetAt(db: Db, id: string, loc: Location, page: Page)
    requires Find(db.store, db.root, id) == Ok(loc) && loc.pageId != 0 && Read(db.store, loc.pageId) == Ok(page)
    ensures GetRecord(page, loc.entry).Ok? ==> Get(db, id) == Ok(Some(GetRecord(page, loc.entry).value))
    ensures GetRecord(page, loc.entry).Err? ==> Get(db, id) == Err(GetRecord(page, loc.entry).error)
  {
  }

  /** An id the index does not hold is not found, cannot be deleted, and cannot be updated. */
  lemma NotIndexed(db: Db, id: string, newData: string)
    requires DbOk(db) && id !in Keys(db)
    ensures Get(db, id) == Ok(None)
    ensures Delete(db, id) == Reply(db, Err(MissingRecord))
    ensures Update(db, id, newData) == Reply(db, Err(MissingRecord))
  {
    FindTotal(db.store, db.root, id);
  }

  /** OpenDatabase on a store without page 1 starts an empty index after the last page. */
  lemma OpenEmpty(s: Pages)
    requires Valid(s) && s.freeList == [] && Read(s, 1).Err?
    ensures DbOk(Open(s)) && Keys(Open(s)) == []
    ensures Open(s).root == s.pageCount + 1
  {
    NewTreeEmpty(s);
  }

  // ---------------------------------------------------------------------------
  // StoreRecord

  /** With an empty free list the record lands on a new last page, as entry 1, and no other page changes. */
  lemma StoreRecordFresh(s: Pages, fields: seq<string>)
    requires Valid(s) && s.freeList == []
    ensures var (t, loc) := StoreRecord(s, fields);
      && loc == Location(s.pageCount + 1, 1)
      && Valid(t) && t.freeList == [] && t.pageCount == s.pageCount + 1
      && Read(t, loc.pageId).Ok?
      && Read(t, loc.pageId).value.header.pageType == DataType
      && ((forall k :: 0 <= k < |fields| ==> FieldSeparator !in fields[k]) && |fields| >= 1 ==>
            GetRecord(Read(t, loc.pageId).value, 1) == Ok(Record(1, fields)))
  {
    var a := PageStore.Allocate(s);
    AllocateFresh(s);
    var page := a.1.(header := a.1.header.(pageType := DataType));
    assert Counter(page) == 0;
    var added := AddRecord(page, fields).value;
    WriteValid(a.0, added.0);
    ReadAfterWrite(a.0, added.0);
    if (forall k :: 0 <= k < |fields| ==> FieldSeparator !in fields[k]) && |fields| >= 1 {
      GetAfterAdd(page, fields);
    }
  }

  lemma StoreRecordFrame(s: Pages, fields: seq<string>, id: nat)
    requires Valid(s) && s.freeList == [] && id != s.pageCount + 1
    ensures Read(StoreRecord(s, fields).0, id) == Read(s, id)
  {
    var a := PageStore.Allocate(s);
    var page := a.1.(header := a.1.header.(pageType := DataType));
    var added := AddRecord(page, fields).value;
    if id <= s.pageCount {
      WriteFrame(a.0, added.0, id);
    }
  }

  // ---------------------------------------------------------------------------
  // Located entries

  lemma LocatedGrow(n: Node, root: nat, count: nat, count': nat)
    requires Located(n, root, count) && count <= count'
    ensures Located(n, root, count')
  {
  }

  /** Where each element of a sequence ends up after an insertion. */
  lemma InsertAtIndex<T>(a: seq<T>, i: nat, x: T)
    requires i <= |a|
    ensures forall q :: 0 <= q < |a| + 1 ==> InsertAt(a, i, x)[q] == if q < i then a[q] else if q == i then x else a[q - 1]
  {
    var b := InsertAt(a, i, x);
    forall q | 0 <= q < |a| + 1 ensures b[q] == if q < i then a[q] else if q == i then x else a[q - 1] {
      if q < i { assert b[q] == a[..i][q]; } else if q > i { assert b[q] == a[i..][q - i - 1]; }
    }
  }

  lemma InsertUnique(keys: seq<string>, i: nat, key: string)
    requires Unique(keys) && i <= |keys| && key !in keys
    ensures Unique(InsertAt(keys, i, key))
  {
    InsertAtIndex(keys, i, key);
  }

  /** After inserting a pointer to page count + 1, every pointer still points into the store. */
  lemma InsertPointsInto(ps: seq<string>, root: nat, count: nat, i: nat, entry: nat)
    requires i <= |ps| && count + 1 <= MaxUint32 && entry <= MaxUint32 && root <= count
    requires forall q :: 0 <= q < |ps| ==> PointsInto(ps[q], root, count)
    ensures var qs := InsertAt(ps, i, Pointer(count + 1, entry));
      && (forall q :: 0 <= q < |qs| ==> PointsInto(qs[q], root, count + 1))
      && (forall q :: 0 <= q < |qs| ==> PageOf(qs[q]) == if q == i then count + 1 else PageOf(ps[if q < i then q else q - 1]))
  {
    var p := Pointer(count + 1, entry);
    var qs := InsertAt(ps, i, p);
    PointerRoundTrip(count + 1, entry);
    assert PointsInto(p, root, count + 1) && PageOf(p) == count + 1;
    InsertAtIndex(ps, i, p);
    forall q | 0 <= q < |qs|
      ensures PointsInto(qs[q], root, count + 1)
      ensures PageOf(qs[q]) == if q == i then count + 1 else PageOf(ps[if q < i then q else q - 1])
    {
      if q != i {
        var q' := if q < i then q else q - 1;
        assert qs[q] == ps[q'];
        assert PointsInto(ps[q'], root, count);
      }
    }
  }

  /** ... and no two of them share a page. */
  lemma InsertPointers(ps: seq<string>, root: nat, count: nat, i: nat, entry: nat)
    requires i <= |ps| && count + 1 <= MaxUint32 && entry <= MaxUint32 && root <= count
    requires forall q :: 0 <= q < |ps| ==> PointsInto(ps[q], root, count)
    requires forall q, r :: 0 <= q < r < |ps| ==> PageOf(ps[q]) != PageOf(ps[r])
    ensures var qs := InsertAt(ps, i, Pointer(count + 1, entry));
      && (forall q :: 0 <= q < |qs| ==> PointsInto(qs[q], root, count + 1))
      && (forall q, r :: 0 <= q < r < |qs| ==> PageOf(qs[q]) != PageOf(qs[r]))
  {
    var qs := InsertAt(ps, i, Pointer(count + 1, entry));
    InsertPointsInto(ps, root, count, i, entry);
    forall q, r | 0 <= q < r < |qs| ensures PageOf(qs[q]) != PageOf(qs[r]) {
      if q != i && r != i {
        var q' := if q < i then q else q - 1;
        var r' := if r < i then r else r - 1;
        assert q' < r';
      } else if q == i {
        var r' := r - 1;
        assert PageOf(ps[r']) <= count;
      } else {
        assert PageOf(ps[q]) <= count;
      }
    }
  }

  /** A new id pointing past every page so far keeps the entries located. */
  lemma LocatedInsert(n: Node, root: nat, count: nat, i: nat, key: string, entry: nat)
    requires Located(n, root, count) && i <= |n.keys| == |n.pointers| && key !in n.keys
    requires count + 1 <= MaxUint32 && entry <= MaxUint32 && root <= count
    ensures Located(InsertEntry(n, i, key, Pointer(count + 1, entry)), root, count + 1)
  {
    InsertUnique(n.keys, i, key);
    InsertPointers(n.pointers, root, count, i, entry);
  }

  lemma LocatedRemove(n: Node, root: nat, count: nat, i: nat)
    requires Located(n, root, count) && i < |n.keys| == |n.pointers|
    ensures Located(RemoveEntry(n, i), root, count)
  {
    var m := RemoveEntry(n, i);
    forall q | 0 <= q < |m.pointers| ensures m.pointers[q] == n.pointers[if q < i then q else q + 1] {
      if q < i { assert m.pointers[q] == m.pointers[..i][q]; } else { assert m.pointers[q] == m.pointers[i..][q - i]; }
    }
    forall q | 0 <= q < |m.keys| ensures m.keys[q] == n.keys[if q < i then q else q + 1] {
      if q < i { assert m.keys[q] == m.keys[..i][q]; } else { assert m.keys[q] == m.keys[i..][q - i]; }
    }
  }

  // ---------------------------------------------------------------------------
  // Insert

  /** An id already indexed is rejected, and nothing is written. */
  lemma InsertDuplicate(db: Db, id: string, data: string)
    requires DbOk(db) && id in Keys(db)
    ensures Insert(db, id, data) == Reply(db, Err(AlreadyExists))
  {
    FindIndexed(db, id);
  }

  /** How an insert of a new id goes: the record onto page count + 1, then the index update. */
  lemma InsertFresh(db: Db, id: string, data: string)
    requires DbOk(db) && id !in Keys(db) && KeyText(id)
    ensures var (s1, loc) := StoreRecord(db.store, [id, data]);
      && loc == Location(db.store.pageCount + 1, 1)
      && db.root <= db.store.pageCount
      && ReadNode(s1, db.root) == ReadNode(db.store, db.root)
      && LeafOk(s1, db.root)
      && BPlusTree.Insert(s1, db.root, id, loc.pageId, loc.entry).Ok?
      && Insert(db, id, data) == Reply(Db(BPlusTree.Insert(s1, db.root, id, loc.pageId, loc.entry).value, db.root), Ok(()))
  {
    FindTotal(db.store, db.root, id);
    StoreRecordFresh(db.store, [id, data]);
    var (s1, loc) := StoreRecord(db.store, [id, data]);
    StoreRecordFrame(db.store, [id, data], db.root);
    RootFrame(db.store, s1, db.root, id);
    InsertKeepsLeafOk(s1, db.root, id, loc.pageId, loc.entry);
  }

  /** Writing a well-formed, located root node into a valid store gives a database that keeps the invariant. */
  lemma WrittenRootDbOk(s1: Pages, m: Node, root: nat)
    requires Valid(s1) && s1.freeList == [] && root > 0
    requires NodeOk(m, root) && Located(m, root, s1.pageCount) && root <= s1.pageCount
    ensures DbOk(Db(WriteNode(s1, m), root)) && Keys(Db(WriteNode(s1, m), root)) == m.keys
    ensures WriteNode(s1, m).pageCount == s1.pageCount
  {
    Reread(s1, m, root);
    WriteValid(s1, EncodeNode(m));
  }

  /** With room in the root, the index insert of a new id pointing at the newest page keeps the invariant. */
  lemma IndexInsertRoom(s1: Pages, root: nat, id: string, count: nat)
    requires Valid(s1) && s1.freeList == [] && s1.pageCount == count + 1 && count + 1 <= MaxUint32 && root <= count
    requires LeafOk(s1, root) && Located(ReadNode(s1, root).value, root, count)
    requires id !in ReadNode(s1, root).value.keys && KeyText(id) && |ReadNode(s1, root).value.keys| < MaxKeys
    ensures BPlusTree.Insert(s1, root, id, count + 1, 1).Ok?
    ensures var after := Db(BPlusTree.Insert(s1, root, id, count + 1, 1).value, root);
      DbOk(after) && after.store.pageCount == count + 1
  {
    var n := ReadNode(s1, root).value;
    var i := SearchStrings(n.keys, id);
    InsertStep(s1, root, id, count + 1, 1);
    LocatedInsert(n, root, count, i, id, 1);
    WrittenRootDbOk(s1, InsertEntry(n, i, id, Pointer(count + 1, 1)), root);
  }

  /** ... and puts the id at its sorted place among the root's keys. */
  lemma IndexInsertRoomKeys(s1: Pages, root: nat, id: string, count: nat)
    requires Valid(s1) && s1.freeList == [] && s1.pageCount == count + 1 && count + 1 <= MaxUint32 && root <= count
    requires LeafOk(s1, root) && Located(ReadNode(s1, root).value, root, count)
    requires id !in ReadNode(s1, root).value.keys && KeyText(id) && |ReadNode(s1, root).value.keys| < MaxKeys
    ensures BPlusTree.Insert(s1, root, id, count + 1, 1).Ok?
    ensures var keys := ReadNode(s1, root).value.keys;
      Keys(Db(BPlusTree.Insert(s1, root, id, count + 1, 1).value, root)) == InsertAt(keys, SearchStrings(keys, id), id)
  {
    var n := ReadNode(s1, root).value;
    var i := SearchStrings(n.keys, id);
    InsertStep(s1, root, id, count + 1, 1);
    LocatedInsert(n, root, count, i, id, 1);
    WrittenRootDbOk(s1, InsertEntry(n, i, id, Pointer(count + 1, 1)), root);
  }

  /** With the root full, the index is left alone and the invariant holds of the grown store. */
  lemma IndexInsertFull(s1: Pages, root: nat, id: string, count: nat)
    requires Valid(s1) && s1.freeList == [] && s1.pageCount == count + 1 && root <= count
    requires LeafOk(s1, root) && Located(ReadNode(s1, root).value, root, count)
    requires |ReadNode(s1, root).value.keys| == MaxKeys
    ensures BPlusTree.Insert(s1, root, id, count + 1, 1) == Ok(s1)
    ensures DbOk(Db(s1, root)) && Keys(Db(s1, root)) == ReadNode(s1, root).value.keys
  {
    InsertFullIsNoOp(s1, root, id, count + 1, 1);
    LocatedGrow(ReadNode(s1, root).value, root, count, s1.pageCount);
  }

  /** What the index insert needs of a store that only grew by one page past the root's. */
  lemma GrownStore(db: Db, s1: Pages)
    requires DbOk(db) && Read(s1, db.root) == Read(db.store, db.root) && s1.pageCount == db.store.pageCount + 1
    ensures ReadNode(s1, db.root) == ReadNode(db.store, db.root)
    ensures LeafOk(s1, db.root) && Located(ReadNode(s1, db.root).value, db.root, db.store.pageCount)
    ensures db.root <= db.store.pageCount
  {
    RootFrame(db.store, s1, db.root, "");
  }

  /** The store that StoreRecord leaves is one the index insert can work on. */
  lemma StoredRecord(db: Db, id: string, data: string)
    requires DbOk(db)
    ensures var r := StoreRecord(db.store, [id, data]);
      && r.1 == Location(db.store.pageCount + 1, 1)
      && Valid(r.0) && r.0.freeList == [] && r.0.pageCount == db.store.pageCount + 1
      && ReadNode(r.0, db.root) == ReadNode(db.store, db.root)
      && LeafOk(r.0, db.root) && Located(ReadNode(r.0, db.root).value, db.root, db.store.pageCount)
      && db.root <= db.store.pageCount
  {
    StoreRecordFresh(db.store, [id, data]);
    var r := StoreRecord(db.store, [id, data]);
    StoreRecordFrame(db.store, [id, data], db.root);
    GrownStore(db, r.0);
  }

  /** Inserting a new id succeeds, adds one page, and keeps the invariant. */
  lemma InsertKeepsDbOk(db: Db, id: string, data: string)
    requires DbOk(db) && id !in Keys(db) && KeyText(id) && db.store.pageCount + 1 <= MaxUint32
    ensures Insert(db, id, data).result == Ok(())
    ensures DbOk(Insert(db, id, data).db)
    ensures Insert(db, id, data).db.store.pageCount == db.store.pageCount + 1
  {
    InsertFresh(db, id, data);
    StoredRecord(db, id, data);
    var r := StoreRecord(db.store, [id, data]);
    if |Keys(db)| < MaxKeys {
      IndexInsertRoom(r.0, db.root, id, db.store.pageCount);
    } else {
      IndexInsertFull(r.0, db.root, id, db.store.pageCount);
    }
  }

  /** Inserting a new id puts it at its sorted place among the indexed ids while the root has room. */
  lemma InsertIndexesKey(db: Db, id: string, data: string)
    requires DbOk(db) && id !in Keys(db) && KeyText(id) && db.store.pageCount + 1 <= MaxUint32
    ensures Keys(Insert(db, id, data).db) ==
      if |Keys(db)| < MaxKeys then InsertAt(Keys(db), SearchStrings(Keys(db), id), id) else Keys(db)
  {
    InsertFresh(db, id, data);
    StoredRecord(db, id, data);
    var r := StoreRecord(db.store, [id, data]);
    if |Keys(db)| < MaxKeys {
      IndexInsertRoomKeys(r.0, db.root, id, db.store.pageCount);
    } else {
      IndexInsertFull(r.0, db.root, id, db.store.pageCount);
    }
  }

  /** After the index insert, the id leads to the record its page holds. */
  lemma GetAfterIndexInsert(s1: Pages, root: nat, id: string, loc: Location, rec: Record)
    requires LeafOk(s1, root) && |ReadNode(s1, root).value.keys| < MaxKeys && KeyText(id)
    requires 0 < loc.pageId <= MaxUint32 && loc.entry <= MaxUint32 && loc.pageId != root
    requires Read(s1, loc.pageId).Ok? && GetRecord(Read(s1, loc.pageId).value, loc.entry) == Ok(rec)
    ensures Get(Db(BPlusTree.Insert(s1, root, id, loc.pageId, loc.entry).value, root), id) == Ok(Some(rec))
  {
    InsertThenFind(s1, root, id, loc.pageId, loc.entry);
    IndexWriteFrame(s1, root, id, loc.pageId, loc.entry, loc.pageId);
    var s2 := BPlusTree.Insert(s1, root, id, loc.pageId, loc.entry).value;
    GetAt(Db(s2, root), id, loc, Read(s1, loc.pageId).value);
  }

  /** A new id inserted while the root leaf has room reads back as the record [id, data], entry 1 of its page. */
  lemma InsertThenGet(db: Db, id: string, data: string)
    requires DbOk(db) && id !in Keys(db) && |Keys(db)| < MaxKeys && db.store.pageCount + 1 <= MaxUint32
    requires KeyText(id) && FieldSeparator !in id && FieldSeparator !in data
    ensures Insert(db, id, data).result == Ok(())
    ensures Get(Insert(db, id, data).db, id) == Ok(Some(Record(1, [id, data])))
  {
    var fields := [id, data];
    assert forall k :: 0 <= k < |fields| ==> FieldSeparator !in fields[k];
    InsertFresh(db, id, data);
    StoreRecordFresh(db.store, fields);
    var r := StoreRecord(db.store, fields);
    GetAfterIndexInsert(r.0, db.root, id, r.1, Record(1, fields));
  }

  /** Get reads only the root, for the lookup, and the page the lookup names. */
  lemma GetFrame(a: Db, b: Db, id: string)
    requires a.root == b.root && Find(a.store, a.root, id) == Find(b.store, b.root, id)
    requires Find(a.store, a.root, id).Ok? ==>
      Read(a.store, Find(a.store, a.root, id).value.pageId) == Read(b.store, Find(a.store, a.root, id).value.pageId)
    ensures Get(a, id) == Get(b, id)
  {
  }

  /** Inserting a new id leaves every other id's record as it was. */
  lemma InsertKeepsOthersDb(db: Db, id: string, data: string, other: string)
    requires DbOk(db) && id !in Keys(db) && KeyText(id) && other != id
    ensures Get(Insert(db, id, data).db, other) == Get(db, other)
  {
    InsertFresh(db, id, data);
    var r := StoreRecord(db.store, [id, data]);
    InsertKeepsOthers(r.0, db.root, id, r.1.pageId, r.1.entry, other);
    RootFrame(db.store, r.0, db.root, other);
    var after := Db(BPlusTree.Insert(r.0, db.root, id, r.1.pageId, r.1.entry).value, db.root);
    if other in Keys(db) {
      FindIndexed(db, other);
      var pid := Find(db.store, db.root, other).value.pageId;
      IndexWriteFrame(r.0, db.root, id, r.1.pageId, r.1.entry, pid);
      StoreRecordFrame(db.store, [id, data], pid);
    } else {
      FindTotal(db.store, db.root, other);
    }
    GetFrame(after, db, other);
  }

  /**
   * With the root leaf full the record is still written to a new page and the
   * call reports success, but the id is not indexed, so it is never found.
   */
  lemma InsertWhenFull(db: Db, id: string, data: string)
    requires DbOk(db) && id !in Keys(db) && |Keys(db)| == MaxKeys && KeyText(id)
    ensures Insert(db, id, data).result == Ok(())
    ensures Insert(db, id, data).db.store.pageCount == db.store.pageCount + 1
    ensures Get(Insert(db, id, data).db, id) == Ok(None)
  {
    InsertFresh(db, id, data);
    StoreRecordFresh(db.store, [id, data]);
    var (s1, loc) := StoreRecord(db.store, [id, data]);
    InsertFullIsNoOp(s1, db.root, id, loc.pageId, loc.entry);
  }

  // ---------------------------------------------------------------------------
  // Delete

  /** The record an indexed id leads to is there: Get finds it. */
  predicate Holds(db: Db, id: string) {
    Get(db, id).Ok? && Get(db, id).value.Some?
  }

  /**
   * When the indexed id's page or record cannot be read, Delete reports the
   * error Get reports and writes nothing.
   */
  lemma DeleteUnreadable(db: Db, id: string)
    requires DbOk(db) && id in Keys(db) && !Holds(db, id)
    ensures Get(db, id).Err?
    ensures Delete(db, id) == Reply(db, Err(Get(db, id).error))
  {
    FindIndexed(db, id);
    var loc := Find(db.store, db.root, id).value;
    var page := Read(db.store, loc.pageId);
    if page.Ok? {
      GetAt(db, id, loc, page.value);
    }
  }

  /** The store after Delete's page write, before the index update. */
  function RecordRemoved(db: Db, id: string): (s1: Pages)
    requires DbOk(db) && id in Keys(db) && Holds(db, id)
  {
    FindIndexed(db, id);
    var loc := Find(db.store, db.root, id).value;
    Write(db.store, DeleteRecord(Read(db.store, loc.pageId).value, loc.entry).value)
  }

  /** How a delete of a readable record goes: its page rewritten without it, then the index update. */
  lemma DeleteFound(db: Db, id: string)
    requires DbOk(db) && id in Keys(db) && Holds(db, id)
    ensures var s1 := RecordRemoved(db, id);
      && Valid(s1) && s1.freeList == [] && s1.pageCount == db.store.pageCount
      && ReadNode(s1, db.root) == ReadNode(db.store, db.root)
      && LeafOk(s1, db.root)
      && BPlusTree.Delete(s1, db.root, id).Ok?
      && Delete(db, id) == Reply(Db(BPlusTree.Delete(s1, db.root, id).value, db.root), Ok(()))
  {
    FindIndexed(db, id);
    var loc := Find(db.store, db.root, id).value;
    var page := Read(db.store, loc.pageId).value;
    var removed := DeleteRecord(page, loc.entry).value;
    var s1 := Write(db.store, removed);
    assert removed.header.id == loc.pageId;
    WriteValid(db.store, removed);
    WriteFrame(db.store, removed, db.root);
    RootFrame(db.store, s1, db.root, id);
    DeleteStep(s1, db.root, id);
  }

  /** Deleting a readable record succeeds, keeps the invariant, and drops the id from the index. */
  lemma DeleteKeepsDbOk(db: Db, id: string)
    requires DbOk(db) && id in Keys(db) && Holds(db, id)
    ensures Delete(db, id).result == Ok(())
    ensures DbOk(Delete(db, id).db)
    ensures Keys(Delete(db, id).db) == RemoveAt(Keys(db), FirstIndex(Keys(db), id))
  {
    DeleteFound(db, id);
    var s1 := RecordRemoved(db, id);
    var n := ReadNode(s1, db.root).value;
    var i := FirstIndex(n.keys, id);
    DeleteStep(s1, db.root, id);
    RemoveEntryOk(n, db.root, i);
    LocatedRemove(n, db.root, db.store.pageCount, i);
    WrittenRootDbOk(s1, RemoveEntry(n, i), db.root);
  }

  /** Once deleted, an id is no longer found. */
  lemma DeleteThenGet(db: Db, id: string)
    requires DbOk(db) && id in Keys(db) && Holds(db, id)
    ensures Delete(db, id).result == Ok(())
    ensures Get(Delete(db, id).db, id) == Ok(None)
  {
    DeleteFound(db, id);
    var s1 := RecordRemoved(db, id);
    DeleteThenFind(s1, db.root, id);
  }

  /** Deleting an id leaves every other id's record as it was. */
  lemma DeleteKeepsOthersDb(db: Db, id: string, other: string)
    requires DbOk(db) && id in Keys(db) && Holds(db, id) && other != id
    ensures Get(Delete(db, id).db, other) == Get(db, other)
  {
    DeleteFound(db, id);
    var s1 := RecordRemoved(db, id);
    var after := Db(BPlusTree.Delete(s1, db.root, id).value, db.root);
    BPlusTree.DeleteKeepsOthers(s1, db.root, id, other);
    RootFrame(db.store, s1, db.root, other);
    if other in Keys(db) {
      FindIndexed(db, id);
      IndexedApart(db, id, other);
      var loc := Find(db.store, db.root, id).value;
      var page := Read(db.store, loc.pageId).value;
      var removed := DeleteRecord(page, loc.entry).value;
      assert removed.header.id == loc.pageId;
      var pid := Find(db.store, db.root, other).value.pageId;
      WriteFrame(db.store, removed, pid);
      IndexWriteFrame(s1, db.root, id, 0, 0, pid);
    } else {
      FindTotal(db.store, db.root, other);
    }
    GetFrame(after, db, other);
  }

  // ---------------------------------------------------------------------------
  // Update

  /** When the indexed id's page or record cannot be read, Update reports Get's error and writes nothing. */
  lemma UpdateUnreadable(db: Db, id: string, newData: string)
    requires DbOk(db) && id in Keys(db) && !Holds(db, id)
    ensures Get(db, id).Err?
    ensures Update(db, id, newData) == Reply(db, Err(Get(db, id).error))
  {
    FindIndexed(db, id);
    var loc := Find(db.store, db.root, id).value;
    var page := Read(db.store, loc.pageId);
    if page.Ok? {
      GetAt(db, id, loc, page.value);
    }
  }

  /** A record of a single field has no second field to replace: Update panics and writes nothing. */
  lemma UpdateShortRecord(db: Db, id: string, newData: string)
    requires DbOk(db) && id in Keys(db) && Holds(db, id) && |Get(db, id).value.value.fields| < 2
    ensures Update(db, id, newData) == Reply(db, Err(Panic))
  {
    FindIndexed(db, id);
  }

  /** The record's page as Update rewrites it. */
  function UpdatedPage(db: Db, id: string, newData: string): (page: Page)
    requires DbOk(db) && id in Keys(db) && Holds(db, id) && |Get(db, id).value.value.fields| >= 2
  {
    FindIndexed(db, id);
    var loc := Find(db.store, db.root, id).value;
    var page := Read(db.store, loc.pageId).value;
    var fields := Get(db, id).value.value.fields[1 := newData];
    page.(data := page.data[EntryKey(loc.entry) := Join(fields, FieldSeparator)])
  }

  /** How an update of a readable record of two or more fields goes: one page write. */
  lemma UpdateFound(db: Db, id: string, newData: string)
    requires DbOk(db) && id in Keys(db) && Holds(db, id) && |Get(db, id).value.value.fields| >= 2
    ensures var loc := Find(db.store, db.root, id).value;
      var page := UpdatedPage(db, id, newData);
      && Update(db, id, newData) == Reply(Db(Write(db.store, page), db.root), Ok(()))
      && page.header == Read(db.store, loc.pageId).value.header
      && page.header.id == loc.pageId && 0 < loc.pageId <= db.store.pageCount && loc.pageId != db.root
  {
    FindIndexed(db, id);
  }

  /** Update keeps the invariant and the indexed ids. */
  lemma UpdateKeepsDbOk(db: Db, id: string, newData: string)
    requires DbOk(db) && id in Keys(db) && Holds(db, id) && |Get(db, id).value.value.fields| >= 2
    ensures DbOk(Update(db, id, newData).db)
    ensures Keys(Update(db, id, newData).db) == Keys(db)
  {
    UpdateFound(db, id, newData);
    var page := UpdatedPage(db, id, newData);
    WriteValid(db.store, page);
    WriteFrame(db.store, page, db.root);
    RootFrame(db.store, Write(db.store, page), db.root, id);
  }

  /** After an update the id reads back with its second field replaced and every other field kept. */
  lemma UpdateThenGet(db: Db, id: string, newData: string)
    requires DbOk(db) && id in Keys(db) && Holds(db, id) && |Get(db, id).value.value.fields| >= 2
    requires FieldSeparator !in newData
    ensures var rec := Get(db, id).value.value;
      && Update(db, id, newData).result == Ok(())
      && Get(Update(db, id, newData).db, id) == Ok(Some(Record(rec.entryIndex, rec.fields[1 := newData])))
  {
    UpdateFound(db, id, newData);
    var loc := Find(db.store, db.root, id).value;
    var rec := Get(db, id).value.value;
    var fields := rec.fields[1 := newData];
    var page := UpdatedPage(db, id, newData);
    var s1 := Write(db.store, page);
    WriteFrame(db.store, page, db.root);
    RootFrame(db.store, s1, db.root, id);
    ReadAfterWrite(db.store, page);
    assert forall k :: 0 <= k < |fields| ==> FieldSeparator !in fields[k] by {
      forall k | 0 <= k < |fields| ensures FieldSeparator !in fields[k] {
        if k != 1 { assert fields[k] == rec.fields[k]; }
      }
    }
    SplitJoin(fields, FieldSeparator);
    GetAt(Db(s1, db.root), id, loc, page);
  }

  /** The write of an update touches no other id's page nor the root. */
  lemma UpdateFoundKeepsOthers(db: Db, id: string, newData: string, other: string)
    requires DbOk(db) && id in Keys(db) && Holds(db, id) && |Get(db, id).value.value.fields| >= 2 && other != id
    ensures Get(Update(db, id, newData).db, other) == Get(db, other)
  {
    UpdateFound(db, id, newData);
    var page := UpdatedPage(db, id, newData);
    var s1 := Write(db.store, page);
    WriteFrame(db.store, page, db.root);
    RootFrame(db.store, s1, db.root, other);
    if other in Keys(db) {
      IndexedApart(db, id, other);
      FindIndexed(db, other);
      WriteFrame(db.store, page, Find(db.store, db.root, other).value.pageId);
    } else {
      FindTotal(db.store, db.root, other);
    }
    GetFrame(Db(s1, db.root), db, other);
  }

  /** Updating an id leaves every other id's record as it was. */
  lemma UpdateKeepsOthers(db: Db, id: string, newData: string, other: string)
    requires DbOk(db) && id in Keys(db) && other != id
    ensures Get(Update(db, id, newData).db, other) == Get(db, other)
  {
    if !Holds(db, id) {
      UpdateUnreadable(db, id, newData);
    } else if |Get(db, id).value.value.fields| < 2 {
      UpdateShortRecord(db, id, newData);
    } else {
      UpdateFoundKeepsOthers(db, id, newData, other);
    }
  }
}
