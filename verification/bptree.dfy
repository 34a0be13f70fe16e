/**
 * The index (storage/bptree.go): a single root leaf kept in a page of type
 * `Index`, whose payload holds `IsLeaf`, the comma-joined `Keys` and the
 * comma-joined `Pointers` (`<pageID>:<entryIndex>`, one per key). Only a leaf
 * root with room is ever changed; splitting is not implemented by the program.
 */
module BPlusTree {
  import opened Results
  import opened GoStrings
  import opened Decimal
  import opened TextStore
  import opened PageStore
  import opened StringOrder

  const Order: nat := 4
  const MaxKeys: nat := Order - 1
  const IndexType: string := "Index"
  const IsLeafField: string := "IsLeaf"
  const KeysField: string := "Keys"
  const PointersField: string := "Pointers"

  /** A node as readNode builds it: its page, and the decoded payload fields. */
  datatype Node = Node(page: Page, isLeaf: bool, keys: seq<string>, pointers: seq<string>)

  /** Where a record lives: the data page and the entry index within it. */
  datatype Location = Location(pageId: nat, entry: nat)

  /** A payload value as Go's map index yields it: the empty string when absent. */
  function Lookup(data: map<string, string>, field: string): string {
    if field in data then data[field] else ""
  }

  /** A comma-separated list field: absent or empty text is the empty list. */
  function DecodeList(data: map<string, string>, field: string): (r: seq<string>)
    ensures forall k :: 0 <= k < |r| ==> ',' !in r[k]
    ensures Lookup(data, field) == "" <==> r == []
    ensures r != [] ==> Join(r, ',') == data[field]
  {
    if field in data && data[field] != "" then
      JoinSplit(data[field], ',');
      Split(data[field], ',')
    else []
  }

  /** readNode: read the page, then decode its payload. */
  function ReadNode(s: Pages, id: nat): (r: Result<Node>)
    ensures Read(s, id).Err? ==> r == Err(Read(s, id).error)
    ensures Read(s, id).Ok? ==> r.Ok? && r.value.page == Read(s, id).value
    ensures r.Ok? ==> r.value.isLeaf == ParseBool(Lookup(r.value.page.data, IsLeafField))
  {
    var page :- Read(s, id);
    Ok(Node(page, ParseBool(Lookup(page.data, IsLeafField)), DecodeList(page.data, KeysField), DecodeList(page.data, PointersField)))
  }

  /** writeNode's payload update: the three fields re-encoded, the rest of the page kept. */
  function EncodeNode(n: Node): (p: Page)
    ensures p.header == n.page.header
    ensures forall k :: k != IsLeafField && k != KeysField && k != PointersField ==>
      (k in p.data <==> k in n.page.data) && (k in n.page.data ==> p.data[k] == n.page.data[k])
  {
    n.page.(data := n.page.data[IsLeafField := FormatBool(n.isLeaf)][KeysField := Join(n.keys, ',')][PointersField := Join(n.pointers, ',')])
  }

  function WriteNode(s: Pages, n: Node): Pages {
    Write(s, EncodeNode(n))
  }

  /** A list that survives Join then Split on `,`: no element holds a comma, and it is not the one-empty-string list. */
  predicate Encodable(xs: seq<string>) {
    xs != [""] && forall k :: 0 <= k < |xs| ==> ',' !in xs[k]
  }

  lemma DecodeJoin(data: map<string, string>, field: string, xs: seq<string>)
    requires Encodable(xs) && field in data && data[field] == Join(xs, ',')
    ensures DecodeList(data, field) == xs
  {
    if xs != [] {
      if |xs| == 1 {
        assert Join(xs, ',') == xs[0];
      } else {
        assert Join(xs, ',') == xs[0] + [','] + Join(xs[1..], ',');
        assert Join(xs, ',')[|xs[0]|] == ',';
      }
      SplitJoin(xs, ',');
    }
  }

  /** A node written and read back decodes to what was written. */
  lemma NodeRoundTrip(s: Pages, n: Node)
    requires n.page.header.id > 0 && Encodable(n.keys) && Encodable(n.pointers)
    ensures ReadNode(WriteNode(s, n), n.page.header.id) == Ok(Node(EncodeNode(n), n.isLeaf, n.keys, n.pointers))
  {
    var p := EncodeNode(n);
    ReadAfterWrite(s, p);
    ParseFormatBool(n.isLeaf);
    DecodeJoin(p.data, KeysField, n.keys);
    DecodeJoin(p.data, PointersField, n.pointers);
  }

  // ---------------------------------------------------------------------------
  // Pointers

  /** A pointer's text: the page id and the entry index in decimal, joined by `:`. */
  function Pointer(pageId: nat, entry: nat): string {
    Format(pageId) + ":" + Format(entry)
  }

  /** How Find reads a pointer: split at `:`, both halves through ParseUint(.., 10, 32); fewer than two parts panics. */
  function ParsePointer(p: string): (r: Result<Location>)
    ensures r.Err? <==> ':' !in p
    ensures r.Err? ==> r.error == Panic
    ensures r.Ok? ==> r.value.pageId <= MaxUint32 && r.value.entry <= MaxUint32
  {
    var parts := Split(p, ':');
    if |parts| < 2 then
      assert IndexChar(p, ':') == -1;
      Err(Panic)
    else Ok(Location(ParseUint32(parts[0]), ParseUint32(parts[1])))
  }

  lemma DigitsNoSeparator(n: nat, c: char)
    requires !('0' <= c <= '9')
    ensures c !in Format(n)
  {
    var f := Format(n);
    assert forall k :: 0 <= k < |f| ==> IsDigit(f[k]);
  }

  /** Pointers to ids and indices below 2^32 read back as written. */
  lemma PointerRoundTrip(pageId: nat, entry: nat)
    requires pageId <= MaxUint32 && entry <= MaxUint32
    ensures ParsePointer(Pointer(pageId, entry)) == Ok(Location(pageId, entry))
  {
    var a := Format(pageId);
    var b := Format(entry);
    DigitsNoSeparator(pageId, ':');
    DigitsNoSeparator(entry, ':');
    assert [a, b][1..] == [b];
    assert Join([a, b], ':') == a + [':'] + b;
    SplitJoin([a, b], ':');
    ParseUint32Format(pageId);
    ParseUint32Format(entry);
  }

  lemma PointerEncodable(pageId: nat, entry: nat)
    ensures ',' !in Pointer(pageId, entry) && Pointer(pageId, entry) != ""
  {
    DigitsNoSeparator(pageId, ',');
    DigitsNoSeparator(entry, ',');
  }

  // ---------------------------------------------------------------------------
  // Operations

  function InsertAt<T>(a: seq<T>, i: nat, x: T): (r: seq<T>)
    requires i <= |a|
    ensures |r| == |a| + 1
  {
    a[..i] + [x] + a[i..]
  }

  function RemoveAt<T>(a: seq<T>, i: nat): (r: seq<T>)
    requires i < |a|
    ensures |r| == |a| - 1
  {
    a[..i] + a[i + 1..]
  }

  /** The position of the first occurrence of key, as the range loops find it. */
  function FirstIndex(keys: seq<string>, key: string): (r: int)
    ensures -1 <= r < |keys|
    ensures r == -1 <==> key !in keys
    ensures r >= 0 ==> keys[r] == key && key !in keys[..r]
  {
    if keys == [] then -1
    else if keys[0] == key then 0
    else
      var r := FirstIndex(keys[1..], key);
      if r == -1 then -1 else r + 1
  }

  /** The leaf with key and pointer inserted at position i. */
  function InsertEntry(n: Node, i: nat, key: string, pointer: string): (m: Node)
    requires i <= |n.keys| && i <= |n.pointers|
    ensures m.page == n.page && m.isLeaf == n.isLeaf
    ensures |m.keys| == |n.keys| + 1 && |m.pointers| == |n.pointers| + 1
    ensures m.keys[i] == key && m.pointers[i] == pointer
    ensures m.keys[..i] == n.keys[..i] && m.keys[i + 1..] == n.keys[i..]
    ensures m.pointers[..i] == n.pointers[..i] && m.pointers[i + 1..] == n.pointers[i..]
  {
    n.(keys := InsertAt(n.keys, i, key), pointers := InsertAt(n.pointers, i, pointer))
  }

  /** The leaf with the key and pointer at position i removed. */
  function RemoveEntry(n: Node, i: nat): (m: Node)
    requires i < |n.keys| && i < |n.pointers|
    ensures m.page == n.page && m.isLeaf == n.isLeaf
    ensures |m.keys| == |n.keys| - 1 && |m.pointers| == |n.pointers| - 1
    ensures m.keys[..i] == n.keys[..i] && m.keys[i..] == n.keys[i + 1..]
    ensures m.pointers[..i] == n.pointers[..i] && m.pointers[i..] == n.pointers[i + 1..]
  {
    n.(keys := RemoveAt(n.keys, i), pointers := RemoveAt(n.pointers, i))
  }

  /** The lookup in a leaf: the pointer of the first equal key; (0, 0) when absent. */
  function FindIn(n: Node, key: string): (r: Result<Location>)
  {
    var i := FirstIndex(n.keys, key);
    if i == -1 then Ok(Location(0, 0))
    else if i >= |n.pointers| then Err(Panic)
    else ParsePointer(n.pointers[i])
  }

  /**
   * NewBPlusTree: page 1 is the root when it can be read; otherwise a page is
   * allocated, made an empty leaf of type `Index`, and written.
   */
  function NewTree(s: Pages): (r: (Pages, nat))
  {
    if Read(s, 1).Ok? then (s, Read(s, 1).value.header.id)
    else
      var a := PageStore.Allocate(s);
      var root := a.1.(header := a.1.header.(pageType := IndexType),
                       data := a.1.data[IsLeafField := "true"][KeysField := ""][PointersField := ""]);
      (Write(a.0, root), root.header.id)
  }

  /**
   * Insert: into a leaf root with fewer than Order - 1 keys, at the position
   * sort.SearchStrings gives, the pointer at the same position; any other root
   * is left alone and the call still succeeds. A pointer list too short for
   * that position makes the slice expression panic.
   */
  function Insert(s: Pages, root: nat, key: string, pageId: nat, entry: nat): (r: Result<Pages>)
  {
    var node :- ReadNode(s, root);
    if node.isLeaf && |node.keys| < MaxKeys then
      var i := SearchStrings(node.keys, key);
      if i > |node.pointers| then Err(Panic)
      else Ok(WriteNode(s, InsertEntry(node, i, key, Pointer(pageId, entry))))
    else Ok(s)
  }

  /** Find: a leaf root is searched; any other root is an error. */
  function Find(s: Pages, root: nat, key: string): (r: Result<Location>)
  {
    var node :- ReadNode(s, root);
    if !node.isLeaf then Err(NonLeafRoot) else FindIn(node, key)
  }

  /** Delete: remove the first equal key of a leaf root and its pointer. */
  function Delete(s: Pages, root: nat, key: string): (r: Result<Pages>)
  {
    var node :- ReadNode(s, root);
    if !node.isLeaf then Err(NonLeafRoot)
    else
      var i := FirstIndex(node.keys, key);
      if i == -1 then Err(KeyNotFound)
      else if i + 1 > |node.pointers| then Err(Panic)
      else Ok(WriteNode(s, RemoveEntry(node, i)))
  }

  // ---------------------------------------------------------------------------
  // The leaf root

  /** Keys the comma-joined list carries unchanged: not empty, no comma. */
  predicate KeyText(k: string) {
    k != "" && ',' !in k
  }

  /**
   * What every operation keeps of the root node: a leaf stored under its own
   * id, sorted, never fuller than the order allows, one pointer per key, keys
   * that encode, and pointers that hold a `:` and no `,`.
   */
  predicate NodeOk(n: Node, root: nat) {
    && n.isLeaf
    && n.page.header.id == root
    && Sorted(n.keys)
    && |n.keys| == |n.pointers| <= MaxKeys
    && (forall k :: 0 <= k < |n.keys| ==> KeyText(n.keys[k]))
    && (forall k :: 0 <= k < |n.pointers| ==> ':' in n.pointers[k] && ',' !in n.pointers[k])
  }

  predicate LeafOk(s: Pages, root: nat) {
    ReadNode(s, root).Ok? && NodeOk(ReadNode(s, root).value, root)
  }

  lemma LeafEncodable(n: Node, root: nat)
    requires NodeOk(n, root)
    ensures Encodable(n.keys) && Encodable(n.pointers)
  {
    assert n.keys != [""] by {
      if |n.keys| == 1 { assert KeyText(n.keys[0]); }
    }
    assert n.pointers != [""] by {
      if |n.pointers| == 1 { assert ':' in n.pointers[0]; }
    }
  }

  /** A well-formed root node written to the store reads back with the same entries. */
  lemma Reread(s: Pages, n: Node, root: nat)
    requires NodeOk(n, root) && root > 0
    ensures ReadNode(WriteNode(s, n), root) == Ok(n.(page := EncodeNode(n)))
    ensures LeafOk(WriteNode(s, n), root)
  {
    LeafEncodable(n, root);
    NodeRoundTrip(s, n);
  }

  /** Under LeafOk a lookup never fails: the key's pointer, or (0, 0) when absent. */
  lemma FindTotal(s: Pages, root: nat, key: string)
    requires LeafOk(s, root)
    ensures Find(s, root, key).Ok?
    ensures Find(s, root, key) == Ok(Location(0, 0)) <== key !in ReadNode(s, root).value.keys
  {
  }

  // ---------------------------------------------------------------------------
  // First occurrences

  /** The only index with these properties is the first occurrence. */
  lemma FirstIndexUnique(a: seq<string>, key: string, r: nat)
    requires r < |a| && a[r] == key && key !in a[..r]
    ensures FirstIndex(a, key) == r
  {
    var f := FirstIndex(a, key);
    assert forall q :: 0 <= q < r ==> a[..r][q] == a[q];
    if f >= 0 {
      assert forall q :: 0 <= q < f ==> a[..f][q] == a[q];
    }
  }

  /** A key other than the inserted one is found where it was, shifted past the insertion. */
  lemma FirstIndexInsert(a: seq<string>, i: nat, x: string, key: string)
    requires i <= |a| && key != x
    ensures var j := FirstIndex(a, key);
      FirstIndex(InsertAt(a, i, x), key) == if j == -1 then -1 else if j < i then j else j + 1
  {
    var b := InsertAt(a, i, x);
    var j := FirstIndex(a, key);
    if j == -1 {
      forall q | 0 <= q < |b| ensures b[q] != key {
        if q < i { assert b[q] == a[q]; } else if q > i { assert b[q] == a[q - 1]; }
      }
    } else if j < i {
      var pre := b[..j];
      forall q | 0 <= q < j ensures pre[q] != key {
        assert pre[q] == a[..j][q];
      }
      FirstIndexUnique(b, key, j);
    } else {
      var pre := b[..j + 1];
      forall q | 0 <= q < j + 1 ensures pre[q] != key {
        if q < i { assert pre[q] == a[..j][q]; }
        else if q > i { assert pre[q] == a[..j][q - 1]; }
      }
      FirstIndexUnique(b, key, j + 1);
    }
  }

  /** A key other than the removed one is found where it was, shifted back past the removal. */
  lemma FirstIndexRemove(a: seq<string>, i: nat, key: string)
    requires i < |a| && a[i] != key
    ensures var j := FirstIndex(a, key);
      FirstIndex(RemoveAt(a, i), key) == if j == -1 then -1 else if j < i then j else j - 1
  {
    var b := RemoveAt(a, i);
    var j := FirstIndex(a, key);
    if j == -1 {
      forall q | 0 <= q < |b| ensures b[q] != key {
        if q < i { assert b[q] == a[q]; } else { assert b[q] == a[q + 1]; }
      }
    } else if j < i {
      var pre := b[..j];
      forall q | 0 <= q < j ensures pre[q] != key {
        assert pre[q] == a[..j][q];
      }
      FirstIndexUnique(b, key, j);
    } else {
      var pre := b[..j - 1];
      forall q | 0 <= q < j - 1 ensures pre[q] != key {
        if q < i { assert pre[q] == a[..j][q]; }
        else { assert pre[q] == a[..j][q + 1]; }
      }
      FirstIndexUnique(b, key, j - 1);
    }
  }

  // ---------------------------------------------------------------------------
  // Leaf entries

  lemma PointerShape(pageId: nat, entry: nat)
    ensures ':' in Pointer(pageId, entry) && ',' !in Pointer(pageId, entry)
  {
    assert Pointer(pageId, entry)[|Format(pageId)|] == ':';
    PointerEncodable(pageId, entry);
  }

  /** Insertion where the search puts the key keeps a leaf with room well formed. */
  lemma InsertEntryOk(n: Node, root: nat, key: string, pageId: nat, entry: nat)
    requires NodeOk(n, root) && |n.keys| < MaxKeys && KeyText(key)
    ensures SearchStrings(n.keys, key) <= |n.pointers|
    ensures NodeOk(InsertEntry(n, SearchStrings(n.keys, key), key, Pointer(pageId, entry)), root)
  {
    var i := SearchStrings(n.keys, key);
    var m := InsertEntry(n, i, key, Pointer(pageId, entry));
    InsertKeepsSorted(n.keys, key);
    PointerShape(pageId, entry);
    forall k | 0 <= k < |m.keys| ensures KeyText(m.keys[k]) {
      if k < i { assert m.keys[k] == m.keys[..i][k]; }
      else if k > i { assert m.keys[k] == m.keys[i + 1..][k - i - 1]; }
    }
    forall k | 0 <= k < |m.pointers| ensures ':' in m.pointers[k] && ',' !in m.pointers[k] {
      if k < i { assert m.pointers[k] == m.pointers[..i][k]; }
      else if k > i { assert m.pointers[k] == m.pointers[i + 1..][k - i - 1]; }
    }
  }

  /** The inserted key is the first match for itself: every key before it sorts strictly below it. */
  lemma FindInInserted(n: Node, key: string, pageId: nat, entry: nat)
    requires Sorted(n.keys) && |n.keys| == |n.pointers|
    requires pageId <= MaxUint32 && entry <= MaxUint32
    ensures FindIn(InsertEntry(n, SearchStrings(n.keys, key), key, Pointer(pageId, entry)), key) == Ok(Location(pageId, entry))
  {
    var i := SearchStrings(n.keys, key);
    var m := InsertEntry(n, i, key, Pointer(pageId, entry));
    SearchStringsSplits(n.keys, key);
    BelowIrreflexive(key);
    var pre := m.keys[..i];
    forall q | 0 <= q < i ensures pre[q] != key {
      assert pre[q] == n.keys[q];
    }
    FirstIndexUnique(m.keys, key, i);
    PointerRoundTrip(pageId, entry);
  }

  /** Insertion leaves every other key's lookup as it was. */
  lemma FindInInsertOther(n: Node, i: nat, key: string, pointer: string, other: string)
    requires i <= |n.keys| == |n.pointers| && other != key
    ensures FindIn(InsertEntry(n, i, key, pointer), other) == FindIn(n, other)
  {
    var m := InsertEntry(n, i, key, pointer);
    FirstIndexInsert(n.keys, i, key, other);
    var j := FirstIndex(n.keys, other);
    if 0 <= j < i {
      assert m.pointers[j] == m.pointers[..i][j];
    } else if j >= i {
      assert m.pointers[j + 1] == m.pointers[i + 1..][j - i];
    }
  }

  lemma RemoveEntryOk(n: Node, root: nat, i: nat)
    requires NodeOk(n, root) && i < |n.keys|
    ensures NodeOk(RemoveEntry(n, i), root)
  {
    var m := RemoveEntry(n, i);
    RemoveKeepsSorted(n.keys, i);
    forall k | 0 <= k < |m.keys| ensures KeyText(m.keys[k]) {
      if k < i { assert m.keys[k] == m.keys[..i][k]; } else { assert m.keys[k] == m.keys[i..][k - i]; }
    }
    forall k | 0 <= k < |m.pointers| ensures ':' in m.pointers[k] && ',' !in m.pointers[k] {
      if k < i { assert m.pointers[k] == m.pointers[..i][k]; } else { assert m.pointers[k] == m.pointers[i..][k - i]; }
    }
  }

  /** With no duplicate keys, the removed key is no longer found. */
  lemma FindInRemoved(n: Node, i: nat)
    requires i < |n.keys| == |n.pointers| && Unique(n.keys)
    ensures FindIn(RemoveEntry(n, i), n.keys[i]) == Ok(Location(0, 0))
  {
    var m := RemoveEntry(n, i);
    forall q | 0 <= q < |m.keys| ensures m.keys[q] != n.keys[i] {
      if q < i { assert m.keys[q] == m.keys[..i][q]; } else { assert m.keys[q] == m.keys[i..][q - i]; }
    }
  }

  /** Removal leaves every other key's lookup as it was. */
  lemma FindInRemoveOther(n: Node, i: nat, other: string)
    requires i < |n.keys| == |n.pointers| && n.keys[i] != other
    ensures FindIn(RemoveEntry(n, i), other) == FindIn(n, other)
  {
    var m := RemoveEntry(n, i);
    FirstIndexRemove(n.keys, i, other);
    var j := FirstIndex(n.keys, other);
    if 0 <= j < i {
      assert m.pointers[j] == m.pointers[..i][j];
    } else if j > i {
      assert m.pointers[j - 1] == m.pointers[i..][j - 1 - i];
    }
  }

  /** No key occurs twice. */
  predicate Unique(keys: seq<string>) {
    forall j, k :: 0 <= j < k < |keys| ==> keys[j] != keys[k]
  }

  // ---------------------------------------------------------------------------
  // Insert and Delete on the store

  /** The store Insert leaves when the leaf root has room. */
  lemma InsertStep(s: Pages, root: nat, key: string, pageId: nat, entry: nat)
    requires LeafOk(s, root) && |ReadNode(s, root).value.keys| < MaxKeys && KeyText(key)
    ensures var n := ReadNode(s, root).value;
      var i := SearchStrings(n.keys, key);
      && i <= |n.pointers|
      && NodeOk(InsertEntry(n, i, key, Pointer(pageId, entry)), root)
      && Insert(s, root, key, pageId, entry) == Ok(WriteNode(s, InsertEntry(n, i, key, Pointer(pageId, entry))))
      && LeafOk(Insert(s, root, key, pageId, entry).value, root)
  {
    var n := ReadNode(s, root).value;
    InsertEntryOk(n, root, key, pageId, entry);
    Reread(s, InsertEntry(n, SearchStrings(n.keys, key), key, Pointer(pageId, entry)), root);
  }

  /** An inserted key is found at once with the pointer it was given, even when it was present already. */
  lemma InsertThenFind(s: Pages, root: nat, key: string, pageId: nat, entry: nat)
    requires LeafOk(s, root) && |ReadNode(s, root).value.keys| < MaxKeys && KeyText(key)
    requires pageId <= MaxUint32 && entry <= MaxUint32
    ensures Insert(s, root, key, pageId, entry).Ok?
    ensures Find(Insert(s, root, key, pageId, entry).value, root, key) == Ok(Location(pageId, entry))
  {
    var n := ReadNode(s, root).value;
    InsertStep(s, root, key, pageId, entry);
    FindAfterWrite(s, InsertEntry(n, SearchStrings(n.keys, key), key, Pointer(pageId, entry)), root, key);
    FindInInserted(n, key, pageId, entry);
  }

  /** Insert never fails on a well-formed root, and keeps it well formed. */
  lemma InsertKeepsLeafOk(s: Pages, root: nat, key: string, pageId: nat, entry: nat)
    requires LeafOk(s, root) && KeyText(key)
    ensures Insert(s, root, key, pageId, entry).Ok?
    ensures LeafOk(Insert(s, root, key, pageId, entry).value, root)
  {
    if |ReadNode(s, root).value.keys| < MaxKeys {
      InsertStep(s, root, key, pageId, entry);
    }
  }

  /** Inserting one key leaves the root well formed and the lookup of every other key as it was. */
  lemma InsertKeepsOthers(s: Pages, root: nat, key: string, pageId: nat, entry: nat, other: string)
    requires LeafOk(s, root) && KeyText(key) && other != key
    ensures Insert(s, root, key, pageId, entry).Ok?
    ensures LeafOk(Insert(s, root, key, pageId, entry).value, root)
    ensures Find(Insert(s, root, key, pageId, entry).value, root, other) == Find(s, root, other)
  {
    var n := ReadNode(s, root).value;
    if |n.keys| < MaxKeys {
      var i := SearchStrings(n.keys, key);
      InsertStep(s, root, key, pageId, entry);
      FindAfterWrite(s, InsertEntry(n, i, key, Pointer(pageId, entry)), root, other);
      FindInInsertOther(n, i, key, Pointer(pageId, entry), other);
    }
  }

  /** A full leaf root is left alone, and the call reports success. */
  lemma InsertFullIsNoOp(s: Pages, root: nat, key: string, pageId: nat, entry: nat)
    requires LeafOk(s, root) && |ReadNode(s, root).value.keys| == MaxKeys
    ensures Insert(s, root, key, pageId, entry) == Ok(s)
    ensures Find(s, root, key).Ok? && (key !in ReadNode(s, root).value.keys ==> Find(s, root, key) == Ok(Location(0, 0)))
  {
  }

  /**
   * The empty key encodes as an empty `Keys` field, which readNode reads as
   * no keys: inserted into an empty leaf it succeeds, yet is never found.
   */
  lemma EmptyKeyNotIndexed(s: Pages, root: nat, pageId: nat, entry: nat)
    requires LeafOk(s, root) && ReadNode(s, root).value.keys == []
    ensures Insert(s, root, "", pageId, entry).Ok?
    ensures Find(Insert(s, root, "", pageId, entry).value, root, "") == Ok(Location(0, 0))
  {
    var n := ReadNode(s, root).value;
    var m := InsertEntry(n, 0, "", Pointer(pageId, entry));
    assert m.keys == [""];
    assert Join(m.keys, ',') == "";
    ReadAfterWrite(s, EncodeNode(m));
  }

  /** Deleting fails with KeyNotFound exactly when the key is absent. */
  lemma DeleteMissing(s: Pages, root: nat, key: string)
    requires LeafOk(s, root)
    ensures Delete(s, root, key) == Err(KeyNotFound) <==> key !in ReadNode(s, root).value.keys
  {
  }

  /** A root that is not a leaf: Insert succeeds and writes nothing, Find and Delete fail. */
  lemma RootNotLeaf(s: Pages, root: nat, key: string, pageId: nat, entry: nat)
    requires ReadNode(s, root).Ok? && !ReadNode(s, root).value.isLeaf
    ensures Insert(s, root, key, pageId, entry) == Ok(s)
    ensures Find(s, root, key) == Err(NonLeafRoot)
    ensures Delete(s, root, key) == Err(NonLeafRoot)
  {
  }

  /** A root that cannot be read: each operation reports the read's error. */
  lemma RootUnreadable(s: Pages, root: nat, key: string, pageId: nat, entry: nat)
    requires ReadNode(s, root).Err?
    ensures Insert(s, root, key, pageId, entry) == Err(ReadNode(s, root).error)
    ensures Find(s, root, key) == Err(ReadNode(s, root).error)
    ensures Delete(s, root, key) == Err(ReadNode(s, root).error)
  {
  }

  /** The store Delete leaves when the key is present. */
  lemma DeleteStep(s: Pages, root: nat, key: string)
    requires LeafOk(s, root) && key in ReadNode(s, root).value.keys
    ensures var n := ReadNode(s, root).value;
      var i := FirstIndex(n.keys, key);
      && 0 <= i < |n.pointers|
      && Delete(s, root, key) == Ok(WriteNode(s, RemoveEntry(n, i)))
      && LeafOk(Delete(s, root, key).value, root)
  {
    var n := ReadNode(s, root).value;
    RemoveEntryOk(n, root, FirstIndex(n.keys, key));
    Reread(s, RemoveEntry(n, FirstIndex(n.keys, key)), root);
  }

  /** After a well-formed root is written, lookups are lookups in that node. */
  lemma FindAfterWrite(s: Pages, n: Node, root: nat, key: string)
    requires NodeOk(n, root) && root > 0
    ensures Find(WriteNode(s, n), root, key) == FindIn(n, key)
  {
    Reread(s, n, root);
  }

  /** A key held once is gone after its deletion. */
  lemma DeleteThenFind(s: Pages, root: nat, key: string)
    requires LeafOk(s, root) && key in ReadNode(s, root).value.keys && Unique(ReadNode(s, root).value.keys)
    ensures Delete(s, root, key).Ok?
    ensures Find(Delete(s, root, key).value, root, key) == Ok(Location(0, 0))
  {
    var n := ReadNode(s, root).value;
    var i := FirstIndex(n.keys, key);
    DeleteStep(s, root, key);
    RemoveEntryOk(n, root, i);
    FindAfterWrite(s, RemoveEntry(n, i), root, key);
    FindInRemoved(n, i);
  }

  /** Deleting one key leaves the root well formed and the lookup of every other key as it was. */
  lemma DeleteKeepsOthers(s: Pages, root: nat, key: string, other: string)
    requires LeafOk(s, root) && key in ReadNode(s, root).value.keys && other != key
    ensures Delete(s, root, key).Ok?
    ensures LeafOk(Delete(s, root, key).value, root)
    ensures Find(Delete(s, root, key).value, root, other) == Find(s, root, other)
  {
    var n := ReadNode(s, root).value;
    var i := FirstIndex(n.keys, key);
    DeleteStep(s, root, key);
    RemoveEntryOk(n, root, i);
    FindAfterWrite(s, RemoveEntry(n, i), root, other);
    FindInRemoveOther(n, i, other);
  }

  /** Index updates write the root page only. */
  lemma IndexWriteFrame(s: Pages, root: nat, key: string, pageId: nat, entry: nat, id: nat)
    requires LeafOk(s, root) && id != root
    ensures Insert(s, root, key, pageId, entry).Ok? ==> Read(Insert(s, root, key, pageId, entry).value, id) == Read(s, id)
    ensures Delete(s, root, key).Ok? ==> Read(Delete(s, root, key).value, id) == Read(s, id)
  {
  }

  // ---------------------------------------------------------------------------
  // NewBPlusTree

  /** A store whose page 1 cannot be read gets a fresh, empty leaf root written after the last page. */
  lemma NewTreeEmpty(s: Pages)
    requires Valid(s) && s.freeList == [] && Read(s, 1).Err?
    ensures NewTree(s).1 == s.pageCount + 1
    ensures Valid(NewTree(s).0) && LeafOk(NewTree(s).0, NewTree(s).1)
    ensures ReadNode(NewTree(s).0, NewTree(s).1).value.keys == []
    ensures Read(NewTree(s).0, NewTree(s).1).Ok?
    ensures Read(NewTree(s).0, NewTree(s).1).value.header == PageHeader(0, NewTree(s).1, IndexType)
    ensures forall id :: id != NewTree(s).1 ==> Read(NewTree(s).0, id) == Read(s, id)
  {
    var a := PageStore.Allocate(s);
    AllocateFresh(s);
    ParseFormatBool(true);
    assert FormatBool(true) == "true";
  }

  /** A store whose page 1 can be read keeps it as the root. */
  lemma NewTreeReuses(s: Pages)
    requires Valid(s) && Read(s, 1).Ok?
    ensures NewTree(s) == (s, 1)
  {
  }
}
