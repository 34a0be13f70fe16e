/**
 * The record API of a data page (storage/page.go). A record is a list of
 * fields stored as one payload entry `Entry-<n>` holding the fields joined
 * with `|`; the payload entry `EntryIndex` holds the last index handed out.
 */
module DataPage {
  import opened Results
  import opened GoStrings
  import opened Decimal
  import opened TextStore

  const DataType: string := "Data"
  const CounterKey: string := "EntryIndex"
  const FieldSeparator: char := '|'

  datatype Record = Record(entryIndex: nat, fields: seq<string>)

  /** The payload key of entry i. */
  function EntryKey(i: nat): string {
    "Entry-" + Format(i)
  }

  /** The counter as AddRecord reads it: scanned with %d into a uint, 0 when absent or unreadable. */
  function Counter(page: Page): (n: nat)
    ensures n <= MaxUint64
  {
    if CounterKey in page.data && ScanUint(page.data[CounterKey]).Some? then ScanUint(page.data[CounterKey]).value
    else 0
  }

  /** `EntryIndex++` on a 64-bit uint. */
  function Increment(n: nat): (r: nat)
    requires n <= MaxUint64
    ensures r <= MaxUint64
    ensures n < MaxUint64 ==> r == n + 1
    ensures n == MaxUint64 ==> r == 0
  {
    (n + 1) % (MaxUint64 + 1)
  }

  /** Entry keys and the counter key never collide, and distinct indices have distinct keys. */
  lemma EntryKeyDistinct(i: nat, j: nat)
    ensures EntryKey(i) != CounterKey
    ensures EntryKey(i) == EntryKey(j) ==> i == j
  {
    assert EntryKey(i)[5] == '-' && CounterKey[5] == 'I';
    if EntryKey(i) == EntryKey(j) {
      assert Format(i) == EntryKey(i)[6..] == EntryKey(j)[6..] == Format(j);
      FormatInjective(i, j);
    }
  }

  /**
   * AddRecord: on a data page, advance the counter, store the fields under the
   * new index and return that index. Nothing else in the page changes.
   */
  function AddRecord(page: Page, fields: seq<string>): (r: Result<(Page, nat)>)
    ensures r.Err? <==> page.header.pageType != DataType
    ensures r.Err? ==> r.error == NotDataPage
    ensures r.Ok? ==>
      var (p, i) := r.value;
      && i == Increment(Counter(page))
      && Counter(p) == i
      && EntryKey(i) in p.data && p.data[EntryKey(i)] == Join(fields, FieldSeparator)
      && p.header == page.header
      && (forall k :: k != CounterKey && k != EntryKey(i) ==>
            (k in p.data <==> k in page.data) && (k in page.data ==> p.data[k] == page.data[k]))
  {
    if page.header.pageType != DataType then Err(NotDataPage)
    else
      var i := Increment(Counter(page));
      EntryKeyDistinct(i, i);
      ScanUintFormat(i);
      var p := page.(data := page.data[CounterKey := Format(i)][EntryKey(i) := Join(fields, FieldSeparator)]);
      Ok((p, i))
  }

  /** GetRecord: the fields stored under entry i, split at `|`. */
  function GetRecord(page: Page, i: nat): (r: Result<Record>)
    ensures page.header.pageType != DataType ==> r == Err(NotDataPage)
    ensures page.header.pageType == DataType && EntryKey(i) !in page.data ==> r == Err(RecordNotFound)
    ensures r.Ok? ==>
      && EntryKey(i) in page.data
      && r.value.entryIndex == i
      && Join(r.value.fields, FieldSeparator) == page.data[EntryKey(i)]
      && |r.value.fields| >= 1
      && (forall k :: 0 <= k < |r.value.fields| ==> FieldSeparator !in r.value.fields[k])
  {
    if page.header.pageType != DataType then Err(NotDataPage)
    else if EntryKey(i) !in page.data then Err(RecordNotFound)
    else
      var fields := Split(page.data[EntryKey(i)], FieldSeparator);
      JoinSplit(page.data[EntryKey(i)], FieldSeparator);
      Ok(Record(i, fields))
  }

  /** DeleteRecord: remove entry i; the counter and every other entry stay. */
  function DeleteRecord(page: Page, i: nat): (r: Result<Page>)
    ensures page.header.pageType != DataType ==> r == Err(NotDataPage)
    ensures page.header.pageType == DataType && EntryKey(i) !in page.data ==> r == Err(RecordNotFound)
    ensures r.Ok? ==>
      && EntryKey(i) in page.data
      && EntryKey(i) !in r.value.data
      && r.value.header == page.header
      && Counter(r.value) == Counter(page)
      && (forall k :: k != EntryKey(i) ==>
            (k in r.value.data <==> k in page.data) && (k in page.data ==> r.value.data[k] == page.data[k]))
  {
    if page.header.pageType != DataType then Err(NotDataPage)
    else if EntryKey(i) !in page.data then Err(RecordNotFound)
    else
      EntryKeyDistinct(i, i);
      Ok(page.(data := page.data - {EntryKey(i)}))
  }

  /** A record whose fields hold no `|` reads back as it was added. */
  lemma GetAfterAdd(page: Page, fields: seq<string>)
    requires page.header.pageType == DataType
    requires |fields| >= 1 && forall k :: 0 <= k < |fields| ==> FieldSeparator !in fields[k]
    ensures AddRecord(page, fields).Ok?
    ensures var (p, i) := AddRecord(page, fields).value;
      GetRecord(p, i) == Ok(Record(i, fields))
  {
    var (p, i) := AddRecord(page, fields).value;
    SplitJoin(fields, FieldSeparator);
  }

  /** Adding a record leaves every other entry readable as before. */
  lemma AddKeepsOthers(page: Page, fields: seq<string>, j: nat)
    requires page.header.pageType == DataType
    requires j != Increment(Counter(page))
    ensures GetRecord(AddRecord(page, fields).value.0, j) == GetRecord(page, j)
  {
    EntryKeyDistinct(j, Increment(Counter(page)));
  }

  /** A deleted record is gone; every other entry is readable as before. */
  lemma GetAfterDelete(page: Page, i: nat, j: nat)
    requires DeleteRecord(page, i).Ok?
    ensures GetRecord(DeleteRecord(page, i).value, i) == Err(RecordNotFound)
    ensures j != i ==> GetRecord(DeleteRecord(page, i).value, j) == GetRecord(page, j)
  {
    EntryKeyDistinct(i, j);
  }

  /** Every entry's index is between 1 and the counter. */
  ghost predicate EntriesCounted(page: Page) {
    forall j: nat :: EntryKey(j) in page.data ==> 1 <= j <= Counter(page)
  }

  /**
   * Below the wrap-around of the 64-bit counter, adding never overwrites an
   * entry and keeps every entry counted; deleting keeps them counted too, so
   * an index once deleted is never handed out again.
   */
  lemma AddIsFresh(page: Page, fields: seq<string>)
    requires page.header.pageType == DataType && EntriesCounted(page) && Counter(page) < MaxUint64
    ensures var (p, i) := AddRecord(page, fields).value;
      EntryKey(i) !in page.data && EntriesCounted(p)
  {
    var (p, i) := AddRecord(page, fields).value;
    forall j: nat | EntryKey(j) in p.data
      ensures 1 <= j <= Counter(p)
    {
      EntryKeyDistinct(j, i);
    }
  }

  lemma DeleteKeepsCounted(page: Page, i: nat)
    requires EntriesCounted(page) && DeleteRecord(page, i).Ok?
    ensures EntriesCounted(DeleteRecord(page, i).value)
  {
  }

  /** Deleting entry i and adding a record hands out an index other than i. */
  lemma DeleteThenAddNoReuse(page: Page, i: nat, fields: seq<string>)
    requires EntriesCounted(page) && Counter(page) < MaxUint64
    requires DeleteRecord(page, i).Ok?
    ensures AddRecord(DeleteRecord(page, i).value, fields).Ok?
    ensures AddRecord(DeleteRecord(page, i).value, fields).value.1 != i
  {
  }
}
