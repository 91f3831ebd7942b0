/** The store object: the mapped file, its page index, and the search loop. */
module KVStore {
  import opened Text
  import opened KVSpec

  // ---- ordered map primitives ---------------------------------------------

  /** `std::map::lower_bound`: the least key not below `key`, `None` for the end. */
  method LowerBound(m: map<nat, nat>, key: nat) returns (r: Option<nat>)
    ensures r.Some? ==> r.value in m && key <= r.value
    ensures r.Some? ==> forall k :: k in m && key <= k ==> r.value <= k
    ensures r.None? ==> forall k :: k in m ==> k < key
  {
    r := None;
    var todo := m.Keys;
    while todo != {}
      invariant todo <= m.Keys
      invariant r.Some? ==> r.value in m && key <= r.value
      invariant forall k :: k in m && k !in todo && key <= k ==> r.Some? && r.value <= k
      decreases |todo|
    {
      assert exists k :: k in todo by { HasMember(todo); }
      var k :| k in todo;
      if key <= k && (r.None? || k < r.value) {
        r := Some(k);
      }
      todo := todo - {k};
    }
  }

  /** Stepping an iterator back: the greatest key below `bound` (below the end, for
      `None`); `None` when there is nothing before it. */
  method Before(m: map<nat, nat>, bound: Option<nat>) returns (r: Option<nat>)
    ensures r.Some? ==> r.value in m && (bound.Some? ==> r.value < bound.value)
    ensures forall k :: k in m && (bound.Some? ==> k < bound.value) ==> r.Some? && k <= r.value
  {
    r := None;
    var todo := m.Keys;
    while todo != {}
      invariant todo <= m.Keys
      invariant r.Some? ==> r.value in m && (bound.Some? ==> r.value < bound.value)
      invariant forall k :: k in m && k !in todo && (bound.Some? ==> k < bound.value) ==> r.Some? && k <= r.value
      decreases |todo|
    {
      assert exists k :: k in todo by { HasMember(todo); }
      var k :| k in todo;
      if (bound.None? || k < bound.value) && (r.None? || r.value < k) {
        r := Some(k);
      }
      todo := todo - {k};
    }
  }

  // ---- the index -------------------------------------------------------------

  ghost predicate StartsAt(records: seq<Record>, perPage: nat, p: nat, key: nat) {
    Start(perPage, p) < |records| && records[Start(perPage, p)].key == key
  }

  /** Page `p` starts with `key`, and no later page among the first `pages` does. */
  ghost predicate LastWith(records: seq<Record>, perPage: nat, pages: nat, p: nat, key: nat) {
    && p < pages && StartsAt(records, perPage, p, key)
    && forall q: nat :: p < q < pages ==> !StartsAt(records, perPage, q, key)
  }

  /** The map holds the first keys of the pages, each with the byte offset of the last page
      that starts with it. */
  ghost predicate Built(store: map<nat, nat>, records: seq<Record>, len: nat, perPage: nat, pages: nat) {
    && (forall p: nat, k: nat :: p < pages && StartsAt(records, perPage, p, k) ==> k in store)
    && (forall k :: k in store ==>
          exists p: nat :: LastWith(records, perPage, pages, p, k) && store[k] == Start(perPage, p) * len)
  }

  /** The map holds the first key of every page, with the page's byte offset. */
  ghost predicate Indexes(store: map<nat, nat>, records: seq<Record>, len: nat, perPage: nat, pages: nat) {
    && (forall p: nat, k: nat :: p < pages && StartsAt(records, perPage, p, k) ==>
          k in store && store[k] == Start(perPage, p) * len)
    && (forall k :: k in store ==> exists p: nat :: p < pages && StartsAt(records, perPage, p, k))
  }

  /** Sizes the code can add up without wrapping. */
  ghost predicate Sized(records: seq<Record>, len: nat, perPage: nat) {
    && records != [] && len > 0 && perPage > 0
    && |records| * len + len * perPage <= SIZE_MAX
  }

  lemma FactorLess(a: nat, b: nat, c: nat)
    ensures a * c < b * c ==> a < b
    ensures a < b && c > 0 ==> a * c < b * c
  {
    if b <= a {
      MulMonotone(b, a, c);
    } else {
      MulMonotone(a + 1, b, c);
      MulDistributes(a, 1, c);
    }
  }

  class KVIndex {
    ghost const records: seq<Record>
    ghost const len: nat
    ghost const perPage: nat
    const store: map<nat, nat>
    const pageSize: nat
    const lastPageSize: nat

    ghost predicate Valid() {
      && Sized(records, len, perPage)
      && pageSize == len * perPage && pageSize > 0
      && lastPageSize == LastPageSize(|records| * len, pageSize)
      && Built(store, records, len, perPage, |records|)
    }

    constructor (records: seq<Record>, len: nat, perPage: nat)
      requires Sized(records, len, perPage)
      ensures Valid() && this.records == records && this.len == len && this.perPage == perPage
    {
      hide Built, Start;
      var size := |records| * len;
      MulPositive(len, perPage);
      var pageBytes := len * perPage;
      var last := size % pageBytes;
      last := if last == 0 then pageBytes else last;
      var built: map<nat, nat> := map[];
      var i: nat := 0;
      ghost var p: nat := 0;
      StartStep(perPage, 0, 0);
      NothingBuilt(records, len, perPage);
      while i < size
        invariant i == Start(perPage, p) * len
        invariant Built(built, records, len, perPage, p)
        decreases size - i
      {
        PageOffset(|records|, len, perPage, p);
        var d := records[i / len];
        BuildNextPage(built, records, len, perPage, p);
        assert i + pageBytes <= SIZE_MAX;
        built := built[d.key := i];
        i := i + pageBytes;
        p := p + 1;
      }
      FactorLess(Start(perPage, p), |records|, len);
      PagesBeyond(built, records, len, perPage, p);
      this.records, this.len, this.perPage := records, len, perPage;
      store, pageSize, lastPageSize := built, pageBytes, last;
    }

    method FindPage(key: nat) returns (r: Option<(nat, nat)>)
      requires Valid() && Sorted(records)
      ensures r == Window(records, len, perPage, key)
    {
      hide Window, Indexes, Built;
      SortedIndexes(store, records, len, perPage);
      IndexKnowsFirst(store, records, len, perPage);
      var low := LowerBound(store, key);
      if low == Some(key) {
        ghost var p := HitPage(store, records, len, perPage, key);
        return Some((store[key], store[key] + pageSize));
      }
      var prev := Before(store, low);
      if low.Some? && prev.Some? {
        ghost var p := InnerPage(store, records, len, perPage, key, low.value, prev.value);
        return Some((store[prev.value], store[prev.value] + pageSize));
      } else if low.None? {
        assert records[0].key in store;
        ghost var p := LastPage(store, records, len, perPage, key, prev.value);
        return Some((store[prev.value], store[prev.value] + lastPageSize));
      }
      BelowAll(store, records, len, perPage, key);
      return None;
    }
  }

  // ---- proofs about the index ----------------------------------------------------

  /** The byte offset of a page within the file is that of a record, and a page further is
      the next page's. */
  lemma PageOffset(n: nat, len: nat, perPage: nat, p: nat)
    requires len > 0 && perPage > 0 && Start(perPage, p) * len < n * len
    ensures Start(perPage, p) < n && (Start(perPage, p) * len) / len == Start(perPage, p)
    ensures Start(perPage, p + 1) * len == Start(perPage, p) * len + len * perPage
  {
    hide Start;
    var b := Start(perPage, p);
    FactorLess(b, n, len);
    DivExact(b, len);
    StartStep(perPage, p, 0);
    MulDistributes(b, perPage, len);
  }

  lemma NothingBuilt(records: seq<Record>, len: nat, perPage: nat)
    ensures Built(map[], records, len, perPage, 0)
  {
  }

  lemma BuildNextPage(store: map<nat, nat>, records: seq<Record>, len: nat, perPage: nat, p: nat)
    requires Start(perPage, p) < |records|
    requires Built(store, records, len, perPage, p)
    ensures Built(store[records[Start(perPage, p)].key := Start(perPage, p) * len], records, len, perPage, p + 1)
  {
    hide Start;
    var key := records[Start(perPage, p)].key;
    var s := store[key := Start(perPage, p) * len];
    forall k | k in s
      ensures exists q: nat :: LastWith(records, perPage, p + 1, q, k) && s[k] == Start(perPage, q) * len
    {
      if k == key {
        assert LastWith(records, perPage, p + 1, p, k);
      } else {
        var q: nat :| LastWith(records, perPage, p, q, k) && store[k] == Start(perPage, q) * len;
        assert LastWith(records, perPage, p + 1, q, k);
      }
    }
  }

  /** Past the last page there is nothing more to index. */
  lemma PagesBeyond(store: map<nat, nat>, records: seq<Record>, len: nat, perPage: nat, p: nat)
    requires perPage > 0 && Start(perPage, p) >= |records|
    requires Built(store, records, len, perPage, p)
    ensures Built(store, records, len, perPage, |records|)
  {
    hide Start;
    forall q: nat, k: nat | StartsAt(records, perPage, q, k) ensures q < p && q < |records| {
      if p <= q {
        StartStep(perPage, p, q);
      }
      PageCount(perPage, q);
    }
    forall k | k in store
      ensures exists q: nat :: LastWith(records, perPage, |records|, q, k) && store[k] == Start(perPage, q) * len
    {
      var q: nat :| LastWith(records, perPage, p, q, k) && store[k] == Start(perPage, q) * len;
      assert LastWith(records, perPage, |records|, q, k);
    }
  }

  /** In a sorted file no two pages start with the same key. */
  lemma SortedIndexes(store: map<nat, nat>, records: seq<Record>, len: nat, perPage: nat)
    requires Sorted(records) && perPage > 0 && Built(store, records, len, perPage, |records|)
    ensures Indexes(store, records, len, perPage, |records|)
  {
    hide Start;
    forall p: nat, k: nat | p < |records| && StartsAt(records, perPage, p, k)
      ensures k in store && store[k] == Start(perPage, p) * len
    {
      var q: nat :| LastWith(records, perPage, |records|, q, k) && store[k] == Start(perPage, q) * len;
      StartStep(perPage, p, q);
      StartStep(perPage, q, p);
    }
    forall k | k in store ensures exists p: nat :: p < |records| && StartsAt(records, perPage, p, k) {
      var p: nat :| LastWith(records, perPage, |records|, p, k) && store[k] == Start(perPage, p) * len;
      assert StartsAt(records, perPage, p, k);
    }
  }

  lemma PageCount(perPage: nat, q: nat)
    requires perPage > 0
    ensures q <= Start(perPage, q)
  {
    MulMonotone(1, perPage, q);
  }

  lemma IndexKnowsFirst(store: map<nat, nat>, records: seq<Record>, len: nat, perPage: nat)
    requires Sized(records, len, perPage) && Indexes(store, records, len, perPage, |records|)
    ensures records[0].key in store
  {
    StartStep(perPage, 0, 0);
    assert StartsAt(records, perPage, 0, records[0].key);
  }

  /** Where a key of the index comes from. */
  lemma PageOfKey(store: map<nat, nat>, records: seq<Record>, len: nat, perPage: nat, k: nat) returns (p: nat)
    requires Indexes(store, records, len, perPage, |records|) && k in store
    ensures StartsAt(records, perPage, p, k) && store[k] == Start(perPage, p) * len
  {
    p :| p < |records| && StartsAt(records, perPage, p, k);
  }

  /** A page start whose key is not above, with the next one above, is the page of a key. */
  lemma PageIs(records: seq<Record>, perPage: nat, key: nat, q: nat)
    requires Sorted(records) && records != [] && perPage > 0 && records[0].key <= key
    requires Start(perPage, q) < |records| && records[Start(perPage, q)].key <= key
    requires Start(perPage, q + 1) < |records| ==> key < records[Start(perPage, q + 1)].key
    ensures Start(perPage, 0) == 0 && PageFrom(records, perPage, key, 0) == q
  {
    hide PageFrom, Start;
    StartStep(perPage, 0, 0);
    var p := PageFrom(records, perPage, key, 0);
    StartStep(perPage, p, q);
    StartStep(perPage, q, p);
  }

  lemma NextInStore(store: map<nat, nat>, records: seq<Record>, len: nat, perPage: nat, q: nat)
    requires Indexes(store, records, len, perPage, |records|) && perPage > 0
    requires Start(perPage, q + 1) < |records|
    ensures records[Start(perPage, q + 1)].key in store
  {
    PageCount(perPage, q + 1);
    assert StartsAt(records, perPage, q + 1, records[Start(perPage, q + 1)].key);
  }

  lemma HitPage(store: map<nat, nat>, records: seq<Record>, len: nat, perPage: nat, key: nat) returns (p: nat)
    requires Sized(records, len, perPage) && Sorted(records)
    requires Indexes(store, records, len, perPage, |records|) && key in store
    ensures Window(records, len, perPage, key) == Some((store[key], store[key] + len * perPage))
  {
    p := PageOfKey(store, records, len, perPage, key);
    assert records[0].key <= key;
    FirstKeyHit(records, perPage, key, p);
  }

  lemma InnerPage(store: map<nat, nat>, records: seq<Record>, len: nat, perPage: nat, key: nat, low: nat, prev: nat)
    returns (p: nat)
    requires Sized(records, len, perPage) && Sorted(records)
    requires Indexes(store, records, len, perPage, |records|)
    requires low in store && key < low && (forall k :: k in store && key <= k ==> low <= k)
    requires prev in store && prev < low && (forall k :: k in store && k < low ==> k <= prev)
    ensures Window(records, len, perPage, key) == Some((store[prev], store[prev] + len * perPage))
  {
    hide PageFrom, LastPageSize, Start;
    p := PageOfKey(store, records, len, perPage, prev);
    var t := PageOfKey(store, records, len, perPage, low);
    StartStep(perPage, p, t);
    StartStep(perPage, t, p);
    var i := Start(perPage, p);
    assert records[0].key <= records[i].key;
    NextInStore(store, records, len, perPage, p);
    assert records[i].key < records[i + perPage].key;
    PageIs(records, perPage, key, p);
  }

  lemma LastPage(store: map<nat, nat>, records: seq<Record>, len: nat, perPage: nat, key: nat, prev: nat)
    returns (p: nat)
    requires Sized(records, len, perPage) && Sorted(records)
    requires Indexes(store, records, len, perPage, |records|)
    requires forall k :: k in store ==> k < key && k <= prev
    requires prev in store
    ensures len * perPage > 0
    ensures Window(records, len, perPage, key)
            == Some((store[prev], store[prev] + LastPageSize(|records| * len, len * perPage)))
  {
    MulPositive(len, perPage);
    p := PageOfKey(store, records, len, perPage, prev);
    StartStep(perPage, p, p);
    var i := Start(perPage, p);
    assert records[0].key <= records[i].key;
    if i + perPage < |records| {
      NextInStore(store, records, len, perPage, p);
    }
    PageIs(records, perPage, key, p);
  }

  lemma BelowAll(store: map<nat, nat>, records: seq<Record>, len: nat, perPage: nat, key: nat)
    requires Sized(records, len, perPage) && records[0].key in store
    requires forall k :: k in store ==> key < k
    ensures Window(records, len, perPage, key).None?
  {
  }

  // ---- the store --------------------------------------------------------------------

  class Store {
    const file: seq<Record>
    const len: nat
    ghost const perPage: nat
    const index: KVIndex

    ghost predicate Valid() {
      && index.Valid() && index.records == file && index.len == len && index.perPage == perPage
    }

    constructor (file: seq<Record>, len: nat, perPage: nat)
      requires Sized(file, len, perPage)
      ensures Valid() && this.file == file && this.len == len && this.perPage == perPage
    {
      this.file, this.len, this.perPage := file, len, perPage;
      index := new KVIndex(file, len, perPage);
    }

    /** The search loop on unsigned record indices. The index only names windows that
        start at or below the key, so `mid - 1` never wraps. */
    method FindByKey(key: nat, offsetBegin: nat, offsetEnd: nat) returns (r: Lookup)
      requires len > 0 && offsetBegin < |file| * len && offsetEnd <= SIZE_MAX
      requires file[0].key <= key
      ensures r == Search(file, key, Index(offsetBegin, len), Index(offsetEnd, len))
    {
      var end: nat := offsetEnd / len;
      var begin: nat := offsetBegin / len;
      while begin <= end
        invariant Search(file, key, begin, end) == Search(file, key, Index(offsetBegin, len), Index(offsetEnd, len))
        decreases end + 1 - begin
      {
        var mid := begin + (end - begin) / 2;
        if mid >= |file| {
          return OutOfFile;
        }
        var middata := file[mid];
        if middata.key == key {
          return Found(middata);
        } else if key < middata.key {
          assert mid > 0;
          end := mid - 1;
        } else {
          begin := mid + 1;
        }
      }
      return Missing;
    }

    method Get(key: nat) returns (r: Lookup)
      requires Valid() && Sorted(file)
      ensures r == if Overruns(file, perPage, key) then OutOfFile else Scan(file, key)
    {
      var bounds := index.FindPage(key);
      GetAsCoded(file, len, perPage, key);
      if bounds.Some? {
        var (pageBegin, pageEnd) := bounds.value;
        WindowFits(file, len, perPage, key);
        r := FindByKey(key, pageBegin, pageEnd);
      } else {
        r := Missing;
      }
    }

    /** The lookup with the window clamped to the file. */
    method GetClamped(key: nat) returns (r: Lookup)
      requires Valid() && Sorted(file)
      ensures r == Scan(file, key)
    {
      hide Scan, Search, Sorted, Window, Built;
      var bounds := index.FindPage(key);
      GetClampedIsScan(file, len, perPage, key);
      if bounds.Some? {
        var (pageBegin, pageEnd) := bounds.value;
        WindowFits(file, len, perPage, key);
        var lastByte := (|file| - 1) * len;
        DivExact(|file| - 1, len);
        var clamped := if pageEnd / len < |file| then pageEnd else lastByte;
        r := FindByKey(key, pageBegin, clamped);
      } else {
        r := Missing;
      }
    }
  }

  lemma WindowFits(records: seq<Record>, len: nat, perPage: nat, key: nat)
    requires Sized(records, len, perPage)
    ensures var w := Window(records, len, perPage, key);
            w.Some? ==>
              && w.value.0 < |records| * len && w.value.1 <= SIZE_MAX
              && records[0].key <= key && (|records| - 1) * len <= SIZE_MAX
  {
    if records[0].key <= key {
      StartStep(perPage, 0, 0);
      MulPositive(len, perPage);
      var b := Start(perPage, PageFrom(records, perPage, key, 0));
      FactorLess(b, |records|, len);
      MulMonotone(|records| - 1, |records|, len);
    }
  }
}
