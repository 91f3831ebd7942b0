/** Lookup in a flat file of fixed-size records: a sparse page index and a binary search,
    against a linear scan. Offsets are in bytes; `len` is the record size. */
module KVSpec {
  import opened Text

  datatype Record = Record(key: nat, data: seq<char>)

  /** `OutOfFile`: a record at or past the end of the mapped file was read. */
  datatype Lookup = Found(record: Record) | Missing | OutOfFile

  const SIZE_MAX: nat := 0xFFFF_FFFF_FFFF_FFFF

  ghost predicate Sorted(records: seq<Record>) {
    forall i, j :: 0 <= i < j < |records| ==> records[i].key < records[j].key
  }

  function Scan(records: seq<Record>, key: nat): Lookup {
    if records == [] then Missing
    else if records[0].key == key then Found(records[0])
    else Scan(records[1..], key)
  }

  lemma {:induction false} ScanHit(records: seq<Record>, key: nat, i: nat)
    requires Sorted(records) && i < |records| && records[i].key == key
    ensures Scan(records, key) == Found(records[i])
  {
    if i > 0 {
      assert records[0].key < records[i].key;
      ScanHit(records[1..], key, i - 1);
    }
  }

  lemma {:induction false} ScanMiss(records: seq<Record>, key: nat)
    requires forall i :: 0 <= i < |records| ==> records[i].key != key
    ensures Scan(records, key) == Missing
  {
    if records != [] {
      ScanMiss(records[1..], key);
    }
  }

  // ---- binary search ------------------------------------------------------

  /** The search over record indices, with an inclusive end. Below record 0 the unsigned
      `mid - 1` wraps to SIZE_MAX, and the next probe lies outside every file. */
  function Search(records: seq<Record>, key: nat, begin: nat, end: nat): Lookup
    decreases end + 1 - begin
  {
    if begin > end then Missing
    else
      var mid := begin + (end - begin) / 2;
      if mid >= |records| then OutOfFile
      else if records[mid].key == key then Found(records[mid])
      else if key < records[mid].key then
        if mid == 0 then OutOfFile else Search(records, key, begin, mid - 1)
      else Search(records, key, mid + 1, end)
  }

  lemma SearchNothing(records: seq<Record>, key: nat, begin: nat, end: nat)
    requires begin > end
    ensures Search(records, key, begin, end) == Missing
  {
  }

  /** One probe, which is the end of the window only when it is also its begin. */
  lemma SearchProbes(records: seq<Record>, key: nat, begin: nat, end: nat) returns (mid: nat)
    requires begin <= end
    ensures begin <= mid <= end && (mid == end ==> begin == end)
    ensures Search(records, key, begin, end)
            == if mid >= |records| then OutOfFile
               else if records[mid].key == key then Found(records[mid])
               else if key < records[mid].key then
                 if mid == 0 then OutOfFile else Search(records, key, begin, mid - 1)
               else Search(records, key, mid + 1, end)
  {
    mid := begin + (end - begin) / 2;
  }

  /** The sought record, if any, is inside the window. */
  ghost predicate Encloses(records: seq<Record>, key: nat, begin: nat, end: int) {
    && (forall i :: 0 <= i < |records| && i < begin ==> records[i].key < key)
    && (forall i :: 0 <= i < |records| && end < i ==> key < records[i].key)
  }

  lemma EnclosesHalf(records: seq<Record>, key: nat, begin: nat, mid: nat, end: int)
    requires Sorted(records) && Encloses(records, key, begin, end) && mid < |records|
    ensures key < records[mid].key ==> Encloses(records, key, begin, mid - 1)
    ensures records[mid].key < key ==> Encloses(records, key, mid + 1, end)
  {
    assert forall i :: mid < i < |records| ==> records[mid].key < records[i].key;
    assert forall i :: 0 <= i < mid ==> records[i].key < records[mid].key;
  }

  /** On a window that reaches at most one past the file, the search is the scan, except
      that a key above the last one makes it read past the file if the window does. */
  lemma {:induction false} SearchIsScan(records: seq<Record>, key: nat, begin: nat, end: nat)
    requires Sorted(records) && records != []
    requires begin == 0 ==> records[0].key <= key
    requires begin <= end + 1 && begin <= |records| && end <= |records|
    requires Encloses(records, key, begin, end)
    ensures Search(records, key, begin, end)
            == if end == |records| && records[|records| - 1].key < key then OutOfFile else Scan(records, key)
    decreases end + 1 - begin
  {
    hide Sorted, Scan, Search, Encloses;
    if begin > end {
      SearchNothing(records, key, begin, end);
      EnclosesNothing(records, key, begin, end);
    } else {
      var mid := SearchProbes(records, key, begin, end);
      if mid == |records| {
        EnclosesLast(records, key, begin, end);
      } else {
        EnclosesHalf(records, key, begin, mid, end);
        if records[mid].key == key {
          ScanHit(records, key, mid);
          LastIsLargest(records, mid);
        } else if key < records[mid].key {
          SearchIsScan(records, key, begin, mid - 1);
          LastIsLargest(records, mid);
        } else {
          SearchIsScan(records, key, mid + 1, end);
        }
      }
    }
  }

  lemma EnclosesNothing(records: seq<Record>, key: nat, begin: nat, end: int)
    requires Encloses(records, key, begin, end) && begin == end + 1
    ensures Scan(records, key) == Missing
  {
    ScanMiss(records, key);
  }

  lemma EnclosesLast(records: seq<Record>, key: nat, begin: nat, end: int)
    requires Encloses(records, key, begin, end) && records != [] && begin >= |records|
    ensures records[|records| - 1].key < key
  {
  }

  lemma LastIsLargest(records: seq<Record>, i: nat)
    requires Sorted(records) && i < |records|
    ensures records[i].key <= records[|records| - 1].key
  {
  }

  // ---- page index -----------------------------------------------------------

  /** First record of page `p`. */
  function Start(perPage: nat, p: nat): nat { p * perPage }

  /** The last page whose first key is not above `key`, searched from page `p` on. */
  function PageFrom(records: seq<Record>, perPage: nat, key: nat, p: nat): (r: nat)
    requires perPage > 0 && Start(perPage, p) < |records|
    ensures p <= r && Start(perPage, r) < |records|
    ensures records[Start(perPage, p)].key <= key ==> records[Start(perPage, r)].key <= key
    ensures Start(perPage, r + 1) < |records| ==> key < records[Start(perPage, r + 1)].key
    decreases |records| - Start(perPage, p)
  {
    assert Start(perPage, p + 1) == Start(perPage, p) + perPage;
    if Start(perPage, p + 1) < |records| && records[Start(perPage, p + 1)].key <= key then
      PageFrom(records, perPage, key, p + 1)
    else p
  }

  predicate IsLastPage(n: nat, perPage: nat, p: nat) {
    Start(perPage, p) < n <= Start(perPage, p + 1)
  }

  /** Bytes of the last page as the index computes them. */
  function LastPageSize(size: nat, pageSize: nat): nat
    requires pageSize > 0
  {
    if size % pageSize == 0 then pageSize else size % pageSize
  }

  /** Byte window the index names for a key: the full page when its first key is hit or
      another page follows, else only the last page's bytes; none below the first key. */
  function Window(records: seq<Record>, len: nat, perPage: nat, key: nat): Option<(nat, nat)>
    requires records != [] && len > 0 && perPage > 0
  {
    assert Start(perPage, 0) == 0;
    if key < records[0].key then None
    else
      var p := PageFrom(records, perPage, key, 0);
      var first := Start(perPage, p) * len;
      var pageSize := len * perPage;
      var size := |records| * len;
      MulPositive(len, perPage);
      if records[Start(perPage, p)].key == key || !IsLastPage(|records|, perPage, p)
      then Some((first, first + pageSize))
      else Some((first, first + LastPageSize(size, pageSize)))
  }

  lemma MulPositive(a: nat, b: nat)
    requires a > 0 && b > 0
    ensures a * b > 0
  {
  }

  /** The record a byte offset falls into. */
  function Index(offset: nat, len: nat): nat
    requires len > 0
  {
    offset / len
  }

  /** The last record not after `index`. */
  function Clamp(index: nat, n: nat): nat
    requires n > 0
  {
    if index < n then index else n - 1
  }

  /** `get` as coded, the end iterator tested first. */
  function Get(records: seq<Record>, len: nat, perPage: nat, key: nat): Lookup
    requires records != [] && len > 0 && perPage > 0
  {
    match Window(records, len, perPage, key)
    case None => Missing
    case Some((begin, end)) => Search(records, key, Index(begin, len), Index(end, len))
  }

  /** `get` with the window clamped to the file. */
  function GetClamped(records: seq<Record>, len: nat, perPage: nat, key: nat): Lookup
    requires records != [] && len > 0 && perPage > 0
  {
    match Window(records, len, perPage, key)
    case None => Missing
    case Some((begin, end)) =>
      Search(records, key, Index(begin, len), Clamp(Index(end, len), |records|))
  }

  // ---- byte offsets are record indices ----------------------------------------

  lemma MulDistributes(a: int, b: int, c: int)
    ensures (a + b) * c == a * c + b * c
  {
  }

  lemma MulMonotone(a: nat, b: nat, c: nat)
    requires a <= b
    ensures a * c <= b * c
  {
  }

  lemma QuotientUnique(m: nat, q: int, r: nat, q': int, r': nat)
    requires m > 0 && r < m && r' < m && q * m + r == q' * m + r'
    ensures q == q' && r == r'
  {
    var d := q - q';
    MulDistributes(q', d, m);
    assert d * m == r' - r;
    assert (-d) * m == -(d * m);
    if d > 0 {
      MulMonotone(1, d, m);
    } else if d < 0 {
      MulMonotone(1, -d, m);
    }
  }

  lemma DivModUnique(a: nat, m: nat, q: nat, r: nat)
    requires m > 0 && a == q * m + r && r < m
    ensures a / m == q && a % m == r
  {
    assert a == (a / m) * m + a % m;
    QuotientUnique(m, a / m, a % m, q, r);
  }

  lemma DivExact(i: nat, len: nat)
    requires len > 0
    ensures Index(i * len, len) == i
  {
    DivModUnique(i * len, len, i, 0);
  }

  /** Where the last page begins, its size in bytes is what is left of the file. */
  lemma LastPageEndsFile(n: nat, len: nat, perPage: nat, p: nat)
    requires len > 0 && perPage > 0 && IsLastPage(n, perPage, p)
    ensures len * perPage > 0
    ensures Start(perPage, p) * len + LastPageSize(n * len, len * perPage) == n * len
  {
    MulPositive(len, perPage);
    var m := len * perPage;
    var b := Start(perPage, p);
    var rest := n - b;
    assert Start(perPage, p + 1) == b + perPage;
    assert n * len == b * len + rest * len by { MulDistributes(b, rest, len); }
    assert b * len == p * m;
    MulMonotone(rest, perPage, len);
    if rest == perPage {
      assert n * len == (p + 1) * m + 0 by { MulDistributes(p, 1, m); }
      DivModUnique(n * len, m, p + 1, 0);
    } else {
      MulMonotone(rest + 1, perPage, len);
      MulDistributes(rest, 1, len);
      MulPositive(rest, len);
      DivModUnique(n * len, m, p, rest * len);
    }
  }

  /** The window in record indices. */
  lemma WindowIndices(records: seq<Record>, len: nat, perPage: nat, key: nat)
    requires records != [] && len > 0 && perPage > 0 && records[0].key <= key
    ensures Start(perPage, 0) == 0
    ensures var p := PageFrom(records, perPage, key, 0);
            var b := Start(perPage, p);
            var w := Window(records, len, perPage, key);
            && w.Some? && Index(w.value.0, len) == b
            && Index(w.value.1, len)
               == if records[b].key == key || !IsLastPage(|records|, perPage, p) then b + perPage else |records|
  {
    assert Start(perPage, 0) == 0;
    var p := PageFrom(records, perPage, key, 0);
    var b := Start(perPage, p);
    DivExact(b, len);
    if records[b].key == key || !IsLastPage(|records|, perPage, p) {
      assert b * len + len * perPage == (b + perPage) * len by { MulDistributes(b, perPage, len); }
      DivExact(b + perPage, len);
    } else {
      assert Start(perPage, p + 1) == b + perPage;
      LastPageEndsFile(|records|, len, perPage, p);
      DivExact(|records|, len);
    }
  }

  // ---- main results -------------------------------------------------------------

  /** The page the index picks encloses the key. */
  lemma PageEncloses(records: seq<Record>, perPage: nat, key: nat)
    requires Sorted(records) && records != [] && perPage > 0 && records[0].key <= key
    ensures Start(perPage, 0) == 0
    ensures var p := PageFrom(records, perPage, key, 0);
            var b := Start(perPage, p);
            && records[b].key <= key
            && (forall i :: 0 <= i < b ==> records[i].key < key)
            && (forall i :: b + perPage <= i < |records| ==> key < records[i].key)
  {
    assert Start(perPage, 0) == 0;
    var p := PageFrom(records, perPage, key, 0);
    var b := Start(perPage, p);
    assert Start(perPage, p + 1) == b + perPage;
    forall i | 0 <= i < b ensures records[i].key < key {
      assert records[i].key < records[b].key;
    }
    forall i | b + perPage <= i < |records| ensures key < records[i].key {
      assert records[b + perPage].key <= records[i].key;
    }
  }

  lemma BelowFirst(records: seq<Record>, key: nat)
    requires Sorted(records) && records != [] && key < records[0].key
    ensures forall i :: 0 <= i < |records| ==> key < records[i].key
  {
    forall i | 0 <= i < |records| ensures key < records[i].key {
      assert records[0].key <= records[i].key;
    }
  }

  lemma GetBelow(records: seq<Record>, len: nat, perPage: nat, key: nat)
    requires Sorted(records) && records != [] && len > 0 && perPage > 0 && key < records[0].key
    ensures Get(records, len, perPage, key) == GetClamped(records, len, perPage, key) == Missing
    ensures Scan(records, key) == Missing && !Overruns(records, perPage, key)
  {
    hide Search, Sorted, Scan;
    BelowFirst(records, key);
    ScanMiss(records, key);
  }

  /** First record of the last page. */
  function LastStart(n: nat, perPage: nat): nat
    requires n > 0 && perPage > 0
  {
    Start(perPage, (n - 1) / perPage)
  }

  lemma LastStartIsLast(n: nat, perPage: nat)
    requires n > 0 && perPage > 0
    ensures IsLastPage(n, perPage, (n - 1) / perPage)
  {
    assert n - 1 == ((n - 1) / perPage) * perPage + (n - 1) % perPage;
    assert Start(perPage, (n - 1) / perPage + 1) == LastStart(n, perPage) + perPage;
  }

  lemma LastPageUnique(n: nat, perPage: nat, p: nat, q: nat)
    requires perPage > 0 && IsLastPage(n, perPage, p) && IsLastPage(n, perPage, q)
    ensures p == q
  {
    if p < q {
      MulMonotone(p + 1, q, perPage);
    } else if q < p {
      MulMonotone(q + 1, p, perPage);
    }
  }

  /** What makes the coded lookup read past the file: a key above the last one, or the
      first key of a last page that holds at most half of a page's records. */
  predicate Overruns(records: seq<Record>, perPage: nat, key: nat)
    requires records != [] && perPage > 0
  {
    var n := |records|;
    LastStartIsLast(n, perPage);
    var b := LastStart(n, perPage);
    records[n - 1].key < key || (records[b].key == key && n - b <= perPage / 2)
  }

  /** A page start whose first key is sought is the page the index finds. */
  lemma FirstKeyHit(records: seq<Record>, perPage: nat, key: nat, q: nat)
    requires Sorted(records) && records != [] && perPage > 0 && records[0].key <= key
    requires Start(perPage, q) < |records| && records[Start(perPage, q)].key == key
    ensures Start(perPage, 0) == 0 && PageFrom(records, perPage, key, 0) == q
  {
    hide PageFrom, Start;
    StartStep(perPage, 0, 0);
    var p := PageFrom(records, perPage, key, 0);
    StartStep(perPage, p, q);
    StartStep(perPage, q, p);
  }

  lemma StartStep(perPage: nat, p: nat, q: nat)
    requires perPage > 0
    ensures Start(perPage, 0) == 0
    ensures Start(perPage, p + 1) == Start(perPage, p) + perPage
    ensures p < q ==> Start(perPage, p) + perPage <= Start(perPage, q)
  {
    if p < q {
      MulMonotone(p + 1, q, perPage);
    }
  }

  lemma OverrunsOnPage(records: seq<Record>, perPage: nat, key: nat)
    requires Sorted(records) && records != [] && perPage > 0 && records[0].key <= key
    ensures Start(perPage, 0) == 0
    ensures var b := Start(perPage, PageFrom(records, perPage, key, 0));
            Overruns(records, perPage, key)
            <==> records[|records| - 1].key < key
                 || (records[b].key == key && |records| - b <= perPage / 2)
  {
    hide Sorted;
    assert Start(perPage, 0) == 0;
    var n := |records|;
    var p := PageFrom(records, perPage, key, 0);
    var q := (n - 1) / perPage;
    LastStartIsLast(n, perPage);
    assert Start(perPage, p + 1) == Start(perPage, p) + perPage;
    if records[Start(perPage, q)].key == key {
      FirstKeyHit(records, perPage, key, q);
    }
    if n - Start(perPage, p) <= perPage / 2 {
      LastPageUnique(n, perPage, p, q);
    }
  }

  /** Below a later record, a window from a hit encloses its key. */
  lemma EnclosesFromHit(records: seq<Record>, key: nat, b: nat, mid: nat)
    requires Sorted(records) && b < mid < |records| && records[b].key == key
    ensures Encloses(records, key, b, mid - 1)
    ensures key < records[mid].key && records[0].key <= key
  {
    assert forall i :: 0 <= i < b ==> records[i].key < records[b].key;
    assert forall i :: b < i < |records| ==> records[b].key < records[i].key;
  }

  /** A full page's window from a page start whose first key is sought. */
  lemma SearchAtStart(records: seq<Record>, key: nat, b: nat, perPage: nat)
    requires Sorted(records) && b < |records| && perPage > 0 && records[b].key == key
    ensures Search(records, key, b, b + perPage)
            == if |records| - b <= perPage / 2 then OutOfFile else Scan(records, key)
  {
    hide Scan, Sorted, Encloses;
    ScanHit(records, key, b);
    var mid := b + perPage / 2;
    assert b + (b + perPage - b) / 2 == mid;
    if b < mid < |records| {
      EnclosesFromHit(records, key, b, mid);
      LastIsLargest(records, mid);
      SearchIsScan(records, key, b, mid - 1);
    }
  }

  /** The inclusive end of the window as coded, in records. */
  function CodedEnd(records: seq<Record>, perPage: nat, key: nat, p: nat): nat
    requires Start(perPage, p) < |records|
  {
    if records[Start(perPage, p)].key == key || !IsLastPage(|records|, perPage, p)
    then Start(perPage, p) + perPage else |records|
  }

  lemma GetIsSearch(records: seq<Record>, len: nat, perPage: nat, key: nat)
    requires records != [] && len > 0 && perPage > 0 && records[0].key <= key
    ensures Start(perPage, 0) == 0
    ensures var p := PageFrom(records, perPage, key, 0);
            Get(records, len, perPage, key)
            == Search(records, key, Start(perPage, p), CodedEnd(records, perPage, key, p))
  {
    hide Search, Window, Index, IsLastPage;
    WindowIndices(records, len, perPage, key);
  }

  lemma SearchOnPage(records: seq<Record>, perPage: nat, key: nat)
    requires Sorted(records) && records != [] && perPage > 0 && records[0].key <= key
    ensures Start(perPage, 0) == 0
    ensures var p := PageFrom(records, perPage, key, 0);
            Search(records, key, Start(perPage, p), CodedEnd(records, perPage, key, p))
            == if Overruns(records, perPage, key) then OutOfFile else Scan(records, key)
  {
    hide Sorted, Scan, Search, Encloses, Overruns;
    OverrunsOnPage(records, perPage, key);
    var p := PageFrom(records, perPage, key, 0);
    var b := Start(perPage, p);
    assert Start(perPage, p + 1) == b + perPage;
    if records[b].key == key {
      LastIsLargest(records, b);
      SearchAtStart(records, key, b, perPage);
    } else if IsLastPage(|records|, perPage, p) {
      EnclosingPage(records, perPage, key, |records|);
      SearchIsScan(records, key, b, |records|);
    } else {
      LastIsLargest(records, b + perPage);
      EnclosingPage(records, perPage, key, b + perPage);
      SearchIsScan(records, key, b, b + perPage);
    }
  }

  /** As coded, the lookup is the linear scan exactly when it does not overrun the file. */
  lemma GetAsCoded(records: seq<Record>, len: nat, perPage: nat, key: nat)
    requires Sorted(records) && records != [] && len > 0 && perPage > 0
    ensures Get(records, len, perPage, key)
            == if Overruns(records, perPage, key) then OutOfFile else Scan(records, key)
    ensures Scan(records, key) != OutOfFile
  {
    hide Sorted, Scan, Search, PageFrom, CodedEnd, Overruns;
    ScanInFile(records, key);
    if key < records[0].key {
      GetBelow(records, len, perPage, key);
    } else {
      GetIsSearch(records, len, perPage, key);
      SearchOnPage(records, perPage, key);
    }
  }

  lemma GetClampedIsSearch(records: seq<Record>, len: nat, perPage: nat, key: nat)
    requires records != [] && len > 0 && perPage > 0 && records[0].key <= key
    ensures Start(perPage, 0) == 0
    ensures var p := PageFrom(records, perPage, key, 0);
            GetClamped(records, len, perPage, key)
            == Search(records, key, Start(perPage, p), Clamp(CodedEnd(records, perPage, key, p), |records|))
  {
    hide Search, Window, Index, IsLastPage, Clamp;
    WindowIndices(records, len, perPage, key);
  }

  lemma ClampedSearchOnPage(records: seq<Record>, perPage: nat, key: nat)
    requires Sorted(records) && records != [] && perPage > 0 && records[0].key <= key
    ensures Start(perPage, 0) == 0
    ensures var p := PageFrom(records, perPage, key, 0);
            Search(records, key, Start(perPage, p), Clamp(CodedEnd(records, perPage, key, p), |records|))
            == Scan(records, key)
  {
    hide Sorted, Scan, Search, PageFrom, Encloses;
    StartStep(perPage, 0, 0);
    var p := PageFrom(records, perPage, key, 0);
    StartStep(perPage, p, p);
    var end := Clamp(CodedEnd(records, perPage, key, p), |records|);
    EnclosingPage(records, perPage, key, end);
    SearchIsScan(records, key, Start(perPage, p), end);
  }

  /** With the window clamped to the file, the indexed lookup is the linear scan. */
  lemma GetClampedIsScan(records: seq<Record>, len: nat, perPage: nat, key: nat)
    requires Sorted(records) && records != [] && len > 0 && perPage > 0
    ensures GetClamped(records, len, perPage, key) == Scan(records, key)
  {
    hide Sorted, Scan, Search, PageFrom, CodedEnd, GetClamped, Clamp;
    if key < records[0].key {
      GetBelow(records, len, perPage, key);
    } else {
      GetClampedIsSearch(records, len, perPage, key);
      ClampedSearchOnPage(records, perPage, key);
    }
  }

  lemma EnclosingPage(records: seq<Record>, perPage: nat, key: nat, end: int)
    requires Sorted(records) && records != [] && perPage > 0 && records[0].key <= key
    requires Start(perPage, 0) == 0
    requires var b := Start(perPage, PageFrom(records, perPage, key, 0));
             end >= |records| - 1 || end >= b + perPage - 1
    ensures Encloses(records, key, Start(perPage, PageFrom(records, perPage, key, 0)), end)
  {
    hide Sorted;
    PageEncloses(records, perPage, key);
  }

  lemma {:induction false} ScanInFile(records: seq<Record>, key: nat)
    ensures Scan(records, key) != OutOfFile
  {
    if records != [] {
      ScanInFile(records[1..], key);
    }
  }
}
