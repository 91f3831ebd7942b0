/** The data generator: page by page into the mapped file, then a remainder pass. */
module Generator {
  import opened KVSpec
  import opened KVStore

  const WRAP: nat := 0x1_0000_0000_0000_0000

  /** 64-bit unsigned arithmetic. */
  function Wrap(x: nat): (r: nat)
    ensures r <= SIZE_MAX
  {
    x % WRAP
  }

  const CHUNK: nat := 4096

  /** The 20 data bytes of every record. */
  const FILLER: string := "xxxxxxxxxxxxxxxxxxxx"

  /** `std::fill` with the letter over the whole field. */
  lemma FillerFills()
    ensures |FILLER| == 20 && forall i :: 0 <= i < |FILLER| ==> FILLER[i] == 'x'
  {
  }

  function GeneratedRecord(i: nat, step: nat): Record {
    Record(Wrap(i * step), FILLER)
  }

  /** The file as the documentation describes it: keys 0, step, 2·step, ... */
  function Generated(keys: nat, step: nat): (s: seq<Record>)
    ensures |s| == keys
  {
    seq(keys, i requires 0 <= i < keys => GeneratedRecord(i, step))
  }

  lemma WrapAdds(a: nat, b: nat)
    ensures Wrap(Wrap(a) + Wrap(b)) == Wrap(a + b)
  {
    assert a == (a / WRAP) * WRAP + a % WRAP;
    assert b == (b / WRAP) * WRAP + b % WRAP;
  }

  method FillDataPage(page: array<Record>, keyBegin: nat, step: nat)
    modifies page
    ensures forall i :: 0 <= i < page.Length ==> page[i] == Record(Wrap(keyBegin + Wrap(i * step)), FILLER)
  {
    var i := 0;
    while i < page.Length
      invariant 0 <= i <= page.Length
      invariant forall j :: 0 <= j < i ==> page[j] == Record(Wrap(keyBegin + Wrap(j * step)), FILLER)
    {
      var newKey := Wrap(keyBegin + Wrap(i * step));
      page[i] := Record(newKey, FILLER);
      i := i + 1;
    }
  }

  lemma PageKey(first: nat, j: nat, step: nat)
    ensures Wrap(Wrap(first * step) + Wrap(j * step)) == Wrap((first + j) * step)
  {
    WrapAdds(first * step, j * step);
    MulDistributes(first, j, step);
  }

  /** How often each slot has been written: `n` times below `k`, never from there on. */
  ghost predicate WrittenOnce(writes: seq<nat>, k: nat) {
    && k <= |writes|
    && (forall i :: 0 <= i < k ==> writes[i] == 1)
    && (forall i :: k <= i < |writes| ==> writes[i] == 0)
  }

  /** Copies a filled page into the file, from slot `first` on. */
  method WritePage(file: array<Record>, page: array<Record>, first: nat, step: nat, ghost writes: seq<nat>)
    returns (ghost written: seq<nat>)
    requires file != page && first + page.Length <= file.Length
    requires forall j :: 0 <= j < page.Length ==> page[j] == GeneratedRecord(first + j, step)
    requires |writes| == file.Length && WrittenOnce(writes, first)
    requires forall i :: 0 <= i < first ==> file[i] == GeneratedRecord(i, step)
    modifies file
    ensures |written| == file.Length && WrittenOnce(written, first + page.Length)
    ensures forall i :: 0 <= i < first + page.Length ==> file[i] == GeneratedRecord(i, step)
  {
    hide GeneratedRecord;
    written := writes;
    var j := 0;
    while j < page.Length
      invariant 0 <= j <= page.Length
      invariant |written| == file.Length && WrittenOnce(written, first + j)
      invariant forall i :: 0 <= i < first + j ==> file[i] == GeneratedRecord(i, step)
      invariant forall i :: 0 <= i < page.Length ==> page[i] == GeneratedRecord(first + i, step)
    {
      file[first + j] := page[j];
      written := written[first + j := written[first + j] + 1];
      j := j + 1;
    }
  }

  /** Every slot of the file is written exactly once and ends as the plain description says. */
  method GenerateData(file: array<Record>, keys: nat, step: nat) returns (ghost writes: seq<nat>)
    requires keys > 0 && file.Length == keys
    modifies file
    ensures file[..] == Generated(keys, step)
    ensures |writes| == keys && WrittenOnce(writes, keys)
  {
    hide GeneratedRecord, Wrap;
    var chunkSize := if CHUNK < keys then CHUNK else keys;
    var page := new Record[chunkSize](i => Record(0, []));
    var rest := keys % chunkSize;
    writes := seq(keys, i => 0);
    var i: nat := 0;
    ghost var q: nat := 0;
    ghost var chunks := keys / chunkSize;
    assert keys - rest == chunks * chunkSize;
    while i < keys - rest
      invariant i == q * chunkSize <= keys - rest
      invariant |writes| == keys && WrittenOnce(writes, i)
      invariant forall k :: 0 <= k < i ==> file[k] == GeneratedRecord(k, step)
      decreases keys - rest - i
    {
      FactorLess(q, chunks, chunkSize);
      MulMonotone(q + 1, chunks, chunkSize);
      MulDistributes(q, 1, chunkSize);
      FillDataPage(page, Wrap(i * step), step);
      forall j | 0 <= j < page.Length ensures page[j] == GeneratedRecord(i + j, step) {
        GeneratedAt(i, j, step);
      }
      writes := WritePage(file, page, i, step, writes);
      i := i + chunkSize;
      q := q + 1;
    }
    if rest == 0 {
      return;
    }
    page := new Record[rest](i => Record(0, []));
    var restBegin := keys - rest;
    FillDataPage(page, Wrap(restBegin * step), step);
    forall j | 0 <= j < page.Length ensures page[j] == GeneratedRecord(restBegin + j, step) {
      GeneratedAt(restBegin, j, step);
    }
    writes := WritePage(file, page, restBegin, step, writes);
  }

  lemma GeneratedAt(first: nat, j: nat, step: nat)
    ensures Record(Wrap(Wrap(first * step) + Wrap(j * step)), FILLER) == GeneratedRecord(first + j, step)
  {
    PageKey(first, j, step);
  }

  // ---- generate, then look up -------------------------------------------------

  lemma GeneratedKey(keys: nat, step: nat, i: nat)
    requires i < keys && (keys - 1) * step <= SIZE_MAX
    ensures Generated(keys, step)[i] == Record(i * step, FILLER)
  {
    MulMonotone(i, keys - 1, step);
  }

  lemma GeneratedSorted(keys: nat, step: nat)
    requires keys > 0 && step > 0 && (keys - 1) * step <= SIZE_MAX
    ensures Sorted(Generated(keys, step))
  {
    var s := Generated(keys, step);
    forall i, j | 0 <= i < j < keys ensures s[i].key < s[j].key {
      GeneratedKey(keys, step, i);
      GeneratedKey(keys, step, j);
      FactorLess(i, j, step);
    }
  }

  /** Scanning a generated file for `k` finds record `k / step` exactly when `k` is one
      of the generated keys. */
  lemma GeneratedScan(keys: nat, step: nat, k: nat)
    requires keys > 0 && step > 0 && (keys - 1) * step <= SIZE_MAX
    ensures Scan(Generated(keys, step), k)
            == if k % step == 0 && k / step < keys then Found(Record(k, FILLER)) else Missing
  {
    hide Generated, GeneratedRecord;
    var s := Generated(keys, step);
    GeneratedSorted(keys, step);
    assert k == (k / step) * step + k % step;
    if k % step == 0 && k / step < keys {
      GeneratedKey(keys, step, k / step);
      ScanHit(s, k, k / step);
    } else {
      forall i | 0 <= i < |s| ensures s[i].key != k {
        GeneratedKey(keys, step, i);
        MultipleOf(i, step, k);
      }
      ScanMiss(s, k);
    }
  }

  lemma MultipleOf(i: nat, step: nat, k: nat)
    requires step > 0
    ensures i * step == k ==> k % step == 0 && k / step == i
  {
    if i * step == k {
      DivModUnique(k, step, i, 0);
    }
  }

  /** Lookup in a generated file, window clamped: present exactly for the multiples of
      the step below keys·step, and then the record with that key. */
  lemma GenerateThenLookup(keys: nat, step: nat, len: nat, perPage: nat, k: nat)
    requires keys > 0 && step > 0 && (keys - 1) * step <= SIZE_MAX && len > 0 && perPage > 0
    ensures KVSpec.GetClamped(Generated(keys, step), len, perPage, k)
            == if k % step == 0 && k / step < keys then Found(Record(k, FILLER)) else Missing
    ensures |FILLER| == 20 && forall i :: 0 <= i < |FILLER| ==> FILLER[i] == 'x'
  {
    FillerFills();
    GeneratedSorted(keys, step);
    GetClampedIsScan(Generated(keys, step), len, perPage, k);
    GeneratedScan(keys, step, k);
  }

  /** The same lookup as coded: reads past the file exactly above the last key, and at
      the first key of a last page at most half full. */
  lemma GenerateThenLookupAsCoded(keys: nat, step: nat, len: nat, perPage: nat, k: nat)
    requires keys > 0 && step > 0 && (keys - 1) * step <= SIZE_MAX && len > 0 && perPage > 0
    ensures var last := LastStart(keys, perPage);
            KVSpec.Get(Generated(keys, step), len, perPage, k)
            == if (keys - 1) * step < k || (k == last * step && keys - last <= perPage / 2) then OutOfFile
               else if k % step == 0 && k / step < keys then Found(Record(k, FILLER))
               else Missing
  {
    hide Generated, Scan, KVSpec.Get;
    GeneratedSorted(keys, step);
    GetAsCoded(Generated(keys, step), len, perPage, k);
    GeneratedScan(keys, step, k);
    LastStartIsLast(keys, perPage);
    GeneratedKey(keys, step, keys - 1);
    GeneratedKey(keys, step, LastStart(keys, perPage));
  }
}
