/**
 * Recording metadata and `get_preloaded_data`: drop the excluded class, keep
 * the order, take a Python-slice prefix of at most `limit` entries and load a
 * signal for each of them into a store keyed by path.
 */
module Records {
  import opened Util
  import opened Signal

  /** One metadata record: `path`, `class`, `sig_len` and `af_ends`. */
  datatype Entry = Entry(path: string, classLabel: int, sigLen: int, afEnds: seq<int>)

  /** The sentinel class whose recordings are excluded from the dataset. */
  const ExcludedClass := 2

  /** The cap on the number of samples read from a recording. */
  const MaxSamples := 50000

  /** The filter predicate: the entry's class is not the sentinel. */
  predicate Included(e: Entry)
  {
    e.classLabel != ExcludedClass
  }

  /** `list(filter(lambda x: x['class'] != 2, entries))`. */
  function Filtered(entries: seq<Entry>): (r: seq<Entry>)
    ensures |r| <= |entries|
    ensures forall i :: 0 <= i < |r| ==> Included(r[i])
  {
    if entries == [] then []
    else (if Included(entries[0]) then [entries[0]] else []) + Filtered(entries[1..])
  }

  /** An entry survives the filter exactly when it is in the input and not of the excluded class. */
  lemma {:induction false} FilteredMembers(entries: seq<Entry>)
    ensures forall e :: e in Filtered(entries) <==> e in entries && Included(e)
  {
    if entries != [] {
      FilteredMembers(entries[1..]);
      assert entries == [entries[0]] + entries[1..];
    }
  }

  /** The filter keeps order: filtering a concatenation concatenates the filtered parts. */
  lemma {:induction false} FilteredAppend(a: seq<Entry>, b: seq<Entry>)
    ensures Filtered(a + b) == Filtered(a) + Filtered(b)
  {
    if a == [] {
      assert a + b == b;
    } else {
      var head := if Included(a[0]) then [a[0]] else [];
      assert (a + b)[0] == a[0];
      assert (a + b)[1..] == a[1..] + b;
      assert Filtered(a + b) == head + Filtered(a[1..] + b);
      FilteredAppend(a[1..], b);
      assert Filtered(a) == head + Filtered(a[1..]);
    }
  }

  /** An input with no excluded entry passes the filter unchanged. */
  lemma {:induction false} FilteredKeepsIncluded(entries: seq<Entry>)
    requires forall i :: 0 <= i < |entries| ==> Included(entries[i])
    ensures Filtered(entries) == entries
  {
    if entries != [] {
      FilteredKeepsIncluded(entries[1..]);
    }
  }

  /** The exclusive stop index Python uses for `xs[:stop]` on a list of `n` elements. */
  function SliceStop(n: nat, stop: int): (k: nat)
    ensures k <= n
  {
    if stop >= 0 then Min(stop, n)
    else if n + stop >= 0 then n + stop
    else 0
  }

  /** `metadata[:limit]` after `limit = len(metadata) if limit is None else limit`. */
  function Limited(metadataJson: seq<Entry>, limit: Option<int>): (r: seq<Entry>)
    ensures r <= Filtered(metadataJson)
  {
    var metadata := Filtered(metadataJson);
    var stop := match limit case None => |metadata| case Some(k) => k;
    metadata[..SliceStop(|metadata|, stop)]
  }

  /**
   * The returned metadata is the order-preserving prefix of the included
   * entries: all of them without a limit, `min(limit, count)` of them for a
   * limit `>= 0`, all but the last `-limit` of them for a negative limit.
   */
  lemma LimitedIsPrefix(metadataJson: seq<Entry>, limit: Option<int>)
    ensures Limited(metadataJson, limit) <= Filtered(metadataJson)
    ensures limit.None? ==> Limited(metadataJson, limit) == Filtered(metadataJson)
    ensures limit.Some? && limit.value >= 0 ==>
      |Limited(metadataJson, limit)| == Min(limit.value, |Filtered(metadataJson)|)
    ensures limit.Some? && limit.value < 0 ==>
      |Limited(metadataJson, limit)| == if |Filtered(metadataJson)| + limit.value >= 0
        then |Filtered(metadataJson)| + limit.value else 0
  {
  }

  /** No entry of the excluded class reaches the dataset, and nothing else is lost before the limit. */
  lemma LimitedExcludesSentinel(metadataJson: seq<Entry>, limit: Option<int>)
    ensures forall e :: e in Limited(metadataJson, limit) ==> e in metadataJson && e.classLabel != ExcludedClass
  {
    FilteredMembers(metadataJson);
    var full := Filtered(metadataJson);
    var k := |Limited(metadataJson, limit)|;
    assert Limited(metadataJson, limit) == full[..k];
    forall e | e in full[..k] ensures e in full {
    }
  }

  /** The sample count requested from the reader: `min(sampto, sig_len)`. */
  function SampTo(e: Entry): int
  {
    Min(MaxSamples, e.sigLen)
  }

  /** The paths of a sequence of entries. */
  function Paths(entries: seq<Entry>): set<string>
  {
    set e | e in entries :: e.path
  }

  /**
   * The store after inserting the entries one after another, each under its
   * path, with the signal `rdsamp` reads for it; a later entry with the same
   * path overwrites an earlier one.
   */
  function Store(entries: seq<Entry>, rdsamp: (string, int) -> Matrix<real>): (r: map<string, Matrix<real>>)
    ensures forall i :: 0 <= i < |entries| ==> entries[i].path in r
  {
    if entries == [] then map[]
    else
      var last := entries[|entries| - 1];
      Store(entries[..|entries| - 1], rdsamp)[last.path := rdsamp(last.path, SampTo(last))]
  }

  /** The store's keys are exactly the paths of the entries that were loaded. */
  lemma {:induction false} StoreKeys(entries: seq<Entry>, rdsamp: (string, int) -> Matrix<real>)
    ensures Store(entries, rdsamp).Keys == Paths(entries)
  {
    if entries != [] {
      var init := entries[..|entries| - 1];
      StoreKeys(init, rdsamp);
      assert entries == init + [entries[|entries| - 1]];
      assert Paths(entries) == Paths(init) + {entries[|entries| - 1].path};
    }
  }

  /**
   * An entry that no later entry shares a path with finds its own signal under
   * its path.
   */
  lemma {:induction false} StoreLastWins(entries: seq<Entry>, rdsamp: (string, int) -> Matrix<real>, k: nat)
    requires k < |entries|
    requires forall j :: k < j < |entries| ==> entries[j].path != entries[k].path
    ensures entries[k].path in Store(entries, rdsamp)
    ensures Store(entries, rdsamp)[entries[k].path] == rdsamp(entries[k].path, SampTo(entries[k]))
  {
    if k < |entries| - 1 {
      var init := entries[..|entries| - 1];
      StoreLastWins(init, rdsamp, k);
    }
  }

  /**
   * `get_preloaded_data(metadata_json, limit)`, with the signal reader given
   * as `rdsamp(path, sampto)`: the filtered, limited metadata and a store that
   * holds a signal for every path in it.
   */
  method GetPreloadedData(metadataJson: seq<Entry>, limit: Option<int>,
                          rdsamp: (string, int) -> Matrix<real>)
    returns (metadata: seq<Entry>, preloaded: map<string, Matrix<real>>)
    ensures metadata == Limited(metadataJson, limit)
    ensures preloaded == Store(metadata, rdsamp)
    ensures preloaded.Keys == Paths(metadata)
  {
    var included := Filtered(metadataJson);
    var stop := match limit case None => |included| case Some(k) => k;
    metadata := included[..SliceStop(|included|, stop)];
    preloaded := map[];
    var sampto := MaxSamples;
    var i := 0;
    while i < |metadata|
      invariant 0 <= i <= |metadata|
      invariant preloaded == Store(metadata[..i], rdsamp)
    {
      var entry := metadata[i];
      var sig := rdsamp(entry.path, Min(sampto, entry.sigLen));
      preloaded := preloaded[entry.path := sig];
      assert metadata[..i + 1][..i] == metadata[..i];
      i := i + 1;
    }
    assert metadata[..i] == metadata;
    StoreKeys(metadata, rdsamp);
  }

  /** Every entry of the returned metadata can be looked up in the returned store. */
  lemma PreloadedCoversMetadata(metadataJson: seq<Entry>, limit: Option<int>,
                                rdsamp: (string, int) -> Matrix<real>)
    ensures forall e :: e in Limited(metadataJson, limit) ==>
      e.path in Store(Limited(metadataJson, limit), rdsamp)
  {
    StoreKeys(Limited(metadataJson, limit), rdsamp);
  }
}
