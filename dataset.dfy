/**
 * `ECGDataset`: an indexable collection of (signal, label, event offset)
 * triples over a metadata list and a store of preloaded signals.
 */
module Dataset {
  import opened Util
  import opened Signal
  import opened Records

  /** Rows every recording is padded or truncated to before the transpose. */
  const WindowSamples := 15000

  /** The offset reported for a recording without an AF event. */
  const NoEvent := -1

  /** The failures `__getitem__` can raise. */
  datatype Error =
    | IndexOutOfRange   // `self.metadata[idx]` raises IndexError
    | KeyNotFound       // `self.preloaded_data[entry['path']]` raises KeyError
    | ShapeMismatch     // the slice assignment in `extend_ts` cannot broadcast the rows

  datatype Result<R> = Ok(value: R) | Err(error: Error)

  /** One training item: signal (leads x samples), label vector and event offset. */
  datatype Item = Item(signal: Matrix<real>, target: seq<real>, eventOffset: int)

  /** The event offset of a record: its first AF end, or -1 if there is none. */
  function EventOffset(e: Entry): (r: int)
    ensures r == NoEvent || r in e.afEnds
    ensures |e.afEnds| > 0 ==> r == e.afEnds[0]
  {
    if |e.afEnds| == 0 then NoEvent else e.afEnds[0]
  }

  /** The fields `ECGDataset.__init__` stores; none is changed afterwards. */
  datatype ECGDataset = ECGDataset(
    metadata: seq<Entry>,
    preloaded: map<string, Matrix<real>>,
    transform: Option<Matrix<real> -> Matrix<real>>,
    targetTransform: Option<seq<real> -> seq<real>>)
  {
    /** `__len__`. */
    function Len(): nat
    {
      |metadata|
    }

    /** The indices a Python list accepts, negative ones counting from the end. */
    predicate InRange(idx: int)
    {
      -|metadata| <= idx < |metadata|
    }

    /** `self.metadata[idx]`. */
    function EntryAt(idx: int): Entry
      requires InRange(idx)
    {
      metadata[if idx < 0 then idx + |metadata| else idx]
    }

    /** `__getitem__(idx)`, with the float32 cast left out. */
    function GetItem(idx: int): (r: Result<Item>)
      ensures r.Ok? && transform.None? ==>
        |r.value.signal| == Leads && HasWidth(r.value.signal, WindowSamples)
      ensures r.Ok? && targetTransform.None? ==> |r.value.target| == 1
    {
      if !InRange(idx) then Err(IndexOutOfRange)
      else
        var entry := EntryAt(idx);
        if entry.path !in preloaded then Err(KeyNotFound)
        else
          var raw := preloaded[entry.path];
          if !Assignable(raw) then Err(ShapeMismatch)
          else
            var sig := Transposed(Extended(raw, WindowSamples, 0.0), Leads);
            var target := [entry.classLabel as real];
            var sig' := match transform case None => sig case Some(f) => f(sig);
            var target' := match targetTransform case None => target case Some(g) => g(target);
            Ok(Item(sig', target', EventOffset(entry)))
    }
  }

  /**
   * `__len__` is the number of entries given at construction, and it bounds
   * exactly the indices `__getitem__` accepts: the dataset filters nothing.
   */
  lemma LenBoundsIndices(ds: ECGDataset, idx: int)
    ensures ds.Len() == |ds.metadata|
    ensures ds.GetItem(idx).Err? && ds.GetItem(idx).error == IndexOutOfRange
      <==> !(-(ds.Len() as int) <= idx < ds.Len())
  {
  }

  /**
   * Within range, the item fails with a missing key exactly when the entry's
   * path is not in the store, with a shape mismatch exactly when the stored
   * signal has a row NumPy cannot broadcast to two leads, and succeeds otherwise.
   */
  lemma GetItemErrors(ds: ECGDataset, idx: int)
    requires ds.InRange(idx)
    ensures ds.GetItem(idx).Err? && ds.GetItem(idx).error == KeyNotFound
      <==> ds.EntryAt(idx).path !in ds.preloaded
    ensures ds.GetItem(idx).Err? && ds.GetItem(idx).error == ShapeMismatch
      <==> ds.EntryAt(idx).path in ds.preloaded && !Assignable(ds.preloaded[ds.EntryAt(idx).path])
    ensures ds.GetItem(idx).Ok?
      <==> ds.EntryAt(idx).path in ds.preloaded && Assignable(ds.preloaded[ds.EntryAt(idx).path])
  {
  }

  /** The event offset is -1 for a record without AF ends and its first AF end otherwise. */
  lemma GetItemEventOffset(ds: ECGDataset, idx: int)
    requires ds.GetItem(idx).Ok?
    ensures ds.InRange(idx)
    ensures |ds.EntryAt(idx).afEnds| == 0 ==> ds.GetItem(idx).value.eventOffset == -1
    ensures |ds.EntryAt(idx).afEnds| > 0 ==>
      ds.GetItem(idx).value.eventOffset == ds.EntryAt(idx).afEnds[0]
  {
  }

  /** Without a target transform the label is the one-element vector holding the entry's class. */
  lemma GetItemLabel(ds: ECGDataset, idx: int)
    requires ds.GetItem(idx).Ok? && ds.targetTransform.None?
    ensures ds.InRange(idx)
    ensures ds.GetItem(idx).value.target == [ds.EntryAt(idx).classLabel as real]
  {
  }

  /**
   * Without a transform the signal is the transpose of the recording extended
   * to 15000 rows: two leads of 15000 samples, sample `t` of lead `c` being
   * lead `c` of input row `t` where the input reaches and 0 beyond it.
   */
  lemma GetItemSignal(ds: ECGDataset, idx: int)
    requires ds.GetItem(idx).Ok? && ds.transform.None?
    ensures ds.InRange(idx) && ds.EntryAt(idx).path in ds.preloaded
    ensures var raw := ds.preloaded[ds.EntryAt(idx).path];
      var sig := ds.GetItem(idx).value.signal;
      Assignable(raw) &&
      |sig| == Leads && HasWidth(sig, WindowSamples) &&
      sig == Transposed(Extended(raw, WindowSamples, 0.0), Leads) &&
      forall c, t :: 0 <= c < Leads && 0 <= t < WindowSamples ==>
        sig[c][t] == if t < |raw| then AsLeads(raw[t])[c] else 0.0
  {
  }

  /**
   * A dataset built from `get_preloaded_data`'s two results never fails with
   * a missing key: every entry it serves has its signal in the store.
   */
  lemma PreloadedDatasetHasEveryKey(metadataJson: seq<Entry>, limit: Option<int>,
                                    rdsamp: (string, int) -> Matrix<real>,
                                    transform: Option<Matrix<real> -> Matrix<real>>,
                                    targetTransform: Option<seq<real> -> seq<real>>,
                                    idx: int)
    ensures var metadata := Limited(metadataJson, limit);
      var ds := ECGDataset(metadata, Store(metadata, rdsamp), transform, targetTransform);
      !(ds.GetItem(idx).Err? && ds.GetItem(idx).error == KeyNotFound)
  {
    PreloadedCoversMetadata(metadataJson, limit, rdsamp);
  }

  /** `rows` rows of the constant two-lead sample `v`. */
  function Constant(rows: nat, v: real): (m: Matrix<real>)
    ensures |m| == rows && HasWidth(m, Leads)
  {
    seq(rows, _ => [v, v])
  }

  /**
   * A recording of 20000 two-lead samples of 1.0, class 1, AF ending at 5000:
   * the item is 2 x 15000 ones (the first 15000 rows, transposed), label [1.0]
   * and event offset 5000.
   */
  lemma LongRecordingScenario()
    ensures var ds := ECGDataset([Entry("A", 1, 20000, [5000])],
                                 map["A" := Constant(20000, 1.0)], None, None);
      ds.GetItem(0) == Ok(Item(seq(Leads, _ => seq(WindowSamples, _ => 1.0)), [1.0], 5000))
  {
    var ds := ECGDataset([Entry("A", 1, 20000, [5000])],
                         map["A" := Constant(20000, 1.0)], None, None);
    var raw := Constant(20000, 1.0);
    assert ds.EntryAt(0).path == "A";
    GetItemSignal(ds, 0);
    var sig := ds.GetItem(0).value.signal;
    var want := seq(Leads, _ => seq(WindowSamples, _ => 1.0));
    forall c | 0 <= c < Leads ensures sig[c] == want[c] {
      forall t | 0 <= t < WindowSamples ensures sig[c][t] == want[c][t] {
        assert raw[t] == [1.0, 1.0];
      }
    }
    assert sig == want;
    GetItemLabel(ds, 0);
    GetItemEventOffset(ds, 0);
    assert ds.GetItem(0).value == Item(want, [1.0], 5000);
  }

  /**
   * A recording of 100 two-lead samples of 0.0, class 0, without AF: the item
   * is 2 x 15000 zeros, label [0.0] and event offset -1.
   */
  lemma ShortRecordingScenario()
    ensures var ds := ECGDataset([Entry("B", 0, 100, [])],
                                 map["B" := Constant(100, 0.0)], None, None);
      ds.GetItem(0) == Ok(Item(seq(Leads, _ => seq(WindowSamples, _ => 0.0)), [0.0], -1))
  {
    var ds := ECGDataset([Entry("B", 0, 100, [])],
                         map["B" := Constant(100, 0.0)], None, None);
    var raw := Constant(100, 0.0);
    assert ds.EntryAt(0).path == "B";
    GetItemSignal(ds, 0);
    var sig := ds.GetItem(0).value.signal;
    var want := seq(Leads, _ => seq(WindowSamples, _ => 0.0));
    forall c | 0 <= c < Leads ensures sig[c] == want[c] {
      forall t | 0 <= t < WindowSamples ensures sig[c][t] == want[c][t] {
        if t < |raw| {
          assert raw[t] == [0.0, 0.0];
        }
      }
    }
    assert sig == want;
    GetItemLabel(ds, 0);
    GetItemEventOffset(ds, 0);
    assert ds.GetItem(0).value == Item(want, [0.0], -1);
  }
}
