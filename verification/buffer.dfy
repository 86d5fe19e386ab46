/** The prediction buffer `collect_data` (matrix.py:332-360). Pseudo-labelled
    inputs accumulate until `batch_size` of them are available; then a batch
    is flushed and the rest is carried to the next call. Inputs and their
    predicted labels travel in two parallel sequences. */
module Buffer {
  import opened Python

  /** `(inputs_test, inputs_next, pred, pred_next, ready_flag)`. */
  datatype Collected<T, P> = Collected(
    flushInputs: seq<T>,
    carryInputs: seq<T>,
    flushPreds: seq<P>,
    carryPreds: seq<P>,
    ready: nat)

  /** Lines 336-360 as written. With `split == 0`, that is with exactly
      `batch_size` inputs already buffered, the carry is emptied and the incoming
      inputs are lost (lines 346-348). */
  function CollectData<T, P>(test: seq<T>, incoming: seq<T>, pred: seq<P>, predIncoming: seq<P>, batchSize: int)
    : (r: Collected<T, P>)
    ensures r.ready == 1 <==> |test| + |incoming| >= batchSize
    ensures r.ready == 0 <==> |test| + |incoming| < batchSize
    ensures r.ready == 0 ==> r.flushInputs == [] && r.flushPreds == []
  {
    if |test| + |incoming| >= batchSize then
      if |test| == 0 then Collected(incoming, [], predIncoming, [], 1)
      else
        var split := batchSize - |test|;
        Collected(test + Take(incoming, split), if split == 0 then [] else Drop(incoming, split),
                  pred + Take(predIncoming, split), if split == 0 then [] else Drop(predIncoming, split), 1)
    else if |test| == 0 then Collected([], incoming, [], predIncoming, 0)
    else Collected([], test + incoming, [], pred + predIncoming, 0)
  }

  /** The same buffer with the carry always taken as `inputs_new[split:]`. */
  function CollectDataFixed<T, P>(test: seq<T>, incoming: seq<T>, pred: seq<P>, predIncoming: seq<P>, batchSize: int)
    : (r: Collected<T, P>)
    ensures r.ready == 1 <==> |test| + |incoming| >= batchSize
    ensures r.ready == 0 <==> |test| + |incoming| < batchSize
    ensures r.ready == 0 ==> r.flushInputs == [] && r.flushPreds == []
  {
    if |test| + |incoming| >= batchSize then
      if |test| == 0 then Collected(incoming, [], predIncoming, [], 1)
      else
        var split := batchSize - |test|;
        Collected(test + Take(incoming, split), Drop(incoming, split),
                  pred + Take(predIncoming, split), Drop(predIncoming, split), 1)
    else if |test| == 0 then Collected([], incoming, [], predIncoming, 0)
    else Collected([], test + incoming, [], pred + predIncoming, 0)
  }

  /** A buffer holding between 1 and `batch_size - 1` inputs that the incoming
      inputs bring to `batch_size` or more flushes exactly `batch_size` inputs
      and carries the rest, losing and duplicating nothing. */
  lemma FlushAsWritten<T, P>(test: seq<T>, incoming: seq<T>, pred: seq<P>, predIncoming: seq<P>, batchSize: int)
    requires 0 < |test| < batchSize <= |test| + |incoming|
    ensures var r := CollectData(test, incoming, pred, predIncoming, batchSize);
      && r.ready == 1
      && |r.flushInputs| == batchSize
      && r.flushInputs + r.carryInputs == test + incoming
  {
    TakeDrop(incoming, batchSize - |test|);
  }

  /** With exactly `batch_size` inputs buffered, the as-written buffer drops
      every incoming input: one buffered input, batch size 1, one incoming input. */
  lemma FlushDropsNewInputs()
    ensures var r := CollectData([10], [20], [1], [2], 1);
      && r.flushInputs == [10] && r.carryInputs == []
      && r.flushInputs + r.carryInputs != [10] + [20]
  {
    var r := CollectData([10], [20], [1], [2], 1);
    assert (r.flushInputs + r.carryInputs)[..] == [10];
  }

  /** For every input: with exactly `batch_size` inputs buffered, the
      as-written buffer flushes the buffer unchanged and carries nothing, so
      every incoming input and prediction is lost. */
  lemma FullBufferDropsNewInputs<T, P>(test: seq<T>, incoming: seq<T>, pred: seq<P>, predIncoming: seq<P>,
                                       batchSize: int)
    requires 0 < |test| == batchSize && 0 < |incoming|
    ensures var r := CollectData(test, incoming, pred, predIncoming, batchSize);
      && r.ready == 1
      && r.flushInputs == test && r.flushPreds == pred
      && r.carryInputs == [] && r.carryPreds == []
      && |r.flushInputs + r.carryInputs| < |test + incoming|
  {
    SliceBounds(incoming, 0);
    SliceBounds(predIncoming, 0);
  }

  /** The corrected buffer: every input that goes in comes out, flushed or
      carried, in order; flushed batches have exactly `batch_size` inputs
      whenever something was buffered and the buffer did not already exceed
      `batch_size`. */
  lemma FlushConserves<T, P>(test: seq<T>, incoming: seq<T>, pred: seq<P>, predIncoming: seq<P>, batchSize: int)
    ensures var r := CollectDataFixed(test, incoming, pred, predIncoming, batchSize);
      && r.flushInputs + r.carryInputs == test + incoming
      && (r.ready == 1 && 0 < |test| <= batchSize ==> |r.flushInputs| == batchSize)
  {
    var r := CollectDataFixed(test, incoming, pred, predIncoming, batchSize);
    if |test| + |incoming| >= batchSize && |test| > 0 {
      var split := batchSize - |test|;
      TakeDrop(incoming, split);
      assert r.flushInputs + r.carryInputs == test + (Take(incoming, split) + Drop(incoming, split));
      if |test| <= batchSize {
        TakeLength(incoming, split);
      }
    } else if |test| == 0 {
      assert test + incoming == incoming;
    }
  }

  /** When every buffered input has its prediction and every incoming input has
      its prediction, the corrected buffer keeps them paired: flushed and
      carried predictions line up with the flushed and carried inputs, and all
      predictions come out in order. */
  lemma FlushKeepsPairs<T, P>(test: seq<T>, incoming: seq<T>, pred: seq<P>, predIncoming: seq<P>, batchSize: int)
    requires |pred| == |test| && |predIncoming| == |incoming|
    ensures var r := CollectDataFixed(test, incoming, pred, predIncoming, batchSize);
      && |r.flushPreds| == |r.flushInputs|
      && |r.carryPreds| == |r.carryInputs|
      && r.flushPreds + r.carryPreds == pred + predIncoming
  {
    var r := CollectDataFixed(test, incoming, pred, predIncoming, batchSize);
    if |test| == 0 {
      assert pred + predIncoming == predIncoming;
    } else if |test| + |incoming| >= batchSize {
      var b := Bound(|incoming|, batchSize - |test|);
      assert r.flushPreds == pred + predIncoming[..b] && r.carryPreds == predIncoming[b..];
      assert r.flushInputs == test + incoming[..b] && r.carryInputs == incoming[b..];
      assert predIncoming[..b] + predIncoming[b..] == predIncoming;
      assert r.flushPreds + r.carryPreds == pred + (predIncoming[..b] + predIncoming[b..]);
    }
  }

  /** An empty buffer and a batch of at least `batch_size` incoming inputs: the
      whole batch is flushed, however long, and nothing is carried. */
  lemma EmptyBufferLargeBatch<T, P>(incoming: seq<T>, predIncoming: seq<P>, batchSize: int)
    requires |incoming| >= batchSize
    ensures var r := CollectData([], incoming, [], predIncoming, batchSize);
      r.ready == 1 && r.flushInputs == incoming && r.carryInputs == [] && r.flushPreds == predIncoming
  {
  }

  /** Under the threshold nothing is flushed and everything is carried. */
  lemma UnderThreshold<T, P>(test: seq<T>, incoming: seq<T>, pred: seq<P>, predIncoming: seq<P>, batchSize: int)
    requires |test| + |incoming| < batchSize
    ensures var r := CollectData(test, incoming, pred, predIncoming, batchSize);
      && r.ready == 0 && r.flushInputs == []
      && r.carryInputs == test + incoming
      && r.carryPreds == (if |test| == 0 then predIncoming else pred + predIncoming)
  {
    if |test| == 0 {
      assert test + incoming == incoming;
    }
  }

  /** Eight buffered and five incoming inputs with batch size 10: ten are flushed
      (the eight and the first two incoming ones) and three are carried. */
  lemma EightPlusFive()
    ensures var r := CollectData([0, 1, 2, 3, 4, 5, 6, 7], [8, 9, 10, 11, 12], [0, 0, 0, 0, 0, 0, 0, 0], [1, 1, 1, 1, 1], 10);
      && r.ready == 1
      && r.flushInputs == [0, 1, 2, 3, 4, 5, 6, 7, 8, 9]
      && r.carryInputs == [10, 11, 12]
  {
    var incoming := [8, 9, 10, 11, 12];
    assert Take(incoming, 2) == [8, 9];
    assert Drop(incoming, 2) == [10, 11, 12];
  }
}
