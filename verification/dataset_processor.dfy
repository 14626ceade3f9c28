/**
 * The per-split record loop of `process_dataset`
 * (dataset/pipeline/step4_fix_dataset.py): every `output` value is translated
 * and then label-normalised, changed values are counted, and the split's
 * `output` column is replaced by the new values, position for position.
 */
module DatasetProcessor {
  import opened Wrappers
  import opened Seqs
  import opened TermTranslator
  import opened LabelNormalizer

  /** The two tables the transform reads, and the regular-expression character tables. */
  datatype Config = Config(tables: CharTables, terms: TermTable, labels: map<string, string>) {
    predicate Valid() {
      KeysNonEmpty(terms)
    }
  }

  /** Python's `not output`: the field is absent or the empty string. */
  predicate IsFalsy(o: Option<string>) {
    o.None? || o == Some([])
  }

  /** One record's new `output`: falsy values are kept, others are translated, then label-normalised. */
  function Transform(c: Config, o: Option<string>): (r: Option<string>)
    requires c.Valid()
    ensures IsFalsy(o) ==> r == o
    ensures r.Some? <==> o.Some?
  {
    if IsFalsy(o) then o
    else FixLabel(c.labels, Translate(c.tables, c.terms, o))
  }

  /** The positions at which two equally long columns differ. */
  function ChangedPositions(before: seq<Option<string>>, after: seq<Option<string>>): set<nat>
    requires |before| == |after|
  {
    set i: nat | i < |before| && before[i] != after[i]
  }

  /** The number of differing positions, counted from the front the way the loop counts them. */
  function Differing(before: seq<Option<string>>, after: seq<Option<string>>): (n: nat)
    requires |before| == |after|
    ensures n <= |before|
  {
    if before == [] then 0
    else
      var k := |before| - 1;
      Differing(before[..k], after[..k]) + (if before[k] != after[k] then 1 else 0)
  }

  /** The loop's counter is the number of positions whose value changed. */
  lemma {:induction false} DifferingCountsChanges(before: seq<Option<string>>, after: seq<Option<string>>)
    requires |before| == |after|
    ensures Differing(before, after) == |ChangedPositions(before, after)|
    decreases |before|
  {
    if before != [] {
      var k := |before| - 1;
      DifferingCountsChanges(before[..k], after[..k]);
      var b, a := before[..k], after[..k];
      var front := ChangedPositions(b, a);
      var last: set<nat> := if before[k] != after[k] then {k} else {};
      forall i: nat ensures i in ChangedPositions(before, after) <==> i in front + last {
        if i < k {
          assert b[i] == before[i] && a[i] == after[i];
        }
      }
      assert ChangedPositions(before, after) == front + last;
      assert k !in front;
    }
  }

  /**
   * The body of the loop for one record: a falsy `output` is skipped; any
   * other is translated, then label-normalised, and compared with its
   * original value.
   */
  method ProcessRecord(c: Config, original: Option<string>) returns (output: Option<string>, differs: bool)
    requires c.Valid()
    ensures output == Transform(c, original)
    ensures differs <==> output != original
    ensures differs ==> !IsFalsy(original)
  {
    output := original;
    differs := false;
    if !IsFalsy(output) {
      output := Translate(c.tables, c.terms, output);
      output := FixLabel(c.labels, output);
      if output != original {
        differs := true;
      }
    }
  }

  /**
   * The loop over one split: the new column has one value per record, in
   * record order, and `changed` counts the records whose value differs.
   */
  method ProcessSplit(c: Config, outputs: seq<Option<string>>) returns (updated: seq<Option<string>>, changed: nat)
    requires c.Valid()
    ensures |updated| == |outputs|
    ensures forall i :: 0 <= i < |outputs| ==> updated[i] == Transform(c, outputs[i])
    ensures changed == |ChangedPositions(outputs, updated)|
    ensures forall i :: i in ChangedPositions(outputs, updated) ==> !IsFalsy(outputs[i])
  {
    updated := [];
    changed := 0;
    var i := 0;
    while i < |outputs|
      invariant i <= |outputs| && |updated| == i
      invariant forall k :: 0 <= k < i ==> updated[k] == Transform(c, outputs[k])
      invariant changed == Differing(outputs[..i], updated)
    {
      var output, differs := ProcessRecord(c, outputs[i]);
      if differs {
        changed := changed + 1;
      }
      CountOneMore(outputs[..i], updated, outputs[i], output);
      TakeOneMore(outputs, i);
      var next := updated + [output];
      forall k | 0 <= k < i + 1 ensures next[k] == Transform(c, outputs[k]) {
        if k < i {
          assert next[k] == updated[k];
        }
      }
      updated := next;
      i := i + 1;
    }
    assert outputs[..i] == outputs;
    DifferingCountsChanges(outputs, updated);
    FalsyNeverCounted(c, outputs, updated);
  }

  /** A record whose `output` is absent or empty is never among the changed ones. */
  lemma FalsyNeverCounted(c: Config, outputs: seq<Option<string>>, updated: seq<Option<string>>)
    requires c.Valid() && |updated| == |outputs|
    requires forall i :: 0 <= i < |outputs| ==> updated[i] == Transform(c, outputs[i])
    ensures forall i :: i in ChangedPositions(outputs, updated) ==> !IsFalsy(outputs[i])
  {
    forall i | i in ChangedPositions(outputs, updated) ensures !IsFalsy(outputs[i]) {
      assert updated[i] == Transform(c, outputs[i]);
    }
  }

  /** Appending one pair of values adds one to the count exactly when they differ. */
  lemma CountOneMore(before: seq<Option<string>>, after: seq<Option<string>>, x: Option<string>, y: Option<string>)
    requires |before| == |after|
    ensures Differing(before + [x], after + [y]) == Differing(before, after) + (if x != y then 1 else 0)
  {
    assert (before + [x])[..|before|] == before;
    assert (after + [y])[..|after|] == after;
  }

  // ---------------------------------------------------------------------------
  // Records, splits and the dataset
  // ---------------------------------------------------------------------------

  /** A record: its `output` field and the other columns, which the process never reads. */
  datatype Record<V> = Record(output: Option<string>, others: V)

  /** The two splits of the dataset. */
  datatype Dataset<V> = Dataset(train: seq<Record<V>>, test: seq<Record<V>>)

  /** Records in a split and how many of them changed. */
  datatype SplitCount = SplitCount(total: nat, changed: nat)

  /** The closing summary: total, changed and unchanged records over both splits. */
  datatype Summary = Summary(train: SplitCount, test: SplitCount) {
    function Total(): nat {
      train.total + test.total
    }

    function Changed(): nat {
      train.changed + test.changed
    }

    function Unchanged(): int {
      Total() - Changed()
    }
  }

  /** The `output` column of a split. */
  function Outputs<V>(split: seq<Record<V>>): (r: seq<Option<string>>)
    ensures |r| == |split|
    ensures forall i :: 0 <= i < |split| ==> r[i] == split[i].output
  {
    seq(|split|, i requires 0 <= i < |split| => split[i].output)
  }

  /** Drop the `output` column and add `column` in its place; the other columns stay. */
  function WithOutputs<V>(split: seq<Record<V>>, column: seq<Option<string>>): (r: seq<Record<V>>)
    requires |column| == |split|
    ensures |r| == |split|
    ensures forall i :: 0 <= i < |split| ==> r[i].output == column[i] && r[i].others == split[i].others
  {
    seq(|split|, i requires 0 <= i < |split| => Record(column[i], split[i].others))
  }

  /**
   * `process_dataset` without loading, saving and printing: both splits are
   * transformed record by record, their `output` columns rebuilt, and the
   * counts of the closing summary computed.
   */
  method ProcessDataset<V>(c: Config, ds: Dataset<V>) returns (result: Dataset<V>, summary: Summary)
    requires c.Valid()
    ensures |result.train| == |ds.train| && |result.test| == |ds.test|
    ensures forall i :: 0 <= i < |ds.train| ==>
      result.train[i] == Record(Transform(c, ds.train[i].output), ds.train[i].others)
    ensures forall i :: 0 <= i < |ds.test| ==>
      result.test[i] == Record(Transform(c, ds.test[i].output), ds.test[i].others)
    ensures summary.train == SplitCount(|ds.train|, |ChangedPositions(Outputs(ds.train), Outputs(result.train))|)
    ensures summary.test == SplitCount(|ds.test|, |ChangedPositions(Outputs(ds.test), Outputs(result.test))|)
    ensures 0 <= summary.Unchanged() <= summary.Total()
  {
    var trainOutputs, trainChanged := ProcessSplit(c, Outputs(ds.train));
    var testOutputs, testChanged := ProcessSplit(c, Outputs(ds.test));
    result := Dataset(WithOutputs(ds.train, trainOutputs), WithOutputs(ds.test, testOutputs));
    assert Outputs(result.train) == trainOutputs;
    assert Outputs(result.test) == testOutputs;
    ChangedAtMostAll(Outputs(ds.train), trainOutputs);
    ChangedAtMostAll(Outputs(ds.test), testOutputs);
    summary := Summary(SplitCount(|ds.train|, trainChanged), SplitCount(|ds.test|, testChanged));
  }

  /** At most every record changes. */
  lemma ChangedAtMostAll(before: seq<Option<string>>, after: seq<Option<string>>)
    requires |before| == |after|
    ensures |ChangedPositions(before, after)| <= |before|
  {
    DifferingCountsChanges(before, after);
  }
}
