/**
 * BlurMageddon's ModelTrainer: training counts the rows of each label and
 * returns a predictor that always answers the most frequent label;
 * evaluation counts the rows whose predicted label equals the stored one.
 */
module ModelTrainer {
  import opened Wrappers
  import opened BlurData

  /** The number of rows carrying `label`. */
  function Count<F>(rows: seq<DataRow<F>>, lab: string): (c: nat)
    ensures c <= |rows|
    ensures c == 0 <==> forall i :: 0 <= i < |rows| ==> rows[i].rowLabel != lab
  {
    if |rows| == 0 then 0
    else
      var init := rows[..|rows| - 1];
      assert forall i :: 0 <= i < |init| ==> init[i] == rows[i];
      Count(init, lab) + (if rows[|rows| - 1].rowLabel == lab then 1 else 0)
  }

  /** The distinct labels, in the order GroupBy meets them: first appearance in the rows. */
  function Labels<F>(rows: seq<DataRow<F>>): (ks: seq<string>)
    ensures forall i, j :: 0 <= i < j < |ks| ==> ks[i] != ks[j]
    ensures forall l :: l in ks <==> Count(rows, l) > 0
  {
    if |rows| == 0 then []
    else
      var init := rows[..|rows| - 1];
      var l := rows[|rows| - 1].rowLabel;
      var ks := Labels(init);
      if l in ks then ks else ks + [l]
  }

  /** The label-to-count dictionary, as (label, count) pairs in its key order. */
  function ClassCounts<F>(rows: seq<DataRow<F>>): (cs: seq<(string, nat)>)
    ensures |cs| == |Labels(rows)|
    ensures forall i :: 0 <= i < |cs| ==> cs[i].0 == Labels(rows)[i] && cs[i].1 == Count(rows, cs[i].0) >= 1
    ensures |rows| > 0 ==> |cs| > 0
  {
    var ks := Labels(rows);
    assert |rows| > 0 ==> Count(rows, rows[0].rowLabel) > 0;
    seq(|ks|, i requires 0 <= i < |ks| => (ks[i], Count(rows, ks[i])))
  }

  /** `OrderByDescending(count).First()`: the sort is stable, so this is the first pair with the largest count. */
  function FirstMax(cs: seq<(string, nat)>): (j: nat)
    requires |cs| > 0
    ensures j < |cs|
    ensures forall k :: 0 <= k < |cs| ==> cs[k].1 <= cs[j].1
    ensures forall k :: 0 <= k < j ==> cs[k].1 < cs[j].1
  {
    if |cs| == 1 then 0
    else
      var j := FirstMax(cs[1..]) + 1;
      assert forall k :: 1 <= k < |cs| ==> cs[k] == cs[1..][k - 1];
      if cs[j].1 > cs[0].1 then j else 0
  }

  /**
   * The majority label: none for no rows (First() throws); otherwise a label
   * of the rows that no other label outnumbers, the earliest seen among ties.
   */
  function Majority<F>(rows: seq<DataRow<F>>): (m: Option<string>)
    ensures m.Some? <==> |rows| > 0
    ensures m.Some? ==> Count(rows, m.value) > 0 && forall l :: Count(rows, l) <= Count(rows, m.value)
  {
    if |rows| == 0 then None
    else
      var cs := ClassCounts(rows);
      var j := FirstMax(cs);
      assert forall l :: Count(rows, l) > 0 ==> exists k :: 0 <= k < |cs| && cs[k].0 == l;
      Some(cs[j].0)
  }

  /** TrainModel: a predictor that ignores its row and answers the majority label. */
  function TrainModel<F(!new)>(trainData: seq<DataRow<F>>, labelColumnName: string): (r: Option<DataRow<F> -> string>)
    ensures r.Some? <==> |trainData| > 0
    ensures r.Some? ==> forall row :: r.value(row) == Majority(trainData).value
  {
    match Majority(trainData)
    case None => None
    case Some(m) => Some(row => m)
  }

  /** The sum of the counts of the given labels. */
  function CountOf<F>(rows: seq<DataRow<F>>, ks: seq<string>): nat
  {
    if |ks| == 0 then 0 else CountOf(rows, ks[..|ks| - 1]) + Count(rows, ks[|ks| - 1])
  }

  /** One more row adds one to the count of its label, when that label is listed once. */
  lemma {:induction false} CountOfSnoc<F>(rows: seq<DataRow<F>>, row: DataRow<F>, ks: seq<string>)
    requires forall i, j :: 0 <= i < j < |ks| ==> ks[i] != ks[j]
    ensures CountOf(rows + [row], ks) == CountOf(rows, ks) + if row.rowLabel in ks then 1 else 0
  {
    assert (rows + [row])[..|rows|] == rows;
    if |ks| > 0 {
      CountOfSnoc(rows, row, ks[..|ks| - 1]);
      assert ks == ks[..|ks| - 1] + [ks[|ks| - 1]];
    }
  }

  /** The per-label counts add up to the number of rows. */
  lemma {:induction false} ClassCountsSum<F>(rows: seq<DataRow<F>>)
    ensures CountOf(rows, Labels(rows)) == |rows|
  {
    if |rows| > 0 {
      var init := rows[..|rows| - 1];
      var row := rows[|rows| - 1];
      assert rows == init + [row];
      ClassCountsSum(init);
      CountOfSnoc(init, row, Labels(init));
      var ks := Labels(init);
      if row.rowLabel !in ks {
        assert Labels(rows) == ks + [row.rowLabel];
        assert (ks + [row.rowLabel])[..|ks|] == ks;
        assert Count(init, row.rowLabel) == 0;
      }
    }
  }

  /** The listed labels together count at most their number times the largest count. */
  lemma {:induction false} CountOfBound<F>(rows: seq<DataRow<F>>, ks: seq<string>, top: nat)
    requires forall l :: Count(rows, l) <= top
    ensures CountOf(rows, ks) <= |ks| * top
  {
    if |ks| > 0 {
      var init := ks[..|ks| - 1];
      CountOfBound(rows, init, top);
      assert CountOf(rows, ks) == CountOf(rows, init) + Count(rows, ks[|ks| - 1]);
      assert |init| * top + top == |ks| * top;
    }
  }

  /** The number of rows whose predicted label equals the stored one. */
  function Correct<F>(model: DataRow<F> -> string, rows: seq<DataRow<F>>): (c: nat)
    ensures c <= |rows|
  {
    if |rows| == 0 then 0
    else Correct(model, rows[..|rows| - 1]) + if model(rows[|rows| - 1]) == rows[|rows| - 1].rowLabel then 1 else 0
  }

  /** EvaluateModel's loop: the count of correct predictions (the accuracy division is left out). */
  method EvaluateModel<F>(model: DataRow<F> -> string, testData: seq<DataRow<F>>) returns (correct: nat)
    ensures correct == Correct(model, testData) <= |testData|
  {
    correct := 0;
    for i := 0 to |testData|
      invariant correct == Correct(model, testData[..i])
    {
      assert testData[..i + 1][..i] == testData[..i];
      if model(testData[i]) == testData[i].rowLabel {
        correct := correct + 1;
      }
    }
    assert testData[..|testData|] == testData;
  }

  /** A predictor that always answers `label` is right on exactly the rows with that label. */
  lemma {:induction false} ConstantCorrect<F>(model: DataRow<F> -> string, lab: string, rows: seq<DataRow<F>>)
    requires forall row :: model(row) == lab
    ensures Correct(model, rows) == Count(rows, lab)
  {
    if |rows| > 0 {
      ConstantCorrect(model, lab, rows[..|rows| - 1]);
    }
  }

  /**
   * The trained predictor, evaluated on its own training data, is right on
   * as many rows as the majority label has, which no label exceeds and which
   * is at least the share of one label among all of them.
   */
  lemma MajorityOnTrainingData<F(!new)>(trainData: seq<DataRow<F>>, name: string)
    requires |trainData| > 0
    ensures var model := TrainModel(trainData, name).value;
            && Correct(model, trainData) == Count(trainData, Majority(trainData).value)
            && (forall l :: Count(trainData, l) <= Correct(model, trainData))
            && |trainData| <= |Labels(trainData)| * Correct(model, trainData)
  {
    var model := TrainModel(trainData, name).value;
    var m := Majority(trainData).value;
    ConstantCorrect(model, m, trainData);
    ClassCountsSum(trainData);
    CountOfBound(trainData, Labels(trainData), Count(trainData, m));
  }
}
