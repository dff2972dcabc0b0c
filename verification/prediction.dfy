/** Disease-level decision (app.py, classify, get_significant_feature and
    prediction): every feature row is labelled by the pickled support-vector
    classifier, and a three-stage cascade turns the labelled rows of one
    image into a classified feature and a label. */
module Classification {
  import opened Wrappers
  import opened Features

  /** The five outcomes `prediction` can append. */
  datatype Label = Explored | MidExplored | Begin | Healthy | NoDisease

  /** The exact text appended to `classified_f_label`. */
  function LabelText(l: Label): string {
    match l
    case Explored => "Classified Label: Explored Yellow-Rust Disease"
    case MidExplored => "Classified Label: Mid-Explored Yellow-Rust Disease"
    case Begin => "Classified Label: Begin Yellow-Rust Disease"
    case Healthy => "Classified Label: Healthy Image"
    case NoDisease => "Classified Label: No Disease"
  }

  /** A row of a training table: three features and a 1 (disease) / 0 label. */
  datatype TrainingRow = TrainingRow(feature: Triple, target: int)

  type TrainingTable = seq<TrainingRow>

  /** The classifier loaded from `finalized_model.sav`: an opaque but
      deterministic map from a feature row to a predicted label. */
  type Classifier = Triple -> int

  /** Prediction value that marks a row as diseased. */
  const Positive := 1

  /** Thresholds of get_significant_feature, stage 2 and stage 3. */
  const SignificantSaturation := 150
  const SignificantHue := 70
  const MidExploredValue := 65
  const BeginHue := 70

  /** classify: the predicted label of every test row, computed with the
      loaded model; the training table it is given is never read. */
  function Classify(train: TrainingTable, model: Classifier, rows: seq<Triple>): (pred: seq<int>)
    ensures |pred| == |rows|
    ensures forall i :: 0 <= i < |rows| ==> pred[i] == model(rows[i])
  {
    seq(|rows|, i requires 0 <= i < |rows| => model(rows[i]))
  }

  /** Whatever training table is passed, classify predicts the same labels. */
  lemma ClassifyIgnoresTable(t1: TrainingTable, t2: TrainingTable, model: Classifier, rows: seq<Triple>)
    ensures Classify(t1, model, rows) == Classify(t2, model, rows)
  {
  }

  /** k is the first index whose second component (saturation) is maximal:
      what `np.where(value == value.max())[0][0]` selects. */
  ghost predicate FirstMax(fs: seq<Triple>, k: nat) {
    && k < |fs|
    && (forall j :: 0 <= j < |fs| ==> fs[j].s <= fs[k].s)
    && (forall j :: 0 <= j < k ==> fs[j].s < fs[k].s)
  }

  function ArgMaxSaturation(fs: seq<Triple>): (k: nat)
    requires |fs| > 0
    ensures FirstMax(fs, k)
  {
    if |fs| == 1 then 0
    else
      var k := ArgMaxSaturation(fs[..|fs| - 1]);
      if fs[|fs| - 1].s > fs[k].s then |fs| - 1 else k
  }

  /** The first maximal index is unique. */
  lemma FirstMaxUnique(fs: seq<Triple>, k1: nat, k2: nat)
    requires FirstMax(fs, k1) && FirstMax(fs, k2)
    ensures k1 == k2
  {
    assert fs[k1].s <= fs[k2].s && fs[k2].s <= fs[k1].s;
  }

  /** The gate of get_significant_feature. */
  predicate Significant(t: Triple) {
    t.s > SignificantSaturation && t.h > SignificantHue
  }

  /** get_significant_feature: the first row of maximal saturation when its
      saturation exceeds 150 and its hue exceeds 70, and `[]` (None)
      otherwise. The source raises on an empty list, so callers must supply
      at least one row. */
  function GetSignificantFeature(fs: seq<Triple>): (r: Option<Triple>)
    requires |fs| > 0
    ensures r.Some? ==> r.value in fs && Significant(r.value)
    ensures r.Some? ==> forall j :: 0 <= j < |fs| ==> fs[j].s <= r.value.s
    ensures forall k: nat :: FirstMax(fs, k) ==> (r.Some? <==> Significant(fs[k])) && (r.Some? ==> r.value == fs[k])
  {
    var pos := ArgMaxSaturation(fs);
    FirstMaxIsArgMax(fs, pos);
    if Significant(fs[pos]) then Some(fs[pos]) else None
  }

  lemma FirstMaxIsArgMax(fs: seq<Triple>, pos: nat)
    requires FirstMax(fs, pos)
    ensures forall k: nat :: FirstMax(fs, k) ==> k == pos
  {
    forall k: nat | FirstMax(fs, k)
      ensures k == pos
    {
      FirstMaxUnique(fs, k, pos);
    }
  }

  /** The indices of the rows predicted positive: strictly increasing, each
      predicted positive, and every positive row among them. */
  function PositiveIndices(pred: seq<int>): (idx: seq<nat>)
    ensures forall j :: 0 <= j < |idx| ==> idx[j] < |pred| && pred[idx[j]] == Positive
    ensures forall j1, j2 :: 0 <= j1 < j2 < |idx| ==> idx[j1] < idx[j2]
    ensures forall i :: 0 <= i < |pred| && pred[i] == Positive ==> i in idx
  {
    if |pred| == 0 then []
    else
      var n := |pred| - 1;
      PositiveIndices(pred[..n]) + (if pred[n] == Positive then [n] else [])
  }

  /** Stage 1 input: the rows predicted positive, in their original order
      (`valid_features`). */
  function Positives(fs: seq<Triple>, pred: seq<int>): (r: seq<Triple>)
    requires |pred| == |fs|
    ensures |r| == |PositiveIndices(pred)|
    ensures forall j :: 0 <= j < |r| ==> r[j] == fs[PositiveIndices(pred)[j]]
    ensures |r| == 0 <==> forall i :: 0 <= i < |fs| ==> pred[i] != Positive
  {
    if |fs| == 0 then []
    else
      var n := |fs| - 1;
      Positives(fs[..n], pred[..n]) + (if pred[n] == Positive then [fs[n]] else [])
  }

  /** Stage 2 search: the first row predicted positive. */
  function FirstPositive(pred: seq<int>): (r: Option<nat>)
    ensures r.Some? ==> r.value < |pred| && pred[r.value] == Positive
    ensures r.Some? ==> forall i :: 0 <= i < r.value ==> pred[i] != Positive
    ensures r.None? ==> forall i :: 0 <= i < |pred| ==> pred[i] != Positive
  {
    if |pred| == 0 then None
    else if pred[0] == Positive then Some(0)
    else match FirstPositive(pred[1..])
      case None => None
      case Some(i) => Some(i + 1)
  }

  /** A row that ends stage 3: predicted positive with hue above 70. */
  predicate BeginRow(t: Triple, p: int) {
    p == Positive && t.h > BeginHue
  }

  /** Stage 3 search: the first row that is a begin row. */
  function FirstBegin(fs: seq<Triple>, pred: seq<int>): (r: Option<nat>)
    requires |pred| == |fs|
    ensures r.Some? ==> r.value < |fs| && BeginRow(fs[r.value], pred[r.value])
    ensures r.Some? ==> forall i :: 0 <= i < r.value ==> !BeginRow(fs[i], pred[i])
    ensures r.None? ==> forall i :: 0 <= i < |fs| ==> !BeginRow(fs[i], pred[i])
  {
    if |fs| == 0 then None
    else if BeginRow(fs[0], pred[0]) then Some(0)
    else match FirstBegin(fs[1..], pred[1..])
      case None => None
      case Some(i) => Some(i + 1)
  }

  /** What `prediction` appends for one image. */
  datatype Verdict = Verdict(feature: Option<Triple>, outcome: Label)

  /** Labels that carry a classified feature. */
  predicate IsDisease(l: Label) {
    l == Explored || l == MidExplored || l == Begin
  }

  /** The cascade for one image, given the predictions of the three stages:
      Explored (significant feature among the positives), else Mid-Explored
      (first positive row, value above 65), else Begin (first positive row
      with hue above 70), else No Disease. A feature is returned exactly with
      a disease label, and it is a row of the image. */
  function Cascade(fs: seq<Triple>, p1: seq<int>, p2: seq<int>, p3: seq<int>): (v: Verdict)
    requires |p1| == |fs| && |p2| == |fs| && |p3| == |fs|
    ensures v.feature.Some? <==> IsDisease(v.outcome)
    ensures v.feature.Some? ==> v.feature.value in fs
  {
    var valid := Positives(fs, p1);
    if |valid| > 0 then
      match GetSignificantFeature(valid)
      case Some(t) => Verdict(Some(t), Explored)
      case None => Verdict(None, Healthy)
    else match FirstPositive(p2)
      case Some(i) =>
        if fs[i].v > MidExploredValue then Verdict(Some(fs[i]), MidExplored)
        else Verdict(None, Healthy)
      case None => match FirstBegin(fs, p3)
        case Some(i) => Verdict(Some(fs[i]), Begin)
        case None => Verdict(None, NoDisease)
  }

  /** The stages run in fixed order: stage 1 decides whenever it sees a
      positive row; Mid-Explored needs a stage-2 positive row with value above
      65 and no stage-1 positive; Begin needs a stage-3 begin row and no
      positive in stages 1 and 2; No Disease is the outcome exactly when no
      stage finds a row. */
  lemma {:induction false} CascadeStageOrder(fs: seq<Triple>, p1: seq<int>, p2: seq<int>, p3: seq<int>)
    requires |p1| == |fs| && |p2| == |fs| && |p3| == |fs|
    ensures var v := Cascade(fs, p1, p2, p3);
      && ((exists i :: 0 <= i < |fs| && p1[i] == Positive) ==> v.outcome == Explored || v.outcome == Healthy)
      && (v.outcome == Explored ==> (exists i :: 0 <= i < |fs| && p1[i] == Positive) && Significant(v.feature.value))
    ensures var v := Cascade(fs, p1, p2, p3);
      && (v.outcome == MidExplored ==> (forall i :: 0 <= i < |fs| ==> p1[i] != Positive) && v.feature.value.v > MidExploredValue)
      && (v.outcome == MidExplored ==> exists i :: 0 <= i < |fs| && p2[i] == Positive && v.feature.value == fs[i])
    ensures var v := Cascade(fs, p1, p2, p3);
      && (v.outcome == Begin ==> forall i :: 0 <= i < |fs| ==> p1[i] != Positive && p2[i] != Positive)
      && (v.outcome == Begin ==> exists i :: 0 <= i < |fs| && BeginRow(fs[i], p3[i]) && v.feature.value == fs[i])
    ensures Cascade(fs, p1, p2, p3).outcome == NoDisease <==> forall i :: 0 <= i < |fs| ==>
      p1[i] != Positive && p2[i] != Positive && !BeginRow(fs[i], p3[i])
  {
  }

  /** Which row decides: stage 1 the significant feature of its positive rows
      in order, stage 2 its first positive row (and it stops there), stage 3
      its first begin row. */
  lemma {:induction false} CascadeDecidingRow(fs: seq<Triple>, p1: seq<int>, p2: seq<int>, p3: seq<int>)
    requires |p1| == |fs| && |p2| == |fs| && |p3| == |fs|
    ensures (exists i :: 0 <= i < |fs| && p1[i] == Positive) ==>
      var valid := Positives(fs, p1);
      && |valid| > 0
      && Cascade(fs, p1, p2, p3) ==
           (if GetSignificantFeature(valid).Some? then Verdict(GetSignificantFeature(valid), Explored)
            else Verdict(None, Healthy))
    ensures (forall i :: 0 <= i < |fs| ==> p1[i] != Positive) && FirstPositive(p2).Some? ==>
      var i := FirstPositive(p2).value;
      && i < |fs|
      && Cascade(fs, p1, p2, p3) ==
           (if fs[i].v > MidExploredValue then Verdict(Some(fs[i]), MidExplored) else Verdict(None, Healthy))
    ensures (forall i :: 0 <= i < |fs| ==> p1[i] != Positive) && FirstPositive(p2).None? && FirstBegin(fs, p3).Some? ==>
      Cascade(fs, p1, p2, p3) == Verdict(Some(fs[FirstBegin(fs, p3).value]), Begin)
  {
  }

  /** One image through `prediction`: the three stages classify the same rows,
      each against its own training table. */
  function PredictImage(fs: seq<Triple>, model: Classifier, expl: TrainingTable, mid: TrainingTable, begin: TrainingTable): (v: Verdict)
    ensures v.feature.None? ==> v.outcome == Healthy || v.outcome == NoDisease
    ensures v.feature.Some? ==> v.feature.value in fs && v.outcome == Explored
  {
    LaterStagesUnreachableCascade(fs, model, expl, mid, begin);
    Cascade(fs, Classify(expl, model, fs), Classify(mid, model, fs), Classify(begin, model, fs))
  }

  /** Because classify never reads its training table, the three stages see
      identical predictions: a stage-1 miss is a miss in stages 2 and 3, so
      Mid-Explored and Begin can never be the outcome. */
  lemma {:induction false} LaterStagesUnreachable(fs: seq<Triple>, model: Classifier, expl: TrainingTable, mid: TrainingTable, begin: TrainingTable)
    ensures var v := PredictImage(fs, model, expl, mid, begin);
      v.outcome != MidExplored && v.outcome != Begin
  {
    LaterStagesUnreachableCascade(fs, model, expl, mid, begin);
  }

  lemma {:induction false} LaterStagesUnreachableCascade(fs: seq<Triple>, model: Classifier, expl: TrainingTable, mid: TrainingTable, begin: TrainingTable)
    ensures var v := Cascade(fs, Classify(expl, model, fs), Classify(mid, model, fs), Classify(begin, model, fs));
      v.outcome != MidExplored && v.outcome != Begin
  {
    var p1 := Classify(expl, model, fs);
    ClassifyIgnoresTable(expl, mid, model, fs);
    ClassifyIgnoresTable(expl, begin, model, fs);
    assert Classify(mid, model, fs) == p1 && Classify(begin, model, fs) == p1;
    CascadeStageOrder(fs, p1, p1, p1);
  }

  /** Row i is the first row of maximal saturation among the rows the model
      predicts positive. */
  ghost predicate FirstMaxPositive(fs: seq<Triple>, model: Classifier, i: nat) {
    && i < |fs|
    && model(fs[i]) == Positive
    && (forall j :: 0 <= j < |fs| && model(fs[j]) == Positive ==> fs[j].s <= fs[i].s)
    && (forall j :: 0 <= j < i && model(fs[j]) == Positive ==> fs[j].s < fs[i].s)
  }

  /** The first positive row of maximal saturation is, among the positive
      rows in order, the first of maximal saturation. */
  lemma {:induction false} FirstMaxAmongPositives(fs: seq<Triple>, pred: seq<int>, model: Classifier, i: nat)
    requires |pred| == |fs| && forall j :: 0 <= j < |fs| ==> pred[j] == model(fs[j])
    requires FirstMaxPositive(fs, model, i)
    ensures exists j0: nat :: j0 < |Positives(fs, pred)| && Positives(fs, pred)[j0] == fs[i] && FirstMax(Positives(fs, pred), j0)
  {
    var pos := Positives(fs, pred);
    var idx := PositiveIndices(pred);
    assert pred[i] == Positive;
    assert i in idx;
    var j0 :| 0 <= j0 < |idx| && idx[j0] == i;
    forall j | 0 <= j < |pos|
      ensures pos[j].s <= pos[j0].s
    {
      assert pred[idx[j]] == Positive;
    }
    forall j | 0 <= j < j0
      ensures pos[j].s < pos[j0].s
    {
      assert pred[idx[j]] == Positive;
    }
    assert FirstMax(pos, j0);
  }

  /** A row predicted positive is a kept row of stage 1. */
  lemma {:induction false} PositiveIsKept(fs: seq<Triple>, pred: seq<int>, j: nat)
    requires |pred| == |fs| && j < |fs| && pred[j] == Positive
    ensures exists m :: 0 <= m < |PositiveIndices(pred)| && PositiveIndices(pred)[m] == j
  {
    assert j in PositiveIndices(pred);
  }

  /** For rows kept at strictly increasing indices, no kept row has a higher
      saturation than the first kept maximum, and no earlier kept row one as
      high. */
  lemma {:induction false} KeptBelowFirstMax(fs: seq<Triple>, idx: seq<nat>, pos: seq<Triple>, k: nat, m: nat)
    requires |pos| == |idx| && forall t :: 0 <= t < |idx| ==> idx[t] < |fs| && pos[t] == fs[idx[t]]
    requires forall a, b :: 0 <= a < b < |idx| ==> idx[a] < idx[b]
    requires FirstMax(pos, k) && m < |idx|
    ensures fs[idx[m]].s <= fs[idx[k]].s
    ensures idx[m] < idx[k] ==> fs[idx[m]].s < fs[idx[k]].s
  {
    assert pos[m] == fs[idx[m]] && pos[k] == fs[idx[k]];
    assert idx[m] < idx[k] ==> m < k;
  }

  /** Whenever some row is predicted positive, there is a first positive row
      of maximal saturation. */
  lemma {:induction false} FirstMaxPositiveExists(fs: seq<Triple>, pred: seq<int>, model: Classifier)
    requires |pred| == |fs| && forall j :: 0 <= j < |fs| ==> pred[j] == model(fs[j])
    requires exists i :: 0 <= i < |fs| && pred[i] == Positive
    ensures exists i :: 0 <= i < |fs| && FirstMaxPositive(fs, model, i)
  {
    var i0 :| 0 <= i0 < |fs| && pred[i0] == Positive;
    PositiveIsKept(fs, pred, i0);
    var k := ArgMaxSaturation(Positives(fs, pred));
    var i := PositiveIndices(pred)[k];
    forall j | 0 <= j < |fs| && model(fs[j]) == Positive
      ensures fs[j].s <= fs[i].s && (j < i ==> fs[j].s < fs[i].s)
    {
      PositiveIsKept(fs, pred, j);
      var m :| 0 <= m < |PositiveIndices(pred)| && PositiveIndices(pred)[m] == j;
      KeptBelowFirstMax(fs, PositiveIndices(pred), Positives(fs, pred), k, m);
    }
    assert FirstMaxPositive(fs, model, i);
  }

  /** What prediction actually decides for one image with its one model: No
      Disease exactly when the model predicts no row positive; otherwise
      Explored with the first positive row of maximal saturation when that row
      is significant, and Healthy when it is not. */
  lemma {:induction false} OneModelVerdict(fs: seq<Triple>, model: Classifier, expl: TrainingTable, mid: TrainingTable, begin: TrainingTable)
    ensures PredictImage(fs, model, expl, mid, begin).outcome == NoDisease <==>
      forall i :: 0 <= i < |fs| ==> model(fs[i]) != Positive
    ensures (exists i :: 0 <= i < |fs| && model(fs[i]) == Positive) ==>
      exists i :: 0 <= i < |fs| && FirstMaxPositive(fs, model, i)
    ensures forall i: nat :: FirstMaxPositive(fs, model, i) ==>
      PredictImage(fs, model, expl, mid, begin) ==
        if Significant(fs[i]) then Verdict(Some(fs[i]), Explored) else Verdict(None, Healthy)
  {
    var p1 := Classify(expl, model, fs);
    ClassifyIgnoresTable(expl, mid, model, fs);
    ClassifyIgnoresTable(expl, begin, model, fs);
    var v := PredictImage(fs, model, expl, mid, begin);
    assert v == Cascade(fs, p1, p1, p1);
    if exists i :: 0 <= i < |fs| && model(fs[i]) == Positive {
      var i0 :| 0 <= i0 < |fs| && model(fs[i0]) == Positive;
      assert p1[i0] == Positive;
      FirstMaxPositiveExists(fs, p1, model);
    }
    CascadeStageOrder(fs, p1, p1, p1);
    CascadeDecidingRow(fs, p1, p1, p1);
    forall i: nat | FirstMaxPositive(fs, model, i)
      ensures v == if Significant(fs[i]) then Verdict(Some(fs[i]), Explored) else Verdict(None, Healthy)
    {
      FirstMaxAmongPositives(fs, p1, model, i);
      assert p1[i] == Positive;
    }
  }

  /** With predictions that differ between stages the cascade does reach
      Mid-Explored: its unreachability comes from classify alone. */
  lemma MidExploredNeedsDistinctPredictions()
    ensures Cascade([Triple(40, 100, 90)], [0], [Positive], [0]) == Verdict(Some(Triple(40, 100, 90)), MidExplored)
  {
  }

  /** prediction: one classified feature and one label per image, in order,
      each the verdict of that image's cascade. */
  function Prediction(tFeatures: seq<seq<Triple>>, model: Classifier, expl: TrainingTable, mid: TrainingTable, begin: TrainingTable)
    : (r: (seq<Option<Triple>>, seq<Label>))
    ensures |r.0| == |tFeatures| && |r.1| == |tFeatures|
    ensures forall k :: 0 <= k < |tFeatures| ==> r.0[k].None? ==> r.1[k] == Healthy || r.1[k] == NoDisease
    ensures forall k :: 0 <= k < |tFeatures| ==> r.0[k].Some? ==> r.0[k].value in tFeatures[k] && r.1[k] == Explored
    ensures forall k :: 0 <= k < |tFeatures| ==> r.1[k] != MidExplored && r.1[k] != Begin
    ensures forall k :: 0 <= k < |tFeatures| ==>
      Verdict(r.0[k], r.1[k]) == PredictImage(tFeatures[k], model, expl, mid, begin)
  {
    var vs := seq(|tFeatures|, k requires 0 <= k < |tFeatures| => PredictImage(tFeatures[k], model, expl, mid, begin));
    (seq(|vs|, k requires 0 <= k < |vs| => vs[k].feature), seq(|vs|, k requires 0 <= k < |vs| => vs[k].outcome))
  }
}
