/** The target half of SpellDataset.get_batch (dataset.py:38-52): mutate every
    ground-truth label when an edit callable is configured, then pad all of them
    to the width of the longest. */
module Batch {
  import opened Results
  import opened EditPlan
  import opened Mutation
  import opened Padding

  /** Which edit callables the dataset was built with (dataset.py:17-19). */
  datatype Config = Config(replace: bool, delete: bool, insert: bool)

  /** self.rnd (dataset.py:21). */
  predicate Mutates(cfg: Config) {
    cfg.replace || cfg.delete || cfg.insert
  }

  /** The random choices made for one row: the family draws and argsort's order. */
  datatype RowDraw = RowDraw(d: Draws, plan: seq<EditOp>)

  /** A family is drawn exactly when its callable is configured. */
  predicate Configured(cfg: Config, d: Draws) {
    && (d.replace.Some? <==> cfg.replace)
    && (d.delete.Some? <==> cfg.delete)
    && (d.insert.Some? <==> cfg.insert)
  }

  predicate ValidRow(cfg: Config, codes: seq<int>, tableSize: int, rd: RowDraw) {
    && Configured(cfg, rd.d)
    && ValidDraws(rd.d, |codes|, tableSize)
    && PlanFits(rd.plan, |codes|, tableSize, rd.d)
  }

  /** One draw per ground-truth label; gt_length is the label's own length (dataset.py:27). */
  predicate ValidRows(cfg: Config, gt: seq<seq<int>>, tableSize: int, rows: seq<RowDraw>) {
    && |rows| == |gt|
    && forall i :: 0 <= i < |gt| ==> ValidRow(cfg, gt[i], tableSize, rows[i])
  }

  /** The loop at dataset.py:41-44: the first row whose sampling raises ends it. */
  function MutateAll(cfg: Config, gt: seq<seq<int>>, tableSize: int, rows: seq<RowDraw>): (r: Result<seq<seq<int>>>)
    requires ValidRows(cfg, gt, tableSize, rows)
    ensures r.Ok? ==> |r.value| == |gt|
    ensures r.Ok? ==> forall i :: 0 <= i < |gt| ==>
              MutateLabel(gt[i], |gt[i]|, tableSize, rows[i].d, rows[i].plan) == Ok(r.value[i])
    ensures r.Err? <==> exists i :: 0 <= i < |gt| && MutateLabel(gt[i], |gt[i]|, tableSize, rows[i].d, rows[i].plan).Err?
    ensures r.Err? ==> r.error == SampleTooLarge
    decreases |gt|
  {
    if |gt| == 0 then Ok([])
    else
      var head :- MutateLabel(gt[0], |gt[0]|, tableSize, rows[0].d, rows[0].plan);
      assert ValidRows(cfg, gt[1..], tableSize, rows[1..]) by {
        forall i | 0 <= i < |gt| - 1
          ensures ValidRow(cfg, gt[1..][i], tableSize, rows[1..][i])
        {
          assert ValidRow(cfg, gt[i + 1], tableSize, rows[i + 1]);
        }
      }
      var tail :- MutateAll(cfg, gt[1..], tableSize, rows[1..]);
      Ok([head] + tail)
  }

  /** max(target_lengths); Python's max raises on an empty list. */
  function MaxOf(s: seq<int>): (m: int)
    requires |s| > 0
    ensures m in s
    ensures forall k :: 0 <= k < |s| ==> s[k] <= m
    decreases |s|
  {
    if |s| == 1 then s[0]
    else
      var rest := MaxOf(s[1..]);
      if s[0] >= rest then s[0] else rest
  }

  /** The loop at dataset.py:51-52. */
  function PadAll(labels: seq<seq<int>>, width: int): (r: Result<seq<seq<int>>>)
    ensures r.Ok? ==> |r.value| == |labels|
    ensures r.Ok? ==> forall i :: 0 <= i < |labels| ==> PadLabel(labels[i], width) == Ok(r.value[i])
    ensures (forall i :: 0 <= i < |labels| ==> |labels[i]| <= width) ==> r.Ok?
    decreases |labels|
  {
    if |labels| == 0 then Ok([])
    else
      var head :- PadLabel(labels[0], width);
      var tail :- PadAll(labels[1..], width);
      Ok([head] + tail)
  }

  datatype Targets = Targets(labels: seq<seq<int>>, lengths: seq<int>)

  /** The labels get_batch pads: the mutated ones, or a copy of the ground truth. */
  function Unpadded(cfg: Config, gt: seq<seq<int>>, tableSize: int, rows: seq<RowDraw>): Result<seq<seq<int>>>
    requires ValidRows(cfg, gt, tableSize, rows)
  {
    if Mutates(cfg) then MutateAll(cfg, gt, tableSize, rows) else Ok(gt)
  }

  /** target_labels and target_lengths of get_batch (dataset.py:38-52). */
  function GetTargets(cfg: Config, gt: seq<seq<int>>, tableSize: int, rows: seq<RowDraw>): (r: Result<Targets>)
    requires ValidRows(cfg, gt, tableSize, rows)
    ensures |gt| == 0 ==> r == Err(EmptyBatch)
    ensures r.Err? ==> r.error == EmptyBatch || r.error == SampleTooLarge
    ensures r.Ok? <==>
              && |gt| > 0
              && (Mutates(cfg) ==> forall i :: 0 <= i < |gt| ==>
                    MutateLabel(gt[i], |gt[i]|, tableSize, rows[i].d, rows[i].plan).Ok?)
    ensures r.Ok? ==>
              && |r.value.labels| == |r.value.lengths| == |gt| > 0
              && (forall i :: 0 <= i < |gt| ==> |r.value.labels[i]| == MaxOf(r.value.lengths))
              && (forall i :: 0 <= i < |gt| ==> 0 <= r.value.lengths[i] <= |r.value.labels[i]|)
  {
    var u := Unpadded(cfg, gt, tableSize, rows);
    if u.Err? then Err(u.error)
    else if |u.value| == 0 then Err(EmptyBatch)
    else
      var lengths := Lengths(u.value);
      var width := MaxOf(lengths);
      var padded := PadAll(u.value, width);
      assert padded.Ok?;
      Ok(Targets(padded.value, lengths))
  }

  /** target_lengths: len of each label (dataset.py:44, 47). */
  function Lengths(labels: seq<seq<int>>): (r: seq<int>)
    ensures |r| == |labels|
    ensures forall i :: 0 <= i < |labels| ==> r[i] == |labels[i]|
  {
    seq(|labels|, i requires 0 <= i < |labels| => |labels[i]|)
  }

  /** Each row holds its target label behind the margin, PAD elsewhere, and
      target_lengths records the unpadded lengths. */
  lemma TargetRows(cfg: Config, gt: seq<seq<int>>, tableSize: int, rows: seq<RowDraw>)
    requires ValidRows(cfg, gt, tableSize, rows)
    requires GetTargets(cfg, gt, tableSize, rows).Ok?
    ensures Unpadded(cfg, gt, tableSize, rows).Ok?
    ensures var t := GetTargets(cfg, gt, tableSize, rows).value;
            var u := Unpadded(cfg, gt, tableSize, rows).value;
            && |u| == |gt|
            && forall i :: 0 <= i < |gt| ==>
                 && t.lengths[i] == |u[i]|
                 && Padded(t.labels[i], u[i], Margin(|u[i]|, MaxOf(t.lengths)))
                 && Unpad(t.labels[i], |u[i]|) == u[i]
  {
    var t := GetTargets(cfg, gt, tableSize, rows).value;
    var u := Unpadded(cfg, gt, tableSize, rows).value;
    var width := MaxOf(t.lengths);
    forall i | 0 <= i < |gt|
      ensures t.lengths[i] == |u[i]|
      ensures Padded(t.labels[i], u[i], Margin(|u[i]|, width))
      ensures Unpad(t.labels[i], |u[i]|) == u[i]
    {
      assert t.lengths[i] == |u[i]|;
      PadRoundTrip(u[i], width);
    }
  }

  /** Without edit callables the targets are the ground truth: the lengths are
      the labels' own and each row unpads to its ground-truth label. */
  lemma UnmutatedTargets(cfg: Config, gt: seq<seq<int>>, tableSize: int, rows: seq<RowDraw>)
    requires ValidRows(cfg, gt, tableSize, rows)
    requires !Mutates(cfg) && |gt| > 0
    ensures GetTargets(cfg, gt, tableSize, rows).Ok?
    ensures var t := GetTargets(cfg, gt, tableSize, rows).value;
            forall i :: 0 <= i < |gt| ==> t.lengths[i] == |gt[i]| && Unpad(t.labels[i], |gt[i]|) == gt[i]
  {
    TargetRows(cfg, gt, tableSize, rows);
  }
}
