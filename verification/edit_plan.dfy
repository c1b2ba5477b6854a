/** The planning half of SpellDataset.mutate_label: the random draws of the
    replace, delete and insert families become (position, payload, consumes)
    triples, a sentinel is prepended, and the triples are ordered by position. */
module EditPlan {
  import opened Results
  import opened PyList

  /** Reserved label codes: the blank (joker) symbol and the padding symbol. */
  const JOKER: int := 0
  const PAD: int := 1

  /** One column of the edit table: the original position, the code emitted
      there (JOKER for none) and how many original symbols the edit consumes. */
  datatype EditOp = EditOp(pos: int, payload: int, consumes: int)

  /** The triple prepended to every non-empty plan. */
  const Sentinel: EditOp := EditOp(0, JOKER, 0)

  datatype Family = Replace | Delete | Insert

  /** What one family's random source produced for one label: the count its
      callable returned and what random.sample returned for the positions and,
      for replace and insert, the payload codes. */
  datatype FamilyDraw = FamilyDraw(count: int, positions: seq<int>, payloads: seq<int>)

  /** A family is None when its callable is not configured. */
  datatype Draws = Draws(replace: Option<FamilyDraw>, delete: Option<FamilyDraw>, insert: Option<FamilyDraw>)

  /** No two triples share a position. */
  predicate DistinctPos(ops: seq<EditOp>) {
    forall i, j :: 0 <= i < j < |ops| ==> ops[i].pos != ops[j].pos
  }

  /** s is a possible result of random.sample(range(lo, hi), n). */
  predicate IsSample(s: seq<int>, n: int, lo: int, hi: int) {
    |s| == n && Distinct(s) && forall k :: 0 <= k < |s| ==> lo <= s[k] < hi
  }

  function PopulationSize(lo: int, hi: int): nat {
    if lo < hi then hi - lo else 0
  }

  /** random.sample(range(lo, hi), n) raises ValueError unless this holds. */
  predicate SampleFits(n: int, lo: int, hi: int) {
    0 <= n <= PopulationSize(lo, hi)
  }

  predicate SamplesPayloads(f: Family) {
    f != Delete
  }

  /** The draws are ones random.sample can return: whenever a sample call
      succeeds, its result is a sample of the right size from the right range.
      Payloads come from range(2, tableSize), skipping JOKER and PAD. */
  predicate ValidFamily(f: Family, d: FamilyDraw, length: int, tableSize: int) {
    && (SampleFits(d.count, 0, length) ==> IsSample(d.positions, d.count, 0, length))
    && (SamplesPayloads(f) && SampleFits(d.count, 2, tableSize) ==> IsSample(d.payloads, d.count, 2, tableSize))
  }

  predicate ValidOption(f: Family, o: Option<FamilyDraw>, length: int, tableSize: int) {
    o.Some? ==> ValidFamily(f, o.value, length, tableSize)
  }

  predicate ValidDraws(d: Draws, length: int, tableSize: int) {
    && ValidOption(Replace, d.replace, length, tableSize)
    && ValidOption(Delete, d.delete, length, tableSize)
    && ValidOption(Insert, d.insert, length, tableSize)
  }

  /** A configured family whose sample call raises. */
  predicate Fails(f: Family, o: Option<FamilyDraw>, length: int, tableSize: int) {
    && o.Some?
    && (!SampleFits(o.value.count, 0, length) || (SamplesPayloads(f) && !SampleFits(o.value.count, 2, tableSize)))
  }

  /** The number of triples a family contributes (0 when not configured). */
  function Count(o: Option<FamilyDraw>): int {
    if o.Some? then o.value.count else 0
  }

  function Positions(o: Option<FamilyDraw>): seq<int> {
    if o.Some? then o.value.positions else []
  }

  function Payloads(o: Option<FamilyDraw>): seq<int> {
    if o.Some? then o.value.payloads else []
  }

  /** No configured family asks for an edit. */
  predicate Quiet(d: Draws) {
    && (d.replace.Some? ==> d.replace.value.count == 0)
    && (d.delete.Some? ==> d.delete.value.count == 0)
    && (d.insert.Some? ==> d.insert.value.count == 0)
  }

  function Columns(positions: seq<int>, payloads: seq<int>, consumes: int): (r: seq<EditOp>)
    requires |payloads| == |positions|
    ensures |r| == |positions|
    ensures forall k :: 0 <= k < |r| ==> r[k] == EditOp(positions[k], payloads[k], consumes)
  {
    seq(|positions|, k requires 0 <= k < |positions| => EditOp(positions[k], payloads[k], consumes))
  }

  /** One family's triples (dataset.py:65-83): positions sampled first, then
      payloads; a delete emits JOKER; replace and delete consume a symbol. */
  function FamilyEdits(f: Family, d: FamilyDraw, length: int, tableSize: int): (r: Result<seq<EditOp>>)
    requires ValidFamily(f, d, length, tableSize)
    ensures r.Err? <==> Fails(f, Some(d), length, tableSize)
    ensures r.Ok? ==> |r.value| == d.count
    ensures r.Ok? ==> forall k :: 0 <= k < |r.value| ==>
              && 0 <= r.value[k].pos < length
              && r.value[k].pos == d.positions[k]
              && r.value[k].consumes == (if f == Insert then 0 else 1)
              && r.value[k].payload == (if f == Delete then JOKER else d.payloads[k])
              && (f != Delete ==> 2 <= r.value[k].payload < tableSize)
    ensures r.Ok? ==> DistinctPos(r.value)
  {
    if !SampleFits(d.count, 0, length) then Err(SampleTooLarge)
    else if f == Delete then Ok(Columns(d.positions, Repeat(JOKER, d.count), 1))
    else if !SampleFits(d.count, 2, tableSize) then Err(SampleTooLarge)
    else Ok(Columns(d.positions, d.payloads, if f == Replace then 1 else 0))
  }

  function OptionEdits(f: Family, o: Option<FamilyDraw>, length: int, tableSize: int): (r: Result<seq<EditOp>>)
    requires ValidOption(f, o, length, tableSize)
    ensures r.Err? <==> Fails(f, o, length, tableSize)
    ensures r.Ok? ==> |r.value| == Count(o) && |Positions(o)| == Count(o)
    ensures r.Ok? && SamplesPayloads(f) ==> |Payloads(o)| == Count(o)
    ensures r.Ok? ==> forall k :: 0 <= k < |r.value| ==>
              && 0 <= r.value[k].pos < length
              && r.value[k].pos == Positions(o)[k]
              && r.value[k].consumes == (if f == Insert then 0 else 1)
              && r.value[k].payload == (if f == Delete then JOKER else Payloads(o)[k])
              && (f != Delete ==> 2 <= r.value[k].payload < tableSize)
    ensures r.Ok? ==> DistinctPos(r.value)
    ensures r == Ok([]) <==> (o.Some? ==> o.value.count == 0)
  {
    match o
    case None => Ok([])
    case Some(d) => FamilyEdits(f, d, length, tableSize)
  }

  /** The unsorted triples of mutate_label (dataset.py:61-83), families in the
      order replace, delete, insert. */
  function CollectEdits(length: int, tableSize: int, d: Draws): (r: Result<seq<EditOp>>)
    requires ValidDraws(d, length, tableSize)
    ensures r.Err? <==>
              Fails(Replace, d.replace, length, tableSize) ||
              Fails(Delete, d.delete, length, tableSize) ||
              Fails(Insert, d.insert, length, tableSize)
    ensures r.Ok? ==> |r.value| == Count(d.replace) + Count(d.delete) + Count(d.insert)
    ensures r.Ok? ==> forall k :: 0 <= k < |r.value| ==> InRange(r.value[k], length, tableSize)
    ensures r == Ok([]) <==> Quiet(d)
  {
    var rep := OptionEdits(Replace, d.replace, length, tableSize);
    var del := OptionEdits(Delete, d.delete, length, tableSize);
    var ins := OptionEdits(Insert, d.insert, length, tableSize);
    if rep.Err? || del.Err? || ins.Err? then Err(SampleTooLarge)
    else
      JoinInRange(rep.value, del.value, ins.value, length, tableSize);
      Ok(rep.value + del.value + ins.value)
  }

  /** A triple whose position lies in the label and whose payload is the joker
      or a valid code. */
  predicate InRange(o: EditOp, length: int, tableSize: int) {
    && 0 <= o.pos < length
    && (o.consumes == 0 || o.consumes == 1)
    && (o.payload == JOKER || 2 <= o.payload < tableSize)
  }

  lemma JoinInRange(a: seq<EditOp>, b: seq<EditOp>, c: seq<EditOp>, length: int, tableSize: int)
    requires forall k :: 0 <= k < |a| ==> InRange(a[k], length, tableSize)
    requires forall k :: 0 <= k < |b| ==> InRange(b[k], length, tableSize)
    requires forall k :: 0 <= k < |c| ==> InRange(c[k], length, tableSize)
    ensures forall k :: 0 <= k < |a + b + c| ==> InRange((a + b + c)[k], length, tableSize)
  {
    forall k | 0 <= k < |a + b + c|
      ensures InRange((a + b + c)[k], length, tableSize)
    {
      if k < |a| {
        assert (a + b + c)[k] == a[k];
      } else if k < |a| + |b| {
        assert (a + b + c)[k] == b[k - |a|];
      } else {
        assert (a + b + c)[k] == c[k - |a| - |b|];
      }
    }
  }

  /** The collected triples are the three families' blocks, in order. */
  lemma CollectEditsSplit(length: int, tableSize: int, d: Draws)
    requires ValidDraws(d, length, tableSize)
    requires CollectEdits(length, tableSize, d).Ok?
    ensures OptionEdits(Replace, d.replace, length, tableSize).Ok?
    ensures OptionEdits(Delete, d.delete, length, tableSize).Ok?
    ensures OptionEdits(Insert, d.insert, length, tableSize).Ok?
    ensures CollectEdits(length, tableSize, d).value ==
              OptionEdits(Replace, d.replace, length, tableSize).value +
              OptionEdits(Delete, d.delete, length, tableSize).value +
              OptionEdits(Insert, d.insert, length, tableSize).value
  {
  }

  predicate SortedByPos(s: seq<EditOp>) {
    forall i, j :: 0 <= i < j < |s| ==> s[i].pos <= s[j].pos
  }

  /** What `edits[:, edits[0, :].argsort()]` may produce: the columns reordered
      so that positions ascend. numpy's default sort is not documented as stable,
      so the order among equal positions is left open. */
  predicate IsPositionSort(plan: seq<EditOp>, raw: seq<EditOp>) {
    multiset(plan) == multiset(raw) && SortedByPos(plan)
  }

  /** `plan` is an ordering argsort may give the triples collected from `d`. */
  predicate PlanFits(plan: seq<EditOp>, length: int, tableSize: int, d: Draws)
    requires ValidDraws(d, length, tableSize)
  {
    var c := CollectEdits(length, tableSize, d);
    c.Ok? && |c.value| > 0 ==> IsPositionSort(plan, [Sentinel] + c.value)
  }

  /** to_indexes (dataset.py:93): each triple's stop is the next triple's
      position, and the last stop is the label length. */
  function ToIndexes(plan: seq<EditOp>, n: int): (to: seq<int>)
    ensures |to| == |plan|
    ensures forall k :: 0 <= k < |plan| - 1 ==> to[k] == plan[k + 1].pos
    ensures |plan| > 0 ==> to[|plan| - 1] == n
  {
    seq(|plan|, k requires 0 <= k < |plan| => if k + 1 < |plan| then plan[k + 1].pos else n)
  }

  /** Every triple of a sorted plan is one of the triples it sorts. */
  lemma SortedMembers(plan: seq<EditOp>, e: seq<EditOp>, length: int)
    requires IsPositionSort(plan, [Sentinel] + e)
    requires |e| > 0
    requires forall k :: 0 <= k < |e| ==> 0 <= e[k].pos < length && 0 <= e[k].consumes <= 1
    ensures |plan| == 1 + |e|
    ensures Sentinel in plan
    ensures plan[0].pos == 0
    ensures forall k :: 0 <= k < |plan| ==> 0 <= plan[k].pos < length && 0 <= plan[k].consumes <= 1
  {
    var raw := [Sentinel] + e;
    assert |multiset(plan)| == |multiset(raw)|;
    assert Sentinel in multiset(raw);
    assert 0 <= e[0].pos < length;
    forall k | 0 <= k < |plan|
      ensures 0 <= plan[k].pos < length && 0 <= plan[k].consumes <= 1
    {
      assert plan[k] in multiset(raw);
      var i :| 0 <= i < |raw| && raw[i] == plan[k];
      if i > 0 {
        assert raw[i] == e[i - 1];
      }
    }
    var s :| 0 <= s < |plan| && plan[s] == Sentinel;
    assert plan[0].pos <= plan[s].pos;
  }

  /** The shape of the sorted plan (dataset.py:85-93). */
  lemma PlanShape(length: int, tableSize: int, d: Draws, plan: seq<EditOp>, n: int)
    requires ValidDraws(d, length, tableSize)
    requires CollectEdits(length, tableSize, d).Ok?
    requires |CollectEdits(length, tableSize, d).value| > 0
    requires PlanFits(plan, length, tableSize, d)
    ensures |plan| == 1 + Count(d.replace) + Count(d.delete) + Count(d.insert)
    ensures Sentinel in plan
    ensures plan[0].pos == 0
    ensures forall k :: 0 <= k < |plan| ==> 0 <= plan[k].pos < length && 0 <= plan[k].consumes <= 1
    ensures SortedByPos(plan)
    ensures length <= n ==> forall k :: 0 <= k < |plan| ==> plan[k].pos <= ToIndexes(plan, n)[k]
  {
    var e := CollectEdits(length, tableSize, d).value;
    SortedMembers(plan, e, length);
  }
}
