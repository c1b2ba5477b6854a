/** SpellDataset.mutate_label end to end: collect the triples, sort them,
    walk them once. Two tiers of guarantees: bounds that hold for every order
    argsort may choose, and the exact position-by-position result once the
    sentinel leads and no two triples share a position. */
module Mutation {
  import opened Results
  import opened PyList
  import opened EditPlan
  import opened EditCounts
  import opened EditApply

  /** mutate_label (dataset.py:61-97). `plan` is the argsort result, any
      position-sorted ordering of the sentinel and the collected triples. */
  function MutateLabel(codes: seq<int>, length: int, tableSize: int, d: Draws, plan: seq<EditOp>): (r: Result<seq<int>>)
    requires ValidDraws(d, length, tableSize)
    requires PlanFits(plan, length, tableSize, d)
    ensures r.Err? <==>
              Fails(Replace, d.replace, length, tableSize) ||
              Fails(Delete, d.delete, length, tableSize) ||
              Fails(Insert, d.insert, length, tableSize)
    ensures r.Err? ==> r.error == SampleTooLarge
    ensures Quiet(d) ==> r == Ok(codes)
  {
    var e :- CollectEdits(length, tableSize, d);
    if |e| == 0 then Ok(codes)
    else Ok(ApplyEdits(codes, plan, ToIndexes(plan, |codes|)))
  }

  /** Whatever order argsort picks among equal positions, the mutated label
      gains at most one code per replace and insert and loses at most one per
      delete. */
  lemma MutateBounds(codes: seq<int>, length: int, tableSize: int, d: Draws, plan: seq<EditOp>)
    requires ValidDraws(d, length, tableSize)
    requires PlanFits(plan, length, tableSize, d)
    requires MutateLabel(codes, length, tableSize, d, plan).Ok?
    ensures var n := |MutateLabel(codes, length, tableSize, d, plan).value|;
            |codes| + Count(d.insert) - Count(d.delete) <= n <= |codes| + Count(d.replace) + Count(d.insert)
  {
    var e := CollectEdits(length, tableSize, d).value;
    if |e| > 0 {
      PlanShape(length, tableSize, d, plan, |codes|);
      PlanCounts(length, tableSize, d, plan);
      WalkIsApply(codes, plan, |codes|);
      ApplyLength(codes, plan);
    }
  }

  /** Every triple of the plan emits JOKER or a code of range(2, tableSize). */
  lemma PlanPayloads(length: int, tableSize: int, d: Draws, plan: seq<EditOp>)
    requires ValidDraws(d, length, tableSize)
    requires CollectEdits(length, tableSize, d).Ok?
    requires |CollectEdits(length, tableSize, d).value| > 0
    requires PlanFits(plan, length, tableSize, d)
    ensures forall x :: x in Emitted(plan) ==> 2 <= x < tableSize
  {
    SortedPayloads(plan, CollectEdits(length, tableSize, d).value, tableSize);
  }

  /** Sorting brings in no payload the collected triples did not have. */
  lemma SortedPayloads(plan: seq<EditOp>, e: seq<EditOp>, tableSize: int)
    requires IsPositionSort(plan, [Sentinel] + e)
    requires forall k :: 0 <= k < |e| ==> e[k].payload == JOKER || 2 <= e[k].payload < tableSize
    ensures forall x :: x in Emitted(plan) ==> 2 <= x < tableSize
  {
    var raw := [Sentinel] + e;
    forall x | x in Emitted(plan)
      ensures 2 <= x < tableSize
    {
      var k :| 0 <= k < |plan| && plan[k].payload != JOKER && x == plan[k].payload;
      assert plan[k] in multiset(raw);
      var i :| 0 <= i < |raw| && raw[i] == plan[k];
      assert i > 0;
      assert raw[i] == e[i - 1];
    }
  }

  /** Every code a sorted plan emits is emitted by one of the triples it sorts. */
  lemma SortedEmitted(plan: seq<EditOp>, e: seq<EditOp>)
    requires IsPositionSort(plan, [Sentinel] + e)
    ensures Emitted(plan) <= Emitted(e)
  {
    var raw := [Sentinel] + e;
    forall x | x in Emitted(plan)
      ensures x in Emitted(e)
    {
      var k :| 0 <= k < |plan| && plan[k].payload != JOKER && x == plan[k].payload;
      assert plan[k] in multiset(raw);
      var i :| 0 <= i < |raw| && raw[i] == plan[k];
      assert i > 0;
      assert raw[i] == e[i - 1];
    }
  }

  /** Three blocks of triples, the middle one emitting nothing, emit only codes
      from the first block's list or the last block's list. */
  lemma JoinEmitted(rep: seq<EditOp>, del: seq<EditOp>, ins: seq<EditOp>, ps: seq<int>, qs: seq<int>)
    requires forall k :: 0 <= k < |rep| ==> rep[k].payload == JOKER || rep[k].payload in ps
    requires forall k :: 0 <= k < |del| ==> del[k].payload == JOKER
    requires forall k :: 0 <= k < |ins| ==> ins[k].payload == JOKER || ins[k].payload in qs
    ensures forall x :: x in Emitted(rep + del + ins) ==> x in ps || x in qs
  {
    var e := rep + del + ins;
    forall x | x in Emitted(e)
      ensures x in ps || x in qs
    {
      var k :| 0 <= k < |e| && e[k].payload != JOKER && x == e[k].payload;
      if k < |rep| {
        assert e[k] == rep[k];
      } else {
        assert k >= |rep| + |del|;
        assert e[k] == ins[k - |rep| - |del|];
      }
    }
  }

  /** A family's triples emit only its drawn payloads; delete triples emit nothing. */
  lemma FamilyEmitted(f: Family, o: Option<FamilyDraw>, length: int, tableSize: int)
    requires ValidOption(f, o, length, tableSize)
    requires OptionEdits(f, o, length, tableSize).Ok?
    ensures var r := OptionEdits(f, o, length, tableSize).value;
            forall k :: 0 <= k < |r| ==> r[k].payload == JOKER || (f != Delete && r[k].payload in Payloads(o))
  {
    var r := OptionEdits(f, o, length, tableSize).value;
    forall k | 0 <= k < |r|
      ensures r[k].payload == JOKER || (f != Delete && r[k].payload in Payloads(o))
    {
      if f != Delete {
        assert r[k].payload == Payloads(o)[k];
      }
    }
  }

  /** The collected triples emit only the drawn replace and insert payloads:
      delete triples carry JOKER (dataset.py:65-83). */
  lemma CollectedEmitted(length: int, tableSize: int, d: Draws)
    requires ValidDraws(d, length, tableSize)
    requires CollectEdits(length, tableSize, d).Ok?
    ensures forall x :: x in Emitted(CollectEdits(length, tableSize, d).value) ==>
              x in Payloads(d.replace) || x in Payloads(d.insert)
  {
    CollectEditsSplit(length, tableSize, d);
    FamilyEmitted(Replace, d.replace, length, tableSize);
    FamilyEmitted(Delete, d.delete, length, tableSize);
    FamilyEmitted(Insert, d.insert, length, tableSize);
    JoinEmitted(OptionEdits(Replace, d.replace, length, tableSize).value,
                OptionEdits(Delete, d.delete, length, tableSize).value,
                OptionEdits(Insert, d.insert, length, tableSize).value,
                Payloads(d.replace), Payloads(d.insert));
  }

  /** The mutated label holds only codes of the original label and the payload
      codes random.sample drew for replace and insert; it never holds JOKER
      unless the label did. */
  lemma MutationCodes(codes: seq<int>, length: int, tableSize: int, d: Draws, plan: seq<EditOp>)
    requires ValidDraws(d, length, tableSize)
    requires PlanFits(plan, length, tableSize, d)
    requires MutateLabel(codes, length, tableSize, d, plan).Ok?
    ensures var r := MutateLabel(codes, length, tableSize, d, plan).value;
            && (forall x :: x in r ==> x in codes || x in Payloads(d.replace) || x in Payloads(d.insert))
            && (forall x :: x in r ==> x in codes || 2 <= x < tableSize)
            && (JOKER !in codes ==> JOKER !in r)
  {
    var e := CollectEdits(length, tableSize, d).value;
    if |e| > 0 {
      PlanPayloads(length, tableSize, d, plan);
      SortedEmitted(plan, e);
      CollectedEmitted(length, tableSize, d);
    }
  }

  // ---------------------------------------------------------------------
  // Exact tier

  /** No two collected triples share a position (replace, delete and insert
      positions are sampled independently, so this can fail across families). */
  predicate Separate(length: int, tableSize: int, d: Draws)
    requires ValidDraws(d, length, tableSize)
  {
    var c := CollectEdits(length, tableSize, d);
    c.Ok? ==> DistinctPos(c.value)
  }

  /** argsort kept the sentinel in front of the triples. */
  predicate SentinelFirst(plan: seq<EditOp>, length: int, tableSize: int, d: Draws)
    requires ValidDraws(d, length, tableSize)
  {
    var c := CollectEdits(length, tableSize, d);
    c.Ok? && |c.value| > 0 ==> |plan| > 0 && plan[0] == Sentinel
  }

  lemma {:induction false} AtMostOnce(s: seq<EditOp>, x: EditOp)
    requires DistinctPos(s)
    ensures multiset(s)[x] <= 1
    decreases |s|
  {
    if |s| > 0 {
      assert s == [s[0]] + s[1..];
      assert DistinctPos(s[1..]);
      AtMostOnce(s[1..], x);
      if x == s[0] {
        assert x !in s[1..];
      }
    }
  }

  lemma Twice(s: seq<EditOp>, i: int, j: int)
    requires 0 <= i < j < |s| && s[i] == s[j]
    ensures multiset(s)[s[i]] >= 2
  {
    assert s == s[..j] + s[j..];
    assert s[i] in s[..j];
    assert s[j..][0] == s[j];
  }

  /** Reordering keeps positions pairwise distinct. */
  lemma DistinctTransfer(a: seq<EditOp>, b: seq<EditOp>)
    requires multiset(a) == multiset(b) && DistinctPos(b)
    ensures DistinctPos(a)
  {
    forall i, j | 0 <= i < j < |a|
      ensures a[i].pos != a[j].pos
    {
      if a[i] == a[j] {
        Twice(a, i, j);
        AtMostOnce(b, a[i]);
      } else {
        assert a[i] in multiset(b) && a[j] in multiset(b);
        var i' :| 0 <= i' < |b| && b[i'] == a[i];
        var j' :| 0 <= j' < |b| && b[j'] == a[j];
        assert i' != j';
      }
    }
  }

  /** In a table without shared positions, a triple is the edit at its position. */
  lemma {:induction false} EditAtMember(s: seq<EditOp>, op: EditOp)
    requires DistinctPos(s) && op in s
    ensures EditAt(s, op.pos) == Some(op)
    decreases |s|
  {
    if s[0] != op {
      var k :| 0 <= k < |s| && s[k] == op;
      assert s[1..][k - 1] == op;
      assert DistinctPos(s[1..]);
      EditAtMember(s[1..], op);
    }
  }

  /** Two orderings of the same triples without shared positions agree on the
      edit at every position. */
  lemma SameEdits(a: seq<EditOp>, b: seq<EditOp>, j: int)
    requires multiset(a) == multiset(b) && DistinctPos(a) && DistinctPos(b)
    ensures EditAt(a, j) == EditAt(b, j)
  {
    var x, y := EditAt(a, j), EditAt(b, j);
    EditAtNone(a, j);
    EditAtNone(b, j);
    if x.Some? {
      assert x.value in multiset(b);
      EditAtMember(b, x.value);
    } else {
      assert forall k :: 0 <= k < |b| ==> b[k] in multiset(a);
    }
  }

  /** With the sentinel in front and no shared positions, the sorted triples
      after it are strictly increasing and are exactly the collected ones. */
  lemma ExactFromSort(plan: seq<EditOp>, e: seq<EditOp>, n: int)
    requires IsPositionSort(plan, [Sentinel] + e)
    requires |plan| > 0 && plan[0] == Sentinel
    requires DistinctPos(e)
    requires forall k :: 0 <= k < |e| ==> 0 <= e[k].pos < n && 0 <= e[k].consumes <= 1
    ensures multiset(plan[1..]) == multiset(e)
    ensures ExactPlan(plan, n)
  {
    assert plan == [Sentinel] + plan[1..];
    assert multiset(plan) == multiset([Sentinel]) + multiset(plan[1..]);
    assert multiset([Sentinel] + e) == multiset([Sentinel]) + multiset(e);
    assert multiset(plan[1..]) == multiset(plan) - multiset([Sentinel]);
    assert multiset(e) == multiset([Sentinel] + e) - multiset([Sentinel]);
    var rest := plan[1..];
    DistinctTransfer(rest, e);
    forall k | 0 <= k < |rest|
      ensures 0 <= rest[k].pos < n && 0 <= rest[k].consumes <= 1
    {
      assert rest[k] in multiset(e);
    }
    forall i, j | 0 <= i < j < |rest|
      ensures rest[i].pos < rest[j].pos
    {
      assert rest[i] == plan[i + 1] && rest[j] == plan[j + 1];
    }
  }

  /** If no triple sits at position 0, argsort has no tie to break with the
      sentinel, so the sentinel comes first. */
  lemma SentinelLeads(plan: seq<EditOp>, e: seq<EditOp>)
    requires IsPositionSort(plan, [Sentinel] + e)
    requires forall k :: 0 <= k < |e| ==> 0 < e[k].pos
    ensures |plan| > 0 && plan[0] == Sentinel
  {
    var raw := [Sentinel] + e;
    assert Sentinel in multiset(raw);
    var s :| 0 <= s < |plan| && plan[s] == Sentinel;
    assert plan[0].pos <= plan[s].pos;
    assert plan[0] in multiset(raw);
    var i :| 0 <= i < |raw| && raw[i] == plan[0];
    assert i == 0;
  }

  lemma {:induction false} ReferenceUntouched(codes: seq<int>, j: nat)
    requires j <= |codes|
    ensures ReferenceFrom(codes, [], j) == codes[j..]
    decreases |codes| - j
  {
    if j < |codes| {
      ReferenceUntouched(codes, j + 1);
      assert codes[j..] == [codes[j]] + codes[j + 1..];
    }
  }

  /** The exact tier: with the label's own length, no shared positions and the
      sentinel in front, mutate_label is the position-by-position reference
      applied to the collected triples, in whatever order they were collected. */
  lemma MutateExact(codes: seq<int>, tableSize: int, d: Draws, plan: seq<EditOp>)
    requires ValidDraws(d, |codes|, tableSize)
    requires PlanFits(plan, |codes|, tableSize, d)
    requires Separate(|codes|, tableSize, d)
    requires SentinelFirst(plan, |codes|, tableSize, d)
    ensures var c := CollectEdits(|codes|, tableSize, d);
            c.Ok? ==> MutateLabel(codes, |codes|, tableSize, d, plan) == Ok(Reference(codes, c.value))
    ensures var r := MutateLabel(codes, |codes|, tableSize, d, plan);
            r.Ok? ==> |r.value| == |codes| + Count(d.insert) - Count(d.delete)
  {
    var c := CollectEdits(|codes|, tableSize, d);
    if c.Ok? {
      if |c.value| == 0 {
        ReferenceUntouched(codes, 0);
      } else {
        WalkIsApply(codes, plan, |codes|);
        ExactWalk(codes, plan, c.value);
        PlanCounts(|codes|, tableSize, d, plan);
      }
    }
  }

  /** The walk over a sorted plan that starts with the sentinel and has no
      shared positions is the reference of the unsorted triples. */
  lemma ExactWalk(codes: seq<int>, plan: seq<EditOp>, e: seq<EditOp>)
    requires IsPositionSort(plan, [Sentinel] + e)
    requires |plan| > 0 && plan[0] == Sentinel
    requires DistinctPos(e)
    requires forall k :: 0 <= k < |e| ==> 0 <= e[k].pos < |codes| && 0 <= e[k].consumes <= 1
    ensures Walk(codes, plan, |codes|) == Reference(codes, e)
    ensures |Walk(codes, plan, |codes|)| == |codes| + Emitting(plan) - Consumed(plan)
  {
    ExactFromSort(plan, e, |codes|);
    ApplyMatchesReference(codes, plan);
    forall j: nat | j < |codes|
      ensures EditAt(plan[1..], j) == EditAt(e, j)
    {
      SameEdits(plan[1..], e, j);
    }
    Agree(codes, plan[1..], e, 0);
    ExactPlanLength(codes, plan);
  }

  /** When no collected triple sits at position 0 there is no tie with the
      sentinel, so every order argsort may pick puts the sentinel first. */
  lemma NoTieAtZero(plan: seq<EditOp>, length: int, tableSize: int, d: Draws)
    requires ValidDraws(d, length, tableSize)
    requires PlanFits(plan, length, tableSize, d)
    requires var c := CollectEdits(length, tableSize, d);
             c.Ok? ==> forall k :: 0 <= k < |c.value| ==> c.value[k].pos != 0
    ensures SentinelFirst(plan, length, tableSize, d)
  {
    var c := CollectEdits(length, tableSize, d);
    if c.Ok? && |c.value| > 0 {
      SentinelLeads(plan, c.value);
    }
  }

  /** The reference when every triple replaces its symbol: one code per
      position, the payload where there is a triple and the symbol elsewhere. */
  lemma {:induction false} ReferenceReplaces(codes: seq<int>, ops: seq<EditOp>, j: nat)
    requires j <= |codes|
    requires forall k :: 0 <= k < |ops| ==> ops[k].consumes == 1 && ops[k].payload != JOKER
    ensures |ReferenceFrom(codes, ops, j)| == |codes| - j
    ensures forall i :: j <= i < |codes| ==>
              ReferenceFrom(codes, ops, j)[i - j] == (if EditAt(ops, i).Some? then EditAt(ops, i).value.payload else codes[i])
    decreases |codes| - j
  {
    if j < |codes| {
      ReferenceReplaces(codes, ops, j + 1);
      var e := EditAt(ops, j);
      var cell := Cell(codes, j, e);
      assert cell == [if e.Some? then e.value.payload else codes[j]];
      var r := ReferenceFrom(codes, ops, j);
      assert r == cell + ReferenceFrom(codes, ops, j + 1);
      forall i | j < i < |codes|
        ensures r[i - j] == (if EditAt(ops, i).Some? then EditAt(ops, i).value.payload else codes[i])
      {
        assert r[i - j] == ReferenceFrom(codes, ops, j + 1)[i - (j + 1)];
      }
    }
  }

  /** The label without the symbols at the given positions. */
  function WithoutFrom(codes: seq<int>, gone: set<int>, j: nat): (r: seq<int>)
    ensures forall x :: x in r ==> x in codes
    ensures j <= |codes| ==> |r| <= |codes| - j
    decreases |codes| - j
  {
    if j >= |codes| then []
    else (if j in gone then [] else [codes[j]]) + WithoutFrom(codes, gone, j + 1)
  }

  function Without(codes: seq<int>, gone: set<int>): seq<int> {
    WithoutFrom(codes, gone, 0)
  }

  /** The reference when every triple deletes its symbol. */
  lemma {:induction false} ReferenceDeletes(codes: seq<int>, ops: seq<EditOp>, j: nat)
    requires forall k :: 0 <= k < |ops| ==> ops[k].consumes == 1 && ops[k].payload == JOKER
    ensures ReferenceFrom(codes, ops, j) == WithoutFrom(codes, set k | 0 <= k < |ops| :: ops[k].pos, j)
    decreases |codes| - j
  {
    if j < |codes| {
      ReferenceDeletes(codes, ops, j + 1);
      var gone := set k | 0 <= k < |ops| :: ops[k].pos;
      if j in gone {
        var k :| 0 <= k < |ops| && ops[k].pos == j;
        EditAtNone(ops, j);
      }
    }
  }

  /** The collected table when only one family asks for edits. */
  lemma OnlyFamily(f: Family, length: int, tableSize: int, d: Draws)
    requires ValidDraws(d, length, tableSize)
    requires CollectEdits(length, tableSize, d).Ok?
    requires f != Replace ==> Count(d.replace) == 0
    requires f != Delete ==> Count(d.delete) == 0
    requires f != Insert ==> Count(d.insert) == 0
    ensures var o := match f case Replace => d.replace case Delete => d.delete case Insert => d.insert;
            CollectEdits(length, tableSize, d) == OptionEdits(f, o, length, tableSize)
    ensures Separate(length, tableSize, d)
  {
    CollectEditsSplit(length, tableSize, d);
    var rep := OptionEdits(Replace, d.replace, length, tableSize).value;
    var del := OptionEdits(Delete, d.delete, length, tableSize).value;
    var ins := OptionEdits(Insert, d.insert, length, tableSize).value;
    match f
    case Replace => assert rep + del + ins == rep;
    case Delete => assert rep + del + ins == del;
    case Insert => assert rep + del + ins == ins;
  }

  /** `r` is `codes` with the symbol at each position ps[k] overwritten by vs[k]. */
  predicate Replaced(codes: seq<int>, r: seq<int>, ps: seq<int>, vs: seq<int>) {
    && |r| == |codes|
    && |ps| == |vs|
    && (forall k :: 0 <= k < |ps| ==> 0 <= ps[k] < |r| && r[ps[k]] == vs[k])
    && (forall i :: 0 <= i < |codes| && i !in ps ==> r[i] == codes[i])
  }

  /** Replace-only: the label keeps its length, each sampled position holds its
      sampled payload, and every other symbol is unchanged. */
  lemma ReplaceOnly(codes: seq<int>, tableSize: int, d: Draws, plan: seq<EditOp>)
    requires ValidDraws(d, |codes|, tableSize)
    requires PlanFits(plan, |codes|, tableSize, d)
    requires SentinelFirst(plan, |codes|, tableSize, d)
    requires Count(d.delete) == 0 && Count(d.insert) == 0
    requires MutateLabel(codes, |codes|, tableSize, d, plan).Ok?
    ensures |Positions(d.replace)| == Count(d.replace)
    ensures Replaced(codes, MutateLabel(codes, |codes|, tableSize, d, plan).value, Positions(d.replace), Payloads(d.replace))
  {
    var L := |codes|;
    OnlyFamily(Replace, L, tableSize, d);
    MutateExact(codes, tableSize, d, plan);
    var e := CollectEdits(L, tableSize, d).value;
    ReferenceOfReplaces(codes, e, Positions(d.replace), Payloads(d.replace));
  }

  /** The reference of a table of replacements with distinct positions. */
  lemma ReferenceOfReplaces(codes: seq<int>, e: seq<EditOp>, ps: seq<int>, vs: seq<int>)
    requires |e| == |ps| == |vs|
    requires forall k :: 0 <= k < |e| ==>
               && e[k].consumes == 1 && e[k].payload != JOKER
               && e[k].pos == ps[k] && e[k].payload == vs[k] && 0 <= ps[k] < |codes|
    requires forall i, j :: 0 <= i < j < |e| ==> e[i].pos != e[j].pos
    ensures Replaced(codes, Reference(codes, e), ps, vs)
  {
    ReferenceReplaces(codes, e, 0);
    var r := Reference(codes, e);
    forall k | 0 <= k < |ps|
      ensures r[ps[k]] == vs[k]
    {
      EditAtMember(e, e[k]);
    }
    forall i | 0 <= i < |codes| && i !in ps
      ensures r[i] == codes[i]
    {
      EditAtNone(e, i);
    }
  }

  /** Delete-only: the label with the sampled positions removed. */
  lemma DeleteOnly(codes: seq<int>, tableSize: int, d: Draws, plan: seq<EditOp>)
    requires ValidDraws(d, |codes|, tableSize)
    requires PlanFits(plan, |codes|, tableSize, d)
    requires SentinelFirst(plan, |codes|, tableSize, d)
    requires Count(d.replace) == 0 && Count(d.insert) == 0
    requires MutateLabel(codes, |codes|, tableSize, d, plan).Ok?
    ensures var r := MutateLabel(codes, |codes|, tableSize, d, plan).value;
            && r == Without(codes, set k | 0 <= k < |Positions(d.delete)| :: Positions(d.delete)[k])
            && |r| == |codes| - Count(d.delete)
  {
    DeleteTable(|codes|, tableSize, d);
    MutateExact(codes, tableSize, d, plan);
    ReferenceWithout(codes, CollectEdits(|codes|, tableSize, d).value, Positions(d.delete));
  }

  /** With only deletes drawn, the collected table deletes at the drawn positions. */
  lemma DeleteTable(length: int, tableSize: int, d: Draws)
    requires ValidDraws(d, length, tableSize)
    requires CollectEdits(length, tableSize, d).Ok?
    requires Count(d.replace) == 0 && Count(d.insert) == 0
    ensures Separate(length, tableSize, d)
    ensures var e := CollectEdits(length, tableSize, d).value;
            && |e| == |Positions(d.delete)|
            && forall k :: 0 <= k < |e| ==>
                 e[k].consumes == 1 && e[k].payload == JOKER && e[k].pos == Positions(d.delete)[k]
  {
    OnlyFamily(Delete, length, tableSize, d);
  }

  /** The reference of a table of deletes at the given positions. */
  lemma ReferenceWithout(codes: seq<int>, e: seq<EditOp>, ps: seq<int>)
    requires |e| == |ps|
    requires forall k :: 0 <= k < |e| ==> e[k].consumes == 1 && e[k].payload == JOKER && e[k].pos == ps[k]
    ensures Reference(codes, e) == Without(codes, set k | 0 <= k < |ps| :: ps[k])
  {
    ReferenceDeletes(codes, e, 0);
    var gone := set k | 0 <= k < |e| :: e[k].pos;
    assert gone == set k | 0 <= k < |ps| :: ps[k];
  }

  /** The table collected from a single delete drawn at position p. */
  lemma OneDelete(p: int, length: int, tableSize: int)
    requires 0 <= p < length
    ensures ValidDraws(Draws(None, Some(FamilyDraw(1, [p], [])), None), length, tableSize)
    ensures CollectEdits(length, tableSize, Draws(None, Some(FamilyDraw(1, [p], [])), None)) == Ok([EditOp(p, JOKER, 1)])
  {
    var d := Draws(None, Some(FamilyDraw(1, [p], [])), None);
    var op := EditOp(p, JOKER, 1);
    assert Repeat(JOKER, 1) == [JOKER];
    assert Columns([p], [JOKER], 1) == [op];
    assert OptionEdits(Delete, d.delete, length, tableSize) == Ok([op]);
    CollectEditsSplit(length, tableSize, d);
    assert [] + [op] + [] == [op];
  }

  /** The walk over a two-column plan. */
  lemma WalkTwo(codes: seq<int>, plan: seq<EditOp>)
    requires |plan| == 2
    ensures Walk(codes, plan, |codes|) == Step(codes, plan[0], plan[1].pos) + Step(codes, plan[1], |codes|)
  {
    var L, rest := |codes|, plan[1..];
    assert rest[0] == plan[1];
    var last := Step(codes, plan[1], L);
    assert Walk(codes, rest, L) == last + [];
    assert last + [] == last;
  }

  lemma Walked(codes: seq<int>, length: int, tableSize: int, d: Draws, plan: seq<EditOp>)
    requires ValidDraws(d, length, tableSize)
    requires PlanFits(plan, length, tableSize, d)
    requires CollectEdits(length, tableSize, d).Ok? && |CollectEdits(length, tableSize, d).value| > 0
    ensures MutateLabel(codes, length, tableSize, d, plan) == Ok(Walk(codes, plan, |codes|))
  {
    WalkIsApply(codes, plan, |codes|);
  }

  /** Both orders of the sentinel and a single delete fit the draws. */
  lemma DeletePlans(p: int, d: Draws, plan: seq<EditOp>)
    requires 0 <= p < 3
    requires d == Draws(None, Some(FamilyDraw(1, [p], [])), None)
    requires plan == [Sentinel, EditOp(p, JOKER, 1)] || (p == 0 && plan == [EditOp(p, JOKER, 1), Sentinel])
    requires ValidDraws(d, 3, 10)
    requires CollectEdits(3, 10, d) == Ok([EditOp(p, JOKER, 1)])
    ensures PlanFits(plan, 3, 10, d)
  {
    SentinelPairs(EditOp(p, JOKER, 1), plan);
  }

  /** The orders argsort may give the sentinel and one triple. */
  lemma SentinelPairs(op: EditOp, plan: seq<EditOp>)
    requires 0 <= op.pos
    requires plan == [Sentinel, op] || (op.pos == 0 && plan == [op, Sentinel])
    ensures IsPositionSort(plan, [Sentinel] + [op])
  {
    assert multiset([op, Sentinel]) == multiset([Sentinel] + [op]);
  }

  /** The walk with a single delete at p, in either order. */
  lemma WalkDelete(codes: seq<int>, plan: seq<EditOp>, p: int)
    requires 0 <= p < |codes|
    requires plan == [Sentinel, EditOp(p, JOKER, 1)] || (p == 0 && plan == [EditOp(p, JOKER, 1), Sentinel])
    ensures Walk(codes, plan, |codes|)
            == if plan[0] == Sentinel then codes[..p] + codes[p + 1..] else codes
  {
    if plan[0] == Sentinel {
      DeleteAfterSentinel(codes, plan, p);
    } else {
      DeleteBeforeSentinel(codes, plan);
    }
  }

  /** Sentinel first: the slices before and after the deleted symbol. */
  lemma DeleteAfterSentinel(codes: seq<int>, plan: seq<EditOp>, p: int)
    requires 0 <= p < |codes|
    requires |plan| == 2 && plan[0] == Sentinel && plan[1] == EditOp(p, JOKER, 1)
    ensures Walk(codes, plan, |codes|) == codes[..p] + codes[p + 1..]
  {
    var L := |codes|;
    var s0, d := plan[0], plan[1];
    WalkTwo(codes, plan);
    SilentSlice(codes, s0, p);
    SilentSlice(codes, d, L);
    assert codes[0..p] == codes[..p] && codes[p + 1..L] == codes[p + 1..];
  }

  /** A silent triple whose slice lies inside the label. */
  lemma SilentSlice(codes: seq<int>, op: EditOp, stop: int)
    requires op.payload == JOKER
    requires 0 <= op.pos + op.consumes <= stop <= |codes|
    ensures Step(codes, op, stop) == codes[op.pos + op.consumes..stop]
  {
    Silent(codes, op, stop);
  }

  /** Delete first: its slice is empty and the sentinel's is the whole label. */
  lemma DeleteBeforeSentinel(codes: seq<int>, plan: seq<EditOp>)
    requires |plan| == 2 && plan[0] == EditOp(0, JOKER, 1) && plan[1] == Sentinel
    ensures Walk(codes, plan, |codes|) == codes
  {
    WalkTwo(codes, plan);
    Silent(codes, plan[0], 0);
    Silent(codes, plan[1], |codes|);
    assert [] + codes == codes;
  }

  /** A triple that emits nothing contributes just its slice. */
  lemma Silent(codes: seq<int>, op: EditOp, stop: int)
    requires op.payload == JOKER
    ensures Step(codes, op, stop) == Slice(codes, op.pos + op.consumes, stop)
  {
    assert [] + Slice(codes, op.pos + op.consumes, stop) == Slice(codes, op.pos + op.consumes, stop);
  }

  /** The result of mutate_label once the collected table and the walk are known. */
  lemma Concluded(codes: seq<int>, d: Draws, plan: seq<EditOp>, op: EditOp, w: seq<int>)
    requires ValidDraws(d, |codes|, 10) && PlanFits(plan, |codes|, 10, d)
    requires CollectEdits(|codes|, 10, d) == Ok([op])
    requires Walk(codes, plan, |codes|) == w
    ensures MutateLabel(codes, |codes|, 10, d, plan) == Ok(w)
  {
    Walked(codes, |codes|, 10, d, plan);
  }

  /** mutate_label on [2, 3, 4] with a single delete at p, in either order. */
  lemma DeleteCase(codes: seq<int>, p: int, d: Draws, plan: seq<EditOp>)
    requires codes == [2, 3, 4]
    requires 0 <= p < 3
    requires d == Draws(None, Some(FamilyDraw(1, [p], [])), None)
    requires plan == [Sentinel, EditOp(p, JOKER, 1)] || (p == 0 && plan == [EditOp(p, JOKER, 1), Sentinel])
    ensures ValidDraws(d, 3, 10) && PlanFits(plan, 3, 10, d)
    ensures MutateLabel(codes, 3, 10, d, plan)
            == Ok(if plan[0] == Sentinel then codes[..p] + codes[p + 1..] else codes)
  {
    OneDelete(p, 3, 10);
    DeletePlans(p, d, plan);
    WalkDelete(codes, plan, p);
    Concluded(codes, d, plan, EditOp(p, JOKER, 1), if plan[0] == Sentinel then codes[..p] + codes[p + 1..] else codes);
  }

  /** [2, 3, 4] with a delete at position 1 becomes [2, 4]. */
  lemma DeleteExample(codes: seq<int>, d: Draws, plan: seq<EditOp>)
    requires codes == [2, 3, 4]
    requires d == Draws(None, Some(FamilyDraw(1, [1], [])), None)
    requires plan == [Sentinel, EditOp(1, JOKER, 1)]
    ensures ValidDraws(d, 3, 10) && PlanFits(plan, 3, 10, d)
    ensures MutateLabel(codes, 3, 10, d, plan) == Ok([2, 4])
  {
    assert codes[..1] + codes[2..] == [2, 4];
    DeleteCase(codes, 1, d, plan);
  }

  /** A delete at position 0 ties with the sentinel. Both orders are sorted by
      position; the sentinel-first order deletes the symbol, the other one
      re-emits the whole label, undoing the deletion. */
  lemma TieExample(codes: seq<int>, d: Draws, first: seq<EditOp>, last: seq<EditOp>)
    requires codes == [2, 3, 4]
    requires d == Draws(None, Some(FamilyDraw(1, [0], [])), None)
    requires first == [Sentinel, EditOp(0, JOKER, 1)]
    requires last == [EditOp(0, JOKER, 1), Sentinel]
    ensures ValidDraws(d, 3, 10) && PlanFits(first, 3, 10, d) && PlanFits(last, 3, 10, d)
    ensures MutateLabel(codes, 3, 10, d, first) == Ok([3, 4])
    ensures MutateLabel(codes, 3, 10, d, last) == Ok([2, 3, 4])
  {
    TieFirst(codes, d, first);
    DeleteCase(codes, 0, d, last);
  }

  lemma TieFirst(codes: seq<int>, d: Draws, first: seq<EditOp>)
    requires codes == [2, 3, 4]
    requires d == Draws(None, Some(FamilyDraw(1, [0], [])), None)
    requires first == [Sentinel, EditOp(0, JOKER, 1)]
    ensures ValidDraws(d, 3, 10) && PlanFits(first, 3, 10, d)
    ensures MutateLabel(codes, 3, 10, d, first) == Ok([3, 4])
  {
    assert codes[..0] + codes[1..] == [3, 4];
    DeleteCase(codes, 0, d, first);
  }
}
