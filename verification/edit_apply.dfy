/** The applying half of mutate_label: SpellDataset._mutate_label walks the
    sorted plan once, emitting each triple's payload and then the original
    symbols up to the next triple's position. */
module EditApply {
  import opened Results
  import opened PyList
  import opened EditPlan
  import opened EditCounts

  /** What a triple writes before its slice: its payload unless that is JOKER. */
  function Emit(op: EditOp): seq<int> {
    if op.payload == JOKER then [] else [op.payload]
  }

  /** The codes a table of triples can emit. */
  function Emitted(ops: seq<EditOp>): set<int> {
    set k | 0 <= k < |ops| && ops[k].payload != JOKER :: ops[k].payload
  }

  lemma EmittedTail(ops: seq<EditOp>)
    requires |ops| > 0
    ensures Emitted(ops[1..]) <= Emitted(ops)
  {
    forall x | x in Emitted(ops[1..])
      ensures x in Emitted(ops)
    {
      var k :| 0 <= k < |ops| - 1 && ops[1..][k].payload != JOKER && x == ops[1..][k].payload;
      assert ops[k + 1] == ops[1..][k];
    }
  }

  /** _mutate_label (dataset.py:99-106). The four columns are zipped, so the
      walk stops at the shorter of the plan and its stop list. Every code it
      writes is a code of the label or the payload of a triple, so it never
      writes JOKER itself. */
  function ApplyEdits(codes: seq<int>, ops: seq<EditOp>, stops: seq<int>): (r: seq<int>)
    ensures forall x :: x in r ==> x in codes || x in Emitted(ops)
    ensures JOKER !in codes ==> JOKER !in r
    decreases |ops|
  {
    if |ops| == 0 || |stops| == 0 then []
    else
      var head := Emit(ops[0]) + Slice(codes, ops[0].pos + ops[0].consumes, stops[0]);
      var tail := ApplyEdits(codes, ops[1..], stops[1..]);
      EmittedTail(ops);
      SliceMembers(codes, ops[0].pos + ops[0].consumes, stops[0]);
      assert forall x :: x in Emit(ops[0]) ==> x == ops[0].payload && ops[0].payload != JOKER;
      head + tail
  }

  lemma ToIndexesTail(ops: seq<EditOp>, n: int)
    requires |ops| > 0
    ensures ToIndexes(ops, n)[1..] == ToIndexes(ops[1..], n)
    ensures ToIndexes(ops, n)[0] == First(ops[1..], n)
  {
    if |ops| > 1 {
      assert ops[1..][0] == ops[1];
    }
  }

  /** One column of the pass: the triple's output, then the original symbols
      after what it consumes, up to `stop`. */
  function Step(codes: seq<int>, op: EditOp, stop: int): seq<int> {
    Emit(op) + Slice(codes, op.pos + op.consumes, stop)
  }

  /** The same pass with the stop list written out: each triple's slice ends
      at the next triple's position, the last one at n. */
  function Walk(codes: seq<int>, ops: seq<EditOp>, n: int): seq<int>
    decreases |ops|
  {
    if |ops| == 0 then []
    else Step(codes, ops[0], First(ops[1..], n)) + Walk(codes, ops[1..], n)
  }

  /** With the stop list argsort's table yields, the zipped pass of
      _mutate_label is the walk (dataset.py:99-106). */
  lemma {:induction false} WalkIsApply(codes: seq<int>, ops: seq<EditOp>, n: int)
    ensures ApplyEdits(codes, ops, ToIndexes(ops, n)) == Walk(codes, ops, n)
    decreases |ops|
  {
    if |ops| > 0 {
      ToIndexesTail(ops, n);
      WalkIsApply(codes, ops[1..], n);
    }
  }

  /** Each triple's slice stays in front of the next triple, and the last one
      ends at the label's end. */
  predicate Tight(ops: seq<EditOp>, n: int)
    decreases |ops|
  {
    |ops| == 0 ||
    (ops[0].pos + ops[0].consumes <= First(ops[1..], n) <= n && Tight(ops[1..], n))
  }

  /** Length of one pass over a position-sorted table: the label's symbols from
      the first position on, plus one per emitting triple, minus at most one per
      consumed symbol; exactly that when no slice overruns the next triple. */
  lemma {:induction false} ApplyLength(codes: seq<int>, ops: seq<EditOp>)
    requires |ops| > 0
    requires SortedByPos(ops)
    requires forall k :: 0 <= k < |ops| ==> 0 <= ops[k].pos && 0 <= ops[k].consumes
    ensures var n := |Walk(codes, ops, |codes|)|;
            var span := |codes| - Min(ops[0].pos, |codes|);
            && span + Emitting(ops) - Consumed(ops) <= n <= span + Emitting(ops)
            && (Tight(ops, |codes|) ==> n == span + Emitting(ops) - Consumed(ops))
    decreases |ops|, 1
  {
    var L := |codes|;
    var rest := ops[1..];
    var q := First(rest, L);
    CountsHead(ops);
    FirstBounds(ops, L);
    RestLength(codes, ops);
    var sl := |Slice(codes, ops[0].pos + ops[0].consumes, q)|;
    var nr := |Walk(codes, rest, L)|;
    LengthStep(L, ops[0].pos, ops[0].consumes, q, sl, nr, EmitWeight(ops[0]), Emitting(rest), Consumed(rest));
    if Tight(ops, L) {
      TightStep(L, ops[0].pos, ops[0].consumes, q, sl, nr, EmitWeight(ops[0]), Emitting(rest), Consumed(rest));
    }
  }

  /** ApplyLength for the triples after the first, measured from where the
      first of them sits. */
  lemma {:induction false} RestLength(codes: seq<int>, ops: seq<EditOp>)
    requires |ops| > 0
    requires SortedByPos(ops)
    requires forall k :: 0 <= k < |ops| ==> 0 <= ops[k].pos && 0 <= ops[k].consumes
    ensures var n := |Walk(codes, ops[1..], |codes|)|;
            var span := |codes| - Min(First(ops[1..], |codes|), |codes|);
            && span + Emitting(ops[1..]) - Consumed(ops[1..]) <= n <= span + Emitting(ops[1..])
            && (Tight(ops, |codes|) ==> n == span + Emitting(ops[1..]) - Consumed(ops[1..]))
    decreases |ops|, 0
  {
    var rest := ops[1..];
    if |ops| == 1 {
      assert Walk(codes, rest, |codes|) == [];
      CountsHead(ops);
    } else {
      assert rest[0] == ops[1];
      assert SortedByPos(rest);
      ApplyLength(codes, rest);
    }
  }

  /** The next triple's position is a valid slice end no earlier than the first. */
  lemma FirstBounds(ops: seq<EditOp>, n: nat)
    requires |ops| > 0
    requires SortedByPos(ops)
    requires forall k :: 0 <= k < |ops| ==> 0 <= ops[k].pos && 0 <= ops[k].consumes
    ensures 0 <= ops[0].pos && 0 <= ops[0].consumes && 0 <= First(ops[1..], n)
    ensures Min(ops[0].pos, n) <= Min(First(ops[1..], n), n)
  {
    if |ops| > 1 {
      assert ops[1..][0] == ops[1];
    }
  }

  /** The emitted and consumed counts split off the first triple. */
  lemma CountsHead(ops: seq<EditOp>)
    requires |ops| > 0
    ensures Emitting(ops) == EmitWeight(ops[0]) + Emitting(ops[1..])
    ensures Consumed(ops) == ops[0].consumes + Consumed(ops[1..])
    ensures |ops| == 1 ==> Emitting(ops[1..]) == 0 && Consumed(ops[1..]) == 0
  {
  }

  /** The length bookkeeping of one step of the walk: sl is the length of the
      first slice, nr the length of the rest of the walk. */
  lemma LengthStep(L: nat, p: int, c: int, q: int, sl: int, nr: int, e: int, em: int, co: int)
    requires 0 <= p && 0 <= q && 0 <= c && Min(p, L) <= Min(q, L)
    requires sl == if Min(p + c, L) < Min(q, L) then Min(q, L) - Min(p + c, L) else 0
    requires (L - Min(q, L)) + em - co <= nr <= (L - Min(q, L)) + em
    ensures (L - Min(p, L)) + (e + em) - (c + co) <= e + sl + nr <= (L - Min(p, L)) + (e + em)
  {
  }

  lemma TightStep(L: nat, p: int, c: int, q: int, sl: int, nr: int, e: int, em: int, co: int)
    requires 0 <= p && 0 <= c && p + c <= q <= L
    requires sl == if Min(p + c, L) < Min(q, L) then Min(q, L) - Min(p + c, L) else 0
    requires nr == (L - Min(q, L)) + em - co
    ensures e + sl + nr == (L - Min(p, L)) + (e + em) - (c + co)
  {
  }

  /** The first triple at position j, if any. */
  function EditAt(ops: seq<EditOp>, j: int): (r: Option<EditOp>)
    ensures r.Some? ==> r.value in ops && r.value.pos == j
    decreases |ops|
  {
    if |ops| == 0 then None
    else if ops[0].pos == j then Some(ops[0])
    else EditAt(ops[1..], j)
  }

  /** There is no edit at j exactly when no triple sits at j. */
  lemma {:induction false} EditAtNone(ops: seq<EditOp>, j: int)
    ensures EditAt(ops, j).None? <==> forall k :: 0 <= k < |ops| ==> ops[k].pos != j
    decreases |ops|
  {
    if |ops| > 0 {
      EditAtNone(ops[1..], j);
      assert forall k :: 1 <= k < |ops| ==> ops[k] == ops[1..][k - 1];
    }
  }

  /** What symbol j of the label becomes under the edit at its position: kept,
      replaced, deleted, or preceded by an inserted code. */
  function Cell(codes: seq<int>, j: int, e: Option<EditOp>): seq<int>
    requires 0 <= j < |codes|
  {
    match e
    case None => [codes[j]]
    case Some(op) => Emit(op) + (if op.consumes == 0 then [codes[j]] else [])
  }

  /** The intended mutation, position by position from j on: an independent
      reference for the single pass of ApplyEdits. */
  function ReferenceFrom(codes: seq<int>, ops: seq<EditOp>, j: nat): seq<int>
    decreases |codes| - j
  {
    if j >= |codes| then [] else Cell(codes, j, EditAt(ops, j)) + ReferenceFrom(codes, ops, j + 1)
  }

  function Reference(codes: seq<int>, ops: seq<EditOp>): seq<int> {
    ReferenceFrom(codes, ops, 0)
  }

  predicate Increasing(ops: seq<EditOp>) {
    forall i, j :: 0 <= i < j < |ops| ==> ops[i].pos < ops[j].pos
  }

  /** Real edits at strictly increasing positions inside a label of length n,
      each consuming at most one symbol. */
  predicate Exact(ops: seq<EditOp>, n: int) {
    && Increasing(ops)
    && forall k :: 0 <= k < |ops| ==> 0 <= ops[k].pos < n && 0 <= ops[k].consumes <= 1
  }

  /** The two assumptions of the exact tier: the sentinel comes first, and the
      real edits sit at pairwise distinct positions. */
  predicate ExactPlan(plan: seq<EditOp>, n: int) {
    |plan| > 0 && plan[0] == Sentinel && Exact(plan[1..], n)
  }

  function First(ops: seq<EditOp>, n: int): int {
    if |ops| == 0 then n else ops[0].pos
  }

  /** Exact, stated one neighbour at a time. */
  predicate Chain(ops: seq<EditOp>, n: int)
    decreases |ops|
  {
    |ops| == 0 ||
    (&& 0 <= ops[0].pos < First(ops[1..], n) <= n
     && 0 <= ops[0].consumes <= 1
     && Chain(ops[1..], n))
  }

  lemma {:induction false} ExactChain(ops: seq<EditOp>, n: int)
    requires Exact(ops, n)
    ensures Chain(ops, n)
    decreases |ops|
  {
    if |ops| > 0 {
      assert Exact(ops[1..], n);
      if |ops| > 1 {
        assert ops[1..][0] == ops[1];
      }
      ExactChain(ops[1..], n);
    }
  }

  lemma {:induction false} ChainBelow(ops: seq<EditOp>, n: int, k: int)
    requires Chain(ops, n)
    requires 0 < k < |ops|
    ensures ops[0].pos < ops[k].pos
    decreases |ops|
  {
    assert ops[1..][0] == ops[1];
    if k > 1 {
      ChainBelow(ops[1..], n, k - 1);
      assert ops[1..][k - 1] == ops[k];
    }
  }

  lemma UneditedStep(codes: seq<int>, ops: seq<EditOp>, a: nat)
    requires a < |codes|
    requires forall k :: 0 <= k < |ops| ==> ops[k].pos != a
    ensures ReferenceFrom(codes, ops, a) == [codes[a]] + ReferenceFrom(codes, ops, a + 1)
  {
    EditAtNone(ops, a);
  }

  lemma SliceHead(codes: seq<int>, p: int, q: int)
    requires 0 <= p < q <= |codes|
    ensures Slice(codes, p, q) == [codes[p]] + Slice(codes, p + 1, q)
  {
    assert codes[p..q] == [codes[p]] + codes[p + 1..q];
  }

  /** One edited position: the triple's output followed by the slice up to the
      next triple is the position's cell followed by the rest. */
  lemma HeadStep(codes: seq<int>, o: EditOp, q: int, tail: seq<int>, restRef: seq<int>)
    requires 0 <= o.pos < q <= |codes|
    requires 0 <= o.consumes <= 1
    requires Slice(codes, o.pos + 1, q) + tail == restRef
    ensures Emit(o) + Slice(codes, o.pos + o.consumes, q) + tail == Cell(codes, o.pos, Some(o)) + restRef
  {
    var e, s := Emit(o), Slice(codes, o.pos + 1, q);
    if o.consumes == 0 {
      var c := [codes[o.pos]];
      SliceHead(codes, o.pos, q);
      assert Cell(codes, o.pos, Some(o)) == e + c;
      Assoc(e, c, s);
      Assoc(e + c, s, tail);
    } else {
      assert Cell(codes, o.pos, Some(o)) == e + [];
      assert e + [] == e;
      Assoc(e, s, tail);
    }
  }

  lemma EditedStep(codes: seq<int>, ops: seq<EditOp>, p: nat)
    requires p < |codes|
    requires |ops| > 0 && ops[0].pos == p
    ensures ReferenceFrom(codes, ops, p) == Cell(codes, p, Some(ops[0])) + ReferenceFrom(codes, ops, p + 1)
  {
    assert EditAt(ops, p) == Some(ops[0]);
  }

  lemma {:induction false} Gap(codes: seq<int>, ops: seq<EditOp>, a: nat, b: nat)
    requires a <= b <= |codes|
    requires forall k :: 0 <= k < |ops| ==> ops[k].pos < a || b <= ops[k].pos
    ensures ReferenceFrom(codes, ops, a) == codes[a..b] + ReferenceFrom(codes, ops, b)
    decreases b - a
  {
    if a < b {
      UneditedStep(codes, ops, a);
      Gap(codes, ops, a + 1, b);
      assert codes[a..b] == [codes[a]] + codes[a + 1..b];
      Assoc([codes[a]], codes[a + 1..b], ReferenceFrom(codes, ops, b));
    }
  }

  lemma {:induction false} Agree(codes: seq<int>, a: seq<EditOp>, b: seq<EditOp>, j: nat)
    requires forall i :: j <= i < |codes| ==> EditAt(a, i) == EditAt(b, i)
    ensures ReferenceFrom(codes, a, j) == ReferenceFrom(codes, b, j)
    decreases |codes| - j
  {
    if j < |codes| {
      Agree(codes, a, b, j + 1);
    }
  }

  /** In a chain, the reference after the first triple ignores it. */
  lemma ReferenceAfterHead(codes: seq<int>, ops: seq<EditOp>)
    requires Chain(ops, |codes|) && |ops| > 0
    ensures ReferenceFrom(codes, ops, ops[0].pos + 1) == ReferenceFrom(codes, ops[1..], ops[0].pos + 1)
  {
    forall i | ops[0].pos + 1 <= i < |codes|
      ensures EditAt(ops, i) == EditAt(ops[1..], i)
    {
    }
    Agree(codes, ops, ops[1..], ops[0].pos + 1);
  }

  /** In a chain, no triple sits before the first one. */
  lemma ReferenceBeforeHead(codes: seq<int>, ops: seq<EditOp>, j: nat)
    requires Chain(ops, |codes|)
    requires |ops| > 0 && j <= ops[0].pos
    ensures ReferenceFrom(codes, ops, j) == codes[j..ops[0].pos] + ReferenceFrom(codes, ops, ops[0].pos)
  {
    forall k | 0 <= k < |ops|
      ensures ops[k].pos < j || ops[0].pos <= ops[k].pos
    {
      if k > 0 {
        ChainBelow(ops, |codes|, k);
      }
    }
    Gap(codes, ops, j, ops[0].pos);
  }

  /** The reference from j up to and including the first real edit. */
  lemma ReferenceAtFirst(codes: seq<int>, ops: seq<EditOp>, j: nat)
    requires Chain(ops, |codes|)
    requires |ops| > 0 && j <= ops[0].pos
    ensures ReferenceFrom(codes, ops, j)
            == codes[j..ops[0].pos] + (Cell(codes, ops[0].pos, Some(ops[0])) + ReferenceFrom(codes, ops[1..], ops[0].pos + 1))
  {
    var p := ops[0].pos;
    ReferenceBeforeHead(codes, ops, j);
    EditedStep(codes, ops, p);
    ReferenceAfterHead(codes, ops);
    Substitute(ReferenceFrom(codes, ops, j), codes[j..p], ReferenceFrom(codes, ops, p),
               Cell(codes, p, Some(ops[0])), ReferenceFrom(codes, ops, p + 1), ReferenceFrom(codes, ops[1..], p + 1));
  }

  lemma Substitute(x: seq<int>, a: seq<int>, y: seq<int>, b: seq<int>, z: seq<int>, w: seq<int>)
    requires x == a + y && y == b + z && z == w
    ensures x == a + (b + w)
  {
  }

  /** HeadStep with the first step of the walk folded in. */
  lemma HeadCombine(codes: seq<int>, ops: seq<EditOp>, restRef: seq<int>, tail: seq<int>, walked: seq<int>)
    requires |ops| > 0
    requires 0 <= ops[0].pos < First(ops[1..], |codes|) <= |codes| && 0 <= ops[0].consumes <= 1
    requires Slice(codes, ops[0].pos + 1, First(ops[1..], |codes|)) + tail == restRef
    requires walked == Step(codes, ops[0], First(ops[1..], |codes|)) + tail
    ensures walked == Cell(codes, ops[0].pos, Some(ops[0])) + restRef
  {
    var q := First(ops[1..], |codes|);
    HeadStep(codes, ops[0], q, tail, restRef);
    assert Step(codes, ops[0], q) == Emit(ops[0]) + Slice(codes, ops[0].pos + ops[0].consumes, q);
  }

  /** The walk over a non-empty chain is the first triple's cell followed by
      what the walk from just after it gives. */
  lemma WalkHead(codes: seq<int>, ops: seq<EditOp>, restRef: seq<int>)
    requires |ops| > 0
    requires 0 <= ops[0].pos < First(ops[1..], |codes|) <= |codes| && 0 <= ops[0].consumes <= 1
    requires Slice(codes, ops[0].pos + 1, First(ops[1..], |codes|)) + Walk(codes, ops[1..], |codes|)
             == restRef
    ensures Walk(codes, ops, |codes|) == Cell(codes, ops[0].pos, Some(ops[0])) + restRef
  {
    HeadCombine(codes, ops, restRef, Walk(codes, ops[1..], |codes|),
                Walk(codes, ops, |codes|));
  }

  /** One step of the walk: given the claim for the triples after the first,
      it holds from any j up to the first triple's position. */
  lemma ApplyStep(codes: seq<int>, ops: seq<EditOp>, j: nat)
    requires Chain(ops, |codes|)
    requires |ops| > 0 && j <= ops[0].pos
    requires Slice(codes, ops[0].pos + 1, First(ops[1..], |codes|)) + Walk(codes, ops[1..], |codes|)
             == ReferenceFrom(codes, ops[1..], ops[0].pos + 1)
    ensures Slice(codes, j, ops[0].pos) + Walk(codes, ops, |codes|) == ReferenceFrom(codes, ops, j)
  {
    WalkHead(codes, ops, ReferenceFrom(codes, ops[1..], ops[0].pos + 1));
    ReferenceAtFirst(codes, ops, j);
    assert Slice(codes, j, ops[0].pos) == codes[j..ops[0].pos];
  }

  lemma {:induction false} ApplyRealEdits(codes: seq<int>, ops: seq<EditOp>, j: nat)
    requires Chain(ops, |codes|)
    requires j <= First(ops, |codes|)
    ensures Slice(codes, j, First(ops, |codes|)) + Walk(codes, ops, |codes|)
            == ReferenceFrom(codes, ops, j)
    decreases |ops|
  {
    var L := |codes|;
    if |ops| == 0 {
      Gap(codes, ops, j, L);
      assert Slice(codes, j, L) == codes[j..L];
      assert ReferenceFrom(codes, ops, L) == [];
    } else {
      ApplyRealEdits(codes, ops[1..], ops[0].pos + 1);
      ApplyStep(codes, ops, j);
    }
  }

  /** Under the exact-tier assumptions, one pass of _mutate_label computes the
      position-by-position reference (dataset.py:87-106). */
  lemma ApplyMatchesReference(codes: seq<int>, plan: seq<EditOp>)
    requires ExactPlan(plan, |codes|)
    ensures Walk(codes, plan, |codes|) == Reference(codes, plan[1..])
  {
    ExactChain(plan[1..], |codes|);
    ApplyRealEdits(codes, plan[1..], 0);
    SentinelHead(Emit(plan[0]), Slice(codes, plan[0].pos + plan[0].consumes, First(plan[1..], |codes|)),
                 Walk(codes, plan[1..], |codes|), Reference(codes, plan[1..]));
  }

  /** The sentinel emits nothing and its slice starts at 0. */
  lemma SentinelHead(e: seq<int>, s: seq<int>, t: seq<int>, r: seq<int>)
    requires e == [] && s + t == r
    ensures e + s + t == r
  {
    assert e + s == s;
  }

  /** A chain never lets a slice overrun the next triple. */
  lemma {:induction false} ChainTight(ops: seq<EditOp>, n: int)
    requires Chain(ops, n)
    ensures Tight(ops, n)
    decreases |ops|
  {
    if |ops| > 0 {
      ChainTight(ops[1..], n);
    }
  }

  /** Under the exact-tier assumptions the pass is tight, so its length is exact. */
  lemma ExactPlanLength(codes: seq<int>, plan: seq<EditOp>)
    requires ExactPlan(plan, |codes|)
    ensures |Walk(codes, plan, |codes|)| == |codes| + Emitting(plan) - Consumed(plan)
  {
    var L := |codes|;
    ExactChain(plan[1..], L);
    ChainTight(plan[1..], L);
    if |plan| > 1 {
      assert plan[1..][0] == plan[1];
    }
    assert Tight(plan, L);
    forall i, j | 0 <= i < j < |plan|
      ensures plan[i].pos <= plan[j].pos
    {
      if i > 0 {
        assert plan[i] == plan[1..][i - 1] && plan[j] == plan[1..][j - 1];
      } else {
        assert plan[j] == plan[1..][j - 1];
      }
    }
    forall k | 0 <= k < |plan|
      ensures 0 <= plan[k].pos && 0 <= plan[k].consumes
    {
      if k > 0 {
        assert plan[k] == plan[1..][k - 1];
      }
    }
    ApplyLength(codes, plan);
  }
}
