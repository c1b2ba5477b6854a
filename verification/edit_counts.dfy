/** Counting over edit tables, and why argsort's reordering keeps every count. */
module EditCounts {
  import opened Results
  import opened EditPlan

  function Sum(s: seq<EditOp>, f: EditOp -> int): int
    decreases |s|
  {
    if |s| == 0 then 0 else f(s[0]) + Sum(s[1..], f)
  }

  function EmitWeight(op: EditOp): int {
    if op.payload != JOKER then 1 else 0
  }

  function ConsumeWeight(op: EditOp): int {
    op.consumes
  }

  /** How many triples emit a payload. */
  function Emitting(s: seq<EditOp>): int {
    Sum(s, EmitWeight)
  }

  /** How many original symbols the triples consume. */
  function Consumed(s: seq<EditOp>): int {
    Sum(s, ConsumeWeight)
  }

  lemma {:induction false} SumAppend(a: seq<EditOp>, b: seq<EditOp>, f: EditOp -> int)
    ensures Sum(a + b, f) == Sum(a, f) + Sum(b, f)
    decreases |a|
  {
    if |a| == 0 {
      assert a + b == b;
    } else {
      assert (a + b)[1..] == a[1..] + b;
      SumAppend(a[1..], b, f);
    }
  }

  /** Reordering a table changes no sum over it. */
  lemma {:induction false} SumPermutation(a: seq<EditOp>, b: seq<EditOp>, f: EditOp -> int)
    requires multiset(a) == multiset(b)
    ensures Sum(a, f) == Sum(b, f)
    decreases |a|
  {
    if |a| == 0 {
      assert |b| == |multiset(b)| == 0;
    } else {
      var x := a[0];
      assert x in multiset(b);
      var i :| 0 <= i < |b| && b[i] == x;
      assert a == [x] + a[1..];
      assert multiset(a[1..]) == multiset(a) - multiset{x};
      RemoveAt(b, i, f);
      SumPermutation(a[1..], b[..i] + b[i + 1..], f);
    }
  }

  /** Taking the i-th triple out of a table. */
  lemma RemoveAt(b: seq<EditOp>, i: int, f: EditOp -> int)
    requires 0 <= i < |b|
    ensures multiset(b[..i] + b[i + 1..]) == multiset(b) - multiset{b[i]}
    ensures Sum(b, f) == f(b[i]) + Sum(b[..i] + b[i + 1..], f)
  {
    var p, x, q := b[..i], b[i], b[i + 1..];
    assert b[i..] == [x] + q;
    assert b == p + b[i..];
    assert p + ([x] + q) == p + [x] + q;
    RemoveOne(p, x, q, f);
  }

  lemma RemoveOne(p: seq<EditOp>, x: EditOp, q: seq<EditOp>, f: EditOp -> int)
    ensures multiset(p + q) == multiset(p + [x] + q) - multiset{x}
    ensures Sum(p + [x] + q, f) == f(x) + Sum(p + q, f)
  {
    SumAppend(p + [x], q, f);
    SumAppend(p, [x], f);
    SumAppend(p, q, f);
    assert Sum([x], f) == f(x);
  }

  lemma {:induction false} SumConstant(s: seq<EditOp>, f: EditOp -> int, c: int)
    requires forall k :: 0 <= k < |s| ==> f(s[k]) == c
    ensures Sum(s, f) == c * |s|
    decreases |s|
  {
    if |s| > 0 {
      SumConstant(s[1..], f, c);
    }
  }

  /** Only replace and insert triples emit, and only replace and delete
      triples consume (dataset.py:65-89). */
  lemma CollectedCounts(length: int, tableSize: int, d: Draws)
    requires ValidDraws(d, length, tableSize)
    requires CollectEdits(length, tableSize, d).Ok?
    ensures Emitting([Sentinel] + CollectEdits(length, tableSize, d).value) == Count(d.replace) + Count(d.insert)
    ensures Consumed([Sentinel] + CollectEdits(length, tableSize, d).value) == Count(d.replace) + Count(d.delete)
  {
    CollectEditsSplit(length, tableSize, d);
    FamilyCounts(OptionEdits(Replace, d.replace, length, tableSize).value,
                 OptionEdits(Delete, d.delete, length, tableSize).value,
                 OptionEdits(Insert, d.insert, length, tableSize).value);
  }

  /** The counts of a table made of replacements, then deletes, then inserts,
      behind the sentinel. */
  lemma FamilyCounts(rep: seq<EditOp>, del: seq<EditOp>, ins: seq<EditOp>)
    requires forall k :: 0 <= k < |rep| ==> rep[k].payload != JOKER && rep[k].consumes == 1
    requires forall k :: 0 <= k < |del| ==> del[k].payload == JOKER && del[k].consumes == 1
    requires forall k :: 0 <= k < |ins| ==> ins[k].payload != JOKER && ins[k].consumes == 0
    ensures Emitting([Sentinel] + (rep + del + ins)) == |rep| + |ins|
    ensures Consumed([Sentinel] + (rep + del + ins)) == |rep| + |del|
  {
    var e := rep + del + ins;
    var emits, eats := EmitWeight, ConsumeWeight;
    assert ([Sentinel] + e)[1..] == e;
    SumAppend(rep + del, ins, emits);
    SumAppend(rep, del, emits);
    SumAppend(rep + del, ins, eats);
    SumAppend(rep, del, eats);
    SumConstant(rep, emits, 1);
    SumConstant(del, emits, 0);
    SumConstant(ins, emits, 1);
    SumConstant(rep, eats, 1);
    SumConstant(del, eats, 1);
    SumConstant(ins, eats, 0);
  }

  /** The sorted plan has the counts of the collected triples. */
  lemma PlanCounts(length: int, tableSize: int, d: Draws, plan: seq<EditOp>)
    requires ValidDraws(d, length, tableSize)
    requires CollectEdits(length, tableSize, d).Ok?
    requires |CollectEdits(length, tableSize, d).value| > 0
    requires PlanFits(plan, length, tableSize, d)
    ensures Emitting(plan) == Count(d.replace) + Count(d.insert)
    ensures Consumed(plan) == Count(d.replace) + Count(d.delete)
  {
    var raw := [Sentinel] + CollectEdits(length, tableSize, d).value;
    CollectedCounts(length, tableSize, d);
    SumPermutation(plan, raw, EmitWeight);
    SumPermutation(plan, raw, ConsumeWeight);
  }
}
