/** _pad_label (dataset.py:108-113): a label placed into a row of PAD codes, with
    numpy's slice assignment and broadcasting rules written out. */
module Padding {
  import opened Results
  import opened PyList
  import opened EditPlan

  /** The widest left margin _pad_label leaves. */
  const MaxMargin: int := 5

  /** row[a:b] = values on a numpy row: the slice bounds follow Python's rules; the
      values must match the slice's width, or be a single value broadcast over it. */
  function AssignSlice(row: seq<int>, a: int, b: int, values: seq<int>): (r: Result<seq<int>>)
    ensures r.Ok? ==> |r.value| == |row|
    ensures r.Err? ==> r.error == ShapeMismatch
    ensures 0 <= a <= b <= |row| ==>
              (r.Ok? <==> |values| == b - a || |values| == 1)
    ensures 0 <= a <= b <= |row| && |values| == b - a ==>
              r == Ok(row[..a] + values + row[b..])
  {
    var lo := Clamp(a, |row|);
    var hi := Clamp(b, |row|);
    var width := if lo < hi then hi - lo else 0;
    if |values| == width then Ok(row[..lo] + values + row[lo + width..])
    else if |values| == 1 then Ok(row[..lo] + Repeat(values[0], width) + row[lo + width..])
    else Err(ShapeMismatch)
  }

  /** The left margin _pad_label computes: at most 5, never pushing the label
      past the row's end, non-negative when the label fits, and 0 when the
      label fills the row. */
  function Margin(labelLength: int, maxLength: int): (m: int)
    ensures m <= MaxMargin
    ensures m + labelLength <= maxLength
    ensures labelLength <= maxLength ==> 0 <= m
    ensures labelLength == maxLength ==> m == 0
  {
    Min(maxLength - labelLength, MaxMargin)
  }

  /** `row` holds `codes` from `margin` on and PAD in every other cell. */
  predicate Padded(row: seq<int>, codes: seq<int>, margin: int) {
    && 0 <= margin
    && margin + |codes| <= |row|
    && row[margin..margin + |codes|] == codes
    && (forall i :: 0 <= i < |row| && !(margin <= i < margin + |codes|) ==> row[i] == PAD)
  }

  /** _pad_label: a row of width maxLength, PAD everywhere except the label's cells. */
  function PadLabel(codes: seq<int>, maxLength: int): (r: Result<seq<int>>)
    ensures maxLength < 0 ==> r == Err(NegativeDimension)
    ensures 0 <= |codes| <= maxLength ==>
              && r.Ok?
              && |r.value| == maxLength
              && Padded(r.value, codes, Margin(|codes|, maxLength))
    ensures 0 <= maxLength < |codes| ==>
              && (r.Ok? <==> |codes| == 1)
              && (r.Ok? ==> r.value == [])
              && (r.Err? ==> r.error == ShapeMismatch)
  {
    if maxLength < 0 then Err(NegativeDimension)
    else
      var left := Margin(|codes|, maxLength);
      var row := Repeat(PAD, maxLength);
      var r := AssignSlice(row, left, left + |codes|, codes);
      if |codes| <= maxLength then
        PadInside(row, codes, left);
        r
      else
        r
  }

  lemma PadInside(row: seq<int>, codes: seq<int>, m: int)
    requires 0 <= m && m + |codes| <= |row|
    requires forall i :: 0 <= i < |row| ==> row[i] == PAD
    ensures Padded(row[..m] + codes + row[m + |codes|..], codes, m)
  {
    var r := row[..m] + codes + row[m + |codes|..];
    assert r[m..m + |codes|] == codes;
    forall i | 0 <= i < |r| && !(m <= i < m + |codes|)
      ensures r[i] == PAD
    {
      assert r[i] == row[i];
    }
  }

  /** Reading the label back out of its row: the cells from the margin on. */
  function Unpad(row: seq<int>, labelLength: nat): (codes: seq<int>)
    requires labelLength <= |row|
    ensures |codes| == labelLength
  {
    var m := Margin(labelLength, |row|);
    row[m..m + labelLength]
  }

  /** Unpad undoes PadLabel, and a label exactly as wide as the row is the row. */
  lemma PadRoundTrip(codes: seq<int>, maxLength: int)
    requires |codes| <= maxLength
    ensures PadLabel(codes, maxLength).Ok?
    ensures Unpad(PadLabel(codes, maxLength).value, |codes|) == codes
    ensures |codes| == maxLength ==> PadLabel(codes, maxLength) == Ok(codes)
  {
    var row := PadLabel(codes, maxLength).value;
    if |codes| == maxLength {
      assert row == row[0..|codes|];
    }
  }
}
