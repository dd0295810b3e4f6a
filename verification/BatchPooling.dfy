/** Padded batch embedding: packing into rectangular buffers, masked mean pooling, and why a row of the
    batch pools to what the text alone would. */
module BatchPooling {
  import opened Prelude

  const MAX_SEQ_LEN: nat := 512

  datatype Encoding = Encoding(ids: seq<int>, mask: seq<int>, types: seq<int>) {
    predicate Valid() {
      |ids| == |mask| == |types|
    }
  }

  function Clamp(x: nat, lo: nat, hi: nat): nat
    requires lo <= hi
  {
    if x < lo then lo else if x > hi then hi else x
  }

  // ----- packing -----

  // A token sequence cut to `width` and padded with zeros to it.
  function Row(tokens: seq<int>, width: nat): (row: seq<int>)
    ensures |row| == width
  {
    tokens[..Min(|tokens|, width)] + seq(width - Min(|tokens|, width), k => 0)
  }

  function Rows(batch: seq<seq<int>>, width: nat): seq<int> {
    if batch == [] then [] else Rows(batch[..|batch| - 1], width) + Row(batch[|batch| - 1], width)
  }

  lemma NextRow(i: nat, width: nat)
    ensures (i + 1) * width == i * width + width
  {
  }

  lemma {:induction false} RowsLength(batch: seq<seq<int>>, width: nat)
    ensures |Rows(batch, width)| == |batch| * width
  {
    if batch != [] {
      RowsLength(batch[..|batch| - 1], width);
      NextRow(|batch| - 1, width);
    }
  }

  lemma RowFits(i: nat, n: nat, width: nat)
    requires i < n
    ensures 0 <= i * width <= i * width + width == (i + 1) * width <= n * width
  {
    NextRow(i, width);
    ProductIsMonotone(i + 1, n, width);
  }

  lemma ProductIsMonotone(x: nat, y: nat, width: nat)
    requires x <= y
    ensures 0 <= x * width <= y * width
  {
    var gap := y - x;
    assert y * width == x * width + gap * width && gap * width >= 0;
  }

  /** Row `i` of the flat buffer is sequence `i`, cut or padded. */
  lemma {:induction false} RowOfRows(batch: seq<seq<int>>, width: nat, i: nat)
    requires i < |batch|
    ensures 0 <= i * width <= (i + 1) * width <= |Rows(batch, width)| == |batch| * width
    ensures Rows(batch, width)[i * width..(i + 1) * width] == Row(batch[i], width)
  {
    var n := |batch| - 1;
    RowsLength(batch, width);
    RowsLength(batch[..n], width);
    RowFits(i, |batch|, width);
    if i == n {
      assert Rows(batch, width)[n * width..(n + 1) * width] == Row(batch[n], width);
    } else {
      RowOfRows(batch[..n], width, i);
      var init := Rows(batch[..n], width);
      assert Rows(batch, width) == init + Row(batch[n], width);
      assert Rows(batch, width)[i * width..(i + 1) * width] == init[i * width..(i + 1) * width];
    }
  }

  function TokensOf(encs: seq<Encoding>, which: Encoding -> seq<int>): (batch: seq<seq<int>>)
    ensures |batch| == |encs| && forall i :: 0 <= i < |encs| ==> batch[i] == which(encs[i])
  {
    seq(|encs|, i requires 0 <= i < |encs| => which(encs[i]))
  }

  function IdsOf(e: Encoding): seq<int> { e.ids }
  function MaskOf(e: Encoding): seq<int> { e.mask }
  function TypesOf(e: Encoding): seq<int> { e.types }

  // The first `i` rows are in place and the rest of the buffer is still zero.
  ghost predicate PackedTo(buffer: array<int>, batch: seq<seq<int>>, i: nat, width: nat)
    reads buffer
  {
    && i <= |batch| && buffer.Length == |batch| * width
    && 0 <= i * width <= buffer.Length
    && buffer[..i * width] == Rows(batch[..i], width)
    && forall k :: i * width <= k < buffer.Length ==> buffer[k] == 0
  }

  // The first `j` tokens of row `i` are in place as well.
  ghost predicate FilledTo(buffer: array<int>, batch: seq<seq<int>>, i: nat, width: nat, j: nat)
    reads buffer
  {
    && i < |batch| && buffer.Length == |batch| * width && j <= Min(|batch[i]|, width)
    && 0 <= i * width <= i * width + width <= buffer.Length
    && buffer[..i * width] == Rows(batch[..i], width)
    && (forall k :: 0 <= k < j ==> buffer[i * width + k] == batch[i][k])
    && forall k :: i * width + j <= k < buffer.Length ==> buffer[k] == 0
  }

  lemma RowStarted(buffer: array<int>, batch: seq<seq<int>>, i: nat, width: nat)
    requires PackedTo(buffer, batch, i, width) && i < |batch|
    ensures FilledTo(buffer, batch, i, width, 0)
  {
    RowFits(i, |batch|, width);
  }

  lemma RowFinished(buffer: array<int>, batch: seq<seq<int>>, i: nat, width: nat)
    requires i < |batch| && FilledTo(buffer, batch, i, width, Min(|batch[i]|, width))
    ensures PackedTo(buffer, batch, i + 1, width)
  {
    RowFits(i, |batch|, width);
    var start := i * width;
    assert buffer[start..start + width] == Row(batch[i], width);
    assert batch[..i + 1][..i] == batch[..i];
    assert buffer[..start + width] == buffer[..start] + buffer[start..start + width];
  }

  method PutToken(buffer: array<int>, ghost batch: seq<seq<int>>, ghost i: nat, width: nat, j: nat, at: nat, token: int)
    requires i < |batch| && FilledTo(buffer, batch, i, width, j)
    requires j < Min(|batch[i]|, width) && at == i * width + j && token == batch[i][j]
    modifies buffer
    ensures FilledTo(buffer, batch, i, width, j + 1)
  {
    ghost var before := buffer[..i * width];
    buffer[at] := token;
    assert buffer[..i * width] == before;
  }

  /** The three rectangular buffers of a batch, filled in one pass. */
  method PackBatch(encs: seq<Encoding>)
      returns (ids: array<int>, mask: array<int>, types: array<int>, maxLen: nat)
    requires forall i :: 0 <= i < |encs| ==> encs[i].Valid()
    ensures fresh(ids) && fresh(mask) && fresh(types)
    ensures 1 <= maxLen <= 512 && NoWiderThanNeeded(encs, maxLen)
    ensures forall i :: 0 <= i < |encs| ==> Min(|encs[i].ids|, maxLen) == Min(|encs[i].ids|, 512)
    ensures ids[..] == Rows(TokensOf(encs, IdsOf), maxLen)
    ensures mask[..] == Rows(TokensOf(encs, MaskOf), maxLen)
    ensures types[..] == Rows(TokensOf(encs, TypesOf), maxLen)
  {
    maxLen := MaxLen(encs);
    ids, mask, types := PackRows(encs, maxLen);
  }

  method PackRows(encs: seq<Encoding>, maxLen: nat) returns (ids: array<int>, mask: array<int>, types: array<int>)
    requires forall i :: 0 <= i < |encs| ==> encs[i].Valid()
    ensures fresh(ids) && fresh(mask) && fresh(types)
    ensures ids[..] == Rows(TokensOf(encs, IdsOf), maxLen)
    ensures mask[..] == Rows(TokensOf(encs, MaskOf), maxLen)
    ensures types[..] == Rows(TokensOf(encs, TypesOf), maxLen)
  {
    var n := |encs|;
    ids := new int[n * maxLen](_ => 0);
    mask := new int[n * maxLen](_ => 0);
    types := new int[n * maxLen](_ => 0);
    var i := 0;
    while i < n
      invariant 0 <= i <= n && fresh(ids) && fresh(mask) && fresh(types)
      invariant ids != mask && mask != types && ids != types
      invariant PackedTo(ids, TokensOf(encs, IdsOf), i, maxLen)
      invariant PackedTo(mask, TokensOf(encs, MaskOf), i, maxLen)
      invariant PackedTo(types, TokensOf(encs, TypesOf), i, maxLen)
    {
      FillRow(encs, i, maxLen, ids, mask, types);
      i := i + 1;
    }
    AllPacked(ids, TokensOf(encs, IdsOf), maxLen);
    AllPacked(mask, TokensOf(encs, MaskOf), maxLen);
    AllPacked(types, TokensOf(encs, TypesOf), maxLen);
  }

  // The inner loop: one token of each kind at a time.
  method FillRow(encs: seq<Encoding>, i: nat, maxLen: nat, ids: array<int>, mask: array<int>, types: array<int>)
    requires i < |encs| && encs[i].Valid() && ids != mask && mask != types && ids != types
    requires PackedTo(ids, TokensOf(encs, IdsOf), i, maxLen)
    requires PackedTo(mask, TokensOf(encs, MaskOf), i, maxLen)
    requires PackedTo(types, TokensOf(encs, TypesOf), i, maxLen)
    modifies ids, mask, types
    ensures PackedTo(ids, TokensOf(encs, IdsOf), i + 1, maxLen)
    ensures PackedTo(mask, TokensOf(encs, MaskOf), i + 1, maxLen)
    ensures PackedTo(types, TokensOf(encs, TypesOf), i + 1, maxLen)
  {
    ghost var allIds, allMasks, allTypes := TokensOf(encs, IdsOf), TokensOf(encs, MaskOf), TokensOf(encs, TypesOf);
    RowStarted(ids, allIds, i, maxLen);
    RowStarted(mask, allMasks, i, maxLen);
    RowStarted(types, allTypes, i, maxLen);
    var len := Min(|encs[i].ids|, maxLen);
    var j := 0;
    while j < len
      invariant 0 <= j <= len
      invariant FilledTo(ids, allIds, i, maxLen, j)
      invariant FilledTo(mask, allMasks, i, maxLen, j)
      invariant FilledTo(types, allTypes, i, maxLen, j)
    {
      var at := i * maxLen + j;
      PutToken(ids, allIds, i, maxLen, j, at, encs[i].ids[j]);
      PutToken(mask, allMasks, i, maxLen, j, at, encs[i].mask[j]);
      PutToken(types, allTypes, i, maxLen, j, at, encs[i].types[j]);
      j := j + 1;
    }
    RowFinished(ids, allIds, i, maxLen);
    RowFinished(mask, allMasks, i, maxLen);
    RowFinished(types, allTypes, i, maxLen);
  }

  lemma AllPacked(buffer: array<int>, batch: seq<seq<int>>, width: nat)
    requires PackedTo(buffer, batch, |batch|, width)
    ensures buffer[..] == Rows(batch, width)
  {
    assert batch[..|batch|] == batch && buffer[..buffer.Length] == buffer[..];
  }

  // A column beyond the first is there for some text.
  ghost predicate NoWiderThanNeeded(encs: seq<Encoding>, width: nat) {
    width <= 1 || exists i :: 0 <= i < |encs| && width <= |encs[i].ids|
  }

  // Longest sequence, clamped; 1 for an empty batch.
  method MaxLen(encs: seq<Encoding>) returns (maxLen: nat)
    ensures 1 <= maxLen <= 512 && NoWiderThanNeeded(encs, maxLen)
    ensures forall i :: 0 <= i < |encs| ==> Min(|encs[i].ids|, maxLen) == Min(|encs[i].ids|, 512)
  {
    var longest: nat := if encs == [] then 1 else 0;
    var i := 0;
    while i < |encs|
      invariant 0 <= i <= |encs|
      invariant forall k :: 0 <= k < i ==> |encs[k].ids| <= longest
      invariant longest <= 1 || exists k :: 0 <= k < i && longest <= |encs[k].ids|
    {
      longest := Max(longest, |encs[i].ids|);
      i := i + 1;
    }
    maxLen := Clamp(longest, 1, MAX_SEQ_LEN);
  }

  // ----- masked mean pooling -----

  // Hidden value `dim` of token `t` in a flat [n, hidden] buffer.
  function HiddenAt(data: seq<real>, hidden: nat, t: nat, dim: nat): real {
    if t * hidden + dim < |data| then data[t * hidden + dim] else 0.0
  }

  // Weighted sum of one hidden dimension over the first `n` tokens.
  function PoolSum(data: seq<real>, mask: seq<int>, hidden: nat, n: nat, dim: nat): real
    requires n <= |mask|
  {
    if n == 0 then 0.0
    else PoolSum(data, mask, hidden, n - 1, dim) + HiddenAt(data, hidden, n - 1, dim) * mask[n - 1] as real
  }

  function Weight(mask: seq<int>, n: nat): real
    requires n <= |mask|
  {
    if n == 0 then 0.0 else Weight(mask, n - 1) + mask[n - 1] as real
  }

  function Pooled(data: seq<real>, mask: seq<int>, hidden: nat, n: nat): (r: seq<real>)
    requires n <= |mask|
    ensures |r| == hidden
  {
    var w := Weight(mask, n);
    seq(hidden, dim requires 0 <= dim < hidden =>
      if w > 0.0 then PoolSum(data, mask, hidden, n, dim) / w else PoolSum(data, mask, hidden, n, dim))
  }

  // ----- why that is a mean -----

  // All the tokens that count among the first `n` have the hidden vector `v`; token `t` has row `t` of the data.
  ghost predicate AllHidden(data: seq<real>, mask: seq<int>, hidden: nat, n: nat, v: seq<real>) {
    && |v| == hidden && n <= |mask|
    && forall t: nat :: t < n && mask[t] != 0 ==> HasRow(data, hidden, t, v)
  }

  ghost predicate HasRow(data: seq<real>, hidden: nat, t: nat, v: seq<real>) {
    0 <= t * hidden <= (t + 1) * hidden <= |data| && data[t * hidden..(t + 1) * hidden] == v
  }

  lemma HiddenOfRow(data: seq<real>, hidden: nat, t: nat, v: seq<real>, dim: nat)
    requires HasRow(data, hidden, t, v) && |v| == hidden && dim < hidden
    ensures HiddenAt(data, hidden, t, dim) == v[dim]
  {
    NextRow(t, hidden);
    assert data[t * hidden..(t + 1) * hidden][dim] == data[t * hidden + dim];
  }

  // Some of the first `n` tokens count, and none counts against.
  ghost predicate SomeCount(mask: seq<int>, n: nat) {
    n <= |mask| && (forall t :: 0 <= t < n ==> mask[t] >= 0) && exists t :: 0 <= t < n && mask[t] > 0
  }

  lemma {:induction false} WeightIsPositive(mask: seq<int>, n: nat)
    requires n <= |mask| && forall t :: 0 <= t < n ==> mask[t] >= 0
    ensures Weight(mask, n) >= 0.0
    ensures (exists t :: 0 <= t < n && mask[t] > 0) <==> Weight(mask, n) > 0.0
  {
    if n > 0 {
      WeightIsPositive(mask, n - 1);
    }
  }

  lemma {:induction false} SumOfEqual(data: seq<real>, mask: seq<int>, hidden: nat, n: nat, dim: nat, x: real)
    requires n <= |mask| && forall t: nat :: t < n && mask[t] != 0 ==> HiddenAt(data, hidden, t, dim) == x
    ensures PoolSum(data, mask, hidden, n, dim) == x * Weight(mask, n)
  {
    if n > 0 {
      SumOfEqual(data, mask, hidden, n - 1, dim, x);
      SumOneMore(Weight(mask, n - 1), mask[n - 1] as real, x, HiddenAt(data, hidden, n - 1, dim));
    }
  }

  lemma SumOneMore(weight: real, w: real, x: real, h: real)
    requires w != 0.0 ==> h == x
    ensures x * weight + h * w == x * (weight + w)
  {
  }

  lemma ColumnIsConstant(data: seq<real>, mask: seq<int>, hidden: nat, n: nat, v: seq<real>, dim: nat)
    requires AllHidden(data, mask, hidden, n, v) && dim < hidden
    ensures forall t: nat :: t < n && mask[t] != 0 ==> HiddenAt(data, hidden, t, dim) == v[dim]
  {
    forall t: nat | t < n && mask[t] != 0
      ensures HiddenAt(data, hidden, t, dim) == v[dim]
    {
      HiddenOfRow(data, hidden, t, v, dim);
    }
  }

  /** A text whose counted tokens all have one hidden vector pools to that vector; one token is the smallest
      case. */
  lemma {:induction false} EqualTokensPoolToThemselves(
      data: seq<real>, mask: seq<int>, hidden: nat, n: nat, v: seq<real>)
    requires AllHidden(data, mask, hidden, n, v) && SomeCount(mask, n)
    ensures Pooled(data, mask, hidden, n) == v
  {
    WeightIsPositive(mask, n);
    forall dim: nat | dim < hidden
      ensures Pooled(data, mask, hidden, n)[dim] == v[dim]
    {
      ColumnIsConstant(data, mask, hidden, n, v, dim);
      ColumnPools(data, mask, hidden, n, dim, v[dim]);
    }
  }

  lemma {:induction false} ColumnPools(data: seq<real>, mask: seq<int>, hidden: nat, n: nat, dim: nat, x: real)
    requires n <= |mask| && dim < hidden && Weight(mask, n) > 0.0
    requires forall t: nat :: t < n && mask[t] != 0 ==> HiddenAt(data, hidden, t, dim) == x
    ensures Pooled(data, mask, hidden, n)[dim] == x
  {
    SumOfEqual(data, mask, hidden, n, dim, x);
    DividedBack(x, Weight(mask, n));
  }

  lemma DividedBack(x: real, w: real)
    requires w > 0.0
    ensures x * w / w == x
  {
  }

  /** A text in which nothing counts pools to zero and is not divided. */
  lemma {:induction false} NothingCountedPoolsToZero(data: seq<real>, mask: seq<int>, hidden: nat, n: nat, dim: nat)
    requires n <= |mask| && dim < hidden && forall t :: 0 <= t < n ==> mask[t] == 0
    ensures Weight(mask, n) == 0.0 && Pooled(data, mask, hidden, n)[dim] == 0.0
  {
    if n > 0 {
      NothingCountedPoolsToZero(data, mask, hidden, n - 1, dim);
    }
  }

  /** One more counted token moves the mean of `n` counted ones towards its own hidden value by the usual rule. */
  lemma OneMoreTokenMovesMean(data: seq<real>, mask: seq<int>, hidden: nat, n: nat, dim: nat)
    requires n < |mask| && dim < hidden && mask[n] == 1 && forall t :: 0 <= t < n ==> mask[t] == 1
    requires 0 <= n * hidden + dim < |data|
    ensures var mean := if n == 0 then 0.0 else Pooled(data, mask, hidden, n)[dim];
      Pooled(data, mask, hidden, n + 1)[dim] == (n as real * mean + data[n * hidden + dim]) / (n + 1) as real
  {
    AllCounted(mask, n);
    AllCounted(mask, n + 1);
    var sum := PoolSum(data, mask, hidden, n, dim);
    assert n > 0 ==> n as real * (sum / n as real) == sum;
  }

  lemma {:induction false} AllCounted(mask: seq<int>, n: nat)
    requires n <= |mask| && forall t :: 0 <= t < n ==> mask[t] == 1
    ensures Weight(mask, n) == n as real
  {
    if n > 0 {
      AllCounted(mask, n - 1);
    }
  }

  // `b` is `a` with the tokens `i` and `j` exchanged, hidden states and masks alike.
  ghost predicate Exchanged(
      a: seq<real>, p: seq<int>, b: seq<real>, q: seq<int>, hidden: nat, n: nat, i: nat, j: nat)
  {
    && n <= |p| == |q| && i < j < n
    && q == p[i := p[j]][j := p[i]]
    && (forall t: nat, dim: nat :: t < n && dim < hidden ==>
          HiddenAt(b, hidden, t, dim) == HiddenAt(a, hidden, if t == i then j else if t == j then i else t, dim))
  }

  // The sums without the tokens `i` and `j`.
  ghost function SumWithout(data: seq<real>, mask: seq<int>, hidden: nat, n: nat, dim: nat, i: nat, j: nat): real
    requires n <= |mask|
  {
    if n == 0 then 0.0
    else SumWithout(data, mask, hidden, n - 1, dim, i, j)
         + (if n - 1 == i || n - 1 == j then 0.0 else HiddenAt(data, hidden, n - 1, dim) * mask[n - 1] as real)
  }

  ghost function WeightWithout(mask: seq<int>, n: nat, i: nat, j: nat): real
    requires n <= |mask|
  {
    if n == 0 then 0.0
    else WeightWithout(mask, n - 1, i, j) + (if n - 1 == i || n - 1 == j then 0.0 else mask[n - 1] as real)
  }

  lemma {:induction false} TakeTwoOut(data: seq<real>, mask: seq<int>, hidden: nat, n: nat, dim: nat, i: nat, j: nat)
    requires n <= |mask| && i < j < |mask|
    ensures PoolSum(data, mask, hidden, n, dim) == SumWithout(data, mask, hidden, n, dim, i, j)
      + (if i < n then HiddenAt(data, hidden, i, dim) * mask[i] as real else 0.0)
      + (if j < n then HiddenAt(data, hidden, j, dim) * mask[j] as real else 0.0)
  {
    if n > 0 {
      TakeTwoOut(data, mask, hidden, n - 1, dim, i, j);
    }
  }

  lemma {:induction false} TakeTwoWeightsOut(mask: seq<int>, n: nat, i: nat, j: nat)
    requires n <= |mask| && i < j < |mask|
    ensures Weight(mask, n) == WeightWithout(mask, n, i, j)
      + (if i < n then mask[i] as real else 0.0) + (if j < n then mask[j] as real else 0.0)
  {
    if n > 0 {
      TakeTwoWeightsOut(mask, n - 1, i, j);
    }
  }

  lemma {:induction false} RestIsSame(
      a: seq<real>, p: seq<int>, b: seq<real>, q: seq<int>, hidden: nat, n: nat, m: nat, dim: nat, i: nat, j: nat)
    requires Exchanged(a, p, b, q, hidden, n, i, j) && m <= n && dim < hidden
    ensures SumWithout(a, p, hidden, m, dim, i, j) == SumWithout(b, q, hidden, m, dim, i, j)
    ensures WeightWithout(p, m, i, j) == WeightWithout(q, m, i, j)
  {
    if m > 0 {
      RestIsSame(a, p, b, q, hidden, n, m - 1, dim, i, j);
    }
  }

  lemma ExchangedTerms(
      a: seq<real>, p: seq<int>, b: seq<real>, q: seq<int>, hidden: nat, n: nat, i: nat, j: nat, dim: nat)
    requires Exchanged(a, p, b, q, hidden, n, i, j) && dim < hidden
    ensures HiddenAt(b, hidden, i, dim) * q[i] as real == HiddenAt(a, hidden, j, dim) * p[j] as real
    ensures HiddenAt(b, hidden, j, dim) * q[j] as real == HiddenAt(a, hidden, i, dim) * p[i] as real
    ensures q[i] == p[j] && q[j] == p[i]
  {
  }

  lemma ExchangedSums(
      a: seq<real>, p: seq<int>, b: seq<real>, q: seq<int>, hidden: nat, n: nat, i: nat, j: nat, dim: nat)
    requires Exchanged(a, p, b, q, hidden, n, i, j) && dim < hidden
    ensures PoolSum(a, p, hidden, n, dim) == PoolSum(b, q, hidden, n, dim)
    ensures Weight(p, n) == Weight(q, n)
  {
    var rest, x, y := SumWithout(a, p, hidden, n, dim, i, j),
      HiddenAt(a, hidden, i, dim) * p[i] as real, HiddenAt(a, hidden, j, dim) * p[j] as real;
    assert PoolSum(a, p, hidden, n, dim) == rest + x + y
        && Weight(p, n) == WeightWithout(p, n, i, j) + p[i] as real + p[j] as real by {
      TakeTwoOut(a, p, hidden, n, dim, i, j);
      TakeTwoWeightsOut(p, n, i, j);
    }
    RestIsSame(a, p, b, q, hidden, n, n, dim, i, j);
    ExchangedTerms(a, p, b, q, hidden, n, i, j, dim);
    assert PoolSum(b, q, hidden, n, dim) == rest + y + x
        && Weight(q, n) == WeightWithout(q, n, i, j) + q[i] as real + q[j] as real by {
      TakeTwoOut(b, q, hidden, n, dim, i, j);
      TakeTwoWeightsOut(q, n, i, j);
    }
  }

  /** The order of the tokens does not matter. */
  lemma TokenOrderIsIrrelevant(
      a: seq<real>, p: seq<int>, b: seq<real>, q: seq<int>, hidden: nat, n: nat, i: nat, j: nat)
    requires Exchanged(a, p, b, q, hidden, n, i, j)
    ensures Pooled(a, p, hidden, n) == Pooled(b, q, hidden, n)
  {
    forall dim | 0 <= dim < hidden
      ensures PoolSum(a, p, hidden, n, dim) == PoolSum(b, q, hidden, n, dim)
      ensures Weight(p, n) == Weight(q, n)
    {
      ExchangedSums(a, p, b, q, hidden, n, i, j, dim);
    }
  }

  /** `mean_pool`, accumulating in place. */
  method MeanPool(data: seq<real>, mask: seq<int>, seqLen: nat, hidden: nat) returns (pooled: array<real>)
    requires Min(|mask|, seqLen) * hidden <= |data|
    ensures fresh(pooled) && pooled[..] == Pooled(data, mask, hidden, Min(|mask|, seqLen))
    ensures SomeCount(mask, Min(|mask|, seqLen)) ==>
      forall v :: AllHidden(data, mask, hidden, Min(|mask|, seqLen), v) ==> pooled[..] == v
  {
    var n := Min(|mask|, seqLen);
    pooled := new real[hidden](_ => 0.0);
    var total := 0.0;
    var t := 0;
    while t < n
      invariant 0 <= t <= n && t * hidden <= n * hidden && fresh(pooled) && pooled.Length == hidden
      invariant total == Weight(mask, t)
      invariant forall dim :: 0 <= dim < hidden ==> pooled[dim] == PoolSum(data, mask, hidden, t, dim)
    {
      RowFits(t, n, hidden);
      var weight := mask[t] as real;
      total := total + weight;
      AddToken(pooled, data, mask, hidden, t);
      t := t + 1;
    }
    if total > 0.0 {
      var d := 0;
      while d < hidden
        invariant 0 <= d <= hidden && pooled.Length == hidden
        invariant forall dim :: 0 <= dim < d ==> pooled[dim] == PoolSum(data, mask, hidden, n, dim) / total
        invariant forall dim :: d <= dim < hidden ==> pooled[dim] == PoolSum(data, mask, hidden, n, dim)
      {
        pooled[d] := pooled[d] / total;
        d := d + 1;
      }
    }
    assert forall dim :: 0 <= dim < hidden ==> pooled[..][dim] == Pooled(data, mask, hidden, n)[dim];
    forall v | AllHidden(data, mask, hidden, n, v) && SomeCount(mask, n)
      ensures pooled[..] == v
    {
      EqualTokensPoolToThemselves(data, mask, hidden, n, v);
    }
  }

  method AddToken(pooled: array<real>, data: seq<real>, mask: seq<int>, hidden: nat, t: nat)
    requires pooled.Length == hidden && t < |mask| && (t + 1) * hidden <= |data|
    requires forall dim :: 0 <= dim < hidden ==> pooled[dim] == PoolSum(data, mask, hidden, t, dim)
    modifies pooled
    ensures forall dim :: 0 <= dim < hidden ==> pooled[dim] == PoolSum(data, mask, hidden, t + 1, dim)
  {
    var offset := t * hidden;
    NextRow(t, hidden);
    var d := 0;
    while d < hidden
      invariant 0 <= d <= hidden
      invariant forall dim :: 0 <= dim < d ==> pooled[dim] == PoolSum(data, mask, hidden, t + 1, dim)
      invariant forall dim :: d <= dim < hidden ==> pooled[dim] == PoolSum(data, mask, hidden, t, dim)
    {
      pooled[d] := pooled[d] + data[offset + d] * mask[t] as real;
      d := d + 1;
    }
  }

  // ----- batch against single -----

  // Two buffers agree wherever a token counts.
  ghost predicate SameHidden(a: seq<real>, b: seq<real>, mask: seq<int>, hidden: nat) {
    forall t: nat, dim: nat :: t < |mask| && dim < hidden && mask[t] != 0 ==>
      HiddenAt(a, hidden, t, dim) == HiddenAt(b, hidden, t, dim)
  }

  lemma {:induction false} SumsAgree(
      a: seq<real>, b: seq<real>, padded: seq<int>, alone: seq<int>, hidden: nat, n: nat, m: nat, dim: nat)
    requires n <= m <= |padded| && n <= |alone| && dim < hidden
    requires forall t :: 0 <= t < n ==> padded[t] == alone[t]
    requires forall t :: n <= t < m ==> padded[t] == 0
    requires SameHidden(a, b, alone, hidden)
    ensures PoolSum(a, padded, hidden, m, dim) == PoolSum(b, alone, hidden, n, dim)
    ensures Weight(padded, m) == Weight(alone, n)
    decreases m
  {
    if m > n {
      SumsAgree(a, b, padded, alone, hidden, n, m - 1, dim);
    } else if m > 0 {
      SumsAgree(a, b, padded, alone, hidden, n - 1, m - 1, dim);
    }
  }

  /** Padding is invisible: pooling a padded row gives what pooling the truncated text alone gives, as soon
      as the model computes the same hidden states for the tokens that count. */
  lemma PaddedRowPoolsLikeSingle(row: seq<real>, alone: seq<real>, tokens: seq<int>, hidden: nat, width: nat)
    requires SameHidden(row, alone, tokens[..Min(|tokens|, width)], hidden)
    ensures Pooled(row, Row(tokens, width), hidden, width)
         == Pooled(alone, tokens[..Min(|tokens|, width)], hidden, Min(|tokens|, width))
  {
    var n := Min(|tokens|, width);
    var mask, cut := Row(tokens, width), tokens[..n];
    forall dim | 0 <= dim < hidden
      ensures PoolSum(row, mask, hidden, width, dim) == PoolSum(alone, cut, hidden, n, dim)
      ensures Weight(mask, width) == Weight(cut, n)
    {
      SumsAgree(row, alone, mask, cut, hidden, n, width, dim);
    }
  }

  function ClsPool(data: seq<real>, hidden: nat): seq<real> {
    data[..Min(hidden, |data|)]
  }

  /** First-token pooling agrees as well, except for a text without a single token, which alone has no
      first token to return. */
  lemma ClsPoolAgreesIffNonEmpty(row: seq<real>, alone: seq<real>, hidden: nat, width: nat, n: nat)
    requires 0 < hidden && 1 <= width && n <= width
    requires |row| == width * hidden && |alone| == n * hidden
    requires n > 0 ==> forall k: nat :: k < hidden ==> HiddenAt(row, hidden, 0, k) == HiddenAt(alone, hidden, 0, k)
    ensures ClsPool(row, hidden) == ClsPool(alone, hidden) <==> n > 0
  {
    RowFits(0, width, hidden);
    if n > 0 {
      RowFits(0, n, hidden);
      forall k: nat | k < hidden
        ensures row[k] == alone[k]
      {
        assert HiddenAt(row, hidden, 0, k) == HiddenAt(alone, hidden, 0, k);
      }
      assert row[..hidden] == alone[..hidden];
    }
  }

  /** The pooling loop over a batch: with the same hidden states where tokens count, every text gets the
      vector it would get on its own. `data` is the model's flat output; `singles` are the outputs for
      the texts alone. */
  method PoolBatch(encs: seq<Encoding>, mask: array<int>, maxLen: nat, data: seq<real>, hidden: nat,
                   ghost singles: seq<seq<real>>)
      returns (out: seq<seq<real>>)
    requires forall i :: 0 <= i < |encs| ==> Min(|encs[i].mask|, maxLen) == Min(|encs[i].mask|, 512)
    requires mask[..] == Rows(TokensOf(encs, MaskOf), maxLen)
    requires |data| == |encs| * (maxLen * hidden) && |singles| == |encs|
    requires forall i :: 0 <= i < |encs| ==> AgreesWithSingle(encs[i], data, singles[i], i, |encs|, maxLen, hidden)
    ensures |out| == |encs|
    ensures forall i :: 0 <= i < |encs| ==> out[i] == PooledAlone(encs[i], singles[i], hidden)
  {
    out := [];
    var i := 0;
    while i < |encs|
      invariant 0 <= i <= |encs| == |singles| && |out| == i
      invariant forall k :: 0 <= k < i ==> out[k] == PooledAlone(encs[k], singles[k], hidden)
    {
      var pooled := PoolRow(encs, mask, maxLen, data, hidden, i, singles[i]);
      out := out + [pooled];
      i := i + 1;
    }
  }

  method PoolRow(encs: seq<Encoding>, mask: array<int>, maxLen: nat, data: seq<real>, hidden: nat,
                 i: nat, ghost single: seq<real>)
      returns (out: seq<real>)
    requires i < |encs| && Min(|encs[i].mask|, maxLen) == Min(|encs[i].mask|, 512)
    requires mask[..] == Rows(TokensOf(encs, MaskOf), maxLen)
    requires |data| == |encs| * (maxLen * hidden)
    requires AgreesWithSingle(encs[i], data, single, i, |encs|, maxLen, hidden)
    ensures out == PooledAlone(encs[i], single, hidden)
  {
    RowFits(i, |encs|, maxLen * hidden);
    RowOfRows(TokensOf(encs, MaskOf), maxLen, i);
    var row := data[i * (maxLen * hidden)..(i + 1) * (maxLen * hidden)];
    var rowMask := mask[i * maxLen..(i + 1) * maxLen];
    assert rowMask == mask[..][i * maxLen..(i + 1) * maxLen];
    var pooled := MeanPool(row, rowMask, maxLen, hidden);
    PaddedRowPoolsLikeSingle(row, single, encs[i].mask, hidden, maxLen);
    out := pooled[..];
  }

  function Cut(e: Encoding): nat {
    Min(|e.mask|, MAX_SEQ_LEN)
  }

  // What `embed` pools for the text alone: truncated to the model's maximum, no padding.
  function PooledAlone(e: Encoding, single: seq<real>, hidden: nat): seq<real> {
    Pooled(single, e.mask[..Cut(e)], hidden, Cut(e))
  }

  ghost predicate AgreesWithSingle(
      e: Encoding, data: seq<real>, single: seq<real>, i: nat, n: nat, maxLen: nat, hidden: nat)
    requires i < n && |data| == n * (maxLen * hidden)
  {
    RowFits(i, n, maxLen * hidden);
    var row := data[i * (maxLen * hidden)..(i + 1) * (maxLen * hidden)];
    && |single| == Cut(e) * hidden
    && SameHidden(row, single, e.mask[..Cut(e)], hidden)
  }
}
