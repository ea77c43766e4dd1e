/** INT8 quantization and tensor packing (crates/kavach-core/src/tensor.rs) and the
    three CPU head scorers against the reference graph they stand in for
    (crates/kavach-core/src/npu_backend.rs), in exact arithmetic. */
module Quantization {
  import opened MachineInts
  import opened Statistics

  type I8 = x: int | -128 <= x <= 127

  datatype Params = Params(scale: real, zeroPoint: I8)

  const DEFAULT_PARAMS := Params(1.0 / 127.0, 0)

  /** `f32::round`: to the nearest integer, halves away from zero. */
  function Round(x: real): int {
    if x >= 0.0 then (x + 0.5).Floor else -((0.5 - x).Floor)
  }

  function ClampI8(x: int): I8 {
    if x < -128 then -128 else if x > 127 then 127 else x
  }

  /** Dividing by a zero scale gives an infinity, which clamps to the end of its
      side, or for v = 0 a NaN, which casts to 0. */
  function Quantize(v: real, p: Params): I8 {
    if p.scale == 0.0 then
      if v > 0.0 then 127 else if v < 0.0 then -128 else 0
    else
      ClampI8(Round(v / p.scale) + p.zeroPoint)
  }

  function Dequantize(q: I8, p: Params): real {
    (q as int - p.zeroPoint as int) as real * p.scale
  }

  // ----- Quantization error -----

  lemma RoundNearest(x: real)
    ensures -0.5 <= Round(x) as real - x <= 0.5
  {
  }

  /** Halves go away from zero. */
  lemma RoundExactly(x: real)
    ensures x >= 0.0 ==> -0.5 < Round(x) as real - x <= 0.5
    ensures x < 0.0 ==> -0.5 <= Round(x) as real - x < 0.5
  {
  }

  lemma RoundOfInteger(n: int)
    ensures Round(n as real) == n
  {
  }

  lemma QuotientOfProduct(x: real, k: real)
    requires k != 0.0
    ensures x * k / k == x
  {
    var d := x * k / k - x;
    Quotient(x * k, k);
    assert k * d == 0.0;
    if d != 0.0 {
      NonZeroProduct(k, d);
    }
  }

  lemma NonZeroProduct(x: real, y: real)
    requires x != 0.0 && y != 0.0
    ensures x * y != 0.0
  {
  }

  /** An INT8 value survives dequantizing and quantizing again at every scale but
      zero, where only the code 0 does. */
  lemma QuantizeOfDequantize(q: I8, p: Params)
    ensures Quantize(Dequantize(q, p), p) == q <==> p.scale != 0.0 || q == 0
  {
    if p.scale != 0.0 {
      QuantizeOfProduct(q as int - p.zeroPoint as int, p, Dequantize(q, p));
    } else {
      ZeroScale(q, p);
    }
  }

  lemma QuantizeOfProduct(n: int, p: Params, v: real)
    requires p.scale != 0.0 && v == n as real * p.scale
    ensures Quantize(v, p) == ClampI8(n + p.zeroPoint)
  {
    assert v / p.scale == n as real by { QuotientOfProduct(n as real, p.scale); }
    RoundOfInteger(n);
  }

  lemma ZeroScale(q: I8, p: Params)
    requires p.scale == 0.0
    ensures Dequantize(q, p) == 0.0
  {
  }

  /** At any scale but zero a value whose code is not clamped comes back within half
      a step, and a clamped one is at the end of the range; at scale zero every
      value comes back as zero. */
  lemma DequantizeOfQuantize(v: real, p: Params)
    ensures if p.scale == 0.0 then
              && Dequantize(Quantize(v, p), p) == 0.0
              && Quantize(v, p) == if v > 0.0 then 127 else if v < 0.0 then -128 else 0
            else
              var code := Round(v / p.scale) + p.zeroPoint;
              if -128 <= code <= 127
              then Quantize(v, p) == code && AbsReal(Dequantize(Quantize(v, p), p) - v) <= AbsReal(p.scale) / 2.0
              else Quantize(v, p) == if code < 0 then -128 else 127
  {
    if p.scale != 0.0 {
      var n := Round(v / p.scale);
      if -128 <= n + p.zeroPoint <= 127 {
        UnclampedError(v, p, n, n + p.zeroPoint);
      }
    }
  }

  lemma UnclampedError(v: real, p: Params, n: int, code: I8)
    requires p.scale != 0.0 && n == Round(v / p.scale) && code == n + p.zeroPoint
    ensures AbsReal(Dequantize(code, p) - v) <= AbsReal(p.scale) / 2.0
  {
    RoundedQuotient(v, p.scale, n);
    assert code - p.zeroPoint == n;
  }

  lemma RoundedQuotient(v: real, k: real, n: int)
    requires k != 0.0 && n == Round(v / k)
    ensures AbsReal(n as real * k - v) <= AbsReal(k) / 2.0
  {
    var x := v / k;
    RoundNearest(x);
    DivisionError(v, k, x, n as real);
  }

  lemma DivisionError(v: real, k: real, x: real, n: real)
    requires k != 0.0 && x == v / k && -0.5 <= n - x <= 0.5
    ensures AbsReal(n * k - v) <= AbsReal(k) / 2.0
  {
    Quotient(v, k);
    Distribute(k, n, -x);
    HalfStep(k, n - x, n * k - v);
  }

  lemma HalfStep(k: real, d: real, p: real)
    requires p == k * d && -0.5 <= d <= 0.5
    ensures AbsReal(p) <= AbsReal(k) / 2.0
  {
    if k >= 0.0 {
      MulMonotone(k, d, 0.5);
      MulMonotone(k, -0.5, d);
    } else {
      MulMonotone(-k, d, 0.5);
      MulMonotone(-k, -0.5, d);
    }
  }

  /** Under the default parameters nothing in [-1, 1] is clamped, and the code over
      127 is within 1/254 of the value. */
  lemma DefaultError(v: real)
    requires -1.0 <= v <= 1.0
    ensures var q := Quantize(v, DEFAULT_PARAMS) as real / 127.0;
            -1.0 / 254.0 <= q - v <= 1.0 / 254.0
  {
    assert v / (1.0 / 127.0) == v * 127.0;
    RoundNearest(v * 127.0);
    assert -127 <= Round(v * 127.0) <= 127;
  }

  // ----- Packing -----

  method FromF32Matrix(matrix: seq<seq<real>>, p: Params) returns (data: array2<I8>)
    requires forall i :: 0 <= i < |matrix| ==> |matrix[i]| == 4
    ensures fresh(data) && data.Length0 == |matrix| && data.Length1 == 4
    ensures forall i, j :: 0 <= i < |matrix| && 0 <= j < 4 ==> data[i, j] == Quantize(matrix[i][j], p)
  {
    data := new I8[|matrix|, 4]((_, _) => 0);
    for i := 0 to |matrix|
      invariant forall a, j :: 0 <= a < i && 0 <= j < 4 ==> data[a, j] == Quantize(matrix[a][j], p)
    {
      for j := 0 to 4
        invariant forall a, b :: 0 <= a < i && 0 <= b < 4 ==> data[a, b] == Quantize(matrix[a][b], p)
        invariant forall b :: 0 <= b < j ==> data[i, b] == Quantize(matrix[i][b], p)
      {
        data[i, j] := Quantize(matrix[i][j], p);
      }
    }
  }

  /** `val as u8` and back */
  function ToByte(v: I8): U8 { if v < 0 then v as int + 256 else v as int }
  function FromByte(b: U8): I8 { if b >= 128 then b as int - 256 else b as int }

  /** Row after row, one byte a value, from which every value is recovered. */
  method AsBytes(data: array2<I8>) returns (buf: array<U8>)
    requires data.Length1 == 4
    ensures fresh(buf) && buf.Length == 4 * data.Length0
    ensures forall i, j :: 0 <= i < data.Length0 && 0 <= j < 4 ==>
              && buf[4 * i + j] == (if data[i, j] < 0 then data[i, j] as int + 256 else data[i, j] as int)
              && FromByte(buf[4 * i + j]) == data[i, j]
  {
    buf := new U8[4 * data.Length0](_ => 0);
    var idx := 0;
    for i := 0 to data.Length0
      invariant idx == 4 * i
      invariant forall a, b :: 0 <= a < i && 0 <= b < 4 ==> buf[4 * a + b] == ToByte(data[a, b])
    {
      for j := 0 to 4
        invariant idx == 4 * i + j
        invariant forall a, b :: 0 <= a < i && 0 <= b < 4 ==> buf[4 * a + b] == ToByte(data[a, b])
        invariant forall b :: 0 <= b < j ==> buf[4 * i + b] == ToByte(data[i, b])
      {
        buf[idx] := ToByte(data[i, j]);
        idx := idx + 1;
      }
    }
  }

  // ----- The reference graph -----

  type Row = r: seq<int> | |r| == 4 && forall j :: 0 <= j < 4 ==> -128 <= r[j] <= 127
    witness [0, 0, 0, 0]

  datatype Weights = Weights(w0: real, w1: real, w2: real, w3: real)

  const IO_WEIGHTS := Weights(0.7, 0.0, 0.0, 0.3)
  const FIRST_FEATURE := Weights(1.0, 0.0, 0.0, 0.0)

  function Dot(x0: real, x1: real, x2: real, x3: real, w: Weights): real {
    x0 * w.w0 + x1 * w.w1 + x2 * w.w2 + x3 * w.w3
  }

  function RowDot(r: Row, w: Weights): real {
    Dot(r[0] as real, r[1] as real, r[2] as real, r[3] as real, w)
  }

  /** Cast to float and multiply by the [4, 1] weights. */
  function MatMul(t: seq<Row>, w: Weights): (r: seq<real>)
    ensures |r| == |t|
  {
    if t == [] then [] else MatMul(t[..|t| - 1], w) + [RowDot(t[|t| - 1], w)]
  }

  /** The graph's ReduceMean, then the division by 127 and the clamp of the session code. */
  function GraphScore(t: seq<Row>, w: Weights): real
    requires t != []
  {
    Clamp01(Mean(MatMul(t, w)) / 127.0)
  }

  /** One feature added over the rows. */
  function ColumnSum(t: seq<Row>, j: nat): int
    requires j < 4
  {
    if t == [] then 0 else ColumnSum(t[..|t| - 1], j) + t[|t| - 1][j]
  }

  ghost predicate ClampedTo(score: real, x: real) {
    score == if x <= 0.0 then 0.0 else if x >= 1.0 then 1.0 else x
  }

  lemma {:induction false} SumOfIoColumns(t: seq<Row>)
    ensures Sum(MatMul(t, IO_WEIGHTS)) == 0.7 * ColumnSum(t, 0) as real + 0.3 * ColumnSum(t, 3) as real
  {
    if t != [] {
      SumOfIoColumns(t[..|t| - 1]);
    }
  }

  lemma {:induction false} SumOfFirstColumn(t: seq<Row>)
    ensures Sum(MatMul(t, FIRST_FEATURE)) == ColumnSum(t, 0) as real
  {
    if t != [] {
      SumOfFirstColumn(t[..|t| - 1]);
    }
  }

  class NpuEngine {
    var activeInferences: nat

    constructor ()
      ensures activeInferences == 0
    {
      activeInferences := 0;
    }

    method RunIoInference(t: seq<Row>) returns (score: real)
      requires |t| == 10
      modifies this
      ensures score == GraphScore(t, IO_WEIGHTS)
      ensures ClampedTo(score, (7 * ColumnSum(t, 0) + 3 * ColumnSum(t, 3)) as real / 12700.0)
      ensures activeInferences == old(activeInferences) + 1
    {
      activeInferences := activeInferences + 1;
      var total := WeightedTotal(t);
      score := Clamp01(total / 10.0);
      MeanOfTotal(t, IO_WEIGHTS, total, 10.0);
      SumOfIoColumns(t);
    }

    method WeightedTotal(t: seq<Row>) returns (total: real)
      ensures total == Sum(MatMul(t, IO_WEIGHTS)) / 127.0
    {
      total := 0.0;
      for i := 0 to |t|
        invariant total == Sum(MatMul(t[..i], IO_WEIGHTS)) / 127.0
      {
        assert t[..i + 1][..i] == t[..i];
        var entropyNorm := t[i][0] as real / 127.0;
        var intermittent := t[i][3] as real / 127.0;
        total := total + (entropyNorm * 0.7 + intermittent * 0.3);
        SumPush(t[..i], t[i], IO_WEIGHTS);
      }
      assert t[..|t|] == t;
    }

    method FirstFeatureTotal(t: seq<Row>) returns (total: real)
      ensures total == Sum(MatMul(t, FIRST_FEATURE)) / 127.0
    {
      total := 0.0;
      for i := 0 to |t|
        invariant total == Sum(MatMul(t[..i], FIRST_FEATURE)) / 127.0
      {
        assert t[..i + 1][..i] == t[..i];
        total := total + t[i][0] as real / 127.0;
        SumPush(t[..i], t[i], FIRST_FEATURE);
      }
      assert t[..|t|] == t;
    }

    method RunNetInference(t: seq<Row>) returns (score: real)
      requires |t| == 32
      modifies this
      ensures score == GraphScore(t, FIRST_FEATURE)
      ensures ClampedTo(score, ColumnSum(t, 0) as real / 4064.0)
      ensures activeInferences == old(activeInferences) + 1
    {
      activeInferences := activeInferences + 1;
      var total := FirstFeatureTotal(t);
      score := Clamp01(total / 32.0);
      MeanOfTotal(t, FIRST_FEATURE, total, 32.0);
      SumOfFirstColumn(t);
    }

    method RunAuditInference(t: seq<Row>) returns (score: real)
      requires |t| == 16
      modifies this
      ensures score == GraphScore(t, FIRST_FEATURE)
      ensures ClampedTo(score, ColumnSum(t, 0) as real / 2032.0)
      ensures activeInferences == old(activeInferences) + 1
    {
      activeInferences := activeInferences + 1;
      var total := FirstFeatureTotal(t);
      score := Clamp01(total / 16.0);
      MeanOfTotal(t, FIRST_FEATURE, total, 16.0);
      SumOfFirstColumn(t);
    }
  }

  lemma {:induction false} SumPush(t: seq<Row>, r: Row, w: Weights)
    ensures Sum(MatMul(t + [r], w)) == Sum(MatMul(t, w)) + RowDot(r, w)
  {
    assert (t + [r])[..|t|] == t;
    assert MatMul(t + [r], w)[..|t|] == MatMul(t, w);
  }

  lemma EqualProducts(k: real, x: real, y: real)
    requires k != 0.0 && k * x == k * y
    ensures x == y
  {
    if x != y {
      NonZeroProduct(k, x - y);
      Distribute(k, x, -y);
    }
  }

  lemma QuotientOfScaled(s: real, n: real, total: real)
    requires n != 0.0 && total == s / 127.0
    ensures total / n == s / n / 127.0
  {
    Quotient(s, n);
    Quotient(total, n);
    assert n * (s / n / 127.0) == total;
    EqualProducts(n, total / n, s / n / 127.0);
  }

  /** Summing scaled rows and dividing by their number is dividing the mean. */
  lemma {:induction false} MeanOfTotal(t: seq<Row>, w: Weights, total: real, n: real)
    requires t != [] && n == |t| as real && total == Sum(MatMul(t, w)) / 127.0
    ensures total / n == Mean(MatMul(t, w)) / 127.0
  {
    QuotientOfScaled(Sum(MatMul(t, w)), n, total);
  }

  // ----- What quantization costs a score -----

  ghost predicate Normalized(m: seq<seq<real>>) {
    forall i :: 0 <= i < |m| ==> |m[i]| == 4 && forall j :: 0 <= j < 4 ==> -1.0 <= m[i][j] <= 1.0
  }

  function QuantizeRow(x: seq<real>): Row
    requires |x| == 4
  {
    [Quantize(x[0], DEFAULT_PARAMS) as int, Quantize(x[1], DEFAULT_PARAMS) as int,
     Quantize(x[2], DEFAULT_PARAMS) as int, Quantize(x[3], DEFAULT_PARAMS) as int]
  }

  function QuantizeRows(m: seq<seq<real>>): (t: seq<Row>)
    requires forall i :: 0 <= i < |m| ==> |m[i]| == 4
    ensures |t| == |m|
  {
    if m == [] then [] else QuantizeRows(m[..|m| - 1]) + [QuantizeRow(m[|m| - 1])]
  }

  function RealDots(m: seq<seq<real>>, w: Weights): (r: seq<real>)
    requires forall i :: 0 <= i < |m| ==> |m[i]| == 4
    ensures |r| == |m|
  {
    if m == [] then []
    else
      var x := m[|m| - 1];
      RealDots(m[..|m| - 1], w) + [Dot(x[0], x[1], x[2], x[3], w)]
  }

  /** The score of the features before quantization. */
  function RealScore(m: seq<seq<real>>, w: Weights): real
    requires m != [] && forall i :: 0 <= i < |m| ==> |m[i]| == 4
  {
    Clamp01(Mean(RealDots(m, w)))
  }

  predicate ConvexWeights(w: Weights) {
    w.w0 >= 0.0 && w.w1 >= 0.0 && w.w2 >= 0.0 && w.w3 >= 0.0 && w.w0 + w.w1 + w.w2 + w.w3 == 1.0
  }

  /** One weighted coordinate: y, z and b name the three products. */
  lemma WeightedError(q: real, x: real, w: real, e: real, y: real, z: real, b: real)
    requires w >= 0.0 && -e <= q / 127.0 - x <= e
    requires y == q * w && z == x * w && b == w * e
    ensures -b <= y / 127.0 - z <= b
  {
    var d := q / 127.0 - x;
    MulMonotone(w, d, e);
    MulMonotone(w, -e, d);
    Distribute(w, q / 127.0, -x);
  }

  lemma BoundsAddUp(w0: real, w1: real, w2: real, w3: real, e: real)
    requires w0 + w1 + w2 + w3 == 1.0
    ensures w0 * e + w1 * e + w2 * e + w3 * e == e
  {
    assert w0 * e + w1 * e + w2 * e + w3 * e == (w0 + w1 + w2 + w3) * e;
  }

  lemma ErrorsAddUp(y0: real, y1: real, y2: real, y3: real, z0: real, z1: real, z2: real, z3: real,
                    b0: real, b1: real, b2: real, b3: real, e: real)
    requires -b0 <= y0 / 127.0 - z0 <= b0 && -b1 <= y1 / 127.0 - z1 <= b1
    requires -b2 <= y2 / 127.0 - z2 <= b2 && -b3 <= y3 / 127.0 - z3 <= b3
    requires b0 + b1 + b2 + b3 == e
    ensures -e <= (y0 + y1 + y2 + y3) / 127.0 - (z0 + z1 + z2 + z3) <= e
  {
  }

  lemma DotError(q0: real, q1: real, q2: real, q3: real,
                 x0: real, x1: real, x2: real, x3: real, w: Weights, e: real)
    requires ConvexWeights(w)
    requires -e <= q0 / 127.0 - x0 <= e && -e <= q1 / 127.0 - x1 <= e
    requires -e <= q2 / 127.0 - x2 <= e && -e <= q3 / 127.0 - x3 <= e
    ensures -e <= Dot(q0, q1, q2, q3, w) / 127.0 - Dot(x0, x1, x2, x3, w) <= e
  {
    var y0, y1, y2, y3 := q0 * w.w0, q1 * w.w1, q2 * w.w2, q3 * w.w3;
    var z0, z1, z2, z3 := x0 * w.w0, x1 * w.w1, x2 * w.w2, x3 * w.w3;
    var b0, b1, b2, b3 := w.w0 * e, w.w1 * e, w.w2 * e, w.w3 * e;
    WeightedError(q0, x0, w.w0, e, y0, z0, b0);
    WeightedError(q1, x1, w.w1, e, y1, z1, b1);
    WeightedError(q2, x2, w.w2, e, y2, z2, b2);
    WeightedError(q3, x3, w.w3, e, y3, z3, b3);
    BoundsAddUp(w.w0, w.w1, w.w2, w.w3, e);
    ErrorsAddUp(y0, y1, y2, y3, z0, z1, z2, z3, b0, b1, b2, b3, e);
  }

  lemma {:induction false} RowError(x: seq<real>, w: Weights, e: real)
    requires |x| == 4 && (forall j :: 0 <= j < 4 ==> -1.0 <= x[j] <= 1.0) && ConvexWeights(w)
    requires e == 1.0 / 254.0
    ensures -e <= RowDot(QuantizeRow(x), w) / 127.0 - Dot(x[0], x[1], x[2], x[3], w) <= e
  {
    var r := QuantizeRow(x);
    DefaultError(x[0]);
    DefaultError(x[1]);
    DefaultError(x[2]);
    DefaultError(x[3]);
    DotError(r[0] as real, r[1] as real, r[2] as real, r[3] as real, x[0], x[1], x[2], x[3], w, e);
  }

  lemma {:induction false} SumError(m: seq<seq<real>>, w: Weights, e: real)
    requires Normalized(m) && ConvexWeights(w) && e == 1.0 / 254.0
    ensures -Times(|m|, e) <= Sum(MatMul(QuantizeRows(m), w)) / 127.0 - Sum(RealDots(m, w)) <= Times(|m|, e)
  {
    if m != [] {
      var p, x := m[..|m| - 1], m[|m| - 1];
      SumError(p, w, e);
      RowError(x, w, e);
      assert QuantizeRows(m)[..|p|] == QuantizeRows(p);
      assert MatMul(QuantizeRows(m), w)[..|p|] == MatMul(QuantizeRows(p), w);
      assert RealDots(m, w)[..|p|] == RealDots(p, w);
    }
  }

  lemma ClampLipschitz(a: real, b: real, e: real)
    requires -e <= a - b <= e
    ensures -e <= Clamp01(a) - Clamp01(b) <= e
  {
  }

  lemma MeanError(a: real, b: real, n: real, e: real, ma: real, mb: real)
    requires n > 0.0 && n * ma == a && n * mb == b && -(n * e) <= a - b <= n * e
    ensures -e <= ma - mb <= e
  {
    Distribute(n, ma, -mb);
    Cancel(n, ma - mb, e);
    Cancel(n, -e, ma - mb);
  }

  lemma {:induction false} MeanScaled(s: seq<real>)
    requires s != []
    ensures |s| as real * (Mean(s) / 127.0) == Sum(s) / 127.0
  {
    Quotient(Sum(s), |s| as real);
  }

  lemma {:induction false} MeansClose(x: seq<real>, y: seq<real>, e: real)
    requires |x| == |y| > 0
    requires -Times(|x|, e) <= Sum(x) / 127.0 - Sum(y) <= Times(|x|, e)
    ensures -e <= Mean(x) / 127.0 - Mean(y) <= e
  {
    var n := |x| as real;
    TimesIsProduct(|x|, e);
    MeanScaled(x);
    Quotient(Sum(y), n);
    MeanError(Sum(x) / 127.0, Sum(y), n, e, Mean(x) / 127.0, Mean(y));
  }

  /** Quantizing a matrix of normalized features moves the score of any convex
      head by at most 1/254, whatever its number of rows. */
  lemma {:induction false} QuantizedScoreError(m: seq<seq<real>>, w: Weights)
    requires m != [] && Normalized(m) && ConvexWeights(w)
    ensures var e := 1.0 / 254.0;
            -e <= GraphScore(QuantizeRows(m), w) - RealScore(m, w) <= e
  {
    SumError(m, w, 1.0 / 254.0);
    MeansClose(MatMul(QuantizeRows(m), w), RealDots(m, w), 1.0 / 254.0);
    ClampLipschitz(Mean(MatMul(QuantizeRows(m), w)) / 127.0, Mean(RealDots(m, w)), 1.0 / 254.0);
  }

  /** The bound is attained at every number of rows: half a step rounds away from zero. */
  lemma {:induction false} ScoreErrorAttained(n: nat)
    requires n > 0
    ensures var m := seq(n, _ => [1.0 / 254.0, 0.0, 0.0, 0.0]);
            Normalized(m) && GraphScore(QuantizeRows(m), FIRST_FEATURE) - RealScore(m, FIRST_FEATURE) == 1.0 / 254.0
  {
    var x := [1.0 / 254.0, 0.0, 0.0, 0.0];
    var m := seq(n, _ => x);
    RepeatedRows(m, x);
    MeanBounds(MatMul(QuantizeRows(m), FIRST_FEATURE), 1.0, 1.0);
    MeanBounds(RealDots(m, FIRST_FEATURE), 1.0 / 254.0, 1.0 / 254.0);
  }

  lemma {:induction false} RepeatedRows(m: seq<seq<real>>, x: seq<real>)
    requires x == [1.0 / 254.0, 0.0, 0.0, 0.0] && forall i :: 0 <= i < |m| ==> m[i] == x
    ensures Within(MatMul(QuantizeRows(m), FIRST_FEATURE), 1.0, 1.0)
    ensures Within(RealDots(m, FIRST_FEATURE), 1.0 / 254.0, 1.0 / 254.0)
  {
    if m != [] {
      var p := m[..|m| - 1];
      RepeatedRows(p, x);
      HalfRoundsUp();
      assert QuantizeRow(x) == [1, 0, 0, 0];
      assert QuantizeRows(m)[..|p|] == QuantizeRows(p);
    }
  }

  lemma HalfRoundsUp()
    ensures Quantize(1.0 / 254.0, DEFAULT_PARAMS) == 1 && Quantize(0.0, DEFAULT_PARAMS) == 0
  {
    assert 1.0 / 254.0 / (1.0 / 127.0) == 0.5;
    assert 0.0 / (1.0 / 127.0) == 0.0;
  }
}
