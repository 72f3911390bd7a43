/** Receptive-field arithmetic of a stack of convolution / pooling layers
    (`ReceptiveFieldCalculator`): for every layer, the feature-map size `n`, the jump `j`
    between adjacent features measured in input pixels, the receptive-field size `r` and
    the centre `start` of the first feature's receptive field. */
module ReceptiveField {
  import opened Outcomes

  /** One entry of an architecture table: `[kernel, stride, padding]`. */
  datatype Layer = Layer(kernel: int, stride: int, padding: int)

  /** The tuple `(name, n, j, r, start)` describing one layer's output. */
  datatype LayerInfo = LayerInfo(name: string, size: int, jump: int, field: int, start: real)

  /** A zero stride makes the size computation divide by zero. */
  datatype FieldError = ZeroStride(layer: string)

  /** `math.floor(a / b)` for integers, `b` non-zero: the quotient rounded towards minus
      infinity (the exact rational quotient; see `FloorDivIsFloor`). */
  function FloorDiv(a: int, b: int): (q: int)
    requires b != 0
    ensures b > 0 ==> q * b <= a < q * b + b
    ensures b < 0 ==> q * b >= a > q * b + b
  {
    if b > 0 then a / b
    else
      var q := (-a) / (-b);
      assert q * (-b) <= -a < q * (-b) - b;
      q
  }

  /** `FloorDiv` is the floor of the rational quotient. */
  lemma FloorDivIsFloor(a: int, b: int)
    requires b != 0
    ensures FloorDiv(a, b) as real <= a as real / b as real < FloorDiv(a, b) as real + 1.0
  {
    var q := FloorDiv(a, b);
    if b > 0 {
      RealBetween(q, a, b);
    } else {
      RealBetween(q, -a, -b);
      assert (-a) as real / (-b) as real == a as real / b as real;
    }
  }

  lemma RealBetween(q: int, a: int, b: int)
    requires b > 0 && q * b <= a < q * b + b
    ensures q as real <= a as real / b as real < q as real + 1.0
  {
    var x, br, qr := a as real / b as real, b as real, q as real;
    CastMul(q, b);
    CastMul(q + 1, b);
    assert x * br == a as real;
    ScaleDown(qr, x, br);
    assert (q + 1) * b == q * b + b;
    assert a as real < ((q + 1) * b) as real;
    ScaleDownStrict(x, qr + 1.0, br);
  }

  lemma CastMul(q: int, b: int)
    ensures (q * b) as real == q as real * b as real
  {
  }

  lemma ScaleDown(u: real, v: real, c: real)
    requires c > 0.0 && u * c <= v * c
    ensures u <= v
  {
  }

  lemma ScaleDownStrict(u: real, v: real, c: real)
    requires c > 0.0 && u * c < v * c
    ensures u < v
  {
  }

  /** `(p_left, p_right) = (math.floor(padding / 2), math.ceil(padding / 2))`: the
      padding split between the two sides, the odd pixel going to the right. */
  function SplitPadding(padding: int): (split: (int, int))
    ensures split.0 + split.1 == padding
    ensures split.1 - split.0 == padding % 2
  {
    (padding / 2, -((-padding) / 2))
  }

  /** The two halves are the floor and the ceiling of half the padding. */
  lemma SplitPaddingIsFloorCeil(padding: int)
    ensures var split := SplitPadding(padding);
      split.0 as real <= padding as real / 2.0 < split.0 as real + 1.0
      && split.1 as real - 1.0 < padding as real / 2.0 <= split.1 as real
  {
    var split := SplitPadding(padding);
    RealBetween(split.0, padding, 2);
    RealBetween(-split.1, -padding, 2);
  }

  /** Number of output features, `floor((n_in - k + 2 p) / s) + 1`: the number of whole
      strides that fit in the padded input, plus one. */
  function OutputSize(layer: Layer, nIn: int): (n: int)
    requires layer.stride != 0
    ensures var s, span := layer.stride, nIn - layer.kernel + 2 * layer.padding;
      (s > 0 ==> (n - 1) * s <= span < n * s) && (s < 0 ==> (n - 1) * s >= span > n * s)
  {
    FloorDiv(nIn - layer.kernel + 2 * layer.padding, layer.stride) + 1
  }

  /** Padding actually consumed by the output: `(n_out - 1) s - n_in + k`. */
  function UsedPadding(layer: Layer, nIn: int): int
    requires layer.stride != 0
  {
    (OutputSize(layer, nIn) - 1) * layer.stride - nIn + layer.kernel
  }

  /** `_calculate_layer_info`: the output of `layer` given the output of the layer before. */
  function LayerOutput(layer: Layer, input: LayerInfo, name: string): LayerInfo
    requires layer.stride != 0
  {
    var pLeft := SplitPadding(UsedPadding(layer, input.size)).0;
    LayerInfo(
      name,
      OutputSize(layer, input.size),
      input.jump * layer.stride,
      input.field + (layer.kernel - 1) * input.jump,
      input.start + ((layer.kernel - 1 - 2 * pLeft) * input.jump) as real / 2.0)
  }

  /** The start moves by `((k - 1) / 2 - p_left) j_in`: half the kernel, less the padding
      on the left, in input pixels. */
  lemma StartShift(layer: Layer, input: LayerInfo, name: string)
    requires layer.stride != 0
    ensures var pLeft := SplitPadding(UsedPadding(layer, input.size)).0;
      LayerOutput(layer, input, name).start
        == input.start + ((layer.kernel - 1) as real / 2.0 - pLeft as real) * input.jump as real
  {
    var pLeft := SplitPadding(UsedPadding(layer, input.size)).0;
    CastMul(layer.kernel - 1 - 2 * pLeft, input.jump);
  }

  // ---------------------------------------------------------------------------
  // One layer.

  /** With a positive stride the padding used lies in `(2 p - s, 2 p]`: never more than
      the layer's own padding on both sides, and negative once `s > 2 p` leaves input
      unread. */
  lemma UsedPaddingBounds(layer: Layer, nIn: int)
    requires layer.stride > 0
    ensures 2 * layer.padding - layer.stride < UsedPadding(layer, nIn) <= 2 * layer.padding
  {
  }

  /** A layer never shrinks the receptive field when its kernel is at least one pixel and
      the jump is not negative. */
  lemma FieldNeverShrinks(layer: Layer, input: LayerInfo, name: string)
    requires layer.stride != 0 && layer.kernel >= 1 && input.jump >= 0
    ensures LayerOutput(layer, input, name).field >= input.field
  {
    MulNonNegative(layer.kernel - 1, input.jump);
  }

  lemma MulNonNegative(a: int, b: int)
    requires a >= 0 && b >= 0
    ensures a * b >= 0
  {
  }

  /** A multiple of one half. */
  predicate IsHalfInteger(x: real)
  {
    (2.0 * x).Floor as real == 2.0 * x
  }

  /** Starting from a multiple of one half with an integer jump, every start stays a
      multiple of one half, including when the padding used is negative. */
  lemma StartStaysHalfInteger(layer: Layer, input: LayerInfo, name: string)
    requires layer.stride != 0 && IsHalfInteger(input.start)
    ensures IsHalfInteger(LayerOutput(layer, input, name).start)
  {
    var pLeft := SplitPadding(UsedPadding(layer, input.size)).0;
    var m := (2.0 * input.start).Floor;
    var delta := (layer.kernel - 1 - 2 * pLeft) * input.jump;
    var out := LayerOutput(layer, input, name);
    assert 2.0 * out.start == (m + delta) as real;
  }

  /** A stride-1 convolution padded by `p` on each side with a `2 p + 1` kernel keeps the
      size, jump and start, and widens the receptive field by `2 p` jumps. */
  lemma SamePaddedConvolution(layer: Layer, input: LayerInfo, name: string)
    requires layer.stride == 1 && layer.kernel == 2 * layer.padding + 1
    ensures var out := LayerOutput(layer, input, name);
      out.size == input.size && out.jump == input.jump
      && out.field == input.field + 2 * layer.padding * input.jump && out.start == input.start
  {
    assert UsedPadding(layer, input.size) == 2 * layer.padding;
  }

  /** A 2 x 2 pooling with stride 2 and no padding halves the size (rounding down), doubles
      the jump and widens the field by one jump. The start moves by half a jump on an even
      input; on an odd input the padding used is -1, split as -1 on the left, and the start
      moves by one and a half jumps. */
  lemma TwoByTwoPooling(layer: Layer, input: LayerInfo, name: string)
    requires layer == Layer(2, 2, 0)
    ensures var out := LayerOutput(layer, input, name);
      out.size == input.size / 2 && out.jump == 2 * input.jump
      && out.field == input.field + input.jump
      && UsedPadding(layer, input.size) == -(input.size % 2)
      && out.start == input.start + ((if input.size % 2 == 0 then 1 else 3) * input.jump) as real / 2.0
  {
    assert OutputSize(layer, input.size) == input.size / 2;
  }

  // ---------------------------------------------------------------------------
  // The fold over an architecture.

  /** The first row: the input image, one pixel per feature. */
  function InputLayer(inputImageSize: int): LayerInfo
  {
    LayerInfo("input_layer", inputImageSize, 1, 1, 0.5)
  }

  /** The rows `calculate` prints for an architecture, given in table order as
      `(name, layer)` pairs, or the layer whose zero stride stops it. */
  function Rows(architecture: seq<(string, Layer)>, inputImageSize: int): (res: Result<seq<LayerInfo>, FieldError>)
    ensures res.Ok? ==> |res.value| == |architecture| + 1 && res.value[0] == InputLayer(inputImageSize)
  {
    if |architecture| == 0 then Ok([InputLayer(inputImageSize)])
    else
      match Rows(architecture[..|architecture| - 1], inputImageSize)
      case Err(e) => Err(e)
      case Ok(rows) =>
        var (name, layer) := architecture[|architecture| - 1];
        if layer.stride == 0 then Err(ZeroStride(name))
        else Ok(rows + [LayerOutput(layer, rows[|rows| - 1], name)])
  }

  /** `calculate`: thread each layer's output into the next layer. */
  method Calculate(architecture: seq<(string, Layer)>, inputImageSize: int)
    returns (res: Result<seq<LayerInfo>, FieldError>)
    ensures res == Rows(architecture, inputImageSize)
  {
    var inputLayer := InputLayer(inputImageSize);
    var rows := [inputLayer];
    var k := 0;
    while k < |architecture|
      invariant 0 <= k <= |architecture|
      invariant Rows(architecture[..k], inputImageSize) == Ok(rows)
      invariant inputLayer == rows[|rows| - 1]
    {
      var (name, layer) := architecture[k];
      assert architecture[..k + 1][..k] == architecture[..k];
      if layer.stride == 0 {
        RowsErrorPersists(architecture, inputImageSize, k + 1);
        return Err(ZeroStride(name));
      }
      var currentLayer := LayerOutput(layer, inputLayer, name);
      rows := rows + [currentLayer];
      inputLayer := currentLayer;
      k := k + 1;
    }
    assert architecture[..k] == architecture;
    return Ok(rows);
  }

  /** Once a prefix of the architecture fails, the whole architecture fails the same way. */
  lemma {:induction false} RowsErrorPersists(architecture: seq<(string, Layer)>, inputImageSize: int, k: nat)
    requires k <= |architecture| && Rows(architecture[..k], inputImageSize).Err?
    ensures Rows(architecture, inputImageSize) == Rows(architecture[..k], inputImageSize)
    decreases |architecture|
  {
    if k < |architecture| {
      var n := |architecture| - 1;
      assert architecture[..n][..k] == architecture[..k];
      RowsErrorPersists(architecture[..n], inputImageSize, k);
    } else {
      assert architecture[..k] == architecture;
    }
  }

  /** Each row after the first is its layer's output computed from the row before it. */
  lemma {:induction false} RowsThreadLayers(architecture: seq<(string, Layer)>, inputImageSize: int)
    requires Rows(architecture, inputImageSize).Ok?
    ensures var rows := Rows(architecture, inputImageSize).value;
      forall i :: 0 <= i < |architecture| ==>
        architecture[i].1.stride != 0
        && rows[i + 1] == LayerOutput(architecture[i].1, rows[i], architecture[i].0)
    decreases |architecture|
  {
    if |architecture| > 0 {
      var n := |architecture| - 1;
      RowsThreadLayers(architecture[..n], inputImageSize);
      var prev, rows := Rows(architecture[..n], inputImageSize).value, Rows(architecture, inputImageSize).value;
      assert rows == prev + [LayerOutput(architecture[n].1, prev[n], architecture[n].0)];
      forall i | 0 <= i < n
        ensures architecture[i].1.stride != 0 && rows[i + 1] == LayerOutput(architecture[i].1, rows[i], architecture[i].0)
      {
        assert architecture[i] == architecture[..n][i];
      }
    }
  }

  /** Conversely, rows that start at the input layer and follow every layer's output in
      turn are the rows `calculate` computes. */
  lemma {:induction false} RowsFromThreadedLayers(architecture: seq<(string, Layer)>, inputImageSize: int, rows: seq<LayerInfo>)
    requires |rows| == |architecture| + 1 && rows[0] == InputLayer(inputImageSize)
    requires forall i :: 0 <= i < |architecture| ==>
      architecture[i].1.stride != 0 && rows[i + 1] == LayerOutput(architecture[i].1, rows[i], architecture[i].0)
    ensures Rows(architecture, inputImageSize) == Ok(rows)
    decreases |architecture|
  {
    if |architecture| > 0 {
      var n := |architecture| - 1;
      RowsFromThreadedLayers(architecture[..n], inputImageSize, rows[..n + 1]);
      assert rows[..n + 1] + [rows[n + 1]] == rows;
    } else {
      assert rows == [InputLayer(inputImageSize)];
    }
  }

  /** `calculate` fails exactly when some layer has stride 0, and names the first one. */
  lemma {:induction false} RowsFailAtFirstZeroStride(architecture: seq<(string, Layer)>, inputImageSize: int)
    ensures Rows(architecture, inputImageSize).Err? <==>
      exists i :: 0 <= i < |architecture| && architecture[i].1.stride == 0
    ensures Rows(architecture, inputImageSize).Err? ==>
      exists i :: 0 <= i < |architecture| && architecture[i].1.stride == 0
        && (forall h :: 0 <= h < i ==> architecture[h].1.stride != 0)
        && Rows(architecture, inputImageSize).error == ZeroStride(architecture[i].0)
    decreases |architecture|
  {
    if |architecture| > 0 {
      var n := |architecture| - 1;
      RowsFailAtFirstZeroStride(architecture[..n], inputImageSize);
      if Rows(architecture[..n], inputImageSize).Err? {
        var i :| 0 <= i < n && architecture[..n][i].1.stride == 0
          && (forall h :: 0 <= h < i ==> architecture[..n][h].1.stride != 0)
          && Rows(architecture[..n], inputImageSize).error == ZeroStride(architecture[..n][i].0);
        assert architecture[i] == architecture[..n][i];
      } else if architecture[n].1.stride == 0 {
        assert forall h :: 0 <= h < n ==> architecture[h].1.stride != 0 by {
          forall h | 0 <= h < n ensures architecture[h].1.stride != 0 {
            assert architecture[h] == architecture[..n][h];
          }
        }
      } else {
        forall i | 0 <= i < |architecture| ensures architecture[i].1.stride != 0 {
          if i < n {
            assert architecture[i] == architecture[..n][i];
          }
        }
      }
    }
  }

  /** Product of the strides of a run of layers. */
  function StrideProduct(architecture: seq<(string, Layer)>): int
  {
    if |architecture| == 0 then 1
    else StrideProduct(architecture[..|architecture| - 1]) * architecture[|architecture| - 1].1.stride
  }

  /** The jump after `i` layers is the product of their strides. */
  lemma {:induction false} JumpIsStrideProduct(architecture: seq<(string, Layer)>, inputImageSize: int)
    requires Rows(architecture, inputImageSize).Ok?
    ensures var rows := Rows(architecture, inputImageSize).value;
      forall i :: 0 <= i <= |architecture| ==> rows[i].jump == StrideProduct(architecture[..i])
    decreases |architecture|
  {
    if |architecture| > 0 {
      var n := |architecture| - 1;
      JumpIsStrideProduct(architecture[..n], inputImageSize);
      var rows := Rows(architecture, inputImageSize).value;
      forall i | 0 <= i <= |architecture|
        ensures rows[i].jump == StrideProduct(architecture[..i])
      {
        if i <= n {
          assert architecture[..n][..i] == architecture[..i];
        } else {
          assert architecture[..i] == architecture;
          assert architecture[..i][..n] == architecture[..n];
        }
      }
    }
  }

  /** With positive strides and kernels of at least one pixel, the jump stays positive and
      the receptive field grows (weakly) from layer to layer, starting at one pixel. */
  lemma {:induction false} FieldGrowsAlongRows(architecture: seq<(string, Layer)>, inputImageSize: int)
    requires forall i :: 0 <= i < |architecture| ==> architecture[i].1.stride >= 1 && architecture[i].1.kernel >= 1
    ensures Rows(architecture, inputImageSize).Ok?
    ensures var rows := Rows(architecture, inputImageSize).value;
      (forall i :: 0 <= i <= |architecture| ==> rows[i].jump >= 1 && rows[i].field >= 1)
      && (forall i :: 0 <= i < |architecture| ==> rows[i].field <= rows[i + 1].field)
    decreases |architecture|
  {
    if |architecture| > 0 {
      var n := |architecture| - 1;
      FieldGrowsAlongRows(architecture[..n], inputImageSize);
      var prev := Rows(architecture[..n], inputImageSize).value;
      var (name, layer) := architecture[n];
      MulNonNegative(layer.kernel - 1, prev[n].jump);
      MulNonNegative(prev[n].jump - 1, layer.stride - 1);
    }
  }

  /** Every start is a multiple of one half. */
  lemma {:induction false} StartsAreHalfIntegers(architecture: seq<(string, Layer)>, inputImageSize: int)
    requires Rows(architecture, inputImageSize).Ok?
    ensures var rows := Rows(architecture, inputImageSize).value;
      forall i :: 0 <= i <= |architecture| ==> IsHalfInteger(rows[i].start)
    decreases |architecture|
  {
    if |architecture| > 0 {
      var n := |architecture| - 1;
      StartsAreHalfIntegers(architecture[..n], inputImageSize);
      var prev := Rows(architecture[..n], inputImageSize).value;
      StartStaysHalfInteger(architecture[n].1, prev[n], architecture[n].0);
    } else {
      assert (2.0 * 0.5).Floor == 1;
    }
  }

  // ---------------------------------------------------------------------------
  // The object-detection network of the source, fed a 320-pixel image.

  /** Its first two layers: a 5 x 5 convolution padded by 2 keeps the 320-pixel map and
      widens the field to 5 pixels; the 2 x 2 pooling halves the map, doubles the jump
      and moves the first centre to pixel 1. */
  lemma ExampleFirstStage(net: seq<(string, Layer)>)
    requires net == [("conv1", Layer(5, 1, 2)), ("pool1", Layer(2, 2, 0))]
    ensures Rows(net, 320) == Ok([
      LayerInfo("input_layer", 320, 1, 1, 0.5),
      LayerInfo("conv1", 320, 1, 5, 0.5),
      LayerInfo("pool1", 160, 2, 6, 1.0)])
  {
    var rows := [InputLayer(320), LayerInfo("conv1", 320, 1, 5, 0.5), LayerInfo("pool1", 160, 2, 6, 1.0)];
    ExampleFirstConvolution(rows[0], rows[1]);
    ExampleFirstPooling(rows[1], rows[2]);
    RowsFromThreadedLayers(net, 320, rows);
  }

  lemma ExampleFirstConvolution(input: LayerInfo, conv1: LayerInfo)
    requires input == LayerInfo("input_layer", 320, 1, 1, 0.5)
    requires conv1 == LayerInfo("conv1", 320, 1, 5, 0.5)
    ensures LayerOutput(Layer(5, 1, 2), input, "conv1") == conv1
  {
    SamePaddedConvolution(Layer(5, 1, 2), input, "conv1");
  }

  lemma ExampleFirstPooling(conv1: LayerInfo, pool1: LayerInfo)
    requires conv1 == LayerInfo("conv1", 320, 1, 5, 0.5)
    requires pool1 == LayerInfo("pool1", 160, 2, 6, 1.0)
    ensures LayerOutput(Layer(2, 2, 0), conv1, "pool1") == pool1
  {
    assert LayerOutput(Layer(2, 2, 0), conv1, "pool1").start == 1.0;
  }

  /** Its last two layers, from the 5 x 5 map left by `pool6` (jump 64, field 400, start
      32): `conv7` keeps the map, and `pool7` meets an odd size (a padding of -1, see
      `TwoByTwoPooling`) and ends with a 2 x 2 map, jump 128, field 720 and start 128. */
  lemma ExampleLastConvolution(pool6: LayerInfo)
    requires pool6 == LayerInfo("pool6", 5, 64, 400, 32.0)
    ensures LayerOutput(Layer(5, 1, 2), pool6, "conv7") == LayerInfo("conv7", 5, 64, 656, 32.0)
  {
    SamePaddedConvolution(Layer(5, 1, 2), pool6, "conv7");
  }

  lemma ExampleLastPooling(conv7: LayerInfo)
    requires conv7 == LayerInfo("conv7", 5, 64, 656, 32.0)
    ensures LayerOutput(Layer(2, 2, 0), conv7, "pool7") == LayerInfo("pool7", 2, 128, 720, 128.0)
  {
    // The odd input leaves the pooling one pixel short: padding -1, so the start
    // moves by one and a half input pixels rather than half of one.
    assert LayerOutput(Layer(2, 2, 0), conv7, "pool7").start == 128.0;
  }
}
