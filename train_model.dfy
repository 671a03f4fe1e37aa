/**
 * The integer part of `train_model.py`: `export_weights_to_hex` from the
 * already rounded weights and biases on (two's-complement masking, fixed
 * width lowercase hex, the per-class column split and the file layouts),
 * and the sample filtering and relabelling of `preprocess_data`.
 */
module TrainModel {
  import opened Wrappers
  import opened Text
  import opened HexCodec
  import opened Grid
  import opened HexToImage

  /** The two CIFAR-10 classes trained on (3: cat, 5: dog). */
  const CLASS_A: int := 3
  const CLASS_B: int := 5

  /** A `//` comment line of the given text. */
  function CommentOf(text: string): string
  {
    "//" + text + "\n"
  }

  const KERNEL_HEADER: string := CommentOf(" 3x3 Convolution Kernel (8-bit signed hex)")
  const DENSE_W0_HEADER: string := CommentOf(" Dense Layer Weights for Class 0 (8-bit signed hex)")
  const DENSE_W1_HEADER: string := CommentOf(" Dense Layer Weights for Class 1 (8-bit signed hex)")
  const BIAS_HEADER: string := CommentOf(" Dense Layer Biases (16-bit signed hex)")
  const BIAS_C0_LABEL: string := CommentOf(" Class 0 Bias:")
  const BIAS_C1_LABEL: string := CommentOf(" Class 1 Bias:")

  /** The four files the export writes, in the order it writes them. */
  datatype OutFile = KernelHex | DenseWeightsC0Hex | DenseWeightsC1Hex | DenseBiasesHex

  /**
   * Why the export stops: the ValueError `np.max` raises on a zero-size
   * tensor, or the IndexError numpy raises when the dense weights have no
   * column 1 or the dense biases have no entry 0 or 1.
   */
  datatype ExportError =
    | EmptyKernel             // `np.max` over a zero-size kernel
    | EmptyDenseWeights       // `np.max` over zero-size dense weights
    | MissingWeightColumn1    // `dense_weights_int[:, 1]` on a one-column matrix
    | MissingBias(index: nat) // `dense_biases_int[index]` past the end

  /** One weight line: `format(w & 0xFF, '02x')` and a newline. */
  function WeightLine(w: int): string
  {
    Token8(w) + "\n"
  }

  /** One bias line: `format(b & 0xFFFF, '04x')` and a newline. */
  function BiasLine(b: int): string
  {
    Token16(b) + "\n"
  }

  /** lines is a header followed by one weight line per weight, in order. */
  predicate IsWeightFile(lines: seq<string>, header: string, weights: seq<int>)
  {
    && |lines| == 1 + |weights|
    && lines[0] == header
    && forall k | 0 <= k < |weights| :: lines[k + 1] == WeightLine(weights[k])
  }

  /** m is a 2-D array: every row is as long as the first. */
  predicate IsMatrix(m: seq<seq<int>>)
  {
    forall i | 0 <= i < |m| :: |m[i]| == |m[0]|
  }

  /** The number of columns of a matrix (zero for one with no rows). */
  function Width(m: seq<seq<int>>): nat
  {
    if m == [] then 0 else |m[0]|
  }

  /** Every row of m has a column c, so `m[:, c]` does not raise IndexError. */
  predicate HasColumn(m: seq<seq<int>>, c: nat)
  {
    forall i | 0 <= i < |m| :: c < |m[i]|
  }

  /** `m[:, c]`: column c, top to bottom. */
  function Column(m: seq<seq<int>>, c: nat): seq<int>
    requires HasColumn(m, c)
  {
    seq(|m|, i requires 0 <= i < |m| => m[i][c])
  }

  /** The bias file: a header, then a label comment and a 16-bit token per class. */
  function BiasFile(b0: int, b1: int): seq<string>
  {
    [BIAS_HEADER, BIAS_C0_LABEL, BiasLine(b0), BIAS_C1_LABEL, BiasLine(b1)]
  }

  /**
   * Where the export stops. `np.max(np.abs(...))` is taken of the kernel
   * and then of the dense weights, and raises on a zero-size one; then
   * `dense_biases_int[0]`, `dense_weights_int[:, 1]` and `dense_biases_int[1]`
   * are evaluated in this order and the first one out of range raises.
   * Column 0 exists whenever the dense weights are not zero-size.
   */
  function ExportFailure(kernel: seq<seq<int>>, dense: seq<seq<int>>, bias: seq<int>): (r: Option<ExportError>)
    ensures r.None? <==> Flatten(kernel) != [] && Width(dense) >= 2 && |bias| >= 2
    ensures r == Some(EmptyKernel) <==> Flatten(kernel) == []
    ensures r == Some(EmptyDenseWeights) <==> Flatten(kernel) != [] && Width(dense) == 0
    ensures r == Some(MissingBias(0)) <==> Flatten(kernel) != [] && Width(dense) >= 1 && bias == []
    ensures r == Some(MissingWeightColumn1) <==> Flatten(kernel) != [] && Width(dense) == 1 && bias != []
    ensures r == Some(MissingBias(1)) <==> Flatten(kernel) != [] && Width(dense) >= 2 && |bias| == 1
  {
    if Flatten(kernel) == [] then Some(EmptyKernel)
    else if Width(dense) == 0 then Some(EmptyDenseWeights)
    else if |bias| < 1 then Some(MissingBias(0))
    else if Width(dense) < 2 then Some(MissingWeightColumn1)
    else if |bias| < 2 then Some(MissingBias(1))
    else None
  }

  /** In a matrix, column c exists exactly when c is below the width. */
  lemma MatrixColumns(m: seq<seq<int>>, c: nat)
    requires IsMatrix(m) && m != []
    ensures HasColumn(m, c) <==> c < Width(m)
  {
    if !HasColumn(m, c) {
      var i :| 0 <= i < |m| && c >= |m[i]|;
      assert |m[i]| == |m[0]|;
    }
  }

  /** Writes a header line, then one weight line per weight. */
  method WriteWeightFile(header: string, weights: seq<int>) returns (lines: seq<string>)
    ensures IsWeightFile(lines, header, weights)
  {
    lines := [header];
    for k := 0 to |weights|
      invariant |lines| == 1 + k && lines[0] == header
      invariant forall j | 0 <= j < k :: lines[j + 1] == WeightLine(weights[j])
    {
      lines := lines + [WeightLine(weights[k])];
    }
  }

  /**
   * `export_weights_to_hex` on the rounded integer tensors: the 3x3 kernel
   * (its unit channel axes dropped), the dense weights as rows of per-class
   * columns, and the dense biases. Returns the files written, each as its
   * lines, and the error that stopped the export, if any; files written
   * before the error are kept.
   */
  method ExportWeightsToHex(kernel: seq<seq<int>>, dense: seq<seq<int>>, bias: seq<int>)
    returns (files: map<OutFile, seq<string>>, err: Option<ExportError>)
    requires IsMatrix(dense)
    ensures err == ExportFailure(kernel, dense, bias)
    ensures KernelHex in files <==> Flatten(kernel) != []
    ensures KernelHex in files ==> IsWeightFile(files[KernelHex], KERNEL_HEADER, Flatten(kernel))
    ensures DenseWeightsC0Hex in files <==> Flatten(kernel) != [] && Width(dense) >= 1 && |bias| >= 1
    ensures DenseWeightsC0Hex in files ==>
              && HasColumn(dense, 0)
              && IsWeightFile(files[DenseWeightsC0Hex], DENSE_W0_HEADER, Column(dense, 0))
              && |files[DenseWeightsC0Hex]| == 1 + |dense|
              && forall i | 0 <= i < |dense| :: files[DenseWeightsC0Hex][i + 1] == WeightLine(dense[i][0])
    ensures DenseWeightsC1Hex in files <==> err.None?
    ensures DenseBiasesHex in files <==> err.None?
    ensures err.None? ==>
              && HasColumn(dense, 1)
              && IsWeightFile(files[DenseWeightsC1Hex], DENSE_W1_HEADER, Column(dense, 1))
              && |files[DenseWeightsC1Hex]| == 1 + |dense|
              && (forall i | 0 <= i < |dense| :: files[DenseWeightsC1Hex][i + 1] == WeightLine(dense[i][1]))
              && files[DenseBiasesHex] == BiasFile(bias[0], bias[1])
  {
    files := map[];
    var kernelInt := Flatten(kernel);
    if kernelInt == [] {
      return files, Some(EmptyKernel);
    }
    var kernelLines := WriteWeightFile(KERNEL_HEADER, kernelInt);
    files := files[KernelHex := kernelLines];

    if dense == [] || |dense[0]| == 0 {
      return files, Some(EmptyDenseWeights);
    }
    MatrixColumns(dense, 0);
    MatrixColumns(dense, 1);
    var weightsC0 := Column(dense, 0);
    if |bias| < 1 {
      return files, Some(MissingBias(0));
    }
    var biasC0 := bias[0];
    var c0Lines := WriteWeightFile(DENSE_W0_HEADER, weightsC0);
    ColumnLines(c0Lines, DENSE_W0_HEADER, dense, 0);
    files := files[DenseWeightsC0Hex := c0Lines];
    assert files[DenseWeightsC0Hex] == c0Lines;

    if !HasColumn(dense, 1) {
      return files, Some(MissingWeightColumn1);
    }
    var weightsC1 := Column(dense, 1);
    if |bias| < 2 {
      return files, Some(MissingBias(1));
    }
    var biasC1 := bias[1];
    var c1Lines := WriteWeightFile(DENSE_W1_HEADER, weightsC1);
    ColumnLines(c1Lines, DENSE_W1_HEADER, dense, 1);
    files := files[DenseWeightsC1Hex := c1Lines];

    files := files[DenseBiasesHex := BiasFile(biasC0, biasC1)];
    err := None;
  }

  /** A column's file holds one line per row of the matrix, the row's entry in that column. */
  lemma ColumnLines(lines: seq<string>, header: string, m: seq<seq<int>>, c: nat)
    requires HasColumn(m, c) && IsWeightFile(lines, header, Column(m, c))
    ensures |lines| == 1 + |m|
    ensures forall i | 0 <= i < |m| :: lines[i + 1] == WeightLine(m[i][c])
  {
    forall i | 0 <= i < |m|
      ensures lines[i + 1] == WeightLine(m[i][c])
    {
      assert Column(m, c)[i] == m[i][c];
    }
  }

  // ---------------------------------------------------------------------
  // Reading the files back
  // ---------------------------------------------------------------------

  /** A weight line holds `w & 0xFF` as a token of two lowercase hex digits. */
  lemma WeightLineDecodes(w: int)
    ensures Classify(WeightLine(w)) == Pixel(Mask8(w))
    ensures |Token8(w)| == 2 && AllLowerHexDigits(Token8(w))
  {
    Token8Decodes(w);
    LowerAreHex(Token8(w));
    ValueLine(Token8(w));
  }

  lemma BiasLineDecodes(b: int)
    ensures Classify(BiasLine(b)) == Pixel(Mask16(b))
    ensures |Token16(b)| == 4 && AllLowerHexDigits(Token16(b))
  {
    Token16Decodes(b);
    LowerAreHex(Token16(b));
    ValueLine(Token16(b));
  }

  /**
   * Read back with the hex decoder's line rules, a weight file yields the
   * masked weights in order, and every weight in [-128, 127] is recovered
   * by the signed 8-bit reading.
   */
  lemma WeightFileDecodes(lines: seq<string>, header: string, weights: seq<int>)
    requires IsWeightFile(lines, header, weights) && StartsWith(header, "//")
    ensures |LineValues(lines)| == |weights| && InvalidLines(lines) == []
    ensures forall k | 0 <= k < |weights| :: LineValues(lines)[k] == Mask8(weights[k])
    ensures forall k | 0 <= k < |weights| && -128 <= weights[k] < 128 ::
              ToSigned(LineValues(lines)[k], 8) == weights[k]
  {
    var data := lines[1..];
    var vals := seq(|weights|, k requires 0 <= k < |weights| => Mask8(weights[k]));
    forall k | 0 <= k < |data|
      ensures Classify(data[k]) == Pixel(vals[k])
    {
      WeightLineDecodes(weights[k]);
    }
    CommentLine(header);
    assert lines == [header] + data;
    HeaderThenValues(header, data, vals);
    forall k | 0 <= k < |weights| && -128 <= weights[k] < 128
      ensures ToSigned(Mask8(weights[k]), 8) == weights[k]
    {
      Token8Decodes(weights[k]);
    }
  }

  /** Comment, comment, value, comment, value: the two values, in order. */
  lemma TwoValueLayout(h: string, l0: string, t0: string, l1: string, t1: string, v0: nat, v1: nat)
    requires Classify(h) == Comment && Classify(l0) == Comment && Classify(l1) == Comment
    requires Classify(t0) == Pixel(v0) && Classify(t1) == Pixel(v1)
    ensures LineValues([h, l0, t0, l1, t1]) == [v0, v1]
    ensures InvalidLines([h, l0, t0, l1, t1]) == []
  {
    var k0: seq<LineKind> := [];
    var k1 := k0 + [Comment];
    var k2 := k1 + [Comment];
    var k3 := k2 + [Pixel(v0)];
    var k4 := k3 + [Comment];
    var k5 := k4 + [Pixel(v1)];
    KindSnoc(k0, Comment);
    KindSnoc(k1, Comment);
    KindSnoc(k2, Pixel(v0));
    KindSnoc(k3, Comment);
    KindSnoc(k4, Pixel(v1));
    assert Kinds([h, l0, t0, l1, t1]) == k5;
  }

  /**
   * The bias file yields exactly the two masked biases, class 0 then class 1,
   * and a bias in [-32768, 32767] is recovered by the signed 16-bit reading.
   */
  lemma BiasFileDecodes(b0: int, b1: int)
    ensures LineValues(BiasFile(b0, b1)) == [Mask16(b0), Mask16(b1)]
    ensures InvalidLines(BiasFile(b0, b1)) == []
    ensures -32768 <= b0 < 32768 ==> ToSigned(Mask16(b0), 16) == b0
    ensures -32768 <= b1 < 32768 ==> ToSigned(Mask16(b1), 16) == b1
  {
    HeadersAreComments();
    BiasLineDecodes(b0);
    BiasLineDecodes(b1);
    TwoValueLayout(BIAS_HEADER, BIAS_C0_LABEL, BiasLine(b0), BIAS_C1_LABEL, BiasLine(b1), Mask16(b0), Mask16(b1));
    Token16Decodes(b0);
    Token16Decodes(b1);
  }

  lemma CommentOfIsComment(text: string)
    ensures StartsWith(CommentOf(text), "//") && Classify(CommentOf(text)) == Comment
  {
    assert CommentOf(text) == "//" + (text + "\n");
    CommentLine(CommentOf(text));
  }

  /** Every header and label line the export writes is a comment to the decoder. */
  lemma HeadersAreComments()
    ensures StartsWith(KERNEL_HEADER, "//") && Classify(KERNEL_HEADER) == Comment
    ensures StartsWith(DENSE_W0_HEADER, "//") && Classify(DENSE_W0_HEADER) == Comment
    ensures StartsWith(DENSE_W1_HEADER, "//") && Classify(DENSE_W1_HEADER) == Comment
    ensures Classify(BIAS_HEADER) == Comment
    ensures Classify(BIAS_C0_LABEL) == Comment && Classify(BIAS_C1_LABEL) == Comment
  {
    CommentOfIsComment(" 3x3 Convolution Kernel (8-bit signed hex)");
    CommentOfIsComment(" Dense Layer Weights for Class 0 (8-bit signed hex)");
    CommentOfIsComment(" Dense Layer Weights for Class 1 (8-bit signed hex)");
    CommentOfIsComment(" Dense Layer Biases (16-bit signed hex)");
    CommentOfIsComment(" Class 0 Bias:");
    CommentOfIsComment(" Class 1 Bias:");
  }

  // ---------------------------------------------------------------------
  // preprocess_data: keep two classes, relabel them 0 and 1
  // ---------------------------------------------------------------------

  predicate Kept(v: int, classA: int, classB: int)
  {
    v == classA || v == classB
  }

  /** `np.where((y == class_a) | (y == class_b))[0]`: the kept positions, ascending. */
  function KeptIndices(y: seq<int>, classA: int, classB: int): (idx: seq<nat>)
    ensures forall k | 0 <= k < |idx| :: idx[k] < |y| && Kept(y[idx[k]], classA, classB)
    ensures forall k, l | 0 <= k < l < |idx| :: idx[k] < idx[l]
    ensures forall i | 0 <= i < |y| && Kept(y[i], classA, classB) :: i in idx
  {
    if y == [] then []
    else
      var n := |y| - 1;
      KeptIndices(y[..n], classA, classB) + (if Kept(y[n], classA, classB) then [n] else [])
  }

  /** `x[indices]` */
  function Select<X>(x: seq<X>, idx: seq<nat>): seq<X>
    requires forall k | 0 <= k < |idx| :: idx[k] < |x|
  {
    seq(|idx|, k requires 0 <= k < |idx| => x[idx[k]])
  }

  /** `np.where(y_filtered == class_a, 0, 1)` */
  function Relabel(labels: seq<int>, classA: int): seq<int>
  {
    seq(|labels|, k requires 0 <= k < |labels| => if labels[k] == classA then 0 else 1)
  }

  /**
   * The selection and relabelling of `preprocess_data`: the samples kept
   * are exactly those labelled classA or classB, in their original order and
   * still paired with their images, and each new label is 0 exactly when the
   * old one was classA, else 1. The kept images go on to the floating-point
   * image pipeline, which is not part of the model.
   */
  function PreprocessData<X>(x: seq<X>, y: seq<int>, classA: int, classB: int): (r: (seq<X>, seq<int>))
    requires forall i | 0 <= i < |y| && Kept(y[i], classA, classB) :: i < |x|
    ensures var idx := KeptIndices(y, classA, classB);
            && |r.0| == |r.1| == |idx|
            && (forall i | 0 <= i < |y| :: Kept(y[i], classA, classB) <==> i in idx)
            && (forall k, l | 0 <= k < l < |idx| :: idx[k] < idx[l])
            && (forall k | 0 <= k < |idx| :: r.0[k] == x[idx[k]])
            && (forall k | 0 <= k < |idx| :: r.1[k] == 0 <==> y[idx[k]] == classA)
            && (forall k | 0 <= k < |idx| :: r.1[k] == 1 <==> y[idx[k]] == classB && classA != classB)
  {
    var idx := KeptIndices(y, classA, classB);
    (Select(x, idx), Relabel(Select(y, idx), classA))
  }

  /** An independent, one-sample-at-a-time statement of the filter and relabelling. */
  function FilterReference<X>(x: seq<X>, y: seq<int>, classA: int, classB: int): (seq<X>, seq<int>)
    requires |x| == |y|
  {
    if y == [] then ([], [])
    else
      var n := |y| - 1;
      var (xs, ys) := FilterReference(x[..n], y[..n], classA, classB);
      if y[n] == classA then (xs + [x[n]], ys + [0])
      else if y[n] == classB then (xs + [x[n]], ys + [1])
      else (xs, ys)
  }

  lemma SelectPrefix<X>(x: seq<X>, idx: seq<nat>, n: nat)
    requires n <= |x| && forall k | 0 <= k < |idx| :: idx[k] < n
    ensures Select(x, idx) == Select(x[..n], idx)
  {
  }

  lemma SelectSnoc<X>(x: seq<X>, idx: seq<nat>, n: nat)
    requires n < |x| && forall k | 0 <= k < |idx| :: idx[k] < |x|
    ensures Select(x, idx + [n]) == Select(x, idx) + [x[n]]
  {
  }

  lemma RelabelSnoc(labels: seq<int>, v: int, classA: int)
    ensures Relabel(labels + [v], classA) == Relabel(labels, classA) + [if v == classA then 0 else 1]
  {
  }

  /** preprocess_data agrees with the one-sample-at-a-time reference on every input. */
  lemma {:induction false} PreprocessMatchesReference<X>(x: seq<X>, y: seq<int>, classA: int, classB: int)
    requires |x| == |y|
    ensures PreprocessData(x, y, classA, classB) == FilterReference(x, y, classA, classB)
    decreases |y|
  {
    if y != [] {
      var n := |y| - 1;
      var x', y' := x[..n], y[..n];
      PreprocessMatchesReference(x', y', classA, classB);
      var idx' := KeptIndices(y', classA, classB);
      SelectPrefix(x, idx', n);
      SelectPrefix(y, idx', n);
      var (xs, ys) := FilterReference(x', y', classA, classB);
      assert xs == Select(x, idx') && ys == Relabel(Select(y, idx'), classA);
      if Kept(y[n], classA, classB) {
        assert KeptIndices(y, classA, classB) == idx' + [n];
        SelectSnoc(x, idx', n);
        SelectSnoc(y, idx', n);
        RelabelSnoc(Select(y, idx'), y[n], classA);
        assert PreprocessData(x, y, classA, classB).0 == xs + [x[n]];
        assert PreprocessData(x, y, classA, classB).1 == ys + [if y[n] == classA then 0 else 1];
        assert FilterReference(x, y, classA, classB) == (xs + [x[n]], ys + [if y[n] == classA then 0 else 1]);
      } else {
        assert KeptIndices(y, classA, classB) == idx';
        assert FilterReference(x, y, classA, classB) == (xs, ys);
      }
    } else {
      var none: seq<nat> := [];
      assert KeptIndices(y, classA, classB) == none;
      assert Select(x, none) == [] && Select(y, none) == [];
      assert Relabel([], classA) == [];
    }
  }

  /**
   * With the script's configured classes, cat (3) and dog (5): every kept
   * sample is a cat or a dog, cats become 0, dogs become 1, and no other
   * label occurs.
   */
  lemma CatsAndDogs<X>(x: seq<X>, y: seq<int>)
    requires |x| == |y|
    ensures var r := PreprocessData(x, y, CLASS_A, CLASS_B);
            var idx := KeptIndices(y, CLASS_A, CLASS_B);
            && |r.1| == |idx|
            && (forall k | 0 <= k < |idx| :: y[idx[k]] == 3 || y[idx[k]] == 5)
            && (forall k | 0 <= k < |idx| :: (r.1[k] == 0 <==> y[idx[k]] == 3) && (r.1[k] == 1 <==> y[idx[k]] == 5))
            && (forall k | 0 <= k < |r.1| :: r.1[k] == 0 || r.1[k] == 1)
  {
  }
}
