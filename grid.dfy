/**
 * The two numpy reshapes the codecs use: `a.flatten()` of a 2-D array and
 * `np.array(values).reshape((height, width))`, both in row-major (C) order.
 */
module Grid {

  /** g is a height x width grid: height rows of width elements each. */
  predicate IsGrid<T>(g: seq<seq<T>>, height: nat, width: nat)
  {
    |g| == height && forall r | 0 <= r < height :: |g[r]| == width
  }

  /** `a.flatten()`: row 0 left to right, then row 1, and so on. */
  function Flatten<T>(g: seq<seq<T>>): seq<T>
  {
    if g == [] then [] else g[0] + Flatten(g[1..])
  }

  /** `np.array(v).reshape((height, width))`: consecutive runs of width values become rows. */
  function Reshape<T>(v: seq<T>, height: nat, width: nat): (g: seq<seq<T>>)
    requires |v| == height * width
    ensures IsGrid(g, height, width)
    decreases height
  {
    if height == 0 then []
    else
      MulPred(height, width);
      [v[..width]] + Reshape(v[width..], height - 1, width)
  }

  lemma MulPred(n: nat, w: nat)
    requires n >= 1
    ensures n * w == (n - 1) * w + w
  {
  }

  lemma MulMonotone(a: nat, b: nat, w: nat)
    requires a <= b
    ensures a * w <= b * w
  {
    assert b * w == a * w + (b - a) * w;
  }

  /** Row r, column c of a height x width grid is a position below height * width. */
  lemma IndexBound(r: nat, c: nat, height: nat, width: nat)
    requires r < height && c < width
    ensures r * width + c < height * width
  {
    MulPred(r + 1, width);
    MulMonotone(r + 1, height, width);
  }

  lemma {:induction false} FlattenLength<T>(g: seq<seq<T>>, height: nat, width: nat)
    requires IsGrid(g, height, width)
    ensures |Flatten(g)| == height * width
    decreases height
  {
    if height > 0 {
      FlattenLength(g[1..], height - 1, width);
      MulPred(height, width);
    }
  }

  /** Element (r, c) of the grid sits at position r * width + c of the flattening. */
  lemma {:induction false} FlattenAt<T>(g: seq<seq<T>>, height: nat, width: nat, r: nat, c: nat)
    requires IsGrid(g, height, width) && r < height && c < width
    ensures |Flatten(g)| == height * width
    ensures r * width + c < height * width && Flatten(g)[r * width + c] == g[r][c]
    decreases height
  {
    FlattenLength(g, height, width);
    IndexBound(r, c, height, width);
    var f, rest := Flatten(g), Flatten(g[1..]);
    assert f == g[0] + rest;
    if r > 0 {
      var k := (r - 1) * width + c;
      MulPred(r, width);
      assert r * width + c == width + k;
      FlattenAt(g[1..], height - 1, width, r - 1, c);
      assert f[width + k] == rest[k];
    } else {
      assert f[c] == g[0][c];
    }
  }

  /** Position k of the flattening holds element (k / width, k % width). */
  lemma FlattenIndex<T>(g: seq<seq<T>>, height: nat, width: nat, k: nat)
    requires IsGrid(g, height, width) && k < height * width
    ensures width > 0 && k / width < height
    ensures |Flatten(g)| == height * width && Flatten(g)[k] == g[k / width][k % width]
  {
    assert width > 0;
    var r, c := k / width, k % width;
    assert k == r * width + c;
    if r >= height {
      MulMonotone(height, r, width);
    }
    FlattenAt(g, height, width, r, c);
  }

  /** Row r, column c of the reshaped grid is value r * width + c. */
  lemma {:induction false} ReshapeAt<T>(v: seq<T>, height: nat, width: nat, r: nat, c: nat)
    requires |v| == height * width && r < height && c < width
    ensures r * width + c < |v| && Reshape(v, height, width)[r][c] == v[r * width + c]
    decreases height
  {
    IndexBound(r, c, height, width);
    MulPred(height, width);
    var rest := v[width..];
    var g := Reshape(v, height, width);
    assert g == [v[..width]] + Reshape(rest, height - 1, width);
    if r > 0 {
      var k := (r - 1) * width + c;
      MulPred(r, width);
      assert r * width + c == width + k;
      ReshapeAt(rest, height - 1, width, r - 1, c);
      assert g[r] == Reshape(rest, height - 1, width)[r - 1];
      assert rest[k] == v[width + k];
    } else {
      assert g[0] == v[..width];
    }
  }

  /** Reshaping and flattening again gives back the values. */
  lemma {:induction false} FlattenReshape<T>(v: seq<T>, height: nat, width: nat)
    requires |v| == height * width
    ensures Flatten(Reshape(v, height, width)) == v
    decreases height
  {
    if height > 0 {
      MulPred(height, width);
      var rest := Reshape(v[width..], height - 1, width);
      var g := Reshape(v, height, width);
      assert g == [v[..width]] + rest;
      assert g[0] == v[..width] && g[1..] == rest;
      FlattenReshape(v[width..], height - 1, width);
      assert Flatten(g) == v[..width] + v[width..];
      assert v == v[..width] + v[width..];
    }
  }

  /** Flattening a height x width grid and reshaping it gives back the grid. */
  lemma {:induction false} ReshapeFlatten<T>(g: seq<seq<T>>, height: nat, width: nat)
    requires IsGrid(g, height, width)
    ensures |Flatten(g)| == height * width && Reshape(Flatten(g), height, width) == g
    decreases height
  {
    FlattenLength(g, height, width);
    if height > 0 {
      MulPred(height, width);
      ReshapeFlatten(g[1..], height - 1, width);
      var f := Flatten(g);
      assert f[..width] == g[0] && f[width..] == Flatten(g[1..]);
      assert g == [g[0]] + g[1..];
    }
  }
}
