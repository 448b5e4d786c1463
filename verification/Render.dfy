/** Drawing arrays of rank 3 and more (kap-core/src/lib.rs). A shape is laid out as blocks of
    rows; a row holds groups of cells side by side (one group, but for rank 4). */
module Render {
  import opened Arithmetic

  // ---------------------------------------------------------------- shapes and layouts

  predicate Positive(dims: seq<nat>) { forall i :: 0 <= i < |dims| ==> dims[i] > 0 }

  /** What the caller guarantees: rank 3 or more, no zero dimension. */
  predicate Drawable(dims: seq<nat>) {
    |dims| >= 3 && Positive(dims)
  }

  /** A two-digit position: digit `d` below `n`, carried into `q`. */
  function Flat(q: nat, d: nat, n: nat): nat { q * n + d }

  datatype Layout = Layout(blocks: nat, rows: nat, groups: nat, size: nat) {
    predicate Valid() { blocks > 0 && rows > 0 && groups > 0 && size > 0 }

    /** Row-major position of a cell, the groups being the slowest coordinate. */
    function Index(g: nat, b: nat, r: nat, x: nat): nat { Flat(Flat(Flat(g, b, blocks), r, rows), x, size) }

    function Cells(): nat { ((groups * blocks) * rows) * size }
  }

  function LayoutOf(dims: seq<nat>): Layout
    requires |dims| >= 3
  {
    var rank := |dims|;
    if rank == 3 then Layout(dims[0], dims[1], 1, dims[2])
    else if rank == 4 then Layout(dims[1], dims[2], dims[0], dims[3])
    else Layout(Product(dims[..rank - 2]), dims[rank - 2], 1, dims[rank - 1])
  }

  lemma {:induction false} ProductAppend(a: seq<nat>, b: seq<nat>)
    ensures Product(a + b) == Product(a) * Product(b)
  {
    if a == [] {
      assert a + b == b;
    } else {
      assert (a + b)[1..] == a[1..] + b;
      ProductAppend(a[1..], b);
      MulAssociates(a[0], Product(a[1..]), Product(b));
    }
  }

  lemma {:induction false} ProductPositive(dims: seq<nat>)
    requires Positive(dims)
    ensures Product(dims) > 0
  {
    if dims != [] {
      ProductPositive(dims[1..]);
      MulPositive(dims[0], Product(dims[1..]));
    }
  }

  lemma ProductOne(d: nat)
    ensures Product([d]) == d
  {
    assert Product([d]) == d * Product([]);
  }

  lemma ProductTwo(c: nat, d: nat)
    ensures Product([c, d]) == c * d
  {
    ProductOne(d);
    assert [c, d][1..] == [d];
  }

  lemma ProductThree(b: nat, c: nat, d: nat)
    ensures Product([b, c, d]) == b * (c * d)
  {
    ProductTwo(c, d);
    assert [b, c, d][1..] == [c, d];
  }

  /** The layout is valid and holds every element. */
  lemma LayoutHolds(dims: seq<nat>)
    requires Drawable(dims)
    ensures LayoutOf(dims).Valid() && LayoutOf(dims).Cells() == Product(dims)
  {
    var rank := |dims|;
    if rank == 3 {
      assert dims == [dims[0], dims[1], dims[2]];
      ProductThree(dims[0], dims[1], dims[2]);
      MulAssociates(dims[0], dims[1], dims[2]);
    } else if rank == 4 {
      assert dims == [dims[0]] + [dims[1], dims[2], dims[3]];
      ProductAppend([dims[0]], [dims[1], dims[2], dims[3]]);
      ProductOne(dims[0]);
      ProductThree(dims[1], dims[2], dims[3]);
      FourFactors(dims[0], dims[1], dims[2], dims[3]);
    } else {
      var outer := dims[..rank - 2];
      assert dims == outer + [dims[rank - 2], dims[rank - 1]];
      ProductAppend(outer, [dims[rank - 2], dims[rank - 1]]);
      ProductTwo(dims[rank - 2], dims[rank - 1]);
      MulAssociates(Product(outer), dims[rank - 2], dims[rank - 1]);
      ProductPositive(outer);
    }
  }

  lemma LayoutValid(dims: seq<nat>)
    requires Drawable(dims)
    ensures LayoutOf(dims).Valid()
  {
    LayoutHolds(dims);
  }

  lemma FourFactors(a: int, b: int, c: int, d: int)
    ensures a * (b * (c * d)) == ((a * b) * c) * d
  {
    MulAssociates(b, c, d);
    MulAssociates(a, b * c, d);
    MulAssociates(a, b, c);
  }

  // ---------------------------------------------------------------- mixed-radix positions

  /** One digit: q * n + d stays below m * n. */
  lemma DigitBound(q: nat, m: nat, d: nat, n: nat)
    requires q < m && d < n
    ensures Flat(q, d, n) < m * n
  {
    MulMono(n, q + 1, m);
    assert n * (q + 1) == q * n + n;
  }

  lemma IndexInRange(l: Layout, g: nat, b: nat, r: nat, x: nat)
    requires g < l.groups && b < l.blocks && r < l.rows && x < l.size
    ensures l.Index(g, b, r, x) < l.Cells()
  {
    DigitBound(g, l.groups, b, l.blocks);
    DigitBound(Flat(g, b, l.blocks), l.groups * l.blocks, r, l.rows);
    DigitBound(Flat(Flat(g, b, l.blocks), r, l.rows), (l.groups * l.blocks) * l.rows, x, l.size);
  }

  lemma DigitUnique(q: nat, d: nat, q': nat, d': nat, n: nat)
    requires d < n && d' < n && Flat(q, d, n) == Flat(q', d', n)
    ensures q == q' && d == d'
  {
    DivUnique(q * n + d, n, q, d);
    DivUnique(q * n + d, n, q', d');
  }

  /** No two cells show the same element. */
  lemma IndexInjective(l: Layout, g: nat, b: nat, r: nat, x: nat, g': nat, b': nat, r': nat, x': nat)
    requires b < l.blocks && r < l.rows && x < l.size
    requires b' < l.blocks && r' < l.rows && x' < l.size
    requires l.Index(g, b, r, x) == l.Index(g', b', r', x')
    ensures g == g' && b == b' && r == r' && x == x'
  {
    hide Flat;
    var v, v' := Flat(g, b, l.blocks), Flat(g', b', l.blocks);
    DigitUnique(Flat(v, r, l.rows), x, Flat(v', r', l.rows), x', l.size);
    DigitUnique(v, r, v', r', l.rows);
    DigitUnique(g, b, g', b', l.blocks);
  }

  lemma DigitSplit(k: nat, m: nat, n: nat) returns (q: nat, d: nat)
    requires n > 0 && k < m * n
    ensures q < m && d < n && k == Flat(q, d, n)
  {
    q, d := k / n, k % n;
    DivModDefinition(k, n);
    assert n * q == q * n;
    if q >= m { MulMono(n, m, q); }
  }

  /** Every element is shown by some cell. */
  lemma IndexSurjective(l: Layout, k: nat) returns (g: nat, b: nat, r: nat, x: nat)
    requires l.Valid() && k < l.Cells()
    ensures g < l.groups && b < l.blocks && r < l.rows && x < l.size && k == l.Index(g, b, r, x)
  {
    var u, v;
    u, x := DigitSplit(k, (l.groups * l.blocks) * l.rows, l.size);
    v, r := DigitSplit(u, l.groups * l.blocks, l.rows);
    g, b := DigitSplit(v, l.groups, l.blocks);
  }

  // ---------------------------------------------------------------- finding a cell's element

  /** `multipliers`: how many elements one step along each axis skips. */
  predicate AreMultipliers(m: seq<nat>, dims: seq<nat>) {
    |m| == |dims| && forall i :: 0 <= i < |dims| ==> m[i] == Product(dims[i + 1..])
  }

  method Multipliers(dims: seq<nat>) returns (m: array<nat>)
    requires |dims| > 0
    ensures fresh(m) && AreMultipliers(m[..], dims)
  {
    var rank := |dims|;
    m := new nat[rank](_ => 1);
    assert dims[rank..] == [];
    for i := rank - 1 downto 0
      invariant forall k :: i <= k < rank ==> m[k] == Product(dims[k + 1..])
    {
      assert dims[i + 1..][1..] == dims[i + 2..];
      m[i] := m[i + 1] * dims[i + 1];
    }
  }

  /** The closure `lookup` of ranks 3 and 4. */
  function Lookup(m: seq<nat>, b: nat, g: nat, r: nat, x: nat): nat
    requires |m| == 3 || |m| == 4
  {
    if |m| == 3 then m[0] * b + m[1] * r + m[2] * x
    else m[1] * b + m[0] * g + m[2] * r + m[3] * x
  }

  lemma LookupIsIndex(dims: seq<nat>, m: seq<nat>, b: nat, g: nat, r: nat, x: nat)
    requires (|dims| == 3 && g == 0) || |dims| == 4
    requires AreMultipliers(m, dims)
    ensures Lookup(m, b, g, r, x) == LayoutOf(dims).Index(g, b, r, x)
  {
    if |dims| == 3 {
      assert dims[1..] == [dims[1], dims[2]] && dims[2..] == [dims[2]] && dims[3..] == [];
      ProductTwo(dims[1], dims[2]);
      ProductOne(dims[2]);
      Horner(0, b, r, x, dims[0], dims[1], dims[2]);
    } else {
      assert dims[1..] == [dims[1], dims[2], dims[3]] && dims[2..] == [dims[2], dims[3]];
      assert dims[3..] == [dims[3]] && dims[4..] == [];
      ProductThree(dims[1], dims[2], dims[3]);
      ProductTwo(dims[2], dims[3]);
      ProductOne(dims[3]);
      Horner(g, b, r, x, dims[1], dims[2], dims[3]);
    }
  }

  lemma Horner(g: int, b: int, r: int, x: int, nb: int, nr: int, nx: int)
    ensures ((g * nb + b) * nr + r) * nx + x == (nb * (nr * nx)) * g + (nr * nx) * b + nx * r + x
  {
    calc {
      ((g * nb + b) * nr + r) * nx;
      ((g * nb + b) * nr) * nx + r * nx;
      (g * nb + b) * (nr * nx) + r * nx;
      (g * nb) * (nr * nx) + b * (nr * nx) + r * nx;
      { MulAssociates(g, nb, nr * nx); }
      g * (nb * (nr * nx)) + b * (nr * nx) + r * nx;
    }
  }

  /** Above rank 4 the digits of the block number are peeled off, the last axis first. */
  method DecodeBlock(dims: seq<nat>, m: seq<nat>, block: nat) returns (idx: nat)
    requires Drawable(dims) && AreMultipliers(m, dims) && block < Product(dims[..|dims| - 2])
    ensures idx == block * Product(dims[|dims| - 2..])
  {
    hide Product;
    var outerRem: nat := block;
    idx := 0;
    assert Flat(block, 0, Product(dims[|dims| - 2..])) == block * Product(dims[|dims| - 2..]);
    hide Flat;
    for d := |dims| - 2 downto 0
      invariant outerRem < Product(dims[..d])
      invariant Flat(outerRem, idx, Product(dims[d..])) == Flat(block, 0, Product(dims[|dims| - 2..]))
    {
      DecodeStep(dims, d, outerRem, idx);
      idx := idx + outerRem % dims[d] * m[d];
      outerRem := outerRem / dims[d];
    }
    DecodeEnd(dims, outerRem, idx);
  }

  lemma DecodeEnd(dims: seq<nat>, rem: nat, idx: nat)
    requires rem < Product(dims[..0])
    ensures Flat(rem, idx, Product(dims[0..])) == idx
  {
    assert dims[..0] == [];
  }

  lemma DecodeStep(dims: seq<nat>, d: nat, rem: nat, idx: nat)
    requires d < |dims| && dims[d] > 0 && rem < Product(dims[..d + 1])
    ensures rem / dims[d] < Product(dims[..d])
    ensures rem % dims[d] * Product(dims[d + 1..]) >= 0
    ensures Flat(rem / dims[d], idx + rem % dims[d] * Product(dims[d + 1..]), Product(dims[d..]))
            == Flat(rem, idx, Product(dims[d + 1..]))
  {
    var n, p := dims[d], Product(dims[d + 1..]);
    assert dims[..d + 1] == dims[..d] + [n];
    ProductAppend(dims[..d], [n]);
    ProductOne(n);
    assert dims[d..][1..] == dims[d + 1..];
    DivModDefinition(rem, n);
    var q, c := rem / n, rem % n;
    if q >= Product(dims[..d]) { MulMono(n, Product(dims[..d]), q); }
    MulMono(p, 0, c);
    Recombine(c, q, n, p);
  }

  lemma Recombine(c: int, q: int, n: int, p: int)
    ensures c * p + q * (n * p) == (n * q + c) * p
  {
    MulAssociates(q, n, p);
  }

  /** The element a cell shows, whichever way the rank finds it: the row-major index. */
  method CellIndex(dims: seq<nat>, m: seq<nat>, b: nat, g: nat, r: nat, x: nat) returns (idx: nat)
    requires Drawable(dims) && AreMultipliers(m, dims)
    requires var l := LayoutOf(dims); b < l.blocks && g < l.groups && r < l.rows && x < l.size
    ensures idx == LayoutOf(dims).Index(g, b, r, x) < Product(dims)
  {
    LayoutHolds(dims);
    IndexInRange(LayoutOf(dims), g, b, r, x);
    var rank := |dims|;
    if rank <= 4 {
      LookupIsIndex(dims, m, b, g, r, x);
      idx := Lookup(m, b, g, r, x);
    } else {
      idx := DecodeBlock(dims, m, b);
      assert dims[rank - 2..] == [dims[rank - 2], dims[rank - 1]];
      assert dims[rank - 1..] == [dims[rank - 1]] && dims[rank..] == [];
      ProductTwo(dims[rank - 2], dims[rank - 1]);
      ProductOne(dims[rank - 1]);
      Horner(0, b, r, x, 0, dims[rank - 2], dims[rank - 1]);
      idx := idx + r * m[rank - 2] + x * m[rank - 1];
    }
  }
}
