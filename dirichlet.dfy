/** Pixels whose colour the user fixed, and the Dirichlet condition that pins
    their unknowns in the sparse system (`search_fixed_colored_pixels` and
    `apply_dirichlet` of the colorization program). */
module Dirichlet {
  import opened GridIndex

  /** Channel numbers of the marked image in HSV space. */
  const HUE: nat := 0
  const SATURATION: nat := 1

  /** A row of `w` HSV pixels, each with at least a hue and a saturation channel. */
  predicate IsHsvRow(row: seq<seq<real>>, w: nat)
  {
    |row| == w && forall j :: 0 <= j < w ==> SATURATION < |row[j]|
  }

  /** An HSV image whose rows are `w` pixels wide. */
  predicate IsHsvImage(mark: seq<seq<seq<real>>>, w: nat)
  {
    forall i :: 0 <= i < |mark| ==> IsHsvRow(mark[i], w)
  }

  /** Channel `ch` of one image row, pixel by pixel. */
  function RowPlane(row: seq<seq<real>>, ch: nat, w: nat): (p: seq<real>)
    requires IsHsvRow(row, w) && ch <= SATURATION
    ensures |p| == w
  {
    seq(w, j requires 0 <= j < w => row[j][ch])
  }

  /** Channel `ch` of the first `h` rows, flattened in row-major order (numpy's `.flat`). */
  function Plane(mark: seq<seq<seq<real>>>, ch: nat, h: nat, w: nat): (p: seq<real>)
    requires IsHsvImage(mark, w) && ch <= SATURATION && h <= |mark|
    ensures |p| == Flat(h, 0, w)
  {
    if h == 0 then [] else Plane(mark, ch, h - 1, w) + RowPlane(mark[h - 1], ch, w)
  }

  /** Pixel (i, j) sits at flat index `Flat(i, j, w)` of the flattened channel. */
  lemma {:induction false} PlaneAt(mark: seq<seq<seq<real>>>, ch: nat, h: nat, w: nat, i: nat, j: nat)
    requires IsHsvImage(mark, w) && ch <= SATURATION && h <= |mark|
    requires i < h && j < w
    ensures ch < |mark[i][j]|
    ensures 0 <= Flat(i, j, w) < |Plane(mark, ch, h, w)|
    ensures Plane(mark, ch, h, w)[Flat(i, j, w)] == mark[i][j][ch]
  {
    FlatIsProduct(i, j, w);
    FlatIsProduct(i, 0, w);
    if i == h - 1 {
      assert Flat(i, j, w) == Flat(h - 1, 0, w) + j;
    } else {
      FlatBounds(i, j, h - 1, w);
      PlaneAt(mark, ch, h - 1, w, i, j);
    }
  }

  /** `np.nonzero((hue != 0.) * (saturation != 0.))[0]` over the first `n`
      flat indices: the indices where both planes are nonzero, in increasing order. */
  function NonZeroBoth(hue: seq<real>, sat: seq<real>, n: nat): (r: seq<nat>)
    requires n <= |hue| && n <= |sat|
    ensures forall a, b :: 0 <= a < b < |r| ==> r[a] < r[b]
    ensures forall k: nat :: k in r <==> k < n && hue[k] != 0.0 && sat[k] != 0.0
  {
    if n == 0 then []
    else
      var prefix := NonZeroBoth(hue, sat, n - 1);
      if hue[n - 1] != 0.0 && sat[n - 1] != 0.0 then
        assert forall a :: 0 <= a < |prefix| ==> prefix[a] in prefix;
        prefix + [n - 1]
      else prefix
  }

  /** `search_fixed_colored_pixels`: the row-major flat indices of the pixels
      of an h x w HSV image whose hue and saturation are both nonzero. They
      come out in increasing order, and each is the index of a pixel of the
      image. */
  function SearchFixedColoredPixels(mark: seq<seq<seq<real>>>, w: nat): (r: seq<nat>)
    requires IsHsvImage(mark, w)
    ensures forall a, b :: 0 <= a < b < |r| ==> r[a] < r[b]
    ensures forall k :: k in r ==> k < |mark| * w
  {
    FlatIsProduct(|mark|, 0, w);
    NonZeroBoth(Plane(mark, HUE, |mark|, w), Plane(mark, SATURATION, |mark|, w), Flat(|mark|, 0, w))
  }

  /** The pinned pixels come out in increasing order, and pixel (i, j) is
      listed, as index i*w + j, exactly when its hue and saturation are both nonzero. */
  lemma FixedColoredPixels(mark: seq<seq<seq<real>>>, w: nat, i: nat, j: nat)
    requires IsHsvImage(mark, w) && i < |mark| && j < w
    ensures SATURATION < |mark[i][j]|
    ensures var r := SearchFixedColoredPixels(mark, w);
      && (forall a, b :: 0 <= a < b < |r| ==> r[a] < r[b])
      && (i * w + j in r <==> mark[i][j][HUE] != 0.0 && mark[i][j][SATURATION] != 0.0)
  {
    PlaneAt(mark, HUE, |mark|, w, i, j);
    PlaneAt(mark, SATURATION, |mark|, w, i, j);
    FlatIsProduct(i, j, w);
  }

  // ------------------------------------------------------------ apply_dirichlet

  /** Row pointers of a compressed-sparse-row matrix over `m` stored entries:
      non-decreasing, from a non-negative start to at most `m`. */
  predicate IsCsr(indptr: seq<int>, m: nat)
  {
    && |indptr| >= 1 && 0 <= indptr[0] && indptr[|indptr| - 1] <= m
    && forall i, j :: 0 <= i <= j < |indptr| ==> indptr[i] <= indptr[j]
  }

  /** The value `apply_dirichlet` leaves in an entry of row `irow`, column
      `col`, that held `v`: a pinned row keeps only its diagonal, set to 1; in
      another row, pinned columns are zeroed. */
  function DirichletValue(irow: int, col: int, v: real, dirichlet: seq<int>): real
  {
    if irow in dirichlet then (if col != irow then 0.0 else 1.0)
    else if col in dirichlet then 0.0
    else v
  }

  /** `data` with the entries `lo .. hi - 1` of row `irow` rewritten. */
  function ApplyRow(data: seq<real>, indices: seq<int>, lo: int, hi: int, irow: int, dirichlet: seq<int>): (r: seq<real>)
    requires |indices| == |data| && 0 <= lo <= hi <= |data|
    ensures |r| == |data|
  {
    seq(|data|, k requires 0 <= k < |data| =>
      if lo <= k < hi then DirichletValue(irow, indices[k], data[k], dirichlet) else data[k])
  }

  /** The stored values once the first `n` rows have been processed. */
  function Dirichlet(indptr: seq<int>, indices: seq<int>, data: seq<real>, dirichlet: seq<int>, n: nat): (r: seq<real>)
    requires IsCsr(indptr, |data|) && |indices| == |data| && n < |indptr|
    ensures |r| == |data|
  {
    if n == 0 then data
    else ApplyRow(Dirichlet(indptr, indices, data, dirichlet, n - 1), indices, indptr[n - 1], indptr[n], n - 1, dirichlet)
  }

  /** What the first `n` rows do to one stored entry `k` that held `v`. */
  function EntryAfter(indptr: seq<int>, indices: seq<int>, dirichlet: seq<int>, n: nat, k: nat, v: real): real
    requires n < |indptr| && k < |indices|
  {
    if n == 0 then v
    else if indptr[n - 1] <= k < indptr[n] then DirichletValue(n - 1, indices[k], EntryAfter(indptr, indices, dirichlet, n - 1, k, v), dirichlet)
    else EntryAfter(indptr, indices, dirichlet, n - 1, k, v)
  }

  /** `Dirichlet` acts entry by entry. */
  lemma {:induction false} DirichletAt(indptr: seq<int>, indices: seq<int>, data: seq<real>, dirichlet: seq<int>, n: nat, k: nat)
    requires IsCsr(indptr, |data|) && |indices| == |data| && n < |indptr| && k < |data|
    ensures Dirichlet(indptr, indices, data, dirichlet, n)[k] == EntryAfter(indptr, indices, dirichlet, n, k, data[k])
  {
    if n > 0 {
      DirichletAt(indptr, indices, data, dirichlet, n - 1, k);
    }
  }

  /** Rows that end at or before entry `k` leave it alone. */
  lemma {:induction false} EntryAfterOutside(indptr: seq<int>, indices: seq<int>, dirichlet: seq<int>, n: nat, k: nat, v: real)
    requires IsCsr(indptr, |indices|) && n < |indptr| && k < |indices| && (k < indptr[0] || indptr[n] <= k)
    ensures EntryAfter(indptr, indices, dirichlet, n, k, v) == v
  {
    if n > 0 {
      EntryAfterOutside(indptr, indices, dirichlet, n - 1, k, v);
    }
  }

  /** An entry of row `irow` is rewritten by that row alone. */
  lemma {:induction false} EntryAfterInRow(indptr: seq<int>, indices: seq<int>, dirichlet: seq<int>, n: nat, irow: nat, k: nat, v: real)
    requires IsCsr(indptr, |indices|) && n < |indptr| && k < |indices|
    requires irow < n && indptr[irow] <= k < indptr[irow + 1]
    ensures EntryAfter(indptr, indices, dirichlet, n, k, v) == DirichletValue(irow, indices[k], v, dirichlet)
  {
    if irow == n - 1 {
      EntryAfterOutside(indptr, indices, dirichlet, n - 1, k, v);
    } else {
      EntryAfterInRow(indptr, indices, dirichlet, n - 1, irow, k, v);
    }
  }

  /** After all rows: in a pinned row the diagonal entry is 1 and every other
      entry 0; in another row, entries in pinned columns are 0 and the rest keep
      their value; entries outside every row are untouched. */
  lemma DirichletRows(indptr: seq<int>, indices: seq<int>, data: seq<real>, dirichlet: seq<int>, k: nat)
    requires IsCsr(indptr, |data|) && |indices| == |data| && k < |data|
    ensures var r := Dirichlet(indptr, indices, data, dirichlet, |indptr| - 1);
      && (forall irow :: 0 <= irow < |indptr| - 1 && indptr[irow] <= k < indptr[irow + 1] ==>
            && (irow in dirichlet && indices[k] == irow ==> r[k] == 1.0)
            && (irow in dirichlet && indices[k] != irow ==> r[k] == 0.0)
            && (irow !in dirichlet && indices[k] in dirichlet ==> r[k] == 0.0)
            && (irow !in dirichlet && indices[k] !in dirichlet ==> r[k] == data[k]))
      && (k < indptr[0] || indptr[|indptr| - 1] <= k ==> r[k] == data[k])
  {
    var n := |indptr| - 1;
    DirichletAt(indptr, indices, data, dirichlet, n, k);
    forall irow | 0 <= irow < n && indptr[irow] <= k < indptr[irow + 1]
      ensures EntryAfter(indptr, indices, dirichlet, n, k, data[k]) == DirichletValue(irow, indices[k], data[k], dirichlet)
    {
      EntryAfterInRow(indptr, indices, dirichlet, n, irow, k, data[k]);
    }
    if k < indptr[0] || indptr[n] <= k {
      EntryAfterOutside(indptr, indices, dirichlet, n, k, data[k]);
    }
  }

  /** Applying the rule twice to one entry is applying it once. */
  lemma {:induction false} EntryAfterIdempotent(indptr: seq<int>, indices: seq<int>, dirichlet: seq<int>, n: nat, k: nat, v: real)
    requires IsCsr(indptr, |indices|) && n < |indptr| && k < |indices|
    ensures EntryAfter(indptr, indices, dirichlet, n, k, EntryAfter(indptr, indices, dirichlet, n, k, v))
         == EntryAfter(indptr, indices, dirichlet, n, k, v)
  {
    if n > 0 {
      var once := EntryAfter(indptr, indices, dirichlet, n, k, v);
      if indptr[n - 1] <= k < indptr[n] {
        EntryAfterOutside(indptr, indices, dirichlet, n - 1, k, v);
        EntryAfterOutside(indptr, indices, dirichlet, n - 1, k, once);
      } else {
        EntryAfterIdempotent(indptr, indices, dirichlet, n - 1, k, v);
      }
    }
  }

  /** `apply_dirichlet` applied twice gives what it gives once. */
  lemma DirichletIdempotent(indptr: seq<int>, indices: seq<int>, data: seq<real>, dirichlet: seq<int>)
    requires IsCsr(indptr, |data|) && |indices| == |data|
    ensures var once := Dirichlet(indptr, indices, data, dirichlet, |indptr| - 1);
      Dirichlet(indptr, indices, once, dirichlet, |indptr| - 1) == once
  {
    var n := |indptr| - 1;
    var once := Dirichlet(indptr, indices, data, dirichlet, n);
    var twice := Dirichlet(indptr, indices, once, dirichlet, n);
    forall k | 0 <= k < |data|
      ensures twice[k] == once[k]
    {
      DirichletAt(indptr, indices, data, dirichlet, n, k);
      DirichletAt(indptr, indices, once, dirichlet, n, k);
      EntryAfterIdempotent(indptr, indices, dirichlet, n, k, data[k]);
    }
  }

  /** `apply_dirichlet`: rewrites the stored values of the matrix in place,
      row by row; the row pointers and column indices are read only. */
  method ApplyDirichlet(indptr: seq<int>, indices: seq<int>, data: array<real>, dirichlet: seq<int>)
    requires IsCsr(indptr, data.Length) && |indices| == data.Length
    modifies data
    ensures data[..] == Dirichlet(indptr, indices, old(data[..]), dirichlet, |indptr| - 1)
  {
    var irow := 0;
    while irow < |indptr| - 1
      invariant 0 <= irow <= |indptr| - 1
      invariant data[..] == Dirichlet(indptr, indices, old(data[..]), dirichlet, irow)
    {
      ghost var prev := data[..];
      var lo, hi := indptr[irow], indptr[irow + 1];
      if irow in dirichlet {
        var i := lo;
        while i < hi
          invariant lo <= i <= hi
          invariant data[..] == ApplyRow(prev, indices, lo, i, irow, dirichlet)
        {
          data[i] := if indices[i] != irow then 0.0 else 1.0;
          i := i + 1;
        }
      } else {
        var jcol := lo;
        while jcol < hi
          invariant lo <= jcol <= hi
          invariant data[..] == ApplyRow(prev, indices, lo, jcol, irow, dirichlet)
        {
          if indices[jcol] in dirichlet {
            data[jcol] := 0.0;
          }
          jcol := jcol + 1;
        }
      }
      irow := irow + 1;
    }
  }
}
