/** Extraction of one channel of an image into a field padded with ghost
    cells (`create_field` of the colorization program). */
module ColorizeField {

  /** A pixel buffer: `|values|` rows of equally many pixels, each pixel with
      equally many channels. */
  predicate IsImage(values: seq<seq<seq<real>>>)
  {
    && |values| > 0
    && |values[0]| > 0
    && (forall i :: 0 <= i < |values| ==> |values[i]| == |values[0]|)
    && (forall i, j :: 0 <= i < |values| && 0 <= j < |values[i]| ==> |values[i][j]| == |values[0][0]|)
  }

  /** Number of channels of each pixel (the last dimension of the buffer). */
  function Channels(values: seq<seq<seq<real>>>): nat
    requires IsImage(values)
  {
    |values[0][0]|
  }

  /** The nearest index of `0 .. n-1` to `x`. */
  function Clamp(x: int, n: int): (r: int)
    requires n > 0
    ensures 0 <= r < n
    ensures 0 <= x < n ==> r == x
  {
    if x < 0 then 0 else if x >= n then n - 1 else x
  }

  /** Reference value of cell (i, j) of the padded field: the channel value of
      the pixel under it; on a ghost cell either 0 or, when `prolong`, the value
      of the nearest image pixel. */
  function FieldValue(values: seq<seq<seq<real>>>, ifield: nat, layers: nat, prolong: bool, i: int, j: int): real
    requires IsImage(values) && ifield < Channels(values)
  {
    var h, w := |values|, |values[0]|;
    if prolong then values[Clamp(i - layers, h)][Clamp(j - layers, w)][ifield]
    else if layers <= i < layers + h && layers <= j < layers + w then values[i - layers][j - layers][ifield]
    else 0.0
  }

  /** Contents of the field once the first `t` ghost rows at the top and at the
      bottom have been prolonged, and before any ghost column has been. */
  function AfterRows(values: seq<seq<seq<real>>>, ifield: nat, layers: nat, t: nat, i: int, j: int): real
    requires IsImage(values) && ifield < Channels(values)
  {
    var h, w := |values|, |values[0]|;
    if !(layers <= j < layers + w) then 0.0
    else if layers <= i < layers + h then values[i - layers][j - layers][ifield]
    else if 0 <= i < t then values[0][j - layers][ifield]
    else if h + 2 * layers - t <= i < h + 2 * layers then values[h - 1][j - layers][ifield]
    else 0.0
  }

  /** Contents of the field once every ghost row and the first `t` ghost columns
      on the left and on the right have been prolonged. */
  function AfterColumns(values: seq<seq<seq<real>>>, ifield: nat, layers: nat, t: nat, i: int, j: int): real
    requires IsImage(values) && ifield < Channels(values)
  {
    var w := |values[0]|;
    if layers <= j < layers + w then AfterRows(values, ifield, layers, layers, i, j)
    else if 0 <= j < t then AfterRows(values, ifield, layers, layers, i, layers)
    else if w + 2 * layers - t <= j < w + 2 * layers then AfterRows(values, ifield, layers, layers, i, w + layers - 1)
    else 0.0
  }

  /** `create_field`: a field of (h + 2L) x (w + 2L) cells holding channel
      `ifield` of the image in its interior and ghost cells around it, either
      zero or prolonged from the border (rows first, then columns). */
  method CreateField(values: seq<seq<seq<real>>>, ifield: nat, layers: nat, prolong: bool)
    returns (field: array2<real>)
    requires IsImage(values)
    requires ifield < Channels(values)
    requires layers >= 1
    ensures fresh(field)
    ensures field.Length0 == |values| + 2 * layers && field.Length1 == |values[0]| + 2 * layers
    ensures forall i, j :: 0 <= i < field.Length0 && 0 <= j < field.Length1 ==>
              field[i, j] == FieldValue(values, ifield, layers, prolong, i, j)
  {
    var h, w := |values|, |values[0]|;
    field := new real[h + 2 * layers, w + 2 * layers]((i, j) => 0.0);
    forall i, j | 0 <= i < h && 0 <= j < w {
      field[i + layers, j + layers] := values[i][j][ifield];
    }
    if prolong {
      ProlongRows(values, ifield, layers, field);
      ProlongColumns(values, ifield, layers, field);
      forall i, j | 0 <= i < field.Length0 && 0 <= j < field.Length1
        ensures field[i, j] == FieldValue(values, ifield, layers, prolong, i, j)
      {
        ProlongedField(values, ifield, layers, i, j);
      }
    }
  }

  /** The top and bottom ghost rows take the first and last image rows, one
      layer at a time (before any ghost column is filled). */
  method ProlongRows(values: seq<seq<seq<real>>>, ifield: nat, layers: nat, field: array2<real>)
    requires IsImage(values) && ifield < Channels(values) && layers >= 1
    requires field.Length0 == |values| + 2 * layers && field.Length1 == |values[0]| + 2 * layers
    requires forall i, j :: 0 <= i < field.Length0 && 0 <= j < field.Length1 ==>
               field[i, j] == AfterRows(values, ifield, layers, 0, i, j)
    modifies field
    ensures forall i, j :: 0 <= i < field.Length0 && 0 <= j < field.Length1 ==>
              field[i, j] == AfterRows(values, ifield, layers, layers, i, j)
  {
    var h, w := |values|, |values[0]|;
    var layer := 0;
    while layer < layers
      invariant 0 <= layer <= layers
      invariant forall i, j :: 0 <= i < h + 2 * layers && 0 <= j < w + 2 * layers ==>
                  field[i, j] == AfterRows(values, ifield, layers, layer, i, j)
    {
      CopyRow(field, layers, layer, layers, layers + w);
      CopyRow(field, h + layers - 1, h + 2 * layers - layer - 1, layers, layers + w);
      layer := layer + 1;
    }
  }

  /** The left and right ghost columns take the first and last columns of the
      field, one layer at a time, once every ghost row is filled. */
  method ProlongColumns(values: seq<seq<seq<real>>>, ifield: nat, layers: nat, field: array2<real>)
    requires IsImage(values) && ifield < Channels(values) && layers >= 1
    requires field.Length0 == |values| + 2 * layers && field.Length1 == |values[0]| + 2 * layers
    requires forall i, j :: 0 <= i < field.Length0 && 0 <= j < field.Length1 ==>
               field[i, j] == AfterRows(values, ifield, layers, layers, i, j)
    modifies field
    ensures forall i, j :: 0 <= i < field.Length0 && 0 <= j < field.Length1 ==>
              field[i, j] == AfterColumns(values, ifield, layers, layers, i, j)
  {
    var h, w := |values|, |values[0]|;
    var layer := 0;
    while layer < layers
      invariant 0 <= layer <= layers
      invariant forall i, j :: 0 <= i < h + 2 * layers && 0 <= j < w + 2 * layers ==>
                  field[i, j] == AfterColumns(values, ifield, layers, layer, i, j)
    {
      CopyColumn(field, layers, layer);
      CopyColumn(field, w + layers - 1, w + 2 * layers - layer - 1);
      layer := layer + 1;
    }
  }

  /** Once every ghost row and column is prolonged, the field holds the
      value of the nearest image pixel everywhere. */
  lemma ProlongedField(values: seq<seq<seq<real>>>, ifield: nat, layers: nat, i: int, j: int)
    requires IsImage(values) && ifield < Channels(values)
    requires 0 <= i < |values| + 2 * layers && 0 <= j < |values[0]| + 2 * layers
    ensures AfterColumns(values, ifield, layers, layers, i, j) == FieldValue(values, ifield, layers, true, i, j)
  {
  }

  /** The slice assignment `field[dst, lo:hi] = field[src, lo:hi]`. */
  method CopyRow(field: array2<real>, src: nat, dst: nat, lo: nat, hi: nat)
    requires src < field.Length0 && dst < field.Length0 && src != dst
    requires lo <= hi <= field.Length1
    modifies field
    ensures forall i, j :: 0 <= i < field.Length0 && 0 <= j < field.Length1 ==>
              field[i, j] == if i == dst && lo <= j < hi then old(field[src, j]) else old(field[i, j])
  {
    var j := lo;
    while j < hi
      invariant lo <= j <= hi
      invariant forall i', j' :: 0 <= i' < field.Length0 && 0 <= j' < field.Length1 ==>
                  field[i', j'] == if i' == dst && lo <= j' < j then old(field[src, j']) else old(field[i', j'])
    {
      field[dst, j] := field[src, j];
      j := j + 1;
    }
  }

  /** The slice assignment `field[:, dst] = field[:, src]`. */
  method CopyColumn(field: array2<real>, src: nat, dst: nat)
    requires src < field.Length1 && dst < field.Length1 && src != dst
    modifies field
    ensures forall i, j :: 0 <= i < field.Length0 && 0 <= j < field.Length1 ==>
              field[i, j] == if j == dst then old(field[i, src]) else old(field[i, j])
  {
    var i := 0;
    while i < field.Length0
      invariant 0 <= i <= field.Length0
      invariant forall i', j' :: 0 <= i' < field.Length0 && 0 <= j' < field.Length1 ==>
                  field[i', j'] == if j' == dst && i' < i then old(field[i', src]) else old(field[i', j'])
    {
      field[i, dst] := field[i, src];
      i := i + 1;
    }
  }

  /** The interior of the field is channel `ifield` of the image, whatever the ghost policy. */
  lemma InteriorIsChannel(values: seq<seq<seq<real>>>, ifield: nat, layers: nat, prolong: bool, i: int, j: int)
    requires IsImage(values) && ifield < Channels(values)
    requires 0 <= i < |values| && 0 <= j < |values[0]|
    ensures FieldValue(values, ifield, layers, prolong, i + layers, j + layers) == values[i][j][ifield]
  {
  }

  /** Without prolongation every ghost cell is zero. */
  lemma ZeroGhosts(values: seq<seq<seq<real>>>, ifield: nat, layers: nat, i: int, j: int)
    requires IsImage(values) && ifield < Channels(values)
    requires !(layers <= i < layers + |values|) || !(layers <= j < layers + |values[0]|)
    ensures FieldValue(values, ifield, layers, false, i, j) == 0.0
  {
  }

  /** With prolongation, every cell of the top-left ghost block holds the
      top-left pixel, and a ghost cell beside the image holds the value of the
      border pixel in its row or column. */
  lemma ProlongedGhosts(values: seq<seq<seq<real>>>, ifield: nat, layers: nat, i: int, j: int)
    requires IsImage(values) && ifield < Channels(values)
    requires 0 <= i < |values| + 2 * layers && 0 <= j < |values[0]| + 2 * layers
    ensures i < layers && j < layers ==> FieldValue(values, ifield, layers, true, i, j) == values[0][0][ifield]
    ensures i < layers && layers <= j < layers + |values[0]| ==>
              FieldValue(values, ifield, layers, true, i, j) == FieldValue(values, ifield, layers, true, layers, j)
    ensures layers + |values| <= i && layers <= j < layers + |values[0]| ==>
              FieldValue(values, ifield, layers, true, i, j) == FieldValue(values, ifield, layers, true, layers + |values| - 1, j)
    ensures j < layers ==> FieldValue(values, ifield, layers, true, i, j) == FieldValue(values, ifield, layers, true, i, layers)
    ensures layers + |values[0]| <= j ==>
              FieldValue(values, ifield, layers, true, i, j) == FieldValue(values, ifield, layers, true, i, layers + |values[0]| - 1)
  {
  }
}
