/** Colour-feature extraction (app.py, get_segmented_features_set and
    get_features): from a segmented HSV image and its k-means label vector,
    one representative colour per cluster id 0..4, taken from the first pixel
    in row-major order that carries that id. */
module Features {
  import opened Wrappers

  /** One pixel's three channels (hue, saturation, value of the segmented
      image), i.e. `[feature_1, feature_2, feature_3]`. */
  datatype Triple = Triple(h: int, s: int, v: int)

  /** A two-dimensional array, stored row by row. */
  type Grid<T> = seq<seq<T>>

  /** Number of clusters k-means produces; cluster ids are 0 .. ClusterCount - 1. */
  const ClusterCount: nat := 5

  function Width<T>(g: Grid<T>): nat {
    if |g| == 0 then 0 else |g[0]|
  }

  predicate IsRect<T>(g: Grid<T>, height: nat, width: nat) {
    |g| == height && forall i :: 0 <= i < height ==> |g[i]| == width
  }

  /** A rectangular grid, as every numpy image is. */
  predicate IsImage<T>(g: Grid<T>) {
    IsRect(g, |g|, Width(g))
  }

  /** Image and label grid have the same height and width. */
  predicate SameShape<S, T>(img: Grid<S>, lbl: Grid<T>) {
    IsImage(img) && IsRect(lbl, |img|, Width(img))
  }

  /** Row-major flattening: the rows one after another. */
  function Concat<T>(rows: seq<seq<T>>): (r: seq<T>)
    ensures |rows| == 0 ==> r == []
  {
    if |rows| == 0 then [] else rows[0] + Concat(rows[1..])
  }

  lemma {:induction false} ConcatAppend<T>(a: seq<seq<T>>, b: seq<seq<T>>)
    ensures Concat(a + b) == Concat(a) + Concat(b)
  {
    if |a| == 0 {
      assert a + b == b;
    } else {
      assert (a + b)[1..] == a[1..] + b;
      ConcatAppend(a[1..], b);
    }
  }

  /** Flattening a prefix one row longer appends that row. */
  lemma ConcatSnoc<T>(rows: seq<seq<T>>, i: nat)
    requires i < |rows|
    ensures Concat(rows[..i + 1]) == Concat(rows[..i]) + rows[i]
  {
    assert rows[..i + 1] == rows[..i] + [rows[i]];
    ConcatAppend(rows[..i], [rows[i]]);
    assert Concat([rows[i]]) == rows[i] + Concat([rows[i]][1..]);
  }

  /** If no row is longer than m, the flattening has at most m entries per row. */
  lemma {:induction false} ConcatLengthBound<T>(rows: seq<seq<T>>, m: nat)
    requires forall k :: 0 <= k < |rows| ==> |rows[k]| <= m
    ensures |Concat(rows)| <= m * |rows|
  {
    if |rows| > 0 {
      ConcatLengthBound(rows[1..], m);
      assert m * |rows| == m + m * |rows[1..]|;
    }
  }

  /** numpy's `reshape(height, width)` of a flat vector: fails (ValueError,
      here None) unless the sizes agree, and otherwise cuts the vector into
      rows whose row-major flattening is the vector again. */
  function Reshape<T>(flat: seq<T>, height: nat, width: nat): (r: Option<Grid<T>>)
    ensures r.Some? <==> |flat| == height * width
    ensures r.Some? ==> IsRect(r.value, height, width) && Concat(r.value) == flat
    decreases height
  {
    if height == 0 then
      if |flat| == 0 then Some([]) else None
    else if |flat| < width then
      assert |flat| != height * width by {
        assert height * width == width + (height - 1) * width;
      }
      None
    else
      assert height * width == width + (height - 1) * width;
      match Reshape(flat[width..], height - 1, width)
      case None => None
      case Some(rest) =>
        assert flat == flat[..width] + flat[width..];
        Some([flat[..width]] + rest)
  }

  /** Reshape undoes row-major flattening. */
  lemma {:induction false} ReshapeConcat<T>(g: Grid<T>, height: nat, width: nat)
    requires IsRect(g, height, width)
    ensures Reshape(Concat(g), height, width) == Some(g)
    decreases height
  {
    if height > 0 {
      var flat := Concat(g);
      assert IsRect(g[1..], height - 1, width);
      ReshapeConcat(g[1..], height - 1, width);
      assert flat[..width] == g[0];
      assert flat[width..] == Concat(g[1..]);
      assert [g[0]] + g[1..] == g;
    }
  }

  /** A cell of a grid. */
  datatype Pos = Pos(row: nat, col: nat)

  predicate InGrid<T>(g: Grid<T>, p: Pos) {
    p.row < |g| && p.col < |g[p.row]|
  }

  function At<T>(g: Grid<T>, p: Pos): T
    requires InGrid(g, p)
  {
    g[p.row][p.col]
  }

  /** Row-major order on cells: p is visited before q. */
  predicate Before(p: Pos, q: Pos) {
    p.row < q.row || (p.row == q.row && p.col < q.col)
  }

  /** Some cell of lbl carries id c. */
  ghost predicate Occurs(lbl: Grid<int>, c: int) {
    exists q :: InGrid(lbl, q) && At(lbl, q) == c
  }

  /** p is the first cell of lbl, in row-major order, that carries id c. */
  ghost predicate IsFirst(lbl: Grid<int>, c: int, p: Pos) {
    && InGrid(lbl, p)
    && At(lbl, p) == c
    && forall q :: InGrid(lbl, q) && Before(q, p) ==> At(lbl, q) != c
  }

  /** The first column at or after j of row that carries c. */
  function FirstInRow(row: seq<int>, c: int, j: nat): (r: Option<nat>)
    requires j <= |row|
    ensures r.Some? ==> j <= r.value < |row| && row[r.value] == c
    ensures r.Some? ==> forall k :: j <= k < r.value ==> row[k] != c
    ensures r.None? ==> forall k :: j <= k < |row| ==> row[k] != c
    decreases |row| - j
  {
    if j == |row| then None
    else if row[j] == c then Some(j)
    else FirstInRow(row, c, j + 1)
  }

  /** The first cell, in row-major order and in rows i and below, that carries c. */
  function FirstPosFrom(lbl: Grid<int>, c: int, i: nat): (r: Option<Pos>)
    requires i <= |lbl|
    ensures r.Some? ==> InGrid(lbl, r.value) && i <= r.value.row && At(lbl, r.value) == c
    ensures r.Some? ==> forall q :: InGrid(lbl, q) && i <= q.row && Before(q, r.value) ==> At(lbl, q) != c
    ensures r.None? ==> forall q :: InGrid(lbl, q) && i <= q.row ==> At(lbl, q) != c
    decreases |lbl| - i
  {
    if i == |lbl| then None
    else match FirstInRow(lbl[i], c, 0)
      case Some(j) => Some(Pos(i, j))
      case None => FirstPosFrom(lbl, c, i + 1)
  }

  /** The first cell of lbl, in row-major order, that carries c; None when
      no cell does. */
  function FirstPos(lbl: Grid<int>, c: int): (r: Option<Pos>)
    ensures r.None? <==> !Occurs(lbl, c)
    ensures forall p :: IsFirst(lbl, c, p) <==> r == Some(p)
  {
    var r := FirstPosFrom(lbl, c, 0);
    if r.Some? then
      forall p | IsFirst(lbl, c, p)
        ensures p == r.value
      {
        assert !Before(p, r.value);
        assert !Before(r.value, p);
      }
      r
    else
      r
  }

  /** The feature cluster c contributes: the colour of its first pixel, or
      nothing when no pixel carries c. */
  function FeatureOf(img: Grid<Triple>, lbl: Grid<int>, c: int): seq<Triple>
    requires SameShape(img, lbl)
  {
    match FirstPos(lbl, c)
    case None => []
    case Some(p) => [At(img, p)]
  }

  /** The features of cluster ids 0 .. n - 1, in ascending id order. */
  function FeaturesBelow(img: Grid<Triple>, lbl: Grid<int>, n: nat): seq<Triple>
    requires SameShape(img, lbl)
  {
    if n == 0 then [] else FeaturesBelow(img, lbl, n - 1) + FeatureOf(img, lbl, n - 1)
  }

  /** Reference definition of one image's feature set. */
  function ClusterFeatures(img: Grid<Triple>, lbl: Grid<int>): seq<Triple>
    requires SameShape(img, lbl)
  {
    FeaturesBelow(img, lbl, ClusterCount)
  }

  /** The cluster ids below n that occur in lbl, in ascending order. */
  ghost function PresentIds(lbl: Grid<int>, n: nat): seq<int> {
    if n == 0 then [] else PresentIds(lbl, n - 1) + (if Occurs(lbl, n - 1) then [n - 1] else [])
  }

  /** The present ids below n are exactly the ids below n that occur, each
      once, in strictly ascending order. */
  lemma {:induction false} PresentIdsSpec(lbl: Grid<int>, n: nat)
    ensures var ids := PresentIds(lbl, n);
      && |ids| <= n
      && (forall k :: 0 <= k < |ids| ==> 0 <= ids[k] < n)
      && (forall k, l :: 0 <= k < l < |ids| ==> ids[k] < ids[l])
      && (forall c :: 0 <= c < n ==> (c in ids <==> Occurs(lbl, c)))
  {
    if n > 0 {
      PresentIdsSpec(lbl, n - 1);
    }
  }

  /** The features below n are, one by one, the first-pixel colours of the
      ids present below n; absent ids contribute nothing. */
  lemma {:induction false} FeaturesBelowSpec(img: Grid<Triple>, lbl: Grid<int>, n: nat)
    requires SameShape(img, lbl)
    ensures var r, ids := FeaturesBelow(img, lbl, n), PresentIds(lbl, n);
      && |r| == |ids|
      && forall k :: 0 <= k < |ids| ==>
           FirstPos(lbl, ids[k]).Some? && r[k] == At(img, FirstPos(lbl, ids[k]).value)
  {
    if n > 0 {
      FeaturesBelowSpec(img, lbl, n - 1);
      var r0, ids0 := FeaturesBelow(img, lbl, n - 1), PresentIds(lbl, n - 1);
      var r, ids := FeaturesBelow(img, lbl, n), PresentIds(lbl, n);
      if Occurs(lbl, n - 1) {
        assert r == r0 + [At(img, FirstPos(lbl, n - 1).value)];
        assert ids == ids0 + [n - 1];
      } else {
        assert r == r0 && ids == ids0;
      }
    }
  }

  /** get_segmented_features_set at a glance: at most one feature per cluster
      id, as many as there are ids present, in ascending id order, each the
      colour of that id's first pixel. */
  lemma ClusterFeaturesSpec(img: Grid<Triple>, lbl: Grid<int>)
    requires SameShape(img, lbl)
    ensures var r, ids := ClusterFeatures(img, lbl), PresentIds(lbl, ClusterCount);
      && |r| == |ids| <= ClusterCount
      && (forall k :: 0 <= k < |ids| ==> 0 <= ids[k] < ClusterCount)
      && (forall k, l :: 0 <= k < l < |ids| ==> ids[k] < ids[l])
      && (forall c :: 0 <= c < ClusterCount ==> (c in ids <==> Occurs(lbl, c)))
      && (forall k, p :: 0 <= k < |ids| && IsFirst(lbl, ids[k], p) ==> InGrid(img, p) && r[k] == At(img, p))
  {
    PresentIdsSpec(lbl, ClusterCount);
    FeaturesBelowSpec(img, lbl, ClusterCount);
    var r, ids := ClusterFeatures(img, lbl), PresentIds(lbl, ClusterCount);
    forall k, p | 0 <= k < |ids| && IsFirst(lbl, ids[k], p)
      ensures InGrid(img, p) && r[k] == At(img, p)
    {
      assert FirstPos(lbl, ids[k]) == Some(p);
    }
  }

  /** The input accepted by get_segmented_features_set: a label vector with
      exactly one entry per pixel (otherwise the reshape raises). */
  predicate LabelsFit(img: Grid<Triple>, segLbl: seq<int>)
    requires IsImage(img)
  {
    |segLbl| == |img| * Width(img)
  }

  /** get_segmented_features_set, loop for loop: for each cluster id, scan the
      reshaped label grid row by row and keep the first matching pixel's
      colour (the `count` flag ignores later matches). */
  method GetSegmentedFeaturesSet(segImg: Grid<Triple>, segLbl: seq<int>) returns (r: Option<seq<Triple>>)
    requires IsImage(segImg)
    ensures r.None? <==> !LabelsFit(segImg, segLbl)
    ensures r.Some? ==> var g := Reshape(segLbl, |segImg|, Width(segImg)).value;
      SameShape(segImg, g) && r.value == ClusterFeatures(segImg, g)
  {
    var height, width := |segImg|, Width(segImg);
    var shaped := Reshape(segLbl, height, width);
    if shaped.None? {
      return None;
    }
    var segLabel := shaped.value;
    var fSet: seq<Triple> := [];
    var idz := 0;
    while idz < ClusterCount
      invariant 0 <= idz <= ClusterCount
      invariant fSet == FeaturesBelow(segImg, segLabel, idz)
    {
      var count := 1;
      var idx := 0;
      while idx < height
        invariant 0 <= idx <= height
        invariant count == 1 ==> fSet == FeaturesBelow(segImg, segLabel, idz)
        invariant count == 1 ==> forall q :: InGrid(segLabel, q) && q.row < idx ==> At(segLabel, q) != idz
        invariant count != 1 ==> fSet == FeaturesBelow(segImg, segLabel, idz + 1)
      {
        var idy := 0;
        while idy < width
          invariant 0 <= idy <= width
          invariant count == 1 ==> fSet == FeaturesBelow(segImg, segLabel, idz)
          invariant count == 1 ==> forall q :: InGrid(segLabel, q) && Before(q, Pos(idx, idy)) ==> At(segLabel, q) != idz
          invariant count != 1 ==> fSet == FeaturesBelow(segImg, segLabel, idz + 1)
        {
          if segLabel[idx][idy] == idz && count == 1 {
            assert IsFirst(segLabel, idz, Pos(idx, idy));
            fSet := fSet + [segImg[idx][idy]];
            count := count + 1;
          }
          idy := idy + 1;
        }
        idx := idx + 1;
      }
      if count == 1 {
        assert !Occurs(segLabel, idz);
      }
      idz := idz + 1;
    }
    r := Some(fSet);
  }

  /** get_features accepts the image at index k: its label vector exists and fits. */
  predicate ImageAccepted(seg: seq<Grid<Triple>>, segLbl: seq<seq<int>>, k: nat)
    requires k < |seg| && IsImage(seg[k])
  {
    k < |segLbl| && LabelsFit(seg[k], segLbl[k])
  }

  /** The second half of get_features: the per-image feature sets copied,
      in order, into one list. */
  method Flatten(featureSet: seq<seq<Triple>>) returns (tFeatureSet: seq<Triple>)
    ensures tFeatureSet == Concat(featureSet)
  {
    tFeatureSet := [];
    for idx := 0 to |featureSet|
      invariant tFeatureSet == Concat(featureSet[..idx])
    {
      for idy := 0 to |featureSet[idx]|
        invariant tFeatureSet == Concat(featureSet[..idx]) + featureSet[idx][..idy]
      {
        tFeatureSet := tFeatureSet + [featureSet[idx][idy]];
      }
      assert featureSet[idx][..|featureSet[idx]|] == featureSet[idx];
      ConcatSnoc(featureSet, idx);
    }
    assert featureSet[..|featureSet|] == featureSet;
  }

  /** get_features: the feature set of every image, in order, and their
      in-order concatenation (the rows of `feature_df`). An image whose labels
      are missing or do not fit makes the call raise (None). */
  method GetFeatures(seg: seq<Grid<Triple>>, segLbl: seq<seq<int>>)
    returns (r: Option<(seq<seq<Triple>>, seq<Triple>)>)
    requires forall k :: 0 <= k < |seg| ==> IsImage(seg[k])
    ensures r.None? <==> exists k :: 0 <= k < |seg| && !ImageAccepted(seg, segLbl, k)
    ensures r.Some? ==> var (featureSet, flat) := r.value;
      && |featureSet| == |seg|
      && (forall k :: 0 <= k < |seg| ==>
            && ImageAccepted(seg, segLbl, k)
            && var g := Reshape(segLbl[k], |seg[k]|, Width(seg[k])).value;
               SameShape(seg[k], g) && featureSet[k] == ClusterFeatures(seg[k], g))
      && flat == Concat(featureSet)
      && |flat| <= ClusterCount * |seg|
  {
    var featureSet: seq<seq<Triple>> := [];
    for idx := 0 to |seg|
      invariant |featureSet| == idx
      invariant forall k :: 0 <= k < idx ==>
        && ImageAccepted(seg, segLbl, k)
        && var g := Reshape(segLbl[k], |seg[k]|, Width(seg[k])).value;
           SameShape(seg[k], g) && featureSet[k] == ClusterFeatures(seg[k], g)
    {
      if idx >= |segLbl| {
        assert !ImageAccepted(seg, segLbl, idx);
        return None;
      }
      var f := GetSegmentedFeaturesSet(seg[idx], segLbl[idx]);
      if f.None? {
        assert !ImageAccepted(seg, segLbl, idx);
        return None;
      }
      featureSet := featureSet + [f.value];
    }

    var tFeatureSet := Flatten(featureSet);
    forall k | 0 <= k < |featureSet|
      ensures |featureSet[k]| <= ClusterCount
    {
      assert ImageAccepted(seg, segLbl, k);
      var g := Reshape(segLbl[k], |seg[k]|, Width(seg[k])).value;
      ClusterFeaturesSpec(seg[k], g);
    }
    ConcatLengthBound(featureSet, ClusterCount);
    r := Some((featureSet, tFeatureSet));
  }
}
