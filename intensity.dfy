/**
 * The pixel-level values of the pipeline: the label mask the segmentation
 * model returns, 8-bit frames, the distinct labels of a mask (np.unique),
 * the pixels of one cell (frame[masks == cell_id]), their mean, the mean
 * brightness of a whole frame and the binary mask image (masks > 0) * 255.
 */
module Intensity {
  /** One 8-bit pixel sample (numpy uint8). */
  type Byte = x: int | 0 <= x < 256

  /** A label mask: 0 is background, every other value names one cell. */
  type Mask = seq<seq<nat>>

  /** A single-channel 8-bit frame, row by row. */
  type Frame = seq<seq<Byte>>

  /** A per-cell, per-frame table entry: a mean intensity or the missing marker (NaN in the source). */
  datatype Entry = Missing | Value(mean: real)

  predicate SameShape<A, B>(a: seq<seq<A>>, b: seq<seq<B>>) {
    |a| == |b| && forall i :: 0 <= i < |a| ==> |a[i]| == |b[i]|
  }

  /** Label l is the value of at least one pixel of m. */
  predicate Occurs(m: Mask, l: nat) {
    exists i :: 0 <= i < |m| && l in m[i]
  }

  lemma OccursSplit(m: Mask, l: nat)
    requires m != []
    ensures Occurs(m, l) <==> l in m[0] || Occurs(m[1..], l)
  {
    if Occurs(m[1..], l) {
      var i :| 0 <= i < |m[1..]| && l in m[1..][i];
      assert l in m[i + 1];
    }
    if Occurs(m, l) && l !in m[0] {
      var i :| 0 <= i < |m| && l in m[i];
      assert l in m[1..][i - 1];
    }
  }

  // ---------------------------------------------------------------------
  // np.unique: the distinct values of a mask in ascending order

  predicate StrictlyAscending(s: seq<nat>) {
    forall i, j :: 0 <= i < j < |s| ==> s[i] < s[j]
  }

  function InsertSorted(s: seq<nat>, x: nat): (r: seq<nat>)
    requires StrictlyAscending(s)
    ensures StrictlyAscending(r)
    ensures forall y :: y in r <==> y in s || y == x
  {
    if s == [] then [x]
    else if x < s[0] then
      var r := [x] + s;
      assert StrictlyAscending(r) by {
        forall i, j | 0 <= i < j < |r| ensures r[i] < r[j] {
          if i == 0 && j > 1 {
            assert s[0] < s[j - 1];
          }
        }
      }
      r
    else if x == s[0] then s
    else
      var tail := s[1..];
      assert StrictlyAscending(tail);
      assert forall y :: y in tail ==> s[0] < y by {
        forall y | y in tail ensures s[0] < y {
          var k :| 0 <= k < |tail| && tail[k] == y;
          assert s[k + 1] == y;
        }
      }
      var rest := InsertSorted(tail, x);
      var r := [s[0]] + rest;
      assert StrictlyAscending(r) by {
        forall i, j | 0 <= i < j < |r| ensures r[i] < r[j] {
          assert r[j] == rest[j - 1];
          if i == 0 {
            assert rest[j - 1] in rest;
          } else {
            assert r[i] == rest[i - 1];
          }
        }
      }
      r
  }

  function InsertAll(s: seq<nat>, row: seq<nat>): (r: seq<nat>)
    requires StrictlyAscending(s)
    ensures StrictlyAscending(r)
    ensures forall y :: y in r <==> y in s || y in row
    decreases |row|
  {
    if row == [] then s else InsertAll(InsertSorted(s, row[0]), row[1..])
  }

  /** The distinct values of the mask, ascending: what np.unique(masks) returns. */
  function Unique(m: Mask): (r: seq<nat>)
    ensures StrictlyAscending(r)
    ensures forall y :: y in r <==> Occurs(m, y)
  {
    if m == [] then []
    else
      OccursSplit(m, 0);
      assert forall y :: Occurs(m, y) <==> y in m[0] || Occurs(m[1..], y) by {
        forall y ensures Occurs(m, y) <==> y in m[0] || Occurs(m[1..], y) { OccursSplit(m, y); }
      }
      InsertAll(Unique(m[1..]), m[0])
  }

  /**
   * The elements of s, in their order, that are neither the background
   * label 0 nor already in seen.
   */
  function NewLabels(s: seq<nat>, seen: seq<nat>): (r: seq<nat>)
    ensures forall y :: y in r <==> y in s && y != 0 && y !in seen
    ensures StrictlyAscending(s) ==> StrictlyAscending(r)
  {
    if s == [] then []
    else
      var last := s[|s| - 1];
      var init := NewLabels(s[..|s| - 1], seen);
      assert StrictlyAscending(s) ==> StrictlyAscending(init) && forall y :: y in init ==> y < last by {
        if StrictlyAscending(s) {
          assert StrictlyAscending(s[..|s| - 1]);
          forall y | y in init ensures y < last {
            var k :| 0 <= k < |s| - 1 && s[..|s| - 1][k] == y;
          }
        }
      }
      var r := init + (if last != 0 && last !in seen then [last] else []);
      assert StrictlyAscending(s) ==> StrictlyAscending(r) by {
        if StrictlyAscending(s) {
          forall i, j | 0 <= i < j < |r| ensures r[i] < r[j] {
            if j >= |init| { assert init[i] in init; }
          }
        }
      }
      r
  }

  lemma NewLabelsSnoc(s: seq<nat>, y: nat, seen: seq<nat>)
    ensures NewLabels(s + [y], seen) == NewLabels(s, seen) + (if y != 0 && y !in seen then [y] else [])
  {
    assert (s + [y])[..|s|] == s;
  }

  /** Nothing is new when every non-zero label was seen already. */
  lemma {:induction false} NewLabelsOfSeen(s: seq<nat>, seen: seq<nat>)
    requires forall y :: y in s && y != 0 ==> y in seen
    ensures NewLabels(s, seen) == []
  {
    if s != [] {
      assert forall y :: y in s[..|s| - 1] ==> y in s;
      NewLabelsOfSeen(s[..|s| - 1], seen);
    }
  }

  /** The cell labels of a mask, ascending: np.unique(masks) with the background 0 skipped. */
  function Cells(m: Mask): (r: seq<nat>)
    ensures StrictlyAscending(r)
    ensures forall y :: y in r <==> y != 0 && Occurs(m, y)
  {
    NewLabels(Unique(m), [])
  }

  // ---------------------------------------------------------------------
  // frame[masks == cell_id] and its mean

  /** The pixels of one row whose label is l, left to right. */
  function SelectRow(labels: seq<nat>, pixels: seq<Byte>, l: nat): (r: seq<Byte>)
    requires |labels| == |pixels|
    ensures |r| > 0 <==> l in labels
    ensures forall p :: p in r <==> exists j :: 0 <= j < |labels| && labels[j] == l && pixels[j] == p
    ensures |r| == RowCount(labels, l) && Sum(r) == RowSum(labels, pixels, l)
  {
    if labels == [] then []
    else
      var rest := SelectRow(labels[1..], pixels[1..], l);
      assert forall p :: p in rest <==> exists j :: 1 <= j < |labels| && labels[j] == l && pixels[j] == p by {
        forall p ensures p in rest <==> exists j :: 1 <= j < |labels| && labels[j] == l && pixels[j] == p {
          if p in rest {
            var j :| 0 <= j < |labels[1..]| && labels[1..][j] == l && pixels[1..][j] == p;
            assert labels[j + 1] == l && pixels[j + 1] == p;
          }
          if exists j :: 1 <= j < |labels| && labels[j] == l && pixels[j] == p {
            var j :| 1 <= j < |labels| && labels[j] == l && pixels[j] == p;
            assert labels[1..][j - 1] == l && pixels[1..][j - 1] == p;
          }
        }
      }
      var here := if labels[0] == l then [pixels[0]] else [];
      SumConcat(here, rest);
      here + rest
  }

  /** How many positions of one row carry label l. */
  function RowCount(labels: seq<nat>, l: nat): nat {
    if labels == [] then 0 else (if labels[0] == l then 1 else 0) + RowCount(labels[1..], l)
  }

  /** The sum of the samples of one row at the positions labelled l. */
  function RowSum(labels: seq<nat>, pixels: seq<Byte>, l: nat): nat
    requires |labels| == |pixels|
  {
    if labels == [] then 0 else (if labels[0] == l then pixels[0] as nat else 0) + RowSum(labels[1..], pixels[1..], l)
  }

  /** How many pixels of the mask carry label l. */
  function CountAt(m: Mask, l: nat): nat {
    if m == [] then 0 else RowCount(m[0], l) + CountAt(m[1..], l)
  }

  /** The sum of the frame's samples at the pixels the mask labels l. */
  function SumAt(m: Mask, f: Frame, l: nat): nat
    requires SameShape(m, f)
  {
    if m == [] then 0
    else
      assert SameShape(m[1..], f[1..]) by {
        forall i | 0 <= i < |m[1..]| ensures |m[1..][i]| == |f[1..][i]| { assert m[1..][i] == m[i + 1]; }
      }
      RowSum(m[0], f[0], l) + SumAt(m[1..], f[1..], l)
  }

  /** The samples of the first row joined with those of the later rows are the samples of the whole mask. */
  lemma SelectJoin(m: Mask, f: Frame, l: nat, here: seq<Byte>, rest: seq<Byte>)
    requires SameShape(m, f) && m != []
    requires forall p :: p in here <==> exists j :: 0 <= j < |m[0]| && m[0][j] == l && f[0][j] == p
    requires forall p :: p in rest <==>
      exists i, j :: 0 <= i < |m[1..]| && 0 <= j < |m[1..][i]| && m[1..][i][j] == l && f[1..][i][j] == p
    ensures forall p :: p in here + rest <==>
      exists i, j :: 0 <= i < |m| && 0 <= j < |m[i]| && m[i][j] == l && f[i][j] == p
  {
    forall p ensures p in here + rest <==>
      exists i, j :: 0 <= i < |m| && 0 <= j < |m[i]| && m[i][j] == l && f[i][j] == p {
      if p in rest {
        var i, j :| 0 <= i < |m[1..]| && 0 <= j < |m[1..][i]| && m[1..][i][j] == l && f[1..][i][j] == p;
        assert m[i + 1][j] == l && f[i + 1][j] == p;
      }
      if p in here {
        var j :| 0 <= j < |m[0]| && m[0][j] == l && f[0][j] == p;
        assert m[0][j] == l && f[0][j] == p;
      }
      if exists i, j :: 0 <= i < |m| && 0 <= j < |m[i]| && m[i][j] == l && f[i][j] == p {
        var i, j :| 0 <= i < |m| && 0 <= j < |m[i]| && m[i][j] == l && f[i][j] == p;
        if i == 0 {
          assert p in here;
        } else {
          assert m[1..][i - 1][j] == l && f[1..][i - 1][j] == p;
        }
      }
    }
  }

  /** The pixels of f whose label in m is l, in row-major order: numpy's frame[masks == l]. */
  function Select(m: Mask, f: Frame, l: nat): (r: seq<Byte>)
    requires SameShape(m, f)
    ensures |r| > 0 <==> Occurs(m, l)
    ensures forall p :: p in r <==>
      exists i, j :: 0 <= i < |m| && 0 <= j < |m[i]| && m[i][j] == l && f[i][j] == p
    ensures |r| == CountAt(m, l) && Sum(r) == SumAt(m, f, l)
  {
    if m == [] then []
    else
      OccursSplit(m, l);
      assert SameShape(m[1..], f[1..]) by {
        forall i | 0 <= i < |m[1..]| ensures |m[1..][i]| == |f[1..][i]| { assert m[1..][i] == m[i + 1]; }
      }
      var here := SelectRow(m[0], f[0], l);
      var rest := Select(m[1..], f[1..], l);
      SelectJoin(m, f, l, here, rest);
      SumConcat(here, rest);
      here + rest
  }

  function Sum(s: seq<Byte>): nat {
    if s == [] then 0 else s[0] + Sum(s[1..])
  }

  lemma {:induction false} SumConcat(a: seq<Byte>, b: seq<Byte>)
    ensures Sum(a + b) == Sum(a) + Sum(b)
  {
    if a != [] {
      assert (a + b)[1..] == a[1..] + b;
      SumConcat(a[1..], b);
    } else {
      assert a + b == b;
    }
  }

  /** Bounds on every sample bound the sum. */
  lemma {:induction false} SumWithin(s: seq<Byte>, lo: int, hi: int)
    requires forall p :: p in s ==> lo <= p <= hi
    ensures lo * |s| <= Sum(s) <= hi * |s|
  {
    if s != [] {
      var tail := s[1..];
      assert s[0] in s;
      assert forall p :: p in tail ==> p in s;
      SumWithin(tail, lo, hi);
      MulSucc(lo, |tail|);
      MulSucc(hi, |tail|);
    }
  }

  lemma MulSucc(a: int, n: nat)
    ensures a * (n + 1) == a * n + a
  {
  }

  lemma QuotientWithin(total: nat, count: nat, lo: int, hi: int)
    requires count > 0 && lo * count <= total <= hi * count
    ensures lo as real <= (total as real) / (count as real) <= hi as real
  {
    var q := (total as real) / (count as real);
    assert q * (count as real) == total as real;
    assert (lo as real) * (count as real) == (lo * count) as real;
    assert (hi as real) * (count as real) == (hi * count) as real;
  }

  /** np.mean of a non-empty sequence of uint8 samples, computed exactly. */
  function Average(s: seq<Byte>): (r: real)
    requires |s| > 0
    ensures 0.0 <= r <= 255.0
  {
    AverageWithin(s, 0, 255);
    (Sum(s) as real) / (|s| as real)
  }

  /** If every sample lies in [lo, hi], so does the average. */
  lemma AverageWithin(s: seq<Byte>, lo: int, hi: int)
    requires |s| > 0 && forall p :: p in s ==> lo <= p <= hi
    ensures lo as real <= (Sum(s) as real) / (|s| as real) <= hi as real
  {
    SumWithin(s, lo, hi);
    QuotientWithin(Sum(s), |s|, lo, hi);
  }

  /** The exact arithmetic mean of the pixels labelled l (the source rounds it further). */
  function Mean(m: Mask, f: Frame, l: nat): (r: real)
    requires SameShape(m, f) && Occurs(m, l)
    ensures 0.0 <= r <= 255.0
  {
    Average(Select(m, f, l))
  }

  /** The mean is the sum of the samples labelled l divided by how many pixels carry l. */
  lemma MeanIsSumOverCount(m: Mask, f: Frame, l: nat)
    requires SameShape(m, f) && Occurs(m, l)
    ensures CountAt(m, l) > 0
    ensures Mean(m, f, l) == (SumAt(m, f, l) as real) / (CountAt(m, l) as real)
  {
    var pixels := Select(m, f, l);
    assert |pixels| == CountAt(m, l) && Sum(pixels) == SumAt(m, f, l);
  }

  /** Label 1 covers samples 0, 0 and 255: the mean is 85, each sample counted once per pixel. */
  lemma MeanCountsEveryPixel()
    ensures SameShape([[1, 1, 1]], [[0, 0, 255]]) && Occurs([[1, 1, 1]], 1)
    ensures Mean([[1, 1, 1]], [[0, 0, 255]], 1) == 85.0
  {
    var m: Mask := [[1, 1, 1]];
    var f: Frame := [[0, 0, 255]];
    assert m[0][0] == 1;
    MeanIsSumOverCount(m, f, 1);
    assert m[1..] == [] && f[1..] == [];
    assert CountAt(m, 1) == 3 && SumAt(m, f, 1) == 255;
  }

  /** If every pixel of the cell lies in [lo, hi], so does the cell's mean. */
  lemma MeanWithin(m: Mask, f: Frame, l: nat, lo: int, hi: int)
    requires SameShape(m, f) && Occurs(m, l)
    requires forall i, j :: 0 <= i < |m| && 0 <= j < |m[i]| && m[i][j] == l ==> lo <= f[i][j] <= hi
    ensures lo as real <= Mean(m, f, l) <= hi as real
  {
    AverageWithin(Select(m, f, l), lo, hi);
  }

  /** A cell whose pixels all have value v has mean v. */
  lemma MeanOfUniformCell(m: Mask, f: Frame, l: nat, v: Byte)
    requires SameShape(m, f) && Occurs(m, l)
    requires forall i, j :: 0 <= i < |m| && 0 <= j < |m[i]| && m[i][j] == l ==> f[i][j] == v
    ensures Mean(m, f, l) == v as real
  {
    MeanWithin(m, f, l, v, v);
  }

  // ---------------------------------------------------------------------
  // np.mean(frame): the brightness used to pick the reference frame

  /** All samples of a frame, row-major. */
  function Pixels(f: Frame): (r: seq<Byte>)
    ensures |f| > 0 && |f[0]| > 0 ==> |r| > 0
  {
    if f == [] then [] else f[0] + Pixels(f[1..])
  }

  /** The mean over all samples of a frame that has any. */
  function Brightness(f: Frame): (r: real)
    requires |Pixels(f)| > 0
    ensures 0.0 <= r <= 255.0
  {
    Average(Pixels(f))
  }

  // ---------------------------------------------------------------------
  // (masks > 0).astype(np.uint8) * 255

  /** The binary mask image: 255 on labelled pixels, 0 on background. */
  function BinaryMask(m: Mask): (r: seq<seq<Byte>>)
    ensures SameShape(r, m)
    ensures forall i, j :: 0 <= i < |m| && 0 <= j < |m[i]| ==>
      r[i][j] == (if m[i][j] > 0 then 255 else 0)
  {
    seq(|m|, i requires 0 <= i < |m| =>
      seq(|m[i]|, j requires 0 <= j < |m[i]| => if m[i][j] > 0 then 255 else 0))
  }

  /** The foreground of the binary mask image is exactly the union of the cells np.unique reports. */
  lemma ForegroundIsCells(m: Mask, i: nat, j: nat)
    requires i < |m| && j < |m[i]|
    ensures BinaryMask(m)[i][j] == 255 <==> m[i][j] in Cells(m)
    ensures BinaryMask(m)[i][j] == 0 <==> m[i][j] !in Cells(m)
  {
    assert m[i][j] in m[i];
    assert Occurs(m, m[i][j]);
  }
}
