/**
 * The whole run, with the video, the segmentation model and the user's stop
 * request as inputs: scan for the brightest frame, segment it once, apply
 * that mask to every frame up to the stop, then export the table.
 */
module Pipeline {
  import opened Wrappers
  import opened Intensity
  import opened Naming
  import opened ReferenceFrame
  import opened CsvExport
  import opened Fluorescence

  datatype Error = NoReferenceFrame

  /** An image written for one frame: its file name and its pixels. */
  datatype Image = Image(name: string, pixels: seq<seq<Byte>>)

  /** What one run produces, apart from the files' encoding. */
  datatype Output = Output(
    reference: nat,
    mask: Mask,
    frameCount: nat,
    maskImages: seq<Image>,
    overlayNames: seq<string>,
    header: seq<string>,
    rows: seq<Row>)

  /**
   * The brightness the scan compares. numpy's mean of a frame without
   * samples is NaN, which never compares greater than the running maximum;
   * -1.0 never does either, so it stands in for NaN here.
   */
  function FrameBrightness(f: Frame): (r: real)
    ensures r == -1.0 <==> |Pixels(f)| == 0
    ensures |Pixels(f)| > 0 ==> 0.0 <= r <= 255.0
  {
    if |Pixels(f)| == 0 then -1.0 else Brightness(f)
  }

  function Scan(frames: seq<Frame>): (b: seq<real>)
    ensures |b| == |frames|
    ensures forall j :: 0 <= j < |frames| ==> b[j] == FrameBrightness(frames[j])
  {
    seq(|frames|, j requires 0 <= j < |frames| => FrameBrightness(frames[j]))
  }

  /**
   * n frames is where the main loop ends: the user did not ask to stop
   * before any of them, and either asked before frame n or the video has no
   * frame n.
   */
  predicate StopsAt(total: nat, stop: nat -> bool, n: nat) {
    && n <= total
    && (forall j :: 0 <= j < n ==> !stop(j))
    && (n < total ==> stop(n))
  }

  /** The loop ends at exactly one frame count. */
  lemma StopsAtUnique(total: nat, stop: nat -> bool, n: nat, m: nat)
    requires StopsAt(total, stop, n) && StopsAt(total, stop, m)
    ensures n == m
  {
    assert n < m ==> stop(n);
    assert m < n ==> stop(m);
  }

  /** No stop request before frame k, one frame at a time. */
  predicate NoStopBefore(stop: nat -> bool, k: nat) {
    k == 0 || (NoStopBefore(stop, k - 1) && !stop(k - 1))
  }

  lemma {:induction false} NoStopBeforeSpec(stop: nat -> bool, k: nat)
    ensures NoStopBefore(stop, k) <==> forall j :: 0 <= j < k ==> !stop(j)
  {
    if k > 0 {
      NoStopBeforeSpec(stop, k - 1);
    }
  }

  /** The cells the reference mask reports, with their mean in each of the first n frames. */
  predicate ConstantMaskRows(mask: Mask, frames: seq<Frame>, n: nat, rows: seq<Row>)
    requires n <= |frames| && forall j :: 0 <= j < n ==> SameShape(mask, frames[j])
  {
    && |rows| == (if n == 0 then 0 else |Cells(mask)|)
    && forall q :: 0 <= q < |rows| ==>
         && rows[q].cellId == Cells(mask)[q]
         && Occurs(mask, rows[q].cellId)
         && |rows[q].values| == n
         && forall j :: 0 <= j < n ==> rows[q].values[j] == Value(Mean(mask, frames[j], rows[q].cellId))
  }

  /** The same mask applied k times gives the history the table sees. */
  function Repeated(mask: Mask, k: nat): (ms: seq<Mask>)
    ensures |ms| == k && forall j :: 0 <= j < k ==> ms[j] == mask
  {
    if k == 0 then [] else Repeated(mask, k - 1) + [mask]
  }

  /** With one mask for every frame, the keys are that mask's cells in ascending order. */
  lemma {:induction false} FirstAppearanceRepeated(mask: Mask, k: nat)
    ensures FirstAppearance(Repeated(mask, k)) == if k == 0 then [] else Cells(mask)
  {
    if k > 0 {
      var ms := Repeated(mask, k);
      assert ms[..k - 1] == Repeated(mask, k - 1);
      FirstAppearanceRepeated(mask, k - 1);
      if k > 1 {
        NewLabelsOfSeen(Unique(mask), Cells(mask));
      }
    }
  }

  /** With one mask for every frame, a cell's trace holds its mean in every frame. */
  lemma TraceRepeated(mask: Mask, frames: seq<Frame>, k: nat, l: nat)
    requires k <= |frames| && forall j :: 0 <= j < k ==> SameShape(mask, frames[j])
    requires WellShaped(Repeated(mask, k), frames[..k]) && Occurs(mask, l)
    ensures |Trace(l, Repeated(mask, k), frames[..k])| == k
    ensures forall j :: 0 <= j < k ==>
      Trace(l, Repeated(mask, k), frames[..k])[j] == Value(Mean(mask, frames[j], l))
  {
    var t := Trace(l, Repeated(mask, k), frames[..k]);
    forall j | 0 <= j < k ensures t[j] == Value(Mean(mask, frames[j], l)) {
      assert Repeated(mask, k)[j] == mask && frames[..k][j] == frames[j];
    }
  }

  /** The export of a table that saw the same mask k times: its cells, each with its k means. */
  lemma RowsOfRepeated(mask: Mask, frames: seq<Frame>, k: nat, order: seq<nat>, rows: seq<Row>)
    requires k <= |frames| && forall j :: 0 <= j < k ==> SameShape(mask, frames[j])
    requires WellShaped(Repeated(mask, k), frames[..k])
    requires order == FirstAppearance(Repeated(mask, k))
    requires |rows| == |order|
    requires forall q :: 0 <= q < |rows| ==> rows[q] == Row(order[q], Trace(order[q], Repeated(mask, k), frames[..k]))
    ensures ConstantMaskRows(mask, frames, k, rows)
  {
    FirstAppearanceRepeated(mask, k);
    forall q | 0 <= q < |rows|
      ensures rows[q].cellId == Cells(mask)[q] && Occurs(mask, rows[q].cellId) && |rows[q].values| == k
      ensures forall j :: 0 <= j < k ==> rows[q].values[j] == Value(Mean(mask, frames[j], rows[q].cellId))
    {
      var l := order[q];
      assert l in Cells(mask);
      TraceRepeated(mask, frames, k, l);
    }
  }

  /** The binary mask images of the first k frames, all of the one mask. */
  function MaskImages(mask: Mask, k: nat): (images: seq<Image>)
    ensures |images| == k
    ensures forall i :: 0 <= i < k ==> images[i] == Image(MaskFileName(i), BinaryMask(mask))
  {
    if k == 0 then [] else MaskImages(mask, k - 1) + [Image(MaskFileName(k - 1), BinaryMask(mask))]
  }

  /** The overlay file names of the first k frames. */
  function OverlayNames(k: nat): (names: seq<string>)
    ensures |names| == k && forall i :: 0 <= i < k ==> names[i] == OverlayFileName(i)
  {
    if k == 0 then [] else OverlayNames(k - 1) + [OverlayFileName(k - 1)]
  }

  lemma PrefixSnoc(frames: seq<Frame>, k: nat)
    requires k < |frames|
    ensures frames[..k + 1] == frames[..k] + [frames[k]]
  {
    assert frames[..k + 1][..k] == frames[..k];
  }

  /**
   * The state of the main loop after k frames: the table holds the first k
   * frames, each seen through the one mask, and one mask image and one
   * overlay has been written per frame.
   */
  ghost predicate Progress(table: FluorescenceTable, mask: Mask, frames: seq<Frame>, k: nat,
                           maskImages: seq<Image>, overlayNames: seq<string>)
    reads table
  {
    && k <= |frames|
    && table.Valid()
    && table.frameNum == k
    && table.masks == Repeated(mask, k) && table.frames == frames[..k]
    && maskImages == MaskImages(mask, k) && overlayNames == OverlayNames(k)
  }

  /**
   * The body of the main loop for frame k, once the stop request is
   * refused: write the binary mask image, aggregate the frame, write the
   * overlay image.
   */
  method Iterate(table: FluorescenceTable, mask: Mask, frames: seq<Frame>, k: nat,
                 maskImages: seq<Image>, overlayNames: seq<string>)
    returns (maskImages': seq<Image>, overlayNames': seq<string>)
    requires Progress(table, mask, frames, k, maskImages, overlayNames)
    requires k < |frames| && SameShape(mask, frames[k])
    modifies table
    ensures Progress(table, mask, frames, k + 1, maskImages', overlayNames')
  {
    PrefixSnoc(frames, k);
    var frameNum := table.frameNum;
    maskImages' := maskImages + [Image(MaskFileName(frameNum), BinaryMask(mask))];
    overlayNames' := overlayNames + [OverlayFileName(frameNum)];
    assert maskImages' == MaskImages(mask, k + 1) && overlayNames' == OverlayNames(k + 1);
    table.ProcessFrame(mask, frames[k]);
  }

  /**
   * The main loop over the frames: before each frame honour the stop
   * request, otherwise handle the frame.
   */
  method ProcessFrames(table: FluorescenceTable, mask: Mask, frames: seq<Frame>, stop: nat -> bool)
    returns (maskImages: seq<Image>, overlayNames: seq<string>)
    requires forall j :: 0 <= j < |frames| ==> SameShape(mask, frames[j])
    requires table.Valid() && table.frameNum == 0 && table.masks == [] && table.frames == []
    modifies table
    ensures StopsAt(|frames|, stop, table.frameNum)
    ensures Progress(table, mask, frames, table.frameNum, maskImages, overlayNames)
  {
    maskImages := [];
    overlayNames := [];
    var k := 0;
    assert frames[..0] == [];
    while k < |frames|
      invariant k <= |frames| && NoStopBefore(stop, k)
      invariant Progress(table, mask, frames, k, maskImages, overlayNames)
    {
      if stop(k) {
        break;
      }
      maskImages, overlayNames := Iterate(table, mask, frames, k, maskImages, overlayNames);
      k := k + 1;
    }
    NoStopBeforeSpec(stop, k);
  }

  /**
   * Everything after segmentation: the main loop over the frames with the
   * one mask, then the CSV export of the table it filled.
   */
  method Aggregate(mask: Mask, frames: seq<Frame>, stop: nat -> bool)
    returns (k: nat, maskImages: seq<Image>, overlayNames: seq<string>, header: seq<string>, rows: seq<Row>)
    requires forall j :: 0 <= j < |frames| ==> SameShape(mask, frames[j])
    ensures StopsAt(|frames|, stop, k)
    ensures maskImages == MaskImages(mask, k) && overlayNames == OverlayNames(k)
    ensures header == Header(k)
    ensures ConstantMaskRows(mask, frames, k, rows)
  {
    var table := new FluorescenceTable();
    maskImages, overlayNames := ProcessFrames(table, mask, frames, stop);
    k := table.frameNum;
    header, rows := table.Export();
    RowsOfRepeated(mask, frames, k, table.cellOrder, rows);
  }

  /**
   * The script from the brightness scan to the CSV rows. The user's stop
   * request is the index of the frame before which stop() first returns
   * true, if any.
   */
  method Run(frames: seq<Frame>, segment: Frame -> Mask, stop: nat -> bool) returns (r: Result<Output, Error>)
    requires forall j :: 0 <= j < |frames| ==> SameShape(frames[j], frames[0])
    requires forall f :: SameShape(segment(f), f)
    ensures r.Err? <==> forall j :: 0 <= j < |frames| ==> |Pixels(frames[j])| == 0
    ensures r.Ok? ==>
      var o := r.value;
      && IsFirstMax(Scan(frames), o.reference)
      && o.mask == segment(frames[o.reference])
      && StopsAt(|frames|, stop, o.frameCount)
      && |o.maskImages| == o.frameCount && |o.overlayNames| == o.frameCount
      && (forall k :: 0 <= k < o.frameCount ==>
            o.maskImages[k] == Image(MaskFileName(k), BinaryMask(o.mask)) && o.overlayNames[k] == OverlayFileName(k))
      && o.header == Header(o.frameCount)
      && (forall j :: 0 <= j < o.frameCount ==> SameShape(o.mask, frames[j]))
      && ConstantMaskRows(o.mask, frames, o.frameCount, o.rows)
  {
    var reference := SelectReference(Scan(frames));
    if reference.None? {
      return Err(NoReferenceFrame);
    }
    var ref := reference.value;
    var mask := segment(frames[ref]);
    assert forall j :: 0 <= j < |frames| ==> SameShape(mask, frames[j]);
    var k, maskImages, overlayNames, header, rows := Aggregate(mask, frames, stop);
    r := Ok(Output(ref, mask, k, maskImages, overlayNames, header, rows));
  }
}
