/**
 * The first pass over the video: the frame with the highest mean brightness
 * becomes the reference frame that is segmented once for the whole run.
 */
module ReferenceFrame {
  import opened Wrappers

  /** k is the first index at which brightness reaches its maximum. */
  predicate IsFirstMax(brightness: seq<real>, k: nat) {
    && k < |brightness|
    && (forall j :: 0 <= j < |brightness| ==> brightness[j] <= brightness[k])
    && (forall j :: 0 <= j < k ==> brightness[j] < brightness[k])
  }

  /**
   * The running arg-max of the brightness scan: the maximum starts at -1 and
   * a frame replaces the current reference only when strictly brighter.
   * None is the source's `reference_frame is None`.
   */
  method SelectReference(brightness: seq<real>) returns (reference: Option<nat>)
    ensures reference.None? <==> forall j :: 0 <= j < |brightness| ==> brightness[j] <= -1.0
    ensures reference.Some? ==> IsFirstMax(brightness, reference.value)
  {
    var maxBrightness: real := -1.0;
    reference := None;
    var i := 0;
    while i < |brightness|
      invariant 0 <= i <= |brightness|
      invariant reference.None? <==> forall j :: 0 <= j < i ==> brightness[j] <= -1.0
      invariant reference.None? ==> maxBrightness == -1.0
      invariant reference.Some? ==>
        IsFirstMax(brightness[..i], reference.value) && maxBrightness == brightness[reference.value]
    {
      if brightness[i] > maxBrightness {
        maxBrightness := brightness[i];
        reference := Some(i);
      }
      i := i + 1;
    }
    assert brightness[..i] == brightness;
  }

  /** Any non-empty scan of non-negative brightnesses finds a reference frame. */
  lemma NonNegativeScanFindsReference(brightness: seq<real>)
    requires |brightness| > 0
    requires forall j :: 0 <= j < |brightness| ==> brightness[j] >= 0.0
    ensures !(forall j :: 0 <= j < |brightness| ==> brightness[j] <= -1.0)
  {
    assert brightness[0] > -1.0;
  }

  /** Brightnesses 10, 55, 30, 55: the first 55 wins, the later tie does not. */
  lemma TieKeepsFirst()
    ensures IsFirstMax([10.0, 55.0, 30.0, 55.0], 1)
    ensures !IsFirstMax([10.0, 55.0, 30.0, 55.0], 3)
  {
    var b := [10.0, 55.0, 30.0, 55.0];
    assert b[1] == b[3];
  }
}
