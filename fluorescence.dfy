/**
 * The fluorescence table: a dictionary from cell label to the list of that
 * cell's per-frame mean intensities, updated in place frame by frame, and
 * the padding and row construction of the CSV export.
 */
module Fluorescence {
  import opened Intensity
  import opened CsvExport

  predicate Distinct(s: seq<nat>) {
    forall i, j :: 0 <= i < j < |s| ==> s[i] != s[j]
  }

  /** Each processed frame has the shape of the mask applied to it. */
  predicate WellShaped(masks: seq<Mask>, frames: seq<Frame>) {
    |masks| == |frames| && forall j :: 0 <= j < |masks| ==> SameShape(masks[j], frames[j])
  }

  /** Label l labels a pixel of some mask of the history. */
  predicate SeenIn(masks: seq<Mask>, l: nat) {
    exists j :: 0 <= j < |masks| && Occurs(masks[j], l)
  }

  lemma SeenInSnoc(masks: seq<Mask>, mask: Mask)
    ensures forall l :: SeenIn(masks + [mask], l) <==> SeenIn(masks, l) || Occurs(mask, l)
  {
    var all := masks + [mask];
    forall l ensures SeenIn(all, l) <==> SeenIn(masks, l) || Occurs(mask, l) {
      if SeenIn(masks, l) {
        var j :| 0 <= j < |masks| && Occurs(masks[j], l);
        assert all[j] == masks[j];
      }
      if Occurs(mask, l) {
        assert all[|masks|] == mask;
      }
      if SeenIn(all, l) && !Occurs(mask, l) {
        var j :| 0 <= j < |all| && Occurs(all[j], l);
        assert j < |masks| && all[j] == masks[j];
      }
    }
  }

  // ---------------------------------------------------------------------
  // Insertion order of the dictionary keys

  /**
   * The dictionary's key order after the given masks were processed: each
   * frame adds, in np.unique's ascending order, the non-zero labels not yet
   * present.
   */
  function FirstAppearance(masks: seq<Mask>): seq<nat> {
    if masks == [] then []
    else
      var earlier := FirstAppearance(masks[..|masks| - 1]);
      earlier + NewLabels(Unique(masks[|masks| - 1]), earlier)
  }

  /** The key order has no repeats and holds exactly the non-zero labels seen. */
  lemma {:induction false} FirstAppearanceSpec(masks: seq<Mask>)
    ensures Distinct(FirstAppearance(masks))
    ensures forall l :: l in FirstAppearance(masks) <==> l != 0 && SeenIn(masks, l)
  {
    if masks != [] {
      var prefix := masks[..|masks| - 1];
      var mask := masks[|masks| - 1];
      var earlier := FirstAppearance(prefix);
      var added := NewLabels(Unique(mask), earlier);
      FirstAppearanceSpec(prefix);
      assert masks == prefix + [mask];
      SeenInSnoc(prefix, mask);
      var r := earlier + added;
      assert Distinct(r) by {
        forall i, j | 0 <= i < j < |r| ensures r[i] != r[j] {
          if j >= |earlier| {
            if i < |earlier| {
              assert r[i] in earlier && r[j] in added;
            } else {
              assert added[i - |earlier|] < added[j - |earlier|];
            }
          }
        }
      }
    }
  }

  /** The first frame whose mask labels l. */
  function FirstSeen(masks: seq<Mask>, l: nat): (k: nat)
    requires SeenIn(masks, l)
    ensures k < |masks| && Occurs(masks[k], l)
    ensures forall j :: 0 <= j < k ==> !Occurs(masks[j], l)
  {
    var prefix := masks[..|masks| - 1];
    var mask := masks[|masks| - 1];
    assert masks == prefix + [mask];
    SeenInSnoc(prefix, mask);
    if SeenIn(prefix, l) then
      var k := FirstSeen(prefix, l);
      assert masks[k] == prefix[k];
      assert forall j :: 0 <= j < k ==> masks[j] == prefix[j];
      k
    else
      assert forall j :: 0 <= j < |prefix| ==> masks[j] == prefix[j];
      |masks| - 1
  }

  lemma FirstSeenOfPrefix(masks: seq<Mask>, l: nat)
    requires masks != [] && SeenIn(masks[..|masks| - 1], l)
    ensures SeenIn(masks, l) && FirstSeen(masks, l) == FirstSeen(masks[..|masks| - 1], l)
  {
    var prefix := masks[..|masks| - 1];
    assert masks == prefix + [masks[|masks| - 1]];
    SeenInSnoc(prefix, masks[|masks| - 1]);
  }

  /**
   * Keys come in order of first appearance; two keys that first appear in
   * the same frame come in ascending label order.
   */
  lemma {:induction false} FirstAppearanceOrder(masks: seq<Mask>, a: nat, b: nat)
    requires a < b < |FirstAppearance(masks)|
    ensures SeenIn(masks, FirstAppearance(masks)[a]) && SeenIn(masks, FirstAppearance(masks)[b])
    ensures FirstSeen(masks, FirstAppearance(masks)[a]) <= FirstSeen(masks, FirstAppearance(masks)[b])
    ensures FirstSeen(masks, FirstAppearance(masks)[a]) == FirstSeen(masks, FirstAppearance(masks)[b])
      ==> FirstAppearance(masks)[a] < FirstAppearance(masks)[b]
  {
    var r := FirstAppearance(masks);
    FirstAppearanceSpec(masks);
    assert r[a] in r && r[b] in r;
    var prefix := masks[..|masks| - 1];
    var mask := masks[|masks| - 1];
    var earlier := FirstAppearance(prefix);
    var added := NewLabels(Unique(mask), earlier);
    FirstAppearanceSpec(prefix);
    assert r == earlier + added;
    if b < |earlier| {
      FirstAppearanceOrder(prefix, a, b);
      assert earlier[a] in earlier && earlier[b] in earlier;
      FirstSeenOfPrefix(masks, r[a]);
      FirstSeenOfPrefix(masks, r[b]);
    } else if a < |earlier| {
      assert r[a] in earlier && r[b] in added;
      FirstSeenOfPrefix(masks, r[a]);
      assert !SeenIn(prefix, r[b]);
    } else {
      assert r[a] in added && r[b] in added;
      assert !SeenIn(prefix, r[a]) && !SeenIn(prefix, r[b]);
      assert added[a - |earlier|] < added[b - |earlier|];
    }
  }

  /** Every non-zero label seen in some frame, as a set. */
  ghost function SeenLabels(masks: seq<Mask>): set<nat> {
    set j, l | 0 <= j < |masks| && l in Cells(masks[j]) :: l
  }

  function Elements(s: seq<nat>): set<nat> {
    set x | x in s
  }

  lemma {:induction false} DistinctCardinality(s: seq<nat>)
    requires Distinct(s)
    ensures |Elements(s)| == |s|
  {
    if s != [] {
      var last := s[|s| - 1];
      var init := s[..|s| - 1];
      assert s == init + [last];
      assert Distinct(init);
      DistinctCardinality(init);
      assert Elements(s) == Elements(init) + {last};
      assert last !in Elements(init) by {
        forall k | 0 <= k < |init| ensures init[k] != last { assert s[k] != s[|s| - 1]; }
      }
    }
  }

  /** One key per distinct non-zero label seen: the number of CSV rows. */
  lemma KeyCountIsLabelCount(masks: seq<Mask>)
    ensures |FirstAppearance(masks)| == |SeenLabels(masks)|
  {
    var r := FirstAppearance(masks);
    FirstAppearanceSpec(masks);
    assert Elements(r) == SeenLabels(masks) by {
      forall x ensures x in r <==> x in SeenLabels(masks) {
        if x in r {
          var j :| 0 <= j < |masks| && Occurs(masks[j], x);
          assert x in Cells(masks[j]);
        }
      }
    }
    DistinctCardinality(r);
  }

  // ---------------------------------------------------------------------
  // What position j of a series holds

  /** The entry for label l at a frame: its mean there if it labels a pixel, missing otherwise. */
  function Expected(mask: Mask, frame: Frame, l: nat): Entry
    requires SameShape(mask, frame)
  {
    if Occurs(mask, l) then Value(Mean(mask, frame, l)) else Missing
  }

  /**
   * Series s of label l agrees with the history: it is no longer than the
   * history, position j holds the entry of frame j, and l is absent from
   * every frame past the end of s.
   */
  ghost predicate Positional(l: nat, s: seq<Entry>, masks: seq<Mask>, frames: seq<Frame>)
    requires WellShaped(masks, frames)
  {
    && |s| <= |masks|
    && (forall j :: 0 <= j < |s| ==> s[j] == Expected(masks[j], frames[j], l))
    && (forall j :: |s| <= j < |masks| ==> !Occurs(masks[j], l))
  }

  /** The full-length series of label l over the history. */
  function Trace(l: nat, masks: seq<Mask>, frames: seq<Frame>): (t: seq<Entry>)
    requires WellShaped(masks, frames)
    ensures |t| == |masks|
  {
    seq(|masks|, j requires 0 <= j < |masks| => Expected(masks[j], frames[j], l))
  }

  function Missings(k: nat): (s: seq<Entry>)
    ensures |s| == k && forall i :: 0 <= i < k ==> s[i] == Missing
  {
    seq(k, _ => Missing)
  }

  /** s right-padded with missing markers up to length n; unchanged when already that long. */
  function Padded(s: seq<Entry>, n: nat): (r: seq<Entry>)
    ensures |r| == if |s| < n then n else |s|
    ensures forall j :: 0 <= j < |s| ==> r[j] == s[j]
    ensures forall j :: |s| <= j < |r| ==> r[j] == Missing
  {
    if |s| < n then s + Missings(n - |s|) else s
  }

  function Lookup(series: map<nat, seq<Entry>>, l: nat): seq<Entry> {
    if l in series then series[l] else []
  }

  /** A label never seen so far starts from the empty list. */
  lemma PositionalNew(l: nat, masks: seq<Mask>, frames: seq<Frame>)
    requires WellShaped(masks, frames) && !SeenIn(masks, l)
    ensures Positional(l, [], masks, frames)
  {
  }

  /** Back-filling then appending the mean keeps the series positional when l is in the new frame. */
  lemma PositionalExtendPresent(l: nat, s: seq<Entry>, masks: seq<Mask>, frames: seq<Frame>, mask: Mask, frame: Frame)
    requires WellShaped(masks, frames) && SameShape(mask, frame)
    requires Positional(l, s, masks, frames)
    requires Occurs(mask, l)
    ensures WellShaped(masks + [mask], frames + [frame])
    ensures Positional(l, Padded(s, |masks|) + [Value(Mean(mask, frame, l))], masks + [mask], frames + [frame])
  {
    var ms, fs := masks + [mask], frames + [frame];
    assert forall j :: 0 <= j < |masks| ==> ms[j] == masks[j] && fs[j] == frames[j];
    var t := Padded(s, |masks|) + [Value(Mean(mask, frame, l))];
    forall j | 0 <= j < |t| ensures t[j] == Expected(ms[j], fs[j], l) {
      if j < |s| {
        assert t[j] == s[j];
      }
    }
  }

  /** A series left alone stays positional when l is absent from the new frame. */
  lemma PositionalExtendAbsent(l: nat, s: seq<Entry>, masks: seq<Mask>, frames: seq<Frame>, mask: Mask, frame: Frame)
    requires WellShaped(masks, frames) && SameShape(mask, frame)
    requires Positional(l, s, masks, frames)
    requires !Occurs(mask, l)
    ensures WellShaped(masks + [mask], frames + [frame])
    ensures Positional(l, s, masks + [mask], frames + [frame])
  {
    var ms, fs := masks + [mask], frames + [frame];
    assert forall j :: 0 <= j < |masks| ==> ms[j] == masks[j] && fs[j] == frames[j];
  }

  /** Export padding turns a positional series into the full trace, still positional. */
  lemma PaddedIsTrace(l: nat, s: seq<Entry>, masks: seq<Mask>, frames: seq<Frame>)
    requires WellShaped(masks, frames) && Positional(l, s, masks, frames)
    ensures Padded(s, |masks|) == Trace(l, masks, frames)
    ensures Positional(l, Padded(s, |masks|), masks, frames)
  {
    var p := Padded(s, |masks|);
    forall j | 0 <= j < |masks| ensures p[j] == Trace(l, masks, frames)[j] {
    }
  }

  /**
   * A label first seen at frame k has exactly k missing markers before its
   * first value, and that value is its mean at frame k.
   */
  lemma LeadingMissing(l: nat, s: seq<Entry>, masks: seq<Mask>, frames: seq<Frame>)
    requires WellShaped(masks, frames) && Positional(l, s, masks, frames) && SeenIn(masks, l)
    ensures FirstSeen(masks, l) < |s|
    ensures forall j :: 0 <= j < FirstSeen(masks, l) ==> s[j] == Missing
    ensures s[FirstSeen(masks, l)] == Value(Mean(masks[FirstSeen(masks, l)], frames[FirstSeen(masks, l)], l))
  {
  }

  // ---------------------------------------------------------------------
  // One frame's updates, on values

  /**
   * The dictionary after the frame loop handled the given labels, in order:
   * label 0 is skipped, every other label gets its list, created if
   * needed, back-filled to n entries and extended by its mean.
   */
  function Recorded(series: map<nat, seq<Entry>>, labels: seq<nat>, n: nat, mask: Mask, frame: Frame): map<nat, seq<Entry>>
    requires SameShape(mask, frame)
    requires forall y :: y in labels ==> Occurs(mask, y)
  {
    if labels == [] then series
    else
      var l := labels[|labels| - 1];
      var prev := Recorded(series, labels[..|labels| - 1], n, mask, frame);
      if l == 0 then prev else prev[l := Padded(Lookup(prev, l), n) + [Value(Mean(mask, frame, l))]]
  }

  /** Handling one more label: the dictionary update of a single loop iteration. */
  lemma RecordedSnoc(series: map<nat, seq<Entry>>, labels: seq<nat>, l: nat, n: nat, mask: Mask, frame: Frame)
    requires SameShape(mask, frame)
    requires forall y :: y in labels ==> Occurs(mask, y)
    requires Occurs(mask, l)
    ensures forall y :: y in labels + [l] ==> Occurs(mask, y)
    ensures Recorded(series, labels + [l], n, mask, frame) ==
      var prev := Recorded(series, labels, n, mask, frame);
      if l == 0 then prev else prev[l := Padded(Lookup(prev, l), n) + [Value(Mean(mask, frame, l))]]
  {
    assert (labels + [l])[..|labels|] == labels;
  }

  /** A label the loop has not reached yet is untouched. */
  lemma {:induction false} RecordedElsewhere(series: map<nat, seq<Entry>>, labels: seq<nat>, n: nat, mask: Mask, frame: Frame, l: nat)
    requires SameShape(mask, frame)
    requires forall y :: y in labels ==> Occurs(mask, y)
    requires l !in labels
    ensures l in Recorded(series, labels, n, mask, frame) <==> l in series
    ensures Lookup(Recorded(series, labels, n, mask, frame), l) == Lookup(series, l)
  {
    if labels != [] {
      RecordedElsewhere(series, labels[..|labels| - 1], n, mask, frame, l);
    }
  }

  /**
   * Recording one more non-zero label: what the dictionary and the key
   * order must become, and whether the label is already a key.
   */
  lemma RecordStep(before: map<nat, seq<Entry>>, beforeOrder: seq<nat>, handled: seq<nat>, cellId: nat,
                   n: nat, mask: Mask, frame: Frame, series: map<nat, seq<Entry>>, order: seq<nat>)
    requires SameShape(mask, frame)
    requires forall y :: y in handled ==> Occurs(mask, y)
    requires Occurs(mask, cellId) && cellId !in handled && cellId != 0
    requires forall l :: l in before <==> l in beforeOrder
    requires series == Recorded(before, handled, n, mask, frame)
    requires order == beforeOrder + NewLabels(handled, beforeOrder)
    ensures forall y :: y in handled + [cellId] ==> Occurs(mask, y)
    ensures Recorded(before, handled + [cellId], n, mask, frame)
      == series[cellId := Padded(Lookup(series, cellId), n) + [Value(Mean(mask, frame, cellId))]]
    ensures beforeOrder + NewLabels(handled + [cellId], beforeOrder)
      == if cellId in series then order else order + [cellId]
  {
    RecordedSnoc(before, handled, cellId, n, mask, frame);
    RecordedElsewhere(before, handled, n, mask, frame, cellId);
    assert cellId in series <==> cellId in beforeOrder;
    KeyOrderStep(beforeOrder, handled, cellId);
  }

  /** The key order after one more non-zero label: unchanged for a known key, extended for a new one. */
  lemma KeyOrderStep(beforeOrder: seq<nat>, handled: seq<nat>, cellId: nat)
    requires cellId != 0
    ensures beforeOrder + NewLabels(handled + [cellId], beforeOrder)
      == if cellId in beforeOrder then beforeOrder + NewLabels(handled, beforeOrder)
         else beforeOrder + NewLabels(handled, beforeOrder) + [cellId]
  {
    NewLabelsSnoc(handled, cellId, beforeOrder);
    AppendStep(beforeOrder, NewLabels(handled, beforeOrder), NewLabels(handled + [cellId], beforeOrder), cellId);
  }

  lemma AppendStep(order: seq<nat>, added: seq<nat>, added': seq<nat>, c: nat)
    requires added' == added + (if c != 0 && c !in order then [c] else [])
    ensures c != 0 ==> order + added' == if c in order then order + added else order + added + [c]
  {
    if c != 0 && c !in order {
      assert order + (added + [c]) == order + added + [c];
    } else {
      assert added + [] == added;
    }
  }

  /**
   * After the loop over ascending labels: the keys gain the non-zero labels,
   * each handled label holds its back-filled list plus its mean, and the
   * other lists are unchanged.
   */
  lemma {:induction false} RecordedSpec(series: map<nat, seq<Entry>>, labels: seq<nat>, n: nat, mask: Mask, frame: Frame)
    requires SameShape(mask, frame)
    requires forall y :: y in labels ==> Occurs(mask, y)
    requires StrictlyAscending(labels)
    ensures forall l :: l in Recorded(series, labels, n, mask, frame) <==> l in series || (l != 0 && l in labels)
    ensures forall l :: l != 0 && l in labels ==>
      Recorded(series, labels, n, mask, frame)[l] == Padded(Lookup(series, l), n) + [Value(Mean(mask, frame, l))]
    ensures forall l :: l in series && l !in labels ==> Recorded(series, labels, n, mask, frame)[l] == series[l]
  {
    RecordedKeys(series, labels, n, mask, frame);
    RecordedHandled(series, labels, n, mask, frame);
    forall l | l in series && l !in labels ensures Recorded(series, labels, n, mask, frame)[l] == series[l] {
      RecordedElsewhere(series, labels, n, mask, frame, l);
    }
  }

  lemma {:induction false} RecordedKeys(series: map<nat, seq<Entry>>, labels: seq<nat>, n: nat, mask: Mask, frame: Frame)
    requires SameShape(mask, frame)
    requires forall y :: y in labels ==> Occurs(mask, y)
    ensures forall l :: l in Recorded(series, labels, n, mask, frame) <==> l in series || (l != 0 && l in labels)
  {
    if labels != [] {
      var init := labels[..|labels| - 1];
      var last := labels[|labels| - 1];
      assert labels == init + [last];
      RecordedKeys(series, init, n, mask, frame);
    }
  }

  lemma {:induction false} RecordedHandled(series: map<nat, seq<Entry>>, labels: seq<nat>, n: nat, mask: Mask, frame: Frame)
    requires SameShape(mask, frame)
    requires forall y :: y in labels ==> Occurs(mask, y)
    requires StrictlyAscending(labels)
    ensures forall l :: l != 0 && l in labels ==>
      l in Recorded(series, labels, n, mask, frame) &&
      Recorded(series, labels, n, mask, frame)[l] == Padded(Lookup(series, l), n) + [Value(Mean(mask, frame, l))]
  {
    if labels != [] {
      var init := labels[..|labels| - 1];
      var last := labels[|labels| - 1];
      assert labels == init + [last];
      assert StrictlyAscending(init);
      RecordedKeys(series, init, n, mask, frame);
      RecordedHandled(series, init, n, mask, frame);
      assert last !in init by {
        forall k | 0 <= k < |init| ensures init[k] != last { assert labels[k] < labels[|labels| - 1]; }
      }
      RecordedElsewhere(series, init, n, mask, frame, last);
    }
  }

  /** The labels handled after pass i: those before it plus labels[i], which none of them equals. */
  lemma NextLabel(labels: seq<nat>, i: nat, mask: Mask)
    requires StrictlyAscending(labels) && forall y :: y in labels ==> Occurs(mask, y)
    requires i < |labels|
    ensures labels[..i + 1] == labels[..i] + [labels[i]]
    ensures labels[i] !in labels[..i]
    ensures forall y :: y in labels[..i] ==> Occurs(mask, y)
  {
    assert labels[i] !in labels[..i] by {
      forall k | 0 <= k < i ensures labels[..i][k] != labels[i] { assert labels[k] < labels[i]; }
    }
  }

  // ---------------------------------------------------------------------
  // The table's invariant, on values

  /**
   * The table after the given masks and frames were processed: frame_num
   * counts them, the keys are the labels seen, in first-appearance order,
   * and every list is positional.
   */
  ghost predicate TableInvariant(frameNum: nat, cellOrder: seq<nat>, series: map<nat, seq<Entry>>,
                                 masks: seq<Mask>, frames: seq<Frame>)
  {
    && |masks| == frameNum
    && WellShaped(masks, frames)
    && cellOrder == FirstAppearance(masks)
    && (forall l :: l in series <==> l in cellOrder)
    && (forall l :: l in series ==> Positional(l, series[l], masks, frames))
  }

  /**
   * Frame f's updates on lists that are never longer than f: a label in
   * the mask ends with exactly f + 1 entries, the last its mean, the
   * earlier ones kept; the background is never a key.
   */
  lemma StepLengths(order: seq<nat>, series: map<nat, seq<Entry>>, masks: seq<Mask>, frames: seq<Frame>,
                    mask: Mask, frame: Frame, series': map<nat, seq<Entry>>)
    requires TableInvariant(|masks|, order, series, masks, frames) && SameShape(mask, frame)
    requires forall l :: l in series' <==> l in series || (l != 0 && Occurs(mask, l))
    requires forall l :: l in series' && Occurs(mask, l) ==>
      series'[l] == Padded(Lookup(series, l), |masks|) + [Value(Mean(mask, frame, l))]
    ensures forall l :: l in series ==> |series[l]| <= |masks|
    ensures 0 !in series && 0 !in series'
    ensures forall l :: l in series' && Occurs(mask, l) ==>
      && |series'[l]| == |masks| + 1
      && series'[l][|masks|] == Value(Mean(mask, frame, l))
      && (l in series ==> series'[l][..|series[l]|] == series[l])
  {
    FirstAppearanceSpec(masks);
    forall l | l in series ensures |series[l]| <= |masks| {
      assert Positional(l, series[l], masks, frames);
    }
    forall l | l in series' && Occurs(mask, l)
      ensures |series'[l]| == |masks| + 1 && series'[l][|masks|] == Value(Mean(mask, frame, l))
      ensures l in series ==> series'[l][..|series[l]|] == series[l]
    {
      PaddedAppend(Lookup(series, l), |masks|, Value(Mean(mask, frame, l)));
    }
  }

  /** Back-filling a list of at most n entries to n, then appending v. */
  lemma PaddedAppend(s: seq<Entry>, n: nat, v: Entry)
    requires |s| <= n
    ensures |Padded(s, n) + [v]| == n + 1 && (Padded(s, n) + [v])[n] == v
    ensures (Padded(s, n) + [v])[..|s|] == s
  {
    var r := Padded(s, n) + [v];
    assert forall j :: 0 <= j < |s| ==> r[j] == s[j];
  }

  /** A frame whose mask is all background adds no key. */
  lemma BackgroundOnlyFrame(mask: Mask, order: seq<nat>)
    requires Cells(mask) == []
    ensures NewLabels(Unique(mask), order) == []
  {
    assert forall y :: y in Unique(mask) ==> y == 0 || y in Cells(mask);
    NewLabelsOfSeen(Unique(mask), order);
  }

  /** The table after one more frame, as ProcessFrame leaves it, keeps the invariant. */
  lemma StepKeepsInvariant(order: seq<nat>, series: map<nat, seq<Entry>>, masks: seq<Mask>, frames: seq<Frame>,
                           mask: Mask, frame: Frame, order': seq<nat>, series': map<nat, seq<Entry>>)
    requires TableInvariant(|masks|, order, series, masks, frames) && SameShape(mask, frame)
    requires order' == order + NewLabels(Unique(mask), order)
    requires forall l :: l in series' <==> l in series || (l != 0 && Occurs(mask, l))
    requires forall l :: l in series' && Occurs(mask, l) ==>
      series'[l] == Padded(Lookup(series, l), |masks|) + [Value(Mean(mask, frame, l))]
    requires forall l :: l in series && !Occurs(mask, l) ==> series'[l] == series[l]
    ensures TableInvariant(|masks| + 1, order', series', masks + [mask], frames + [frame])
  {
    var ms, fs := masks + [mask], frames + [frame];
    assert ms[..|ms| - 1] == masks;
    FirstAppearanceSpec(masks);
    assert WellShaped(ms, fs) by {
      assert forall j :: 0 <= j < |masks| ==> ms[j] == masks[j] && fs[j] == frames[j];
    }
    forall l | l in series' ensures Positional(l, series'[l], ms, fs) {
      if Occurs(mask, l) {
        if l !in series {
          PositionalNew(l, masks, frames);
        }
        PositionalExtendPresent(l, Lookup(series, l), masks, frames, mask, frame);
      } else {
        PositionalExtendAbsent(l, series'[l], masks, frames, mask, frame);
      }
    }
  }

  /** Padding every list to frame_num entries keeps the invariant and yields the full traces. */
  lemma PaddingKeepsInvariant(frameNum: nat, order: seq<nat>, series: map<nat, seq<Entry>>,
                              masks: seq<Mask>, frames: seq<Frame>, series': map<nat, seq<Entry>>)
    requires TableInvariant(frameNum, order, series, masks, frames)
    requires forall l :: l in series' <==> l in series
    requires forall l :: l in series' ==> series'[l] == Padded(series[l], frameNum)
    ensures TableInvariant(frameNum, order, series', masks, frames)
    ensures forall l :: l in series' ==> series'[l] == Trace(l, masks, frames)
  {
    forall l | l in series'
      ensures series'[l] == Trace(l, masks, frames) && Positional(l, series'[l], masks, frames)
    {
      PaddedIsTrace(l, series[l], masks, frames);
    }
  }

  /** The export rows of a table in the invariant are the cells' full traces, in key order. */
  lemma ExportRowsAreTraces(frameNum: nat, order: seq<nat>, series: map<nat, seq<Entry>>,
                            masks: seq<Mask>, frames: seq<Frame>, rows: seq<Row>)
    requires TableInvariant(frameNum, order, series, masks, frames)
    requires |rows| == |order|
    requires forall q :: 0 <= q < |rows| ==>
      order[q] in series && rows[q] == Row(order[q], Padded(series[order[q]], frameNum)[..frameNum])
    ensures forall q :: 0 <= q < |rows| ==> rows[q] == Row(order[q], Trace(order[q], masks, frames))
  {
    forall q | 0 <= q < |rows| ensures rows[q] == Row(order[q], Trace(order[q], masks, frames)) {
      var l := order[q];
      PaddedIsTrace(l, series[l], masks, frames);
      var p := Padded(series[l], frameNum);
      assert p[..frameNum] == p;
    }
  }

  // ---------------------------------------------------------------------
  // The table, updated in place

  class FluorescenceTable {
    /** frame_num: the number of frames processed so far. */
    var frameNum: nat
    /** The dictionary's keys in insertion order. */
    var cellOrder: seq<nat>
    /** fluorescence_data: cell label to its list of entries. */
    var series: map<nat, seq<Entry>>
    /** The masks and frames processed so far, frame 0 first. */
    ghost var masks: seq<Mask>
    ghost var frames: seq<Frame>

    ghost predicate Valid()
      reads this
    {
      TableInvariant(frameNum, cellOrder, series, masks, frames)
    }

    /** The empty table before the first frame. */
    constructor ()
      ensures Valid()
      ensures frameNum == 0 && cellOrder == [] && series == map[]
      ensures masks == [] && frames == []
    {
      frameNum := 0;
      cellOrder := [];
      series := map[];
      masks := [];
      frames := [];
    }

    /** The back-filling loop: append missing markers to one list until it has n entries. */
    method PadSeries(cellId: nat, n: nat)
      requires cellId in series
      modifies this`series
      ensures series == old(series)[cellId := Padded(old(series)[cellId], n)]
    {
      while |series[cellId]| < n
        invariant cellId in series
        invariant series == old(series)[cellId := series[cellId]]
        invariant |old(series)[cellId]| <= |series[cellId]|
        invariant series[cellId] == old(series)[cellId] + Missings(|series[cellId]| - |old(series)[cellId]|)
        invariant |series[cellId]| <= n || series[cellId] == old(series)[cellId]
        decreases n - |series[cellId]|
      {
        series := series[cellId := series[cellId] + [Missing]];
      }
    }

    /**
     * The body of the frame loop for one non-zero label: create its list
     * and key if new, back-fill the list to frame_num entries, append the
     * mean.
     */
    method Record(cellId: nat, meanIntensity: real)
      modifies this`series, this`cellOrder
      ensures series == old(series)[cellId := Padded(Lookup(old(series), cellId), frameNum) + [Value(meanIntensity)]]
      ensures cellOrder == if cellId in old(series) then old(cellOrder) else old(cellOrder) + [cellId]
    {
      if cellId !in series {
        series := series[cellId := []];
        cellOrder := cellOrder + [cellId];
      }
      PadSeries(cellId, frameNum);
      series := series[cellId := series[cellId] + [Value(meanIntensity)]];
    }

    /**
     * One pass of the loop over np.unique(masks): skip the background,
     * record any other label with its mean. The ghost parameters name the
     * dictionary and key order before the frame; labels[..i] are the labels
     * handled so far.
     */
    method HandleLabel(mask: Mask, frame: Frame, labels: seq<nat>, i: nat,
                       ghost before: map<nat, seq<Entry>>, ghost beforeOrder: seq<nat>)
      requires SameShape(mask, frame)
      requires StrictlyAscending(labels) && forall y :: y in labels ==> Occurs(mask, y)
      requires i < |labels|
      requires forall l :: l in before <==> l in beforeOrder
      requires series == Recorded(before, labels[..i], frameNum, mask, frame)
      requires cellOrder == beforeOrder + NewLabels(labels[..i], beforeOrder)
      modifies this`series, this`cellOrder
      ensures series == Recorded(before, labels[..i + 1], frameNum, mask, frame)
      ensures cellOrder == beforeOrder + NewLabels(labels[..i + 1], beforeOrder)
    {
      var cellId := labels[i];
      ghost var handled := labels[..i];
      NextLabel(labels, i, mask);
      if cellId != 0 {
        var meanIntensity := Mean(mask, frame, cellId);
        RecordStep(before, beforeOrder, handled, cellId, frameNum, mask, frame, series, cellOrder);
        Record(cellId, meanIntensity);
      } else {
        RecordedSnoc(before, handled, cellId, frameNum, mask, frame);
        NewLabelsSnoc(handled, cellId, beforeOrder);
      }
    }

    /** The loop over np.unique(masks), in ascending label order. */
    method RecordAll(mask: Mask, frame: Frame)
      requires SameShape(mask, frame)
      requires forall l :: l in series <==> l in cellOrder
      modifies this`series, this`cellOrder
      ensures series == Recorded(old(series), Unique(mask), frameNum, mask, frame)
      ensures cellOrder == old(cellOrder) + NewLabels(Unique(mask), old(cellOrder))
    {
      var uniqueCells := Unique(mask);
      ghost var before, beforeOrder := series, cellOrder;
      var i := 0;
      while i < |uniqueCells|
        invariant 0 <= i <= |uniqueCells|
        invariant series == Recorded(before, uniqueCells[..i], frameNum, mask, frame)
        invariant cellOrder == beforeOrder + NewLabels(uniqueCells[..i], beforeOrder)
      {
        HandleLabel(mask, frame, uniqueCells, i, before, beforeOrder);
        i := i + 1;
      }
      assert uniqueCells[..i] == uniqueCells;
    }

    /**
     * One iteration of the frame loop: for every non-zero label of the mask,
     * in ascending order, create its list if new, back-fill it with missing
     * markers to frame_num entries and append the frame's mean; then advance
     * frame_num.
     */
    method ProcessFrame(mask: Mask, frame: Frame)
      requires Valid() && SameShape(mask, frame)
      modifies this
      ensures Valid()
      ensures frameNum == old(frameNum) + 1
      ensures masks == old(masks) + [mask] && frames == old(frames) + [frame]
      ensures cellOrder == old(cellOrder) + NewLabels(Unique(mask), old(cellOrder))
      ensures forall l :: l in series <==> l in old(series) || (l != 0 && Occurs(mask, l))
      ensures forall l :: l in series && Occurs(mask, l) ==>
        series[l] == Padded(Lookup(old(series), l), old(frameNum)) + [Value(Mean(mask, frame, l))]
      ensures forall l :: l in old(series) && !Occurs(mask, l) ==> series[l] == old(series)[l]
    {
      FirstAppearanceSpec(masks);
      RecordAll(mask, frame);
      RecordedSpec(old(series), Unique(mask), frameNum, mask, frame);
      assert 0 !in old(series);
      StepKeepsInvariant(old(cellOrder), old(series), masks, frames, mask, frame, cellOrder, series);
      frameNum := frameNum + 1;
      masks := masks + [mask];
      frames := frames + [frame];
    }

    /**
     * The CSV export: for every key in insertion order, pad its list in place
     * to frame_num entries and build its row; the header lists cell_id and
     * frame_0 .. frame_{frame_num-1}.
     */
    method Export() returns (header: seq<string>, rows: seq<Row>)
      requires Valid()
      modifies this`series
      ensures Valid()
      ensures forall l :: l in series <==> l in old(series)
      ensures forall l :: l in series ==> series[l] == Padded(old(series)[l], frameNum)
      ensures forall l :: l in series ==> series[l] == Trace(l, masks, frames)
      ensures header == Header(frameNum)
      ensures |rows| == |cellOrder|
      ensures forall q :: 0 <= q < |rows| ==> rows[q] == Row(cellOrder[q], Trace(cellOrder[q], masks, frames))
    {
      header := Header(frameNum);
      FirstAppearanceSpec(masks);
      rows := PadAndBuildRows();
      PaddingKeepsInvariant(frameNum, cellOrder, old(series), masks, frames, series);
      ExportRowsAreTraces(frameNum, cellOrder, old(series), masks, frames, rows);
    }

    /**
     * The loop over the dictionary's items in insertion order: pad each list
     * in place to frame_num entries, then take its first frame_num values as
     * the row of that cell.
     */
    method PadAndBuildRows() returns (rows: seq<Row>)
      requires Distinct(cellOrder)
      requires forall l :: l in series <==> l in cellOrder
      modifies this`series
      ensures forall l :: l in series <==> l in old(series)
      ensures forall l :: l in series ==> series[l] == Padded(old(series)[l], frameNum)
      ensures |rows| == |cellOrder|
      ensures forall q :: 0 <= q < |rows| ==>
        cellOrder[q] in old(series) && rows[q] == Row(cellOrder[q], Padded(old(series)[cellOrder[q]], frameNum)[..frameNum])
    {
      rows := [];
      ghost var before := series;
      var k := 0;
      while k < |cellOrder|
        invariant 0 <= k <= |cellOrder|
        invariant PaddedUpTo(before, k, rows)
      {
        rows := PadOne(before, k, rows);
        k := k + 1;
      }
      forall l | l in series ensures series[l] == Padded(before[l], frameNum) {
        var q :| 0 <= q < |cellOrder| && cellOrder[q] == l;
      }
    }

    /** The first k keys are padded and have their rows, the others are as they were. */
    ghost predicate PaddedUpTo(before: map<nat, seq<Entry>>, k: nat, rows: seq<Row>)
      reads this
    {
      && k <= |cellOrder|
      && Distinct(cellOrder)
      && (forall l :: l in before <==> l in cellOrder)
      && series.Keys == before.Keys
      && (forall q :: 0 <= q < k ==> series[cellOrder[q]] == Padded(before[cellOrder[q]], frameNum))
      && (forall q :: k <= q < |cellOrder| ==> series[cellOrder[q]] == before[cellOrder[q]])
      && |rows| == k
      && (forall q :: 0 <= q < k ==>
           rows[q] == Row(cellOrder[q], Padded(before[cellOrder[q]], frameNum)[..frameNum]))
    }

    /** One pass of the export loop: pad the k-th key's list and append its row. */
    method PadOne(ghost before: map<nat, seq<Entry>>, k: nat, rows: seq<Row>) returns (rows': seq<Row>)
      requires PaddedUpTo(before, k, rows) && k < |cellOrder|
      modifies this`series
      ensures PaddedUpTo(before, k + 1, rows')
    {
      var cellId := cellOrder[k];
      PadSeries(cellId, frameNum);
      var values := series[cellId];
      rows' := rows + [Row(cellId, values[..frameNum])];
      assert forall q :: 0 <= q < |cellOrder| && q != k ==> cellOrder[q] != cellId;
    }
  }
}
