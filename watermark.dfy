/**
 * Filtering of the watermark samples (prune.py:126-139): for every group
 * and every sample in it, the inner image and then the outer image are kept,
 * with their labels, unless the image is the all-zero placeholder.
 */
module Watermark {
  import opened Wrappers
  import opened Sequences

  /** A flattened image tensor. */
  type Image = seq<real>
  type Label = int

  /** Elements of the `1x3x32x32` placeholder `zeros` the images are compared with. */
  const ImageSize: nat := 3 * 32 * 32

  /** The four structures of `watermark.pth`, each a list of groups of samples. */
  datatype WatermarkFile = WatermarkFile(
    innerImg: seq<seq<Image>>,
    innerPred: seq<seq<Label>>,
    outerImg: seq<seq<Image>>,
    outerPred: seq<seq<Label>>)

  /** `torch.equal(zeros, img)`: the image has the placeholder's size and every element is 0. */
  predicate IsPlaceholder(img: Image)
  {
    |img| == ImageSize && forall i :: 0 <= i < |img| ==> img[i] == 0.0
  }

  /** `total_dims`: the number of groups. */
  function TotalDims(wm: WatermarkFile): nat
  {
    |wm.innerImg|
  }

  /** `samples_per_dim`: the size of the first group (an IndexError when there is none). */
  function SamplesPerDim(wm: WatermarkFile): nat
    requires TotalDims(wm) > 0
  {
    |wm.innerImg[0]|
  }

  /** Sample `s` of group `d` can be read: its inner image, and its label when that image is kept. */
  predicate InnerReadable(wm: WatermarkFile, d: nat, s: nat)
    requires d < TotalDims(wm)
  {
    s < |wm.innerImg[d]| &&
    (!IsPlaceholder(wm.innerImg[d][s]) ==> d < |wm.innerPred| && s < |wm.innerPred[d]|)
  }

  /** The same for the outer image and its label. */
  predicate OuterReadable(wm: WatermarkFile, d: nat, s: nat)
  {
    d < |wm.outerImg| && s < |wm.outerImg[d]| &&
    (!IsPlaceholder(wm.outerImg[d][s]) ==> d < |wm.outerPred| && s < |wm.outerPred[d]|)
  }

  /** Every index the two loops read exists: the file can be processed without an IndexError. */
  predicate Readable(wm: WatermarkFile)
  {
    TotalDims(wm) > 0 &&
    forall d: nat, s: nat :: d < TotalDims(wm) && s < SamplesPerDim(wm) ==>
      InnerReadable(wm, d, s) && OuterReadable(wm, d, s)
  }

  /** The inner pair of sample `s` of group `d`, if its image is not the placeholder. */
  function InnerEntry(wm: WatermarkFile, d: nat, s: nat): seq<(Image, Label)>
    requires Readable(wm) && d < TotalDims(wm) && s < SamplesPerDim(wm)
  {
    assert InnerReadable(wm, d, s);
    if IsPlaceholder(wm.innerImg[d][s]) then [] else [(wm.innerImg[d][s], wm.innerPred[d][s])]
  }

  /** The outer pair of sample `s` of group `d`, if its image is not the placeholder. */
  function OuterEntry(wm: WatermarkFile, d: nat, s: nat): seq<(Image, Label)>
    requires Readable(wm) && d < TotalDims(wm) && s < SamplesPerDim(wm)
  {
    assert OuterReadable(wm, d, s);
    if IsPlaceholder(wm.outerImg[d][s]) then [] else [(wm.outerImg[d][s], wm.outerPred[d][s])]
  }

  /** What the inner loop collects from the first `s` samples of group `d`. */
  function SampleEntries(wm: WatermarkFile, d: nat, s: nat): seq<(Image, Label)>
    requires Readable(wm) && d < TotalDims(wm) && s <= SamplesPerDim(wm)
  {
    if s == 0 then []
    else SampleEntries(wm, d, s - 1) + InnerEntry(wm, d, s - 1) + OuterEntry(wm, d, s - 1)
  }

  /** What both loops collect from the first `d` groups. */
  function GroupEntries(wm: WatermarkFile, d: nat): seq<(Image, Label)>
    requires Readable(wm) && d <= TotalDims(wm)
  {
    if d == 0 then []
    else GroupEntries(wm, d - 1) + SampleEntries(wm, d - 1, SamplesPerDim(wm))
  }

  function Images(entries: seq<(Image, Label)>): (r: seq<Image>)
    ensures |r| == |entries|
  {
    seq(|entries|, i requires 0 <= i < |entries| => entries[i].0)
  }

  function Labels(entries: seq<(Image, Label)>): (r: seq<Label>)
    ensures |r| == |entries|
  {
    seq(|entries|, i requires 0 <= i < |entries| => entries[i].1)
  }

  lemma ProjectionsAppend(a: seq<(Image, Label)>, b: seq<(Image, Label)>)
    ensures Images(a + b) == Images(a) + Images(b)
    ensures Labels(a + b) == Labels(a) + Labels(b)
  {
  }

  /** Sample `s` of group `d` contributes the pair `e`: a kept inner or a kept outer image with its label. */
  predicate Contributes(wm: WatermarkFile, e: (Image, Label), d: nat, s: nat)
    requires Readable(wm) && d < TotalDims(wm) && s < SamplesPerDim(wm)
  {
    e in InnerEntry(wm, d, s) + OuterEntry(wm, d, s)
  }

  /** At most two pairs per sample are kept: `2 * total_dims * samples_per_dim` in all. */
  lemma {:induction false} GroupEntriesBound(wm: WatermarkFile, d: nat)
    requires Readable(wm) && d <= TotalDims(wm)
    ensures |GroupEntries(wm, d)| <= 2 * d * SamplesPerDim(wm)
  {
    if d > 0 {
      var samples := SamplesPerDim(wm);
      GroupEntriesBound(wm, d - 1);
      SampleEntriesBound(wm, d - 1, samples);
      OneMoreGroup(d, samples);
    }
  }

  lemma OneMoreGroup(d: nat, samples: nat)
    requires d > 0
    ensures 2 * (d - 1) * samples + 2 * samples == 2 * d * samples
  {
  }

  lemma {:induction false} SampleEntriesBound(wm: WatermarkFile, d: nat, s: nat)
    requires Readable(wm) && d < TotalDims(wm) && s <= SamplesPerDim(wm)
    ensures |SampleEntries(wm, d, s)| <= 2 * s
  {
    if s > 0 {
      SampleEntriesBound(wm, d, s - 1);
    }
  }

  /** A pair is collected from the first `s` samples of group `d` iff one of those samples contributes it. */
  lemma {:induction false} SampleEntriesMembers(wm: WatermarkFile, d: nat, s: nat, e: (Image, Label))
    requires Readable(wm) && d < TotalDims(wm) && s <= SamplesPerDim(wm)
    ensures e in SampleEntries(wm, d, s) <==> exists t: nat :: t < s && Contributes(wm, e, d, t)
  {
    if s > 0 {
      SampleEntriesMembers(wm, d, s - 1, e);
      if e in SampleEntries(wm, d, s) && e !in SampleEntries(wm, d, s - 1) {
        assert Contributes(wm, e, d, s - 1);
      }
      if exists t: nat :: t < s && Contributes(wm, e, d, t) {
        var t: nat :| t < s && Contributes(wm, e, d, t);
        if t == s - 1 {
          assert e in InnerEntry(wm, d, t) + OuterEntry(wm, d, t);
        }
      }
    }
  }

  /**
   * The collected pairs are exactly the contributions of every sample of
   * every group: no placeholder image is kept and no other image is lost.
   */
  lemma {:induction false} GroupEntriesMembers(wm: WatermarkFile, d: nat, e: (Image, Label))
    requires Readable(wm) && d <= TotalDims(wm)
    ensures e in GroupEntries(wm, d) <==>
      exists g: nat, t: nat :: g < d && t < SamplesPerDim(wm) && Contributes(wm, e, g, t)
  {
    if d > 0 {
      GroupEntriesMembers(wm, d - 1, e);
      SampleEntriesMembers(wm, d - 1, SamplesPerDim(wm), e);
    }
  }

  /** No collected image is the placeholder. */
  lemma NoPlaceholderCollected(wm: WatermarkFile)
    requires Readable(wm)
    ensures forall i :: 0 <= i < |GroupEntries(wm, TotalDims(wm))| ==>
      !IsPlaceholder(GroupEntries(wm, TotalDims(wm))[i].0)
  {
    var all := GroupEntries(wm, TotalDims(wm));
    forall i | 0 <= i < |all| ensures !IsPlaceholder(all[i].0) {
      GroupEntriesMembers(wm, TotalDims(wm), all[i]);
    }
  }

  /** Every index the loops read at sample `s` of group `d` exists in a readable file. */
  lemma ReadableAt(wm: WatermarkFile, d: nat, s: nat)
    requires Readable(wm) && d < TotalDims(wm) && s < SamplesPerDim(wm)
    ensures InnerReadable(wm, d, s) && OuterReadable(wm, d, s)
  {
  }

  /**
   * One more sample appends its kept inner image and then its kept outer
   * image, with their labels, to whatever was collected before.
   */
  lemma SampleStep(wm: WatermarkFile, d: nat, s: nat, images: seq<Image>, labels: seq<Label>)
    requires Readable(wm) && d < TotalDims(wm) && s < SamplesPerDim(wm)
    ensures InnerReadable(wm, d, s) && OuterReadable(wm, d, s)
    ensures images + Images(SampleEntries(wm, d, s + 1)) == images + Images(SampleEntries(wm, d, s))
      + (if IsPlaceholder(wm.innerImg[d][s]) then [] else [wm.innerImg[d][s]])
      + (if IsPlaceholder(wm.outerImg[d][s]) then [] else [wm.outerImg[d][s]])
    ensures labels + Labels(SampleEntries(wm, d, s + 1)) == labels + Labels(SampleEntries(wm, d, s))
      + (if IsPlaceholder(wm.innerImg[d][s]) then [] else [wm.innerPred[d][s]])
      + (if IsPlaceholder(wm.outerImg[d][s]) then [] else [wm.outerPred[d][s]])
  {
    ReadableAt(wm, d, s);
    var before := SampleEntries(wm, d, s);
    var inner, outer := InnerEntry(wm, d, s), OuterEntry(wm, d, s);
    ProjectionsAppend(before, inner);
    ProjectionsAppend(before + inner, outer);
    assert Images(inner) == (if IsPlaceholder(wm.innerImg[d][s]) then [] else [wm.innerImg[d][s]]);
    assert Images(outer) == (if IsPlaceholder(wm.outerImg[d][s]) then [] else [wm.outerImg[d][s]]);
    assert Labels(inner) == (if IsPlaceholder(wm.innerImg[d][s]) then [] else [wm.innerPred[d][s]]);
    assert Labels(outer) == (if IsPlaceholder(wm.outerImg[d][s]) then [] else [wm.outerPred[d][s]]);
    AppendAssoc(images, Images(before) + Images(inner), Images(outer));
    AppendAssoc(images, Images(before), Images(inner));
    AppendAssoc(labels, Labels(before) + Labels(inner), Labels(outer));
    AppendAssoc(labels, Labels(before), Labels(inner));
  }

  /** The inner loop over the samples of group `dim` (prune.py:131-138). */
  method FilterGroup(wm: WatermarkFile, dim: nat, wminputs: seq<Image>, wmtargets: seq<Label>)
    returns (inputs: seq<Image>, targets: seq<Label>)
    requires Readable(wm) && dim < TotalDims(wm)
    ensures inputs == wminputs + Images(SampleEntries(wm, dim, SamplesPerDim(wm)))
    ensures targets == wmtargets + Labels(SampleEntries(wm, dim, SamplesPerDim(wm)))
  {
    inputs, targets := wminputs, wmtargets;
    for sample := 0 to |wm.innerImg[0]|
      invariant inputs == wminputs + Images(SampleEntries(wm, dim, sample))
      invariant targets == wmtargets + Labels(SampleEntries(wm, dim, sample))
    {
      SampleStep(wm, dim, sample, wminputs, wmtargets);
      ghost var inputs0, targets0 := inputs, targets;
      var inner := wm.innerImg[dim][sample];
      if !IsPlaceholder(inner) {
        inputs := inputs + [inner];
        targets := targets + [wm.innerPred[dim][sample]];
      }
      ghost var inputs1, targets1 := inputs, targets;
      assert inputs1 == inputs0 + (if IsPlaceholder(inner) then [] else [inner]);
      assert targets1 == targets0 + (if IsPlaceholder(inner) then [] else [wm.innerPred[dim][sample]]);
      var outer := wm.outerImg[dim][sample];
      if !IsPlaceholder(outer) {
        inputs := inputs + [outer];
        targets := targets + [wm.outerPred[dim][sample]];
      }
      assert inputs == inputs1 + (if IsPlaceholder(outer) then [] else [outer]);
      assert targets == targets1 + (if IsPlaceholder(outer) then [] else [wm.outerPred[dim][sample]]);
    }
  }

  /**
   * The filtering loops: `wminputs` and `wmtargets`, or the IndexError the
   * script stops with when an index it reads does not exist.
   */
  method FilterWatermarks(wm: WatermarkFile) returns (r: Result<(seq<Image>, seq<Label>)>)
    ensures r.Success? <==> Readable(wm)
    ensures r.Failure? ==> r.error == IndexError
    ensures r.Success? ==> r.value.0 == Images(GroupEntries(wm, TotalDims(wm)))
    ensures r.Success? ==> r.value.1 == Labels(GroupEntries(wm, TotalDims(wm)))
  {
    if !Readable(wm) {
      return Failure(IndexError);
    }
    var wminputs, wmtargets := [], [];
    for dim := 0 to |wm.innerImg|
      invariant wminputs == Images(GroupEntries(wm, dim))
      invariant wmtargets == Labels(GroupEntries(wm, dim))
    {
      ProjectionsAppend(GroupEntries(wm, dim), SampleEntries(wm, dim, SamplesPerDim(wm)));
      wminputs, wmtargets := FilterGroup(wm, dim, wminputs, wmtargets);
    }
    return Success((wminputs, wmtargets));
  }
}
