/** The per-pixel layer loop of the Droste effect: up to three samples, one
    per periodic band of the log-radius coordinate, folded together with
    AddColor, stopping as soon as the accumulated colour is opaque.

    The coordinate mapping that turns a band into a source position is
    floating-point complex analysis and is not modelled: each layer's
    bilinear sample is given by a function from the band multiplier to the
    colour sampled in that band. */
module Layers {
  import opened Pixels

  /** The most layers folded into one destination pixel. */
  const LayerCount := 3

  /** The number of rfrac periods added to the real part in `layer`:
      2 - layer with inverse transparency, layer without. */
  function BandMultiplier(inverseAlpha: bool, layer: int): (m: int)
    ensures 0 <= layer < LayerCount ==> 0 <= m < LayerCount
    ensures inverseAlpha ==> m + layer == LayerCount - 1
    ensures !inverseAlpha ==> m == layer
  {
    if inverseAlpha then 2 - layer else layer
  }

  /** The samples of layers 0, 1 and 2, in the order the loop visits them,
      where sample(m) is the colour sampled in band m. */
  function LayerSamples(inverseAlpha: bool, sample: int -> Bgra): (s: seq<Bgra>)
    ensures |s| == LayerCount
    ensures forall layer :: 0 <= layer < LayerCount ==>
      s[layer] == sample(BandMultiplier(inverseAlpha, layer))
  {
    [sample(BandMultiplier(inverseAlpha, 0)),
     sample(BandMultiplier(inverseAlpha, 1)),
     sample(BandMultiplier(inverseAlpha, 2))]
  }

  /** Switching inverse transparency visits the same bands in the reverse
      order: layer k of one setting samples what layer 2 - k of the other
      samples. */
  lemma InverseAlphaReversesLayers(sample: int -> Bgra, layer: int)
    requires 0 <= layer < LayerCount
    ensures LayerSamples(true, sample)[layer] == LayerSamples(false, sample)[LayerCount - 1 - layer]
  {
  }

  /** The colour the layer loop ends with when it starts from `acc` and the
      remaining layers would sample `samples`: it stops when no layer is left
      or when the colour is opaque. */
  function Accumulate(acc: Bgra, samples: seq<Bgra>): (r: Bgra)
    ensures acc.a <= r.a
    ensures samples == [] || acc.a == MaxAlpha ==> r == acc
    decreases |samples|
  {
    if samples == [] || acc.a == MaxAlpha then acc
    else Accumulate(AddColor(acc, samples[0]), samples[1..])
  }

  /** The same fold without the early exit: every sample is composited. */
  function CompositeAll(acc: Bgra, samples: seq<Bgra>): Bgra
    decreases |samples|
  {
    if samples == [] then acc
    else CompositeAll(AddColor(acc, samples[0]), samples[1..])
  }

  /** An opaque colour absorbs every further sample. */
  lemma {:induction false} OpaqueAbsorbs(acc: Bgra, samples: seq<Bgra>)
    requires acc.a == MaxAlpha
    ensures CompositeAll(acc, samples) == acc
    decreases |samples|
  {
    if samples != [] {
      OpaqueAbsorbs(AddColor(acc, samples[0]), samples[1..]);
    }
  }

  /** Stopping once the colour is opaque gives the same colour as compositing
      every layer: the early exit only saves work. */
  lemma {:induction false} EarlyExitChangesNothing(acc: Bgra, samples: seq<Bgra>)
    ensures Accumulate(acc, samples) == CompositeAll(acc, samples)
    decreases |samples|
  {
    if samples == [] {
    } else if acc.a == MaxAlpha {
      OpaqueAbsorbs(acc, samples);
    } else {
      EarlyExitChangesNothing(AddColor(acc, samples[0]), samples[1..]);
    }
  }

  /** The sum of the samples' alpha values. */
  function AlphaSum(samples: seq<Bgra>): nat
    decreases |samples|
  {
    if samples == [] then 0 else samples[0].a + AlphaSum(samples[1..])
  }

  /** The accumulated alpha is the sum of the alphas seen, saturated at 255. */
  lemma {:induction false} AccumulatedAlpha(acc: Bgra, samples: seq<Bgra>)
    ensures Accumulate(acc, samples).a == Min(MaxAlpha, acc.a + AlphaSum(samples))
    decreases |samples|
  {
    if samples != [] && acc.a != MaxAlpha {
      AccumulatedAlpha(AddColor(acc, samples[0]), samples[1..]);
    }
  }

  /** The layer loop for one destination pixel. It starts from transparent
      black and folds in the sample of each layer until three layers are done
      or the colour is opaque. `layers` is the number of layers evaluated and
      `trace` the colour after each of them. */
  method ComposeLayers(inverseAlpha: bool, sample: int -> Bgra)
    returns (result: Bgra, layers: nat, ghost trace: seq<Bgra>)
    ensures result == Accumulate(Zero, LayerSamples(inverseAlpha, sample))
    ensures 1 <= layers <= LayerCount && |trace| == layers
    ensures trace[0] == sample(BandMultiplier(inverseAlpha, 0))
    ensures forall k :: 0 < k < layers ==>
      trace[k] == AddColor(trace[k - 1], sample(BandMultiplier(inverseAlpha, k)))
    ensures forall k :: 0 <= k < layers - 1 ==> trace[k].a < MaxAlpha && trace[k].a <= trace[k + 1].a
    ensures result == trace[layers - 1]
    ensures layers < LayerCount ==> result.a == MaxAlpha
  {
    ghost var samples := LayerSamples(inverseAlpha, sample);
    result := Zero;
    trace := [];
    var layer := 0;
    while layer < LayerCount && result.a < MaxAlpha
      invariant 0 <= layer <= LayerCount && |trace| == layer
      invariant Accumulate(result, samples[layer..]) == Accumulate(Zero, samples)
      invariant layer == 0 ==> result == Zero
      invariant 0 < layer ==> result == trace[layer - 1] && trace[0] == samples[0]
      invariant forall k :: 0 < k < layer ==> trace[k] == AddColor(trace[k - 1], samples[k])
      invariant forall k :: 0 <= k < layer - 1 ==> trace[k].a < MaxAlpha && trace[k].a <= trace[k + 1].a
    {
      var m := BandMultiplier(inverseAlpha, layer);
      result := AddColor(result, sample(m));
      trace := trace + [result];
      layer := layer + 1;
    }
    layers := layer;
  }
}
