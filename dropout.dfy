/**
 * tesseract's DropoutLayer (src/lstm/dropout.h, src/lstm/dropout.cpp).
 *
 * A NetworkIO buffer is a time x feature grid, here an `array2<real>` whose
 * Length0 is the width (time steps) and Length1 the feature count; floats are
 * reals. Each call of rand() / (RAND_MAX + 1.0) is one cell of a caller-supplied
 * grid of draws in [0, 1), one draw per cell of the grid being masked.
 */
module Dropout {
  import RateFormat
  import Stream

  /** The two grids have the same width and the same feature count. */
  predicate SameShape(a: array2<real>, b: array2<real>) {
    a.Length0 == b.Length0 && a.Length1 == b.Length1
  }

  /** One draw in [0, 1) for every cell of the grid. */
  predicate DrawsFor(draws: array2<real>, grid: array2<real>)
    reads draws
  {
    SameShape(draws, grid) &&
    forall t, d :: 0 <= t < draws.Length0 && 0 <= d < draws.Length1 ==> 0.0 <= draws[t, d] < 1.0
  }

  /** One cell as Forward and Backward compute it: value times mask, over 1 - rate. */
  function Scaled(x: real, m: real, rate: real): real
    requires rate != 1.0
  {
    x * m / (1.0 - rate)
  }

  /** A 0/1 mask value either drops a cell or scales it by 1 / (1 - rate). */
  lemma ScaledByMask(x: real, m: real, rate: real)
    requires rate != 1.0 && (m == 0.0 || m == 1.0)
    ensures Scaled(x, m, rate) == if m == 1.0 then x / (1.0 - rate) else 0.0
  {
    if m == 1.0 {
      assert x * m == x;
    } else {
      assert x * m == 0.0;
      assert 0.0 / (1.0 - rate) == 0.0;
    }
  }

  /**
   * The factor by which a dropout pass multiplies one cell: 1 when dropout is
   * off (rate <= 0), otherwise 1 / (1 - rate) for a kept cell and 0 for a
   * dropped one.
   */
  function Gain(rate: real, kept: bool): real
    requires rate != 1.0
  {
    if rate <= 0.0 then 1.0 else if kept then 1.0 / (1.0 - rate) else 0.0
  }

  class DropoutLayer {
    // The base layer's state, set by Network's constructor and (de)serialized
    // by Network::Serialize / Network::DeSerialize.
    var name: string
    var ni: int
    var no: int
    // The layer's own state.
    var dropoutRate: real
    var dropoutMask: array2<real>

    /** The layer's input feature count is also its output feature count. */
    constructor (name: string, ni: int, dropoutRate: real)
      ensures this.name == name && this.ni == ni && no == ni
      ensures this.dropoutRate == dropoutRate
      ensures dropoutMask.Length0 == 0 && dropoutMask.Length1 == 0
    {
      this.name, this.ni, no := name, ni, ni;
      this.dropoutRate := dropoutRate;
      dropoutMask := new real[0, 0];
    }

    /** The topology token: "Dr" and the rate as std::to_string prints it. */
    function Spec(): (s: string)
      reads this
      ensures |s| > 2 && s[..2] == "Dr"
      ensures RateFormat.ParseFixed(s[2..]) == RateFormat.Some(RateFormat.Rounded(dropoutRate))
    {
      RateFormat.FormatParses(dropoutRate);
      var s := "Dr" + RateFormat.FormatRate(dropoutRate);
      assert s[2..] == RateFormat.FormatRate(dropoutRate);
      s
    }

    /** The item Network::Serialize puts on the stream for the base state. */
    function Header(): Stream.Item
      reads this
    {
      Stream.NetworkHeader(name, ni, no)
    }

    /** Network::Serialize: writes the base state. */
    method SerializeBase(fp: Stream.TFile) returns (ok: bool)
      requires fp.Valid()
      modifies fp
      ensures fp.Valid()
      ensures ok == (|old(fp.items)| < fp.capacity)
      ensures fp.items == if ok then old(fp.items) + [Header()] else old(fp.items)
      ensures fp.offset == old(fp.offset) && fp.calls == old(fp.calls) + [Stream.WriteCall(Header())]
    {
      ok := fp.Write(Header());
    }

    /** Network::DeSerialize: reads the base state back. */
    method DeSerializeBase(fp: Stream.TFile) returns (ok: bool)
      requires fp.Valid()
      modifies this, fp
      ensures fp.Valid()
      ensures ok == old(fp.NextIsHeader())
      ensures ok ==> Header() == old(fp.items[fp.offset]) && fp.offset == old(fp.offset) + 1
      ensures !ok ==> name == old(name) && ni == old(ni) && no == old(no) && fp.offset == old(fp.offset)
      ensures dropoutRate == old(dropoutRate) && dropoutMask == old(dropoutMask)
      ensures fp.items == old(fp.items) && fp.calls == old(fp.calls) + [Stream.ReadHeaderCall]
    {
      var n, i, o;
      ok, n, i, o := fp.ReadHeader();
      if ok {
        name, ni, no := n, i, o;
      }
    }

    /**
     * Writes the base state and then, only if that succeeded, the rate.
     * The layer itself is left as it was.
     */
    method Serialize(fp: Stream.TFile) returns (ok: bool)
      requires fp.Valid()
      modifies fp
      ensures fp.Valid() && fp.offset == old(fp.offset)
      ensures ok == (|old(fp.items)| + 2 <= fp.capacity)
      ensures fp.items == old(fp.items) +
        (if ok then [Header(), Stream.Float32(dropoutRate)]
         else if |old(fp.items)| < fp.capacity then [Header()]
         else [])
      ensures fp.calls == old(fp.calls) + [Stream.WriteCall(Header())] +
        (if |old(fp.items)| < fp.capacity then [Stream.WriteCall(Stream.Float32(dropoutRate))] else [])
    {
      ok := SerializeBase(fp);
      if ok {
        ok := fp.Write(Stream.Float32(dropoutRate));
      }
    }

    /**
     * Reads the base state and then, only if that succeeded, the rate. On a
     * failed rate read the base state read before it stays in place.
     */
    method DeSerialize(fp: Stream.TFile) returns (ok: bool)
      requires fp.Valid()
      modifies this, fp
      ensures fp.Valid() && fp.items == old(fp.items)
      ensures ok == (old(fp.NextIsHeader()) && old(fp.offset) + 1 < |fp.items| &&
                     fp.items[old(fp.offset) + 1].Float32?)
      ensures fp.calls == old(fp.calls) + [Stream.ReadHeaderCall] +
        (if old(fp.NextIsHeader()) then [Stream.ReadFloatCall] else [])
      ensures old(fp.NextIsHeader()) ==> Header() == old(fp.items[fp.offset])
      ensures !old(fp.NextIsHeader()) ==>
        name == old(name) && ni == old(ni) && no == old(no) && fp.offset == old(fp.offset)
      ensures ok ==> dropoutRate == fp.items[old(fp.offset) + 1].value && fp.offset == old(fp.offset) + 2
      ensures old(fp.NextIsHeader()) && !ok ==> fp.offset == old(fp.offset) + 1
      ensures !ok ==> dropoutRate == old(dropoutRate)
      ensures dropoutMask == old(dropoutMask)
    {
      ok := DeSerializeBase(fp);
      if ok {
        var rate;
        ok, rate := fp.ReadFloat();
        if ok {
          dropoutRate := rate;
        }
      }
    }

    /**
     * A fresh mask of the input's shape: a cell is 1 (kept) exactly when its
     * draw is strictly above the rate, and 0 (dropped) otherwise.
     */
    method GenerateDropoutMask(input: array2<real>, draws: array2<real>) returns (mask: array2<real>)
      requires DrawsFor(draws, input)
      ensures SameShape(mask, input)
      ensures forall t, d :: 0 <= t < mask.Length0 && 0 <= d < mask.Length1 ==>
        mask[t, d] == 0.0 || mask[t, d] == 1.0
      ensures forall t, d :: 0 <= t < mask.Length0 && 0 <= d < mask.Length1 ==>
        (mask[t, d] == 1.0 <==> draws[t, d] > dropoutRate)
    {
      mask := new real[input.Length0, input.Length1];
      for t := 0 to input.Length0
        invariant forall i, j :: 0 <= i < t && 0 <= j < input.Length1 ==>
          mask[i, j] == if draws[i, j] > dropoutRate then 1.0 else 0.0
      {
        for d := 0 to input.Length1
          invariant forall i, j :: 0 <= i < t && 0 <= j < input.Length1 ==>
            mask[i, j] == if draws[i, j] > dropoutRate then 1.0 else 0.0
          invariant forall j :: 0 <= j < d ==>
            mask[t, j] == if draws[t, j] > dropoutRate then 1.0 else 0.0
        {
          mask[t, d] := if draws[t, d] > dropoutRate then 1.0 else 0.0;
        }
      }
    }

    /** The loop Forward and Backward share: each cell times its mask value, over 1 - rate. */
    method MaskAndScale(grid: array2<real>, mask: array2<real>) returns (out: array2<real>)
      requires dropoutRate != 1.0
      requires SameShape(mask, grid)
      ensures SameShape(out, grid)
      ensures forall t, d :: 0 <= t < out.Length0 && 0 <= d < out.Length1 ==>
        out[t, d] == Scaled(grid[t, d], mask[t, d], dropoutRate)
    {
      out := new real[grid.Length0, grid.Length1];
      for t := 0 to grid.Length0
        invariant forall i, j :: 0 <= i < t && 0 <= j < grid.Length1 ==>
          out[i, j] == Scaled(grid[i, j], mask[i, j], dropoutRate)
      {
        for d := 0 to grid.Length1
          invariant forall i, j :: 0 <= i < t && 0 <= j < grid.Length1 ==>
            out[i, j] == Scaled(grid[i, j], mask[i, j], dropoutRate)
          invariant forall j :: 0 <= j < d ==>
            out[t, j] == Scaled(grid[t, j], mask[t, j], dropoutRate)
        {
          out[t, d] := Scaled(grid[t, d], mask[t, d], dropoutRate);
        }
      }
    }

    /**
     * With a positive rate, every cell whose draw is above the rate is scaled
     * by 1 / (1 - rate) and every other cell becomes 0; otherwise the output
     * is an exact copy of the input and no draw is looked at.
     */
    method Forward(input: array2<real>, draws: array2<real>) returns (output: array2<real>)
      requires dropoutRate != 1.0
      requires dropoutRate > 0.0 ==> DrawsFor(draws, input)
      ensures SameShape(output, input)
      ensures dropoutRate <= 0.0 ==> forall t, d :: 0 <= t < output.Length0 && 0 <= d < output.Length1 ==>
        output[t, d] == input[t, d]
      ensures dropoutRate > 0.0 ==> forall t, d :: 0 <= t < output.Length0 && 0 <= d < output.Length1 ==>
        output[t, d] == if draws[t, d] > dropoutRate then input[t, d] / (1.0 - dropoutRate) else 0.0
    {
      if dropoutRate > 0.0 {
        var mask := GenerateDropoutMask(input, draws);
        output := MaskAndScale(input, mask);
        forall t, d | 0 <= t < output.Length0 && 0 <= d < output.Length1
          ensures output[t, d] == if draws[t, d] > dropoutRate then input[t, d] / (1.0 - dropoutRate) else 0.0
        {
          ScaledByMask(input[t, d], mask[t, d], dropoutRate);
        }
      } else {
        output := new real[input.Length0, input.Length1]((t, d) reads input =>
          if 0 <= t < input.Length0 && 0 <= d < input.Length1 then input[t, d] else 0.0);
      }
    }

    /**
     * Masks the deltas with a mask drawn afresh from `draws`, whatever the
     * rate, and scales the kept cells by 1 / (1 - rate); always succeeds.
     */
    method Backward(fwdDeltas: array2<real>, draws: array2<real>) returns (ok: bool, backDeltas: array2<real>)
      requires dropoutRate != 1.0
      requires DrawsFor(draws, fwdDeltas)
      ensures ok
      ensures SameShape(backDeltas, fwdDeltas)
      ensures forall t, d :: 0 <= t < backDeltas.Length0 && 0 <= d < backDeltas.Length1 ==>
        backDeltas[t, d] == if draws[t, d] > dropoutRate then fwdDeltas[t, d] / (1.0 - dropoutRate) else 0.0
    {
      var mask := GenerateDropoutMask(fwdDeltas, draws);
      backDeltas := MaskAndScale(fwdDeltas, mask);
      forall t, d | 0 <= t < backDeltas.Length0 && 0 <= d < backDeltas.Length1
        ensures backDeltas[t, d] == if draws[t, d] > dropoutRate then fwdDeltas[t, d] / (1.0 - dropoutRate) else 0.0
      {
        ScaledByMask(fwdDeltas[t, d], mask[t, d], dropoutRate);
      }
      ok := true;
    }

    /**
     * Forward as standard inverted dropout does it: with a positive rate the
     * mask it applies is kept in dropoutMask, for the matching Backward.
     */
    method ForwardKeepingMask(input: array2<real>, draws: array2<real>) returns (output: array2<real>)
      requires dropoutRate != 1.0
      requires dropoutRate > 0.0 ==> DrawsFor(draws, input)
      modifies this
      ensures name == old(name) && ni == old(ni) && no == old(no) && dropoutRate == old(dropoutRate)
      ensures dropoutRate <= 0.0 ==> dropoutMask == old(dropoutMask)
      ensures dropoutRate > 0.0 ==> SameShape(dropoutMask, input)
      ensures dropoutRate > 0.0 ==> forall t, d :: 0 <= t < input.Length0 && 0 <= d < input.Length1 ==>
        (dropoutMask[t, d] == 0.0 || dropoutMask[t, d] == 1.0) &&
        (dropoutMask[t, d] == 1.0 <==> draws[t, d] > dropoutRate)
      ensures SameShape(output, input)
      ensures forall t, d :: 0 <= t < output.Length0 && 0 <= d < output.Length1 ==>
        output[t, d] == Gain(dropoutRate, dropoutRate > 0.0 && draws[t, d] > dropoutRate) * input[t, d]
    {
      if dropoutRate > 0.0 {
        var mask := GenerateDropoutMask(input, draws);
        dropoutMask := mask;
        output := MaskAndScale(input, mask);
      } else {
        output := new real[input.Length0, input.Length1]((t, d) reads input =>
          if 0 <= t < input.Length0 && 0 <= d < input.Length1 then input[t, d] else 0.0);
      }
    }

    /**
     * Backward as standard inverted dropout does it: a copy when dropout is off,
     * otherwise the deltas masked by the mask Forward kept and scaled by
     * 1 / (1 - rate). Fails when no kept mask has the deltas' shape.
     */
    method BackwardWithKeptMask(fwdDeltas: array2<real>) returns (ok: bool, backDeltas: array2<real>)
      requires dropoutRate != 1.0
      ensures ok == (dropoutRate <= 0.0 || SameShape(dropoutMask, fwdDeltas))
      ensures SameShape(backDeltas, fwdDeltas)
      ensures ok && dropoutRate <= 0.0 ==> forall t, d :: 0 <= t < backDeltas.Length0 && 0 <= d < backDeltas.Length1 ==>
        backDeltas[t, d] == fwdDeltas[t, d]
      ensures ok && dropoutRate > 0.0 ==> forall t, d :: 0 <= t < backDeltas.Length0 && 0 <= d < backDeltas.Length1 ==>
        backDeltas[t, d] == Scaled(fwdDeltas[t, d], dropoutMask[t, d], dropoutRate)
    {
      if dropoutRate <= 0.0 {
        ok := true;
        backDeltas := new real[fwdDeltas.Length0, fwdDeltas.Length1]((t, d) reads fwdDeltas =>
          if 0 <= t < fwdDeltas.Length0 && 0 <= d < fwdDeltas.Length1 then fwdDeltas[t, d] else 0.0);
      } else if SameShape(dropoutMask, fwdDeltas) {
        ok := true;
        backDeltas := MaskAndScale(fwdDeltas, dropoutMask);
      } else {
        ok := false;
        backDeltas := new real[fwdDeltas.Length0, fwdDeltas.Length1];
      }
    }
  }

  /**
   * Saving a layer to a medium that holds `capacity` items and loading the
   * saved data into a new layer restores the rate and the base state, and
   * thus the topology token; saving fails exactly when the medium cannot hold
   * both items, and loading then fails too.
   */
  method SaveAndLoad(layer: DropoutLayer, capacity: nat) returns (saved: bool, loaded: bool, copy: DropoutLayer)
    ensures saved == (capacity >= 2)
    ensures loaded == saved
    ensures loaded ==> copy.dropoutRate == layer.dropoutRate && copy.Spec() == layer.Spec()
    ensures loaded ==> copy.name == layer.name && copy.ni == layer.ni && copy.no == layer.no
  {
    var fp := new Stream.TFile.OpenWrite(capacity);
    saved := layer.Serialize(fp);
    fp.Rewind();
    copy := new DropoutLayer("", 0, 0.0);
    loaded := copy.DeSerialize(fp);
  }

  /**
   * The layer as written: Forward keeps a cell of a layer with rate 1/2 and
   * doubles it, while Backward, drawing its own mask, drops the gradient of
   * that same cell.
   */
  method BackwardMaskMismatch() returns (forwardOut: real, backwardOut: real)
    ensures forwardOut == 2.0 * 1.0 && backwardOut == 0.0 * 1.0
  {
    var layer := new DropoutLayer("dropout", 1, 0.5);
    var ones := new real[1, 1]((t, d) => 1.0);
    var forwardDraws := new real[1, 1]((t, d) => 0.75);
    var backwardDraws := new real[1, 1]((t, d) => 0.25);
    var output := layer.Forward(ones, forwardDraws);
    var ok, back := layer.Backward(ones, backwardDraws);
    forwardOut, backwardOut := output[0, 0], back[0, 0];
  }

  /**
   * Loading from a stream that holds the base state but no rate: the load
   * fails, the base state read from the stream stays in place and the rate
   * keeps its old value.
   */
  method LoadTruncatedStream() returns (loaded: bool, name: string, ni: int, rate: real)
    ensures !loaded && name == "dropout" && ni == 4 && rate == 0.25
  {
    var fp := new Stream.TFile.OpenRead([Stream.NetworkHeader("dropout", 4, 4)]);
    var layer := new DropoutLayer("", 0, 0.25);
    loaded := layer.DeSerialize(fp);
    name, ni, rate := layer.name, layer.ni, layer.dropoutRate;
  }

  /**
   * The layer as written at a negative rate: Forward copies a cell, while
   * Backward scales that cell's delta by 1 / (1 - rate) = 1/2.
   */
  method BackwardAtNegativeRateScales() returns (forwardOut: real, backwardOut: real)
    ensures forwardOut == 1.0 && backwardOut == 0.5
  {
    var layer := new DropoutLayer("dropout", 1, -1.0);
    var ones := new real[1, 1]((t, d) => 1.0);
    var zeros := new real[1, 1]((t, d) => 0.0);
    var output := layer.Forward(ones, zeros);
    var ok, back := layer.Backward(ones, zeros);
    forwardOut, backwardOut := output[0, 0], back[0, 0];
  }

  /**
   * The layer as written at rate 0: Forward passes a cell through unchanged,
   * while Backward drops its gradient when the cell's draw is 0.
   */
  method BackwardAtRateZeroDrops() returns (forwardOut: real, backwardOut: real)
    ensures forwardOut == 1.0 && backwardOut == 0.0
  {
    var layer := new DropoutLayer("dropout", 1, 0.0);
    var ones := new real[1, 1]((t, d) => 1.0);
    var zeros := new real[1, 1]((t, d) => 0.0);
    var output := layer.Forward(ones, zeros);
    var ok, back := layer.Backward(ones, zeros);
    forwardOut, backwardOut := output[0, 0], back[0, 0];
  }

  /**
   * The corrected pair: Forward multiplies each cell by a gain and Backward,
   * reusing Forward's mask, multiplies that cell's delta by the same gain, so
   * Backward is the derivative of Forward; at rate <= 0 both are copies.
   */
  method CorrectedTrainingStep(layer: DropoutLayer, input: array2<real>, draws: array2<real>, deltas: array2<real>)
    returns (output: array2<real>, ok: bool, back: array2<real>)
    requires layer.dropoutRate != 1.0
    requires layer.dropoutRate > 0.0 ==> DrawsFor(draws, input)
    requires SameShape(deltas, input)
    modifies layer
    ensures layer.dropoutRate == old(layer.dropoutRate)
    ensures layer.name == old(layer.name) && layer.ni == old(layer.ni) && layer.no == old(layer.no)
    ensures ok && SameShape(output, input) && SameShape(back, input)
    ensures forall t, d :: 0 <= t < input.Length0 && 0 <= d < input.Length1 ==>
      var g := Gain(layer.dropoutRate, layer.dropoutRate > 0.0 && draws[t, d] > layer.dropoutRate);
      output[t, d] == g * input[t, d] && back[t, d] == g * deltas[t, d]
  {
    output := layer.ForwardKeepingMask(input, draws);
    ok, back := layer.BackwardWithKeptMask(deltas);
    forall t, d | 0 <= t < input.Length0 && 0 <= d < input.Length1
      ensures back[t, d] == Gain(layer.dropoutRate, layer.dropoutRate > 0.0 && draws[t, d] > layer.dropoutRate) * deltas[t, d]
    {
      if layer.dropoutRate > 0.0 {
        var m := layer.dropoutMask[t, d];
        assert m == 0.0 || m == 1.0;
      }
    }
  }
}
