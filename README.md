# Dropout layer of tesseract's LSTM networks, modelled in Dafny

This project models `DropoutLayer`, the dropout layer of tesseract's LSTM
network code (`src/lstm/dropout.h`, `src/lstm/dropout.cpp`). It has three parts:

- `dropout.dfy`, module `Dropout`: the class `DropoutLayer`. Its fields are the
  base `Network` state the constructor sets (`name`, `ni`, `no`), the rate
  `dropoutRate` (`dropout_rate_`) and the never-written member `dropoutMask`
  (`dropout_mask_`). Its methods are the constructor, `Spec` (`spec()`),
  `Serialize`, `DeSerialize`, `GenerateDropoutMask`, `Forward` and `Backward`.
  A `NetworkIO` buffer is an `array2<real>`: `Length0` is the width (time
  steps) and `Length1` the feature count. Each `rand() / (RAND_MAX + 1.0)`
  is one cell of a caller-supplied `draws` grid with values in [0, 1).
- `tfile.dfy`, module `Stream`: the serialization stream (`TFile`) as a
  sequence of typed items. A write fails once the medium is full. A read fails,
  consuming nothing, when the next item is missing or of the wrong kind. A ghost
  log records every call attempted.
- `rate_format.dfy`, module `RateFormat`: `std::to_string` of the rate, that is
  the C `"%f"` conversion, rounding to six decimals with ties to even. It also
  has a reader for that format and lemmas saying what the reader gives back.

`Forward`, `Backward` and `GenerateDropoutMask` have no `modifies` clause, so
Dafny's framing guarantees that they change no existing object. In particular
the rate and `dropoutMask` stay as they were, and the masks they build are
local and thrown away. `Backward`'s result is stated purely in terms of its
deltas, its own draws and the rate, so it reads no mask left by `Forward`.
`Spec` is a function, so it cannot change the layer either.

Where the code departs from standard inverted dropout (the forward mask reused
in the backward pass, identity when the rate is 0), or from what its own
declarations suggest, the model follows the code:

- A cell is kept when its draw is strictly greater than the rate, not when it is
  greater or equal.
- `Forward` takes the copy branch for every rate <= 0, not only for 0.
- `Backward` draws a fresh mask instead of reusing `Forward`'s. It has no
  copy branch at rate 0. It does rescale by 1 / (1 - rate).
- `dropout_mask_` is never written.
- The `spec()` token gives back the rate only to six decimals (see
  `RateFormat.RoundedIsClose`).
- When `DeSerialize` reads the base state and then fails on the rate, it
  reports failure but leaves the new base state in place.

## Model

| member | source | states |
|---|---|---|
| `Dropout.DropoutLayer.constructor` | src/lstm/dropout.cpp:28-29 | The output feature count equals the input feature count `ni`. The name is kept and the rate is stored unchanged. The mask starts empty. |
| `Dropout.DropoutLayer.Spec` | src/lstm/dropout.h:32-34 | The token starts with "Dr". The rest reads back, in the `"%f"` format, as the rate rounded to six decimals. |
| `Dropout.DropoutLayer.SerializeBase` | src/lstm/dropout.cpp:32 | The base step writes the base state as one item. It succeeds exactly when the medium has room. |
| `Dropout.DropoutLayer.DeSerializeBase` | src/lstm/dropout.cpp:36 | The base step reads one header item and restores name, `ni` and `no` from it. It fails, changing nothing, when the next item is not a header. |
| `Dropout.DropoutLayer.Serialize` | src/lstm/dropout.cpp:31-33 | The base state is written first. The rate is written only if that succeeded: if the base write fails, no rate write is attempted. The result is true exactly when both fit. |
| `Dropout.DropoutLayer.DeSerialize` | src/lstm/dropout.cpp:35-37 | The base state is read first. The rate is read only if that succeeded: if the base read fails, no rate read is attempted and the layer is unchanged. On success the rate is the stored float. |
| `Dropout.SaveAndLoad` | src/lstm/dropout.cpp:31-37 | Loading what `Serialize` wrote restores the rate, the base state and hence `Spec()`. Saving succeeds iff the medium holds two items, and loading succeeds iff saving did. |
| `Dropout.DropoutLayer.GenerateDropoutMask` | src/lstm/dropout.cpp:55-62 | The mask has the input's width and feature count. Every cell is 0 or 1. A cell is 1 iff its draw is strictly greater than the rate, so a draw equal to the rate gives 0. |
| `Dropout.DropoutLayer.MaskAndScale` | src/lstm/dropout.cpp:45-49 | The output has the grid's shape. Each cell is the input cell times its mask value, divided by 1 - rate. |
| `Dropout.DropoutLayer.Forward` | src/lstm/dropout.cpp:39-53 | The output has the input's shape. For rate <= 0 it is an exact copy that does not depend on the draws. For rate > 0 a cell is input / (1 - rate) where the draw exceeds the rate, and 0 elsewhere. |
| `Dropout.DropoutLayer.Backward` | src/lstm/dropout.cpp:64-75 | It always returns true. The result has the deltas' shape. Whatever the rate, including 0, a delta is scaled by 1 / (1 - rate) where Backward's own draw exceeds the rate, and is 0 elsewhere. |
| `Stream.TFile.Write` | src/lstm/dropout.cpp:32 | A write appends its item and succeeds iff the medium has room. Otherwise it leaves the stream unchanged. |
| `Stream.TFile.ReadFloat` | src/lstm/dropout.cpp:36 | A float read returns the next item and advances iff that item is a float. Otherwise it consumes nothing. |
| `RateFormat.FormatParses` | src/lstm/dropout.h:33 | Reading back the `"%f"` text of the rate gives the rate rounded to six decimals, with its sign. |
| `RateFormat.RoundedIsClose` | src/lstm/dropout.h:33 | That rounding moves the rate by at most 5e-7. |
| `RateFormat.SixDecimalsExact` | src/lstm/dropout.h:33 | A rate with at most six decimals is reproduced exactly. |
| `RateFormat.FixedPointParses` | src/lstm/dropout.h:33 | The unsigned six-decimal text of m millionths reads back as m / 10^6 and does not start with a minus sign. |
| `RateFormat.DecimalValue` | src/lstm/dropout.h:33 | The integer part's digits denote the integer they print. |
| `RateFormat.PaddedValue` | src/lstm/dropout.h:33 | The six zero-padded fractional digits denote the fraction they print. |
| `Dropout.BackwardMaskMismatch` | src/lstm/dropout.cpp:67-71 | As written, at rate 1/2 `Forward` keeps a cell and doubles it (draw 0.75). `Backward`, with its own draw 0.25, drops the gradient of that same cell. |
| `Dropout.LoadTruncatedStream` | src/lstm/dropout.cpp:35-37 | Loading a stream that holds a header but no rate fails. The base state read from it stays in place and the rate keeps its old value. |
| `Dropout.BackwardAtNegativeRateScales` | src/lstm/dropout.cpp:64-75 | As written, at rate -1 `Forward` copies a cell of 1.0, while `Backward` returns 0.5 for that cell's delta of 1.0. |
| `Dropout.BackwardAtRateZeroDrops` | src/lstm/dropout.cpp:66-73 | As written, at rate 0 `Forward` passes a cell through. `Backward` returns 0 for that cell's delta when its draw is 0. |
| `Dropout.DropoutLayer.ForwardKeepingMask` | src/lstm/dropout.h:50 | The corrected Forward: the same output as `Forward`, and for rate > 0 the mask it used is kept in `dropoutMask`. |
| `Dropout.DropoutLayer.BackwardWithKeptMask` | src/lstm/dropout.cpp:64-75 | The corrected Backward: a copy for rate <= 0. Otherwise it masks with the kept mask and rescales, and it fails when no kept mask has the deltas' shape. |
| `Dropout.CorrectedTrainingStep` | src/lstm/dropout.cpp:39-75 | With the corrected pair, each output cell is g times its input and each back delta is the same g times its delta. So Backward is the derivative of Forward. |

## Findings

| source | as written | input that shows it | evidently intended | confidence | as-written member | corrected member |
|---|---|---|---|---|---|---|
| src/lstm/dropout.cpp:67-68 | `Backward` generates a new mask from new draws instead of applying the mask `Forward` used. The member `dropout_mask_` that would carry it is never written. | Rate 0.5, a 1x1 grid of 1.0. `Forward` draws 0.75, so the output is 2.0. `Backward` draws 0.25, so the back delta is 0.0, where the derivative of `Forward` is 2.0. | `Forward` keeps its mask and `Backward` reuses it, so each delta gets the gain its cell got in `Forward`. | high (not executed) | `Dropout.BackwardMaskMismatch` | `Dropout.CorrectedTrainingStep` |
| src/lstm/dropout.cpp:64-75 | `Backward` has no copy branch for a disabled layer. At a negative rate it still scales every delta by 1/(1 - rate), and at rate 0 it still masks with `draw > 0`. | Rate -1, a 1x1 grid of 1.0, draw 0.0: `Forward` outputs 1.0 and `Backward` outputs 0.5, since every delta is scaled by 1/(1 - rate) whatever the draw (`Dropout.BackwardAtNegativeRateScales`). Also rate 0, draw 0.0 (that is, `rand() == 0`): `Forward` outputs 1.0 and `Backward` outputs 0.0. | At rate <= 0 `Backward` copies its deltas, as `Forward` copies its input. | high (not executed) | `Dropout.BackwardAtNegativeRateScales` | `Dropout.DropoutLayer.BackwardWithKeptMask` |

## Left out

- IEEE float behaviour: values and the rate are reals. Rounding, NaN and
  infinity propagation, and the float subtraction `1.0f - dropout_rate_` are
  not modelled. At rate = 1 the source divides by zero, so `Forward` and
  `Backward` require a rate other than 1.
- `rand()`, its global state and the unused `std::mt19937 rng_`: draws come in
  as a grid of values in [0, 1). Not modelled: the order in which `rand()` is
  consumed, that the generator advances only when a mask is built, and that
  draws are independent. The statistical drop fraction is a probabilistic
  claim and not stated.
- `Network::Serialize` / `Network::DeSerialize` (network.h is not part of this
  model): the base state is one header item holding the name, `ni` and `no`.
  The network type, flags and weight count the real base class writes are not
  modelled.
- `TFile`: no byte layout, no endianness and no 4-byte encoding of the float.
  An item holds an exact value. A failed float read leaves the rate unchanged,
  which does not model a partly filled read.
- `NetworkIO::Resize` and `CopyAll`: `Resize` is allocation of a grid of the
  input's shape, ignoring integer mode and stride maps. `CopyAll` is element
  initialisation from the input.
- `Forward` allocates its mask before its output buffer, while the source
  resizes the output first. Both are new buffers, so the order is not
  observable.
- `std::to_string` of the float `-0.0f` prints "-0.000000". Reals have no
  negative zero, so that case gives "0.000000".
- `DebugWeights` (pure I/O through `tprintf`), the unused `debug`,
  `input_transpose` and `scratch` parameters, and `ApplyDropout`, which is
  declared but never defined.
