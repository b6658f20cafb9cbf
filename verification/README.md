# CFU Playground: verified models

This project models the parts of CFU Playground whose correctness rests on an argument rather than on a glance at the
code, and proves what they are for. `dafny verify dfyconfig.toml` checks everything.

| file | what it models |
|---|---|
| `Lcg.dfy` | the 64-bit linear congruential generator and its use for random tensors: full period 2^64, exact periods of the emitted words and bytes |
| `Conv.dfy`, `Simd.dfy`, `Kernels.dfy` | the int8 convolution kernel, the four-lane multiply-accumulate unit it drives, and the plain loop nest both stand for |
| `Geometry.dfy` | what padding, stride and dilation mean: every layer against the plain one on a padded image and a zero-stuffed filter |
| `FullyConnected.dfy`, `Tpu.dfy`, `Placement.dfy`, `TileControl.dfy`, `Systolic.dfy` | the int8 fully connected kernel and the matrix unit behind it, clock by clock: buffers, tile controller, write buffer and the 4x4 systolic array |
| `CommandPort.dfy` | the command port in front of both units: which commands are answered, how often a waiting one takes effect, and the unit behind it served command by command |
| `Handshake.dfy` | the CFU command/response state machine run under the CPU/CFU clock gate, with an arbitrary CPU and arbitrary instructions |
| `Murmur.dfy` | MurmurHash3 (32 bits, seed 0), its inverse in each word and in the tail, and its values in the repository's own cases |
| `Line.dfy` | Bresenham line drawing into a framebuffer |
| `NasNet.dfy` | the NasNet builder against the shapes its forward pass produces |
| `Trap.dfy` | division by trap and emulation, from register save to register restore |
| `Reader.dfy` | the prefetching sequential memory reader against a plain cursor |
| `Lram.dfy`, `InitVal.dfy` | the stacked or striped Lattice RAM behind one Wishbone port, and its initial-value strings |
| `CycleCounter.dfy` | the 64-bit cycle counter read through two 32-bit halves |
| `Sampler.dfy`, `Floats.dfy` | the repeated-augmentation sampler, with its sizes computed in double precision |
| `WeightDecay.dfy` | sorting a model's parameters into weight-decay groups |
| `Words.dfy`, `Wrappers.dfy` | fixed-width integers on unbounded ones; optional and failing results |

Registers and framebuffers, device state, the sampler, the builder and the decay dictionaries are classes, arrays and
methods, as in the source; each method is tied by its contract to a function of its inputs or of the old state, and the
theorems are about those functions. Hardware runs are functions of the clock edge, over every sequence of inputs.

## Where the code and its description differ

The model follows the code. In each case the exact condition under which the code does what is wanted is proved as an
if-and-only-if.

* The SIMD unit of `cfu.v` keeps each product on a 16-bit wire. It is exact for all bytes, and the convolution kernel
  agrees with the loop nest on all layers, exactly for input offsets from -127 to 129 (`Simd.TapExactIff`,
  `Conv.KernelExactIff`). TFLite's offsets for int8 inputs run from -127 to 128.
* The matrix unit's offset port is declared eight bits wide (`cfu.v:296`) although the register behind it has 32. The
  fully connected kernel agrees with the scalar loop on all calls exactly for input offsets from 0 to 255
  (`FullyConnected.KernelExactIff`).
* The matrix unit always writes whole tiles of four rows. Every entry of the product ends up in its place, for all buffer
  contents, exactly for the sizes whose last tile ends inside the 1024 result rows, 64 by 64 by 64 among them; otherwise
  spilled rows go round to the first ones (`Placement.PlacedIff`). Started on at least one column, the unit comes back to
  idle exactly when it has rows and a depth (`Tpu.ReturnsIff`).
* The command port of `cfu.v` never looks at rsp_ready: a stalled response is lost (`CommandPort.AnsweredIff`). A
  multiply-add presented while the matrix unit calculates is added in every cycle it waits (`CommandPort.AddedOnceIff`,
  `CommandPort.AddedEveryCycle`).
* `fb_draw_line` climbs at most one row a column. It paints both end points exactly when the line is not steep; a
  vertical line counts as not steep (`Line.EndsPaintedUnlessSteep`).
* The trap handler saves no slot for x0 and x2, and tests for a zero divisor in div and divu only. `Trap.ConformsIff`,
  `Trap.ConformsShape` and `Trap.AlwaysConformsIff` say exactly when the outcome is the one section 7.2 of the RISC-V
  Unprivileged ISA manual (version 20191213) requires. It also never looks at funct7: other illegal words with the same
  opcode are taken for divisions or silently skipped (`Trap.OtherWords`, `Trap.HandledIff`).
* The comment at `nasnet.py:320` says the stem filters must be 44. What is needed is that they equal the cell filters,
  and that no image height reaches one pixel before its width does: cells compare heights only. Without normal cells the
  linear layer is never as wide as what it gets from a reduction cell (`NasNet.RunsIff`).
* `RASampler` asserts a list length that fails when the list is shorter than the padding it needs
  (`Sampler.DrawnUnlessShort`; `Sampler.ShortListFails` is an instance).
* The comment at `perf.h:59-61` promises a valid value in every case. A limit on the ticks a pass takes guarantees one if
  and only if it is at most 2^64 - 2^32 (`CycleCounter.WholeIff`).

## Model

| member | source | states |
|---|---|---|
| Lcg.Generator.NextPseudoRandom | common/src/playground_util/random.c:21-27 | one call advances the stored state by the wrapped affine step and returns the window of state bits whose period is proved below |
| Lcg.RandomizeInput | common/src/tflite.cc:224-229 | byte i of the tensor is the low byte of the i-th output of the seed, for every length |
| Lcg.GeoDiv2 | common/src/playground_util/random.c:21-24 | for a multiplier 1 modulo 4, the geometric sum of n terms has exactly as many factors of two as n |
| Lcg.OrbitReturns | common/src/playground_util/random.c:21-24 | modulo every 2^k, n affine steps return to the start if and only if 2^k divides n |
| Lcg.OrbitReaches | common/src/playground_util/random.c:21-24 | modulo every 2^k, each target is reached from each start in fewer than 2^k steps |
| Lcg.FullPeriod | common/src/playground_util/random.c:21-24 | from every seed, the n-th state equals the seed if and only if 2^64 divides n |
| Lcg.NoEarlyRepeat | common/src/playground_util/random.c:21-24 | two call counts give the same state if and only if they differ by a multiple of 2^64 |
| Lcg.EveryStateVisited | common/src/playground_util/random.c:21-24 | every 64-bit state is reached from every seed within 2^64 calls |
| Lcg.WindowPeriodExact | common/src/playground_util/random.c:21-26 | the periods of state bits lo to hi-1 are exactly the multiples of 2^hi, for every window |
| Lcg.OutputPeriod | common/src/playground_util/random.c:23-26 | p is a period of the emitted 32-bit values if and only if 2^60 divides p |
| Lcg.BytePeriod | common/src/tflite.cc:227-228 | p is a period of the random tensor bytes if and only if 2^36 divides p |
| Lcg.SameBitsIff | common/src/playground_util/random.c:25-26 | agreeing in a window of bits, which the periods are about, is agreeing in every bit of it |
| Lcg.OutputBits | common/src/playground_util/random.c:25-26 | bit i of a returned value is bit 28 + i of the state, for all 32 bits |
| Conv.ConvPerChannel | proj/AAML_final_proj/src/tensorflow/lite/kernels/internal/reference/integer_ops/conv.h:34-174 | the whole output array, cell by cell: the clamped, requantised sum over the in-image taps of that cell's own window plus bias, with nothing left over from other cells; for offsets -127 to 129 with exact taps |
| Conv.AddWindow | proj/AAML_final_proj/src/tensorflow/lite/kernels/internal/reference/integer_ops/conv.h:113-157 | whatever the device sum was, one output cell's command sequence returns the wrapped window sum and leaves the offset alone |
| Conv.AddPixel | proj/AAML_final_proj/src/tensorflow/lite/kernels/internal/reference/integer_ops/conv.h:133-153 | four channels a command and one partial word add exactly the channel sum, for every depth |
| Conv.PackRemaining | proj/AAML_final_proj/src/tensorflow/lite/kernels/internal/reference/integer_ops/conv.h:146-151 | the shifted-in words hold the remaining bytes with zero lanes above them |
| Conv.RestChannels | proj/AAML_final_proj/src/tensorflow/lite/kernels/internal/reference/integer_ops/conv.h:145-153 | the partial word adds the remaining one to three channels; zero-filled lanes add nothing, whatever the offset |
| Conv.UnsignedTrick | proj/AAML_final_proj/src/tensorflow/lite/kernels/internal/reference/integer_ops/conv.h:29-31 | one unsigned comparison is the two-sided bounds test, for every non-negative bound |
| Conv.RowOutside | proj/AAML_final_proj/src/tensorflow/lite/kernels/internal/reference/integer_ops/conv.h:123-156 | skipping a filter row outside the image loses nothing |
| Conv.BasesAreOffset | proj/AAML_final_proj/src/tensorflow/lite/kernels/internal/reference/integer_ops/conv.h:88-132 | the hoisted per-dimension bases add up to the row-major position |
| Conv.OffsetInjective | proj/AAML_final_proj/src/tensorflow/lite/kernels/internal/reference/integer_ops/conv.h:96-110 | different output cells have different positions, so none is written twice |
| Conv.OffsetOnto | proj/AAML_final_proj/src/tensorflow/lite/kernels/internal/reference/integer_ops/conv.h:96-110 | every position of the output array belongs to a cell, so none is left unwritten |
| Conv.MaskedOffset | proj/AAML_final_proj/src/tensorflow/lite/kernels/internal/reference/integer_ops/conv.h:57-58 | the nine bits sent to the device decode to the offset's own low nine bits, for every 32-bit offset |
| Conv.KernelMatchesReference | proj/AAML_final_proj/src/tensorflow/lite/kernels/internal/reference/integer_ops/conv.h:247-289 | for offsets -127 to 129 the device's taps give the accumulator and the output byte of the plain loop nest, on every layer |
| Conv.KernelExactIff | proj/AAML_final_proj/src/tensorflow/lite/kernels/internal/reference/integer_ops/conv.h:57-171 | the accumulators are right on all layers if and only if the offset is from -127 to 129 |
| Conv.AccumulatorIsExactSum | proj/AAML_final_proj/src/tensorflow/lite/kernels/internal/reference/integer_ops/conv.h:113-157 | up to 65,793 taps cannot overflow the 32-bit accumulator for offsets -127 to 128 |
| Conv.ReferenceWindow | proj/AAML_final_proj/src/tensorflow/lite/kernels/internal/reference/integer_ops/conv.h:254-279 | the plain loop nest, which wraps after every term, returns the wrapped window sum |
| Conv.TapLimit | proj/AAML_final_proj/src/tensorflow/lite/kernels/internal/reference/integer_ops/conv.h:113-157 | a number of taps is safe on all layers if and only if it is at most 65,793: at offset -127 one more can overflow |
| Geometry.PaddingIsFill | proj/AAML_final_proj/src/tensorflow/lite/kernels/internal/reference/integer_ops/conv.h:105-127 | for offsets -127 to 128 a padded layer has the accumulators of the layer on the image with its padding written out, filled with minus the offset, however far the image is extended on the far sides |
| Geometry.StrideSkipsCells | proj/AAML_final_proj/src/tensorflow/lite/kernels/internal/reference/integer_ops/conv.h:104-111 | cell (y, x) of a layer with strides is cell (y times stride, x times stride) of the layer without |
| Geometry.DilationIsStuffing | proj/AAML_final_proj/src/tensorflow/lite/kernels/internal/reference/integer_ops/conv.h:118-127 | a dilated filter gives the accumulators of the filter with its rows and columns moved apart and zeros between them |
| Geometry.PlainReads | proj/AAML_final_proj/src/tensorflow/lite/kernels/internal/reference/integer_ops/conv.h:118-132 | without padding, stride and dilation, filter position (fy, fx) of cell (y, x) is over pixel (y + fy, x + fx) |
| Geometry.KernelIsPlain | proj/AAML_final_proj/src/tensorflow/lite/kernels/internal/reference/integer_ops/conv.h:57-157 | for offsets -127 to 128 the accelerated accumulators of any layer are those of the layer without padding, stride and dilation on the padded image and the zero-stuffed filter, at every stride-th cell |
| Simd.SimdUnit.SetOffset | proj/AAML_final_proj/cfu.v:196-198 | the operand's low nine bits become the signed offset and the sum is kept |
| Simd.SimdUnit.Clear | proj/AAML_final_proj/cfu.v:215-216 | the sum is cleared and zero returned; the offset is kept |
| Simd.SimdUnit.MultiplyAdd | proj/AAML_final_proj/cfu.v:215-216 | the sum grows by the four lane products, wrapped once, and is returned; the offset is kept |
| Simd.LanesOfPack | proj/AAML_final_proj/src/tensorflow/lite/kernels/internal/reference/integer_ops/conv.h:139-143 | packing four bytes and splitting the word into signed lanes is the identity |
| Simd.PackedSum | proj/AAML_final_proj/cfu.v:251-262 | a multiply-add of packed words is the sum of the four byte products |
| Simd.TapExactIff | proj/AAML_final_proj/cfu.v:251-259 | the 16-bit products are exact for all bytes if and only if the offset is from -127 to 129 |
| Simd.InexactTap | proj/AAML_final_proj/cfu.v:251-259 | for any other offset, bytes on which the unit's contribution is wrong even modulo 2^32 |
| Kernels.FinishSum | proj/AAML_final_proj/src/tensorflow/lite/kernels/internal/reference/integer_ops/conv.h:158-169 | bias, rescale, output offset, activation range and byte, one after the other, give the output the rows below are about |
| Kernels.RequantizeNearest | proj/AAML_final_proj/src/tensorflow/lite/kernels/internal/reference/integer_ops/conv.h:163-169 | the output is the one number of the activation range nearest to the rescaled sum plus output offset, whatever the rescale does; only a range beyond signed bytes is cut, to the low eight bits |
| Kernels.BiasedSum | proj/AAML_final_proj/src/tensorflow/lite/kernels/internal/reference/integer_ops/conv.h:158-160 | the biased sum is the only 32-bit number that differs from accumulator plus bias by a multiple of 2^32 |
| FullyConnected.FullyConnected | proj/AAML_final_proj/src/tensorflow/lite/kernels/internal/reference/integer_ops/fully_connected.h:162-244 | every output byte of every batch is the requantised sum of its own rows, with the offset the unit received; for offsets 0 to 255 that is the scalar double loop's byte; batches do not affect each other |
| FullyConnected.RunBatch | proj/AAML_final_proj/src/tensorflow/lite/kernels/internal/reference/integer_ops/fully_connected.h:196-222 | after send A, send B, configure and run, the result buffer holds each channel's sum for this batch, whatever the buffers held before |
| FullyConnected.LoadWeights | proj/AAML_final_proj/src/tensorflow/lite/kernels/internal/reference/integer_ops/fully_connected.h:198-216 | word copies fill the block with every row of the filter, for every depth up to 64, and leave zeros in the rows beyond and after the copied words |
| FullyConnected.SendBlockA | proj/AAML_final_proj/src/tensorflow/lite/kernels/internal/reference/integer_ops/fully_connected.h:42-50 | every row tile is in the left buffer, column by column, tile after tile, for any number of rows up to 64 |
| FullyConnected.SendBlockB | proj/AAML_final_proj/src/tensorflow/lite/kernels/internal/reference/integer_ops/fully_connected.h:52-59 | the input is in the first lane of the right buffer, the other lanes zero |
| FullyConnected.ReceiveBlockC | proj/AAML_final_proj/src/tensorflow/lite/kernels/internal/reference/integer_ops/fully_connected.h:61-67 | the first column of the result rows comes back in order |
| FullyConnected.TopLanes | proj/AAML_final_proj/src/tensorflow/lite/kernels/internal/reference/integer_ops/fully_connected.h:38-40 | packing puts the four bytes in the lanes the array reads them from, the first on top |
| FullyConnected.DotIsChannelSum | proj/AAML_final_proj/src/tensorflow/lite/kernels/internal/reference/integer_ops/fully_connected.h:96-102 | the array's lane product over the sent words is the scalar loop's sum over the original rows |
| FullyConnected.EntryIsSum | proj/AAML_final_proj/src/tensorflow/lite/kernels/internal/reference/integer_ops/fully_connected.h:218-222 | the unit's product entry of a row is the channel sum of the bytes behind the sent blocks, whatever the other lanes hold |
| FullyConnected.ScalarSum | proj/AAML_final_proj/src/tensorflow/lite/kernels/internal/reference/integer_ops/fully_connected.h:96-102 | the scalar loop, which wraps after every term, returns the wrapped channel sum |
| FullyConnected.KernelExactIff | proj/AAML_final_proj/cfu.v:296-296 | the sums are right on all calls if and only if the offset is from 0 to 255 |
| Systolic.FlightStep | proj/AAML_final_proj/cfu.v:506-550 | each clock keeps the closed form of where every byte and mask bit is in the array, idle clocks included |
| Systolic.SumStep | proj/AAML_final_proj/cfu.v:794-798 | each clock keeps the closed form of every processing element's sum; the clear pulse starts it from nothing |
| Systolic.TileProgress | proj/AAML_final_proj/cfu.v:455-551 | in every cycle of a tile, data in flight and partial sums are as the closed forms say, for every depth and data |
| Systolic.TileComputesProduct | proj/AAML_final_proj/cfu.v:455-551 | K reading cycles and seven waiting ones leave the wrapped K-term product in all sixteen elements, and the array empty |
| Systolic.SixCyclesTooFew | proj/AAML_final_proj/cfu.v:438-439 | with one waiting cycle fewer the last element still misses its last term |
| Tpu.MatrixUnit.WriteA | proj/AAML_final_proj/cfu.v:586-592 | one word of the left buffer changes, at the index modulo its depth |
| Tpu.MatrixUnit.WriteB | proj/AAML_final_proj/cfu.v:586-592 | one word of the right buffer changes, at the index modulo its depth |
| Tpu.MatrixUnit.ReadC | proj/AAML_final_proj/cfu.v:264-269 | one of the four values of a result row |
| Tpu.MatrixUnit.constructor | proj/AAML_final_proj/cfu.v:134-142 | reset gives a unit at rest, with its own buffers |
| Tpu.MatrixUnit.Run | proj/AAML_final_proj/cfu.v:306-445 | for all sizes from 1 to 255: clocked until it is idle, the unit leaves the result memory as if the tiles were written one after the other, round the end of the memory, and is ready for the next command; if the last tile has room, every entry of the product is in its place |
| Tpu.MatrixUnit.Cycle | proj/AAML_final_proj/cfu.v:306-445 | one clock: the memories at the falling edge, all registers of controller, write buffer and array at the rising edge |
| Placement.TileStep | proj/AAML_final_proj/cfu.v:374-378 | a tile's four rows keep all entries placed earlier, though they may spill over the next tile's, and place its own |
| Placement.PlaceInTile | proj/AAML_final_proj/cfu.v:374-378 | rows between two tile starts belong to one tile alone |
| Placement.ProductPlaced | proj/AAML_final_proj/cfu.v:374-392 | with room for the last tile, every entry of the product is in its place after the tile-by-tile writes |
| Placement.ProductMisplaced | proj/AAML_final_proj/cfu.v:586-592 | without room, contents for which an entry is not |
| Placement.PlacedIff | proj/AAML_final_proj/cfu.v:374-392 | every entry is in its place for all contents of the three memories if and only if the last tile has room |
| TileControl.InTileStep | proj/AAML_final_proj/cfu.v:317-445 | in every cycle of a tile the controller's phase, counter, tile numbers and indices are as the closed forms say |
| TileControl.TileEnds | proj/AAML_final_proj/cfu.v:346-378 | after seven waiting cycles the controller is at the next tile in order, or past the last one |
| TileControl.RestStays | proj/AAML_final_proj/cfu.v:425-445 | an idle unit stays at rest, with nothing in flight in the array |
| TileControl.WriterStep | proj/AAML_final_proj/cfu.v:613-693 | each cycle brings one pending row to its place while the next tile is computed |
| TileControl.WriterTakes | proj/AAML_final_proj/cfu.v:613-693 | five cycles after it took four rows the write buffer is free for the next |
| CommandPort.CfuPort.Edge | proj/AAML_final_proj/cfu.v:133-248 | one clock of the port: the shared accept-and-respond wire and the registers |
| CommandPort.NoLaterResponse | proj/AAML_final_proj/cfu.v:144-171 | between two accepted commands no response is offered, but one when a calculation ends with no command waiting |
| CommandPort.AnsweredIff | proj/AAML_final_proj/cfu.v:246-247 | for every run with held commands, a command other than 0 is answered if and only if the CPU is ready in the cycle that accepts it |
| CommandPort.WaitsWhileBusy | proj/AAML_final_proj/cfu.v:158-161 | after code 0 nothing is accepted while the matrix unit is busy, for however long |
| CommandPort.AddedEveryCycle | proj/AAML_final_proj/cfu.v:195-217 | a waiting multiply-add is added once in every cycle until it is accepted |
| CommandPort.AddedOnceIff | proj/AAML_final_proj/cfu.v:195-217 | a multiply-add is accepted as it is presented, and so added exactly once, if and only if no calculation is under way |
| CommandPort.AcceptedWithin | proj/AAML_final_proj/cfu.v:147-171 | an idle port accepts codes 5, 6 and 7 at once and every other code one cycle later |
| CommandPort.Serve | proj/AAML_final_proj/cfu.v:195-217 | the multiply-accumulate unit on its own has the effect of one command that the row below gives to every accepted one |
| CommandPort.PortServesCommands | proj/AAML_final_proj/cfu.v:195-217 | for every run with held commands and no multiply-add presented during a calculation: whenever no command waits, the registers are those of a unit that was given every accepted command exactly once |
| Tpu.TileFinishes | proj/AAML_final_proj/cfu.v:313-392 | the last cycle of a tile hands its sums to the write buffer as the next tile begins |
| Tpu.Continued | proj/AAML_final_proj/cfu.v:306-445 | every cycle of every run keeps the account of the run: where the tile is, what the array holds, which pending rows are written; and the run ends with the tile-by-tile result |
| Tpu.StaysBusy | proj/AAML_final_proj/cfu.v:425-445 | without a depth or without rows, a unit started on columns is never idle again |
| Tpu.ReturnsIff | proj/AAML_final_proj/cfu.v:306-445 | a unit started on at least one column comes back to idle if and only if it has rows and a depth |
| Handshake.GatedCfu.Edge | soc/clock_control.py:36-63 | one oscillator edge: outputs, clock enables and all registers of both machines |
| Handshake.ParkedInWaitCmd | soc/clock_control.py:38-63 | in every run, a controller in CPU_ENABLED implies a CFU in WAIT_CMD |
| Handshake.WhenClocksStop | soc/clock_control.py:38-63 | in every cycle of every run: the CPU clock stops exactly while an instruction is unfinished and no command is offered, the CFU clock only in WAIT_CMD without a command, and one of the two always runs |
| Handshake.NoMissedEdge | soc/clock_control.py:38-63 | no command is accepted and no response transferred on an edge that either side misses |
| Handshake.GatingInvisible | soc/clock_control.py:38-63 | after every run the gated CFU is in the state of one whose clock never stops |
| Handshake.OneOutstanding | python/amaranth_cfu/cfu.py:272-297 | accepted commands minus transferred responses is 0 in WAIT_CMD and 1 elsewhere, at every edge of every run |
| Handshake.TransferCompletes | python/amaranth_cfu/cfu.py:253-297 | every transfer ends an exchange with the command accepted last |
| Handshake.NthResponse | python/amaranth_cfu/cfu.py:253-297 | the n-th response is the output, in its first done cycle, of the instruction the n-th command chose; from then on it is offered unchanged until taken, and never before |
| Handshake.CommandIsAnswered | python/amaranth_cfu/cfu.py:253-297 | progress: an accepted command whose instruction reports done is answered in the first cycle from then on in which the CPU is ready |
| Handshake.ResponseBeforeNextCommand | python/amaranth_cfu/cfu.py:272-297 | the n-th response is taken before command n+1 is accepted |
| Handshake.EventCycles | python/amaranth_cfu/cfu.py:272-297 | the recorded cycles are exactly those with an accepted command or a transfer |
| Handshake.OneStartPerCommand | python/amaranth_cfu/cfu.py:280-285 | an instruction gets a start pulse in a cycle if and only if that cycle accepts a command that chose it |
| Handshake.IdNamesInstruction | python/amaranth_cfu/cfu.py:273-297 | a command with function id 8f + i starts instruction i and no other, and the response transferred is the output of instruction i in its first done cycle |
| Handshake.FallbackAnswersAtOnce | python/amaranth_cfu/cfu.py:137-145 | a command for an id without an instruction is answered in its own cycle with its first operand |
| Murmur.Murmurhash3_32 | common/src/playground_util/murmurhash.cc:19-110 | the moving-pointer loop, tail loop and finaliser compute the hash function the theorems below are about, for every length |
| Murmur.ScrambleInverse | common/src/playground_util/murmurhash.cc:54-56 | the scrambling of a word is a bijection, with its inverse |
| Murmur.ShakeInverse | common/src/playground_util/murmurhash.cc:61-63 | the round's rotate, multiply and add are a bijection, with its inverse |
| Murmur.FinaliseInverse | common/src/playground_util/murmurhash.cc:98-107 | the finaliser is a bijection on 32-bit words, with its inverse |
| Murmur.AbsorbAllInverse | common/src/playground_util/murmurhash.cc:47-64 | absorbing any list of words can be undone, from both sides |
| Murmur.OneWordBijective | common/src/playground_util/murmurhash.cc:45-107 | with everything else fixed, a word gives a hash if and only if it is the word the inverse computes from that hash |
| Murmur.TailWordRecovered | common/src/playground_util/murmurhash.cc:66-107 | the tail is recovered from the hash, the blocks and the length |
| Murmur.NoCollisionInBlock | common/src/playground_util/murmurhash.cc:45-107 | inputs of one length that differ only inside one aligned block have different hashes |
| Murmur.NoCollisionInTail | common/src/playground_util/murmurhash.cc:66-107 | inputs of one length that differ only after the last full block have different hashes |
| Murmur.NoCollisionByZeros | common/src/playground_util/murmurhash.cc:66-96 | zero bytes added inside the last, partial block, which no block and no tail word shows, change the hash |
| Murmur.ExpectedHashes | common/src/playground_util/util_tests.cc:47-55 | the hashes the repository asks for, for inputs of no, three, four, seven and eight bytes |
| Line.DrawLine | common/src/fb_util.c:197-286 | in all orientations: exactly the pixels of the painted set get the colour, every other pixel of the frame keeps its value |
| Line.DrawSlope | common/src/fb_util.c:251-282 | the error-driven loop paints exactly the nearest-row pixels, mirrored when the line falls, with an error term that stays in 32 bits |
| Line.NextColumn | common/src/fb_util.c:275-281 | each turn keeps the error invariant and moves to the nearest row of the next column |
| Line.ErrorInRange | common/src/fb_util.c:264-280 | the error term of every line in a frame of up to 2^28 pixels fits 32 bits |
| Line.OnePixelPerColumn | common/src/fb_util.c:268-282 | every column between the ends has exactly one painted pixel, between the end rows |
| Line.PaintedIffNearest | common/src/fb_util.c:242-282 | a line that is not steep, drawn from either end, paints exactly the pixels between its columns nearest to it, ties going to the left end's side |
| Line.WithinHalfPixel | common/src/fb_util.c:264-282 | every painted pixel of a line that is not steep is within half a row of the true line |
| Line.EndsPaintedUnlessSteep | common/src/fb_util.c:222-283 | both ends are painted if and only if the line is not steep |
| Line.PaintedPath | common/src/fb_util.c:197-286 | the painted pixels and no others form one path in which each touches the next; it leads from one end to the other unless the line is steep |
| NasNet.NasNetA.constructor | proj/AAML_final_proj/model_compression/pruning/engine/models/cifar/nasnet.py:240-256 | the running filter counts kept in fields give the cell list and linear layer the theorems below are about |
| NasNet.NasNetA.MakeLayers | proj/AAML_final_proj/model_compression/pruning/engine/models/cifar/nasnet.py:292-303 | the stages with doubling filters, and the filter count they end with |
| NasNet.NasNetA.MakeNormal | proj/AAML_final_proj/model_compression/pruning/engine/models/cifar/nasnet.py:259-275 | the cells of one block with the channel counts each is built for, and the counts after it |
| NasNet.NasNetA.MakeReduction | proj/AAML_final_proj/model_compression/pruning/engine/models/cifar/nasnet.py:277-290 | one reduction cell built for the current counts, and the counts after it |
| NasNet.BuiltAs | proj/AAML_final_proj/model_compression/pruning/engine/models/cifar/nasnet.py:240-303 | every network has (reductions + 1) * repeat + reductions cells, each (repeat + 1)-th a reduction that doubles the filters, each built for what the two before it put out; the linear layer takes six times the last filters |
| NasNet.WindowIff | proj/AAML_final_proj/model_compression/pruning/engine/models/cifar/nasnet.py:10-55 | the size after a layer is the number of window positions that end inside the padded row |
| NasNet.SumIff | proj/AAML_final_proj/model_compression/pruning/engine/models/cifar/nasnet.py:168-183 | a sum takes two tensors whose dimensions are equal or one, gives the larger ones, and nothing else |
| NasNet.FitHalvesIff | proj/AAML_final_proj/model_compression/pruning/engine/models/cifar/nasnet.py:91-107 | the older tensor is halved if and only if it has the channels the cell was built for and the filters are even in number |
| NasNet.FitGivesBranchShape | proj/AAML_final_proj/model_compression/pruning/engine/models/cifar/nasnet.py:91-107 | the older tensor, of equal or double size, comes out with the shape of a branch |
| NasNet.NormalCellRuns | proj/AAML_final_proj/model_compression/pruning/engine/models/cifar/nasnet.py:168-183 | a normal cell that gets what it was built for adds and concatenates equal sizes and gives six branches |
| NasNet.ReductionCellRuns | proj/AAML_final_proj/model_compression/pruning/engine/models/cifar/nasnet.py:218-235 | a reduction cell gives four branches of half the size, rounded up |
| NasNet.NormalCellFails | proj/AAML_final_proj/model_compression/pruning/engine/models/cifar/nasnet.py:91-183 | what makes a normal cell fail: no older tensor and the wrong width, or equal heights with unequal widths |
| NasNet.BareRunsIff | proj/AAML_final_proj/model_compression/pruning/engine/models/cifar/nasnet.py:292-314 | without normal cells the linear layer wants six branches where a reduction cell gives four |
| NasNet.ReductionWide | proj/AAML_final_proj/model_compression/pruning/engine/models/cifar/nasnet.py:218-235 | whatever a reduction cell accepts, its output is four branches wide |
| NasNet.FailurePersists | proj/AAML_final_proj/model_compression/pruning/engine/models/cifar/nasnet.py:292-301 | a network with more reductions fails wherever one with fewer does |
| NasNet.RunsIff | proj/AAML_final_proj/model_compression/pruning/engine/models/cifar/nasnet.py:240-316 | for every repeat and reduction count: with normal cells, the forward pass runs and the linear layer gets what it was built for if and only if the stem is as wide as the filters and no height reaches one pixel before the width does; without them, only straight from a stem of the linear layer's width |
| NasNet.TallIsCompatible | proj/AAML_final_proj/model_compression/pruning/engine/models/cifar/nasnet.py:96-102 | images at least as high as wide, square ones among them, are compatible with any number of reductions |
| Trap.Hart.TrapEntry | common/src/crt0-vexriscv.S:39-110 | save, dispatch, emulate and restore give the outcome function of registers, caller's word and pc, whatever the C code leaves in registers and on its own stack below the frame; memory above is unchanged |
| Trap.Hart.SaveRegisters | common/src/crt0-vexriscv.S:43-74 | the frame's 32 words, two of them not registers, and nothing else changed |
| Trap.Hart.constructor | common/src/crt0-vexriscv.S:39-110 | a hart with any registers and memory that leave room for the frame |
| Trap.Hart.RestoreRegisters | common/src/crt0-vexriscv.S:79-110 | every register but x0 and x2 comes from the frame, whatever the handler left in it |
| Trap.Hart.TrapHandler | common/src/base.c:44-50 | only illegal-instruction traps with the emulated opcode change the frame or mepc |
| Trap.Hart.InstructionHandler | common/src/instruction_handler.cc:60-72 | the frame and mepc change only for the emulated opcode |
| Trap.Hart.DivInstructionHandler | common/src/instruction_handler.cc:35-56 | one frame slot gets the routine's result, all memory around the frame is unchanged |
| Trap.DecodeEncode | common/src/instruction_handler.cc:36-39 | the handler's bit fields recover operation and registers from every encoded instruction |
| Trap.ComputedIsIsa | common/src/instruction_handler.cc:40-55 | the 64-bit routines give the manual's 32-bit results, signed overflow and division by zero included |
| Trap.DivisionLaw | common/src/instruction_handler.cc:40-55 | quotient and remainder of the manual are the only two numbers that make up the dividend with a remainder smaller than the divisor and of the dividend's sign |
| Trap.TrapConforms | common/src/crt0-vexriscv.S:39-110 | for saved registers the trap leaves registers, pc and caller's memory as section 7.2 of the RISC-V Unprivileged ISA manual requires |
| Trap.ConformsShape | common/src/crt0-vexriscv.S:39-110 | for all registers, x0 and x2 included, conformance is one equation on what the handler saw |
| Trap.ConformsIff | common/src/instruction_handler.cc:40-55 | for saved registers, whatever correct division routines are linked, a state conforms if and only if the operation is a division or the divisor is not zero |
| Trap.AlwaysConformsIff | common/src/crt0-vexriscv.S:39-110 | exactly which instructions conform in every state |
| Trap.DivisionWords | common/src/instruction_handler.cc:36-39 | the manual's division words are the encodings of the four operations, and no others |
| Trap.OtherWords | common/src/instruction_handler.cc:35-72 | any other word with the opcode has the outcome of the division with its fields, or is skipped |
| Trap.HandledIff | common/src/instruction_handler.cc:60-72 | an illegal word is handled as the manual asks in every state if and only if its opcode is another, or its fields make it div or divu on saved registers, or one harmless remainder |
| Reader.SequentialMemoryReader.Cycle | python/amaranth_cfu/util.py:279-305 | one cycle of the reader: outputs and registers |
| Reader.ReaderFollows | python/amaranth_cfu/util.py:279-305 | in every cycle after a restart the registers agree with a plain cursor, for every pulse pattern and every earlier state |
| Reader.ReaderIsCursor | python/amaranth_cfu/util.py:279-305 | the data is the word at the cursor and the address the one after it |
| Reader.CursorCountsPulses | python/amaranth_cfu/util.py:260-266 | the cursor is the number of pulses since the cycle after the restart |
| Reader.DataAfterPulses | python/amaranth_cfu/util.py:239-305 | after n pulses the data is word n modulo the limit and the address is n+1 modulo the limit |
| Lram.Nxlram.Cycle | soc/hps_lattice_nx.py:128-201 | one clock of the bus port: data, acknowledge, memory cells and output registers |
| Lram.Nxlram.constructor | soc/hps_lattice_nx.py:80-112 | a memory with any contents, not acknowledging |
| Lram.AddressIsFlat | soc/hps_lattice_nx.py:102-112 | each address inside the memory selects the one block row that holds the flat word of that number, stacked or striped |
| Lram.EdgeIsFlat | soc/hps_lattice_nx.py:126-201 | an edge acts on the flat array as one byte-selected write or not at all |
| Lram.RequestIsFlat | soc/hps_lattice_nx.py:126-201 | a held request is acknowledged once, in its second cycle; the write repeated there is harmless, and a read shows the flat word then |
| Lram.RunIsFlat | soc/hps_lattice_nx.py:126-201 | for every run of held requests and idle cycles: same read data and same final contents as one flat word array |
| Lram.ReadsLastWord | soc/hps_lattice_nx.py:126-201 | after every run a read returns in each byte the one last written to that address with its select line set, else the one from before the run |
| Lram.AddressDecodes | soc/hps_lattice_nx.py:96-138 | an address is decoded modulo the next power of two of the number of blocks; within that, addresses past the last block select none |
| Lram.OutsideIsNothing | soc/hps_lattice_nx.py:133-142 | where no block is selected nothing is written and the port shows zero |
| Lram.PortBReadsStripe | soc/hps_lattice_nx.py:20-42 | row a of block d of a striped memory, which its second port reads, is flat word a*N+d |
| InitVal.InitvalParameters | soc/hps_lattice_nx.py:53-76 | the nested loops give 128 named strings of 1280 digits, each its own chunk with the last word first |
| InitVal.ParseOfHex | soc/hps_lattice_nx.py:69-70 | fixed-width hexadecimal reads back, for every value that fits |
| InitVal.ParseOfChunk | soc/hps_lattice_nx.py:69-70 | a chunk of any number of words reads back in order |
| InitVal.ContentsRoundTrip | soc/hps_lattice_nx.py:53-76 | reading the 128 strings gives back all 16,384 words in order, under 128 different names |
| CycleCounter.GetMcycle64 | common/src/perf.h:65-79 | the loop ends at the first pass that settles; if that pass is short enough, the result is the 64-bit value the counter held at its low read |
| CycleCounter.WholeIff | common/src/perf.h:57-79 | every pass of at most so many ticks that ends the loop gives the counter as it stood at the low read, wrap-around included, if and only if the limit is at most 2^64 - 2^32 |
| CycleCounter.NotTorn | common/src/perf.h:57-79 | up to that limit equal high halves mean that no carry left the low half |
| CycleCounter.OneRetryIff | common/src/perf.h:69-75 | one of the first two passes always settles if and only if both together are known to take at most 2^32 ticks |
| CycleCounter.SomePassSettles | common/src/perf.h:69-75 | without wrap-around of the 64-bit counter the loop ends on every schedule |
| Sampler.RASampler.constructor | proj/AAML_final_proj/model_compression/training/sampler.py:18-36 | the floating-point size formulas come out exact, for all sizes below 2^53, and epoch is 0 |
| Floats.RoundedQuotient | proj/AAML_final_proj/model_compression/training/sampler.py:31-33 | a rounded quotient of integers below 2^53 has the floor and the ceiling of the exact one |
| Sampler.RASampler.Iter | proj/AAML_final_proj/model_compression/training/sampler.py:38-56 | the loops, slices and assertion give the drawing function of the epoch's order |
| Sampler.RASampler.RepeatEach | proj/AAML_final_proj/model_compression/training/sampler.py:47-48 | every index the given number of times in a row, in order |
| Sampler.RASampler.TakeMine | proj/AAML_final_proj/model_compression/training/sampler.py:52-54 | the strided slice: the p-th entry is the one at p*R + rank |
| Sampler.RASampler.SetEpoch | proj/AAML_final_proj/model_compression/training/sampler.py:61-62 | the epoch that seeds the next order |
| Sampler.OrderHoldsAllOnce | proj/AAML_final_proj/model_compression/training/sampler.py:38-45 | the order of an epoch holds every index once, shuffled by a permutation or not |
| Sampler.SameOrderIff | proj/AAML_final_proj/model_compression/training/sampler.py:39-43 | two shuffling samplers are sure to share their order if and only if seed plus epoch agree |
| Sampler.DrawnUnlessShort | proj/AAML_final_proj/model_compression/training/sampler.py:47-50 | the length assertion passes if and only if the padding needed is no longer than the list |
| Sampler.ShortListFails | proj/AAML_final_proj/model_compression/training/sampler.py:47-50 | one sample drawn once by three ranks fails the assertion |
| Sampler.EnoughToPad | proj/AAML_final_proj/model_compression/training/sampler.py:31-50 | it always passes when r*size is at least R-1 |
| Sampler.RanksPartition | proj/AAML_final_proj/model_compression/training/sampler.py:52-54 | the strided slices of all ranks together are the list, as multisets, for every list and rank count |
| Sampler.RankDraws | proj/AAML_final_proj/model_compression/training/sampler.py:38-56 | what a rank draws is its slice of the first R*num_selected entries |
| Sampler.RanksShareList | proj/AAML_final_proj/model_compression/training/sampler.py:47-56 | the full slices partition the padded list, the selected prefixes the first R*num_selected entries |
| Sampler.CopiesGoToDifferentRanks | proj/AAML_final_proj/model_compression/training/sampler.py:9-12 | with at most R repetitions the copies of one sample are entries of different ranks' slices, and a rank draws its copy when the entry is among the selected |
| Sampler.NoPaddingDrawn | proj/AAML_final_proj/model_compression/training/sampler.py:47-56 | what the ranks draw together is a prefix of the repeated list: padding is never drawn |
| WeightDecay.SetWeightDecay | proj/AAML_final_proj/model_compression/training/utils.py:422-464 | the recursive walk over the module tree returns the groups the theorems below are about |
| WeightDecay.Grouping.constructor | proj/AAML_final_proj/model_compression/training/utils.py:422-435 | the dictionaries: keys in insertion order, empty lists, the last decay given for each key |
| WeightDecay.Grouping.AddParams | proj/AAML_final_proj/model_compression/training/utils.py:437-456 | appending during the walk files every trainable parameter of the tree, the module's own before its children's |
| WeightDecay.Grouping.FindKey | proj/AAML_final_proj/model_compression/training/utils.py:441-452 | the loop with its early exit finds the key of a parameter, and the key is in the dictionary |
| WeightDecay.Grouping.Groups | proj/AAML_final_proj/model_compression/training/utils.py:460-464 | the non-empty lists in key order |
| WeightDecay.FileAllIsFiled | proj/AAML_final_proj/model_compression/training/utils.py:437-456 | in-place filing appends to each key exactly what belongs to it, in order |
| WeightDecay.EntriesIds | proj/AAML_final_proj/model_compression/training/utils.py:437-456 | the walk visits every trainable parameter of the tree as often as the tree holds it |
| WeightDecay.NothingLostOrRepeated | proj/AAML_final_proj/model_compression/training/utils.py:437-464 | the groups together hold every trainable parameter of the model, as multisets, whatever the keys |
| WeightDecay.ExactlyOneGroup | proj/AAML_final_proj/model_compression/training/utils.py:437-464 | with distinct parameters each is in exactly one group, the one of its key, with that key's decay |
| WeightDecay.NonEmptyGroups | proj/AAML_final_proj/model_compression/training/utils.py:460-464 | no group is empty and each is all that was filed under one key |
| WeightDecay.FirstMatchWins | proj/AAML_final_proj/model_compression/training/utils.py:441-452 | the key is the first custom key that matches, else norm, else other |
| WeightDecay.FiledByPath | proj/AAML_final_proj/model_compression/training/utils.py:437-458 | the walk files exactly the trainable parameters at the paths of the module tree, each by its path: a key with a dot is compared with the dotted path, one without with the last name; names of submodules are not empty |
| WeightDecay.OwnDecay | proj/AAML_final_proj/model_compression/training/utils.py:426-435 | with distinct custom keys other than the built-in ones, every key keeps its own decay |

## Left out

- Training, pruning, quantisation-aware training and evaluation scripts, and the other network definitions: calls into PyTorch, floating point and file I/O.
- SoC builders, board workflows, Renode and Makefile scripts, menus, model drivers, UART, SPI flash, benchmarks: wiring, I/O and calls into LiteX.
- `MultiplyByQuantizedMultiplier`: an open function of accumulator, multiplier and shift, the same in both kernels and references; the headers that define it are not part of this model.
- Conv.ConvPerChannel: one group, 32-bit index arithmetic without overflow (a condition of `Layer.Valid`), and the int8 form only; the 4-bit unpacking and the 16-bit overload are left out, the latter standing as the reference loop nest with exact taps.
- Geometry.KernelIsPlain: positive strides and dilations and no negative padding; the image with its padding written out must itself be a layer with 32-bit indices.
- FullyConnected.FullyConnected: sizes up to 64 by 64, which is what the kernel's fixed blocks hold, and no sizes of zero; for a depth that is no multiple of four, up to three bytes after the weights must be readable, and misaligned word copies are taken as the four bytes at the address.
- Tpu.MatrixUnit.Run: started and waited for as one command; the port in front of the unit has its own model. A size of zero columns is left out. The buffer indices are not cut to their 16 bits, which the ten decoded bits do not show.
- TileControl.NextWriter: `cfu.v:632` takes the sums over on a change of state, in the time step in which they change too; the sums after the edge are assumed, as the two non-blocking assignments suggest. With the sums before it the last element of each tile would miss its last term.
- CommandPort.CfuPort.Edge: the memories' write enables and the data of code 3 are not part of the port's model.
- Simd.SimdUnit.Clear: as in `SetOffset` and `MultiplyAdd`, one accepted command at a time; waiting commands are in the port's model.
- Handshake.GatedCfu.Edge: reset only at the start; Amaranth and Migen elaboration, and the CPU's and instructions' own registers, are replaced by arbitrary wire values at each edge.
- Line.DrawLine: ends inside the frame, and frames of up to 2^28 pixels so that the error term fits its variable; for steep lines only what is painted is stated. `fb_fill_rect`, `fb_draw_rect`, `fb_draw_string` and `fb_draw_buffer` are left out.
- NasNet.RunsIff: shapes only, with non-empty images; batch size, the values in the tensors and PyTorch's refusal of zero-channel layers are not modelled.
- Trap.Hart.TrapEntry: word-aligned stack with room for the frame; what an interrupt handler (`isr`) does beyond registers and stack, and the control registers' other fields, are not modelled. The value of CAUSE_ILLEGAL_INSTRUCTION, 2, is the manual's; `riscv.h` is not part of this model.
- Trap.ComputedIsIsa: the compiler's division routines are arbitrary functions that divide correctly by non-zero divisors.
- Reader.DataAfterPulses: limit and memory stay fixed during the run and the limit is at least one and at most the memory's size. `tree_sum`, `pack_vals` and `all_words` would add easy members only.
- Lram.RunIsFlat: 32 bits wide, addresses inside the memory (`AddressDecodes` says what others do), requests held until acknowledged, no power-down, and a second port described by the cells it reads; the 64-bit width and `add_init` are left out.
- InitVal.ContentsRoundTrip: the 32-bit form; the 64-bit form does not keep its low words.
- CycleCounter.GetMcycle64: a schedule gives the tick count at each register read; writes to the counter and the CONFIG_CPU_PERF_CSRS counters are left out.
- Sampler.RASampler.Iter: the shuffle is an open function of seed plus epoch, and the process-group defaults are parameters.
- Floats.RoundedQuotient: rounding is any function that is exact on integers up to 2^53 and off by at most one part in 2^53 on numbers of ordinary size, as IEEE double precision is.
- WeightDecay.SetWeightDecay: modules form a tree and decays are real numbers; the norm classes are a flag on each module, and a module or parameter reached twice is counted twice.
- `add.h`, `BigFont.c`, and the copies of the training files under `pruning/engine/utils`: easy or repeated.
