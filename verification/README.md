# A verified model of Hyperion's path from picture to LEDs

Hyperion takes video frames, colours and effects from many sources, decides which source is shown, and drives LED
hardware with the result. This project models the parts of the daemon where correctness depends on state kept over
time or on index and rounding arithmetic, and proves what those parts promise.

| files | part of the daemon |
|---|---|
| `Smoothing.dfy`, `SmoothingDelay.dfy`, `SmoothingWrites.dfy`, `LinearColorSmoothing.dfy` | the linear smoothing filter and its output delay line |
| `Images.dfy`, `BlackBorderDetector.dfy`, `DetectorPixels.dfy`, `BorderSizes.dfy`, `BorderHysteresis.dfy`, `BlackBorderProcessor.dfy` | black border detection in one image, and the hysteresis over many |
| `LedsMapGeometry.dfy`, `IndexLists.dfy`, `GridPartition.dfy`, `ImageToLedsMap.dfy`, `BorderMaps.dfy`, `ImageProcessor.dfy` | the pixel list of every LED, mean colours, and the whole image path over runs of frames |
| `ColorAdjustment.dfy`, `MultiColorAdjustment.dfy` | colour calibration by interpolation between eight corner colours |
| `PriorityMuxer.dfy`, `HyperionCore.dfy`, `EffectOwnership.dfy`, `ChannelLifetimes.dfy`, `Hyperion.dfy` | priority channels and how long they last, skipped renders, the timeout timer, effect ownership |
| `CloneMerge.dfy` | cloned LEDs and byte orders |
| `Chunking.dfy`, `LedDeviceUdpE131.dfy`, `LedDeviceTpm2net.dfy`, `SpiEncoders.dfy` | E1.31 and TPM2.net datagrams, SPI bit encodings |
| `JsonLines.dfy`, `WebSocketFrames.dfy`, `WebSocketRuns.dfy`, `JsonClientConnection.dfy`, `ProtoClientConnection.dfy` | newline JSON, WebSocket frames, length-prefixed messages |
| `ImageResampler.dfy` | cropping, decimation and pixel formats of grabbed frames |

`Colors.dfy`, `Octets.dfy` and `Sequences.dfy` hold what several parts share.

Objects that the program changes in place are classes. A `Value()` function gives such an object's state as a value,
each method's postcondition ties the new value to a step function of the old one, and the step functions carry the
theorems about whole runs. `now` is an input of every step that reads the clock; device writes, sent datagrams and
handled messages are ghost sequences.

## What came out

- **Smoothing** stays within n units of the straight line after n ticks, never overshoots, and is exactly on the target
  from the target time on. A write starts its line at the last tick before it, not at the write itself
  (`RunTracksLine`). The delay line loses and invents nothing. Without continuous output a target whose settling
  time falls between two ticks is never written (`MissedTarget`); `DrainsToTarget` says exactly when a target arrives.
- **Borders**: the `==` tests on the frame counters are never skipped, the settling bound holds from every reachable
  state and is tight, and every switch away from a known border is backed by exactly threshold + 1 equal frames;
  interruptions of up to maxInconsistentCnt frames do not delay a switch (`SettlesDespiteGaps`). The bars of a
  letterboxed picture are found exactly, in every mode. A known border leaves picture in every image of a size if and
  only if the size passes a check on its thirds (`LeavesPictureExactly`); in classic mode small images do not
  (`ClassicCanOverrun`).
- **Image path**: while images keep one size the pixel map always has the current border. After a change of size it
  need not: enough images showing a border put it on the map if and only if it was not the current one already, or is
  on the map anyway (`MapSettlesExactly`). A border that was current before the change stays off the new map however
  long it is seen (`OldBorderStaysOff`).
- **Pixel lists** of a grid of LEDs partition the picture if and only if every grid step rounds to at least one pixel.
- **Calibration** gives each corner colour exactly its configured triple, and every other colour the exact trilinear
  interpolation between the eight triples with a loss below sixteen (`AdjustedInterpolates`), for every configuration.
  It never wraps a byte. The default configuration loses at most three, and loses nothing exactly when none of four
  products is truncated.
- **Core**: the LEDs always show the stored colours of the visible channel and the timer waits for its end, although
  `setColors` and `clear` often do not render, in every state of a run if and only if the run has no source selection
  that changes the visible channel (`SyncedInRuns`, with a run that breaks it in `SelectionWithoutUpdate`); any later
  step that renders heals it. The lookup of an update fails exactly when no channel up to 255 is left or the manual
  source is an expired channel 255 (`LookupExactly`, `LookupInRuns`). A channel set once and then neither replaced nor
  cleared is there until exactly its time, for good without one (`SetChannelLasts`).
- **Effects**: a channel's endless effect frame has a live effect to clear it in every state of a run, if and only if
  no step delivers such a frame while no effect of the channel is live, or lets the live effect abort itself
  (`OwnedInRuns`). A frame delivered after its effect was aborted is such a step (`LateFrameOrphansChannel`).
- **Clones** of a main LED show its colour exactly when the main LED has the smaller index; everything lines up exactly
  when the indices of both LED strings together are a permutation.
- **Datagrams**: the packet total in a TPM2.net datagram is right exactly when the packet size does not divide the byte
  count and at most 255 packets are sent (`TotalPacketsExact`, with both ways to fail in `WrongTotals`).
- **Replies** over WebSocket decode to what was sent exactly up to 65535 bytes; above, the length is cut to 16 bits.
  After a frame that is no final text, a ping for instance, nothing is ever handed over again (`StuckForever`). Of reads
  that end at frame borders, all texts are handed over exactly when each read holds one text, at its front, and none
  comes after a read that starts with another frame (`DeliveredExactly`).
- **Length-prefixed messages**: one read handles one message. `HandledExactly` says which reads suffice for j messages:
  for every k below j, at least j - k of them end when message k is due or later. An empty message is due one byte
  after its frame.
- **Resampler**: after its size test the output picture has the right size unless exactly one side differed before,
  because the test joins the two comparisons with `&&`.

## Model

| member | source | states |
|---|---|---|
| Smoothing.RampStaysBetween | libsrc/hyperion/LinearColorSmoothing.cpp:94-109 | a ramp step lands between the old value and the target, so it neither overshoots nor wraps its byte |
| Smoothing.FractionInRange | libsrc/hyperion/LinearColorSmoothing.cpp:80-94 | up to the target time the covered fraction is between 0 and 1, also for a tick that repeats the time of the one before |
| Smoothing.RampTick | libsrc/hyperion/LinearColorSmoothing.cpp:93-111 | a ramp tick leaves d(T-t)/(T-p) of a distance d, rounded down, on the same side of the target |
| Smoothing.LineStep | libsrc/hyperion/LinearColorSmoothing.cpp:94-109 | recomputing the fraction at each tick composes to the original straight line, with one more unit of slack per tick |
| Smoothing.TracksStraightLine | libsrc/hyperion/LinearColorSmoothing.cpp:38-115 | after n ticks every channel's remaining distance is at most the line's and more than the line's less n, between start and target |
| Smoothing.SettlesOnTarget | libsrc/hyperion/LinearColorSmoothing.cpp:78-115 | at the first tick not before the target time, and after it, the values equal the target |
| SmoothingDelay.RunKeepsValid | libsrc/hyperion/LinearColorSmoothing.cpp:38-153 | in every run the queue never exceeds the output delay, and current and target values have one length while the timer runs |
| SmoothingDelay.DelayLineConserves | libsrc/hyperion/LinearColorSmoothing.cpp:117-141 | without switchOff, frames written followed by the queue are exactly the frames there before followed by the frames pushed |
| SmoothingDelay.ContinuousLatency | libsrc/hyperion/LinearColorSmoothing.cpp:117-141 | with continuous output the n-th frame pushed is written exactly outputDelay ticks later |
| SmoothingDelay.DrainsToTarget | libsrc/hyperion/LinearColorSmoothing.cpp:83-139 | outputDelay + 1 ticks after the target time the device shows the target if and only if a ramp tick happened, output was enabled, or it was the newest frame already |
| SmoothingDelay.MissedTarget | libsrc/hyperion/LinearColorSmoothing.cpp:83-90 | a reachable state from which a target is never shown, however many ticks follow |
| SmoothingWrites.WriteTracksLine | libsrc/hyperion/LinearColorSmoothing.cpp:38-115 | after a write every channel follows the straight line from its value at the last tick before the write to the new colour one settling time after it |
| SmoothingWrites.WriteSettles | libsrc/hyperion/LinearColorSmoothing.cpp:38-115 | at the first tick a settling time after the write or later, every LED written shows its colour, and the others the target they had |
| SmoothingWrites.FirstWriteShows | libsrc/hyperion/LinearColorSmoothing.cpp:41-50 | the first write, also the first after enabling again, is shown at once and stays |
| SmoothingWrites.DisabledIsSilent | libsrc/hyperion/LinearColorSmoothing.cpp:144-153 | a disabled filter cannot tick and writes nothing; enabling changes nothing until the next write |
| SmoothingWrites.SwitchedOffIsBlack | libsrc/hyperion/LinearColorSmoothing.cpp:60-141 | after switchOff every frame that reaches the device, queued before or pushed later, is black on every LED |
| SmoothingWrites.TargetsKeepStart | libsrc/hyperion/LinearColorSmoothing.cpp:38-76 | any run of writes and switch-offs leaves the time and the values of the last tick as they were |
| SmoothingWrites.RunTracksLine | libsrc/hyperion/LinearColorSmoothing.cpp:38-115 | over runs: if p is the time of the last tick before a write, whatever came earlier and whatever else was written in between, the line runs from the values shown at p |
| LinearColorSmoothings.LinearColorSmoothing.constructor | libsrc/hyperion/LinearColorSmoothing.cpp:11-29 | the initial state satisfies the run invariant |
| LinearColorSmoothings.LinearColorSmoothing.Write | libsrc/hyperion/LinearColorSmoothing.cpp:38-58 | performs the write step; where the line of a write starts and ends is `SmoothingWrites.RunTracksLine`, what the first write shows `FirstWriteShows` |
| LinearColorSmoothings.LinearColorSmoothing.SwitchOff | libsrc/hyperion/LinearColorSmoothing.cpp:60-76 | target and every queued frame become black, the queue keeps its length |
| LinearColorSmoothings.LinearColorSmoothing.SetEnable | libsrc/hyperion/LinearColorSmoothing.cpp:144-153 | the flag is stored; disabling stops the timer and forgets the current values |
| LinearColorSmoothings.LinearColorSmoothing.QueueColors | libsrc/hyperion/LinearColorSmoothing.cpp:117-141 | the delay line's step: what is pushed, what is written, what stays queued |
| LinearColorSmoothings.LinearColorSmoothing.RampByte | libsrc/hyperion/LinearColorSmoothing.cpp:103-109 | one byte moves by ceil(k times distance) towards its target, within the byte |
| LinearColorSmoothings.LinearColorSmoothing.RampValues | libsrc/hyperion/LinearColorSmoothing.cpp:98-110 | the loop ramps every byte of every LED once |
| LinearColorSmoothings.LinearColorSmoothing.UpdateLeds | libsrc/hyperion/LinearColorSmoothing.cpp:78-115 | the timer callback is the tick step that the run theorems speak about |
| BorderHysteresis.ChangedIffDifferent | libsrc/blackborder/BlackBorderProcessor.cpp:60-108 | the answer is true exactly when the current border changes, and then to this frame's border |
| BorderHysteresis.ReachableIsTimely | libsrc/blackborder/BlackBorderProcessor.cpp:60-108 | in every reachable state, disabling included, the counter is below its threshold unless nothing is pending, so the == tests never miss |
| BorderHysteresis.NeedDecreases | libsrc/blackborder/BlackBorderProcessor.cpp:60-108 | every frame that shows b brings b strictly closer to being current |
| BorderHysteresis.SettlingBound | libsrc/blackborder/BlackBorderProcessor.cpp:45-109 | after any history, maxInconsistentCnt + 1 + threshold frames showing b leave b current |
| BorderHysteresis.SettlingBoundIsTight | libsrc/blackborder/BlackBorderProcessor.cpp:45-109 | one frame fewer leaves a settled known border in place |
| BorderHysteresis.NoLongGapMeaning | libsrc/blackborder/BlackBorderProcessor.cpp:68-73 | the gap measure used below bounds every stretch of differing frames |
| BorderHysteresis.SwitchEvidence | libsrc/blackborder/BlackBorderProcessor.cpp:60-108 | a known border gives way to b only after b replaced another candidate at some frame and stayed the candidate; from there on exactly threshold + 1 frames equal b and no gap exceeds maxInconsistentCnt |
| BorderHysteresis.SettlesDespiteGaps | libsrc/blackborder/BlackBorderProcessor.cpp:60-108 | the counterpart: after any history, once b was seen maxInconsistentCnt + 2 times in a row, the frames that the settling bound still asks for may come with any number of others in between, never more than maxInconsistentCnt in a row |
| BorderHysteresis.InterruptionIsForgotten | libsrc/blackborder/BlackBorderProcessor.cpp:60-108 | after maxInconsistentCnt + 1 frames that show the current border again, whatever was pending, another border needs its full number of frames |
| BorderHysteresis.SettlesOnFields | libsrc/blackborder/BlackBorderProcessor.cpp:45-109 | the settling bound in the fields: after any history enough frames with two given sizes leave a current border with exactly these two sizes, and enough unknown ones an unknown border |
| BorderHysteresis.StaysOnFields | libsrc/blackborder/BlackBorderProcessor.cpp:60-108 | frames that differ from a settled border in one size or in being unknown leave it in place as long as they are fewer |
| BorderHysteresis.FirstFrameExactly | libsrc/blackborder/BlackBorderProcessor.cpp:11-28 | the very first known border is taken at once if and only if at most ten inconsistent frames are allowed |
| BorderHysteresis.DisablingForgets | include/blackborder/BlackBorderProcessor.h:60-68 | disabling forgets the current border only; the candidate and its counters stay, so its next frame is taken at once |
| BlackBorderDetectors.BlackBorderDetector.FindColumn | include/blackborder/BlackBorderDetector.h:86-100 | the first column of the left third that shows picture on one of three lines, or -1; also where the scan stopped |
| BlackBorderDetectors.BlackBorderDetector.Process | include/blackborder/BlackBorderDetector.h:67-121 | the default mode finds the first column and first row that show picture, unknown if either is missing |
| BlackBorderDetectors.BlackBorderDetector.ProcessOsd | include/blackborder/BlackBorderDetector.h:183-237 | the osd mode's row is the first one with picture at the found column or its mirror images |
| BlackBorderDetectors.BlackBorderDetector.FindDiagonal | include/blackborder/BlackBorderDetector.h:137-150 | the first picture pixel on the clamped diagonal, or none |
| BlackBorderDetectors.BlackBorderDetector.ProcessClassic | include/blackborder/BlackBorderDetector.h:126-178 | from there the border is expanded left, then up, until black; all reads are inside the image |
| BorderSizes.BlurOfOneFits | include/blackborder/BlackBorderDetector.h:67-237 | with a blur of one every image is large enough in default and osd mode, and every image from 7 x 7 in classic mode |
| BorderSizes.DetectedLeavesPicture | include/blackborder/BlackBorderProcessor.h:72-87 | in an image of a size that passes the check a known border, blur included, leaves picture on both axes |
| BorderSizes.LetterboxIsDetected | include/blackborder/BlackBorderDetector.h:67-237 | the black bars of a letterboxed picture are found exactly in each of the three modes, for all bars within the searched third |
| BorderSizes.LeavesPictureExactly | include/blackborder/BlackBorderProcessor.h:72-87 | every known border of every image of a size leaves picture if and only if the largest reportable one does, or no border can be known, or the threshold is zero |
| BorderSizes.AllPicture | include/blackborder/BlackBorderDetector.h:250-255 | with threshold zero nothing is black and a known border is zero |
| BorderSizes.ClassicCanOverrun | include/blackborder/BlackBorderDetector.h:130-176 | 3 x 6 fails the check in classic mode with blur one, and an image of that size has a border that covers its whole width |
| BlackBorderDetectors.DetectedIsUnique | include/blackborder/BlackBorderDetector.h:67-237 | an image, mode and threshold determine the border |
| DetectorPixels.BlackByChannel | include/blackborder/BlackBorderDetector.h:250-255 | a pixel is picture as soon as any one of its channels reaches the threshold |
| DetectorPixels.ColumnPixels | include/blackborder/BlackBorderDetector.h:86-100 | which single pixels make a column count: its own at one and two thirds of the height, and its mirror pixel on the middle line |
| DetectorPixels.RowPixels | include/blackborder/BlackBorderDetector.h:103-117 | the same for rows |
| DetectorPixels.OsdPixels | include/blackborder/BlackBorderDetector.h:213-227 | in osd mode exactly the four pixels where column, mirror column, row and mirror row meet |
| DetectorPixels.DiagonalPixels | include/blackborder/BlackBorderDetector.h:137-150 | in classic mode exactly the pixels of the clamped diagonal |
| DetectorPixels.LeftBeforeUp | include/blackborder/BlackBorderDetector.h:152-170 | an image on which classic mode goes left and not up, although both are possible |
| DetectorPixels.LetterboxBlurred | include/blackborder/BlackBorderProcessor.h:75-87 | the processor is given the bars of a letterboxed picture, each widened by the blur, and no bar where there is none |
| BlackBorderProcessors.BlackBorderProcessor.constructor | libsrc/blackborder/BlackBorderProcessor.cpp:11-28 | the initial unknown border and counters |
| BlackBorderProcessors.BlackBorderProcessor.SetEnabled | libsrc/blackborder/BlackBorderProcessor.cpp:40-43 | only the switch changes |
| BlackBorderProcessors.BlackBorderProcessor.UpdateBorder | libsrc/blackborder/BlackBorderProcessor.cpp:45-109 | the method performs the hysteresis step; which borders count as the same is pinned in the fields by `BorderHysteresis.SettlesOnFields` and `StaysOnFields` |
| BlackBorderProcessors.BlackBorderProcessor.Process | include/blackborder/BlackBorderProcessor.h:58-91 | one hysteresis step with a border that the mode really sees in this image plus blur; disabled, it resets to unknown and answers true |
| LedsMapGeometry.SpanOnAxis | libsrc/hyperion/ImageToLedsMap.cpp:44-60 | a clamped span is at least one pixel wide and inside the axis |
| LedsMapGeometry.LedListMembers | libsrc/hyperion/ImageToLedsMap.cpp:62-70 | a pixel is listed exactly when the LED's clamped rectangle covers it |
| LedsMapGeometry.LedListIsRectangle | libsrc/hyperion/ImageToLedsMap.cpp:35-74 | an LED with area has a non-empty, strictly increasing list, within the image, that is exactly its clamped rectangle |
| LedsMapGeometry.AllIndicesInImage | libsrc/hyperion/ImageToLedsMap.cpp:35-74 | every index of every list is below width times height |
| LedsMapGeometry.SpanIsNearest | libsrc/hyperion/ImageToLedsMap.cpp:44-60 | both edges of a span are the pixel edges nearest to the fractions, unless the span would be empty; then it is one pixel, the last one at most |
| LedsMapGeometry.EmptyListExactly | libsrc/hyperion/ImageToLedsMap.cpp:38-42 | an LED gets no pixel if and only if it is narrower or lower than a millionth of the picture |
| LedsMapGeometry.ListedInsideBorders | libsrc/hyperion/ImageToLedsMap.cpp:28-70 | the vertical border keeps columns out of every list, the horizontal one rows, on both sides |
| GridPartition.UniqueStep | libsrc/hyperion/ImageToLedsMap.cpp:44-60 | in a chain whose steps round to at least a pixel, every position belongs to exactly one step |
| GridPartition.SharedPosition | libsrc/hyperion/ImageToLedsMap.cpp:50-60 | a step that rounds to nothing shares a position with another step |
| GridPartition.RowCount | libsrc/hyperion/ImageToLedsMap.cpp:63-70 | within one grid row a pixel occurs once if the row spans it and never otherwise |
| GridPartition.GridPartitions | libsrc/hyperion/ImageToLedsMap.cpp:30-70 | every pixel inside the borders lies in exactly one list if and only if all steps round to at least one pixel; then the list sizes sum to the whole area |
| ImageToLedsMaps.SumBounds | include/hyperion/ImageToLedsMap.h:164-174 | bounds on the pixels carry over to the accumulated sums |
| ImageToLedsMaps.SumOfOne | include/hyperion/ImageToLedsMap.h:164-174 | the sum over one pixel is that pixel's channel |
| ImageToLedsMaps.SumConcat | include/hyperion/ImageToLedsMap.h:164-174 | sums add up over joined lists, so every listed pixel counts once |
| ImageToLedsMaps.MeanExactly | include/hyperion/ImageToLedsMap.h:156-183 | the mean times the number of pixels is the sum, less a remainder below that number |
| ImageToLedsMaps.MeanBetween | include/hyperion/ImageToLedsMap.h:164-179 | a mean lies between any bounds on the pixels it is taken from |
| ImageToLedsMaps.ImageToLedsMap.constructor | libsrc/hyperion/ImageToLedsMap.cpp:11-75 | under its sanity checks the constructor builds exactly the specified lists |
| ImageToLedsMaps.ImageToLedsMap.IndicesOf | libsrc/hyperion/ImageToLedsMap.cpp:37-70 | an LED without area gets no pixel, any other its clamped rectangle |
| ImageToLedsMaps.ImageToLedsMap.ClampSpan | libsrc/hyperion/ImageToLedsMap.cpp:44-60 | rounding, clamping and widening give the specified span |
| ImageToLedsMaps.ImageToLedsMap.CollectIndices | libsrc/hyperion/ImageToLedsMap.cpp:62-70 | the nested loops list the rectangle row by row; the inner edge never cuts it |
| ImageToLedsMaps.ImageToLedsMap.CollectRow | libsrc/hyperion/ImageToLedsMap.cpp:66-69 | one row of the rectangle is appended |
| ImageToLedsMaps.ImageToLedsMap.CalcMeanColor | include/hyperion/ImageToLedsMap.h:156-183 | each channel is the integer mean over the listed pixels, black for no pixels |
| ImageToLedsMaps.ImageToLedsMap.GetMeanLedColor | include/hyperion/ImageToLedsMap.h:85-98 | every LED gets the mean of its own list, and every read is inside the image |
| ImageToLedsMaps.ImageToLedsMap.GetUniLedColor | include/hyperion/ImageToLedsMap.h:123-132 | every LED gets the mean of the whole image |
| ImageProcessors.ImageProcessor.constructor | libsrc/hyperion/ImageProcessor.cpp:12-22 | no map yet, mapping type 0, that is one mean per LED |
| BorderMaps.RunIsTimely | include/hyperion/ImageProcessor.h:98-179 | changes of size and switches between frames leave the counters of the hysteresis below their thresholds |
| BorderMaps.OneSizeStaysInLine | include/hyperion/ImageProcessor.h:145-179 | while all images have one size, after every run of frames and switches the map's borders are the current border's two sizes, and zero while it is unknown |
| BorderMaps.MapSettlesExactly | include/hyperion/ImageProcessor.h:98-179 | after any history, enough images of one size showing b put b's sizes on the map if and only if b was not the current border before them or the map had them already |
| BorderMaps.OldBorderStaysOff | include/hyperion/ImageProcessor.h:145-179 | the other case happens: a border that was current for one size is never put on the map of another size, however many images show it |
| ImageProcessors.ImageProcessor.SetSize | libsrc/hyperion/ImageProcessor.cpp:35-48 | afterwards the map fits the image: kept if it did before, else built without borders, while the current border stays; this is the size step of `BorderMaps` |
| ImageProcessors.ImageProcessor.EnableBlackBorderDetector | libsrc/hyperion/ImageProcessor.cpp:50-53 | only the detector's switch changes |
| ImageProcessors.ImageProcessor.VerifyBorder | include/hyperion/ImageProcessor.h:145-179 | an enabled detector passes a border that it sees in this image through the hysteresis, and the map is replaced exactly when that switches, by one for this border; a disabled one takes borders off the map; every map built passes the constructor's checks |
| ImageProcessors.ImageProcessor.Process | include/hyperion/ImageProcessor.h:98-114 | after any history one more image, large enough if the detector is on and of any size if it is off, performs the frame step that the runs of `BorderMaps` are made of, trips no check, reads only its own pixels and gives each LED its mean |
| TrilinearAdjustment.WeightsTotal | libsrc/hyperion/MultiColorAdjustment.cpp:112-124 | the eight truncated weights of any colour total 248 to 255 |
| TrilinearAdjustment.NeverWraps | libsrc/hyperion/MultiColorAdjustment.cpp:126-160 | for any eight triples a channel sum is at most the largest corner value, so the byte additions never wrap |
| TrilinearAdjustment.AdjustedIsExactSum | libsrc/hyperion/MultiColorAdjustment.cpp:158-160 | the byte result is the exact sum |
| TrilinearAdjustment.ScaleExactly | libsrc/utils/RgbChannelAdjustment.cpp:80-89 | a table entry is weight times adjust over 255, rounded down |
| TrilinearAdjustment.CornersComeOut | libsrc/hyperion/MultiColorAdjustment.cpp:112-160 | for any eight triples each of the eight corner colours comes out as exactly the triple configured for it |
| TrilinearAdjustment.AdjustedInterpolates | libsrc/hyperion/MultiColorAdjustment.cpp:112-160 | for any eight triples and any colour every channel is the exact trilinear interpolation between the triples, less a loss below sixteen from the sixteen truncations |
| TrilinearAdjustment.DefaultsNearlyIdentity | libsrc/hyperion/Hyperion.cpp:63-70 | with the default triples a channel loses at most three, and nothing exactly when its four products divide evenly |
| TrilinearAdjustment.CornersAreExact | libsrc/hyperion/Hyperion.cpp:63-70 | the eight corner colours come out unchanged |
| TrilinearAdjustment.LossOfThree | libsrc/hyperion/MultiColorAdjustment.cpp:117-124 | a colour that loses three, so the bound is tight |
| MultiColorAdjustments.RgbChannelAdjustment.constructor | libsrc/utils/RgbChannelAdjustment.cpp:16-21 | the table matches the triple from the start |
| MultiColorAdjustments.RgbChannelAdjustment.SetAdjustment | libsrc/utils/RgbChannelAdjustment.cpp:27-33 | the whole table is rebuilt for the new triple |
| MultiColorAdjustments.RgbChannelAdjustment.SetAdjustmentR | libsrc/utils/RgbChannelAdjustment.cpp:40-43 | red changes, the other two stay, the table follows |
| MultiColorAdjustments.RgbChannelAdjustment.SetAdjustmentG | libsrc/utils/RgbChannelAdjustment.cpp:50-53 | green changes, the other two stay, the table follows |
| MultiColorAdjustments.RgbChannelAdjustment.SetAdjustmentB | libsrc/utils/RgbChannelAdjustment.cpp:60-63 | blue changes, the other two stay, the table follows |
| MultiColorAdjustments.RgbChannelAdjustment.InitializeMapping | libsrc/utils/RgbChannelAdjustment.cpp:80-89 | every entry of all three tables is the scaled input, that is the share that `TrilinearAdjustment.ScaleExactly` states |
| MultiColorAdjustments.RgbChannelAdjustment.Lookup | libsrc/utils/RgbChannelAdjustment.cpp:65-78 | a table lookup is the scaled input |
| MultiColorAdjustments.RgbChannelAdjustment.LookupAll | libsrc/hyperion/MultiColorAdjustment.cpp:126-156 | the three lookups of one corner weight |
| MultiColorAdjustments.ColorAdjustment.constructor | libsrc/hyperion/Hyperion.cpp:59-97 | eight corner adjustments and a transform |
| MultiColorAdjustments.ColorAdjustment.Truncate | libsrc/hyperion/MultiColorAdjustment.cpp:117-124 | a weight is the triple product over 255 squared and fits a byte |
| MultiColorAdjustments.ColorAdjustment.ComputeWeights | libsrc/hyperion/MultiColorAdjustment.cpp:112-124 | the shared products give each corner its own weight |
| MultiColorAdjustments.ColorAdjustment.AdjustColor | libsrc/hyperion/MultiColorAdjustment.cpp:104-160 | transform, then interpolation between the eight triples |
| MultiColorAdjustments.MultiColorAdjustment.constructor | libsrc/hyperion/MultiColorAdjustment.cpp:9-13 | no LED has an adjustment yet |
| MultiColorAdjustments.MultiColorAdjustment.AddAdjustment | libsrc/hyperion/MultiColorAdjustment.cpp:24-28 | the adjustment is appended to the list |
| MultiColorAdjustments.MultiColorAdjustment.AddedIsFound | libsrc/hyperion/MultiColorAdjustment.cpp:69-82 | an added adjustment is found under its id unless an earlier one has the id already |
| MultiColorAdjustments.MultiColorAdjustment.GetAdjustment | libsrc/hyperion/MultiColorAdjustment.cpp:69-82 | the first adjustment with the id, or null exactly when there is none |
| MultiColorAdjustments.MultiColorAdjustment.SetAdjustmentForLed | libsrc/hyperion/MultiColorAdjustment.cpp:30-41 | exactly the LEDs of the range get the adjustment found for the id |
| MultiColorAdjustments.MultiColorAdjustment.ApplyAdjustment | libsrc/hyperion/MultiColorAdjustment.cpp:93-162 | every LED with an adjustment gets its adjusted colour, every other LED keeps its colour |
| MultiColorAdjustments.MultiColorAdjustment.AdjustLed | libsrc/hyperion/MultiColorAdjustment.cpp:98-160 | one LED: its colour is adjusted, or kept when it has no adjustment |
| PriorityMuxing.StepKeepsWellFormed | libsrc/hyperion/PriorityMuxer.cpp:51-97 | a step keeps the base channel, the keys and the cached minimum right if and only if it does not give channel 255 an end |
| PriorityMuxing.AllowedRunsAreWellFormed | libsrc/hyperion/PriorityMuxer.cpp:9-97 | while channel 255 gets no end every run is possible, a clear always finds a next channel, and all stays right |
| PriorityMuxing.StoredIsLive | libsrc/hyperion/PriorityMuxer.cpp:9-97 | after any run at all, whatever was written to 255, exactly the live channels are stored with what was last set |
| PriorityMuxing.TimeKeepsExactly | libsrc/hyperion/PriorityMuxer.cpp:81-97 | a time step keeps exactly the channels without an end and those whose end is later than now, unchanged |
| PriorityMuxing.BaseChannel | libsrc/hyperion/PriorityMuxer.cpp:9-19 | the base channel is black on every LED, has priority 255 and no end |
| PriorityMuxing.CacheRefinesRecomputation | libsrc/hyperion/PriorityMuxer.cpp:9-97 | while channel 255 gets no end, the cached priority is the smallest live channel after every run |
| PriorityMuxing.BaseStaysBlack | libsrc/hyperion/PriorityMuxer.cpp:9-97 | while nobody writes to priority 255 it is present, black and without end |
| PriorityMuxing.LookupSucceeds | libsrc/hyperion/Hyperion.cpp:713-714 | the lookup of the channel to show never throws, even when the manual source has vanished |
| PriorityMuxing.LookupExactly | libsrc/hyperion/Hyperion.cpp:709-714 | in any state the lookup of an update succeeds if and only if the manual source is still there, or, in auto-select or with a vanished source, some channel up to 255 is; a manual source 255 needs channel 255 itself |
| PriorityMuxing.LookupInRuns | libsrc/hyperion/Hyperion.cpp:709-714 | the same over every run of the multiplexer, in terms of which channels are live |
| PriorityMuxing.ExpiredBaseBreaksLookup | libsrc/hyperion/PriorityMuxer.cpp:36-97 | a run after which the lookup fails: channel 255 is given an end and nothing else is set |
| PriorityMuxing.PriorityMuxer.constructor | libsrc/hyperion/PriorityMuxer.cpp:9-19 | the fresh multiplexer is well formed |
| PriorityMuxing.PriorityMuxer.GetInputInfo | libsrc/hyperion/PriorityMuxer.cpp:41-49 | the entry if present, else the error path |
| PriorityMuxing.PriorityMuxer.SetInput | libsrc/hyperion/PriorityMuxer.cpp:51-59 | one entry is written and the cached minimum lowered if needed |
| PriorityMuxing.PriorityMuxer.MinElement | libsrc/hyperion/PriorityMuxer.cpp:68-69 | the smallest key |
| PriorityMuxing.PriorityMuxer.ClearInput | libsrc/hyperion/PriorityMuxer.cpp:61-72 | one entry below 255 is removed and the minimum recomputed only when it was that entry; it needs another entry only then |
| PriorityMuxing.PriorityMuxer.ClearAll | libsrc/hyperion/PriorityMuxer.cpp:74-79 | only the base channel is left |
| PriorityMuxing.PriorityMuxer.SetCurrentTime | libsrc/hyperion/PriorityMuxer.cpp:81-97 | erasing while iterating leaves exactly the unexpired entries, and the minimum is theirs |
| HyperionCore.UpdateSyncs | libsrc/hyperion/Hyperion.cpp:707-804 | an update puts LEDs and timer in step with the visible channel |
| HyperionCore.SetColorsSyncs | libsrc/hyperion/Hyperion.cpp:574-596 | setColors keeps them in step although it may skip the update |
| HyperionCore.ClearSyncs | libsrc/hyperion/Hyperion.cpp:621-641 | clear keeps them in step although it mostly skips the update |
| HyperionCore.StepSyncs | libsrc/hyperion/Hyperion.cpp:526-653 | a step keeps LEDs and timer in step if and only if it is not a source selection that changes the visible channel |
| HyperionCore.RunStaysSynced | libsrc/hyperion/Hyperion.cpp:526-804 | so they are in step in every state of every run without such a selection |
| HyperionCore.SyncedInRuns | libsrc/hyperion/Hyperion.cpp:526-804 | from a state in step, a run is in step in every state if and only if it has no such selection |
| HyperionCore.SelectionWithoutUpdate | libsrc/hyperion/Hyperion.cpp:538-550 | a run from start: two channels are set and the hidden one is selected; it is visible then, but the LEDs keep showing the other |
| HyperionCore.UpdatingStepSyncs | libsrc/hyperion/Hyperion.cpp:526-653 | a step that renders puts them in step whatever was shown before |
| HyperionCore.RunResyncs | libsrc/hyperion/Hyperion.cpp:526-804 | they are in step after any run whose last such selection is followed by a step that renders |
| HyperionCore.SyncedShowsSmallestLive | libsrc/hyperion/Hyperion.cpp:707-804 | in auto-select, until the timer is due, the LEDs show the smallest unexpired channel |
| HyperionCore.RunShowsSmallestLive | libsrc/hyperion/Hyperion.cpp:574-804 | the same for every run from start that is undisturbed or healed, with the timer armed at exactly that channel's end or stopped |
| EffectOwnership.RunKeepsOneLive | libsrc/effectengine/EffectEngine.cpp:372-430 | in every reachable state a channel has at most one effect that is not aborted |
| EffectOwnership.FinishRespectsOwner | libsrc/effectengine/EffectEngine.cpp:409-430 | a finish handler that clears belongs to the only live effect; a superseded one touches nothing else |
| EffectOwnership.OwnershipInEveryRun | libsrc/effectengine/EffectEngine.cpp:372-430 | the same for every interleaving of start, abort, self-abort, thread end and finish handling |
| EffectOwnership.StartTakesOver | libsrc/effectengine/EffectEngine.cpp:372-388 | a started effect is the only live one on its channel and no other channel's flag changes |
| EffectOwnership.FinishClearsUnlessAborted | libsrc/effectengine/EffectEngine.cpp:409-430 | after a finish handler the channel is stored if and only if its effect was aborted and the channel was stored before |
| EffectOwnership.HeldExactly | libsrc/hyperion/Hyperion.cpp:574-653 | an endless effect frame is stored after a step if and only if the step delivers it, or it was stored and the step neither clears nor replaces it |
| EffectOwnership.OwnedExactly | libsrc/effectengine/EffectEngine.cpp:372-430 | exactly which steps leave such a frame without a live effect |
| EffectOwnership.OwnedInRuns | libsrc/effectengine/EffectEngine.cpp:372-430 | a channel is owned in every state of a run if and only if no step of the run is one of those |
| EffectOwnership.NothingLeftBehind | libsrc/effectengine/EffectEngine.cpp:372-430 | then, when the last effect of a channel is gone, none of its endless frames is stored |
| EffectOwnership.LateFrameOrphansChannel | libsrc/effectengine/EffectEngine.cpp:379-430 | a run from start: an effect is started and cleared, its thread ends, a frame it had queued is delivered, its end is handled; the frame stays on the LEDs without end, effect or timer |
| ChannelLifetimes.SetColorsLastsUntil | libsrc/hyperion/Hyperion.cpp:574-596 | a channel that is set holds the colours given and is alive exactly until now + timeout, or for good if the timeout is not positive |
| ChannelLifetimes.SetColorsTouchesOne | libsrc/hyperion/Hyperion.cpp:574-596 | every other channel that has not expired stays as it was, and at most the channel's own effects are aborted, if asked |
| ChannelLifetimes.HiddenChannelIsQuiet | libsrc/hyperion/Hyperion.cpp:574-641 | in auto-select, setting or clearing a channel behind the visible one changes neither LEDs nor timer, and no other entry |
| ChannelLifetimes.ClearRemoves | libsrc/hyperion/Hyperion.cpp:621-641 | clearing a channel below 255 removes it and aborts exactly its effects |
| ChannelLifetimes.ClearAllRemoves | libsrc/hyperion/Hyperion.cpp:643-653 | clearing everything leaves the base channel alone and on the LEDs, in auto-select, every effect aborted and no timer |
| ChannelLifetimes.ChannelLasts | libsrc/hyperion/Hyperion.cpp:526-653 | over any run whose steps neither replace nor clear a channel it keeps its content, and is there at t if and only if it was stored to last beyond t |
| ChannelLifetimes.SetChannelLasts | libsrc/hyperion/Hyperion.cpp:574-596 | over runs: after any history a channel set at now and not replaced or cleared since is there at t, with its colours, if and only if the timeout was not positive or t is before now + timeout |
| ChannelLifetimes.ManualKeepsChannel | libsrc/hyperion/Hyperion.cpp:526-536 | switching auto-select off selects the channel on the LEDs and keeps showing it unless it has just expired |
| ChannelLifetimes.ManualIgnoresOthers | libsrc/hyperion/Hyperion.cpp:574-596 | with a manual source, setting any other channel, even a smaller one, leaves the LEDs as they are |
| ChannelLifetimes.AutoShowsSmallest | libsrc/hyperion/Hyperion.cpp:526-536 | switching auto-select on shows the smallest channel that has not expired |
| HyperionObjects.Effect.constructor | libsrc/effectengine/Effect.cpp:69-97 | a new effect is not aborted |
| HyperionObjects.Effect.Abort | libsrc/effectengine/Effect.cpp:174-177 | the flag only ever goes up |
| HyperionObjects.EffectEngine.ChannelCleared | libsrc/effectengine/EffectEngine.cpp:390-399 | exactly the channel's effects are aborted |
| HyperionObjects.EffectEngine.AllChannelsCleared | libsrc/effectengine/EffectEngine.cpp:401-407 | all effects are aborted |
| HyperionObjects.EffectEngine.RunEffectScript | libsrc/effectengine/EffectEngine.cpp:372-388 | the channel's effects are aborted before the new one is appended |
| HyperionObjects.EffectEngine.EffectFinished | libsrc/effectengine/EffectEngine.cpp:409-430 | clears the channel unless aborted, then drops this effect and no other |
| HyperionObjects.EffectEngine.Erase | libsrc/effectengine/EffectEngine.cpp:418-425 | the search loop erases exactly the given effect |
| HyperionObjects.Hyperion.constructor | libsrc/hyperion/Hyperion.cpp:381-425 | the core starts in step on the black base channel |
| HyperionObjects.Hyperion.Update | libsrc/hyperion/Hyperion.cpp:707-804 | performs the update step; its lookup is proved to succeed |
| HyperionObjects.Hyperion.SetCurrentSourcePriority | libsrc/hyperion/Hyperion.cpp:538-550 | selects an existing channel, answers whether it exists, changes nothing otherwise |
| HyperionObjects.Hyperion.SetSourceAutoSelectEnabled | libsrc/hyperion/Hyperion.cpp:526-536 | performs the auto-select step |
| HyperionObjects.Hyperion.SetColors | libsrc/hyperion/Hyperion.cpp:574-596 | performs the setColors step; when a channel so set ends is `ChannelLifetimes.SetChannelLasts` |
| HyperionObjects.Hyperion.Clear | libsrc/hyperion/Hyperion.cpp:621-641 | performs the clear step of the run theorems |
| HyperionObjects.Hyperion.ClearAll | libsrc/hyperion/Hyperion.cpp:643-653 | performs the clear-all step of the run theorems |
| HyperionObjects.Hyperion.GetCurrentPriority | libsrc/hyperion/Hyperion.cpp:655-659 | the reported priority is the channel that would be shown of those stored now |
| CloneMerge.Ranks | libsrc/hyperion/Hyperion.cpp:228-268 | how many clones precede each main LED and how many mains precede each clone, when the indices are a permutation |
| CloneMerge.InsertStep | libsrc/hyperion/Hyperion.cpp:745-748 | an insertion is in range, moves each main LED to its next position and changes nothing below |
| CloneMerge.ColorsPlaced | libsrc/hyperion/Hyperion.cpp:744-748 | when the indices are a permutation each main colour sits at its own index, each clone with a smaller target equals its target's slot, and any other clone shows the main LED it met instead |
| CloneMerge.ValuesPlaced | libsrc/hyperion/Hyperion.cpp:731-742 | then the colour orders line up with the buffer position by position |
| CloneMerge.LinesUpExactly | libsrc/hyperion/Hyperion.cpp:228-268 | for sorted LED strings every LED's own value ends up at its index if and only if the indices are a permutation |
| CloneMerge.InsertClones | libsrc/hyperion/Hyperion.cpp:744-748 | the insertion loop computes the merge, and goes through if and only if every target exists at its time |
| CloneMerge.MergeOrders | libsrc/hyperion/Hyperion.cpp:731-742 | the colour orders are merged by the same rule, without a condition on targets |
| CloneMerge.SwapBytes | libsrc/hyperion/Hyperion.cpp:756-779 | the swaps spell the bytes in the order that the order's name says |
| CloneMerge.SpelledByName | libsrc/hyperion/Hyperion.cpp:756-779 | byte k of the colour sent is the channel that letter k of the order's configured name stands for |
| CloneMerge.BufferShows | libsrc/hyperion/Hyperion.cpp:744-748 | after the merge every slot shows what its LED shows: its own colour, or along the chain of clones the colour of a main LED |
| CloneMerge.CloneShowsTargetExactly | libsrc/hyperion/Hyperion.cpp:744-748 | a clone of a main LED shows that LED's colour, whatever the colours, if and only if the main LED has the smaller index |
| CloneMerge.BuildDeviceFrame | libsrc/hyperion/Hyperion.cpp:731-786 | the device frame is the merged colours in the merged byte orders, and black beyond |
| CloneMerge.DeviceFrameShows | libsrc/hyperion/Hyperion.cpp:731-781 | LED by LED: main positions hold their colour and order, clone positions what the clone shows and its own order |
| Chunking.ChunksAreAll | libsrc/leddevice/LedDeviceUdpE131.cpp:84-111 | all chunks joined in order are the data |
| Chunking.ChunkSizes | libsrc/leddevice/LedDeviceUdpE131.cpp:86-98 | every chunk but the last is full and the last is not empty |
| Chunking.LoopTests | libsrc/leddevice/LedDeviceTpm2net.cpp:42-62 | the byte loop's modulo tests start, size and end packets exactly at chunk borders |
| E131.RootLayout | libsrc/leddevice/LedDeviceUdpE131.h:23-59 | every field of the root layer stands at its documented offset, in network order |
| E131.FrameLayout | libsrc/leddevice/LedDeviceUdpE131.h:31-69 | the same for the framing layer |
| E131.DmpLayout | libsrc/leddevice/LedDeviceUdpE131.h:40-82 | the same for the DMP layer and the property values |
| E131.DatagramFields | libsrc/leddevice/LedDeviceUdpE131.cpp:41-109 | flags-and-length fields count the octets from themselves to the datagram's end, property count and start code are right, universes count up modulo 65536 |
| E131.FixedRootFields | libsrc/leddevice/LedDeviceUdpE131.cpp:45-51 | preamble size 16, the ACN packet identifier, vector 4 and the component identifier stand in every header |
| E131.FixedFrameFields | libsrc/leddevice/LedDeviceUdpE131.cpp:53-61 | vector 2, the source name, priority 100, no options |
| E131.FixedDmpFields | libsrc/leddevice/LedDeviceUdpE131.cpp:64-72 | vector 2 and one-byte properties addressed from 0 in steps of 1 |
| E131.AcnCharacters | libsrc/leddevice/LedDeviceUdpE131.h:135 | the identifier is the text ASC-E1.17 and three zeros |
| E131.NameOctets | libsrc/leddevice/LedDeviceUdpE131.cpp:56 | the source name is cut to 63 characters and filled with zeros |
| E131.NothingLost | libsrc/leddevice/LedDeviceUdpE131.cpp:75-114 | the payloads in send order are exactly the colour bytes |
| E131.LedDeviceUdpE131.constructor | libsrc/leddevice/LedDeviceUdpE131.cpp:7-32 | nothing sent, sequence zero |
| E131.LedDeviceUdpE131.Prepare | libsrc/leddevice/LedDeviceUdpE131.cpp:41-73 | the packet is the specified prepared packet, whatever it held before |
| E131.LedDeviceUdpE131.Write | libsrc/leddevice/LedDeviceUdpE131.cpp:75-114 | the datagrams sent are exactly the specified ones, with the sequence number bumped once per frame |
| E131.LedDeviceUdpE131.WriteByte | libsrc/leddevice/LedDeviceUdpE131.cpp:84-111 | one turn of the byte loop advances the frame by one byte and sends a datagram exactly at a chunk's end |
| Tpm2Net.DatagramFields | libsrc/leddevice/LedDeviceTpm2net.cpp:42-61 | start, type and end bytes, and size, packet number and total, each cut to its width |
| Tpm2Net.SizeFieldExact | libsrc/leddevice/LedDeviceTpm2net.cpp:49-50 | the size field is the payload's size if and only if that is at most 65535 |
| Tpm2Net.NothingLost | libsrc/leddevice/LedDeviceTpm2net.cpp:29-66 | the payloads in send order are exactly the colour bytes |
| Tpm2Net.TotalPacketsExact | libsrc/leddevice/LedDeviceTpm2net.cpp:14-52 | the total in a datagram is the number of packets sent if and only if the packet size does not divide the byte count and that number is at most 255; the packet number is right up to packet 255 |
| Tpm2Net.FrameNumberingExact | libsrc/leddevice/LedDeviceTpm2net.cpp:40-63 | all headers of a frame are right if and only if the same holds and the largest payload fits the size field |
| Tpm2Net.WrongTotals | libsrc/leddevice/LedDeviceTpm2net.cpp:14-52 | 170 LEDs in packets of 170 bytes announce 4 and send 3; 171 LEDs in packets of 2 bytes announce 1 and send 257 |
| Tpm2Net.LedDeviceTpm2net.constructor | libsrc/leddevice/LedDeviceTpm2net.cpp:9-19 | byte count and announced total |
| Tpm2Net.LedDeviceTpm2net.Write | libsrc/leddevice/LedDeviceTpm2net.cpp:29-66 | the datagrams sent are exactly the specified ones although the buffer starts uninitialised |
| SpiCode.TablesAreValid | libsrc/leddevice/LedDeviceWs2812SPI.cpp:6-11 | every table byte is two nibble codes, one per bit, and the two codes differ |
| SpiCode.PulseShapes | libsrc/leddevice/LedDeviceSk6822SPI.cpp:14-50 | a 0 is 1000 on the wire; a 1 is 1100 for ws2812 and sk6812 and 1110 for sk6822 |
| SpiCode.DecodeEncode | libsrc/leddevice/LedDeviceWs2812SPI.cpp:47-51 | splitting the bytes into nibbles recovers every bit, first bit first |
| SpiCode.EncodeInjective | libsrc/leddevice/LedDeviceWs2812SPI.cpp:47-51 | different words have different encodings |
| SpiCode.SlotsAt | libsrc/leddevice/LedDeviceSk6822SPI.cpp:80-93 | where in the buffer each LED's word and wait bytes stand |
| SpiCode.BufferDecodes | libsrc/leddevice/LedDeviceSk6822SPI.cpp:80-93 | each LED's word is read back from its own slot |
| SpiCode.EncodeInto | libsrc/leddevice/LedDeviceWs2812SPI.cpp:47-51 | the shifting loop writes the encoding and nothing outside its slot |
| SpiCode.RgbWordChannels | libsrc/leddevice/LedDeviceWs2812SPI.cpp:43-45 | the 24-bit word holds red, green and blue in this order |
| SpiDevices.LedDeviceWs2812SPI.constructor | libsrc/leddevice/LedDeviceWs2812SPI.cpp:21-34 | the cleared buffer has four bytes a colour and three latch bytes |
| SpiDevices.LedDeviceWs2812SPI.Write | libsrc/leddevice/LedDeviceWs2812SPI.cpp:36-60 | the buffer is the encoding of every LED given, followed by zero latch bytes; a shorter frame leaves what is behind |
| SpiDevices.LedDeviceWs2812SPI.WriteLeds | libsrc/leddevice/LedDeviceWs2812SPI.cpp:41-53 | the LED loop fills one slot after the other and nothing behind |
| SpiDevices.LedDeviceSk6822SPI.constructor | libsrc/leddevice/LedDeviceSk6822SPI.cpp:60-73 | wait and latch bytes start as zero |
| SpiDevices.LedDeviceSk6822SPI.Write | libsrc/leddevice/LedDeviceSk6822SPI.cpp:75-118 | the slots of the LEDs given hold their encoding, the rest stays; wait and latch bytes stay zero after any sequence of writes |
| SpiDevices.LedDeviceSk6822SPI.WriteLeds | libsrc/leddevice/LedDeviceSk6822SPI.cpp:80-93 | the LED loop fills one slot after the other and nothing behind |
| SpiDevices.WhiteIsConserved | libsrc/utils/RgbToRgbw.cpp:16-46 | adding the white share back gives the colour, whatever was sent before, if and only if the algorithm is an implemented one |
| SpiDevices.WhiteShare | libsrc/utils/RgbToRgbw.cpp:16-46 | subtracting the minimum leaves no more white to take; with white off there is none; the algorithm that is not implemented repeats the previous output |
| SpiDevices.RgbwWordChannels | libsrc/leddevice/LedDeviceSk6812SPI.cpp:56-60 | the 32-bit word holds red, green, blue and white in this order |
| SpiDevices.LedDeviceSk6812SPI.constructor | libsrc/leddevice/LedDeviceSk6812SPI.cpp:22-45 | the buffer has sixteen bytes an LED and three latch bytes |
| SpiDevices.LedDeviceSk6812SPI.Convert | libsrc/leddevice/LedDeviceSk6812SPI.cpp:55-60 | the word of one LED; an algorithm that is not implemented repeats the word of the frame before |
| SpiDevices.LedDeviceSk6812SPI.Write | libsrc/leddevice/LedDeviceSk6812SPI.cpp:47-75 | the buffer is the encoding of every converted LED given, followed by zero latch bytes; a shorter frame leaves what is behind |
| SpiDevices.LedDeviceSk6812SPI.WriteLeds | libsrc/leddevice/LedDeviceSk6812SPI.cpp:53-68 | the LED loop fills one slot after the other and nothing behind |
| SpiDevices.RgbFrameDecodes | libsrc/leddevice/LedDeviceSk6822SPI.cpp:75-118 | a 24-bit frame is read back LED by LED and its wait bytes are zero |
| SpiDevices.RgbwFrameDecodes | libsrc/leddevice/LedDeviceSk6812SPI.cpp:47-75 | every 32-bit frame is read back LED by LED, adding the white share back, if and only if the algorithm is an implemented one |
| SpiDevices.NotImplementedIgnoresColors | libsrc/utils/RgbToRgbw.cpp:29-33 | with the algorithm that is not implemented the frame does not depend on the colours |
| JsonLines.LinesAccount | libsrc/jsonserver/JsonClientConnection.cpp:95-109 | lines and unfinished tail account for every byte |
| JsonLines.LinesEndInNewline | libsrc/jsonserver/JsonClientConnection.cpp:95-109 | every message has exactly one newline, at its end |
| JsonLines.TailIsUnfinished | libsrc/jsonserver/JsonClientConnection.cpp:95-109 | what stays buffered has no newline |
| JsonLines.LinesOfConcat | libsrc/jsonserver/JsonClientConnection.cpp:79-109 | reading in two steps gives what reading at once gives |
| JsonLines.ChunkingIsIrrelevant | libsrc/jsonserver/JsonClientConnection.cpp:77-112 | any split of a stream yields exactly its lines, with the tail buffered |
| JsonLines.NoUpgradeSeen | libsrc/jsonserver/JsonClientConnection.cpp:89 | a stream without the upgrade string never looks like a handshake to any read |
| JsonLines.Characters | libsrc/jsonserver/JsonClientConnection.cpp:89-95 | the newline and the upgrade string are these characters |
| WebSocketFrames.MaskInvolution | libsrc/jsonserver/JsonClientConnection.cpp:164-170 | masking twice with a key gives the payload back |
| WebSocketFrames.MaskBits | libsrc/jsonserver/JsonClientConnection.cpp:164-170 | bit k of a masked octet differs from the payload's exactly where the key's octet, the four taken in turn, has a one |
| WebSocketFrames.TextFrameDecodes | libsrc/jsonserver/JsonClientConnection.cpp:114-178 | every complete text frame, masked or not, with a 7-, 16- or 64-bit length, decodes to its payload |
| WebSocketFrames.ShortFrame | libsrc/jsonserver/JsonClientConnection.cpp:114-170 | what a text frame with a 7-bit length is, octet by octet |
| WebSocketFrames.MediumFrame | libsrc/jsonserver/JsonClientConnection.cpp:114-170 | the same for a 16-bit length |
| WebSocketFrames.LongFrame | libsrc/jsonserver/JsonClientConnection.cpp:114-170 | the same for a 64-bit length |
| WebSocketFrames.SentFrameRoundTrip | libsrc/jsonserver/JsonClientConnection.cpp:1264-1281 | a sent frame decodes to the reply if and only if the reply has at most 65535 bytes |
| WebSocketFrames.LongReplyHeader | libsrc/jsonserver/JsonClientConnection.cpp:1270-1274 | a longer reply is cut to its length modulo 65536 |
| WebSocketRuns.StaysStuck | libsrc/jsonserver/JsonClientConnection.cpp:114-206 | what arrives behind a frame that is no final text changes nothing about how that frame is read and answered |
| WebSocketRuns.StuckForever | libsrc/jsonserver/JsonClientConnection.cpp:79-206 | once such a frame stands at the front no read ever hands over a message; each one only adds to the buffer and writes the same answer again |
| WebSocketRuns.RunHandsOver | libsrc/jsonserver/JsonClientConnection.cpp:79-178 | a run of reads that end at frame borders hands over the texts at the fronts, up to the first read that starts with another frame |
| WebSocketRuns.AnswerOctets | libsrc/jsonserver/JsonClientConnection.cpp:179-206 | a ping is answered with a pong that lacks its final bit, a close and any frame that is not final with a close, other frames with nothing |
| WebSocketRuns.DeliveredExactly | libsrc/jsonserver/JsonClientConnection.cpp:79-206 | of such reads, with texts and other frames mixed, all texts are handed over intact and in order if and only if each read before that one holds one text, at its front, and no text comes after |
| WebSocketRuns.TextsMissedExactly | libsrc/jsonserver/JsonClientConnection.cpp:79-178 | when only texts are sent that means one frame in every read |
| WebSocketRuns.PingSwallowsText | libsrc/jsonserver/JsonClientConnection.cpp:189-196 | a text read after a ping is never handed over, whatever follows |
| JsonConnection.JsonClientConnection.constructor | libsrc/jsonserver/JsonClientConnection.cpp:49-60 | a plain socket with an empty buffer |
| JsonConnection.JsonClientConnection.ReadData | libsrc/jsonserver/JsonClientConnection.cpp:77-112 | one read is the line step on a plain socket, the handshake on an upgrade, the frame step of the run theorems afterwards |
| JsonConnection.JsonClientConnection.FindUpgrade | libsrc/jsonserver/JsonClientConnection.cpp:89 | finds the upgrade string exactly when it occurs |
| JsonConnection.JsonClientConnection.HandleWebSocketFrame | libsrc/jsonserver/JsonClientConnection.cpp:114-207 | performs the frame step: hands over the decoded text and empties the buffer, or answers a close, ping or fragmented frame and keeps it |
| JsonConnection.JsonClientConnection.ReadLength | libsrc/jsonserver/JsonClientConnection.cpp:132-136 | shifting eight octets into place gives the big-endian value |
| JsonConnection.JsonClientConnection.Unmask | libsrc/jsonserver/JsonClientConnection.cpp:164-170 | the in-place loop is the mask of section 5.3 of RFC 6455 |
| JsonConnection.JsonClientConnection.SendMessage | libsrc/jsonserver/JsonClientConnection.cpp:1258-1282 | bare on a plain socket, one frame on a WebSocket |
| ProtoFraming.FrontFrame | libsrc/protoserver/ProtoClientConnection.cpp:54-78 | the frame at the front of a stream is read back as its message, with the rest left over |
| ProtoFraming.StepAccounts | libsrc/protoserver/ProtoClientConnection.cpp:44-79 | one read keeps the account of handled and buffered bytes |
| ProtoFraming.HandledIsPrefix | libsrc/protoserver/ProtoClientConnection.cpp:44-79 | however a stream is cut, handled messages are a prefix of the sent ones and consumed bytes followed by the buffer are the stream |
| ProtoFraming.SecondMessageWaits | libsrc/protoserver/ProtoClientConnection.cpp:44-79 | after a read handled a message, another complete one waits in the buffer if and only if there is one and the bytes it needs had arrived; five at least, for an empty message |
| ProtoFraming.ReadyExactly | libsrc/protoserver/ProtoClientConnection.cpp:48-65 | the two size tests pass if and only if the bytes needed by the message at the front have arrived |
| ProtoFraming.HandledExactly | libsrc/protoserver/ProtoClientConnection.cpp:44-79 | at least j messages have been handled if and only if for every k below j at least j - k reads ended when message k was due or later |
| ProtoFraming.AllHandledExactly | libsrc/protoserver/ProtoClientConnection.cpp:44-79 | the same for all of the messages |
| ProtoFraming.SliceExactly | libsrc/protoserver/ProtoClientConnection.cpp:54-71 | the 32-bit completeness test lets a slice beyond the buffer through if and only if the size field is above 4294967291 |
| ProtoFraming.ProtoClientConnection.constructor | libsrc/protoserver/ProtoClientConnection.cpp:23-37 | an empty buffer |
| ProtoFraming.ProtoClientConnection.ReadData | libsrc/protoserver/ProtoClientConnection.cpp:44-79 | one read is the step that the stream theorems speak about |
| ProtoFraming.ProtoClientConnection.SendMessage | libsrc/protoserver/ProtoClientConnection.cpp:236-244 | size, big-endian in four bytes, then the message |
| ResamplerArithmetic.SamplesFillCrop | libsrc/utils/ImageResampler.cpp:64-72 | sample i is taken if and only if it lies inside the crop, so none is outside and the next one would be |
| ResamplerArithmetic.EveryBlockSampled | libsrc/utils/ImageResampler.cpp:64-72 | every coordinate of the crop is in the block of one sample, except at most half a step at the end |
| ResamplerArithmetic.MacropixelShared | libsrc/utils/ImageResampler.cpp:78-95 | both pixels of a macropixel read the same U and V, and the reads cover its four bytes once each |
| ResamplerArithmetic.ReadsStayInLine | libsrc/utils/ImageResampler.cpp:78-95 | the packed formats read inside a line of whole pairs, and inside two bytes a pixel unless the pixel is the unpaired last one of an odd width |
| ResamplerArithmetic.PackedOrder | libsrc/utils/ImageResampler.cpp:78-95 | the four bytes of a macropixel stand in the order of the format's name, with a Y for each pixel and one U and V for both |
| ResamplerArithmetic.ByteOrder | libsrc/utils/ImageResampler.cpp:104-127 | the bytes of the other formats stand in the order of the format's name |
| ResamplerArithmetic.YuvIsNearest | libsrc/utils/ImageResampler.cpp:136-151 | every channel is the byte nearest to the exact weighted sum, saturated at both ends |
| ResamplerArithmetic.GreyFollowsLuma | libsrc/utils/ImageResampler.cpp:141-151 | without chroma the result is a grey that grows with the luminance, black up to 16 and white from 235 |
| ResamplerArithmetic.Bgr16RoundTrip | libsrc/utils/ImageResampler.cpp:96-103 | a packed 16-bit colour is read back with the leading bits of every channel |
| ImageResamplers.OutputImage.constructor | include/utils/Image.h:21-28 | one pixel and one spare pixel |
| ImageResamplers.OutputImage.RowStart | include/utils/Image.h:217-220 | a row of the picture lies inside the buffer |
| ImageResamplers.OutputImage.Resize | include/utils/Image.h:145-156 | the new size, with a new buffer only if the old one is too small |
| ImageResamplers.SizeAfterTest | libsrc/utils/ImageResampler.cpp:67-68 | after the size test the picture fits unless exactly one side differed |
| ImageResamplers.MisfitStaysInside | libsrc/utils/ImageResampler.cpp:67-74 | when the test does not fire, all writes are inside the picture if and only if no side of it is too small |
| ImageResamplers.ImageResampler.constructor | libsrc/utils/ImageResampler.cpp:4-14 | no cropping, every pixel, two dimensions |
| ImageResamplers.ImageResampler.ThreeDKeepsHalf | libsrc/utils/ImageResampler.cpp:51-62 | a 3D mode takes no sample from the second half of its axis and leaves the other axis as configured |
| ImageResamplers.ImageResampler.ProcessImage | libsrc/utils/ImageResampler.cpp:44-134 | each output pixel is the converted source pixel of its two samples, also in a larger picture that the size test did not resize; an unknown format writes nothing |
| ImageResamplers.ImageResampler.ProcessRow | libsrc/utils/ImageResampler.cpp:70-133 | one row is filled and the finished rows stay |
| ImageResamplers.ImageResampler.WriteRow | libsrc/utils/ImageResampler.cpp:72-132 | the inner loop writes each sample of the row once and nothing before the row |
| ImageResamplers.ImageResampler.ReadPixel | libsrc/utils/ImageResampler.cpp:74-131 | the bytes read are the ones that the format puts at this pixel |
| ImageResamplers.ImageResampler.ReadTexel | libsrc/utils/ImageResampler.cpp:76-131 | format by format, inside the line |
| ImageResamplers.ImageResampler.ReadPacked | libsrc/utils/ImageResampler.cpp:78-95 | the branches on odd and even pixels give one macropixel's Y, U and V |

## Left out

- LinearColorSmoothings.LinearColorSmoothing.UpdateLeds: the fraction is an exact rational, not a float; the clock does not run backwards; a second tick at exactly the target time is excluded, since it divides zero by zero; and the truncation of the time difference to `int` is not modelled, which matters only after switchOff has set the target time to zero.
- LinearColorSmoothings.LinearColorSmoothing.Write: a later frame must not be longer than the stored target, since the source copies it without a check.
- BlackBorderProcessors.BlackBorderProcessor.Process: only the three known detection modes; any other mode string leaves the border uninitialised in the source. Frame counters do not wrap. The detector's threshold is given as a byte, its computation from a double is not modelled.
- ImageProcessors.ImageProcessor.Process: with the detector on, images must be of a size that passes the check; `LeavesPictureExactly` says that no weaker check would do.
- ImageToLedsMaps.ImageToLedsMap.CalcMeanColor: sums are unbounded; `uint_fast16_t` is as wide as the platform makes it.
- ImageToLedsMaps.ImageToLedsMap.ClampSpan: fractions are exact reals, not doubles.
- GridPartition.GridPartitions: for grids built from chained fractions; other layouts are covered LED by LED through `LedListIsRectangle`.
- MultiColorAdjustments.ColorAdjustment.AdjustColor: gamma, brightness and backlight (`RgbTransform`) are an arbitrary function on colours.
- MultiColorAdjustments.MultiColorAdjustment.ApplyAdjustment: takes the buffer and returns the new one, so updating it in place is not captured.
- PriorityMuxing.PriorityMuxer.SetCurrentTime: the order in which the map is walked is left open.
- HyperionObjects.Hyperion.SetColors: priority 255 with a positive timeout is excluded; `StepKeepsWellFormed` and `LookupExactly` say what it does.
- HyperionObjects.Hyperion.Update: each call reads the clock once, where the source reads it again for the timer; adjustment, clone insertion and byte order are modelled on their own and not called from here.
- HyperionObjects.EffectEngine.RunEffectScript: Python, the effect's frames and the priority register are not modelled; only priority, abort flag and finish event remain.
- CloneMerge.InsertClones: insertion positions must exist, since the source inserts at an iterator without a check; the merge works on a sequence value, and the sorting of the LED strings is not modelled.
- CloneMerge.MergeOrders: as above.
- CloneMerge.BuildDeviceFrame: as above.
- E131.LedDeviceUdpE131.Write: colour bytes come as one sequence of at least the configured length; socket errors are not modelled.
- SpiDevices.LedDeviceWs2812SPI.Write: frames of at most the configured length, since the source writes longer ones past the buffer; the SPI transfer itself is not modelled.
- SpiDevices.LedDeviceSk6822SPI.Write: as above.
- SpiDevices.LedDeviceSk6812SPI.Write: as above.
- HyperionCore.SetColorsSyncs: as for HyperionObjects.Hyperion.SetColors.
- JsonConnection.JsonClientConnection.ReadData: in WebSocket mode the buffer must hold what the handler looks at: the header, and all of a text frame, since the source reads on without checking; what the handshake writes is left open.
- JsonConnection.JsonClientConnection.HandleWebSocketFrame: closing the socket is not modelled; payload lengths from 2^31 up are excluded.
- ProtoFraming.ProtoClientConnection.ReadData: a read whose test lets a slice beyond the buffer through is excluded; `SliceExactly` says which.
- ImageResamplers.ImageResampler.ProcessImage: crops are not negative and leave an output size of at least zero, every line is complete, and a picture that is not resized is not too small; `MisfitStaysInside` says that otherwise writes leave it. The frame's five arguments are one value.
- Sockets, serial ports, timers, logging, JSON parsing and schemas, configuration, the web server and the grabber back ends.
- Colours in other spaces (`ColorSys`, Philips Hue geometry): floating point conversions without state.
