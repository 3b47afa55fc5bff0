# eyez: a verified model of the thermal eye tracker

eyez drives a pair of servo-mounted "eyes" that follow a warm subject.
A 32 x 24 MLX90640 thermal sensor is read a few times a second, and a person
locator turns each frame into a sensor column. `scanner5.py` thresholds the
raw temperatures; `scanner45.py` and the scripts under `old/` first normalise
the frame to 8-bit intensities. The column is mapped through a per-servo calibration table
(600 + 60 * column microseconds) to a pulse width. Both servos are sent that
pulse width through pigpio and then de-energised.

This project models the cores of the tracker scripts:

- `scanner5.py`, the `Eyez` class (module `Scanner5`). It keeps a five-entry
  window of detected columns and moves to the truncated mean of that window.
  It moves only when the target is more than one column from where the eyes
  last looked.
- `scanner45.py` (module `Scanner45`). This is the frame-difference tracker.
  It crops each frame to its lower 18 rows and counts, per column, the pixels
  that changed by more than 5 since the previous frame. It moves whenever the
  busiest column differs from the current one.
- `old/scanner.py` (module `ColumnDiff`). This prototype sums each column's
  per-pixel change over the full frame with nested loops.
- `old/scanner3.py` (module `FrameAverage`). This prototype averages the last
  five frames pixel by pixel and reports the centre of the largest contour's
  bounding box.

Shared pieces have their own modules:

- `Fifo`: the append-then-`pop(0)` rolling window, and `LastK`, the window it
  always equals.
- `Stats`: sums, the truncating mean and the first-maximum index.
- `Calibration`: the pulse table.
- `Pigpio`: the daemon calls, recorded as a command log.
- `Frames`: uint8 grids, reshape and pixel differences.

The hardware calls each tracker makes are appended to a ghost command log.
The order of servo commands is therefore part of what the contracts state.

Each tracker's main loop is modelled as a `Step` method on a class holding
the state it carries between frames. The inputs of a step are what the code
gets from the outside world:

- the sensor reading, or the failure `getFrame` raised;
- for `scanner5.py`, the centroid column its contour detector reported;
- for `old/scanner3.py`, the bounding box of the largest contour.

`Scanner5.StaticSubjectMovesOnce` walks a subject that stands still at column
10 for five frames through `Eyez`. The first detection moves the eyes once,
and the next four send nothing.

Three behaviours of the code are not what its comments and names suggest; the model follows the code:

- The frame-difference locator never reports "no person". On the first cycle
  it compares against an all-zero frame. For unchanged frames it reports
  column 0 (`Scanner45.NoChangeGivesColumnZero`).
- `scanner45.py`'s `translate_to_quadrant` does no bounds check. A negative
  column indexes from the end of the table and a column past 31 raises
  `IndexError` (`Scanner45.TranslateToQuadrant`).
- `scanner5.py` takes the target as the current column even when
  `move_servos` sent nothing. A target can only fall off the table if the
  detector reports such a column.

## Model

| member | source | states |
|---|---|---|
| Fifo.Push | scanner5.py:67-69 | appending to a window of at most k entries keeps it at most k long, and the new entry is last |
| Fifo.LastK | scanner5.py:66-70 | the last min(n, k) inputs in their original order, element by element |
| Fifo.PushKeepsLastK | scanner5.py:67-69 | append-then-pop(0) on the last k inputs yields the last k inputs after the new one |
| Fifo.PushEvictsOldest | old/scanner3.py:54-56 | on a full window exactly the oldest entry is dropped; with room nothing is dropped |
| Stats.TruncDivRounds | scanner5.py:70 | `int(a / n)` is the quotient rounded toward zero, for both signs of a |
| Stats.MeanBetween | scanner5.py:70 | the truncated mean of the window lies between its smallest and largest entry |
| Stats.MeanOfConstant | scanner5.py:70 | the mean of equal entries is that entry |
| Stats.ArgMax | scanner45.py:171 | `np.argmax`: an index whose value is at least every other value, with every earlier value strictly smaller |
| Stats.ArgMaxUnique | old/scanner.py:60 | any index with the first-maximum properties is the one `ArgMax` returns |
| Stats.ArgMaxOfConstant | scanner45.py:171 | on all-equal counts the first maximum is index 0 |
| Calibration.Table | scanner5.py:25-28 | one pulse entry per sensor column, 32 entries |
| Calibration.TableShape | scanner45.py:30-39 | 600 us at column 0, 2460 us at column 31, strictly increasing, inside the 600..2500 us servo range |
| Frames.Uint8AbsDiff | scanner45.py:162 | uint8 subtraction then abs: a warming of d gives d, a cooling of d gives 256 - d, always a uint8 |
| Frames.AbsDiff | scanner45.py:161-162 | the non-negative absolute difference of two pixel values |
| Frames.Reshape | scanner45.py:76 | 768 readings become 24 rows of 32, with pixel (i, j) taken from reading 32 * i + j |
| Scanner5.PushKeepsColumns | scanner5.py:67-69 | pushing a sensor column into a window of sensor columns keeps every entry in 0..31 |
| Scanner5.MeanOfColumns | scanner5.py:70 | the smoothed target of a window of sensor columns is a sensor column |
| Scanner5.SmoothingKeepsRange | scanner5.py:160-161 | a sensor-column detection keeps the window and the smoothed target inside 0..31 |
| Scanner5.PushSameColumn | scanner5.py:66-70 | feeding the column a window already agrees on leaves the window on it and the target equal to it |
| Scanner5.Eyez.constructor | scanner5.py:20-37 | pins as given, both pins mapped to the calibration table, column 16, empty window, counter 0 |
| Scanner5.Eyez.TranslateToQuadrant | scanner5.py:50-53 | no pulse exactly when the column is missing, negative or at least 32; otherwise 600 + 60 * column |
| Scanner5.Eyez.MoveCommandsSequence | scanner5.py:55-63 | off-table targets send nothing; a sensor column sends left then right pulse width, then right and then left de-energised, duty before frequency |
| Scanner5.Eyez.Start | scanner5.py:132-136 | right pin output at 50 Hz, then left pin output at 50 Hz |
| Scanner5.Eyez.TurnOffServos | scanner5.py:39-44 | duty 0 then frequency 0 on the right pin, then on the left pin |
| Scanner5.Eyez.MoveServos | scanner5.py:55-63 | appends exactly the move commands for the target to the log |
| Scanner5.Eyez.SmoothPosition | scanner5.py:66-70 | the window becomes the last min(n, 5) accepted columns; the result is their truncated mean |
| Scanner5.Eyez.Track | scanner5.py:160-171 | moves and updates the current column exactly when the target is more than one column away, otherwise sends nothing; sensor-column input keeps the eyes on a sensor column |
| Scanner5.Eyez.Step | scanner5.py:146-171 | a failed read changes nothing; "no person" only counts the frame and leaves the window alone; a detection counts, smooths and gates as in `Track` |
| Scanner45.TranslateToQuadrant | scanner45.py:41-45 | no pulse exactly for a missing column; 0..31 gives 600 + 60 * column; -32..-1 wraps to the far end; anything else is an IndexError |
| Scanner45.MoveCommandsSequence | scanner45.py:60-72 | no target sends nothing; a sensor column sends right then left pulse width, then right and then left de-energised |
| Scanner45.ParseFrame | scanner45.py:74-81 | 18 rows of 32; cropped pixel (r, c) is reading 32 * (r + 6) + c |
| Scanner45.ChangedInColumn | scanner45.py:165-168 | the changed-pixel count of a column over n rows lies in 0..n |
| Scanner45.ColumnCounts | scanner45.py:168 | one count per column, each the column's changed-pixel count over all 18 rows |
| Scanner45.DetectHumanColumnAsWritten | scanner45.py:149-173 | with the wrapped difference: a column in 0..31 whose count is maximal, every earlier count strictly smaller |
| Scanner45.DetectHumanColumn | scanner45.py:149-173 | the same with the absolute difference: the first column with the most pixels that moved past the threshold |
| Scanner45.QuietColumnCountsZero | scanner45.py:165-168 | a column with no pixel past the threshold counts zero |
| Scanner45.ActiveColumnCountsPositive | scanner45.py:165-168 | a column with a pixel past the threshold counts at least one |
| Scanner45.NoChangeGivesColumnZero | scanner45.py:165-171 | with no pixel past the threshold the locator reports column 0, never "no person" |
| Scanner45.IdenticalFramesGiveColumnZero | scanner45.py:149-173 | two identical frames give column 0, both as written and corrected |
| Scanner45.ChangedInColumnSymmetric | scanner45.py:162-168 | the corrected count is the same with the two frames swapped |
| Scanner45.DetectHumanColumnSymmetric | scanner45.py:149-173 | the corrected locator reports the same column with the two frames swapped |
| Scanner45.CoolingPixelMisleadsAsWritten | scanner45.py:162 | one pixel cooling by one level: as written the locator reports that pixel's column, corrected it reports column 0 |
| Scanner45.WarmingColumnCountsAgree | scanner45.py:162-168 | where no pixel of a column cooled, the wrapped and the absolute change give the same count |
| Scanner45.FirstCycleAgrees | scanner45.py:106-108 | against the all-zero first previous frame, the locator as written and the corrected one report the same column |
| Scanner45.Tracker.constructor | scanner45.py:88-108 | both pins set up at 50 Hz, right first; previous frame is the cropped zero frame, every pixel 0; column 16; no saved frames; the chosen locator |
| Scanner45.Tracker.Step | scanner45.py:111-140 | a failed read changes nothing; every frame becomes the previous frame; a located column different from the current one is moved to, counted and taken as current, otherwise nothing is sent; with `wrapped` set the locator is `detect_human_column` as written |
| ColumnDiff.ColumnDiffSums | old/scanner.py:50-58 | one total per column, each the sum over all 24 rows of that column's wrapped per-pixel change |
| ColumnDiff.ColumnDiffSumBounded | old/scanner.py:52-58 | a column total over n rows lies in 0..255 * n |
| ColumnDiff.UnchangedColumnSumsZero | old/scanner.py:52-58 | a column whose pixels did not change totals zero |
| ColumnDiff.IdenticalFramesGiveColumnZero | old/scanner.py:47-61 | identical frames give all totals zero and column 0 |
| ColumnDiff.FindPersonColumn | old/scanner.py:47-61 | the nested loops fill each column's total; the result is the first column with the largest total |
| ColumnDiff.FirstIndexOfMax | old/scanner.py:60 | `a.index(max(a))` over the array is its first maximum |
| ColumnDiff.Monitor.constructor | old/scanner.py:15 | no previous frame |
| ColumnDiff.Monitor.Step | old/scanner.py:18-41 | a failed read changes nothing; a column is reported exactly when a frame is read and a previous one exists, and it is the first busiest column between them; the frame read becomes the previous frame |
| FrameAverage.PixelSeries | old/scanner3.py:59 | the values of one pixel across the buffered frames, oldest first |
| FrameAverage.MeanFrame | old/scanner3.py:59 | a 24 x 32 frame whose every pixel is the truncated mean of that pixel over the buffer |
| FrameAverage.MeanFrameBetween | old/scanner3.py:59 | each averaged pixel lies between that pixel's smallest and largest buffered value, so the cast to uint8 never wraps |
| FrameAverage.MeanOfEqualFrames | old/scanner3.py:59 | averaging copies of one frame gives that frame |
| FrameAverage.BoxCentreColumn | old/scanner3.py:126-127 | x + w // 2 is floor(w / 2) columns right of the box's left edge, inside the box when it is at least one column wide |
| FrameAverage.DetectPerson | old/scanner3.py:124-130 | no column exactly when there is no contour; otherwise a column inside the largest contour's box |
| FrameAverage.BufferedFrames | old/scanner3.py:54-56 | the grown history and its last five entries hold only full frames |
| FrameAverage.Smoother.constructor | old/scanner3.py:35-36 | empty buffer, frame count 0 |
| FrameAverage.Smoother.PushFrame | old/scanner3.py:53-59 | the buffer becomes the last min(n, 5) frames read; the smoothed frame is their per-pixel mean and a uint8 frame |
| FrameAverage.Smoother.Step | old/scanner3.py:38-72 | a failed read changes nothing and reports nothing; a frame is buffered and counted, and the largest contour's box centre is reported |

## Left out

- Sensor driver and I/O: `getFrame`, `read_frame`, the refresh-rate setting, `time.sleep` settle and back-off delays, FPS output and every `print`. Readings and failures are step inputs; delays have no observable effect on the modelled state.
- Normalisation (`cv2.normalize` with `NORM_MINMAX` and the float-to-uint8 cast). Frames enter the model already normalised to uint8 values.
- Float readings: `parse_frame` and `reshape(...).astype(float)` keep temperatures as floats. The model takes integer readings.
- `scanner5.py`'s `detect_person`: thresholding at 30 degrees, erosion and dilation, contours and the centroid from image moments are OpenCV work. Its result is the `Reading` input of `Eyez.Step`. So are the `temperature_threshold`, `width` and `height` fields it alone uses; `mlx` is the handle of the sensor driver left out above.
- `old/scanner3.py`'s `detect_person` up to the contour search (absolute difference to the background, binary threshold at 25, dilation, erosion, `findContours`, the choice of the largest contour by `contourArea`). The bounding box of the largest contour is the `largest` input of `Smoother.Step`.
- `old/scanner3.py`'s `update_background_model` is a float `addWeighted` blend. Only `detect_person` reads it, and its output enters as that input.
- Shutdown paths: signal handlers, `cleanup`, `KeyboardInterrupt` handling, `create_video`, `clear_frames_directory`, `save_image`. `scanner5.py`'s handler calls an undefined module-level `cleanup`, and `scanner45.py`'s `cleanup` sees the global `pwm`, which stays None. Neither is a behaviour worth stating.
- Scanner45.Tracker.Step does not keep `target_column` between cycles. The code overwrites it before every read of it. `make_video` is fixed to True, so the saved-frame count rises with every move.
- A `getFrame` failure part way through filling the shared `frame` list is not modelled. A failed read leaves no trace in the model.
- Scanner5.Eyez.SmoothPosition states the result's bounds only through `Stats.MeanBetween` and `Scanner5.SmoothingKeepsRange`, not in its own ensures. `Eyez.Track` and `Eyez.Step` use them.
- Scanner5.Eyez.SmoothPosition and FrameAverage.MeanFrame divide exactly. The code divides in floating point, and a quotient such as 7 / 3 is rounded. For small integer sums and a divisor of at most 5 the rounded quotient never crosses an integer, so truncating it gives the truncated exact quotient.
- ColumnDiff.ColumnDiffSums adds the per-pixel changes as unbounded integers, as NumPy 1.x does when it promotes a Python int plus a uint8 scalar to int64. Under NumPy 2 promotion rules the running total would itself be uint8 and wrap modulo 256.
- The other scripts (`thermal_image.py`, `servo_test.py`, `old/left.py`, `old/temp.py`, `old/scanner2.py`, `old/thermal_image.py`) are not part of this model.

## Findings

| source | as written | input that shows it | evidently intended | confidence | as-written member | corrected member |
|---|---|---|---|---|---|---|
| scanner45.py:162 | `np.abs(curr_frame - prev_frame)` on two uint8 frames wraps the subtraction, so a pixel that cools by d scores 256 - d and counts as changed even for d = 1 | previous and current frames equal except one pixel at column 7 that drops by one level: the code reports column 7 | the absolute difference \|curr - prev\| of the comment above it, under which that change is below the threshold and column 0 is reported | high, not executed | Scanner45.DetectHumanColumnAsWritten, Scanner45.CoolingPixelMisleadsAsWritten | Scanner45.DetectHumanColumn, Scanner45.DetectHumanColumnSymmetric |

A `Scanner45.Tracker` built with `wrapped` set runs the locator as written; built without it, the corrected one. The two agree on the first cycle (`Scanner45.FirstCycleAgrees`). `old/scanner.py` computes its per-pixel change in the same wrapped way, and `ColumnDiff` keeps it as written.
