# Cushion-hit counter: a Dafny model

The program counts how often balls touch the side cushions of a table in a video.
On the first frame it finds the left and right cushion as vertical line segments.
On every frame it finds the balls as small bright blobs. Each ball scores one point per
cushion it lies within 20 pixels of, or anywhere beyond, since the distance test has no
absolute value. A ball can therefore score twice. A frame's score is added to the running
total only when the previous accepted frame lies more than two frames back. A driver reads the expected totals
from a results file.

This project models the program's own sequential logic in `main.py`. The computer-vision
library and file I/O are abstracted away: what the vision calls report for a frame (Hough
line segments, enclosing circles of contours) is the input.

- `balls.dfy` (module `Balls`): the radius filter of `find_balls`. A circle is a ball when
  3.5 < r < 4.2.
- `edges.dfy` (module `Edges`): the segment scan of `find_edges`. It keeps a running
  leftmost and rightmost vertical segment. The defaults are x = 700 and x = 240, and the
  comparisons are strict. The scan sits behind the array truth test `lines.any()`.
- `collision.dfy` (module `Collision`): `check_for_collision`. Each ball adds one for the
  left cushion when `ball.x - left.x <= 20`. It adds one for the right cushion when
  `right.x - ball.x <= 20`. Neither test takes an absolute value.
- `debounce.dfy` (module `Debounce`): the cooldown of `video_processing`, as functions of the
  per-frame counts. It defines the accepted frames, the total, and one step of the state
  machine (current frame, last accepted frame, total).
- `video.dfy` (module `Video`): `video_processing` as a method with the program's loop and
  its three state variables. An empty video gives `None`.
- `pytext.dfy` (module `PyText`): the Python string operations the results reader uses.
  These are `str.strip()` (with Python's whitespace set), `str.split(",")` and `int()`
  (surrounding whitespace, sign, ASCII digits with single underscores; no limit on the
  number of digits). `int()` skips a smaller set of whitespace than `strip()`: it does not
  skip the ASCII separators U+001C..U+001F, which `str.isspace()` accepts.
- `ground_truth.dfy` (module `GroundTruth`): the results-file loop of the main block. It skips
  lines whose first field is `file`, records `name -> int(count)`, lets later lines overwrite
  earlier ones, and stops at the first line Python would raise on.
- `wrappers.dfy` (module `Wrappers`): `Option` and `Result`.

Two behaviours of the code are modelled as written.

- The edge scan runs only when `lines.any()` holds, and numpy reads that as "some coordinate
  is nonzero", not "the array is non-empty". A non-empty array of all-zero segments therefore
  keeps the default edges, although the scan would have chosen the zero segment
  (`Edges.AllZeroKeepsDefaults`). Non-vertical segments never change either scan
  (`Edges.ScansIgnoreNonVertical`). Through this guard, however, a nonzero non-vertical
  segment can switch the scan on.
- The last accepted frame starts at -1. That is why frame 1 gets its own rule: by the general
  rule, 1 - (-1) = 2 would not exceed the gap. After a quiet first frame, a nonzero frame 2 is
  accepted although it is only one frame later (`Debounce.QuietFirstFrameAdmitsSecond`).

## Model

| member | source | states |
|---|---|---|
| `Balls.FindBalls` | main.py:24-29 | the loop returns exactly the centres of the ball-sized circles in order (the specification `BallsAmong`), never more balls than circles |
| `Balls.BallsAmongExact` | main.py:25-28 | a point is a detected ball iff it is the centre of some circle with 3.5 < r < 4.2; at most one ball per circle |
| `Balls.BallsAmongAppend` | main.py:25-28 | filtering distributes over concatenation of the circle list |
| `Edges.FindEdges` | main.py:37-52 | the loop yields the left/right scan results when `lines.any()` holds and the defaults otherwise; no segments gives `[700,0,700,0]` and `[240,0,240,0]`; both edges are vertical, left x <= 700, right x >= 240 |
| `Edges.LeftmostIsMinimum` | main.py:37-48 | the left edge is vertical, is the default or one of the segments, and its x is at most 700 and at most every vertical segment's x (the minimum) |
| `Edges.RightmostIsMaximum` | main.py:38-50 | the right edge is vertical, is the default or one of the segments, and its x is at least 240 and at least every vertical segment's x (the maximum) |
| `Edges.LeftmostKeepsFirstOfTies` | main.py:46-48 | the left edge is the default iff no vertical segment lies left of 700; otherwise it is the first vertical segment with the minimal x (strict comparison keeps earlier ties) |
| `Edges.RightmostKeepsFirstOfTies` | main.py:46-50 | the right edge is the default iff no vertical segment lies right of 240; otherwise it is the first vertical segment with the maximal x |
| `Edges.ScansIgnoreNonVertical` | main.py:41-50 | scanning only the vertical segments gives the same left and right edges as scanning all of them |
| `Edges.AllZeroKeepsDefaults` | main.py:37-40 | a non-empty all-zero segment array fails the truth test and keeps the defaults, although the scan alone would pick x = 0 |
| `Collision.Hits` | main.py:9-12 | one ball adds at most 2; 2 iff near both edges, 0 iff near neither; a ball at or beyond an edge always adds at least 1 (no absolute value) |
| `Collision.CheckForCollision` | main.py:6-14 | the loop's count equals the sum of per-ball hits (`CollisionCount`) and is at most 2 per ball |
| `Collision.CollisionCountBounds` | main.py:7-14 | the count is between 0 and 2·|balls|, and 0 exactly when no ball is near either edge |
| `Collision.CollisionCountAppend` | main.py:7-14 | the count of a concatenation of ball lists is the sum of the counts; the empty list counts 0 |
| `Debounce.AcceptedSpaced` | main.py:70-84 | every accepted frame is a frame of the video with a nonzero count, and any two accepted frames are more than 2 frames apart, in increasing order |
| `Debounce.AcceptedPrefix` | main.py:74-84 | accepting a frame is final: the frames accepted among the first m frames are a prefix of all accepted frames, and the rest come after frame m |
| `Debounce.AcceptedLocally` | main.py:82-84 | frame f is accepted iff its count is nonzero and neither frame f-1 nor f-2 was accepted (an independent reading of the cooldown) |
| `Debounce.TotalStep` | main.py:82-84 | a new frame adds its count to the total exactly when it is admitted, and nothing otherwise |
| `Debounce.FirstStep` | main.py:58-72 | after frame 1 the last accepted frame is 1 if its count is nonzero and -1 otherwise, and the total is frame 1's count |
| `Debounce.LaterStep` | main.py:74-84 | one loop step: with `last` the most recent accepted frame and `total` the total so far, frame f is accepted iff its count is nonzero and f - last > 2, and then `last` becomes f and the count is added |
| `Debounce.TotalMonotone` | main.py:71 | the running total over a prefix of the frames never exceeds the total over more frames (it never decreases) |
| `Debounce.TotalAtMostSum` | main.py:83 | the total is bounded by the sum of all per-frame counts |
| `Debounce.FirstFrameAccepted` | main.py:69-72 | a nonzero first frame is always accepted and its count is always part of the total |
| `Debounce.QuietFirstFrameAdmitsSecond` | main.py:59-82 | after a zero first frame the last accepted frame is still -1, so a nonzero frame 2 is accepted |
| `Video.VideoProcessing` | main.py:55-86 | the method returns `None` iff the video has no frame, and otherwise the debounced total of the per-frame counts, with the edges taken from the first frame only |
| `Video.VideoTotalBounded` | main.py:60-86 | the reported total of a non-empty video is at most the sum of every frame's collision count |
| `PyText.TrimStartShape` | main.py:97-100 | leading-whitespace removal, for either whitespace set (`strip()`'s or `int()`'s), drops exactly a whitespace prefix and stops at a non-space character |
| `PyText.TrimEndShape` | main.py:97-100 | trailing-whitespace removal, for either whitespace set, drops exactly a whitespace suffix and stops at a non-space character |
| `PyText.StripIsTrim` | main.py:97 | `strip()` returns a slice of the line whose outside is all whitespace and which neither starts nor ends with whitespace |
| `PyText.SplitPiecesSeparatorFree` | main.py:97 | no field produced by `split(",")` contains a comma |
| `PyText.JoinSplit` | main.py:97 | joining the fields of a split with the separator gives back the line |
| `PyText.SplitJoin` | main.py:97 | splitting comma-joined comma-free fields gives back the fields |
| `PyText.ParseShowInt` | main.py:100 | the model of `int()` reads back the decimal text of every integer (Python's own `int()` does so only below its digit cap, see Left out) |
| `GroundTruth.ClassifyLine` | main.py:97-100 | a line is a header iff its first field is `file`; an entry never has the name `file` |
| `GroundTruth.ClassifyFields` | main.py:98-100 | the fields give a header iff the first is `file`; an entry is named by the first field |
| `GroundTruth.TableErrors` | main.py:96-100 | reading fails iff some line is malformed (no second field, or not an integer), and the error names the first such line and its reason |
| `GroundTruth.FailureIsFinal` | main.py:96-100 | once a line has failed, later lines do not change the outcome |
| `GroundTruth.TableNames` | main.py:96-100 | on success the table's names are exactly the first fields of the entry lines |
| `GroundTruth.TableLastWins` | main.py:100 | on success each name maps to the count of its last entry line, so a later duplicate overwrites an earlier one |
| `GroundTruth.HeaderNotAName` | main.py:98-99 | the header field `file` is never a name in the table |
| `GroundTruth.ClassifyHeader` | main.py:98-99 | the line `file,hits` is skipped as a header |
| `GroundTruth.ClassifyWritten` | main.py:97-100 | a line `name,count` (name without commas, not `file`, not starting with whitespace) reads back as the entry (name, count) |
| `GroundTruth.ReadsWrittenLine` | main.py:95-100 | a header line followed by `name,count` reads back as the one-entry table {name: count} |
| `GroundTruth.SeparatorBeforeCountFails` | main.py:97-100 | a count field that starts with one of U+001C..U+001F fails as "not an integer": the line's `strip()` leaves the character inside the line, and `int()` does not skip it |
| `GroundTruth.ReadGroundTruth` | main.py:91-100 | the loop's result equals the table specification `GroundTruthOf`: the filled dictionary, or the first line's error where Python raises (a line with no count field, or with a count that is not an integer, including one edged by a character `int()` does not skip); it differs from Python on counts of more than 4300 digits and on counts in non-ASCII decimal digits, see Left out |

## Left out

- The OpenCV calls (`cvtColor`, `threshold`, `findContours`, `minEnclosingCircle`, `Canny`, `HoughLinesP`, main.py:18-22, 26, 33-36) are foreign library code. Their results are inputs: a frame is the list of segments and the list of circles they report.
- If the Hough transform finds no line, OpenCV's Python binding returns `None`, and `lines.any()` would then raise. That library behaviour is outside the model: "no lines" is an empty segment list, which keeps the defaults.
- Video capture and `cap.read()` (main.py:57, 62-64, 76-78) are I/O. A video is the finite list of frames that are read before the first failed read.
- Opening the results file and cutting it into lines (main.py:95-96) are I/O. The reader takes the lines as given.
- The driver loop over the videos, the prints, and `mean_absolute_error` (main.py:103-114) are left out. They are output and a foreign floating-point computation. The order of the dictionary's keys only matters to that loop, so the table is a Dafny `map` without order.
- Ball coordinates and radii are modelled as exact `real` numbers, not 32-bit floats. Segment coordinates are unbounded `int`s, not 32-bit integers. Rounding and overflow are not modelled.
- `PyText.ParseInt` has no limit on the number of digits. Recent Python versions (3.11 and later, and the 3.7.14, 3.8.14, 3.9.14 and 3.10.7 security releases) make `int()` raise ValueError on text of more than 4300 digits (`sys.get_int_max_str_digits()`). On such a count line `GroundTruthOf` reports success where the program would stop, and `ParseShowInt` holds for Python only for integers with at most 4300 digits. The cap depends on the Python version and on runtime settings, so it is not modelled.
- `GroundTruth.ReadGroundTruth`: through `PyText.ParseInt`, it differs from the program in two ways. It reads a count of more than 4300 digits where recent Python versions raise ValueError (see the line above). It stops with `NotAnInteger` on a count written in non-ASCII decimal digits, such as `a,٥`, which Python's `int()` reads as 5 (see the line below).
- `PyText.ParseInt` accepts ASCII digits only. Python's `int()` also accepts the decimal digits of other scripts. This matters only for results files written in such digits.
