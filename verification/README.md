# ecPlacer, modelled in Dafny

`ecPlacer.py` previews several live cameras side by side so that an operator
can line them up. Each camera view crops a rectangle around the frame
centre plus an offset. The operator picks a camera with `s`. Arrow keys pan
the picked camera's offset, `z` toggles a 2x zoom on it, and ESC quits.

This project models the integer core of that script:

- the camera record and its defaults;
- the crop-size setter, which clamps the size to the first frame and rounds it down to even;
- the crop rectangle that `camera.read` cuts from each frame, with and without zoom;
- start-up: which cameras are kept, how the screen width is divided among them, and the loop's initial state;
- the key loop, written as a pure `Step(state, key)` function and a `Run` over a key sequence.

Modules, one per concern:

| module | file | contents |
|---|---|---|
| `Wrappers` | wrappers.dfy | `Option` and `Result` |
| `Geometry` | geometry.dfy | `Vec`, `Dims`, `Rect`, and integer versions of `>>1<<1`, truncating division and round-half-to-even |
| `Cameras` | cameras.dfy | `Camera`, `NewCamera`, `SetCropSize`, `Center`, `CropSpan`, `CropRect`, `Read` |
| `Controls` | controls.dfy | `State`, `SelectNext`, `ToggleZoom`, `Move`, `Step`, `Run` and lemmas about key sequences |
| `Placer` | placer.dfy | `Acquire`, `Layout`, `Setup` and the worked scenarios |

How the floating-point code is stated with integers:

- `np.round(w/2 + offset)` rounds `(w + 2*offset) / 2` to the nearest integer, ties to even (`HalfRoundEven`). Odd frame sizes are therefore admitted.
- `np.int0` truncates toward zero (`TruncDiv`). It is applied to the exact quotients `(2*div*c - crop) / (2*div)` and `(div*topLeft + crop) / div`.
- `(x >> 1) << 1` on a Python integer floors to an even number, also for negatives. Dafny's `(x / 2) * 2` is Euclidean and gives the same result (`EvenFloor`).
- `int(screen_width / len(cameras))` is the truncated quotient. With no cameras, the script raises a division-by-zero error; the model returns `Failure(NoCameras)` instead.

The selection index `sel` is a `nat`, because the script only ever starts it at N, increments it or resets it to 0. The value N means "no camera selected". A state is `Valid` when `sel <= N` and camera `i` carries the selected flag exactly when `i == sel`.

Two details of the code that the model keeps as written:

- Arrow key 0, which the code's comment calls "up", adds (0, +1), so it moves the crop centre towards larger y. Key 1 ("down") adds (0, -1).
- The crop-size setter clamps each component to the frame first and then rounds down to even, so an odd frame width still gives an even crop.

## Model

| member | source | states |
|---|---|---|
| `Geometry.EvenFloor` | ecPlacer.py:52-53 | `(n >> 1) << 1` is the largest even number not above `n` |
| `Geometry.EvenFloorFixed` | ecPlacer.py:52-53 | even numbers are exactly the fixed points of the rounding, and rounding twice is rounding once |
| `Geometry.TruncDiv` | ecPlacer.py:67-68 | int conversion of a quotient: the remainder has the dividend's sign and is smaller than the divisor |
| `Geometry.TruncDivBounds` | ecPlacer.py:116 | for a non-negative width, N copies of `int(W/N)` fit in W, and N copies of the next integer do not |
| `Geometry.HalfRoundEven` | ecPlacer.py:65 | the rounded value is within half a unit of n/2, and a tie goes to the even neighbour |
| `Cameras.Div` | ecPlacer.py:62 | the crop divisor is 2 when zoomed and 1 otherwise |
| `Cameras.NewCamera` | ecPlacer.py:10-16 | a new camera has crop (0,0), offset (30,30), zoom off and selected off, and keeps its first frame |
| `Cameras.SetCropSize` | ecPlacer.py:49-54 | each component becomes even, at most the frame size and at most the request, and no larger even value meets both bounds; an even, in-bounds request is kept as is; nothing else in the camera changes |
| `Cameras.SetCropSizeIdempotent` | ecPlacer.py:49-54 | setting the crop to a size the setter produced leaves the camera unchanged |
| `Cameras.Center` | ecPlacer.py:60-65 | the rounded centre is within half a pixel of frame centre plus offset; it equals it exactly for even frame dimensions; a half-pixel tie (odd frame dimension) goes to the even neighbour |
| `Cameras.CropSpan` | ecPlacer.py:62-68 | along one axis, an even extent gives a span of `size / div`; unzoomed, the span is centred on the rounded centre; zoomed, its midpoint is within half a pixel of it |
| `Cameras.UnzoomedSpanTruncates` | ecPlacer.py:67-68 | unzoomed, the top-left coordinate is `c - size / 2` truncated toward zero, and the bottom-right is the top-left plus `size` |
| `Cameras.ZoomedSpanTruncates` | ecPlacer.py:67-68 | zoomed, the top-left coordinate is `c - size / 4` truncated toward zero, and the bottom-right is the top-left plus `size / 2` truncated toward zero |
| `Cameras.ZoomedSpanTopLeft` | ecPlacer.py:67 | zoomed, a size divisible by 4 gives top-left `c - size / 4` exactly; for size = 2 mod 4 the quarter falls on a half pixel and is truncated toward zero, giving `c - (size + 2) / 4` when `4c >= size` and `c - (size - 2) / 4` otherwise |
| `Cameras.CropRect` | ecPlacer.py:60-68 | for an even crop the rectangle measures `crop / div` on each axis; unzoomed, it is centred exactly on the rounded centre; zoomed, its midpoint is within half a pixel of that centre |
| `Cameras.UnzoomedTopLeft` | ecPlacer.py:65-67 | unzoomed, an even crop's top-left corner is the rounded centre minus half the crop |
| `Cameras.ZoomedTopLeft` | ecPlacer.py:62-67 | zoomed, the top-left corner is the rounded centre minus a quarter of the crop, with the half-pixel case truncated toward zero as above |
| `Cameras.ZoomedInsideUnzoomed` | ecPlacer.py:62-68 | for an even, non-negative crop, the zoomed rectangle lies inside the unzoomed one |
| `Cameras.Read` | ecPlacer.py:56-68 | a rectangle is produced exactly when the capture succeeds; for an even crop it measures `crop / div` on each axis and is centred on the captured frame's rounded centre plus offset (exactly unzoomed, within half a pixel zoomed) |
| `Cameras.ReadUsesCapturedFrame` | ecPlacer.py:59-68 | the rectangle depends on the frame just captured and not on the first frame or the selection flag |
| `Cameras.ZoomedReadInside` | ecPlacer.py:62-68 | for an even, non-negative crop, a zoomed read of a frame lies inside the unzoomed read of the same frame |
| `Controls.ArrowVec` | ecPlacer.py:145-149 | each arrow is a unit step along one axis; keys 0 and 1 are vertical; keys 0 and 3 point in the positive direction |
| `Controls.Opposite` | ecPlacer.py:146-148 | up/down and left/right are pairs of opposite unit vectors |
| `Controls.Reselect` | ecPlacer.py:134-135 | exactly camera `sel` carries the selected flag afterwards, nothing else in any camera changes, and any `sel` in 0..N gives a valid state |
| `Controls.ReselectTwice` | ecPlacer.py:134-135 | recomputing the flags twice is recomputing them once, for the second index |
| `Controls.SelectNext` | ecPlacer.py:132-135 | from `sel <= N`, `sel` becomes `(sel + 1) mod (N + 1)`; afterwards the state is valid; only the selection flags change |
| `Controls.ToggleZoom` | ecPlacer.py:141-143 | only the selected camera's zoom flips; with no camera selected nothing changes; validity is kept |
| `Controls.Move` | ecPlacer.py:145-149 | only the selected camera's offset moves, by the given vector; with no camera selected nothing changes; validity is kept |
| `Controls.Step` | ecPlacer.py:129-149 | ESC and only ESC ends the loop, with the state unchanged; unhandled keys change nothing; validity is kept; crops never change; only select-next touches cameras other than the selected one |
| `Controls.Run` | ecPlacer.py:122-149 | the loop ends exactly when ESC occurs among the keys; validity, the camera count and every crop are kept over any key sequence |
| `Controls.AtMostOneSelected` | ecPlacer.py:132-135 | in a valid state, two selected cameras are the same camera, and then `sel < N` |
| `Controls.NoneSelected` | ecPlacer.py:120 | in a valid state, no camera is selected exactly when `sel == N` |
| `Controls.RunAppend` | ecPlacer.py:122-149 | running `a + b` is running `a` and then `b`, unless `a` contains ESC |
| `Controls.SelectUp` | ecPlacer.py:132-135 | k select presses that stay within N advance `sel` by k |
| `Controls.SelectWrap` | ecPlacer.py:133 | from "none selected", select-next picks camera 0 |
| `Controls.SelectFromNone` | ecPlacer.py:132-135 | from "none selected", j + 1 presses pick camera j |
| `Controls.ReselectValid` | ecPlacer.py:134-135 | a valid state already carries the flags that select-next would set for its index |
| `Controls.SelectToNone` | ecPlacer.py:132-135 | from a valid state, N - sel presses reach "none selected" |
| `Controls.SelectThroughNone` | ecPlacer.py:132-135 | the presses up to "none" can be run first, and the rest from there |
| `Controls.CycleCloses` | ecPlacer.py:132-135 | from "none selected", sel + 1 presses give back the valid state with index sel |
| `Controls.SelectCycle` | ecPlacer.py:132-135 | N + 1 select presses from any valid state give back that state |
| `Controls.ToggleTwice` | ecPlacer.py:141-143 | two zoom toggles restore the state |
| `Controls.ZoomRepeat` | ecPlacer.py:141-143 | k zoom presses equal k mod 2 toggles |
| `Controls.MoveAdd` | ecPlacer.py:149 | two moves add up to one, and a zero move changes nothing |
| `Controls.ArrowUndo` | ecPlacer.py:145-149 | an arrow followed by its opposite restores the state |
| `Controls.ArrowSumSameKey` | ecPlacer.py:145-149 | k presses of one arrow add up to its unit vector added k times |
| `Controls.ArrowSumSame` | ecPlacer.py:145-149 | k presses of one arrow add up to k times its unit vector |
| `Controls.ArrowRun` | ecPlacer.py:145-149 | a run of arrow keys equals one move by their total displacement |
| `Controls.ArrowSumCounts` | ecPlacer.py:146-148 | the total displacement is (rights - lefts, ups - downs) |
| `Controls.ArrowsPermuted` | ecPlacer.py:145 | a reordering of arrow presses contains only arrow presses |
| `Controls.ArrowSumPermuted` | ecPlacer.py:145-149 | a reordering of arrow presses has the same total displacement |
| `Controls.ArrowsCommute` | ecPlacer.py:145-149 | any reordering of the same arrow presses ends in the same state |
| `Placer.Acquire` | ecPlacer.py:100-113 | only the cameras that opened and delivered a first frame are kept, each freshly constructed from that frame; when every device delivers, all are kept, in order |
| `Placer.AcquireCount` | ecPlacer.py:102-110 | exactly one camera is kept per device that delivered a first frame |
| `Placer.AcquireFirst` | ecPlacer.py:102-110 | the first device's camera, if it delivered, comes before the cameras of the remaining devices |
| `Placer.AcquireInOrder` | ecPlacer.py:102-110 | the device at index i that delivered becomes camera i minus the number of failed devices before it, so the kept cameras are the delivering devices in device order |
| `Placer.Layout` | ecPlacer.py:115-118 | layout fails exactly when there are no cameras; otherwise the height is the screen height, and the width is the truncated share of the screen width |
| `Placer.Setup` | ecPlacer.py:100-120 | set-up fails exactly when no device delivers a frame; otherwise the state is valid with none selected (`sel == N`); its cameras are the acquired ones in order, each a fresh camera whose crop is set to the laid-out size; every crop is even, fits its frame and the laid-out size, is the largest such even size, and starts at the initial offset with zoom off |
| `Placer.SetupFitsScreen` | ecPlacer.py:115-118 | the N crops laid side by side fit in the screen width |
| `Placer.TwoCamerasLayout` | ecPlacer.py:115-118 | two 2560x1440 cameras on a 1920x1080 screen each get a 960x1080 crop |
| `Placer.ShortFrameLayout` | ecPlacer.py:49-54 | a 720-pixel-high frame clamps the 1080 requested height to 720 |
| `Placer.MoveRight` | ecPlacer.py:145-149 | k "right" presses move the selected camera k pixels along x |
| `Placer.SelectAndMoveRight` | ecPlacer.py:129-149 | from "none selected", `s` then k "right" presses select camera 0 and move it k pixels along x |
| `Placer.SetupSelectMoveRight` | ecPlacer.py:120-149 | after any successful set-up, `s` and k "right" presses select camera 0 and take it from (30,30) to (30+k,30) |

## Left out

- Device I/O is not modelled: `cv2.VideoCapture` open, set, read and release, and the 2560x1440 capture request. Each device's outcome is a parameter: the first frame's size, or none.
- Display I/O is not modelled: the window, `imshow`, `waitKey` and the empty mouse callback. Polled key codes are a parameter of `Run`.
- The image itself is not modelled. This covers numpy slicing, the `cv2.resize` used for zoom, and the crosshair and border drawing (lines 70-81). Only the crop rectangle's coordinates are modelled. The size of the produced image depends on numpy's clamping and wrapping of out-of-range slice bounds, which is foreign library behaviour.
- `np.concatenate` of the frames, including a failed read that yields `None` (lines 123-127), is not modelled. `Cameras.Read` does return `None` for a failed capture.
- Floating-point rounding is not modelled. `np.round`, `np.int0` and `int(screen_width / N)` are applied to the exact rational values. These agree with the floats as long as every frame size, offset and crop size is below 2^50 in magnitude, so that the quarter-pixel values of the zoomed crop are exact in a double.
- Wrap-around of the numpy int64 offsets after `np.add` is not modelled. Offsets are unbounded integers.
- Teardown (lines 151-155) releases devices and closes windows, and is not modelled.
- The property getters and setters (lines 21-47) are plain field access, so they have no separate members.
- The fullscreen toggle on `f` is commented out in the source, so it is not modelled.
