/** Start-up of `ecPlacer.py`: acquiring the cameras that open and deliver
    a first frame, dividing the screen width among them, and the initial
    state of the keyboard loop. */
module Placer {

  import opened Wrappers
  import opened Geometry
  import opened Cameras
  import opened Controls

  /** The target display resolution. */
  const Screen := Vec(1920, 1080)

  /** Set-up fails when no camera could be acquired: the layout divides
      the screen width by the camera count. */
  datatype SetupError = NoCameras

  /** The cameras kept at start-up, in device order. `sources[i]` is the
      first frame of device i, or None when it did not open or its first
      read failed. */
  function Acquire(sources: seq<Option<Dims>>): (cams: seq<Camera>)
    ensures |cams| <= |sources|
    ensures |cams| == 0 <==> forall i :: 0 <= i < |sources| ==> sources[i].None?
    ensures forall i :: 0 <= i < |cams| ==> cams[i] == NewCamera(cams[i].first)
    ensures forall i :: 0 <= i < |cams| ==> Some(cams[i].first) in sources
    ensures (forall i :: 0 <= i < |sources| ==> sources[i].Some?) ==>
              |cams| == |sources| && forall i :: 0 <= i < |cams| ==> Some(cams[i].first) == sources[i]
    decreases |sources|
  {
    if |sources| == 0 then []
    else
      var rest := Acquire(sources[1..]);
      match sources[0]
      case None => rest
      case Some(d) =>
        var cams := [NewCamera(d)] + rest;
        assert forall i :: 0 < i < |cams| ==> cams[i] == rest[i - 1];
        cams
  }

  /** One camera is kept per device that delivered a first frame. */
  lemma {:induction false} AcquireCount(sources: seq<Option<Dims>>)
    ensures |Acquire(sources)| == |sources| - multiset(sources)[None]
    decreases |sources|
  {
    if |sources| > 0 {
      AcquireCount(sources[1..]);
      assert sources == [sources[0]] + sources[1..];
      assert multiset(sources) == multiset{sources[0]} + multiset(sources[1..]);
    }
  }

  /** Acquire on a non-empty device list: the first device's camera, if
      any, followed by the cameras of the rest. */
  lemma AcquireFirst(sources: seq<Option<Dims>>)
    requires |sources| > 0
    ensures Acquire(sources) == if sources[0].None? then Acquire(sources[1..])
                                else [NewCamera(sources[0].value)] + Acquire(sources[1..])
  {
  }

  /** The failed devices among the first i are the first device, if it
      failed, and the failed devices among the next i - 1. */
  lemma FailuresBefore(sources: seq<Option<Dims>>, i: int)
    requires 0 < i <= |sources|
    ensures multiset(sources[..i])[None]
            == (if sources[0].None? then 1 else 0) + multiset(sources[1..][..i - 1])[None]
  {
    assert sources[..i] == [sources[0]] + sources[1..][..i - 1];
  }

  /** The device that delivered a frame as the i-th one becomes camera
      i - (number of failed devices before it): the kept cameras are the
      delivering devices, in device order. */
  lemma {:induction false} AcquireInOrder(sources: seq<Option<Dims>>, i: int)
    requires 0 <= i < |sources| && sources[i].Some?
    ensures var j := i - multiset(sources[..i])[None];
            0 <= j < |Acquire(sources)| && Acquire(sources)[j] == NewCamera(sources[i].value)
    decreases i
  {
    AcquireFirst(sources);
    if i == 0 {
      assert sources[..0] == [];
    } else {
      var tail := sources[1..];
      AcquireInOrder(tail, i - 1);
      FailuresBefore(sources, i);
      assert tail[i - 1] == sources[i];
    }
  }

  /** The crop size requested for each of n cameras: the screen width
      divided by n and truncated, and the full screen height. */
  function Layout(screen: Vec, n: nat): (r: Result<Vec, SetupError>)
    ensures r.Failure? <==> n == 0
    ensures r.Success? ==> r.value.y == screen.y
    ensures r.Success? && screen.x >= 0 ==> 0 <= r.value.x * n <= screen.x < (r.value.x + 1) * n
  {
    if n == 0 then Failure(NoCameras)
    else
      var w := TruncDiv(screen.x, n);
      assert screen.x >= 0 ==> 0 <= w * n <= screen.x < (w + 1) * n by {
        if screen.x >= 0 {
          TruncDivBounds(screen.x, n);
        }
      }
      Success(Vec(w, screen.y))
  }

  /** Acquisition, layout and the loop's initial state: every camera gets
      the laid-out crop size and no camera is selected (sel == N). */
  function Setup(sources: seq<Option<Dims>>, screen: Vec): (r: Result<State, SetupError>)
    ensures r.Failure? <==> forall i :: 0 <= i < |sources| ==> sources[i].None?
    ensures r.Success? ==> r.value.Valid() && r.value.sel == |r.value.cams| > 0
    ensures r.Success? ==> |r.value.cams| <= |sources|
    // the acquired cameras, in order, each fresh with the laid-out crop size
    ensures r.Success? ==> |r.value.cams| == |Acquire(sources)|
    ensures r.Success? ==> forall i :: 0 <= i < |r.value.cams| ==>
              var c := r.value.cams[i];
              && c.first == Acquire(sources)[i].first
              && c == SetCropSize(NewCamera(c.first), Layout(screen, |r.value.cams|).value)
    // and that size is the largest even one within both the frame and the layout
    ensures r.Success? ==> forall i :: 0 <= i < |r.value.cams| ==>
              var c := r.value.cams[i];
              && (c.crop.x + 2 > Layout(screen, |r.value.cams|).value.x || c.crop.x + 2 > c.first.width)
              && (c.crop.y + 2 > screen.y || c.crop.y + 2 > c.first.height)
    ensures r.Success? ==> forall i :: 0 <= i < |r.value.cams| ==>
              var c := r.value.cams[i];
              && IsEven(c.crop.x) && IsEven(c.crop.y)
              && c.crop.x <= c.first.width && c.crop.y <= c.first.height
              && c.crop.x <= Layout(screen, |r.value.cams|).value.x
              && c.crop.y <= screen.y
              && c.offset == InitialOffset && !c.zoom && !c.selected
  {
    var cams := Acquire(sources);
    match Layout(screen, |cams|)
    case Failure(e) => Failure(e)
    case Success(req) =>
      Success(State(|cams|, seq(|cams|, i requires 0 <= i < |cams| => SetCropSize(cams[i], req))))
  }

  /** The crops laid out side by side fit in the screen width. */
  lemma SetupFitsScreen(sources: seq<Option<Dims>>, screen: Vec)
    requires screen.x >= 0
    requires Setup(sources, screen).Success?
    ensures var s := Setup(sources, screen).value;
            forall i :: 0 <= i < |s.cams| ==> s.cams[i].crop.x * |s.cams| <= screen.x
  {
    var s := Setup(sources, screen).value;
    var w := Layout(screen, |s.cams|).value.x;
    forall i | 0 <= i < |s.cams|
      ensures s.cams[i].crop.x * |s.cams| <= screen.x
    {
      MulMonotone(s.cams[i].crop.x, w, |s.cams|);
    }
  }

  /** Two cameras on a 1920x1080 screen each get a 960x1080 crop. */
  lemma TwoCamerasLayout()
    ensures var r := Setup([Some(Dims(2560, 1440)), Some(Dims(2560, 1440))], Screen);
            r.Success? && |r.value.cams| == 2
            && r.value.cams[0].crop == r.value.cams[1].crop == Vec(960, 1080)
  {
  }

  /** A crop taller than the camera's frame is clamped to the frame height. */
  lemma ShortFrameLayout()
    ensures var r := Setup([Some(Dims(1280, 720)), Some(Dims(1280, 720))], Screen);
            r.Success? && r.value.cams[0].crop == Vec(960, 720)
  {
  }

  /** k presses of "right" move the selected camera k pixels along x. */
  lemma MoveRight(t: State, rights: seq<int>)
    requires forall i :: 0 <= i < |rights| ==> rights[i] == 3
    ensures Run(t, rights) == Continue(Move(t, Vec(|rights|, 0)))
  {
    ArrowSumSame(rights, 3);
    assert ArrowVec(3) == Vec(1, 0);
    assert ArrowSum(rights) == Vec(|rights|, 0);
    ArrowRun(t, rights);
  }

  /** From "none selected", selecting camera 0 and pressing "right" k
      times moves camera 0 by k pixels along x. */
  lemma SelectAndMoveRight(s: State, rights: seq<int>)
    requires s.sel == |s.cams| > 0
    requires forall i :: 0 <= i < |rights| ==> rights[i] == 3
    ensures var n := Run(s, [KeySelect] + rights);
            && n.Continue? && n.state.sel == 0
            && n.state.cams[0].offset == s.cams[0].offset.Add(Vec(|rights|, 0))
  {
    var t := SelectNext(s);
    assert t.sel == 0 && t.cams[0].offset == s.cams[0].offset;
    assert Run(s, [KeySelect] + rights) == Run(t, rights) by {
      RunAppend(s, [KeySelect], rights);
      assert [KeySelect][1..] == [];
      assert Run(s, [KeySelect]) == Continue(t);
    }
    MoveRight(t, rights);
  }

  /** After any successful set-up, "s" and k "right" presses move camera 0
      from its initial offset (30, 30) to (30 + k, 30). */
  lemma SetupSelectMoveRight(sources: seq<Option<Dims>>, screen: Vec, rights: seq<int>)
    requires Setup(sources, screen).Success?
    requires forall i :: 0 <= i < |rights| ==> rights[i] == 3
    ensures var n := Run(Setup(sources, screen).value, [KeySelect] + rights);
            && n.Continue? && n.state.sel == 0
            && n.state.cams[0].offset == Vec(30 + |rights|, 30)
  {
    var s := Setup(sources, screen).value;
    assert s.cams[0].offset == InitialOffset;
    SelectAndMoveRight(s, rights);
  }
}
