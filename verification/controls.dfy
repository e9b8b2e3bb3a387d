/** The keyboard loop of `ecPlacer.py` as a pure step function over the
    selection index and the camera records. `sel` ranges over 0..N, where
    N (the number of cameras) means that no camera is selected. */
module Controls {

  import opened Geometry
  import opened Cameras

  /** Key codes as returned by the key poll (-1 when no key was pressed). */
  const KeyEsc := 27
  const KeySelect := 's' as int
  const KeyZoom := 'z' as int

  /** Arrow key codes: 0 up, 1 down, 2 left, 3 right. */
  predicate IsArrow(key: int) {
    0 <= key < 4
  }

  /** The keys the loop reacts to. */
  predicate IsHandled(key: int) {
    key == KeyEsc || key == KeySelect || key == KeyZoom || IsArrow(key)
  }

  /** The offset change of an arrow key. "Up" adds +1 to y and "down" -1,
      the opposite of the usual screen convention. */
  function ArrowVec(key: int): (v: Vec)
    requires IsArrow(key)
    // a unit step along exactly one axis
    ensures -1 <= v.x <= 1 && -1 <= v.y <= 1 && (v.x == 0 <==> v.y != 0)
    ensures v.x == 0 <==> key < 2
    ensures v.x + v.y == 1 <==> key == 0 || key == 3
  {
    Vec(if key == 3 then 1 else if key == 2 then -1 else 0,
        if key == 0 then 1 else if key == 1 then -1 else 0)
  }

  /** The arrow key pointing the other way: up/down and left/right. */
  function Opposite(key: int): (k: int)
    requires IsArrow(key)
    ensures IsArrow(k) && k != key
    ensures ArrowVec(k) == ArrowVec(key).Neg()
  {
    if key % 2 == 0 then key + 1 else key - 1
  }

  /** The loop's state: the selection index and the cameras. */
  datatype State = State(sel: nat, cams: seq<Camera>) {

    /** `sel` is in 0..N and camera i is flagged selected exactly when i == sel. */
    predicate Valid() {
      && sel <= |cams|
      && forall i :: 0 <= i < |cams| ==> (cams[i].selected <==> i == sel)
    }
  }

  /** What the loop does after a key: go on with a new state, or leave the
      loop (ESC) with the state it had. */
  datatype Next = Continue(state: State) | Stop(state: State)

  /** The cameras of `s` with the selection flags recomputed for index `sel`. */
  function Reselect(s: State, sel: nat): (r: State)
    ensures r.sel == sel && |r.cams| == |s.cams|
    ensures forall i :: 0 <= i < |s.cams| ==>
              r.cams[i].selected == (i == sel) && r.cams[i] == s.cams[i].(selected := i == sel)
    // any index in 0..N gives a valid state, with at most camera sel flagged
    ensures sel <= |s.cams| ==> r.Valid()
  {
    State(sel, seq(|s.cams|, i requires 0 <= i < |s.cams| => s.cams[i].(selected := i == sel)))
  }

  /** Select-next ('s'): advance `sel`, wrapping from N back to 0, and set
      each camera's flag to whether it is the newly selected one. */
  function SelectNext(s: State): (r: State)
    ensures r.Valid()
    ensures |r.cams| == |s.cams|
    ensures s.sel <= |s.cams| ==> r.sel == (s.sel + 1) % (|s.cams| + 1)
    // only the selection flags change
    ensures forall i :: 0 <= i < |s.cams| ==> r.cams[i] == s.cams[i].(selected := r.cams[i].selected)
  {
    var sel := if s.sel < |s.cams| then s.sel + 1 else 0;
    assert s.sel <= |s.cams| ==> sel == (s.sel + 1) % (|s.cams| + 1) by {
      if s.sel == |s.cams| {
        assert (s.sel + 1) % (s.sel + 1) == 0;
      }
    }
    Reselect(s, sel)
  }

  /** Toggle-zoom ('z'): flip the zoom flag of the selected camera, if any. */
  function ToggleZoom(s: State): (r: State)
    ensures r.sel == s.sel && |r.cams| == |s.cams|
    ensures s.sel < |s.cams| ==>
              && r.cams[s.sel].zoom == !s.cams[s.sel].zoom
              && r.cams[s.sel] == s.cams[s.sel].(zoom := r.cams[s.sel].zoom)
    ensures forall i :: 0 <= i < |s.cams| && i != s.sel ==> r.cams[i] == s.cams[i]
    ensures s.sel >= |s.cams| ==> r == s
    ensures s.Valid() ==> r.Valid()
  {
    if s.sel < |s.cams| then
      var c := s.cams[s.sel];
      s.(cams := s.cams[s.sel := c.(zoom := !c.zoom)])
    else
      s
  }

  /** Arrow move: add `d` to the selected camera's offset, if any. */
  function Move(s: State, d: Vec): (r: State)
    ensures r.sel == s.sel && |r.cams| == |s.cams|
    ensures s.sel < |s.cams| ==>
              && r.cams[s.sel].offset == s.cams[s.sel].offset.Add(d)
              && r.cams[s.sel] == s.cams[s.sel].(offset := r.cams[s.sel].offset)
    ensures forall i :: 0 <= i < |s.cams| && i != s.sel ==> r.cams[i] == s.cams[i]
    ensures s.sel >= |s.cams| ==> r == s
    ensures s.Valid() ==> r.Valid()
  {
    if s.sel < |s.cams| then
      var c := s.cams[s.sel];
      s.(cams := s.cams[s.sel := c.(offset := c.offset.Add(d))])
    else
      s
  }

  /** One pass of the key dispatch. */
  function Step(s: State, key: int): (r: Next)
    ensures r.Stop? <==> key == KeyEsc
    ensures r.Stop? ==> r.state == s
    ensures !IsHandled(key) ==> r == Continue(s)
    ensures s.Valid() ==> r.state.Valid()
    ensures |r.state.cams| == |s.cams|
    // crop sizes and first frames are never touched by a key
    ensures forall i :: 0 <= i < |s.cams| ==>
              r.state.cams[i].crop == s.cams[i].crop && r.state.cams[i].first == s.cams[i].first
    // apart from select-next, only the selected camera can change
    ensures key != KeySelect ==> r.state.sel == s.sel
    ensures key != KeySelect ==>
              forall i :: 0 <= i < |s.cams| && i != s.sel ==> r.state.cams[i] == s.cams[i]
  {
    if key == KeyEsc then Stop(s)
    else if key == KeySelect then Continue(SelectNext(s))
    else if key == KeyZoom then Continue(ToggleZoom(s))
    else if IsArrow(key) then Continue(Move(s, ArrowVec(key)))
    else Continue(s)
  }

  /** The loop over a sequence of polled keys, up to ESC or the last key. */
  function Run(s: State, keys: seq<int>): (r: Next)
    ensures r.Stop? <==> KeyEsc in keys
    ensures s.Valid() ==> r.state.Valid()
    ensures |r.state.cams| == |s.cams|
    ensures forall i :: 0 <= i < |s.cams| ==>
              r.state.cams[i].crop == s.cams[i].crop && r.state.cams[i].first == s.cams[i].first
    decreases |keys|
  {
    if |keys| == 0 then Continue(s)
    else
      match Step(s, keys[0])
      case Stop(t) => Stop(t)
      case Continue(t) => Run(t, keys[1..])
  }

  /** `k` presses of the same key. */
  function Repeat(key: int, k: nat): (keys: seq<int>)
    ensures |keys| == k
    ensures forall i :: 0 <= i < k ==> keys[i] == key
  {
    seq(k, _ => key)
  }

  /** In a valid state at most one camera is selected, and none when sel == N. */
  lemma AtMostOneSelected(s: State, i: int, j: int)
    requires s.Valid()
    requires 0 <= i < |s.cams| && 0 <= j < |s.cams|
    requires s.cams[i].selected && s.cams[j].selected
    ensures i == j && s.sel < |s.cams|
  {
  }

  /** In a valid state no camera is selected exactly when sel == N. */
  lemma NoneSelected(s: State)
    requires s.Valid()
    ensures (forall i :: 0 <= i < |s.cams| ==> !s.cams[i].selected) <==> s.sel == |s.cams|
  {
    if s.sel < |s.cams| {
      assert s.cams[s.sel].selected;
    }
  }

  /** Recomputing the selection flags twice keeps only the second index. */
  lemma ReselectTwice(s: State, a: nat, b: nat)
    ensures Reselect(Reselect(s, a), b) == Reselect(s, b)
  {
  }

  /** Running `a` then `b` is running `a + b`, unless `a` hit ESC. */
  lemma {:induction false} RunAppend(s: State, a: seq<int>, b: seq<int>)
    ensures Run(s, a + b) == (match Run(s, a)
                              case Stop(t) => Stop(t)
                              case Continue(t) => Run(t, b))
    decreases |a|
  {
    if |a| == 0 {
      assert a + b == b;
    } else {
      assert (a + b)[0] == a[0];
      assert (a + b)[1..] == a[1..] + b;
      match Step(s, a[0])
      case Stop(t) =>
      case Continue(t) => RunAppend(t, a[1..], b);
    }
  }

  /** k select-next presses that do not reach past N advance `sel` by k. */
  lemma {:induction false} SelectUp(s: State, k: nat)
    requires s.sel + k <= |s.cams|
    ensures Run(s, Repeat(KeySelect, k)) == Continue(if k == 0 then s else Reselect(s, s.sel + k))
    decreases k
  {
    var keys := Repeat(KeySelect, k);
    if k > 0 {
      var t := SelectNext(s);
      assert t == Reselect(s, s.sel + 1);
      assert Run(s, keys) == Run(t, keys[1..]);
      assert keys[1..] == Repeat(KeySelect, k - 1);
      SelectUp(t, k - 1);
      ReselectTwice(s, s.sel + 1, s.sel + k);
    }
  }

  /** Presses of one key can be split into two runs. */
  lemma RepeatSplit(key: int, a: nat, b: nat)
    ensures Repeat(key, a + b) == Repeat(key, a) + Repeat(key, b)
  {
  }

  /** From "none selected", one select-next press selects camera 0. */
  lemma SelectWrap(s: State)
    requires s.sel == |s.cams|
    ensures Run(s, [KeySelect]) == Continue(Reselect(s, 0))
  {
  }

  /** From "none selected", j + 1 presses wrap to camera 0 and go on to camera j. */
  lemma SelectFromNone(s: State, j: nat)
    requires s.sel == |s.cams| && j <= |s.cams|
    ensures Run(s, Repeat(KeySelect, j + 1)) == Continue(Reselect(s, j))
  {
    RepeatSplit(KeySelect, 1, j);
    assert Repeat(KeySelect, 1) == [KeySelect];
    RunAppend(s, [KeySelect], Repeat(KeySelect, j));
    SelectWrap(s);
    SelectUp(Reselect(s, 0), j);
    ReselectTwice(s, 0, j);
  }

  /** A valid state is determined by its index: its flags are the recomputed ones. */
  lemma ReselectValid(s: State)
    requires s.Valid()
    ensures Reselect(s, s.sel) == s
  {
  }

  /** From a valid state, select-next presses up to N reach "none selected". */
  lemma SelectToNone(s: State)
    requires s.Valid()
    ensures Run(s, Repeat(KeySelect, |s.cams| - s.sel)) == Continue(Reselect(s, |s.cams|))
  {
    SelectUp(s, |s.cams| - s.sel);
    if s.sel == |s.cams| {
      ReselectValid(s);
    }
  }

  /** N + 1 select-next presses from a valid state give back that state:
      selection runs through the remaining cameras, "none", and wraps to 0. */
  lemma SelectCycle(s: State)
    requires s.Valid()
    ensures Run(s, Repeat(KeySelect, |s.cams| + 1)) == Continue(s)
  {
    var n := |s.cams|;
    var up, rest := Repeat(KeySelect, n - s.sel), Repeat(KeySelect, s.sel + 1);
    RepeatSplit(KeySelect, n - s.sel, s.sel + 1);
    SelectThroughNone(s, up, rest);
    CycleCloses(s);
  }

  /** The first part of the cycle: select-next up to "none selected". */
  lemma SelectThroughNone(s: State, up: seq<int>, rest: seq<int>)
    requires s.Valid()
    requires up == Repeat(KeySelect, |s.cams| - s.sel) && rest == Repeat(KeySelect, s.sel + 1)
    ensures Run(s, up + rest) == Run(Reselect(s, |s.cams|), rest)
  {
    RunAppend(s, up, rest);
    SelectToNone(s);
  }

  /** The second part of the cycle: from "none" back to the starting index. */
  lemma CycleCloses(s: State)
    requires s.Valid()
    ensures Run(Reselect(s, |s.cams|), Repeat(KeySelect, s.sel + 1)) == Continue(s)
  {
    SelectFromNone(Reselect(s, |s.cams|), s.sel);
    ReselectTwice(s, |s.cams|, s.sel);
    ReselectValid(s);
  }

  /** Toggling zoom twice restores the state. */
  lemma ToggleTwice(s: State)
    ensures ToggleZoom(ToggleZoom(s)) == s
  {
  }

  /** k toggle-zoom presses flip the selected camera's zoom k mod 2 times. */
  lemma {:induction false} ZoomRepeat(s: State, k: nat)
    ensures Run(s, Repeat(KeyZoom, k)) == Continue(if k % 2 == 0 then s else ToggleZoom(s))
    decreases k
  {
    if k > 0 {
      var keys := Repeat(KeyZoom, k);
      assert keys[1..] == Repeat(KeyZoom, k - 1);
      ZoomRepeat(ToggleZoom(s), k - 1);
      ToggleTwice(s);
    }
  }

  /** Two moves add up, and a zero move does nothing. */
  lemma MoveAdd(s: State, a: Vec, b: Vec)
    ensures Move(Move(s, a), b) == Move(s, a.Add(b))
    ensures Move(s, Zero) == s
  {
  }

  /** An arrow followed by its opposite returns the state it started from. */
  lemma ArrowUndo(s: State, key: int)
    requires IsArrow(key)
    ensures Run(s, [key, Opposite(key)]) == Continue(s)
  {
    var keys := [key, Opposite(key)];
    var t := Move(s, ArrowVec(key));
    assert Step(s, key) == Continue(t);
    assert Run(s, keys) == Run(t, keys[1..]);
    assert keys[1..] == [Opposite(key)];
    var u := Move(t, ArrowVec(Opposite(key)));
    assert Step(t, Opposite(key)) == Continue(u);
    assert Run(t, [Opposite(key)]) == Run(u, []);
    MoveAdd(s, ArrowVec(key), ArrowVec(Opposite(key)));
    MoveAdd(s, Zero, Zero);
  }

  /** How often `key` occurs in `keys`. */
  function Count(keys: seq<int>, key: int): (n: int) {
    multiset(keys)[key]
  }

  predicate AllArrows(keys: seq<int>) {
    forall i :: 0 <= i < |keys| ==> IsArrow(keys[i])
  }

  /** The total displacement of a sequence of arrow keys. */
  function ArrowSum(keys: seq<int>): (v: Vec)
    requires AllArrows(keys)
  {
    if |keys| == 0 then Zero else ArrowVec(keys[0]).Add(ArrowSum(keys[1..]))
  }

  /** v added to itself k times. */
  function Scale(v: Vec, k: nat): (r: Vec)
    decreases k
  {
    if k == 0 then Zero else v.Add(Scale(v, k - 1))
  }

  /** Repeated addition is multiplication, component by component. */
  lemma {:induction false} ScaleIsProduct(v: Vec, k: nat)
    ensures Scale(v, k) == Vec(k * v.x, k * v.y)
    decreases k
  {
    if k > 0 {
      ScaleIsProduct(v, k - 1);
      assert k * v.x == v.x + (k - 1) * v.x;
      assert k * v.y == v.y + (k - 1) * v.y;
    }
  }

  /** k presses of one arrow key add up to its unit vector added k times. */
  lemma {:induction false} ArrowSumSameKey(keys: seq<int>, key: int)
    requires IsArrow(key)
    requires forall i :: 0 <= i < |keys| ==> keys[i] == key
    ensures AllArrows(keys)
    ensures ArrowSum(keys) == Scale(ArrowVec(key), |keys|)
    decreases |keys|
  {
    if |keys| > 0 {
      var v, rest := ArrowVec(key), keys[1..];
      assert forall i :: 0 <= i < |rest| ==> rest[i] == key by {
        forall i | 0 <= i < |rest| ensures rest[i] == key {
          assert rest[i] == keys[i + 1];
        }
      }
      ArrowSumSameKey(rest, key);
      assert keys[0] == key;
      assert AllArrows(keys) by {
        forall i | 0 <= i < |keys| ensures IsArrow(keys[i]) {
          assert keys[i] == key;
        }
      }
      calc {
        ArrowSum(keys);
        ArrowVec(keys[0]).Add(ArrowSum(rest));
        v.Add(Scale(v, |rest|));
        Scale(v, |keys|);
      }
    }
  }

  /** Pressing one arrow key k times moves k times its unit vector. */
  lemma ArrowSumSame(keys: seq<int>, key: int)
    requires IsArrow(key)
    requires forall i :: 0 <= i < |keys| ==> keys[i] == key
    ensures AllArrows(keys)
    ensures ArrowSum(keys) == Vec(|keys| * ArrowVec(key).x, |keys| * ArrowVec(key).y)
  {
    ArrowSumSameKey(keys, key);
    ScaleIsProduct(ArrowVec(key), |keys|);
  }

  /** A run of arrow keys is one move by their total displacement. */
  lemma {:induction false} ArrowRun(s: State, keys: seq<int>)
    requires AllArrows(keys)
    ensures Run(s, keys) == Continue(Move(s, ArrowSum(keys)))
    decreases |keys|
  {
    if |keys| == 0 {
      MoveAdd(s, Zero, Zero);
    } else {
      var t := Move(s, ArrowVec(keys[0]));
      ArrowRun(t, keys[1..]);
      MoveAdd(s, ArrowVec(keys[0]), ArrowSum(keys[1..]));
    }
  }

  /** The total displacement counts rights minus lefts and ups minus downs. */
  lemma {:induction false} ArrowSumCounts(keys: seq<int>)
    requires AllArrows(keys)
    ensures ArrowSum(keys) == Vec(Count(keys, 3) - Count(keys, 2), Count(keys, 0) - Count(keys, 1))
  {
    if |keys| > 0 {
      assert keys == [keys[0]] + keys[1..];
      assert multiset(keys) == multiset{keys[0]} + multiset(keys[1..]);
      ArrowSumCounts(keys[1..]);
    }
  }

  /** A reordering of arrow presses is made of arrow presses. */
  lemma ArrowsPermuted(a: seq<int>, b: seq<int>)
    requires AllArrows(a) && multiset(a) == multiset(b)
    ensures AllArrows(b)
  {
    forall i | 0 <= i < |b|
      ensures IsArrow(b[i])
    {
      assert b[i] in multiset(b);
      var j :| 0 <= j < |a| && a[j] == b[i];
    }
  }

  /** Reordering arrow presses keeps their total displacement. */
  lemma ArrowSumPermuted(a: seq<int>, b: seq<int>)
    requires AllArrows(a) && multiset(a) == multiset(b)
    ensures AllArrows(b)
    ensures ArrowSum(a) == ArrowSum(b)
  {
    ArrowsPermuted(a, b);
    ArrowSumCounts(a);
    ArrowSumCounts(b);
  }

  /** Arrow moves commute: any reordering of the same arrow presses ends
      in the same state. */
  lemma ArrowsCommute(s: State, a: seq<int>, b: seq<int>)
    requires AllArrows(a) && multiset(a) == multiset(b)
    ensures AllArrows(b)
    ensures Run(s, a) == Run(s, b)
  {
    ArrowSumPermuted(a, b);
    ArrowRun(s, a);
    ArrowRun(s, b);
  }
}
