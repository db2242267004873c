/** The particle bookkeeping of the `Particles` component: the list of
    circles that `initCanvas` fills, `drawCircle` appends to, and `animate`
    walks once per frame, recycling each circle that has left the canvas.
    The drawing itself and the floating-point motion are not modelled: the
    per-frame motion of one circle, which reads that circle's own fields and
    the pointer position, is a parameter `move`, and the random
    circles `circleParams` would produce are a parameter `spawn` (the k-th
    fresh circle). */
module Particles {

  /** One circle as `circleParams` builds it: position, the pointer-induced
      offset, radius, current and target opacity, own drift and magnetism.
      The model works on integers; only the position, offset and radius take
      part in the bookkeeping, the other fields are read by `move`. */
  datatype Circle = Circle(x: int, y: int, translateX: int, translateY: int, size: int,
                           alpha: int, targetAlpha: int, dx: int, dy: int, magnetism: int)

  /** The test `animate` applies after moving a circle: it has left the
      canvas by more than its radius on some side. The offset is not part
      of the test. */
  predicate OutOfBounds(c: Circle, w: int, h: int) {
    c.x < -c.size || c.x > w + c.size || c.y < -c.size || c.y > h + c.size
  }

  /** The number of passes of `for (let i = 0; i < quantity; i++)`. */
  function LoopCount(quantity: int): (n: nat)
    ensures quantity >= 0 ==> n == quantity
    ensures quantity < 0 ==> n == 0
  {
    if quantity > 0 then quantity else 0
  }

  /** The first `n` fresh circles. */
  function Spawned(spawn: nat -> Circle, n: nat): (cs: seq<Circle>)
    ensures |cs| == n && forall i :: 0 <= i < n ==> cs[i] == spawn(i)
  {
    seq(n, i requires 0 <= i => spawn(i))
  }

  /** `circles.splice(i, 1)`. */
  function RemoveAt(cs: seq<Circle>, i: nat): (r: seq<Circle>)
    requires i < |cs|
    ensures |r| == |cs| - 1
    ensures forall j :: 0 <= j < i ==> r[j] == cs[j]
    ensures forall j :: i <= j < |r| ==> r[j] == cs[j + 1]
  {
    cs[..i] + cs[i + 1..]
  }

  /** One `forEach` pass of `animate`, from index `i` on, over a list whose
      length was `n` when the pass began; `k` fresh circles were drawn so
      far. `forEach` skips an index that is no longer present, and after a
      `splice` the element that slid into index `i` is not visited. */
  function Sweep(cs: seq<Circle>, i: nat, n: nat, w: int, h: int, hasContext: bool,
                 move: Circle -> Circle, spawn: nat -> Circle, k: nat): (r: seq<Circle>)
    decreases n - i
  {
    if i >= n then cs
    else if i >= |cs| then Sweep(cs, i + 1, n, w, h, hasContext, move, spawn, k)
    else
      var c := move(cs[i]);
      if OutOfBounds(c, w, h) then
        var pushed := if hasContext then [spawn(k)] else [];
        Sweep(RemoveAt(cs, i) + pushed, i + 1, n, w, h, hasContext, move, spawn, k + 1)
      else
        Sweep(cs[i := c], i + 1, n, w, h, hasContext, move, spawn, k)
  }

  /** With a drawing context every removal is followed by one push, so a
      frame never changes the number of circles. */
  lemma {:induction false} SweepKeepsLength(cs: seq<Circle>, i: nat, n: nat, w: int, h: int,
                                            move: Circle -> Circle, spawn: nat -> Circle, k: nat)
    ensures |Sweep(cs, i, n, w, h, true, move, spawn, k)| == |cs|
    decreases n - i
  {
    if i < n {
      if i >= |cs| {
        SweepKeepsLength(cs, i + 1, n, w, h, move, spawn, k);
      } else {
        var c := move(cs[i]);
        if OutOfBounds(c, w, h) {
          SweepKeepsLength(RemoveAt(cs, i) + [spawn(k)], i + 1, n, w, h, move, spawn, k + 1);
        } else {
          SweepKeepsLength(cs[i := c], i + 1, n, w, h, move, spawn, k);
        }
      }
    }
  }

  /** Without a drawing context nothing is pushed: a frame can only shrink
      the list. */
  lemma {:induction false} SweepWithoutContextShrinks(cs: seq<Circle>, i: nat, n: nat, w: int, h: int,
                                                      move: Circle -> Circle, spawn: nat -> Circle, k: nat)
    ensures |Sweep(cs, i, n, w, h, false, move, spawn, k)| <= |cs|
    decreases n - i
  {
    if i < n {
      if i >= |cs| {
        SweepWithoutContextShrinks(cs, i + 1, n, w, h, move, spawn, k);
      } else {
        var c := move(cs[i]);
        if OutOfBounds(c, w, h) {
          var next := RemoveAt(cs, i);
          assert next + [] == next;
          SweepWithoutContextShrinks(next, i + 1, n, w, h, move, spawn, k + 1);
        } else {
          SweepWithoutContextShrinks(cs[i := c], i + 1, n, w, h, move, spawn, k);
        }
      }
    }
  }

  /** A pass from index `i` on never touches the indices before `i`. */
  lemma {:induction false} SweepKeepsPrefix(cs: seq<Circle>, i: nat, n: nat, w: int, h: int, hasContext: bool,
                                            move: Circle -> Circle, spawn: nat -> Circle, k: nat)
    ensures var r := Sweep(cs, i, n, w, h, hasContext, move, spawn, k);
      (if i <= |cs| then i else |cs|) <= |r| && forall j :: 0 <= j < i && j < |cs| ==> r[j] == cs[j]
    decreases n - i
  {
    if i < n {
      if i >= |cs| {
        assert Sweep(cs, i, n, w, h, hasContext, move, spawn, k) == Sweep(cs, i + 1, n, w, h, hasContext, move, spawn, k);
        SweepKeepsPrefix(cs, i + 1, n, w, h, hasContext, move, spawn, k);
      } else {
        var c := move(cs[i]);
        if OutOfBounds(c, w, h) {
          var next := RemoveAt(cs, i) + (if hasContext then [spawn(k)] else []);
          assert Sweep(cs, i, n, w, h, hasContext, move, spawn, k) == Sweep(next, i + 1, n, w, h, hasContext, move, spawn, k + 1);
          SweepKeepsPrefix(next, i + 1, n, w, h, hasContext, move, spawn, k + 1);
        } else {
          SweepKeepsPrefix(cs[i := c], i + 1, n, w, h, hasContext, move, spawn, k);
        }
      }
    }
  }

  /** The index shift of `splice` inside `forEach`: when the circle at `i`
      is recycled, its successor slides into index `i`, which the pass has
      already left, so the successor ends the frame where it is, neither
      moved nor tested. */
  lemma SweepSkipsSuccessor(cs: seq<Circle>, i: nat, n: nat, w: int, h: int, hasContext: bool,
                            move: Circle -> Circle, spawn: nat -> Circle, k: nat)
    requires i < n && i + 1 < |cs| && OutOfBounds(move(cs[i]), w, h)
    ensures var r := Sweep(cs, i, n, w, h, hasContext, move, spawn, k);
      i < |r| && r[i] == cs[i + 1]
  {
    var next := RemoveAt(cs, i) + (if hasContext then [spawn(k)] else []);
    assert Sweep(cs, i, n, w, h, hasContext, move, spawn, k) == Sweep(next, i + 1, n, w, h, hasContext, move, spawn, k + 1);
    SweepKeepsPrefix(next, i + 1, n, w, h, hasContext, move, spawn, k + 1);
    assert i < |next| && next[i] == cs[i + 1];
  }

  /** A circle that is visited and stays on the canvas is replaced, at its
      own index, by its moved self. */
  lemma SweepMovesVisited(cs: seq<Circle>, i: nat, n: nat, w: int, h: int, hasContext: bool,
                          move: Circle -> Circle, spawn: nat -> Circle, k: nat)
    requires i < n && i < |cs| && !OutOfBounds(move(cs[i]), w, h)
    ensures var r := Sweep(cs, i, n, w, h, hasContext, move, spawn, k);
      i < |r| && r[i] == move(cs[i])
  {
    var next := cs[i := move(cs[i])];
    assert Sweep(cs, i, n, w, h, hasContext, move, spawn, k) == Sweep(next, i + 1, n, w, h, hasContext, move, spawn, k);
    SweepKeepsPrefix(next, i + 1, n, w, h, hasContext, move, spawn, k);
    assert i < |next| && next[i] == move(cs[i]);
  }

  /** The state of one mounted `Particles` component that the circle list
      depends on: whether the canvas element and its 2D context exist, the
      measured canvas size, and the list `circles.current`. */
  class ParticleField {
    const quantity: int
    const hasCanvas: bool
    const hasContext: bool
    var width: int
    var height: int
    var circles: seq<Circle>

    /** Mounting: `circles` starts as `useRef([])` and the size as 0 by 0. */
    constructor (quantity: int, hasCanvas: bool, hasContext: bool)
      ensures this.quantity == quantity && this.hasCanvas == hasCanvas && this.hasContext == hasContext
      ensures width == 0 && height == 0 && circles == []
    {
      this.quantity := quantity;
      this.hasCanvas := hasCanvas;
      this.hasContext := hasContext;
      width, height := 0, 0;
      circles := [];
    }

    /** `drawCircle(circle, update)`: draws when a context exists and, unless
        this is an update of a circle already in the list, appends it. */
    method DrawCircle(circle: Circle, update: bool)
      modifies this
      ensures width == old(width) && height == old(height)
      ensures circles == if hasContext && !update then old(circles) + [circle] else old(circles)
    {
      if hasContext {
        if !update {
          circles := circles + [circle];
        }
      }
    }

    /** `initCanvas`: without a canvas element nothing happens; otherwise
        the measured size `w` by `h` is recorded, the list is emptied and
        `quantity` fresh circles are drawn, each appended when a context
        exists. */
    method InitCanvas(w: int, h: int, spawn: nat -> Circle)
      modifies this
      ensures !hasCanvas ==> circles == old(circles) && width == old(width) && height == old(height)
      ensures hasCanvas ==> width == w && height == h
      ensures hasCanvas ==> circles == if hasContext then Spawned(spawn, LoopCount(quantity)) else []
    {
      if !hasCanvas {
        return;
      }
      width, height := w, h;
      circles := [];
      var i := 0;
      while i < quantity
        invariant 0 <= i <= LoopCount(quantity)
        invariant width == w && height == h
        invariant circles == if hasContext then Spawned(spawn, i) else []
      {
        var circle := spawn(i);
        DrawCircle(circle, false);
        i := i + 1;
      }
    }

    /** One frame of `animate`: `forEach` over the list as long as it was at
        the start of the frame; each present circle is moved and redrawn in
        place, and one that is now out of bounds is spliced out at its index
        and replaced by a fresh circle pushed at the end. */
    method Animate(move: Circle -> Circle, spawn: nat -> Circle)
      modifies this
      ensures width == old(width) && height == old(height)
      ensures circles == Sweep(old(circles), 0, |old(circles)|, width, height, hasContext, move, spawn, 0)
      ensures hasContext ==> |circles| == |old(circles)|
      ensures !hasContext ==> |circles| <= |old(circles)|
    {
      ghost var start := circles;
      var n := |circles|;
      var i, k := 0, 0;
      while i < n
        invariant 0 <= i <= n
        invariant width == old(width) && height == old(height)
        invariant Sweep(circles, i, n, width, height, hasContext, move, spawn, k) == Sweep(start, 0, n, width, height, hasContext, move, spawn, 0)
      {
        ghost var before := circles;
        if i < |circles| {
          var circle := move(circles[i]);
          circles := circles[i := circle];
          DrawCircle(circle, true);
          if OutOfBounds(circle, width, height) {
            assert RemoveAt(circles, i) == RemoveAt(before, i);
            circles := RemoveAt(circles, i);
            var replacement := spawn(k);
            DrawCircle(replacement, false);
            assert circles == RemoveAt(before, i) + (if hasContext then [spawn(k)] else []);
            assert Sweep(before, i, n, width, height, hasContext, move, spawn, k)
                == Sweep(circles, i + 1, n, width, height, hasContext, move, spawn, k + 1);
            k := k + 1;
          } else {
            assert Sweep(before, i, n, width, height, hasContext, move, spawn, k)
                == Sweep(circles, i + 1, n, width, height, hasContext, move, spawn, k);
          }
        }
        i := i + 1;
      }
      if hasContext {
        SweepKeepsLength(start, 0, n, width, height, move, spawn, 0);
      } else {
        SweepWithoutContextShrinks(start, 0, n, width, height, move, spawn, 0);
      }
    }
  }

  /** A mounted field with a canvas and a context: after `initCanvas` and
      any number of frames, exactly `quantity` circles are live (none when
      `quantity` is not positive). `moves(f)` is the motion of frame `f`,
      which depends on where the pointer is then, and `respawn(f)` gives the
      fresh circles of frame `f`. */
  method SteadyCount(quantity: int, w: int, h: int, spawn: nat -> Circle,
                     moves: nat -> Circle -> Circle, respawn: nat -> nat -> Circle, frames: nat)
    returns (count: nat)
    ensures count == LoopCount(quantity)
  {
    var field := new ParticleField(quantity, true, true);
    field.InitCanvas(w, h, spawn);
    var f := 0;
    while f < frames
      invariant 0 <= f <= frames
      invariant |field.circles| == LoopCount(quantity)
    {
      field.Animate(moves(f), respawn(f));
      f := f + 1;
    }
    count := |field.circles|;
  }
}
