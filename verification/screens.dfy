/** The two screens of the game and the play screen's render target.
    Pixel colours are abstract: the play screen paints a roof and a floor
    colour, everything else is `Blank`.  The raycaster appears as a sink for
    move and rotate commands and as an unconstrained list of `Set`/`SetZ`
    calls on the render target; its geometry is not modelled. */
module Screens {
  import opened Common
  import opened Events

  datatype Colour = Roof | Floor | Blank

  /** An image whose bounds start at the origin; `pix[y][x]` is the pixel at (x, y). */
  datatype Image = Image(width: nat, height: nat, pix: seq<seq<Colour>>)

  predicate ValidImage(img: Image)
  {
    && |img.pix| == img.height
    && forall y :: 0 <= y < img.height ==> |img.pix[y]| == img.width
  }

  /** `renderTarget`: the bounds and per-column depth of the attached back
      buffer.  `attached` is whether `backBuffer` is non-nil. */
  datatype RenderTarget = RenderTarget(attached: bool, width: nat, height: nat, depth: seq<real>)

  /** A freshly allocated render target: nothing attached, zero bounds, no depth. */
  const EmptyTarget: RenderTarget := RenderTarget(false, 0, 0, [])

  /** `Set`: write one pixel of the attached back buffer.  `img` is that buffer.
      Nothing happens before a buffer is attached, or outside its bounds. */
  function SetPixel(rt: RenderTarget, img: Image, x: int, y: int, c: Colour): (r: Image)
    requires ValidImage(img)
    ensures ValidImage(r) && r.width == img.width && r.height == img.height
    ensures !rt.attached ==> r == img
    ensures forall j, i :: 0 <= j < img.height && 0 <= i < img.width ==>
              r.pix[j][i] == (if rt.attached && i == x && j == y then c else img.pix[j][i])
  {
    if rt.attached && 0 <= y < img.height && 0 <= x < img.width then
      img.(pix := img.pix[y := img.pix[y][x := c]])
    else img
  }

  /** `SetZ`: record a column's depth.  A no-op before a buffer is attached; an
      index outside the depth array panics like the Go slice access. */
  function SetZ(rt: RenderTarget, x: int, z: real): (r: (RenderTarget, Status))
    ensures !rt.attached ==> r == (rt, Ok)
    ensures r.1.Ok? ==> r.0.attached == rt.attached && r.0.width == rt.width && r.0.height == rt.height
    ensures r.1.Ok? ==> |r.0.depth| == |rt.depth|
    ensures rt.attached && r.1.Ok? ==>
              0 <= x < |rt.depth| && r.0.depth[x] == z
              && forall i :: 0 <= i < |rt.depth| && i != x ==> r.0.depth[i] == rt.depth[i]
    ensures r.1.Panic? <==> rt.attached && !(0 <= x < |rt.depth|)
    ensures r.1.Ok? || r.1.Panic?
  {
    if !rt.attached then (rt, Ok)
    else if 0 <= x < |rt.depth| then (rt.(depth := rt.depth[x := z]), Ok)
    else (rt, Panic("index out of range"))
  }

  /** `setBackBuffer`: take the image's bounds and allocate one zeroed depth
      entry per column. */
  function SetBackBuffer(rt: RenderTarget, img: Image): (r: RenderTarget)
    ensures r.attached
    ensures r.width == img.width && r.height == img.height
    ensures |r.depth| == img.width
    ensures forall i :: 0 <= i < |r.depth| ==> r.depth[i] == 0.0
  {
    RenderTarget(true, img.width, img.height, seq(img.width, _ => 0.0))
  }

  /** The background colour of row `y` in a buffer `h` rows high. */
  function BackgroundColour(y: int, h: int): Colour
  {
    if y > h / 2 then Floor else Roof
  }

  /** The roof occupies the rows `y` with `2 * y <= h`, rows 0 to `h / 2`: an
      even height gives the roof two rows more than the floor, an odd height one. */
  lemma BackgroundSplit(y: nat, h: nat)
    ensures BackgroundColour(y, h) == Roof <==> 2 * y <= h
    ensures h % 2 == 0 && h > 0 ==> BackgroundColour(h / 2, h) == Roof && BackgroundColour(h / 2 + 1, h) == Floor
  {
  }

  /** The filled background of a `w` by `h` buffer. */
  function Background(w: nat, h: nat): (img: Image)
    ensures ValidImage(img) && img.width == w && img.height == h
    ensures forall y, x :: 0 <= y < h && 0 <= x < w ==>
              img.pix[y][x] == (if 2 * y <= h then Roof else Floor)
  {
    Image(w, h, seq(h, y => seq(w, x => BackgroundColour(y, h))))
  }

  /** The roof/floor loop of `Render`: visit every row top to bottom and every
      pixel of the row, choosing the colour by the row alone. */
  method FillBackground(img: Image) returns (r: Image)
    requires ValidImage(img)
    ensures ValidImage(r) && r.width == img.width && r.height == img.height
    ensures forall y, x :: 0 <= y < r.height && 0 <= x < r.width ==>
              r.pix[y][x] == (if 2 * y <= r.height then Roof else Floor)
  {
    r := img;
    var y := 0;
    while y < img.height
      invariant 0 <= y <= img.height
      invariant ValidImage(r) && r.width == img.width && r.height == img.height
      invariant forall j, x :: 0 <= j < y && 0 <= x < r.width ==>
                  r.pix[j][x] == BackgroundColour(j, r.height)
    {
      var c := Roof;
      if y > img.height / 2 {
        c := Floor;
      }
      var x := 0;
      while x < img.width
        invariant 0 <= x <= img.width
        invariant ValidImage(r) && r.width == img.width && r.height == img.height
        invariant forall j, i :: 0 <= j < y && 0 <= i < r.width ==>
                    r.pix[j][i] == BackgroundColour(j, r.height)
        invariant forall i :: 0 <= i < x ==> r.pix[y][i] == c
        invariant c == BackgroundColour(y, r.height)
      {
        r := r.(pix := r.pix[y := r.pix[y][x := c]]);
        x := x + 1;
      }
      y := y + 1;
    }
    forall j, x | 0 <= j < r.height && 0 <= x < r.width
      ensures r.pix[j][x] == (if 2 * j <= r.height then Roof else Floor)
    {
      BackgroundSplit(j, r.height);
    }
  }

  /** The loop and the closed form agree on every buffer. */
  method FillMatchesBackground(img: Image) returns (r: Image)
    requires ValidImage(img)
    ensures r == Background(img.width, img.height)
  {
    r := FillBackground(img);
    var b := Background(img.width, img.height);
    assert |r.pix| == |b.pix|;
    forall y | 0 <= y < r.height
      ensures r.pix[y] == b.pix[y]
    {
      forall x | 0 <= x < r.width
        ensures r.pix[y][x] == b.pix[y][x]
      {
        BackgroundSplit(y, r.height);
      }
    }
  }

  // ----- the raycaster sink and play's key dispatch ----------------------------------

  datatype Sign = Plus | Minus

  /** What the play screen asks of the raycaster.  Magnitudes (speeds, frame
      time) are floating point and left out; only kind and sign remain. */
  datatype Command =
    | MoveToStart                 // the fixed start offset issued by Enter
    | MoveAlongDir(sign: Sign)    // move by a scaled copy of the facing direction
    | Rotate(sign: Sign)          // rotate, Plus is counter-clockwise

  /** What one event makes play's `Update` do. */
  datatype Action = CallTerminate | Issue(cmd: Command) | NoAction

  /** The switch in play's `Update`: a quit terminates, and a key-down of an
      arrow key issues that key's command. */
  function Dispatch(e: Event): (a: Action)
    ensures e.QuitEvent? ==> a == CallTerminate
    ensures e.KeyUpEvent? ==> a == NoAction
    ensures a.Issue? ==> e.KeyDownEvent? && KeyFor(a.cmd) == Some(e.key)
    ensures a.Issue? ==> a.cmd != MoveToStart
  {
    match e
    case QuitEvent => CallTerminate
    case KeyDownEvent(k, _) =>
      (match k
       case KeyUp => Issue(MoveAlongDir(Plus))
       case KeyDown => Issue(MoveAlongDir(Minus))
       case KeyLeft => Issue(Rotate(Plus))
       case KeyRight => Issue(Rotate(Minus))
       case _ => NoAction)
    case KeyUpEvent(_, _) => NoAction
  }

  /** The key that issues each command; the start move has none. */
  function KeyFor(c: Command): Option<Key>
  {
    match c
    case MoveToStart => None
    case MoveAlongDir(Plus) => Some(KeyUp)
    case MoveAlongDir(Minus) => Some(KeyDown)
    case Rotate(Plus) => Some(KeyLeft)
    case Rotate(Minus) => Some(KeyRight)
  }

  /** Key presses and commands correspond one to one: a key-down issues `c`
      exactly when it is `c`'s key; only a quit terminates; key releases and
      the remaining keys do nothing. */
  lemma DispatchInverse(e: Event, c: Command)
    ensures Dispatch(e) == Issue(c) <==> e.KeyDownEvent? && KeyFor(c) == Some(e.key)
    ensures Dispatch(e) == CallTerminate <==> e == QuitEvent
    ensures Dispatch(e) == NoAction <==>
              e.KeyUpEvent? || (e.KeyDownEvent? && e.key !in {KeyUp, KeyDown, KeyLeft, KeyRight})
  {
  }

  /** Up and Down, and Left and Right, issue opposite commands. */
  lemma OppositeKeysOppositeSigns(r: int)
    ensures Dispatch(KeyDownEvent(KeyUp, r)).cmd.sign != Dispatch(KeyDownEvent(KeyDown, r)).cmd.sign
    ensures Dispatch(KeyDownEvent(KeyLeft, r)).cmd.sign != Dispatch(KeyDownEvent(KeyRight, r)).cmd.sign
  {
  }

  // ----- the raycaster's writes ----------------------------------------------------

  /** One call the raycaster makes on the render target it was built on while it
      draws a frame: `Set` of a wall pixel, or `SetZ` of a column's depth.  What
      it writes is geometry and is not modelled; a frame is an input list. */
  datatype Paint = PaintPixel(x: int, y: int, c: Colour) | PaintDepth(x: int, z: real)

  /** Whether some call in `ps` writes column `x` of the depth array. */
  predicate WritesDepth(ps: seq<Paint>, x: int)
  {
    exists i :: 0 <= i < |ps| && ps[i].PaintDepth? && ps[i].x == x
  }

  /** Whether some call in `ps` writes pixel (x, y). */
  predicate WritesPixel(ps: seq<Paint>, x: int, y: int)
  {
    exists i :: 0 <= i < |ps| && ps[i].PaintPixel? && ps[i].x == x && ps[i].y == y
  }

  /** Whether some depth write in `ps` falls outside the depth array. */
  predicate DepthOutOfRange(ps: seq<Paint>, n: nat)
  {
    exists i :: 0 <= i < |ps| && ps[i].PaintDepth? && !(0 <= ps[i].x < n)
  }

  /** The raycaster's calls in order, through `Set` and `SetZ` on the attached
      buffer `img`; a `SetZ` outside the depth array panics and ends the frame.
      Before a buffer is attached every call is a no-op.  Pixels and depth
      entries no call writes keep their value, and the target's shape is kept. */
  function ApplyPaints(rt: RenderTarget, img: Image, ps: seq<Paint>): (r: (RenderTarget, Image, Status))
    requires ValidImage(img)
    decreases |ps|
    ensures !rt.attached ==> r == (rt, img, Ok)
    ensures ValidImage(r.1) && r.1.width == img.width && r.1.height == img.height
    ensures r.0.attached == rt.attached && r.0.width == rt.width && r.0.height == rt.height
    ensures |r.0.depth| == |rt.depth|
    ensures r.2.Ok? || r.2.Panic?
    ensures r.2.Panic? <==> rt.attached && DepthOutOfRange(ps, |rt.depth|)
    ensures forall x :: 0 <= x < |rt.depth| && !WritesDepth(ps, x) ==> r.0.depth[x] == rt.depth[x]
    ensures forall y, x :: 0 <= y < img.height && 0 <= x < img.width && !WritesPixel(ps, x, y) ==>
              r.1.pix[y][x] == img.pix[y][x]
  {
    if |ps| == 0 then (rt, img, Ok)
    else
      match ps[0]
      case PaintPixel(x, y, c) =>
        var r := ApplyPaints(rt, SetPixel(rt, img, x, y, c), ps[1..]);
        assert forall i :: 0 <= i < |ps| - 1 ==> ps[1..][i] == ps[i + 1];
        r
      case PaintDepth(x, z) =>
        var (rt1, st) := SetZ(rt, x, z);
        if st.Panic? then (rt1, img, st)
        else
          var r := ApplyPaints(rt1, img, ps[1..]);
          assert forall i :: 0 <= i < |ps| - 1 ==> ps[1..][i] == ps[i + 1];
          r
  }

  /** Running `a + b` is running `a`, then `b` on what it left, unless `a`
      already panicked. */
  lemma {:induction false} ApplyPaintsAppend(rt: RenderTarget, img: Image, a: seq<Paint>, b: seq<Paint>)
    requires ValidImage(img)
    ensures ApplyPaints(rt, img, a + b) ==
              var ra := ApplyPaints(rt, img, a);
              if ra.2.Panic? then ra else ApplyPaints(ra.0, ra.1, b)
    decreases |a|
  {
    if |a| == 0 {
      assert a + b == b;
    } else {
      assert (a + b)[0] == a[0];
      assert (a + b)[1..] == a[1..] + b;
      match a[0]
      case PaintPixel(x, y, c) =>
        ApplyPaintsAppend(rt, SetPixel(rt, img, x, y, c), a[1..], b);
      case PaintDepth(x, z) =>
        var (rt1, st) := SetZ(rt, x, z);
        if !st.Panic? {
          ApplyPaintsAppend(rt1, img, a[1..], b);
        }
    }
  }

  /** The colour of the last `Set` on pixel (x, y) in `ps`, if any. */
  function LastPixel(ps: seq<Paint>, x: int, y: int): Option<Colour>
    decreases |ps|
  {
    if |ps| == 0 then None
    else
      var p := ps[|ps| - 1];
      if p.PaintPixel? && p.x == x && p.y == y then Some(p.c)
      else LastPixel(ps[..|ps| - 1], x, y)
  }

  /** The depth of the last `SetZ` on column `x` in `ps`, if any. */
  function LastDepth(ps: seq<Paint>, x: int): Option<real>
    decreases |ps|
  {
    if |ps| == 0 then None
    else
      var p := ps[|ps| - 1];
      if p.PaintDepth? && p.x == x then Some(p.z)
      else LastDepth(ps[..|ps| - 1], x)
  }

  /** A frame that completes on an attached target leaves in every pixel and
      every depth column the value of the last call that wrote it. */
  lemma {:induction false} ApplyPaintsLastWrite(rt: RenderTarget, img: Image, ps: seq<Paint>)
    requires ValidImage(img) && rt.attached
    ensures var r := ApplyPaints(rt, img, ps);
            r.2.Ok? ==>
              && (forall x :: 0 <= x < |rt.depth| && LastDepth(ps, x).Some? ==>
                    r.0.depth[x] == LastDepth(ps, x).value)
              && (forall y, x :: 0 <= y < img.height && 0 <= x < img.width && LastPixel(ps, x, y).Some? ==>
                    r.1.pix[y][x] == LastPixel(ps, x, y).value)
    decreases |ps|
  {
    if |ps| > 0 {
      var a, p := ps[..|ps| - 1], ps[|ps| - 1];
      assert ps == a + [p];
      ApplyPaintsAppend(rt, img, a, [p]);
      ApplyPaintsLastWrite(rt, img, a);
      var ra := ApplyPaints(rt, img, a);
      if !ra.2.Panic? {
        assert [p][1..] == [];
        match p
        case PaintPixel(px, py, c) =>
          assert ApplyPaints(ra.0, ra.1, [p]) == ApplyPaints(ra.0, SetPixel(ra.0, ra.1, px, py, c), []);
        case PaintDepth(px, z) =>
      }
    }
  }

  /** A pixel or column has a last write iff some call writes it. */
  lemma {:induction false} LastWriteIffWritten(ps: seq<Paint>, x: int, y: int)
    ensures LastPixel(ps, x, y).Some? <==> WritesPixel(ps, x, y)
    ensures LastDepth(ps, x).Some? <==> WritesDepth(ps, x)
    decreases |ps|
  {
    if |ps| > 0 {
      var a := ps[..|ps| - 1];
      LastWriteIffWritten(a, x, y);
      assert forall i :: 0 <= i < |a| ==> a[i] == ps[i];
      if WritesPixel(ps, x, y) && !(ps[|ps| - 1].PaintPixel? && ps[|ps| - 1].x == x && ps[|ps| - 1].y == y) {
        var i :| 0 <= i < |ps| && ps[i].PaintPixel? && ps[i].x == x && ps[i].y == y;
        assert a[i] == ps[i];
      }
      if WritesDepth(ps, x) && !(ps[|ps| - 1].PaintDepth? && ps[|ps| - 1].x == x) {
        var i :| 0 <= i < |ps| && ps[i].PaintDepth? && ps[i].x == x;
        assert a[i] == ps[i];
      }
    }
  }

  // ----- the screens --------------------------------------------------------------

  /** The menu screen holds nothing; the play screen holds its render target
      and the commands it has sent to the raycaster so far. */
  datatype Screen = MenuScreen | PlayScreen(rt: RenderTarget, commands: seq<Command>)

  /** A freshly constructed play screen. */
  const NewPlayScreen: Screen := PlayScreen(EmptyTarget, [])

  function Name(s: Screen): (n: string)
    ensures n == "menu" <==> s.MenuScreen?
    ensures n == "play" <==> s.PlayScreen?
  {
    match s
    case MenuScreen => "menu"
    case PlayScreen(_, _) => "play"
  }

  /** The `Render` method of each screen on the back buffer `img`.  The menu
      draws nothing.  The play screen attaches the buffer on its first call
      only, overwrites every pixel with the roof/floor background, and then
      lets the raycaster make the calls `frame` on its render target: each
      drawn pixel and written column ends with its last call's value. */
  function RenderScreen(s: Screen, img: Image, frame: seq<Paint>): (r: (Screen, Image, Status))
    ensures s.MenuScreen? ==> r == (s, img, Ok)
    ensures s.PlayScreen? ==> r.0.PlayScreen? && r.0.commands == s.commands && r.0.rt.attached
    ensures s.PlayScreen? && s.rt.attached ==>
              r.0.rt.width == s.rt.width && r.0.rt.height == s.rt.height && |r.0.rt.depth| == |s.rt.depth|
    ensures s.PlayScreen? && !s.rt.attached ==>
              r.0.rt.width == img.width && r.0.rt.height == img.height && |r.0.rt.depth| == img.width
    ensures s.PlayScreen? ==> ValidImage(r.1) && r.1.width == img.width && r.1.height == img.height
    ensures s.PlayScreen? ==>
              forall y, x :: 0 <= y < img.height && 0 <= x < img.width && !WritesPixel(frame, x, y) ==>
                r.1.pix[y][x] == (if 2 * y <= img.height then Roof else Floor)
    ensures s.PlayScreen? ==> (r.2.Panic? <==> DepthOutOfRange(frame, |r.0.rt.depth|))
    ensures s.PlayScreen? && r.2.Ok? ==>
              && (forall y, x :: 0 <= y < img.height && 0 <= x < img.width && LastPixel(frame, x, y).Some? ==>
                    r.1.pix[y][x] == LastPixel(frame, x, y).value)
              && (forall x :: 0 <= x < |r.0.rt.depth| && LastDepth(frame, x).Some? ==>
                    r.0.rt.depth[x] == LastDepth(frame, x).value)
  {
    match s
    case MenuScreen => (s, img, Ok)
    case PlayScreen(rt, cmds) =>
      var rt1 := if rt.attached then rt else SetBackBuffer(rt, img);
      var bg := Background(img.width, img.height);
      ApplyPaintsLastWrite(rt1, bg, frame);
      var (rt2, img2, st) := ApplyPaints(rt1, bg, frame);
      (PlayScreen(rt2, cmds), img2, st)
  }

  /** Rendering never reattaches: after the first render the target stays
      attached, and later renders keep its bounds and the depth array's length,
      both taken once from the first buffer. */
  lemma RenderAttachesOnce(s: Screen, img1: Image, img2: Image, f1: seq<Paint>, f2: seq<Paint>)
    requires s.PlayScreen?
    ensures var s1 := RenderScreen(s, img1, f1).0;
            var s2 := RenderScreen(s1, img2, f2).0;
            && s1.rt.attached && s2.rt.attached
            && s2.rt.width == s1.rt.width && s2.rt.height == s1.rt.height
            && |s2.rt.depth| == |s1.rt.depth|
            && |s1.rt.depth| == (if s.rt.attached then |s.rt.depth| else img1.width)
  {
  }

  /** The attach guard does not re-zero depth: on an attached target, only the
      raycaster's own `SetZ` calls change a column's depth during a render. */
  lemma DepthSurvivesRender(s: Screen, img: Image, frame: seq<Paint>, x: int)
    requires s.PlayScreen? && s.rt.attached && 0 <= x < |s.rt.depth|
    requires !WritesDepth(frame, x)
    ensures RenderScreen(s, img, frame).0.rt.depth[x] == s.rt.depth[x]
  {
  }
}
