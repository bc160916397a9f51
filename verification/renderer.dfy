/** The SDL renderer's configuration: the option functions, how `NewRenderer`
    folds them into a configuration and resolves window size and flags from it,
    `Clear` on the back buffer, and `ToggleFullscreen`.  Window, renderer and
    texture creation are SDL calls and are not modelled; the desktop display
    mode is an input. */
module Renderer {
  import opened Common

  /** The `config` record inside the renderer; its zero value is `ZeroConfig`. */
  datatype Config = Config(
    title: string,
    width: int,
    height: int,
    resolutionDiv: int,
    debug: bool,
    novsync: bool,
    fullscreen: bool)

  const ZeroConfig: Config := Config("", 0, 0, 0, false, false, false)

  /** The `Config` option functions.  `Config` is an open Go function type, so a
      caller may pass its own; `Failing` stands for one that returns an error. */
  datatype ConfigOption =
    | WithSize(w: int, h: int)
    | WithTitle(t: string)
    | WithDiv(n: int)
    | WithFullscreen
    | WithDebug
    | WithNoVSync
    | Failing(err: string)

  /** Which field of the configuration an option writes. */
  datatype Field = SizeField | TitleField | DivField | FullscreenField | DebugField | VSyncField | NoField

  function FieldOf(o: ConfigOption): Field
  {
    match o
    case WithSize(_, _) => SizeField
    case WithTitle(_) => TitleField
    case WithDiv(_) => DivField
    case WithFullscreen => FullscreenField
    case WithDebug => DebugField
    case WithNoVSync => VSyncField
    case Failing(_) => NoField
  }

  /** Whether configuration `c` holds option `o`'s value in `o`'s field. */
  predicate Holds(c: Config, o: ConfigOption)
  {
    match o
    case WithSize(w, h) => c.width == w && c.height == h
    case WithTitle(t) => c.title == t
    case WithDiv(n) => c.resolutionDiv == n
    case WithFullscreen => c.fullscreen
    case WithDebug => c.debug
    case WithNoVSync => c.novsync
    case Failing(_) => false
  }

  /** Whether `c` and `d` agree on every field except `f`. */
  predicate AgreeOutside(c: Config, d: Config, f: Field)
  {
    && (f != SizeField ==> c.width == d.width && c.height == d.height)
    && (f != TitleField ==> c.title == d.title)
    && (f != DivField ==> c.resolutionDiv == d.resolutionDiv)
    && (f != FullscreenField ==> c.fullscreen == d.fullscreen)
    && (f != DebugField ==> c.debug == d.debug)
    && (f != VSyncField ==> c.novsync == d.novsync)
  }

  /** Whether `c` and `d` agree on field `f`. */
  predicate SameOn(c: Config, d: Config, f: Field)
  {
    match f
    case SizeField => c.width == d.width && c.height == d.height
    case TitleField => c.title == d.title
    case DivField => c.resolutionDiv == d.resolutionDiv
    case FullscreenField => c.fullscreen == d.fullscreen
    case DebugField => c.debug == d.debug
    case VSyncField => c.novsync == d.novsync
    case NoField => true
  }

  /** Apply one option: each option function writes its own argument into its
      own field and nothing else; only a failing option fails. */
  function ApplyOption(c: Config, o: ConfigOption): (r: Result<Config>)
    ensures r.Failure? <==> o.Failing?
    ensures r.Failure? ==> r.error == o.err
    ensures r.Success? ==> Holds(r.value, o) && AgreeOutside(c, r.value, FieldOf(o))
  {
    match o
    case WithSize(w, h) => Success(c.(width := w, height := h))
    case WithTitle(t) => Success(c.(title := t))
    case WithDiv(n) => Success(c.(resolutionDiv := n))
    case WithFullscreen => Success(c.(fullscreen := true))
    case WithDebug => Success(c.(debug := true))
    case WithNoVSync => Success(c.(novsync := true))
    case Failing(e) => Failure(e)
  }

  /** Options that write different fields commute: each option touches only its
      own field. */
  lemma OptionsOnDistinctFieldsCommute(c: Config, a: ConfigOption, b: ConfigOption)
    requires FieldOf(a) != FieldOf(b) && !a.Failing? && !b.Failing?
    ensures ApplyOption(ApplyOption(c, a).value, b) == ApplyOption(ApplyOption(c, b).value, a)
  {
  }

  /** The index of the first failing option, or `|opts|` when there is none. */
  function FirstFailing(opts: seq<ConfigOption>): (i: nat)
    ensures i <= |opts|
    ensures forall j :: 0 <= j < i ==> !opts[j].Failing?
    ensures i < |opts| ==> opts[i].Failing?
  {
    if |opts| == 0 then 0
    else if opts[0].Failing? then 0
    else 1 + FirstFailing(opts[1..])
  }

  /** The loop at the top of `NewRenderer`: options in argument order, the first
      error aborting. */
  function ApplyConfigs(c: Config, opts: seq<ConfigOption>): (r: Result<Config>)
    decreases |opts|
    ensures r.Success? <==> forall i :: 0 <= i < |opts| ==> !opts[i].Failing?
    ensures r.Failure? ==> exists i :: 0 <= i < |opts| && opts[i] == Failing(r.error)
  {
    if |opts| == 0 then Success(c)
    else
      match ApplyOption(c, opts[0])
      case Failure(e) => Failure(e)
      case Success(c1) =>
        var r := ApplyConfigs(c1, opts[1..]);
        assert forall i :: 0 <= i < |opts| - 1 ==> opts[1..][i] == opts[i + 1];
        r
  }

  /** Applying `a + b` is applying `a`, then `b` to what it produced. */
  lemma {:induction false} ApplyConfigsAppend(c: Config, a: seq<ConfigOption>, b: seq<ConfigOption>)
    ensures ApplyConfigs(c, a + b) ==
              match ApplyConfigs(c, a)
              case Failure(e) => Failure(e)
              case Success(c1) => ApplyConfigs(c1, b)
    decreases |a|
  {
    if |a| == 0 {
      assert a + b == b;
    } else {
      assert (a + b)[0] == a[0];
      assert (a + b)[1..] == a[1..] + b;
      match ApplyOption(c, a[0])
      case Failure(e) =>
      case Success(c1) => ApplyConfigsAppend(c1, a[1..], b);
    }
  }

  /** Construction fails exactly when some option fails, and then with the error
      of the first failing option. */
  lemma {:induction false} ApplyConfigsFailure(c: Config, opts: seq<ConfigOption>)
    ensures ApplyConfigs(c, opts).Failure? <==> FirstFailing(opts) < |opts|
    ensures FirstFailing(opts) < |opts| ==>
              ApplyConfigs(c, opts).error == opts[FirstFailing(opts)].err
    decreases |opts|
  {
    if |opts| > 0 && !opts[0].Failing? {
      ApplyConfigsFailure(ApplyOption(c, opts[0]).value, opts[1..]);
    }
  }

  /** Options that write other fields leave a field exactly as it was,
      whatever its value (a false flag stays false). */
  lemma {:induction false} OtherFieldsKept(c: Config, opts: seq<ConfigOption>, f: Field)
    requires ApplyConfigs(c, opts).Success?
    requires forall i :: 0 <= i < |opts| ==> FieldOf(opts[i]) != f
    ensures SameOn(c, ApplyConfigs(c, opts).value, f)
    ensures forall o :: FieldOf(o) == f && Holds(c, o) ==> Holds(ApplyConfigs(c, opts).value, o)
    decreases |opts|
  {
    if |opts| > 0 {
      var c1 := ApplyOption(c, opts[0]).value;
      OtherFieldsKept(c1, opts[1..], f);
    }
  }

  /** The last option that writes a field decides it: if option `i` is not
      followed by another option on the same field, the final configuration
      holds its value, whatever came before. */
  lemma LastWriterWins(c: Config, opts: seq<ConfigOption>, i: nat)
    requires ApplyConfigs(c, opts).Success?
    requires i < |opts|
    requires forall j :: i < j < |opts| ==> FieldOf(opts[j]) != FieldOf(opts[i])
    ensures Holds(ApplyConfigs(c, opts).value, opts[i])
  {
    var a, b := opts[..i + 1], opts[i + 1..];
    assert opts == a + b;
    ApplyConfigsAppend(c, a, b);
    assert a == opts[..i] + [opts[i]];
    ApplyConfigsAppend(c, opts[..i], [opts[i]]);
    var c0 := ApplyConfigs(c, opts[..i]).value;
    assert ApplyConfigs(c0, [opts[i]]) == ApplyOption(c0, opts[i]);
    var ca := ApplyConfigs(c, a).value;
    assert Holds(ca, opts[i]);
    assert forall j :: 0 <= j < |b| ==> b[j] == opts[i + 1 + j];
    OtherFieldsKept(ca, b, FieldOf(opts[i]));
  }

  /** A later size option overrides every earlier one. */
  lemma LastSizeWins(c: Config, opts: seq<ConfigOption>, w: int, h: int)
    requires ApplyConfigs(c, opts).Success?
    ensures ApplyConfigs(c, opts + [WithSize(w, h)]).Success?
    ensures ApplyConfigs(c, opts + [WithSize(w, h)]).value.width == w
    ensures ApplyConfigs(c, opts + [WithSize(w, h)]).value.height == h
  {
    LastWriterWins(c, opts + [WithSize(w, h)], |opts|);
  }

  /** Whether the fullscreen option occurs in an option list. */
  predicate RequestsFullscreen(opts: seq<ConfigOption>)
  {
    exists i :: 0 <= i < |opts| && opts[i] == WithFullscreen
  }

  /** From any starting configuration, the fullscreen field ends up set exactly
      when it was set already or the fullscreen option was among the options. */
  lemma {:induction false} FullscreenIffRequested(c: Config, opts: seq<ConfigOption>)
    requires ApplyConfigs(c, opts).Success?
    ensures ApplyConfigs(c, opts).value.fullscreen <==> c.fullscreen || RequestsFullscreen(opts)
    decreases |opts|
  {
    if |opts| > 0 {
      var c1 := ApplyOption(c, opts[0]).value;
      FullscreenIffRequested(c1, opts[1..]);
      if RequestsFullscreen(opts[1..]) {
        var i :| 0 <= i < |opts[1..]| && opts[1..][i] == WithFullscreen;
        assert opts[i + 1] == WithFullscreen;
      }
      if RequestsFullscreen(opts) && opts[0] != WithFullscreen {
        var i :| 0 <= i < |opts| && opts[i] == WithFullscreen;
        assert opts[1..][i - 1] == WithFullscreen;
      }
    }
  }

  // ----- window size and flags --------------------------------------------------

  /** Euclidean division of a natural number by a positive one brackets it. */
  lemma DivBounds(a: int, b: int)
    requires a >= 0 && b > 0
    ensures a / b >= 0 && b * (a / b) <= a < b * (a / b) + b
  {
    assert a == b * (a / b) + a % b;
  }

  /** Go's integer quotient for a positive divisor, rounding toward zero. */
  function GoQuo(a: int, b: int): (q: int)
    requires b > 0
    ensures a >= 0 ==> q >= 0 && b * q <= a < b * q + b
    ensures a < 0 ==> q <= 0 && b * q - b < a <= b * q
  {
    if a >= 0 then
      DivBounds(a, b);
      a / b
    else
      var p := (-a) / b;
      DivBounds(-a, b);
      assert b * -p == -(b * p);
      -p
  }

  /** One window dimension: a non-positive request takes the desktop's size, and
      a positive divisor then divides it. */
  function ResolveDim(requested: int, desktop: int, div: int): (d: int)
    ensures div <= 0 ==> d == (if requested > 0 then requested else desktop)
    ensures div > 0 && requested > 0 ==> d == GoQuo(requested, div)
    ensures div > 0 && requested <= 0 ==> d == GoQuo(desktop, div)
  {
    var d0 := if requested <= 0 then desktop else requested;
    if div > 0 then GoQuo(d0, div) else d0
  }

  const WindowShown: bv32 := 0x0000_0004
  const WindowFullscreen: bv32 := 0x0000_0001
  /** SDL_WINDOW_FULLSCREEN_DESKTOP includes the fullscreen bit. */
  const WindowFullscreenDesktop: bv32 := 0x0000_1001

  /** The width and height of the desktop display mode. */
  datatype DisplayMode = DisplayMode(w: int, h: int)

  /** What `NewRenderer` asks SDL for: the window and the fixed back buffer. */
  datatype Setup = Setup(
    title: string,
    windowWidth: int,
    windowHeight: int,
    windowFlags: bv32,
    bufferWidth: nat,
    bufferHeight: nat)

  const BufferWidth: nat := 320
  const BufferHeight: nat := 200

  /** `NewRenderer` up to the first SDL object: option errors come first, then a
      failure to read the desktop display mode.  `display` is that query's result. */
  function NewRenderer(opts: seq<ConfigOption>, display: Result<DisplayMode>): (r: Result<Setup>)
    ensures r.Success? <==> ApplyConfigs(ZeroConfig, opts).Success? && display.Success?
    ensures ApplyConfigs(ZeroConfig, opts).Failure? ==> r == Failure(ApplyConfigs(ZeroConfig, opts).error)
    ensures ApplyConfigs(ZeroConfig, opts).Success? && display.Failure? ==> r == Failure(display.error)
    ensures r.Success? ==>
              var cfg := ApplyConfigs(ZeroConfig, opts).value;
              && r.value.title == cfg.title
              && r.value.windowWidth == ResolveDim(cfg.width, display.value.w, cfg.resolutionDiv)
              && r.value.windowHeight == ResolveDim(cfg.height, display.value.h, cfg.resolutionDiv)
              && (r.value.windowFlags & WindowShown != 0)
              && (r.value.windowFlags & WindowFullscreen != 0 <==> RequestsFullscreen(opts))
              && r.value.windowFlags & !(WindowShown | WindowFullscreen) == 0
              && r.value.bufferWidth == BufferWidth && r.value.bufferHeight == BufferHeight
  {
    match ApplyConfigs(ZeroConfig, opts)
    case Failure(e) => Failure(e)
    case Success(cfg) =>
      var flags := if cfg.fullscreen then WindowShown | WindowFullscreen else WindowShown;
      match display
      case Failure(e) => Failure(e)
      case Success(dm) =>
        FullscreenIffRequested(ZeroConfig, opts);
        Success(Setup(cfg.title,
                      ResolveDim(cfg.width, dm.w, cfg.resolutionDiv),
                      ResolveDim(cfg.height, dm.h, cfg.resolutionDiv),
                      flags, BufferWidth, BufferHeight))
  }

  /** The window size ignores the divisor unless it is positive, and a positive
      size request is never replaced by the desktop size. */
  lemma SizeRequestHonoured(w: int, h: int, desktop: DisplayMode)
    requires w > 0 && h > 0
    ensures NewRenderer([WithSize(w, h)], Success(desktop)).Success?
    ensures NewRenderer([WithSize(w, h)], Success(desktop)).value.windowWidth == w
    ensures NewRenderer([WithSize(w, h)], Success(desktop)).value.windowHeight == h
  {
    var opts := [WithSize(w, h)];
    assert ApplyOption(ZeroConfig, opts[0]) == Success(ZeroConfig.(width := w, height := h));
    assert ApplyConfigs(ZeroConfig, opts) == ApplyConfigs(ZeroConfig.(width := w, height := h), opts[1..]);
    assert opts[1..] == [];
  }

  // ----- clear and fullscreen toggle ----------------------------------------------

  /** `Clear`: zero every byte of the back buffer's pixels. */
  method Clear(pix: seq<bv8>) returns (r: seq<bv8>)
    ensures |r| == |pix|
    ensures forall i :: 0 <= i < |r| ==> r[i] == 0
  {
    r := pix;
    var i := 0;
    while i < |r|
      invariant 0 <= i <= |r| && |r| == |pix|
      invariant forall j :: 0 <= j < i ==> r[j] == 0
    {
      r := r[i := 0];
      i := i + 1;
    }
  }

  predicate IsFullscreen(flags: bv32)
  {
    flags & WindowFullscreen != 0
  }

  /** `ToggleFullscreen`: the argument passed to `SetFullscreen`, chosen from the
      window's current flags. */
  function ToggleFullscreen(windowFlags: bv32): (arg: bv32)
    ensures arg == 0 || arg == WindowFullscreen
    ensures arg == 0 <==> IsFullscreen(windowFlags)
  {
    if windowFlags & WindowFullscreen != 0 then 0 else WindowFullscreen
  }

  /** The window's flags after `SetFullscreen(arg)`: the fullscreen bits are replaced. */
  function AfterSetFullscreen(windowFlags: bv32, arg: bv32): bv32
  {
    (windowFlags & !WindowFullscreenDesktop) | arg
  }

  /** Clearing the fullscreen bits is idempotent and clears the fullscreen bit. */
  lemma ClearFullscreenBits(f: bv32)
    ensures (f & !WindowFullscreenDesktop) & !WindowFullscreenDesktop == f & !WindowFullscreenDesktop
    ensures (f & !WindowFullscreenDesktop) & WindowFullscreen == 0
  {
  }

  /** Setting the fullscreen bit changes no flag outside the fullscreen bits. */
  lemma SetFullscreenBit(g: bv32)
    ensures (g | WindowFullscreen) & !WindowFullscreenDesktop == g & !WindowFullscreenDesktop
    ensures (g | WindowFullscreen) & WindowFullscreen != 0
  {
  }

  /** Toggling a fullscreen window leaves it windowed, other flags kept. */
  lemma ToggleLeavesFullscreen(f: bv32)
    requires IsFullscreen(f)
    ensures !IsFullscreen(AfterSetFullscreen(f, ToggleFullscreen(f)))
    ensures AfterSetFullscreen(f, ToggleFullscreen(f)) & !WindowFullscreenDesktop
            == f & !WindowFullscreenDesktop
  {
    var g := f & !WindowFullscreenDesktop;
    assert AfterSetFullscreen(f, ToggleFullscreen(f)) == g;
    ClearFullscreenBits(f);
  }

  /** Toggling a windowed window makes it fullscreen, other flags kept. */
  lemma ToggleEntersFullscreen(f: bv32)
    requires !IsFullscreen(f)
    ensures IsFullscreen(AfterSetFullscreen(f, ToggleFullscreen(f)))
    ensures AfterSetFullscreen(f, ToggleFullscreen(f)) & !WindowFullscreenDesktop
            == f & !WindowFullscreenDesktop
  {
    var g := f & !WindowFullscreenDesktop;
    assert AfterSetFullscreen(f, ToggleFullscreen(f)) == g | WindowFullscreen;
    ClearFullscreenBits(f);
    SetFullscreenBit(g);
  }

  /** Toggling twice restores the fullscreen state and every other flag. */
  lemma ToggleTwiceRestores(f: bv32)
    ensures var f1 := AfterSetFullscreen(f, ToggleFullscreen(f));
            var f2 := AfterSetFullscreen(f1, ToggleFullscreen(f1));
            IsFullscreen(f2) == IsFullscreen(f) && f2 & !WindowFullscreenDesktop == f & !WindowFullscreenDesktop
  {
    var f1 := AfterSetFullscreen(f, ToggleFullscreen(f));
    if IsFullscreen(f) {
      ToggleLeavesFullscreen(f);
      ToggleEntersFullscreen(f1);
    } else {
      ToggleEntersFullscreen(f);
      ToggleLeavesFullscreen(f1);
    }
  }
}
