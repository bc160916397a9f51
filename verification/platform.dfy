/** The SDL-facing platform layer: translation of SDL events into engine events
    through a fixed key table, the process-wide id counter and its reset in `Init`.
    SDL itself is not modelled: its event queue is a sequence given as input and
    the outcome of `sdl.Init` is a parameter. */
module Platform {
  import opened Common
  import opened Events

  const TwoTo32: int := 0x1_0000_0000
  const TwoTo31: int := 0x8000_0000

  type Uint32 = x: int | 0 <= x < TwoTo32

  // SDL2 key codes (SDL_Keycode values): printable keys are their character code,
  // the arrow keys are their scan code with bit 30 set.
  const SdlkReturn: int := 13
  const SdlkEscape: int := 27
  const SdlkRight: int := 0x4000_004F
  const SdlkLeft: int := 0x4000_0050
  const SdlkDown: int := 0x4000_0051
  const SdlkUp: int := 0x4000_0052

  /** The six SDL key codes the engine understands. */
  const KeyMapping: map<int, Key> :=
    map[SdlkUp := KeyUp, SdlkDown := KeyDown, SdlkLeft := KeyLeft,
        SdlkRight := KeyRight, SdlkEscape := KeyEsc, SdlkReturn := KeyReturn]

  /** An event as SDL delivers it; every kind the translation does not look at
      (window, mouse, joystick, ...) is `SdlOther`. */
  datatype SdlEvent =
    | SdlQuit
    | SdlKeyDown(sym: int, unicode: Uint32)
    | SdlKeyUp(sym: int, unicode: Uint32)
    | SdlOther(kind: int)

  /** The SDL key code bound to an engine key, read off the table by hand. */
  function KeycodeOf(k: Key): Option<int>
  {
    match k
    case KeyUp => Some(SdlkUp)
    case KeyDown => Some(SdlkDown)
    case KeyLeft => Some(SdlkLeft)
    case KeyRight => Some(SdlkRight)
    case KeyEsc => Some(SdlkEscape)
    case KeyReturn => Some(SdlkReturn)
    case KeyUnknown => None
  }

  /** The table and `KeycodeOf` are inverse: the table has exactly six entries,
      no two codes share a key, and `KeyUnknown` is never a table value. */
  lemma KeyMappingInverse(code: int, k: Key)
    ensures code in KeyMapping && KeyMapping[code] == k <==> KeycodeOf(k) == Some(code)
    ensures |KeyMapping| == 6
    ensures KeyUnknown !in KeyMapping.Values
  {
    assert KeyMapping.Keys == {SdlkUp, SdlkDown, SdlkLeft, SdlkRight, SdlkEscape, SdlkReturn};
    assert KeyMapping[SdlkUp] == KeyUp;
    assert KeyMapping[SdlkDown] == KeyDown;
    assert KeyMapping[SdlkLeft] == KeyLeft;
    assert KeyMapping[SdlkRight] == KeyRight;
    assert KeyMapping[SdlkEscape] == KeyEsc;
    assert KeyMapping[SdlkReturn] == KeyReturn;
  }

  /** Go's `rune(u)` for a `uint32`: the same 32 bits read as a signed integer. */
  function RuneOf(u: Uint32): (r: int)
    ensures -TwoTo31 <= r < TwoTo31
    ensures (r - u) % TwoTo32 == 0
    ensures u < TwoTo31 ==> r == u
  {
    if u < TwoTo31 then u else u - TwoTo32
  }

  /** The key and rune stored in a key event: mapped codes carry their key and
      the keysym's Unicode value, any other code gives `KeyUnknown` and rune 0. */
  function KeyFields(sym: int, unicode: Uint32): (r: (Key, int))
    ensures r.0 == KeyUnknown <==> sym !in KeyMapping
    ensures sym in KeyMapping ==> KeycodeOf(r.0) == Some(sym) && r.1 == RuneOf(unicode)
    ensures sym !in KeyMapping ==> r.1 == 0
  {
    KeyMappingInverse(sym, if sym in KeyMapping then KeyMapping[sym] else KeyUnknown);
    if sym in KeyMapping then (KeyMapping[sym], RuneOf(unicode)) else (KeyUnknown, 0)
  }

  /** One SDL event as the engine sees it; `None` is Go's nil. */
  function Translate(e: SdlEvent): (r: Option<Event>)
    ensures r.None? <==> e.SdlOther?
  {
    match e
    case SdlQuit => Some(QuitEvent)
    case SdlKeyUp(sym, u) =>
      var (k, r) := KeyFields(sym, u);
      Some(KeyUpEvent(k, r))
    case SdlKeyDown(sym, u) =>
      var (k, r) := KeyFields(sym, u);
      Some(KeyDownEvent(k, r))
    case SdlOther(_) => None
  }

  /** Each SDL event kind becomes the engine event of the same kind, key events
      carrying the key and rune `KeyFields` gives; every other kind is dropped. */
  lemma TranslateKinds(e: SdlEvent)
    ensures Translate(e) == Some(QuitEvent) <==> e.SdlQuit?
    ensures Translate(e).Some? && Translate(e).value.KeyDownEvent? <==> e.SdlKeyDown?
    ensures Translate(e).Some? && Translate(e).value.KeyUpEvent? <==> e.SdlKeyUp?
    ensures e.SdlKeyDown? || e.SdlKeyUp? ==>
              (Translate(e).value.key, Translate(e).value.rune) == KeyFields(e.sym, e.unicode)
  {
  }

  /** `platform.PollEvent`: take one event off the SDL queue and translate it.
      An empty queue and an unrecognised event both give nil. */
  function PollEvent(queue: seq<SdlEvent>): (r: (Option<Event>, seq<SdlEvent>))
    ensures |queue| == 0 ==> r == (None, queue)
    ensures |queue| > 0 ==> r.1 == queue[1..] && r.0 == Translate(queue[0])
    ensures r.0.None? <==> |queue| == 0 || queue[0].SdlOther?
  {
    if |queue| == 0 then (None, queue) else (Translate(queue[0]), queue[1..])
  }

  // ----- id counter -----------------------------------------------------------

  const MaxUint64: int := 0xFFFF_FFFF_FFFF_FFFF

  type Uint64 = x: int | 0 <= x <= MaxUint64

  /** The result of `NewId64`: an id and the counter after it, or the panic
      raised when the id space is exhausted. */
  datatype IdResult = Issued(id: Uint64, next: Uint64) | Exhausted

  /** `NewId64`: hand out the counter's value and advance it by one, refusing
      (with a panic) rather than wrapping round at the top of the range. */
  function NewId64(counter: Uint64): (r: IdResult)
    ensures r.Exhausted? <==> counter == MaxUint64
    ensures r.Issued? ==> r.id == counter && r.next == r.id + 1
  {
    if counter == MaxUint64 then Exhausted else Issued(counter, counter + 1)
  }

  /** `n` successive calls of `NewId64`, stopping at the first panic.  Ids come
      out strictly increasing, each one the previous plus one. */
  method NewIds(counter: Uint64, n: nat) returns (ids: seq<Uint64>, next: Uint64, exhausted: bool)
    ensures exhausted <==> counter + n > MaxUint64
    ensures |ids| == if exhausted then MaxUint64 - counter else n
    ensures next == counter + |ids|
    ensures forall i :: 0 <= i < |ids| ==> ids[i] == counter + i
    ensures forall i, j :: 0 <= i < j < |ids| ==> ids[i] < ids[j]
  {
    ids := [];
    next := counter;
    exhausted := false;
    var k := 0;
    while k < n
      invariant 0 <= k <= n
      invariant |ids| == k && next == counter + k
      invariant forall i :: 0 <= i < k ==> ids[i] == counter + i
    {
      var r := NewId64(next);
      if r.Exhausted? {
        exhausted := true;
        return;
      }
      ids := ids + [r.id];
      next := r.next;
      k := k + 1;
    }
  }

  /** Two successful calls in a row never hand out the same id. */
  lemma SuccessiveIdsDistinct(c: Uint64)
    requires NewId64(c).Issued? && NewId64(NewId64(c).next).Issued?
    ensures NewId64(c).id < NewId64(NewId64(c).next).id
  {
  }

  /** `platform.Init`: the id counter is reset before SDL is started, so it is
      zero whether or not SDL starts.  `sdlError` is what `sdl.Init` returned. */
  function Init(counter: Uint64, sdlError: Option<string>): (r: (Uint64, Status))
    ensures r.0 == 0
    ensures r.1 == Ok <==> sdlError.None?
    ensures sdlError.Some? ==> r.1 == Err(sdlError.value)
    ensures r.1.Ok? || r.1.Err?
  {
    match sdlError
    case None => (0, Ok)
    case Some(e) => (0, Err(e))
  }

  /** After `Init` the first id issued is 0. */
  lemma FirstIdAfterInit(counter: Uint64, sdlError: Option<string>)
    ensures NewId64(Init(counter, sdlError).0) == Issued(0, 1)
  {
  }
}
