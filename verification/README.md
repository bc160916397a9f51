# go-wolf control logic in Dafny

This project models the control logic of go-wolf, a small Wolfenstein-style
raycaster written in Go, and proves properties of it. It covers the game
object and its two screens (menu and play), the SDL platform layer's event
translation and id counter, and the configuration and window logic of the
SDL renderer. The raycaster's geometry is not modelled. It appears as a sink
for the move and rotate commands that the play screen sends it, and as an
unconstrained list of `Set`/`SetZ` calls on the play screen's render target.

Modules (one per file):

- `Common` (`common.dfy`): `Option`, `Result`, and `Status`. `Status` is
  `Ok`, a returned Go error (`Err`), or a Go panic (`Panic`).
- `Events` (`events.dfy`): the engine's keys and events (`platform.Event`).
- `Platform` (`platform.dfy`):
  - the six-entry SDL key table;
  - translation of SDL events into engine events;
  - `platform.PollEvent` over an SDL queue that is given as input;
  - `NewId64` and the counter reset in `Init`.
- `Renderer` (`renderer.dfy`):
  - the `Config` option functions and how `NewRenderer` folds them;
  - window size and flag resolution, with the desktop display mode as an input;
  - the fixed 320×200 back buffer;
  - `Clear` and `ToggleFullscreen`.
- `Screens` (`screens.dfy`):
  - the play screen's render target (`Set`, `SetZ`, `setBackBuffer`);
  - the roof/floor background fill, as a loop and as a closed form;
  - play's key dispatch;
  - the screens' `Name` and `Render`.
- `GameLoop` (`game.dfy`):
  - the `Game` record and its event filter (`PollEvent`, `PollAll`);
  - `SwitchState` together with the screens' `Enter` and `Exit`. The menu's
    `Enter` calls back into `SwitchState`, so these live in one module;
  - `Update` with its frame counter, `Render`, and `Terminate`;
  - a step semantics over all of these, used to show that `running` never
    comes back.

How the Go code is represented:

- The game's current screen is the key it is registered under in the states
  map. The play screen's mutable parts are stored in the map value: its
  render target and the list of commands it has sent to the raycaster.
- `Game.trace` records every `Exit` and `Enter` call with its argument. This
  lets the model state the order in which the screens are told about a switch.
- The menu's `Enter` re-enters `SwitchState("play")`. If "play" itself names
  a menu screen, this recursion never ends in Go. The model bounds the nesting
  at `MaxNesting` and reports a panic past it.
- `PollAll` does not always drain the SDL queue. It stops after the first SDL
  event of a kind the platform does not translate (a mouse or window event,
  say), because that event reads as nil. The model follows the code here.
  `PollAllDrains` and `PollAllStopsAtOther` state both cases.

## Model

| member | source | states |
|---|---|---|
| `Platform.KeyMappingInverse` | platform/platform_sdl.go:29-36 | The key table has exactly six entries. Code and key correspond one to one in both directions. `KeyUnknown` is never a table value. |
| `Platform.RuneOf` | platform/platform_sdl.go:87 | `rune(uint32)` is a 32-bit signed value congruent to its input modulo 2^32, and equal to it below 2^31. |
| `Platform.KeyFields` | platform/platform_sdl.go:84-90 | A mapped code carries the key bound to that code and the keysym's rune. Any other code gives `KeyUnknown` with rune 0. |
| `Platform.Translate` | platform/platform_sdl.go:71-94 | Exactly the SDL event kinds that are not quit, key-up, or key-down become nil. |
| `Platform.TranslateKinds` | platform/platform_sdl.go:72-91 | Quit becomes `QuitEvent`. Key-down becomes `KeyDownEvent` and key-up becomes `KeyUpEvent`, both carrying `KeyFields` of the keysym. Each of these holds in both directions. |
| `Platform.PollEvent` | platform/platform_sdl.go:65-95 | An empty SDL queue gives nil and leaves the queue alone. Otherwise one event is removed and translated. The result is nil iff the queue was empty or the event was of another kind. |
| `Platform.NewId64` | platform/platform.go:36-41 | At MaxUint64 the call panics instead of wrapping. Otherwise it returns the counter from before the increment and advances the counter by exactly one. |
| `Platform.NewIds` | platform/platform.go:36-41 | `n` successive calls give ids `counter, counter+1, ...`, strictly increasing. The calls stop with a panic iff `counter + n` passes MaxUint64. |
| `Platform.SuccessiveIdsDistinct` | platform/platform.go:40 | Two successful calls in a row hand out different, increasing ids. |
| `Platform.Init` | platform/platform_sdl.go:53-59 | The id counter is 0 afterwards, whether SDL starts or not. An SDL failure is returned as exactly the error `sdl.Init` gave. |
| `Platform.FirstIdAfterInit` | platform/platform_sdl.go:54 | After `Init` the next id issued is 0. |
| `Renderer.ApplyOption` | platform/renderer_sdl.go:34-68 | Each option function succeeds and writes its own argument into its own field, leaving every other field as it was. Only a caller-supplied failing option fails, with its own error. |
| `Renderer.OptionsOnDistinctFieldsCommute` | platform/renderer_sdl.go:34-68 | Two options that write different configuration fields can be applied in either order with the same result. |
| `Renderer.FirstFailing` | platform/renderer_sdl.go:94-98 | This is the index of the first failing option: every option before it succeeds, and the option at it fails. |
| `Renderer.ApplyConfigs` | platform/renderer_sdl.go:94-98 | The option loop succeeds iff no option fails. A failure carries the error of one of the options. |
| `Renderer.ApplyConfigsAppend` | platform/renderer_sdl.go:94-98 | Options are applied in argument order. Applying `a + b` applies `a`, then `b` to its result, and stops at `a`'s error. |
| `Renderer.ApplyConfigsFailure` | platform/renderer_sdl.go:94-98 | Construction aborts iff some option fails. It aborts with the first failing option's error. |
| `Renderer.OtherFieldsKept` | platform/renderer_sdl.go:94-98 | A run of options none of which writes a given field leaves that field exactly as it was (`SameOn`), a false flag included. |
| `Renderer.LastWriterWins` | platform/renderer_sdl.go:94-98 | For every field (size, title, divisor, and the three flags), the last option that writes it decides its final value, whatever came before. |
| `Renderer.LastSizeWins` | platform/renderer_sdl.go:34-39 | A trailing size option overrides every earlier size option. |
| `Renderer.FullscreenIffRequested` | platform/renderer_sdl.go:55-58 | The fullscreen field is set at the end iff it was set at the start or the fullscreen option occurs among the options. |
| `Renderer.GoQuo` | platform/renderer_sdl.go:117-118 | Go's `/=` by a positive divisor is a quotient that rounds toward zero. Its bounds are stated for both signs of the dividend. |
| `Renderer.ResolveDim` | platform/renderer_sdl.go:109-119 | A non-positive request takes the desktop size. Only a positive divisor then divides, rounding toward zero. |
| `Renderer.NewRenderer` | platform/renderer_sdl.go:85-127 | Option errors come first, with the option's own error. When the options succeed and the display-mode query fails, its error is returned unchanged. On success the result has the configured title and resolved sizes, and a 320×200 buffer. The flags contain SHOWN, contain the fullscreen bit iff the fullscreen option was given, and contain nothing else. |
| `Renderer.SizeRequestHonoured` | platform/renderer_sdl.go:109-114 | A positive size request with no divisor becomes exactly the window size. |
| `Renderer.Clear` | platform/renderer_sdl.go:159-164 | Every byte of the pixel buffer becomes 0, and the length is kept. |
| `Renderer.ToggleFullscreen` | platform/renderer_sdl.go:146-153 | It passes 0 iff the window is currently fullscreen, and the fullscreen flag otherwise. |
| `Renderer.ToggleLeavesFullscreen` | platform/renderer_sdl.go:147-149 | Toggling a fullscreen window leaves it windowed, and every flag outside the fullscreen bits is kept. |
| `Renderer.ToggleEntersFullscreen` | platform/renderer_sdl.go:150-151 | Toggling a windowed window makes it fullscreen, and every flag outside the fullscreen bits is kept. |
| `Renderer.ToggleTwiceRestores` | platform/renderer_sdl.go:146-153 | Two toggles restore both the fullscreen state and all other flags. |
| `Screens.SetPixel` | game/play/play.go:43-47 | With no buffer attached, nothing changes. Otherwise exactly the one pixel changes, and only if it is inside the bounds. The size is kept. |
| `Screens.SetZ` | game/play/play.go:49-53 | With no buffer attached, nothing changes. Otherwise only `depth[x]` becomes `z`. An index outside the depth array panics. |
| `Screens.SetBackBuffer` | game/play/play.go:55-59 | The target is attached with the image's bounds and one zeroed depth entry per column. |
| `Screens.Background` | game/play/play.go:131-143 | The closed form of the fill: every pixel of a `w` by `h` buffer is roof where `2*y <= h` and floor elsewhere. |
| `Screens.BackgroundSplit` | game/play/play.go:135-139 | The roof covers exactly the rows with `2*y <= H`. For an even height the middle row is roof and the next row is floor. |
| `Screens.FillBackground` | game/play/play.go:135-143 | The nested fill loop writes every pixel: roof where `2*y <= H`, floor elsewhere. The size is kept. |
| `Screens.FillMatchesBackground` | game/play/play.go:131-143 | The loop's output equals the closed-form background of the buffer's size. |
| `Screens.Dispatch` | game/play/play.go:103-121 | A quit terminates and a key release does nothing. A command is issued only for a key-down of that command's key, and never the start move. |
| `Screens.DispatchInverse` | game/play/play.go:102-122 | A key-down issues command `c` iff the key is `c`'s key. Only a quit terminates. Key releases and other keys do nothing. |
| `Screens.OppositeKeysOppositeSigns` | game/play/play.go:108-119 | Up and Down move with opposite signs. Left and Right rotate with opposite signs. |
| `Screens.Name` | game/menu/menu.go:33-35 | The name is "menu" iff the screen is the menu, and "play" iff it is the play screen (game/play/play.go:79-81). |
| `Screens.ApplyPaints` | game/play/play.go:43-53 | The raycaster's `Set` and `SetZ` calls on the render target: all are no-ops before a buffer is attached. Pixels and depth columns no call writes keep their values, and the target's shape is kept. The frame panics iff some depth write falls outside the depth array. What the calls write is stated by `Screens.ApplyPaintsLastWrite` below. |
| `Screens.ApplyPaintsAppend` | game/play/play.go:43-53 | The calls take effect in order: running `a + b` runs `a`, then `b` on its result, unless `a` already panicked. |
| `Screens.ApplyPaintsLastWrite` | game/play/play.go:43-53 | On an attached target a frame that does not panic leaves in every in-bounds pixel the colour of the last `Set` on it, and in every depth column the value of the last `SetZ` on it. |
| `Screens.LastWriteIffWritten` | game/play/play.go:43-53 | A pixel or depth column has a last write exactly when some call in the frame writes it, so the last-write and keep-unwritten facts cover every pixel and column. |
| `Screens.RenderScreen` | game/play/play.go:126-147 | The menu draws nothing. The play screen attaches the buffer only when none is attached and keeps its commands. Every pixel the raycaster does not draw is the roof/floor background. When the frame does not panic, every drawn pixel and written depth column holds the value of the raycaster's last call on it. It panics iff a raycaster depth write is out of range. |
| `Screens.RenderAttachesOnce` | game/play/play.go:127-129 | Rendering never reattaches: the target stays attached, and its bounds and depth length are set once, from the first buffer. |
| `Screens.DepthSurvivesRender` | game/play/play.go:127-129 | The attach guard does not re-zero depth: on an attached target only the raycaster's own `SetZ` calls change a column's depth during a render. |
| `GameLoop.NewGame` | game/game.go:49-51 | A new game is running, has no current screen and zero counters, and holds the given states. |
| `GameLoop.SwallowedIsQuitOrEscape` | game/game.go:65-73 | An SDL event is swallowed by the game iff it translates to a quit or to a key-down of Escape. |
| `GameLoop.PollEvent` | game/game.go:58-79 | It never returns a quit or an Escape key-down. Only the queue and `running` change, and `running` can only be cleared. |
| `GameLoop.PollEventFirstUnswallowed` | game/game.go:58-79 | Take the first unswallowed event. Its translation is returned, nil exactly when it has none, and the queue after it is left. `running` survives only if that event was first in the queue. |
| `GameLoop.PollEventAllSwallowed` | game/game.go:59-72 | If every queued event is swallowed, the queue is drained and nil is returned. `running` survives only an empty queue. |
| `GameLoop.PollAll` | game/game.go:53-56 | Only the queue and `running` change, and `running` can only be cleared. |
| `GameLoop.PollAllDrains` | game/game.go:53-56 | With no untranslatable event queued, the queue is drained. `running` survives iff none of the events was a quit or an Escape key-down. |
| `GameLoop.PollAllStopsAtOther` | game/game.go:53-56 | `PollAll` stops right after the first untranslatable event and leaves the rest unread. `running` survives iff nothing before it was swallowed. |
| `GameLoop.ReturnedAreVisible` | game/game.go:58-79 | The events handed out during `PollAll` are exactly the reference filter of what was consumed: untranslatable and swallowed events removed, order kept. |
| `GameLoop.NoQuitOrEscapeReturned` | game/game.go:65-73 | No handed-out event is a quit or an Escape key-down. |
| `GameLoop.Terminate` | game/game.go:118-120 | `running` becomes false and nothing else changes. |
| `GameLoop.SwitchStateN` | game/game.go:85-108 | An unknown name returns "invalid state" with the game unchanged. Otherwise `Exit(to)` is called on the old screen only if there is one. The new screen becomes current before its `Enter` runs, and `Enter` receives the previous screen. Play's `Enter` issues exactly one start move. The menu's `Enter` hands over to "play", and an error there is the missing "play". The menu's `Enter` panics when `args` is empty or `args[0]` is not a `GameControl` (game/menu/menu.go:38). With the game as argument and a play screen under "play", it returns no error. |
| `GameLoop.SwitchState` | game/game.go:85-89 | An unknown name is an error with the game unchanged. A known non-menu screen becomes current. |
| `GameLoop.MenuHandsOverToPlay` | game/menu/menu.go:37-39 | Entering the menu ends with play current. The trace is: menu entered, menu exited towards play, play entered from the menu. One start move is sent. |
| `GameLoop.FreshGameStartsPlaying` | game/menu/menu.go:37-39 | On a fresh game with the standard screens, switching to "menu" ends in "play". Each screen is entered once, the menu is exited once, and the game is still running. |
| `GameLoop.FailedEnterStillSwitches` | game/game.go:100-105 | If the menu's `Enter` fails because "play" is missing, the menu is still current and the error is returned. |
| `GameLoop.CurrentStateName` | game/game.go:81-83 | The result is the current screen's own name. A nil current screen panics. |
| `GameLoop.PlayUpdate` | game/play/play.go:92-124 | Play's event loop only appends to the command log, at most one command per consumed event and never the start move. Only the queue and `running` change, and `running` can only be cleared. |
| `GameLoop.PlayUpdateIsPollAll` | game/play/play.go:102-122 | Play's `Update` consumes exactly what `PollAll` consumes. Its quit branch is never taken. It logs one command per arrow key-down that was handed out, in order. |
| `GameLoop.Update` | game/game.go:122-139 | A nil current screen panics. Otherwise the screen reads events until `PollEvent` returns nil, as `PollAll` does, with play logging the commands above. The frame count goes up by one; once a second has passed, `fps` takes the count and the counter resets to 0. |
| `GameLoop.FpsCountsFrames` | game/game.go:131-136 | From any count, `n-1` short frames followed by one frame a second later give `fps` equal to the old count plus `n`, and reset the counter. |
| `GameLoop.Render` | game/game.go:141-146 | A nil current screen panics. Otherwise only the current screen may change. The menu draws nothing. Play is attached afterwards and keeps its commands. Every pixel its raycaster does not draw is background. Without a panic every drawn pixel has the colour of its last `Set`. It panics iff a raycaster depth write is out of range. |
| `GameLoop.Apply` | game/game.go:49-146 | No single call on the game can set `running` back to true, and the set of screens is kept. |
| `GameLoop.StoppedStaysStopped` | game/game.go:50 | Once the game has stopped, no sequence of calls restarts it. |

## Left out

- The raycaster (`engine.Raycaster`: `Move`, `Rotate`, `Dir`, `Render`, sprites) is not part of this model. It is floating-point geometry that lives in the `engine` package, which this model does not cover. Play records only the kind and sign of each command it sends.
- `Screens.RenderScreen`: which calls the raycaster's `Render` makes through the render target's `Set` and `SetZ` (wall pixels and per-column depth) is an unconstrained input list, because computing them is the raycaster's geometry. The model promises what those calls leave behind, not which calls a given world and camera produce.
- Floating-point magnitudes (move and rotate speeds scaled by `dt`, the start offset (22.0, 11.5)) are left out. Only the command kind and sign remain.
- Colour values and the image library types are left out. Colours are an abstract enum, and images are assumed to have bounds starting at the origin.
- Wall-clock time is left out. `Update` takes "a second or more has passed" as a boolean input. `dt`, `tick` and `Timing` are not modelled.
- SDL itself is left out: window, renderer and texture creation, `Present`, `Shutdown`, cursor hiding, and the `init()` that locks the OS thread and creates the configuration directory. The SDL event queue and the desktop display mode are inputs.
- `CfgRootJoin` is left out: it is a thin wrapper over Go's `path` package. `world/world.go` (file loading) and `entry/desktop.go` (the main loop) are not part of this model.
- The atomic increment in `NewId64` is modelled sequentially.
- The error-return branches for a failing `Exit` in `SwitchState`, and for a failing screen `Update` or `Render` in `Game`, are not modelled. Both screens always return a nil error there, so these branches cannot be reached in this program. A panic inside a screen's `Render` is modelled.
- Aliasing is not modelled: the model does not represent one screen object registered under two names.
- `Game.Running` is the `running` field itself.
- The `debug` and `novsync` options are set but never read by the renderer code modelled here.
- The effect of `SetFullscreen` on the window flags is an assumption: it replaces the fullscreen bits with its argument.
- `GameLoop.SwitchStateN`: an argument is either this game's own `GameControl` (`ControlArg`, as entry/desktop.go:56-57 passes) or not a `GameControl` at all. A different `GameControl`, on which the menu would call `SwitchState`, cannot be expressed.
- `GameLoop.SwitchStateN`: Go's unbounded recursion, when "play" names a menu, is cut at `MaxNesting` levels and reported as a panic in place of a stack overflow.
- `GameLoop.Render`: the back buffer passed in is assumed to be the one the play screen attaches. The entry point always passes the renderer's own back buffer.
