/** The game: a map of named screens, the current one, the running flag, the
    frame counter, and the SDL event queue the game reads from.  This module
    also holds the screens' `Enter` and `Update` behaviour, because the menu's
    `Enter` calls back into `SwitchState`.

    `trace` records every `Exit` and `Enter` call with its argument, so that
    properties about the order of those calls can be stated. */
module GameLoop {
  import opened Common
  import opened Events
  import Platform
  import opened Screens

  /** An argument passed through `SwitchState` to `Enter`: the game's own
      `GameControl`, or a value that is not a `GameControl`.  A `GameControl`
      other than this game cannot be expressed: `ControlArg` is always the
      game the menu belongs to, which is what the desktop start-up passes. */
  datatype Arg = ControlArg | OtherArg

  /** `Exited(k, to)`: the screen under key `k` was told to exit towards `to`.
      `Entered(k, from)`: the screen under `k` was entered from `from`. */
  datatype Hook = Entered(key: string, from: Option<string>) | Exited(key: string, to: string)

  /** `current` is the key of the current screen in `states`. */
  datatype Game = Game(
    states: map<string, Screen>,
    current: Option<string>,
    running: bool,
    numFrames: nat,
    fps: nat,
    queue: seq<Platform.SdlEvent>,
    trace: seq<Hook>)

  predicate Valid(g: Game)
  {
    g.current.Some? ==> g.current.value in g.states
  }

  /** `NewGame`: running, no current screen, nothing counted yet. */
  function NewGame(states: map<string, Screen>, queue: seq<Platform.SdlEvent>): (g: Game)
    ensures Valid(g) && g.running && g.current.None?
    ensures g.states == states && g.queue == queue && g.trace == []
    ensures g.numFrames == 0 && g.fps == 0
  {
    Game(states, None, true, 0, 0, queue, [])
  }

  /** The screens as the desktop entry point registers them. */
  const StandardStates: map<string, Screen> := map["menu" := MenuScreen, "play" := NewPlayScreen]

  // ----- the event filter -------------------------------------------------------

  /** Everything but the queue and the running flag is the same in `g` and `h`. */
  predicate SameScreensAndCounters(g: Game, h: Game)
  {
    && g.states == h.states && g.current == h.current && g.trace == h.trace
    && g.numFrames == h.numFrames && g.fps == h.fps
  }

  /** An SDL event the game consumes itself: a quit request or Escape pressed. */
  predicate Swallowed(e: Platform.SdlEvent)
  {
    e.SdlQuit? || (e.SdlKeyDown? && e.sym == Platform.SdlkEscape)
  }

  /** Read through the translation: an event is swallowed exactly when it
      becomes a `QuitEvent` or a key-down of `KeyEsc`. */
  lemma SwallowedIsQuitOrEscape(e: Platform.SdlEvent)
    ensures Swallowed(e) <==> Platform.Translate(e).Some? && IsQuitOrEscape(Platform.Translate(e).value)
  {
    Platform.TranslateKinds(e);
    if e.SdlKeyDown? {
      Platform.KeyMappingInverse(e.sym, KeyEsc);
    }
  }

  /** The two cases of the type switch in `Game.PollEvent` that set `running`
      to false and keep reading. */
  predicate IsQuitOrEscape(ev: Event)
  {
    ev == QuitEvent || (ev.KeyDownEvent? && ev.key == KeyEsc)
  }

  /** `Game.PollEvent`: take platform events until one is neither a quit nor an
      Escape key-down, clearing `running` for each one skipped.  `None` when the
      platform returns nil.  No quit and no Escape key-down is ever returned. */
  function PollEvent(g: Game): (r: (Game, Option<Event>))
    decreases |g.queue|
    ensures |r.0.queue| <= |g.queue|
    ensures r.1.Some? ==> |r.0.queue| < |g.queue|
    ensures r.0.running ==> g.running
    ensures SameScreensAndCounters(g, r.0)
    ensures r.1.Some? ==> !IsQuitOrEscape(r.1.value)
  {
    var (e, rest) := Platform.PollEvent(g.queue);
    match e
    case None => (g.(queue := rest), None)
    case Some(ev) =>
      if IsQuitOrEscape(ev) then PollEvent(g.(queue := rest, running := false))
      else (g.(queue := rest), Some(ev))
  }

  /** The SDL events in `s` are all swallowed, or none of them is. */
  predicate AllSwallowed(s: seq<Platform.SdlEvent>)
  {
    forall i :: 0 <= i < |s| ==> Swallowed(s[i])
  }

  predicate NoneSwallowed(s: seq<Platform.SdlEvent>)
  {
    forall i :: 0 <= i < |s| ==> !Swallowed(s[i])
  }

  /** `PollEvent` one SDL event at a time: an empty queue gives nil; a swallowed
      head clears `running` and reading goes on; any other head is translated and
      returned, nil included. */
  lemma PollEventStep(g: Game)
    ensures |g.queue| == 0 ==> PollEvent(g) == (g, None)
    ensures |g.queue| > 0 && Swallowed(g.queue[0]) ==>
              PollEvent(g) == PollEvent(g.(queue := g.queue[1..], running := false))
    ensures |g.queue| > 0 && !Swallowed(g.queue[0]) ==>
              PollEvent(g) == (g.(queue := g.queue[1..]), Platform.Translate(g.queue[0]))
  {
    if |g.queue| > 0 {
      SwallowedIsQuitOrEscape(g.queue[0]);
    }
  }

  /** If the event at `j` is the first one not swallowed, `PollEvent` returns
      its translation (nil when it has none) and leaves what follows it;
      `running` survives only if nothing was swallowed on the way. */
  lemma {:induction false} PollEventFirstUnswallowed(g: Game, j: nat)
    requires j < |g.queue| && !Swallowed(g.queue[j]) && AllSwallowed(g.queue[..j])
    ensures PollEvent(g).1 == Platform.Translate(g.queue[j])
    ensures PollEvent(g).0.queue == g.queue[j + 1..]
    ensures PollEvent(g).0.running <==> g.running && j == 0
    decreases j
  {
    PollEventStep(g);
    if j > 0 {
      assert g.queue[..j][0] == g.queue[0];
      var g2 := g.(queue := g.queue[1..], running := false);
      assert g2.queue[..j - 1] == g.queue[1..j];
      assert g2.queue[j - 1] == g.queue[j];
      PollEventFirstUnswallowed(g2, j - 1);
      assert g2.queue[j..] == g.queue[j + 1..];
    }
  }

  /** If every queued event is swallowed, `PollEvent` drains the queue, returns
      nil, and `running` survives only an empty queue. */
  lemma {:induction false} PollEventAllSwallowed(g: Game)
    requires AllSwallowed(g.queue)
    ensures PollEvent(g).1.None? && PollEvent(g).0.queue == []
    ensures PollEvent(g).0.running <==> g.running && |g.queue| == 0
    decreases |g.queue|
  {
    PollEventStep(g);
    if |g.queue| > 0 {
      assert Swallowed(g.queue[0]);
      var g2 := g.(queue := g.queue[1..], running := false);
      assert forall i :: 0 <= i < |g2.queue| ==> g2.queue[i] == g.queue[i + 1];
      PollEventAllSwallowed(g2);
    }
  }

  /** `PollAll`: call `PollEvent` until it returns nil. */
  function PollAll(g: Game): (r: Game)
    decreases |g.queue|
    ensures |r.queue| <= |g.queue|
    ensures r.running ==> g.running
    ensures SameScreensAndCounters(g, r)
  {
    var (g1, e) := PollEvent(g);
    if e.None? then g1 else PollAll(g1)
  }

  /** `PollAll` one SDL event at a time: it stops right after an event without
      an engine counterpart, and otherwise goes on with the rest of the queue,
      clearing `running` if the event was swallowed. */
  lemma PollAllStep(g: Game)
    ensures |g.queue| == 0 ==> PollAll(g) == g
    ensures |g.queue| > 0 && g.queue[0].SdlOther? ==> PollAll(g) == g.(queue := g.queue[1..])
    ensures |g.queue| > 0 && !g.queue[0].SdlOther? ==>
              PollAll(g) == PollAll(g.(queue := g.queue[1..], running := g.running && !Swallowed(g.queue[0])))
  {
    PollEventStep(g);
    if |g.queue| > 0 && Swallowed(g.queue[0]) {
      var g2 := g.(queue := g.queue[1..], running := false);
      assert PollAll(g) == PollAll(g2) by {
        assert PollEvent(g) == PollEvent(g2);
      }
    }
  }

  /** With no untranslatable event queued, `PollAll` drains the queue, and
      `running` survives only if no queued event was a quit or an Escape key-down. */
  lemma {:induction false} PollAllDrains(g: Game)
    requires forall i :: 0 <= i < |g.queue| ==> !g.queue[i].SdlOther?
    ensures PollAll(g).queue == []
    ensures PollAll(g).running <==> g.running && NoneSwallowed(g.queue)
    decreases |g.queue|
  {
    PollAllStep(g);
    if |g.queue| > 0 {
      var g1 := g.(queue := g.queue[1..], running := g.running && !Swallowed(g.queue[0]));
      assert forall i :: 0 <= i < |g1.queue| ==> g1.queue[i] == g.queue[i + 1];
      PollAllDrains(g1);
      assert NoneSwallowed(g.queue) <==> !Swallowed(g.queue[0]) && NoneSwallowed(g1.queue);
    }
  }

  /** `PollAll` stops right after the first untranslatable event `j`, leaving
      the rest of the queue unread; `running` survives only if no event up to
      `j` was a quit or an Escape key-down. */
  lemma {:induction false} PollAllStopsAtOther(g: Game, j: nat)
    requires j < |g.queue| && g.queue[j].SdlOther?
    requires forall i :: 0 <= i < j ==> !g.queue[i].SdlOther?
    ensures PollAll(g).queue == g.queue[j + 1..]
    ensures PollAll(g).running <==> g.running && forall i :: 0 <= i < j ==> !Swallowed(g.queue[i])
    decreases j
  {
    PollAllStep(g);
    if j > 0 {
      var q := g.queue;
      var g1 := g.(queue := q[1..], running := g.running && !Swallowed(q[0]));
      assert g1.queue[j - 1] == q[j];
      assert forall i :: 0 <= i < j - 1 ==> g1.queue[i] == q[i + 1];
      PollAllStopsAtOther(g1, j - 1);
      assert g1.queue[j..] == q[j + 1..];
      assert (forall i :: 0 <= i < j ==> !Swallowed(q[i])) <==>
             !Swallowed(q[0]) && forall i :: 0 <= i < j - 1 ==> !Swallowed(g1.queue[i]);
    }
  }

  /** The events `PollEvent` hands out, in order, during one `PollAll`. */
  function Returned(g: Game): seq<Event>
    decreases |g.queue|
  {
    var (g1, e) := PollEvent(g);
    if e.None? then [] else [e.value] + Returned(g1)
  }

  /** `Returned` one SDL event at a time. */
  lemma ReturnedStep(g: Game)
    ensures |g.queue| == 0 ==> Returned(g) == []
    ensures |g.queue| > 0 && g.queue[0].SdlOther? ==> Returned(g) == []
    ensures |g.queue| > 0 && Swallowed(g.queue[0]) ==>
              Returned(g) == Returned(g.(queue := g.queue[1..], running := false))
    ensures |g.queue| > 0 && !g.queue[0].SdlOther? && !Swallowed(g.queue[0]) ==>
              Returned(g) == [Platform.Translate(g.queue[0]).value] + Returned(g.(queue := g.queue[1..]))
  {
    PollEventStep(g);
    if |g.queue| > 0 && Swallowed(g.queue[0]) {
      var g2 := g.(queue := g.queue[1..], running := false);
      assert PollEvent(g) == PollEvent(g2);
    }
  }

  /** The reference filter: the translations of the events that are neither
      swallowed nor untranslatable, in queue order. */
  function Visible(s: seq<Platform.SdlEvent>): seq<Event>
  {
    if |s| == 0 then []
    else
      var t := Platform.Translate(s[0]);
      (if t.Some? && !Swallowed(s[0]) then [t.value] else []) + Visible(s[1..])
  }

  /** During `PollAll` the game hands out exactly the visible events of what it
      consumes: every swallowed event is hidden and nothing is reordered. */
  lemma {:induction false} ReturnedAreVisible(g: Game)
    ensures Returned(g) == Visible(g.queue[..|g.queue| - |PollAll(g).queue|])
    decreases |g.queue|
  {
    PollAllStep(g);
    ReturnedStep(g);
    var q := g.queue;
    if |q| > 0 {
      var k := |q| - |PollAll(g).queue|;
      if q[0].SdlOther? {
        assert q[..k] == [q[0]];
        assert Visible(q[..k]) == [] + Visible([]);
      } else {
        var g1 := g.(queue := q[1..], running := g.running && !Swallowed(q[0]));
        ReturnedAreVisible(g1);
        var k1 := |g1.queue| - |PollAll(g1).queue|;
        assert k == k1 + 1;
        assert q[..k][0] == q[0];
        assert q[..k][1..] == g1.queue[..k1];
        if Swallowed(q[0]) {
          ReturnedSameQueue(g1, g.(queue := q[1..], running := false));
        } else {
          ReturnedSameQueue(g1, g.(queue := q[1..]));
        }
      }
    }
  }

  /** What `PollEvent` hands out does not depend on `running` or on the screens. */
  lemma {:induction false} ReturnedSameQueue(g: Game, h: Game)
    requires g.queue == h.queue
    ensures Returned(g) == Returned(h)
    decreases |g.queue|
  {
    ReturnedStep(g);
    ReturnedStep(h);
    if |g.queue| > 0 && !g.queue[0].SdlOther? {
      if Swallowed(g.queue[0]) {
        ReturnedSameQueue(g.(queue := g.queue[1..], running := false), h.(queue := h.queue[1..], running := false));
      } else {
        ReturnedSameQueue(g.(queue := g.queue[1..]), h.(queue := h.queue[1..]));
      }
    }
  }

  /** No screen is ever handed a quit or an Escape key-down. */
  lemma {:induction false} NoQuitOrEscapeReturned(g: Game)
    ensures forall i :: 0 <= i < |Returned(g)| ==>
              Returned(g)[i] != QuitEvent
              && !(Returned(g)[i].KeyDownEvent? && Returned(g)[i].key == KeyEsc)
    decreases |g.queue|
  {
    var (g1, e) := PollEvent(g);
    if e.Some? {
      NoQuitOrEscapeReturned(g1);
    }
  }

  /** `Terminate`. */
  function Terminate(g: Game): (r: Game)
    ensures !r.running
    ensures r.(running := g.running) == g
  {
    g.(running := false)
  }

  // ----- switching screens --------------------------------------------------------

  /** How deep `SwitchState` may nest through menu entries before Go's stack
      gives out; reached only when "play" names a menu screen. */
  const MaxNesting: nat := 16

  /** Whether entering `to` makes the menu switch on to "play". */
  predicate Reenters(g: Game, to: string, args: seq<Arg>, depth: nat)
    requires to in g.states
  {
    g.states[to].MenuScreen? && |args| > 0 && args[0].ControlArg? && depth > 0 && "play" in g.states
  }

  /** `SwitchState` with `depth` levels of nesting left.  The menu's `Enter`
      switches to "play" passing its first argument on, and fails like Go when
      that argument is missing or is not the game.  The play screen's `Enter`
      sends the start move to the raycaster.  Both `Exit`s succeed. */
  function SwitchStateN(g: Game, to: string, args: seq<Arg>, depth: nat): (r: (Game, Status))
    decreases depth
    ensures to !in g.states ==> r == (g, Err("invalid state: " + to))
    ensures Valid(g) ==> Valid(r.0)
    ensures r.0.states.Keys == g.states.Keys
    ensures r.0 == g.(states := r.0.states, current := r.0.current, trace := r.0.trace)
    ensures to in g.states ==>
              r.0.current == if Reenters(g, to, args, depth) then Some("play") else Some(to)
    ensures to in g.states ==>
              var e := |g.trace| + if g.current.Some? then 1 else 0;
              && g.trace < r.0.trace && |r.0.trace| > e
              && (g.current.Some? ==> r.0.trace[|g.trace|] == Exited(g.current.value, to))
              && r.0.trace[e] == Entered(to, g.current)
    ensures to in g.states && g.states[to].PlayScreen? ==>
              r.1 == Ok && r.0.states == g.states[to := PlayScreen(g.states[to].rt, g.states[to].commands + [MoveToStart])]
    ensures to in g.states && g.states[to].MenuScreen? && (|args| == 0 || !args[0].ControlArg? || depth == 0) ==>
              r.1.Panic?
    ensures to in g.states && g.states[to].MenuScreen? && Reenters(g, to, args, depth) && g.states["play"].PlayScreen? ==>
              r.1 == Ok
    ensures r.1.Err? ==>
              (to !in g.states && r.0 == g)
              || (to in g.states && g.states[to].MenuScreen? && "play" !in g.states && r.1 == Err("invalid state: play"))
  {
    if to !in g.states then (g, Err("invalid state: " + to))
    else
      var prev := g.current;
      var g1 := if prev.Some? then g.(trace := g.trace + [Exited(prev.value, to)]) else g;
      var g2 := g1.(current := Some(to), trace := g1.trace + [Entered(to, prev)]);
      match g.states[to]
      case PlayScreen(rt, cmds) =>
        (g2.(states := g2.states[to := PlayScreen(rt, cmds + [MoveToStart])]), Ok)
      case MenuScreen =>
        if |args| == 0 then (g2, Panic("index out of range"))
        else if !args[0].ControlArg? then (g2, Panic("interface conversion"))
        else if depth == 0 then (g2, Panic("stack overflow"))
        else SwitchStateN(g2, "play", [args[0]], depth - 1)
  }

  /** `SwitchState`. */
  function SwitchState(g: Game, to: string, args: seq<Arg>): (r: (Game, Status))
    ensures to !in g.states ==> r == (g, Err("invalid state: " + to))
    ensures to in g.states && !g.states[to].MenuScreen? ==> r.0.current == Some(to)
  {
    SwitchStateN(g, to, args, MaxNesting)
  }

  /** Entering the menu hands over to the play screen: menu entered from the
      previous screen, menu exited towards play, play entered from the menu,
      and exactly one start move sent to the raycaster. */
  lemma MenuHandsOverToPlay(g: Game)
    requires "menu" in g.states && g.states["menu"] == MenuScreen
    requires "play" in g.states && g.states["play"].PlayScreen?
    ensures var r := SwitchState(g, "menu", [ControlArg]);
            var p := g.states["play"];
            && r.1 == Ok
            && r.0.current == Some("play")
            && r.0.trace == g.trace
                 + (if g.current.Some? then [Exited(g.current.value, "menu")] else [])
                 + [Entered("menu", g.current), Exited("menu", "play"), Entered("play", Some("menu"))]
            && r.0.states == g.states["play" := PlayScreen(p.rt, p.commands + [MoveToStart])]
  {
    var g1 := if g.current.Some? then g.(trace := g.trace + [Exited(g.current.value, "menu")]) else g;
    var g2 := g1.(current := Some("menu"), trace := g1.trace + [Entered("menu", g.current)]);
    assert SwitchState(g, "menu", [ControlArg]) == SwitchStateN(g2, "play", [ControlArg], MaxNesting - 1);
  }

  /** The desktop start-up: a fresh game switched to "menu" is playing, with
      the start move issued once. */
  lemma FreshGameStartsPlaying(queue: seq<Platform.SdlEvent>)
    ensures var r := SwitchState(NewGame(StandardStates, queue), "menu", [ControlArg]);
            && r.1 == Ok && r.0.current == Some("play") && r.0.running
            && r.0.trace == [Entered("menu", None), Exited("menu", "play"), Entered("play", Some("menu"))]
            && r.0.states["play"].commands == [MoveToStart]
  {
    MenuHandsOverToPlay(NewGame(StandardStates, queue));
  }

  /** When "play" is missing, entering the menu still makes it current even
      though its `Enter` fails. */
  lemma FailedEnterStillSwitches(g: Game)
    requires "menu" in g.states && g.states["menu"] == MenuScreen && "play" !in g.states
    ensures SwitchState(g, "menu", [ControlArg]) ==
              (g.(current := Some("menu"),
                  trace := g.trace + (if g.current.Some? then [Exited(g.current.value, "menu")] else [])
                                   + [Entered("menu", g.current)]),
               Err("invalid state: play"))
  {
    var g1 := if g.current.Some? then g.(trace := g.trace + [Exited(g.current.value, "menu")]) else g;
    var g2 := g1.(current := Some("menu"), trace := g1.trace + [Entered("menu", g.current)]);
    assert SwitchState(g, "menu", [ControlArg]) == SwitchStateN(g2, "play", [ControlArg], MaxNesting - 1);
    assert "play" !in g2.states;
    assert SwitchStateN(g2, "play", [ControlArg], MaxNesting - 1) == (g2, Err("invalid state: " + "play"));
    var t := g.trace + (if g.current.Some? then [Exited(g.current.value, "menu")] else []) + [Entered("menu", g.current)];
    assert g2.trace == t by {
      if g.current.None? {
        assert g.trace + [] == g.trace;
      }
    }
  }

  /** `CurrentStateName`: the current screen's own name; a nil current screen panics. */
  function CurrentStateName(g: Game): (r: (string, Status))
    requires Valid(g)
    ensures r.1.Ok? <==> g.current.Some?
    ensures r.1.Ok? ==> r.0 == Name(g.states[g.current.value])
    ensures r.1.Ok? || r.1.Panic?
  {
    match g.current
    case None => ("", Panic("nil pointer dereference"))
    case Some(k) => (Name(g.states[k]), Ok)
  }

  // ----- update and render -----------------------------------------------------------

  /** Play's `Update`: dispatch every event `PollEvent` returns until nil.
      `cmds` is the command log of the play screen. */
  function PlayUpdate(g: Game, cmds: seq<Command>): (r: (Game, seq<Command>))
    decreases |g.queue|
    ensures cmds <= r.1 && |r.1| - |cmds| <= |g.queue|
    ensures forall i :: |cmds| <= i < |r.1| ==> r.1[i] != MoveToStart
    ensures r.0.running ==> g.running
    ensures SameScreensAndCounters(g, r.0)
  {
    var (g1, e) := PollEvent(g);
    if e.None? then (g1, cmds)
    else
      match Dispatch(e.value)
      case CallTerminate => PlayUpdate(Terminate(g1), cmds)
      case Issue(c) => PlayUpdate(g1, cmds + [c])
      case NoAction => PlayUpdate(g1, cmds)
  }

  /** The commands the returned events issue, in order. */
  function CommandsOf(evs: seq<Event>): seq<Command>
  {
    if |evs| == 0 then []
    else (if Dispatch(evs[0]).Issue? then [Dispatch(evs[0]).cmd] else []) + CommandsOf(evs[1..])
  }

  /** Play's `Update` one SDL event at a time, like `PollAll`. */
  lemma PlayUpdateStep(g: Game, cmds: seq<Command>)
    ensures |g.queue| == 0 ==> PlayUpdate(g, cmds) == (g, cmds)
    ensures |g.queue| > 0 && g.queue[0].SdlOther? ==> PlayUpdate(g, cmds) == (g.(queue := g.queue[1..]), cmds)
    ensures |g.queue| > 0 && Swallowed(g.queue[0]) ==>
              PlayUpdate(g, cmds) == PlayUpdate(g.(queue := g.queue[1..], running := false), cmds)
    ensures |g.queue| > 0 && !g.queue[0].SdlOther? && !Swallowed(g.queue[0]) ==>
              var a := Dispatch(Platform.Translate(g.queue[0]).value);
              PlayUpdate(g, cmds) == PlayUpdate(g.(queue := g.queue[1..]), cmds + if a.Issue? then [a.cmd] else [])
  {
    PollEventStep(g);
    if |g.queue| > 0 {
      var q := g.queue;
      if Swallowed(q[0]) {
        var g2 := g.(queue := q[1..], running := false);
        assert PollEvent(g) == PollEvent(g2);
      } else if !q[0].SdlOther? {
        SwallowedIsQuitOrEscape(q[0]);
        var a := Dispatch(Platform.Translate(q[0]).value);
        assert a != CallTerminate;
        if !a.Issue? {
          assert cmds + [] == cmds;
        }
      }
    }
  }

  /** Play's `Update` consumes exactly what the menu's `PollAll` consumes, never
      reaches its quit branch, and logs one command per arrow key pressed. */
  lemma {:induction false} PlayUpdateIsPollAll(g: Game, cmds: seq<Command>)
    ensures PlayUpdate(g, cmds) == (PollAll(g), cmds + CommandsOf(Returned(g)))
    decreases |g.queue|
  {
    PlayUpdateStep(g, cmds);
    PollAllStep(g);
    ReturnedStep(g);
    var q := g.queue;
    if |q| == 0 || q[0].SdlOther? {
      assert cmds + CommandsOf([]) == cmds;
    } else if Swallowed(q[0]) {
      PlayUpdateIsPollAll(g.(queue := q[1..], running := false), cmds);
    } else {
      var ev := Platform.Translate(q[0]).value;
      var head := if Dispatch(ev).Issue? then [Dispatch(ev).cmd] else [];
      var g1 := g.(queue := q[1..]);
      PlayUpdateIsPollAll(g1, cmds + head);
      assert ([ev] + Returned(g1))[0] == ev;
      assert ([ev] + Returned(g1))[1..] == Returned(g1);
      assert cmds + head + CommandsOf(Returned(g1)) == cmds + CommandsOf([ev] + Returned(g1));
    }
  }

  /** `Game.Update`.  `elapsed` says whether a second or more has passed since
      the frame counter was last reset.  A nil current screen panics. */
  function Update(g: Game, elapsed: bool): (r: (Game, Status))
    requires Valid(g)
    ensures g.current.None? ==> r == (g, Panic("nil pointer dereference"))
    ensures r.1.Ok? <==> g.current.Some?
    ensures Valid(r.0) && r.0.states.Keys == g.states.Keys
    ensures r.0.current == g.current && r.0.trace == g.trace
    ensures r.1.Ok? ==> r.0.queue == PollAll(g).queue && r.0.running == PollAll(g).running
    ensures r.1.Ok? && elapsed ==> r.0.fps == g.numFrames + 1 && r.0.numFrames == 0
    ensures r.1.Ok? && !elapsed ==> r.0.fps == g.fps && r.0.numFrames == g.numFrames + 1
    ensures r.1.Ok? ==> forall k :: k in g.states && k != g.current.value ==> r.0.states[k] == g.states[k]
    ensures r.1.Ok? && g.states[g.current.value].MenuScreen? ==> r.0.states == g.states
    ensures r.1.Ok? && g.states[g.current.value].PlayScreen? ==>
              var p := g.states[g.current.value];
              r.0.states[g.current.value] == PlayScreen(p.rt, p.commands + CommandsOf(Returned(g)))
  {
    match g.current
    case None => (g, Panic("nil pointer dereference"))
    case Some(key) =>
      var g1 :=
        (match g.states[key]
         case MenuScreen => PollAll(g)
         case PlayScreen(rt, cmds) =>
           PlayUpdateIsPollAll(g, cmds);
           var (g2, cmds2) := PlayUpdate(g, cmds);
           g2.(states := g2.states[key := PlayScreen(rt, cmds2)]));
      var n := g1.numFrames + 1;
      if elapsed then (g1.(fps := n, numFrames := 0), Ok) else (g1.(numFrames := n), Ok)
  }

  /** Frames in a row, one `Update` per flag, each flag saying whether a second
      had passed at that frame. */
  function Updates(g: Game, flags: seq<bool>): Game
    requires Valid(g) && g.current.Some?
    decreases |flags|
  {
    if |flags| == 0 then g
    else Updates(Update(g, flags[0]).0, flags[1..])
  }

  /** The frame rate shown is the number of frames counted since the last reset:
      from any count `c`, `n - 1` short frames and then one a second later give
      `fps == c + n` and restart the count at 0. */
  lemma {:induction false} FpsCountsFrames(g: Game, flags: seq<bool>)
    requires Valid(g) && g.current.Some? && |flags| > 0
    requires forall i :: 0 <= i < |flags| - 1 ==> !flags[i]
    requires flags[|flags| - 1]
    ensures Updates(g, flags).fps == g.numFrames + |flags|
    ensures Updates(g, flags).numFrames == 0
    decreases |flags|
  {
    var g1 := Update(g, flags[0]).0;
    if |flags| > 1 {
      FpsCountsFrames(g1, flags[1..]);
    }
  }

  /** `Game.Render`: the current screen draws on `img`; `frame` is what the
      raycaster writes if that screen is play.  A nil current screen panics, and
      so does a raycaster depth write outside the depth array. */
  function Render(g: Game, img: Image, frame: seq<Paint>): (r: (Game, Image, Status))
    requires Valid(g)
    ensures g.current.None? ==> r == (g, img, Panic("nil pointer dereference"))
    ensures r.2.Ok? || r.2.Panic?
    ensures Valid(r.0) && r.0.states.Keys == g.states.Keys
    ensures r.0 == g.(states := r.0.states)
    ensures g.current.Some? ==> forall k :: k in g.states && k != g.current.value ==> r.0.states[k] == g.states[k]
    ensures g.current.Some? && g.states[g.current.value].MenuScreen? ==> r == (g, img, Ok)
    ensures g.current.Some? && g.states[g.current.value].PlayScreen? ==>
              var p := r.0.states[g.current.value];
              && p.PlayScreen? && p.rt.attached && p.commands == g.states[g.current.value].commands
              && ValidImage(r.1) && r.1.width == img.width && r.1.height == img.height
              && (r.2.Panic? <==> DepthOutOfRange(frame, |p.rt.depth|))
              && (forall y, x :: 0 <= y < img.height && 0 <= x < img.width && !WritesPixel(frame, x, y) ==>
                   r.1.pix[y][x] == (if 2 * y <= img.height then Roof else Floor))
              && (r.2.Ok? ==>
                   forall y, x :: 0 <= y < img.height && 0 <= x < img.width && LastPixel(frame, x, y).Some? ==>
                     r.1.pix[y][x] == LastPixel(frame, x, y).value)
  {
    match g.current
    case None => (g, img, Panic("nil pointer dereference"))
    case Some(key) =>
      var (s, img1, st) := RenderScreen(g.states[key], img, frame);
      assert g.states[key := g.states[key]] == g.states;
      (g.(states := g.states[key := s]), img1, st)
  }

  // ----- running is monotone ---------------------------------------------------------

  /** One call the entry point or a screen may make on the game. */
  datatype Step =
    | PollStep
    | PollAllStep
    | SwitchStep(to: string, args: seq<Arg>)
    | TerminateStep
    | UpdateStep(elapsed: bool)
    | RenderStep(img: Image, frame: seq<Paint>)

  function Apply(g: Game, s: Step): (r: Game)
    requires Valid(g)
    ensures Valid(r) && r.states.Keys == g.states.Keys
    ensures r.running ==> g.running
  {
    match s
    case PollStep => PollEvent(g).0
    case PollAllStep => PollAll(g)
    case SwitchStep(to, args) => SwitchState(g, to, args).0
    case TerminateStep => Terminate(g)
    case UpdateStep(e) => Update(g, e).0
    case RenderStep(img, frame) => Render(g, img, frame).0
  }

  function Run(g: Game, steps: seq<Step>): (r: Game)
    requires Valid(g)
    ensures Valid(r) && r.states.Keys == g.states.Keys
    decreases |steps|
  {
    if |steps| == 0 then g else Run(Apply(g, steps[0]), steps[1..])
  }

  /** Once the game has stopped running, no sequence of calls restarts it. */
  lemma {:induction false} StoppedStaysStopped(g: Game, steps: seq<Step>)
    requires Valid(g) && !g.running
    ensures !Run(g, steps).running
    decreases |steps|
  {
    if |steps| > 0 {
      StoppedStaysStopped(Apply(g, steps[0]), steps[1..]);
    }
  }
}
