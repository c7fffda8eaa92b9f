/** The controller that drives the engine: key handling with a bounded
    direction buffer, the game's start and stop, the overlay's activation,
    and the timer tick that moves the snake and computes the next delay. */
module Controller {
  import opened Host
  import opened Engine
  import opened Speed

  const MAX_SAVED_DIRECTION_KEYS: nat := 2

  /** The keys the controller reacts to; every other key is OtherKey. */
  datatype Key = ArrowDown | ArrowLeft | ArrowRight | ArrowUp | Escape | KeyD | Enter | Space | KeyA | KeyZ | OtherKey

  function KeyDirection(key: Key): Option<Direction> {
    match key
    case ArrowDown => Some(Down)
    case ArrowLeft => Some(Left)
    case ArrowRight => Some(Right)
    case ArrowUp => Some(Up)
    case _ => None
  }

  /** The direction buffer (front first) after `d` is inserted at the front
      and the oldest entries at the back are evicted down to the capacity. */
  function Pushed(buffer: seq<Direction>, d: Direction): (r: seq<Direction>)
    ensures |r| == if |buffer| < MAX_SAVED_DIRECTION_KEYS then |buffer| + 1 else MAX_SAVED_DIRECTION_KEYS
    ensures r[0] == d
    ensures r[1..] == buffer[..|r| - 1]
  {
    var full := [d] + buffer;
    if |full| > MAX_SAVED_DIRECTION_KEYS then full[..MAX_SAVED_DIRECTION_KEYS] else full
  }

  /** The buffer after each of `presses` is inserted in turn. */
  function PushedAll(buffer: seq<Direction>, presses: seq<Direction>): seq<Direction>
    decreases |presses|
  {
    if presses == [] then buffer
    else PushedAll(Pushed(buffer, presses[0]), presses[1..])
  }

  /** The buffer after a tick takes its oldest (back) entry. */
  function Consumed(buffer: seq<Direction>): seq<Direction> {
    if buffer == [] then [] else buffer[..|buffer| - 1]
  }

  /** The engine state once the oldest buffered direction, if any, has been
      given to the head-direction setter. */
  function Steered(s: Snapshot, buffer: seq<Direction>): Snapshot {
    if buffer == [] then s else s.(heading := Turn(s.heading, buffer[|buffer| - 1]))
  }

  /** Whether pressing `key` starts a new game: Enter or Space while no
      game is alive. */
  predicate StartsGame(key: Key, alive: bool) {
    (key == Enter || key == Space) && !alive
  }

  /** The controller's fields as a value. */
  datatype ControllerState = ControllerState(
    active: bool,
    pause: bool,
    debug: bool,
    alive: bool,
    highSpeed: bool,
    chosenDirections: seq<Direction>,
    repaintTimeout: int,
    timerRunning: bool,
    timerInitialDelay: int)

  /** The game panel laid over the editor. The Swing timer is reduced to
      whether it runs and its initial delay; painting and focus requests
      are left out. */
  class GameController {
    var repaintTimeout: int
    var active: bool
    var pause: bool
    var debug: bool
    var alive: bool
    /** Pending directions, newest first. */
    var chosenDirections: seq<Direction>
    var highSpeed: bool
    var gameModel: GameModel?
    var timerRunning: bool
    var timerInitialDelay: int

    ghost predicate Valid()
      reads this, gameModel
    {
      && |chosenDirections| <= MAX_SAVED_DIRECTION_KEYS
      && (alive ==> gameModel != null)
      && (!alive ==> !pause)
      && (gameModel != null ==> gameModel.Valid())
    }

    function State(): ControllerState
      reads this
    {
      ControllerState(active, pause, debug, alive, highSpeed, chosenDirections,
                      repaintTimeout, timerRunning, timerInitialDelay)
    }

    constructor ()
      ensures Valid()
      ensures State() == ControllerState(false, false, false, false, false, [],
                                         REPAINT_TIMEOUT, false, REPAINT_TIMEOUT)
      ensures gameModel == null
    {
      repaintTimeout := REPAINT_TIMEOUT;
      active, pause, debug, alive, highSpeed := false, false, false, false, false;
      chosenDirections := [];
      gameModel := null;
      timerRunning, timerInitialDelay := false, REPAINT_TIMEOUT;
    }

    /** Starts a new game on a fresh model. */
    method Start(ed: Editor)
      requires Valid()
      modifies this
      ensures Valid()
      ensures fresh(gameModel) && gameModel.StartedOn(ed)
      ensures State() == old(State()).(alive := true, timerRunning := true)
    {
      alive := true;
      gameModel := new GameModel(ed);
      timerRunning := true;
    }

    /** Ends the game: not alive, no turbo, no pending directions. Its only
        caller is the tick of a running game that is not paused. */
    method Stop()
      requires Valid() && !pause
      modifies this
      ensures Valid()
      ensures State() == old(State()).(alive := false, highSpeed := false, chosenDirections := [], timerRunning := false)
      ensures gameModel == old(gameModel)
    {
      alive := false;
      highSpeed := false;
      chosenDirections := [];
      timerRunning := false;
    }

    /** Shows the game and starts it. */
    method Activate(ed: Editor)
      requires Valid()
      modifies this
      ensures Valid()
      ensures fresh(gameModel) && gameModel.StartedOn(ed)
      ensures State() == old(State()).(active := true, alive := true, timerRunning := true)
    {
      active := true;
      Start(ed);
    }

    /** Stops the timer and hides the game. */
    method Deactivate()
      requires Valid()
      modifies this
      ensures Valid()
      ensures State() == old(State()).(active := false, timerRunning := false)
      ensures gameModel == old(gameModel)
    {
      timerRunning := false;
      active := false;
    }

    /** The arrow-key part of the key handler: the direction goes to the
        front of the buffer, and the oldest entries are dropped from the
        back down to the capacity. */
    method SaveDirection(direction: Direction)
      modifies this`chosenDirections
      ensures chosenDirections == Pushed(old(chosenDirections), direction)
    {
      ghost var full := [direction] + chosenDirections;
      chosenDirections := [direction] + chosenDirections;
      while |chosenDirections| > MAX_SAVED_DIRECTION_KEYS
        invariant chosenDirections == full[..|chosenDirections|]
        invariant |chosenDirections| == |full| || |chosenDirections| >= MAX_SAVED_DIRECTION_KEYS
      {
        chosenDirections := chosenDirections[..|chosenDirections| - 1];
      }
    }

    /** The key handler. */
    method KeyPressed(key: Key, ed: Editor)
      requires Valid()
      modifies this
      ensures Valid()
      ensures State() == AfterKey(key, old(State()))
      ensures StartsGame(key, old(alive)) ==> fresh(gameModel) && gameModel.StartedOn(ed)
      ensures !StartsGame(key, old(alive)) ==> gameModel == old(gameModel)
    {
      var direction := KeyDirection(key);
      if direction.Some? && alive {
        SaveDirection(direction.value);
      }
      HandleCommand(key, ed);
    }

    /** The key handler after any arrow key is buffered: the command keys. */
    method HandleCommand(key: Key, ed: Editor)
      requires Valid()
      modifies this
      ensures Valid()
      ensures State() == Command(key, old(State()))
      ensures StartsGame(key, old(alive)) ==> fresh(gameModel) && gameModel.StartedOn(ed)
      ensures !StartsGame(key, old(alive)) ==> gameModel == old(gameModel)
    {
      match key {
        case Escape =>
          if active {
            Deactivate();
          }
        case KeyD =>
          debug := !debug;
        case Enter | Space =>
          if alive {
            pause := !pause;
          } else {
            Start(ed);
          }
        case KeyA =>
          highSpeed := true;
        case KeyZ =>
          highSpeed := false;
        case _ =>
      }
    }

    /** What painting the panel does to the game: every visible cell is
        classified, row by row, so the model caches the character of every
        visible cell its body does not cover. The drawing itself is left
        out. A repaint request only schedules this; it runs as an event of
        its own. */
    method Paint(ed: Editor)
      requires Valid()
      modifies gameModel
      ensures Valid()
      ensures gameModel != null ==>
        && gameModel.State() == old(gameModel.State()).(cache := gameModel.charCache)
        && Extends(old(gameModel.charCache), gameModel.charCache, ed.charAt)
        && forall p :: p in gameModel.charCache <==>
             p in old(gameModel.charCache) || (ed.InView(p) && p !in gameModel.snakeCells)
    {
      if gameModel != null {
        var model: GameModel := gameModel;
        ghost var cache0 := model.charCache;
        var row := ed.lines.start;
        while row < ed.lines.end
          modifies model`charCache
          invariant Extends(cache0, model.charCache, ed.charAt)
          invariant forall p :: p in model.charCache <==>
            p in cache0 || (ed.InView(p) && p.line < row && p !in model.snakeCells)
          decreases ed.lines.end - row
        {
          var col := ed.columns.start;
          while col < ed.columns.end
            modifies model`charCache
            invariant Extends(cache0, model.charCache, ed.charAt)
            invariant forall p :: p in model.charCache <==>
              p in cache0 || (ed.InView(p) && Before(p, row, col) && p !in model.snakeCells)
            decreases ed.columns.end - col
          {
            ghost var before := model.charCache;
            var cellType := model.GetCellType(ed, Pos(row, col));
            ExtendsByOne(cache0, before, model.charCache, ed.charAt, Pos(row, col));
            col := col + 1;
          }
          row := row + 1;
        }
      }
    }

    /** One timer tick: while the game runs and is not paused, the oldest
        buffered direction is applied, the snake moves, a failed move stops
        the game, and the timer is restarted with the next delay. */
    method MoveSnakeAndRepaint(ed: Editor)
      requires Valid()
      modifies this, gameModel
      ensures Valid()
      ensures !old(alive) || old(pause) ==> State() == old(State()) && gameModel == old(gameModel)
      ensures !old(alive) || old(pause) ==> gameModel != null ==> gameModel.State() == old(gameModel.State())
      ensures old(alive) && !old(pause) ==>
        var before := Steered(old(gameModel.State()), old(chosenDirections));
        var ok := Attempt(before, ed).Succeeded();
        var delay := RepaintTimeout(|MoveStep(before, ed).snake|, ok && old(highSpeed), before.heading,
                                    ed.columnWidth, ed.lineHeight);
        && gameModel == old(gameModel)
        && gameModel.State() == MoveStep(before, ed)
        && State() == old(State()).(alive := ok, highSpeed := ok && old(highSpeed),
                                    chosenDirections := if ok then Consumed(old(chosenDirections)) else [],
                                    repaintTimeout := delay, timerRunning := true, timerInitialDelay := delay)
    {
      if alive {
        if !pause {
          var model := gameModel;
          ghost var before := Steered(model.State(), chosenDirections);
          if |chosenDirections| > 0 {
            var direction := chosenDirections[|chosenDirections| - 1];
            chosenDirections := chosenDirections[..|chosenDirections| - 1];
            model.SetHeadDirection(direction);
          }
          assert model.State() == before;
          ghost var steered := State();
          var ok := model.Move(ed);
          assert model.State() == MoveStep(before, ed) && model.headDirection == before.heading;
          if !ok {
            Stop();
          }
          assert State() == if ok then steered else steered.(alive := false, highSpeed := false, chosenDirections := [], timerRunning := false);
          var length := model.SnakeLength();
          var timeout := BaseTimeout(length);
          var isotropicTimeout := TurboTimeout(timeout, highSpeed);
          repaintTimeout := IsotropicTimeout(isotropicTimeout, model.headDirection, ed.columnWidth, ed.lineHeight);
          timerRunning := false;
          timerInitialDelay := repaintTimeout;
          timerRunning := true;
        }
      }
    }
  }

  /** The controller state after `key` is pressed in state `s`; a game the
      key starts gets its fresh model from the handler. An arrow key is
      buffered only while alive; then Escape deactivates when active, D
      flips debug, Enter or Space flip pause while alive and start a game
      otherwise, A turns turbo on and Z off; other keys do nothing more. */
  function AfterKey(key: Key, s: ControllerState): ControllerState {
    Command(key, if KeyDirection(key).Some? && s.alive
                 then s.(chosenDirections := Pushed(s.chosenDirections, KeyDirection(key).value))
                 else s)
  }

  /** What a command key does once any arrow key has been buffered. */
  function Command(key: Key, t: ControllerState): ControllerState {
    match key
    case Escape => if t.active then t.(active := false, timerRunning := false) else t
    case KeyD => t.(debug := !t.debug)
    case Enter | Space => if t.alive then t.(pause := !t.pause) else t.(alive := true, timerRunning := true)
    case KeyA => t.(highSpeed := true)
    case KeyZ => t.(highSpeed := false)
    case _ => t
  }

  // ---- Properties of the key handler ----

  /** No key overfills the buffer, and only an arrow key pressed while
      alive touches it. */
  lemma OnlyArrowKeysTouchBuffer(key: Key, s: ControllerState)
    requires |s.chosenDirections| <= MAX_SAVED_DIRECTION_KEYS
    ensures var r := AfterKey(key, s);
      && |r.chosenDirections| <= MAX_SAVED_DIRECTION_KEYS
      && (!(KeyDirection(key).Some? && s.alive) ==> r.chosenDirections == s.chosenDirections)
  {
    var t := if KeyDirection(key).Some? && s.alive
             then s.(chosenDirections := Pushed(s.chosenDirections, KeyDirection(key).value))
             else s;
    assert |t.chosenDirections| <= MAX_SAVED_DIRECTION_KEYS;
    assert Command(key, t).chosenDirections == t.chosenDirections;
  }

  /** An arrow key changes nothing but the buffer, and only while alive. */
  lemma ArrowKeyOnlyBuffers(key: Key, s: ControllerState)
    requires KeyDirection(key).Some?
    ensures AfterKey(key, s) == if s.alive then s.(chosenDirections := Pushed(s.chosenDirections, KeyDirection(key).value)) else s
  {
  }

  /** While a game is alive, Enter or Space toggle pause: pressing twice
      restores the state, and nothing but pause changes. */
  lemma PauseToggles(key: Key, s: ControllerState)
    requires key == Enter || key == Space
    requires s.alive
    ensures AfterKey(key, s) == s.(pause := !s.pause)
    ensures AfterKey(key, AfterKey(key, s)) == s
  {
  }

  /** When no game is alive, Enter or Space start one, running, with the
      timer on; the pause flag and the buffer are kept. */
  lemma StartKeyStartsGame(key: Key, s: ControllerState)
    requires StartsGame(key, s.alive)
    ensures AfterKey(key, s) == s.(alive := true, timerRunning := true)
  {
  }

  /** Escape hides an active game and stops its timer, and does nothing
      when the game is not active; pressing it again changes nothing. */
  lemma EscapeDeactivates(s: ControllerState)
    ensures AfterKey(Escape, s) == if s.active then s.(active := false, timerRunning := false) else s
    ensures AfterKey(Escape, AfterKey(Escape, s)) == AfterKey(Escape, s)
  {
  }

  /** D flips debug, A and Z set and clear turbo, and any other key does
      nothing; none of them touch anything else. */
  lemma FlagKeys(s: ControllerState)
    ensures AfterKey(KeyD, s) == s.(debug := !s.debug)
    ensures AfterKey(KeyA, s) == s.(highSpeed := true)
    ensures AfterKey(KeyZ, s) == s.(highSpeed := false)
    ensures AfterKey(OtherKey, s) == s
  {
  }

  /** Deactivating twice has the same effect as deactivating once. */
  method DeactivateIsIdempotent(c: GameController)
    requires c.Valid()
    modifies c
    ensures c.Valid()
    ensures c.State() == old(c.State()).(active := false, timerRunning := false)
    ensures c.gameModel == old(c.gameModel)
  {
    c.Deactivate();
    c.Deactivate();
  }

  // ---- Properties of the direction buffer ----

  /** However many directions are pressed before a tick, the buffer holds
      at most MAX_SAVED_DIRECTION_KEYS of them. */
  lemma {:induction false} BufferNeverOverflows(buffer: seq<Direction>, presses: seq<Direction>)
    requires |buffer| <= MAX_SAVED_DIRECTION_KEYS
    ensures |PushedAll(buffer, presses)| <= MAX_SAVED_DIRECTION_KEYS
    decreases |presses|
  {
    if presses != [] {
      BufferNeverOverflows(Pushed(buffer, presses[0]), presses[1..]);
    }
  }

  /** After two or more presses the buffer holds exactly the last two, the
      newest at the front. */
  lemma {:induction false} BufferKeepsNewest(buffer: seq<Direction>, presses: seq<Direction>)
    requires |presses| >= MAX_SAVED_DIRECTION_KEYS
    ensures PushedAll(buffer, presses) == [presses[|presses| - 1], presses[|presses| - 2]]
    decreases |presses|
  {
    if |presses| == MAX_SAVED_DIRECTION_KEYS {
      var b1 := Pushed(buffer, presses[0]);
      var b2 := Pushed(b1, presses[1]);
      assert presses[1..][1..] == [];
      assert PushedAll(buffer, presses) == PushedAll(b1, presses[1..]) == PushedAll(b2, []);
      assert b2[1..] == b1[..1] == [presses[0]];
    } else {
      BufferKeepsNewest(Pushed(buffer, presses[0]), presses[1..]);
    }
  }

  /** A tick takes exactly the oldest entry off the back of the buffer. */
  lemma ConsumedTakesOldest(buffer: seq<Direction>)
    requires buffer != []
    ensures Consumed(buffer) + [buffer[|buffer| - 1]] == buffer
    ensures |Consumed(buffer)| == |buffer| - 1
  {
  }

  /** Steering only changes the head direction, through the setter. */
  lemma SteeredChangesOnlyHeading(s: Snapshot, buffer: seq<Direction>)
    ensures var t := Steered(s, buffer);
      && t.snake == s.snake && t.eaten == s.eaten && t.cache == s.cache
      && t.heading != Opposite(s.heading)
      && (buffer == [] ==> t.heading == s.heading)
  {
  }
}
