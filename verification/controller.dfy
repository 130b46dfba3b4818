/** The game controller: one pass of the game loop as a pure transition on
    an explicit game state. Wall-clock readings, the random choices for the
    next piece and the polled input events are parameters of the tick. */
module Controller {
  import opened Board
  import opened Collision
  import opened Lock
  import opened Engine

  /** The game lasts this many seconds. */
  const TIMER_DURATION: int := 120

  /** Milliseconds between gravity steps, before and after the speed-up. */
  const INITIAL_FALL_DELAY: int := 500
  const FAST_FALL_DELAY: int := 300

  /** The speed-up applies once the score is above this. */
  const SPEEDUP_SCORE: int := 160

  datatype Key = Left | Right | Down | Space | OtherKey

  /** A polled input event: the window closing, a key press, or anything
      else (ignored). */
  datatype Event = Quit | KeyDown(key: Key) | OtherEvent

  /** The random shape and colour choices used if a new piece is spawned. */
  datatype Spawn = Spawn(shape: nat, color: nat)

  predicate ValidSpawn(sp: Spawn) {
    sp.shape < |SHAPES| && sp.color < |BLOCK_COLORS|
  }

  /** What one loop pass consumes: the millisecond clock, the whole seconds
      elapsed since the start, the spawn choices and the events polled. */
  datatype TickInput = TickInput(now: int, elapsedSeconds: int, spawn: Spawn, events: seq<Event>)

  /** The game state: field, falling piece, score, current fall delay, time
      of the last gravity step and the three flags. */
  datatype Game = Game(
    grid: Grid,
    active: Piece,
    score: nat,
    fallDelay: int,
    lastFall: int,
    paused: bool,
    gameOver: bool,
    running: bool)

  /** What every reachable state satisfies: a well-formed field, one of the
      two fall delays (the fast one only once the score passed the
      threshold), a finished game stopped, and while the game runs the
      falling piece stands on free cells inside the field. */
  predicate Valid(s: Game) {
    && WellFormed(s.grid)
    && (s.fallDelay == INITIAL_FALL_DELAY || s.fallDelay == FAST_FALL_DELAY)
    && (s.fallDelay == FAST_FALL_DELAY ==> s.score > SPEEDUP_SCORE)
    && (s.gameOver ==> !s.running)
    && (s.running ==> CanMove(s.grid, s.active, 0, 0))
  }

  /** The start of a game: the pre-seeded field, the first piece at the
      spawn anchor, no score, the slow fall delay, running and not paused. */
  function InitialGame(seeds: seq<Seed>, spawn: Spawn, startTicks: int): (s: Game)
    requires forall i :: 0 <= i < |seeds| ==> SeedInRange(seeds[i])
    requires ValidSpawn(spawn)
    ensures Valid(s) && s.running && !s.paused && !s.gameOver
    ensures s.score == 0 && s.fallDelay == INITIAL_FALL_DELAY
    ensures s.active.x == SPAWN_X && s.active.y == SPAWN_Y
    ensures s.grid == InitialGrid(seeds) && s.active == NewShape(spawn.shape, spawn.color)
    ensures s.lastFall == startTicks
  {
    var g := InitialGrid(seeds);
    var p := NewShape(spawn.shape, spawn.color);
    assert forall i :: 0 <= i < |p.blocks| ==> BlockFits(g, p, i, 0, 0);
    Game(g, p, 0, INITIAL_FALL_DELAY, startTicks, false, false, true)
  }

  /** Once the elapsed time reaches the game duration the game is over and
      the loop stops after this pass; before that nothing changes. */
  function CheckTimeout(s: Game, elapsedSeconds: int): (r: Game)
    requires Valid(s)
    ensures Valid(r)
    ensures elapsedSeconds >= TIMER_DURATION ==> r.gameOver && !r.running
    ensures elapsedSeconds < TIMER_DURATION ==> r == s
    ensures r.grid == s.grid && r.active == s.active && r.score == s.score
    ensures r.fallDelay == s.fallDelay && r.lastFall == s.lastFall && r.paused == s.paused
  {
    if elapsedSeconds >= TIMER_DURATION then s.(gameOver := true, running := false) else s
  }

  /** The fall delay in force for this pass. In a valid state it is the
      fast one exactly when the score is above the threshold, and the slow
      one otherwise. */
  function EffectiveDelay(s: Game): (d: int)
    requires Valid(s)
    ensures d == FAST_FALL_DELAY <==> s.score > SPEEDUP_SCORE
    ensures d == INITIAL_FALL_DELAY <==> s.score <= SPEEDUP_SCORE
  {
    if s.score > SPEEDUP_SCORE then FAST_FALL_DELAY else s.fallDelay
  }

  /** More than the fall delay has passed since the last gravity step. */
  predicate FallDue(s: Game, now: int)
    requires Valid(s)
  {
    now - s.lastFall > EffectiveDelay(s)
  }

  /** The gravity part of a loop pass, skipped while paused. When a step is
      due the piece moves down one row if it can; otherwise it locks, the
      match/clear engine runs, a new piece spawns, and the game is over
      exactly when the new piece does not fit at the spawn anchor. */
  function Fall(s: Game, now: int, spawn: Spawn): (r: Game)
    requires Valid(s) && ValidSpawn(spawn)
    ensures Valid(r)
    ensures s.paused ==> r == s
    ensures !s.paused && s.score > SPEEDUP_SCORE ==> r.fallDelay == FAST_FALL_DELAY
    ensures !s.paused && s.score <= SPEEDUP_SCORE ==> r.fallDelay == s.fallDelay
    ensures r.fallDelay <= s.fallDelay && r.paused == s.paused && r.score >= s.score
    ensures !s.paused && !FallDue(s, now) ==>
      r.grid == s.grid && r.active == s.active && r.score == s.score && r.lastFall == s.lastFall
      && r.running == s.running && r.gameOver == s.gameOver
    ensures !s.paused && FallDue(s, now) && CanMove(s.grid, s.active, 0, 1) ==>
      r.active == Translate(s.active, 0, 1) && r.grid == s.grid && r.score == s.score
      && r.lastFall == now && r.running == s.running && r.gameOver == s.gameOver
    ensures !s.paused && FallDue(s, now) && !CanMove(s.grid, s.active, 0, 1) ==>
      var out := ClearRowsAndMatches(LockShape(s.grid, s.active), s.score);
      && r.grid == out.grid && r.score == out.score && r.lastFall == now
      && r.active == NewShape(spawn.shape, spawn.color)
      && r.active.x == SPAWN_X && r.active.y == SPAWN_Y
      && (r.running <==> s.running && CanMove(r.grid, r.active, 0, 0))
      && (r.gameOver <==> s.gameOver || !CanMove(r.grid, r.active, 0, 0))
  {
    if s.paused then s
    else
      var delay := EffectiveDelay(s);
      if now - s.lastFall > delay then
        if CanMove(s.grid, s.active, 0, 1) then
          MoveIsPlacement(s.grid, s.active, 0, 1);
          s.(active := Translate(s.active, 0, 1), fallDelay := delay, lastFall := now)
        else LockAndSpawn(s.(fallDelay := delay, lastFall := now), spawn)
      else s.(fallDelay := delay)
  }

  /** The landed piece locks, the match/clear engine runs on the field, and
      a new piece spawns; the game is over exactly when the new piece does
      not fit at the spawn anchor. Delay, clock and pause flag are kept. */
  function LockAndSpawn(s: Game, spawn: Spawn): (r: Game)
    requires WellFormed(s.grid) && ValidSpawn(spawn)
    requires s.fallDelay == INITIAL_FALL_DELAY || s.fallDelay == FAST_FALL_DELAY
    requires s.fallDelay == FAST_FALL_DELAY ==> s.score > SPEEDUP_SCORE
    requires s.gameOver ==> !s.running
    ensures Valid(r)
    ensures r.fallDelay == s.fallDelay && r.lastFall == s.lastFall && r.paused == s.paused
    ensures r.score >= s.score
    ensures var out := ClearRowsAndMatches(LockShape(s.grid, s.active), s.score);
      r.grid == out.grid && r.score == out.score
    ensures r.active == NewShape(spawn.shape, spawn.color)
    ensures r.active.x == SPAWN_X && r.active.y == SPAWN_Y
    ensures r.running <==> s.running && CanMove(r.grid, r.active, 0, 0)
    ensures r.gameOver <==> s.gameOver || !CanMove(r.grid, r.active, 0, 0)
  {
    var out := ClearRowsAndMatches(LockShape(s.grid, s.active), s.score);
    var next := NewShape(spawn.shape, spawn.color);
    var blocked := !CanMove(out.grid, next, 0, 0);
    s.(grid := out.grid, score := out.score, active := next,
       gameOver := s.gameOver || blocked, running := s.running && !blocked)
  }

  function TogglePause(s: Game): (r: Game)
    ensures r.paused == !s.paused
    ensures r.(paused := s.paused) == s
  {
    s.(paused := !s.paused)
  }

  /** One polled event. A left, right or down key moves the piece one cell
      when the collision check allows it and is a no-op otherwise; space
      toggles the pause; closing the window stops the loop. Nothing here
      touches the field or the score. */
  function HandleEvent(s: Game, e: Event): (r: Game)
    requires Valid(s)
    ensures Valid(r)
    ensures r.grid == s.grid && r.score == s.score && r.fallDelay == s.fallDelay
    ensures r.lastFall == s.lastFall && r.gameOver == s.gameOver
    ensures e == Quit ==> !r.running && r.active == s.active
    ensures e != Quit ==> r.running == s.running
    ensures r.paused == (if e == KeyDown(Space) then !s.paused else s.paused)
    ensures e == KeyDown(Left) ==>
      r.active == (if CanMove(s.grid, s.active, -1, 0) then Translate(s.active, -1, 0) else s.active)
    ensures e == KeyDown(Right) ==>
      r.active == (if CanMove(s.grid, s.active, 1, 0) then Translate(s.active, 1, 0) else s.active)
    ensures e == KeyDown(Down) ==>
      r.active == (if CanMove(s.grid, s.active, 0, 1) then Translate(s.active, 0, 1) else s.active)
    ensures e !in {KeyDown(Left), KeyDown(Right), KeyDown(Down)} ==> r.active == s.active
  {
    match e
    case Quit => s.(running := false)
    case OtherEvent => s
    case KeyDown(k) =>
      if k == Left && CanMove(s.grid, s.active, -1, 0) then
        MoveIsPlacement(s.grid, s.active, -1, 0);
        s.(active := Translate(s.active, -1, 0))
      else if k == Right && CanMove(s.grid, s.active, 1, 0) then
        MoveIsPlacement(s.grid, s.active, 1, 0);
        s.(active := Translate(s.active, 1, 0))
      else if k == Down && CanMove(s.grid, s.active, 0, 1) then
        MoveIsPlacement(s.grid, s.active, 0, 1);
        s.(active := Translate(s.active, 0, 1))
      else if k == Space then TogglePause(s)
      else s
  }

  /** Number of space presses among the events. */
  function SpaceCount(events: seq<Event>): nat {
    if events == [] then 0
    else (if events[0] == KeyDown(Space) then 1 else 0) + SpaceCount(events[1..])
  }

  /** The events of one pass, handled in arrival order: the field and score
      stay as they are, the pause flag flips once per space press, and a
      quit event stops the loop. */
  function HandleEvents(s: Game, events: seq<Event>): (r: Game)
    requires Valid(s)
    ensures Valid(r)
    ensures r.grid == s.grid && r.score == s.score && r.fallDelay == s.fallDelay
    ensures r.lastFall == s.lastFall && r.gameOver == s.gameOver
    ensures r.paused == (s.paused != (SpaceCount(events) % 2 == 1))
    ensures Quit in events ==> !r.running
    ensures !s.running ==> !r.running
    ensures Quit !in events ==> r.running == s.running
    decreases |events|
  {
    if events == [] then s
    else
      var r := HandleEvents(HandleEvent(s, events[0]), events[1..]);
      assert Quit in events ==> events[0] == Quit || Quit in events[1..];
      r
  }

  /** One pass of the game loop: the timeout check, the gravity step unless
      paused, then the polled events. */
  function Tick(s: Game, input: TickInput): (r: Game)
    requires Valid(s) && s.running && ValidSpawn(input.spawn)
    ensures Valid(r)
    ensures r.score >= s.score
    ensures input.elapsedSeconds >= TIMER_DURATION ==> r.gameOver && !r.running
    ensures r.fallDelay <= s.fallDelay
    ensures !s.paused && s.score > SPEEDUP_SCORE ==> r.fallDelay == FAST_FALL_DELAY
    ensures s.paused || s.score <= SPEEDUP_SCORE ==> r.fallDelay == s.fallDelay
    ensures r.paused == (s.paused != (SpaceCount(input.events) % 2 == 1))
    ensures Quit in input.events ==> !r.running
    ensures s.paused ==> r.grid == s.grid && r.score == s.score
  {
    var t := CheckTimeout(s, input.elapsedSeconds);
    HandleEvents(Fall(t, input.now, input.spawn), input.events)
  }

  /** The game loop over a sequence of passes; once the loop has stopped no
      further pass runs and the state is final. */
  function Play(s: Game, inputs: seq<TickInput>): (r: Game)
    requires Valid(s)
    requires forall i :: 0 <= i < |inputs| ==> ValidSpawn(inputs[i].spawn)
    ensures Valid(r)
    ensures r.score >= s.score
    ensures r.fallDelay <= s.fallDelay
    ensures !s.running ==> r == s
    ensures s.gameOver ==> r == s
    decreases |inputs|
  {
    if inputs == [] || !s.running then s
    else Play(Tick(s, inputs[0]), inputs[1..])
  }

  /** A successful move left is undone by a move right. */
  lemma LeftRightInverse(s: Game)
    requires Valid(s) && s.running && CanMove(s.grid, s.active, -1, 0)
    ensures HandleEvent(HandleEvent(s, KeyDown(Left)), KeyDown(Right)) == s
  {
    var t := HandleEvent(s, KeyDown(Left));
    assert t.active == Translate(s.active, -1, 0);
    MoveIsPlacement(t.grid, t.active, 1, 0);
    assert Translate(t.active, 1, 0) == s.active;
  }

  /** Two space presses leave the game as it was. */
  lemma PauseTwiceIsIdentity(s: Game)
    requires Valid(s)
    ensures HandleEvents(s, [KeyDown(Space), KeyDown(Space)]) == s
  {
    assert [KeyDown(Space), KeyDown(Space)][1..] == [KeyDown(Space)];
    assert [KeyDown(Space)][1..] == [];
  }
}
