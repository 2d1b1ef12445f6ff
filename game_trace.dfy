/** Sequences of the callbacks that drive a `BubbleGame`: spawn timers, animation
    frames, pointer presses and restart-button clicks, in the single-threaded order
    the event loop runs them. The lemmas here hold for every such sequence. */
module GameTrace {
  import opened Bubbles
  import opened GameSpec

  /** One callback run to completion. */
  datatype Event =
    | SpawnTimer(id: nat, draw: SpawnDraw)    // a `setTimeout` fires `spawnBubble`
    | Frame(jitters: seq<Jitter>)             // `animate` runs `updateBubbles`
    | Pointer(hit: Option<nat>)               // a `pointerdown`, after the raycast
    | RestartClick(id: nat, draw: SpawnDraw)  // the restart button runs `restartGame`

  /** What the environment guarantees for an event in state `s`: random values in
      range, one jitter per bubble, and a new object for a new bubble. */
  predicate Possible(s: GameState, e: Event)
  {
    match e
    case SpawnTimer(id, d) => ValidSpawnDraw(d) && FreshId(s.bubbles, id)
    case Frame(js) => |js| == |s.bubbles| && forall j <- js :: ValidJitter(j)
    case Pointer(_) => true
    case RestartClick(_, d) => ValidSpawnDraw(d)
  }

  function Step(s: GameState, e: Event): GameState
    requires Possible(s, e)
  {
    match e
    case SpawnTimer(id, d) => AfterSpawn(s, id, d)
    case Frame(js) => AfterUpdate(s, js)
    case Pointer(hit) => AfterPointerDown(s, hit)
    case RestartClick(id, d) => AfterRestart(s, id, d)
  }

  /** Every event of `evs` is possible in the state the ones before it lead to. */
  predicate PossibleRun(s: GameState, evs: seq<Event>)
    decreases |evs|
  {
    evs == [] || (Possible(s, evs[0]) && PossibleRun(Step(s, evs[0]), evs[1..]))
  }

  function Run(s: GameState, evs: seq<Event>): GameState
    requires PossibleRun(s, evs)
    decreases |evs|
  {
    if evs == [] then s else Run(Step(s, evs[0]), evs[1..])
  }

  predicate NoRestart(evs: seq<Event>)
  {
    forall e <- evs :: !e.RestartClick?
  }

  /** Every callback keeps the invariant. */
  lemma StepKeepsInv(s: GameState, e: Event)
    requires Inv(s) && Possible(s, e)
    ensures Inv(Step(s, e))
  {
    match e
    case SpawnTimer(id, d) => SpawnAppendsOne(s, id, d);
    case Frame(js) => UpdateEndsGameAtMax(s, js);
    case Pointer(hit) => PointerDownRemovesHit(s, hit);
    case RestartClick(id, d) => RestartLeavesOneBubble(s, id, d, id, d);
  }

  /** Outside a restart, a callback changes the score only by `updateScore(1)`. */
  lemma StepScoreDelta(s: GameState, e: Event)
    requires Possible(s, e) && !e.RestartClick?
    ensures Step(s, e).score == s.score || Step(s, e).score == s.score + 1
  {
    match e
    case SpawnTimer(id, d) => SpawnAppendsOne(s, id, d);
    case Frame(js) => UpdateEndsGameAtMax(s, js);
    case Pointer(hit) =>
    case RestartClick(_, _) =>
  }

  /** No run of callbacks can break the invariant: ids stay distinct, and every
      bubble on screen rises and is at or below the ceiling. */
  lemma {:induction false} RunKeepsInv(s: GameState, evs: seq<Event>)
    requires Inv(s) && PossibleRun(s, evs)
    ensures Inv(Run(s, evs))
    decreases |evs|
  {
    if evs != [] {
      StepKeepsInv(s, evs[0]);
      RunKeepsInv(Step(s, evs[0]), evs[1..]);
    }
  }

  /** Without a restart the score never goes down. */
  lemma {:induction false} ScoreNeverDecreases(s: GameState, evs: seq<Event>)
    requires PossibleRun(s, evs) && NoRestart(evs)
    ensures Run(s, evs).score >= s.score
    decreases |evs|
  {
    if evs != [] {
      assert evs[0] in evs;
      StepScoreDelta(s, evs[0]);
      assert forall e <- evs[1..] :: e in evs;
      ScoreNeverDecreases(Step(s, evs[0]), evs[1..]);
    }
  }

  /** Only a restart clears the game-over flag: once set, it stays set through any
      run without one. */
  lemma {:induction false} GameOverLatches(s: GameState, evs: seq<Event>)
    requires s.gameOver && PossibleRun(s, evs) && NoRestart(evs)
    ensures Run(s, evs).gameOver
    decreases |evs|
  {
    if evs != [] {
      assert evs[0] in evs;
      if evs[0].Frame? {
        UpdateEndsGameAtMax(s, evs[0].jitters);
      }
      assert forall e <- evs[1..] :: e in evs;
      GameOverLatches(Step(s, evs[0]), evs[1..]);
    }
  }

  /** After game over, spawn timers and pointer presses change nothing at all. */
  lemma {:induction false} GameOverFreezesSpawnAndHit(s: GameState, evs: seq<Event>)
    requires s.gameOver && PossibleRun(s, evs)
    requires forall e <- evs :: e.SpawnTimer? || e.Pointer?
    ensures Run(s, evs) == s
    decreases |evs|
  {
    if evs != [] {
      assert evs[0] in evs;
      assert forall e <- evs[1..] :: e in evs;
      GameOverFreezesSpawnAndHit(Step(s, evs[0]), evs[1..]);
    }
  }

  /** A restart click, whatever happened before, gives the same state as a fresh
      game whose first spawn created the same bubble. */
  lemma RestartMatchesFreshGame(s: GameState, evs: seq<Event>, id: nat, d: SpawnDraw)
    requires PossibleRun(s, evs) && ValidSpawnDraw(d)
    ensures Step(Run(s, evs), RestartClick(id, d)) == AfterSpawn(Initial, id, d)
  {
  }
}
