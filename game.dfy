/** The `BubbleGame` object: its fields and the methods that update them in place.
    Each method is proved to take the state where the matching function of module
    GameSpec says, and to keep the invariant `Inv`. */
module Game {
  import opened Bubbles
  import opened GameSpec

  class BubbleGame {
    var bubbles: seq<Bubble>
    var score: int
    var gameOver: bool

    function State(): GameState
      reads this
    {
      GameState(bubbles, score, gameOver)
    }

    ghost predicate Valid()
      reads this
    {
      Inv(State())
    }

    /** `new BubbleGame()`: empty list, score 0, running; then `init` runs the first
        animation frame and the first spawn. */
    constructor (id: nat, d: SpawnDraw)
      requires ValidSpawnDraw(d)
      ensures Valid()
      ensures State() == AfterSpawn(AfterUpdate(Initial, []), id, d)
      ensures bubbles == [CreateBubble(id, d)] && score == 0 && !gameOver
    {
      bubbles := [];
      score := 0;
      gameOver := false;
      new;
      UpdateBubbles([]);
      SpawnBubble(id, d);
    }

    /** `spawnBubble`; `id` is the identity of the mesh `createBubble` allocates. */
    method SpawnBubble(id: nat, d: SpawnDraw)
      requires Valid() && ValidSpawnDraw(d) && FreshId(bubbles, id)
      modifies this
      ensures Valid()
      ensures State() == AfterSpawn(old(State()), id, d)
    {
      SpawnAppendsOne(State(), id, d);
      if gameOver {
        return;
      }
      var bubble := CreateBubble(id, d);
      bubbles := bubbles + [bubble];
    }

    /** `updateBubbles`: walks the list from the back, moves each bubble and splices
        out those above the ceiling, then ends the game at MaxBubbles. */
    method UpdateBubbles(js: seq<Jitter>)
      requires Valid()
      requires |js| == |bubbles| && forall j <- js :: ValidJitter(j)
      modifies this
      ensures Valid()
      ensures State() == AfterUpdate(old(State()), js)
      ensures forall b <- bubbles :: b.position.y <= CeilingY
      ensures |bubbles| >= MaxBubbles ==> gameOver
    {
      UpdateEndsGameAtMax(State(), js);
      ghost var start := bubbles;
      var i := |bubbles| - 1;
      while i >= 0
        invariant -1 <= i < |start|
        invariant bubbles == start[..i + 1] + Survivors(start[i + 1..], js[i + 1..])
        invariant score == old(score) && gameOver == old(gameOver)
      {
        SpliceLoopStep(start, js, i, bubbles);
        bubbles := bubbles[i := Advance(bubbles[i], js[i])];
        if bubbles[i].position.y > CeilingY {
          bubbles := bubbles[..i] + bubbles[i + 1..];
        }
        i := i - 1;
      }
      assert start[0..] == start && js[0..] == js;
      if |bubbles| >= MaxBubbles {
        EndGame();
      }
    }

    /** `onPointerDown` after the raycast; `hit` is the first intersected object. */
    method OnPointerDown(hit: Option<nat>)
      requires Valid()
      modifies this
      ensures Valid()
      ensures State() == AfterPointerDown(old(State()), hit)
    {
      PointerDownRemovesHit(State(), hit);
      if gameOver {
        return;
      }
      if hit.Some? {
        var index := IndexOf(bubbles, hit.value);
        if index > -1 {
          bubbles := bubbles[..index] + bubbles[index + 1..];
          UpdateScore(1);
        }
      }
    }

    /** `updateScore`: adds `points`; list and flag untouched. */
    method UpdateScore(points: int)
      requires Valid()
      modifies this
      ensures Valid()
      ensures State() == AfterUpdateScore(old(State()), points)
    {
      score := score + points;
    }

    /** `endGame`: sets the flag; list and score untouched. */
    method EndGame()
      requires Valid()
      modifies this
      ensures Valid()
      ensures State() == AfterEndGame(old(State()))
    {
      gameOver := true;
    }

    /** `restartGame`: score 0, running again, list emptied, then one spawn. */
    method RestartGame(id: nat, d: SpawnDraw)
      requires Valid() && ValidSpawnDraw(d)
      modifies this
      ensures Valid()
      ensures State() == AfterRestart(old(State()), id, d)
      ensures bubbles == [CreateBubble(id, d)] && score == 0 && !gameOver
    {
      score := 0;
      gameOver := false;
      UpdateScore(0);
      bubbles := [];
      SpawnBubble(id, d);
    }
  }
}
