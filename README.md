# BubbleGame state machine in Dafny

A model of the game logic of the bubble-popping minigame: the `BubbleGame` class of
`android_proj/app/src/main/assets/game.js`. Bubbles spawn at the bottom of the scene,
drift upwards with a jittering horizontal velocity, and are removed when they rise
above height 10 or when the player taps them (one point each). When a frame leaves 20
or more bubbles on screen the game is over, until the restart button is pressed.

Layout:

- `bubble.dfy`, module `Bubbles`: a bubble as a value (an identity, a position and a
  velocity as `real` triples), `createBubble`'s placement and one frame of motion.
- `game_spec.dfy`, module `GameSpec`: the game state as a value, one function per
  operation (`AfterSpawn`, `AfterUpdate`, `AfterPointerDown`, `AfterUpdateScore`,
  `AfterEndGame`, `AfterRestart`), the helpers `indexOf` and `splice`, and the lemmas
  that state what each operation promises.
- `game_trace.dfy`, module `GameTrace`: runs of callbacks (spawn timer, animation
  frame, pointer press, restart click) and the properties that hold across any run:
  the invariant, the monotonic score and the game-over latch.
- `game.dfy`, module `Game`: the class `BubbleGame` with the fields `bubbles`,
  `score` and `gameOver`, whose methods update them in place. `updateBubbles` keeps
  its backward index loop with an in-place update and `splice`. Each method is proved
  to move the object to the state the matching `GameSpec` function gives, and to keep
  the invariant `Inv`. `Inv` says that bubble identities are distinct, and that every
  bubble rises at 0.05 to 0.15 per frame and is at or below height 10.

How the outside world enters the model:

- Each `Math.random()` value is a parameter required to lie in [0, 1): five per spawn
  (`SpawnDraw`) and two per bubble per frame (`Jitter`).
- The raycaster's answer is a parameter `hit: Option<nat>`, the identity of the
  nearest intersected object, if any.
- A bubble's identity stands for the JavaScript object. The caller passes the identity
  of the mesh that `createBubble` allocates, and it must differ from every bubble on
  screen, as a newly allocated object does.
- `maxBubbles` is the module constant `MaxBubbles`. The 20 never changes in the source.

The model keeps three behaviours of the code that one might not expect:

- After `new BubbleGame()` and after `restartGame` the list holds one bubble, not
  zero, because `init` and `restartGame` both end by calling `spawnBubble`.
- `updateBubbles` does not consult `gameOver`. After game over, bubbles still move and
  are culled every frame, and `endGame` runs again on every frame that leaves 20 or
  more bubbles.
- The score is not monotonic across a restart, which sets it back to 0.

## Model

| member | source | states |
|---|---|---|
| Bubbles.CreateBubble | android_proj/app/src/main/assets/game.js:63-73 | a new bubble starts at height -10, with x in [-10, 10), z in [-5, 5), horizontal velocities in [-0.05, 0.05) and vertical velocity in [0.05, 0.15) |
| Bubbles.Advance | android_proj/app/src/main/assets/game.js:93-98 | one frame moves all three coordinates of the position by the pre-frame velocity; vertical velocity is unchanged; each horizontal velocity moves by less than 0.005; a bubble with positive vertical velocity ends higher |
| GameSpec.Survivors | android_proj/app/src/main/assets/game.js:89-105 | the list a frame leaves is no longer than before and no bubble in it is above height 10 |
| GameSpec.KeptFrom | android_proj/app/src/main/assets/game.js:100-104 | the indices whose bubble stays at or below height 10 after the frame, strictly increasing, and an index is in it exactly when its bubble stays |
| GameSpec.SurvivorsAreKept | android_proj/app/src/main/assets/game.js:89-105 | the backward `splice` loop keeps order and skips nothing: the survivors are the moved bubbles at exactly the indices that stay at or below 10, in increasing index order |
| GameSpec.IndexOf | android_proj/app/src/main/assets/game.js:124-125 | `indexOf` returns -1 exactly when no bubble is the hit object, and otherwise the first position holding it |
| GameSpec.SpawnAppendsOne | android_proj/app/src/main/assets/game.js:78-82 | a spawn changes nothing when the game is over; otherwise it appends exactly one bubble at the end with the given identity, at height -10 and within the spawn box, keeps the earlier bubbles, score and flag, and keeps the invariant |
| GameSpec.UpdateEndsGameAtMax | android_proj/app/src/main/assets/game.js:89-111 | after a frame no bubble is above 10, the score is unchanged, and the game is over exactly when it was before or 20 or more bubbles remain; the invariant is kept |
| GameSpec.UpdateRaisesEveryBubble | android_proj/app/src/main/assets/game.js:69-73 | each bubble that survives a frame is at least 0.05 higher than before and keeps its vertical velocity |
| GameSpec.UpdateIgnoresGameOver | android_proj/app/src/main/assets/game.js:166-169 | the bubbles a frame leaves do not depend on the game-over flag, because `animate` runs `updateBubbles` every frame regardless |
| GameSpec.SurvivorsAllStay | android_proj/app/src/main/assets/game.js:100-104 | a frame in which no bubble crosses height 10 removes none |
| GameSpec.NineteenThenSpawnEndsGame | android_proj/app/src/main/assets/game.js:78-111 | with 19 bubbles on screen and none about to leave, a spawn brings the count to 20 and the next frame ends the game |
| GameSpec.PointerDownRemovesHit | android_proj/app/src/main/assets/game.js:113-131 | a press scores exactly when the game is running and the hit object is in the list; then exactly that bubble is removed, the others keep their order, and the score rises by 1; otherwise nothing changes; the invariant is kept |
| GameSpec.EndGameIsIdempotent | android_proj/app/src/main/assets/game.js:138-142 | `endGame` sets the flag, leaves score and list alone, and a second call changes nothing |
| GameSpec.RestartLeavesOneBubble | android_proj/app/src/main/assets/game.js:144-157 | after a restart the score is 0, the game is running and the list holds exactly the one bubble its spawn created; two restarts in a row end where the second one alone would |
| GameTrace.StepKeepsInv | android_proj/app/src/main/assets/game.js:78-157 | every callback keeps the invariant |
| GameTrace.StepScoreDelta | android_proj/app/src/main/assets/game.js:128-134 | outside a restart a callback raises the score by 0 or 1 |
| GameTrace.RunKeepsInv | android_proj/app/src/main/assets/game.js:78-157 | the invariant holds after any run of callbacks |
| GameTrace.ScoreNeverDecreases | android_proj/app/src/main/assets/game.js:133-134 | across any run without a restart, the score never goes down |
| GameTrace.GameOverLatches | android_proj/app/src/main/assets/game.js:138-146 | once the game is over it stays over through any run without a restart; only `restartGame` clears the flag |
| GameTrace.GameOverFreezesSpawnAndHit | android_proj/app/src/main/assets/game.js:78-131 | after game over, any run of spawn timers and pointer presses leaves the state exactly as it was |
| GameTrace.RestartMatchesFreshGame | android_proj/app/src/main/assets/game.js:144-157 | a restart after any run gives the state of a fresh game whose first spawn made the same bubble |
| Game.BubbleGame.constructor | android_proj/app/src/main/assets/game.js:4-45 | a new game runs one frame over the empty list, then one spawn: one bubble, score 0, not over |
| Game.BubbleGame.SpawnBubble | android_proj/app/src/main/assets/game.js:78-87 | the object moves to `AfterSpawn` of its old state and keeps the invariant |
| Game.BubbleGame.UpdateBubbles | android_proj/app/src/main/assets/game.js:89-111 | the backward in-place loop with `splice` yields `AfterUpdate` of the old state: no bubble above 10, and over whenever 20 or more remain |
| Game.BubbleGame.OnPointerDown | android_proj/app/src/main/assets/game.js:113-131 | the object moves to `AfterPointerDown` of its old state and keeps the invariant |
| Game.BubbleGame.UpdateScore | android_proj/app/src/main/assets/game.js:133-136 | the score grows by the points given; list and flag unchanged |
| Game.BubbleGame.EndGame | android_proj/app/src/main/assets/game.js:138-142 | the flag is set; list and score unchanged |
| Game.BubbleGame.RestartGame | android_proj/app/src/main/assets/game.js:144-157 | the object moves to `AfterRestart` of its old state: one fresh bubble, score 0, running |

## Left out

- Scene, geometry, material, lights, camera and renderer calls (`scene.add`, `scene.remove`, `render`): rendering side effects in a foreign library. The loop in `restartGame` that removes each mesh from the scene only touches the scene, so the model has no loop there.
- The ray and sphere intersection and the conversion of pointer coordinates to device coordinates: floating-point geometry inside the graphics library. Its result is the `hit` parameter.
- The random colour, and the random delay of the next spawn timer. Neither affects the game state.
- Timer and frame scheduling (`setTimeout`, `requestAnimationFrame`): the model does not track which timers are pending, and takes any order of callbacks, with any number of spawn timers, as a run. So it covers more runs than can really happen, among them those with the second spawn chain that starts when a restart comes before a pending spawn timer has fired.
- Writes to the page (score text, game-over overlay, final score), window resize handling and the button wiring: interface plumbing with no effect on the game state.
- IEEE-754 rounding in position and velocity sums: positions and velocities are `real`.
- `MainActivity.java`: WebView set-up and back-button handling, with no game logic.
- Game.BubbleGame.SpawnBubble: requires a fresh identity even when the game is over and no bubble is created. A newly allocated object is fresh anyway.
