/** A single bubble of the game as plain data: how `createBubble` places it and
    how one frame of `updateBubbles` moves it. Math.random() values are passed in
    as parameters; the colour and the scene object are not modelled. */
module Bubbles {

  /** A point or a direction in scene space (x to the right, y up, z towards the camera). */
  datatype Vec3 = Vec3(x: real, y: real, z: real)
  {
    function Plus(o: Vec3): Vec3 { Vec3(x + o.x, y + o.y, z + o.z) }
  }

  /** A bubble: the identity of its scene object, its position and its velocity
      (distance per frame). */
  datatype Bubble = Bubble(id: nat, position: Vec3, velocity: Vec3)

  /** Height at which every bubble is created. */
  const SpawnY: real := -10.0
  /** A bubble whose height exceeds this after a frame is removed. */
  const CeilingY: real := 10.0

  /** A value Math.random() can return. */
  predicate IsRandom(u: real) { 0.0 <= u < 1.0 }

  /** The five Math.random() values `createBubble` uses for position x, position z
      and the three velocity components. */
  datatype SpawnDraw = SpawnDraw(px: real, pz: real, vx: real, vy: real, vz: real)

  predicate ValidSpawnDraw(d: SpawnDraw)
  {
    IsRandom(d.px) && IsRandom(d.pz) && IsRandom(d.vx) && IsRandom(d.vy) && IsRandom(d.vz)
  }

  /** The two Math.random() values one frame of `updateBubbles` uses for one bubble. */
  datatype Jitter = Jitter(dx: real, dz: real)

  predicate ValidJitter(j: Jitter) { IsRandom(j.dx) && IsRandom(j.dz) }

  /** `createBubble`: a new bubble at height -10, somewhere in the box
      [-10, 10) x [-5, 5) horizontally, drifting upwards by 0.05 to 0.15 per frame. */
  function CreateBubble(id: nat, d: SpawnDraw): (b: Bubble)
    requires ValidSpawnDraw(d)
    ensures b.id == id
    ensures b.position.y == SpawnY
    ensures -10.0 <= b.position.x < 10.0 && -5.0 <= b.position.z < 5.0
    ensures -0.05 <= b.velocity.x < 0.05 && -0.05 <= b.velocity.z < 0.05
    ensures 0.05 <= b.velocity.y < 0.15
  {
    Bubble(id,
      Vec3((d.px - 0.5) * 20.0, SpawnY, (d.pz - 0.5) * 10.0),
      Vec3((d.vx - 0.5) * 0.1, d.vy * 0.1 + 0.05, (d.vz - 0.5) * 0.1))
  }

  /** One frame of motion for one bubble, as the body of the `updateBubbles` loop
      does it: the position moves by the velocity it had before the frame, then the
      horizontal velocity components are nudged by less than 0.005 each. The vertical
      velocity is never touched, so a bubble that rises keeps rising. */
  function Advance(b: Bubble, j: Jitter): (r: Bubble)
    requires ValidJitter(j)
    ensures r.id == b.id
    ensures r.position == b.position.Plus(b.velocity)
    ensures r.velocity.y == b.velocity.y
    ensures -0.005 <= r.velocity.x - b.velocity.x < 0.005
    ensures -0.005 <= r.velocity.z - b.velocity.z < 0.005
    ensures b.velocity.y > 0.0 ==> r.position.y > b.position.y
  {
    Bubble(b.id,
      b.position.Plus(b.velocity),
      Vec3(b.velocity.x + (j.dx - 0.5) * 0.01, b.velocity.y, b.velocity.z + (j.dz - 0.5) * 0.01))
  }
}
