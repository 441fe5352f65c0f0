// The falling block: a sprite that slides along the top of the screen,
// bouncing off the side walls, until the player drops it; from then on its
// position comes from the rigid body that represents it in the physics world.
//
// The physics world is opaque here. When a dropped block is updated it is
// handed the `Pose` the world reports for its body at that frame: the body's
// centre (in world coordinates, y pointing up) and the size of the block's
// image once rotated to the body's angle.

module Blocks {
  import opened Rects

  const WIDTH: int := 480
  const HEIGHT: int := 600
  const BLOCK_WIDTH: nat := 100
  const BLOCK_HEIGHT: nat := 40
  /** Horizontal speed of a fresh block, in pixels per frame. */
  const SPEED: int := 5

  datatype Option<T> = None | Some(value: T)

  /** A point in world coordinates (x to the right, y up) or in a body's own frame. */
  datatype Vec = Vec(x: int, y: int)

  /** The body a block registers with the physics world: where it was placed and its collision polygon. */
  datatype Body = Body(position: Vec, points: seq<Vec>)

  /**
   * What the physics world and the renderer report for a dropped block at one
   * frame. The body's float position is truncated as pygame does when it is
   * assigned to the rect, after the flip for y: `position` is
   * `(trunc(body.x), HEIGHT - trunc(HEIGHT - body.y))`.
   */
  datatype Pose = Pose(position: Vec, imageWidth: nat, imageHeight: nat)

  /** A block's state: its screen rect, its horizontal speed and its body, if it has been dropped. */
  datatype BlockState = BlockState(rect: Rect, speedx: int, physicalBlock: Option<Body>)
  {
    predicate Dropped() { physicalBlock.Some? }
  }

  /** Screen rows grow downwards, world y grows upwards; the flip is its own inverse. */
  function FlipY(y: int): int { HEIGHT - y }

  /** A kinematic block has gone through a side wall of the screen. */
  predicate PastWall(r: Rect)
  {
    r.Left() < 0 || r.Right() > WIDTH
  }

  /**
   * What every block satisfies at every frame. A sliding block keeps its
   * image size and the top row, moves at full speed, stays within one step
   * of the walls and, when it is past a wall, heads back inwards. A dropped
   * block carries the box polygon, and its speed is the sliding speed it had
   * or, after its first update, zero.
   */
  predicate Inv(b: BlockState)
  {
    match b.physicalBlock
    case None =>
      && b.rect.y == 0 && b.rect.w == BLOCK_WIDTH && b.rect.h == BLOCK_HEIGHT
      && (b.speedx == SPEED || b.speedx == -SPEED)
      && -SPEED <= b.rect.x <= WIDTH - BLOCK_WIDTH + SPEED
      && (b.rect.Left() < 0 ==> b.speedx > 0)
      && (b.rect.Right() > WIDTH ==> b.speedx < 0)
    case Some(body) =>
      && body.points == BoxPoints()
      && (b.speedx == 0 || b.speedx == SPEED || b.speedx == -SPEED)
  }

  /**
   * The collision polygon: the rectangle of the block's size centred on the
   * body's origin. Each corner is half the block's width and half its height
   * away from the origin, consecutive corners (cyclically) share one
   * coordinate, so the edges are axis-aligned, and opposite corners are
   * mirror images through the origin.
   */
  function BoxPoints(): (ps: seq<Vec>)
    ensures |ps| == 4
    ensures forall i :: 0 <= i < |ps| ==>
              (ps[i].x == BLOCK_WIDTH / 2 || ps[i].x == -(BLOCK_WIDTH / 2)) &&
              (ps[i].y == BLOCK_HEIGHT / 2 || ps[i].y == -(BLOCK_HEIGHT / 2))
    ensures ps[0].x == ps[1].x && ps[1].y == ps[2].y && ps[2].x == ps[3].x && ps[3].y == ps[0].y
    ensures ps[0].x + ps[2].x == 0 && ps[0].y + ps[2].y == 0
    ensures ps[1].x + ps[3].x == 0 && ps[1].y + ps[3].y == 0
  {
    var hw, hh := (-(BLOCK_WIDTH as int)) / 2, (-(BLOCK_HEIGHT as int)) / 2;
    [Vec(hw, hh), Vec(hw, BLOCK_HEIGHT / 2), Vec(BLOCK_WIDTH / 2, BLOCK_HEIGHT / 2), Vec(BLOCK_WIDTH / 2, hh)]
  }

  /** A fresh block: centred horizontally at the top of the screen, sliding right, not dropped. */
  function NewBlock(): (b: BlockState)
    ensures b.rect.CenterX() == WIDTH / 2 && b.rect.Top() == 0
    ensures b.rect.w == BLOCK_WIDTH && b.rect.h == BLOCK_HEIGHT
    ensures b.speedx == SPEED && b.physicalBlock == None
    ensures Inv(b)
  {
    BlockState(SizedRect(BLOCK_WIDTH, BLOCK_HEIGHT).WithCenterX(WIDTH / 2).WithTop(0), SPEED, None)
  }

  /**
   * Dropping a block: it gets a body whose world position is the block's
   * screen centre, with the box polygon; its rect and speed are untouched.
   */
  function WithPhysics(b: BlockState): (r: BlockState)
    ensures r.Dropped() && r.physicalBlock.value.points == BoxPoints()
    ensures r.physicalBlock.value.position.x == b.rect.CenterX()
    ensures FlipY(r.physicalBlock.value.position.y) == b.rect.CenterY()
    ensures r.rect == b.rect && r.speedx == b.speedx
    ensures Inv(b) ==> Inv(r)
  {
    var body := Body(Vec(b.rect.CenterX(), HEIGHT - b.rect.CenterY()), BoxPoints());
    b.(physicalBlock := Some(body))
  }

  /**
   * One frame of a block. A dropped block stops sliding and is drawn centred
   * on its body, flipped to screen rows, at the rotated image's size. A
   * sliding block moves by its speed and reverses it exactly when the move
   * took it past a wall. No update attaches or removes a body.
   */
  function Updated(b: BlockState, pose: Pose): (r: BlockState)
    ensures r.physicalBlock == b.physicalBlock
    ensures b.Dropped() ==>
              && r.speedx == 0
              && r.rect.CenterX() == pose.position.x
              && r.rect.CenterY() == FlipY(pose.position.y)
              && r.rect.w == pose.imageWidth && r.rect.h == pose.imageHeight
    ensures !b.Dropped() ==>
              && r.rect.x == b.rect.x + b.speedx
              && r.rect.y == b.rect.y && r.rect.w == b.rect.w && r.rect.h == b.rect.h
              && (PastWall(r.rect) ==> r.speedx == -b.speedx)
              && (!PastWall(r.rect) ==> r.speedx == b.speedx)
    ensures Inv(b) ==> Inv(r)
  {
    if b.Dropped() then
      var rect := SizedRect(pose.imageWidth, pose.imageHeight);
      var center := pose.position;
      b.(speedx := 0, rect := rect.WithCenterX(center.x).WithCenterY(HEIGHT - center.y))
    else
      var moved := b.rect.(x := b.rect.x + b.speedx);
      b.(rect := moved, speedx := if PastWall(moved) then -b.speedx else b.speedx)
  }

  /** `n` successive frames of one block, frame `i` reporting `poses(i)`. */
  function Frames(b: BlockState, poses: nat -> Pose, n: nat): BlockState
  {
    if n == 0 then b else Updated(Frames(b, poses, n - 1), poses(n - 1))
  }

  /** The invariant holds at every frame, whatever the physics reports. */
  lemma {:induction false} InvForever(b: BlockState, poses: nat -> Pose, n: nat)
    requires Inv(b)
    ensures Inv(Frames(b, poses, n))
  {
    if n > 0 {
      InvForever(b, poses, n - 1);
    }
  }

  /**
   * Dropping is one-way: a dropped block stays dropped, and after any frame
   * it has stopped sliding and sits on the body's last reported position.
   */
  lemma {:induction false} OnceDroppedAlwaysDropped(b: BlockState, poses: nat -> Pose, n: nat)
    requires b.Dropped()
    ensures Frames(b, poses, n).physicalBlock == b.physicalBlock
    ensures n > 0 ==> Frames(b, poses, n).speedx == 0
    ensures n > 0 ==> Frames(b, poses, n).rect.CenterX() == poses(n - 1).position.x
  {
    if n > 0 {
      OnceDroppedAlwaysDropped(b, poses, n - 1);
    }
  }

  /** A sliding block is never dropped by its own updates. */
  lemma {:induction false} SlidingStaysSliding(b: BlockState, poses: nat -> Pose, n: nat)
    requires !b.Dropped()
    ensures !Frames(b, poses, n).Dropped()
  {
    if n > 0 {
      SlidingStaysSliding(b, poses, n - 1);
    }
  }

  /**
   * From spawning, a block slides right by SPEED per frame; at frame 39 its
   * right edge is SPEED pixels beyond the screen and it turns back. So the
   * bounce lets a block overshoot a wall by one step before it reverses.
   */
  lemma {:induction false} SlideFromSpawn(poses: nat -> Pose, k: nat)
    requires k <= 39
    ensures !Frames(NewBlock(), poses, k).Dropped()
    ensures Frames(NewBlock(), poses, k).rect.w == BLOCK_WIDTH
    ensures Frames(NewBlock(), poses, k).rect.x == (WIDTH - BLOCK_WIDTH) / 2 + SPEED * k
    ensures Frames(NewBlock(), poses, k).speedx == if k < 39 then SPEED else -SPEED
    ensures k == 39 ==> Frames(NewBlock(), poses, k).rect.Right() == WIDTH + SPEED
  {
    if k > 0 {
      SlideFromSpawn(poses, k - 1);
    }
  }

  /**
   * Dropping and then updating with the body where it was placed puts the
   * block's centre back where it was; with the image unrotated the rect is
   * the same rect.
   */
  lemma DropRoundTrip(b: BlockState, w: nat, h: nat)
    ensures var d := WithPhysics(b);
            var r := Updated(d, Pose(d.physicalBlock.value.position, w, h));
            r.rect.CenterX() == b.rect.CenterX() && r.rect.CenterY() == b.rect.CenterY()
    ensures var d := WithPhysics(b);
            Updated(d, Pose(d.physicalBlock.value.position, b.rect.w, b.rect.h)).rect == b.rect
  {
  }

  /** The sprite: its rect, speed and body are updated in place. */
  class Block {
    var rect: Rect
    var speedx: int
    var physicalBlock: Option<Body>

    function State(): BlockState
      reads this
    {
      BlockState(rect, speedx, physicalBlock)
    }

    constructor ()
      ensures State() == NewBlock()
    {
      var r := SizedRect(BLOCK_WIDTH, BLOCK_HEIGHT);
      r := r.WithCenterX(WIDTH / 2);
      r := r.WithTop(0);
      rect := r;
      speedx := SPEED;
      physicalBlock := None;
    }

    /** Registers the block's body with the physics world and returns it. */
    method AddPhysics() returns (body: Body)
      modifies this
      ensures State() == WithPhysics(old(State()))
      ensures physicalBlock == Some(body)
    {
      var points := BoxPoints();
      body := Body(Vec(rect.CenterX(), HEIGHT - rect.CenterY()), points);
      physicalBlock := Some(body);
    }

    method Update(pose: Pose)
      modifies this
      ensures State() == Updated(old(State()), pose)
    {
      if physicalBlock.Some? {
        speedx := 0;
        rect := SizedRect(pose.imageWidth, pose.imageHeight);
        var center := pose.position;
        rect := rect.WithCenterX(center.x);
        rect := rect.WithCenterY(HEIGHT - center.y);
      } else {
        rect := rect.(x := rect.x + speedx);
        if rect.Left() < 0 || rect.Right() > WIDTH {
          speedx := -speedx;
        }
      }
    }
  }
}
