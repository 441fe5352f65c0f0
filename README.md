# Block stacking: the falling block and the main loop

A model of the core of a small block-stacking game written over pygame
(sprites, events) and pymunk (rigid-body physics). A block slides
left and right along the top of a 480×600 window, bouncing off the side
walls. When the player presses space, the block is handed to the physics
world and falls. From then on it is drawn wherever its body is. A new
sliding block appears at the top.

What is modelled:

- `rects.dfy` (module `Rects`): the integer screen rectangle the sprites
  use. It has edges, a centre that rounds down, and the `centerx`,
  `centery` and `top` assignments, which move the rectangle without
  resizing it.
- `blocks.dfy` (module `Blocks`): the `Block` sprite.
  - `BlockState` is a block's value: its rect, its horizontal speed
    `speedx` and its optional physics body.
  - Spec functions describe each operation: `NewBlock` for the
    constructor, `WithPhysics` for `add_physics` and `Updated` for
    `update`.
  - The class `Block` holds the same fields. Its methods change them in
    place and are proved equal to those functions.
  - `Inv` is the invariant every block keeps, with lemmas over any number
    of frames.
- `main_loop.dfy` (module `MainLoop`): the body of the `while game` loop.
  - A `World` holds the loop flag `game` and the sprite group in insertion
    order. `Handled`, `HandledAll`, `UpdatedAll`, `AfterFrame` and `Played`
    describe one event, one frame's events, the group update, one frame
    and the whole loop.
  - The class `Game` keeps `game`, `all_sprites` and `last_block` as
    fields. Its methods are proved against those functions.
  - `Run` is the loop itself, driven by a finite sequence of frames. Each
    frame is the list of events read in it.

The physics world is opaque. When a dropped block is updated, it receives
a `Pose`: the body's centre in world coordinates (y up) and the size of the
block's image after rotation to the body's angle. pygame truncates the
float `HEIGHT - body.y` when it is assigned to `centery`, so the truncation
comes after the flip: `Pose.position.y` stands for
`HEIGHT - trunc(HEIGHT - body.y)`, and `Pose.position.x` for
`trunc(body.x)`. `Run` takes
these from a function `world(frame, sprite)`.

The code moves a sliding block first and only then reverses its speed
(pygame_com_pymunk.py:78-81). So a block can stand up to one step (5 pixels) past a wall for one frame, and
the invariant is `-5 <= x <= WIDTH - BLOCK_WIDTH + 5`. `SlideFromSpawn`
shows this happen: at frame 39 a fresh block's right edge is at 485.

## Model

| member | source | states |
|---|---|---|
| `Rects.Rect.WithCenterX` | pygame_com_pymunk.py:36 | assigning `centerx` moves the rect so that its (rounded-down) centre is the given column; top, width and height are unchanged |
| `Rects.Rect.WithCenterY` | pygame_com_pymunk.py:75 | assigning `centery` moves the rect so that its centre is the given row; left, width and height are unchanged |
| `Rects.Rect.WithTop` | pygame_com_pymunk.py:37 | assigning `top` puts the top edge on the given row; left, width and height are unchanged |
| `Blocks.BoxPoints` | pygame_com_pymunk.py:49-54 | the collision polygon has four corners, each `BLOCK_WIDTH//2` and `BLOCK_HEIGHT//2` from the origin; consecutive corners share a coordinate and opposite corners mirror through the origin: the axis-aligned box centred on the body |
| `Blocks.NewBlock` | pygame_com_pymunk.py:29-41 | a new block is centred on column `WIDTH // 2` with its top on row 0, has the block image's size and `speedx = 5`, has no body, and satisfies the block invariant |
| `Blocks.WithPhysics` | pygame_com_pymunk.py:47-62 | dropping gives the block the box polygon and a body whose world position is the block's screen centre, with y flipped to `HEIGHT - centery`; rect and speed are untouched; the invariant is kept |
| `Blocks.Updated` | pygame_com_pymunk.py:64-81 | an update never adds or removes the body. A dropped block gets speed 0 and is centred on the body's position, y flipped, at the rotated image's size. A sliding block moves its left edge by exactly `speedx` and keeps its top and size. Its speed is negated when the move took it past a wall and unchanged otherwise. The invariant is kept |
| `Blocks.InvForever` | pygame_com_pymunk.py:77-81 | over any number of frames a sliding block stays within one step of the walls: `-5 <= x <= WIDTH - BLOCK_WIDTH + 5`. Whenever it is past a wall its speed points back inwards, and the speed stays ±5 |
| `Blocks.OnceDroppedAlwaysDropped` | pygame_com_pymunk.py:62-68 | once dropped, a block keeps its body over any number of frames; after any frame its speed is 0 and its centre column is the body's last reported x |
| `Blocks.SlidingStaysSliding` | pygame_com_pymunk.py:76-81 | updates alone never turn a sliding block into a dropped one; only `add_physics` does |
| `Blocks.SlideFromSpawn` | pygame_com_pymunk.py:36-81 | starting from the spawn position and speed set at lines 36-38 and the bounce at lines 77-81, a new block moves right 5 pixels per frame from x = 190; at frame 39 its right edge is at `WIDTH + 5` and its speed turns to -5 |
| `Blocks.DropRoundTrip` | pygame_com_pymunk.py:58 | dropping and then updating with the body unmoved puts the centre back where it was; with the image unrotated the rect is exactly the same |
| `Blocks.Block.constructor` | pygame_com_pymunk.py:29-41 | the constructed sprite's state is `NewBlock()` |
| `Blocks.Block.AddPhysics` | pygame_com_pymunk.py:47-62 | the sprite's new state is `WithPhysics` of its old state, and the stored body is the one returned |
| `Blocks.Block.Update` | pygame_com_pymunk.py:64-81 | the sprite's new state is `Updated` of its old state and the reported pose |
| `MainLoop.StackedDroppedCount` | pygame_com_pymunk.py:117-120 | in a group where every block but the newest is dropped, exactly `size - 1` blocks are dropped |
| `MainLoop.Start` | pygame_com_pymunk.py:101-103 | the loop starts running with a group of one fresh block, which is stacked (only the newest undropped) and satisfies the invariant |
| `MainLoop.Handled` | pygame_com_pymunk.py:112-120 | a quit event clears `game`. A space key-down turns the newest block into its dropped form and appends a fresh block. Any other event leaves the group unchanged. Stacking and the invariant are kept |
| `MainLoop.HandledAll` | pygame_com_pymunk.py:110-120 | after one frame's events the group has one more block per space press. `game` is false exactly when it was false already or the frame held a quit. Stacking and the invariant are kept |
| `MainLoop.UpdatedAll` | pygame_com_pymunk.py:124 | updating the group keeps its size and each block's body, and keeps stacking and the invariant |
| `MainLoop.AfterFrame` | pygame_com_pymunk.py:110-124 | one pass of the loop adds one block per space press and keeps stacking and the invariant; `game` becomes false exactly on a quit |
| `MainLoop.FramesPlayedStopsAtQuit` | pygame_com_pymunk.py:106-113 | the loop plays no more frames than it is given. Every frame before the last one played is free of quits. It stops early only right after a frame holding a quit, and never plays past the first quit frame |
| `MainLoop.PlayedCounts` | pygame_com_pymunk.py:106-124 | a running loop that reads N space presses before it stops ends with N more blocks, still stacked and all satisfying the invariant; it ends running exactly when it has read no quit |
| `MainLoop.PlayedFromStart` | pygame_com_pymunk.py:101-120 | from the start, after the loop has read N space presses the group holds N + 1 blocks: the first N dropped (N in all) and the newest, the one added last, sliding |
| `MainLoop.Game.constructor` | pygame_com_pymunk.py:101-103 | the new game runs, holds a single fresh block, and that block is `last_block` |
| `MainLoop.Game.HandleEvent` | pygame_com_pymunk.py:112-120 | the game's new state is `Handled` of its old state; the group stays non-empty, distinct, with `last_block` its newest member; a space press appends a fresh `last_block`, and any other event leaves `all_sprites` and `last_block` the very same objects |
| `MainLoop.Game.DropLast` | pygame_com_pymunk.py:118-120 | `last_block` is dropped, a fresh block is appended and becomes `last_block`, the other blocks are untouched |
| `MainLoop.Game.UpdateSprites` | pygame_com_pymunk.py:124 | every block in the group is updated in place with its own pose; the new group state is `UpdatedAll` of the old one |
| `MainLoop.Game.Frame` | pygame_com_pymunk.py:110-124 | the game's new state is `AfterFrame` of its old state: the frame's events in order, then the group update; a frame without a space press keeps `all_sprites` and `last_block` the very same objects |
| `MainLoop.Run` | pygame_com_pymunk.py:101-124 | the loop runs while `game` holds and input remains; the final state is `Played` from the start state, and the number of frames played is `FramesPlayed` of the input |

## Left out

- Physics simulation: the space, gravity, the floor segment, `space.step`, mass, `moment_for_poly`, friction, elasticity and the sleep threshold. These are floating-point computations inside pymunk. A dropped block's body position is an input (`Pose`), not computed.
- Floating point: pymunk positions are floats, and pygame truncates the values assigned to `centerx` and `centery` (`body.x` and `HEIGHT - body.y`). The model receives the results already as integers: `Pose.position` is `(trunc(body.x), HEIGHT - trunc(HEIGHT - body.y))`, for which the flip in `Updated` gives back exactly the truncated row.
- Rendering and assets: window creation, image loading and scaling, `transform.rotate`, `fill`, `draw`, `display.update`. Only the rotated image's size matters, and it is part of `Pose`.
- Frame pacing (`clock.tick(FPS)`) and the real event queue: replaced by a finite sequence of frames, each a list of events. With endless input and no quit the source loops forever; the model plays as many frames as it is given.
- Process start-up and shutdown (`pygame.init`, `pygame.quit`), and the unused `random` import.
