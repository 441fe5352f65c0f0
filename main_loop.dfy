// The game's main loop: one sprite group that starts with a single sliding
// block; each press of the space bar drops the current block into the physics
// world and spawns a new one at the top; a quit event ends the loop after the
// frame in which it arrives.
//
// Real input and frame timing are replaced by a finite sequence of frames,
// each the list of events read in that frame, and the physics world by a
// function `world(f, i)` giving the pose of sprite `i` at frame `f`.

module MainLoop {
  import opened Blocks

  /** pygame's key code for the space bar. */
  const K_SPACE: int := 32

  datatype Event = Quit | KeyDown(key: int) | OtherEvent

  predicate IsDrop(e: Event)
  {
    e.KeyDown? && e.key == K_SPACE
  }

  /** How many presses of the space bar are in `es`. */
  function Spaces(es: seq<Event>): nat
  {
    if es == [] then 0 else (if IsDrop(es[0]) then 1 else 0) + Spaces(es[1..])
  }

  lemma {:induction false} SpacesAppend(a: seq<Event>, b: seq<Event>)
    ensures Spaces(a + b) == Spaces(a) + Spaces(b)
  {
    if a == [] {
      assert a + b == b;
    } else {
      assert (a + b)[1..] == a[1..] + b;
      SpacesAppend(a[1..], b);
    }
  }

  /** The loop's state: whether it keeps running, and the sprite group in insertion order. */
  datatype World = World(game: bool, sprites: seq<BlockState>)

  function Last(s: seq<BlockState>): BlockState
    requires |s| >= 1
  {
    s[|s| - 1]
  }

  /** Every block but the newest has been dropped, and the newest has not. */
  predicate Stacked(s: seq<BlockState>)
  {
    && |s| >= 1
    && (forall i :: 0 <= i < |s| - 1 ==> s[i].Dropped())
    && !Last(s).Dropped()
  }

  predicate AllInv(s: seq<BlockState>)
  {
    forall i :: 0 <= i < |s| ==> Inv(s[i])
  }

  /** How many blocks of `s` have been dropped. */
  function DroppedCount(s: seq<BlockState>): nat
  {
    if s == [] then 0 else DroppedCount(s[..|s| - 1]) + (if Last(s).Dropped() then 1 else 0)
  }

  lemma {:induction false} AllDroppedCount(s: seq<BlockState>)
    requires forall i :: 0 <= i < |s| ==> s[i].Dropped()
    ensures DroppedCount(s) == |s|
  {
    if s != [] {
      AllDroppedCount(s[..|s| - 1]);
    }
  }

  /** In a stacked group exactly one block, the newest, is still sliding. */
  lemma StackedDroppedCount(s: seq<BlockState>)
    requires Stacked(s)
    ensures DroppedCount(s) == |s| - 1
  {
    AllDroppedCount(s[..|s| - 1]);
  }

  /** The loop starts running with one fresh block in the group. */
  function Start(): (w: World)
    ensures w.game && |w.sprites| == 1 && w.sprites[0] == NewBlock()
    ensures Stacked(w.sprites) && AllInv(w.sprites)
  {
    World(true, [NewBlock()])
  }

  /**
   * One event. Quit stops the loop. Space drops the newest block and appends
   * a fresh one, which becomes the newest. Anything else changes nothing.
   */
  function Handled(w: World, e: Event): (r: World)
    requires |w.sprites| >= 1
    ensures r.game == (w.game && !e.Quit?)
    ensures IsDrop(e) ==>
              r.sprites == w.sprites[..|w.sprites| - 1] + [WithPhysics(Last(w.sprites)), NewBlock()]
    ensures !IsDrop(e) ==> r.sprites == w.sprites
    ensures Stacked(w.sprites) ==> Stacked(r.sprites)
    ensures AllInv(w.sprites) ==> AllInv(r.sprites)
  {
    var game := if e.Quit? then false else w.game;
    if IsDrop(e) then
      var n := |w.sprites|;
      World(game, w.sprites[n - 1 := WithPhysics(w.sprites[n - 1])] + [NewBlock()])
    else
      World(game, w.sprites)
  }

  /** The events of one frame, in order: one block more per space press; quit anywhere stops the loop. */
  function HandledAll(w: World, es: seq<Event>): (r: World)
    requires |w.sprites| >= 1
    ensures |r.sprites| == |w.sprites| + Spaces(es)
    ensures r.game == (w.game && Quit !in es)
    ensures Stacked(w.sprites) ==> Stacked(r.sprites)
    ensures AllInv(w.sprites) ==> AllInv(r.sprites)
    decreases |es|
  {
    if es == [] then w
    else
      assert es == [es[0]] + es[1..];
      HandledAll(Handled(w, es[0]), es[1..])
  }

  /** `all_sprites.update()`: every block takes one frame, sprite `i` seeing `poses(i)`. */
  function UpdatedAll(s: seq<BlockState>, poses: nat -> Pose): (r: seq<BlockState>)
    ensures |r| == |s|
    ensures forall i :: 0 <= i < |s| ==> r[i].physicalBlock == s[i].physicalBlock
    ensures Stacked(s) ==> Stacked(r)
    ensures AllInv(s) ==> AllInv(r)
  {
    var r := seq(|s|, i requires 0 <= i < |s| => Updated(s[i], poses(i)));
    assert forall i :: 0 <= i < |s| ==> r[i] == Updated(s[i], poses(i));
    r
  }

  /** One pass of the loop: the frame's events, then every sprite's update. */
  function AfterFrame(w: World, es: seq<Event>, poses: nat -> Pose): (r: World)
    requires |w.sprites| >= 1
    ensures |r.sprites| == |w.sprites| + Spaces(es)
    ensures r.game == (w.game && Quit !in es)
    ensures Stacked(w.sprites) ==> Stacked(r.sprites)
    ensures AllInv(w.sprites) ==> AllInv(r.sprites)
  {
    var h := HandledAll(w, es);
    World(h.game, UpdatedAll(h.sprites, poses))
  }

  /** The poses the world reports at frame `f`, sprite by sprite. */
  function PosesAt(world: (nat, nat) -> Pose, f: nat): nat -> Pose
  {
    (i: nat) => world(f, i)
  }

  /** The loop from state `w` at frame `f`: frames are played while it runs and input remains. */
  function Played(w: World, fs: seq<seq<Event>>, world: (nat, nat) -> Pose, f: nat): World
    requires |w.sprites| >= 1
    decreases |fs|
  {
    if !w.game || fs == [] then w
    else Played(AfterFrame(w, fs[0], PosesAt(world, f)), fs[1..], world, f + 1)
  }

  /** The events the loop reads: every frame up to and including the first one holding a quit. */
  function Consumed(fs: seq<seq<Event>>): seq<Event>
  {
    if fs == [] then []
    else if Quit in fs[0] then fs[0]
    else fs[0] + Consumed(fs[1..])
  }

  /** How many frames the loop plays: up to and including the first one holding a quit. */
  function FramesPlayed(fs: seq<seq<Event>>): nat
  {
    if fs == [] then 0
    else if Quit in fs[0] then 1
    else 1 + FramesPlayed(fs[1..])
  }

  /**
   * The loop stops within the frame that brings the first quit: every frame
   * played before the last one is free of quits, and the last one played
   * holds a quit unless the input ran out first.
   */
  lemma {:induction false} FramesPlayedStopsAtQuit(fs: seq<seq<Event>>)
    ensures var n := FramesPlayed(fs);
            && n <= |fs|
            && (forall k :: 0 <= k < n - 1 ==> Quit !in fs[k])
            && (n < |fs| ==> n > 0 && Quit in fs[n - 1])
            && (forall k :: 0 <= k < |fs| && Quit in fs[k] ==> n <= k + 1)
  {
    if fs != [] && Quit !in fs[0] {
      FramesPlayedStopsAtQuit(fs[1..]);
      var n := FramesPlayed(fs);
      forall k | 0 <= k < n - 1 ensures Quit !in fs[k] {
        if k > 0 { assert fs[k] == fs[1..][k - 1]; }
      }
      forall k | 0 <= k < |fs| && Quit in fs[k] ensures n <= k + 1 {
        assert k > 0 && fs[k] == fs[1..][k - 1];
      }
    }
  }

  /**
   * A running loop that reads N space presses before it stops ends with N
   * more blocks, still stacked; it stops exactly when it has read a quit.
   */
  lemma {:induction false} PlayedCounts(w: World, fs: seq<seq<Event>>, world: (nat, nat) -> Pose, f: nat)
    requires w.game && Stacked(w.sprites) && AllInv(w.sprites)
    ensures var r := Played(w, fs, world, f);
            && Stacked(r.sprites) && AllInv(r.sprites)
            && |r.sprites| == |w.sprites| + Spaces(Consumed(fs))
            && r.game == (Quit !in Consumed(fs))
    decreases |fs|
  {
    if fs != [] {
      var next := AfterFrame(w, fs[0], PosesAt(world, f));
      if Quit !in fs[0] {
        PlayedCounts(next, fs[1..], world, f + 1);
        SpacesAppend(fs[0], Consumed(fs[1..]));
      }
    }
  }

  /**
   * From the start, after the loop has read N space presses, the group holds
   * N + 1 blocks, N of them dropped and the newest one sliding.
   */
  lemma PlayedFromStart(fs: seq<seq<Event>>, world: (nat, nat) -> Pose)
    ensures var r := Played(Start(), fs, world, 0);
            var n := Spaces(Consumed(fs));
            && |r.sprites| == n + 1
            && DroppedCount(r.sprites) == n
            && (forall i :: 0 <= i < n ==> r.sprites[i].Dropped())
            && !r.sprites[n].Dropped()
  {
    PlayedCounts(Start(), fs, world, 0);
    StackedDroppedCount(Played(Start(), fs, world, 0).sprites);
  }

  /** No block appears twice in the group. */
  predicate Distinct(bs: seq<Block>)
  {
    forall i, j :: 0 <= i < j < |bs| ==> bs[i] != bs[j]
  }

  lemma DistinctAppend(bs: seq<Block>, b: Block)
    requires Distinct(bs) && b !in bs
    ensures Distinct(bs + [b])
  {
  }

  /** The game's state: the loop flag, the sprite group and the newest block. */
  class Game {
    var game: bool
    var allSprites: seq<Block>
    var lastBlock: Block

    function Sprites(): seq<BlockState>
      reads this`allSprites, allSprites
    {
      var bs := allSprites;
      seq(|bs|, i reads bs requires 0 <= i < |bs| => bs[i].State())
    }

    function State(): World
      reads this, allSprites
    {
      World(game, Sprites())
    }

    /** The group is never empty, its blocks are distinct objects, and the newest is `lastBlock`. */
    ghost predicate Valid()
      reads this
    {
      && |allSprites| >= 1
      && lastBlock == allSprites[|allSprites| - 1]
      && Distinct(allSprites)
    }

    constructor ()
      ensures Valid() && State() == Start()
      ensures fresh(lastBlock) && allSprites == [lastBlock]
    {
      var b := new Block();
      game := true;
      allSprites := [b];
      lastBlock := b;
    }

    method HandleEvent(e: Event)
      requires Valid()
      modifies this, lastBlock
      ensures Valid() && State() == Handled(old(State()), e)
      ensures forall b :: b in allSprites ==> b in old(allSprites) || fresh(b)
      ensures IsDrop(e) ==> fresh(lastBlock) && allSprites == old(allSprites) + [lastBlock]
      ensures !IsDrop(e) ==> allSprites == old(allSprites) && lastBlock == old(lastBlock)
    {
      if e.Quit? {
        game := false;
      }
      if e.KeyDown? {
        if e.key == K_SPACE {
          DropLast();
        }
      }
    }

    /** The space-bar branch: drop `lastBlock`, then spawn and add the next one. */
    method DropLast()
      requires Valid()
      modifies this, lastBlock
      ensures Valid() && game == old(game)
      ensures Sprites() == old(Sprites()[..|Sprites()| - 1] + [WithPhysics(Last(Sprites())), NewBlock()])
      ensures fresh(lastBlock) && allSprites == old(allSprites) + [lastBlock]
    {
      ghost var before, n := Sprites(), |allSprites|;
      var _ := lastBlock.AddPhysics();
      var b := new Block();
      DistinctAppend(allSprites, b);
      lastBlock := b;
      allSprites := allSprites + [b];
      assert forall i :: 0 <= i < n - 1 ==> allSprites[i].State() == before[i];
      assert Sprites() == before[..n - 1] + [WithPhysics(before[n - 1]), NewBlock()];
    }

    method UpdateSprites(poses: nat -> Pose)
      requires Valid()
      modifies allSprites
      ensures Valid() && State() == World(old(game), UpdatedAll(old(Sprites()), poses))
    {
      ghost var before := Sprites();
      for i := 0 to |allSprites|
        invariant forall j :: 0 <= j < i ==> allSprites[j].State() == Updated(before[j], poses(j))
        invariant forall j :: i <= j < |allSprites| ==> allSprites[j].State() == before[j]
      {
        assert forall j :: 0 <= j < |allSprites| && j != i ==> allSprites[j] != allSprites[i];
        allSprites[i].Update(poses(i));
      }
      ghost var after := UpdatedAll(before, poses);
      assert Sprites() == after by {
        forall j | 0 <= j < |after| ensures Sprites()[j] == after[j] { }
      }
    }

    /** One pass of the loop body: the frame's events in order, then every sprite's update. */
    method Frame(events: seq<Event>, poses: nat -> Pose)
      requires Valid()
      modifies this, allSprites
      ensures Valid() && State() == AfterFrame(old(State()), events, poses)
      ensures forall b :: b in allSprites ==> b in old(allSprites) || fresh(b)
      ensures (forall j :: 0 <= j < |events| ==> !IsDrop(events[j])) ==>
                allSprites == old(allSprites) && lastBlock == old(lastBlock)
    {
      for k := 0 to |events|
        invariant Valid()
        invariant (forall j :: 0 <= j < k ==> !IsDrop(events[j])) ==>
                    allSprites == old(allSprites) && lastBlock == old(lastBlock)
        invariant HandledAll(old(State()), events) == HandledAll(State(), events[k..])
        invariant forall b :: b in allSprites ==> b in old(allSprites) || fresh(b)
        invariant fresh(set b | b in allSprites && b !in old(allSprites))
      {
        assert events[k..] == [events[k]] + events[k + 1..];
        assert lastBlock in allSprites;
        HandleEvent(events[k]);
      }
      UpdateSprites(poses);
    }
  }

  /**
   * The program: a running game with one block, then the loop over the input
   * frames while the game runs and input remains. It returns the final game
   * and the number of frames played.
   */
  method Run(frames: seq<seq<Event>>, world: (nat, nat) -> Pose) returns (g: Game, played: nat)
    ensures g.Valid() && g.State() == Played(Start(), frames, world, 0)
    ensures played == FramesPlayed(frames)
  {
    g := new Game();
    played := 0;
    ghost var target := Played(Start(), frames, world, 0);
    assert frames[played..] == frames;
    while g.game && played < |frames|
      invariant fresh(g) && fresh(set b | b in g.allSprites)
      invariant g.Valid() && played <= |frames|
      invariant target == Played(g.State(), frames[played..], world, played)
      invariant FramesPlayed(frames) == if g.game then played + FramesPlayed(frames[played..]) else played
    {
      assert frames[played..][1..] == frames[played + 1..];
      g.Frame(frames[played], PosesAt(world, played));
      played := played + 1;
    }
    assert target == Played(g.State(), frames[played..], world, played);
    assert !g.game || frames[played..] == [];
  }
}
