/**
 * The player (player.go): keyboard-driven movement, facing and the
 * idle/running animation.  Keys are an input snapshot instead of polled
 * engine state; sprite frames are the rectangles cut from their sheets.
 */
module Players {
  import opened Sprites
  import opened Animation

  datatype Direction = Down | Up | Left | Right

  datatype PlayerState = Idle | Running

  /** The movement keys held during one tick. */
  datatype Keys = Keys(W: bool, S: bool, A: bool, D: bool)

  /** Frames per state and facing; a missing entry reads as no frames, as a nil map or slice does in Go. */
  type Animations = map<PlayerState, map<Direction, seq<Rectangle>>>

  function FrameCount(animations: Animations, state: PlayerState, dir: Direction): nat
  {
    if state in animations && dir in animations[state] then |animations[state][dir]| else 0
  }

  /** The frame counts LoadPlayerAnimations slices each sheet into. */
  function LoadedFrameCount(state: PlayerState): int
  {
    match state
    case Idle => 8
    case Running => 8
  }

  /** The entry for (state, dir) is present and holds the frames sliced from its sheet. */
  ghost predicate Entry(animations: Animations, state: PlayerState, dir: Direction, frameWidth: int, frameHeight: int)
  {
    && state in animations && dir in animations[state]
    && |animations[state][dir]| == LoadedFrameCount(state)
    && forall i :: 0 <= i < |animations[state][dir]| ==>
         animations[state][dir][i] == FrameRect(i, frameWidth, frameHeight)
  }

  /** Every (state, facing) entry is present and holds the frames sliced from its sheet. */
  ghost predicate Loaded(animations: Animations, frameWidth: int, frameHeight: int)
  {
    forall state, dir :: Entry(animations, state, dir, frameWidth, frameHeight)
  }

  /** LoadPlayerAnimations, without the file reads: for each state and facing,
      the sheet is sliced into that state's number of frames. */
  method LoadPlayerAnimations(frameWidth: int, frameHeight: int, frameDelay: int) returns (animations: Animations)
    ensures Loaded(animations, frameWidth, frameHeight)
  {
    animations := map[];
    var states := [Idle, Running];
    var directions := [Down, Up, Left, Right];
    for si := 0 to |states|
      invariant forall state, dir :: state in states[..si] ==>
        Entry(animations, state, dir, frameWidth, frameHeight)
    {
      var state := states[si];
      assert state !in states[..si] by {
        assert si == 0 || (si == 1 && states[..si] == [Idle] && state == Running);
      }
      ghost var before := animations;
      animations := animations[state := map[]];
      forall s, dir | s in states[..si] ensures Entry(animations, s, dir, frameWidth, frameHeight) {
        assert Entry(before, s, dir, frameWidth, frameHeight);
        assert animations[s] == before[s];
      }
      for di := 0 to |directions|
        invariant state in animations
        invariant forall s, dir :: s in states[..si] ==>
          Entry(animations, s, dir, frameWidth, frameHeight)
        invariant forall dir :: dir in directions[..di] ==>
          Entry(animations, state, dir, frameWidth, frameHeight)
      {
        var dir := directions[di];
        var frames := SliceSpriteSheet(LoadedFrameCount(state), frameWidth, frameHeight);
        ghost var prev := animations;
        animations := animations[state := animations[state][dir := frames]];
        forall s, d | s in states[..si] ensures Entry(animations, s, d, frameWidth, frameHeight) {
          assert Entry(prev, s, d, frameWidth, frameHeight);
          assert animations[s] == prev[s];
        }
        assert directions[..di + 1] == directions[..di] + [dir];
      }
      assert directions[..|directions|] == directions;
      forall dir ensures dir in directions {
        match dir
        case Down => assert directions[0] == dir;
        case Up => assert directions[1] == dir;
        case Left => assert directions[2] == dir;
        case Right => assert directions[3] == dir;
      }
      assert states[..si + 1] == states[..si] + [state];
    }
    assert states[..|states|] == states;
    forall state ensures state in states {
      match state
      case Idle => assert states[0] == state;
      case Running => assert states[1] == state;
    }
  }

  /** Whether the key that faces `dir` is held. */
  predicate Pressed(keys: Keys, dir: Direction)
  {
    match dir
    case Up => keys.W
    case Down => keys.S
    case Left => keys.A
    case Right => keys.D
  }

  predicate Moving(keys: Keys)
  {
    keys.W || keys.S || keys.A || keys.D
  }

  /** Position of a facing's key in the order Update tests the keys: W, S, A, D. */
  function CheckOrder(dir: Direction): nat
  {
    match dir
    case Up => 0
    case Down => 1
    case Left => 2
    case Right => 3
  }

  /** The facing after a tick: the held key tested last wins; no key keeps the old facing. */
  function Facing(keys: Keys, dir: Direction): (r: Direction)
    ensures Moving(keys) ==> Pressed(keys, r)
    ensures Moving(keys) ==> forall d :: CheckOrder(d) > CheckOrder(r) ==> !Pressed(keys, d)
    ensures !Moving(keys) ==> r == dir
  {
    if keys.D then Right
    else if keys.A then Left
    else if keys.S then Down
    else if keys.W then Up
    else dir
  }

  /** The move along one axis in a tick: Speed toward the key held for the positive
      direction, minus Speed for the negative one; holding both cancels out. */
  function Shift(speed: real, plus: bool, minus: bool): (r: real)
    ensures plus == minus ==> r == 0.0
    ensures plus && !minus ==> r == speed
    ensures minus && !plus ==> r == -speed
  {
    (if plus then speed else 0.0) - (if minus then speed else 0.0)
  }

  class Player {
    var Animations: Animations
    var X: real
    var Y: real
    var Speed: real
    var Dir: Direction
    var State: PlayerState
    var FrameIndex: int
    var FrameTimer: int
    var FrameDelay: int
    var FrameWidth: int
    var FrameHeight: int
    /** Ticks until contact damage may hit again; game.go uses it, no shown file declares it. */
    var DamageCooldown: int

    function CurrentFrameCount(): nat
      reads this
    {
      FrameCount(Animations, State, Dir)
    }

    /** AdvanceFrame: one tick of the current animation; Go panics on a zero frame count
        when the timer fires. */
    method AdvanceFrame()
      requires FrameTimer + 1 >= FrameDelay ==> CurrentFrameCount() != 0
      modifies this`FrameTimer, this`FrameIndex
      ensures (FrameTimer, FrameIndex) == Tick(old(FrameTimer), old(FrameIndex), FrameDelay, CurrentFrameCount())
    {
      FrameTimer := FrameTimer + 1;
      if FrameTimer >= FrameDelay {
        FrameTimer := 0;
        FrameIndex := GoRem(FrameIndex + 1, CurrentFrameCount());
      }
    }

    /** Update: move by the held keys, face the last key tested, run or idle,
        and advance the animation once. */
    method Update(keys: Keys)
      requires FrameTimer + 1 >= FrameDelay ==>
        FrameCount(Animations, if Moving(keys) then Running else Idle, Facing(keys, Dir)) != 0
      modifies this`X, this`Y, this`Dir, this`State, this`FrameTimer, this`FrameIndex
      ensures State == (if Moving(keys) then Running else Idle)
      ensures Dir == Facing(keys, old(Dir))
      ensures X == old(X) + Shift(Speed, keys.D, keys.A)
      ensures Y == old(Y) + Shift(Speed, keys.S, keys.W)
      ensures (FrameTimer, FrameIndex) == Tick(old(FrameTimer), old(FrameIndex), FrameDelay, CurrentFrameCount())
      // The index is not reset when the state or facing changes: it stays a valid
      // frame only because every animation has the same number of frames.
      ensures old(0 <= FrameIndex < CurrentFrameCount()) &&
              FrameCount(Animations, old(State), old(Dir)) == CurrentFrameCount() ==>
                0 <= FrameIndex < CurrentFrameCount()
    {
      var moved := false;
      if keys.W {
        Y := Y - Speed;
        Dir := Up;
        moved := true;
      }
      if keys.S {
        Y := Y + Speed;
        Dir := Down;
        moved := true;
      }
      if keys.A {
        X := X - Speed;
        Dir := Left;
        moved := true;
      }
      if keys.D {
        X := X + Speed;
        Dir := Right;
        moved := true;
      }
      if moved {
        State := Running;
        AdvanceFrame();
      } else {
        State := Idle;
        AdvanceFrame();
      }
    }
  }

  /** The loaded animations all have the same frame count, so a frame index
      valid for one (state, facing) is valid for every other. */
  lemma LoadedAnimationsAreUniform(animations: Animations, frameWidth: int, frameHeight: int,
                                   s1: PlayerState, d1: Direction, s2: PlayerState, d2: Direction)
    requires Loaded(animations, frameWidth, frameHeight)
    ensures FrameCount(animations, s1, d1) == FrameCount(animations, s2, d2) == 8
  {
    assert Entry(animations, s1, d1, frameWidth, frameHeight);
    assert Entry(animations, s2, d2, frameWidth, frameHeight);
  }
}
