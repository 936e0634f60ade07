/**
 * Enemies (enemy.go): a seek-the-target step, a looping animation and hit points.
 * Positions are reals; the Euclidean length Go takes with math.Hypot is the
 * parameter `hypot`, so the model fixes how it is used but not how it is computed.
 */
module Enemies {
  import opened Sprites
  import opened Animation

  class Enemy {
    var X: real
    var Y: real
    var Speed: real
    var FrameIndex: int
    var FrameTimer: int
    var FrameDelay: int
    const Frames: seq<Rectangle>
    var HP: int
    var Dead: bool

    /** A composite literal `&Enemy{...}`: the fields it names, and Dead at its zero value. */
    constructor (x: real, y: real, speed: real, frames: seq<Rectangle>, frameDelay: int, hp: int)
      ensures X == x && Y == y && Speed == speed && Frames == frames && FrameDelay == frameDelay
      ensures FrameIndex == 0 && FrameTimer == 0 && HP == hp && !Dead
    {
      X, Y, Speed := x, y, speed;
      Frames, FrameDelay := frames, frameDelay;
      FrameIndex, FrameTimer := 0, 0;
      HP, Dead := hp, false;
    }

    /** Update: step `Speed` toward the target unless within 1 of it, then one animation
        tick. Go panics on an empty frame list when the timer fires. */
    method Update(targetX: real, targetY: real, hypot: (real, real) -> real)
      requires FrameTimer + 1 >= FrameDelay ==> |Frames| != 0
      modifies this`X, this`Y, this`FrameTimer, this`FrameIndex
      ensures (X, Y) == Seek(old(X), old(Y), targetX, targetY, Speed, hypot)
      ensures (FrameTimer, FrameIndex) == Tick(old(FrameTimer), old(FrameIndex), FrameDelay, |Frames|)
      ensures old(0 <= FrameIndex < |Frames|) ==> 0 <= FrameIndex < |Frames|
      ensures HP == old(HP) && Dead == old(Dead)
    {
      var dx := targetX - X;
      var dy := targetY - Y;
      var dist := hypot(dx, dy);
      if dist > 1.0 {
        X := Toward(X, dx, dist, Speed);
        Y := Toward(Y, dy, dist, Speed);
      }
      FrameTimer := FrameTimer + 1;
      if FrameTimer >= FrameDelay {
        FrameTimer := 0;
        FrameIndex := GoRem(FrameIndex + 1, |Frames|);
      }
    }

    /** TakeDamage: lose exactly `amount` hit points; dying is never undone. */
    method TakeDamage(amount: int)
      modifies this`HP, this`Dead
      ensures (HP, Dead) == Damage(old(HP), old(Dead), amount)
    {
      HP := HP - amount;
      if HP <= 0 {
        Dead := true;
      }
    }
  }

  /** The position after one step of `speed` from (x, y) straight toward the target,
      or (x, y) itself when the target is within distance 1. */
  function Seek(x: real, y: real, targetX: real, targetY: real, speed: real, hypot: (real, real) -> real): (r: (real, real))
    ensures hypot(targetX - x, targetY - y) <= 1.0 ==> r == (x, y)
    ensures var dist := hypot(targetX - x, targetY - y);
      dist > 1.0 ==> (r.0 - x) * dist == (targetX - x) * speed && (r.1 - y) * dist == (targetY - y) * speed
  {
    var dx, dy := targetX - x, targetY - y;
    var dist := hypot(dx, dy);
    if dist > 1.0 then (Toward(x, dx, dist, speed), Toward(y, dy, dist, speed)) else (x, y)
  }

  /** One coordinate moved `speed` along the unit direction whose component is `d / dist`. */
  function Toward(v: real, d: real, dist: real, speed: real): (r: real)
    requires dist != 0.0
    ensures (r - v) * dist == d * speed
  {
    var q := d / dist;
    assert q * dist == d;
    assert (q * speed) * dist == (q * dist) * speed;
    v + q * speed
  }

  /** Hit points and the dead flag after one TakeDamage. */
  function Damage(hp: int, dead: bool, amount: int): (r: (int, bool))
    ensures r.0 == hp - amount
    ensures dead ==> r.1
    ensures r.1 <==> dead || r.0 <= 0
  {
    var left := hp - amount;
    (left, if left <= 0 then true else dead)
  }

  /** Several TakeDamage calls in a row. */
  function DamageAll(hp: int, dead: bool, amounts: seq<int>): (int, bool)
    decreases |amounts|
  {
    if amounts == [] then (hp, dead)
    else
      var (h, d) := Damage(hp, dead, amounts[0]);
      DamageAll(h, d, amounts[1..])
  }

  function Sum(amounts: seq<int>): int
    decreases |amounts|
  {
    if amounts == [] then 0 else amounts[0] + Sum(amounts[1..])
  }

  /** Cumulative damage: after non-negative hits the enemy has lost their sum, and it is
      dead exactly when it was dead already or at least one hit brought it to 0 or below. */
  lemma {:induction false} CumulativeDamage(hp: int, dead: bool, amounts: seq<int>)
    requires forall a :: a in amounts ==> a >= 0
    ensures DamageAll(hp, dead, amounts) == (hp - Sum(amounts), dead || (amounts != [] && hp - Sum(amounts) <= 0))
    decreases |amounts|
  {
    if amounts != [] {
      var a := amounts[0];
      var rest := amounts[1..];
      assert forall x :: x in rest ==> x in amounts;
      CumulativeDamage(hp - a, dead || hp - a <= 0, rest);
      SumNonNegative(rest);
    }
  }

  lemma {:induction false} SumNonNegative(amounts: seq<int>)
    requires forall a :: a in amounts ==> a >= 0
    ensures Sum(amounts) >= 0
    decreases |amounts|
  {
    if amounts != [] {
      assert amounts[0] in amounts;
      assert forall x :: x in amounts[1..] ==> x in amounts;
      SumNonNegative(amounts[1..]);
    }
  }
}
