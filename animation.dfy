/**
 * The frame-timer step shared by the player and the enemies: a timer counts
 * ticks and, once it reaches the frame delay, resets and moves the frame index
 * one place on, wrapping around the number of frames of the animation.
 */
module Animation {

  function Abs(b: int): int { if b < 0 then -b else b }

  /** Go's `%` on `int`: the remainder of division truncated toward zero,
      so its sign follows the dividend (Dafny's own `%` is Euclidean). */
  function GoRem(a: int, b: int): (r: int)
    requires b != 0
    ensures a >= 0 ==> 0 <= r < Abs(b)
    ensures a < 0 ==> -Abs(b) < r <= 0
    ensures a >= 0 ==> r == a % Abs(b)
  {
    if a >= 0 then a % Abs(b) else -((-a) % Abs(b))
  }

  /** Truncation makes the remainder an odd function of the dividend,
      which tells it apart from the Euclidean remainder. */
  lemma GoRemOdd(a: int, b: int)
    requires b != 0
    ensures GoRem(-a, b) == -GoRem(a, b)
  {
  }

  /** One animation tick: (timer, index) after one call, for a delay and a frame count.
      Go divides by the frame count only when the timer fires, and panics on zero. */
  function Tick(timer: int, index: int, delay: int, count: int): (r: (int, int))
    requires timer + 1 >= delay ==> count != 0
    ensures r.0 == 0 || r.0 == timer + 1
    ensures r.1 != index ==> r.0 == 0
  {
    if timer + 1 >= delay then (0, GoRem(index + 1, count)) else (timer + 1, index)
  }

  /** What a tick does, stated against the frame count rather than as the code reads. */
  lemma TickEffect(timer: int, index: int, delay: int, count: int)
    requires timer >= 0
    requires timer + 1 >= delay ==> count != 0
    ensures var (t, i) := Tick(timer, index, delay, count);
      && (t == 0 || t == timer + 1)
      && (t == 0 <==> timer + 1 >= delay)
      && (t != 0 ==> i == index)
      && (t == 0 && 0 <= index < count ==> i == (index + 1) % count)
  {
  }

  /** An index that starts inside the animation stays inside it. */
  lemma TickKeepsIndexInRange(timer: int, index: int, delay: int, count: int)
    requires 0 <= index < count
    ensures 0 <= Tick(timer, index, delay, count).1 < count
  {
  }

  /** `n` consecutive ticks. */
  function Ticks(n: nat, timer: int, index: int, delay: int, count: int): (r: (int, int))
    requires count > 0
    decreases n
  {
    if n == 0 then (timer, index)
    else
      var (t, i) := Tick(timer, index, delay, count);
      Ticks(n - 1, t, i, delay, count)
  }

  /** With a positive delay and the timer at 0, the index stays put for `delay - 1`
      ticks and moves on by exactly one frame at the `delay`-th tick. */
  lemma {:induction false} OneFramePerDelay(k: nat, timer: int, index: int, delay: int, count: int)
    requires count > 0 && 0 <= index < count
    requires 0 <= timer && timer + k <= delay - 1
    ensures Ticks(k, timer, index, delay, count) == (timer + k, index)
    ensures Ticks(k + 1, timer, index, delay, count) ==
              if timer + k + 1 >= delay then (0, (index + 1) % count) else (timer + k + 1, index)
    decreases k
  {
    if k > 0 {
      assert Tick(timer, index, delay, count) == (timer + 1, index);
      OneFramePerDelay(k - 1, timer + 1, index, delay, count);
    }
  }

  /** Ticks compose. */
  lemma {:induction false} TicksAdd(m: nat, n: nat, timer: int, index: int, delay: int, count: int)
    requires count > 0
    ensures var (t, i) := Ticks(m, timer, index, delay, count);
            Ticks(m + n, timer, index, delay, count) == Ticks(n, t, i, delay, count)
    decreases m
  {
    if m > 0 {
      var (t, i) := Tick(timer, index, delay, count);
      TicksAdd(m - 1, n, t, i, delay, count);
    }
  }

  /** A looping animation: starting from timer 0, after `k` full delays the index
      has moved on `k` frames, modulo the frame count. */
  lemma {:induction false} LoopingAnimation(k: nat, index: int, delay: int, count: int)
    requires count > 0 && 0 <= index < count && delay >= 1
    ensures Ticks(k * delay, 0, index, delay, count) == (0, (index + k) % count)
    decreases k
  {
    if k > 0 {
      var i := (index + k - 1) % count;
      var before := PrevMultiple(k, delay);
      assert Ticks(before, 0, index, delay, count) == (0, i) by {
        LoopingAnimation(k - 1, index, delay, count);
      }
      NextLoop(before, index, i, delay, count);
      assert (i + 1) % count == (index + k) % count by { ModSucc(index + k - 1, count); }
    }
  }

  /** One more full delay from a restarted timer moves the index on one frame. */
  lemma NextLoop(before: nat, index: int, i: int, delay: int, count: int)
    requires count > 0 && 0 <= i < count && delay >= 1
    requires Ticks(before, 0, index, delay, count) == (0, i)
    ensures Ticks(before + delay, 0, index, delay, count) == (0, (i + 1) % count)
  {
    TicksAdd(before, delay, 0, index, delay, count);
    OneFramePerDelay(delay - 1, 0, i, delay, count);
  }

  /** `(k - 1) * d`, one delay short of `k * d`: the step the inductions on `k` need. */
  function PrevMultiple(k: nat, d: int): (r: nat)
    requires k > 0 && d >= 1
    ensures r == (k - 1) * d && k * d == r + d
  {
    (k - 1) * d
  }

  lemma ModSucc(x: nat, m: int)
    requires m > 0
    ensures (x % m + 1) % m == (x + 1) % m
  {
    var q, r := x / m, x % m;
    if r + 1 == m {
      ModUnique(x + 1, q + 1, 0, m);
      ModUnique(0 + m, 1, 0, m);
      assert (r + 1) % m == 0;
    } else {
      ModUnique(x + 1, q, r + 1, m);
      ModUnique(r + 1, 0, r + 1, m);
    }
  }

  /** Euclidean division is unique: a quotient and an in-range remainder fix `x % m`. */
  lemma ModUnique(x: int, q: int, r: int, m: int)
    requires m > 0 && 0 <= r < m && x == q * m + r
    ensures x % m == r
  {
    var q', r' := x / m, x % m;
    assert x == q' * m + r';
    if q > q' {
      assert (q - q') * m >= m by { MulAtLeast(q - q', m); }
    } else if q < q' {
      assert (q' - q) * m >= m by { MulAtLeast(q' - q, m); }
    }
  }

  lemma MulAtLeast(d: int, m: int)
    requires d >= 1 && m > 0
    ensures d * m >= m
  {
  }
}
