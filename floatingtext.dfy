/** Floating damage numbers (floatingtext.go): they rise, age and fade. */
module FloatingTexts {

  class FloatingText {
    var X: real
    var Y: real
    var Text: string
    var Alpha: real
    var Lifetime: int
    var MaxLifetime: int

    /** A composite literal `&FloatingText{...}`. */
    constructor (x: real, y: real, text: string, lifetime: int, maxLifetime: int, alpha: real)
      ensures X == x && Y == y && Text == text
      ensures Lifetime == lifetime && MaxLifetime == maxLifetime && Alpha == alpha
    {
      X, Y, Text := x, y, text;
      Lifetime, MaxLifetime, Alpha := lifetime, maxLifetime, alpha;
    }

    /** Update: rise half a pixel, age one tick, and fade with age. */
    method Update()
      modifies this`Y, this`Lifetime, this`Alpha
      ensures Y == old(Y) - 0.5
      ensures Lifetime == old(Lifetime) + 1
      ensures MaxLifetime != 0 ==> Alpha == Fade(Lifetime, MaxLifetime)
      ensures MaxLifetime == 0 ==> Alpha == old(Alpha)
      ensures X == old(X) && Text == old(Text) && MaxLifetime == old(MaxLifetime)
    {
      Y := Y - 0.5;
      Lifetime := Lifetime + 1;
      if MaxLifetime != 0 {
        Alpha := Fade(Lifetime, MaxLifetime);
      }
    }
  }

  /** Opacity at a given age: 1 - lifetime / maxLifetime. */
  function Fade(lifetime: int, maxLifetime: int): (r: real)
    requires maxLifetime != 0
    ensures lifetime == 0 ==> r == 1.0
    ensures lifetime == maxLifetime ==> r == 0.0
    ensures maxLifetime > 0 ==> (r > 0.0 <==> lifetime < maxLifetime)
  {
    if maxLifetime > 0 then
      QuotientBelowOne(lifetime as real, maxLifetime as real);
      1.0 - lifetime as real / maxLifetime as real
    else
      1.0 - lifetime as real / maxLifetime as real
  }

  /** The fade is linear and decreasing: fully opaque when new, transparent exactly
      when the text reaches its maximum lifetime, and visible only before that. */
  lemma FadeShape(lifetime: int, later: int, maxLifetime: int)
    requires maxLifetime > 0 && lifetime < later
    ensures Fade(0, maxLifetime) == 1.0 && Fade(maxLifetime, maxLifetime) == 0.0
    ensures Fade(later, maxLifetime) < Fade(lifetime, maxLifetime)
    ensures Fade(lifetime, maxLifetime) > 0.0 <==> lifetime < maxLifetime
  {
    var m := maxLifetime as real;
    QuotientMono(lifetime as real, later as real, m);
    QuotientBelowOne(lifetime as real, m);
  }

  /** Whether a text of age `lifetime` is still kept after `n` more ticks, each one an
      Update followed by the game's expiry test `Lifetime >= MaxLifetime`. */
  function Survives(n: nat, lifetime: int, maxLifetime: int): bool
    decreases n
  {
    n == 0 || (lifetime + 1 < maxLifetime && Survives(n - 1, lifetime + 1, maxLifetime))
  }

  /** A text is kept through `n` ticks exactly when its age after them is still below its
      maximum lifetime. */
  lemma {:induction false} Lifespan(n: nat, lifetime: int, maxLifetime: int)
    ensures Survives(n, lifetime, maxLifetime) <==> n == 0 || lifetime + n < maxLifetime
    decreases n
  {
    if n > 0 {
      Lifespan(n - 1, lifetime + 1, maxLifetime);
    }
  }

  /** A new text (age 0) first reaches its maximum lifetime, and is dropped, at exactly the
      MaxLifetime-th update; it is kept through every tick before that. */
  lemma NewTextLifespan(maxLifetime: int)
    requires maxLifetime > 0
    ensures Survives(maxLifetime - 1, 0, maxLifetime)
    ensures !Survives(maxLifetime, 0, maxLifetime)
  {
    Lifespan(maxLifetime - 1, 0, maxLifetime);
    Lifespan(maxLifetime, 0, maxLifetime);
  }

  /** Dividing by a positive number keeps the order. */
  lemma QuotientMono(x: real, y: real, m: real)
    requires m > 0.0 && x < y
    ensures x / m < y / m
  {
    var p, q := x / m, y / m;
    assert p * m == x && q * m == y;
    assert (q - p) * m == y - x;
  }

  /** A quotient by a positive number is below one exactly when the dividend is below it. */
  lemma QuotientBelowOne(x: real, m: real)
    requires m > 0.0
    ensures x / m < 1.0 <==> x < m
  {
    var q := x / m;
    assert q * m == x;
    assert (1.0 - q) * m == m - x;
  }
}
