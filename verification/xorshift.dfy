/** The reproducible random number generator of `xsrnd.js`: Marsaglia's
    xorshift128 on four 32-bit registers.

    JavaScript applies `<<` and `^` to the Int32 reading of a number and
    `>>>` to its Uint32 reading, so every register only matters modulo
    2^32; the registers are therefore `bv32` values, and the signed
    reading is recovered where the source returns a number. */
module XorShift {
  import opened Common

  const Two32: int := 0x1_0000_0000
  const Two31: int := 0x8000_0000

  /** The four registers. */
  datatype Rng = Rng(x: bv32, y: bv32, z: bv32, w: bv32)

  /** A value drawn together with the generator state after the draw. */
  datatype Draw<T> = Draw(value: T, rng: Rng)

  /** Initial register values fixed by the constructor. */
  const InitX: bv32 := 123456789
  const InitY: bv32 := 362436069
  const InitZ: bv32 := 521288629
  /** The seed used when the constructor is given none. */
  const DefaultSeed: int := 88675123

  /** ToUint32: a JavaScript integer seen through `>>>`. */
  function ToUint32(n: int): bv32 {
    (n % Two32) as bv32
  }

  /** ToInt32: the signed reading of a register, what `^` returns. */
  function ToInt32(b: bv32): (n: int)
    ensures -Two31 <= n < Two31
    ensures n >= 0 ==> b as int == n
    ensures n < 0 ==> b as int == n + Two32
  {
    var v := b as int;
    if v < Two31 then v else v - Two32
  }

  /** The constructor: fixed x, y, z and the seed in w (only its value
      modulo 2^32 ever influences an output). `None` is a call without a
      seed, which falls back to `DefaultSeed`. */
  function New(seed: Option<int>): (g: Rng)
    ensures g.x == InitX && g.y == InitY && g.z == InitZ
    ensures seed.Some? ==> g.w == ToUint32(seed.value)
    ensures seed.None? ==> g.w == ToUint32(DefaultSeed)
  {
    Rng(InitX, InitY, InitZ, ToUint32(seed.GetOr(DefaultSeed)))
  }

  /** The new w computed from the old x and w:
      `t = x ^ (x << 11)`, `w' = (w ^ (w >>> 19)) ^ (t ^ (t >>> 8))`. */
  function Mix(x: bv32, w: bv32): bv32 {
    var t := x ^ (x << 11);
    (w ^ (w >> 19)) ^ (t ^ (t >> 8))
  }

  /** One xorshift step on the registers. */
  function Step(g: Rng): Rng {
    Rng(g.y, g.z, g.w, Mix(g.x, g.w))
  }

  /** `next()`: x, y, z take the old y, z, w; w gets the mixed value, and
      the call returns the signed reading of that new w. */
  function Next(g: Rng): (d: Draw<int>)
    ensures d.rng.x == g.y && d.rng.y == g.z && d.rng.z == g.w
    ensures d.rng.w == Mix(g.x, g.w)
    ensures -Two31 <= d.value < Two31
    ensures d.value == ToInt32(d.rng.w)
  {
    var g' := Step(g);
    Draw(ToInt32(g'.w), g')
  }

  /** `Math.abs` on the output of `next()`; -2^31 becomes 2^31. */
  function Abs(n: int): (a: nat)
    ensures a == n || a == -n
  {
    if n < 0 then -n else n
  }

  /** JavaScript's `%`: the remainder truncated toward zero, so its sign
      follows the dividend. */
  function JsRem(a: int, b: int): (r: int)
    requires b != 0
    ensures a >= 0 ==> 0 <= r < Abs(b)
    ensures a < 0 ==> -(Abs(b) as int) < r <= 0
  {
    if a >= 0 then a % Abs(b) else -((-a) % Abs(b))
  }

  /** `nextInt(min, max)`: `min + Math.abs(next()) % (max - min)`. A span
      of zero yields NaN in the source; that is `None` here. The remainder
      takes the sign of the non-negative dividend, so with `max < min` the
      value lies at or above `min`, in a range as wide as the span. The
      generator advances in every case. */
  function NextInt(g: Rng, min: int, max: int): (d: Draw<Option<int>>)
    ensures d.rng == Next(g).rng
    ensures d.value.None? <==> min == max
    ensures min < max ==> d.value.Some? && min <= d.value.value < max
    ensures max < min ==> d.value.Some? && min <= d.value.value < 2 * min - max
  {
    var n := Next(g);
    var r := Abs(n.value);
    if max == min then Draw(None, n.rng)
    else Draw(Some(min + JsRem(r, max - min)), n.rng)
  }

  /** `Math.abs(next())` is never negative and at most 2^31, the value the
      register -2^31 takes. */
  lemma AbsNextBounds(g: Rng)
    ensures 0 <= Abs(Next(g).value) <= Two31
    ensures Next(g).rng.w == 0x8000_0000 ==> Abs(Next(g).value) == Two31
  {
  }

  // ---------------------------------------------------------------------
  // Invertibility of a step
  // ---------------------------------------------------------------------

  /** The old x recovered from the old w and the new w: the xor with
      `w ^ (w >>> 19)` is cancelled, then `t ^ (t >>> 8)` and
      `x ^ (x << 11)` are undone by the finite xor-shift series. */
  function Unmix(w: bv32, w': bv32): bv32 {
    var u := w' ^ (w ^ (w >> 19));
    var t := u ^ (u >> 8) ^ (u >> 16) ^ (u >> 24);
    t ^ (t << 11) ^ (t << 22)
  }

  /** The state one step earlier: the old y, z, w are the current x, y, z,
      and the old x is recovered from the current z and w. */
  function Prev(g: Rng): Rng {
    Rng(Unmix(g.z, g.w), g.x, g.y, g.z)
  }

  /** The bit-level identity behind `Unmix`, stated on the expressions
      themselves so that the solver can simplify them directly. */
  lemma InverseBits(x: bv32, w: bv32)
    ensures var t := x ^ (x << 11);
            var u := ((w ^ (w >> 19)) ^ (t ^ (t >> 8))) ^ (w ^ (w >> 19));
            var t2 := u ^ (u >> 8) ^ (u >> 16) ^ (u >> 24);
            t2 ^ (t2 << 11) ^ (t2 << 22) == x
  {
  }

  lemma MixUnfold(x: bv32, w: bv32)
    ensures var t := x ^ (x << 11); Mix(x, w) == (w ^ (w >> 19)) ^ (t ^ (t >> 8))
  {
  }

  lemma UnmixUnfold(x: bv32, w: bv32)
    ensures var t := x ^ (x << 11); Unmix(w, (w ^ (w >> 19)) ^ (t ^ (t >> 8))) == x
  {
    InverseBits(x, w);
  }

  /** `Unmix` recovers the old x from what `Mix` produced. */
  lemma UnmixMix(x: bv32, w: bv32)
    ensures Unmix(w, Mix(x, w)) == x
  {
    MixUnfold(x, w);
    UnmixUnfold(x, w);
  }

  /** `Prev` undoes `next()`, so two distinct states never step to the same
      state. */
  lemma PrevNext(g: Rng)
    ensures Prev(Next(g).rng) == g
  {
    UnmixMix(g.x, g.w);
  }

  /** Consequence: a generator whose registers are not all zero never
      reaches the all-zero state, from which it could not leave. */
  lemma NextNonZero(g: Rng)
    requires g != Rng(0, 0, 0, 0)
    ensures Next(g).rng != Rng(0, 0, 0, 0)
  {
    PrevNext(g);
    assert Prev(Rng(0, 0, 0, 0)) == Rng(0, 0, 0, 0);
  }

  // ---------------------------------------------------------------------
  // Call sequences
  // ---------------------------------------------------------------------

  /** A call a client makes on the generator. */
  datatype Call = NextCall | NextIntCall(min: int, max: int)

  /** What a call returns. */
  datatype Output = NextOut(n: int) | NextIntOut(v: Option<int>)

  /** Outputs of a sequence of calls, in order. */
  function Run(g: Rng, calls: seq<Call>): (outs: seq<Output>)
    ensures |outs| == |calls|
    decreases |calls|
  {
    if calls == [] then []
    else match calls[0]
      case NextCall =>
        var d := Next(g);
        [NextOut(d.value)] + Run(d.rng, calls[1..])
      case NextIntCall(lo, hi) =>
        var d := NextInt(g, lo, hi);
        [NextIntOut(d.value)] + Run(d.rng, calls[1..])
  }

  /** Reproducibility: the output sequence depends on the seed only through
      its value modulo 2^32, so two generators built from the same seed and
      given the same calls produce the same outputs. */
  lemma {:induction false} Reproducible(seed1: int, seed2: int, calls: seq<Call>)
    requires seed1 % Two32 == seed2 % Two32
    ensures Run(New(Some(seed1)), calls) == Run(New(Some(seed2)), calls)
  {
    assert New(Some(seed1)).w == New(Some(seed2)).w;
  }
}
