/** When each core of a chain boots: a fixed tick, or one drawn from a range by core index and seed.
  The words are machine words: sums and products wrap at 64 bits.
*/
module BootOffset {
  import opened Wrappers

  const WORDS: int := 0x1_0000_0000_0000_0000

  type u64 = x: int | 0 <= x < WORDS

  datatype BootOffsetSpec = Fixed(ticks: u64) | RangedRandom(minTicks: u64, maxTicks: u64, seed: bv64)

  // ---------------------------------------------------------------- the generator

  function Xr30(z: bv64): bv64 { z ^ (z >> 30) }
  function Mul1(z: bv64): bv64 { z * 0xBF58476D1CE4E5B9 }
  function Xr27(z: bv64): bv64 { z ^ (z >> 27) }
  function Mul2(z: bv64): bv64 { z * 0x94D049BB133111EB }
  function Xr31(z: bv64): bv64 { z ^ (z >> 31) }
  function Xl13(z: bv64): bv64 { z ^ (z << 13) }
  function Xr7(z: bv64): bv64 { z ^ (z >> 7) }
  function Xl17(z: bv64): bv64 { z ^ (z << 17) }
  function Add(seed: bv64, core: bv64): bv64 { seed + core + 0x9E3779B97F4A7C15 }

  function MixSeed(seed: bv64, core: bv64): bv64 {
    Xr31(Mul2(Xr27(Mul1(Xr30(Add(seed, core))))))
  }

  function Xorshift64(state: bv64): bv64 {
    Shift(Seeded(state))
  }

  function Seeded(state: bv64): bv64 {
    if state == 0 then 1 else state
  }

  function Shift(x: bv64): bv64 {
    Xl17(Xr7(Xl13(x)))
  }

  /** The offset of a core; None where the source panics. */
  function Resolve(spec: BootOffsetSpec, core: bv64): Option<int> {
    match spec
    case Fixed(ticks) => Some(ticks)
    case RangedRandom(minTicks, maxTicks, seed) =>
      if minTicks > maxTicks then None
      else Some(Draw(minTicks, maxTicks, Xorshift64(MixSeed(seed, core)) as int))
  }

  function Draw(minTicks: u64, maxTicks: u64, state: int): int
    requires minTicks <= maxTicks
  {
    if minTicks == maxTicks then minTicks else minTicks + state % (maxTicks - minTicks + 1)
  }

  // ---------------------------------------------------------------- each step undone

  function UnXr30(z: bv64): bv64 { z ^ (z >> 30) ^ (z >> 60) }
  function UnMul1(z: bv64): bv64 { z * 0x96DE1B173F119089 }
  function UnXr27(z: bv64): bv64 { z ^ (z >> 27) ^ (z >> 54) }
  function UnMul2(z: bv64): bv64 { z * 0x319642B2D24D8EC3 }
  function UnXr31(z: bv64): bv64 { z ^ (z >> 31) ^ (z >> 62) }
  function UnXl13(z: bv64): bv64 { z ^ (z << 13) ^ (z << 26) ^ (z << 39) ^ (z << 52) }
  function UnXr7(z: bv64): bv64 {
    z ^ (z >> 7) ^ (z >> 14) ^ (z >> 21) ^ (z >> 28) ^ (z >> 35) ^ (z >> 42) ^ (z >> 49) ^ (z >> 56) ^ (z >> 63)
  }
  function UnXl17(z: bv64): bv64 { z ^ (z << 17) ^ (z << 34) ^ (z << 51) }
  function UnAdd(seed: bv64, z: bv64): bv64 { z - 0x9E3779B97F4A7C15 - seed }

  // One side of each fact is spelled out, so that it is settled by rewriting and not bit by bit.

  lemma Xr30ThenUn(z: bv64)
    ensures UnXr30(z ^ (z >> 30)) == z
  {
  }

  lemma UnXr30Then(z: bv64)
    ensures Xr30(z ^ (z >> 30) ^ (z >> 60)) == z
  {
  }

  lemma Mul1ThenUn(z: bv64)
    ensures UnMul1(z * 0xBF58476D1CE4E5B9) == z
  {
  }

  lemma UnMul1Then(z: bv64)
    ensures Mul1(z * 0x96DE1B173F119089) == z
  {
  }

  lemma Xr27ThenUn(z: bv64)
    ensures UnXr27(z ^ (z >> 27)) == z
  {
  }

  lemma UnXr27Then(z: bv64)
    ensures Xr27(z ^ (z >> 27) ^ (z >> 54)) == z
  {
  }

  lemma Mul2ThenUn(z: bv64)
    ensures UnMul2(z * 0x94D049BB133111EB) == z
  {
  }

  lemma UnMul2Then(z: bv64)
    ensures Mul2(z * 0x319642B2D24D8EC3) == z
  {
  }

  lemma Xr31ThenUn(z: bv64)
    ensures UnXr31(z ^ (z >> 31)) == z
  {
  }

  lemma UnXr31Then(z: bv64)
    ensures Xr31(z ^ (z >> 31) ^ (z >> 62)) == z
  {
  }

  lemma Xl13ThenUn(z: bv64)
    ensures UnXl13(z ^ (z << 13)) == z
  {
  }

  lemma UnXl13Then(z: bv64)
    ensures Xl13(z ^ (z << 13) ^ (z << 26) ^ (z << 39) ^ (z << 52)) == z
  {
  }

  lemma Xr7ThenUn(z: bv64)
    ensures UnXr7(z ^ (z >> 7)) == z
  {
  }

  lemma UnXr7Then(z: bv64)
    ensures Xr7(
        z ^ (z >> 7) ^ (z >> 14) ^ (z >> 21) ^ (z >> 28) ^ (z >> 35) ^ (z >> 42) ^ (z >> 49) ^ (z >> 56) ^ (z >> 63)) == z
  {
  }

  lemma Xl17ThenUn(z: bv64)
    ensures UnXl17(z ^ (z << 17)) == z
  {
  }

  lemma UnXl17Then(z: bv64)
    ensures Xl17(z ^ (z << 17) ^ (z << 34) ^ (z << 51)) == z
  {
  }

  /** Every step undoes its inverse and is undone by it. */
  lemma StepsUndone(z: bv64)
    ensures UnXr30(Xr30(z)) == z && Xr30(UnXr30(z)) == z
    ensures UnMul1(Mul1(z)) == z && Mul1(UnMul1(z)) == z
    ensures UnXr27(Xr27(z)) == z && Xr27(UnXr27(z)) == z
    ensures UnMul2(Mul2(z)) == z && Mul2(UnMul2(z)) == z
    ensures UnXr31(Xr31(z)) == z && Xr31(UnXr31(z)) == z
    ensures UnXl13(Xl13(z)) == z && Xl13(UnXl13(z)) == z
    ensures UnXr7(Xr7(z)) == z && Xr7(UnXr7(z)) == z
    ensures UnXl17(Xl17(z)) == z && Xl17(UnXl17(z)) == z
  {
    Xr30ThenUn(z);
    UnXr30Then(z);
    Mul1ThenUn(z);
    UnMul1Then(z);
    Xr27ThenUn(z);
    UnXr27Then(z);
    Mul2ThenUn(z);
    UnMul2Then(z);
    Xr31ThenUn(z);
    UnXr31Then(z);
    Xl13ThenUn(z);
    UnXl13Then(z);
    Xr7ThenUn(z);
    UnXr7Then(z);
    Xl17ThenUn(z);
    UnXl17Then(z);
  }

  lemma AddThenUn(seed: bv64, z: bv64)
    ensures UnAdd(seed, seed + z + 0x9E3779B97F4A7C15) == z
  {
  }

  lemma UnAddThen(seed: bv64, z: bv64)
    ensures Add(seed, z - 0x9E3779B97F4A7C15 - seed) == z
  {
  }

  lemma AddUndone(seed: bv64, z: bv64)
    ensures UnAdd(seed, Add(seed, z)) == z && Add(seed, UnAdd(seed, z)) == z
  {
    AddThenUn(seed, z);
    UnAddThen(seed, z);
  }

  // ---------------------------------------------------------------- the generator undone

  function UnmixSeed(seed: bv64, y: bv64): bv64 {
    UnAdd(seed, UnXr30(UnMul1(UnXr27(UnMul2(UnXr31(y))))))
  }

  function UnShift(y: bv64): bv64 {
    UnXl13(UnXr7(UnXl17(y)))
  }

  lemma MixUndone(seed: bv64, core: bv64)
    ensures UnmixSeed(seed, MixSeed(seed, core)) == core
  {
    var a := Add(seed, core);
    var b := Xr30(a);
    var c := Mul1(b);
    var d := Xr27(c);
    var e := Mul2(d);
    AddUndone(seed, core);
    StepsUndone(a);
    StepsUndone(b);
    StepsUndone(c);
    StepsUndone(d);
    StepsUndone(e);
  }

  lemma UnmixUndone(seed: bv64, y: bv64)
    ensures MixSeed(seed, UnmixSeed(seed, y)) == y
  {
    var a := UnXr31(y);
    var b := UnMul2(a);
    var c := UnXr27(b);
    var d := UnMul1(c);
    var e := UnXr30(d);
    StepsUndone(y);
    StepsUndone(a);
    StepsUndone(b);
    StepsUndone(c);
    StepsUndone(d);
    AddUndone(seed, e);
  }

  lemma ShiftUndone(x: bv64)
    ensures UnShift(Shift(x)) == x && Shift(UnShift(x)) == x
  {
    var a := Xl13(x);
    var b := Xr7(a);
    var c := UnXl17(x);
    var d := UnXr7(c);
    StepsUndone(x);
    StepsUndone(a);
    StepsUndone(b);
    StepsUndone(c);
    StepsUndone(d);
  }

  lemma ShiftOfZero()
    ensures Shift(0) == 0
  {
  }

  /** For a fixed seed the mixed states of the cores are all different. */
  lemma MixSeedIsInjective(seed: bv64, a: bv64, b: bv64)
    ensures MixSeed(seed, a) == MixSeed(seed, b) <==> a == b
  {
    MixUndone(seed, a);
    MixUndone(seed, b);
  }

  /** The step never gives zero; on the other words it is a permutation, and zero is sent where one is. */
  lemma XorshiftPermutes(x: bv64)
    ensures Xorshift64(x) != 0
    ensures x != 0 ==> UnShift(Xorshift64(x)) == x && Xorshift64(UnShift(x)) == x && UnShift(x) != 0
    ensures Xorshift64(0) == Xorshift64(1)
  {
    ShiftUndone(x);
    ShiftUndone(1);
    ShiftOfZero();
    ShiftUndone(0);
  }

  lemma XorshiftCollides(x: bv64, y: bv64)
    ensures Xorshift64(x) == Xorshift64(y) <==> x == y || (x == 0 && y == 1) || (x == 1 && y == 0)
  {
    XorshiftIsShift(x);
    XorshiftIsShift(y);
    ShiftIsInjective(Seeded(x), Seeded(y));
    SeededCollides(x, y);
  }

  lemma XorshiftIsShift(x: bv64)
    ensures Xorshift64(x) == Shift(Seeded(x))
  {
  }

  lemma ShiftIsInjective(a: bv64, b: bv64)
    ensures Shift(a) == Shift(b) <==> a == b
  {
    ShiftUndone(a);
    ShiftUndone(b);
  }

  lemma SeededCollides(x: bv64, y: bv64)
    ensures Seeded(x) == Seeded(y) <==> x == y || (x == 0 && y == 1) || (x == 1 && y == 0)
  {
  }

  // ---------------------------------------------------------------- the offsets

  /** A range gives an offset inside it, whatever the seed and the core; only an empty range gives none. */
  lemma ResolveInRange(minTicks: u64, maxTicks: u64, seed: bv64, core: bv64)
    ensures var r := Resolve(RangedRandom(minTicks, maxTicks, seed), core);
            && (r.None? <==> minTicks > maxTicks)
            && (r.Some? ==> minTicks <= r.value <= maxTicks)
  {
  }

  const MAX: u64 := WORDS - 1

  function FullRange(seed: bv64): BootOffsetSpec {
    RangedRandom(0, MAX, seed)
  }

  lemma FullRangeIsState(seed: bv64, core: bv64)
    ensures Resolve(FullRange(seed), core) == Some(Xorshift64(MixSeed(seed, core)) as int)
  {
    WordValue(Xorshift64(MixSeed(seed, core)));
    SmallMod(Xorshift64(MixSeed(seed, core)) as int);
  }

  lemma WordValue(w: bv64)
    ensures 0 <= w as int < WORDS
  {
  }

  lemma SmallMod(x: int)
    requires 0 <= x < WORDS
    ensures x % (MAX - 0 + 1) == x
  {
  }

  function Word(x: u64): bv64 { x as bv64 }

  lemma WordOfValue(w: bv64)
    ensures Word(w as int) == w
  {
  }

  lemma WordsDiffer(a: bv64, b: bv64)
    ensures a as int == b as int <==> a == b
  {
    WordOfValue(a);
    WordOfValue(b);
  }

  /** Over the full range two cores share an offset exactly when they are one core, or when their mixed
    states are zero and one. */
  lemma FullRangeCollision(seed: bv64, a: bv64, b: bv64)
    ensures Resolve(FullRange(seed), a) == Resolve(FullRange(seed), b) <==>
            a == b || (MixSeed(seed, a) == 0 && MixSeed(seed, b) == 1) || (MixSeed(seed, a) == 1 && MixSeed(seed, b) == 0)
  {
    var x, y := MixSeed(seed, a), MixSeed(seed, b);
    FullRangeIsState(seed, a);
    FullRangeIsState(seed, b);
    WordsDiffer(Xorshift64(x), Xorshift64(y));
    XorshiftCollides(x, y);
    MixSeedIsInjective(seed, a, b);
  }

  /** Every seed has one such pair of cores. */
  lemma EverySeedHasOneCollision(seed: bv64)
    ensures UnmixSeed(seed, 0) != UnmixSeed(seed, 1)
    ensures Resolve(FullRange(seed), UnmixSeed(seed, 0)) == Resolve(FullRange(seed), UnmixSeed(seed, 1))
  {
    UnmixUndone(seed, 0);
    UnmixUndone(seed, 1);
    FullRangeCollision(seed, UnmixSeed(seed, 0), UnmixSeed(seed, 1));
  }

  /** Over the full range some core gets any given offset but zero, and no core gets zero. */
  lemma FullRangeReaches(seed: bv64, y: bv64)
    ensures y != 0 ==> Resolve(FullRange(seed), UnmixSeed(seed, UnShift(y))) == Some(y as int)
    ensures Resolve(FullRange(seed), y) != Some(0)
  {
    UnmixUndone(seed, UnShift(y));
    XorshiftPermutes(y);
    FullRangeIsState(seed, UnmixSeed(seed, UnShift(y)));
    FullRangeIsState(seed, y);
    XorshiftPermutes(MixSeed(seed, y));
    WordsDiffer(Xorshift64(MixSeed(seed, y)), 0);
  }

  /** A fixed offset is every core's. */
  lemma FixedIsForAll(ticks: u64, core: bv64)
    ensures Resolve(Fixed(ticks), core) == Some(ticks)
  {
  }

  /** The core whose generator gives a state. */
  lemma CoreOfState(seed: bv64, w: bv64)
    requires w != 0
    ensures Xorshift64(MixSeed(seed, UnmixSeed(seed, UnShift(w)))) == w
  {
    UnmixUndone(seed, UnShift(w));
    XorshiftPermutes(w);
  }

  // Every value is a word's: words are put together from halves.

  lemma Join8(hi: bv4, lo: bv4)
    ensures (((hi as bv8) << 4) | (lo as bv8)) as int == (hi as int) * 0x10 + lo as int
  {
  }

  lemma Join16(hi: bv8, lo: bv8)
    ensures (((hi as bv16) << 8) | (lo as bv16)) as int == (hi as int) * 0x100 + lo as int
  {
  }

  lemma Join32(hi: bv16, lo: bv16)
    ensures (((hi as bv32) << 16) | (lo as bv32)) as int == (hi as int) * 0x1_0000 + lo as int
  {
  }

  lemma Join64(hi: bv32, lo: bv32)
    ensures (((hi as bv64) << 32) | (lo as bv64)) as int == (hi as int) * 0x1_0000_0000 + lo as int
  {
  }

  lemma WordOf4(x: int) returns (w: bv4)
    requires 0 <= x < 0x10
    ensures w as int == x
  {
    w := x as bv4;
  }

  lemma WordOf8(x: int) returns (w: bv8)
    requires 0 <= x < 0x100
    ensures w as int == x
  {
    var hi := WordOf4(x / 0x10);
    var lo := WordOf4(x % 0x10);
    Join8(hi, lo);
    w := ((hi as bv8) << 4) | (lo as bv8);
  }

  lemma WordOf16(x: int) returns (w: bv16)
    requires 0 <= x < 0x1_0000
    ensures w as int == x
  {
    var hi := WordOf8(x / 0x100);
    var lo := WordOf8(x % 0x100);
    Join16(hi, lo);
    w := ((hi as bv16) << 8) | (lo as bv16);
  }

  lemma WordOf32(x: int) returns (w: bv32)
    requires 0 <= x < 0x1_0000_0000
    ensures w as int == x
  {
    var hi := WordOf16(x / 0x1_0000);
    var lo := WordOf16(x % 0x1_0000);
    Join32(hi, lo);
    w := ((hi as bv32) << 16) | (lo as bv32);
  }

  lemma WordOf64(x: u64) returns (w: bv64)
    ensures w as int == x
  {
    var hi := WordOf32(x / 0x1_0000_0000);
    var lo := WordOf32(x % 0x1_0000_0000);
    Join64(hi, lo);
    w := ((hi as bv64) << 32) | (lo as bv64);
  }

  /** Every value of a range is some core's offset, but for zero of the full range. */
  lemma RangeReaches(minTicks: u64, maxTicks: u64, seed: bv64, y: u64) returns (core: bv64)
    requires minTicks <= y <= maxTicks && !(minTicks == 0 && maxTicks == MAX && y == 0)
    ensures Resolve(RangedRandom(minTicks, maxTicks, seed), core) == Some(y)
  {
    core := seed;
    if minTicks < maxTicks {
      var span := maxTicks - minTicks + 1;
      var state: u64 := if y == minTicks then span else y - minTicks;
      core := CoreWithState(minTicks, maxTicks, seed, state);
      StateInSpan(state, span, y - minTicks);
    }
  }

  lemma CoreWithState(minTicks: u64, maxTicks: u64, seed: bv64, state: u64) returns (core: bv64)
    requires minTicks < maxTicks && state != 0
    ensures Resolve(RangedRandom(minTicks, maxTicks, seed), core)
         == Some(minTicks + state % (maxTicks - minTicks + 1))
  {
    var w := WordOf64(state);
    core := UnmixSeed(seed, UnShift(w));
    CoreOfState(seed, w);
    OffsetOfState(minTicks, maxTicks, seed, core, w);
  }

  lemma OffsetOfState(minTicks: u64, maxTicks: u64, seed: bv64, core: bv64, w: bv64)
    requires minTicks < maxTicks && Xorshift64(MixSeed(seed, core)) == w
    ensures Resolve(RangedRandom(minTicks, maxTicks, seed), core)
         == Some(minTicks + w as int % (maxTicks - minTicks + 1))
  {
  }

  lemma StateInSpan(state: nat, span: nat, r: nat)
    requires r < span && (state == r || (r == 0 && state == span))
    ensures state % span == r
  {
  }
}
