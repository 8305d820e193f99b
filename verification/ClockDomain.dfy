/** A core's clock: nominal ticks scaled by a drift in parts per million. */
module ClockDomain {
  import opened Wrappers

  const U64_MAX: int := 0xFFFF_FFFF_FFFF_FFFF
  const MILLION: int := 1_000_000
  const MAX_DRIFT_PPM: int := 100_000

  type u64 = x: int | 0 <= x <= U64_MAX
  type i32 = x: int | -0x8000_0000 <= x <= 0x7FFF_FFFF

  datatype ClockDomain = ClockDomain(nominal: nat, ppm: i32)

  function UnsignedAbs(ppm: i32): nat {
    if ppm < 0 then -(ppm as int) else ppm
  }

  /** None where the source panics. */
  function WithDriftPpm(nominal: nat, ppm: i32): (d: Option<ClockDomain>)
    ensures d.Some? <==> -100_000 <= ppm <= 100_000
    ensures d.Some? ==> d == Some(ClockDomain(nominal, ppm))
  {
    if UnsignedAbs(ppm) <= MAX_DRIFT_PPM then Some(ClockDomain(nominal, ppm)) else None
  }

  /** Division that cuts towards zero. */
  function Quotient(a: int, b: int): int
    requires b > 0
  {
    if a >= 0 then a / b else -(-a / b)
  }

  function Scaled(ppm: i32, n: u64): int {
    n * (MILLION + ppm)
  }

  /** The quotient before it is clamped to 64 bits. */
  function Unclamped(ppm: i32, n: u64): int {
    Quotient(Scaled(ppm, n) + (if Scaled(ppm, n) >= 0 then 500_000 else -500_000), MILLION)
  }

  function ApplyDrift(ppm: i32, n: u64): u64 {
    if ppm == 0 then n
    else
      var r := Unclamped(ppm, n);
      if r < 0 then 0 else if r > U64_MAX then U64_MAX else r
  }

  // ---------------------------------------------------------------- the nearest integer

  /** r is the integer nearest to x millionths, the upper one on a tie. */
  predicate Nearest(r: int, x: int) {
    -500_000 < r * MILLION - x <= 500_000
  }

  /** Drift gives the nearest integer to the scaled count, ties up; what lies outside 64 bits is clamped. */
  lemma DriftIsNearest(ppm: i32, n: u64, r: int)
    requires Nearest(r, Scaled(ppm, n))
    ensures ApplyDrift(ppm, n) == if r < 0 then 0 else if r > U64_MAX then U64_MAX else r
  {
  }

  lemma Rounded(x: int)
    ensures Nearest((x + 500_000) / MILLION, x)
  {
  }

  /** The nearest integer to the scaled count. */
  function Exact(ppm: i32, n: u64): (r: int)
    ensures Nearest(r, Scaled(ppm, n))
  {
    Rounded(Scaled(ppm, n));
    (Scaled(ppm, n) + 500_000) / MILLION
  }

  lemma NearestMonotone(r: int, x: int, r': int, x': int)
    requires Nearest(r, x) && Nearest(r', x') && x <= x'
    ensures r <= r'
  {
  }

  /** More ticks never come out as fewer, and a slower clock never takes fewer ticks. */
  lemma DriftIsMonotone(ppm: i32, ppm': i32, n: u64, n': u64)
    requires ppm <= ppm' && n <= n'
    ensures ApplyDrift(ppm, n) <= ApplyDrift(ppm', n)
    ensures ApplyDrift(ppm, n) <= ApplyDrift(ppm, n')
  {
    DriftIsNearest(ppm, n, Exact(ppm, n));
    DriftIsNearest(ppm', n, Exact(ppm', n));
    DriftIsNearest(ppm, n', Exact(ppm, n'));
    MulMonotone(n, MILLION + ppm, MILLION + ppm');
    NearestMonotone(Exact(ppm, n), Scaled(ppm, n), Exact(ppm', n), Scaled(ppm', n));
    if MILLION + ppm >= 0 {
      MulMonotone(MILLION + ppm, n, n');
      NearestMonotone(Exact(ppm, n), Scaled(ppm, n), Exact(ppm, n'), Scaled(ppm, n'));
    } else {
      MulNegative(n, MILLION + ppm);
      NearestMonotone(Exact(ppm, n), Scaled(ppm, n), 0, 0);
    }
  }

  lemma MulMonotone(k: int, a: int, b: int)
    requires k >= 0 && a <= b
    ensures k * a <= k * b && a * k <= b * k
  {
  }

  lemma MulNegative(n: int, k: int)
    requires n >= 0 && k < 0
    ensures n * k <= 0
  {
  }

  // ---------------------------------------------------------------- chunks

  function Sum(chunks: seq<u64>): nat {
    if chunks == [] then 0 else chunks[0] + Sum(chunks[1..])
  }

  /** The chunks drifted one by one. */
  function SumDrifted(ppm: i32, chunks: seq<u64>): nat {
    if chunks == [] then 0 else ApplyDrift(ppm, chunks[0]) + SumDrifted(ppm, chunks[1..])
  }

  /** A count whose drift fits 64 bits without being clamped; the scale of any constructed domain is
    positive. */
  predicate Fits(ppm: i32, n: int) {
    0 <= n <= U64_MAX && MILLION + ppm >= 0 && n * (MILLION + ppm) < U64_MAX * MILLION + 500_000
  }

  lemma FitsExact(ppm: i32, n: u64)
    requires Fits(ppm, n)
    ensures Nearest(ApplyDrift(ppm, n), Scaled(ppm, n))
  {
    MulMonotone(n, 0, MILLION + ppm);
    NearestMonotone(0, 0, Exact(ppm, n), Scaled(ppm, n));
    DriftIsNearest(ppm, n, Exact(ppm, n));
  }

  lemma FitsSmaller(ppm: i32, a: nat, b: nat)
    requires Fits(ppm, a + b)
    ensures Fits(ppm, a) && Fits(ppm, b)
    ensures (a + b) * (MILLION + ppm) == a * (MILLION + ppm) + b * (MILLION + ppm)
  {
    var s := MILLION + ppm;
    Distributes(a, b, s);
    MulMonotone(s, 0, a);
    MulMonotone(s, 0, b);
  }

  lemma Distributes(a: int, b: int, s: int)
    ensures (a + b) * s == a * s + b * s
  {
  }

  /** Each chunk is off by at most half a tick. */
  lemma {:induction false} ChunksError(ppm: i32, chunks: seq<u64>)
    requires Fits(ppm, Sum(chunks))
    ensures -500_000 * |chunks| <= SumDrifted(ppm, chunks) * MILLION - Sum(chunks) * (MILLION + ppm) <= 500_000 * |chunks|
  {
    if chunks != [] {
      FitsSmaller(ppm, chunks[0], Sum(chunks[1..]));
      ChunksError(ppm, chunks[1..]);
      FitsExact(ppm, chunks[0]);
    }
  }

  /** Drifting k chunks one by one and drifting their sum at once differ by at most (k + 1) / 2 ticks, so
    long as the sum is not clamped. */
  lemma ChunksDriftTogether(ppm: i32, chunks: seq<u64>)
    requires Fits(ppm, Sum(chunks))
    ensures -(|chunks| + 1) <= 2 * (SumDrifted(ppm, chunks) - ApplyDrift(ppm, Sum(chunks))) <= |chunks| + 1
  {
    ChunksError(ppm, chunks);
    FitsExact(ppm, Sum(chunks));
  }

  /** Below the 64-bit limit a drifted count lies within half a tick of the count scaled by its parts per
    million. */
  lemma DriftInNumbers(ppm: i32, n: u64)
    requires -1_000_000 <= ppm && ApplyDrift(ppm, n) < 0xFFFF_FFFF_FFFF_FFFF
    ensures -500_000 < ApplyDrift(ppm, n) * 1_000_000 - n * (1_000_000 + ppm) <= 500_000
  {
    DriftIsNearest(ppm, n, Exact(ppm, n));
    ExactIsNatural(ppm, n);
  }

  lemma ExactIsNatural(ppm: i32, n: u64)
    requires -1_000_000 <= ppm
    ensures Exact(ppm, n) >= 0
  {
    MulMonotone(n, 0, 1_000_000 + ppm);
  }
}
