/** `LanguageModelProcessor._estimate_processing_time`: the seconds a model
    call is expected to take for a given number of tokens, from the mean of
    five measured throughputs, doubled for input and output, rounded with
    Python's `round` (halves to even). */
module ProcessingTime {

  /** Measured throughputs, in tokens per second. */
  const TpsEstimates: seq<nat> := [183, 112, 80, 140, 100]

  function Sum(xs: seq<nat>): nat
  {
    if xs == [] then 0 else xs[0] + Sum(xs[1..])
  }

  /** Python's `round` applied to the rational `p / q`: the nearest integer,
      and the even one of the two when `p / q` lies halfway between them. */
  function RoundHalfEven(p: int, q: int): (r: int)
    requires q > 0
    ensures 2 * (r * q - p) <= q && 2 * (p - r * q) <= q
    ensures 2 * (r * q - p) == q || 2 * (p - r * q) == q ==> r % 2 == 0
  {
    var f := p / q;
    var m := p - f * q;
    assert 0 <= m < q;
    assert f * q - p == -m && (f + 1) * q - p == q - m;
    if 2 * m < q then f
    else if 2 * m > q then f + 1
    else if f % 2 == 0 then f else f + 1
  }

  /** The estimate for `tokenCount` tokens: `tokenCount / mean * 2`, rounded,
      where the mean throughput is `Sum(TpsEstimates) / |TpsEstimates|`. */
  function EstimateProcessingTime(tokenCount: nat): int
  {
    RoundHalfEven(2 * tokenCount * |TpsEstimates|, Sum(TpsEstimates))
  }

  /** The mean throughput is 123 tokens per second, so the estimate is
      `2 * tokenCount / 123` rounded; no count falls exactly halfway between
      two integers, and the estimate is `(4 * tokenCount + 123) / 246`. */
  lemma EstimateClosedForm(tokenCount: nat)
    ensures Sum(TpsEstimates) == 123 * |TpsEstimates|
    ensures 2 * ((2 * tokenCount * |TpsEstimates|) % Sum(TpsEstimates)) != Sum(TpsEstimates)
    ensures EstimateProcessingTime(tokenCount) == (4 * tokenCount + 123) / 246
  {
    TpsTotals();
    var n := tokenCount;
    var c: int := (4 * n + 123) / 246;
    // 4n + 123 = 246c + d with d odd, so 0 < d < 246 and the distance from
    // 2n / 123 to c, scaled by 1230, is 5 * |123 - d| < 615.
    var d: int := 4 * n + 123 - 246 * c;
    assert 0 <= d < 246;
    assert d == 2 * (2 * n - 123 * c + 61) + 1;
    assert 2 * (c * 615 - 10 * n) == 5 * (123 - d);
    NearestOf615(10 * n, EstimateProcessingTime(n), c);
  }

  /** The throughputs add up to 615 over five measurements. */
  lemma TpsTotals()
    ensures Sum(TpsEstimates) == 615 && |TpsEstimates| == 5
  {
  }

  /** Rounding `p / 615`: an integer strictly closer than one half to it is
      the only one at most one half away. */
  lemma NearestOf615(p: int, r: int, c: int)
    requires 2 * (r * 615 - p) <= 615 && 2 * (p - r * 615) <= 615
    requires 2 * (c * 615 - p) < 615 && 2 * (p - c * 615) < 615
    ensures r == c
  {
  }

  /** The estimate is never negative. */
  lemma EstimateNonNegative(tokenCount: nat)
    ensures EstimateProcessingTime(tokenCount) >= 0
  {
    EstimateClosedForm(tokenCount);
  }

  /** More tokens never give a smaller estimate. */
  lemma EstimateMonotone(m: nat, n: nat)
    requires m <= n
    ensures EstimateProcessingTime(m) <= EstimateProcessingTime(n)
  {
    EstimateClosedForm(m);
    EstimateClosedForm(n);
  }

  /** The estimate is zero exactly for counts up to 30 tokens. */
  lemma EstimateZero(tokenCount: nat)
    ensures EstimateProcessingTime(tokenCount) == 0 <==> tokenCount <= 30
  {
    EstimateClosedForm(tokenCount);
  }
}
