/**
  The decision layer of glare detection. The colour conversion, the box
  filters, the square root and the percentiles are library numerics; they
  arrive here as grids of reals (V, S and the local standard deviation of V,
  all H x W) and as the (2nd, 98th) percentile pair of each map. What is
  modelled is what the source computes from them: robust normalisation,
  the weighted score map, the threshold mask, the coverage fraction, the
  has-glare decision and the brightest-pixel peak.
*/
module GlareDetection {
  import opened Wrappers
  import opened Pixels

  type Grid = seq<seq<real>>

  /** g has h rows of w entries each. */
  predicate IsGrid<T>(g: seq<seq<T>>, h: nat, w: nat)
  {
    |g| == h && forall i :: 0 <= i < h ==> |g[i]| == w
  }

  /** Every entry of g lies in [0, 1]. */
  predicate InUnitRange(g: Grid)
  {
    forall i, j :: 0 <= i < |g| && 0 <= j < |g[i]| ==> 0.0 <= g[i][j] <= 1.0
  }

  /** The guard added to the percentile range in robust_norm. */
  const Eps: real := 0.000001

  const DefaultScoreThresh: real := 0.65
  const DefaultCoverageThresh: real := 0.02

  /** np.percentile(x, 2.0) and np.percentile(x, 98.0) of one map. */
  datatype Percentiles = Percentiles(lo: real, hi: real)

  /** Two percentiles of the same data are ordered: the 2nd never exceeds the 98th. */
  predicate Ordered(p: Percentiles) { p.lo <= p.hi }

  /** (w_intensity, w_lowSat, w_lowLocalContrast). */
  datatype Weights = Weights(intensity: real, lowSat: real, lowContrast: real)

  const DefaultWeights: Weights := Weights(0.45, 0.35, 0.20)

  function Total(w: Weights): real { w.intensity + w.lowSat + w.lowContrast }

  /** Non-negative weights of positive sum (the combination divides by the sum). */
  predicate ValidWeights(w: Weights)
  {
    0.0 <= w.intensity && 0.0 <= w.lowSat && 0.0 <= w.lowContrast && 0.0 < Total(w)
  }

  /** np.clip(v, a, b). */
  function Clip(v: real, a: real, b: real): (r: real)
    requires a <= b
    ensures a <= r <= b
    ensures a <= v <= b ==> r == v
    ensures v < a ==> r == a
    ensures b < v ==> r == b
  {
    if v < a then a else if b < v then b else v
  }

  /** robust_norm on one value: rescale [lo, hi + Eps] linearly onto [0, 1] and clamp. */
  function NormValue(x: real, p: Percentiles): (r: real)
    requires Ordered(p)
    ensures 0.0 <= r <= 1.0
    ensures x <= p.lo ==> r == 0.0
    ensures p.hi + Eps <= x ==> r == 1.0
    ensures p.lo <= x <= p.hi + Eps ==> r * (p.hi - p.lo + Eps) == x - p.lo
  {
    var d := p.hi - p.lo + Eps;
    var q := (x - p.lo) / d;
    QuotientFacts(x - p.lo, d);
    Clip(q, 0.0, 1.0)
  }

  lemma QuotientFacts(n: real, d: real)
    requires 0.0 < d
    ensures (n / d) * d == n
    ensures n <= 0.0 ==> n / d <= 0.0
    ensures d <= n ==> 1.0 <= n / d
    ensures 0.0 <= n <= d ==> 0.0 <= n / d <= 1.0
  {
  }

  /** robust_norm applied to a whole map with its own percentiles. */
  function RobustNorm(g: Grid, p: Percentiles): (r: Grid)
    requires Ordered(p)
    ensures |r| == |g| && forall i :: 0 <= i < |g| ==> |r[i]| == |g[i]|
    ensures InUnitRange(r)
    ensures forall i, j :: 0 <= i < |g| && 0 <= j < |g[i]| ==> r[i][j] == NormValue(g[i][j], p)
  {
    seq(|g|, i requires 0 <= i < |g| => seq(|g[i]|, j requires 0 <= j < |g[i]| => NormValue(g[i][j], p)))
  }

  /** The weighted average of the three glare cues at one pixel: bright, low
      saturation, low local contrast. */
  function ScoreValue(i: real, s: real, c: real, w: Weights): (r: real)
    requires Total(w) != 0.0
    ensures ValidWeights(w) && 0.0 <= i <= 1.0 && 0.0 <= s <= 1.0 && 0.0 <= c <= 1.0 ==> 0.0 <= r <= 1.0
  {
    ScoreBound(i, s, c, w);
    WeightedSum(w.intensity, w.lowSat, w.lowContrast, i, 1.0 - s, 1.0 - c) / Total(w)
  }

  lemma ScoreBound(i: real, s: real, c: real, w: Weights)
    requires Total(w) != 0.0
    ensures ValidWeights(w) && 0.0 <= i <= 1.0 && 0.0 <= s <= 1.0 && 0.0 <= c <= 1.0 ==>
      0.0 <= WeightedSum(w.intensity, w.lowSat, w.lowContrast, i, 1.0 - s, 1.0 - c) / Total(w) <= 1.0
  {
    if ValidWeights(w) && 0.0 <= i <= 1.0 && 0.0 <= s <= 1.0 && 0.0 <= c <= 1.0 {
      NumeratorBound(w.intensity, w.lowSat, w.lowContrast, i, 1.0 - s, 1.0 - c);
      DivideInUnitRange(WeightedSum(w.intensity, w.lowSat, w.lowContrast, i, 1.0 - s, 1.0 - c), Total(w));
    }
  }

  function WeightedSum(wi: real, ws: real, wc: real, a: real, b: real, c: real): real
  {
    wi * a + ws * b + wc * c
  }

  /** A weighted sum of three cues in [0, 1] with non-negative weights lies between 0 and the weights' sum. */
  lemma NumeratorBound(wi: real, ws: real, wc: real, a: real, b: real, c: real)
    requires 0.0 <= wi && 0.0 <= ws && 0.0 <= wc
    requires 0.0 <= a <= 1.0 && 0.0 <= b <= 1.0 && 0.0 <= c <= 1.0
    ensures 0.0 <= WeightedSum(wi, ws, wc, a, b, c) <= wi + ws + wc
  {
    WeightedTermBound(wi, a);
    WeightedTermBound(ws, b);
    WeightedTermBound(wc, c);
    SumBound(wi * a, ws * b, wc * c, wi, ws, wc);
  }

  lemma SumBound(x: real, y: real, z: real, kx: real, ky: real, kz: real)
    requires 0.0 <= x <= kx && 0.0 <= y <= ky && 0.0 <= z <= kz
    ensures 0.0 <= x + y + z <= kx + ky + kz
  {
  }

  lemma WeightedTermBound(k: real, v: real)
    requires 0.0 <= k && 0.0 <= v <= 1.0
    ensures 0.0 <= k * v <= k
  {
  }

  lemma DivideInUnitRange(n: real, d: real)
    requires 0.0 <= n <= d && 0.0 < d
    ensures 0.0 <= n / d <= 1.0
  {
  }

  /** The score map, pixel by pixel over three normalised maps of one shape. */
  function ScoreMap(iN: Grid, sN: Grid, cN: Grid, w: Weights, h: nat, wd: nat): (r: Grid)
    requires Total(w) != 0.0
    requires IsGrid(iN, h, wd) && IsGrid(sN, h, wd) && IsGrid(cN, h, wd)
    ensures IsGrid(r, h, wd)
    ensures ValidWeights(w) && InUnitRange(iN) && InUnitRange(sN) && InUnitRange(cN) ==> InUnitRange(r)
    ensures forall y, x :: 0 <= y < h && 0 <= x < wd ==> r[y][x] == ScoreValue(iN[y][x], sN[y][x], cN[y][x], w)
  {
    seq(h, y requires 0 <= y < h =>
      seq(wd, x requires 0 <= x < wd => ScoreValue(iN[y][x], sN[y][x], cN[y][x], w)))
  }

  /** (score_map >= score_thresh) * 255 as a uint8 map. */
  function Mask(score: Grid, thresh: real): (m: seq<seq<int>>)
    ensures |m| == |score| && forall i :: 0 <= i < |score| ==> |m[i]| == |score[i]|
    ensures forall i, j :: 0 <= i < |score| && 0 <= j < |score[i]| ==>
      (m[i][j] == 255 <==> score[i][j] >= thresh) && (m[i][j] == 0 <==> score[i][j] < thresh)
  {
    seq(|score|, i requires 0 <= i < |score| =>
      seq(|score[i]|, j requires 0 <= j < |score[i]| => if score[i][j] >= thresh then 255 else 0))
  }

  /** np.count_nonzero on one row. */
  function RowCount(row: seq<int>): nat
  {
    if |row| == 0 then 0 else (if row[0] != 0 then 1 else 0) + RowCount(row[1..])
  }

  /** np.count_nonzero on a whole mask. */
  function Count(m: seq<seq<int>>): nat
  {
    if |m| == 0 then 0 else RowCount(m[0]) + Count(m[1..])
  }

  /** The mask's pixels in row-major order, as numpy flattens it. */
  function Flatten(m: seq<seq<int>>): seq<int>
  {
    if |m| == 0 then [] else m[0] + Flatten(m[1..])
  }

  /** A row's count is its length less its zeros. */
  lemma {:induction false} RowCountIsNonZeros(row: seq<int>)
    ensures RowCount(row) == |row| - multiset(row)[0]
  {
    if |row| > 0 {
      RowCountIsNonZeros(row[1..]);
      assert row == [row[0]] + row[1..];
    }
  }

  /** A mask's count is its number of pixels less its zero pixels. */
  lemma {:induction false} CountIsNonZeros(m: seq<seq<int>>)
    ensures Count(m) == |Flatten(m)| - multiset(Flatten(m))[0]
  {
    if |m| > 0 {
      RowCountIsNonZeros(m[0]);
      CountIsNonZeros(m[1..]);
    }
  }

  lemma {:induction false} RowCountBound(row: seq<int>)
    ensures RowCount(row) <= |row|
  {
    if |row| > 0 {
      RowCountBound(row[1..]);
    }
  }

  /** At most every pixel is set. */
  lemma {:induction false} CountBound(m: seq<seq<int>>, h: nat, w: nat)
    requires IsGrid(m, h, w)
    ensures Count(m) <= h * w
  {
    if h > 0 {
      RowCountBound(m[0]);
      CountBound(m[1..], h - 1, w);
      assert (h - 1) * w + w == h * w;
    }
  }

  /** A row whose set pixels are also set in another row of the same length counts no more. */
  lemma {:induction false} RowCountMonotone(a: seq<int>, b: seq<int>)
    requires |a| == |b|
    requires forall j :: 0 <= j < |a| && a[j] != 0 ==> b[j] != 0
    ensures RowCount(a) <= RowCount(b)
  {
    if |a| > 0 {
      RowCountMonotone(a[1..], b[1..]);
    }
  }

  lemma {:induction false} CountMonotone(a: seq<seq<int>>, b: seq<seq<int>>)
    requires |a| == |b| && forall i :: 0 <= i < |a| ==> |a[i]| == |b[i]|
    requires forall i, j :: 0 <= i < |a| && 0 <= j < |a[i]| && a[i][j] != 0 ==> b[i][j] != 0
    ensures Count(a) <= Count(b)
  {
    if |a| > 0 {
      RowCountMonotone(a[0], b[0]);
      CountMonotone(a[1..], b[1..]);
    }
  }

  lemma {:induction false} RowCountPositive(row: seq<int>)
    ensures RowCount(row) > 0 <==> exists j :: 0 <= j < |row| && row[j] != 0
  {
    if |row| > 0 {
      RowCountPositive(row[1..]);
      if row[0] == 0 && RowCount(row) == 0 {
        forall j | 0 <= j < |row| ensures row[j] == 0 {
          if j > 0 { assert row[1..][j - 1] == row[j]; }
        }
      }
      if RowCount(row) > 0 && row[0] == 0 {
        var j :| 0 <= j < |row[1..]| && row[1..][j] != 0;
        assert row[j + 1] != 0;
      }
    }
  }

  /** The count is positive exactly when some pixel is set. */
  lemma {:induction false} CountPositive(m: seq<seq<int>>)
    ensures Count(m) > 0 <==> exists i, j :: 0 <= i < |m| && 0 <= j < |m[i]| && m[i][j] != 0
  {
    if |m| > 0 {
      RowCountPositive(m[0]);
      CountPositive(m[1..]);
      if Count(m[1..]) > 0 {
        var i, j :| 0 <= i < |m[1..]| && 0 <= j < |m[1..][i]| && m[1..][i][j] != 0;
        assert m[i + 1][j] != 0;
      }
      if exists i, j :: 0 <= i < |m| && 0 <= j < |m[i]| && m[i][j] != 0 {
        var i, j :| 0 <= i < |m| && 0 <= j < |m[i]| && m[i][j] != 0;
        if i > 0 {
          assert m[1..][i - 1][j] != 0;
        }
      }
    }
  }

  /** c is the fraction of the h * w pixels of m that are set. */
  predicate FractionSet(c: real, m: seq<seq<int>>, h: nat, w: nat)
  {
    c * (h * w) as real == Count(m) as real
  }

  /** count_nonzero(mask) / float(H * W). */
  function Coverage(m: seq<seq<int>>, h: nat, w: nat): (c: real)
    requires IsGrid(m, h, w) && 0 < h * w
    ensures 0.0 <= c <= 1.0
    ensures FractionSet(c, m, h, w)
    ensures c > 0.0 <==> exists i, j :: 0 <= i < h && 0 <= j < w && m[i][j] != 0
  {
    CountBound(m, h, w);
    CountPositive(m);
    DivideInUnitRange(Count(m) as real, (h * w) as real);
    QuotientFacts(Count(m) as real, (h * w) as real);
    Count(m) as real / (h * w) as real
  }

  /** The index of a largest entry of a non-empty row (the first one, scanning left to right). */
  function RowArgMax(row: seq<int>): (k: nat)
    requires |row| > 0
    ensures k < |row|
    ensures forall j :: 0 <= j < |row| ==> row[j] <= row[k]
  {
    if |row| == 1 then 0
    else
      var k := RowArgMax(row[..|row| - 1]);
      if row[|row| - 1] > row[k] then |row| - 1 else k
  }

  /** The row holding a largest entry of a non-empty h x w grid. */
  function PeakRow(g: seq<seq<int>>, h: nat, w: nat): (y: nat)
    requires IsGrid(g, h, w) && 0 < h && 0 < w
    ensures y < h
    ensures forall i, j :: 0 <= i < h && 0 <= j < w ==> g[i][j] <= g[y][RowArgMax(g[y])]
  {
    if h == 1 then 0
    else
      var y := PeakRow(g[..h - 1], h - 1, w);
      var last := g[h - 1];
      if last[RowArgMax(last)] > g[y][RowArgMax(g[y])] then h - 1 else y
  }

  /** The maxLoc of cv2.minMaxLoc: a pixel of largest grey level. */
  function Peak(gray: seq<seq<int>>, h: nat, w: nat): (p: Pixel)
    requires IsGrid(gray, h, w) && 0 < h && 0 < w
    ensures 0 <= p.x < w && 0 <= p.y < h
    ensures forall i, j :: 0 <= i < h && 0 <= j < w ==> gray[i][j] <= gray[p.y][p.x]
  {
    var y := PeakRow(gray, h, w);
    Pixel(RowArgMax(gray[y]), y)
  }

  /** What detect_glare is given once the library numerics are done: the
      frame's height and width, its V and S channels scaled to [0, 1], the
      local standard deviation of V, and its grey-level image. */
  datatype Features = Features(h: nat, w: nat, v: Grid, s: Grid, stdV: Grid, gray: seq<seq<int>>)

  predicate WellShaped(f: Features)
  {
    IsGrid(f.v, f.h, f.w) && IsGrid(f.s, f.h, f.w) && IsGrid(f.stdV, f.h, f.w) && IsGrid(f.gray, f.h, f.w)
  }

  /** The percentile pairs of V, S and the standard-deviation map. */
  datatype FeaturePercentiles = FeaturePercentiles(v: Percentiles, s: Percentiles, stdV: Percentiles)

  predicate AllOrdered(p: FeaturePercentiles) { Ordered(p.v) && Ordered(p.s) && Ordered(p.stdV) }

  /** The returned dictionary: 'score' (the coverage), 'has_glare', 'score_map', 'mask', 'X_coord'. */
  datatype GlareResult = GlareResult(coverage: real, hasGlare: bool, scoreMap: Grid, mask: seq<seq<int>>, peak: Pixel)

  /** Every pixel of score is the weighted score of the frame's three
      normalised cues at that pixel. */
  predicate ScoresOf(score: Grid, f: Features, p: FeaturePercentiles, w: Weights)
    requires WellShaped(f) && AllOrdered(p) && Total(w) != 0.0
  {
    IsGrid(score, f.h, f.w)
    && forall y, x :: 0 <= y < f.h && 0 <= x < f.w ==>
      score[y][x] == ScoreValue(NormValue(f.v[y][x], p.v), NormValue(f.s[y][x], p.s), NormValue(f.stdV[y][x], p.stdV), w)
  }

  /** The score map detect_glare builds from the three normalised maps. */
  function FeatureScoreMap(f: Features, p: FeaturePercentiles, w: Weights): (r: Grid)
    requires WellShaped(f) && AllOrdered(p) && Total(w) != 0.0
    ensures IsGrid(r, f.h, f.w)
    ensures ValidWeights(w) ==> InUnitRange(r)
    ensures ScoresOf(r, f, p, w)
  {
    ScoreMap(RobustNorm(f.v, p.v), RobustNorm(f.s, p.s), RobustNorm(f.stdV, p.stdV), w, f.h, f.w)
  }

  /** detect_glare. The source raises on an empty frame (OpenCV rejects the
      empty image); that path is None here. */
  function DetectGlare(f: Features, p: FeaturePercentiles, w: Weights, scoreThresh: real, coverageThresh: real)
    : (r: Option<GlareResult>)
    requires WellShaped(f) && AllOrdered(p) && Total(w) != 0.0
    ensures r.None? <==> f.h == 0 || f.w == 0
    ensures r.Some? && ValidWeights(w) ==> InUnitRange(r.value.scoreMap)
    ensures r.Some? ==> FractionSet(r.value.coverage, r.value.mask, f.h, f.w)
    ensures r.Some? ==>
      && 0.0 <= r.value.coverage <= 1.0
      && ScoresOf(r.value.scoreMap, f, p, w)
      && (r.value.hasGlare <==> r.value.coverage >= coverageThresh)
      && IsGrid(r.value.scoreMap, f.h, f.w)
      && IsGrid(r.value.mask, f.h, f.w)
      && (forall y, x :: 0 <= y < f.h && 0 <= x < f.w ==>
            (r.value.mask[y][x] == 255 <==> r.value.scoreMap[y][x] >= scoreThresh)
            && (r.value.mask[y][x] == 0 <==> r.value.scoreMap[y][x] < scoreThresh))
      && (r.value.coverage > 0.0 <==> exists y, x :: 0 <= y < f.h && 0 <= x < f.w && r.value.scoreMap[y][x] >= scoreThresh)
      && 0 <= r.value.peak.x < f.w && 0 <= r.value.peak.y < f.h
      && (forall y, x :: 0 <= y < f.h && 0 <= x < f.w ==> f.gray[y][x] <= f.gray[r.value.peak.y][r.value.peak.x])
  {
    if f.h == 0 || f.w == 0 then None
    else
      var scoreMap := FeatureScoreMap(f, p, w);
      var mask := Mask(scoreMap, scoreThresh);
      var coverage := Coverage(mask, f.h, f.w);
      Some(GlareResult(coverage, coverage >= coverageThresh, scoreMap, mask, Peak(f.gray, f.h, f.w)))
  }

  lemma QuotientMonotone(a: real, b: real, d: real)
    requires a <= b && 0.0 < d
    ensures a / d <= b / d
  {
  }

  lemma ScaleMonotone(k: real, a: real, b: real)
    requires 0.0 <= k && a <= b
    ensures k * a <= k * b
  {
  }

  lemma SumMonotone(x1: real, y1: real, z1: real, x2: real, y2: real, z2: real)
    requires x1 <= x2 && y1 <= y2 && z1 <= z2
    ensures x1 + y1 + z1 <= x2 + y2 + z2
  {
  }

  lemma WeightedSumMonotone(wi: real, ws: real, wc: real, a1: real, b1: real, c1: real, a2: real, b2: real, c2: real)
    requires 0.0 <= wi && 0.0 <= ws && 0.0 <= wc
    requires a1 <= a2 && b1 <= b2 && c1 <= c2
    ensures WeightedSum(wi, ws, wc, a1, b1, c1) <= WeightedSum(wi, ws, wc, a2, b2, c2)
  {
    var x1, y1, z1 := wi * a1, ws * b1, wc * c1;
    var x2, y2, z2 := wi * a2, ws * b2, wc * c2;
    ScaleMonotone(wi, a1, a2);
    ScaleMonotone(ws, b1, b2);
    ScaleMonotone(wc, c1, c2);
    assert x1 <= x2 && y1 <= y2 && z1 <= z2;
    SumMonotone(x1, y1, z1, x2, y2, z2);
  }

  /** robust_norm preserves the order of values. */
  lemma NormMonotone(x1: real, x2: real, p: Percentiles)
    requires Ordered(p) && x1 <= x2
    ensures NormValue(x1, p) <= NormValue(x2, p)
  {
    QuotientMonotone(x1 - p.lo, x2 - p.lo, p.hi - p.lo + Eps);
  }

  /** With non-negative weights the score grows with brightness and falls with
      saturation and with local contrast. */
  lemma ScoreMonotone(i1: real, s1: real, c1: real, i2: real, s2: real, c2: real, w: Weights)
    requires ValidWeights(w)
    requires i1 <= i2 && s2 <= s1 && c2 <= c1
    ensures ScoreValue(i1, s1, c1, w) <= ScoreValue(i2, s2, c2, w)
  {
    WeightedSumMonotone(w.intensity, w.lowSat, w.lowContrast, i1, 1.0 - s1, 1.0 - c1, i2, 1.0 - s2, 1.0 - c2);
    QuotientMonotone(WeightedSum(w.intensity, w.lowSat, w.lowContrast, i1, 1.0 - s1, 1.0 - c1),
                     WeightedSum(w.intensity, w.lowSat, w.lowContrast, i2, 1.0 - s2, 1.0 - c2), Total(w));
  }

  /** Of two pixels of one frame, one at least as bright, no more saturated and
      of no more local contrast than the other scores at least as high; so if
      the duller one is in the mask, so is the other. */
  lemma GlarierPixelScoresHigher(f: Features, p: FeaturePercentiles, w: Weights, y1: nat, x1: nat, y2: nat, x2: nat)
    requires WellShaped(f) && AllOrdered(p) && ValidWeights(w)
    requires y1 < f.h && x1 < f.w && y2 < f.h && x2 < f.w
    requires f.v[y1][x1] <= f.v[y2][x2] && f.s[y2][x2] <= f.s[y1][x1] && f.stdV[y2][x2] <= f.stdV[y1][x1]
    ensures FeatureScoreMap(f, p, w)[y1][x1] <= FeatureScoreMap(f, p, w)[y2][x2]
  {
    NormMonotone(f.v[y1][x1], f.v[y2][x2], p.v);
    NormMonotone(f.s[y2][x2], f.s[y1][x1], p.s);
    NormMonotone(f.stdV[y2][x2], f.stdV[y1][x1], p.stdV);
    ScoreMonotone(NormValue(f.v[y1][x1], p.v), NormValue(f.s[y1][x1], p.s), NormValue(f.stdV[y1][x1], p.stdV),
                  NormValue(f.v[y2][x2], p.v), NormValue(f.s[y2][x2], p.s), NormValue(f.stdV[y2][x2], p.stdV), w);
  }

  /** Raising the pixel threshold never sets more pixels, so coverage cannot grow. */
  lemma CoverageMonotoneInThreshold(score: Grid, h: nat, w: nat, t1: real, t2: real)
    requires IsGrid(score, h, w) && 0 < h * w
    requires t1 <= t2
    ensures Coverage(Mask(score, t2), h, w) <= Coverage(Mask(score, t1), h, w)
  {
    var m1, m2 := Mask(score, t1), Mask(score, t2);
    CountMonotone(m2, m1);
    QuotientMonotone(Count(m2) as real, Count(m1) as real, (h * w) as real);
  }

  /** The same, for two runs of detect_glare that differ only in score_thresh;
      a frame with glare at the higher threshold also has glare at the lower. */
  lemma DetectGlareMonotoneInThreshold(f: Features, p: FeaturePercentiles, w: Weights, t1: real, t2: real, coverageThresh: real)
    requires WellShaped(f) && AllOrdered(p) && Total(w) != 0.0
    requires 0 < f.h && 0 < f.w
    requires t1 <= t2
    ensures DetectGlare(f, p, w, t2, coverageThresh).value.coverage <= DetectGlare(f, p, w, t1, coverageThresh).value.coverage
    ensures DetectGlare(f, p, w, t2, coverageThresh).value.hasGlare ==> DetectGlare(f, p, w, t1, coverageThresh).value.hasGlare
  {
    CoverageMonotoneInThreshold(FeatureScoreMap(f, p, w), f.h, f.w, t1, t2);
  }

  lemma DivSelf(t: real)
    requires t != 0.0
    ensures t / t == 1.0
  {
  }

  /** A map equal to its own low percentile everywhere normalises to all zeros. */
  lemma FlatMapNormalisesToZero(g: Grid, c: real)
    requires forall i, j :: 0 <= i < |g| && 0 <= j < |g[i]| ==> g[i][j] == c
    ensures forall i, j :: 0 <= i < |g| && 0 <= j < |g[i]| ==> RobustNorm(g, Percentiles(c, c))[i][j] == 0.0
  {
  }

  /** A frame whose three maps are each constant: every percentile of a constant
      map is that constant, so each normalised map is all zeros, the score is
      the weight share of the two "low" cues everywhere, and with the default
      parameters (0.55 < 0.65) no pixel is set and there is no glare. */
  lemma FlatFrameHasNoGlare(f: Features, cv: real, cs: real, cc: real, w: Weights)
    requires WellShaped(f) && 0 < f.h && 0 < f.w && ValidWeights(w)
    requires forall y, x :: 0 <= y < f.h && 0 <= x < f.w ==> f.v[y][x] == cv && f.s[y][x] == cs && f.stdV[y][x] == cc
    ensures var p := FeaturePercentiles(Percentiles(cv, cv), Percentiles(cs, cs), Percentiles(cc, cc));
      forall y, x :: 0 <= y < f.h && 0 <= x < f.w ==>
        FeatureScoreMap(f, p, w)[y][x] == (w.lowSat + w.lowContrast) / Total(w)
    ensures var r := DetectGlare(f, FeaturePercentiles(Percentiles(cv, cv), Percentiles(cs, cs), Percentiles(cc, cc)),
                                 DefaultWeights, DefaultScoreThresh, DefaultCoverageThresh);
      r.Some? && r.value.coverage == 0.0 && !r.value.hasGlare
  {
    var p := FeaturePercentiles(Percentiles(cv, cv), Percentiles(cs, cs), Percentiles(cc, cc));
    forall y, x | 0 <= y < f.h && 0 <= x < f.w
      ensures FeatureScoreMap(f, p, w)[y][x] == (w.lowSat + w.lowContrast) / Total(w)
    {
      assert ScoreValue(0.0, 0.0, 0.0, w) == (w.lowSat + w.lowContrast) / Total(w);
    }
    var score := FeatureScoreMap(f, p, DefaultWeights);
    forall y, x | 0 <= y < f.h && 0 <= x < f.w
      ensures score[y][x] < DefaultScoreThresh
    {
      assert ScoreValue(0.0, 0.0, 0.0, DefaultWeights) == 0.55;
    }
  }

  /** A pixel that normalises to full brightness, zero saturation and zero local
      contrast scores 1, so it is set under any threshold up to 1 and the
      coverage is positive. */
  lemma HotspotIsDetected(f: Features, p: FeaturePercentiles, w: Weights, scoreThresh: real, coverageThresh: real, y: nat, x: nat)
    requires WellShaped(f) && AllOrdered(p) && ValidWeights(w)
    requires y < f.h && x < f.w
    requires p.v.hi + Eps <= f.v[y][x] && f.s[y][x] <= p.s.lo && f.stdV[y][x] <= p.stdV.lo
    requires scoreThresh <= 1.0
    ensures DetectGlare(f, p, w, scoreThresh, coverageThresh).Some?
    ensures DetectGlare(f, p, w, scoreThresh, coverageThresh).value.coverage > 0.0
  {
    var score := FeatureScoreMap(f, p, w);
    assert NormValue(f.v[y][x], p.v) == 1.0;
    assert NormValue(f.s[y][x], p.s) == 0.0;
    assert NormValue(f.stdV[y][x], p.stdV) == 0.0;
    assert score[y][x] == ScoreValue(1.0, 0.0, 0.0, w);
    assert ScoreValue(1.0, 0.0, 0.0, w) == Total(w) / Total(w);
    DivSelf(Total(w));
    assert score[y][x] >= scoreThresh;
  }
}
