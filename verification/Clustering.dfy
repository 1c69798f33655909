/** The similarity primitives and the per-pair gates of the clustering evaluator,
    and the diagnosis it prints for a related pair that was not merged.
    Times are integers on one scale; scores are reals. */
module Similarity {
  import opened Basics

  type Token = string

  datatype Metric = MetricJaccard | MetricOverlap | MetricIdfOverlap

  /** One article of the fixture; a missing simhash is 0, as in the source's truth tests. */
  datatype Article = Article(id: int, dt: int, source: int, category: string,
                             title: set<Token>, both: set<Token>, simhash: int)

  datatype Params = Params(useSimhash: bool, simhashMaxDistance: int,
                           metric: Metric, titleOnly: bool, threshold: real, minShared: int,
                           sameSourceGuard: bool, useBlocking: bool,
                           window: Option<int>, candidateLimit: Option<int>,
                           compareAllMembers: bool, geoGuard: bool)

  /** What the evaluator takes from elsewhere: the summed idf weight of a token set,
      the Hamming distance of two simhashes, and the geographic categories. */
  datatype World = World(idfWeight: set<Token> -> real, hamming: (int, int) -> int, geo: set<string>)

  function Field(a: Article, p: Params): set<Token> {
    if p.titleOnly then a.title else a.both
  }

  function Jaccard(a: set<Token>, b: set<Token>): real {
    if a == {} || b == {} then 0.0
    else
      var union := |a + b|;
      if union != 0 then |a * b| as real / union as real else 0.0
  }

  function OverlapCoefficient(a: set<Token>, b: set<Token>): real {
    if a == {} || b == {} then 0.0
    else
      var smaller := if |a| <= |b| then |a| else |b|;
      if smaller != 0 then |a * b| as real / smaller as real else 0.0
  }

  function IdfOverlap(a: set<Token>, b: set<Token>, w: World): real {
    if a == {} || b == {} then 0.0
    else
      var wa, wb := w.idfWeight(a), w.idfWeight(b);
      var denom := if wa <= wb then wa else wb;
      if denom != 0.0 then w.idfWeight(a * b) / denom else 0.0
  }

  function MetricScore(a: set<Token>, b: set<Token>, p: Params, w: World): real {
    match p.metric
    case MetricOverlap => OverlapCoefficient(a, b)
    case MetricIdfOverlap => IdfOverlap(a, b, w)
    case MetricJaccard => Jaccard(a, b)
  }

  predicate GeoClash(a: Article, b: Article, w: World) {
    a.category in w.geo && b.category in w.geo && a.category != b.category
  }

  predicate Confirms(a: Article, b: Article, p: Params, w: World) {
    var ta, tb := Field(a, p), Field(b, p);
    && ta != {} && tb != {}
    && |ta * tb| >= p.minShared
    && !(p.sameSourceGuard && a.source == b.source)
    && MetricScore(ta, tb, p, w) >= p.threshold
  }

  /** Everything that is tested between a new article and one member of a candidate cluster. */
  predicate PassesGates(a: Article, target: Article, p: Params, w: World) {
    && (p.useSimhash ==>
          && a.simhash != 0 && target.simhash != 0
          && w.hamming(a.simhash, target.simhash) <= p.simhashMaxDistance)
    && Confirms(a, target, p, w)
    && (p.geoGuard ==> !GeoClash(a, target, w))
  }

  datatype Reason = EmptyTokens | BlockingMissed | OutsideWindow | SameSource | TooFewShared
                  | GeoGuarded | BelowThreshold | LostToOrdering

  function Abs(x: int): nat { if x < 0 then -x else x }

  function Diagnose(a: Article, b: Article, p: Params, w: World, common: set<Token>): Reason {
    var ta, tb := Field(a, p), Field(b, p);
    var shared := ta * tb;
    var score := if ta == {} || tb == {} then 0.0 else MetricScore(ta, tb, p, w);
    if ta == {} || tb == {} then EmptyTokens
    else if p.useBlocking && |shared - common| < p.minShared then BlockingMissed
    else if p.window.Some? && Abs(a.dt - b.dt) > p.window.value then OutsideWindow
    else if p.sameSourceGuard && a.source == b.source then SameSource
    else if |shared| < p.minShared then TooFewShared
    else if p.geoGuard && GeoClash(a, b, w) then GeoGuarded
    else if score < p.threshold then BelowThreshold
    else LostToOrdering
  }

  /** The three metrics do not care which article is called the first. */
  lemma MetricIsSymmetric(a: set<Token>, b: set<Token>, p: Params, w: World)
    ensures MetricScore(a, b, p, w) == MetricScore(b, a, p, w)
  {
    assert a * b == b * a && a + b == b + a;
  }

  /** Neither do the gates, so a diagnosis may name the pair in either order. */
  lemma DiagnosisIsSymmetric(a: Article, b: Article, p: Params, w: World, common: set<Token>)
    ensures Diagnose(a, b, p, w, common) == Diagnose(b, a, p, w, common)
    ensures Confirms(a, b, p, w) == Confirms(b, a, p, w)
  {
    MetricIsSymmetric(Field(a, p), Field(b, p), p, w);
    assert Field(a, p) * Field(b, p) == Field(b, p) * Field(a, p);
  }

  /** With the simhash gate off, a pair is blamed on ordering exactly when no direct gate
      stands between the two articles. */
  lemma LostToOrderingMeansEveryGatePasses(a: Article, b: Article, p: Params, w: World, common: set<Token>)
    requires !p.useSimhash
    ensures Diagnose(a, b, p, w, common) == LostToOrdering <==>
            && PassesGates(a, b, p, w)
            && (p.useBlocking ==> |Field(a, p) * Field(b, p) - common| >= p.minShared)
            && (p.window.Some? ==> -p.window.value <= a.dt - b.dt <= p.window.value)
  {
  }

  // ---- What the gates mean, in counts and weights ----

  lemma Quotient(x: real, n: real, t: real)
    requires n > 0.0
    ensures x / n >= t <==> x >= t * n
  {
    var q := x / n;
    assert x == q * n;
    if q >= t {
      assert (q - t) * n >= 0.0;
    } else {
      assert (t - q) * n > 0.0;
    }
  }

  /** Jaccard confirms when the shared tokens are at least the threshold's part of all tokens. */
  lemma ConfirmsByJaccard(a: Article, b: Article, p: Params, w: World)
    requires p.metric == MetricJaccard
    ensures var ta, tb := if p.titleOnly then a.title else a.both, if p.titleOnly then b.title else b.both;
            Confirms(a, b, p, w) <==>
              && ta != {} && tb != {} && |ta * tb| >= p.minShared
              && !(p.sameSourceGuard && a.source == b.source)
              && |ta * tb| as real >= p.threshold * |ta + tb| as real
  {
    var ta, tb := Field(a, p), Field(b, p);
    if ta != {} && tb != {} {
      SubsetSize(ta, ta + tb);
      Quotient(|ta * tb| as real, |ta + tb| as real, p.threshold);
    }
  }

  /** Overlap does when they are at least that part of the smaller set. */
  lemma ConfirmsByOverlap(a: Article, b: Article, p: Params, w: World)
    requires p.metric == MetricOverlap
    ensures var ta, tb := if p.titleOnly then a.title else a.both, if p.titleOnly then b.title else b.both;
            Confirms(a, b, p, w) <==>
              && ta != {} && tb != {} && |ta * tb| >= p.minShared
              && !(p.sameSourceGuard && a.source == b.source)
              && (|ta * tb| as real >= p.threshold * |ta| as real || |ta * tb| as real >= p.threshold * |tb| as real)
              && (p.threshold < 0.0 ==> |ta * tb| as real >= p.threshold * |ta| as real
                                        && |ta * tb| as real >= p.threshold * |tb| as real)
  {
    var ta, tb := Field(a, p), Field(b, p);
    if ta != {} && tb != {} {
      Quotient(|ta * tb| as real, |ta| as real, p.threshold);
      Quotient(|ta * tb| as real, |tb| as real, p.threshold);
      Scaled(p.threshold, |ta|, |tb|);
    }
  }

  lemma Scaled(t: real, m: nat, n: nat)
    ensures t >= 0.0 && m <= n ==> t * m as real <= t * n as real
    ensures t >= 0.0 && n <= m ==> t * n as real <= t * m as real
  {
    if t >= 0.0 {
      assert t * (n as real - m as real) == t * n as real - t * m as real;
      if m <= n {
        assert t * (n as real - m as real) >= 0.0;
      } else {
        assert t * (m as real - n as real) >= 0.0;
      }
    }
  }

  /** The weighted overlap does when the shared weight is at least that part of the lighter set's
      weight. A weight may be negative; a lighter set of weight zero scores zero. */
  lemma ConfirmsByIdf(a: Article, b: Article, p: Params, w: World)
    requires p.metric == MetricIdfOverlap
    ensures var ta, tb := if p.titleOnly then a.title else a.both, if p.titleOnly then b.title else b.both;
            var wa, wb, shared := w.idfWeight(ta), w.idfWeight(tb), w.idfWeight(ta * tb);
            Confirms(a, b, p, w) <==>
              && ta != {} && tb != {} && |ta * tb| >= p.minShared
              && !(p.sameSourceGuard && a.source == b.source)
              && (wa <= wb && wa > 0.0 ==> shared >= p.threshold * wa)
              && (wb <= wa && wb > 0.0 ==> shared >= p.threshold * wb)
              && (wa <= wb && wa < 0.0 ==> shared <= p.threshold * wa)
              && (wb <= wa && wb < 0.0 ==> shared <= p.threshold * wb)
              && ((wa <= wb && wa == 0.0) || (wb <= wa && wb == 0.0) ==> p.threshold <= 0.0)
  {
    var ta, tb := Field(a, p), Field(b, p);
    var wa, wb, shared := w.idfWeight(ta), w.idfWeight(tb), w.idfWeight(ta * tb);
    var d := if wa <= wb then wa else wb;
    if d > 0.0 {
      Quotient(shared, d, p.threshold);
    } else if d < 0.0 {
      QuotientByNegative(shared, d, p.threshold);
    }
  }

  lemma QuotientByNegative(x: real, n: real, t: real)
    requires n < 0.0
    ensures x / n >= t <==> x <= t * n
  {
    var q := x / n;
    assert x == q * n;
    if q >= t {
      assert (q - t) * n <= 0.0;
    } else {
      assert (t - q) * n < 0.0;
    }
  }

  /** The diagnosis names the first gate that rejects the pair, in the order of the pipeline. */
  lemma DiagnosisNamesTheFirstGate(a: Article, b: Article, p: Params, w: World, common: set<Token>)
    ensures var ta, tb := if p.titleOnly then a.title else a.both, if p.titleOnly then b.title else b.both;
            var shared, reason := ta * tb, Diagnose(a, b, p, w, common);
            var empty := ta == {} || tb == {};
            var missed := p.useBlocking && |shared - common| < p.minShared;
            var outside := p.window.Some? && (a.dt - b.dt > p.window.value || b.dt - a.dt > p.window.value);
            var same := p.sameSourceGuard && a.source == b.source;
            var few := |shared| < p.minShared;
            var clash := p.geoGuard && a.category in w.geo && b.category in w.geo && a.category != b.category;
            && (reason == EmptyTokens <==> empty)
            && (reason == BlockingMissed <==> !empty && missed)
            && (reason == OutsideWindow <==> !empty && !missed && outside)
            && (reason == SameSource <==> !empty && !missed && !outside && same)
            && (reason == TooFewShared <==> !empty && !missed && !outside && !same && few)
            && (reason == GeoGuarded <==> !empty && !missed && !outside && !same && !few && clash)
            && (reason == BelowThreshold <==>
                  !empty && !missed && !outside && !same && !few && !clash && !Confirms(a, b, p, w))
            && (reason == LostToOrdering <==> !missed && !outside && !clash && Confirms(a, b, p, w))
  {
  }
}
