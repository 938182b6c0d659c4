/** Candidate corner-alignment times for one start position, by the unfolding
    technique: the reflecting path inside `[0, L] x [0, M]` is a straight line
    through mirrored copies of the rectangle, and a candidate is a time at which
    that line crosses a copy boundary (`x = n*L` or `y = m*M`) while the other
    coordinate, folded back into one copy, is close to a fold line. */
module Candidates {
  import opened Fold

  /** The travel spans `L` and `M` (the logo's corner ranges over `[0, L] x [0, M]`)
      and the alignment tolerance as a fraction of a span. */
  datatype Box = Box(L: real, M: real, tol: real)

  /** The constants of one field computation: the box, the mirror-index bound
      `K` (indices range over `[-K, K]`), the value stored when no candidate
      survives, and the velocity clamp. */
  datatype Config = Config(box: Box, K: nat, sentinel: real, eps: real)

  predicate ValidBox(b: Box) {
    b.L > 0.0 && b.M > 0.0
  }

  predicate Valid(cfg: Config) {
    ValidBox(cfg.box) && cfg.eps > 0.0 && cfg.sentinel > 0.0
  }

  /** A start position `(p, q)` and the (clamped) velocity `(vx, vy)`. */
  datatype Motion = Motion(p: real, q: real, vx: real, vy: real)

  predicate Moving(mo: Motion) {
    mo.vx != 0.0 && mo.vy != 0.0
  }

  /** The alignment test: `abs(x % span) < span * tol`. */
  predicate Aligned(x: real, span: real, tol: real)
    requires span > 0.0
  {
    Abs(Mod(x, span)) < span * tol
  }

  /** Time at which the unfolded path crosses the line `x = n*L`: at that
      time the unfolded `x` is exactly `n*L`. */
  function HorizontalTime(b: Box, mo: Motion, n: int): (t: real)
    requires mo.vx != 0.0
    ensures mo.p + mo.vx * t == n as real * b.L
  {
    (n as real * b.L - mo.p) / mo.vx
  }

  /** Crossing `x = n*L` is kept when it lies strictly in the future and the
      unfolded `y` at that moment, folded by `M`, passes the alignment test. */
  predicate HorizontalAccepts(b: Box, mo: Motion, n: int)
    requires ValidBox(b) && Moving(mo)
  {
    var t := HorizontalTime(b, mo, n);
    t > 0.0 && Aligned(mo.q + mo.vy * t, b.M, b.tol)
  }

  /** The same box and motion with the axes exchanged. */
  function SwapBox(b: Box): (r: Box)
    ensures r.L == b.M && r.M == b.L && r.tol == b.tol
  {
    Box(b.M, b.L, b.tol)
  }

  function SwapMotion(mo: Motion): (r: Motion)
    ensures r.p == mo.q && r.q == mo.p && r.vx == mo.vy && r.vy == mo.vx
  {
    Motion(mo.q, mo.p, mo.vy, mo.vx)
  }

  /** Time at which the unfolded path crosses the line `y = m*M`: the
      horizontal rule with the axes exchanged, `(m*M - q) / vy`. At that time
      the unfolded `y` is exactly `m*M`. */
  function VerticalTime(b: Box, mo: Motion, m: int): (t: real)
    requires mo.vy != 0.0
    ensures mo.q + mo.vy * t == m as real * b.M
  {
    HorizontalTime(SwapBox(b), SwapMotion(mo), m)
  }

  /** Crossing `y = m*M` is kept when it lies strictly in the future and the
      unfolded `x` at that moment, folded by `L`, passes the alignment test. */
  predicate VerticalAccepts(b: Box, mo: Motion, m: int)
    requires ValidBox(b) && Moving(mo)
  {
    HorizontalAccepts(SwapBox(b), SwapMotion(mo), m)
  }

  /** Written out, the vertical rule is the horizontal one with `m`, `M`, `q`,
      `vy` in place of `n`, `L`, `p`, `vx`: the crossing time is
      `(m*M - q) / vy`, and the unfolded `x` at that time is folded by `L`. */
  lemma VerticalRule(b: Box, mo: Motion, m: int)
    requires ValidBox(b) && Moving(mo)
    ensures VerticalTime(b, mo, m) == (m as real * b.M - mo.q) / mo.vy
    ensures VerticalAccepts(b, mo, m) <==>
      var t := VerticalTime(b, mo, m);
      t > 0.0 && Aligned(mo.p + mo.vx * t, b.L, b.tol)
  {
    var b', mo' := SwapBox(b), SwapMotion(mo);
    assert b'.L == b.M && b'.M == b.L && b'.tol == b.tol;
    assert mo'.p == mo.q && mo'.q == mo.p && mo'.vx == mo.vy && mo'.vy == mo.vx;
  }

  /** An accepted crossing lies ahead in the direction of travel: the line
      `x = n*L` (or `y = m*M`) is on the side the velocity component points to. */
  lemma AcceptedLiesAhead(b: Box, mo: Motion, n: int)
    requires ValidBox(b) && Moving(mo)
    ensures HorizontalAccepts(b, mo, n) ==> (mo.vx > 0.0 <==> n as real * b.L > mo.p)
    ensures VerticalAccepts(b, mo, n) ==> (mo.vy > 0.0 <==> n as real * b.M > mo.q)
  {}

  /** `t` is the time of an accepted crossing with a mirror index in `[-K, K]`. */
  ghost predicate Accepted(cfg: Config, mo: Motion, t: real)
    requires Valid(cfg) && Moving(mo)
  {
    || (exists n :: -(cfg.K as int) <= n <= cfg.K && HorizontalAccepts(cfg.box, mo, n) && HorizontalTime(cfg.box, mo, n) == t)
    || (exists m :: -(cfg.K as int) <= m <= cfg.K && VerticalAccepts(cfg.box, mo, m) && VerticalTime(cfg.box, mo, m) == t)
  }

  /** No mirror index in `[-K, K]` yields an accepted crossing, on either axis. */
  predicate NoneAccepted(cfg: Config, mo: Motion)
    requires Valid(cfg) && Moving(mo)
  {
    forall n :: -(cfg.K as int) <= n <= cfg.K ==> !HorizontalAccepts(cfg.box, mo, n) && !VerticalAccepts(cfg.box, mo, n)
  }

  /** The horizontal rule in the loop's own terms: the crossing time `th` and
      the other coordinate `qAt` reached at that time. */
  lemma HorizontalTest(b: Box, mo: Motion, n: int, th: real, qAt: real)
    requires ValidBox(b) && Moving(mo)
    requires th == (n as real * b.L - mo.p) / mo.vx && qAt == mo.q + mo.vy * th
    ensures HorizontalTime(b, mo, n) == th
    ensures HorizontalAccepts(b, mo, n) <==> th > 0.0 && Abs(Mod(qAt, b.M)) < b.M * b.tol
  {
    var t := HorizontalTime(b, mo, n);
    assert t == th;
    assert mo.q + mo.vy * t == qAt;
    assert HorizontalAccepts(b, mo, n) == (th > 0.0 && Aligned(qAt, b.M, b.tol));
  }

  /** The vertical rule in the loop's own terms. */
  lemma VerticalTest(b: Box, mo: Motion, m: int, tv: real, pAt: real)
    requires ValidBox(b) && Moving(mo)
    requires tv == (m as real * b.M - mo.q) / mo.vy && pAt == mo.p + mo.vx * tv
    ensures VerticalTime(b, mo, m) == tv
    ensures VerticalAccepts(b, mo, m) <==> tv > 0.0 && Abs(Mod(pAt, b.L)) < b.L * b.tol
  {
    HorizontalTest(SwapBox(b), SwapMotion(mo), m, tv, pAt);
  }

  /** The accepted `x = n*L` crossings for `lo <= n < hi`, in increasing `n`,
      as the loop appends them. */
  function HorizontalCandidates(b: Box, mo: Motion, lo: int, hi: int): (r: seq<real>)
    requires ValidBox(b) && Moving(mo)
    decreases hi - lo
    ensures |r| <= if lo <= hi then hi - lo else 0
  {
    if hi <= lo then []
    else
      HorizontalCandidates(b, mo, lo, hi - 1)
      + (if HorizontalAccepts(b, mo, hi - 1) then [HorizontalTime(b, mo, hi - 1)] else [])
  }

  /** The accepted `y = m*M` crossings for `lo <= m < hi`, in increasing `m`. */
  function VerticalCandidates(b: Box, mo: Motion, lo: int, hi: int): (r: seq<real>)
    requires ValidBox(b) && Moving(mo)
    decreases hi - lo
    ensures |r| <= if lo <= hi then hi - lo else 0
  {
    if hi <= lo then []
    else
      VerticalCandidates(b, mo, lo, hi - 1)
      + (if VerticalAccepts(b, mo, hi - 1) then [VerticalTime(b, mo, hi - 1)] else [])
  }

  /** The `n` list holds exactly the times of the accepted crossings with an
      index in `[lo, hi)`, and all of them are strictly positive. */
  lemma {:induction false} HorizontalCandidatesMembers(b: Box, mo: Motion, lo: int, hi: int)
    requires ValidBox(b) && Moving(mo)
    decreases hi - lo
    ensures forall t :: t in HorizontalCandidates(b, mo, lo, hi) ==> t > 0.0
    ensures forall t :: t in HorizontalCandidates(b, mo, lo, hi) <==>
      exists n :: lo <= n < hi && HorizontalAccepts(b, mo, n) && HorizontalTime(b, mo, n) == t
  {
    if lo < hi {
      HorizontalCandidatesMembers(b, mo, lo, hi - 1);
    }
  }

  lemma {:induction false} VerticalCandidatesMembers(b: Box, mo: Motion, lo: int, hi: int)
    requires ValidBox(b) && Moving(mo)
    decreases hi - lo
    ensures forall t :: t in VerticalCandidates(b, mo, lo, hi) ==> t > 0.0
    ensures forall t :: t in VerticalCandidates(b, mo, lo, hi) <==>
      exists m :: lo <= m < hi && VerticalAccepts(b, mo, m) && VerticalTime(b, mo, m) == t
  {
    if lo < hi {
      VerticalCandidatesMembers(b, mo, lo, hi - 1);
    }
  }

  /** Extending the index range by one appends that index's crossing, if accepted. */
  lemma HorizontalCandidatesStep(b: Box, mo: Motion, lo: int, hi: int)
    requires ValidBox(b) && Moving(mo) && lo <= hi
    ensures HorizontalCandidates(b, mo, lo, hi + 1)
      == HorizontalCandidates(b, mo, lo, hi)
         + (if HorizontalAccepts(b, mo, hi) then [HorizontalTime(b, mo, hi)] else [])
  {}

  lemma VerticalCandidatesStep(b: Box, mo: Motion, lo: int, hi: int)
    requires ValidBox(b) && Moving(mo) && lo <= hi
    ensures VerticalCandidates(b, mo, lo, hi + 1)
      == VerticalCandidates(b, mo, lo, hi)
         + (if VerticalAccepts(b, mo, hi) then [VerticalTime(b, mo, hi)] else [])
  {}

  /** The full candidate list of one cell: the `n` loop, then the `m` loop. */
  function CellCandidates(cfg: Config, mo: Motion): (r: seq<real>)
    requires Valid(cfg) && Moving(mo)
    ensures |r| <= 2 * (2 * cfg.K + 1)
  {
    HorizontalCandidates(cfg.box, mo, -(cfg.K as int), cfg.K + 1)
    + VerticalCandidates(cfg.box, mo, -(cfg.K as int), cfg.K + 1)
  }

  /** The cell's list holds exactly the accepted times, all strictly positive,
      and it is empty exactly when no mirror index yields an accepted crossing. */
  lemma CellCandidatesMembers(cfg: Config, mo: Motion)
    requires Valid(cfg) && Moving(mo)
    ensures forall t :: t in CellCandidates(cfg, mo) ==> t > 0.0
    ensures forall t :: t in CellCandidates(cfg, mo) <==> Accepted(cfg, mo, t)
    ensures |CellCandidates(cfg, mo)| == 0 <==> NoneAccepted(cfg, mo)
  {
    var lo, hi := -(cfg.K as int), cfg.K + 1;
    var r := CellCandidates(cfg, mo);
    HorizontalCandidatesMembers(cfg.box, mo, lo, hi);
    VerticalCandidatesMembers(cfg.box, mo, lo, hi);
    if !NoneAccepted(cfg, mo) {
      var n :| lo <= n < hi && (HorizontalAccepts(cfg.box, mo, n) || VerticalAccepts(cfg.box, mo, n));
      if HorizontalAccepts(cfg.box, mo, n) {
        assert HorizontalTime(cfg.box, mo, n) in r;
      } else {
        assert VerticalTime(cfg.box, mo, n) in r;
      }
    }
    if |r| > 0 {
      assert r[0] in r;
    }
  }

  /** Within one copy `[k*span, (k+1)*span)` the alignment test accepts exactly
      the band of width `span * tol` just above the fold line `k*span`. */
  lemma AlignedIsLowerBand(x: real, span: real, tol: real, k: int)
    requires span > 0.0
    requires k as real * span <= x < k as real * span + span
    ensures Aligned(x, span, tol) <==> x < k as real * span + span * tol
  {
    ModUnique(x, span, k);
  }

  /** A folded coordinate just below a fold line is rejected, however close it
      is: the test only sees the fold line below, never the one above. */
  lemma AlignedMissesUpperSide(x: real, span: real, tol: real, k: int)
    requires span > 0.0 && 0.0 < tol <= 0.5
    requires k as real * span - span * tol < x < k as real * span
    ensures !Aligned(x, span, tol)
  {
    UpperSideBracket(x, span, tol, k);
    AlignedIsLowerBand(x, span, tol, k - 1);
  }

  lemma UpperSideBracket(x: real, span: real, tol: real, k: int)
    requires span > 0.0 && 0.0 < tol <= 0.5
    requires k as real * span - span * tol < x < k as real * span
    ensures (k - 1) as real * span <= x < (k - 1) as real * span + span
    ensures (k - 1) as real * span + span * tol <= x
  {
    var a := k as real * span;
    assert (k - 1) as real * span == a - span;
    ScaleLe(span, tol, 0.5);
  }

  lemma CrossingsSwapAxes(b: Box, mo: Motion, n: int)
    requires ValidBox(b) && Moving(mo)
    ensures HorizontalTime(SwapBox(b), SwapMotion(mo), n) == VerticalTime(b, mo, n)
    ensures HorizontalAccepts(SwapBox(b), SwapMotion(mo), n) <==> VerticalAccepts(b, mo, n)
    ensures VerticalTime(SwapBox(b), SwapMotion(mo), n) == HorizontalTime(b, mo, n)
    ensures VerticalAccepts(SwapBox(b), SwapMotion(mo), n) <==> HorizontalAccepts(b, mo, n)
  {
    assert SwapBox(SwapBox(b)) == b;
    assert SwapMotion(SwapMotion(mo)) == mo;
  }

  lemma AcceptedSwapAxes(cfg: Config, mo: Motion, t: real)
    requires Valid(cfg) && Moving(mo)
    ensures Accepted(cfg.(box := SwapBox(cfg.box)), SwapMotion(mo), t) <==> Accepted(cfg, mo, t)
  {
    forall n
      ensures HorizontalTime(SwapBox(cfg.box), SwapMotion(mo), n) == VerticalTime(cfg.box, mo, n)
      ensures HorizontalAccepts(SwapBox(cfg.box), SwapMotion(mo), n) <==> VerticalAccepts(cfg.box, mo, n)
      ensures VerticalTime(SwapBox(cfg.box), SwapMotion(mo), n) == HorizontalTime(cfg.box, mo, n)
      ensures VerticalAccepts(SwapBox(cfg.box), SwapMotion(mo), n) <==> HorizontalAccepts(cfg.box, mo, n)
    {
      CrossingsSwapAxes(cfg.box, mo, n);
    }
  }

  /** A deeper mirror-index search keeps every candidate of a shallower one. */
  lemma AcceptedGrowsWithDepth(cfg: Config, deeper: nat, mo: Motion, t: real)
    requires Valid(cfg) && Moving(mo) && cfg.K <= deeper
    requires Accepted(cfg, mo, t)
    ensures Accepted(cfg.(K := deeper), mo, t)
  {
    var cfg' := cfg.(K := deeper);
    if n :| -(cfg.K as int) <= n <= cfg.K && HorizontalAccepts(cfg.box, mo, n) && HorizontalTime(cfg.box, mo, n) == t {
      assert HorizontalAccepts(cfg'.box, mo, n) && HorizontalTime(cfg'.box, mo, n) == t;
    } else {
      var m :| -(cfg.K as int) <= m <= cfg.K && VerticalAccepts(cfg.box, mo, m) && VerticalTime(cfg.box, mo, m) == t;
      assert VerticalAccepts(cfg'.box, mo, m) && VerticalTime(cfg'.box, mo, m) == t;
    }
  }
}
