/** The value stored for one grid cell: the smallest accepted candidate time,
    or the sentinel when no candidate survives. */
module Cell {
  import opened Candidates

  /** Python's `min` of a non-empty list. */
  function SeqMin(s: seq<real>): (r: real)
    requires |s| > 0
    ensures r in s
    ensures forall x :: x in s ==> r <= x
  {
    if |s| == 1 then s[0]
    else
      var rest := SeqMin(s[1..]);
      assert s == [s[0]] + s[1..];
      if s[0] <= rest then s[0] else rest
  }

  /** The minimum over a list that contains every element of another is no
      larger than the minimum of that other list. */
  lemma SeqMinAntitone(s: seq<real>, s': seq<real>)
    requires |s| > 0
    requires forall x :: x in s ==> x in s'
    ensures |s'| > 0
    ensures SeqMin(s') <= SeqMin(s)
  {
    assert SeqMin(s) in s';
  }

  /** The entry of the time field for one start position and velocity. */
  function CellTime(cfg: Config, mo: Motion): (r: real)
    requires Valid(cfg) && Moving(mo)
    ensures r > 0.0
  {
    var cands := CellCandidates(cfg, mo);
    CellCandidatesMembers(cfg, mo);
    if |cands| > 0 then SeqMin(cands) else cfg.sentinel
  }

  /** The entry is the sentinel when no crossing survives; otherwise it is an
      accepted time and no accepted time is smaller. */
  lemma CellTimeIsLeastAccepted(cfg: Config, mo: Motion)
    requires Valid(cfg) && Moving(mo)
    ensures NoneAccepted(cfg, mo) ==> CellTime(cfg, mo) == cfg.sentinel
    ensures !NoneAccepted(cfg, mo) ==> Accepted(cfg, mo, CellTime(cfg, mo))
    ensures forall t :: Accepted(cfg, mo, t) ==> CellTime(cfg, mo) <= t
  {
    CellCandidatesMembers(cfg, mo);
  }

  /** The entry depends on the start position only through its set of accepted
      times (and the sentinel): two cells with the same accepted times hold the
      same value, whatever order the loops produced them in. */
  lemma CellTimeDeterminedByAccepted(cfg: Config, mo: Motion, cfg': Config, mo': Motion)
    requires Valid(cfg) && Moving(mo) && Valid(cfg') && Moving(mo')
    requires cfg.sentinel == cfg'.sentinel
    requires forall t :: Accepted(cfg, mo, t) <==> Accepted(cfg', mo', t)
    ensures CellTime(cfg, mo) == CellTime(cfg', mo')
  {
    CellTimeIsLeastAccepted(cfg, mo);
    CellTimeIsLeastAccepted(cfg', mo');
    CellCandidatesMembers(cfg, mo);
    CellCandidatesMembers(cfg', mo');
    var r, r' := CellTime(cfg, mo), CellTime(cfg', mo');
    if !NoneAccepted(cfg, mo) {
      assert Accepted(cfg', mo', r);
    }
    if !NoneAccepted(cfg', mo') {
      assert Accepted(cfg, mo, r');
    }
  }

  /** The sentinel marks exactly the cells where nothing survived, as long as
      the sentinel is not itself one of the accepted times. */
  lemma SentinelIffNoneAccepted(cfg: Config, mo: Motion)
    requires Valid(cfg) && Moving(mo)
    requires !Accepted(cfg, mo, cfg.sentinel)
    ensures CellTime(cfg, mo) == cfg.sentinel <==> NoneAccepted(cfg, mo)
  {
    CellTimeIsLeastAccepted(cfg, mo);
  }

  /** Exchanging the axes of the box, the start position and the velocity leaves
      the entry unchanged. */
  lemma CellTimeSwapAxes(cfg: Config, mo: Motion)
    requires Valid(cfg) && Moving(mo)
    ensures CellTime(cfg.(box := SwapBox(cfg.box)), SwapMotion(mo)) == CellTime(cfg, mo)
  {
    var cfg' := cfg.(box := SwapBox(cfg.box));
    forall t
      ensures Accepted(cfg, mo, t) <==> Accepted(cfg', SwapMotion(mo), t)
    {
      AcceptedSwapAxes(cfg, mo, t);
    }
    CellTimeDeterminedByAccepted(cfg, mo, cfg', SwapMotion(mo));
  }

  /** In a square box, swapping the velocity components transposes the field:
      the entry at `(p, q)` under `(vx, vy)` is the entry at `(q, p)` under
      `(vy, vx)`. */
  lemma CellTimeTransposeSquare(cfg: Config, p: real, q: real, vx: real, vy: real)
    requires Valid(cfg) && vx != 0.0 && vy != 0.0
    requires cfg.box.L == cfg.box.M
    ensures CellTime(cfg, Motion(q, p, vy, vx)) == CellTime(cfg, Motion(p, q, vx, vy))
  {
    CellTimeSwapAxes(cfg, Motion(p, q, vx, vy));
    assert cfg.(box := SwapBox(cfg.box)) == cfg;
  }

  /** Searching more mirror indices never raises an entry that already holds a
      found time: the minimum is taken over a larger set. */
  lemma DeeperSearchNeverRaisesFoundTime(cfg: Config, deeper: nat, mo: Motion)
    requires Valid(cfg) && Moving(mo) && cfg.K <= deeper
    requires !NoneAccepted(cfg, mo)
    ensures CellTime(cfg.(K := deeper), mo) <= CellTime(cfg, mo)
  {
    var r := CellTime(cfg, mo);
    CellTimeIsLeastAccepted(cfg, mo);
    CellTimeIsLeastAccepted(cfg.(K := deeper), mo);
    AcceptedGrowsWithDepth(cfg, deeper, mo, r);
  }

  /** The sentinel is not a cap: when some candidate survives and every accepted
      time exceeds a bound, the entry exceeds it too. */
  lemma FoundTimeNotCapped(cfg: Config, mo: Motion, bound: real)
    requires Valid(cfg) && Moving(mo)
    requires !NoneAccepted(cfg, mo)
    requires forall t :: Accepted(cfg, mo, t) ==> t > bound
    ensures CellTime(cfg, mo) > bound
  {
    CellTimeIsLeastAccepted(cfg, mo);
  }
}
