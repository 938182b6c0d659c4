/** The application's fixed setting: a 1920 x 1080 screen, a 300 x 200 logo
    moving at speed 500, mirror indices `-5 .. 5`, a 2% alignment band and
    5000 for cells where no candidate survives. The lemmas work one cell of
    the launch angle `theta = pi/2` through by hand. They take the
    configuration and the cell as parameters pinned by `requires` rather than
    mentioning `AppConfig()` and the literal cell directly: with literal
    arguments the verifier would try to unfold the recursive `Mod` all the way
    down a remainder of some 460 million spans. */
module DvdApp {
  import opened Fold
  import opened Velocity
  import opened Candidates
  import opened Cell
  import Grid

  const ScreenWidth: real := 1920.0
  const ScreenHeight: real := 1080.0
  const LogoWidth: real := 300.0
  const LogoHeight: real := 200.0
  const Speed: real := 500.0

  /** The mirror-index bound of both candidate loops. */
  const Depth: nat := 5
  /** The alignment band, as a fraction of the span. */
  const Tolerance: real := 0.02
  /** The value stored for a cell with no candidate. */
  const Unreachable: real := 5000.0
  /** The velocity clamp `1e-6`. */
  const ClampFloor: real := 0.000001

  /** The box and the loop constants of the application. */
  function AppConfig(): (cfg: Config)
    ensures Valid(cfg)
    ensures cfg.box.L == 1620.0 && cfg.box.M == 880.0
  {
    Config(Box(ScreenWidth - LogoWidth, ScreenHeight - LogoHeight, Tolerance), Depth, Unreachable, ClampFloor)
  }

  /** With 23 samples per axis the grids contain the worked cell below:
      `p = 810` at index 11 and `q = 240` at index 6. */
  lemma ExampleCellOnGrid(cfg: Config)
    requires cfg == AppConfig()
    ensures Grid.Linspace(0.0, cfg.box.L, 23).Ok?
    ensures Grid.Linspace(0.0, cfg.box.L, 23).value[11] == 810.0
    ensures Grid.Linspace(0.0, cfg.box.M, 23).value[6] == 240.0
  {}

  /** Launched straight up (`cos theta = 0`, `sin theta = 1`), the horizontal
      component is clamped to `+1e-6` and the vertical one is kept. */
  lemma StraightUpVelocity(eps: real)
    requires eps == ClampFloor
    ensures ClampVelocity(0.0, Speed, eps) == (ClampFloor, Speed)
  {}

  /** With that velocity the cell `p = 810`, `q = 240` (the middle of the `p`
      range, a grid point for `res = 23` but for none of the resolutions 50,
      100, 150 and 200 the page offers) has exactly one kind of survivor: the `x = 1620` crossing at time
      `810 / 1e-6`, where `q` has wrapped round the `880` span a whole number of
      times. Every `y = m*880` crossing comes within a few seconds, while `p` is
      still near `810`, far from both fold lines, and is rejected. So the
      stored entry is `810000000`, far above the 5000 used for unreachable
      cells. */
  lemma StraightUpCellIsFoundLate(cfg: Config, mo: Motion)
    requires cfg == AppConfig()
    requires mo == Motion(810.0, 240.0, ClampFloor, Speed)
    ensures !NoneAccepted(cfg, mo)
    ensures CellTime(cfg, mo) == 810000000.0
    ensures CellTime(cfg, mo) > cfg.sentinel
  {
    StraightUpFirstCrossing(cfg, mo);
    assert Accepted(cfg, mo, 810000000.0);
    CellTimeIsLeastAccepted(cfg, mo);
    StraightUpAcceptedIsLate(cfg, mo, CellTime(cfg, mo));
  }

  /** The crossing of `x = 1620` at time `810 / 1e-6` survives: by then `q` has
      grown to `240 + 500 * 810000000`, which is `460227273` whole spans of 880. */
  lemma StraightUpFirstCrossing(cfg: Config, mo: Motion)
    requires cfg == AppConfig()
    requires mo == Motion(810.0, 240.0, ClampFloor, Speed)
    ensures HorizontalAccepts(cfg.box, mo, 1)
    ensures HorizontalTime(cfg.box, mo, 1) == 810000000.0
  {
    var b := cfg.box;
    HorizontalTest(b, mo, 1, 810000000.0, 405000000240.0);
    ModOfMultiple(b.M, 460227273);
  }

  /** Every accepted time of the straight-up cell is at least `810000000`. */
  lemma StraightUpAcceptedIsLate(cfg: Config, mo: Motion, t: real)
    requires cfg == AppConfig()
    requires mo == Motion(810.0, 240.0, ClampFloor, Speed)
    requires Accepted(cfg, mo, t)
    ensures t >= 810000000.0
  {
    var b := cfg.box;
    forall m | -(cfg.K as int) <= m <= cfg.K
      ensures !VerticalAccepts(b, mo, m)
    {
      StraightUpRejectsVertical(cfg, mo, m);
    }
    var n :| -(cfg.K as int) <= n <= cfg.K && HorizontalAccepts(b, mo, n) && HorizontalTime(b, mo, n) == t;
    StraightUpHorizontalIsLate(cfg, mo, n);
  }

  /** A `y = m*M` crossing of the straight-up cell is rejected: if it lies
      ahead at all, `p` has moved by less than a thousandth by then. */
  lemma StraightUpRejectsVertical(cfg: Config, mo: Motion, m: int)
    requires cfg == AppConfig()
    requires mo == Motion(810.0, 240.0, ClampFloor, Speed)
    requires -(cfg.K as int) <= m <= cfg.K
    ensures !VerticalAccepts(cfg.box, mo, m)
  {
    var b := cfg.box;
    var tv := (m as real * b.M - mo.q) / mo.vy;
    var pAt := mo.p + mo.vx * tv;
    VerticalTest(b, mo, m, tv, pAt);
    if tv > 0.0 {
      assert tv <= 10.0;
      assert 810.0 <= pAt < 811.0;
      ModUnique(pAt, b.L, 0);
    }
  }

  /** A `x = n*L` crossing of the straight-up cell that lies ahead comes no
      earlier than `n = 1`. */
  lemma StraightUpHorizontalIsLate(cfg: Config, mo: Motion, n: int)
    requires cfg == AppConfig()
    requires mo == Motion(810.0, 240.0, ClampFloor, Speed)
    requires HorizontalAccepts(cfg.box, mo, n)
    ensures HorizontalTime(cfg.box, mo, n) >= 810000000.0
  {
    var b := cfg.box;
    var th := (n as real * b.L - mo.p) / mo.vx;
    HorizontalTest(b, mo, n, th, mo.q + mo.vy * th);
    assert n >= 1;
    assert n as real * b.L - mo.p >= 810.0;
  }

  /** Searching only `n = m = 0` the same cell has no candidate and stores the
      sentinel, so the deeper search of the application raises the entry from
      5000 to 810000000: more mirror indices can turn an "unreachable" cell
      into one with a very large time. */
  lemma DeeperSearchRaisesSentinelCell(cfg: Config, mo: Motion)
    requires cfg == AppConfig()
    requires mo == Motion(810.0, 240.0, ClampFloor, Speed)
    ensures NoneAccepted(cfg.(K := 0), mo)
    ensures CellTime(cfg.(K := 0), mo) == Unreachable
    ensures CellTime(cfg, mo) > CellTime(cfg.(K := 0), mo)
  {
    var shallow := cfg.(K := 0);
    HorizontalTest(shallow.box, mo, 0, -810000000.0, mo.q + mo.vy * -810000000.0);
    VerticalTest(shallow.box, mo, 0, -0.48, mo.p + mo.vx * -0.48);
    assert NoneAccepted(shallow, mo);
    CellTimeIsLeastAccepted(shallow, mo);
    StraightUpCellIsFoundLate(cfg, mo);
  }
}
