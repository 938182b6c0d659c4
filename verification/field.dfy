/** The whole time field: build the grid, clamp the velocity, and fill every
    cell with its least accepted candidate time or the sentinel. */
module Field {
  import opened Fold
  import opened Grid
  import opened Velocity
  import opened Candidates
  import opened Cell

  /** What the computation returns: the `p` axis, the `q` axis and the field,
      indexed `[j][i]` with `j` the `q` index and `i` the `p` index. */
  datatype TField = TField(ps: seq<real>, qs: seq<real>, field: seq<seq<real>>)

  /** The `n` loop of one cell: every accepted `x = n*L` crossing, in increasing `n`. */
  method HorizontalLoop(cfg: Config, mo: Motion) returns (cands: seq<real>)
    requires Valid(cfg) && Moving(mo)
    ensures cands == HorizontalCandidates(cfg.box, mo, -(cfg.K as int), cfg.K + 1)
  {
    var b := cfg.box;
    cands := [];
    var n := -(cfg.K as int);
    while n <= cfg.K
      invariant -(cfg.K as int) <= n <= cfg.K + 1
      invariant cands == HorizontalCandidates(b, mo, -(cfg.K as int), n)
    {
      HorizontalCandidatesStep(b, mo, -(cfg.K as int), n);
      var th := (n as real * b.L - mo.p) / mo.vx;
      var qAt := mo.q + mo.vy * th;
      HorizontalTest(b, mo, n, th, qAt);
      if th > 0.0 && Abs(Mod(qAt, b.M)) < b.M * b.tol {
        cands := cands + [th];
      }
      n := n + 1;
    }
  }

  /** The `m` loop of one cell: appends every accepted `y = m*M` crossing, in
      increasing `m`, to the list the `n` loop left. */
  method VerticalLoop(cfg: Config, mo: Motion, init: seq<real>) returns (cands: seq<real>)
    requires Valid(cfg) && Moving(mo)
    ensures cands == init + VerticalCandidates(cfg.box, mo, -(cfg.K as int), cfg.K + 1)
  {
    var b := cfg.box;
    cands := init;
    var m := -(cfg.K as int);
    while m <= cfg.K
      invariant -(cfg.K as int) <= m <= cfg.K + 1
      invariant cands == init + VerticalCandidates(b, mo, -(cfg.K as int), m)
    {
      VerticalCandidatesStep(b, mo, -(cfg.K as int), m);
      var tv := (m as real * b.M - mo.q) / mo.vy;
      var pAt := mo.p + mo.vx * tv;
      VerticalTest(b, mo, m, tv, pAt);
      if tv > 0.0 && Abs(Mod(pAt, b.L)) < b.L * b.tol {
        cands := cands + [tv];
      }
      m := m + 1;
    }
  }

  /** One cell, as the source computes it: the `n` loop, then the `m` loop,
      then the least collected time, or the sentinel when none was collected. */
  method CellValue(cfg: Config, mo: Motion) returns (t: real)
    requires Valid(cfg) && Moving(mo)
    ensures t == CellTime(cfg, mo)
    ensures t > 0.0
  {
    var cands := HorizontalLoop(cfg, mo);
    cands := VerticalLoop(cfg, mo, cands);
    if |cands| > 0 {
      t := SeqMin(cands);
    } else {
      t := cfg.sentinel;
    }
  }

  /** `field` has `rows` rows of `cols` entries each. */
  predicate Shaped(field: seq<seq<real>>, rows: nat, cols: nat) {
    |field| == rows && forall j :: 0 <= j < rows ==> |field[j]| == cols
  }

  /** The inner loop over `q` for a fixed column `i`: it fills entry `[j][i]`
      of every row and leaves every other column as it was. */
  method FillColumn(cfg: Config, ps: seq<real>, qs: seq<real>, vx: real, vy: real,
                    field: seq<seq<real>>, i: nat) returns (f: seq<seq<real>>)
    requires Valid(cfg) && vx != 0.0 && vy != 0.0
    requires Shaped(field, |qs|, |ps|) && i < |ps|
    ensures Shaped(f, |qs|, |ps|)
    ensures forall j :: 0 <= j < |qs| ==> f[j][i] == CellTime(cfg, Motion(ps[i], qs[j], vx, vy))
    ensures forall j, k :: 0 <= j < |qs| && 0 <= k < |ps| && k != i ==> f[j][k] == field[j][k]
  {
    f := field;
    var j := 0;
    while j < |qs|
      invariant 0 <= j <= |qs|
      invariant Shaped(f, |qs|, |ps|)
      invariant forall j' :: 0 <= j' < j ==> f[j'][i] == CellTime(cfg, Motion(ps[i], qs[j'], vx, vy))
      invariant forall j', k :: 0 <= j' < |qs| && 0 <= k < |ps| && k != i ==> f[j'][k] == field[j'][k]
    {
      var t := CellValue(cfg, Motion(ps[i], qs[j], vx, vy));
      f := f[j := f[j][i := t]];
      j := j + 1;
    }
  }

  /** `calculate_t_field(res, th)` with the velocity `(vx0, vy0)` given
      directly. A negative resolution is rejected, as the grid builder rejects
      it; otherwise the grid is `res` samples per axis and entry `[j][i]` is the
      cell value for start position `(ps[i], qs[j])` under the clamped velocity. */
  method CalculateTField(cfg: Config, res: int, vx0: real, vy0: real) returns (r: Result<TField>)
    requires Valid(cfg)
    ensures r.Err? <==> res < 0
    ensures r.Ok? ==> r.value.ps == Linspace(0.0, cfg.box.L, res).value
    ensures r.Ok? ==> r.value.qs == Linspace(0.0, cfg.box.M, res).value
    ensures r.Ok? ==> |r.value.field| == res && forall j :: 0 <= j < res ==> |r.value.field[j]| == res
    ensures r.Ok? ==>
      forall j, i :: 0 <= j < res && 0 <= i < res ==>
        r.value.field[j][i] == CellTime(cfg, Motion(r.value.ps[i], r.value.qs[j], Clamp(vx0, cfg.eps), Clamp(vy0, cfg.eps)))
  {
    var gp := Linspace(0.0, cfg.box.L, res);
    var gq := Linspace(0.0, cfg.box.M, res);
    if gp.Err? || gq.Err? {
      return Err("Number of samples must be non-negative");
    }
    var ps, qs := gp.value, gq.value;
    var field := seq(|qs|, _ => seq(|ps|, _ => 0.0));

    var vx, vy := vx0, vy0;
    if Abs(vx) < cfg.eps {
      vx := cfg.eps;
    }
    if Abs(vy) < cfg.eps {
      vy := cfg.eps;
    }

    var i := 0;
    while i < |ps|
      invariant 0 <= i <= |ps|
      invariant Shaped(field, |qs|, |ps|)
      invariant forall j, k :: 0 <= j < |qs| && 0 <= k < i ==>
        field[j][k] == CellTime(cfg, Motion(ps[k], qs[j], vx, vy))
    {
      field := FillColumn(cfg, ps, qs, vx, vy, field, i);
      i := i + 1;
    }
    assert vx == Clamp(vx0, cfg.eps) && vy == Clamp(vy0, cfg.eps);
    r := Ok(TField(ps, qs, field));
  }
}
