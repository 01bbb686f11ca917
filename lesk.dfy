/**
 * The Lesk elimination loop `DoLesk` (src/matchpatch.c:588-685,
 * match.c:561-639) and the best-match selection of `PrintResults` and
 * `PrintBestMatch` (src/matchpatch.c:783-836, match.c:735-787).
 */
module Lesk {
  import opened Common
  import opened CStrings
  import opened Bitstrings
  import opened Signatures
  import opened SignatureFacts
  import opened Trim

  const MAXITER: nat := 100

  /**
   * The engine variant: where properties come from, the accuracy threshold
   * `gAccuracy`, and whether reaching `MAXITER` prints nothing
   * (src/matchpatch.c) or the last iteration's matches (match.c).
   */
  datatype Config = Config(src: PropertySource, accuracy: real, abortAtMaxIter: bool)

  /** A reported line: pattern residue and the structure residue it matches. */
  datatype Pairing = Pairing(patResnam: seq<char>, patResid: seq<char>, strucResnam: seq<char>, strucResid: seq<char>)

  /** The trimmed atom lists of one iteration. */
  datatype Round = Round(pat: seq<Atom>, struc: seq<Atom>)

  /** How the loop ends: converged or not, at which iteration, with which atoms and records. */
  datatype LeskEnd = LeskEnd(converged: bool, iterations: nat, round: Round, struc: seq<Record>)

  /** Equal properties (`strncmp`) and `!Compare` on the bitstrings, in that argument order. */
  predicate Compatible(a: Atom, b: Atom, cfg: Config)
    requires |a.dist| == MAXDIST && |b.dist| == MAXDIST
  {
    StrNEqual(a.properties, b.properties, PropertyWidth(cfg.src)) && Matches(a.dist, b.dist, MAXDIST, cfg.accuracy)
  }

  /** A structure atom survives when some pattern atom is compatible with it. */
  predicate Survives(s: Atom, pats: seq<Atom>, cfg: Config)
    requires |s.dist| == MAXDIST && Sized(pats)
  {
    exists k :: 0 <= k < |pats| && Compatible(s, pats[k], cfg)
  }

  /** The residues of the first `n` structure atoms that do not survive. */
  function DoomedAmong(strucs: seq<Atom>, pats: seq<Atom>, cfg: Config, n: nat): set<seq<char>>
    requires Sized(strucs) && Sized(pats) && n <= |strucs|
  {
    if n == 0 then {}
    else DoomedAmong(strucs, pats, cfg, n - 1)
         + (if Survives(strucs[n - 1], pats, cfg) then {} else {strucs[n - 1].resid})
  }

  /** The residues one iteration kills. */
  function Doomed(r: Round, cfg: Config): set<seq<char>>
    requires Sized(r.pat) && Sized(r.struc)
  {
    DoomedAmong(r.struc, r.pat, cfg, |r.struc|)
  }

  predicate Inputs(pat: seq<Record>, struc: seq<Record>, cfg: Config)
  {
    ValidSource(cfg.src) && WellFormedRecords(pat, cfg.src) && WellFormedRecords(struc, cfg.src)
  }

  /** Both sides' signatures built from the current records and trimmed against each other. */
  function RoundOf(pat: seq<Record>, struc: seq<Record>, cfg: Config, invert: bool): (r: Round)
    requires Inputs(pat, struc, cfg)
    ensures Sized(r.pat) && Sized(r.struc)
    ensures |r.pat| == |Build(pat, cfg.src, invert)| && |r.struc| == |Build(struc, cfg.src, false)|
  {
    var p := Build(pat, cfg.src, invert);
    var s := Build(struc, cfg.src, false);
    Round(TrimSide(p, s), TrimSide(s, p))
  }

  /** The structure records after one iteration's kills. */
  function Next(pat: seq<Record>, struc: seq<Record>, cfg: Config, invert: bool): (next: seq<Record>)
    requires Inputs(pat, struc, cfg)
    ensures Inputs(pat, next, cfg)
  {
    var r := RoundOf(pat, struc, cfg, invert);
    EliminateKillsOnly(struc, Doomed(r, cfg), cfg.src);
    Eliminate(struc, Doomed(r, cfg))
  }

  /**
   * The loop from iteration `i` on, with the previous iteration's atom counts
   * and trimmed atoms.
   */
  function LeskRun(pat: seq<Record>, struc: seq<Record>, cfg: Config, invert: bool,
                   prevPat: nat, prevStruc: nat, i: nat, last: Round): (e: LeskEnd)
    requires Inputs(pat, struc, cfg) && i <= MAXITER && Sized(last.pat) && Sized(last.struc)
    ensures Sized(e.round.pat) && Sized(e.round.struc)
    decreases MAXITER - i
  {
    if i == MAXITER then LeskEnd(false, i, last, struc)
    else
      var r := RoundOf(pat, struc, cfg, invert);
      if |r.pat| == prevPat && |r.struc| == prevStruc then LeskEnd(true, i, r, struc)
      else LeskRun(pat, Next(pat, struc, cfg, invert), cfg, invert, |r.pat|, |r.struc|, i + 1, r)
  }

  /** The whole loop, started with counts (0, 0). */
  function Final(pat: seq<Record>, struc: seq<Record>, cfg: Config, invert: bool): LeskEnd
    requires Inputs(pat, struc, cfg)
  {
    LeskRun(pat, struc, cfg, invert, 0, 0, 0, Round([], []))
  }

  /**
   * `PrintBestMatch`'s loop after the first `n` structure atoms: the best
   * index so far and `BestScore`.
   */
  function BestScan(p: Atom, strucs: seq<Atom>, cfg: Config, n: nat): (best: (int, real))
    requires |p.dist| == MAXDIST && Sized(strucs) && n <= |strucs|
    ensures -1 <= best.0 < n
  {
    if n == 0 then (-1, 0.0)
    else
      var prev := BestScan(p, strucs, cfg, n - 1);
      var a := strucs[n - 1];
      if Compatible(p, a, cfg) && Score(p.dist, a.dist, MAXDIST).value > prev.1
      then (n - 1, Score(p.dist, a.dist, MAXDIST).value)
      else prev
  }

  /** The structure atom `PrintBestMatch` reports for `p`, or -1. */
  function BestMatchIndex(p: Atom, strucs: seq<Atom>, cfg: Config): int
    requires |p.dist| == MAXDIST && Sized(strucs)
  {
    BestScan(p, strucs, cfg, |strucs|).0
  }

  /** The score of a compatible pair (defined, because compatible pairs match). */
  function PairScore(p: Atom, s: Atom, cfg: Config): real
    requires |p.dist| == MAXDIST && |s.dist| == MAXDIST && Compatible(p, s, cfg)
  {
    Score(p.dist, s.dist, MAXDIST).value
  }

  /** The line `PrintBestMatch` prints for pattern atom `p`, if any. */
  function MatchLine(p: Atom, strucs: seq<Atom>, cfg: Config): Option<Pairing>
    requires |p.dist| == MAXDIST && Sized(strucs)
  {
    var b := BestMatchIndex(p, strucs, cfg);
    if b < 0 then None else Some(Pairing(p.resnam, p.resid, strucs[b].resnam, strucs[b].resid))
  }

  /** The lines `PrintResults` prints: one per pattern atom that has a best match, in order. */
  function Report(pats: seq<Atom>, strucs: seq<Atom>, cfg: Config): (lines: seq<Pairing>)
    requires Sized(pats) && Sized(strucs)
    ensures |lines| <= |pats|
  {
    if |pats| == 0 then []
    else
      var line := MatchLine(pats[|pats| - 1], strucs, cfg);
      Report(pats[..|pats| - 1], strucs, cfg) + (if line.Some? then [line.value] else [])
  }

  /** What `DoLesk` prints: nothing after an abort at `MAXITER`, otherwise the report. */
  function Outcome(pat: seq<Record>, struc: seq<Record>, cfg: Config, invert: bool): (out: Option<seq<Pairing>>)
    requires Inputs(pat, struc, cfg)
    ensures out.None? <==> cfg.abortAtMaxIter && !Final(pat, struc, cfg, invert).converged
  {
    var e := Final(pat, struc, cfg, invert);
    if cfg.abortAtMaxIter && !e.converged then None else Some(Report(e.round.pat, e.round.struc, cfg))
  }

  // ---------------------------------------------------------------------
  // Properties of the selection

  /** The loop invariant of `PrintBestMatch`'s scan. */
  lemma {:induction false} BestScanSpec(p: Atom, strucs: seq<Atom>, cfg: Config, n: nat)
    requires |p.dist| == MAXDIST && Sized(strucs) && n <= |strucs|
    ensures var best := BestScan(p, strucs, cfg, n);
      && (best.0 == -1 ==> best.1 == 0.0)
      && (best.0 >= 0 ==> Compatible(p, strucs[best.0], cfg) && best.1 == PairScore(p, strucs[best.0], cfg)
                          && best.1 > 0.0)
      && (forall j :: 0 <= j < n && Compatible(p, strucs[j], cfg) ==> PairScore(p, strucs[j], cfg) <= best.1)
      && (forall j :: 0 <= j < best.0 && Compatible(p, strucs[j], cfg) ==> PairScore(p, strucs[j], cfg) < best.1)
  {
    if n > 0 {
      BestScanSpec(p, strucs, cfg, n - 1);
    }
  }

  /**
   * `PrintBestMatch` chooses a qualifying structure atom with the strictly
   * greatest score, the first one on ties, and chooses none exactly when no
   * qualifying atom scores above 0.
   */
  lemma BestMatchSpec(p: Atom, strucs: seq<Atom>, cfg: Config)
    requires |p.dist| == MAXDIST && Sized(strucs)
    ensures var b := BestMatchIndex(p, strucs, cfg);
      && -1 <= b < |strucs|
      && (b == -1 <==> forall j :: 0 <= j < |strucs| && Compatible(p, strucs[j], cfg) ==> PairScore(p, strucs[j], cfg) <= 0.0)
      && (b >= 0 ==>
            && Compatible(p, strucs[b], cfg) && PairScore(p, strucs[b], cfg) > 0.0
            && (forall j :: 0 <= j < |strucs| && Compatible(p, strucs[j], cfg) ==>
                  PairScore(p, strucs[j], cfg) <= PairScore(p, strucs[b], cfg))
            && (forall j :: 0 <= j < b && Compatible(p, strucs[j], cfg) ==>
                  PairScore(p, strucs[j], cfg) < PairScore(p, strucs[b], cfg)))
  {
    BestScanSpec(p, strucs, cfg, |strucs|);
  }

  /** Each reported line comes from a pattern atom and its best match, and every best match is reported. */
  lemma ReportSpec(pats: seq<Atom>, strucs: seq<Atom>, cfg: Config)
    requires Sized(pats) && Sized(strucs)
    ensures forall q :: q in Report(pats, strucs, cfg) <==>
              exists i :: 0 <= i < |pats| && MatchLine(pats[i], strucs, cfg) == Some(q)
  {
    forall q | q in Report(pats, strucs, cfg)
      ensures exists i :: 0 <= i < |pats| && MatchLine(pats[i], strucs, cfg) == Some(q)
    {
      ReportSound(pats, strucs, cfg, q);
    }
    forall i | 0 <= i < |pats| && MatchLine(pats[i], strucs, cfg).Some?
      ensures MatchLine(pats[i], strucs, cfg).value in Report(pats, strucs, cfg)
    {
      ReportComplete(pats, strucs, cfg, i);
    }
  }

  /** A reported line is the best match of some pattern atom. */
  lemma {:induction false} ReportSound(pats: seq<Atom>, strucs: seq<Atom>, cfg: Config, q: Pairing)
    requires Sized(pats) && Sized(strucs) && q in Report(pats, strucs, cfg)
    ensures exists i :: 0 <= i < |pats| && MatchLine(pats[i], strucs, cfg) == Some(q)
  {
    var init := pats[..|pats| - 1];
    var line := MatchLine(pats[|pats| - 1], strucs, cfg);
    assert Report(pats, strucs, cfg) == Report(init, strucs, cfg) + (if line.Some? then [line.value] else []);
    if q in Report(init, strucs, cfg) {
      ReportSound(init, strucs, cfg, q);
      var i :| 0 <= i < |init| && MatchLine(init[i], strucs, cfg) == Some(q);
      assert pats[i] == init[i];
    } else {
      assert MatchLine(pats[|pats| - 1], strucs, cfg) == Some(q);
    }
  }

  /** The best match of every pattern atom that has one is reported. */
  lemma {:induction false} ReportComplete(pats: seq<Atom>, strucs: seq<Atom>, cfg: Config, i: nat)
    requires Sized(pats) && Sized(strucs) && i < |pats| && MatchLine(pats[i], strucs, cfg).Some?
    ensures MatchLine(pats[i], strucs, cfg).value in Report(pats, strucs, cfg)
  {
    var init := pats[..|pats| - 1];
    var line := MatchLine(pats[|pats| - 1], strucs, cfg);
    assert Report(pats, strucs, cfg) == Report(init, strucs, cfg) + (if line.Some? then [line.value] else []);
    if i < |init| {
      assert init[i] == pats[i];
      ReportComplete(init, strucs, cfg, i);
    }
  }

  /** The two loops test the same relation: `DoLesk` with the structure atom first, `PrintBestMatch` with the pattern atom first. */
  lemma CompatibleSymmetric(a: Atom, b: Atom, cfg: Config)
    requires |a.dist| == MAXDIST && |b.dist| == MAXDIST
    ensures Compatible(a, b, cfg) <==> Compatible(b, a, cfg)
    ensures Compatible(a, b, cfg) ==> PairScore(a, b, cfg) == PairScore(b, a, cfg)
  {
    StrNEqualSymmetric(a.properties, b.properties, PropertyWidth(cfg.src));
    ScoreSymmetric(a.dist, b.dist, MAXDIST, cfg.accuracy);
  }

  /** Only residues of the current structure atoms are killed, and each of them lacks a compatible pattern atom. */
  lemma DoomedSpec(r: Round, cfg: Config)
    requires Sized(r.pat) && Sized(r.struc)
    ensures forall x :: x in Doomed(r, cfg) <==>
              exists j :: 0 <= j < |r.struc| && r.struc[j].resid == x && !Survives(r.struc[j], r.pat, cfg)
  {
    forall x ensures x in Doomed(r, cfg) <==>
                     exists j :: 0 <= j < |r.struc| && r.struc[j].resid == x && !Survives(r.struc[j], r.pat, cfg)
    {
      DoomedAmongSpec(r.struc, r.pat, cfg, |r.struc|, x);
    }
  }

  /** The residues of the first `n` structure atoms that lack a compatible pattern atom. */
  lemma {:induction false} DoomedAmongSpec(strucs: seq<Atom>, pats: seq<Atom>, cfg: Config, n: nat, x: seq<char>)
    requires Sized(strucs) && Sized(pats) && n <= |strucs|
    ensures x in DoomedAmong(strucs, pats, cfg, n) <==>
            exists j :: 0 <= j < n && strucs[j].resid == x && !Survives(strucs[j], pats, cfg)
  {
    if n > 0 {
      DoomedAmongSpec(strucs, pats, cfg, n - 1, x);
    }
  }

  // ---------------------------------------------------------------------
  // Properties of the loop

  /**
   * The loop ends converged exactly when it stops before `MAXITER`, and its
   * final records are well formed.
   */
  lemma {:induction false} RunBounds(pat: seq<Record>, struc: seq<Record>, cfg: Config, invert: bool,
                                     prevPat: nat, prevStruc: nat, i: nat, last: Round)
    requires Inputs(pat, struc, cfg) && i <= MAXITER && Sized(last.pat) && Sized(last.struc)
    ensures var e := LeskRun(pat, struc, cfg, invert, prevPat, prevStruc, i, last);
      && Inputs(pat, e.struc, cfg)
      && i <= e.iterations <= MAXITER && (e.converged <==> e.iterations < MAXITER)
    decreases MAXITER - i
  {
    if i < MAXITER {
      var r := RoundOf(pat, struc, cfg, invert);
      if !(|r.pat| == prevPat && |r.struc| == prevStruc) {
        RunBounds(pat, Next(pat, struc, cfg, invert), cfg, invert, |r.pat|, |r.struc|, i + 1, r);
        LeskContinue(pat, struc, cfg, invert, prevPat, prevStruc, i, last);
      }
    }
  }

  /**
   * `after` differs from `before` at most in dead flags being set: resids,
   * properties and bins stay, and no dead record comes back to life.
   */
  predicate KillsOnly(before: seq<Record>, after: seq<Record>)
  {
    && |after| == |before|
    && forall k :: 0 <= k < |before| ==>
         && after[k].first == before[k].first && after[k].second == before[k].second
         && after[k].dist == before[k].dist && (before[k].dead ==> after[k].dead)
  }

  lemma KillsOnlyTrans(a: seq<Record>, b: seq<Record>, c: seq<Record>)
    requires KillsOnly(a, b) && KillsOnly(b, c)
    ensures KillsOnly(a, c)
  {
    forall k | 0 <= k < |a|
      ensures c[k].first == a[k].first && c[k].second == a[k].second && c[k].dist == a[k].dist
      ensures a[k].dead ==> c[k].dead
    {
      assert b[k].first == a[k].first && c[k].first == b[k].first;
    }
  }

  /** One iteration's kills only set dead flags. */
  lemma NextKillsOnly(pat: seq<Record>, struc: seq<Record>, cfg: Config, invert: bool)
    requires Inputs(pat, struc, cfg)
    ensures KillsOnly(struc, Next(pat, struc, cfg, invert))
  {
    EliminateKillsOnly(struc, Doomed(RoundOf(pat, struc, cfg, invert), cfg), cfg.src);
  }

  /** The structure records only ever gain dead flags; resids, properties and bins stay. */
  lemma {:induction false} RunKillsOnly(pat: seq<Record>, struc: seq<Record>, cfg: Config, invert: bool,
                                        prevPat: nat, prevStruc: nat, i: nat, last: Round)
    requires Inputs(pat, struc, cfg) && i <= MAXITER && Sized(last.pat) && Sized(last.struc)
    ensures KillsOnly(struc, LeskRun(pat, struc, cfg, invert, prevPat, prevStruc, i, last).struc)
    decreases MAXITER - i
  {
    var e := LeskRun(pat, struc, cfg, invert, prevPat, prevStruc, i, last);
    if i < MAXITER {
      var r := RoundOf(pat, struc, cfg, invert);
      if !(|r.pat| == prevPat && |r.struc| == prevStruc) {
        var next := Next(pat, struc, cfg, invert);
        NextKillsOnly(pat, struc, cfg, invert);
        RunKillsOnly(pat, next, cfg, invert, |r.pat|, |r.struc|, i + 1, r);
        LeskContinue(pat, struc, cfg, invert, prevPat, prevStruc, i, last);
        KillsOnlyTrans(struc, next, e.struc);
      }
    }
  }

  /** The set of live structure residues never grows. */
  lemma {:induction false} RunLiveShrinks(pat: seq<Record>, struc: seq<Record>, cfg: Config, invert: bool,
                                          prevPat: nat, prevStruc: nat, i: nat, last: Round)
    requires Inputs(pat, struc, cfg) && i <= MAXITER && Sized(last.pat) && Sized(last.struc)
    ensures LiveSet(LeskRun(pat, struc, cfg, invert, prevPat, prevStruc, i, last).struc) <= LiveSet(struc)
    decreases MAXITER - i
  {
    if i < MAXITER {
      var r := RoundOf(pat, struc, cfg, invert);
      if !(|r.pat| == prevPat && |r.struc| == prevStruc) {
        NextLiveShrinks(pat, struc, cfg, invert);
        RunLiveShrinks(pat, Next(pat, struc, cfg, invert), cfg, invert, |r.pat|, |r.struc|, i + 1, r);
        LeskContinue(pat, struc, cfg, invert, prevPat, prevStruc, i, last);
      }
    }
  }

  /** One iteration's kills never revive a residue. */
  lemma NextLiveShrinks(pat: seq<Record>, struc: seq<Record>, cfg: Config, invert: bool)
    requires Inputs(pat, struc, cfg)
    ensures LiveSet(Next(pat, struc, cfg, invert)) <= LiveSet(struc)
  {
    EliminateLiveSet(struc, Doomed(RoundOf(pat, struc, cfg, invert), cfg));
  }

  /** Every residue killed is one still alive: its atom exists in the round. */
  lemma DoomedAreLive(pat: seq<Record>, struc: seq<Record>, cfg: Config, invert: bool)
    requires Inputs(pat, struc, cfg)
    ensures Doomed(RoundOf(pat, struc, cfg, invert), cfg) <= LiveSet(struc)
  {
    var r := RoundOf(pat, struc, cfg, invert);
    var atoms := Build(struc, cfg.src, false);
    var p := Build(pat, cfg.src, invert);
    BuildDistinct(struc, cfg.src, false);
    TrimOnlyClears(atoms, p);
    forall x | x in Doomed(r, cfg) ensures x in LiveSet(struc) {
      DoomedAmongSpec(r.struc, r.pat, cfg, |r.struc|, x);
      var j :| 0 <= j < |r.struc| && r.struc[j].resid == x && !Survives(r.struc[j], r.pat, cfg);
      assert Resids(atoms)[j] == x;
    }
  }

  /**
   * One iteration loses at least as many live structure residues as it kills;
   * in atom counts: the next count is at most this one minus the kills.
   */
  lemma CountDrops(pat: seq<Record>, struc: seq<Record>, cfg: Config, invert: bool)
    requires Inputs(pat, struc, cfg)
    ensures var next := Next(pat, struc, cfg, invert);
            var killed := Doomed(RoundOf(pat, struc, cfg, invert), cfg);
            |Build(next, cfg.src, false)| + |killed| <= |Build(struc, cfg.src, false)|
  {
    var next := Next(pat, struc, cfg, invert);
    var killed := Doomed(RoundOf(pat, struc, cfg, invert), cfg);
    DoomedAreLive(pat, struc, cfg, invert);
    EliminateLiveSet(struc, killed);
    BuildCount(struc, cfg.src, false);
    BuildCount(next, cfg.src, false);
    assert LiveSet(next) <= LiveSet(struc) - killed;
    SubsetCard(LiveSet(next), LiveSet(struc) - killed);
    assert |LiveSet(struc) - killed| == |LiveSet(struc)| - |killed|;
  }

  lemma SubsetCard<T>(a: set<T>, b: set<T>)
    requires a <= b
    ensures |a| <= |b|
  {
    if a != {} {
      var x :| x in a;
      SubsetCard(a - {x}, b - {x});
    }
  }

  /** An iteration that kills nobody leaves the records, and so the next round, unchanged. */
  lemma NoKillsFixed(pat: seq<Record>, struc: seq<Record>, cfg: Config, invert: bool)
    requires Inputs(pat, struc, cfg)
    requires Doomed(RoundOf(pat, struc, cfg, invert), cfg) == {}
    ensures Next(pat, struc, cfg, invert) == struc
  {
    EliminateNothing(struc);
  }

  /** An iteration after which the structure atom count is unchanged killed nobody. */
  lemma SameCountNoKills(pat: seq<Record>, prev: seq<Record>, cfg: Config, invert: bool)
    requires Inputs(pat, prev, cfg)
    requires |Build(Next(pat, prev, cfg, invert), cfg.src, false)| == |Build(prev, cfg.src, false)|
    ensures Doomed(RoundOf(pat, prev, cfg, invert), cfg) == {} && Next(pat, prev, cfg, invert) == prev
  {
    CountDrops(pat, prev, cfg, invert);
    NoKillsFixed(pat, prev, cfg, invert);
  }

  /** `RunFixedPoint` at an iteration whose atom counts repeat those built from `prev`. */
  lemma FixedPointStop(pat: seq<Record>, prev: seq<Record>, cfg: Config, invert: bool, i: nat, last: Round)
    requires Inputs(pat, prev, cfg) && i < MAXITER && Sized(last.pat) && Sized(last.struc)
    requires var r := RoundOf(pat, Next(pat, prev, cfg, invert), cfg, invert);
             |r.pat| == |Build(pat, cfg.src, invert)| && |r.struc| == |Build(prev, cfg.src, false)|
    ensures var e := LeskRun(pat, Next(pat, prev, cfg, invert), cfg, invert, |Build(pat, cfg.src, invert)|,
                             |Build(prev, cfg.src, false)|, i, last);
            e.converged && Inputs(pat, e.struc, cfg) && Doomed(e.round, cfg) == {}
            && e.round == RoundOf(pat, e.struc, cfg, invert)
  {
    var struc := Next(pat, prev, cfg, invert);
    var r := RoundOf(pat, struc, cfg, invert);
    assert LeskRun(pat, struc, cfg, invert, |Build(pat, cfg.src, invert)|, |Build(prev, cfg.src, false)|, i, last)
           == LeskEnd(true, i, r, struc);
    SameCountNoKills(pat, prev, cfg, invert);
  }

  /**
   * From the second iteration on, with `prev` the records of the iteration
   * before: when the loop converges, the final round kills nobody.
   */
  lemma {:induction false} RunFixedPoint(pat: seq<Record>, prev: seq<Record>, cfg: Config, invert: bool,
                                         i: nat, last: Round)
    requires Inputs(pat, prev, cfg) && 0 < i <= MAXITER && Sized(last.pat) && Sized(last.struc)
    ensures var e := LeskRun(pat, Next(pat, prev, cfg, invert), cfg, invert, |Build(pat, cfg.src, invert)|,
                             |Build(prev, cfg.src, false)|, i, last);
            e.converged ==> Inputs(pat, e.struc, cfg) && Doomed(e.round, cfg) == {}
                            && e.round == RoundOf(pat, e.struc, cfg, invert)
    decreases MAXITER - i
  {
    var struc := Next(pat, prev, cfg, invert);
    if i < MAXITER {
      var r := RoundOf(pat, struc, cfg, invert);
      if |r.pat| == |Build(pat, cfg.src, invert)| && |r.struc| == |Build(prev, cfg.src, false)| {
        FixedPointStop(pat, prev, cfg, invert, i, last);
      } else {
        RunFixedPoint(pat, struc, cfg, invert, i + 1, r);
        LeskContinue(pat, struc, cfg, invert, |Build(pat, cfg.src, invert)|, |Build(prev, cfg.src, false)|, i, last);
      }
    }
  }

  /**
   * When the loop converges, every structure atom of the final round has a
   * compatible pattern atom, and the final round is the one the final records
   * build.
   */
  lemma ConvergedIsFixedPoint(pat: seq<Record>, struc: seq<Record>, cfg: Config, invert: bool)
    requires Inputs(pat, struc, cfg)
    ensures var e := Final(pat, struc, cfg, invert);
            e.converged ==>
              && Inputs(pat, e.struc, cfg) && e.round == RoundOf(pat, e.struc, cfg, invert)
              && forall j :: 0 <= j < |e.round.struc| ==> Survives(e.round.struc[j], e.round.pat, cfg)
  {
    var e := Final(pat, struc, cfg, invert);
    var r := RoundOf(pat, struc, cfg, invert);
    if |r.pat| == 0 && |r.struc| == 0 {
      assert e.round == r && e.struc == struc;
      NoneDoomed(r, cfg);
    } else {
      RunFixedPoint(pat, struc, cfg, invert, 1, r);
      if e.converged {
        NoneDoomed(e.round, cfg);
      }
    }
  }

  /** A round kills nobody exactly when every structure atom has a compatible pattern atom. */
  lemma NoneDoomed(r: Round, cfg: Config)
    requires Sized(r.pat) && Sized(r.struc)
    ensures Doomed(r, cfg) == {} <==> forall j :: 0 <= j < |r.struc| ==> Survives(r.struc[j], r.pat, cfg)
  {
    DoomedSpec(r, cfg);
    if Doomed(r, cfg) == {} {
      forall j | 0 <= j < |r.struc| ensures Survives(r.struc[j], r.pat, cfg) {
        assert r.struc[j].resid !in Doomed(r, cfg);
      }
    }
  }

  /**
   * From the second iteration on, the loop converges before `MAXITER` when
   * the live residues of the previous records are few enough: each iteration
   * that does not converge loses at least one.
   */
  lemma {:induction false} RunConverges(pat: seq<Record>, prev: seq<Record>, cfg: Config, invert: bool,
                                        i: nat, last: Round)
    requires Inputs(pat, prev, cfg) && 0 < i && Sized(last.pat) && Sized(last.struc)
    requires i + |LiveSet(prev)| < MAXITER
    ensures var e := LeskRun(pat, Next(pat, prev, cfg, invert), cfg, invert, |Build(pat, cfg.src, invert)|,
                             |Build(prev, cfg.src, false)|, i, last);
            e.converged && e.iterations <= i + |LiveSet(prev)|
    decreases MAXITER - i
  {
    var struc := Next(pat, prev, cfg, invert);
    var r := RoundOf(pat, struc, cfg, invert);
    CountDrops(pat, prev, cfg, invert);
    BuildCount(prev, cfg.src, false);
    BuildCount(struc, cfg.src, false);
    if !(|r.pat| == |Build(pat, cfg.src, invert)| && |r.struc| == |Build(prev, cfg.src, false)|) {
      assert |LiveSet(struc)| < |LiveSet(prev)|;
      RunConverges(pat, struc, cfg, invert, i + 1, r);
    }
  }

  /**
   * The loop converges, within one iteration more than the structure has live
   * residues, whenever that is below `MAXITER`; then src/matchpatch.c prints
   * its results too.
   */
  lemma Converges(pat: seq<Record>, struc: seq<Record>, cfg: Config, invert: bool)
    requires Inputs(pat, struc, cfg)
    requires |LiveSet(struc)| + 1 < MAXITER
    ensures Final(pat, struc, cfg, invert).converged
    ensures Final(pat, struc, cfg, invert).iterations <= |LiveSet(struc)| + 1
    ensures Outcome(pat, struc, cfg, invert).Some?
  {
    var r := RoundOf(pat, struc, cfg, invert);
    if !(|r.pat| == 0 && |r.struc| == 0) {
      RunConverges(pat, struc, cfg, invert, 1, r);
    }
  }

  /** A structure of fewer than 49 records always converges: each record names at most two residues. */
  lemma ConvergesSmall(pat: seq<Record>, struc: seq<Record>, cfg: Config, invert: bool)
    requires Inputs(pat, struc, cfg) && |struc| < 49
    ensures Final(pat, struc, cfg, invert).converged
  {
    AllocationSuffices(struc, cfg.src, false);
    Converges(pat, struc, cfg, invert);
  }

  /** The pattern side never changes: every round builds the same number of pattern atoms. */
  lemma {:induction false} PatternCountConstant(pat: seq<Record>, struc: seq<Record>, cfg: Config, invert: bool,
                                                prevPat: nat, prevStruc: nat, i: nat, last: Round)
    requires Inputs(pat, struc, cfg) && i <= MAXITER && Sized(last.pat) && Sized(last.struc)
    requires i > 0 ==> |last.pat| == |Build(pat, cfg.src, invert)|
    ensures var e := LeskRun(pat, struc, cfg, invert, prevPat, prevStruc, i, last);
            e.iterations > 0 ==> |e.round.pat| == |Build(pat, cfg.src, invert)|
    decreases MAXITER - i
  {
    if i < MAXITER {
      var r := RoundOf(pat, struc, cfg, invert);
      if !(|r.pat| == prevPat && |r.struc| == prevStruc) {
        PatternCountConstant(pat, Next(pat, struc, cfg, invert), cfg, invert, |r.pat|, |r.struc|, i + 1, r);
      }
    }
  }

  // ---------------------------------------------------------------------
  // The methods

  /** An iteration whose atom counts repeat ends the loop, converged. */
  lemma LeskStop(pat: seq<Record>, struc: seq<Record>, cfg: Config, invert: bool,
                 prevPat: nat, prevStruc: nat, i: nat, last: Round)
    requires Inputs(pat, struc, cfg) && i < MAXITER && Sized(last.pat) && Sized(last.struc)
    requires var r := RoundOf(pat, struc, cfg, invert); |r.pat| == prevPat && |r.struc| == prevStruc
    ensures LeskRun(pat, struc, cfg, invert, prevPat, prevStruc, i, last)
            == LeskEnd(true, i, RoundOf(pat, struc, cfg, invert), struc)
  {
  }

  /** An iteration whose atom counts differ from the previous ones kills and goes on. */
  lemma LeskContinue(pat: seq<Record>, struc: seq<Record>, cfg: Config, invert: bool,
                     prevPat: nat, prevStruc: nat, i: nat, last: Round)
    requires Inputs(pat, struc, cfg) && i < MAXITER && Sized(last.pat) && Sized(last.struc)
    requires var r := RoundOf(pat, struc, cfg, invert); !(|r.pat| == prevPat && |r.struc| == prevStruc)
    ensures var r := RoundOf(pat, struc, cfg, invert);
            LeskRun(pat, struc, cfg, invert, prevPat, prevStruc, i, last)
            == LeskRun(pat, Next(pat, struc, cfg, invert), cfg, invert, |r.pat|, |r.struc|, i + 1, r)
  {
  }

  /** `PrintBestMatch`: the best match of pattern atom `patIndex`, as the line it would print. */
  method PrintBestMatch(patAtom: array<Atom>, patIndex: nat, strucAtom: array<Atom>, nStrucAtom: nat, cfg: Config)
    returns (line: Option<Pairing>)
    requires patIndex < patAtom.Length && nStrucAtom <= strucAtom.Length
    requires |patAtom[patIndex].dist| == MAXDIST && Sized(strucAtom[..nStrucAtom])
    ensures line == MatchLine(patAtom[patIndex], strucAtom[..nStrucAtom], cfg)
  {
    ghost var strucs := strucAtom[..nStrucAtom];
    var p := patAtom[patIndex];
    var best := -1;
    var bestScore := 0.0;
    for j := 0 to nStrucAtom
      invariant (best, bestScore) == BestScan(p, strucs, cfg, j)
    {
      var s := strucAtom[j];
      assert s == strucs[j];
      var differ := Compare(p.dist, s.dist, MAXDIST, cfg.accuracy);
      if StrNEqual(p.properties, s.properties, PropertyWidth(cfg.src)) && !differ {
        var score := CalcScore(p.dist, s.dist, MAXDIST);
        if score.value > bestScore {
          bestScore := score.value;
          best := j;
        }
      }
    }
    if best != -1 {
      line := Some(Pairing(p.resnam, p.resid, strucAtom[best].resnam, strucAtom[best].resid));
    } else {
      line := None;
    }
  }

  /** `PrintResults`: the best match of every pattern atom, in pattern order. */
  method PrintResults(nPatAtom: nat, patAtom: array<Atom>, nStrucAtom: nat, strucAtom: array<Atom>, cfg: Config)
    returns (lines: seq<Pairing>)
    requires nPatAtom <= patAtom.Length && nStrucAtom <= strucAtom.Length
    requires Sized(patAtom[..nPatAtom]) && Sized(strucAtom[..nStrucAtom])
    ensures lines == Report(patAtom[..nPatAtom], strucAtom[..nStrucAtom], cfg)
  {
    lines := [];
    for i := 0 to nPatAtom
      invariant lines == Report(patAtom[..i], strucAtom[..nStrucAtom], cfg)
    {
      assert patAtom[..i + 1][..i] == patAtom[..i];
      assert patAtom[i] == patAtom[..nPatAtom][i];
      var line := PrintBestMatch(patAtom, i, strucAtom, nStrucAtom, cfg);
      if line.Some? {
        lines := lines + [line.value];
      }
    }
    assert patAtom[..nPatAtom] == patAtom[..nPatAtom][..nPatAtom];
  }

  /**
   * The kill loop of `DoLesk` (src/matchpatch.c:642-668, match.c:612-636):
   * every structure atom without a compatible pattern atom has its residue
   * killed in the structure records.
   */
  method KillUnmatched(nPatAtom: nat, patAtom: array<Atom>, nStrucAtom: nat, strucAtom: array<Atom>,
                       nstruc: nat, struc: array<Record>, cfg: Config)
    requires nPatAtom <= patAtom.Length && nStrucAtom <= strucAtom.Length && nstruc <= struc.Length
    requires Sized(patAtom[..nPatAtom]) && Sized(strucAtom[..nStrucAtom])
    modifies struc
    ensures struc[..nstruc] == Eliminate(old(struc[..nstruc]), Doomed(Round(patAtom[..nPatAtom], strucAtom[..nStrucAtom]), cfg))
    ensures struc[nstruc..] == old(struc[nstruc..])
  {
    ghost var pats := patAtom[..nPatAtom];
    ghost var strucs := strucAtom[..nStrucAtom];
    ghost var s0 := struc[..nstruc];
    EliminateNothing(s0);
    assert DoomedAmong(strucs, pats, cfg, 0) == {};
    for j := 0 to nStrucAtom
      invariant struc[..nstruc] == Eliminate(s0, DoomedAmong(strucs, pats, cfg, j))
      invariant struc[nstruc..] == old(struc[nstruc..])
    {
      var s := strucAtom[j];
      assert s == strucs[j];
      var found := Matched(s, nPatAtom, patAtom, cfg);
      if !found {
        EliminateCompose(s0, DoomedAmong(strucs, pats, cfg, j), {s.resid});
        KillAtom(s.resid, struc, nstruc);
      }
    }
  }

  /** The search loop of `DoLesk` for one structure atom: is some pattern atom compatible? */
  method Matched(s: Atom, nPatAtom: nat, patAtom: array<Atom>, cfg: Config) returns (found: bool)
    requires nPatAtom <= patAtom.Length && |s.dist| == MAXDIST && Sized(patAtom[..nPatAtom])
    ensures found <==> Survives(s, patAtom[..nPatAtom], cfg)
  {
    ghost var pats := patAtom[..nPatAtom];
    for k := 0 to nPatAtom
      invariant forall m :: 0 <= m < k ==> !Compatible(s, pats[m], cfg)
    {
      assert patAtom[k] == pats[k];
      if StrNEqual(s.properties, patAtom[k].properties, PropertyWidth(cfg.src)) {
        var differ := Compare(s.dist, patAtom[k].dist, MAXDIST, cfg.accuracy);
        if !differ {
          return true;
        }
      }
    }
    return false;
  }

  /**
   * The first steps of each `DoLesk` iteration (src/matchpatch.c:601-613,
   * match.c:574-585): build both atom arrays and trim them against each other.
   */
  method CreateRound(npat: nat, pat: array<Record>, nstruc: nat, struc: array<Record>, cfg: Config, invert: bool)
    returns (patAtom: array<Atom>, nPatAtom: nat, strucAtom: array<Atom>, nStrucAtom: nat)
    requires npat <= pat.Length && nstruc <= struc.Length
    requires Inputs(pat[..npat], struc[..nstruc], cfg)
    ensures fresh(patAtom) && fresh(strucAtom)
    ensures nPatAtom <= patAtom.Length && nStrucAtom <= strucAtom.Length
    ensures Round(patAtom[..nPatAtom], strucAtom[..nStrucAtom]) == RoundOf(pat[..npat], struc[..nstruc], cfg, invert)
  {
    patAtom, nPatAtom := CreateAtomArray(pat, npat, cfg.src, invert);
    strucAtom, nStrucAtom := CreateAtomArray(struc, nstruc, cfg.src, false);
    TrimBitStrings(nPatAtom, patAtom, nStrucAtom, strucAtom);
  }

  /**
   * `DoLesk`: run the elimination loop, then report the best matches, unless
   * src/matchpatch.c hit `MAXITER`. Only the structure records change.
   */
  method DoLesk(npat: nat, pat: array<Record>, nstruc: nat, struc: array<Record>, cfg: Config, invert: bool)
    returns (report: Option<seq<Pairing>>)
    requires pat != struc && npat <= pat.Length && nstruc <= struc.Length
    requires Inputs(pat[..npat], struc[..nstruc], cfg)
    modifies struc
    ensures report == Outcome(old(pat[..npat]), old(struc[..nstruc]), cfg, invert)
    ensures struc[..nstruc] == Final(old(pat[..npat]), old(struc[..nstruc]), cfg, invert).struc
    ensures struc[nstruc..] == old(struc[nstruc..])
  {
    var converged, patAtom, nPatAtom, strucAtom, nStrucAtom :=
      LeskLoop(npat, pat, nstruc, struc, cfg, invert, Final(pat[..npat], struc[..nstruc], cfg, invert));
    if !converged && cfg.abortAtMaxIter {
      report := None;
    } else {
      var lines := PrintResults(nPatAtom, patAtom, nStrucAtom, strucAtom, cfg);
      report := Some(lines);
    }
  }

  /** The ghost state of `DoLesk`'s loop: running on from here yields `goal`. */
  ghost predicate OnTrack(pat: seq<Record>, struc: seq<Record>, cfg: Config, invert: bool,
                          prevPat: nat, prevStruc: nat, i: nat, last: Round, goal: LeskEnd)
  {
    && Inputs(pat, struc, cfg) && i <= MAXITER && Sized(last.pat) && Sized(last.struc)
    && LeskRun(pat, struc, cfg, invert, prevPat, prevStruc, i, last) == goal
  }

  /**
   * The loop of `DoLesk` (src/matchpatch.c:599-671, match.c:572-637): rebuild
   * and trim both sides, stop when the atom counts repeat, otherwise kill the
   * unmatched structure residues. It leaves the last round's atoms.
   */
  method LeskLoop(npat: nat, pat: array<Record>, nstruc: nat, struc: array<Record>, cfg: Config, invert: bool,
                  ghost goal: LeskEnd)
    returns (converged: bool, patAtom: array<Atom>, nPatAtom: nat, strucAtom: array<Atom>, nStrucAtom: nat)
    requires pat != struc && npat <= pat.Length && nstruc <= struc.Length
    requires OnTrack(pat[..npat], struc[..nstruc], cfg, invert, 0, 0, 0, Round([], []), goal)
    modifies struc
    ensures nPatAtom <= patAtom.Length && nStrucAtom <= strucAtom.Length
    ensures converged == goal.converged && struc[..nstruc] == goal.struc
    ensures Round(patAtom[..nPatAtom], strucAtom[..nStrucAtom]) == goal.round
    ensures struc[nstruc..] == old(struc[nstruc..])
  {
    ghost var p0 := pat[..npat];
    ghost var records := struc[..nstruc];
    ghost var last := Round([], []);
    patAtom := new Atom[0];
    strucAtom := new Atom[0];
    nPatAtom, nStrucAtom := 0, 0;
    var prevPatAtoms: nat := 0;
    var prevStrucAtoms: nat := 0;
    converged := false;
    var i := 0;
    while i < MAXITER
      invariant 0 <= i <= MAXITER && pat[..npat] == p0
      invariant struc[..nstruc] == records && struc[nstruc..] == old(struc[nstruc..])
      invariant nPatAtom <= patAtom.Length && nStrucAtom <= strucAtom.Length
      invariant last == Round(patAtom[..nPatAtom], strucAtom[..nStrucAtom])
      invariant OnTrack(p0, records, cfg, invert, prevPatAtoms, prevStrucAtoms, i, last, goal)
    {
      var stop;
      stop, patAtom, nPatAtom, strucAtom, nStrucAtom :=
        Iterate(npat, pat, nstruc, struc, cfg, invert, prevPatAtoms, prevStrucAtoms, i, last, goal);
      last := Round(patAtom[..nPatAtom], strucAtom[..nStrucAtom]);
      records := struc[..nstruc];
      if stop {
        converged := true;
        return;
      }
      prevPatAtoms := nPatAtom;
      prevStrucAtoms := nStrucAtom;
      i := i + 1;
    }
  }

  /**
   * One iteration of `DoLesk`'s loop (src/matchpatch.c:601-668,
   * match.c:574-635): build and trim the round, report whether the counts
   * repeat, and otherwise kill the unmatched structure residues.
   */
  method Iterate(npat: nat, pat: array<Record>, nstruc: nat, struc: array<Record>, cfg: Config, invert: bool,
                 prevPatAtoms: nat, prevStrucAtoms: nat, ghost i: nat, ghost last: Round, ghost goal: LeskEnd)
    returns (stop: bool, patAtom: array<Atom>, nPatAtom: nat, strucAtom: array<Atom>, nStrucAtom: nat)
    requires pat != struc && npat <= pat.Length && nstruc <= struc.Length
    requires i < MAXITER && OnTrack(pat[..npat], struc[..nstruc], cfg, invert, prevPatAtoms, prevStrucAtoms, i, last, goal)
    modifies struc
    ensures nPatAtom <= patAtom.Length && nStrucAtom <= strucAtom.Length
    ensures stop <==> nPatAtom == prevPatAtoms && nStrucAtom == prevStrucAtoms
    ensures stop ==> goal == LeskEnd(true, i, Round(patAtom[..nPatAtom], strucAtom[..nStrucAtom]), struc[..nstruc])
    ensures !stop ==> OnTrack(pat[..npat], struc[..nstruc], cfg, invert, nPatAtom, nStrucAtom, i + 1,
                              Round(patAtom[..nPatAtom], strucAtom[..nStrucAtom]), goal)
    ensures struc[nstruc..] == old(struc[nstruc..])
  {
    ghost var p0 := pat[..npat];
    ghost var s0 := struc[..nstruc];
    patAtom, nPatAtom, strucAtom, nStrucAtom := CreateRound(npat, pat, nstruc, struc, cfg, invert);
    stop := nPatAtom == prevPatAtoms && nStrucAtom == prevStrucAtoms;
    if stop {
      LeskStop(p0, s0, cfg, invert, prevPatAtoms, prevStrucAtoms, i, last);
    } else {
      KillUnmatched(nPatAtom, patAtom, nStrucAtom, strucAtom, nstruc, struc, cfg);
      LeskContinue(p0, s0, cfg, invert, prevPatAtoms, prevStrucAtoms, i, last);
    }
  }
}
