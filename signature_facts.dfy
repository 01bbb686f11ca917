/**
 * What the atom list built by `CreateAtomArray` contains, and how killing
 * residues (`KillAtom`) shrinks it.
 */
module SignatureFacts {
  import opened Common
  import opened CStrings
  import opened Sequences
  import opened Bitstrings
  import opened Signatures

  /** The residue identifiers of the live records' ends, in record order. */
  function LiveIds(recs: seq<Record>): seq<seq<char>>
  {
    if |recs| == 0 then []
    else
      var r := recs[|recs| - 1];
      LiveIds(recs[..|recs| - 1]) + (if r.dead then [] else [r.first.resid, r.second.resid])
  }

  /** The residues that still appear in a live record. */
  function LiveSet(recs: seq<Record>): set<seq<char>>
  {
    set x | x in LiveIds(recs)
  }

  /** The residue identifiers of an atom list. */
  function Resids(atoms: seq<Atom>): (ids: seq<seq<char>>)
    ensures |ids| == |atoms| && forall j :: 0 <= j < |atoms| ==> ids[j] == atoms[j].resid
  {
    seq(|atoms|, j requires 0 <= j < |atoms| => atoms[j].resid)
  }

  /** The live records only. */
  function LiveOnly(recs: seq<Record>): (live: seq<Record>)
    ensures |live| <= |recs|
    ensures forall i :: 0 <= i < |live| ==> !live[i].dead && live[i] in recs
  {
    if |recs| == 0 then []
    else
      var r := recs[|recs| - 1];
      LiveOnly(recs[..|recs| - 1]) + (if r.dead then [] else [r])
  }

  lemma FirstIndexResids(atoms: seq<Atom>, x: seq<char>)
    ensures FirstIndex(atoms, x) < 0 <==> x !in Resids(atoms)
  {
    var r := FirstIndex(atoms, x);
    if x in Resids(atoms) {
      var j :| 0 <= j < |atoms| && Resids(atoms)[j] == x;
      assert atoms[j].resid == x;
    }
    if r >= 0 {
      assert Resids(atoms)[r] == x;
    }
  }

  /** Adding a record to the end runs one more step of the loop. */
  lemma BuildSnoc(recs: seq<Record>, r: Record, src: PropertySource, swap: bool)
    requires ValidSource(src) && WellFormedRecords(recs, src) && WellFormedRecord(r, src)
    ensures WellFormedRecords(recs + [r], src)
    ensures Build(recs + [r], src, swap) == Step(Build(recs, src, swap), r, src, swap)
  {
    assert (recs + [r])[..|recs|] == recs;
  }

  /** Filling a slot keeps its bitstring a string of flags with the NUL in the last slot. */
  lemma PlaceWellFormed(atoms: seq<Atom>, e: Endpoint, bin: int, src: PropertySource, swap: bool)
    requires ValidSource(src) && WellFormedEndpoint(e, src) && 0 <= bin <= MAXDIST - 2
    requires WellFormedAtoms(atoms, src)
    ensures WellFormedAtoms(Place(atoms, e, bin, src, swap), src)
  {
    var pos := FirstIndex(atoms, e.resid);
    var out := Place(atoms, e, bin, src, swap);
    var filled := if pos < 0 then Filled(FreshAtom(e, src, swap), true, e, bin, src, swap)
                  else Filled(atoms[pos], pos == |atoms| - 1, e, bin, src, swap);
    assert WellFormedDist(filled.dist);
    assert forall j :: 0 <= j < |out| ==> out[j] == filled || out[j] == atoms[j];
  }

  /** Every signature `CreateAtomArray` builds is a string of flags with the NUL in the last slot. */
  lemma {:induction false} BuildWellFormed(recs: seq<Record>, src: PropertySource, swap: bool)
    requires ValidSource(src) && WellFormedRecords(recs, src)
    ensures WellFormedAtoms(Build(recs, src, swap), src)
  {
    if |recs| > 0 {
      var init := recs[..|recs| - 1];
      var r := recs[|recs| - 1];
      assert WellFormedRecords(init, src) && WellFormedRecord(r, src);
      BuildWellFormed(init, src, swap);
      if !r.dead {
        var atoms := Build(init, src, swap);
        PlaceWellFormed(atoms, r.first, r.dist, src, swap);
        PlaceWellFormed(Place(atoms, r.first, r.dist, src, swap), r.second, r.dist, src, swap);
      }
    }
  }

  /** Placing an endpoint appends its residue when new and otherwise keeps the identifiers. */
  lemma PlaceResids(atoms: seq<Atom>, e: Endpoint, bin: int, src: PropertySource, swap: bool)
    requires ValidSource(src) && WellFormedEndpoint(e, src) && 0 <= bin <= MAXDIST - 2
    requires ShapedAtoms(atoms, src)
    ensures Resids(Place(atoms, e, bin, src, swap))
            == if e.resid in Resids(atoms) then Resids(atoms) else Resids(atoms) + [e.resid]
  {
    FirstIndexResids(atoms, e.resid);
    var pos := FirstIndex(atoms, e.resid);
    if pos < 0 {
      assert Resids(Place(atoms, e, bin, src, swap)) == Resids(atoms) + [e.resid];
    } else {
      assert Resids(Place(atoms, e, bin, src, swap)) == Resids(atoms);
    }
  }

  /** Placing an endpoint extends the identifiers as `Dedup` extends its input. */
  lemma PlaceDedup(atoms: seq<Atom>, ids: seq<seq<char>>, e: Endpoint, bin: int, src: PropertySource, swap: bool)
    requires ValidSource(src) && WellFormedEndpoint(e, src) && 0 <= bin <= MAXDIST - 2
    requires ShapedAtoms(atoms, src) && Resids(atoms) == Dedup(ids)
    ensures Resids(Place(atoms, e, bin, src, swap)) == Dedup(ids + [e.resid])
  {
    PlaceResids(atoms, e, bin, src, swap);
    DedupAppend(ids, e.resid);
    assert e.resid in Resids(atoms) <==> e.resid in ids;
  }

  /** One record adds its live ends' residues to the identifiers, as `Dedup` would. */
  lemma StepResids(atoms: seq<Atom>, ids: seq<seq<char>>, r: Record, src: PropertySource, swap: bool)
    requires ValidSource(src) && WellFormedRecord(r, src) && ShapedAtoms(atoms, src)
    requires Resids(atoms) == Dedup(ids)
    ensures Resids(Step(atoms, r, src, swap))
            == Dedup(ids + (if r.dead then [] else [r.first.resid, r.second.resid]))
  {
    if r.dead {
      assert ids + [] == ids;
    } else {
      var middle := Place(atoms, r.first, r.dist, src, swap);
      PlaceDedup(atoms, ids, r.first, r.dist, src, swap);
      PlaceDedup(middle, ids + [r.first.resid], r.second, r.dist, src, swap);
      assert ids + [r.first.resid, r.second.resid] == ids + [r.first.resid] + [r.second.resid];
    }
  }

  /**
   * `CreateAtomArray` yields exactly one atom per residue named by a live
   * record, in order of first appearance.
   */
  lemma {:induction false} BuildResids(recs: seq<Record>, src: PropertySource, swap: bool)
    requires ValidSource(src) && WellFormedRecords(recs, src)
    ensures Resids(Build(recs, src, swap)) == Dedup(LiveIds(recs))
  {
    if |recs| > 0 {
      var init := recs[..|recs| - 1];
      var r := recs[|recs| - 1];
      assert WellFormedRecords(init, src);
      BuildResids(init, src, swap);
      StepResids(Build(init, src, swap), LiveIds(init), r, src, swap);
    }
  }

  /** No residue appears twice in the atom list. */
  lemma BuildDistinct(recs: seq<Record>, src: PropertySource, swap: bool)
    requires ValidSource(src) && WellFormedRecords(recs, src)
    ensures Distinct(Resids(Build(recs, src, swap)))
    ensures forall x :: x in Resids(Build(recs, src, swap)) <==> x in LiveSet(recs)
  {
    BuildResids(recs, src, swap);
  }

  /** The number of atoms `CreateAtomArray` reports is the number of live residues. */
  lemma BuildCount(recs: seq<Record>, src: PropertySource, swap: bool)
    requires ValidSource(src) && WellFormedRecords(recs, src)
    ensures |Build(recs, src, swap)| == |LiveSet(recs)|
  {
    var ids := Resids(Build(recs, src, swap));
    BuildDistinct(recs, src, swap);
    DistinctCardinality(ids);
    assert (set x | x in ids) == LiveSet(recs);
  }

  /** Atoms appear in the order their residues first appear in the live records. */
  lemma BuildOrder(recs: seq<Record>, src: PropertySource, swap: bool)
    requires ValidSource(src) && WellFormedRecords(recs, src)
    ensures var atoms := Build(recs, src, swap);
            forall a, b :: 0 <= a < b < |atoms| ==>
              && atoms[a].resid in LiveIds(recs) && atoms[b].resid in LiveIds(recs)
              && IndexOf(LiveIds(recs), atoms[a].resid) < IndexOf(LiveIds(recs), atoms[b].resid)
  {
    var atoms := Build(recs, src, swap);
    BuildResids(recs, src, swap);
    DedupOrder(LiveIds(recs));
    forall a, b | 0 <= a < b < |atoms|
      ensures IndexOf(LiveIds(recs), atoms[a].resid) < IndexOf(LiveIds(recs), atoms[b].resid)
    {
      assert atoms[a].resid == Dedup(LiveIds(recs))[a];
      assert atoms[b].resid == Dedup(LiveIds(recs))[b];
      assert Dedup(LiveIds(recs))[a] in Dedup(LiveIds(recs));
      assert Dedup(LiveIds(recs))[b] in Dedup(LiveIds(recs));
    }
  }

  /** Dead records contribute nothing: the atoms are built from the live records alone. */
  lemma {:induction false} DeadRecordsIgnored(recs: seq<Record>, src: PropertySource, swap: bool)
    requires ValidSource(src) && WellFormedRecords(recs, src)
    ensures WellFormedRecords(LiveOnly(recs), src)
    ensures Build(recs, src, swap) == Build(LiveOnly(recs), src, swap)
  {
    if |recs| > 0 {
      var init := recs[..|recs| - 1];
      var r := recs[|recs| - 1];
      assert WellFormedRecords(init, src);
      assert WellFormedRecord(r, src);
      assert recs == init + [r];
      DeadRecordsIgnored(init, src, swap);
      BuildSnoc(init, r, src, swap);
      if !r.dead {
        BuildSnoc(LiveOnly(init), r, src, swap);
        assert LiveOnly(recs) == LiveOnly(init) + [r];
      } else {
        assert LiveOnly(recs) == LiveOnly(init);
      }
    }
  }

  /**
   * Killing only ever sets dead flags: everything else about every record
   * stays as it was.
   */
  lemma EliminateKillsOnly(recs: seq<Record>, doomed: set<seq<char>>, src: PropertySource)
    ensures |Eliminate(recs, doomed)| == |recs|
    ensures forall i :: 0 <= i < |recs| ==>
              && Eliminate(recs, doomed)[i].first == recs[i].first
              && Eliminate(recs, doomed)[i].second == recs[i].second
              && Eliminate(recs, doomed)[i].dist == recs[i].dist
              && (Eliminate(recs, doomed)[i].dead <==> recs[i].dead || Names(recs[i], doomed))
    ensures WellFormedRecords(recs, src) ==> WellFormedRecords(Eliminate(recs, doomed), src)
  {
  }

  /** Killing nobody changes nothing. */
  lemma EliminateNothing(recs: seq<Record>)
    ensures Eliminate(recs, {}) == recs
  {
    assert forall i :: 0 <= i < |recs| ==> Eliminate(recs, {})[i] == recs[i];
  }

  /** Killing residues one after another is killing them all at once. */
  lemma EliminateCompose(recs: seq<Record>, first: set<seq<char>>, second: set<seq<char>>)
    ensures Eliminate(Eliminate(recs, first), second) == Eliminate(recs, first + second)
  {
    var left := Eliminate(Eliminate(recs, first), second);
    var right := Eliminate(recs, first + second);
    forall i | 0 <= i < |recs| ensures left[i] == right[i] {
      assert Eliminate(recs, first)[i].first == recs[i].first;
      assert Eliminate(recs, first)[i].second == recs[i].second;
    }
  }

  lemma EliminatePrefix(recs: seq<Record>, doomed: set<seq<char>>)
    requires |recs| > 0
    ensures Eliminate(recs, doomed)[..|recs| - 1] == Eliminate(recs[..|recs| - 1], doomed)
  {
  }

  /**
   * After the residues in `doomed` are killed, the live residues are a subset
   * of the live residues before, and none of the doomed is among them.
   */
  lemma {:induction false} EliminateLiveSet(recs: seq<Record>, doomed: set<seq<char>>)
    ensures LiveSet(Eliminate(recs, doomed)) <= LiveSet(recs) - doomed
  {
    if |recs| > 0 {
      var init := recs[..|recs| - 1];
      var r := recs[|recs| - 1];
      var out := Eliminate(recs, doomed);
      EliminatePrefix(recs, doomed);
      EliminateLiveSet(init, doomed);
      assert LiveIds(out) == LiveIds(Eliminate(init, doomed))
                             + (if out[|out| - 1].dead then [] else [r.first.resid, r.second.resid]);
      forall x | x in LiveSet(out) ensures x in LiveSet(recs) - doomed {
        if x in LiveIds(Eliminate(init, doomed)) {
          assert x in LiveSet(Eliminate(init, doomed));
          assert x in LiveIds(init);
        } else {
          assert !out[|out| - 1].dead;
        }
      }
    }
  }

  /** The property string a swapped atom carries: positive and negative exchanged. */
  function SwapSlots(p: seq<char>, src: PropertySource): (q: seq<char>)
    requires ValidSource(src) && |p| == PropertyLength(src)
    ensures |q| == |p|
  {
    match src
    case FromRecord(layout) => Exchange(p, layout.positive, layout.negative)
    case FromName => Exchange(p, PROP_POSITIVE, PROP_NEGATIVE)
  }

  /** Every atom with its positive and negative flags exchanged. */
  function SwapAll(atoms: seq<Atom>, src: PropertySource): (out: seq<Atom>)
    requires ValidSource(src) && ShapedAtoms(atoms, src)
    ensures |out| == |atoms| && ShapedAtoms(out, src)
  {
    seq(|atoms|, j requires 0 <= j < |atoms| => atoms[j].(properties := SwapSlots(atoms[j].properties, src)))
  }

  /** Exchanging two slots twice restores the string. */
  lemma ExchangeInvolution(p: seq<char>, i: nat, j: nat)
    requires i < |p| && j < |p|
    ensures Exchange(Exchange(p, i, j), i, j) == p
  {
    var q := Exchange(Exchange(p, i, j), i, j);
    assert forall k :: 0 <= k < |p| ==> q[k] == p[k];
  }

  /** match.c's flags with the charges swapped are the unswapped flags exchanged. */
  lemma LegacySwap(resnam: seq<char>)
    ensures LegacyProperties(resnam, true) == Exchange(LegacyProperties(resnam, false), PROP_POSITIVE, PROP_NEGATIVE)
  {
    var swapped := LegacyProperties(resnam, true);
    var exchanged := Exchange(LegacyProperties(resnam, false), PROP_POSITIVE, PROP_NEGATIVE);
    assert forall k :: 0 <= k < MAXPROP - 1 ==> swapped[k] == exchanged[k];
  }

  /**
   * match.c's property flags: '1' exactly where the residue name sets the
   * flag (the charges exchanged when `swap`), '0' everywhere else.
   */
  lemma LegacyFlags(resnam: seq<char>, swap: bool)
    ensures var p := LegacyProperties(resnam, swap);
      && (p[PROP_AROM] == '1' <==> LegacyAromatic(resnam))
      && (p[if swap then PROP_NEGATIVE else PROP_POSITIVE] == '1' <==> LegacyPositive(resnam))
      && (p[if swap then PROP_POSITIVE else PROP_NEGATIVE] == '1' <==> LegacyNegative(resnam))
      && (forall k :: 0 <= k < MAXPROP - 1 ==> IsBit(p[k]))
      && (forall k :: PROP_AROM < k < MAXPROP - 1 ==> p[k] == '0')
  {
  }

  /** A residue name cannot be both positive and negative. */
  lemma LegacyChargesExclusive(resnam: seq<char>)
    ensures !(LegacyPositive(resnam) && LegacyNegative(resnam))
  {
    StrNEqualLiteral(resnam, "LYS");
    StrNEqualLiteral(resnam, "ARG");
    StrNEqualLiteral(resnam, "GLU");
    StrNEqualLiteral(resnam, "ASP");
    StrNEqualLiteral(resnam, "  A");
    StrNEqualLiteral(resnam, "  T");
    StrNEqualLiteral(resnam, "  C");
    StrNEqualLiteral(resnam, "  G");
    if LegacyPositive(resnam) {
      assert resnam[1] == 'Y' || resnam[1] == 'R';
    }
  }

  lemma SlotSwap(e: Endpoint, src: PropertySource)
    requires ValidSource(src) && WellFormedEndpoint(e, src)
    ensures SlotProperties(e, src, true) == SwapSlots(SlotProperties(e, src, false), src)
  {
    if src.FromName? {
      LegacySwap(e.resnam);
    }
  }

  lemma SwapAllResids(atoms: seq<Atom>, src: PropertySource, x: seq<char>)
    requires ValidSource(src) && ShapedAtoms(atoms, src)
    ensures FirstIndex(SwapAll(atoms, src), x) == FirstIndex(atoms, x)
  {
    var swapped := SwapAll(atoms, src);
    assert forall k :: 0 <= k < |atoms| ==> swapped[k].resid == atoms[k].resid;
  }

  /** `Filled` on a swapped slot with `swap` is `Filled` without it, then swapped. */
  lemma FilledSwap(current: Atom, reinit: bool, e: Endpoint, bin: int, src: PropertySource)
    requires ValidSource(src) && WellFormedEndpoint(e, src) && 0 <= bin <= MAXDIST - 2
    requires Shaped(current, src)
    ensures var plain := Filled(current, reinit, e, bin, src, false);
            Filled(current.(properties := SwapSlots(current.properties, src)), reinit, e, bin, src, true)
            == plain.(properties := SwapSlots(plain.properties, src))
  {
    SlotSwap(e, src);
  }

  /** Swapping a sequence with one more atom swaps that atom too. */
  lemma SwapAllSnoc(atoms: seq<Atom>, a: Atom, src: PropertySource)
    requires ValidSource(src) && ShapedAtoms(atoms, src) && Shaped(a, src)
    ensures SwapAll(atoms + [a], src) == SwapAll(atoms, src) + [a.(properties := SwapSlots(a.properties, src))]
  {
    var left := SwapAll(atoms + [a], src);
    var right := SwapAll(atoms, src) + [a.(properties := SwapSlots(a.properties, src))];
    forall j | 0 <= j < |left| ensures left[j] == right[j] {
      if j < |atoms| {
        assert (atoms + [a])[j] == atoms[j];
      }
    }
  }

  /** Swapping a sequence with one slot replaced swaps the replacement. */
  lemma SwapAllUpdate(atoms: seq<Atom>, pos: int, a: Atom, src: PropertySource)
    requires ValidSource(src) && ShapedAtoms(atoms, src) && Shaped(a, src) && 0 <= pos < |atoms|
    ensures SwapAll(atoms[pos := a], src) == SwapAll(atoms, src)[pos := a.(properties := SwapSlots(a.properties, src))]
  {
    var left := SwapAll(atoms[pos := a], src);
    var right := SwapAll(atoms, src)[pos := a.(properties := SwapSlots(a.properties, src))];
    forall j | 0 <= j < |left| ensures left[j] == right[j] {
    }
  }

  /** `PlaceSwap` when the residue is new: both sides append one slot. */
  lemma PlaceSwapAppend(atoms: seq<Atom>, e: Endpoint, bin: int, src: PropertySource)
    requires ValidSource(src) && WellFormedEndpoint(e, src) && 0 <= bin <= MAXDIST - 2
    requires ShapedAtoms(atoms, src) && FirstIndex(atoms, e.resid) < 0
    ensures Place(SwapAll(atoms, src), e, bin, src, true) == SwapAll(Place(atoms, e, bin, src, false), src)
  {
    SwapAllResids(atoms, src, e.resid);
    var plain := Filled(FreshAtom(e, src, false), true, e, bin, src, false);
    SwapAllSnoc(atoms, plain, src);
    SlotSwap(e, src);
  }

  /** `PlaceSwap` when the residue already has the slot `pos`: both sides update it. */
  lemma PlaceSwapUpdate(atoms: seq<Atom>, e: Endpoint, bin: int, src: PropertySource, pos: int)
    requires ValidSource(src) && WellFormedEndpoint(e, src) && 0 <= bin <= MAXDIST - 2
    requires ShapedAtoms(atoms, src) && pos == FirstIndex(atoms, e.resid) && pos >= 0
    ensures Place(SwapAll(atoms, src), e, bin, src, true) == SwapAll(Place(atoms, e, bin, src, false), src)
  {
    SwapAllResids(atoms, src, e.resid);
    var reinit := pos == |atoms| - 1;
    var plain := Filled(atoms[pos], reinit, e, bin, src, false);
    SwapAllUpdate(atoms, pos, plain, src);
    FilledSwap(atoms[pos], reinit, e, bin, src);
  }

  lemma PlaceSwap(atoms: seq<Atom>, e: Endpoint, bin: int, src: PropertySource)
    requires ValidSource(src) && WellFormedEndpoint(e, src) && 0 <= bin <= MAXDIST - 2
    requires ShapedAtoms(atoms, src)
    ensures Place(SwapAll(atoms, src), e, bin, src, true) == SwapAll(Place(atoms, e, bin, src, false), src)
  {
    var pos := FirstIndex(atoms, e.resid);
    if pos < 0 {
      PlaceSwapAppend(atoms, e, bin, src);
    } else {
      PlaceSwapUpdate(atoms, e, bin, src, pos);
    }
  }

  /**
   * Building the pattern with `invert` (`SwapProp`) gives the same atoms as
   * building it without and exchanging every atom's positive and negative
   * flags; nothing else differs.
   */
  lemma {:induction false} BuildSwap(recs: seq<Record>, src: PropertySource)
    requires ValidSource(src) && WellFormedRecords(recs, src)
    ensures Build(recs, src, true) == SwapAll(Build(recs, src, false), src)
  {
    if |recs| > 0 {
      var init := recs[..|recs| - 1];
      var r := recs[|recs| - 1];
      assert WellFormedRecords(init, src);
      BuildSwap(init, src);
      if !r.dead {
        var atoms := Build(init, src, false);
        PlaceSwap(atoms, r.first, r.dist, src);
        PlaceSwap(Place(atoms, r.first, r.dist, src, false), r.second, r.dist, src);
      }
    }
  }

  /**
   * `FillAtom` re-initialises any atom that sits in the last slot, so an
   * earlier record's bin for that residue is lost: with records A–B (bin 3),
   * A–C (bin 5) and B–C (bin 7), atom C is last when B–C is entered, and its
   * bin 5 is wiped.
   */
  lemma LastSlotReset()
    ensures var a := Endpoint("ALA", "A1", []);
            var b := Endpoint("GLY", "B1", []);
            var c := Endpoint("SER", "C1", []);
            var atoms := Build([Record(a, b, 3, false), Record(a, c, 5, false), Record(b, c, 7, false)], FromName, false);
            && |atoms| == 3 && atoms[2].resid == "C1"
            && atoms[2].dist[7] == '1' && atoms[2].dist[5] == '0'
  {
    var a := Endpoint("ALA", "A1", []);
    var b := Endpoint("GLY", "B1", []);
    var c := Endpoint("SER", "C1", []);
    var r3 := Record(b, c, 7, false);
    var recs := [Record(a, b, 3, false), Record(a, c, 5, false), r3];
    var s2 := Build(recs[..2], FromName, false);
    FirstTwoRecords();
    assert recs[..2] == [Record(a, b, 3, false), Record(a, c, 5, false)];
    var s3 := Build(recs, FromName, false);
    assert s3 == Step(s2, r3, FromName, false);
    var mid := Place(s2, b, 7, FromName, false);
    assert FirstIndex(s2, "B1") == 1;
    assert mid[2] == s2[2] && |mid| == 3;
    assert FirstIndex(mid, "C1") == 2;
    assert s3[2] == Filled(s2[2], true, c, 7, FromName, false);
  }

  /** The first two records of `LastSlotReset` leave A1, B1, C1 in that order. */
  lemma FirstTwoRecords()
    ensures var a := Endpoint("ALA", "A1", []);
            var s2 := Build([Record(a, Endpoint("GLY", "B1", []), 3, false),
                             Record(a, Endpoint("SER", "C1", []), 5, false)], FromName, false);
            && |s2| == 3 && s2[0].resid == "A1" && s2[1].resid == "B1" && s2[2].resid == "C1"
  {
    var a := Endpoint("ALA", "A1", []);
    var r1 := Record(a, Endpoint("GLY", "B1", []), 3, false);
    var r2 := Record(a, Endpoint("SER", "C1", []), 5, false);
    assert [r1, r2][..1] == [r1] && [r1][..0] == [];
    var s1 := Build([r1], FromName, false);
    assert s1 == Step([], r1, FromName, false);
    assert |s1| == 2 && s1[0].resid == "A1" && s1[1].resid == "B1";
    assert Build([r1, r2], FromName, false) == Step(s1, r2, FromName, false);
    assert FirstIndex(s1, "A1") == 0;
    var mid := Place(s1, a, 5, FromName, false);
    assert |mid| == 2 && mid[1].resid == "B1";
    assert FirstIndex(mid, "C1") == -1;
  }

  /**
   * `CreateAtomArray` allocates `ndata` atoms, but one live record names two
   * residues: a single record already needs two slots.
   */
  lemma AllocationOverflow()
    ensures var recs := [Record(Endpoint("LYS", "A1", []), Endpoint("GLU", "A2", []), 0, false)];
            |Build(recs, FromName, false)| == 2 > |recs|
  {
    var r := Record(Endpoint("LYS", "A1", []), Endpoint("GLU", "A2", []), 0, false);
    assert [r][..0] == [];
    assert Build([r], FromName, false) == Step([], r, FromName, false);
  }

  /** The atom list never needs more than two slots per record, the size this model allocates. */
  lemma AllocationSuffices(recs: seq<Record>, src: PropertySource, swap: bool)
    requires ValidSource(src) && WellFormedRecords(recs, src)
    ensures |Build(recs, src, swap)| <= |LiveSet(recs)| <= 2 * |recs|
  {
    BuildCount(recs, src, swap);
  }
}
