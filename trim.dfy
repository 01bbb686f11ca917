/**
 * `TrimBitStrings` (src/matchpatch.c:718-770, match.c:670-723): a distance
 * bin flagged on one side only, pattern or structure, is cleared on that side.
 */
module Trim {
  import opened Bitstrings
  import opened Signatures

  /** Every atom's bitstring holds `MAXDIST` characters (`char dist[MAXDIST]`). */
  predicate Sized(atoms: seq<Atom>)
  {
    forall j :: 0 <= j < |atoms| ==> |atoms[j].dist| == MAXDIST
  }

  /** Some atom of the list flags bin `i`. */
  predicate AnyHit(atoms: seq<Atom>, i: nat)
    requires Sized(atoms) && i < MAXDIST
  {
    exists j :: 0 <= j < |atoms| && atoms[j].dist[i] == '1'
  }

  /** Is bin `i` cleared on the side `mine`: flagged there and nowhere in `other`? */
  predicate Cleared(mine: seq<Atom>, other: seq<Atom>, i: nat)
    requires Sized(mine) && Sized(other) && i < MAXDIST
  {
    AnyHit(mine, i) && !AnyHit(other, i)
  }

  /** Bitstring `d` of a `mine` atom with the cleared bins below `n` set to '0'. */
  function TrimDist(d: seq<char>, mine: seq<Atom>, other: seq<Atom>, n: nat): (t: seq<char>)
    requires Sized(mine) && Sized(other) && |d| == MAXDIST && n <= MAXDIST
    ensures |t| == MAXDIST
  {
    seq(MAXDIST, i requires 0 <= i < MAXDIST => if i < n && Cleared(mine, other, i) then '0' else d[i])
  }

  /** The `mine` side after the first `n` bins have been trimmed against `other`. */
  function TrimUpTo(mine: seq<Atom>, other: seq<Atom>, n: nat): (out: seq<Atom>)
    requires Sized(mine) && Sized(other) && n <= MAXDIST
    ensures |out| == |mine| && Sized(out)
  {
    seq(|mine|, j requires 0 <= j < |mine| => mine[j].(dist := TrimDist(mine[j].dist, mine, other, n)))
  }

  /**
   * The `mine` side after `TrimBitStrings`. Both sides are trimmed as if at
   * once: every bin's decision is taken on the untrimmed lists.
   */
  function TrimSide(mine: seq<Atom>, other: seq<Atom>): (out: seq<Atom>)
    requires Sized(mine) && Sized(other)
    ensures |out| == |mine| && Sized(out)
    ensures forall j, i :: 0 <= j < |mine| && 0 <= i < MAXDIST ==>
              out[j].dist[i] == if Cleared(mine, other, i) then '0' else mine[j].dist[i]
  {
    TrimUpTo(mine, other, MAXDIST)
  }

  /**
   * After trimming, a bin is flagged on the pattern side exactly when it is
   * flagged on the structure side.
   */
  lemma Balanced(pat: seq<Atom>, struc: seq<Atom>, i: nat)
    requires Sized(pat) && Sized(struc) && i < MAXDIST
    ensures AnyHit(TrimSide(pat, struc), i) <==> AnyHit(TrimSide(struc, pat), i)
  {
    var tp := TrimSide(pat, struc);
    var ts := TrimSide(struc, pat);
    if AnyHit(tp, i) {
      var j :| 0 <= j < |tp| && tp[j].dist[i] == '1';
      assert pat[j].dist[i] == '1' && !Cleared(pat, struc, i);
      var k :| 0 <= k < |struc| && struc[k].dist[i] == '1';
      assert ts[k].dist[i] == '1';
    }
    if AnyHit(ts, i) {
      var j :| 0 <= j < |ts| && ts[j].dist[i] == '1';
      assert struc[j].dist[i] == '1' && !Cleared(struc, pat, i);
      var k :| 0 <= k < |pat| && pat[k].dist[i] == '1';
      assert tp[k].dist[i] == '1';
    }
  }

  /**
   * Trimming never sets a flag, never touches anything but the bitstrings,
   * and keeps a flag exactly when the other side flags the same bin.
   */
  lemma TrimOnlyClears(mine: seq<Atom>, other: seq<Atom>)
    requires Sized(mine) && Sized(other)
    ensures var out := TrimSide(mine, other);
      forall j :: 0 <= j < |mine| ==>
        && out[j].resnam == mine[j].resnam && out[j].resid == mine[j].resid
        && out[j].properties == mine[j].properties
        && (forall i :: 0 <= i < MAXDIST && out[j].dist[i] == '1' ==> mine[j].dist[i] == '1')
        && (forall i :: 0 <= i < MAXDIST && mine[j].dist[i] == '1' ==>
              (out[j].dist[i] == '1' <==> AnyHit(other, i)))
  {
    var out := TrimSide(mine, other);
    forall j, i | 0 <= j < |mine| && 0 <= i < MAXDIST && mine[j].dist[i] == '1'
      ensures AnyHit(mine, i)
    {
    }
  }

  /** Bins that were not cleared keep their value; trimming twice is trimming once. */
  lemma {:induction false} TrimIdempotent(pat: seq<Atom>, struc: seq<Atom>)
    requires Sized(pat) && Sized(struc)
    ensures TrimSide(TrimSide(pat, struc), TrimSide(struc, pat)) == TrimSide(pat, struc)
    ensures TrimSide(TrimSide(struc, pat), TrimSide(pat, struc)) == TrimSide(struc, pat)
  {
    var tp := TrimSide(pat, struc);
    var ts := TrimSide(struc, pat);
    forall i | 0 <= i < MAXDIST ensures !Cleared(tp, ts, i) && !Cleared(ts, tp, i) {
      Balanced(pat, struc, i);
    }
    assert forall j :: 0 <= j < |tp| ==> TrimSide(tp, ts)[j] == tp[j];
    assert forall j :: 0 <= j < |ts| ==> TrimSide(ts, tp)[j] == ts[j];
  }

  /** A well-formed bitstring stays well formed: only '1' becomes '0', the NUL stays. */
  lemma TrimWellFormed(mine: seq<Atom>, other: seq<Atom>, src: PropertySource)
    requires Sized(other) && WellFormedAtoms(mine, src)
    ensures WellFormedAtoms(TrimSide(mine, other), src)
  {
    var out := TrimSide(mine, other);
    forall j | 0 <= j < |mine| ensures WellFormedAtom(out[j], src) {
      assert out[j].dist[MAXDIST - 1] == mine[j].dist[MAXDIST - 1];
    }
  }

  /** Trimming no bins changes nothing. */
  lemma TrimNone(mine: seq<Atom>, other: seq<Atom>)
    requires Sized(mine) && Sized(other)
    ensures TrimUpTo(mine, other, 0) == mine
  {
    forall j | 0 <= j < |mine| ensures TrimUpTo(mine, other, 0)[j] == mine[j] {
      assert TrimDist(mine[j].dist, mine, other, 0) == mine[j].dist;
    }
  }

  /** Bins from `n` on are still as they were before trimming. */
  lemma UntrimmedBin(mine: seq<Atom>, other: seq<Atom>, n: nat)
    requires Sized(mine) && Sized(other) && n < MAXDIST
    ensures AnyHit(TrimUpTo(mine, other, n), n) <==> AnyHit(mine, n)
  {
    var t := TrimUpTo(mine, other, n);
    assert forall j :: 0 <= j < |mine| ==> t[j].dist[n] == mine[j].dist[n];
  }

  /** Clearing bin `n` of every atom takes the trim of the first `n` bins to the first `n+1`. */
  lemma TrimNext(mine: seq<Atom>, other: seq<Atom>, n: nat, j: nat)
    requires Sized(mine) && Sized(other) && n < MAXDIST && j < |mine|
    ensures TrimUpTo(mine, other, n + 1)[j]
            == var a := TrimUpTo(mine, other, n)[j];
               if Cleared(mine, other, n) then a.(dist := a.dist[n := '0']) else a
  {
    var a := TrimUpTo(mine, other, n)[j];
    var b := TrimUpTo(mine, other, n + 1)[j];
    if Cleared(mine, other, n) {
      assert b.dist == a.dist[n := '0'];
    } else {
      assert b.dist == a.dist;
    }
  }

  /**
   * `TrimBitStrings`: for each bin, search both sides for a flag, then clear
   * the bin on the side that has it when the other side does not.
   */
  method TrimBitStrings(npat: nat, pat: array<Atom>, nstruc: nat, struc: array<Atom>)
    requires pat != struc && npat <= pat.Length && nstruc <= struc.Length
    requires Sized(pat[..npat]) && Sized(struc[..nstruc])
    modifies pat, struc
    ensures pat[..npat] == TrimSide(old(pat[..npat]), old(struc[..nstruc]))
    ensures struc[..nstruc] == TrimSide(old(struc[..nstruc]), old(pat[..npat]))
    ensures pat[npat..] == old(pat[npat..]) && struc[nstruc..] == old(struc[nstruc..])
  {
    ghost var p0 := pat[..npat];
    ghost var s0 := struc[..nstruc];
    TrimNone(p0, s0);
    TrimNone(s0, p0);
    for i := 0 to MAXDIST
      invariant pat[..npat] == TrimUpTo(p0, s0, i)
      invariant struc[..nstruc] == TrimUpTo(s0, p0, i)
      invariant pat[npat..] == old(pat[npat..]) && struc[nstruc..] == old(struc[nstruc..])
    {
      var patHit := Flagged(pat, npat, i);
      var strucHit := Flagged(struc, nstruc, i);
      UntrimmedBin(p0, s0, i);
      UntrimmedBin(s0, p0, i);
      if patHit && !strucHit {
        ClearBin(pat, npat, i);
      }
      if strucHit && !patHit {
        ClearBin(struc, nstruc, i);
      }
      forall j | 0 <= j < npat ensures pat[..npat][j] == TrimUpTo(p0, s0, i + 1)[j] {
        TrimNext(p0, s0, i, j);
      }
      forall j | 0 <= j < nstruc ensures struc[..nstruc][j] == TrimUpTo(s0, p0, i + 1)[j] {
        TrimNext(s0, p0, i, j);
      }
    }
  }

  /** The search loop of `TrimBitStrings` for one side and one bin. */
  method Flagged(atoms: array<Atom>, n: nat, i: nat) returns (hit: bool)
    requires n <= atoms.Length && i < MAXDIST && Sized(atoms[..n])
    ensures hit <==> AnyHit(atoms[..n], i)
  {
    hit := false;
    for j := 0 to n
      invariant forall k :: 0 <= k < j ==> atoms[k].dist[i] != '1'
    {
      if atoms[j].dist[i] == '1' {
        return true;
      }
    }
    assert forall k :: 0 <= k < n ==> atoms[..n][k] == atoms[k];
  }

  /** The clearing loop of `TrimBitStrings` for one side and one bin. */
  method ClearBin(atoms: array<Atom>, n: nat, i: nat)
    requires n <= atoms.Length && i < MAXDIST && Sized(atoms[..n])
    modifies atoms
    ensures forall j :: 0 <= j < n ==> atoms[j] == old(atoms[j]).(dist := old(atoms[j]).dist[i := '0'])
    ensures atoms[n..] == old(atoms[n..])
  {
    for j := 0 to n
      invariant forall k :: 0 <= k < j ==> atoms[k] == old(atoms[k]).(dist := old(atoms[k]).dist[i := '0'])
      invariant forall k :: j <= k < atoms.Length ==> atoms[k] == old(atoms[k])
    {
      assert atoms[j] == atoms[..n][j];
      atoms[j] := atoms[j].(dist := atoms[j].dist[i := '0']);
    }
  }
}
