/**
 * Signature building: the pairwise distance records (`DATA`), the per-residue
 * signatures built from them (`ATOM`), and the routines that build and prune
 * them: `ConvertDistanceToBin`, `GotAtom`, `FillAtom`, `CreateAtomArray` and
 * `KillAtom` of src/matchpatch.c and of its older copy match.c.
 *
 * The two programs differ only in where a new atom's property string comes
 * from, so that choice is a parameter, `PropertySource`.
 */
module Signatures {
  import opened Common
  import opened CStrings
  import opened Sequences
  import opened Bitstrings

  /**
   * The layout of a property string, defined in properties.h (not part of
   * this model): its length `MAXPROPERTIES` and the slot of each property.
   */
  datatype Layout = Layout(width: nat, positive: nat, negative: nat, aromatic: nat,
                           hydrophobic: nat, hydrophilic: nat)
  {
    /** Every slot lies inside the string and no two properties share one. */
    predicate Valid()
    {
      && positive < width && negative < width && aromatic < width
      && hydrophobic < width && hydrophilic < width
      && positive != negative && positive != aromatic && positive != hydrophobic
      && positive != hydrophilic && negative != aromatic && negative != hydrophobic
      && negative != hydrophilic && aromatic != hydrophobic && aromatic != hydrophilic
      && hydrophobic != hydrophilic
    }
  }

  /** Where a new atom's property string comes from. */
  datatype PropertySource =
    | FromRecord(layout: Layout)  // src/matchpatch.c: copied from the distance record
    | FromName                    // match.c: derived from the residue name

  /** match.c's property buffer: `MAXPROP` characters, the last one NUL. */
  const MAXPROP: nat := 8
  const PROP_POSITIVE: nat := 0
  const PROP_NEGATIVE: nat := 1
  const PROP_AROM: nat := 2

  /** How many property characters `strncmp` compares. */
  function PropertyWidth(src: PropertySource): nat
  {
    match src
    case FromRecord(layout) => layout.width
    case FromName => MAXPROP
  }

  predicate ValidSource(src: PropertySource)
  {
    src.FromRecord? ==> src.layout.Valid()
  }

  /** One end of a distance record: residue name, residue identifier, properties. */
  datatype Endpoint = Endpoint(resnam: seq<char>, resid: seq<char>, properties: seq<char>)

  /** A `DATA` record: two residues, their distance bin, and the dead flag. */
  datatype Record = Record(first: Endpoint, second: Endpoint, dist: int, dead: bool)

  /** An `ATOM`: one residue's signature. */
  datatype Atom = Atom(resnam: seq<char>, resid: seq<char>, dist: seq<char>, properties: seq<char>)

  /** With the record source, a property string holds `MAXPROPERTIES` characters. */
  predicate WellFormedEndpoint(e: Endpoint, src: PropertySource)
  {
    src.FromRecord? ==> |e.properties| == src.layout.width
  }

  /** A record as the readers build it: a bin from `ConvertDistanceToBin`. */
  predicate WellFormedRecord(r: Record, src: PropertySource)
  {
    0 <= r.dist <= MAXDIST - 2 && WellFormedEndpoint(r.first, src) && WellFormedEndpoint(r.second, src)
  }

  predicate WellFormedRecords(recs: seq<Record>, src: PropertySource)
  {
    forall i :: 0 <= i < |recs| ==> WellFormedRecord(recs[i], src)
  }

  predicate IsBit(c: char)
  {
    c == '0' || c == '1'
  }

  /** A distance bitstring: `MAXDIST` characters, a bit in every bin, NUL in the last slot. */
  predicate WellFormedDist(d: seq<char>)
  {
    |d| == MAXDIST && d[MAXDIST - 1] == NUL && forall k :: 0 <= k < MAXDIST - 1 ==> IsBit(d[k])
  }

  /** Length of the property string of an atom built from `src`. */
  function PropertyLength(src: PropertySource): nat
  {
    match src
    case FromRecord(layout) => layout.width
    case FromName => MAXPROP - 1
  }

  predicate WellFormedAtom(a: Atom, src: PropertySource)
  {
    WellFormedDist(a.dist) && |a.properties| == PropertyLength(src)
  }

  predicate WellFormedAtoms(atoms: seq<Atom>, src: PropertySource)
  {
    forall j :: 0 <= j < |atoms| ==> WellFormedAtom(atoms[j], src)
  }

  /** The sizes alone: a `MAXDIST`-character bitstring and a full property string. */
  predicate Shaped(a: Atom, src: PropertySource)
  {
    |a.dist| == MAXDIST && |a.properties| == PropertyLength(src)
  }

  predicate ShapedAtoms(atoms: seq<Atom>, src: PropertySource)
  {
    forall j :: 0 <= j < |atoms| ==> Shaped(atoms[j], src)
  }

  /**
   * `ConvertDistanceToBin`, given the truncated quotient `(int)(dist/gBin)`:
   * quotients past the last real bin collapse into bin `MAXDIST-2`.
   */
  function ConvertDistanceToBin(quotient: int): (bin: int)
    ensures bin == Min(quotient, MAXDIST - 2)
    ensures quotient >= 0 ==> 0 <= bin <= MAXDIST - 2
  {
    if quotient >= MAXDIST - 1 then MAXDIST - 2 else quotient
  }

  /** A larger quotient never gives a smaller bin. */
  lemma BinMonotone(q1: int, q2: int)
    requires q1 <= q2
    ensures ConvertDistanceToBin(q1) <= ConvertDistanceToBin(q2)
  {
  }

  /** The property string with the characters in slots `i` and `j` exchanged. */
  function Exchange(p: seq<char>, i: nat, j: nat): (q: seq<char>)
    requires i < |p| && j < |p|
    ensures |q| == |p| && q[i] == p[j] && q[j] == p[i]
    ensures forall k :: 0 <= k < |p| && k != i && k != j ==> q[k] == p[k]
  {
    p[i := p[j]][j := p[i]]
  }

  /** match.c: residue names that carry a positive charge. */
  predicate LegacyPositive(resnam: seq<char>)
  {
    StrNEqual(resnam, "LYS", 3) || StrNEqual(resnam, "ARG", 3)
  }

  /** match.c: residue names that carry a negative charge (nucleotides included). */
  predicate LegacyNegative(resnam: seq<char>)
  {
    || StrNEqual(resnam, "GLU", 3) || StrNEqual(resnam, "ASP", 3)
    || StrNEqual(resnam, "  A", 3) || StrNEqual(resnam, "  T", 3)
    || StrNEqual(resnam, "  C", 3) || StrNEqual(resnam, "  G", 3)
  }

  /** match.c: aromatic residue names. */
  predicate LegacyAromatic(resnam: seq<char>)
  {
    StrNEqual(resnam, "TYR", 3) || StrNEqual(resnam, "PHE", 3) || StrNEqual(resnam, "TRP", 3)
  }

  /**
   * The property string match.c's `FillAtom` builds for a residue name: the
   * characters before the NUL in slot `MAXPROP-1`, all '0' except the flags
   * the name sets; with `swap` the positive and negative targets trade places.
   */
  function LegacyProperties(resnam: seq<char>, swap: bool): (p: seq<char>)
    ensures |p| == MAXPROP - 1
  {
    var cleared := seq(MAXPROP - 1, _ => '0');
    var withPositive :=
      if LegacyPositive(resnam) then cleared[(if swap then PROP_NEGATIVE else PROP_POSITIVE) := '1'] else cleared;
    var withNegative :=
      if LegacyNegative(resnam) then withPositive[(if swap then PROP_POSITIVE else PROP_NEGATIVE) := '1']
      else withPositive;
    if LegacyAromatic(resnam) then withNegative[PROP_AROM := '1'] else withNegative
  }

  /** The property string a new atom receives. */
  function SlotProperties(e: Endpoint, src: PropertySource, swap: bool): (p: seq<char>)
    requires ValidSource(src) && WellFormedEndpoint(e, src)
    ensures |p| == PropertyLength(src)
  {
    match src
    case FromRecord(layout) =>
      if swap then Exchange(e.properties, layout.positive, layout.negative) else e.properties
    case FromName => LegacyProperties(e.resnam, swap)
  }

  /** A cleared bitstring: '0' in every bin, NUL in slot `MAXDIST-1`. */
  function EmptyDist(): (d: seq<char>)
    ensures WellFormedDist(d)
    ensures forall k :: 0 <= k < MAXDIST - 1 ==> d[k] == '0'
  {
    seq(MAXDIST, k => if k == MAXDIST - 1 then NUL else '0')
  }

  /** The slot `FillAtom` initialises for a new residue, before the bin is set. */
  function FreshAtom(e: Endpoint, src: PropertySource, swap: bool): (a: Atom)
    requires ValidSource(src) && WellFormedEndpoint(e, src)
    ensures WellFormedAtom(a, src)
  {
    Atom(e.resnam, e.resid, EmptyDist(), SlotProperties(e, src, swap))
  }

  /**
   * The slot `FillAtom` leaves behind: when `reinit` (the test `pos == natom-1`)
   * the slot is initialised afresh, then bin `bin` is set to '1'.
   */
  function Filled(current: Atom, reinit: bool, e: Endpoint, bin: int, src: PropertySource, swap: bool): (a: Atom)
    requires ValidSource(src) && WellFormedEndpoint(e, src) && 0 <= bin <= MAXDIST - 2
    requires !reinit ==> Shaped(current, src)
    ensures Shaped(a, src) && a.dist[bin] == '1'
  {
    var base := if reinit then FreshAtom(e, src, swap) else current;
    base.(dist := base.dist[bin := '1'])
  }

  /** `GotAtom`: the first index holding `resid`, or -1 when there is none. */
  function FirstIndex(atoms: seq<Atom>, resid: seq<char>): (r: int)
    ensures -1 <= r < |atoms|
    ensures r == -1 <==> forall k :: 0 <= k < |atoms| ==> atoms[k].resid != resid
    ensures r >= 0 ==> atoms[r].resid == resid && forall k :: 0 <= k < r ==> atoms[k].resid != resid
  {
    if |atoms| == 0 then -1
    else if atoms[0].resid == resid then 0
    else
      var r := FirstIndex(atoms[1..], resid);
      assert forall k :: 1 <= k < |atoms| ==> atoms[k] == atoms[1..][k - 1];
      if r < 0 then -1 else r + 1
  }

  /**
   * One endpoint of a record entered into the atom list: a new atom when the
   * residue was not seen before, otherwise `FillAtom` on the atom found —
   * which re-initialises it when it sits in the last slot.
   */
  function Place(atoms: seq<Atom>, e: Endpoint, bin: int, src: PropertySource, swap: bool): (r: seq<Atom>)
    requires ValidSource(src) && WellFormedEndpoint(e, src) && 0 <= bin <= MAXDIST - 2
    requires ShapedAtoms(atoms, src)
    ensures ShapedAtoms(r, src) && |atoms| <= |r| <= |atoms| + 1
  {
    var pos := FirstIndex(atoms, e.resid);
    if pos < 0 then atoms + [Filled(FreshAtom(e, src, swap), true, e, bin, src, swap)]
    else atoms[pos := Filled(atoms[pos], pos == |atoms| - 1, e, bin, src, swap)]
  }

  /** One pass of `CreateAtomArray`'s loop: a dead record is skipped. */
  function Step(atoms: seq<Atom>, r: Record, src: PropertySource, swap: bool): (out: seq<Atom>)
    requires ValidSource(src) && WellFormedRecord(r, src) && ShapedAtoms(atoms, src)
    ensures ShapedAtoms(out, src) && |out| <= |atoms| + 2
  {
    if r.dead then atoms
    else Place(Place(atoms, r.first, r.dist, src, swap), r.second, r.dist, src, swap)
  }

  /** The atom list `CreateAtomArray` builds from the records. */
  function Build(recs: seq<Record>, src: PropertySource, swap: bool): (atoms: seq<Atom>)
    requires ValidSource(src) && WellFormedRecords(recs, src)
    ensures ShapedAtoms(atoms, src)
    ensures |atoms| <= 2 * |recs|
  {
    if |recs| == 0 then []
    else Step(Build(recs[..|recs| - 1], src, swap), recs[|recs| - 1], src, swap)
  }

  /** Does the record name one of `resids` at either end? */
  predicate Names(r: Record, resids: set<seq<char>>)
  {
    r.first.resid in resids || r.second.resid in resids
  }

  /** The records after every residue in `doomed` has been killed. */
  function Eliminate(recs: seq<Record>, doomed: set<seq<char>>): seq<Record>
  {
    seq(|recs|, i requires 0 <= i < |recs| => recs[i].(dead := recs[i].dead || Names(recs[i], doomed)))
  }

  /** `GotAtom` (src/matchpatch.c:513-525, match.c:484-496). */
  method GotAtom(outdata: array<Atom>, natom: nat, resid: seq<char>) returns (pos: int)
    requires natom <= outdata.Length
    ensures pos == FirstIndex(outdata[..natom], resid)
  {
    var i := 0;
    while i < natom
      invariant 0 <= i <= natom
      invariant forall k :: 0 <= k < i ==> outdata[k].resid != resid
    {
      if outdata[i].resid == resid {
        return i;
      }
      i := i + 1;
    }
    return -1;
  }

  /**
   * `FillAtom` (src/matchpatch.c:542-573, match.c:512-549): when `pos` is the
   * last slot the whole slot is (re)initialised, properties included; then the
   * bin's flag is set. Nothing else in the array changes.
   */
  method FillAtom(outdata: array<Atom>, natom: nat, pos: nat, resid: seq<char>, resnam: seq<char>,
                  properties: seq<char>, distRange: int, src: PropertySource, swapProp: bool)
    requires pos < natom <= outdata.Length
    requires ValidSource(src) && WellFormedEndpoint(Endpoint(resnam, resid, properties), src)
    requires 0 <= distRange <= MAXDIST - 2
    requires pos != natom - 1 ==> Shaped(outdata[pos], src)
    modifies outdata
    ensures outdata[..] == old(outdata[..])[pos := Filled(old(outdata[pos]), pos == natom - 1,
                                                          Endpoint(resnam, resid, properties), distRange, src, swapProp)]
  {
    var atom := outdata[pos];
    if pos == natom - 1 {
      var dist := new char[MAXDIST];
      for i := 0 to MAXDIST
        invariant forall k :: 0 <= k < i ==> dist[k] == '0'
        modifies dist
      {
        dist[i] := '0';
      }
      dist[MAXDIST - 1] := NUL;
      assert dist[..] == EmptyDist();
      var props;
      match src {
        case FromRecord(layout) =>
          props := properties;
          if swapProp {
            var temp := props[layout.positive];
            props := props[layout.positive := props[layout.negative]];
            props := props[layout.negative := temp];
          }
        case FromName =>
          props := LegacyPropertyFlags(resnam, swapProp);
      }
      assert props == SlotProperties(Endpoint(resnam, resid, properties), src, swapProp);
      atom := Atom(resnam, resid, dist[..], props);
    }
    assert atom == if pos == natom - 1 then FreshAtom(Endpoint(resnam, resid, properties), src, swapProp)
                   else old(outdata[pos]);
    outdata[pos] := atom.(dist := atom.dist[distRange := '1']);
    assert outdata[pos] == Filled(old(outdata[pos]), pos == natom - 1,
                                  Endpoint(resnam, resid, properties), distRange, src, swapProp);
  }

  /** The property block of match.c's `FillAtom` (match.c:523-544). */
  method LegacyPropertyFlags(resnam: seq<char>, swapProp: bool) returns (props: seq<char>)
    ensures props == LegacyProperties(resnam, swapProp)
  {
    var property := new char[MAXPROP];
    for i := 0 to MAXPROP
      invariant forall k :: 0 <= k < i ==> property[k] == '0'
    {
      property[i] := '0';
    }
    property[MAXPROP - 1] := NUL;
    ghost var cleared := seq(MAXPROP - 1, _ => '0');
    assert property[..MAXPROP - 1] == cleared;
    if LegacyPositive(resnam) {
      property[if swapProp then PROP_NEGATIVE else PROP_POSITIVE] := '1';
    }
    if LegacyNegative(resnam) {
      property[if swapProp then PROP_POSITIVE else PROP_NEGATIVE] := '1';
    }
    if LegacyAromatic(resnam) {
      property[PROP_AROM] := '1';
    }
    props := property[..MAXPROP - 1];
  }

  /**
   * The block `CreateAtomArray` runs for each end of a live record: look the
   * residue up with `GotAtom`, claim a new last slot when it is absent, and
   * `FillAtom` the slot.
   */
  method EnterEndpoint(outatom: array<Atom>, natom: nat, e: Endpoint, bin: int, src: PropertySource, swap: bool)
    returns (count: nat)
    requires natom < outatom.Length
    requires ValidSource(src) && WellFormedEndpoint(e, src) && 0 <= bin <= MAXDIST - 2
    requires ShapedAtoms(outatom[..natom], src)
    modifies outatom
    ensures count == if FirstIndex(old(outatom[..natom]), e.resid) < 0 then natom + 1 else natom
    ensures outatom[..count] == Place(old(outatom[..natom]), e, bin, src, swap)
    ensures outatom[count..] == old(outatom[count..])
  {
    ghost var before := outatom[..natom];
    ghost var slots := outatom[..];
    var pos := GotAtom(outatom, natom, e.resid);
    count := natom;
    if pos == -1 {
      pos := count;
      count := count + 1;
    }
    FillAtom(outatom, count, pos, e.resid, e.resnam, e.properties, bin, src, swap);
    PlaceBySlot(before, slots, outatom[..], e, bin, src, swap, pos, count);
  }

  /**
   * `CreateAtomArray` (src/matchpatch.c:441-481, match.c:414-454): one atom
   * per distinct live residue, in order of first appearance. The C code
   * allocates `ndata` slots; this model allocates `2*ndata`, the most the
   * loop can fill (see `SignatureFacts.AllocationOverflow`).
   */
  method CreateAtomArray(data: array<Record>, ndata: nat, src: PropertySource, swapProp: bool)
    returns (outatom: array<Atom>, natom: nat)
    requires ndata <= data.Length
    requires ValidSource(src) && WellFormedRecords(data[..ndata], src)
    ensures fresh(outatom) && outatom.Length == 2 * ndata && natom <= outatom.Length
    ensures outatom[..natom] == Build(data[..ndata], src, swapProp)
  {
    outatom := new Atom[2 * ndata];
    natom := 0;
    for i := 0 to ndata
      invariant natom <= 2 * i
      invariant outatom[..natom] == Build(data[..i], src, swapProp)
    {
      assert data[..i + 1][..i] == data[..i] && data[..i + 1][i] == data[i];
      assert WellFormedRecord(data[..ndata][i], src);
      if data[i].dead {
        continue;
      }
      natom := EnterRecord(outatom, natom, data[i], src, swapProp);
    }
    assert data[..ndata] == data[..ndata][..ndata];
  }

  /** The body of `CreateAtomArray`'s loop for a live record: both ends entered in turn. */
  method EnterRecord(outatom: array<Atom>, natom: nat, r: Record, src: PropertySource, swap: bool)
    returns (count: nat)
    requires natom + 2 <= outatom.Length && !r.dead
    requires ValidSource(src) && WellFormedRecord(r, src) && ShapedAtoms(outatom[..natom], src)
    modifies outatom
    ensures count <= natom + 2
    ensures outatom[..count] == Step(old(outatom[..natom]), r, src, swap)
  {
    var middle := EnterEndpoint(outatom, natom, r.first, r.dist, src, swap);
    count := EnterEndpoint(outatom, middle, r.second, r.dist, src, swap);
  }

  /**
   * `FillAtom` at the index `GotAtom` found (or at a new last slot) leaves in
   * the first `n` slots exactly `Place` of the atoms that were there.
   */
  lemma PlaceBySlot(before: seq<Atom>, slots: seq<Atom>, after: seq<Atom>, e: Endpoint, bin: int,
                    src: PropertySource, swap: bool, pos: nat, n: nat)
    requires ValidSource(src) && WellFormedEndpoint(e, src) && 0 <= bin <= MAXDIST - 2
    requires ShapedAtoms(before, src) && |before| <= |slots| && before == slots[..|before|]
    requires FirstIndex(before, e.resid) == -1 ==> pos == |before| && n == |before| + 1
    requires FirstIndex(before, e.resid) != -1 ==> pos == FirstIndex(before, e.resid) && n == |before|
    requires pos < n <= |slots|
    requires pos != n - 1 ==> Shaped(slots[pos], src)
    requires after == slots[pos := Filled(slots[pos], pos == n - 1, e, bin, src, swap)]
    ensures after[..n] == Place(before, e, bin, src, swap)
  {
    if FirstIndex(before, e.resid) == -1 {
      assert after[..n] == before + [Filled(FreshAtom(e, src, swap), true, e, bin, src, swap)];
    } else {
      assert after[..n] == before[pos := Filled(before[pos], pos == |before| - 1, e, bin, src, swap)];
    }
  }

  /**
   * `KillAtom` (src/matchpatch.c:695-707, match.c:648-660): sets the dead
   * flag of exactly the records naming `resid` at either end.
   */
  method KillAtom(resid: seq<char>, data: array<Record>, ndata: nat)
    requires ndata <= data.Length
    modifies data
    ensures data[..ndata] == Eliminate(old(data[..ndata]), {resid})
    ensures forall i :: 0 <= i < ndata ==>
              data[i] == old(data[i]).(dead := old(data[i]).dead || old(data[i]).first.resid == resid
                                                                  || old(data[i]).second.resid == resid)
    ensures data[ndata..] == old(data[ndata..])
  {
    for i := 0 to ndata
      invariant forall k :: 0 <= k < i ==> data[k] == old(data[k]).(dead := old(data[k]).dead || Names(old(data[k]), {resid}))
      invariant forall k :: i <= k < data.Length ==> data[k] == old(data[k])
    {
      if resid == data[i].first.resid || resid == data[i].second.resid {
        data[i] := data[i].(dead := true);
      }
    }
  }
}
