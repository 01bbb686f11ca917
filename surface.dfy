/**
 * The selection rules of src/matchpatchsurface.c: the property string of a
 * residue (`SetPropertyString`), the atoms of interest on the surface and
 * their reduction to one entry per residue (`FindAtomsOfInterest`), and the
 * residue-range filter (`SelectRanges`).
 *
 * A PDB linked list is a sequence of `PdbAtom`s; the coordinates, and the
 * centre-of-gravity averaging done on them, are not modelled.
 */
module Surface {
  import opened CStrings
  import opened Sequences
  import opened Signatures

  /** The fields of a PDB record the selection rules read or write. */
  datatype PdbAtom = PdbAtom(resnam: seq<char>, atnam: seq<char>, resnum: int,
                             insert: seq<char>, chain: seq<char>, occ: real)

  /** `s[0]` of a C string: its first character, or the terminator of an empty one. */
  function FirstChar(s: seq<char>): char
  {
    if |s| == 0 then NUL else s[0]
  }

  // ---------------------------------------------------------------------
  // SetPropertyString (src/matchpatchsurface.c:758-818)

  /** The residue names `SetPropertyString` flags, each tested on its first three characters. */
  predicate NegativeResidue(resnam: seq<char>)
  {
    StrNEqual(resnam, "ASP", 3) || StrNEqual(resnam, "A  ", 3) || StrNEqual(resnam, "T  ", 3)
    || StrNEqual(resnam, "C  ", 3) || StrNEqual(resnam, "G  ", 3) || StrNEqual(resnam, "GLU", 3)
  }

  predicate PositiveResidue(resnam: seq<char>)
  {
    StrNEqual(resnam, "LYS", 3) || StrNEqual(resnam, "ARG", 3) || StrNEqual(resnam, "HIS", 3)
  }

  predicate AromaticResidue(resnam: seq<char>)
  {
    StrNEqual(resnam, "PHE", 3) || StrNEqual(resnam, "TYR", 3) || StrNEqual(resnam, "TRP", 3)
  }

  predicate HydrophobicResidue(resnam: seq<char>)
  {
    StrNEqual(resnam, "PHE", 3) || StrNEqual(resnam, "ILE", 3) || StrNEqual(resnam, "LEU", 3)
    || StrNEqual(resnam, "VAL", 3) || StrNEqual(resnam, "TRP", 3)
  }

  predicate HydrophilicResidue(resnam: seq<char>)
  {
    StrNEqual(resnam, "ASP", 3) || StrNEqual(resnam, "GLU", 3) || StrNEqual(resnam, "HIS", 3)
    || StrNEqual(resnam, "LYS", 3) || StrNEqual(resnam, "ASN", 3) || StrNEqual(resnam, "GLN", 3)
    || StrNEqual(resnam, "ARG", 3) || StrNEqual(resnam, "SER", 3) || StrNEqual(resnam, "THR", 3)
    || StrNEqual(resnam, "TYR", 3)
  }

  /** `s` with slot `k` set to '1' when `flag`. */
  function SetIf(s: seq<char>, flag: bool, k: nat): seq<char>
    requires k < |s|
  {
    if flag then s[k := '1'] else s
  }

  /**
   * The buffer `SetPropertyString` leaves: `MAXPROPERTIES` '0's and a NUL,
   * then a '1' written in each flagged slot, in the order of the source.
   */
  function PropertyString(resnam: seq<char>, layout: Layout): (p: seq<char>)
    requires layout.Valid()
    ensures |p| == layout.width + 1
  {
    var cleared := seq(layout.width, _ => '0') + [NUL];
    var p1 := SetIf(cleared, NegativeResidue(resnam), layout.negative);
    var p2 := SetIf(p1, PositiveResidue(resnam), layout.positive);
    var p3 := SetIf(p2, AromaticResidue(resnam), layout.aromatic);
    var p4 := SetIf(p3, HydrophobicResidue(resnam), layout.hydrophobic);
    SetIf(p4, HydrophilicResidue(resnam), layout.hydrophilic)
  }

  /**
   * The property string holds exactly `MAXPROPERTIES` flags and a NUL; each
   * property's slot is '1' exactly when the residue name has the property,
   * and every other slot is '0'.
   */
  lemma PropertyFlags(resnam: seq<char>, layout: Layout)
    requires layout.Valid()
    ensures var p := PropertyString(resnam, layout);
      && p[layout.width] == NUL
      && (forall k :: 0 <= k < layout.width ==> IsBit(p[k]))
      && (p[layout.negative] == '1' <==> NegativeResidue(resnam))
      && (p[layout.positive] == '1' <==> PositiveResidue(resnam))
      && (p[layout.aromatic] == '1' <==> AromaticResidue(resnam))
      && (p[layout.hydrophobic] == '1' <==> HydrophobicResidue(resnam))
      && (p[layout.hydrophilic] == '1' <==> HydrophilicResidue(resnam))
      && (forall k :: (0 <= k < layout.width && k != layout.negative && k != layout.positive
                        && k != layout.aromatic && k != layout.hydrophobic && k != layout.hydrophilic) ==> p[k] == '0')
  {
    forall k | 0 <= k <= layout.width {
      PropertyAt(resnam, layout, k);
    }
  }

  /** Slot `k` of the property string. */
  lemma PropertyAt(resnam: seq<char>, layout: Layout, k: nat)
    requires layout.Valid() && k <= layout.width
    ensures PropertyString(resnam, layout)[k]
            == if k == layout.width then NUL
               else if (k == layout.negative && NegativeResidue(resnam))
                       || (k == layout.positive && PositiveResidue(resnam))
                       || (k == layout.aromatic && AromaticResidue(resnam))
                       || (k == layout.hydrophobic && HydrophobicResidue(resnam))
                       || (k == layout.hydrophilic && HydrophilicResidue(resnam)) then '1'
               else '0'
  {
  }

  /** No residue name is both positive and negative. */
  lemma ChargesExclusive(resnam: seq<char>)
    ensures !(NegativeResidue(resnam) && PositiveResidue(resnam))
  {
    StrNEqualLiteral(resnam, "ASP");
    StrNEqualLiteral(resnam, "A  ");
    StrNEqualLiteral(resnam, "T  ");
    StrNEqualLiteral(resnam, "C  ");
    StrNEqualLiteral(resnam, "G  ");
    StrNEqualLiteral(resnam, "GLU");
    StrNEqualLiteral(resnam, "LYS");
    StrNEqualLiteral(resnam, "ARG");
    StrNEqualLiteral(resnam, "HIS");
    if PositiveResidue(resnam) {
      assert resnam[0] == 'L' || resnam[0] == 'A' || resnam[0] == 'H';
      assert resnam[1] == 'Y' || resnam[1] == 'R' || resnam[1] == 'I';
    }
  }

  /** Several flags can be set at once: PHE, TYR and HIS each carry two. */
  lemma SharedFlags()
    ensures AromaticResidue("PHE") && HydrophobicResidue("PHE")
    ensures AromaticResidue("TYR") && HydrophilicResidue("TYR") && !HydrophobicResidue("TYR")
    ensures PositiveResidue("HIS") && HydrophilicResidue("HIS") && !AromaticResidue("HIS")
  {
    StrNEqualLiteral("PHE", "PHE");
    StrNEqualLiteral("TYR", "TYR");
    StrNEqualLiteral("HIS", "HIS");
    StrNDiffer("TYR", "PHE", 3, 0);
    StrNDiffer("TYR", "ILE", 3, 0);
    StrNDiffer("TYR", "LEU", 3, 0);
    StrNDiffer("TYR", "VAL", 3, 0);
    StrNDiffer("TYR", "TRP", 3, 1);
    StrNDiffer("HIS", "PHE", 3, 0);
    StrNDiffer("HIS", "TYR", 3, 0);
    StrNDiffer("HIS", "TRP", 3, 0);
  }

  /** `SetPropertyString`: fill the caller's buffer of `MAXPROPERTIES+1` characters. */
  method SetPropertyString(resnam: seq<char>, layout: Layout, properties: array<char>)
    requires layout.Valid() && properties.Length == layout.width + 1
    modifies properties
    ensures properties[..] == PropertyString(resnam, layout)
  {
    for i := 0 to layout.width
      invariant forall k :: 0 <= k < i ==> properties[k] == '0'
    {
      properties[i] := '0';
    }
    properties[layout.width] := NUL;
    assert properties[..] == seq(layout.width, _ => '0') + [NUL];
    if NegativeResidue(resnam) {
      properties[layout.negative] := '1';
    }
    if PositiveResidue(resnam) {
      properties[layout.positive] := '1';
    }
    if AromaticResidue(resnam) {
      properties[layout.aromatic] := '1';
    }
    if HydrophobicResidue(resnam) {
      properties[layout.hydrophobic] := '1';
    }
    if HydrophilicResidue(resnam) {
      properties[layout.hydrophilic] := '1';
    }
  }

  // ---------------------------------------------------------------------
  // FindAtomsOfInterest (src/matchpatchsurface.c:527-699)

  /** A residue name and an atom-name prefix: `!strncmp(resnam, r, 3) && !strncmp(atnam, a, |a|)`. */
  datatype Entry = Entry(resnam: seq<char>, atnam: seq<char>)

  predicate EntryMatches(a: PdbAtom, e: Entry)
  {
    StrNEqual(a.resnam, e.resnam, 3) && StrNEqual(a.atnam, e.atnam, |e.atnam|)
  }

  predicate Listed(a: PdbAtom, table: seq<Entry>)
  {
    exists k :: 0 <= k < |table| && EntryMatches(a, table[k])
  }

  /** The charged and aromatic atoms, always of interest (src/matchpatchsurface.c:547-588). */
  const ChargedAromatic: seq<Entry> := [
    Entry("GLU", "OE"), Entry("ASP", "OD"), Entry("ARG", "NE"), Entry("ARG", "CZ"),
    Entry("ARG", "NH"), Entry("LYS", "NZ"), Entry("PHE", "CG"), Entry("PHE", "CD"),
    Entry("PHE", "CE"), Entry("PHE", "CZ"), Entry("TYR", "CG"), Entry("TYR", "CD"),
    Entry("TYR", "CE"), Entry("TYR", "CZ"), Entry("TRP", "CD"), Entry("TRP", "NE"),
    Entry("TRP", "CE"), Entry("TRP", "CZ"), Entry("TRP", "CH"), Entry("HIS", "ND1"),
    Entry("HIS", "NE2")]

  /**
   * The hydrophilic and hydrophobic atoms, of interest with `philphob`, as
   * written (src/matchpatchsurface.c:592-624): the glutamine entry names
   * `NE1`, an atom glutamine does not have.
   */
  const PhilPhobAsWritten: seq<Entry> := [
    Entry("ASN", "OD1"), Entry("ASN", "ND2"), Entry("GLN", "OE1"), Entry("GLN", "NE1"),
    Entry("SER", "OG"), Entry("THR", "OG1"), Entry("ILE", "CB"), Entry("ILE", "CG"),
    Entry("ILE", "CD"), Entry("LEU", "CB"), Entry("LEU", "CG"), Entry("LEU", "CD"),
    Entry("VAL", "CB"), Entry("VAL", "CG")]

  /** The same table with glutamine's side-chain nitrogen `NE2`, as the asparagine entries suggest. */
  const PhilPhob: seq<Entry> := PhilPhobAsWritten[3 := Entry("GLN", "NE2")]

  /**
   * The atom-of-interest test of the second flagging loop, given the
   * hydrophilic and hydrophobic `table`: `PhilPhobAsWritten` is the source's,
   * `PhilPhob` the corrected one.
   */
  predicate OfInterest(a: PdbAtom, philphob: bool, table: seq<Entry>)
  {
    Listed(a, ChargedAromatic) || StrNEqual(a.atnam, "P ", 2) || (philphob && Listed(a, table))
  }

  /** As written, glutamine's amide nitrogen `NE2` is never of interest, while asparagine's `ND2` is. */
  lemma GlutamineAmideMissed()
    ensures !OfInterest(PdbAtom("GLN", "NE2 ", 1, " ", "A", 0.0), true, PhilPhobAsWritten)
    ensures OfInterest(PdbAtom("ASN", "ND2 ", 1, " ", "A", 0.0), true, PhilPhobAsWritten)
  {
    var a := PdbAtom("GLN", "NE2 ", 1, " ", "A", 0.0);
    assert Take(a.resnam, 3) == "GLN";
    assert Take(a.atnam, 3) == "NE2";
    assert Take(a.atnam, 2) == "NE" && Take("P ", 2) == "P ";
    assert Take(a.atnam, 2)[0] != Take("P ", 2)[0];
    forall k | 0 <= k < |ChargedAromatic| ensures !EntryMatches(a, ChargedAromatic[k]) {
      var e := ChargedAromatic[k];
      assert |e.resnam| == 3 && e.resnam != "GLN";
      assert Take(e.resnam, 3) == e.resnam;
    }
    forall k | 0 <= k < |PhilPhobAsWritten| ensures !EntryMatches(a, PhilPhobAsWritten[k]) {
      var e := PhilPhobAsWritten[k];
      assert |e.resnam| == 3 && (e.resnam == "GLN" ==> e.atnam != "NE2" && |e.atnam| == 3);
      assert Take(e.resnam, 3) == e.resnam;
      assert Take(e.atnam, |e.atnam|) == e.atnam;
    }
    assert !Listed(a, ChargedAromatic) && !Listed(a, PhilPhobAsWritten);
    var b := PdbAtom("ASN", "ND2 ", 1, " ", "A", 0.0);
    assert Take(b.resnam, 3) == "ASN" && Take(b.atnam, 3) == "ND2";
    assert EntryMatches(b, PhilPhobAsWritten[1]);
  }

  /**
   * With `philphob`, both polar side-chain atoms of asparagine and of
   * glutamine are of interest, whatever their residue and atom names carry
   * after the compared prefix.
   */
  lemma AmidesOfInterest(a: PdbAtom)
    requires |a.resnam| >= 3 && |a.atnam| >= 3
    requires (a.resnam[..3] == "ASN" && a.atnam[..3] in {"OD1", "ND2"})
          || (a.resnam[..3] == "GLN" && a.atnam[..3] in {"OE1", "NE2"})
    ensures OfInterest(a, true, PhilPhob)
  {
    var k := if a.resnam[..3] == "ASN" then (if a.atnam[..3] == "OD1" then 0 else 1)
             else (if a.atnam[..3] == "OE1" then 2 else 3);
    StrNEqualLiteral(a.resnam, PhilPhob[k].resnam);
    StrNEqualLiteral(a.atnam, PhilPhob[k].atnam);
    assert EntryMatches(a, PhilPhob[k]);
  }

  /** `philphob` only adds atoms of interest; without it the hydrophobic and hydrophilic entries are ignored. */
  lemma PhilPhobWidens(a: PdbAtom, table: seq<Entry>)
    ensures OfInterest(a, false, table) ==> OfInterest(a, true, table)
    ensures OfInterest(a, true, table) && !OfInterest(a, false, table) ==> Listed(a, table)
    ensures OfInterest(a, false, table) == OfInterest(a, false, [])
  {
  }

  /** The corrected table flags every atom the table as written flags, and more. */
  lemma CorrectionWidens(a: PdbAtom, philphob: bool)
    ensures OfInterest(a, philphob, PhilPhobAsWritten) && !StrNEqual(a.atnam, "NE1", 3) ==> OfInterest(a, philphob, PhilPhob)
    ensures OfInterest(a, philphob, PhilPhob) && !StrNEqual(a.atnam, "NE2", 3) ==> OfInterest(a, philphob, PhilPhobAsWritten)
  {
    if philphob && Listed(a, PhilPhobAsWritten) && !StrNEqual(a.atnam, "NE1", 3) {
      var k :| 0 <= k < |PhilPhobAsWritten| && EntryMatches(a, PhilPhobAsWritten[k]);
      assert k != 3;
      assert EntryMatches(a, PhilPhob[k]);
    }
    if philphob && Listed(a, PhilPhob) && !StrNEqual(a.atnam, "NE2", 3) {
      var k :| 0 <= k < |PhilPhob| && EntryMatches(a, PhilPhob[k]);
      assert k != 3;
      assert EntryMatches(a, PhilPhobAsWritten[k]);
    }
  }

  /**
   * On a surface of one glutamine `NE2` atom with `philphob`, the routine as
   * written returns an empty list; with the corrected table it returns that atom.
   */
  lemma GlutamineResidueMissed()
    ensures var a := PdbAtom("GLN", "NE2 ", 1, " ", "A", 0.0);
            Interesting([a], true, PhilPhobAsWritten) == [] && Interesting([a], true, PhilPhob) == [a.(occ := 1.0)]
  {
    var a := PdbAtom("GLN", "NE2 ", 1, " ", "A", 0.0);
    GlutamineAmideMissed();
    assert a.resnam[..3] == "GLN" && a.atnam[..3] == "NE2";
    AmidesOfInterest(a);
    var asWritten := Flag([a], true, PhilPhobAsWritten);
    var corrected := Flag([a], true, PhilPhob);
    assert asWritten == [a] && asWritten[..0] == [];
    assert corrected == [a.(occ := 1.0)] && corrected[..0] == [];
  }

  /** The surface list after the two flagging loops: `occ` is 1.0 on the atoms of interest, 0.0 elsewhere. */
  function Flag(atoms: seq<PdbAtom>, philphob: bool, table: seq<Entry>): (out: seq<PdbAtom>)
    ensures |out| == |atoms|
  {
    seq(|atoms|, i requires 0 <= i < |atoms| => atoms[i].(occ := if OfInterest(atoms[i], philphob, table) then 1.0 else 0.0))
  }

  /** The key `FindAtomsOfInterest` identifies a residue by: number, insert code and chain. */
  datatype ResKey = ResKey(resnum: int, insert: char, chain: char)

  function Key(a: PdbAtom): ResKey
  {
    ResKey(a.resnum, FirstChar(a.insert), FirstChar(a.chain))
  }

  function Keys(atoms: seq<PdbAtom>): (ks: seq<ResKey>)
    ensures |ks| == |atoms| && forall k :: 0 <= k < |atoms| ==> ks[k] == Key(atoms[k])
  {
    seq(|atoms|, k requires 0 <= k < |atoms| => Key(atoms[k]))
  }

  /** The keys of the flagged atoms, in list order. */
  function FlaggedKeys(atoms: seq<PdbAtom>): seq<ResKey>
  {
    if |atoms| == 0 then []
    else
      var a := atoms[|atoms| - 1];
      FlaggedKeys(atoms[..|atoms| - 1]) + (if a.occ != 0.0 then [Key(a)] else [])
  }

  /**
   * The list the copying loop builds: the first flagged atom of each residue,
   * copied with `occ` 1.0.
   */
  function Representatives(atoms: seq<PdbAtom>): seq<PdbAtom>
  {
    if |atoms| == 0 then []
    else
      var reps := Representatives(atoms[..|atoms| - 1]);
      var a := atoms[|atoms| - 1];
      if a.occ != 0.0 && Key(a) !in Keys(reps) then reps + [a.(occ := 1.0)] else reps
  }

  /** The output's residue keys are the flagged atoms' keys, each once, in order of first occurrence. */
  lemma {:induction false} RepresentativeKeys(atoms: seq<PdbAtom>)
    ensures Keys(Representatives(atoms)) == Dedup(FlaggedKeys(atoms))
  {
    if |atoms| > 0 {
      var init := atoms[..|atoms| - 1];
      var a := atoms[|atoms| - 1];
      var reps := Representatives(init);
      var fk := FlaggedKeys(init);
      RepresentativeKeys(init);
      if a.occ != 0.0 {
        assert FlaggedKeys(atoms) == fk + [Key(a)];
        DedupAppend(fk, Key(a));
        assert Key(a) in Keys(reps) <==> Key(a) in fk;
        if Key(a) !in fk {
          KeysSnoc(reps, a.(occ := 1.0));
        }
      } else {
        assert FlaggedKeys(atoms) == fk + [];
        assert fk + [] == fk;
      }
    }
  }

  lemma KeysSnoc(atoms: seq<PdbAtom>, a: PdbAtom)
    ensures Keys(atoms + [a]) == Keys(atoms) + [Key(a)]
  {
  }

  /** Atom `i` is flagged and no earlier flagged atom belongs to its residue. */
  predicate FirstFlagged(atoms: seq<PdbAtom>, i: int)
  {
    0 <= i < |atoms| && atoms[i].occ != 0.0
    && forall m :: 0 <= m < i && atoms[m].occ != 0.0 ==> Key(atoms[m]) != Key(atoms[i])
  }

  /** `r` is the copy of a residue's first flagged atom. */
  predicate CopyOfFirst(atoms: seq<PdbAtom>, r: PdbAtom)
  {
    exists i :: 0 <= i < |atoms| && FirstFlagged(atoms, i) && r == atoms[i].(occ := 1.0)
  }

  /** Each output entry is the first flagged atom of its residue, with `occ` 1.0. */
  lemma {:induction false} RepresentativeIsFirst(atoms: seq<PdbAtom>, k: nat)
    requires k < |Representatives(atoms)|
    ensures CopyOfFirst(atoms, Representatives(atoms)[k])
  {
    var init := atoms[..|atoms| - 1];
    var a := atoms[|atoms| - 1];
    var reps := Representatives(init);
    var out := Representatives(atoms);
    if k < |reps| {
      assert out[k] == reps[k];
      RepresentativeIsFirst(init, k);
      var i :| 0 <= i < |init| && FirstFlagged(init, i) && reps[k] == init[i].(occ := 1.0);
      assert forall m :: 0 <= m <= i ==> atoms[m] == init[m];
      assert FirstFlagged(atoms, i);
    } else {
      assert out[k] == a.(occ := 1.0) && a.occ != 0.0 && Key(a) !in Keys(reps);
      NewKeyIsFirst(atoms);
    }
  }

  /** A last atom that opens a new entry is the first flagged atom of its residue. */
  lemma NewKeyIsFirst(atoms: seq<PdbAtom>)
    requires |atoms| > 0 && atoms[|atoms| - 1].occ != 0.0
    requires Key(atoms[|atoms| - 1]) !in Keys(Representatives(atoms[..|atoms| - 1]))
    ensures FirstFlagged(atoms, |atoms| - 1)
  {
    var init, n := atoms[..|atoms| - 1], |atoms| - 1;
    RepresentativeKeys(init);
    forall m | 0 <= m < n && atoms[m].occ != 0.0 ensures Key(atoms[m]) != Key(atoms[n]) {
      assert atoms[m] == init[m];
      FlaggedKeyListed(init, m);
    }
  }

  /** A flagged atom's key is among the flagged keys. */
  lemma {:induction false} FlaggedKeyListed(atoms: seq<PdbAtom>, m: nat)
    requires m < |atoms| && atoms[m].occ != 0.0
    ensures Key(atoms[m]) in FlaggedKeys(atoms)
  {
    var init := atoms[..|atoms| - 1];
    if m < |atoms| - 1 {
      assert atoms[m] == init[m];
      FlaggedKeyListed(init, m);
    }
  }

  /** Every flagged key comes from a flagged atom. */
  lemma {:induction false} FlaggedKeySource(atoms: seq<PdbAtom>, x: ResKey)
    requires x in FlaggedKeys(atoms)
    ensures exists i :: 0 <= i < |atoms| && atoms[i].occ != 0.0 && Key(atoms[i]) == x
  {
    var init := atoms[..|atoms| - 1];
    if x in FlaggedKeys(init) {
      FlaggedKeySource(init, x);
      var i :| 0 <= i < |init| && init[i].occ != 0.0 && Key(init[i]) == x;
      assert atoms[i] == init[i];
    }
  }

  /**
   * `FindAtomsOfInterest`'s output: one entry per residue holding an atom of
   * interest, no residue twice, in order of each residue's first atom of
   * interest, each entry that atom.
   */
  function Interesting(atoms: seq<PdbAtom>, philphob: bool, table: seq<Entry>): seq<PdbAtom>
  {
    Representatives(Flag(atoms, philphob, table))
  }

  /** No residue appears twice in the output. */
  lemma InterestingDistinct(atoms: seq<PdbAtom>, philphob: bool, table: seq<Entry>)
    ensures Distinct(Keys(Interesting(atoms, philphob, table)))
  {
    RepresentativeKeys(Flag(atoms, philphob, table));
  }

  /** A residue appears in the output exactly when one of its atoms is of interest. */
  lemma InterestingResidues(atoms: seq<PdbAtom>, philphob: bool, table: seq<Entry>, x: ResKey)
    ensures x in Keys(Interesting(atoms, philphob, table)) <==>
            exists i :: 0 <= i < |atoms| && OfInterest(atoms[i], philphob, table) && Key(atoms[i]) == x
  {
    var flagged := Flag(atoms, philphob, table);
    RepresentativeKeys(flagged);
    if x in Keys(Interesting(atoms, philphob, table)) {
      FlaggedKeySource(flagged, x);
      var i :| 0 <= i < |flagged| && flagged[i].occ != 0.0 && Key(flagged[i]) == x;
      assert Key(atoms[i]) == x;
    }
    if exists i :: 0 <= i < |atoms| && OfInterest(atoms[i], philphob, table) && Key(atoms[i]) == x {
      var i :| 0 <= i < |atoms| && OfInterest(atoms[i], philphob, table) && Key(atoms[i]) == x;
      FlaggedKeyListed(flagged, i);
    }
  }

  /** The flags `Flag` sets, and only them, tell the atoms apart from the input. */
  lemma FlagAt(atoms: seq<PdbAtom>, philphob: bool, table: seq<Entry>, i: nat)
    requires i < |atoms|
    ensures Flag(atoms, philphob, table)[i].occ != 0.0 <==> OfInterest(atoms[i], philphob, table)
    ensures Flag(atoms, philphob, table)[i].(occ := 1.0) == atoms[i].(occ := 1.0)
    ensures Key(Flag(atoms, philphob, table)[i]) == Key(atoms[i])
  {
  }

  /** Each output entry is its residue's first atom of interest, copied with `occ` 1.0. */
  lemma InterestingFirst(atoms: seq<PdbAtom>, philphob: bool, table: seq<Entry>, k: nat)
    requires k < |Interesting(atoms, philphob, table)|
    ensures exists i :: 0 <= i < |atoms| && OfInterest(atoms[i], philphob, table)
                        && Interesting(atoms, philphob, table)[k] == atoms[i].(occ := 1.0)
                        && forall m :: 0 <= m < i && OfInterest(atoms[m], philphob, table) ==> Key(atoms[m]) != Key(atoms[i])
  {
    var flagged := Flag(atoms, philphob, table);
    RepresentativeIsFirst(flagged, k);
    var i :| 0 <= i < |flagged| && FirstFlagged(flagged, i) && Interesting(atoms, philphob, table)[k] == flagged[i].(occ := 1.0);
    FlagAt(atoms, philphob, table, i);
    forall m | 0 <= m < i && OfInterest(atoms[m], philphob, table) ensures Key(atoms[m]) != Key(atoms[i]) {
      FlagAt(atoms, philphob, table, m);
    }
  }

  /** The output lists residues in the order of their first atom of interest. */
  lemma InterestingOrder(atoms: seq<PdbAtom>, philphob: bool, table: seq<Entry>)
    ensures var ks := Keys(Interesting(atoms, philphob, table));
            var fk := FlaggedKeys(Flag(atoms, philphob, table));
            forall a, b :: 0 <= a < b < |ks| ==> ks[a] in fk && ks[b] in fk && IndexOf(fk, ks[a]) < IndexOf(fk, ks[b])
  {
    var fk := FlaggedKeys(Flag(atoms, philphob, table));
    RepresentativeKeys(Flag(atoms, philphob, table));
    DedupOrder(fk);
  }

  /** Only the flags of interest matter: they are all `FindAtomsOfInterest` reads of the old `occ` values. */
  lemma FlagForgetsOcc(atoms: seq<PdbAtom>, others: seq<PdbAtom>, philphob: bool, table: seq<Entry>)
    requires |atoms| == |others|
    requires forall i :: 0 <= i < |atoms| ==> others[i] == atoms[i].(occ := others[i].occ)
    ensures Flag(atoms, philphob, table) == Flag(others, philphob, table)
  {
    assert forall i :: 0 <= i < |atoms| ==> Flag(atoms, philphob, table)[i] == Flag(others, philphob, table)[i];
  }

  /** Whether an atom is of interest depends on its residue and atom names only. */
  lemma InterestByName(a: PdbAtom, b: PdbAtom, philphob: bool, table: seq<Entry>)
    requires a.resnam == b.resnam && a.atnam == b.atnam
    ensures OfInterest(a, philphob, table) == OfInterest(b, philphob, table)
  {
    assert forall e :: EntryMatches(a, e) == EntryMatches(b, e);
  }

  /** The two flagging loops: clear every `occ`, then set it on the atoms of interest. */
  method FlagAtoms(surface: array<PdbAtom>, philphob: bool, table: seq<Entry>)
    modifies surface
    ensures surface[..] == Flag(old(surface[..]), philphob, table)
  {
    ghost var s0 := surface[..];
    ghost var goal := Flag(s0, philphob, table);
    ClearOcc(surface);
    for i := 0 to surface.Length
      invariant forall k :: 0 <= k < i ==> surface[k] == goal[k]
      invariant forall k :: i <= k < surface.Length ==> surface[k] == s0[k].(occ := 0.0)
    {
      InterestByName(surface[i], s0[i], philphob, table);
      if OfInterest(surface[i], philphob, table) {
        surface[i] := surface[i].(occ := 1.0);
      }
    }
  }

  /** The first flagging loop: every `occ` becomes 0.0. */
  method ClearOcc(surface: array<PdbAtom>)
    modifies surface
    ensures forall k :: 0 <= k < surface.Length ==> surface[k] == old(surface[k]).(occ := 0.0)
  {
    for i := 0 to surface.Length
      invariant forall k :: 0 <= k < i ==> surface[k] == old(surface[k]).(occ := 0.0)
      invariant forall k :: i <= k < surface.Length ==> surface[k] == old(surface[k])
    {
      surface[i] := surface[i].(occ := 0.0);
    }
  }

  /** The search of the list built so far for the residue of `p`. */
  method ResidueFound(interest: seq<PdbAtom>, p: PdbAtom) returns (found: bool)
    ensures found <==> Key(p) in Keys(interest)
  {
    for q := 0 to |interest|
      invariant forall m :: 0 <= m < q ==> Key(interest[m]) != Key(p)
    {
      if interest[q].resnum == p.resnum && FirstChar(interest[q].insert) == FirstChar(p.insert)
         && FirstChar(interest[q].chain) == FirstChar(p.chain) {
        return true;
      }
    }
    return false;
  }

  /** The copying loop: one entry per residue, the first flagged atom found. */
  method CollectResidues(surface: array<PdbAtom>) returns (interest: seq<PdbAtom>)
    ensures interest == Representatives(surface[..])
  {
    interest := [];
    for i := 0 to surface.Length
      invariant interest == Representatives(surface[..i])
    {
      assert surface[..i + 1][..i] == surface[..i] && surface[..i + 1][i] == surface[i];
      if surface[i].occ != 0.0 {
        var resFound := ResidueFound(interest, surface[i]);
        if !resFound {
          interest := interest + [surface[i].(occ := 1.0)];
        }
      }
    }
    assert surface[..] == surface[..surface.Length];
  }

  /**
   * `FindAtomsOfInterest`: flag the atoms of interest in place, then copy one
   * atom per flagged residue.
   */
  method FindAtomsOfInterest(surface: array<PdbAtom>, philphob: bool, table: seq<Entry>) returns (interest: seq<PdbAtom>)
    modifies surface
    ensures surface[..] == Flag(old(surface[..]), philphob, table)
    ensures interest == Interesting(old(surface[..]), philphob, table)
  {
    FlagAtoms(surface, philphob, table);
    interest := CollectResidues(surface);
  }

  // ---------------------------------------------------------------------
  // SelectRanges (src/matchpatchsurface.c:866-990)

  /** A residue specification as stored: chain letter, residue number, insert letter. */
  datatype ResSpec = ResSpec(chain: char, resnum: int, insert: char)

  datatype Range = Range(start: ResSpec, stop: ResSpec)

  /**
   * The test of one range: the start's chain, a number between the start's
   * and the stop's, and on a boundary residue with a non-blank insert on the
   * range, an insert not beyond that boundary. The stop's chain is not read.
   */
  predicate InRange(a: PdbAtom, r: Range)
  {
    && FirstChar(a.chain) == r.start.chain
    && r.start.resnum <= a.resnum <= r.stop.resnum
    && !(a.resnum == r.start.resnum && r.start.insert != ' ' && FirstChar(a.insert) < r.start.insert)
    && !(a.resnum == r.stop.resnum && r.stop.insert != ' ' && FirstChar(a.insert) > r.stop.insert)
  }

  predicate Selected(a: PdbAtom, ranges: seq<Range>)
  {
    exists j :: 0 <= j < |ranges| && InRange(a, ranges[j])
  }

  /** The list `SelectRanges` builds: the selected atoms, in order. */
  function Selection(atoms: seq<PdbAtom>, ranges: seq<Range>): (out: seq<PdbAtom>)
    ensures |out| <= |atoms|
  {
    if |atoms| == 0 then []
    else
      var a := atoms[|atoms| - 1];
      Selection(atoms[..|atoms| - 1], ranges) + (if Selected(a, ranges) then [a] else [])
  }

  /** Selection works atom by atom: each atom is copied once if selected, and the order is kept. */
  lemma {:induction false} SelectionAppend(xs: seq<PdbAtom>, ys: seq<PdbAtom>, ranges: seq<Range>)
    ensures Selection(xs + ys, ranges) == Selection(xs, ranges) + Selection(ys, ranges)
    decreases |ys|
  {
    if |ys| == 0 {
      assert xs + ys == xs;
    } else {
      var init := ys[..|ys| - 1];
      assert (xs + ys)[..|xs + ys| - 1] == xs + init;
      SelectionAppend(xs, init, ranges);
    }
  }

  lemma SelectionSingle(a: PdbAtom, ranges: seq<Range>)
    ensures Selection([a], ranges) == if Selected(a, ranges) then [a] else []
  {
    assert [a][..0] == [];
  }

  /** An atom is in the output exactly when it is in the input and some range selects it. */
  lemma {:induction false} SelectionMembers(atoms: seq<PdbAtom>, ranges: seq<Range>)
    ensures forall a :: a in Selection(atoms, ranges) <==> a in atoms && Selected(a, ranges)
  {
    if |atoms| > 0 {
      var init := atoms[..|atoms| - 1];
      SelectionMembers(init, ranges);
      assert atoms == init + [atoms[|atoms| - 1]];
    }
  }

  /** Selecting again changes nothing. */
  lemma {:induction false} SelectionIdempotent(atoms: seq<PdbAtom>, ranges: seq<Range>)
    ensures Selection(Selection(atoms, ranges), ranges) == Selection(atoms, ranges)
  {
    if |atoms| > 0 {
      var init := atoms[..|atoms| - 1];
      var a := atoms[|atoms| - 1];
      SelectionIdempotent(init, ranges);
      var tail := if Selected(a, ranges) then [a] else [];
      SelectionAppend(Selection(init, ranges), tail, ranges);
      if Selected(a, ranges) {
        SelectionSingle(a, ranges);
      }
    }
  }

  /** With blank inserts on both boundaries a range is a plain chain and number interval. */
  lemma BlankInserts(a: PdbAtom, r: Range)
    requires r.start.insert == ' ' && r.stop.insert == ' '
    ensures InRange(a, r) <==> FirstChar(a.chain) == r.start.chain && r.start.resnum <= a.resnum <= r.stop.resnum
  {
  }

  /** An insert code below the start's excludes the start residue's atom, however the stop is written. */
  lemma InsertBeforeStart()
    ensures !InRange(PdbAtom("LYS", "NZ", 10, "A", "L", 0.0), Range(ResSpec('L', 10, 'B'), ResSpec('L', 20, ' ')))
    ensures InRange(PdbAtom("LYS", "NZ", 10, "C", "L", 0.0), Range(ResSpec('L', 10, 'B'), ResSpec('L', 20, ' ')))
  {
  }

  /** `SelectRanges`' copying loop: each atom is copied at the first range that accepts it. */
  method SelectRanges(pdb: array<PdbAtom>, ranges: seq<Range>) returns (outpdb: seq<PdbAtom>)
    ensures outpdb == Selection(pdb[..], ranges)
  {
    outpdb := [];
    for i := 0 to pdb.Length
      invariant outpdb == Selection(pdb[..i], ranges)
    {
      assert pdb[..i + 1][..i] == pdb[..i] && pdb[..i + 1][i] == pdb[i];
      var p := pdb[i];
      for j := 0 to |ranges|
        invariant outpdb == Selection(pdb[..i], ranges)
        invariant forall m :: 0 <= m < j ==> !InRange(p, ranges[m])
      {
        if FirstChar(p.chain) == ranges[j].start.chain && p.resnum >= ranges[j].start.resnum
           && p.resnum <= ranges[j].stop.resnum {
          if p.resnum == ranges[j].start.resnum && ranges[j].start.insert != ' '
             && FirstChar(p.insert) < ranges[j].start.insert {
            continue;
          }
          if p.resnum == ranges[j].stop.resnum && ranges[j].stop.insert != ' '
             && FirstChar(p.insert) > ranges[j].stop.insert {
            continue;
          }
          outpdb := outpdb + [p];
          break;
        }
      }
    }
    assert pdb[..] == pdb[..pdb.Length];
  }
}
