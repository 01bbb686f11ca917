# Lesk patch matcher — a Dafny model

The matcher compares a *pattern* with a *structure*. Both are given as flat
arrays of pairwise records. Each record names two residues (`resid`,
`resnam`, a property string) and the distance between them. The matcher
runs a Lesk-style constraint propagation:

1. Build one "atom" per distinct live residue. Each atom has a property
   string and a 32-slot '0'/'1' distance bitstring. Slot `d` is set by each
   record the residue takes part in whose distance falls in bin `d`, unless
   `FillAtom`'s re-initialisation (see Conventions) later wipes it.
2. Trim every distance bin that is flagged on one side only.
3. Kill each structure residue that no pattern atom matches. A match needs
   equal properties and a bitstring score of at least the accuracy
   threshold.
4. Repeat until the atom counts stop changing (or the iteration cap is hit),
   then report, for each pattern atom, the best-scoring structure atom.

`src/matchpatch.c` is the current engine. `match.c` is its older twin: it
derives properties from the residue name and prints results even when the
cap is hit. Both are modelled by one engine with two parameters:
`Signatures.PropertySource` (`FromRecord(layout)` or `FromName`) and
`Lesk.Config.abortAtMaxIter`.

From `src/matchpatchsurface.c` the model takes:
- the residue classification `SetPropertyString`;
- the atom-of-interest test and per-residue de-duplication of
  `FindAtomsOfInterest`;
- the residue-range filter of `SelectRanges`.

Modules, files and what they hold:
- `Common` (common.dfy): `Option`, `Min`, `Max`.
- `CStrings` (cstrings.dfy): C strings as their contents, and `strncmp(...) == 0` as `StrNEqual`.
- `Sequences` (sequences.dfy): `Dedup` (first occurrence kept) and `IndexOf`.
- `Bitstrings` (bitstrings.dfy): the `Score` percentage, the `Matches` test, and the `Compare`/`CalcScore` loops.
- `Signatures` (signatures.dfy): records, atoms, binning, `GotAtom`, `FillAtom`, `CreateAtomArray`, `KillAtom`, and the specification functions `Build` and `Eliminate`.
- `SignatureFacts` (signature_facts.dfy): what `Build` and `Eliminate` guarantee.
- `Trim` (trim.dfy): `TrimBitStrings` and its specification `TrimSide`.
- `Lesk` (lesk.dfy): the `DoLesk` loop, its specification `LeskRun`/`Final`/`Outcome`, and the best-match report.
- `Surface` (surface.dfy): the three `src/matchpatchsurface.c` routines.

Conventions:
- **Strings.** A C string is modelled by its characters before the NUL.
  `ATOM.dist` keeps its full `MAXDIST` = 32 characters, NUL included.
- **Properties.** `properties.h` is not part of this model. Its constants
  are abstract: `Layout` gives a width and five pairwise distinct slot
  indices below it. For `match.c` the constants are fixed: `MAXPROP` = 8,
  and `PROP_POSITIVE`/`PROP_NEGATIVE`/`PROP_AROM` = 0/1/2, as that file
  defines them.
- **Accuracy.** `gAccuracy` is an exact `real`. The score is
  `Option<real>`. `None` stands for the 0.0/0.0 the C code computes when
  both bitstrings are empty. That NaN fails every `>=`, so two empty
  bitstrings never match (`Bitstrings.EmptyNeverMatches`). The
  cross-multiplied form of the test is proved equal to the division
  (`Bitstrings.MatchesCrossMultiplied`).
- **Match test.** `Compare` returns FALSE ("no difference") exactly when
  the score is defined and at least `gAccuracy`. Callers test `!Compare`.
- **Iteration cap.** `MAXITER` = 100.
- **Reinitialisation quirk.** `FillAtom` re-initialises the slot at
  `natom-1` even when that slot holds an existing residue. The model keeps
  this as written. `SignatureFacts.LastSlotReset` shows the records
  (A,B),(A,C),(B,C) leaving C with only the (B,C) bin.

## Model

| member | source | states |
|---|---|---|
| Signatures.ConvertDistanceToBin | src/matchpatch.c:493-501 | the bin is the truncated quotient capped at MAXDIST-2, and lies in 0..MAXDIST-2 for a non-negative quotient |
| Signatures.BinMonotone | src/matchpatch.c:493-501 | binning is non-decreasing in the quotient |
| Signatures.GotAtom | src/matchpatch.c:513-525 | returns the first index whose resid equals the key, or -1 iff there is none (via FirstIndex) |
| Signatures.FirstIndex | match.c:484-496 | -1 iff no atom has the resid; otherwise the first atom that has it |
| Signatures.FillAtom | src/matchpatch.c:542-573 | only slot `pos` changes; it becomes `Filled`: re-initialised when `pos == natom-1`, and always has bin `distRange` set |
| Signatures.Filled | match.c:512-549 | the filled atom is well shaped and has the current bin set |
| Signatures.LegacyPropertyFlags | match.c:523-544 | the property buffer equals LegacyProperties: LYS/ARG, GLU/ASP/nucleotides and TYR/PHE/TRP flags, with the positive/negative targets exchanged under SwapProp |
| Signatures.LegacyPositive | match.c:530-532 | defines match.c's positive list: LYS, ARG (no HIS) |
| Signatures.LegacyNegative | match.c:533-539 | defines match.c's negative list: GLU, ASP and the nucleotides `  A`, `  T`, `  C`, `  G` |
| Signatures.LegacyAromatic | match.c:540-543 | defines match.c's aromatic list: TYR, PHE, TRP |
| Signatures.LegacyProperties | match.c:523-544 | defines match.c's property string: MAXPROP-1 characters, all '0' but the positive, negative and aromatic flags, the charges traded with `swap` |
| Signatures.SlotProperties | src/matchpatch.c:559-568 | defines a new atom's properties: the record's string, or match.c's computed one, with positive and negative exchanged under `swap` |
| Signatures.Exchange | src/matchpatch.c:562-568 | swaps exactly the two slots and leaves every other slot |
| Signatures.FreshAtom | src/matchpatch.c:546-569 | a re-initialised slot is well formed: bits '0'/'1', NUL in the last slot, properties of the right length |
| Signatures.EmptyDist | src/matchpatch.c:550-556 | every bin below MAXDIST-1 is '0', and the last slot is NUL |
| Signatures.Place | src/matchpatch.c:457-465 | adding one endpoint grows the atom list by at most one |
| Signatures.Step | src/matchpatch.c:454-475 | one live record adds at most two atoms |
| Signatures.Build | src/matchpatch.c:441-481 | the atom list of CreateAtomArray has at most 2·ndata entries |
| Signatures.EnterEndpoint | src/matchpatch.c:457-465 | the atom array's prefix becomes Place of the old prefix; the count grows iff the resid was new |
| Signatures.EnterRecord | src/matchpatch.c:454-475 | the atom array's prefix becomes Step of the old prefix |
| Signatures.CreateAtomArray | src/matchpatch.c:441-481 | a fresh array of 2·ndata slots whose first natom entries are Build of the records |
| Signatures.Eliminate | src/matchpatch.c:695-707 | defines the records after killing a set of resids: those naming one of them at either end become dead |
| Signatures.Names | src/matchpatch.c:701-702 | defines the either-end test: the record's first or second resid is one of the given resids |
| Signatures.KillAtom | src/matchpatch.c:695-707 | sets dead on exactly the records naming the resid at either end; nothing else changes, and dead is never cleared |
| Signatures.PlaceBySlot | src/matchpatch.c:457-465 | the GotAtom-then-FillAtom sequence on the array yields Place |
| SignatureFacts.Resids | src/matchpatch.c:441-481 | the resid list lines up with the atoms |
| SignatureFacts.LiveOnly | src/matchpatch.c:454-455 | only live records of the input are kept |
| SignatureFacts.FirstIndexResids | src/matchpatch.c:513-525 | GotAtom finds nothing iff the resid is absent |
| SignatureFacts.BuildSnoc | src/matchpatch.c:452-476 | building over one more record is one more loop step |
| SignatureFacts.PlaceWellFormed | src/matchpatch.c:542-573 | filling a slot keeps every atom well formed |
| SignatureFacts.BuildWellFormed | src/matchpatch.c:441-481 | every atom built has '0'/'1' bins, a NUL last slot and full-length properties |
| SignatureFacts.PlaceResids | src/matchpatch.c:457-465 | an endpoint appends its resid iff it was not yet present |
| SignatureFacts.PlaceDedup | src/matchpatch.c:458-466 | placing one endpoint extends the resid list by that resid unless it was already seen |
| SignatureFacts.StepResids | src/matchpatch.c:454-475 | a live record adds its two resids in first-seen order; a dead one adds none |
| SignatureFacts.BuildResids | src/matchpatch.c:441-481 | the atoms' resids are the live records' resids de-duplicated in first-occurrence order |
| SignatureFacts.BuildDistinct | src/matchpatch.c:441-481 | output resids are pairwise distinct and are exactly the live resids |
| SignatureFacts.BuildCount | src/matchpatch.c:441-481 | natom equals the number of distinct live resids |
| SignatureFacts.BuildOrder | src/matchpatch.c:441-481 | atoms appear in the order of their resids' first occurrence among live records |
| SignatureFacts.DeadRecordsIgnored | src/matchpatch.c:454-455 | removing dead records does not change the atoms built |
| SignatureFacts.EliminateKillsOnly | src/matchpatch.c:695-707 | elimination only sets dead flags, on records naming a doomed resid |
| SignatureFacts.EliminateNothing | src/matchpatch.c:695-707 | killing no resid changes nothing |
| SignatureFacts.EliminateCompose | src/matchpatch.c:642-668 | killing one set of resids then another is killing their union |
| SignatureFacts.EliminatePrefix | src/matchpatch.c:695-707 | killing acts record by record |
| SignatureFacts.EliminateLiveSet | src/matchpatch.c:695-707 | after killing, no doomed resid is live and no resid became live |
| SignatureFacts.SwapSlots | src/matchpatch.c:562-568 | the swap keeps the property length |
| SignatureFacts.SwapAll | src/matchpatch.c:562-568 | swapping all atoms keeps count and shape |
| SignatureFacts.ExchangeInvolution | src/matchpatch.c:562-568 | swapping twice is the identity |
| SignatureFacts.LegacySwap | match.c:523-544 | with SwapProp the legacy flags are the plain ones with positive and negative exchanged |
| SignatureFacts.LegacyFlags | match.c:523-544 | each legacy flag is set iff its residue test holds; other slots stay '0' |
| SignatureFacts.LegacyChargesExclusive | match.c:523-544 | no residue name is both positive and negative |
| SignatureFacts.SlotSwap | src/matchpatch.c:562-568 | a swapped endpoint's properties are the unswapped ones with the two charge slots exchanged |
| SignatureFacts.SwapAllResids | src/matchpatch.c:513-525 | swapping properties does not affect the residue lookup |
| SignatureFacts.FilledSwap | src/matchpatch.c:542-573 | filling a slot with SwapProp equals filling the unswapped slot and then swapping |
| SignatureFacts.PlaceSwapAppend | src/matchpatch.c:458-464 | for a new resid, placing with SwapProp equals placing without it and then swapping |
| SignatureFacts.PlaceSwapUpdate | src/matchpatch.c:458-464 | for a resid already present, placing with SwapProp equals placing without it and then swapping |
| SignatureFacts.PlaceSwap | src/matchpatch.c:542-573 | filling with SwapProp equals filling without it and then swapping |
| SignatureFacts.BuildSwap | src/matchpatch.c:441-481 | building with SwapProp is building without it and then swapping every atom |
| SignatureFacts.LastSlotReset | src/matchpatch.c:546 | records (A,B),(A,C),(B,C): C keeps only the (B,C) bin, because the existing atom in the last slot is re-initialised |
| SignatureFacts.FirstTwoRecords | src/matchpatch.c:441-481 | records (A,B),(A,C) give atoms A, B, C in first-seen order |
| SignatureFacts.AllocationOverflow | match.c:422-452 | as written the array holds ndata atoms, but one record already yields two |
| SignatureFacts.AllocationSuffices | src/matchpatch.c:441-481 | natom ≤ distinct live resids ≤ 2·ndata, so an array of 2·ndata suffices |
| Bitstrings.CountOnes | src/matchpatch.c:882-898 | the count of '1's is at most the length |
| Bitstrings.CountBoth | src/matchpatch.c:847-871 | NMatch ≤ min(count1, count2) |
| Bitstrings.Score | src/matchpatch.c:882-898 | undefined (NaN) iff both strings are empty, otherwise within 0..100 |
| Bitstrings.CountBothSymmetric | src/matchpatch.c:847-871 | NMatch does not depend on argument order |
| Bitstrings.ScoreSymmetric | match.c:797-847 | score and match verdict are symmetric in the two strings |
| Bitstrings.EmptyNeverMatches | src/matchpatch.c:863-870 | two empty bitstrings never match (0/0 is NaN) |
| Bitstrings.MatchesCrossMultiplied | src/matchpatch.c:863-870 | the `>=` on the percentage equals the cross-multiplied integer test |
| Bitstrings.CrossMultiply | src/matchpatch.c:863-870 | the `>=` on the division is the cross-multiplied test |
| Bitstrings.DivAtMost | src/matchpatch.c:863-870 | dividing by a positive denominator keeps `<=` |
| Bitstrings.DivAtLeast | src/matchpatch.c:863-870 | dividing by a positive denominator keeps `>=` |
| Bitstrings.ZeroScore | src/matchpatch.c:882-898 | a defined score is 0 iff no bin is shared |
| Bitstrings.Compare | src/matchpatch.c:847-871 | returns FALSE exactly when the score is defined and ≥ the accuracy |
| Bitstrings.CalcScore | src/matchpatch.c:882-898 | returns the percentage score (None for 0/0) |
| Trim.TrimDist | src/matchpatch.c:718-770 | a trimmed bitstring keeps its length |
| Trim.TrimUpTo | src/matchpatch.c:718-770 | trimming keeps the atom count and shape |
| Trim.TrimSide | src/matchpatch.c:718-770 | each bin is '0' if flagged on this side only, and unchanged otherwise |
| Trim.Balanced | src/matchpatch.c:718-770 | after trimming, some pattern atom has bin i iff some structure atom has it |
| Trim.TrimOnlyClears | src/matchpatch.c:718-770 | trimming never sets a bit and touches only dist; a set bit survives iff the other side has it |
| Trim.TrimIdempotent | match.c:670-723 | trimming twice equals trimming once |
| Trim.TrimWellFormed | src/matchpatch.c:718-770 | trimming keeps atoms well formed (the NUL stays NUL) |
| Trim.TrimNone | src/matchpatch.c:723-769 | trimming no bins is the identity |
| Trim.UntrimmedBin | src/matchpatch.c:728-746 | the search for bin i sees the untrimmed bin |
| Trim.TrimNext | src/matchpatch.c:748-768 | one outer iteration clears bin n on the side that alone has it |
| Trim.TrimBitStrings | src/matchpatch.c:718-770 | both arrays' prefixes become TrimSide of the old contents; the rest is unchanged |
| Trim.Flagged | src/matchpatch.c:728-746 | true iff some atom of the prefix has bin i |
| Trim.ClearBin | src/matchpatch.c:751-768 | clears bin i in each atom of the prefix and nothing else |
| Trim.AnyHit | src/matchpatch.c:728-746 | defines the search: some atom of the list has bin i set |
| Trim.Cleared | src/matchpatch.c:748-768 | defines when a bin is cleared on one side: set there and nowhere on the other side |
| Lesk.RoundOf | src/matchpatch.c:601-615 | a round's atom lists are the two Builds, trimmed |
| Lesk.Next | src/matchpatch.c:642-668 | killing keeps the structure records well formed |
| Lesk.LeskRun | src/matchpatch.c:599-685 | the final round has 32-slot bitstrings |
| Lesk.BestScan | src/matchpatch.c:803-836 | the candidate index stays below the scanned prefix |
| Lesk.Report | src/matchpatch.c:783-791 | at most one line per pattern atom |
| Lesk.Outcome | src/matchpatch.c:674-681 | no result iff the cap is enforced (matchpatch.c) and the loop did not converge; match.c always reports (match.c:638) |
| Lesk.BestScanSpec | src/matchpatch.c:803-836 | the scan's best qualifies, has the greatest score, beats every earlier qualifier strictly, and is positive |
| Lesk.BestMatchSpec | match.c:754-787 | none iff no qualifier scores > 0; else the qualifying argmax with the first one winning ties |
| Lesk.ReportSpec | src/matchpatch.c:783-791 | report lines are exactly the pattern atoms' best matches |
| Lesk.CompatibleSymmetric | src/matchpatch.c:814-817 | compatibility and pair score are symmetric |
| Lesk.DoomedSpec | src/matchpatch.c:642-668 | a resid is killed iff some structure atom with that resid has no compatible pattern atom |
| Lesk.RunBounds | src/matchpatch.c:599-685 | the loop ends within MAXITER iterations, converged iff it stopped before the cap |
| Lesk.RunKillsOnly | src/matchpatch.c:642-668 | the loop only sets dead flags on structure records and never clears one |
| Lesk.RunLiveShrinks | src/matchpatch.c:642-668 | the live structure resid set never grows |
| Lesk.DoomedAreLive | src/matchpatch.c:642-668 | only live resids are killed |
| Lesk.CountDrops | src/matchpatch.c:602-668 | the next structure atom count is smaller by at least the number killed |
| Lesk.SubsetCard | src/matchpatch.c:642-668 | a subset has no more elements |
| Lesk.NoKillsFixed | src/matchpatch.c:642-668 | a round without kills leaves the records unchanged |
| Lesk.RunFixedPoint | src/matchpatch.c:617-619 | at convergence the final round kills nothing and is the round of the final records |
| Lesk.FixedPointStop | src/matchpatch.c:617-619 | when the counts repeat those of the previous records, the loop ends converged on a round that kills nobody and is the round of its records |
| Lesk.ConvergedIsFixedPoint | src/matchpatch.c:617-619 | at convergence every structure atom has a compatible pattern atom |
| Lesk.NoneDoomed | src/matchpatch.c:642-668 | nothing is killed iff every structure atom survives |
| Lesk.RunConverges | src/matchpatch.c:599-671 | with fewer live resids than iterations left, the loop converges |
| Lesk.Converges | src/matchpatch.c:599-685 | with fewer than 99 live structure resids, the loop converges within that many + 1 iterations and reports |
| Lesk.ConvergesSmall | src/matchpatch.c:599-685 | fewer than 49 structure records always converge |
| Lesk.PatternCountConstant | src/matchpatch.c:661 | the pattern atom count is the same in every iteration, since only structure records are killed |
| Lesk.LeskStop | src/matchpatch.c:617-619 | an iteration whose two atom counts equal the previous ones ends the loop, converged, with that round |
| Lesk.LeskContinue | src/matchpatch.c:620-668 | an iteration whose counts differ kills the doomed resids and goes on with its counts and round |
| Lesk.DoomedAmongSpec | src/matchpatch.c:642-668 | after scanning n structure atoms, a resid is killed iff one of them carries it and has no compatible pattern atom |
| Lesk.SameCountNoKills | src/matchpatch.c:617-668 | an iteration after which the structure atom count is unchanged killed nobody and left the records as they were |
| Lesk.NextKillsOnly | src/matchpatch.c:642-668 | one iteration's kills only set dead flags |
| Lesk.KillsOnlyTrans | src/matchpatch.c:642-668 | two rounds of only setting dead flags only set dead flags |
| Lesk.NextLiveShrinks | src/matchpatch.c:642-668 | one iteration's kills never revive a residue |
| Lesk.ReportSound | src/matchpatch.c:783-791 | every reported line is some pattern atom's best match |
| Lesk.ReportComplete | src/matchpatch.c:783-791 | every pattern atom's best match is reported |
| Lesk.PrintBestMatch | src/matchpatch.c:803-836 | returns the best-match line (or none) for one pattern atom |
| Lesk.PrintResults | src/matchpatch.c:783-791 | returns the Report of the final round |
| Lesk.Matched | src/matchpatch.c:646-656 | true iff some pattern atom has equal properties and a matching bitstring |
| Lesk.Compatible | src/matchpatch.c:646-656 | defines compatibility: equal property strings over the width and `!Compare` on the bitstrings |
| Lesk.Survives | src/matchpatch.c:646-656 | defines survival: some pattern atom is compatible with the structure atom |
| Lesk.DoomedAmong | src/matchpatch.c:642-668 | defines the resids of the first n structure atoms that do not survive |
| Lesk.Doomed | src/matchpatch.c:642-668 | defines one iteration's kills: DoomedAmong over every structure atom of the round |
| Lesk.Final | src/matchpatch.c:599-685 | defines the loop's end: LeskRun started at iteration 0 with counts (0, 0) |
| Lesk.BestMatchIndex | src/matchpatch.c:803-836 | defines the structure atom PrintBestMatch reports for a pattern atom, or -1 |
| Lesk.MatchLine | src/matchpatch.c:803-836 | defines the line PrintBestMatch prints for a pattern atom, if any |
| Lesk.KillUnmatched | src/matchpatch.c:642-668 | the structure records become Eliminate of the doomed resids of the current round |
| Lesk.CreateRound | src/matchpatch.c:601-615 | the fresh atom arrays hold the trimmed round |
| Lesk.LeskLoop | match.c:572-637 | started where running the loop to its end yields `goal`, it ends with goal's convergence flag, records and last round; records past n are untouched |
| Lesk.Iterate | src/matchpatch.c:601-668 | one iteration: it reports whether the counts repeat; if so the loop's result is this round, otherwise the loop goes on from the killed records |
| Lesk.DoLesk | src/matchpatch.c:588-685 | returns Outcome and leaves the records as Final says; records past n are untouched |
| CStrings.StrNEqualLiteral | src/matchpatchsurface.c:768-817 | `strncmp` with a literal's length is a prefix test |
| CStrings.StrNEqualSymmetric | src/matchpatch.c:647-648 | `strncmp` equality is symmetric |
| Sequences.IndexOf | src/matchpatchsurface.c:628-697 | the first index holding the element |
| Sequences.Dedup | src/matchpatchsurface.c:628-697 | distinct, same members, no longer than the input |
| Sequences.DedupAppend | src/matchpatchsurface.c:628-697 | appending keeps a new element and drops a repeat |
| Sequences.DedupOrder | src/matchpatchsurface.c:628-697 | de-duplication keeps first-occurrence order |
| Sequences.IndexOfPrefix | src/matchpatchsurface.c:628-697 | appending does not move an earlier first occurrence |
| Sequences.IndexOfLast | src/matchpatchsurface.c:628-697 | a new element's first occurrence is at the end |
| Sequences.DistinctCardinality | src/matchpatch.c:441-481 | a distinct list has as many elements as its set |
| Surface.PropertyString | src/matchpatchsurface.c:758-818 | MAXPROPERTIES characters plus a NUL |
| Surface.PropertyFlags | src/matchpatchsurface.c:763-817 | NUL at the width, all bits '0'/'1', each flag iff its residue list contains the name, other slots '0' |
| Surface.NegativeResidue | src/matchpatchsurface.c:767-773 | defines the negative-charge list: ASP, GLU and the nucleotides `A  `, `T  `, `C  `, `G  ` (3-character strncmp) |
| Surface.PositiveResidue | src/matchpatchsurface.c:778-781 | defines the positive-charge list: LYS, ARG, HIS |
| Surface.AromaticResidue | src/matchpatchsurface.c:786-789 | defines the aromatic list: PHE, TYR, TRP |
| Surface.HydrophobicResidue | src/matchpatchsurface.c:794-799 | defines the hydrophobic list: PHE, ILE, LEU, VAL, TRP |
| Surface.HydrophilicResidue | src/matchpatchsurface.c:804-814 | defines the hydrophilic list: ASP, GLU, HIS, LYS, ASN, GLN, ARG, SER, THR, TYR |
| Surface.PropertyAt | src/matchpatchsurface.c:763-817 | the character of each slot |
| Surface.ChargesExclusive | src/matchpatchsurface.c:768-784 | no residue is both negative and positive |
| Surface.SharedFlags | src/matchpatchsurface.c:787-817 | PHE, TYR and HIS carry several flags at once |
| Surface.SetPropertyString | src/matchpatchsurface.c:758-818 | the buffer becomes PropertyString of the residue name |
| Surface.GlutamineAmideMissed | src/matchpatchsurface.c:595-602 | as written, GLN NE2 is not of interest while ASN ND2 is |
| Surface.AmidesOfInterest | src/matchpatchsurface.c:595-602 | with the corrected table, both amide atoms of ASN and GLN are of interest |
| Surface.PhilPhobWidens | src/matchpatchsurface.c:592-624 | `philphob` only adds atoms, those of the hydrophilic/hydrophobic table |
| Surface.OfInterest | src/matchpatchsurface.c:545-625 | defines an atom of interest: charged or aromatic table entry, a phosphorus `P`, or with `philphob` an entry of the given hydrophilic/hydrophobic table |
| Surface.ChargedAromatic | src/matchpatchsurface.c:547-588 | the charged and aromatic (residue, atom-name prefix) entries always of interest, in source order |
| Surface.PhilPhobAsWritten | src/matchpatchsurface.c:594-623 | the hydrophilic and hydrophobic entries as written, the glutamine one naming `NE1` |
| Surface.PhilPhob | src/matchpatchsurface.c:594-623 | the same entries with the glutamine one corrected to `NE2` |
| Surface.CorrectionWidens | src/matchpatchsurface.c:592-602 | the two tables flag the same atoms except GLN `NE1` (as written only) and GLN `NE2` (corrected only) |
| Surface.GlutamineResidueMissed | src/matchpatchsurface.c:527-699 | on one GLN `NE2` atom with `philphob`, the routine as written returns nothing; the corrected one returns that residue |
| Surface.Flag | src/matchpatchsurface.c:541-625 | flagging keeps the atom count; with `table` = PhilPhobAsWritten it is the source's loop, with PhilPhob the corrected one |
| Surface.Keys | src/matchpatchsurface.c:640-642 | one residue key per atom |
| Surface.KeysSnoc | src/matchpatchsurface.c:669-695 | adding a residue to the list adds its key at the end |
| Surface.RepresentativeKeys | src/matchpatchsurface.c:628-697 | the output keys are the flagged keys de-duplicated |
| Surface.RepresentativeIsFirst | src/matchpatchsurface.c:628-697 | each output entry copies the first flagged atom of its residue |
| Surface.FlaggedKeyListed | src/matchpatchsurface.c:628-697 | every flagged atom's residue key is collected |
| Surface.FlaggedKeySource | src/matchpatchsurface.c:628-697 | every collected key comes from a flagged atom |
| Surface.FlaggedKeys | src/matchpatchsurface.c:628-697 | defines the residue keys of the flagged atoms, in list order |
| Surface.Representatives | src/matchpatchsurface.c:628-697 | defines the copying loop's list: each residue's first flagged atom, copied with occ 1.0 |
| Surface.Interesting | src/matchpatchsurface.c:527-699 | defines the routine's output: Representatives of the flagged atoms |
| Surface.InterestingDistinct | src/matchpatchsurface.c:628-697 | one entry per residue |
| Surface.InterestingResidues | src/matchpatchsurface.c:527-699 | a residue is in the output iff one of its atoms is of interest |
| Surface.FlagAt | src/matchpatchsurface.c:541-625 | an atom is flagged iff it is of interest; nothing but occ changes |
| Surface.InterestingFirst | src/matchpatchsurface.c:628-697 | each entry is the residue's first atom of interest, with occ 1.0 |
| Surface.InterestingOrder | src/matchpatchsurface.c:628-697 | entries follow the order of first flagged occurrence |
| Surface.FlagForgetsOcc | src/matchpatchsurface.c:541-542 | the earlier occ values do not matter |
| Surface.InterestByName | src/matchpatchsurface.c:545-625 | whether an atom is of interest depends only on its residue and atom names |
| Surface.ClearOcc | src/matchpatchsurface.c:541-542 | every atom's occ becomes 0 and nothing else changes |
| Surface.FlagAtoms | src/matchpatchsurface.c:541-625 | the atoms become Flag of the old atoms under the given table (PhilPhobAsWritten as in the source) |
| Surface.ResidueFound | src/matchpatchsurface.c:635-666 | true iff the residue is already in the output |
| Surface.CollectResidues | src/matchpatchsurface.c:628-697 | the output is Representatives of the flagged atoms |
| Surface.FindAtomsOfInterest | src/matchpatchsurface.c:527-699 | flags the atoms and returns Interesting of the input under the given table; PhilPhobAsWritten is the source, PhilPhob the corrected routine |
| Surface.Selection | src/matchpatchsurface.c:939-983 | the output is no longer than the input |
| Surface.InRange | src/matchpatchsurface.c:944-956 | defines one range's test: start chain, number between start and stop, insert bounds on the boundary residues; the stop chain is not read |
| Surface.Selected | src/matchpatchsurface.c:939-983 | defines acceptance: some range accepts the atom |
| Surface.SelectionAppend | src/matchpatchsurface.c:939-983 | the filter works atom by atom |
| Surface.SelectionSingle | src/matchpatchsurface.c:939-983 | a single atom is kept iff some range accepts it |
| Surface.SelectionMembers | src/matchpatchsurface.c:939-983 | an atom is in the output iff it is in the input and in some range |
| Surface.SelectionIdempotent | src/matchpatchsurface.c:939-983 | selecting twice selects once |
| Surface.BlankInserts | src/matchpatchsurface.c:944-956 | with blank range inserts, membership is chain plus number bounds |
| Surface.InsertBeforeStart | src/matchpatchsurface.c:949-952 | an atom on the start residue with an insert below the start insert is rejected |
| Surface.SelectRanges | src/matchpatchsurface.c:939-983 | returns Selection of the atoms: each atom at most once, in input order |

## Left out

- Input parsing and file I/O (`ReadDataAndCreateMatrix`, `ReadMatrix`, the limits file of `SelectRanges`, `main`, `ParseCmdLine`, `Usage`, `MatchFiles`): the model starts from records and ranges already read.
- All `fprintf` output, verbose and DEBUG tracing: results are returned as values (`Lesk.Pairing` lines) instead of printed.
- The floating-point distance and the division `dist/gBin`: `ConvertDistanceToBin` takes the truncated quotient as input.
- The iteration's atoms' coordinates, the centre-of-gravity averaging in `FindAtomsOfInterest` and its occ counter (src/matchpatchsurface.c:647-660): floating-point arithmetic. The model sets each output entry's occ to 1.0 as it is first copied.
- `FindSurfaceAtoms`: floating-point 3-D geometry over a grid.
- Memory management: `malloc`/`FREE`, the linked-list macros and every out-of-memory path. This includes `SelectRanges` freeing `stop` on the failure path where `stop` is NULL.
- `properties.h` is not part of this model: its constants are abstract indices (`Signatures.Layout`).
- The bioplib calls `blParseResSpec`, `blCopyPDB`, `blReadPDBAtoms` and `MAKERESID` are not part of this model. Ranges arrive parsed. A copy is the atom value itself.
- The caller glue at src/matchpatch.c:323 is left out. It passes the number of input points, not the number of records, as `DoLesk`'s record count. `Lesk.DoLesk` takes an explicit count n ≤ the array length.
- Signatures.CreateAtomArray: allocates 2·ndata atoms where the source allocates ndata (see Findings).
- Surface.FindAtomsOfInterest: takes the hydrophilic/hydrophobic table as a parameter. `PhilPhobAsWritten` models the source, NE1 entry included; `PhilPhob` is the corrected table (see Findings).
- Bitstrings.Compare: compares exact reals. The C computes the score and reads `gAccuracy` (`%lf`) as doubles, so a score and threshold that differ only by double rounding (2/3 against `-a 66.66666666666667`) can compare differently there.
- Surface.SelectRanges: like the source, it does not compare the atom's chain with the stop residue's chain; only the start chain is tested.
- The positive-charge set differs between the two files, and both are modelled as written: `src/matchpatchsurface.c` counts HIS as positive, `match.c` does not.
- Lesk.LeskLoop: each iteration's fresh arrays replace the previous ones. Freeing them, and `match.c` not freeing either array, are left out.
- Integer widths: every count stays below 2·ndata, far from the `int` range, so counters are unbounded integers.

## Findings

| source | as written | input that shows it | evidently intended | confidence | as-written member | corrected member |
|---|---|---|---|---|---|---|
| src/matchpatch.c:449, match.c:422 | `CreateAtomArray` allocates `ndata` atoms, but each live record can add two new atoms | one record (LYS A1, GLU A2): two atoms written into a one-slot array | an array large enough for every distinct resid, at most 2·ndata | not executed | SignatureFacts.AllocationOverflow | SignatureFacts.AllocationSuffices |
| src/matchpatchsurface.c:601-602 | the glutamine hydrophilic entry tests atom name `NE1`, which glutamine does not have | GLN atom `NE2` with `philphob` set is not flagged, while ASN `ND2` is | GLN `NE2`, the amide nitrogen matching ASN `ND2` | not executed | Surface.GlutamineResidueMissed | Surface.AmidesOfInterest |
