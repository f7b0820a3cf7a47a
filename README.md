# cytomod in Dafny

Cytomod builds a *modified genome*. It starts from a reference sequence and
one score track per covalently modified cytosine: 5mC (`m`), 5hmC (`h`),
5fC (`f`) and 5caC (`c`). On the guanine strand these are written
`1`–`4`. Wherever a track reports a modification, cytomod writes the
track's symbol into the sequence. When several tracks report one at the
same position, a priority order decides. Every modification written is
also recorded in a per-symbol BED track file. A companion script,
`generateMinimalMEMETextFromSeqs.py`, builds a MEME letter-probability
matrix over the extended 12-letter alphabet, from raw motif sequences or
from a weight/count matrix. It then writes one modified copy of the
matrix per requested modification.

This project models both in Dafny and proves properties of the model:

- `Util`: Python slicing (`xs[i:j]` with negative and out-of-range
  bounds), `str.upper` on letters, and decimal digits.
- `Alphabet`: the nucleobase alphabet.
  - `COMPLEMENTS` is built from a literal by two dictionary updates, and
    `_MODIFIES` by one; the model builds both as the same sequence of map
    merges (`Alphabet.BuildComplements`, `Alphabet.BuildModifies`).
  - `complement()`, the full base names and the track colours.
  - `getTrackHeader`.
- `GenomeStore`: the genome as an ordered list of chromosomes, each with a
  name, bounds, sequence, score rows and supercontigs. Looking one up by
  name can fail (the KeyError).
- `Compositor`: one window of `getModifiedGenome`.
  - The candidate test (a finite, non-zero score).
  - The priority winner, and `maybeGetModBase`.
  - Composing the window (a method with a loop over the positions).
  - The BED records written for each symbol.
- `Driver`: the window loop of `getModifiedGenome`.
  - Windows of at most 2,000,000 bases.
  - The FASTA text accumulated, the BED files appended to, the
    `hasModifiedBases` flag and the final warning.
- `Region`:
  - `_ensureRegionValidity`, as written and corrected.
  - `parseRegion`, with its own model of `REGION_REGEX` and `re.search`:
    `ParseRegion` applies the check as written, `ParseRegionCorrected`
    the corrected one.
  - `selectRandomRegion`, with its bounded supercontig retry loop.
- `MotifAlphabet`: the motif script's tables.
  - The strand mapping between `m h f c` and `1 2 3 4`.
  - The background frequencies, and the ASCII-ordered `MOTIF_ALPHABET`.
- `MotifMatrix`: the motif script itself.
  - The matrix from raw sequences, or from a PWM/PFM (padding, and
    normalising counts in place in a 2-D array).
  - The fraction and one-hot rewrites, applied in place to a working copy.
  - Where verification showed the script wrong (see "## Findings"), the
    code as written is kept as a function with lemmas exhibiting the
    fault (`Modifications`, `GenerateAsWritten`); the methods and
    `Generate` use the corrected definitions.
  - The option checks, and the whole run (the files written and what is
    printed).

Where the code and its documentation disagree, the model follows the
code. (Where the code is evidently wrong, the model keeps the code as
written and a corrected definition beside it; see "## Findings".)

- `selectRandomRegion` says it keeps the region *wholly within* a
  supercontig. What it tests is that the supercontig slice
  `supercontigs[start:end]` is non-empty, i.e. that some supercontig
  *overlaps* the region. `GenomeStore.OverlapsSupercontig` models the
  overlap.
- `_MAX_CONTIG_ATTEMPTS = 3` allows at most four draws of a start, not
  three: the counter is tested before it is incremented.
- The motif script's check `args.baseModificationAtAllModifiablePosFractions
  == _PARAM_A_CONST_VAL` compares the string `"999"` with the integer
  `999`, so it never stops the run (`MotifMatrix.BareFractionsOptionRunsOn`).
- The `-A` help says a guanine-strand symbol such as `1` is accepted and
  selects the right rewrite. The rewrite for `1` is indeed the one for
  `m`, but `MOD_BASE_NAMES` has no entry for `1`, so the run stops with
  KeyError before the file is written
  (`MotifMatrix.ComplementSymbolUnnamed`).
- A reference symbol that is itself a modification symbol (a digit in the
  reference, say) and has a candidate gets a BED record of its own
  (`Compositor.DigitReferenceRecorded`).

## Model

| member | source | states |
|---|---|---|
| Util.PySlice | cytomod.py:171-176 | Python slice semantics as used for `chromosome[s:e]` and `seq[s:e]`: length of the clamped range, elementwise agreement with the clamped slice, equal to the plain slice for in-range bounds |
| Util.PySliceConcat | cytomod.py:167-176 | two adjacent Python slices concatenate to the slice over their union, so windows of the data join into the region's data |
| Util.UpperSeq | cytomod.py:175-176 | `.upper()` keeps the length and upper-cases each letter, leaving every other symbol as is |
| Util.NatToStringRoundTrip | cytomod.py:298 | `int()` of the decimal text of a number gives the number back |
| Alphabet.Complement | cytomod.py:42-63 | `COMPLEMENTS[c]` exists exactly for the 24 alphabet symbols (else KeyError); its values are given by BuildComplements and ComplementInvolution |
| Alphabet.ComplementList | cytomod.py:61-63 | `complement(bases)` succeeds exactly when every base is in the alphabet (else KeyError), keeps the length and complements each base |
| Alphabet.BuildComplements | cytomod.py:42-56 | the table built by the literal and the two updates has exactly the 24 alphabet symbols as keys and agrees with `Complement` |
| Alphabet.ForwardTable | cytomod.py:42-53 | the literal table updated with the zip of `m h f c` and `1 2 3 4` is the forward table |
| Alphabet.ForwardTableFacts | cytomod.py:42-56 | the forward table is injective and every pair in it is a complement pair in both directions |
| Alphabet.ReversedTableFacts | cytomod.py:56 | adding the reversed pairs makes the key set exactly the alphabet, closed under complementation |
| Alphabet.BuildModifies | cytomod.py:66-67 | `_MODIFIES` after its update has exactly the eight modification symbols as keys and agrees with `Modifies` |
| Alphabet.ModifiesTableFacts | cytomod.py:38 | `_MODIFIES` starts as the primaries mapped to `C`; complementing the keys gives `1 2 3 4` and complementing the values gives `G G G G` |
| Alphabet.Modifies | cytomod.py:36-67 | `_MODIFIES[m]` exists exactly for the eight modification symbols and is always `C` or `G` |
| Alphabet.ComplementInvolution | cytomod.py:54-56 | complementation is self-inverse on the alphabet, and stays in it |
| Alphabet.ModificationComplements | cytomod.py:48-53 | the k-th primary modification (in oxidation order) complements to digit `k+1`; the modification symbols are closed under complement |
| Alphabet.ModifiesTargets | cytomod.py:66-67 | primaries modify `C`, their complements modify `G`, and complementing a symbol complements its target |
| Alphabet.FullModBaseName | cytomod.py:69-78 | every modification symbol has a full name; a complement symbol is named `Guanine:` followed by its primary's name |
| Alphabet.ColourIndex | cytomod.py:148-152 | the palette index exists exactly for modification symbols and is below the palette size 8 |
| Alphabet.ColourIndexBijective | cytomod.py:148-152 | primary k gets colour k and its complement colour 7-k; distinct symbols get distinct colours |
| Alphabet.StripColour | cytomod.py:155 | `re.sub('[() ]', '', …)`: the result is no longer than the input, holds no bracket or space, equals a colour that has none, and on one character removes it exactly when it is a bracket or space |
| Alphabet.StripColourConcat | cytomod.py:155 | the substitution acts character by character: it distributes over concatenation |
| Alphabet.TrackHeader | cytomod.py:144-155 | a header exists exactly for modification symbols (else the KeyError/ValueError); it starts with `track name="Nucleobase ` and the symbol, then `" description="Track denoting ` + the full name + ` covalently modified nucleobases.`, and ends with `" color=` + the symbol's palette colour stripped of brackets and spaces |
| Alphabet.TrackHeaderColours | cytomod.py:148-155 | the header of primary modification k ends with palette colour k, and that of its complement with colour 7-k (the `len - index - 1` branch) |
| Alphabet.TrackHeaderNotComment | cytomod.py:226-234 | the header line written to each BED file starts with `track`, never with the comment marker `#` |
| GenomeStore.Lookup | cytomod.py:133-137 | `genome[chrm]`: a result is a chromosome of the genome with that name; none exactly when no chromosome has the name |
| Compositor.MaybeGetModBaseFacts | cytomod.py:181-196 | all branches of `maybeGetModBase`: non-modification keeps `r`, a matching target gives `m`, the complement target gives `complement(m)`; fails (KeyError) exactly when `m` targets another base and `r` is outside the alphabet; a changed base is a modification symbol that modifies `r` |
| Compositor.MaybeGetModBase | cytomod.py:181-196 | a symbol outside `_MODIFIES` returns `r`; a symbol modifying `r` returns itself; any result is `r`, `m` or `complement(m)` |
| Compositor.PositionResult | cytomod.py:198-211 | one position of the window: no candidate keeps the upper-cased reference; only a winning candidate can raise; a changed base is the winner's symbol or its complement |
| Compositor.ComposeWindowSpec | cytomod.py:198-211 | the window fails exactly when some position raises; otherwise the output has the window's length and each position holds that position's result |
| Compositor.FirstCandidate | cytomod.py:172-179 | `np.unique(..., return_index=True)` on the nonzero positions picks the first track in priority order with a finite non-zero score; none exactly when there is no candidate |
| Compositor.ComposeWindow | cytomod.py:198-211 | the window loop composes exactly `ComposeWindowSpec` (None when some position raises) and reports candidates exactly when `x.size > 0` |
| Compositor.PositionRaises | cytomod.py:208-211 | a position whose rule raises makes the whole window fail |
| Compositor.AllPositionsComposed | cytomod.py:198-211 | when every position's rule succeeds, the window's output is the sequence of those results |
| Compositor.RecordPositionsSound | cytomod.py:213-221 | every recorded position holds a winner whose output is the symbol `m` |
| Compositor.RecordPositionsOrdered | cytomod.py:215-221 | recorded positions are strictly increasing |
| Compositor.RecordPositionsComplete | cytomod.py:213-221 | every winner position whose output is `m` is recorded |
| Compositor.WindowRecordsSound | cytomod.py:221-223 | each BED record is `(chrm, s+p, s+p+1, m)` for a recorded position `p` |
| Compositor.WindowRecordsOrdered | cytomod.py:221-223 | record starts are strictly increasing |
| Compositor.WindowRecordsComplete | cytomod.py:213-223 | every winner position whose output is `m` appears as a record start `s+p` |
| Compositor.WindowRecordsConcat | cytomod.py:212-223 | the records of two adjacent stretches are those of the first followed by those of the second, shifted by its length |
| Compositor.RecordsNeedWinner | cytomod.py:206-223 | a window with a BED record has a candidate (records are only written under `x.size > 0`) |
| Compositor.WinnerRowsConcat | cytomod.py:178-179 | the winner flags of two stretches concatenate |
| Compositor.WinnerRows | cytomod.py:178-179 | the winner flags are true exactly at positions with a candidate |
| Compositor.ComposeWindowConcat | cytomod.py:167-211 | composing two adjacent stretches separately and concatenating equals composing them together (failing if either fails) |
| Compositor.HasCandidatesConcat | cytomod.py:206-207 | the stretch made of two parts has a candidate exactly when one of the parts has |
| Compositor.WindowOutputFacts | cytomod.py:174-211 | output length equals the window; a position without candidate keeps the upper-cased reference; a changed position holds the winner's symbol or its complement, which modifies the reference base |
| Compositor.LowerRanksIgnored | cytomod.py:174-179 | tracks ranked after the winner do not affect the position |
| Compositor.UnrankedTrackIgnored | cytomod.py:174 | a track left out of the priority order never affects the result |
| Compositor.FailedWinnerKeepsReference | cytomod.py:188-211 | a winner that cannot modify the reference base leaves it, even if a lower-ranked track could have |
| Compositor.MethylatedCytosineExample | cytomod.py:181-211 | `ACGT` with 5mC reported at position 1 becomes `AmGT` |
| Compositor.MethylatedCytosineRecords | cytomod.py:212-223 | that window writes the single 5mC record `chr1 1 2 m` |
| Compositor.OppositeStrandExample | cytomod.py:193-194 | a lower-case `g` reported as 5mC becomes the guanine-strand symbol `1` |
| Compositor.IncompatibleBaseExample | cytomod.py:195-223 | 5mC reported on an `A` keeps `A` and writes no record |
| Compositor.DigitReferenceRecorded | cytomod.py:188-223 | a reference digit `1` with a candidate stays `1` and is recorded in the `1` track |
| Driver.NumWindows | cytomod.py:167 | `range(start, end, MAX)` has one window start per step below `end` and no more |
| Driver.NumWindowsBounds | cytomod.py:167 | the number of windows is the region length divided by 2,000,000, rounded up |
| Driver.CoveredTo | cytomod.py:167-168 | the data covered after k windows: the start, then each window's end |
| Driver.RowLines | cytomod.py:232-234 | each BED record becomes one row line, in order |
| Driver.RecordsOfRows | cytomod.py:232-234 | reading the record lines back from the rows written gives the records |
| Driver.RecordsConcat | cytomod.py:229-234 | appending to a BED file appends its records |
| Driver.WindowBlock | cytomod.py:212-234 | one window's append to `track-m.bed.gz`: nothing exactly when the window has no `m` record; otherwise the track header first, and its records are the window's records for `m` |
| Driver.AppendWindowBed | cytomod.py:213-234 | the BED loop over `_MODIFIES.keys()` touches only the files of those symbols and creates no others |
| Driver.AppendWindowBedFile | cytomod.py:213-234 | for distinct symbols, each file gets exactly its window block appended, every other file is unchanged |
| Driver.WindowWellFormed | cytomod.py:171-176 | each window's scores and reference have equal lengths and valid track indices |
| Driver.RunAfterNext | cytomod.py:167-243 | the state after k+1 windows is one more step on the state after k |
| Driver.GetModifiedGenome | cytomod.py:158-247 | unknown chromosome fails (KeyError); otherwise the returned FASTA text, BED files and warning are those of `ModifiedGenome`, warning exactly when nothing failed, no candidate was found and BED output is on; the BED contents are stated by ModifiedGenomeBed |
| Driver.ModifiedGenome | cytomod.py:158-243 | the run over all windows; with BED output suppressed no BED file exists |
| Driver.ModifiedGenomeBed | cytomod.py:165-234 | after the whole run, measured against the region composed in one piece: every record of a BED file sits at a position whose winner wrote the file's symbol, record starts increase strictly, and for the eight modification symbols every such position is recorded |
| Driver.ProcessWindow | cytomod.py:168-243 | one window: compose, append BED rows and header per symbol, extend the FASTA text; the new state is `Step`'s |
| Driver.StepCore | cytomod.py:198-243 | a step fails exactly when the window fails, appends the window's output unless FASTA is suppressed, and raises the flag exactly when the window has a candidate |
| Driver.StepBed | cytomod.py:212 | with BED output suppressed a step leaves the BED files unchanged |
| Driver.StepBedAppends | cytomod.py:206-234 | a step with BED output on appends the window's blocks for every modification symbol when the window has a candidate, and leaves the files unchanged otherwise |
| Driver.FailedIsFinal | cytomod.py:167-243 | once a window raises, later windows change nothing |
| Driver.WindowsAdjacent | cytomod.py:167-168 | each window starts where the previous one ended |
| Driver.WindowsTileRegion | cytomod.py:167-168 | a short region is one window ending at `end`; windows cover the region; every window is 2,000,000 long when the region is at least that long, so the last may run past `end` |
| Driver.CoveredExtends | cytomod.py:171-176 | the covered data after k+1 windows is that after k plus the next window's slice |
| Driver.ChunkingInvisible | cytomod.py:165-243 | chunking is invisible: the run fails exactly when composing the whole covered stretch at once fails, and the FASTA text is that one-piece composition (empty when suppressed) |
| Driver.BedChunkingInvisible | cytomod.py:165-234 | chunking is invisible in the BED files too: after k windows each file's records are those of composing the covered stretch at once, and files of other names are empty |
| Driver.BedFileFacts | cytomod.py:165-234 | after k windows each file's records sit at winner positions whose output is its symbol, increase strictly, and (for modification symbols) include every such position |
| Driver.ModifiedBasesCovered | cytomod.py:206-207 | `hasModifiedBases` is true exactly when some covered position has a candidate |
| Driver.SuppressedBedIsEmpty | cytomod.py:212 | with BED output suppressed, no BED file is ever written |
| Region.EnsureRegionValidity | cytomod.py:131-141 | as written: unknown chromosome fails; the start test compares only the chromosome's start with `end`; accepts exactly `0 <= chrom.start < end` and `start < end <= chrom.end` |
| Region.StartBeforeChromosomeAccepted | cytomod.py:138 | as written, region `5-500` on a chromosome spanning 100-1000 is accepted |
| Region.StartBeforeChromosomeParsed | cytomod.py:290-306 | `parseRegion("chr1:5-500")` on a chromosome spanning 100-1000 returns the region as written, and InvalidStart when corrected |
| Region.CheckRegion | cytomod.py:131-141 | corrected: unknown chromosome fails; invalid start exactly when `start` is before the chromosome or not before `end` |
| Region.CheckRegionAcceptsContained | cytomod.py:131-141 | corrected check accepts exactly the regions with `chrom.start <= start < end <= chrom.end` |
| Region.CheckRegionStricter | cytomod.py:138-141 | the corrected check accepts only what the written one does, and differs only on starts before the chromosome |
| Region.StripSeparators | cytomod.py:292 | the result has no `,` or space, and text without them is unchanged |
| Region.StripSeparatorsConcat | cytomod.py:292 | stripping distributes over concatenation |
| Region.DigitRunEnd | cytomod.py:94 | `\d+` greedy: the run from `j` is all digits and ends at a non-digit or the end |
| Region.MatchAt | cytomod.py:94 | a match of `REGION_REGEX` at a position names a chromosome `chr…` |
| Region.FirstMatch | cytomod.py:293 | `re.search`: the leftmost matching position, none before it; none at all when nothing matches |
| Region.SearchRegion | cytomod.py:293 | the search fails exactly when the pattern matches nowhere |
| Region.ResolveRegion | cytomod.py:293-305 | a failed search (AttributeError) and an unknown chromosome are errors; otherwise the region is accepted exactly when `_ensureRegionValidity` as written accepts the requested bounds, and fails with its error |
| Region.RequestedBounds | cytomod.py:297-304 | a missing start or end defaults to the chromosome's start or end; a given one is kept |
| Region.ResolveRegionCorrected | cytomod.py:293-305 | the same with the corrected check: accepted exactly when CheckRegion accepts, and then the region lies inside its chromosome |
| Region.ParseRegion | cytomod.py:290-306 | `parseRegion` as written: text the pattern nowhere matches is an error; a parsed region passes `_ensureRegionValidity` as written |
| Region.ParseRegionCorrected | cytomod.py:290-306 | `parseRegion` with the corrected check: a parsed region passes CheckRegion |
| Region.FormattedRegionFound | cytomod.py:292-298 | searching `chrN:start-end` finds chromosome `chrN` with that start and end |
| Region.ParseFormattedRegion | cytomod.py:290-306 | for every genome, `parseRegion("chrN:start-end")` gives back `(chrN, start, end)` exactly when the check accepts it and that check's error otherwise; both as written and corrected |
| Region.WholeChromosomeDefault | cytomod.py:297-304 | `parseRegion("chrX")` is the whole chromosome with the corrected check; as written, it fails exactly when the chromosome's start is negative |
| Region.SeparatorIgnored | cytomod.py:292 | inserting a `,` or space anywhere does not change the parse |
| Region.Selectable | cytomod.py:266-270 | the selectable chromosomes are exactly those long enough and not excluded |
| Region.RandInt | cytomod.py:277 | `random.randint(lo, hi)` is inclusive of both ends |
| Region.SelectRandomRegion | cytomod.py:262-287 | no selectable chromosome is an error exactly when every chromosome is too short or excluded; the chosen name is selectable; 1 to 4 draws; `end = start + length`; start within the chromosome's bounds and the last draw; all earlier draws missed every supercontig; warns exactly when the final region overlaps none, after 4 draws |
| MotifAlphabet.ComplementsInverse | generateMinimalMEMETextFromSeqs.py:36 | the `bidict` and its inverse are inverse maps between `m h f c` and `1 2 3 4` |
| MotifAlphabet.CompMaybeFromMB | generateMinimalMEMETextFromSeqs.py:105-111 | a primary modification maps to its guanine-strand digit, whose reverse entry is the primary; any other symbol maps to itself |
| MotifAlphabet.MBMaybeFromComp | generateMinimalMEMETextFromSeqs.py:114-120 | a guanine-strand digit maps to its primary modification, whose forward entry is the digit; any other symbol maps to itself |
| MotifAlphabet.StrandMappingRoundTrip | generateMinimalMEMETextFromSeqs.py:105-120 | the two strand mappings undo each other on modification symbols |
| MotifAlphabet.StrandMappingIdempotent | generateMinimalMEMETextFromSeqs.py:105-120 | both mappings are idempotent and are the identity on any other symbol |
| MotifAlphabet.StrandMappingIsComplement | generateMinimalMEMETextFromSeqs.py:105-120 | the strand pair of a modification symbol is a complement pair of the nucleobase alphabet |
| MotifAlphabet.ModBaseNames | generateMinimalMEMETextFromSeqs.py:35 | the named modifications are exactly the four primaries, with their abbreviations |
| MotifAlphabet.MotifAlphabetSorted | generateMinimalMEMETextFromSeqs.py:41-50 | `MOTIF_ALPHABET` is the strictly ascending list of the background keys, and the only one |
| MotifAlphabet.BackgroundStrandSymmetric | generateMinimalMEMETextFromSeqs.py:41-46 | a symbol and its complement have the same background frequency |
| MotifAlphabet.BackgroundDistribution | generateMinimalMEMETextFromSeqs.py:47 | the background frequencies sum to exactly one |
| MotifAlphabet.MotifIndex | generateMinimalMEMETextFromSeqs.py:294-310 | `MOTIF_ALPHABET.index(c)` exists exactly for alphabet symbols and points at `c` |
| MotifAlphabet.MotifIndexFacts | generateMinimalMEMETextFromSeqs.py:273-277 | `A C G T` sit in columns 4 to 7, and distinct symbols in distinct columns |
| MotifMatrix.MaxLength | generateMinimalMEMETextFromSeqs.py:232-233 | the string array's width is the longest motif's length |
| MotifMatrix.BuildFrequencyMatrix | generateMinimalMEMETextFromSeqs.py:230-250 | no motifs is an error; otherwise the loop appends one frequency row per position, giving the corrected `FrequencyMatrix` |
| MotifMatrix.LeadingRowsEmpty | generateMinimalMEMETextFromSeqs.py:236-250 | as written the matrix has twice as many rows as positions and the first half are zero rows, no distribution |
| MotifMatrix.StackedFrequencies | generateMinimalMEMETextFromSeqs.py:236-250 | as written the matrix has twice the longest motif's length in rows of 12 columns, and its lower half is the corrected frequency matrix (letter counts as on a build where the `itemfreq` view is one character per letter; see "## Left out") |
| MotifMatrix.FrequencyMatrix | generateMinimalMEMETextFromSeqs.py:238-249 | corrected matrix: one row of 12 columns per motif position |
| MotifMatrix.FrequencyRowSumsToOne | generateMinimalMEMETextFromSeqs.py:238-249 | a position where every motif holds an alphabet symbol gets a row summing to one |
| MotifMatrix.PaddedBases | generateMinimalMEMETextFromSeqs.py:273-277 | a 4-column PWM lands in the `A`–`T` columns, every other column is zero, each row keeps its sum |
| MotifMatrix.NormalizedSumsToOne | generateMinimalMEMETextFromSeqs.py:266-271 | a count row with a non-zero sum becomes a row summing to one |
| MotifMatrix.NormalizeCounts | generateMinimalMEMETextFromSeqs.py:260-271 | in place, every row of the array becomes its normalised row |
| MotifMatrix.MoveColumnEntries | generateMinimalMEMETextFromSeqs.py:294-302 | moving a column copies it onto the target and zeroes the source, all else unchanged |
| MotifMatrix.FractionEdit | generateMinimalMEMETextFromSeqs.py:292-302 | the fraction rewrite keeps the matrix shape, and fails (ValueError) exactly when the symbol's cytosine-strand or guanine-strand form is outside `MOTIF_ALPHABET` |
| MotifMatrix.PythonRow | generateMinimalMEMETextFromSeqs.py:307-310 | `m[p - 1]` exists exactly for `-n <= p-1 < n`, negative indices counting from the end |
| MotifMatrix.OneHotEdit | generateMinimalMEMETextFromSeqs.py:303-310 | the one-hot rewrite keeps the matrix shape, and fails exactly for a row index outside the matrix (IndexError) or a symbol outside the alphabet (ValueError) |
| MotifMatrix.FractionEditMoves | generateMinimalMEMETextFromSeqs.py:292-302 | for a modification symbol the fraction rewrite moves the C column onto the modified base and the G column onto its complement, clearing both |
| MotifMatrix.FractionEditFails | generateMinimalMEMETextFromSeqs.py:294-299 | the fraction rewrite fails (ValueError) exactly for a symbol outside the alphabet |
| MotifMatrix.FractionEditKeepsRowSums | generateMinimalMEMETextFromSeqs.py:292-302 | on a motif without modified bases the rewrite keeps every row's sum |
| MotifMatrix.OneHotEditEffect | generateMinimalMEMETextFromSeqs.py:303-310 | the one-hot rewrite fails exactly for a position outside the matrix or a symbol outside the alphabet; otherwise the row becomes the unit vector of the symbol and all other rows are kept |
| MotifMatrix.Modifications | generateMinimalMEMETextFromSeqs.py:284-315 | as written (shared working copy): at most one file per requested symbol |
| MotifMatrix.ModificationsStop | generateMinimalMEMETextFromSeqs.py:289-311 | the loop stops at the first failing rewrite or unnamed symbol, with that error |
| MotifMatrix.OneHotModificationsIndependent | generateMinimalMEMETextFromSeqs.py:287-310 | in one-hot mode the shared copy is harmless: the written loop equals the independent one |
| MotifMatrix.FractionsAccumulate | generateMinimalMEMETextFromSeqs.py:287-302 | as written, the second fraction rewrite's file has an all-zero modified-base column |
| MotifMatrix.FractionsAccumulateExample | generateMinimalMEMETextFromSeqs.py:287-302 | an all-cytosine row rewritten for `m` then `h`: the `h` file has 0 in the 5hmC column |
| MotifMatrix.IndependentModifications | generateMinimalMEMETextFromSeqs.py:284-315 | corrected loop: each symbol rewrites the original matrix; at most one file per symbol |
| MotifMatrix.IndependentWrites | generateMinimalMEMETextFromSeqs.py:289-315 | corrected loop with all rewrites succeeding: no error, one file per symbol in order, each the rewrite of the original for that symbol |
| MotifMatrix.IndependentFractions | generateMinimalMEMETextFromSeqs.py:289-315 | corrected fraction mode on primaries: one file per symbol, each the original with that symbol's fraction rewrite |
| MotifMatrix.IndependentCytosineMoved | generateMinimalMEMETextFromSeqs.py:292-302 | corrected: every file carries the whole original C column in its modification's column |
| MotifMatrix.IndependentFractionsExample | generateMinimalMEMETextFromSeqs.py:292-302 | corrected: the same example's `h` file has 1 in the 5hmC column |
| MotifMatrix.OneHotWrites | generateMinimalMEMETextFromSeqs.py:289-315 | one-hot mode with a valid position: one file per symbol in order, each the original with the chosen row forced to that symbol |
| MotifMatrix.EditInPlace | generateMinimalMEMETextFromSeqs.py:292-310 | the in-place edit of the working copy equals `Edit` of the old contents, or returns its error |
| MotifMatrix.MoveColumnInPlace | generateMinimalMEMETextFromSeqs.py:294-302 | in place, the array becomes `MoveColumn` of its old contents |
| MotifMatrix.SetUnitRow | generateMinimalMEMETextFromSeqs.py:307-310 | in place, the chosen row becomes the unit vector and the rest is unchanged |
| MotifMatrix.EditCopy | generateMinimalMEMETextFromSeqs.py:287-310 | rewriting a fresh array copy of the matrix in place yields exactly `Edit` of the matrix, or its error |
| MotifMatrix.ApplyModifications | generateMinimalMEMETextFromSeqs.py:284-315 | corrected loop, one fresh working copy per symbol: produces exactly `IndependentModifications` |
| MotifMatrix.ModificationPlan | generateMinimalMEMETextFromSeqs.py:223-291 | usage error exactly when `-C` is bare without `-A`; no rewriting exactly when no modification option is given in effect; fraction mode exactly with `-A`; `-C` rewrites for all names, else `-M`'s symbols, else `-A`'s; the one-hot row is `-C`'s position if given, else `-P`'s |
| MotifMatrix.ComplementSymbolUnnamed | generateMinimalMEMETextFromSeqs.py:287-311 | `-A 1`: the fraction rewrite for `1` is the one for `m`, but `1` has no file name, so both loops stop with KeyError before writing a file |
| MotifMatrix.BareFractionsOptionRunsOn | generateMinimalMEMETextFromSeqs.py:217-221 | a bare `-A` is not refused: its text `"999"` is taken as the symbols, and the rewrite loop stops at `9` outside the alphabet |
| MotifMatrix.Generate | generateMinimalMEMETextFromSeqs.py:284-321 | with the corrected loop: the unmodified matrix is printed exactly when nothing failed; a usage error writes no file; a rewriting run writes exactly the corrected loop's files |
| MotifMatrix.Finish | generateMinimalMEMETextFromSeqs.py:284-321 | how the run ends: a usage error writes and prints nothing; no rewriting prints the matrix; a rewriting run keeps its writes and prints exactly when the loop did not fail |
| MotifMatrix.GenerateAsWritten | generateMinimalMEMETextFromSeqs.py:284-321 | the run with the loop as written: the same ending, writing exactly the files of the shared-copy loop |
| MotifMatrix.GenerateAgreesWithoutFractions | generateMinimalMEMETextFromSeqs.py:284-321 | without `-A` the run as written and the corrected run are identical |
| MotifMatrix.GenerateDiffersWithFractions | generateMinimalMEMETextFromSeqs.py:284-321 | with `-A mh`, as written the second file's 5hmC column is all zero; corrected it is the fraction rewrite of the original for `h` |
| MotifMatrix.AllCytosineModificationsAtPosition | generateMinimalMEMETextFromSeqs.py:284-321 | `-C p` alone: one file per primary modification with position `p` forced to it, and the unmodified motif printed |

## Left out

- File and terminal I/O are modelled as values.
  - FASTA, BED and `.meme` files are values: the BED files are a map from
    file name to lines, the `.meme` writes a list.
  - Gzip, `np.savetxt` number formatting (`%d`, `%f`) and the MEME header
    text are not modelled; a row is a record, a matrix is a value.
- `genomedata` is replaced by `GenomeStore`: a chromosome is a value with
  its name, bounds, sequence, score rows and supercontigs. Its lazy arrays
  and data loading are not modelled.
- `CHROMOSOME_EXCLUSION_REGEX` and `_modifychrmExclusionRegex` are not
  modelled. The exclusion test is a predicate parameter of
  `Region.SelectRandomRegion`.
- Randomness becomes a parameter. `random.choice` and `random.randint`
  draw from a supplied function `draw: nat -> nat` (`Region.RandInt`).
- Logging is left out, including `v_print_timestamp` and the verbosity
  levels. `warn` is a boolean result; `sys.exit`/`die` are error values.
- `determineTrackPriority` and the top-level script flow of `cytomod.py`
  (lines 309-476) are not part of this model: argument parsing, track
  discovery, FASTA file naming and `generateFASTAFile`. The priority
  order is a parameter.
- The palette is a parameter. `colorbrewer.RdYlBu[8]` is a list of
  colour strings; only its size 8 and the index arithmetic are modelled.
- argparse mutual exclusion of options and the `-M`/`-P` mismatch warning
  of the motif script are not modelled; `Options` holds the parsed values.
- Python 2 dictionary order is a parameter. `MOD_BASE_NAMES.keys()` (the
  `-C` loop) and `_MODIFIES.keys()` (the BED loop) iterate in an
  unspecified order: `nameOrder` and `symbols` respectively.
- Reading the matrix is not modelled. `np.loadtxt` of floats, the
  `--annotated` column drop and the transpose are left out, and so is the
  rounding of `str()`/`loadtxt` on frequencies. Scores and frequencies are
  exact `real`s, and a score is `Finite(v)` or `NonFinite`.
- Numpy's NUL padding of shorter raw motifs is modelled (`PaddedChar`).
- MotifMatrix.FrequencyMatrix: counts letters as on a numpy build where
  `itemfreq`'s first column, viewed as `'U1'`, gives one character per
  distinct letter. `itemfreq` returns one integer array for letters and
  counts (int64 on a 64-bit build), and viewing its 8-byte items as 4-byte
  characters yields two characters per letter (the letter and an empty
  one), or fails on the strided column. There, at any motif position
  holding two or more distinct letters, the script reads another letter's
  count or raises IndexError (motifs `A` and `T`: IndexError, where the
  model gives 0.5 and 0.5). A position with a single distinct letter is
  unaffected. The same holds for `StackedFrequencies`,
  `BuildFrequencyMatrix` and `FrequencyRowSumsToOne`.
- MotifMatrix.NormalizeCounts: a PFM row of counts summing to zero is left
  as it is, where numpy divides 0 by 0 and fills the row with NaN.
- MotifMatrix.PaddedBases: states the padding only for 4-column input.
  The code pads whatever width it reads.
- MotifMatrix.Generate: runs the corrected rewrite loop, not the one as
  written. The loop as written is `MotifMatrix.GenerateAsWritten`, and
  `GenerateDiffersWithFractions` shows where the two part.
- MotifMatrix.ApplyModifications: the in-place method implements the
  corrected loop (a fresh working copy per symbol), not the shared copy
  of the code as written (`MotifMatrix.Modifications`).
- MotifMatrix.BuildFrequencyMatrix: the loop builds the corrected matrix,
  one row per position, not the zero-padded stack of the code as written
  (`MotifMatrix.StackedFrequencies`).
- MotifMatrix.PadToAlphabet: its own contract states only the row count;
  the column layout is stated by `MotifMatrix.PaddedBases`.

## Findings

| source | as written | input that shows it | evidently intended | confidence | as-written member | corrected member |
|---|---|---|---|---|---|---|
| cytomod.py:138 | the start test is `chromosome.start < 0 or chromosome.start >= end`, so `start` is never compared with the chromosome's start | chromosome `chr1` spanning 100-1000, region `chr1:5-500`: accepted | reject `start < chromosome.start` or `start >= end` | not executed | Region.StartBeforeChromosomeParsed | Region.ParseRegionCorrected |
| generateMinimalMEMETextFromSeqs.py:236-250 | `freqMatrix` starts as a zero matrix with one row per position, and the frequency rows are stacked below it | motifs `["A"]`: a 2-row matrix whose first row is all zero | one frequency row per position, each a distribution | not executed | MotifMatrix.LeadingRowsEmpty | MotifMatrix.FrequencyRowSumsToOne |
| generateMinimalMEMETextFromSeqs.py:287-302 | one working copy is rewritten for every symbol, so after the first fraction rewrite the cytosine column is already zero | one all-cytosine row with `-A -C`, symbols `m` then `h`: the 5hmC file has 0 in the 5hmC column | every file rewrites the unmodified matrix (the 5hmC file has 1 there) | not executed | MotifMatrix.FractionsAccumulateExample | MotifMatrix.IndependentFractionsExample |
