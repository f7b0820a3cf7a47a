/** getModifiedGenome: the region is processed in windows of at most
    MAX_REGION_LEN positions; each window's modified sequence is appended
    to the result and its records to the per-symbol BED files. */
module Driver {
  import opened Util
  import opened Alphabet
  import opened GenomeStore
  import opened Compositor

  /** _MAX_REGION_LEN */
  const MAX_REGION_LEN: nat := 2000000

  /** `len(range(start, end, MAX_REGION_LEN))`: the number of windows. */
  function NumWindows(start: int, end: int): (n: nat)
    ensures forall k :: 0 <= k < n ==> start + k * MAX_REGION_LEN < end
    ensures start + n * MAX_REGION_LEN >= end
  {
    if end <= start then 0
    else
      var n := (end - start + MAX_REGION_LEN - 1) / MAX_REGION_LEN;
      NumWindowsBounds(end - start, n);
      n
  }

  lemma NumWindowsBounds(len: nat, n: nat)
    requires len > 0 && n == (len + MAX_REGION_LEN - 1) / MAX_REGION_LEN
    ensures (n - 1) * MAX_REGION_LEN < len <= n * MAX_REGION_LEN
    ensures forall k :: 0 <= k < n ==> k * MAX_REGION_LEN < len
  {
    var q := len + MAX_REGION_LEN - 1;
    assert n * MAX_REGION_LEN <= q < n * MAX_REGION_LEN + MAX_REGION_LEN;
    forall k | 0 <= k < n ensures k * MAX_REGION_LEN < len {
      assert k * MAX_REGION_LEN <= (n - 1) * MAX_REGION_LEN;
    }
  }

  /** The first coordinate of window `k`. */
  function WindowStart(start: int, k: nat): int
  {
    start + k * MAX_REGION_LEN
  }

  /** The end coordinate of window `k`: a full MAX_REGION_LEN whenever the
      region is at least that long, otherwise the region's end. */
  function WindowEnd(start: int, end: int, k: nat): int
  {
    if end - start >= MAX_REGION_LEN then WindowStart(start, k) + MAX_REGION_LEN else end
  }

  /** How far the first `k` windows reach. */
  function CoveredTo(start: int, end: int, k: nat): (c: int)
    ensures k == 0 ==> c == start
    ensures k > 0 ==> c == WindowEnd(start, end, k - 1)
  {
    if k == 0 then start
    else if end - start >= MAX_REGION_LEN then start + k * MAX_REGION_LEN
    else end
  }

  /** One line of a BED track file: the UCSC track line of a symbol (its text
      is `TrackHeader(symbol, palette)`), or a record. */
  datatype BedLine = TrackLine(symbol: char) | Row(record: BedRecord)

  /** What this call appends to each `track-<m>.bed.gz`, by symbol; a file
      is opened only when a window has records for its symbol, so a symbol
      that is not a key had its file left untouched. */
  type BedFiles = map<char, seq<BedLine>>

  /** The lines appended to the file of symbol `m`. */
  function Appended(bed: BedFiles, m: char): seq<BedLine>
  {
    if m in bed then bed[m] else []
  }

  function RowLines(rs: seq<BedRecord>): (ls: seq<BedLine>)
    ensures |ls| == |rs|
    ensures forall i :: 0 <= i < |rs| ==> ls[i] == Row(rs[i])
  {
    seq(|rs|, i requires 0 <= i < |rs| => Row(rs[i]))
  }

  /** The records among the lines of a file, in order. */
  function Records(ls: seq<BedLine>): seq<BedRecord>
  {
    if ls == [] then [] else (if ls[0].Row? then [ls[0].record] else []) + Records(ls[1..])
  }

  lemma {:induction false} RecordsConcat(a: seq<BedLine>, b: seq<BedLine>)
    ensures Records(a + b) == Records(a) + Records(b)
  {
    if a == [] {
      assert a + b == b;
    } else {
      assert (a + b)[1..] == a[1..] + b;
      RecordsConcat(a[1..], b);
    }
  }

  lemma {:induction false} RecordsOfRows(rs: seq<BedRecord>)
    ensures Records(RowLines(rs)) == rs
  {
    if rs != [] {
      assert RowLines(rs)[1..] == RowLines(rs[1..]);
      RecordsOfRows(rs[1..]);
    }
  }

  /** The keys of `_MODIFIES`, in the order the BED loop visits them. Each
      symbol has its own file, so the order does not affect any file. */
  const MOD_KEYS: seq<char> := ['m', 'h', 'f', 'c', '1', '2', '3', '4']

  /** What one window appends to the file of symbol `m`: nothing when the
      window has no record for `m`, otherwise the symbol's track line
      followed by its records. */
  function WindowBlock(chrm: string, s: int, winners: seq<bool>, out: seq<char>, m: char): (ls: seq<BedLine>)
    requires |winners| == |out|
    ensures ls == [] <==> WindowRecords(chrm, s, winners, out, m) == []
    ensures ls != [] ==> ls[0] == TrackLine(m)
    ensures Records(ls) == WindowRecords(chrm, s, winners, out, m)
  {
    var rs := WindowRecords(chrm, s, winners, out, m);
    RecordsOfRows(rs);
    if rs == [] then []
    else
      assert ([TrackLine(m)] + RowLines(rs))[1..] == RowLines(rs);
      [TrackLine(m)] + RowLines(rs)
  }

  /** The BED output of one window: for each symbol of `symbols` with at
      least one record, its track header followed by its records. */
  function AppendWindowBed(bed: BedFiles, chrm: string, s: int, winners: seq<bool>,
                           out: seq<char>, symbols: seq<char>): (r: BedFiles)
    requires |winners| == |out|
    ensures forall m :: m !in symbols ==> Appended(r, m) == Appended(bed, m)
    ensures r.Keys <= bed.Keys + set m | m in symbols
    decreases |symbols|
  {
    if symbols == [] then bed
    else
      var m := symbols[0];
      var block := WindowBlock(chrm, s, winners, out, m);
      var bed' := if block == [] then bed else bed[m := Appended(bed, m) + block];
      AppendWindowBed(bed', chrm, s, winners, out, symbols[1..])
  }

  /** Over distinct symbols, one window appends its block to the file of
      each symbol it visits and leaves every other file as it was. */
  lemma {:induction false} AppendWindowBedFile(bed: BedFiles, chrm: string, s: int, winners: seq<bool>,
                                               out: seq<char>, symbols: seq<char>, m: char)
    requires |winners| == |out|
    requires forall i, j :: 0 <= i < j < |symbols| ==> symbols[i] != symbols[j]
    ensures Appended(AppendWindowBed(bed, chrm, s, winners, out, symbols), m) ==
      Appended(bed, m) + (if m in symbols then WindowBlock(chrm, s, winners, out, m) else [])
    decreases |symbols|
  {
    if symbols != [] {
      var m0 := symbols[0];
      var block := WindowBlock(chrm, s, winners, out, m0);
      var bed' := if block == [] then bed else bed[m0 := Appended(bed, m0) + block];
      assert Appended(bed', m) == Appended(bed, m) + (if m == m0 then block else []);
      AppendWindowBedFile(bed', chrm, s, winners, out, symbols[1..], m);
      assert m in symbols <==> m == m0 || m in symbols[1..];
      assert m == m0 ==> m !in symbols[1..];
    }
  }

  /** The state getModifiedGenome carries from window to window. */
  datatype Run = Run(sequence: string, bed: BedFiles, hasModifiedBases: bool, failed: bool)

  /** The fixed inputs of one getModifiedGenome call: the chromosome, the
      track symbols (`modBases`), the priority order (`modOrder`), the
      region and the two suppression flags. */
  datatype Request = Request(
    chrom: Chromosome, tracks: seq<char>, order: seq<nat>,
    start: int, end: int, suppressFASTA: bool, suppressBED: bool)

  ghost predicate ValidRequest(q: Request)
  {
    WellFormed(q.chrom, |q.tracks|) && ValidOrder(q.order, |q.tracks|)
  }

  /** The reference bases and score rows of window `[s, e)`, sliced as
      Python slices them. */
  function WindowScores(q: Request, s: int, e: int): seq<seq<Score>>
  {
    PySlice(q.chrom.scores, s, e)
  }

  function WindowReference(q: Request, s: int, e: int): seq<char>
  {
    PySlice(q.chrom.sequence, s, e)
  }

  lemma WindowWellFormed(q: Request, s: int, e: int)
    requires ValidRequest(q)
    ensures WellFormedWindow(q.tracks, q.order, WindowScores(q, s, e), WindowReference(q, s, e))
  {
    PySliceSameLength(q.chrom.scores, q.chrom.sequence, s, e);
  }

  /** One loop iteration over window `[s, e)`. Once a window has raised,
      nothing more happens. */
  function Step(q: Request, r: Run, s: int, e: int): Run
    requires ValidRequest(q)
  {
    if r.failed then r
    else
      WindowWellFormed(q, s, e);
      var scores := WindowScores(q, s, e);
      var reference := WindowReference(q, s, e);
      match ComposeWindowSpec(q.tracks, q.order, scores, reference)
      case None => r.(failed := true)
      case Some(out) =>
        var has := HasCandidates(q.order, scores, |scores|);
        Run(if q.suppressFASTA then r.sequence else r.sequence + out,
            if has && !q.suppressBED
            then AppendWindowBed(r.bed, q.chrom.name, s, WinnerRows(q.order, scores), out, MOD_KEYS)
            else r.bed,
            r.hasModifiedBases || has,
            false)
  }

  /** The state after the first `k` windows. */
  function RunAfter(q: Request, k: nat): Run
    requires ValidRequest(q)
  {
    if k == 0 then Run([], map[], false, false)
    else Step(q, RunAfter(q, k - 1), WindowStart(q.start, k - 1), WindowEnd(q.start, q.end, k - 1))
  }

  lemma RunAfterNext(q: Request, k: nat)
    requires ValidRequest(q)
    ensures RunAfter(q, k + 1) ==
      Step(q, RunAfter(q, k), WindowStart(q.start, k), WindowEnd(q.start, q.end, k))
  {
  }

  /** The outcome of getModifiedGenome on a request. */
  function ModifiedGenome(q: Request): (r: Run)
    requires ValidRequest(q)
    ensures q.suppressBED ==> r.bed == map[]
  {
    var n := NumWindows(q.start, q.end);
    if q.suppressBED then
      SuppressedBedIsEmpty(q, n);
      RunAfter(q, n)
    else RunAfter(q, n)
  }

  /** getModifiedGenome: walks the windows, composing each one and appending
      its sequence and records. `result` is `None` when the chromosome is
      unknown or a window raises; `warned` is the no-modified-bases warning. */
  method GetModifiedGenome(genome: Genome, tracks: seq<char>,
                           order: seq<nat>, chrm: string, start: int, end: int,
                           suppressFASTA: bool, suppressBED: bool)
    returns (result: Option<string>, bed: BedFiles, warned: bool)
    requires forall i :: 0 <= i < |genome| ==> WellFormed(genome[i], |tracks|)
    requires ValidOrder(order, |tracks|)
    ensures Lookup(genome, chrm).None? ==> result.None? && bed == map[] && !warned
    ensures Lookup(genome, chrm).Some? ==>
      var q := Request(Lookup(genome, chrm).value, tracks, order, start, end,
                       suppressFASTA, suppressBED);
      var r := ModifiedGenome(q);
      result == (if r.failed then None else Some(r.sequence)) &&
      bed == r.bed &&
      warned == (!r.failed && !r.hasModifiedBases && !suppressBED)
  {
    bed := map[];
    warned := false;
    var found := Lookup(genome, chrm);
    if found.None? {
      result := None;
      return;
    }
    var q := Request(found.value, tracks, order, start, end, suppressFASTA, suppressBED);
    assert ValidRequest(q) by {
      var i :| 0 <= i < |genome| && genome[i] == found.value;
    }
    var n := NumWindows(start, end);
    var sequence: string := [];
    var hasModifiedBases := false;
    var k := 0;
    while k < n
      invariant 0 <= k <= n
      invariant RunAfter(q, k) == Run(sequence, bed, hasModifiedBases, false)
    {
      var ok;
      ok, sequence, bed, hasModifiedBases :=
        ProcessWindow(q, WindowStart(start, k), WindowEnd(start, end, k), sequence, bed, hasModifiedBases);
      if !ok {
        FailedIsFinal(q, k + 1, n);
        assert ModifiedGenome(q) == RunAfter(q, k + 1);
        result := None;
        return;
      }
      k := k + 1;
    }
    assert ModifiedGenome(q) == RunAfter(q, n);
    warned := !hasModifiedBases && !suppressBED;
    result := Some(sequence);
  }

  /** The body of the window loop: composes window `[s, e)`, appends its
      sequence unless FASTA output is suppressed, and appends its records to
      the BED files when it has candidates and BED output is not suppressed. */
  method ProcessWindow(q: Request, s: int, e: int,
                       sequence: string, bed: BedFiles, hasModifiedBases: bool)
    returns (ok: bool, sequence': string, bed': BedFiles, hasModifiedBases': bool)
    requires ValidRequest(q)
    ensures Step(q, Run(sequence, bed, hasModifiedBases, false), s, e) ==
      Run(sequence', bed', hasModifiedBases', !ok)
  {
    WindowWellFormed(q, s, e);
    var scores := WindowScores(q, s, e);
    var out, has := ComposeWindow(q.tracks, q.order, scores, WindowReference(q, s, e));
    bed' := bed;
    sequence' := sequence;
    hasModifiedBases' := hasModifiedBases;
    if out.None? {
      ok := false;
      return;
    }
    ok := true;
    hasModifiedBases' := hasModifiedBases || has;
    if !q.suppressFASTA {
      sequence' := sequence + out.value;
    }
    if has && !q.suppressBED {
      bed' := AppendWindowBed(bed, q.chrom.name, s, WinnerRows(q.order, scores), out.value, MOD_KEYS);
    }
  }

  /** Once a window has raised, later windows change nothing. */
  lemma {:induction false} FailedIsFinal(q: Request, k: nat, k': nat)
    requires ValidRequest(q)
    requires k <= k' && RunAfter(q, k).failed
    ensures RunAfter(q, k') == RunAfter(q, k)
    decreases k' - k
  {
    if k < k' {
      FailedIsFinal(q, k, k' - 1);
    }
  }

  /** Window `k` begins where the first `k` windows end, and never ends
      before it begins. */
  lemma WindowsAdjacent(start: int, end: int, k: nat)
    requires k < NumWindows(start, end)
    ensures WindowStart(start, k) == CoveredTo(start, end, k)
    ensures WindowStart(start, k) <= WindowEnd(start, end, k) == CoveredTo(start, end, k + 1)
  {
  }

  /** The windows tile the region from `start` on: when the region is shorter
      than MAX_REGION_LEN there is at most one window and it ends at `end`;
      otherwise every window is MAX_REGION_LEN wide and the last one reaches
      `end` or beyond. */
  lemma WindowsTileRegion(start: int, end: int)
    ensures end - start < MAX_REGION_LEN ==> NumWindows(start, end) <= 1
    ensures start < end ==> CoveredTo(start, end, NumWindows(start, end)) >= end
    ensures end - start < MAX_REGION_LEN && start < end ==>
      CoveredTo(start, end, NumWindows(start, end)) == end
    ensures forall k :: 0 <= k < NumWindows(start, end) ==>
      WindowEnd(start, end, k) - WindowStart(start, k) ==
        if end - start >= MAX_REGION_LEN then MAX_REGION_LEN else end - start
  {
    var n := NumWindows(start, end);
    if start < end {
      assert n > 0;
    }
  }

  /** The score rows and reference bases of the first `k` windows, taken
      as one slice. */
  function CoveredScores(q: Request, k: nat): seq<seq<Score>>
  {
    PySlice(q.chrom.scores, q.start, CoveredTo(q.start, q.end, k))
  }

  function CoveredReference(q: Request, k: nat): seq<char>
  {
    PySlice(q.chrom.sequence, q.start, CoveredTo(q.start, q.end, k))
  }

  /** The covered stretch is well formed, and window `k` extends it. */
  lemma CoveredWellFormed(q: Request, k: nat)
    requires ValidRequest(q)
    ensures WellFormedWindow(q.tracks, q.order, CoveredScores(q, k), CoveredReference(q, k))
  {
    WindowWellFormed(q, q.start, CoveredTo(q.start, q.end, k));
  }

  lemma CoveredExtends(q: Request, k: nat)
    requires q.start >= 0 && k < NumWindows(q.start, q.end)
    ensures var s, e := WindowStart(q.start, k), WindowEnd(q.start, q.end, k);
      CoveredScores(q, k + 1) == CoveredScores(q, k) + WindowScores(q, s, e) &&
      CoveredReference(q, k + 1) == CoveredReference(q, k) + WindowReference(q, s, e)
  {
    WindowsAdjacent(q.start, q.end, k);
    var s, e := WindowStart(q.start, k), WindowEnd(q.start, q.end, k);
    PySliceConcat(q.chrom.scores, q.start, s, e);
    PySliceConcat(q.chrom.sequence, q.start, s, e);
  }

  /** Chunking is invisible: after `k` windows, the run has failed exactly
      when composing the covered stretch in one piece raises; otherwise the
      concatenated sequence is that one-piece composition, or empty when
      FASTA output is suppressed. */
  lemma {:induction false} ChunkingInvisible(q: Request, k: nat)
    requires ValidRequest(q) && q.start >= 0
    requires k <= NumWindows(q.start, q.end)
    ensures WellFormedWindow(q.tracks, q.order, CoveredScores(q, k), CoveredReference(q, k))
    ensures RunAfter(q, k).failed <==>
      ComposeWindowSpec(q.tracks, q.order, CoveredScores(q, k), CoveredReference(q, k)).None?
    ensures !RunAfter(q, k).failed ==>
      RunAfter(q, k).sequence == if q.suppressFASTA then [] else
        ComposeWindowSpec(q.tracks, q.order, CoveredScores(q, k), CoveredReference(q, k)).value
  {
    if k == 0 {
      ChunkingStart(q);
    } else {
      ChunkingInvisible(q, k - 1);
      ChunkingStep(q, k);
    }
  }

  /** Before the first window nothing is covered and nothing has failed. */
  lemma ChunkingStart(q: Request)
    requires ValidRequest(q) && q.start >= 0
    ensures WellFormedWindow(q.tracks, q.order, CoveredScores(q, 0), CoveredReference(q, 0))
    ensures !RunAfter(q, 0).failed && RunAfter(q, 0).sequence == []
    ensures ComposeWindowSpec(q.tracks, q.order, CoveredScores(q, 0), CoveredReference(q, 0)) == Some([])
  {
    CoveredWellFormed(q, 0);
    assert CoveredScores(q, 0) == [] && CoveredReference(q, 0) == [];
    AllPositionsComposed(q.tracks, q.order, CoveredScores(q, 0), CoveredReference(q, 0), []);
  }

  /** After window `k` the run still matches the one-piece composition
      of the covered stretch, given that it did after window `k - 1`. */
  lemma ChunkingStep(q: Request, k: nat)
    requires ValidRequest(q) && q.start >= 0
    requires 0 < k <= NumWindows(q.start, q.end)
    requires WellFormedWindow(q.tracks, q.order, CoveredScores(q, k - 1), CoveredReference(q, k - 1))
    requires RunAfter(q, k - 1).failed <==>
      ComposeWindowSpec(q.tracks, q.order, CoveredScores(q, k - 1), CoveredReference(q, k - 1)).None?
    requires !RunAfter(q, k - 1).failed ==>
      RunAfter(q, k - 1).sequence == if q.suppressFASTA then [] else
        ComposeWindowSpec(q.tracks, q.order, CoveredScores(q, k - 1), CoveredReference(q, k - 1)).value
    ensures WellFormedWindow(q.tracks, q.order, CoveredScores(q, k), CoveredReference(q, k))
    ensures RunAfter(q, k).failed <==>
      ComposeWindowSpec(q.tracks, q.order, CoveredScores(q, k), CoveredReference(q, k)).None?
    ensures !RunAfter(q, k).failed ==>
      RunAfter(q, k).sequence == if q.suppressFASTA then [] else
        ComposeWindowSpec(q.tracks, q.order, CoveredScores(q, k), CoveredReference(q, k)).value
  {
    var j := k - 1;
    var s, e := WindowStart(q.start, j), WindowEnd(q.start, q.end, j);
    CoveredWellFormed(q, k);
    CoveredExtends(q, j);
    WindowWellFormed(q, s, e);
    ComposeWindowConcat(q.tracks, q.order, CoveredScores(q, j), CoveredReference(q, j),
                        WindowScores(q, s, e), WindowReference(q, s, e));
    RunAfterNext(q, j);
    StepCore(q, RunAfter(q, j), s, e);
  }


  /** After `k` windows that all composed, the modified-bases flag says
      whether the covered stretch holds any candidate. */
  lemma {:induction false} ModifiedBasesCovered(q: Request, k: nat)
    requires ValidRequest(q) && q.start >= 0
    requires k <= NumWindows(q.start, q.end)
    requires !RunAfter(q, k).failed
    ensures WellFormedWindow(q.tracks, q.order, CoveredScores(q, k), CoveredReference(q, k))
    ensures RunAfter(q, k).hasModifiedBases <==>
      HasCandidates(q.order, CoveredScores(q, k), |CoveredScores(q, k)|)
  {
    if k == 0 {
      CoveredWellFormed(q, k);
    } else {
      StillRunning(q, k);
      ModifiedBasesCovered(q, k - 1);
      ModifiedBasesStep(q, k);
    }
  }

  /** A run that has not failed after window `k` had not failed after
      window `k - 1` either. */
  lemma StillRunning(q: Request, k: nat)
    requires ValidRequest(q) && k > 0 && !RunAfter(q, k).failed
    ensures !RunAfter(q, k - 1).failed
  {
    RunAfterNext(q, k - 1);
  }


  /** One window further, the flag still tracks the covered stretch. */
  lemma ModifiedBasesStep(q: Request, k: nat)
    requires ValidRequest(q) && q.start >= 0
    requires 0 < k <= NumWindows(q.start, q.end)
    requires !RunAfter(q, k).failed
    requires WellFormedWindow(q.tracks, q.order, CoveredScores(q, k - 1), CoveredReference(q, k - 1))
    requires RunAfter(q, k - 1).hasModifiedBases <==>
      HasCandidates(q.order, CoveredScores(q, k - 1), |CoveredScores(q, k - 1)|)
    ensures WellFormedWindow(q.tracks, q.order, CoveredScores(q, k), CoveredReference(q, k))
    ensures RunAfter(q, k).hasModifiedBases <==>
      HasCandidates(q.order, CoveredScores(q, k), |CoveredScores(q, k)|)
  {
    var j := k - 1;
    var s, e := WindowStart(q.start, j), WindowEnd(q.start, q.end, j);
    CoveredWellFormed(q, k);
    RunAfterNext(q, j);
    WindowWellFormed(q, s, e);
    StepCore(q, RunAfter(q, j), s, e);
    CoveredExtends(q, j);
    HasCandidatesConcat(q.order, CoveredScores(q, j), WindowScores(q, s, e));
  }


  /** With BED output suppressed nothing is appended to any track file. */
  lemma {:induction false} SuppressedBedIsEmpty(q: Request, k: nat)
    requires ValidRequest(q) && q.suppressBED
    ensures RunAfter(q, k).bed == map[]
  {
    if k > 0 {
      SuppressedBedIsEmpty(q, k - 1);
      RunAfterNext(q, k - 1);
      StepBed(q, RunAfter(q, k - 1), WindowStart(q.start, k - 1), WindowEnd(q.start, q.end, k - 1));
    }
  }

  /** With BED output on, the file of each symbol holds, besides one track
      line per window that has records for it, exactly the records that
      composing the covered stretch in one piece gives: chunking does not
      show in the BED output either. Symbols outside `_MODIFIES` get no
      file. */
  lemma {:induction false} BedChunkingInvisible(q: Request, k: nat, m: char)
    requires ValidRequest(q) && q.start >= 0 && !q.suppressBED
    requires k <= NumWindows(q.start, q.end) && !RunAfter(q, k).failed
    ensures WellFormedWindow(q.tracks, q.order, CoveredScores(q, k), CoveredReference(q, k))
    ensures ComposeWindowSpec(q.tracks, q.order, CoveredScores(q, k), CoveredReference(q, k)).Some?
    ensures Records(Appended(RunAfter(q, k).bed, m)) ==
      if m !in MOD_KEYS then [] else
        WindowRecords(q.chrom.name, q.start, WinnerRows(q.order, CoveredScores(q, k)),
                      ComposeWindowSpec(q.tracks, q.order, CoveredScores(q, k), CoveredReference(q, k)).value, m)
    ensures m !in MOD_KEYS ==> Appended(RunAfter(q, k).bed, m) == []
  {
    ChunkingInvisible(q, k);
    if k > 0 {
      StillRunning(q, k);
      BedChunkingInvisible(q, k - 1, m);
      BedStep(q, k, m);
    }
  }

  /** One window further, the BED file of `m` still matches the one-piece
      composition of the covered stretch. */
  lemma {:induction false} BedStep(q: Request, k: nat, m: char)
    requires ValidRequest(q) && q.start >= 0 && !q.suppressBED
    requires 0 < k <= NumWindows(q.start, q.end) && !RunAfter(q, k).failed && !RunAfter(q, k - 1).failed
    requires WellFormedWindow(q.tracks, q.order, CoveredScores(q, k - 1), CoveredReference(q, k - 1))
    requires ComposeWindowSpec(q.tracks, q.order, CoveredScores(q, k - 1), CoveredReference(q, k - 1)).Some?
    requires Records(Appended(RunAfter(q, k - 1).bed, m)) ==
      if m !in MOD_KEYS then [] else
        WindowRecords(q.chrom.name, q.start, WinnerRows(q.order, CoveredScores(q, k - 1)),
                      ComposeWindowSpec(q.tracks, q.order, CoveredScores(q, k - 1), CoveredReference(q, k - 1)).value, m)
    requires m !in MOD_KEYS ==> Appended(RunAfter(q, k - 1).bed, m) == []
    ensures WellFormedWindow(q.tracks, q.order, CoveredScores(q, k), CoveredReference(q, k))
    ensures ComposeWindowSpec(q.tracks, q.order, CoveredScores(q, k), CoveredReference(q, k)).Some?
    ensures Records(Appended(RunAfter(q, k).bed, m)) ==
      if m !in MOD_KEYS then [] else
        WindowRecords(q.chrom.name, q.start, WinnerRows(q.order, CoveredScores(q, k)),
                      ComposeWindowSpec(q.tracks, q.order, CoveredScores(q, k), CoveredReference(q, k)).value, m)
    ensures m !in MOD_KEYS ==> Appended(RunAfter(q, k).bed, m) == []
  {
    var j := k - 1;
    var s, e := WindowStart(q.start, j), WindowEnd(q.start, q.end, j);
    var cs, cr := CoveredScores(q, j), CoveredReference(q, j);
    var ws, wr := WindowScores(q, s, e), WindowReference(q, s, e);
    BedWindowAppends(q, j, m);
    var w := ComposeWindowSpec(q.tracks, q.order, ws, wr).value;
    var c := ComposeWindowSpec(q.tracks, q.order, cs, cr).value;
    assert CoveredScores(q, k) == cs + ws && CoveredReference(q, k) == cr + wr by {
      CoveredExtends(q, j);
    }
    ComposeWindowConcat(q.tracks, q.order, cs, cr, ws, wr);
    WinnerRowsConcat(q.order, cs, ws);
    if m in MOD_KEYS {
      assert q.start + |c| == s || w == [] by { CoveredOffset(q, j); }
      AppendBlockRecords(Appended(RunAfter(q, j).bed, m), q.chrom.name, q.start, WinnerRows(q.order, cs), c,
                         s, WinnerRows(q.order, ws), w, m);
    } else {
      assert Appended(RunAfter(q, k).bed, m) == Appended(RunAfter(q, j).bed, m) + [];
    }
  }

  /** Window `j`, when it composes, appends its block to the file of each
      symbol of `_MODIFIES`. */
  lemma BedWindowAppends(q: Request, j: nat, m: char)
    requires ValidRequest(q) && !q.suppressBED
    requires !RunAfter(q, j + 1).failed
    ensures var s, e := WindowStart(q.start, j), WindowEnd(q.start, q.end, j);
      WellFormedWindow(q.tracks, q.order, WindowScores(q, s, e), WindowReference(q, s, e)) &&
      ComposeWindowSpec(q.tracks, q.order, WindowScores(q, s, e), WindowReference(q, s, e)).Some? &&
      Appended(RunAfter(q, j + 1).bed, m) ==
        Appended(RunAfter(q, j).bed, m) +
        if m !in MOD_KEYS then [] else
          WindowBlock(q.chrom.name, s, WinnerRows(q.order, WindowScores(q, s, e)),
                      ComposeWindowSpec(q.tracks, q.order, WindowScores(q, s, e), WindowReference(q, s, e)).value, m)
  {
    var s, e := WindowStart(q.start, j), WindowEnd(q.start, q.end, j);
    var ws, wr := WindowScores(q, s, e), WindowReference(q, s, e);
    var r := RunAfter(q, j);
    WindowWellFormed(q, s, e);
    assert RunAfter(q, j + 1) == Step(q, r, s, e) by { RunAfterNext(q, j); }
    StepCore(q, r, s, e);
    var w := ComposeWindowSpec(q.tracks, q.order, ws, wr).value;
    var ww := WinnerRows(q.order, ws);
    StepBedAppends(q, r, s, e);
    AppendWindowBedFile(r.bed, q.chrom.name, s, ww, w, MOD_KEYS, m);
    RecordsNeedWinner(q.chrom.name, s, q.order, ws, w, m);
  }

  /** Appending a window's block to a file whose records are those of the
      stretch before it gives the records of both stretches together. */
  lemma AppendBlockRecords(file: seq<BedLine>, chrm: string, start: int, wc: seq<bool>, c: seq<char>,
                           s: int, ww: seq<bool>, w: seq<char>, m: char)
    requires |wc| == |c| && |ww| == |w|
    requires Records(file) == WindowRecords(chrm, start, wc, c, m)
    requires start + |c| == s || w == []
    ensures Records(file + WindowBlock(chrm, s, ww, w, m)) == WindowRecords(chrm, start, wc + ww, c + w, m)
  {
    RecordsConcat(file, WindowBlock(chrm, s, ww, w, m));
    WindowRecordsConcat(chrm, start, wc, c, ww, w, m);
    if w == [] {
      assert ww == [] && wc + ww == wc && c + w == c;
    }
  }

  /** A window with any positions begins where the covered stretch before it
      ends, counted from the region's start. */
  lemma CoveredOffset(q: Request, j: nat)
    requires q.start >= 0 && j < NumWindows(q.start, q.end)
    ensures var s, e := WindowStart(q.start, j), WindowEnd(q.start, q.end, j);
      WindowScores(q, s, e) == [] || q.start + |CoveredScores(q, j)| == s
  {
    WindowsAdjacent(q.start, q.end, j);
  }

  /** What the BED file of a symbol holds after `k` windows: one-base
      records of that symbol, strictly increasing, each at a covered position
      that had a winner and whose composed symbol is `m`, with no such
      position missing. */
  lemma {:induction false} BedFileFacts(q: Request, k: nat, m: char)
    requires ValidRequest(q) && q.start >= 0 && !q.suppressBED
    requires k <= NumWindows(q.start, q.end) && !RunAfter(q, k).failed
    ensures WellFormedWindow(q.tracks, q.order, CoveredScores(q, k), CoveredReference(q, k)) &&
      ComposeWindowSpec(q.tracks, q.order, CoveredScores(q, k), CoveredReference(q, k)).Some?
    ensures TrackFile(Records(Appended(RunAfter(q, k).bed, m)), q.chrom.name, q.start,
                      WinnerRows(q.order, CoveredScores(q, k)),
                      ComposeWindowSpec(q.tracks, q.order, CoveredScores(q, k), CoveredReference(q, k)).value,
                      m, m in MOD_KEYS)
  {
    BedChunkingInvisible(q, k, m);
    var out := ComposeWindowSpec(q.tracks, q.order, CoveredScores(q, k), CoveredReference(q, k)).value;
    var winners := WinnerRows(q.order, CoveredScores(q, k));
    var rs := Records(Appended(RunAfter(q, k).bed, m));
    RecordsFacts(rs, q.chrom.name, q.start, winners, out, m, m in MOD_KEYS);
  }

  /** The records of a track file of symbol `m` over a stretch beginning at
      `s`: one-base intervals at positions that had a winner and whose
      composed symbol is `m`, in strictly increasing order, and, when the
      symbol has a file at all, every such position. */
  ghost predicate TrackFile(rs: seq<BedRecord>, chrm: string, s: int, winners: seq<bool>, out: seq<char>,
                            m: char, kept: bool)
    requires |winners| == |out|
  {
    RecordsAtPositions(rs, chrm, s, winners, out, m) && Increasing(Starts(rs)) &&
    (kept ==> forall p :: 0 <= p < |out| && winners[p] && out[p] == m ==> s + p in Starts(rs))
  }

  /** The BED files getModifiedGenome leaves behind: for every symbol, the
      records of the whole region's one-piece composition, as TrackFile
      describes them. */
  lemma ModifiedGenomeBed(q: Request)
    requires ValidRequest(q) && q.start >= 0 && !q.suppressBED
    requires !ModifiedGenome(q).failed
    ensures var k := NumWindows(q.start, q.end);
      WellFormedWindow(q.tracks, q.order, CoveredScores(q, k), CoveredReference(q, k)) &&
      ComposeWindowSpec(q.tracks, q.order, CoveredScores(q, k), CoveredReference(q, k)).Some? &&
      forall m :: TrackFile(Records(Appended(ModifiedGenome(q).bed, m)), q.chrom.name, q.start,
                            WinnerRows(q.order, CoveredScores(q, k)),
                            ComposeWindowSpec(q.tracks, q.order, CoveredScores(q, k), CoveredReference(q, k)).value,
                            m, m in MOD_KEYS)
  {
    var k := NumWindows(q.start, q.end);
    assert ModifiedGenome(q) == RunAfter(q, k);
    ChunkingInvisible(q, k);
    forall m
      ensures TrackFile(Records(Appended(RunAfter(q, k).bed, m)), q.chrom.name, q.start,
                        WinnerRows(q.order, CoveredScores(q, k)),
                        ComposeWindowSpec(q.tracks, q.order, CoveredScores(q, k), CoveredReference(q, k)).value,
                        m, m in MOD_KEYS)
    {
      BedFileFacts(q, k, m);
    }
  }

  lemma RecordsFacts(rs: seq<BedRecord>, chrm: string, s: int, winners: seq<bool>, out: seq<char>,
                     m: char, kept: bool)
    requires |winners| == |out|
    requires rs == if kept then WindowRecords(chrm, s, winners, out, m) else []
    ensures TrackFile(rs, chrm, s, winners, out, m, kept)
  {
    if kept {
      WindowRecordsSound(chrm, s, winners, out, m);
      WindowRecordsOrdered(chrm, s, winners, out, m);
      WindowRecordsComplete(chrm, s, winners, out, m);
    }
  }

  lemma StepCore(q: Request, r: Run, s: int, e: int)
    requires ValidRequest(q)
    requires WellFormedWindow(q.tracks, q.order, WindowScores(q, s, e), WindowReference(q, s, e))
    ensures r.failed ==> Step(q, r, s, e) == r
    ensures !r.failed ==>
      var scores := WindowScores(q, s, e);
      var w := ComposeWindowSpec(q.tracks, q.order, scores, WindowReference(q, s, e));
      var r' := Step(q, r, s, e);
      (r'.failed <==> w.None?) &&
      (w.Some? ==> r'.sequence == (if q.suppressFASTA then r.sequence else r.sequence + w.value)) &&
      (w.Some? ==> r'.hasModifiedBases == (r.hasModifiedBases || HasCandidates(q.order, scores, |scores|)))
  {
  }

  /** What one window does to the BED files: nothing when BED output is
      suppressed, otherwise it appends the window's records when the window
      composes and has candidates. */
  lemma StepBed(q: Request, r: Run, s: int, e: int)
    requires ValidRequest(q) && q.suppressBED
    ensures Step(q, r, s, e).bed == r.bed
  {
  }

  lemma StepBedAppends(q: Request, r: Run, s: int, e: int)
    requires ValidRequest(q)
    ensures !q.suppressBED && !r.failed ==>
      WellFormedWindow(q.tracks, q.order, WindowScores(q, s, e), WindowReference(q, s, e)) &&
      var scores := WindowScores(q, s, e);
      var w := ComposeWindowSpec(q.tracks, q.order, scores, WindowReference(q, s, e));
      (w.Some? ==>
         Step(q, r, s, e).bed ==
           if HasCandidates(q.order, scores, |scores|)
           then AppendWindowBed(r.bed, q.chrom.name, s, WinnerRows(q.order, scores), w.value, MOD_KEYS)
           else r.bed)
  {
    WindowWellFormed(q, s, e);
  }
}
