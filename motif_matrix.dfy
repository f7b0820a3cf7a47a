/** The letter-probability matrix of the minimal MEME motif generator: built
    from a set of raw sequences or from a position weight or count matrix,
    then rewritten per requested modification, either by moving the
    cytosine and guanine fractions onto a modified base or by forcing one
    position to a single base. Rows are motif positions, columns the
    symbols of MOTIF_ALPHABET. */
module MotifMatrix {
  import opened Util
  import Alphabet
  import opened MotifAlphabet

  type Matrix = seq<seq<real>>

  /** The number of columns: one per symbol of MOTIF_ALPHABET. */
  const WIDTH: nat := 12

  /** The columns of the four unmodified nucleobases. */
  const A_COLUMN: nat := 4
  const C_COLUMN: nat := 5
  const G_COLUMN: nat := 6
  const T_COLUMN: nat := 7

  lemma AlphabetWidth()
    ensures |MOTIF_ALPHABET| == WIDTH
  {
  }

  lemma Columns()
    ensures |MOTIF_ALPHABET| == WIDTH
    ensures MotifIndex('A') == Some(A_COLUMN) && MotifIndex('T') == Some(T_COLUMN)
    ensures MotifIndex('C') == Some(C_COLUMN) && MotifIndex('G') == Some(G_COLUMN)
  {
    MotifIndexFacts('C', 'G');
  }

  ghost predicate Rectangular(m: Matrix, width: nat)
  {
    forall i :: 0 <= i < |m| ==> |m[i]| == width
  }

  function Zeros(n: nat): (z: seq<real>)
    ensures |z| == n && forall j :: 0 <= j < n ==> z[j] == 0.0
  {
    seq(n, _ => 0.0)
  }

  /** The sum of a row. */
  function RowSum(row: seq<real>): real
  {
    if row == [] then 0.0 else RowSum(row[..|row| - 1]) + row[|row| - 1]
  }

  /** Replacing one entry changes the sum by the difference. */
  lemma {:induction false} RowSumUpdate(row: seq<real>, j: nat, v: real)
    requires j < |row|
    ensures RowSum(row[j := v]) == RowSum(row) - row[j] + v
    decreases |row|
  {
    var n := |row| - 1;
    if j < n {
      assert row[j := v][..n] == row[..n][j := v];
      RowSumUpdate(row[..n], j, v);
    } else {
      assert row[j := v][..n] == row[..n];
    }
  }

  /** A row of zeros sums to zero. */
  lemma {:induction false} RowSumZeros(n: nat)
    ensures RowSum(Zeros(n)) == 0.0
  {
    if n > 0 {
      assert Zeros(n)[..n - 1] == Zeros(n - 1);
      RowSumZeros(n - 1);
    }
  }

  // ---------------------------------------------------------------------
  // From raw sequences

  /** The NUL byte numpy pads a shorter motif with. */
  const NUL: char := 0 as char

  /** The length of the longest motif: the width of numpy's string array. */
  function MaxLength(motifs: seq<string>): (l: nat)
    ensures forall k :: 0 <= k < |motifs| ==> |motifs[k]| <= l
    ensures motifs != [] ==> exists k :: 0 <= k < |motifs| && |motifs[k]| == l
  {
    if motifs == [] then 0
    else
      var rest := MaxLength(motifs[1..]);
      assert forall k :: 1 <= k < |motifs| ==> motifs[k] == motifs[1..][k - 1];
      if |motifs[0]| >= rest then |motifs[0]| else rest
  }

  /** Character `i` of a motif as numpy's character view sees it. */
  function PaddedChar(motif: string, i: nat): char
  {
    if i < |motif| then motif[i] else NUL
  }

  /** How many motifs have `c` at position `i`: the `itemfreq` count. */
  function Count(motifs: seq<string>, i: nat, c: char): (n: nat)
    ensures n <= |motifs|
  {
    if motifs == [] then 0
    else Count(motifs[..|motifs| - 1], i, c) + (if PaddedChar(motifs[|motifs| - 1], i) == c then 1 else 0)
  }

  /** How many motifs have one of `letters` at position `i`. */
  function CountIn(motifs: seq<string>, i: nat, letters: seq<char>): (n: nat)
    ensures n <= |motifs|
  {
    if motifs == [] then 0
    else CountIn(motifs[..|motifs| - 1], i, letters) + (if PaddedChar(motifs[|motifs| - 1], i) in letters then 1 else 0)
  }

  /** The frequencies of `letters` at position `i`, each count divided by
      the number of motifs (true division). */
  function FrequencyRowOver(motifs: seq<string>, i: nat, letters: seq<char>): (row: seq<real>)
    requires motifs != []
    ensures |row| == |letters|
  {
    seq(|letters|, j requires 0 <= j < |letters| => Count(motifs, i, letters[j]) as real / |motifs| as real)
  }

  /** Row `i` of the letter-frequency matrix. */
  function FrequencyRow(motifs: seq<string>, i: nat): (row: seq<real>)
    requires motifs != []
    ensures |row| == WIDTH
  {
    Columns();
    FrequencyRowOver(motifs, i, MOTIF_ALPHABET)
  }

  /** The letter-frequency matrix as evidently intended: one row per motif
      position. */
  function FrequencyMatrix(motifs: seq<string>): (m: Matrix)
    requires motifs != []
    ensures |m| == MaxLength(motifs) && Rectangular(m, WIDTH)
  {
    seq(MaxLength(motifs), i requires 0 <= i < MaxLength(motifs) => FrequencyRow(motifs, i))
  }

  /** The letter-frequency matrix as the code builds it: the rows are
      stacked under a block of zero rows of the same height. */
  function StackedFrequencies(motifs: seq<string>): (m: Matrix)
    requires motifs != []
    ensures |m| == 2 * MaxLength(motifs) && Rectangular(m, WIDTH)
    ensures m[MaxLength(motifs)..] == FrequencyMatrix(motifs)
  {
    seq(MaxLength(motifs), _ => Zeros(WIDTH)) + FrequencyMatrix(motifs)
  }

  datatype InputError = NoMotifs

  /** The sequence branch of the generator, as evidently intended: one
      frequency row per motif position, appended to an initially empty
      matrix (the code starts from a zero block instead, which
      StackedFrequencies keeps). */
  method BuildFrequencyMatrix(motifs: seq<string>) returns (r: Result<Matrix, InputError>)
    ensures motifs == [] ==> r == Err(NoMotifs)
    ensures motifs != [] ==> r == Ok(FrequencyMatrix(motifs))
  {
    if motifs == [] {
      return Err(NoMotifs);
    }
    var length := MaxLength(motifs);
    var m: Matrix := [];
    var i := 0;
    while i < length
      invariant 0 <= i <= length
      invariant m == FrequencyMatrix(motifs)[..i]
    {
      assert FrequencyMatrix(motifs)[..i + 1] == FrequencyMatrix(motifs)[..i] + [FrequencyRow(motifs, i)];
      m := m + [FrequencyRow(motifs, i)];
      i := i + 1;
    }
    assert FrequencyMatrix(motifs)[..length] == FrequencyMatrix(motifs);
    r := Ok(m);
  }

  /** As built, the first half of the matrix holds rows that sum to zero,
      so they are no letter distribution; `["A"]` already shows it. */
  lemma LeadingRowsEmpty(motifs: seq<string>, k: nat)
    requires motifs != [] && k < MaxLength(motifs)
    ensures |StackedFrequencies(motifs)| == 2 * MaxLength(motifs)
    ensures StackedFrequencies(motifs)[k] == Zeros(WIDTH)
    ensures RowSum(StackedFrequencies(motifs)[k]) == 0.0
    ensures StackedFrequencies(motifs)[MaxLength(motifs) + k] == FrequencyRow(motifs, k)
  {
    RowSumZeros(WIDTH);
  }

  /** Fractions over a common denominator add up. */
  lemma AddFractions(a: real, b: real, n: real)
    requires n > 0.0
    ensures a / n + b / n == (a + b) / n
  {
  }

  lemma DivideBySelf(n: real)
    requires n > 0.0
    ensures n / n == 1.0
  {
  }

  /** With distinct letters, the frequencies of the letters add up to the
      share of motifs showing any of them. */
  lemma {:induction false} CountsAddUp(motifs: seq<string>, i: nat, letters: seq<char>)
    requires motifs != []
    requires forall p, q :: 0 <= p < q < |letters| ==> letters[p] != letters[q]
    ensures RowSum(FrequencyRowOver(motifs, i, letters)) == CountIn(motifs, i, letters) as real / |motifs| as real
    decreases |letters|
  {
    var n := |motifs| as real;
    if letters == [] {
      CountInEmpty(motifs, i);
    } else {
      var k := |letters| - 1;
      var init := letters[..k];
      var row := FrequencyRowOver(motifs, i, letters);
      assert row[..k] == FrequencyRowOver(motifs, i, init);
      CountsAddUp(motifs, i, init);
      assert RowSum(row) == CountIn(motifs, i, init) as real / n + Count(motifs, i, letters[k]) as real / n;
      AddFractions(CountIn(motifs, i, init) as real, Count(motifs, i, letters[k]) as real, n);
      assert letters == init + [letters[k]];
      CountInSnoc(motifs, i, init, letters[k]);
    }
  }

  lemma {:induction false} CountInEmpty(motifs: seq<string>, i: nat)
    ensures CountIn(motifs, i, []) == 0
    decreases |motifs|
  {
    if motifs != [] {
      CountInEmpty(motifs[..|motifs| - 1], i);
    }
  }

  /** Adding a letter not yet among the others adds its own count. */
  lemma {:induction false} CountInSnoc(motifs: seq<string>, i: nat, init: seq<char>, c: char)
    requires c !in init
    ensures CountIn(motifs, i, init + [c]) == CountIn(motifs, i, init) + Count(motifs, i, c)
    decreases |motifs|
  {
    if motifs != [] {
      CountInSnoc(motifs[..|motifs| - 1], i, init, c);
    }
  }

  /** When every motif has an alphabet symbol at `i`, all motifs count. */
  lemma {:induction false} CountInAll(motifs: seq<string>, i: nat, letters: seq<char>)
    requires forall k :: 0 <= k < |motifs| ==> PaddedChar(motifs[k], i) in letters
    ensures CountIn(motifs, i, letters) == |motifs|
    decreases |motifs|
  {
    if motifs != [] {
      CountInAll(motifs[..|motifs| - 1], i, letters);
    }
  }

  /** A position where every motif holds a symbol of the alphabet gets a
      row that is a probability distribution. */
  lemma FrequencyRowSumsToOne(motifs: seq<string>, i: nat)
    requires motifs != []
    requires forall k :: 0 <= k < |motifs| ==> PaddedChar(motifs[k], i) in MOTIF_ALPHABET
    ensures RowSum(FrequencyRow(motifs, i)) == 1.0
  {
    MotifAlphabetSorted([]);
    assert forall p, q :: 0 <= p < q < |MOTIF_ALPHABET| ==> MOTIF_ALPHABET[p] != MOTIF_ALPHABET[q];
    CountsAddUp(motifs, i, MOTIF_ALPHABET);
    CountInAll(motifs, i, MOTIF_ALPHABET);
    DivideBySelf(|motifs| as real);
  }

  // ---------------------------------------------------------------------
  // From a weight or count matrix

  /** The sum of a concatenation. */
  lemma {:induction false} RowSumConcat(a: seq<real>, b: seq<real>)
    ensures RowSum(a + b) == RowSum(a) + RowSum(b)
    decreases |b|
  {
    if b == [] {
      assert a + b == a;
    } else {
      var n := |b| - 1;
      assert (a + b)[..|a + b| - 1] == a + b[..n];
      RowSumConcat(a, b[..n]);
    }
  }

  /** A weight matrix read from a file, one row per motif position, widened
      to the whole alphabet: zero columns for the symbols before `A` and for
      those after `T`. */
  function PadToAlphabet(csv: Matrix): (m: Matrix)
    ensures |m| == |csv|
  {
    seq(|csv|, i requires 0 <= i < |csv| => Zeros(A_COLUMN) + csv[i] + Zeros((WIDTH - 1) - T_COLUMN))
  }

  /** A four-column weight matrix lands in the columns of `A` to `T`
      (which Columns places at 4, 5, 6 and 7 for `A`, `C`, `G`, `T`); every
      other symbol gets zero, and every row keeps its sum. */
  lemma PaddedBases(csv: Matrix, i: nat)
    requires Rectangular(csv, 4) && i < |csv|
    ensures |PadToAlphabet(csv)[i]| == WIDTH
    ensures PadToAlphabet(csv)[i][A_COLUMN..T_COLUMN + 1] == csv[i]
    ensures forall j :: 0 <= j < WIDTH && (j < A_COLUMN || T_COLUMN < j) ==> PadToAlphabet(csv)[i][j] == 0.0
    ensures RowSum(PadToAlphabet(csv)[i]) == RowSum(csv[i])
  {
    var row := PadToAlphabet(csv)[i];
    assert row == Zeros(4) + csv[i] + Zeros(4);
    RowSumConcat(Zeros(4) + csv[i], Zeros(4));
    RowSumConcat(Zeros(4), csv[i]);
    RowSumZeros(4);
  }

  /** A row of counts turned into frequencies: each count divided by the
      row's sum. A row whose counts sum to zero is left as it is. */
  function Normalized(row: seq<real>): (r: seq<real>)
    ensures |r| == |row|
  {
    if RowSum(row) == 0.0 then row
    else seq(|row|, j requires 0 <= j < |row| => row[j] / RowSum(row))
  }

  /** Dividing every entry by `s` divides the sum by `s`. */
  lemma {:induction false} RowSumScaled(row: seq<real>, s: real)
    requires s != 0.0
    ensures RowSum(seq(|row|, j requires 0 <= j < |row| => row[j] / s)) == RowSum(row) / s
    decreases |row|
  {
    var scaled := seq(|row|, j requires 0 <= j < |row| => row[j] / s);
    if row != [] {
      var n := |row| - 1;
      assert scaled[..n] == seq(n, j requires 0 <= j < n => row[..n][j] / s);
      RowSumScaled(row[..n], s);
      SumOfQuotients(RowSum(row[..n]), row[n], s);
    }
  }

  lemma SumOfQuotients(a: real, b: real, s: real)
    requires s != 0.0
    ensures a / s + b / s == (a + b) / s
  {
  }

  /** Every count row with a non-zero sum becomes a distribution. */
  lemma NormalizedSumsToOne(row: seq<real>)
    requires RowSum(row) != 0.0
    ensures RowSum(Normalized(row)) == 1.0
  {
    RowSumScaled(row, RowSum(row));
    QuotientBySelf(RowSum(row));
  }

  lemma QuotientBySelf(s: real)
    requires s != 0.0
    ensures s / s == 1.0
  {
  }

  /** The contents of a two-dimensional array, row by row. */
  function Rows(a: array2<real>): (m: Matrix)
    reads a
    ensures |m| == a.Length0 && Rectangular(m, a.Length1)
    ensures forall i, j :: 0 <= i < a.Length0 && 0 <= j < a.Length1 ==> m[i][j] == a[i, j]
  {
    seq(a.Length0, i requires 0 <= i < a.Length0 reads a =>
      seq(a.Length1, j requires 0 <= j < a.Length1 reads a => a[i, j]))
  }

  /** An array whose entries are those of `m` holds `m`. */
  lemma RowsAre(a: array2<real>, m: Matrix)
    requires |m| == a.Length0 && Rectangular(m, a.Length1)
    requires forall i, j :: 0 <= i < a.Length0 && 0 <= j < a.Length1 ==> a[i, j] == m[i][j]
    ensures Rows(a) == m
  {
    forall i | 0 <= i < |m|
      ensures Rows(a)[i] == m[i]
    {
    }
  }

  /** The count-matrix preprocessing: in place, each row's counts are
      replaced by their share of the row's sum. */
  method NormalizeCounts(a: array2<real>)
    modifies a
    ensures Rows(a) == seq(a.Length0, i requires 0 <= i < a.Length0 => Normalized(old(Rows(a))[i]))
  {
    ghost var orig := Rows(a);
    var i := 0;
    while i < a.Length0
      invariant 0 <= i <= a.Length0
      invariant forall r, c :: 0 <= r < i && 0 <= c < a.Length1 ==> a[r, c] == Normalized(orig[r])[c]
      invariant forall r, c :: i <= r < a.Length0 && 0 <= c < a.Length1 ==> a[r, c] == orig[r][c]
    {
      var sum := 0.0;
      var j := 0;
      while j < a.Length1
        invariant 0 <= j <= a.Length1
        invariant sum == RowSum(orig[i][..j])
      {
        assert orig[i][..j + 1][..j] == orig[i][..j];
        sum := sum + a[i, j];
        j := j + 1;
      }
      assert orig[i][..a.Length1] == orig[i];
      if sum != 0.0 {
        j := 0;
        while j < a.Length1
          invariant 0 <= j <= a.Length1
          invariant forall c :: 0 <= c < j ==> a[i, c] == orig[i][c] / sum
          invariant forall c :: j <= c < a.Length1 ==> a[i, c] == orig[i][c]
          invariant forall r, c :: 0 <= r < i && 0 <= c < a.Length1 ==> a[r, c] == Normalized(orig[r])[c]
          invariant forall r, c :: i < r < a.Length0 && 0 <= c < a.Length1 ==> a[r, c] == orig[r][c]
        {
          a[i, j] := a[i, j] / sum;
          j := j + 1;
        }
      }
      i := i + 1;
    }
    RowsAre(a, seq(a.Length0, i requires 0 <= i < a.Length0 => Normalized(orig[i])));
  }

  // ---------------------------------------------------------------------
  // Modified-base rewriting

  datatype ModError =
    | NotInAlphabet(symbol: char)        // `MOTIF_ALPHABET.index` finds no such symbol
    | PositionOutOfRange(position: int)  // the row `position - 1` does not exist
    | UnnamedModification(symbol: char)  // `MOD_BASE_NAMES` has no name for the symbol

  /** How a matrix is rewritten for a modified base: its cytosine and
      guanine fractions move onto the base and its complement at every
      position, or one position is forced to the base alone. */
  datatype Mode = Fractions | OneHot(position: int)

  /** Column `j` of a rectangular matrix. */
  function Column(m: Matrix, j: nat): (col: seq<real>)
    requires Rectangular(m, WIDTH) && j < WIDTH
    ensures |col| == |m| && forall i :: 0 <= i < |m| ==> col[i] == m[i][j]
  {
    seq(|m|, i requires 0 <= i < |m| => m[i][j])
  }

  /** The matrix with column `j` replaced by `col`. */
  function SetColumn(m: Matrix, j: nat, col: seq<real>): (r: Matrix)
    requires Rectangular(m, WIDTH) && j < WIDTH && |col| == |m|
    ensures |r| == |m| && Rectangular(r, WIDTH)
    ensures forall i, k :: 0 <= i < |m| && 0 <= k < WIDTH ==> r[i][k] == if k == j then col[i] else m[i][k]
  {
    seq(|m|, i requires 0 <= i < |m| => m[i][j := col[i]])
  }

  /** Column `src` copied onto column `dst`, then cleared. */
  function MoveColumn(m: Matrix, src: nat, dst: nat): (r: Matrix)
    requires Rectangular(m, WIDTH) && src < WIDTH && dst < WIDTH
    ensures |r| == |m| && Rectangular(r, WIDTH)
  {
    SetColumn(SetColumn(m, dst, Column(m, src)), src, Zeros(|m|))
  }

  lemma MoveColumnEntries(m: Matrix, src: nat, dst: nat)
    requires Rectangular(m, WIDTH) && src < WIDTH && dst < WIDTH && src != dst
    ensures forall i, k :: 0 <= i < |m| && 0 <= k < WIDTH ==>
      MoveColumn(m, src, dst)[i][k] == if k == dst then m[i][src] else if k == src then 0.0 else m[i][k]
  {
  }

  /** The fraction rewrite for symbol `b`: the cytosine column moves to the
      modified base of `b`'s strand mapping, the guanine column to its
      complement. */
  function FractionEdit(m: Matrix, b: char): (r: Result<Matrix, ModError>)
    requires Rectangular(m, WIDTH)
    ensures r.Ok? ==> |r.value| == |m| && Rectangular(r.value, WIDTH)
    ensures r.Err? <==> MotifIndex(MBMaybeFromComp(b)).None? || MotifIndex(CompMaybeFromMB(b)).None?
  {
    AlphabetWidth();
    match MotifIndex(MBMaybeFromComp(b))
    case None => Err(NotInAlphabet(MBMaybeFromComp(b)))
    case Some(mb) =>
      var cytosine := MoveColumn(m, C_COLUMN, mb);
      match MotifIndex(CompMaybeFromMB(b))
      case None => Err(NotInAlphabet(CompMaybeFromMB(b)))
      case Some(comp) => Ok(MoveColumn(cytosine, G_COLUMN, comp))
  }

  /** The row that Python's `m[p - 1]` addresses in an `n`-row matrix:
      negative indices count from the end, anything else outside the
      matrix is an error. */
  function PythonRow(p: int, n: nat): (r: Option<nat>)
    ensures r.Some? <==> -(n as int) <= p - 1 < n
    ensures r.Some? ==> r.value < n && (r.value == p - 1 || r.value == p - 1 + n)
  {
    if p - 1 < -(n as int) || n <= p - 1 then None
    else if p - 1 < 0 then Some(p - 1 + n)
    else Some(p - 1)
  }

  /** The row that holds 1 in column `k` and 0 elsewhere. */
  function UnitRow(k: nat): (row: seq<real>)
    requires k < WIDTH
    ensures |row| == WIDTH && forall j :: 0 <= j < WIDTH ==> row[j] == if j == k then 1.0 else 0.0
  {
    Zeros(WIDTH)[k := 1.0]
  }

  /** The one-hot rewrite: row `p - 1` becomes the unit vector of `b`. */
  function OneHotEdit(m: Matrix, p: int, b: char): (r: Result<Matrix, ModError>)
    requires Rectangular(m, WIDTH)
    ensures r.Ok? ==> |r.value| == |m| && Rectangular(r.value, WIDTH)
    ensures r.Err? <==> PythonRow(p, |m|).None? || MotifIndex(b).None?
  {
    match PythonRow(p, |m|)
    case None => Err(PositionOutOfRange(p))
    case Some(row) =>
      match MotifIndex(b)
      case None => Err(NotInAlphabet(b))
      case Some(k) =>
        AlphabetWidth();
        Ok(m[row := UnitRow(k)])
  }

  function Edit(m: Matrix, mode: Mode, b: char): (r: Result<Matrix, ModError>)
    requires Rectangular(m, WIDTH)
    ensures r.Ok? ==> |r.value| == |m| && Rectangular(r.value, WIDTH)
  {
    match mode
    case Fractions => FractionEdit(m, b)
    case OneHot(p) => OneHotEdit(m, p, b)
  }

  /** One matrix appended to a `.meme` file. */
  datatype MemeWrite = MemeWrite(path: string, matrix: Matrix)

  /** The files written, in order, and the error that stopped the run. */
  datatype Outcome = Outcome(writes: seq<MemeWrite>, error: Option<ModError>)

  function Prepend(writes: seq<MemeWrite>, o: Outcome): Outcome
  {
    Outcome(writes + o.writes, o.error)
  }

  /** The file a modified matrix goes to: the input's name without its
      extension, the modification's name and `.meme`. */
  function OutputPath(stem: string, b: char): string
    requires b in MOD_BASE_NAMES
  {
    stem + "-" + MOD_BASE_NAMES[b] + ".meme"
  }

  /** The rewrite loop as written: every base edits the same working copy,
      so each edit starts from the previous base's result. */
  function Modifications(m: Matrix, mode: Mode, bases: seq<char>, stem: string): (o: Outcome)
    requires Rectangular(m, WIDTH)
    ensures |o.writes| <= |bases|
    decreases |bases|
  {
    if bases == [] then Outcome([], None)
    else
      match Edit(m, mode, bases[0])
      case Err(e) => Outcome([], Some(e))
      case Ok(next) =>
        if bases[0] !in MOD_BASE_NAMES then Outcome([], Some(UnnamedModification(bases[0])))
        else Prepend([MemeWrite(OutputPath(stem, bases[0]), next)], Modifications(next, mode, bases[1..], stem))
  }

  /** The rewrite loop as evidently intended: every base edits the
      unmodified matrix. */
  function IndependentModifications(m: Matrix, mode: Mode, bases: seq<char>, stem: string): (o: Outcome)
    requires Rectangular(m, WIDTH)
    ensures |o.writes| <= |bases|
    decreases |bases|
  {
    if bases == [] then Outcome([], None)
    else
      match Edit(m, mode, bases[0])
      case Err(e) => Outcome([], Some(e))
      case Ok(next) =>
        if bases[0] !in MOD_BASE_NAMES then Outcome([], Some(UnnamedModification(bases[0])))
        else Prepend([MemeWrite(OutputPath(stem, bases[0]), next)], IndependentModifications(m, mode, bases[1..], stem))
  }

  /** A modification symbol's two strand columns: the modified base sits
      after `T`, its complement before `A`. */
  lemma ModColumns(b: char)
    requires b in Alphabet.PRIMARY || b in COMPLEMENT_SYMBOLS
    ensures MotifIndex(MBMaybeFromComp(b)).Some? && T_COLUMN < MotifIndex(MBMaybeFromComp(b)).value
    ensures MotifIndex(CompMaybeFromMB(b)).Some? && MotifIndex(CompMaybeFromMB(b)).value < A_COLUMN
  {
    ModifiedColumns();
    ComplementColumns();
    StrandPair(b);
  }

  /** The strand pair of a modification symbol, spelled out. */
  lemma StrandPair(b: char)
    requires b in Alphabet.PRIMARY || b in COMPLEMENT_SYMBOLS
    ensures (MBMaybeFromComp(b), CompMaybeFromMB(b)) in {('m', '1'), ('h', '2'), ('f', '3'), ('c', '4')}
  {
    StrandMappingIsComplement(b);
    if b == 'm' || b == '1' {
      assert MBMaybeFromComp(b) == 'm' && CompMaybeFromMB(b) == '1';
    } else if b == 'h' || b == '2' {
      assert MBMaybeFromComp(b) == 'h' && CompMaybeFromMB(b) == '2';
    } else if b == 'f' || b == '3' {
      assert MBMaybeFromComp(b) == 'f' && CompMaybeFromMB(b) == '3';
    } else {
      assert MBMaybeFromComp(b) == 'c' && CompMaybeFromMB(b) == '4';
    }
  }

  /** The columns of 5caC, 5fC, 5hmC and 5mC: 8 to 11. */
  lemma ModifiedColumns()
    ensures MotifIndex('c') == Some(8) && MotifIndex('f') == Some(9)
    ensures MotifIndex('h') == Some(10) && MotifIndex('m') == Some(11)
  {
    var a := MOTIF_ALPHABET;
    assert a[8] == 'c' && a[9] == 'f' && a[10] == 'h' && a[11] == 'm';
    MotifIndexAt(8);
    MotifIndexAt(9);
    MotifIndexAt(10);
    MotifIndexAt(11);
  }

  /** The columns of the G-strand symbols `1` to `4`: 0 to 3. */
  lemma ComplementColumns()
    ensures MotifIndex('1') == Some(0) && MotifIndex('2') == Some(1)
    ensures MotifIndex('3') == Some(2) && MotifIndex('4') == Some(3)
  {
    var a := MOTIF_ALPHABET;
    assert a[0] == '1' && a[1] == '2' && a[2] == '3' && a[3] == '4';
    MotifIndexAt(0);
    MotifIndexAt(1);
    MotifIndexAt(2);
    MotifIndexAt(3);
  }

  /** `r` is `m` with the cytosine column moved to column `mb`, the guanine
      column moved to column `comp`, and both sources cleared. */
  ghost predicate FractionsMoved(m: Matrix, r: Matrix, mb: nat, comp: nat)
  {
    |r| == |m| && Rectangular(m, WIDTH) && Rectangular(r, WIDTH) &&
    forall i, k :: 0 <= i < |m| && 0 <= k < WIDTH ==>
      r[i][k] == if k == mb then m[i][C_COLUMN]
                 else if k == comp then m[i][G_COLUMN]
                 else if k == C_COLUMN || k == G_COLUMN then 0.0
                 else m[i][k]
  }

  /** For a modification symbol, the fraction rewrite succeeds and moves
      each cytosine fraction onto the modified base and each guanine
      fraction onto its complement, leaving the other columns alone. */
  lemma FractionEditMoves(m: Matrix, b: char)
    requires Rectangular(m, WIDTH)
    requires b in Alphabet.PRIMARY || b in COMPLEMENT_SYMBOLS
    ensures MotifIndex(MBMaybeFromComp(b)).Some? && MotifIndex(CompMaybeFromMB(b)).Some?
    ensures FractionEdit(m, b).Ok?
    ensures FractionsMoved(m, FractionEdit(m, b).value,
                           MotifIndex(MBMaybeFromComp(b)).value, MotifIndex(CompMaybeFromMB(b)).value)
  {
    ModColumns(b);
    FractionEditUnfold(m, b);
    MovesCompose(m, MotifIndex(MBMaybeFromComp(b)).value, MotifIndex(CompMaybeFromMB(b)).value);
  }

  /** A fraction rewrite whose two target symbols are in the alphabet is
      the two column moves. */
  lemma FractionEditUnfold(m: Matrix, b: char)
    requires Rectangular(m, WIDTH)
    requires MotifIndex(MBMaybeFromComp(b)).Some? && MotifIndex(CompMaybeFromMB(b)).Some?
    ensures MotifIndex(MBMaybeFromComp(b)).value < WIDTH && MotifIndex(CompMaybeFromMB(b)).value < WIDTH
    ensures FractionEdit(m, b) ==
      Ok(MoveColumn(MoveColumn(m, C_COLUMN, MotifIndex(MBMaybeFromComp(b)).value), G_COLUMN, MotifIndex(CompMaybeFromMB(b)).value))
  {
    AlphabetWidth();
  }

  /** Moving the cytosine column and then the guanine column onto two
      other distinct columns. */
  lemma MovesCompose(m: Matrix, mb: nat, comp: nat)
    requires Rectangular(m, WIDTH) && mb < WIDTH && comp < WIDTH && mb != comp
    requires mb != C_COLUMN && mb != G_COLUMN && comp != C_COLUMN && comp != G_COLUMN
    ensures FractionsMoved(m, MoveColumn(MoveColumn(m, C_COLUMN, mb), G_COLUMN, comp), mb, comp)
  {
    var cytosine := MoveColumn(m, C_COLUMN, mb);
    MoveColumnEntries(m, C_COLUMN, mb);
    MoveColumnEntries(cytosine, G_COLUMN, comp);
  }

  /** The rewrite fails exactly for a symbol outside the alphabet; a
      symbol of the alphabet that is no modification still goes through
      (the missing name stops the run afterwards). */
  lemma FractionEditFails(m: Matrix, b: char)
    requires Rectangular(m, WIDTH)
    ensures FractionEdit(m, b).Err? <==> b !in MOTIF_ALPHABET
    ensures FractionEdit(m, b).Err? ==> FractionEdit(m, b).error == NotInAlphabet(b)
  {
    if b in Alphabet.PRIMARY || b in COMPLEMENT_SYMBOLS {
      FractionEditMoves(m, b);
      var a := MOTIF_ALPHABET;
      assert a[8] == 'c' && a[9] == 'f' && a[10] == 'h' && a[11] == 'm';
      assert a[0] == '1' && a[1] == '2' && a[2] == '3' && a[3] == '4';
      assert b in MOTIF_ALPHABET;
    } else {
      StrandMappingIdempotent(b);
    }
  }

  /** On a motif without modified bases the rewrite keeps each row's total:
      it only moves mass. */
  lemma FractionEditKeepsRowSums(m: Matrix, b: char, i: nat)
    requires Rectangular(m, WIDTH) && i < |m|
    requires b in Alphabet.PRIMARY || b in COMPLEMENT_SYMBOLS
    requires ModColumnsEmpty(m[i], b)
    ensures FractionEdit(m, b).Ok?
    ensures RowSum(FractionEdit(m, b).value[i]) == RowSum(m[i])
  {
    FractionEditMoves(m, b);
    ModColumns(b);
    var mb := MotifIndex(MBMaybeFromComp(b)).value;
    var comp := MotifIndex(CompMaybeFromMB(b)).value;
    var row := m[i];
    var step1 := row[mb := row[C_COLUMN]];
    var step2 := step1[C_COLUMN := 0.0];
    var step3 := step2[comp := row[G_COLUMN]];
    var step4 := step3[G_COLUMN := 0.0];
    assert FractionEdit(m, b).value[i] == step4;
    RowSumUpdate(row, mb, row[C_COLUMN]);
    RowSumUpdate(step1, C_COLUMN, 0.0);
    RowSumUpdate(step2, comp, row[G_COLUMN]);
    RowSumUpdate(step3, G_COLUMN, 0.0);
  }

  /** The row has nothing yet in the two columns of modification `b`. */
  ghost predicate ModColumnsEmpty(row: seq<real>, b: char)
    requires |row| == WIDTH
    requires b in Alphabet.PRIMARY || b in COMPLEMENT_SYMBOLS
  {
    ModColumns(b);
    row[MotifIndex(MBMaybeFromComp(b)).value] == 0.0 && row[MotifIndex(CompMaybeFromMB(b)).value] == 0.0
  }

  /** The one-hot rewrite fails exactly when the position is outside the
      matrix or the symbol outside the alphabet; otherwise the chosen row
      becomes a distribution with all its mass on `b`, and every other row
      is kept. */
  lemma OneHotEditEffect(m: Matrix, p: int, b: char)
    requires Rectangular(m, WIDTH)
    ensures PythonRow(p, |m|).None? ==> OneHotEdit(m, p, b) == Err(PositionOutOfRange(p))
    ensures PythonRow(p, |m|).Some? && b !in MOTIF_ALPHABET ==> OneHotEdit(m, p, b) == Err(NotInAlphabet(b))
    ensures PythonRow(p, |m|).Some? && b in MOTIF_ALPHABET ==>
      OneHotEdit(m, p, b).Ok? &&
      OneHotAt(m, OneHotEdit(m, p, b).value, PythonRow(p, |m|).value, MotifIndex(b).value)
  {
    if PythonRow(p, |m|).Some? && b in MOTIF_ALPHABET {
      AlphabetWidth();
      var k := MotifIndex(b).value;
      RowSumZeros(WIDTH);
      RowSumUpdate(Zeros(WIDTH), k, 1.0);
    }
  }

  /** `r` is `m` with row `row` replaced by the unit vector of column `k`,
      a row that sums to one. */
  ghost predicate OneHotAt(m: Matrix, r: Matrix, row: nat, k: nat)
  {
    |r| == |m| && row < |m| && k < WIDTH &&
    (forall i :: 0 <= i < |m| && i != row ==> r[i] == m[i]) &&
    |r[row]| == WIDTH && r[row][k] == 1.0 && RowSum(r[row]) == 1.0 &&
    (forall j :: 0 <= j < WIDTH && j != k ==> r[row][j] == 0.0)
  }

  /** One step of the rewrite loop as written, unfolded. */
  lemma ModificationsStep(m: Matrix, mode: Mode, bases: seq<char>, stem: string)
    requires Rectangular(m, WIDTH) && bases != []
    requires Edit(m, mode, bases[0]).Ok? && bases[0] in MOD_BASE_NAMES
    ensures Modifications(m, mode, bases, stem) ==
      Prepend([MemeWrite(OutputPath(stem, bases[0]), Edit(m, mode, bases[0]).value)],
              Modifications(Edit(m, mode, bases[0]).value, mode, bases[1..], stem))
  {
  }

  /** Where the rewrite loop as written stops: the first base whose
      rewrite fails or which has no name. */
  lemma ModificationsStop(m: Matrix, mode: Mode, bases: seq<char>, stem: string)
    requires Rectangular(m, WIDTH) && bases != []
    requires Edit(m, mode, bases[0]).Err? || bases[0] !in MOD_BASE_NAMES
    ensures Edit(m, mode, bases[0]).Err? ==> Modifications(m, mode, bases, stem) == Outcome([], Some(Edit(m, mode, bases[0]).error))
    ensures Edit(m, mode, bases[0]).Ok? ==> Modifications(m, mode, bases, stem) == Outcome([], Some(UnnamedModification(bases[0])))
  {
  }

  lemma PrependTwice(writes: seq<MemeWrite>, w: MemeWrite, o: Outcome)
    ensures Prepend(writes, Prepend([w], o)) == Prepend(writes + [w], o)
  {
    assert writes + ([w] + o.writes) == (writes + [w]) + o.writes;
  }

  /** Two matrices that differ only in the row a one-hot rewrite replaces
      give the same rewrite. */
  lemma OneHotEditSameRow(m: Matrix, edited: Matrix, p: int, b: char)
    requires Rectangular(m, WIDTH) && Rectangular(edited, WIDTH) && |edited| == |m|
    requires forall i :: 0 <= i < |m| && PythonRow(p, |m|) != Some(i) ==> edited[i] == m[i]
    ensures OneHotEdit(edited, p, b) == OneHotEdit(m, p, b)
    ensures OneHotEdit(m, p, b).Ok? ==>
      forall i :: 0 <= i < |m| && PythonRow(p, |m|) != Some(i) ==> OneHotEdit(m, p, b).value[i] == m[i]
  {
    if PythonRow(p, |m|).Some? && b in MOTIF_ALPHABET {
      var row := PythonRow(p, |m|).value;
      AlphabetWidth();
      var u := UnitRow(MotifIndex(b).value);
      assert edited[row := u] == m[row := u];
    }
  }

  /** A one-hot rewrite does not depend on what the chosen row held before. */
  lemma {:induction false} OneHotFromEdited(m: Matrix, edited: Matrix, p: int, bases: seq<char>, stem: string)
    requires Rectangular(m, WIDTH) && Rectangular(edited, WIDTH) && |edited| == |m|
    requires forall i :: 0 <= i < |m| && PythonRow(p, |m|) != Some(i) ==> edited[i] == m[i]
    ensures Modifications(edited, OneHot(p), bases, stem) == IndependentModifications(m, OneHot(p), bases, stem)
    decreases |bases|
  {
    if bases != [] {
      OneHotEditSameRow(m, edited, p, bases[0]);
      var e := Edit(m, OneHot(p), bases[0]);
      if e.Ok? && bases[0] in MOD_BASE_NAMES {
        OneHotFromEdited(m, e.value, p, bases[1..], stem);
        ModificationsStep(edited, OneHot(p), bases, stem);
      }
    }
  }

  /** In one-hot mode the shared working copy does no harm: each file holds
      the original matrix with only its own row rewritten. */
  lemma OneHotModificationsIndependent(m: Matrix, p: int, bases: seq<char>, stem: string)
    requires Rectangular(m, WIDTH)
    ensures Modifications(m, OneHot(p), bases, stem) == IndependentModifications(m, OneHot(p), bases, stem)
  {
    OneHotFromEdited(m, m, p, bases, stem);
  }

  /** In fraction mode, as written, the second modification's file already
      lacks the cytosine fractions the first one moved away: its modified
      base column is all zero. */
  lemma FractionsAccumulate(m: Matrix, first: char, second: char, stem: string)
    requires Rectangular(m, WIDTH)
    requires first in Alphabet.PRIMARY && second in Alphabet.PRIMARY
    ensures MotifIndex(MBMaybeFromComp(second)).Some?
    ensures |Modifications(m, Fractions, [first, second], stem).writes| == 2
    ensures forall i :: 0 <= i < |m| ==>
      Entry(Modifications(m, Fractions, [first, second], stem).writes[1].matrix, i, MotifIndex(MBMaybeFromComp(second)).value, 0.0)
  {
    Named(first);
    Named(second);
    FractionEditMoves(m, first);
    var once := FractionEdit(m, first).value;
    FractionEditMoves(once, second);
    TwoModifications(m, Fractions, first, second, stem);
    CytosineCleared(m, first);
    CytosineEmptiesBase(once, second);
  }

  lemma Named(b: char)
    requires b in Alphabet.PRIMARY
    ensures b in MOD_BASE_NAMES
  {
    ModBaseNames();
  }

  /** Two steps of the rewrite loop as written, unfolded. */
  lemma TwoModifications(m: Matrix, mode: Mode, first: char, second: char, stem: string)
    requires Rectangular(m, WIDTH)
    requires Edit(m, mode, first).Ok? && first in MOD_BASE_NAMES && second in MOD_BASE_NAMES
    requires Edit(Edit(m, mode, first).value, mode, second).Ok?
    ensures Modifications(m, mode, [first, second], stem).writes ==
      [MemeWrite(OutputPath(stem, first), Edit(m, mode, first).value),
       MemeWrite(OutputPath(stem, second), Edit(Edit(m, mode, first).value, mode, second).value)]
  {
    ModificationsStep(m, mode, [first, second], stem);
    assert [first, second][1..] == [second];
    ModificationsStep(Edit(m, mode, first).value, mode, [second], stem);
  }

  /** After a fraction rewrite the cytosine column is empty. */
  lemma CytosineCleared(m: Matrix, b: char)
    requires Rectangular(m, WIDTH) && b in Alphabet.PRIMARY
    ensures FractionEdit(m, b).Ok?
    ensures forall i :: 0 <= i < |m| ==> Entry(FractionEdit(m, b).value, i, C_COLUMN, 0.0)
  {
    FractionEditMoves(m, b);
    ModColumns(b);
    var r := FractionEdit(m, b).value;
    forall i | 0 <= i < |m|
      ensures Entry(r, i, C_COLUMN, 0.0)
    {
      assert r[i][C_COLUMN] == 0.0;
    }
  }

  /** A fraction rewrite of a matrix without cytosine leaves the modified
      base column empty. */
  lemma CytosineEmptiesBase(m: Matrix, b: char)
    requires Rectangular(m, WIDTH) && b in Alphabet.PRIMARY
    requires forall i :: 0 <= i < |m| ==> Entry(m, i, C_COLUMN, 0.0)
    ensures MotifIndex(MBMaybeFromComp(b)).Some? && FractionEdit(m, b).Ok?
    ensures forall i :: 0 <= i < |m| ==> Entry(FractionEdit(m, b).value, i, MotifIndex(MBMaybeFromComp(b)).value, 0.0)
  {
    FractionEditMoves(m, b);
    var r := FractionEdit(m, b).value;
    var k := MotifIndex(MBMaybeFromComp(b)).value;
    forall i | 0 <= i < |m|
      ensures Entry(r, i, k, 0.0)
    {
      assert Entry(m, i, C_COLUMN, 0.0);
      assert r[i][k] == m[i][C_COLUMN];
    }
  }

  /** Entry `(i, j)` exists and holds `v`. */
  ghost predicate Entry(m: Matrix, i: nat, j: nat, v: real)
  {
    i < |m| && j < |m[i]| && m[i][j] == v
  }

  /** As intended, when every base's rewrite succeeds and every base is
      named, each base gets its own file, in order, holding the rewrite of
      the original matrix for that base alone. */
  lemma {:induction false} IndependentWrites(m: Matrix, mode: Mode, bases: seq<char>, stem: string)
    requires Rectangular(m, WIDTH) && AllSucceed(m, mode, bases)
    ensures IndependentModifications(m, mode, bases, stem).error.None?
    ensures EditedWrites(IndependentModifications(m, mode, bases, stem).writes, m, mode, bases, stem)
    decreases |bases|
  {
    if bases != [] {
      AllSucceedTail(m, mode, bases);
      IndependentWrites(m, mode, bases[1..], stem);
      IndependentCons(m, mode, bases, stem);
    }
  }

  /** `writes` holds, in order, one file per base with the rewrite of `m`
      for that base alone. */
  ghost predicate EditedWrites(writes: seq<MemeWrite>, m: Matrix, mode: Mode, bases: seq<char>, stem: string)
    requires Rectangular(m, WIDTH)
  {
    |writes| == |bases| &&
    forall k :: 0 <= k < |bases| ==> WrittenFor(writes[k], m, mode, bases[k], stem)
  }

  /** `w` is the file for base `b`: the rewrite of `m` for `b` alone. */
  ghost predicate WrittenFor(w: MemeWrite, m: Matrix, mode: Mode, b: char, stem: string)
    requires Rectangular(m, WIDTH)
  {
    Edit(m, mode, b).Ok? && b in MOD_BASE_NAMES &&
    w == MemeWrite(OutputPath(stem, b), Edit(m, mode, b).value)
  }

  lemma AllSucceedTail(m: Matrix, mode: Mode, bases: seq<char>)
    requires Rectangular(m, WIDTH) && AllSucceed(m, mode, bases) && bases != []
    ensures Edit(m, mode, bases[0]).Ok? && bases[0] in MOD_BASE_NAMES
    ensures AllSucceed(m, mode, bases[1..])
  {
    var tail := bases[1..];
    forall k | 0 <= k < |tail|
      ensures Edit(m, mode, tail[k]).Ok? && tail[k] in MOD_BASE_NAMES
    {
      assert tail[k] == bases[k + 1];
    }
  }

  /** The writes for `bases` from those for its tail. */
  lemma IndependentCons(m: Matrix, mode: Mode, bases: seq<char>, stem: string)
    requires Rectangular(m, WIDTH) && bases != []
    requires Edit(m, mode, bases[0]).Ok? && bases[0] in MOD_BASE_NAMES
    requires IndependentModifications(m, mode, bases[1..], stem).error.None?
    requires EditedWrites(IndependentModifications(m, mode, bases[1..], stem).writes, m, mode, bases[1..], stem)
    ensures IndependentModifications(m, mode, bases, stem).error.None?
    ensures EditedWrites(IndependentModifications(m, mode, bases, stem).writes, m, mode, bases, stem)
  {
    IndependentStep(m, mode, bases, stem);
    var w := IndependentModifications(m, mode, bases, stem).writes;
    var tail := IndependentModifications(m, mode, bases[1..], stem).writes;
    assert w == [MemeWrite(OutputPath(stem, bases[0]), Edit(m, mode, bases[0]).value)] + tail;
    assert WrittenFor(w[0], m, mode, bases[0], stem);
    forall k | 1 <= k < |bases|
      ensures WrittenFor(w[k], m, mode, bases[k], stem)
    {
      assert bases[1..][k - 1] == bases[k];
      assert w[k] == tail[k - 1];
    }
  }

  /** Every base's rewrite of `m` succeeds and every base is named. */
  ghost predicate AllSucceed(m: Matrix, mode: Mode, bases: seq<char>)
    requires Rectangular(m, WIDTH)
  {
    forall k :: 0 <= k < |bases| ==> Edit(m, mode, bases[k]).Ok? && bases[k] in MOD_BASE_NAMES
  }

  /** One step of the rewrite loop as intended, unfolded. */
  lemma IndependentStep(m: Matrix, mode: Mode, bases: seq<char>, stem: string)
    requires Rectangular(m, WIDTH) && bases != []
    requires Edit(m, mode, bases[0]).Ok? && bases[0] in MOD_BASE_NAMES
    ensures IndependentModifications(m, mode, bases, stem) ==
      Prepend([MemeWrite(OutputPath(stem, bases[0]), Edit(m, mode, bases[0]).value)],
              IndependentModifications(m, mode, bases[1..], stem))
  {
  }

  /** Where the rewrite loop as intended stops: the first base whose
      rewrite fails or which has no name. */
  lemma IndependentStop(m: Matrix, mode: Mode, bases: seq<char>, stem: string)
    requires Rectangular(m, WIDTH) && bases != []
    requires Edit(m, mode, bases[0]).Err? || bases[0] !in MOD_BASE_NAMES
    ensures Edit(m, mode, bases[0]).Err? ==> IndependentModifications(m, mode, bases, stem) == Outcome([], Some(Edit(m, mode, bases[0]).error))
    ensures Edit(m, mode, bases[0]).Ok? ==> IndependentModifications(m, mode, bases, stem) == Outcome([], Some(UnnamedModification(bases[0])))
  {
  }

  /** All symbols are primary modifications. */
  ghost predicate AllNamed(bases: seq<char>)
  {
    forall k :: 0 <= k < |bases| ==> bases[k] in Alphabet.PRIMARY
  }

  /** As intended, in fraction mode every primary modification gets its
      own file, in order, holding the original matrix with its cytosine and
      guanine fractions moved onto that modification (FractionEditMoves). */
  lemma IndependentFractions(m: Matrix, bases: seq<char>, stem: string)
    requires Rectangular(m, WIDTH) && AllNamed(bases)
    ensures forall k :: 0 <= k < |bases| ==> FractionEdit(m, bases[k]).Ok?
    ensures IndependentModifications(m, Fractions, bases, stem).error.None?
    ensures |IndependentModifications(m, Fractions, bases, stem).writes| == |bases|
    ensures forall k :: 0 <= k < |bases| ==>
      IndependentModifications(m, Fractions, bases, stem).writes[k] == MemeWrite(OutputPath(stem, bases[k]), FractionEdit(m, bases[k]).value)
  {
    forall k | 0 <= k < |bases|
      ensures FractionEdit(m, bases[k]).Ok? && bases[k] in MOD_BASE_NAMES
    {
      FractionEditMoves(m, bases[k]);
      Named(bases[k]);
    }
    assert AllSucceed(m, Fractions, bases);
    IndependentWrites(m, Fractions, bases, stem);
  }

  /** A primary modification is a symbol of MOTIF_ALPHABET and its own
      cytosine-strand form. */
  lemma PrimaryInAlphabet(b: char)
    requires b in Alphabet.PRIMARY
    ensures MBMaybeFromComp(b) == b && b in MOTIF_ALPHABET
  {
    assert b == 'm' || b == 'h' || b == 'f' || b == 'c';
    assert MBMaybeFromComp(b) == b by {
      assert b !in REVERSE_COMPLEMENTS;
    }
    assert MotifIndex(b).Some? by {
      ModifiedColumns();
    }
  }

  /** In one-hot mode, with a position inside the matrix and primary
      modifications only, the loop as written writes one file per
      modification, in order, each the original matrix with the chosen row
      forced to that modification alone. */
  lemma OneHotWrites(m: Matrix, p: int, bases: seq<char>, stem: string)
    requires Rectangular(m, WIDTH) && AllNamed(bases) && PythonRow(p, |m|).Some?
    ensures forall k :: 0 <= k < |bases| ==>
      OneHotEdit(m, p, bases[k]).Ok? &&
      OneHotAt(m, OneHotEdit(m, p, bases[k]).value, PythonRow(p, |m|).value, MotifIndex(bases[k]).value)
    ensures Modifications(m, OneHot(p), bases, stem).error.None?
    ensures |Modifications(m, OneHot(p), bases, stem).writes| == |bases|
    ensures forall k :: 0 <= k < |bases| ==>
      Modifications(m, OneHot(p), bases, stem).writes[k] == MemeWrite(OutputPath(stem, bases[k]), OneHotEdit(m, p, bases[k]).value)
  {
    forall k | 0 <= k < |bases|
      ensures OneHotEdit(m, p, bases[k]).Ok? && bases[k] in MOD_BASE_NAMES
      ensures OneHotAt(m, OneHotEdit(m, p, bases[k]).value, PythonRow(p, |m|).value, MotifIndex(bases[k]).value)
    {
      PrimaryInAlphabet(bases[k]);
      OneHotEditEffect(m, p, bases[k]);
      Named(bases[k]);
    }
    assert AllSucceed(m, OneHot(p), bases);
    IndependentWrites(m, OneHot(p), bases, stem);
    OneHotModificationsIndependent(m, p, bases, stem);
  }

  /** The symbols of the example below: 5mC and 5hmC, the latter in
      column 10. */
  lemma ExampleSymbols()
    ensures 'm' in Alphabet.PRIMARY && 'h' in Alphabet.PRIMARY
    ensures MBMaybeFromComp('h') == 'h' && MotifIndex('h') == Some(10)
  {
    assert 'm' in Alphabet.PRIMARY && 'h' in Alphabet.PRIMARY by {
      assert Alphabet.PRIMARY[0] == 'm' && Alphabet.PRIMARY[1] == 'h';
    }
    assert MBMaybeFromComp('h') == 'h' by {
      assert 'h' !in REVERSE_COMPLEMENTS;
    }
    ModifiedColumns();
  }

  /** A one-row matrix that is all cytosine, rewritten for `m` and then
      `h`: as written, the `h` file puts nothing on 5hmC. */
  lemma FractionsAccumulateExample()
    ensures Rectangular([UnitRow(C_COLUMN)], WIDTH)
    ensures |Modifications([UnitRow(C_COLUMN)], Fractions, ['m', 'h'], "motif").writes| == 2
    ensures Entry(Modifications([UnitRow(C_COLUMN)], Fractions, ['m', 'h'], "motif").writes[1].matrix, 0, 10, 0.0)
  {
    var m := [UnitRow(C_COLUMN)];
    assert 'm' in Alphabet.PRIMARY && 'h' in Alphabet.PRIMARY by {
      ExampleSymbols();
    }
    FractionsAccumulate(m, 'm', 'h', "motif");
    assert MotifIndex(MBMaybeFromComp('h')).value == 10 by {
      ExampleSymbols();
    }
  }

  /** The same input as intended: the `h` file puts all of it on 5hmC. */
  lemma IndependentFractionsExample()
    ensures Rectangular([UnitRow(C_COLUMN)], WIDTH)
    ensures |IndependentModifications([UnitRow(C_COLUMN)], Fractions, ['m', 'h'], "motif").writes| == 2
    ensures Entry(IndependentModifications([UnitRow(C_COLUMN)], Fractions, ['m', 'h'], "motif").writes[1].matrix, 0, 10, 1.0)
  {
    var m := [UnitRow(C_COLUMN)];
    var bases := ['m', 'h'];
    assert AllNamed(bases) by {
      ExampleSymbols();
      forall k | 0 <= k < |bases| ensures bases[k] in Alphabet.PRIMARY {
      }
    }
    IndependentCytosineMoved(m, bases, "motif", 1);
    assert MotifIndex(bases[1]) == Some(10) by {
      ModifiedColumns();
    }
    assert m[0][C_COLUMN] == 1.0;
  }

  /** As intended, in fraction mode the file of every primary modification
      carries the whole cytosine column of the original matrix in that
      modification's column, whatever came before it. */
  lemma IndependentCytosineMoved(m: Matrix, bases: seq<char>, stem: string, k: nat)
    requires Rectangular(m, WIDTH) && AllNamed(bases) && k < |bases|
    ensures MotifIndex(bases[k]).Some?
    ensures |IndependentModifications(m, Fractions, bases, stem).writes| == |bases|
    ensures forall i :: 0 <= i < |m| ==>
      Entry(IndependentModifications(m, Fractions, bases, stem).writes[k].matrix, i, MotifIndex(bases[k]).value, m[i][C_COLUMN])
  {
    IndependentFractions(m, bases, stem);
    FractionEditMoves(m, bases[k]);
    PrimaryInAlphabet(bases[k]);
    var r := FractionEdit(m, bases[k]).value;
    var mb := MotifIndex(bases[k]).value;
    forall i | 0 <= i < |m|
      ensures Entry(r, i, mb, m[i][C_COLUMN])
    {
      assert r[i][mb] == m[i][C_COLUMN];
    }
  }

  // ---------------------------------------------------------------------
  // The rewrite loop on the working copy

  /** Column `src` of the array copied onto column `dst`, then cleared. */
  method MoveColumnInPlace(a: array2<real>, src: nat, dst: nat)
    requires a.Length1 == WIDTH && src < WIDTH && dst < WIDTH
    modifies a
    ensures Rows(a) == MoveColumn(old(Rows(a)), src, dst)
  {
    ghost var m := Rows(a);
    ghost var r := MoveColumn(m, src, dst);
    var i := 0;
    while i < a.Length0
      invariant 0 <= i <= a.Length0
      invariant forall row, c :: 0 <= row < a.Length0 && 0 <= c < WIDTH ==>
        a[row, c] == if row < i then r[row][c] else m[row][c]
    {
      a[i, dst] := a[i, src];
      a[i, src] := 0.0;
      i := i + 1;
    }
    RowsAre(a, r);
  }

  /** Row `row` of the array set to the unit vector of column `k`. */
  method SetUnitRow(a: array2<real>, row: nat, k: nat)
    requires a.Length1 == WIDTH && row < a.Length0 && k < WIDTH
    modifies a
    ensures Rows(a) == old(Rows(a))[row := UnitRow(k)]
  {
    ghost var r := Rows(a)[row := UnitRow(k)];
    var j := 0;
    while j < WIDTH
      invariant 0 <= j <= WIDTH
      invariant forall i, c :: 0 <= i < a.Length0 && 0 <= c < WIDTH && i != row ==> a[i, c] == r[i][c]
      invariant forall c :: 0 <= c < j ==> a[row, c] == 0.0
    {
      a[row, j] := 0.0;
      j := j + 1;
    }
    a[row, k] := 1.0;
    RowsAre(a, r);
  }

  /** One base's rewrite applied to the working copy in place; on an error
      the copy is of no further use. */
  method EditInPlace(a: array2<real>, mode: Mode, b: char) returns (err: Option<ModError>)
    requires a.Length1 == WIDTH
    modifies a
    ensures err.None? ==> Edit(old(Rows(a)), mode, b) == Ok(Rows(a))
    ensures err.Some? ==> Edit(old(Rows(a)), mode, b) == Err(err.value)
  {
    AlphabetWidth();
    Columns();
    match mode
    case Fractions =>
      var mb := MotifIndex(MBMaybeFromComp(b));
      if mb.None? {
        return Some(NotInAlphabet(MBMaybeFromComp(b)));
      }
      MoveColumnInPlace(a, C_COLUMN, mb.value);
      var comp := MotifIndex(CompMaybeFromMB(b));
      if comp.None? {
        return Some(NotInAlphabet(CompMaybeFromMB(b)));
      }
      MoveColumnInPlace(a, G_COLUMN, comp.value);
      return None;
    case OneHot(p) =>
      var row := PythonRow(p, a.Length0);
      if row.None? {
        return Some(PositionOutOfRange(p));
      }
      var k := MotifIndex(b);
      if k.None? {
        return Some(NotInAlphabet(b));
      }
      SetUnitRow(a, row.value, k.value);
      return None;
  }

  /** One base's rewrite on a fresh working copy of `freq`: the copy's
      contents afterwards, or the error. */
  method EditCopy(freq: Matrix, mode: Mode, b: char) returns (r: Result<Matrix, ModError>)
    requires Rectangular(freq, WIDTH)
    ensures r == Edit(freq, mode, b)
  {
    var a := new real[|freq|, WIDTH]((i, j) requires 0 <= i < |freq| && 0 <= j < WIDTH => freq[i][j]);
    RowsAre(a, freq);
    var err := EditInPlace(a, mode, b);
    if err.Some? {
      return Err(err.value);
    }
    return Ok(Rows(a));
  }

  /** The writes of the first `k` bases, followed by the outcome for the
      remaining ones, make up the outcome for all of them. */
  ghost predicate WrittenUpTo(freq: Matrix, mode: Mode, bases: seq<char>, stem: string,
                              writes: seq<MemeWrite>, k: nat)
    requires Rectangular(freq, WIDTH) && k <= |bases|
  {
    IndependentModifications(freq, mode, bases, stem) ==
      Prepend(writes, IndependentModifications(freq, mode, bases[k..], stem))
  }

  /** A base whose rewrite succeeds and which is named adds its file. */
  lemma WrittenNext(freq: Matrix, mode: Mode, bases: seq<char>, stem: string,
                    writes: seq<MemeWrite>, k: nat)
    requires Rectangular(freq, WIDTH) && k < |bases|
    requires WrittenUpTo(freq, mode, bases, stem, writes, k)
    requires Edit(freq, mode, bases[k]).Ok? && bases[k] in MOD_BASE_NAMES
    ensures WrittenUpTo(freq, mode, bases, stem,
      writes + [MemeWrite(OutputPath(stem, bases[k]), Edit(freq, mode, bases[k]).value)], k + 1)
  {
    assert bases[k..][0] == bases[k] && bases[k..][1..] == bases[k + 1..];
    var w := MemeWrite(OutputPath(stem, bases[k]), Edit(freq, mode, bases[k]).value);
    IndependentStep(freq, mode, bases[k..], stem);
    PrependTwice(writes, w, IndependentModifications(freq, mode, bases[k + 1..], stem));
  }

  /** A base whose rewrite fails, or which has no name, ends the loop. */
  lemma WrittenStop(freq: Matrix, mode: Mode, bases: seq<char>, stem: string,
                    writes: seq<MemeWrite>, k: nat)
    requires Rectangular(freq, WIDTH) && k < |bases|
    requires WrittenUpTo(freq, mode, bases, stem, writes, k)
    requires Edit(freq, mode, bases[k]).Err? || bases[k] !in MOD_BASE_NAMES
    ensures Edit(freq, mode, bases[k]).Err? ==>
      IndependentModifications(freq, mode, bases, stem) == Outcome(writes, Some(Edit(freq, mode, bases[k]).error))
    ensures Edit(freq, mode, bases[k]).Ok? ==>
      IndependentModifications(freq, mode, bases, stem) == Outcome(writes, Some(UnnamedModification(bases[k])))
  {
    assert bases[k..][0] == bases[k];
    IndependentStop(freq, mode, bases[k..], stem);
    assert writes + [] == writes;
  }

  /** The modification loop, as evidently intended: for each base a fresh
      working copy of the matrix is rewritten, and its contents are
      appended to that base's file. */
  method ApplyModifications(freq: Matrix, mode: Mode, bases: seq<char>, stem: string) returns (out: Outcome)
    requires Rectangular(freq, WIDTH)
    ensures out == IndependentModifications(freq, mode, bases, stem)
  {
    var writes: seq<MemeWrite> := [];
    var k := 0;
    while k < |bases|
      invariant 0 <= k <= |bases|
      invariant WrittenUpTo(freq, mode, bases, stem, writes, k)
    {
      var edited := EditCopy(freq, mode, bases[k]);
      if edited.Err? {
        WrittenStop(freq, mode, bases, stem, writes, k);
        return Outcome(writes, Some(edited.error));
      }
      if bases[k] !in MOD_BASE_NAMES {
        WrittenStop(freq, mode, bases, stem, writes, k);
        return Outcome(writes, Some(UnnamedModification(bases[k])));
      }
      WrittenNext(freq, mode, bases, stem, writes, k);
      writes := writes + [MemeWrite(OutputPath(stem, bases[k]), edited.value)];
      k := k + 1;
    }
    assert bases[k..] == [] && writes + [] == writes;
    out := Outcome(writes, None);
  }

  // ---------------------------------------------------------------------
  // Options and the whole run

  /** The value an option with an optional argument takes when given bare. */
  const PARAM_A_CONST_VAL: int := 999

  /** The modification options as parsed; Python's truthiness applies, so
      an empty string and the number 0 count as absent. */
  datatype Options = Options(
    baseModification: Option<string>,            // -M
    baseModPosition: Option<int>,                // -P
    tryAllCModsAtPos: Option<int>,               // -C, 999 when bare
    allModifiablePosFractions: Option<string>)   // -A, "999" when bare

  predicate Given(o: Option<string>)
  {
    o.Some? && o.value != []
  }

  predicate GivenInt(o: Option<int>)
  {
    o.Some? && o.value != 0
  }

  datatype UsageError = PositionRequired

  /** What the options ask for: no rewriting, or a rewrite mode and the
      symbols to rewrite for, in order. */
  datatype Plan = Unmodified | Rewrite(mode: Mode, bases: seq<char>)

  /** The option checks and the choice of mode and symbols. `nameOrder` is
      the iteration order of MOD_BASE_NAMES, which the language leaves to
      the dictionary. */
  function ModificationPlan(o: Options, nameOrder: seq<char>): (r: Result<Plan, UsageError>)
    ensures r.Err? <==> !Given(o.allModifiablePosFractions) && o.tryAllCModsAtPos == Some(PARAM_A_CONST_VAL)
    ensures r.Ok? && r.value.Unmodified? <==>
      r.Ok? && !((Given(o.baseModification) && GivenInt(o.baseModPosition)) ||
                 GivenInt(o.tryAllCModsAtPos) || Given(o.allModifiablePosFractions))
    ensures r.Ok? && r.value.Rewrite? ==>
      (r.value.mode == Fractions <==> Given(o.allModifiablePosFractions)) &&
      (GivenInt(o.tryAllCModsAtPos) ==> r.value.bases == nameOrder) &&
      (!GivenInt(o.tryAllCModsAtPos) && Given(o.baseModification) ==> r.value.bases == o.baseModification.value)
    ensures r.Ok? && r.value.Rewrite? && r.value.mode.OneHot? ==>
      if GivenInt(o.tryAllCModsAtPos) then r.value.mode.position == o.tryAllCModsAtPos.value
      else GivenInt(o.baseModPosition) && r.value.mode.position == o.baseModPosition.value
    ensures r.Ok? && r.value.Rewrite? && !GivenInt(o.tryAllCModsAtPos) && !Given(o.baseModification) ==>
      Given(o.allModifiablePosFractions) && r.value.bases == o.allModifiablePosFractions.value
  {
    if !Given(o.allModifiablePosFractions) && o.tryAllCModsAtPos == Some(PARAM_A_CONST_VAL) then
      Err(PositionRequired)
    else if !((Given(o.baseModification) && GivenInt(o.baseModPosition)) ||
              GivenInt(o.tryAllCModsAtPos) || Given(o.allModifiablePosFractions)) then
      Ok(Unmodified)
    else
      var bases :=
        if GivenInt(o.tryAllCModsAtPos) then nameOrder
        else if Given(o.baseModification) then o.baseModification.value
        else if o.allModifiablePosFractions.Some? then o.allModifiablePosFractions.value
        else [];
      if Given(o.allModifiablePosFractions) then Ok(Rewrite(Fractions, bases))
      else
        var position :=
          if GivenInt(o.tryAllCModsAtPos) then o.tryAllCModsAtPos.value
          else if o.baseModPosition.Some? then o.baseModPosition.value
          else 0;
        Ok(Rewrite(OneHot(position), bases))
  }

  /** `-A` given bare without `-C` is not refused: its value, the text
      "999", is taken as the symbols to rewrite for, and the first of them
      is outside the alphabet. */
  lemma BareFractionsOptionRunsOn(m: Matrix, stem: string, nameOrder: seq<char>)
    requires Rectangular(m, WIDTH)
    ensures ModificationPlan(Options(None, None, None, Some("999")), nameOrder) == Ok(Rewrite(Fractions, "999"))
    ensures IndependentModifications(m, Fractions, "999", stem) == Outcome([], Some(NotInAlphabet('9')))
  {
    assert "999"[0] == '9';
    assert '9' !in MOTIF_ALPHABET;
    FractionEditFails(m, '9');
  }

  /** `-A 1`: a guanine-strand symbol gets the same fraction rewrite as its
      primary `m`, but it has no entry in MOD_BASE_NAMES, so the run stops
      (KeyError) before its file is written. */
  lemma ComplementSymbolUnnamed(m: Matrix, stem: string)
    requires Rectangular(m, WIDTH)
    ensures FractionEdit(m, '1').Ok? && FractionEdit(m, '1') == FractionEdit(m, 'm')
    ensures Modifications(m, Fractions, "1", stem) == Outcome([], Some(UnnamedModification('1')))
    ensures IndependentModifications(m, Fractions, "1", stem) == Outcome([], Some(UnnamedModification('1')))
  {
    ComplementEditsLikePrimary(m);
    var bases := "1";
    assert bases[0] == '1' && '1' !in MOD_BASE_NAMES;
    assert Edit(m, Fractions, bases[0]).Ok?;
    IndependentStop(m, Fractions, bases, stem);
  }

  /** The fraction rewrite for `1` is the one for `m`. */
  lemma ComplementEditsLikePrimary(m: Matrix)
    requires Rectangular(m, WIDTH)
    ensures FractionEdit(m, '1').Ok? && FractionEdit(m, '1') == FractionEdit(m, 'm')
  {
    MethylStrandPair();
    ModColumns('m');
    SameStrandPairSameEdit(m, '1', 'm');
  }

  /** `m` and `1` share the strand pair (`m`, `1`). */
  lemma MethylStrandPair()
    ensures MBMaybeFromComp('1') == MBMaybeFromComp('m') == 'm'
    ensures CompMaybeFromMB('1') == CompMaybeFromMB('m') == '1'
  {
    StrandPair('1');
    StrandPair('m');
  }

  /** Two symbols with the same strand pair get the same fraction rewrite. */
  lemma SameStrandPairSameEdit(m: Matrix, b: char, c: char)
    requires Rectangular(m, WIDTH)
    requires MBMaybeFromComp(b) == MBMaybeFromComp(c) && CompMaybeFromMB(b) == CompMaybeFromMB(c)
    ensures FractionEdit(m, b) == FractionEdit(m, c)
  {
  }

  datatype RunError = Usage(usage: UsageError) | Rewriting(rewrite: ModError)

  /** What one run leaves behind: the `.meme` files appended to, in order,
      the matrix printed as the motif on standard output, and the error
      that ended the run early. */
  datatype Run = Run(writes: seq<MemeWrite>, printed: Option<Matrix>, error: Option<RunError>)

  /** The run once the options are planned and, for a rewrite, the rewrite
      loop has produced `out`: the unmodified motif is printed only when
      nothing failed. */
  function Finish(freq: Matrix, plan: Result<Plan, UsageError>, out: Outcome): (r: Run)
    ensures r.printed.Some? <==> r.error.None?
    ensures r.printed.Some? ==> r.printed.value == freq
    ensures plan.Err? ==> r == Run([], None, Some(Usage(plan.error)))
    ensures plan == Ok(Unmodified) ==> r == Run([], Some(freq), None)
    ensures plan.Ok? && plan.value.Rewrite? ==>
      r.writes == out.writes && (r.error.Some? <==> out.error.Some?)
  {
    match plan
    case Err(e) => Run([], None, Some(Usage(e)))
    case Ok(Unmodified) => Run([], Some(freq), None)
    case Ok(Rewrite(_, _)) =>
      match out.error
      case None => Run(out.writes, Some(freq), None)
      case Some(e) => Run(out.writes, None, Some(Rewriting(e)))
  }

  /** The run after the matrix is built: the modification files (each
      base rewriting the unmodified matrix), then the unmodified motif on
      standard output when nothing failed. */
  function Generate(freq: Matrix, o: Options, nameOrder: seq<char>, stem: string): (r: Run)
    requires Rectangular(freq, WIDTH)
    ensures r.printed.Some? <==> r.error.None?
    ensures r.printed.Some? ==> r.printed.value == freq
    ensures r.error == Some(Usage(PositionRequired)) ==> r.writes == []
    ensures var plan := ModificationPlan(o, nameOrder);
      plan.Ok? && plan.value.Rewrite? ==>
        r.writes == IndependentModifications(freq, plan.value.mode, plan.value.bases, stem).writes
  {
    var plan := ModificationPlan(o, nameOrder);
    Finish(freq, plan,
           if plan.Ok? && plan.value.Rewrite?
           then IndependentModifications(freq, plan.value.mode, plan.value.bases, stem)
           else Outcome([], None))
  }

  /** The run as written: the rewrite loop shares one working copy. */
  function GenerateAsWritten(freq: Matrix, o: Options, nameOrder: seq<char>, stem: string): (r: Run)
    requires Rectangular(freq, WIDTH)
    ensures r.printed.Some? <==> r.error.None?
    ensures r.printed.Some? ==> r.printed.value == freq
    ensures r.error == Some(Usage(PositionRequired)) ==> r.writes == []
    ensures var plan := ModificationPlan(o, nameOrder);
      plan.Ok? && plan.value.Rewrite? ==>
        r.writes == Modifications(freq, plan.value.mode, plan.value.bases, stem).writes
  {
    var plan := ModificationPlan(o, nameOrder);
    Finish(freq, plan,
           if plan.Ok? && plan.value.Rewrite?
           then Modifications(freq, plan.value.mode, plan.value.bases, stem)
           else Outcome([], None))
  }

  /** The two runs differ only in fraction mode: with `-M`/`-P` or `-C`
      alone, the run as written is the corrected one. */
  lemma GenerateAgreesWithoutFractions(freq: Matrix, o: Options, nameOrder: seq<char>, stem: string)
    requires Rectangular(freq, WIDTH)
    requires !Given(o.allModifiablePosFractions)
    ensures GenerateAsWritten(freq, o, nameOrder, stem) == Generate(freq, o, nameOrder, stem)
  {
    var plan := ModificationPlan(o, nameOrder);
    if plan.Ok? && plan.value.Rewrite? {
      OneHotModificationsIndependent(freq, plan.value.mode.position, plan.value.bases, stem);
    }
  }

  /** With `-A mh` the run as written hands 5-hydroxymethylcytosine a motif
      whose modified-base column is all zero, because the first rewrite
      already moved the cytosine fractions to 5-methylcytosine; the
      corrected run gives it the unmodified matrix's fractions. */
  lemma GenerateDiffersWithFractions(freq: Matrix, nameOrder: seq<char>, stem: string)
    requires Rectangular(freq, WIDTH)
    ensures var r := GenerateAsWritten(freq, Options(None, None, None, Some("mh")), nameOrder, stem);
      MotifIndex('h').Some? && |r.writes| == 2 &&
      forall i :: 0 <= i < |freq| ==> Entry(r.writes[1].matrix, i, MotifIndex('h').value, 0.0)
    ensures var r := Generate(freq, Options(None, None, None, Some("mh")), nameOrder, stem);
      FractionEdit(freq, 'h').Ok? && |r.writes| == 2 && r.writes[1].matrix == FractionEdit(freq, 'h').value
  {
    FractionsRun(freq, nameOrder, stem);
    FractionsAccumulate(freq, 'm', 'h', stem);
    assert MBMaybeFromComp('h') == 'h';
    IndependentSecond(freq, stem);
  }

  /** `-A mh` plans a fraction rewrite for `m` then `h`. */
  lemma FractionsRun(freq: Matrix, nameOrder: seq<char>, stem: string)
    requires Rectangular(freq, WIDTH)
    ensures GenerateAsWritten(freq, Options(None, None, None, Some("mh")), nameOrder, stem).writes ==
      Modifications(freq, Fractions, ['m', 'h'], stem).writes
    ensures Generate(freq, Options(None, None, None, Some("mh")), nameOrder, stem).writes ==
      IndependentModifications(freq, Fractions, ['m', 'h'], stem).writes
  {
    var o := Options(None, None, None, Some("mh"));
    assert "mh" == ['m', 'h'];
    assert ModificationPlan(o, nameOrder) == Ok(Rewrite(Fractions, ['m', 'h']));
  }

  /** The corrected loop's second file for `-A mh` is the fraction rewrite
      of the unmodified matrix for `h`. */
  lemma IndependentSecond(freq: Matrix, stem: string)
    requires Rectangular(freq, WIDTH)
    ensures |IndependentModifications(freq, Fractions, ['m', 'h'], stem).writes| == 2
    ensures IndependentModifications(freq, Fractions, ['m', 'h'], stem).writes[1].matrix ==
      FractionEdit(freq, 'h').value
  {
    Named('m');
    Named('h');
    FractionEditMoves(freq, 'm');
    FractionEditMoves(freq, 'h');
    IndependentStep(freq, Fractions, ['m', 'h'], stem);
    assert ['m', 'h'][1..] == ['h'];
    IndependentStep(freq, Fractions, ['h'], stem);
    assert ['h'][1..] == [];
  }

  /** `-C p` alone, with `p` inside the motif: one file per primary
      modification, each the motif with position `p` forced to that
      modification, and the unmodified motif printed. */
  lemma AllCytosineModificationsAtPosition(freq: Matrix, p: int, nameOrder: seq<char>, stem: string)
    requires Rectangular(freq, WIDTH) && AllNamed(nameOrder)
    requires p != 0 && p != PARAM_A_CONST_VAL && PythonRow(p, |freq|).Some?
    ensures Generate(freq, Options(None, None, Some(p), None), nameOrder, stem).printed == Some(freq)
    ensures |Generate(freq, Options(None, None, Some(p), None), nameOrder, stem).writes| == |nameOrder|
    ensures forall k :: 0 <= k < |nameOrder| ==>
      Generate(freq, Options(None, None, Some(p), None), nameOrder, stem).writes[k] ==
        MemeWrite(OutputPath(stem, nameOrder[k]), OneHotEdit(freq, p, nameOrder[k]).value)
  {
    OneHotWrites(freq, p, nameOrder, stem);
    OneHotModificationsIndependent(freq, p, nameOrder, stem);
  }
}
