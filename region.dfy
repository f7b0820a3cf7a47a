/** Region handling of cytomod: the validity check of a requested region,
    the textual region syntax `chrN:start-end`, and the bounded search for a
    random region that meets a supercontig. */
module Region {
  import opened Util
  import opened GenomeStore

  /** How a region request fails. `UnknownChromosome` is the KeyError of
      `genome[chrm]`, `NoRegionMatch` the AttributeError of a failed regex
      search, `EmptyRange` the ValueError of `random.randint` on a chromosome
      whose end lies before its start; the others end the program. */
  datatype RegionError =
    | UnknownChromosome
    | InvalidStart
    | InvalidEnd
    | NoRegionMatch
    | NoSelectableChromosome
    | EmptyRange

  /** _ensureRegionValidity. Note that `start` is never compared with the
      chromosome's start: the start test looks at the chromosome only. */
  function EnsureRegionValidity(genome: Genome, chrm: string, start: int, end: int)
    : (r: Result<(), RegionError>)
    ensures r == Err(UnknownChromosome) <==> Lookup(genome, chrm).None?
    ensures r.Ok? <==>
      Lookup(genome, chrm).Some? &&
      0 <= Lookup(genome, chrm).value.start < end &&
      start < end <= Lookup(genome, chrm).value.end
    ensures r == Err(InvalidStart) <==>
      Lookup(genome, chrm).Some? &&
      (Lookup(genome, chrm).value.start < 0 || Lookup(genome, chrm).value.start >= end)
  {
    match Lookup(genome, chrm)
    case None => Err(UnknownChromosome)
    case Some(c) =>
      if c.start < 0 || c.start >= end then Err(InvalidStart)
      else if end <= start || end > c.end then Err(InvalidEnd)
      else Ok(())
  }

  /** As written, a region that starts before its chromosome is accepted. */
  lemma StartBeforeChromosomeAccepted()
    ensures var c := Chromosome("chr1", 100, 1000, [], [], []);
      EnsureRegionValidity([c], "chr1", 5, 500) == Ok(())
  {
  }

  /** The region check as evidently intended: the start is compared with the
      chromosome's start. Only the corrected parse (ResolveRegionCorrected,
      ParseRegionCorrected) uses it; ParseRegion keeps the check as written. */
  function CheckRegion(genome: Genome, chrm: string, start: int, end: int)
    : (r: Result<(), RegionError>)
    ensures r == Err(UnknownChromosome) <==> Lookup(genome, chrm).None?
    ensures r == Err(InvalidStart) <==>
      Lookup(genome, chrm).Some? && (start < Lookup(genome, chrm).value.start || start >= end)
  {
    match Lookup(genome, chrm)
    case None => Err(UnknownChromosome)
    case Some(c) =>
      if start < c.start || start >= end then Err(InvalidStart)
      else if end > c.end then Err(InvalidEnd)
      else Ok(())
  }

  /** The corrected check accepts exactly the non-empty regions that lie
      inside their chromosome. */
  lemma CheckRegionAcceptsContained(genome: Genome, chrm: string, start: int, end: int)
    ensures CheckRegion(genome, chrm, start, end).Ok? <==>
      Lookup(genome, chrm).Some? &&
      Lookup(genome, chrm).value.start <= start < end <= Lookup(genome, chrm).value.end
  {
  }

  /** Every region the corrected check accepts passes the check as written,
      which accepts more only by ignoring where the region starts. */
  lemma CheckRegionStricter(genome: Genome, chrm: string, start: int, end: int)
    requires Lookup(genome, chrm).Some? && Lookup(genome, chrm).value.start >= 0
    ensures CheckRegion(genome, chrm, start, end).Ok? ==> EnsureRegionValidity(genome, chrm, start, end).Ok?
    ensures EnsureRegionValidity(genome, chrm, start, end).Ok? ==>
      (CheckRegion(genome, chrm, start, end).Ok? <==> start >= Lookup(genome, chrm).value.start)
  {
  }

  /** `re.sub('[, ]', '', region)`. */
  function StripSeparators(s: string): (t: string)
    ensures |t| <= |s|
    ensures forall k :: 0 <= k < |t| ==> t[k] != ',' && t[k] != ' '
    ensures (forall k :: 0 <= k < |s| ==> s[k] != ',' && s[k] != ' ') ==> t == s
  {
    if s == [] then []
    else (if s[0] == ',' || s[0] == ' ' then [] else [s[0]]) + StripSeparators(s[1..])
  }

  /** Stripping separators distributes over concatenation. */
  lemma {:induction false} StripSeparatorsConcat(a: string, b: string)
    ensures StripSeparators(a + b) == StripSeparators(a) + StripSeparators(b)
    decreases |a|
  {
    if a != [] {
      assert (a + b)[0] == a[0] && (a + b)[1..] == a[1..] + b;
      StripSeparatorsConcat(a[1..], b);
    } else {
      assert a + b == b;
    }
  }

  /** The first index from `j` on that does not hold a decimal digit: the
      end of the greedy `\d+` (or `\d*`) starting at `j`. */
  function DigitRunEnd(s: string, j: nat): (k: nat)
    requires j <= |s|
    ensures j <= k <= |s|
    ensures forall p :: j <= p < k ==> IsDigit(s[p])
    ensures k == |s| || !IsDigit(s[k])
    decreases |s| - j
  {
    if j == |s| || !IsDigit(s[j]) then j else DigitRunEnd(s, j + 1)
  }

  /** A match of REGION_REGEX: the chromosome name (group 1) and the
      optional `start` and `end` groups, already converted by `int()`. */
  datatype RegionMatch = RegionMatch(chrm: string, start: Option<nat>, end: Option<nat>)

  /** The digits `s[i..j]` as a number, or `None` for an empty group. */
  function DigitsGroup(s: string, i: nat, j: nat): (g: Option<nat>)
    requires i <= j <= |s|
    requires forall p :: i <= p < j ==> IsDigit(s[p])
    ensures g.None? <==> i == j
  {
    if i == j then None else Some(DigitsValue(s[i..j]))
  }

  /** The optional group `(?::(?P<start>\d+)?-(?P<end>\d+)?)?` at index `k`:
      it matches exactly when `:` is followed by digits and then `-`. */
  function Coordinates(s: string, k: nat): (r: (Option<nat>, Option<nat>))
    requires k <= |s|
  {
    if k < |s| && s[k] == ':' then
      var d1 := DigitRunEnd(s, k + 1);
      if d1 < |s| && s[d1] == '-' then
        var d2 := DigitRunEnd(s, d1 + 1);
        (DigitsGroup(s, k + 1, d1), DigitsGroup(s, d1 + 1, d2))
      else (None, None)
    else (None, None)
  }

  /** REGION_REGEX anchored at index `i`: `chr` followed by a run of digits
      or one of `X Y M`, then the optional coordinates. */
  function MatchAt(s: string, i: nat): (r: Option<RegionMatch>)
    requires i <= |s|
    ensures r.Some? ==> |r.value.chrm| >= 4 && r.value.chrm[..3] == "chr"
  {
    if i + 3 < |s| && s[i..i + 3] == "chr" then
      var j := i + 3;
      if IsDigit(s[j]) then
        var k := DigitRunEnd(s, j);
        var coords := Coordinates(s, k);
        Some(RegionMatch(s[i..k], coords.0, coords.1))
      else if s[j] == 'X' || s[j] == 'Y' || s[j] == 'M' then
        var coords := Coordinates(s, j + 1);
        Some(RegionMatch(s[i..j + 1], coords.0, coords.1))
      else None
    else None
  }

  /** The leftmost index from `i` on where REGION_REGEX matches. */
  function FirstMatch(s: string, i: nat): (p: Option<nat>)
    requires i <= |s|
    ensures p.Some? ==> i <= p.value <= |s| && MatchAt(s, p.value).Some?
    ensures p.Some? ==> forall q :: i <= q < p.value ==> MatchAt(s, q).None?
    ensures p.None? ==> forall q :: i <= q <= |s| ==> MatchAt(s, q).None?
    decreases |s| - i
  {
    if MatchAt(s, i).Some? then Some(i)
    else if i == |s| then None
    else FirstMatch(s, i + 1)
  }

  /** `re.search(REGION_REGEX, s)`: the match at the leftmost index. */
  function SearchRegion(s: string): (r: Option<RegionMatch>)
    ensures r.None? <==> forall q :: 0 <= q <= |s| ==> MatchAt(s, q).None?
  {
    match FirstMatch(s, 0)
    case None => None
    case Some(p) => MatchAt(s, p)
  }

  /** The bounds a match asks for on chromosome `c`: a missing start or end
      defaults to the chromosome's bound. */
  function RequestedBounds(c: Chromosome, m: RegionMatch): (b: (int, int))
    ensures m.start.Some? ==> b.0 == m.start.value
    ensures m.start.None? ==> b.0 == c.start
    ensures m.end.Some? ==> b.1 == m.end.value
    ensures m.end.None? ==> b.1 == c.end
  {
    (if m.start.Some? then m.start.value else c.start,
     if m.end.Some? then m.end.value else c.end)
  }

  /** The second half of parseRegion: a missing match is an error, a
      missing start or end defaults to the chromosome's bound, and the
      region is then checked with `_ensureRegionValidity` as written. */
  function ResolveRegion(genome: Genome, m: Option<RegionMatch>): (r: Result<(string, int, int), RegionError>)
    ensures m.None? ==> r == Err(NoRegionMatch)
    ensures m.Some? && Lookup(genome, m.value.chrm).None? ==> r == Err(UnknownChromosome)
    ensures m.Some? && Lookup(genome, m.value.chrm).Some? ==>
      var b := RequestedBounds(Lookup(genome, m.value.chrm).value, m.value);
      var v := EnsureRegionValidity(genome, m.value.chrm, b.0, b.1);
      (r.Ok? <==> v.Ok?) &&
      (r.Ok? ==> r.value == (m.value.chrm, b.0, b.1)) &&
      (r.Err? ==> r.error == v.error)
  {
    match m
    case None => Err(NoRegionMatch)
    case Some(m) =>
      match Lookup(genome, m.chrm)
      case None => Err(UnknownChromosome)
      case Some(c) =>
        var (start, end) := RequestedBounds(c, m);
        match EnsureRegionValidity(genome, m.chrm, start, end)
        case Err(e) => Err(e)
        case Ok(_) => Ok((m.chrm, start, end))
  }

  /** ResolveRegion with the corrected check: what it accepts lies inside
      its chromosome. */
  function ResolveRegionCorrected(genome: Genome, m: Option<RegionMatch>): (r: Result<(string, int, int), RegionError>)
    ensures m.None? ==> r == Err(NoRegionMatch)
    ensures m.Some? && Lookup(genome, m.value.chrm).None? ==> r == Err(UnknownChromosome)
    ensures m.Some? && Lookup(genome, m.value.chrm).Some? ==>
      var b := RequestedBounds(Lookup(genome, m.value.chrm).value, m.value);
      var v := CheckRegion(genome, m.value.chrm, b.0, b.1);
      (r.Ok? <==> v.Ok?) &&
      (r.Ok? ==> r.value == (m.value.chrm, b.0, b.1)) &&
      (r.Err? ==> r.error == v.error)
    ensures r.Ok? ==>
      Lookup(genome, r.value.0).Some? &&
      Lookup(genome, r.value.0).value.start <= r.value.1 < r.value.2 <= Lookup(genome, r.value.0).value.end
  {
    match m
    case None => Err(NoRegionMatch)
    case Some(m) =>
      match Lookup(genome, m.chrm)
      case None => Err(UnknownChromosome)
      case Some(c) =>
        var (start, end) := RequestedBounds(c, m);
        match CheckRegion(genome, m.chrm, start, end)
        case Err(e) => Err(e)
        case Ok(_) =>
          CheckRegionAcceptsContained(genome, m.chrm, start, end);
          Ok((m.chrm, start, end))
  }

  /** parseRegion: strips separators, matches the region syntax and
      resolves the match against the genome. */
  function ParseRegion(genome: Genome, region: string): (r: Result<(string, int, int), RegionError>)
    ensures SearchRegion(StripSeparators(region)).None? ==> r == Err(NoRegionMatch)
    ensures r.Ok? ==> EnsureRegionValidity(genome, r.value.0, r.value.1, r.value.2).Ok?
  {
    ResolveRegion(genome, SearchRegion(StripSeparators(region)))
  }

  /** parseRegion with the corrected region check. */
  function ParseRegionCorrected(genome: Genome, region: string): (r: Result<(string, int, int), RegionError>)
    ensures SearchRegion(StripSeparators(region)).None? ==> r == Err(NoRegionMatch)
    ensures r.Ok? ==> CheckRegion(genome, r.value.0, r.value.1, r.value.2).Ok?
  {
    ResolveRegionCorrected(genome, SearchRegion(StripSeparators(region)))
  }

  /** The canonical text of a region on a numbered chromosome. */
  function FormatRegion(n: nat, start: nat, end: nat): string
  {
    "chr" + NatToString(n) + CoordinatesText(start, end)
  }

  /** The `:start-end` suffix of a region. */
  function CoordinatesText(start: nat, end: nat): string
  {
    ":" + NatToString(start) + "-" + NatToString(end)
  }

  /** The digits of `NatToString(n)` placed after `pre` run up to its end. */
  lemma {:induction false} DigitRunOfNumber(pre: string, n: nat, post: string)
    requires post == [] || !IsDigit(post[0])
    ensures DigitRunEnd(pre + NatToString(n) + post, |pre|) == |pre| + |NatToString(n)|
  {
    var s := pre + NatToString(n) + post;
    var d := NatToString(n);
    var k := |pre| + |d|;
    if post != [] {
      assert s[k] == post[0];
    }
    while k > |pre|
      invariant |pre| <= k <= |pre| + |d|
      invariant DigitRunEnd(s, k) == |pre| + |d|
      decreases k
    {
      assert s[k - 1] == d[k - 1 - |pre|];
      k := k - 1;
    }
  }

  /** The coordinates `:a-b` written after `pre` are read back as `a`, `b`. */
  lemma CoordinatesOfNumbers(pre: string, a: nat, b: nat)
    ensures Coordinates(pre + CoordinatesText(a, b), |pre|) == (Some(a), Some(b))
  {
    var da, db := NatToString(a), NatToString(b);
    var s := pre + CoordinatesText(a, b);
    var k := |pre|;
    var d1 := k + 1 + |da|;
    assert s == pre + ":" + da + "-" + db;
    CoordinatesLayout(s, pre, da, db);
    CoordinateRuns(pre, a, b);
    CoordinatesUnfold(s, k, d1);
    NumberGroup(s, k + 1, d1, a);
    NumberGroup(s, d1 + 1, |s|, b);
  }

  /** A group holding the decimal text of `n` reads as `n`. */
  lemma NumberGroup(s: string, i: nat, j: nat, n: nat)
    requires i <= j <= |s| && s[i..j] == NatToString(n)
    ensures forall p :: i <= p < j ==> IsDigit(s[p])
    ensures DigitsGroup(s, i, j) == Some(n)
  {
    NatToStringRoundTrip(n);
    assert forall p :: i <= p < j ==> s[p] == s[i..j][p - i];
  }

  /** Where the separators and the two numbers sit in `pre:da-db`. */
  lemma CoordinatesLayout(s: string, pre: string, da: string, db: string)
    requires s == pre + ":" + da + "-" + db
    ensures |s| == |pre| + 1 + |da| + 1 + |db| && s[|pre|] == ':' && s[|pre| + 1 + |da|] == '-'
    ensures s[|pre| + 1..|pre| + 1 + |da|] == da && s[|pre| + 1 + |da| + 1..|s|] == db
  {
    var k := |pre|;
    var d1 := k + 1 + |da|;
    assert s[k + 1..d1] == da by {
      assert s == (pre + ":") + da + ("-" + db);
    }
    assert s[d1 + 1..|s|] == db by {
      assert s == (pre + ":" + da + "-") + db;
    }
  }

  /** Both digit runs of `pre:a-b` end where the numbers end. */
  lemma CoordinateRuns(pre: string, a: nat, b: nat)
    ensures var s, da := pre + CoordinatesText(a, b), NatToString(a);
      |s| == |pre| + 1 + |da| + 1 + |NatToString(b)| &&
      DigitRunEnd(s, |pre| + 1) == |pre| + 1 + |da| &&
      DigitRunEnd(s, |pre| + 1 + |da| + 1) == |s|
  {
    var da, db := NatToString(a), NatToString(b);
    var s := pre + CoordinatesText(a, b);
    assert DigitRunEnd(s, |pre| + 1) == |pre| + 1 + |da| by {
      assert s == (pre + ":") + da + ("-" + db);
      DigitRunOfNumber(pre + ":", a, "-" + db);
    }
    assert DigitRunEnd(s, |pre| + 1 + |da| + 1) == |s| by {
      assert s == (pre + ":" + da + "-") + db + [];
      DigitRunOfNumber(pre + ":" + da + "-", b, []);
    }
  }

  /** The coordinates group where a colon, a digit run, a dash and a digit
      run to the end follow. */
  lemma CoordinatesUnfold(s: string, k: nat, d1: nat)
    requires k < d1 < |s| && s[k] == ':' && s[d1] == '-'
    requires DigitRunEnd(s, k + 1) == d1 && DigitRunEnd(s, d1 + 1) == |s|
    ensures Coordinates(s, k) == (DigitsGroup(s, k + 1, d1), DigitsGroup(s, d1 + 1, |s|))
  {
  }

  /** A numbered chromosome name at the head of the text matches, with the
      coordinates read after it. */
  lemma MatchAtNumbered(n: nat, rest: string)
    requires rest == [] || !IsDigit(rest[0])
    ensures var s := "chr" + NatToString(n) + rest;
      MatchAt(s, 0) == Some(RegionMatch("chr" + NatToString(n),
        Coordinates(s, 3 + |NatToString(n)|).0, Coordinates(s, 3 + |NatToString(n)|).1))
  {
    var dn := NatToString(n);
    var s := "chr" + dn + rest;
    DigitRunOfNumber("chr", n, rest);
    assert s[0..3] == "chr" && s[3] == dn[0];
    assert s[0..3 + |dn|] == "chr" + dn;
  }

  /** The text of a region on a numbered chromosome matches at its start. */
  lemma MatchAtFormatted(n: nat, start: nat, end: nat)
    ensures MatchAt(FormatRegion(n, start, end), 0) ==
      Some(RegionMatch("chr" + NatToString(n), Some(start), Some(end)))
  {
    var rest := CoordinatesText(start, end);
    MatchAtNumbered(n, rest);
    CoordinatesOfNumbers("chr" + NatToString(n), start, end);
  }

  /** Reading a formatted region back gives its chromosome and bounds. */
  lemma FormattedRegionMatches(n: nat, start: nat, end: nat)
    ensures SearchRegion(FormatRegion(n, start, end)) ==
      Some(RegionMatch("chr" + NatToString(n), Some(start), Some(end)))
  {
    MatchAtFormatted(n, start, end);
  }

  /** Stripping separators leaves a formatted region as it is, so the search
      finds its chromosome and both bounds. */
  lemma FormattedRegionFound(n: nat, start: nat, end: nat)
    ensures SearchRegion(StripSeparators(FormatRegion(n, start, end))) ==
      Some(RegionMatch("chr" + NatToString(n), Some(start), Some(end)))
  {
    var s := FormatRegion(n, start, end);
    assert NoSeparators(s) by {
      var dn, ds, de := NatToString(n), NatToString(start), NatToString(end);
      DigitsHaveNoSeparators(dn);
      DigitsHaveNoSeparators(ds);
      DigitsHaveNoSeparators(de);
      assert NoSeparators("chr") && NoSeparators(":") && NoSeparators("-");
      NoSeparatorsConcat("chr", dn);
      NoSeparatorsConcat(":", ds);
      NoSeparatorsConcat(":" + ds, "-");
      NoSeparatorsConcat(":" + ds + "-", de);
      NoSeparatorsConcat("chr" + dn, ":" + ds + "-" + de);
      assert s == ("chr" + dn) + (":" + ds + "-" + de);
    }
    FormattedRegionMatches(n, start, end);
  }

  /** A formatted region parses to its own chromosome and bounds exactly
      when the check accepts them; otherwise to the check's error. The
      corrected parse does the same with the corrected check. */
  lemma ParseFormattedRegion(genome: Genome, n: nat, start: nat, end: nat)
    ensures var chrm := "chr" + NatToString(n);
      var v := EnsureRegionValidity(genome, chrm, start, end);
      (v.Ok? ==> ParseRegion(genome, FormatRegion(n, start, end)) == Ok((chrm, start, end))) &&
      (v.Err? ==> ParseRegion(genome, FormatRegion(n, start, end)) == Err(v.error))
    ensures var chrm := "chr" + NatToString(n);
      var v := CheckRegion(genome, chrm, start, end);
      (v.Ok? ==> ParseRegionCorrected(genome, FormatRegion(n, start, end)) == Ok((chrm, start, end))) &&
      (v.Err? ==> ParseRegionCorrected(genome, FormatRegion(n, start, end)) == Err(v.error))
  {
    FormattedRegionFound(n, start, end);
  }

  /** `chr1:5-500` on a chromosome spanning 100-1000: parseRegion as
      written returns the region, the corrected parse refuses its start. */
  lemma StartBeforeChromosomeParsed()
    ensures var g := [Chromosome("chr1", 100, 1000, [], [], [])];
      ParseRegion(g, FormatRegion(1, 5, 500)) == Ok(("chr1", 5, 500)) &&
      ParseRegionCorrected(g, FormatRegion(1, 5, 500)) == Err(InvalidStart)
  {
    var g := [Chromosome("chr1", 100, 1000, [], [], [])];
    assert "chr" + NatToString(1) == "chr1" by {
      assert NatToString(1) == "1";
    }
    StartBeforeChromosomeAccepted();
    assert CheckRegion(g, "chr1", 5, 500) == Err(InvalidStart);
    ParseFormattedRegion(g, 1, 5, 500);
  }

  /** The text holds neither a comma nor a space. */
  ghost predicate NoSeparators(s: string)
  {
    forall k :: 0 <= k < |s| ==> s[k] != ',' && s[k] != ' '
  }

  lemma NoSeparatorsConcat(a: string, b: string)
    requires NoSeparators(a) && NoSeparators(b)
    ensures NoSeparators(a + b)
  {
    forall k | 0 <= k < |a + b|
      ensures (a + b)[k] != ',' && (a + b)[k] != ' '
    {
      if k >= |a| {
        assert (a + b)[k] == b[k - |a|];
      }
    }
  }

  lemma DigitsHaveNoSeparators(s: string)
    requires forall k :: 0 <= k < |s| ==> IsDigit(s[k])
    ensures NoSeparators(s)
  {
  }

  /** `chrX` alone matches with neither coordinate. */
  lemma BareNameMatches()
    ensures SearchRegion("chrX") == Some(RegionMatch("chrX", None, None))
  {
    var s := "chrX";
    assert s[0..3] == "chr" && !IsDigit(s[3]);
    assert Coordinates(s, 4) == (None, None);
    assert s[0..4] == s;
    assert MatchAt(s, 0) == Some(RegionMatch("chrX", None, None));
  }

  /** Stripping leaves `chrX` as it is, so the search finds it. */
  lemma BareNameFound()
    ensures SearchRegion(StripSeparators("chrX")) == Some(RegionMatch("chrX", None, None))
  {
    assert StripSeparators("chrX") == "chrX";
    BareNameMatches();
  }

  /** A bare chromosome name selects the whole chromosome: the corrected
      parse accepts every non-empty chromosome, the parse as written only
      those whose start is not negative, and refuses the others' start. */
  lemma WholeChromosomeDefault(genome: Genome)
    requires Lookup(genome, "chrX").Some?
    requires Lookup(genome, "chrX").value.start < Lookup(genome, "chrX").value.end
    ensures var c := Lookup(genome, "chrX").value;
      ParseRegionCorrected(genome, "chrX") == Ok(("chrX", c.start, c.end))
    ensures var c := Lookup(genome, "chrX").value;
      ParseRegion(genome, "chrX") == if c.start < 0 then Err(InvalidStart) else Ok(("chrX", c.start, c.end))
  {
    var c := Lookup(genome, "chrX").value;
    BareNameFound();
    CheckRegionAcceptsContained(genome, "chrX", c.start, c.end);
  }

  /** Dropping one comma or space does not change the stripped text. */
  lemma SeparatorStripped(before: string, sep: char, after: string)
    requires sep == ',' || sep == ' '
    ensures StripSeparators(before + [sep] + after) == StripSeparators(before + after)
  {
    var t := [sep] + after;
    calc {
      StripSeparators(before + [sep] + after);
      { assert before + [sep] + after == before + t; }
      StripSeparators(before + t);
      { StripSeparatorsConcat(before, t); }
      StripSeparators(before) + StripSeparators(t);
      { assert t[0] == sep && t[1..] == after; }
      StripSeparators(before) + StripSeparators(after);
      { StripSeparatorsConcat(before, after); }
      StripSeparators(before + after);
    }
  }

  /** A comma or space anywhere in the text does not change the parsed
      region, so `chr1:1,000-2,000` reads as `chr1:1000-2000`. */
  lemma SeparatorIgnored(genome: Genome, before: string, sep: char, after: string)
    requires sep == ',' || sep == ' '
    ensures ParseRegion(genome, before + [sep] + after) == ParseRegion(genome, before + after)
  {
    SeparatorStripped(before, sep, after);
  }

  /** _MAX_CONTIG_ATTEMPTS */
  const MAX_CONTIG_ATTEMPTS: nat := 3

  /** The chromosomes selectRandomRegion may choose from: long enough and
      not excluded by name. */
  function Selectable(genome: Genome, length: int, excluded: string -> bool): (sel: seq<Chromosome>)
    ensures forall c :: c in sel <==> c in genome && c.end >= length && !excluded(c.name)
  {
    if genome == [] then []
    else
      (if genome[0].end >= length && !excluded(genome[0].name) then [genome[0]] else []) +
      Selectable(genome[1..], length, excluded)
  }

  /** `random.randint(lo, hi)` driven by the draw `d`: a value in `[lo, hi]`. */
  function RandInt(lo: int, hi: int, d: nat): (v: int)
    requires lo <= hi
    ensures lo <= v <= hi
  {
    lo + d % (hi - lo + 1)
  }

  /** The start proposed by attempt `k` (draw `k + 1`; draw 0 picks the
      chromosome). */
  function AttemptStart(c: Chromosome, draw: nat -> nat, k: nat): (start: int)
    requires c.start <= c.end
    ensures c.start <= start <= c.end
  {
    RandInt(c.start, c.end, draw(k + 1))
  }

  /** The first `n` attempts on `c` all proposed regions that meet no
      supercontig. */
  ghost predicate MissedBefore(c: Chromosome, draw: nat -> nat, length: int, n: nat)
    requires c.start <= c.end
  {
    forall k :: 0 <= k < n ==>
      !OverlapsSupercontig(c, AttemptStart(c, draw, k), AttemptStart(c, draw, k) + length)
  }

  /** Some chromosome of the genome with this name is selectable. */
  ghost predicate NameSelectable(genome: Genome, length: int, excluded: string -> bool, name: string)
  {
    !excluded(name) && exists c :: c in genome && c.name == name && c.end >= length
  }

  /** selectRandomRegion: picks a selectable chromosome with draw 0, then
      draws starts until the region `[start, start + length)` meets a
      supercontig or the attempts are exhausted. `attempts` is the number of
      starts drawn and `warned` says the last one still met no supercontig. */
  method SelectRandomRegion(genome: Genome, length: int, excluded: string -> bool, draw: nat -> nat)
    returns (r: Result<(string, int, int), RegionError>, attempts: nat, warned: bool)
    ensures r == Err(NoSelectableChromosome) <==>
      forall c :: c in genome ==> c.end < length || excluded(c.name)
    ensures r.Err? ==> r.error == NoSelectableChromosome || r.error == EmptyRange
    ensures r.Ok? ==> NameSelectable(genome, length, excluded, r.value.0)
    ensures r.Ok? ==> Lookup(genome, r.value.0).Some?
    ensures r.Ok? ==> 1 <= attempts <= MAX_CONTIG_ATTEMPTS + 1 && r.value.2 == r.value.1 + length
    ensures r.Ok? ==> Lookup(genome, r.value.0).value.start <= r.value.1 <= Lookup(genome, r.value.0).value.end
    ensures r.Ok? ==> r.value.1 == AttemptStart(Lookup(genome, r.value.0).value, draw, attempts - 1)
    ensures r.Ok? ==> MissedBefore(Lookup(genome, r.value.0).value, draw, length, attempts - 1)
    ensures r.Ok? ==> (warned <==> !OverlapsSupercontig(Lookup(genome, r.value.0).value, r.value.1, r.value.2))
    ensures warned ==> r.Ok? && attempts == MAX_CONTIG_ATTEMPTS + 1
  {
    attempts, warned := 0, false;
    var sel := Selectable(genome, length, excluded);
    if |sel| == 0 {
      r := Err(NoSelectableChromosome);
      return;
    }
    var chrm := sel[draw(0) % |sel|].name;
    assert sel[draw(0) % |sel|] in genome;
    var found := Lookup(genome, chrm);
    var c := found.value;
    if c.end < c.start {
      r := Err(EmptyRange);
      return;
    }
    var start, end;
    var tries := 0;
    while true
      invariant 0 <= tries <= MAX_CONTIG_ATTEMPTS
      invariant MissedBefore(c, draw, length, tries)
      decreases MAX_CONTIG_ATTEMPTS - tries
    {
      start := AttemptStart(c, draw, tries);
      end := start + length;
      if OverlapsSupercontig(c, start, end) {
        break;
      } else if tries >= MAX_CONTIG_ATTEMPTS {
        warned := true;
        break;
      }
      tries := tries + 1;
    }
    attempts := tries + 1;
    r := Ok((chrm, start, end));
  }
}
