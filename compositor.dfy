/** The per-window core of getModifiedGenome: which track wins each position,
    the strand check that turns the winner into the output symbol, the
    window's output sequence, and the per-symbol interval records. */
module Compositor {
  import opened Util
  import opened Alphabet
  import opened GenomeStore

  /** A track is a candidate at a position iff its score is finite and nonzero. */
  predicate IsCandidate(s: Score)
  {
    s.Finite? && s.value != 0.0
  }

  /** maybeGetModBase: the symbol placed at a position whose winning track
      carries modification `m` over reference base `r`. `None` is the
      KeyError raised when `r` has no complement. */
  function MaybeGetModBase(m: char, r: char): (b: Option<char>)
    ensures Modifies(m).None? ==> b == Some(r)
    ensures Modifies(m) == Some(r) ==> b == Some(m)
    ensures b.Some? ==> b.value == r || b.value == m || Complement(m) == Some(b.value)
  {
    match Modifies(m)
    case None => Some(r)
    case Some(target) =>
      if target == r then Some(m)
      else match Complement(r)
        case None => None
        case Some(cr) =>
          if target == cr then
            ModifiesTargets(m);
            Some(Complement(m).value)
          else Some(r)
  }

  /** What maybeGetModBase returns: the reference base for a symbol that
      modifies nothing, the symbol itself when it modifies the reference base,
      the symbol's complement when it modifies the base on the other strand,
      and the reference base otherwise; it raises only for a modification
      over a base the complement table does not know. Whatever differs from
      the reference is a modification symbol that modifies that base. */
  lemma MaybeGetModBaseFacts(m: char, r: char)
    ensures Modifies(m).None? ==> MaybeGetModBase(m, r) == Some(r)
    ensures Modifies(m) == Some(r) ==> MaybeGetModBase(m, r) == Some(m)
    ensures MaybeGetModBase(m, r).None? <==>
      Modifies(m).Some? && Modifies(m) != Some(r) && r !in ALPHABET
    ensures MaybeGetModBase(m, r).Some? ==>
      var b := MaybeGetModBase(m, r).value;
      b == r || b == m || Complement(m) == Some(b)
    ensures MaybeGetModBase(m, r).Some? && MaybeGetModBase(m, r).value != r ==>
      MaybeGetModBase(m, r).value in MOD_SYMBOLS && Modifies(MaybeGetModBase(m, r).value) == Some(r)
  {
    if Modifies(m).Some? && Modifies(m) != Some(r) && r in ALPHABET {
      ModifiesTargets(m);
      ComplementInvolution(r);
    }
  }

  /** Every priority entry names one of the tracks. */
  ghost predicate ValidOrder(order: seq<nat>, trackCount: nat)
  {
    forall i :: 0 <= i < |order| ==> order[i] < trackCount
  }

  /** The first priority rank, from `from` on, whose track is a candidate. */
  function FirstCandidate(row: seq<Score>, order: seq<nat>, from: nat): (k: Option<nat>)
    requires ValidOrder(order, |row|) && from <= |order|
    ensures k.Some? ==> from <= k.value < |order| && IsCandidate(row[order[k.value]])
    ensures k.Some? ==> forall j :: from <= j < k.value ==> !IsCandidate(row[order[j]])
    ensures k.None? <==> forall j :: from <= j < |order| ==> !IsCandidate(row[order[j]])
    decreases |order| - from
  {
    if from == |order| then None
    else if IsCandidate(row[order[from]]) then Some(from)
    else FirstCandidate(row, order, from + 1)
  }

  /** The winning priority rank at one position, if any track is a candidate. */
  function Winner(row: seq<Score>, order: seq<nat>): Option<nat>
    requires ValidOrder(order, |row|)
  {
    FirstCandidate(row, order, 0)
  }

  /** The output symbol at one position: the upper-cased reference base, or
      what maybeGetModBase makes of the winning track's symbol. */
  function PositionResult(tracks: seq<char>, order: seq<nat>, row: seq<Score>, r: char): (b: Option<char>)
    requires |row| == |tracks| && ValidOrder(order, |tracks|)
    ensures Winner(row, order).None? ==> b == Some(Upper(r))
    ensures b.None? ==> Winner(row, order).Some?
    ensures b.Some? && b.value != Upper(r) ==>
      var m := tracks[order[Winner(row, order).value]];
      b.value == m || Complement(m) == Some(b.value)
  {
    match Winner(row, order)
    case None => Some(Upper(r))
    case Some(k) => MaybeGetModBase(tracks[order[k]], Upper(r))
  }

  /** The inputs of one window: a score row per reference base, one score
      per track in each row, and a priority order over the tracks. */
  ghost predicate WellFormedWindow(tracks: seq<char>, order: seq<nat>,
                                   scores: seq<seq<Score>>, reference: seq<char>)
  {
    |scores| == |reference| &&
    (forall p :: 0 <= p < |scores| ==> |scores[p]| == |tracks|) &&
    ValidOrder(order, |tracks|)
  }

  /** The window's modified sequence; `None` when some position raises. */
  function ComposeWindowSpec(tracks: seq<char>, order: seq<nat>,
                             scores: seq<seq<Score>>, reference: seq<char>): (out: Option<seq<char>>)
    requires WellFormedWindow(tracks, order, scores, reference)
    ensures out.None? <==> exists p :: 0 <= p < |reference| && PositionResult(tracks, order, scores[p], reference[p]).None?
    ensures out.Some? ==> |out.value| == |reference|
    ensures out.Some? ==> forall p :: 0 <= p < |reference| ==>
      Some(out.value[p]) == PositionResult(tracks, order, scores[p], reference[p])
  {
    if forall p :: 0 <= p < |reference| ==> PositionResult(tracks, order, scores[p], reference[p]).Some?
    then Some(seq(|reference|, p requires 0 <= p < |reference| =>
                  PositionResult(tracks, order, scores[p], reference[p]).value))
    else None
  }

  /** Whether the window holds any candidate at all (`x.size > 0`). */
  predicate HasCandidates(order: seq<nat>, scores: seq<seq<Score>>, n: nat)
    requires n <= |scores|
    requires forall p :: 0 <= p < |scores| ==> ValidOrder(order, |scores[p]|)
  {
    exists p :: 0 <= p < n && Winner(scores[p], order).Some?
  }

  /** One window of getModifiedGenome: copies the upper-cased reference and
      overwrites each position that has a winner with maybeGetModBase's
      symbol. Also reports whether any position had a candidate. */
  method ComposeWindow(tracks: seq<char>, order: seq<nat>,
                       scores: seq<seq<Score>>, reference: seq<char>)
    returns (out: Option<seq<char>>, hasCandidates: bool)
    requires WellFormedWindow(tracks, order, scores, reference)
    ensures out == ComposeWindowSpec(tracks, order, scores, reference)
    ensures hasCandidates <==> HasCandidates(order, scores, |scores|)
  {
    var n := |reference|;
    var all := new char[n](i requires 0 <= i < n => Upper(reference[i]));
    hasCandidates := false;
    var p := 0;
    while p < n
      invariant 0 <= p <= n
      invariant ComposedPrefix(tracks, order, scores, reference, all[..], p)
      invariant hasCandidates <==> HasCandidates(order, scores, p)
    {
      var w := Winner(scores[p], order);
      HasCandidatesNext(order, scores, p);
      ghost var before := all[..];
      assert all[p] == Upper(reference[p]);
      if w.Some? {
        hasCandidates := true;
        var b := MaybeGetModBase(tracks[order[w.value]], all[p]);
        if b.None? {
          out := None;
          PositionRaises(tracks, order, scores, reference, p);
          return;
        }
        all[p] := b.value;
      }
      PrefixExtend(tracks, order, scores, reference, before, all[..], p);
      p := p + 1;
    }
    out := Some(all[..]);
    AllPositionsComposed(tracks, order, scores, reference, out.value);
  }

  lemma HasCandidatesNext(order: seq<nat>, scores: seq<seq<Score>>, p: nat)
    requires p < |scores|
    requires forall q :: 0 <= q < |scores| ==> ValidOrder(order, |scores[q]|)
    ensures HasCandidates(order, scores, p + 1) <==>
      HasCandidates(order, scores, p) || Winner(scores[p], order).Some?
  {
  }

  /** One position that raises makes the whole window raise. */
  lemma PositionRaises(tracks: seq<char>, order: seq<nat>,
                       scores: seq<seq<Score>>, reference: seq<char>, p: nat)
    requires WellFormedWindow(tracks, order, scores, reference) && p < |reference|
    requires PositionResult(tracks, order, scores[p], reference[p]).None?
    ensures ComposeWindowSpec(tracks, order, scores, reference).None?
  {
  }

  /** The first `p` symbols of `v` are their positions' results and the
      rest still hold the upper-cased reference. */
  ghost predicate ComposedPrefix(tracks: seq<char>, order: seq<nat>,
                                 scores: seq<seq<Score>>, reference: seq<char>, v: seq<char>, p: nat)
    requires WellFormedWindow(tracks, order, scores, reference)
  {
    |v| == |reference| && p <= |v| &&
    (forall q :: 0 <= q < p ==> PositionResult(tracks, order, scores[q], reference[q]) == Some(v[q])) &&
    (forall q :: p <= q < |v| ==> v[q] == Upper(reference[q]))
  }

  /** Writing position `p`'s result extends the composed prefix by one. */
  lemma PrefixExtend(tracks: seq<char>, order: seq<nat>,
                     scores: seq<seq<Score>>, reference: seq<char>, before: seq<char>, after: seq<char>, p: nat)
    requires WellFormedWindow(tracks, order, scores, reference)
    requires ComposedPrefix(tracks, order, scores, reference, before, p) && p < |before|
    requires |after| == |before| && forall q :: 0 <= q < |before| && q != p ==> after[q] == before[q]
    requires PositionResult(tracks, order, scores[p], reference[p]) == Some(after[p])
    ensures ComposedPrefix(tracks, order, scores, reference, after, p + 1)
  {
  }

  /** A sequence holding every position's symbol is the window's composition. */
  lemma AllPositionsComposed(tracks: seq<char>, order: seq<nat>,
                             scores: seq<seq<Score>>, reference: seq<char>, out: seq<char>)
    requires WellFormedWindow(tracks, order, scores, reference) && |out| == |reference|
    requires forall q :: 0 <= q < |out| ==>
      PositionResult(tracks, order, scores[q], reference[q]) == Some(out[q])
    ensures ComposeWindowSpec(tracks, order, scores, reference) == Some(out)
  {
    assert forall q :: 0 <= q < |out| ==>
      PositionResult(tracks, order, scores[q], reference[q]).Some?;
    var v := seq(|reference|, p requires 0 <= p < |reference| =>
                 PositionResult(tracks, order, scores[p], reference[p]).value);
    assert forall q :: 0 <= q < |out| ==> v[q] == out[q];
    assert v == out;
  }

  /** An interval record `(chrm, start, end)` for one modification symbol. */
  datatype BedRecord = BedRecord(chrm: string, start: int, end: int, symbol: char)

  /** The positions below `n` that had a winner and whose output is `m`
      (`np.flatnonzero(allModBases[x[idx][:, 0]] == m)`), in increasing order. */
  function RecordPositions(winners: seq<bool>, out: seq<char>, m: char, n: nat): seq<nat>
    requires n <= |winners| == |out|
    decreases n
  {
    if n == 0 then []
    else RecordPositions(winners, out, m, n - 1) + (if winners[n - 1] && out[n - 1] == m then [n - 1] else [])
  }

  /** Every entry of `ps` is a position below `n` that had a winner and
      whose output is `m`. */
  ghost predicate RecordedPositions(ps: seq<nat>, winners: seq<bool>, out: seq<char>, m: char, n: nat)
    requires n <= |winners| == |out|
  {
    forall i :: 0 <= i < |ps| ==> ps[i] < n && winners[ps[i]] && out[ps[i]] == m
  }

  ghost predicate Increasing(ps: seq<int>)
  {
    forall i, j :: 0 <= i < j < |ps| ==> ps[i] < ps[j]
  }

  lemma {:induction false} RecordPositionsSound(winners: seq<bool>, out: seq<char>, m: char, n: nat)
    requires n <= |winners| == |out|
    ensures RecordedPositions(RecordPositions(winners, out, m, n), winners, out, m, n)
    decreases n
  {
    if n > 0 {
      RecordPositionsSound(winners, out, m, n - 1);
      var prev := RecordPositions(winners, out, m, n - 1);
      var ps := RecordPositions(winners, out, m, n);
      assert forall i :: 0 <= i < |prev| ==> ps[i] == prev[i];
      assert forall i :: |prev| <= i < |ps| ==> ps[i] == n - 1 && winners[n - 1] && out[n - 1] == m;
    }
  }

  lemma {:induction false} RecordPositionsOrdered(winners: seq<bool>, out: seq<char>, m: char, n: nat)
    requires n <= |winners| == |out|
    ensures Increasing(RecordPositions(winners, out, m, n))
    decreases n
  {
    if n > 0 {
      RecordPositionsSound(winners, out, m, n - 1);
      RecordPositionsOrdered(winners, out, m, n - 1);
      var prev := RecordPositions(winners, out, m, n - 1);
      var ps := RecordPositions(winners, out, m, n);
      assert forall i :: 0 <= i < |prev| ==> ps[i] == prev[i] < n - 1;
      assert forall i :: |prev| <= i < |ps| ==> ps[i] == n - 1;
    }
  }

  lemma {:induction false} RecordPositionsComplete(winners: seq<bool>, out: seq<char>, m: char, n: nat)
    requires n <= |winners| == |out|
    ensures forall p :: 0 <= p < n && winners[p] && out[p] == m ==> p in RecordPositions(winners, out, m, n)
    decreases n
  {
    if n > 0 {
      RecordPositionsComplete(winners, out, m, n - 1);
    }
  }

  /** The records for symbol `m` in a window starting at coordinate `s`:
      `(chrm, s + p, s + p + 1)` for each recorded position `p`. */
  function WindowRecords(chrm: string, s: int, winners: seq<bool>, out: seq<char>, m: char): seq<BedRecord>
    requires |winners| == |out|
  {
    var ps := RecordPositions(winners, out, m, |out|);
    seq(|ps|, i requires 0 <= i < |ps| => BedRecord(chrm, s + ps[i], s + ps[i] + 1, m))
  }

  /** The start coordinates of a list of records. */
  function Starts(rs: seq<BedRecord>): seq<int>
  {
    seq(|rs|, i requires 0 <= i < |rs| => rs[i].start)
  }

  /** Every record of a window is a one-base interval of symbol `m` at a
      position that had a winner and whose output is `m`. */
  ghost predicate RecordsAtPositions(rs: seq<BedRecord>, chrm: string, s: int,
                                     winners: seq<bool>, out: seq<char>, m: char)
    requires |winners| == |out|
  {
    forall i :: 0 <= i < |rs| ==>
      rs[i].chrm == chrm && rs[i].symbol == m && rs[i].end == rs[i].start + 1 &&
      s <= rs[i].start < s + |out| && winners[rs[i].start - s] && out[rs[i].start - s] == m
  }

  lemma WindowRecordsSound(chrm: string, s: int, winners: seq<bool>, out: seq<char>, m: char)
    requires |winners| == |out|
    ensures RecordsAtPositions(WindowRecords(chrm, s, winners, out, m), chrm, s, winners, out, m)
  {
    var ps := RecordPositions(winners, out, m, |out|);
    RecordPositionsSound(winners, out, m, |out|);
    var rs := WindowRecords(chrm, s, winners, out, m);
    assert forall i :: 0 <= i < |rs| ==> rs[i].start - s == ps[i];
  }

  /** The records of a window are in increasing coordinate order. */
  lemma WindowRecordsOrdered(chrm: string, s: int, winners: seq<bool>, out: seq<char>, m: char)
    requires |winners| == |out|
    ensures Increasing(Starts(WindowRecords(chrm, s, winners, out, m)))
  {
    RecordPositionsOrdered(winners, out, m, |out|);
  }

  /** No position that had a winner and whose output is `m` is missed. */
  lemma WindowRecordsComplete(chrm: string, s: int, winners: seq<bool>, out: seq<char>, m: char)
    requires |winners| == |out|
    ensures forall p :: 0 <= p < |out| && winners[p] && out[p] == m ==>
      s + p in Starts(WindowRecords(chrm, s, winners, out, m))
  {
    var ps := RecordPositions(winners, out, m, |out|);
    RecordPositionsComplete(winners, out, m, |out|);
    var rs := WindowRecords(chrm, s, winners, out, m);
    forall p | 0 <= p < |out| && winners[p] && out[p] == m
      ensures s + p in Starts(rs)
    {
      var i :| 0 <= i < |ps| && ps[i] == p;
      assert Starts(rs)[i] == s + p;
    }
  }

  /** The positions of a stretch do not depend on what follows it. */
  lemma {:induction false} RecordPositionsPrefix(w1: seq<bool>, o1: seq<char>,
                                                 w2: seq<bool>, o2: seq<char>, m: char, n: nat)
    requires |w1| == |o1| && |w2| == |o2| && n <= |o1|
    ensures RecordPositions(w1 + w2, o1 + o2, m, n) == RecordPositions(w1, o1, m, n)
    decreases n
  {
    if n > 0 {
      RecordPositionsPrefix(w1, o1, w2, o2, m, n - 1);
      assert (w1 + w2)[n - 1] == w1[n - 1] && (o1 + o2)[n - 1] == o1[n - 1];
    }
  }

  /** Every position moved `d` further on. */
  function Shift(ps: seq<nat>, d: nat): (r: seq<nat>)
    ensures |r| == |ps|
    ensures forall i :: 0 <= i < |ps| ==> r[i] == ps[i] + d
  {
    seq(|ps|, i requires 0 <= i < |ps| => ps[i] + d)
  }

  /** The positions of two adjacent stretches are those of the first
      followed by those of the second, moved past the first. */
  lemma {:induction false} RecordPositionsConcat(w1: seq<bool>, o1: seq<char>,
                                                 w2: seq<bool>, o2: seq<char>, m: char, n: nat)
    requires |w1| == |o1| && |w2| == |o2| && n <= |o2|
    ensures RecordPositions(w1 + w2, o1 + o2, m, |o1| + n) ==
      RecordPositions(w1, o1, m, |o1|) + Shift(RecordPositions(w2, o2, m, n), |o1|)
    decreases n
  {
    if n == 0 {
      RecordPositionsPrefix(w1, o1, w2, o2, m, |o1|);
    } else {
      RecordPositionsConcat(w1, o1, w2, o2, m, n - 1);
      var i := |o1| + n - 1;
      assert (w1 + w2)[i] == w2[n - 1] && (o1 + o2)[i] == o2[n - 1];
      var ext := if w2[n - 1] && o2[n - 1] == m then [n - 1] else [];
      assert Shift(RecordPositions(w2, o2, m, n - 1) + ext, |o1|) ==
        Shift(RecordPositions(w2, o2, m, n - 1), |o1|) + Shift(ext, |o1|);
    }
  }

  /** The records of two adjacent stretches, the second beginning `|o1|`
      coordinates after the first, are those of the first followed by those
      of the second. */
  lemma WindowRecordsConcat(chrm: string, s: int, w1: seq<bool>, o1: seq<char>,
                            w2: seq<bool>, o2: seq<char>, m: char)
    requires |w1| == |o1| && |w2| == |o2|
    ensures WindowRecords(chrm, s, w1 + w2, o1 + o2, m) ==
      WindowRecords(chrm, s, w1, o1, m) + WindowRecords(chrm, s + |o1|, w2, o2, m)
  {
    RecordPositionsConcat(w1, o1, w2, o2, m, |o2|);
    assert |o1 + o2| == |o1| + |o2|;
  }

  /** A stretch with records has a winner, so one without a winner has no
      records. */
  lemma RecordsNeedWinner(chrm: string, s: int, order: seq<nat>, scores: seq<seq<Score>>,
                          out: seq<char>, m: char)
    requires forall p :: 0 <= p < |scores| ==> ValidOrder(order, |scores[p]|)
    requires |out| == |scores|
    ensures WindowRecords(chrm, s, WinnerRows(order, scores), out, m) != [] ==>
      HasCandidates(order, scores, |scores|)
  {
    var w := WinnerRows(order, scores);
    RecordPositionsSound(w, out, m, |out|);
    var ps := RecordPositions(w, out, m, |out|);
    if ps != [] {
      assert Winner(scores[ps[0]], order).Some?;
    }
  }

  /** The winner rows of a concatenation are those of its parts. */
  lemma WinnerRowsConcat(order: seq<nat>, s1: seq<seq<Score>>, s2: seq<seq<Score>>)
    requires forall p :: 0 <= p < |s1| ==> ValidOrder(order, |s1[p]|)
    requires forall p :: 0 <= p < |s2| ==> ValidOrder(order, |s2[p]|)
    ensures forall p :: 0 <= p < |s1 + s2| ==> ValidOrder(order, |(s1 + s2)[p]|)
    ensures WinnerRows(order, s1 + s2) == WinnerRows(order, s1) + WinnerRows(order, s2)
  {
    var s := s1 + s2;
    assert forall p :: 0 <= p < |s1| ==> s[p] == s1[p];
    assert forall p :: |s1| <= p < |s| ==> s[p] == s2[p - |s1|];
  }

  /** Which positions of a window had a winner (the rows of `x[idx]`). */
  function WinnerRows(order: seq<nat>, scores: seq<seq<Score>>): (w: seq<bool>)
    requires forall p :: 0 <= p < |scores| ==> ValidOrder(order, |scores[p]|)
    ensures |w| == |scores|
    ensures forall p :: 0 <= p < |scores| ==> (w[p] <==> Winner(scores[p], order).Some?)
  {
    seq(|scores|, p requires 0 <= p < |scores| => Winner(scores[p], order).Some?)
  }

  /** Both parts composed, or `None` if either raised. */
  function Combine(a: Option<seq<char>>, b: Option<seq<char>>): Option<seq<char>>
  {
    if a.Some? && b.Some? then Some(a.value + b.value) else None
  }

  /** Positions are composed independently: composing two adjacent stretches
      one after the other is composing their concatenation. */
  lemma ComposeWindowConcat(tracks: seq<char>, order: seq<nat>,
                            s1: seq<seq<Score>>, r1: seq<char>,
                            s2: seq<seq<Score>>, r2: seq<char>)
    requires WellFormedWindow(tracks, order, s1, r1)
    requires WellFormedWindow(tracks, order, s2, r2)
    ensures WellFormedWindow(tracks, order, s1 + s2, r1 + r2)
    ensures ComposeWindowSpec(tracks, order, s1 + s2, r1 + r2) ==
      Combine(ComposeWindowSpec(tracks, order, s1, r1), ComposeWindowSpec(tracks, order, s2, r2))
  {
    var a := ComposeWindowSpec(tracks, order, s1, r1);
    var b := ComposeWindowSpec(tracks, order, s2, r2);
    if a.None? {
      var p :| 0 <= p < |r1| && PositionResult(tracks, order, s1[p], r1[p]).None?;
      ConcatPosition(tracks, order, s1, r1, s2, r2, p);
      PositionRaises(tracks, order, s1 + s2, r1 + r2, p);
    } else if b.None? {
      var p :| 0 <= p < |r2| && PositionResult(tracks, order, s2[p], r2[p]).None?;
      ConcatPosition(tracks, order, s1, r1, s2, r2, p + |s1|);
      PositionRaises(tracks, order, s1 + s2, r1 + r2, p + |s1|);
    } else {
      ConcatComposes(tracks, order, s1, r1, s2, r2);
    }
  }

  /** Position `p` of a concatenation is a position of one of the halves. */
  lemma ConcatPosition(tracks: seq<char>, order: seq<nat>,
                       s1: seq<seq<Score>>, r1: seq<char>,
                       s2: seq<seq<Score>>, r2: seq<char>, p: nat)
    requires WellFormedWindow(tracks, order, s1, r1)
    requires WellFormedWindow(tracks, order, s2, r2)
    ensures WellFormedWindow(tracks, order, s1 + s2, r1 + r2)
    ensures p < |s1| ==> (s1 + s2)[p] == s1[p] && (r1 + r2)[p] == r1[p]
    ensures |s1| <= p < |s1| + |s2| ==> (s1 + s2)[p] == s2[p - |s1|] && (r1 + r2)[p] == r2[p - |s1|]
  {
  }

  /** Two halves that both compose compose together. */
  lemma ConcatComposes(tracks: seq<char>, order: seq<nat>,
                       s1: seq<seq<Score>>, r1: seq<char>,
                       s2: seq<seq<Score>>, r2: seq<char>)
    requires WellFormedWindow(tracks, order, s1, r1)
    requires WellFormedWindow(tracks, order, s2, r2)
    requires ComposeWindowSpec(tracks, order, s1, r1).Some?
    requires ComposeWindowSpec(tracks, order, s2, r2).Some?
    ensures WellFormedWindow(tracks, order, s1 + s2, r1 + r2)
    ensures ComposeWindowSpec(tracks, order, s1 + s2, r1 + r2) ==
      Some(ComposeWindowSpec(tracks, order, s1, r1).value + ComposeWindowSpec(tracks, order, s2, r2).value)
  {
    var a := ComposeWindowSpec(tracks, order, s1, r1).value;
    var b := ComposeWindowSpec(tracks, order, s2, r2).value;
    var s, r, out := s1 + s2, r1 + r2, a + b;
    ConcatPosition(tracks, order, s1, r1, s2, r2, 0);
    forall q | 0 <= q < |out|
      ensures PositionResult(tracks, order, s[q], r[q]) == Some(out[q])
    {
      ConcatPosition(tracks, order, s1, r1, s2, r2, q);
      if q < |s1| {
        ComposedAt(tracks, order, s1, r1, q);
        assert out[q] == a[q];
      } else {
        ComposedAt(tracks, order, s2, r2, q - |s1|);
        assert out[q] == b[q - |s1|];
      }
    }
    AllPositionsComposed(tracks, order, s, r, out);
  }

  /** Each symbol of a composed window is its position's result. */
  lemma ComposedAt(tracks: seq<char>, order: seq<nat>,
                   scores: seq<seq<Score>>, reference: seq<char>, q: nat)
    requires WellFormedWindow(tracks, order, scores, reference) && q < |reference|
    requires ComposeWindowSpec(tracks, order, scores, reference).Some?
    ensures |ComposeWindowSpec(tracks, order, scores, reference).value| == |reference|
    ensures PositionResult(tracks, order, scores[q], reference[q]) ==
      Some(ComposeWindowSpec(tracks, order, scores, reference).value[q])
  {
  }


  /** A concatenation holds a candidate exactly when one of its parts does. */
  lemma HasCandidatesConcat(order: seq<nat>, s1: seq<seq<Score>>, s2: seq<seq<Score>>)
    requires forall p :: 0 <= p < |s1| ==> ValidOrder(order, |s1[p]|)
    requires forall p :: 0 <= p < |s2| ==> ValidOrder(order, |s2[p]|)
    ensures forall p :: 0 <= p < |s1 + s2| ==> ValidOrder(order, |(s1 + s2)[p]|)
    ensures HasCandidates(order, s1 + s2, |s1 + s2|) <==>
      HasCandidates(order, s1, |s1|) || HasCandidates(order, s2, |s2|)
  {
    var s := s1 + s2;
    assert forall p :: 0 <= p < |s1| ==> s[p] == s1[p];
    assert forall p :: |s1| <= p < |s| ==> s[p] == s2[p - |s1|];
    if HasCandidates(order, s2, |s2|) {
      var p :| 0 <= p < |s2| && Winner(s2[p], order).Some?;
      assert Winner(s[p + |s1|], order).Some?;
    }
  }

  /** The window output has one symbol per reference base; a position without
      a candidate keeps its upper-cased reference base; a position whose
      symbol differs from the reference holds the winning track's
      modification or its complement, and that symbol modifies the reference
      base on one of the two strands. */
  lemma WindowOutputFacts(tracks: seq<char>, order: seq<nat>,
                          scores: seq<seq<Score>>, reference: seq<char>)
    requires WellFormedWindow(tracks, order, scores, reference)
    requires ComposeWindowSpec(tracks, order, scores, reference).Some?
    ensures |ComposeWindowSpec(tracks, order, scores, reference).value| == |reference|
    ensures forall p :: 0 <= p < |reference| && Winner(scores[p], order).None? ==>
      ComposeWindowSpec(tracks, order, scores, reference).value[p] == Upper(reference[p])
    ensures forall p :: (0 <= p < |reference| &&
      ComposeWindowSpec(tracks, order, scores, reference).value[p] != Upper(reference[p])) ==> (
        var b := ComposeWindowSpec(tracks, order, scores, reference).value[p];
        var w := Winner(scores[p], order);
        w.Some? &&
        (b == tracks[order[w.value]] || Complement(tracks[order[w.value]]) == Some(b)) &&
        b in MOD_SYMBOLS && Modifies(b) == Some(Upper(reference[p])))
  {
    forall p | 0 <= p < |reference| && Winner(scores[p], order).Some? {
      MaybeGetModBaseFacts(tracks[order[Winner(scores[p], order).value]], Upper(reference[p]));
    }
  }

  /** Only the tracks ranked up to the winner matter: two score rows whose
      candidates agree up to the first row's winner give the same symbol,
      whatever the lower-ranked tracks hold. */
  lemma LowerRanksIgnored(tracks: seq<char>, order: seq<nat>,
                          row1: seq<Score>, row2: seq<Score>, r: char)
    requires |row1| == |row2| == |tracks| && ValidOrder(order, |tracks|)
    requires Winner(row1, order).Some?
    requires forall j :: 0 <= j <= Winner(row1, order).value ==>
      IsCandidate(row1[order[j]]) == IsCandidate(row2[order[j]])
    ensures Winner(row2, order) == Winner(row1, order)
    ensures PositionResult(tracks, order, row2, r) == PositionResult(tracks, order, row1, r)
  {
    var k := Winner(row1, order).value;
    assert IsCandidate(row2[order[k]]);
  }

  /** A track absent from the priority order never influences the output. */
  lemma UnrankedTrackIgnored(tracks: seq<char>, order: seq<nat>,
                             row: seq<Score>, t: nat, v: Score, r: char)
    requires |row| == |tracks| && ValidOrder(order, |tracks|)
    requires t < |row| && t !in order
    ensures Winner(row[t := v], order) == Winner(row, order)
    ensures PositionResult(tracks, order, row[t := v], r) == PositionResult(tracks, order, row, r)
  {
    assert forall j :: 0 <= j < |order| ==> row[t := v][order[j]] == row[order[j]];
  }

  /** When the winner fails the strand check the reference base stays, even
      if a lower-ranked candidate would have modified it. */
  lemma FailedWinnerKeepsReference(tracks: seq<char>, order: seq<nat>, row: seq<Score>, r: char)
    requires |row| == |tracks| && ValidOrder(order, |tracks|)
    requires Winner(row, order).Some?
    requires Modifies(tracks[order[Winner(row, order).value]]).Some?
    requires Upper(r) in ALPHABET
    requires Modifies(tracks[order[Winner(row, order).value]]) != Some(Upper(r))
    requires Modifies(tracks[order[Winner(row, order).value]]) != Complement(Upper(r))
    ensures PositionResult(tracks, order, row, r) == Some(Upper(r))
  {
  }

  /** Methylation at a reference C: "ACGT" with the methylation track
      scoring only position 1 becomes "AmGT", with the single record
      `(chrm, 1, 2)` for `m`. */
  lemma MethylatedCytosineExample()
    ensures ComposeWindowSpec(['m'], [0],
      [[Finite(0.0)], [Finite(1.0)], [Finite(0.0)], [Finite(0.0)]], "ACGT") == Some("AmGT")
  {
    var scores := [[Finite(0.0)], [Finite(1.0)], [Finite(0.0)], [Finite(0.0)]];
    var reference := "ACGT";
    assert scores[0] == [Finite(0.0)] && scores[1] == [Finite(1.0)];
    assert scores[2] == [Finite(0.0)] && scores[3] == [Finite(0.0)];
    assert reference[0] == 'A' && reference[1] == 'C' && reference[2] == 'G' && reference[3] == 'T';
    assert Winner(scores[0], [0]).None? && Winner(scores[2], [0]).None? && Winner(scores[3], [0]).None?;
    assert Winner(scores[1], [0]) == Some(0);
    assert PositionResult(['m'], [0], scores[0], reference[0]) == Some('A');
    assert PositionResult(['m'], [0], scores[1], reference[1]) == Some('m');
    assert PositionResult(['m'], [0], scores[2], reference[2]) == Some('G');
    assert PositionResult(['m'], [0], scores[3], reference[3]) == Some('T');
    var out := ComposeWindowSpec(['m'], [0], scores, reference);
    assert out.Some?;
    assert |out.value| == 4 && out.value[0] == 'A' && out.value[1] == 'm' && out.value[2] == 'G' && out.value[3] == 'T';
    assert out.value == "AmGT";
  }

  lemma MethylatedCytosineRecords()
    ensures WindowRecords("chr1", 0, [false, true, false, false], "AmGT", 'm')
      == [BedRecord("chr1", 1, 2, 'm')]
  {
    var w := [false, true, false, false];
    var text := "AmGT";
    assert text[0] == 'A' && text[1] == 'm' && text[2] == 'G' && text[3] == 'T';
    assert RecordPositions(w, text, 'm', 1) == [];
    assert RecordPositions(w, text, 'm', 2) == [1];
    assert RecordPositions(w, text, 'm', 3) == [1];
    assert RecordPositions(w, text, 'm', 4) == [1];
  }

  lemma MethylatedCytosineWinners()
    ensures WinnerRows([0], [[Finite(0.0)], [Finite(1.0)], [Finite(0.0)], [Finite(0.0)]])
      == [false, true, false, false]
  {
    var scores := [[Finite(0.0)], [Finite(1.0)], [Finite(0.0)], [Finite(0.0)]];
    assert scores[0] == [Finite(0.0)] && scores[1] == [Finite(1.0)];
    assert scores[2] == [Finite(0.0)] && scores[3] == [Finite(0.0)];
    assert Winner(scores[0], [0]).None? && Winner(scores[2], [0]).None? && Winner(scores[3], [0]).None?;
    assert Winner(scores[1], [0]) == Some(0);
  }

  /** Methylation evidence over a reference G lands on the other strand: the
      output is the complement symbol `1`. */
  lemma OppositeStrandExample()
    ensures ComposeWindowSpec(['m'], [0], [[Finite(2.5)]], "g") == Some("1")
  {
    var scores := [[Finite(2.5)]];
    var reference := "g";
    assert scores[0] == [Finite(2.5)] && reference[0] == 'g';
    assert Winner(scores[0], [0]) == Some(0);
    assert PositionResult(['m'], [0], scores[0], reference[0]) == Some('1');
    var out := ComposeWindowSpec(['m'], [0], scores, reference);
    assert out.Some?;
    assert |out.value| == 1 && out.value[0] == '1';
    assert out.value == "1";
  }

  /** Methylation evidence over a reference A fails the strand check: the
      base stays `A` and no modification symbol is recorded. */
  lemma IncompatibleBaseExample()
    ensures ComposeWindowSpec(['m'], [0], [[Finite(1.0)]], "A") == Some("A")
    ensures forall m :: m in MOD_SYMBOLS ==> WindowRecords("chr1", 0, [true], "A", m) == []
  {
    var scores := [[Finite(1.0)]];
    var reference := "A";
    assert scores[0] == [Finite(1.0)] && reference[0] == 'A';
    assert Winner(scores[0], [0]) == Some(0);
    assert PositionResult(['m'], [0], scores[0], reference[0]) == Some('A');
    var out := ComposeWindowSpec(['m'], [0], scores, reference);
    assert out.Some?;
    assert |out.value| == 1 && out.value[0] == 'A';
    assert out.value == "A";
  }

  /** As written, a reference that already holds a complement digit at a
      position with a failed winner is recorded under that digit, although
      the position fell back to the reference. */
  lemma DigitReferenceRecorded()
    ensures ComposeWindowSpec(['m'], [0], [[Finite(1.0)]], "1") == Some("1")
    ensures WindowRecords("chr1", 0, [true], "1", '1') == [BedRecord("chr1", 0, 1, '1')]
  {
    DigitReferenceComposed();
    DigitReferencePositions();
  }

  lemma DigitReferencePositions()
    ensures WindowRecords("chr1", 0, [true], "1", '1') == [BedRecord("chr1", 0, 1, '1')]
  {
    assert "1"[0] == '1';
    assert RecordPositions([true], "1", '1', 1) == [0];
  }

  lemma DigitReferenceComposed()
    ensures ComposeWindowSpec(['m'], [0], [[Finite(1.0)]], "1") == Some("1")
  {
    var scores := [[Finite(1.0)]];
    var reference := "1";
    assert scores[0] == [Finite(1.0)] && reference[0] == '1';
    assert Winner(scores[0], [0]) == Some(0);
    assert PositionResult(['m'], [0], scores[0], reference[0]) == Some('1');
    var out := ComposeWindowSpec(['m'], [0], scores, reference);
    assert out.Some?;
    assert |out.value| == 1 && out.value[0] == '1';
    assert out.value == "1";
  }
}
