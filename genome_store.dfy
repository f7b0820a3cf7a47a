/** The read-only genome-data store, reduced to the values cytomod reads from
    it: per chromosome its bounds, reference sequence, one continuous score
    per modification track and position, and its supercontigs. */
module GenomeStore {
  import opened Util

  /** A per-base track score: a finite value, or NaN / infinity where the
      track holds no data. */
  datatype Score = Finite(value: real) | NonFinite

  /** A half-open interval `[start, end)` of chromosome coordinates. */
  datatype Interval = Interval(start: int, end: int)

  /** One chromosome of the archive. `sequence` and `scores` are indexed by
      chromosome coordinate; `scores[p][t]` is track `t` at position `p`. */
  datatype Chromosome = Chromosome(
    name: string,
    start: int,
    end: int,
    sequence: seq<char>,
    scores: seq<seq<Score>>,
    supercontigs: seq<Interval>)

  /** The archive's chromosomes, in enumeration order. */
  type Genome = seq<Chromosome>

  /** Every score row holds one entry per track, and there is one row per
      reference base. */
  ghost predicate WellFormed(c: Chromosome, trackCount: nat)
  {
    |c.scores| == |c.sequence| &&
    forall p :: 0 <= p < |c.scores| ==> |c.scores[p]| == trackCount
  }

  /** `genome[chrm]`; `None` is the KeyError an unknown name raises. */
  function Lookup(genome: Genome, name: string): (r: Option<Chromosome>)
    ensures r.Some? ==> r.value in genome && r.value.name == name
    ensures r.None? <==> forall i :: 0 <= i < |genome| ==> genome[i].name != name
  {
    if genome == [] then None
    else if genome[0].name == name then Some(genome[0])
    else Lookup(genome[1..], name)
  }

  /** `chromosome.supercontigs[start:end]` is non-empty: some supercontig
      overlaps `[start, end)`. */
  predicate OverlapsSupercontig(c: Chromosome, start: int, end: int)
  {
    exists i :: 0 <= i < |c.supercontigs| &&
      c.supercontigs[i].start < end && start < c.supercontigs[i].end
  }
}
