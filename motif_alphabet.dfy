/** The extended DNA alphabet of the minimal MEME motif generator: the names
    of the primary cytosine modifications, the bidirectional pairing of each
    with its G-strand complement, the background letter frequencies, and the
    letter order MEME uses for a custom alphabet. */
module MotifAlphabet {
  import opened Util
  import Alphabet

  /** MOD_BASE_NAMES: the file-name abbreviation of each primary modification. */
  const MOD_BASE_NAMES: map<char, string> :=
    map['m' := "5mC", 'h' := "5hmC", 'f' := "5fC", 'c' := "5caC"]

  /** MOD_BASE_COMPLEMENTS, read in its forward direction. */
  const MOD_BASE_COMPLEMENTS: map<char, char> :=
    map['m' := '1', 'h' := '2', 'f' := '3', 'c' := '4']

  /** The G-strand symbols, the values of MOD_BASE_COMPLEMENTS. */
  const COMPLEMENT_SYMBOLS: seq<char> := ['1', '2', '3', '4']

  /** `~MOD_BASE_COMPLEMENTS`: the reverse direction of the pairing. */
  const REVERSE_COMPLEMENTS: map<char, char> :=
    map['1' := 'm', '2' := 'h', '3' := 'f', '4' := 'c']

  /** The two directions of MOD_BASE_COMPLEMENTS are inverse bijections
      between the primary modifications and the G-strand symbols. */
  lemma ComplementsInverse()
    ensures forall m :: m in MOD_BASE_COMPLEMENTS <==> m in Alphabet.PRIMARY
    ensures forall d :: d in REVERSE_COMPLEMENTS <==> d in COMPLEMENT_SYMBOLS
    ensures forall m :: m in MOD_BASE_COMPLEMENTS ==>
      MOD_BASE_COMPLEMENTS[m] in REVERSE_COMPLEMENTS && REVERSE_COMPLEMENTS[MOD_BASE_COMPLEMENTS[m]] == m
    ensures forall d :: d in REVERSE_COMPLEMENTS ==>
      REVERSE_COMPLEMENTS[d] in MOD_BASE_COMPLEMENTS && MOD_BASE_COMPLEMENTS[REVERSE_COMPLEMENTS[d]] == d
  {
    forall m
      ensures m in MOD_BASE_COMPLEMENTS <==> m in Alphabet.PRIMARY
    {
      assert m in Alphabet.PRIMARY <==> m == 'm' || m == 'h' || m == 'f' || m == 'c';
    }
    forall d
      ensures d in REVERSE_COMPLEMENTS <==> d in COMPLEMENT_SYMBOLS
    {
      assert d in COMPLEMENT_SYMBOLS <==> d == '1' || d == '2' || d == '3' || d == '4';
    }
    forall m | m in MOD_BASE_COMPLEMENTS
      ensures MOD_BASE_COMPLEMENTS[m] in REVERSE_COMPLEMENTS && REVERSE_COMPLEMENTS[MOD_BASE_COMPLEMENTS[m]] == m
    {
      if m == 'm' {
      } else if m == 'h' {
      } else if m == 'f' {
      } else {
        assert m == 'c';
      }
    }
    forall d | d in REVERSE_COMPLEMENTS
      ensures REVERSE_COMPLEMENTS[d] in MOD_BASE_COMPLEMENTS && MOD_BASE_COMPLEMENTS[REVERSE_COMPLEMENTS[d]] == d
    {
      if d == '1' {
      } else if d == '2' {
      } else if d == '3' {
      } else {
        assert d == '4';
      }
    }
  }

  /** getCompMaybeFromMB: a modified cytosine to its complement; any other
      symbol is left as it is. */
  function CompMaybeFromMB(b: char): (r: char)
    ensures b in Alphabet.PRIMARY ==> r in COMPLEMENT_SYMBOLS && REVERSE_COMPLEMENTS[r] == b
    ensures b !in Alphabet.PRIMARY ==> r == b
  {
    ComplementsInverse();
    if b in MOD_BASE_COMPLEMENTS then MOD_BASE_COMPLEMENTS[b] else b
  }

  /** getMBMaybeFromComp: a complement symbol back to its modified cytosine;
      any other symbol is left as it is. */
  function MBMaybeFromComp(b: char): (r: char)
    ensures b in COMPLEMENT_SYMBOLS ==> r in Alphabet.PRIMARY && MOD_BASE_COMPLEMENTS[r] == b
    ensures b !in COMPLEMENT_SYMBOLS ==> r == b
  {
    ComplementsInverse();
    if b in REVERSE_COMPLEMENTS then REVERSE_COMPLEMENTS[b] else b
  }

  /** The two directions undo each other on the symbols they move. */
  lemma StrandMappingRoundTrip(b: char)
    ensures b in Alphabet.PRIMARY ==>
      CompMaybeFromMB(b) in COMPLEMENT_SYMBOLS && MBMaybeFromComp(CompMaybeFromMB(b)) == b
    ensures b in COMPLEMENT_SYMBOLS ==>
      MBMaybeFromComp(b) in Alphabet.PRIMARY && CompMaybeFromMB(MBMaybeFromComp(b)) == b
  {
    ComplementsInverse();
  }

  /** Each direction is the identity outside its own domain, so applying it
      twice changes nothing more. */
  lemma StrandMappingIdempotent(b: char)
    ensures CompMaybeFromMB(CompMaybeFromMB(b)) == CompMaybeFromMB(b)
    ensures MBMaybeFromComp(MBMaybeFromComp(b)) == MBMaybeFromComp(b)
    ensures b !in Alphabet.PRIMARY && b !in COMPLEMENT_SYMBOLS ==>
      CompMaybeFromMB(b) == b && MBMaybeFromComp(b) == b
  {
    ComplementsInverse();
  }

  /** The pairing is the complement table of the nucleobase alphabet
      restricted to the modification symbols, and for any modification
      symbol the cytosine side and the guanine side are complements. */
  lemma StrandMappingIsComplement(b: char)
    requires b in Alphabet.PRIMARY || b in COMPLEMENT_SYMBOLS
    ensures MBMaybeFromComp(b) in Alphabet.PRIMARY
    ensures CompMaybeFromMB(b) in COMPLEMENT_SYMBOLS
    ensures Alphabet.Complement(MBMaybeFromComp(b)) == Some(CompMaybeFromMB(b))
  {
    if b == 'm' || b == '1' {
      assert MBMaybeFromComp(b) == 'm' && CompMaybeFromMB(b) == '1';
    } else if b == 'h' || b == '2' {
      assert MBMaybeFromComp(b) == 'h' && CompMaybeFromMB(b) == '2';
    } else if b == 'f' || b == '3' {
      assert MBMaybeFromComp(b) == 'f' && CompMaybeFromMB(b) == '3';
    } else {
      assert MBMaybeFromComp(b) == 'c' && CompMaybeFromMB(b) == '4';
    }
  }

  /** Every primary modification is named, with the abbreviation the genome
      tools use for it. */
  lemma ModBaseNames()
    ensures forall b :: b in MOD_BASE_NAMES <==> b in Alphabet.PRIMARY
    ensures forall k :: 0 <= k < |Alphabet.PRIMARY| ==>
      MOD_BASE_NAMES[Alphabet.PRIMARY[k]] == Alphabet.PRIMARY_ABBREVIATIONS[k]
  {
  }

  /** MOTIF_ALPHABET_BG_FREQUENCIES: mouse background frequencies. */
  const BACKGROUND: map<char, real> :=
    map['T' := 0.292, 'A' := 0.292, 'C' := 0.201745991, 'G' := 0.201745991,
        'm' := 0.006136, '1' := 0.006136, 'h' := 0.0001144, '2' := 0.0001144,
        'f' := 0.000002912, '3' := 0.000002912, 'c' := 0.000000697, '4' := 0.000000697]

  /** MOTIF_ALPHABET: the background symbols in ASCII order. */
  const MOTIF_ALPHABET: seq<char> := "1234ACGTcfhm"

  ghost predicate StrictlyIncreasing(s: seq<char>)
  {
    forall i, j :: 0 <= i < j < |s| ==> s[i] < s[j]
  }

  /** A sequence whose neighbours increase is strictly increasing. */
  lemma {:induction false} AdjacentIncreasing(s: seq<char>)
    requires forall i :: 0 <= i < |s| - 1 ==> s[i] < s[i + 1]
    ensures StrictlyIncreasing(s)
    decreases |s|
  {
    if |s| > 1 {
      AdjacentIncreasing(s[1..]);
      forall i, j | 0 <= i < j < |s| ensures s[i] < s[j] {
        if i > 0 {
          assert s[i] == s[1..][i - 1] && s[j] == s[1..][j - 1];
        } else if j > 1 {
          assert s[1] == s[1..][0] && s[j] == s[1..][j - 1];
        }
      }
    }
  }

  /** A sequence is empty exactly when nothing is in it. */
  lemma EmptyWhenNoMembers(s: seq<char>)
    ensures s == [] <==> forall c :: c !in s
  {
    if s != [] {
      assert s[0] in s;
    }
  }

  /** A strictly increasing sequence is determined by its elements. */
  lemma {:induction false} IncreasingUnique(a: seq<char>, b: seq<char>)
    requires StrictlyIncreasing(a) && StrictlyIncreasing(b)
    requires forall c :: c in a <==> c in b
    ensures a == b
    decreases |a|
  {
    EmptyWhenNoMembers(a);
    EmptyWhenNoMembers(b);
    if a != [] {
      SameHead(a, b);
      SameTailMembers(a, b);
      IncreasingUnique(a[1..], b[1..]);
      assert a == [a[0]] + a[1..];
      assert b == [b[0]] + b[1..];
    }
  }

  /** Two non-empty increasing sequences with the same members start alike. */
  lemma SameHead(a: seq<char>, b: seq<char>)
    requires StrictlyIncreasing(a) && StrictlyIncreasing(b)
    requires forall c :: c in a <==> c in b
    requires a != [] && b != []
    ensures a[0] == b[0]
  {
    assert a[0] in b;
    assert b[0] in a;
  }

  /** ... and their tails are increasing with the same members. */
  lemma SameTailMembers(a: seq<char>, b: seq<char>)
    requires StrictlyIncreasing(a) && StrictlyIncreasing(b)
    requires forall c :: c in a <==> c in b
    requires a != [] && b != [] && a[0] == b[0]
    ensures StrictlyIncreasing(a[1..]) && StrictlyIncreasing(b[1..])
    ensures forall c :: c in a[1..] <==> c in b[1..]
  {
    forall c
      ensures c in a[1..] <==> c in b[1..]
    {
      if c in a[1..] {
        TailMember(a, b, c);
      }
      if c in b[1..] {
        TailMember(b, a, c);
      }
    }
  }

  /** In two increasing sequences with the same members and the same
      head, a member of one tail is a member of the other. */
  lemma TailMember(a: seq<char>, b: seq<char>, c: char)
    requires StrictlyIncreasing(a) && StrictlyIncreasing(b)
    requires forall x :: x in a <==> x in b
    requires a != [] && b != [] && a[0] == b[0] && c in a[1..]
    ensures c in b[1..]
  {
    var j :| 0 <= j < |a| - 1 && a[1..][j] == c;
    assert a[j + 1] == c && a[0] < a[j + 1];
    assert c in b;
    var q :| 0 <= q < |b| && b[q] == c;
    assert q > 0 && b[q] == b[1..][q - 1];
  }

  /** MOTIF_ALPHABET lists the background symbols in ascending order, and
      it is the only sequence that does: it is `sorted(keys)`. */
  lemma MotifAlphabetSorted(s: seq<char>)
    ensures StrictlyIncreasing(MOTIF_ALPHABET)
    ensures forall c :: c in MOTIF_ALPHABET <==> c in BACKGROUND
    ensures StrictlyIncreasing(s) && (forall c :: c in s <==> c in BACKGROUND) ==> s == MOTIF_ALPHABET
  {
    var m := MOTIF_ALPHABET;
    assert forall i :: 0 <= i < |m| - 1 ==> m[i] < m[i + 1];
    AdjacentIncreasing(m);
    assert forall c :: c in m <==> c in BACKGROUND;
    if StrictlyIncreasing(s) && (forall c :: c in s <==> c in BACKGROUND) {
      IncreasingUnique(s, m);
    }
  }

  /** Sum of the background frequencies of `s[k..]`. */
  function BackgroundSum(s: seq<char>, k: nat): real
    requires k <= |s|
    requires forall i :: 0 <= i < |s| ==> s[i] in BACKGROUND
    decreases |s| - k
  {
    if k == |s| then 0.0 else BACKGROUND[s[k]] + BackgroundSum(s, k + 1)
  }

  /** A symbol and its complement are equally frequent in the background. */
  lemma BackgroundStrandSymmetric(c: char)
    requires c in BACKGROUND
    ensures Alphabet.Complement(c).Some? && Alphabet.Complement(c).value in BACKGROUND
    ensures BACKGROUND[Alphabet.Complement(c).value] == BACKGROUND[c]
  {
  }

  /** Every symbol of MOTIF_ALPHABET has a background frequency. */
  lemma BackgroundCovers()
    ensures forall i :: 0 <= i < |MOTIF_ALPHABET| ==> MOTIF_ALPHABET[i] in BACKGROUND
  {
    MotifAlphabetSorted([]);
  }

  /** The guanine and modification symbols `G T c f h m` carry half the mass. */
  lemma BackgroundUpperHalf()
    ensures (forall i :: 0 <= i < |MOTIF_ALPHABET| ==> MOTIF_ALPHABET[i] in BACKGROUND) &&
      BackgroundSum(MOTIF_ALPHABET, 6) == 0.5
  {
    BackgroundCovers();
    var s := MOTIF_ALPHABET;
    assert s[11] == 'm' && s[10] == 'h' && s[9] == 'f' && s[8] == 'c' && s[7] == 'T' && s[6] == 'G';
    assert BackgroundSum(s, 11) == 0.006136;
    assert BackgroundSum(s, 10) == 0.0062504;
    assert BackgroundSum(s, 9) == 0.006253312;
    assert BackgroundSum(s, 8) == 0.006254009;
    assert BackgroundSum(s, 7) == 0.298254009;
  }

  /** The background frequencies of the alphabet sum to one. */
  lemma BackgroundDistribution()
    ensures (forall i :: 0 <= i < |MOTIF_ALPHABET| ==> MOTIF_ALPHABET[i] in BACKGROUND) &&
      BackgroundSum(MOTIF_ALPHABET, 0) == 1.0
  {
    BackgroundCovers();
    BackgroundUpperHalf();
    var s := MOTIF_ALPHABET;
    assert s[0] == '1' && s[1] == '2' && s[2] == '3' && s[3] == '4' && s[4] == 'A' && s[5] == 'C';
    assert BackgroundSum(s, 5) == 0.701745991;
    assert BackgroundSum(s, 4) == 0.993745991;
    assert BackgroundSum(s, 3) == 0.993746688;
    assert BackgroundSum(s, 2) == 0.9937496;
    assert BackgroundSum(s, 1) == 0.993864;
  }

  /** `MOTIF_ALPHABET.index(c)`; `None` is the ValueError of a symbol
      outside the alphabet. */
  function MotifIndex(c: char): (k: Option<nat>)
    ensures k.Some? <==> c in MOTIF_ALPHABET
    ensures k.Some? ==> k.value < |MOTIF_ALPHABET| && MOTIF_ALPHABET[k.value] == c
  {
    if c in MOTIF_ALPHABET then Some(Alphabet.IndexIn(MOTIF_ALPHABET, c)) else None
  }

  /** The unmodified bases take columns 4 to 7, and distinct symbols take
      distinct columns. */
  lemma MotifIndexFacts(c: char, d: char)
    ensures MotifIndex('A') == Some(4) && MotifIndex('C') == Some(5)
    ensures MotifIndex('G') == Some(6) && MotifIndex('T') == Some(7)
    ensures MotifIndex(c).Some? && c != d ==> MotifIndex(c) != MotifIndex(d)
  {
    var m := MOTIF_ALPHABET;
    MotifAlphabetSorted([]);
    assert m[4] == 'A' && m[5] == 'C' && m[6] == 'G' && m[7] == 'T';
    Alphabet.IndexInDistinct(m, 4);
    Alphabet.IndexInDistinct(m, 5);
    Alphabet.IndexInDistinct(m, 6);
    Alphabet.IndexInDistinct(m, 7);
  }

  /** Each symbol's column is its place in MOTIF_ALPHABET. */
  lemma MotifIndexAt(k: nat)
    requires k < |MOTIF_ALPHABET|
    ensures MotifIndex(MOTIF_ALPHABET[k]) == Some(k)
  {
    MotifAlphabetSorted([]);
    Alphabet.IndexInDistinct(MOTIF_ALPHABET, k);
  }
}
