/** The closed nucleobase alphabet of cytomod: the IUPAC codes (plus `X`),
    the four primary cytosine modifications `m h f c` in oxidation order,
    and their G-strand complements `1 2 3 4`; the complement table, the
    target-base table `_MODIFIES`, and the UCSC track header built from them. */
module Alphabet {
  import opened Util

  /** MOD_BASES: the primary modified bases, in order of oxidation. */
  const PRIMARY_ABBREVIATIONS: seq<string> := ["5mC", "5hmC", "5fC", "5caC"]
  const PRIMARY: seq<char> := ['m', 'h', 'f', 'c']

  /** Every symbol the complement table knows. */
  const ALPHABET: set<char> :=
    {'A', 'C', 'G', 'T', 'R', 'Y', 'M', 'K', 'W', 'S', 'B', 'V', 'D', 'H', 'N', 'X',
     'm', 'h', 'f', 'c', '1', '2', '3', '4'}

  /** The keys of `_MODIFIES`: the primary modifications and their complements. */
  const MOD_SYMBOLS: set<char> := {'m', 'h', 'f', 'c', '1', '2', '3', '4'}

  /** COMPLEMENTS once fully built; `None` is a missing key (a KeyError). */
  function Complement(c: char): (r: Option<char>)
    ensures r.Some? <==> c in ALPHABET
  {
    match c
    case 'A' => Some('T')  case 'T' => Some('A')
    case 'G' => Some('C')  case 'C' => Some('G')
    case 'R' => Some('Y')  case 'Y' => Some('R')
    case 'M' => Some('K')  case 'K' => Some('M')
    case 'W' => Some('W')  case 'S' => Some('S')
    case 'B' => Some('V')  case 'V' => Some('B')
    case 'D' => Some('H')  case 'H' => Some('D')
    case 'N' => Some('N')  case 'X' => Some('X')
    case 'm' => Some('1')  case '1' => Some('m')
    case 'h' => Some('2')  case '2' => Some('h')
    case 'f' => Some('3')  case '3' => Some('f')
    case 'c' => Some('4')  case '4' => Some('c')
    case _ => None
  }

  /** `_MODIFIES`: the base each modification symbol can modify. */
  function Modifies(m: char): (r: Option<char>)
    ensures r.Some? <==> m in MOD_SYMBOLS
    ensures r.Some? ==> r.value == 'C' || r.value == 'G'
  {
    if m in PRIMARY then Some('C')
    else if m in ['1', '2', '3', '4'] then Some('G')
    else None
  }

  /** `complement(bases)`: the list version, failing on any unknown symbol. */
  function ComplementList(bases: seq<char>): (r: Option<seq<char>>)
    ensures r.Some? <==> forall k :: 0 <= k < |bases| ==> bases[k] in ALPHABET
    ensures r.Some? ==> |r.value| == |bases|
    ensures r.Some? ==> forall k :: 0 <= k < |bases| ==> Some(r.value[k]) == Complement(bases[k])
  {
    if forall k :: 0 <= k < |bases| ==> bases[k] in ALPHABET
    then Some(seq(|bases|, k requires 0 <= k < |bases| => Complement(bases[k]).value))
    else None
  }

  /** `''.join(str(i) for i in range(1, n + 1))` for n below 10. */
  function RankDigits(n: nat): (r: seq<char>)
    requires n < 10
    ensures |r| == n
    ensures forall k :: 0 <= k < n ==> r[k] as int == '1' as int + k
  {
    seq(n, k requires 0 <= k < n => ('1' as int + k) as char)
  }

  /** The COMPLEMENTS literal of the IUPAC codes, before any update. */
  const COMPLEMENTS_LITERAL: map<char, char> :=
    map['A' := 'T', 'G' := 'C', 'R' := 'Y', 'M' := 'K', 'W' := 'W',
        'S' := 'S', 'B' := 'V', 'D' := 'H', 'N' := 'N', 'X' := 'X']

  ghost predicate Injective(t: map<char, char>)
  {
    forall a, b :: a in t && b in t && t[a] == t[b] ==> a == b
  }

  /** `dict(izip(keys, values))` for distinct keys. */
  function ZipToMap(keys: seq<char>, values: seq<char>): (r: map<char, char>)
    requires |keys| == |values|
    requires forall i, j :: 0 <= i < j < |keys| ==> keys[i] != keys[j]
    ensures forall k :: 0 <= k < |keys| ==> keys[k] in r && r[keys[k]] == values[k]
    ensures forall c :: c in r ==> c in keys
  {
    map k | 0 <= k < |keys| :: keys[k] := values[k]
  }

  /** `[(c, m) for m, c in t.items()]` as a dictionary: each value keyed back
      to its key. The table is injective, so no pair overwrites another. */
  function Reversed(t: map<char, char>): (r: map<char, char>)
    requires Injective(t)
    ensures forall m :: m in t ==> t[m] in r && r[t[m]] == m
    ensures forall c :: c in r ==> exists m :: m in t && t[m] == c
  {
    map m | m in t :: t[m] := m
  }

  /** Builds COMPLEMENTS by the three successive updates of the module
      initialisation: the IUPAC literal, then the modified bases paired with
      their oxidation ranks `1 2 3 4`, then every pair reversed. */
  method BuildComplements() returns (table: map<char, char>)
    ensures forall c :: c in table <==> c in ALPHABET
    ensures forall c :: c in table ==> Complement(c) == Some(table[c])
  {
    table := COMPLEMENTS_LITERAL;
    var ranks := RankDigits(|PRIMARY|);
    table := table + ZipToMap(PRIMARY, ranks);
    ForwardTable();
    ReversedTableFacts(table);
    table := table + Reversed(table);
  }

  /** COMPLEMENTS as it stands after its second update. */
  const FORWARD_TABLE: map<char, char> :=
    map['A' := 'T', 'G' := 'C', 'R' := 'Y', 'M' := 'K', 'W' := 'W',
        'S' := 'S', 'B' := 'V', 'D' := 'H', 'N' := 'N', 'X' := 'X',
        'm' := '1', 'h' := '2', 'f' := '3', 'c' := '4']

  lemma ForwardTable()
    ensures COMPLEMENTS_LITERAL + ZipToMap(PRIMARY, RankDigits(|PRIMARY|)) == FORWARD_TABLE
  {
    RankPairs();
    var z := map['m' := '1', 'h' := '2', 'f' := '3', 'c' := '4'];
    forall c
      ensures c in COMPLEMENTS_LITERAL + z <==> c in FORWARD_TABLE
    {
    }
    forall c | c in FORWARD_TABLE
      ensures (COMPLEMENTS_LITERAL + z)[c] == FORWARD_TABLE[c]
    {
    }
  }

  /** The modified bases paired with their ranks. */
  lemma RankPairs()
    ensures ZipToMap(PRIMARY, RankDigits(|PRIMARY|)) == map['m' := '1', 'h' := '2', 'f' := '3', 'c' := '4']
  {
    var ranks := RankDigits(|PRIMARY|);
    assert ranks[0] == '1' && ranks[1] == '2' && ranks[2] == '3' && ranks[3] == '4';
  }

  lemma ForwardTableFacts()
    ensures Injective(FORWARD_TABLE)
    ensures forall m :: m in FORWARD_TABLE ==>
      m in ALPHABET && Complement(m) == Some(FORWARD_TABLE[m]) && Complement(FORWARD_TABLE[m]) == Some(m)
  {
    forall m | m in FORWARD_TABLE
      ensures m in ALPHABET && Complement(m) == Some(FORWARD_TABLE[m]) && Complement(FORWARD_TABLE[m]) == Some(m)
    {
    }
    forall a, b | a in FORWARD_TABLE && b in FORWARD_TABLE && FORWARD_TABLE[a] == FORWARD_TABLE[b]
      ensures a == b
    {
      assert Complement(FORWARD_TABLE[a]) == Some(a);
    }
  }

  lemma ForwardTableCovers(c: char)
    requires c in ALPHABET
    ensures c in FORWARD_TABLE || exists m :: m in FORWARD_TABLE && FORWARD_TABLE[m] == c
  {
    if c !in FORWARD_TABLE {
      var m := Complement(c).value;
      assert m in FORWARD_TABLE && FORWARD_TABLE[m] == c;
    }
  }

  /** Adding the reversed pairs closes the table over the alphabet, and it
      then agrees with `Complement` everywhere. */
  lemma ReversedTableFacts(t: map<char, char>)
    requires t == FORWARD_TABLE
    ensures Injective(t)
    ensures forall c :: c in t + Reversed(t) <==> c in ALPHABET
    ensures forall c :: c in t + Reversed(t) ==> Complement(c) == Some((t + Reversed(t))[c])
  {
    ForwardTableFacts();
    var r := Reversed(t);
    forall c | c in ALPHABET ensures c in t + r { ForwardTableCovers(c); }
    forall c | c in t + r ensures c in ALPHABET && Complement(c) == Some((t + r)[c]) {
      if c in r {
        var m :| m in t && t[m] == c;
      }
    }
  }

  /** Builds `_MODIFIES`: every primary modification targets `C`, and then
      the complement of every key targets the complement of its value. */
  method BuildModifies() returns (targets: map<char, char>)
    ensures forall m :: m in targets <==> m in MOD_SYMBOLS
    ensures forall m :: m in targets ==> Modifies(m) == Some(targets[m])
  {
    var primary := map m | m in PRIMARY :: 'C';
    var keys := PRIMARY;
    var values := seq(|keys|, k requires 0 <= k < |keys| => primary[keys[k]]);
    ModifiesTableFacts(primary, values);
    var compKeys := ComplementList(keys).value;
    var compValues := ComplementList(values).value;
    var complemented := ZipToMap(compKeys, compValues);
    ComplementedFacts(compKeys, compValues);
    targets := primary + complemented;
    ModifiesUnion(primary, complemented);
  }

  lemma ComplementedFacts(compKeys: seq<char>, compValues: seq<char>)
    requires compKeys == ['1', '2', '3', '4'] && compValues == ['G', 'G', 'G', 'G']
    ensures forall m :: m in ZipToMap(compKeys, compValues) <==> m in compKeys
    ensures forall m :: m in ZipToMap(compKeys, compValues) ==> ZipToMap(compKeys, compValues)[m] == 'G'
  {
    var z := ZipToMap(compKeys, compValues);
    forall m | m in z ensures z[m] == 'G' {
      assert m in compKeys;
    }
  }

  lemma ModifiesUnion(primary: map<char, char>, complemented: map<char, char>)
    requires forall m :: m in primary <==> m in PRIMARY
    requires forall m :: m in primary ==> primary[m] == 'C'
    requires forall m :: m in complemented <==> m in ['1', '2', '3', '4']
    requires forall m :: m in complemented ==> complemented[m] == 'G'
    ensures forall m :: m in primary + complemented <==> m in MOD_SYMBOLS
    ensures forall m :: m in primary + complemented ==> Modifies(m) == Some((primary + complemented)[m])
  {
  }


  lemma ModifiesTableFacts(targets: map<char, char>, values: seq<char>)
    requires targets == map m | m in PRIMARY :: 'C'
    requires |values| == |PRIMARY| && forall k :: 0 <= k < |PRIMARY| ==> values[k] == targets[PRIMARY[k]]
    ensures forall m :: m in targets <==> m in PRIMARY
    ensures forall m :: m in targets ==> targets[m] == 'C'
    ensures ComplementList(PRIMARY).Some? && ComplementList(PRIMARY).value == ['1', '2', '3', '4']
    ensures ComplementList(values).Some? && ComplementList(values).value == ['G', 'G', 'G', 'G']
  {
    assert PRIMARY[0] == 'm' && PRIMARY[1] == 'h' && PRIMARY[2] == 'f' && PRIMARY[3] == 'c';
    assert forall k :: 0 <= k < |PRIMARY| ==> values[k] == 'C';
    var ck := ComplementList(PRIMARY).value;
    assert ck[0] == '1' && ck[1] == '2' && ck[2] == '3' && ck[3] == '4';
    var cv := ComplementList(values).value;
    assert cv[0] == 'G' && cv[1] == 'G' && cv[2] == 'G' && cv[3] == 'G';
  }

  /** The complement table is self-inverse on its whole domain. */
  lemma ComplementInvolution(c: char)
    requires c in ALPHABET
    ensures Complement(c).value in ALPHABET
    ensures Complement(Complement(c).value) == Some(c)
  {
  }

  /** The modified bases are paired with `1 2 3 4` in oxidation order, and a
      symbol is a modification symbol exactly when its complement is one. */
  lemma ModificationComplements()
    ensures forall k :: 0 <= k < |PRIMARY| ==>
      Complement(PRIMARY[k]).Some? && Complement(PRIMARY[k]).value as int == '1' as int + k
    ensures forall c :: c in ALPHABET ==> (c in MOD_SYMBOLS <==> Complement(c).value in MOD_SYMBOLS)
  {
  }

  /** `_MODIFIES` sends the primary modifications to `C`, their complements to
      `G`, and the target of a complement symbol is the complement of the target. */
  lemma ModifiesTargets(m: char)
    requires m in MOD_SYMBOLS
    ensures m in PRIMARY ==> Modifies(m) == Some('C')
    ensures m !in PRIMARY ==> Modifies(m) == Some('G')
    ensures Complement(m).Some? && Complement(Modifies(m).value) == Modifies(Complement(m).value)
  {
  }

  function FullBaseName(b: char): (r: Option<string>)
    ensures r.Some? <==> b in ['A', 'T', 'G', 'C']
  {
    match b
    case 'A' => Some("Adenine")
    case 'T' => Some("Thymine")
    case 'G' => Some("Guanine")
    case 'C' => Some("Cytosine")
    case _ => None
  }

  function PrimaryFullName(m: char): string
    requires m in PRIMARY
  {
    match m
    case 'm' => "5-Methylcytosine"
    case 'h' => "5-Hydroxymethylcytosine"
    case 'f' => "5-Formylcytosine"
    case 'c' => "5-Carboxylcytosine"
  }

  /** `_FULL_MOD_BASE_NAMES`: a complement symbol is named after the base it
      modifies and the primary modification it complements. */
  function FullModBaseName(m: char): (r: Option<string>)
    ensures r.Some? <==> m in MOD_SYMBOLS
    ensures m in MOD_SYMBOLS && m !in PRIMARY ==>
      r.value == "Guanine:" + PrimaryFullName(Complement(m).value)
  {
    if m in PRIMARY then Some(PrimaryFullName(m))
    else if m in MOD_SYMBOLS then
      Some(FullBaseName(Modifies(m).value).value + ":" + PrimaryFullName(Complement(m).value))
    else None
  }

  /** First index of `x` in `s`, as `list.index` finds it. */
  function IndexIn(s: seq<char>, x: char): (k: nat)
    requires x in s
    ensures k < |s| && s[k] == x
    ensures forall j :: 0 <= j < k ==> s[j] != x
  {
    if s[0] == x then 0 else 1 + IndexIn(s[1..], x)
  }

  /** MOD_BASE_COLOURS holds one colour per modified base and strand. */
  const PALETTE_SIZE: nat := 2 * |PRIMARY|

  /** The palette index of a modification symbol: the primary modifications
      take the first half in oxidation order, their complements the second
      half in reverse order. `None` is the KeyError or ValueError the lookup raises. */
  function ColourIndex(m: char): (k: Option<nat>)
    ensures k.Some? <==> m in MOD_SYMBOLS
    ensures k.Some? ==> k.value < PALETTE_SIZE
  {
    if m in PRIMARY then Some(IndexIn(PRIMARY, m))
    else match Complement(m)
      case None => None
      case Some(c) => if c in PRIMARY then Some(PALETTE_SIZE - IndexIn(PRIMARY, c) - 1) else None
  }

  /** `list.index` on a list without repeats finds the position. */
  lemma IndexInDistinct(s: seq<char>, k: nat)
    requires k < |s|
    requires forall i, j :: 0 <= i < j < |s| ==> s[i] != s[j]
    ensures IndexIn(s, s[k]) == k
  {
  }

  /** The palette index of each of the eight modification symbols. */
  lemma ColourIndexOf(m: char)
    requires m in MOD_SYMBOLS
    ensures ColourIndex(m) == Some(
      match m
      case 'm' => 0 case 'h' => 1 case 'f' => 2 case 'c' => 3
      case '4' => 4 case '3' => 5 case '2' => 6 case _ => 7)
  {
    if m == 'm' {
      IndexInDistinct(PRIMARY, 0);
    } else if m == 'h' {
      IndexInDistinct(PRIMARY, 1);
    } else if m == 'f' {
      IndexInDistinct(PRIMARY, 2);
    } else if m == 'c' {
      IndexInDistinct(PRIMARY, 3);
    } else if m == '1' {
      IndexInDistinct(PRIMARY, 0);
      assert Complement(m) == Some('m');
    } else if m == '2' {
      IndexInDistinct(PRIMARY, 1);
      assert Complement(m) == Some('h');
    } else if m == '3' {
      IndexInDistinct(PRIMARY, 2);
      assert Complement(m) == Some('f');
    } else {
      assert m == '4';
      IndexInDistinct(PRIMARY, 3);
      assert Complement(m) == Some('c');
    }
  }

  /** Primary modification `k` (in oxidation order) takes colour `k`, its
      complement colour `PALETTE_SIZE - 1 - k`; no two modification symbols
      share a colour. */
  lemma ColourIndexBijective()
    ensures forall k :: 0 <= k < |PRIMARY| ==>
      ColourIndex(PRIMARY[k]) == Some(k) &&
      ColourIndex(Complement(PRIMARY[k]).value) == Some(PALETTE_SIZE - 1 - k)
    ensures forall m1, m2 :: m1 in MOD_SYMBOLS && m2 in MOD_SYMBOLS && m1 != m2 ==>
      ColourIndex(m1) != ColourIndex(m2)
  {
    forall k | 0 <= k < |PRIMARY|
      ensures ColourIndex(PRIMARY[k]) == Some(k)
      ensures ColourIndex(Complement(PRIMARY[k]).value) == Some(PALETTE_SIZE - 1 - k)
    {
      ColourIndexOf(PRIMARY[k]);
      ColourIndexOf(Complement(PRIMARY[k]).value);
    }
    forall m1, m2 | m1 in MOD_SYMBOLS && m2 in MOD_SYMBOLS && m1 != m2
      ensures ColourIndex(m1) != ColourIndex(m2)
    {
      ColourIndexInjective(m1, m2);
    }
  }

  lemma ColourIndexInjective(m1: char, m2: char)
    requires m1 in MOD_SYMBOLS && m2 in MOD_SYMBOLS && m1 != m2
    ensures ColourIndex(m1) != ColourIndex(m2)
  {
    ColourIndexOf(m1);
    ColourIndexOf(m2);
  }

  /** `re.sub('[() ]', '', colour)`: drops parentheses and spaces and keeps
      every other character, in order. */
  function StripColour(s: string): (r: string)
    ensures |r| <= |s|
    ensures forall k :: 0 <= k < |r| ==> r[k] !in "() "
    ensures (forall k :: 0 <= k < |s| ==> s[k] !in "() ") ==> r == s
    ensures |s| == 1 ==> r == if s[0] in "() " then [] else s
  {
    if s == [] then []
    else (if s[0] in "() " then [] else [s[0]]) + StripColour(s[1..])
  }

  /** Stripping works character by character: together with the one-character
      case above, this fixes StripColour on every text. */
  lemma {:induction false} StripColourConcat(a: string, b: string)
    ensures StripColour(a + b) == StripColour(a) + StripColour(b)
  {
    if a != [] {
      assert (a + b)[0] == a[0] && (a + b)[1..] == a[1..] + b;
      StripColourConcat(a[1..], b);
    } else {
      assert a + b == b;
    }
  }

  const TRACK_PREFIX: string := "track name=\"Nucleobase "

  /** The description attribute of the track of symbol `m`, which names the
      modification; then comes the colour attribute. */
  const DESCRIPTION_PREFIX: string := "\" description=\"Track denoting "
  const DESCRIPTION_SUFFIX: string := " covalently modified nucleobases."
  const COLOUR_PREFIX: string := "\" color="

  /** getTrackHeader: the UCSC track line for one modification symbol.
      `palette` stands for the eight colours of MOD_BASE_COLOURS, as strings.
      The line names the symbol, describes it by its full name and gives it
      its own palette entry, stripped of brackets and spaces. */
  function TrackHeader(m: char, palette: seq<string>): (r: Option<string>)
    requires |palette| == PALETTE_SIZE
    ensures r.Some? <==> m in MOD_SYMBOLS
    ensures r.Some? ==> |r.value| > |TRACK_PREFIX| && r.value[..|TRACK_PREFIX|] == TRACK_PREFIX
    ensures r.Some? ==> r.value[|TRACK_PREFIX|] == m
    ensures r.Some? ==>
      var d := DESCRIPTION_PREFIX + FullModBaseName(m).value + DESCRIPTION_SUFFIX;
      |r.value| >= |TRACK_PREFIX| + 1 + |d| &&
      r.value[|TRACK_PREFIX| + 1 .. |TRACK_PREFIX| + 1 + |d|] == d
    ensures r.Some? ==>
      var c := COLOUR_PREFIX + StripColour(palette[ColourIndex(m).value]);
      |r.value| >= |c| && r.value[|r.value| - |c|..] == c
  {
    match ColourIndex(m)
    case None => None
    case Some(k) =>
      var name := FullModBaseName(m).value;
      var head := TRACK_PREFIX + [m];
      var d := DESCRIPTION_PREFIX + name + DESCRIPTION_SUFFIX;
      var c := COLOUR_PREFIX + StripColour(palette[k]);
      var line := head + d + c;
      assert line[..|TRACK_PREFIX|] == TRACK_PREFIX;
      assert line[|head| .. |head| + |d|] == d;
      assert line[|line| - |c|..] == c;
      Some(line)
  }

  /** The track line of `m` ends with palette entry `i`, stripped. */
  ghost predicate ColouredWith(m: char, palette: seq<string>, i: nat)
    requires |palette| == PALETTE_SIZE && i < PALETTE_SIZE
  {
    var c := COLOUR_PREFIX + StripColour(palette[i]);
    TrackHeader(m, palette).Some? &&
    |TrackHeader(m, palette).value| >= |c| &&
    TrackHeader(m, palette).value[|TrackHeader(m, palette).value| - |c|..] == c
  }

  /** Primary modification `k` and its complement colour their tracks with
      palette entries `k` and `PALETTE_SIZE - 1 - k`. */
  lemma TrackHeaderColours(palette: seq<string>, k: nat)
    requires |palette| == PALETTE_SIZE && k < |PRIMARY|
    ensures ColouredWith(PRIMARY[k], palette, k)
    ensures ColouredWith(Complement(PRIMARY[k]).value, palette, PALETTE_SIZE - 1 - k)
  {
    var m := PRIMARY[k];
    var cm := Complement(m).value;
    assert ColourIndex(m) == Some(k) && ColourIndex(cm) == Some(PALETTE_SIZE - 1 - k) by {
      ColourIndexOf(m);
      ColourIndexOf(cm);
      if k == 0 {
        assert m == 'm' && cm == '1';
      } else if k == 1 {
        assert m == 'h' && cm == '2';
      } else if k == 2 {
        assert m == 'f' && cm == '3';
      } else {
        assert m == 'c' && cm == '4';
      }
    }
    TrackColour(m, palette);
    TrackColour(cm, palette);
  }

  lemma TrackColour(m: char, palette: seq<string>)
    requires |palette| == PALETTE_SIZE && m in MOD_SYMBOLS
    ensures ColouredWith(m, palette, ColourIndex(m).value)
  {
  }

  /** A track header is never a comment line: it starts with `track`, not `#`. */
  lemma TrackHeaderNotComment(m: char, palette: seq<string>)
    requires |palette| == PALETTE_SIZE
    requires m in MOD_SYMBOLS
    ensures TrackHeader(m, palette).Some?
    ensures TrackHeader(m, palette).value[0] != '#'
    ensures TrackHeader(m, palette).value[..5] == "track"
  {
    var h := TrackHeader(m, palette).value;
    assert h[..|TRACK_PREFIX|] == TRACK_PREFIX;
    assert h[..5] == TRACK_PREFIX[..5];
  }
}
