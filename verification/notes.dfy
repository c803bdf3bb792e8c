/** The fixed note catalog of the keyboard: Pa of the lower octave (G3) up to
    Pa of the upper octave (G5), one entry per semitone, in pitch order. */
module Notes {
  import opened Wrappers

  /** Lower (mandra), middle (madhya) and upper (taar) octave. */
  datatype Octave = Mandra | Madhya | Taar

  /** One key of the keyboard: its stable id, its swara label, its Western
      pitch name, whether it is an altered (black) key, and its octave. */
  datatype Note = Note(id: string, swara: string, western: string, isBlack: bool, octave: Octave)

  /** The catalog, ordered by pitch. Lower-case `m` is natural Ma (F4) and
      upper-case `M` is sharp Ma (F#4). */
  const AllNotes: seq<Note> := [
    Note("m_P", "Pa", "G3", false, Mandra),
    Note("m_d", "dha", "G#3", true, Mandra),
    Note("m_D", "Dha", "A3", false, Mandra),
    Note("m_n", "ni", "A#3", true, Mandra),
    Note("m_N", "Ni", "B3", false, Mandra),

    Note("S", "Sa", "C4", false, Madhya),
    Note("r", "re", "C#4", true, Madhya),
    Note("R", "Re", "D4", false, Madhya),
    Note("g", "ga", "D#4", true, Madhya),
    Note("G", "Ga", "E4", false, Madhya),
    Note("m", "ma", "F4", false, Madhya),
    Note("M", "Ma", "F#4", true, Madhya),
    Note("P", "Pa", "G4", false, Madhya),
    Note("d", "dha", "G#4", true, Madhya),
    Note("D", "Dha", "A4", false, Madhya),
    Note("n", "ni", "A#4", true, Madhya),
    Note("N", "Ni", "B4", false, Madhya),

    Note("t_S", "Sa", "C5", false, Taar),
    Note("t_r", "re", "C#5", true, Taar),
    Note("t_R", "Re", "D5", false, Taar),
    Note("t_g", "ga", "D#5", true, Taar),
    Note("t_G", "Ga", "E5", false, Taar),
    Note("t_m", "ma", "F5", false, Taar),
    Note("t_M", "Ma", "F#5", true, Taar),
    Note("t_P", "Pa", "G5", false, Taar)
  ]

  /** `ns.findIndex(n => n.id === id)`: the first position holding `id`, or -1. */
  function FindIndexIn(ns: seq<Note>, id: string): (r: int)
    ensures -1 <= r < |ns|
    ensures r >= 0 ==> ns[r].id == id && forall k :: 0 <= k < r ==> ns[k].id != id
    ensures r == -1 ==> forall k :: 0 <= k < |ns| ==> ns[k].id != id
  {
    if |ns| == 0 then -1
    else if ns[0].id == id then 0
    else
      var k := FindIndexIn(ns[1..], id);
      if k == -1 then -1 else k + 1
  }

  /** The catalog position of `id`, which serves as its pitch rank; -1 for an unknown id. */
  function Rank(id: string): int {
    FindIndexIn(AllNotes, id)
  }

  /** `ALL_NOTES.find(n => n.id === id)`. */
  function Lookup(id: string): (r: Option<Note>)
    ensures r.Some? <==> exists k :: 0 <= k < |AllNotes| && AllNotes[k].id == id
    ensures r.Some? ==> r.value in AllNotes && r.value.id == id
  {
    var k := Rank(id);
    if k < 0 then None else Some(AllNotes[k])
  }

  /** The ids that appear in the catalog. */
  predicate IsCatalogId(id: string) {
    Rank(id) >= 0
  }

  /** MIDI number of a Western pitch name such as "G#3": letter, optional sharp, one octave digit. */
  function Semitone(western: string): Option<int> {
    if |western| < 2 then None
    else
      var base :=
        match western[0]
        case 'C' => 0 case 'D' => 2 case 'E' => 4 case 'F' => 5
        case 'G' => 7 case 'A' => 9 case 'B' => 11 case _ => -1;
      var sharp := if western[1] == '#' then 1 else 0;
      if base < 0 || |western| != 2 + sharp then None
      else
        var digit := western[1 + sharp];
        if '0' <= digit <= '9' then Some(12 * (digit as int - '0' as int + 1) + base + sharp)
        else None
  }

  /** The lower-octave keys sound G3 to B3. */
  lemma ChromaticMandra(i: int)
    requires 0 <= i < 5
    ensures Semitone(AllNotes[i].western) == Some(55 + i)
  {
    var w := ["G3", "G#3", "A3", "A#3", "B3"];
    assert AllNotes[i].western == w[i];
  }

  /** The middle-octave keys from Sa to shuddha Ma sound C4 to F4. */
  lemma ChromaticMadhyaLow(i: int)
    requires 5 <= i < 11
    ensures Semitone(AllNotes[i].western) == Some(55 + i)
  {
    var w := ["C4", "C#4", "D4", "D#4", "E4", "F4"];
    assert AllNotes[i].western == w[i - 5];
  }

  /** The middle-octave keys from tivra Ma to Ni sound F#4 to B4. */
  lemma ChromaticMadhyaHigh(i: int)
    requires 11 <= i < 17
    ensures Semitone(AllNotes[i].western) == Some(55 + i)
  {
    var w := ["F#4", "G4", "G#4", "A4", "A#4", "B4"];
    assert AllNotes[i].western == w[i - 11];
  }

  /** The upper-octave keys sound C5 to G5. */
  lemma ChromaticTaar(i: int)
    requires 17 <= i < 25
    ensures Semitone(AllNotes[i].western) == Some(55 + i)
  {
    var w := ["C5", "C#5", "D5", "D#5", "E5", "F5", "F#5", "G5"];
    assert AllNotes[i].western == w[i - 17];
  }

  /** The catalog has 25 keys and is chromatic: key `i` sounds MIDI note 55 + i
      (G3 is 55), so array order is pitch order. */
  lemma CatalogIsChromatic()
    ensures |AllNotes| == 25
    ensures forall i :: 0 <= i < |AllNotes| ==> Semitone(AllNotes[i].western) == Some(55 + i)
  {
    forall i | 0 <= i < |AllNotes|
      ensures Semitone(AllNotes[i].western) == Some(55 + i)
    {
      if i < 5 {
        ChromaticMandra(i);
      } else if i < 11 {
        ChromaticMadhyaLow(i);
      } else if i < 17 {
        ChromaticMadhyaHigh(i);
      } else {
        ChromaticTaar(i);
      }
    }
  }

  /** The black keys are exactly the sharps. */
  lemma BlackKeysAreSharps()
    ensures forall i :: 0 <= i < |AllNotes| ==> (AllNotes[i].isBlack <==> '#' in AllNotes[i].western)
  {
  }

  /** The pitch class (semitones above Sa) a swara letter of an id names:
      capitals are the natural swaras and tivra Ma, lower case the komal
      swaras and natural Ma; -1 for any other character. */
  function PitchClass(c: char): int {
    match c
    case 'S' => 0 case 'r' => 1 case 'R' => 2 case 'g' => 3 case 'G' => 4 case 'm' => 5
    case 'M' => 6 case 'P' => 7 case 'd' => 8 case 'D' => 9 case 'n' => 10 case 'N' => 11
    case _ => -1
  }

  /** A valid swara letter is determined by its pitch class. */
  lemma PitchClassInjective(c: char, d: char)
    requires PitchClass(c) >= 0 && PitchClass(c) == PitchClass(d)
    ensures c == d
  {
  }

  /** Keys 0 to 4 are the lower octave, 5 to 16 the middle, 17 to 24 the upper. */
  lemma CatalogOctaves()
    ensures forall i :: 0 <= i < |AllNotes| ==>
      AllNotes[i].octave == (if i < 5 then Mandra else if i < 17 then Madhya else Taar)
  {
  }

  /** Lower-octave ids are `m_` and the letter of the swara seven to eleven semitones above Sa. */
  lemma MandraIds(i: int)
    requires 0 <= i < 5
    ensures var id := AllNotes[i].id; |id| == 3 && id[0] == 'm' && id[1] == '_' && PitchClass(id[2]) == i + 7
  {
    assert AllNotes[i].id == ["m_P", "m_d", "m_D", "m_n", "m_N"][i];
  }

  /** Middle-octave ids are the bare letter of the swara `i - 5` semitones above Sa. */
  lemma MadhyaIds(i: int)
    requires 5 <= i < 17
    ensures var id := AllNotes[i].id; |id| == 1 && PitchClass(id[0]) == i - 5
  {
    if i < 11 {
      assert AllNotes[i].id == ["S", "r", "R", "g", "G", "m"][i - 5];
    } else {
      assert AllNotes[i].id == ["M", "P", "d", "D", "n", "N"][i - 11];
    }
  }

  /** Upper-octave ids are `t_` and the letter of the swara `i - 17` semitones above Sa. */
  lemma TaarIds(i: int)
    requires 17 <= i < 25
    ensures var id := AllNotes[i].id; |id| == 3 && id[0] == 't' && id[1] == '_' && PitchClass(id[2]) == i - 17
  {
    assert AllNotes[i].id == ["t_S", "t_r", "t_R", "t_g", "t_G", "t_m", "t_M", "t_P"][i - 17];
  }

  /** The id of key `i`: its octave's prefix and the letter of its pitch class. */
  lemma IdShape(i: int)
    requires 0 <= i < |AllNotes|
    ensures i < 5 ==> |AllNotes[i].id| == 3 && AllNotes[i].id[0] == 'm' && AllNotes[i].id[1] == '_' && PitchClass(AllNotes[i].id[2]) == i + 7
    ensures 5 <= i < 17 ==> |AllNotes[i].id| == 1 && PitchClass(AllNotes[i].id[0]) == i - 5
    ensures 17 <= i ==> |AllNotes[i].id| == 3 && AllNotes[i].id[0] == 't' && AllNotes[i].id[1] == '_' && PitchClass(AllNotes[i].id[2]) == i - 17
  {
    if i < 5 {
      MandraIds(i);
    } else if i < 17 {
      MadhyaIds(i);
    } else {
      TaarIds(i);
    }
  }

  /** No two keys share an id. */
  lemma CatalogIdsDistinct()
    ensures forall i, j :: 0 <= i < j < |AllNotes| ==> AllNotes[i].id != AllNotes[j].id
  {
    forall i, j | 0 <= i < j < |AllNotes|
      ensures AllNotes[i].id != AllNotes[j].id
    {
      IdShape(i);
      IdShape(j);
    }
  }

  /** Every catalog key's rank is its position. */
  lemma RankOfCatalog(i: int)
    requires 0 <= i < |AllNotes|
    ensures Rank(AllNotes[i].id) == i
  {
    CatalogIdsDistinct();
  }

  /** Two ids with the same non-negative rank are the same id. */
  lemma RankInjective(a: string, b: string)
    requires Rank(a) >= 0 && Rank(a) == Rank(b)
    ensures a == b
  {
  }

  /** Every catalog id is non-empty and holds no comma and no line break. */
  lemma CatalogIdsPlain()
    ensures forall i :: 0 <= i < |AllNotes| ==>
      |AllNotes[i].id| > 0 && ',' !in AllNotes[i].id && '\n' !in AllNotes[i].id
  {
    forall i | 0 <= i < |AllNotes|
      ensures |AllNotes[i].id| > 0 && ',' !in AllNotes[i].id && '\n' !in AllNotes[i].id
    {
      IdShape(i);
    }
  }

  /** A catalog id is non-empty and holds no comma and no line break. */
  lemma CatalogIdPlain(id: string)
    requires IsCatalogId(id)
    ensures |id| > 0 && ',' !in id && '\n' !in id
  {
    CatalogIdsPlain();
    assert AllNotes[Rank(id)].id == id;
  }
}
