/** The fixed catalogue of neural voices the application offers, and the
    readable short name it derives from a voice id for cache file names. */
module Voices {
  import opened Wrappers
  import opened Text

  /** One entry of the voice dropdown: the label shown and the provider's id. */
  datatype Voice = Voice(displayName: string, id: string)

  function GenderWord(female: bool): string {
    if female then "Female" else "Male"
  }

  /** The shape every catalogue entry has: the label
      "<flag> <name> (<gender>, <country>)" and the id "en-<region>-<name>Neural". */
  function Entry(flag: string, name: string, female: bool, country: string, region: string): Voice {
    Voice(flag + " " + name + " (" + GenderWord(female) + ", " + country + ")", "en-" + region + "-" + name + "Neural")
  }

  /** The catalogue, in dropdown order. */
  const Catalog: seq<Voice> := [
    Voice("🇺🇸 Jenny (Female, US)", "en-US-JennyNeural"),
    Voice("🇺🇸 Guy (Male, US)", "en-US-GuyNeural"),
    Voice("🇺🇸 Aria (Female, US)", "en-US-AriaNeural"),
    Voice("🇺🇸 Eric (Male, US)", "en-US-EricNeural"),
    Voice("🇺🇸 Michelle (Female, US)", "en-US-MichelleNeural"),
    Voice("🇺🇸 Roger (Male, US)", "en-US-RogerNeural"),
    Voice("🇬🇧 Sonia (Female, UK)", "en-GB-SoniaNeural"),
    Voice("🇬🇧 Ryan (Male, UK)", "en-GB-RyanNeural"),
    Voice("🇬🇧 Libby (Female, UK)", "en-GB-LibbyNeural"),
    Voice("🇦🇺 Natasha (Female, AU)", "en-AU-NatashaNeural"),
    Voice("🇦🇺 William (Male, AU)", "en-AU-WilliamNeural"),
    Voice("🇨🇦 Clara (Female, CA)", "en-CA-ClaraNeural"),
    Voice("🇨🇦 Liam (Male, CA)", "en-CA-LiamNeural"),
    Voice("🇮🇳 Neerja (Female, IN)", "en-IN-NeerjaNeural"),
    Voice("🇮🇳 Prabhat (Male, IN)", "en-IN-PrabhatNeural")
  ]

  /** The short name returned for any id that is not a catalogue voice. */
  const FallbackShortName: string := "Voice"

  /** The first catalogue entry whose id is `id`, searching from `from`. */
  function FindVoice(id: string, from: nat := 0): (r: Option<Voice>)
    requires from <= |Catalog|
    ensures r.Some? ==> r.value in Catalog[from..] && r.value.id == id
    ensures r.None? ==> forall i :: from <= i < |Catalog| ==> Catalog[i].id != id
    decreases |Catalog| - from
  {
    if from == |Catalog| then None
    else if Catalog[from].id == id then Some(Catalog[from])
    else FindVoice(id, from + 1)
  }

  /** The gender word taken from a display label: "Female" is checked before
      "Male", and a label with neither gives the empty string. */
  function GenderOf(displayName: string): (r: string)
    ensures r == "Female" || r == "Male" || r == ""
    ensures r == "Female" <==> Contains(displayName, "Female")
    ensures r == "" <==> !Contains(displayName, "Female") && !Contains(displayName, "Male")
  {
    if Contains(displayName, "Female") then "Female"
    else if Contains(displayName, "Male") then "Male"
    else ""
  }

  /** `get_voice_short_name`: for "en-US-JennyNeural" this is
      "JennyFemaleUS" — the third dash part without "Neural", the gender, then
      the second dash part. Ids with fewer than three parts, and ids not in
      the catalogue, give "Voice". */
  function ShortName(voiceId: string): (r: string)
    ensures |SplitChar(voiceId, '-')| < 3 ==> r == FallbackShortName
    ensures FindVoice(voiceId).None? ==> r == FallbackShortName
  {
    var parts := SplitChar(voiceId, '-');
    if |parts| >= 3 then
      match FindVoice(voiceId)
      case Some(v) => ReplaceAll(parts[2], "Neural", "") + GenderOf(v.displayName) + parts[1]
      case None => FallbackShortName
    else FallbackShortName
  }

  /** The short names of the catalogue voices, in catalogue order, written out
      by hand as an independent reference. */
  const ExpectedShortNames: seq<string> := [
    "JennyFemaleUS", "GuyMaleUS", "AriaFemaleUS", "EricMaleUS",
    "MichelleFemaleUS", "RogerMaleUS", "SoniaFemaleGB", "RyanMaleGB",
    "LibbyFemaleGB", "NatashaFemaleAU", "WilliamMaleAU", "ClaraFemaleCA",
    "LiamMaleCA", "NeerjaFemaleIN", "PrabhatMaleIN"
  ]

  /** A short name that is safe inside a cache file name and splits off at
      the last dash. */
  predicate ShortNameShape(name: string) {
    '-' !in name && '/' !in name && '\\' !in name && ':' !in name && name != []
  }

  /** Only ASCII letters. */
  predicate Letters(s: string) {
    forall i :: 0 <= i < |s| ==> 'A' <= s[i] <= 'Z' || 'a' <= s[i] <= 'z'
  }

  lemma LettersShaped(s: string)
    requires Letters(s)
    ensures '-' !in s && '/' !in s && '\\' !in s && ':' !in s
    ensures s != [] ==> ShortNameShape(s)
  {
  }

  lemma LettersConcat(a: string, b: string)
    requires Letters(a) && Letters(b)
    ensures Letters(a + b)
  {
    forall i | 0 <= i < |a + b|
      ensures 'A' <= (a + b)[i] <= 'Z' || 'a' <= (a + b)[i] <= 'z'
    {
      if i < |a| {
        assert (a + b)[i] == a[i];
      } else {
        assert (a + b)[i] == b[i - |a|];
      }
    }
  }

  lemma IdsDistinct()
    ensures forall i, j :: 0 <= i < j < |Catalog| ==> Catalog[i].id != Catalog[j].id
  {
  }

  /** The lookup finds exactly the entry whose id was asked for. */
  lemma {:induction false} FindVoiceAt(k: nat, from: nat := 0)
    requires from <= k < |Catalog|
    ensures FindVoice(Catalog[k].id, from) == Some(Catalog[k])
    decreases k - from
  {
    IdsDistinct();
    if from < k {
      FindVoiceAt(k, from + 1);
    }
  }

  lemma GenderFemale(displayName: string, at: nat)
    requires OccursAt(displayName, "Female", at)
    ensures GenderOf(displayName) == "Female"
  {
    OccursContains(displayName, "Female", at);
  }

  lemma GenderMale(displayName: string, at: nat)
    requires 'F' !in displayName && OccursAt(displayName, "Male", at)
    ensures GenderOf(displayName) == "Male"
  {
    MissingHeadNotContains(displayName, "Female");
    OccursContains(displayName, "Male", at);
  }

  /** An id of the form "en-<region>-<name>Neural" splits into three parts. */
  lemma IdParts(region: string, name: string)
    requires '-' !in region && '-' !in name
    ensures SplitChar("en-" + region + "-" + name + "Neural", '-') == ["en", region, name + "Neural"]
  {
    var last := name + "Neural";
    var parts := ["en", region, last];
    var joined := "en" + "-" + (region + "-" + last);
    assert JoinChar(parts, '-') == joined by {
      assert JoinChar([last], '-') == last;
      assert [region, last][1..] == [last];
      assert JoinChar([region, last], '-') == region + "-" + last;
      assert parts[1..] == [region, last];
    }
    assert "en-" + region + "-" + name + "Neural" == joined by {
      assert "en-" == "en" + "-";
    }
    assert forall i :: 0 <= i < |parts| ==> '-' !in parts[i] by {
      assert '-' !in last;
    }
    SplitJoin(parts, '-');
  }

  /** The short name of a catalogue entry whose id is "en-<region>-<name>Neural". */
  lemma ShortNameOfEntry(k: nat, region: string, name: string)
    requires k < |Catalog|
    requires Catalog[k].id == "en-" + region + "-" + name + "Neural"
    requires '-' !in region && '-' !in name
    requires |name| >= 3 && name[2] != 'u' && 'N' !in name[1..]
    ensures ShortName(Catalog[k].id) == name + GenderOf(Catalog[k].displayName) + region
  {
    FindVoiceAt(k);
    ShortNameOfId(Catalog[k].id, Catalog[k], region, name);
  }

  /** The short name of an id "en-<region>-<name>Neural" that the lookup
      finds as `v`. */
  lemma ShortNameOfId(id: string, v: Voice, region: string, name: string)
    requires id == "en-" + region + "-" + name + "Neural"
    requires FindVoice(id) == Some(v)
    requires '-' !in region && '-' !in name
    requires |name| >= 3 && name[2] != 'u' && 'N' !in name[1..]
    ensures ShortName(id) == name + GenderOf(v.displayName) + region
  {
    IdParts(region, name);
    NameStem(name);
  }

  /** Removing "Neural" from "<name>Neural" leaves the name, when no
      "Neural" starts inside the name. */
  lemma NameStem(name: string)
    requires |name| >= 3 && name[2] != 'u' && 'N' !in name[1..]
    ensures ReplaceAll(name + "Neural", "Neural", "") == name
  {
    var x := name + "Neural";
    forall i | 0 <= i < |name|
      ensures !OccursAt(x, "Neural", i)
    {
      if i == 0 {
        assert x[2] == name[2];
        OccursChar(x, "Neural", 0, 2);
      } else {
        assert x[i] == name[1..][i - 1];
        OccursChar(x, "Neural", i, 0);
      }
    }
    ReplaceAllSuffix(name, "Neural", "");
    assert name + "" == name;
  }

  /** An occurrence of `pat` at `i` fixes the character at `i + d`. */
  lemma OccursChar(s: string, pat: string, i: nat, d: nat)
    requires d < |pat|
    ensures OccursAt(s, pat, i) ==> s[i + d] == pat[d]
  {
    if OccursAt(s, pat, i) {
      assert s[i..i + |pat|][d] == s[i + d];
    }
  }

  /** The short name of catalogue entry `k` is the `k`-th reference name. */
  lemma CatalogShortNames()
    ensures forall k :: 0 <= k < |Catalog| ==> ShortName(Catalog[k].id) == ExpectedShortNames[k]
  {
    forall k | 0 <= k < |Catalog|
      ensures ShortName(Catalog[k].id) == ExpectedShortNames[k]
    {
      CatalogShortName(k);
    }
  }

  /** The gender word read back from an entry's label is the one it was
      built with. */
  lemma EntryGender(flag: string, name: string, female: bool, country: string)
    requires !female ==> 'F' !in flag && 'F' !in name && 'F' !in country
    ensures GenderOf(Entry(flag, name, female, country, "").displayName) == GenderWord(female)
  {
    var g := GenderWord(female);
    var head := flag + " " + name + " (";
    var tail := ", " + country + ")";
    var d := Entry(flag, name, female, country, "").displayName;
    assert d == head + g + tail;
    assert OccursAt(d, g, |head|) by {
      assert d[|head|..|head| + |g|] == g;
    }
    if female {
      GenderFemale(d, |head|);
    } else {
      assert 'F' !in head by {
        NotInConcat('F', flag, " ");
        NotInConcat('F', flag + " ", name);
        NotInConcat('F', flag + " " + name, " (");
      }
      assert 'F' !in tail by {
        NotInConcat('F', ", ", country);
        NotInConcat('F', ", " + country, ")");
      }
      NotInConcat('F', head, g);
      NotInConcat('F', head + g, tail);
      GenderMale(d, |head|);
    }
  }

  lemma PartsShaped(name: string, female: bool, region: string)
    requires Letters(name) && Letters(region) && name != []
    ensures ShortNameShape(name + GenderWord(female) + region)
  {
    var g := GenderWord(female);
    assert Letters(g);
    LettersConcat(name, g);
    LettersConcat(name + g, region);
    LettersShaped(name + g + region);
  }

  /** Entry `k`'s short name from the parts its label and id are made of. */
  lemma EntryShortName(k: nat, flag: string, name: string, female: bool, country: string, region: string)
    requires k < |Catalog|
    requires Catalog[k].id == Entry(flag, name, female, country, region).id
    requires Catalog[k].displayName == Entry(flag, name, female, country, region).displayName
    requires Letters(name) && Letters(region)
    requires |name| >= 3 && name[2] != 'u' && 'N' !in name[1..]
    requires !female ==> 'F' !in flag && 'F' !in name && 'F' !in country
    requires ExpectedShortNames[k] == name + GenderWord(female) + region
    ensures ShortName(Catalog[k].id) == ExpectedShortNames[k]
    ensures ShortNameShape(ExpectedShortNames[k])
  {
    EntryGender(flag, name, female, country);
    assert Catalog[k].displayName == Entry(flag, name, female, country, "").displayName;
    LettersShaped(name);
    LettersShaped(region);
    ShortNameOfEntry(k, region, name);
    PartsShaped(name, female, region);
  }

  // One `IdOf`, `LabelOf` and `ShortNameOf` lemma per catalogue voice: each
  // literal fact is proved on its own, away from `Catalog`, which keeps every
  // solver query small.

  lemma IdOfJenny()
    ensures Entry("🇺🇸", "Jenny", true, "US", "US").id == "en-US-JennyNeural"
  {
  }

  lemma LabelOfJenny()
    ensures Entry("🇺🇸", "Jenny", true, "US", "US").displayName == "🇺🇸 Jenny (Female, US)"
  {
  }

  lemma ShortNameOfJenny()
    ensures ShortName(Catalog[0].id) == ExpectedShortNames[0]
    ensures ShortNameShape(ExpectedShortNames[0])
  {
    IdOfJenny();
    LabelOfJenny();
    EntryShortName(0, "🇺🇸", "Jenny", true, "US", "US");
  }

  lemma IdOfGuy()
    ensures Entry("🇺🇸", "Guy", false, "US", "US").id == "en-US-GuyNeural"
  {
  }

  lemma LabelOfGuy()
    ensures Entry("🇺🇸", "Guy", false, "US", "US").displayName == "🇺🇸 Guy (Male, US)"
  {
  }

  lemma ShortNameOfGuy()
    ensures ShortName(Catalog[1].id) == ExpectedShortNames[1]
    ensures ShortNameShape(ExpectedShortNames[1])
  {
    IdOfGuy();
    LabelOfGuy();
    EntryShortName(1, "🇺🇸", "Guy", false, "US", "US");
  }

  lemma IdOfAria()
    ensures Entry("🇺🇸", "Aria", true, "US", "US").id == "en-US-AriaNeural"
  {
  }

  lemma LabelOfAria()
    ensures Entry("🇺🇸", "Aria", true, "US", "US").displayName == "🇺🇸 Aria (Female, US)"
  {
  }

  lemma ShortNameOfAria()
    ensures ShortName(Catalog[2].id) == ExpectedShortNames[2]
    ensures ShortNameShape(ExpectedShortNames[2])
  {
    IdOfAria();
    LabelOfAria();
    EntryShortName(2, "🇺🇸", "Aria", true, "US", "US");
  }

  lemma IdOfEric()
    ensures Entry("🇺🇸", "Eric", false, "US", "US").id == "en-US-EricNeural"
  {
  }

  lemma LabelOfEric()
    ensures Entry("🇺🇸", "Eric", false, "US", "US").displayName == "🇺🇸 Eric (Male, US)"
  {
  }

  lemma ShortNameOfEric()
    ensures ShortName(Catalog[3].id) == ExpectedShortNames[3]
    ensures ShortNameShape(ExpectedShortNames[3])
  {
    IdOfEric();
    LabelOfEric();
    EntryShortName(3, "🇺🇸", "Eric", false, "US", "US");
  }

  lemma IdOfMichelle()
    ensures Entry("🇺🇸", "Michelle", true, "US", "US").id == "en-US-MichelleNeural"
  {
  }

  lemma LabelOfMichelle()
    ensures Entry("🇺🇸", "Michelle", true, "US", "US").displayName == "🇺🇸 Michelle (Female, US)"
  {
  }

  lemma ShortNameOfMichelle()
    ensures ShortName(Catalog[4].id) == ExpectedShortNames[4]
    ensures ShortNameShape(ExpectedShortNames[4])
  {
    IdOfMichelle();
    LabelOfMichelle();
    EntryShortName(4, "🇺🇸", "Michelle", true, "US", "US");
  }

  lemma IdOfRoger()
    ensures Entry("🇺🇸", "Roger", false, "US", "US").id == "en-US-RogerNeural"
  {
  }

  lemma LabelOfRoger()
    ensures Entry("🇺🇸", "Roger", false, "US", "US").displayName == "🇺🇸 Roger (Male, US)"
  {
  }

  lemma ShortNameOfRoger()
    ensures ShortName(Catalog[5].id) == ExpectedShortNames[5]
    ensures ShortNameShape(ExpectedShortNames[5])
  {
    IdOfRoger();
    LabelOfRoger();
    EntryShortName(5, "🇺🇸", "Roger", false, "US", "US");
  }

  lemma IdOfSonia()
    ensures Entry("🇬🇧", "Sonia", true, "UK", "GB").id == "en-GB-SoniaNeural"
  {
  }

  lemma LabelOfSonia()
    ensures Entry("🇬🇧", "Sonia", true, "UK", "GB").displayName == "🇬🇧 Sonia (Female, UK)"
  {
  }

  lemma ShortNameOfSonia()
    ensures ShortName(Catalog[6].id) == ExpectedShortNames[6]
    ensures ShortNameShape(ExpectedShortNames[6])
  {
    IdOfSonia();
    LabelOfSonia();
    EntryShortName(6, "🇬🇧", "Sonia", true, "UK", "GB");
  }

  lemma IdOfRyan()
    ensures Entry("🇬🇧", "Ryan", false, "UK", "GB").id == "en-GB-RyanNeural"
  {
  }

  lemma LabelOfRyan()
    ensures Entry("🇬🇧", "Ryan", false, "UK", "GB").displayName == "🇬🇧 Ryan (Male, UK)"
  {
  }

  lemma ShortNameOfRyan()
    ensures ShortName(Catalog[7].id) == ExpectedShortNames[7]
    ensures ShortNameShape(ExpectedShortNames[7])
  {
    IdOfRyan();
    LabelOfRyan();
    EntryShortName(7, "🇬🇧", "Ryan", false, "UK", "GB");
  }

  lemma IdOfLibby()
    ensures Entry("🇬🇧", "Libby", true, "UK", "GB").id == "en-GB-LibbyNeural"
  {
  }

  lemma LabelOfLibby()
    ensures Entry("🇬🇧", "Libby", true, "UK", "GB").displayName == "🇬🇧 Libby (Female, UK)"
  {
  }

  lemma ShortNameOfLibby()
    ensures ShortName(Catalog[8].id) == ExpectedShortNames[8]
    ensures ShortNameShape(ExpectedShortNames[8])
  {
    IdOfLibby();
    LabelOfLibby();
    EntryShortName(8, "🇬🇧", "Libby", true, "UK", "GB");
  }

  lemma IdOfNatasha()
    ensures Entry("🇦🇺", "Natasha", true, "AU", "AU").id == "en-AU-NatashaNeural"
  {
  }

  lemma LabelOfNatasha()
    ensures Entry("🇦🇺", "Natasha", true, "AU", "AU").displayName == "🇦🇺 Natasha (Female, AU)"
  {
  }

  lemma ShortNameOfNatasha()
    ensures ShortName(Catalog[9].id) == ExpectedShortNames[9]
    ensures ShortNameShape(ExpectedShortNames[9])
  {
    IdOfNatasha();
    LabelOfNatasha();
    EntryShortName(9, "🇦🇺", "Natasha", true, "AU", "AU");
  }

  lemma IdOfWilliam()
    ensures Entry("🇦🇺", "William", false, "AU", "AU").id == "en-AU-WilliamNeural"
  {
  }

  lemma LabelOfWilliam()
    ensures Entry("🇦🇺", "William", false, "AU", "AU").displayName == "🇦🇺 William (Male, AU)"
  {
  }

  lemma ShortNameOfWilliam()
    ensures ShortName(Catalog[10].id) == ExpectedShortNames[10]
    ensures ShortNameShape(ExpectedShortNames[10])
  {
    IdOfWilliam();
    LabelOfWilliam();
    EntryShortName(10, "🇦🇺", "William", false, "AU", "AU");
  }

  lemma IdOfClara()
    ensures Entry("🇨🇦", "Clara", true, "CA", "CA").id == "en-CA-ClaraNeural"
  {
  }

  lemma LabelOfClara()
    ensures Entry("🇨🇦", "Clara", true, "CA", "CA").displayName == "🇨🇦 Clara (Female, CA)"
  {
  }

  lemma ShortNameOfClara()
    ensures ShortName(Catalog[11].id) == ExpectedShortNames[11]
    ensures ShortNameShape(ExpectedShortNames[11])
  {
    IdOfClara();
    LabelOfClara();
    EntryShortName(11, "🇨🇦", "Clara", true, "CA", "CA");
  }

  lemma IdOfLiam()
    ensures Entry("🇨🇦", "Liam", false, "CA", "CA").id == "en-CA-LiamNeural"
  {
  }

  lemma LabelOfLiam()
    ensures Entry("🇨🇦", "Liam", false, "CA", "CA").displayName == "🇨🇦 Liam (Male, CA)"
  {
  }

  lemma ShortNameOfLiam()
    ensures ShortName(Catalog[12].id) == ExpectedShortNames[12]
    ensures ShortNameShape(ExpectedShortNames[12])
  {
    IdOfLiam();
    LabelOfLiam();
    EntryShortName(12, "🇨🇦", "Liam", false, "CA", "CA");
  }

  lemma IdOfNeerja()
    ensures Entry("🇮🇳", "Neerja", true, "IN", "IN").id == "en-IN-NeerjaNeural"
  {
  }

  lemma LabelOfNeerja()
    ensures Entry("🇮🇳", "Neerja", true, "IN", "IN").displayName == "🇮🇳 Neerja (Female, IN)"
  {
  }

  lemma ShortNameOfNeerja()
    ensures ShortName(Catalog[13].id) == ExpectedShortNames[13]
    ensures ShortNameShape(ExpectedShortNames[13])
  {
    IdOfNeerja();
    LabelOfNeerja();
    EntryShortName(13, "🇮🇳", "Neerja", true, "IN", "IN");
  }

  lemma IdOfPrabhat()
    ensures Entry("🇮🇳", "Prabhat", false, "IN", "IN").id == "en-IN-PrabhatNeural"
  {
  }

  lemma LabelOfPrabhat()
    ensures Entry("🇮🇳", "Prabhat", false, "IN", "IN").displayName == "🇮🇳 Prabhat (Male, IN)"
  {
  }

  lemma ShortNameOfPrabhat()
    ensures ShortName(Catalog[14].id) == ExpectedShortNames[14]
    ensures ShortNameShape(ExpectedShortNames[14])
  {
    IdOfPrabhat();
    LabelOfPrabhat();
    EntryShortName(14, "🇮🇳", "Prabhat", false, "IN", "IN");
  }

  lemma CatalogShortName(k: nat)
    requires k < |Catalog|
    ensures ShortName(Catalog[k].id) == ExpectedShortNames[k]
    ensures ShortNameShape(ExpectedShortNames[k])
  {
    if k == 0 { ShortNameOfJenny(); }
    else if k == 1 { ShortNameOfGuy(); }
    else if k == 2 { ShortNameOfAria(); }
    else if k == 3 { ShortNameOfEric(); }
    else if k == 4 { ShortNameOfMichelle(); }
    else if k == 5 { ShortNameOfRoger(); }
    else if k == 6 { ShortNameOfSonia(); }
    else if k == 7 { ShortNameOfRyan(); }
    else if k == 8 { ShortNameOfLibby(); }
    else if k == 9 { ShortNameOfNatasha(); }
    else if k == 10 { ShortNameOfWilliam(); }
    else if k == 11 { ShortNameOfClara(); }
    else if k == 12 { ShortNameOfLiam(); }
    else if k == 13 { ShortNameOfNeerja(); }
    else { ShortNameOfPrabhat(); }
  }

  /** `get_voice_short_name` against the hand-written table: a catalogue id
      gets its table entry, anything else gets "Voice". */
  lemma ShortNameCharacterised(voiceId: string)
    ensures forall k :: 0 <= k < |Catalog| && Catalog[k].id == voiceId ==> ShortName(voiceId) == ExpectedShortNames[k]
    ensures (forall k :: 0 <= k < |Catalog| ==> Catalog[k].id != voiceId) ==> ShortName(voiceId) == FallbackShortName
    ensures |SplitChar(voiceId, '-')| < 3 ==> ShortName(voiceId) == FallbackShortName
  {
    CatalogShortNames();
  }

  /** Distinct catalogue voices have distinct short names. */
  lemma ShortNamesDistinct()
    ensures forall i, j :: 0 <= i < j < |Catalog| ==> ShortName(Catalog[i].id) != ShortName(Catalog[j].id)
  {
    CatalogShortNames();
    ExpectedShortNamesDistinct();
  }

  lemma ExpectedShortNamesDistinct()
    ensures forall i, j :: 0 <= i < j < |ExpectedShortNames| ==> ExpectedShortNames[i] != ExpectedShortNames[j]
  {
    var e := ExpectedShortNames;
    assert e[0][0] == 'J' && e[1][0] == 'G' && e[2][0] == 'A' && e[3][0] == 'E' && e[4][0] == 'M';
    assert e[5][0] == 'R' && e[6][0] == 'S' && e[7][0] == 'R' && e[8][0] == 'L' && e[9][0] == 'N';
    assert e[10][0] == 'W' && e[11][0] == 'C' && e[12][0] == 'L' && e[13][0] == 'N' && e[14][0] == 'P';
    assert e[5][1] != e[7][1] && e[8][2] != e[12][2] && e[9][1] != e[13][1];
  }

  /** Every short name is a table entry or the fallback. */
  lemma ShortNameRange(voiceId: string)
    ensures ShortName(voiceId) == FallbackShortName
         || exists k :: 0 <= k < |Catalog| && ShortName(voiceId) == ExpectedShortNames[k]
  {
    var parts := SplitChar(voiceId, '-');
    if |parts| >= 3 && FindVoice(voiceId).Some? {
      var v := FindVoice(voiceId).value;
      var k :| 0 <= k < |Catalog| && Catalog[k] == v;
      CatalogShortName(k);
      assert ShortName(voiceId) == ExpectedShortNames[k];
    }
  }

  /** No short name is empty or holds a dash, a colon or a path separator. */
  lemma ShortNameShaped(voiceId: string)
    ensures ShortNameShape(ShortName(voiceId))
  {
    var parts := SplitChar(voiceId, '-');
    if |parts| >= 3 && FindVoice(voiceId).Some? {
      var v := FindVoice(voiceId).value;
      var k :| 0 <= k < |Catalog| && Catalog[k] == v;
      CatalogShortName(k);
    } else {
      assert Letters(FallbackShortName);
      LettersShaped(FallbackShortName);
    }
  }
}
