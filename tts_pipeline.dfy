/**
 * The speech pipeline's own text helpers and its voice handling. The speech engine is
 * replaced by the list of voices it reports; choosing a voice returns the id that would
 * be handed to the engine instead of setting it.
 */
module TtsPipeline {
  import opened Wrappers
  import opened Seqs
  import opened Strings

  /** A voice as the engine reports it. */
  datatype Voice = Voice(id: string, name: string)

  /** A document handed to the placeholder processor: text, or bytes and what UTF-8 decoding makes of them. */
  datatype FileContent = TextContent(text: string) | ByteContent(decoded: Option<string>)

  const DecodeError: string := "Error: Could not decode file content"

  /** The placeholder process_text: the input without leading or trailing whitespace. */
  function ProcessText(text: string): (r: string)
    ensures IsStripOf(r, text)
    ensures Strip(r) == r
  {
    StripIdempotent(text);
    Strip(text)
  }

  /**
   * The placeholder process_document: bytes that do not decode give the decode error;
   * anything else is returned stripped.
   */
  function ProcessDocument(content: FileContent): (r: string)
    ensures content.ByteContent? && content.decoded.None? ==> r == DecodeError
    ensures content.TextContent? ==> IsStripOf(r, content.text)
    ensures content.ByteContent? && content.decoded.Some? ==> IsStripOf(r, content.decoded.value)
  {
    match content
    case TextContent(text) => Strip(text)
    case ByteContent(None) => DecodeError
    case ByteContent(Some(text)) => Strip(text)
  }

  /** The lowercased name mentions a female voice. */
  predicate NamesFemale(name: string) {
    Contains(Lower(name), "female") || Contains(Lower(name), "zira")
  }

  /** The lowercased name mentions a male voice. */
  predicate NamesMale(name: string) {
    Contains(Lower(name), "male") || Contains(Lower(name), "david")
  }

  /** The selector's test for one voice, given the lowercased gender: only "female" and "male" accept any. */
  predicate Wanted(gender: string, name: string)
    ensures Wanted(gender, name) ==> gender == "female" || gender == "male"
  {
    (gender == "female" && NamesFemale(name)) || (gender == "male" && NamesMale(name))
  }

  /** A name that mentions "female" passes the male test too. */
  lemma FemaleNameIsMale(name: string)
    requires Contains(Lower(name), "female")
    ensures NamesMale(name)
  {
    FemaleHoldsMale(Lower(name));
  }

  /** The index of the first voice the selector accepts, if any. */
  function FirstWanted(voices: seq<Voice>, gender: string): (k: Option<nat>)
    ensures k.Some? ==> k.value < |voices| && Wanted(gender, voices[k.value].name)
    ensures k.Some? ==> forall j | 0 <= j < k.value :: !Wanted(gender, voices[j].name)
    ensures k.None? ==> forall j | 0 <= j < |voices| :: !Wanted(gender, voices[j].name)
    decreases |voices|
  {
    if voices == [] then None
    else if Wanted(gender, voices[0].name) then Some(0)
    else match FirstWanted(voices[1..], gender)
      case None => None
      case Some(k) => Some(k + 1)
  }

  /** A gender other than "male" and "female" accepts no voice. */
  lemma OtherGenderWantsNone(voices: seq<Voice>, gender: string)
    requires gender != "male" && gender != "female"
    ensures FirstWanted(voices, gender) == None
  {
  }

  /**
   * _select_voice: the id of the first voice whose name passes the test for the
   * lowercased gender, else (also when that id is empty) the first voice's id. With no
   * voices at all, reading the first voice fails: the result is None.
   */
  method SelectVoice(voices: seq<Voice>, voiceGender: string) returns (selected: Option<string>)
    ensures selected.None? <==> voices == []
    ensures FirstWanted(voices, Lower(voiceGender)) == None && voices != [] ==> selected == Some(voices[0].id)
    ensures forall k | FirstWanted(voices, Lower(voiceGender)) == Some(k) ::
      selected == Some(if voices[k].id != "" then voices[k].id else voices[0].id)
  {
    var gender := Lower(voiceGender);
    var found: Option<string> := None;
    var i := 0;
    while i < |voices|
      invariant 0 <= i <= |voices|
      invariant found == None
      invariant forall j | 0 <= j < i :: !Wanted(gender, voices[j].name)
    {
      var name := Lower(voices[i].name);
      if gender == "female" && (Contains(name, "female") || Contains(name, "zira")) {
        found := Some(voices[i].id);
        break;
      } else if gender == "male" && (Contains(name, "male") || Contains(name, "david")) {
        found := Some(voices[i].id);
        break;
      }
      i := i + 1;
    }
    if found.None? || found.value == "" {
      if voices == [] {
        return None;
      }
      selected := Some(voices[0].id);
    } else {
      selected := found;
    }
  }

  /** The female bucket: the name mentions female or zira. */
  predicate InFemaleBucket(v: Voice) {
    NamesFemale(v.name)
  }

  /** The male bucket: not female, and the name mentions male or david. */
  predicate InMaleBucket(v: Voice) {
    !NamesFemale(v.name) && NamesMale(v.name)
  }

  /**
   * get_available_voices: the female test first, then the male test; a voice goes to at
   * most one bucket, and each bucket keeps the input order.
   */
  method AvailableVoices(voices: seq<Voice>) returns (male: seq<Voice>, female: seq<Voice>)
    ensures female == Where(voices, InFemaleBucket) && male == Where(voices, InMaleBucket)
    ensures forall v <- female :: v in voices && NamesFemale(v.name)
    ensures forall v <- male :: v in voices && NamesMale(v.name) && !NamesFemale(v.name)
    ensures forall v <- voices :: (NamesFemale(v.name) ==> v in female) && (InMaleBucket(v) ==> v in male)
    ensures forall v <- male :: v !in female
    ensures IsSubsequence(male, voices) && IsSubsequence(female, voices)
    ensures |male| + |female| <= |voices|
  {
    male, female := [], [];
    for i := 0 to |voices|
      invariant female == Where(voices[..i], InFemaleBucket)
      invariant male == Where(voices[..i], InMaleBucket)
    {
      assert voices[..i + 1][..i] == voices[..i];
      var nameLower := Lower(voices[i].name);
      if Contains(nameLower, "female") || Contains(nameLower, "zira") {
        female := female + [voices[i]];
      } else if Contains(nameLower, "male") || Contains(nameLower, "david") {
        male := male + [voices[i]];
      }
    }
    assert voices[..|voices|] == voices;
    BucketFacts(voices, InMaleBucket, InFemaleBucket);
  }

  /** What the bucket filters give, for any two filters no voice passes together. */
  lemma BucketFacts(voices: seq<Voice>, inMale: Voice -> bool, inFemale: Voice -> bool)
    requires forall i | 0 <= i < |voices| :: !(inMale(voices[i]) && inFemale(voices[i]))
    ensures forall v <- Where(voices, inFemale) :: v in voices && inFemale(v)
    ensures forall v <- Where(voices, inMale) :: v in voices && inMale(v)
    ensures forall v <- voices :: (inFemale(v) ==> v in Where(voices, inFemale)) && (inMale(v) ==> v in Where(voices, inMale))
    ensures IsSubsequence(Where(voices, inMale), voices) && IsSubsequence(Where(voices, inFemale), voices)
    ensures |Where(voices, inMale)| + |Where(voices, inFemale)| <= |voices|
  {
    WhereSatisfies(voices, inFemale);
    WhereSatisfies(voices, inMale);
    WhereKeepsAll(voices, inFemale);
    WhereKeepsAll(voices, inMale);
    WhereIsSubsequence(voices, inMale);
    WhereIsSubsequence(voices, inFemale);
    WhereDisjointSize(voices, inMale, inFemale);
  }
}
