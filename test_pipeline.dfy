/**
 * The second copy of the speech pipeline. Its selector treats a missing or empty
 * gender as "male", and its classifier tries the male test before the female one, so
 * a name mentioning "female" lands in the male bucket.
 */
module TestPipeline {
  import opened Wrappers
  import opened Seqs
  import opened Strings
  import TtsPipeline

  type Voice = TtsPipeline.Voice

  /** The gender the selector works with: a missing or empty argument counts as "male". */
  function EffectiveGender(voiceGender: Option<string>): (g: string)
    ensures voiceGender.None? || voiceGender == Some("") ==> g == "male"
    ensures voiceGender.Some? && voiceGender.value != "" ==> g == Lower(voiceGender.value)
  {
    if voiceGender.None? || voiceGender.value == "" then "male" else Lower(voiceGender.value)
  }

  /**
   * _select_voice: after defaulting the gender, the same first-match search as the main
   * pipeline, with the same fallback to the first voice.
   */
  method SelectVoice(voices: seq<Voice>, voiceGender: Option<string>) returns (selected: Option<string>)
    ensures selected.None? <==> voices == []
    ensures TtsPipeline.FirstWanted(voices, EffectiveGender(voiceGender)) == None && voices != [] ==>
      selected == Some(voices[0].id)
    ensures forall k | TtsPipeline.FirstWanted(voices, EffectiveGender(voiceGender)) == Some(k) ::
      selected == Some(if voices[k].id != "" then voices[k].id else voices[0].id)
  {
    var gender := if voiceGender.None? || voiceGender.value == "" then "male" else voiceGender.value;
    assert Lower(gender) == EffectiveGender(voiceGender) by {
      if voiceGender.None? || voiceGender.value == "" {
        assert Lower("male") == "male";
      }
    }
    selected := TtsPipeline.SelectVoice(voices, gender);
  }

  /** The male bucket: the name mentions male or david (which takes in every "female"). */
  predicate InMaleBucket(v: Voice) {
    TtsPipeline.NamesMale(v.name)
  }

  /** The female bucket: not male, and the name mentions female or zira. */
  predicate InFemaleBucket(v: Voice) {
    !TtsPipeline.NamesMale(v.name) && TtsPipeline.NamesFemale(v.name)
  }

  /** What is left for the female bucket once the male test has run: zira, without male or david. */
  lemma FemaleBucketIsZira(v: Voice)
    requires InFemaleBucket(v)
    ensures Contains(Lower(v.name), "zira")
    ensures !Contains(Lower(v.name), "male") && !Contains(Lower(v.name), "david")
    ensures !Contains(Lower(v.name), "female")
  {
    if Contains(Lower(v.name), "female") {
      FemaleHoldsMale(Lower(v.name));
    }
  }

  /**
   * get_available_voices, male test first: a voice goes to at most one bucket, each
   * bucket keeps the input order, and every "female" name ends up among the male voices.
   */
  method AvailableVoices(voices: seq<Voice>) returns (male: seq<Voice>, female: seq<Voice>)
    ensures male == Where(voices, InMaleBucket) && female == Where(voices, InFemaleBucket)
    ensures forall v <- voices :: Contains(Lower(v.name), "female") ==> v in male && v !in female
    ensures forall v <- female ::
      && v in voices && Contains(Lower(v.name), "zira")
      && !Contains(Lower(v.name), "male") && !Contains(Lower(v.name), "david")
    ensures forall v <- male :: v in voices && TtsPipeline.NamesMale(v.name)
    ensures forall v <- voices :: (InMaleBucket(v) ==> v in male) && (InFemaleBucket(v) ==> v in female)
    ensures forall v <- male :: v !in female
    ensures IsSubsequence(male, voices) && IsSubsequence(female, voices)
    ensures |male| + |female| <= |voices|
  {
    male, female := [], [];
    for i := 0 to |voices|
      invariant male == Where(voices[..i], InMaleBucket)
      invariant female == Where(voices[..i], InFemaleBucket)
    {
      assert voices[..i + 1][..i] == voices[..i];
      var nameLower := Lower(voices[i].name);
      if Contains(nameLower, "male") || Contains(nameLower, "david") {
        male := male + [voices[i]];
      } else if Contains(nameLower, "female") || Contains(nameLower, "zira") {
        female := female + [voices[i]];
      }
    }
    assert voices[..|voices|] == voices;
    TtsPipeline.BucketFacts(voices, InMaleBucket, InFemaleBucket);
    forall v <- female
      ensures Contains(Lower(v.name), "zira") && !Contains(Lower(v.name), "male") && !Contains(Lower(v.name), "david")
    {
      FemaleBucketIsZira(v);
    }
    forall v <- voices | Contains(Lower(v.name), "female") ensures v in male && v !in female {
      FemaleHoldsMale(Lower(v.name));
    }
  }
}
