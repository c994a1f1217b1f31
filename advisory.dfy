/** `suggest_activity`: a first-match-wins choice among four fixed suggestions. */
module Advisory {
  import opened Wrappers
  import opened Text
  import opened ForecastData

  /** The four suggestions, in the order the rules try them. */
  datatype Advice = SunnyWarm | Rainy | Cold | Pleasant

  const SunnyWarmText := "It's going to be sunny and warm! How about a picnic or a visit to the park?"
  const RainyText := "Looks like it might rain. Don't forget your umbrella! It's a perfect day for visiting a museum or reading a book."
  const ColdText := "Brrr, it's going to be cold! How about making a snowman, going skiing, or staying in with a hot cup of cocoa?"
  const PleasantText := "The weather looks great! You should visit this city."

  /** The text shown for each suggestion. */
  function Message(a: Advice): string {
    match a
    case SunnyWarm => SunnyWarmText
    case Rainy => RainyText
    case Cold => ColdText
    case Pleasant => PleasantText
  }

  /** The lengths of the four texts, one lemma each to keep the string literals out of other proofs. */
  lemma SunnyWarmLength() ensures |SunnyWarmText| == 75 {}
  lemma RainyLength() ensures |RainyText| == 113 {}
  lemma ColdLength() ensures |ColdText| == 109 {}
  lemma PleasantLength() ensures |PleasantText| == 52 {}

  /** Different suggestions have different texts (their lengths already differ). */
  lemma MessageInjective(a: Advice, b: Advice)
    requires a != b
    ensures Message(a) != Message(b)
  {
    SunnyWarmLength();
    RainyLength();
    ColdLength();
    PleasantLength();
  }

  /** The boolean column `df['weather_description'].str.contains(pattern, case=False)`. */
  function Matches(rs: seq<Record>, pattern: string): (bs: seq<bool>)
    ensures |bs| == |rs|
  {
    seq(|rs|, k requires 0 <= k < |rs| => ContainsIgnoringCase(rs[k].description, pattern))
  }

  /** `Series.any()`: some entry is true. */
  function Any(bs: seq<bool>): (b: bool)
    ensures b <==> exists k :: 0 <= k < |bs| && bs[k]
  {
    if bs == [] then false
    else bs[0] || Any(bs[1..])
  }

  /** Sum of the temperature column. */
  function Total(rs: seq<Record>): real {
    if rs == [] then 0.0 else rs[0].temperature + Total(rs[1..])
  }

  /** `df['temperature'].mean()`; None stands for the NaN pandas returns on an empty column. */
  function MeanTemperature(rs: seq<Record>): (m: Option<real>)
    ensures m.None? <==> rs == []
  {
    if rs == [] then None else Some(Total(rs) / |rs| as real)
  }

  /** `(avg >= 20) & (avg <= 30)`; every comparison with NaN is false. */
  predicate IsWarm(avg: Option<real>) {
    avg.Some? && 20.0 <= avg.value <= 30.0
  }

  /** `avg < 0`; false for NaN. */
  predicate IsCold(avg: Option<real>) {
    avg.Some? && avg.value < 0.0
  }

  /** The if/elif chain of `suggest_activity`, given the three `.any()` flags and the mean. */
  function Rules(sunny: bool, rainy: bool, snowy: bool, avg: Option<real>): Advice {
    if sunny && IsWarm(avg) then SunnyWarm
    else if rainy then Rainy
    else if snowy || IsCold(avg) then Cold
    else Pleasant
  }

  /** The classification step of `suggest_activity`: the three condition columns, the mean, the rules. */
  function Classify(rs: seq<Record>): Advice {
    var sunny := Matches(rs, "clear sky");
    var rainy := Matches(rs, "rain");
    var snowy := Matches(rs, "snow");
    var avg := MeanTemperature(rs);
    Rules(Any(sunny), Any(rainy), Any(snowy), avg)
  }

  /** `suggest_activity(df)`: the text of the chosen suggestion, always one of the four. */
  function SuggestActivity(rs: seq<Record>): (s: string)
    ensures s == Message(SunnyWarm) || s == Message(Rainy) || s == Message(Cold) || s == Message(Pleasant)
  {
    Message(Classify(rs))
  }

  /** Some record's description contains p, ignoring ASCII case. */
  predicate Mentions(rs: seq<Record>, p: string) {
    exists k :: 0 <= k < |rs| && ContainsIgnoringCase(rs[k].description, p)
  }

  /** There is at least one record and the mean temperature is at least lo and at most hi. */
  predicate MeanWithin(rs: seq<Record>, lo: real, hi: real) {
    rs != [] && lo <= Total(rs) / |rs| as real <= hi
  }

  /** There is at least one record and the mean temperature is below zero. */
  predicate MeanBelowZero(rs: seq<Record>) {
    rs != [] && Total(rs) / |rs| as real < 0.0
  }

  /** `.any()` of a condition column holds exactly when some description mentions the pattern. */
  lemma AnyMatches(rs: seq<Record>, p: string)
    ensures Any(Matches(rs, p)) <==> Mentions(rs, p)
  {
    var bs := Matches(rs, p);
    if Any(bs) {
      var k :| 0 <= k < |bs| && bs[k];
      assert ContainsIgnoringCase(rs[k].description, p);
    }
    if Mentions(rs, p) {
      var k :| 0 <= k < |rs| && ContainsIgnoringCase(rs[k].description, p);
      assert bs[k];
    }
  }

  /** The classification in terms of which patterns some description mentions. */
  lemma ClassifyByMentions(rs: seq<Record>)
    ensures Classify(rs) == Rules(Mentions(rs, "clear sky"), Mentions(rs, "rain"), Mentions(rs, "snow"), MeanTemperature(rs))
  {
    AnyMatches(rs, "clear sky");
    AnyMatches(rs, "rain");
    AnyMatches(rs, "snow");
  }

  /** Rule 1: the sunny and warm text exactly when some description mentions "clear sky"
      and the mean temperature lies in [20, 30]. */
  lemma SunnyWarmExactly(rs: seq<Record>)
    ensures SuggestActivity(rs) == Message(SunnyWarm) <==>
            Mentions(rs, "clear sky") && MeanWithin(rs, 20.0, 30.0)
  {
    ClassifyByMentions(rs);
    var a := Classify(rs);
    assert a == SunnyWarm <==> Mentions(rs, "clear sky") && MeanWithin(rs, 20.0, 30.0);
    if a != SunnyWarm { MessageInjective(a, SunnyWarm); }
  }

  /** Rule 2: the rain text exactly when rule 1 does not fire and some description mentions "rain". */
  lemma RainyExactly(rs: seq<Record>)
    ensures SuggestActivity(rs) == Message(Rainy) <==>
            !(Mentions(rs, "clear sky") && MeanWithin(rs, 20.0, 30.0)) && Mentions(rs, "rain")
  {
    ClassifyByMentions(rs);
    var a := Classify(rs);
    if a != Rainy { MessageInjective(a, Rainy); }
  }

  /** Rule 3: the cold text exactly when rules 1 and 2 do not fire and some description mentions
      "snow" or the mean temperature is below zero. */
  lemma ColdExactly(rs: seq<Record>)
    ensures SuggestActivity(rs) == Message(Cold) <==>
            && !(Mentions(rs, "clear sky") && MeanWithin(rs, 20.0, 30.0))
            && !Mentions(rs, "rain")
            && (Mentions(rs, "snow") || MeanBelowZero(rs))
  {
    ClassifyByMentions(rs);
    var a := Classify(rs);
    if a != Cold { MessageInjective(a, Cold); }
  }

  /** Rule 4: the generic text exactly when none of the first three rules fires. */
  lemma PleasantExactly(rs: seq<Record>)
    ensures SuggestActivity(rs) == Message(Pleasant) <==>
            && !(Mentions(rs, "clear sky") && MeanWithin(rs, 20.0, 30.0))
            && !Mentions(rs, "rain")
            && !(Mentions(rs, "snow") || MeanBelowZero(rs))
  {
    ClassifyByMentions(rs);
    var a := Classify(rs);
    if a != Pleasant { MessageInjective(a, Pleasant); }
  }

  /** With no records the mean is NaN, no rule fires and the generic text is returned. */
  lemma EmptyGivesPleasant()
    ensures SuggestActivity([]) == Message(Pleasant)
  {
    PleasantExactly([]);
  }

  /** Temperatures all at least lo add up to at least n*lo. */
  lemma {:induction false} TotalAtLeast(rs: seq<Record>, lo: real)
    requires forall k :: 0 <= k < |rs| ==> lo <= rs[k].temperature
    ensures |rs| as real * lo <= Total(rs)
  {
    if rs != [] {
      TotalAtLeast(rs[1..], lo);
      assert |rs| as real * lo == (|rs| - 1) as real * lo + lo;
    }
  }

  /** Temperatures all at most hi add up to at most n*hi. */
  lemma {:induction false} TotalAtMost(rs: seq<Record>, hi: real)
    requires forall k :: 0 <= k < |rs| ==> rs[k].temperature <= hi
    ensures Total(rs) <= |rs| as real * hi
  {
    if rs != [] {
      TotalAtMost(rs[1..], hi);
      assert |rs| as real * hi == (|rs| - 1) as real * hi + hi;
    }
  }

  /** The mean of temperatures all at least lo is at least lo. */
  lemma MeanAtLeast(rs: seq<Record>, lo: real)
    requires rs != []
    requires forall k :: 0 <= k < |rs| ==> lo <= rs[k].temperature
    ensures lo <= Total(rs) / |rs| as real
  {
    TotalAtLeast(rs, lo);
  }

  /** The mean of temperatures all at most hi is at most hi. */
  lemma MeanAtMost(rs: seq<Record>, hi: real)
    requires rs != []
    requires forall k :: 0 <= k < |rs| ==> rs[k].temperature <= hi
    ensures Total(rs) / |rs| as real <= hi
  {
    TotalAtMost(rs, hi);
  }

  /** A clear-sky forecast whose every temperature is between 20 and 30 is sunny and warm. */
  lemma ClearAndWarmThroughout(rs: seq<Record>)
    requires Mentions(rs, "clear sky")
    requires forall k :: 0 <= k < |rs| ==> 20.0 <= rs[k].temperature <= 30.0
    ensures SuggestActivity(rs) == Message(SunnyWarm)
  {
    MeanAtLeast(rs, 20.0);
    MeanAtMost(rs, 30.0);
    SunnyWarmExactly(rs);
  }

  /** Without rain, a forecast whose every temperature is at most some negative bound is cold. */
  lemma FreezingThroughout(rs: seq<Record>, hi: real)
    requires rs != [] && hi < 0.0
    requires !Mentions(rs, "rain")
    requires forall k :: 0 <= k < |rs| ==> rs[k].temperature <= hi
    ensures SuggestActivity(rs) == Message(Cold)
  {
    MeanAtMost(rs, hi);
    ColdExactly(rs);
  }

  /** The total of two lists of records is the sum of their totals. */
  lemma {:induction false} TotalConcat(a: seq<Record>, b: seq<Record>)
    ensures Total(a + b) == Total(a) + Total(b)
  {
    if a == [] {
      assert a + b == b;
    } else {
      assert (a + b)[0] == a[0];
      assert (a + b)[1..] == a[1..] + b;
      TotalConcat(a[1..], b);
    }
  }

  /** Taking out the record at position j takes one copy of it out of the multiset. */
  lemma RemoveAtMultiset(b: seq<Record>, j: nat)
    requires j < |b|
    ensures multiset(b[..j] + b[j + 1..]) == multiset(b) - multiset{b[j]}
  {
    assert b == b[..j] + [b[j]] + b[j + 1..];
  }

  /** Taking out the record at position j takes its temperature out of the total. */
  lemma RemoveAtTotal(b: seq<Record>, j: nat)
    requires j < |b|
    ensures Total(b) == Total(b[..j] + b[j + 1..]) + b[j].temperature
  {
    var pre, x, post := b[..j], [b[j]], b[j + 1..];
    assert b == pre + x + post;
    TotalConcat(pre + x, post);
    TotalConcat(pre, x);
    TotalConcat(pre, post);
    assert x[1..] == [];
  }

  /** The total does not depend on the order of the records. */
  lemma {:induction false} TotalPermutation(a: seq<Record>, b: seq<Record>)
    requires multiset(a) == multiset(b)
    ensures Total(a) == Total(b)
    decreases |a|
  {
    if a == [] {
      assert |b| == |multiset(b)|;
    } else {
      var x := a[0];
      assert a == [x] + a[1..];
      assert multiset(a[1..]) == multiset(a) - multiset{x};
      assert x in b by { assert x in multiset(b); }
      var j :| 0 <= j < |b| && b[j] == x;
      var rest := b[..j] + b[j + 1..];
      RemoveAtMultiset(b, j);
      RemoveAtTotal(b, j);
      TotalPermutation(a[1..], rest);
    }
  }

  /** Whether some description mentions p does not depend on the order of the records. */
  lemma MentionsPermutation(a: seq<Record>, b: seq<Record>, p: string)
    requires multiset(a) == multiset(b)
    ensures Mentions(a, p) <==> Mentions(b, p)
  {
    if Mentions(a, p) {
      var k :| 0 <= k < |a| && ContainsIgnoringCase(a[k].description, p);
      assert a[k] in multiset(b);
      var j :| 0 <= j < |b| && b[j] == a[k];
    }
    if Mentions(b, p) {
      var k :| 0 <= k < |b| && ContainsIgnoringCase(b[k].description, p);
      assert b[k] in multiset(a);
      var j :| 0 <= j < |a| && a[j] == b[k];
    }
  }

  /** The suggestion depends only on which records there are, not on their order. */
  lemma SuggestionIgnoresOrder(a: seq<Record>, b: seq<Record>)
    requires multiset(a) == multiset(b)
    ensures SuggestActivity(a) == SuggestActivity(b)
  {
    TotalPermutation(a, b);
    assert |a| == |multiset(a)| == |multiset(b)| == |b|;
    MentionsPermutation(a, b, "clear sky");
    MentionsPermutation(a, b, "rain");
    MentionsPermutation(a, b, "snow");
    ClassifyByMentions(a);
    ClassifyByMentions(b);
  }
}
