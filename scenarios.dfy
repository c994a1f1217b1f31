/** Worked cases of the pipeline: the rule priority on small forecasts and one row end to end. */
module Scenarios {
  import opened Wrappers
  import opened Numeric
  import opened Text
  import opened ForecastData
  import opened Normalizer
  import opened Advisory

  const Nine := DateTime(2024, 1, 1, 9, 0, 0)
  const Noon := DateTime(2024, 1, 1, 12, 0, 0)

  /** Rule 1 comes before rule 2: a clear-sky row and a light-rain row, both at 25 degrees,
      give the sunny and warm text, not the rain text. */
  lemma ClearSkyBeatsRain()
    ensures var rs := [Record(Nine, "clear sky", 25.0, 50, 3), Record(Noon, "light rain", 25.0, 50, 3)];
            SuggestActivity(rs) == Message(SunnyWarm) && SuggestActivity(rs) != Message(Rainy)
  {
    var rs := [Record(Nine, "clear sky", 25.0, 50, 3), Record(Noon, "light rain", 25.0, 50, 3)];
    assert OccursAtIgnoringCase(rs[0].description, "clear sky", 0);
    ClearAndWarmThroughout(rs);
    MessageInjective(SunnyWarm, Rainy);
  }

  /** Rule 3 fires on a snow description whatever the temperature: "snow shower" at 5 degrees is cold. */
  lemma SnowShowerIsCold()
    ensures SuggestActivity([Record(Nine, "snow shower", 5.0, 80, 4)]) == Message(Cold)
  {
    var d := "snow shower";
    var rs := [Record(Nine, d, 5.0, 80, 4)];
    assert !Mentions(rs, "clear sky") by {
      forall i ensures !OccursAtIgnoringCase(d, "clear sky", i) {
        if 0 <= i && i + 9 <= |d| {
          assert i == 0 || i == 1 || i == 2;
          assert LowerChar(d[i + 1]) != LowerChar("clear sky"[1]);
        }
      }
    }
    assert !Mentions(rs, "rain") by {
      forall i ensures !OccursAtIgnoringCase(d, "rain", i) {
        if 0 <= i && i + 4 <= |d| {
          assert i == 0 || i == 1 || i == 2 || i == 3 || i == 4 || i == 5 || i == 6 || i == 7;
          assert LowerChar(d[i]) != LowerChar("rain"[0]);
        }
      }
    }
    assert OccursAtIgnoringCase(d, "snow", 0);
    ColdExactly(rs);
  }

  /** Rule 2 comes before rule 3: "light rain and snow" below freezing gives the rain text. */
  lemma SleetIsRainy()
    ensures SuggestActivity([Record(Nine, "light rain and snow", -3.0, 90, 6)]) == Message(Rainy)
  {
    var d := "light rain and snow";
    var rs := [Record(Nine, d, -3.0, 90, 6)];
    assert rs[1..] == [];
    assert Total(rs) == -3.0;
    assert !MeanWithin(rs, 20.0, 30.0);
    assert OccursAtIgnoringCase(d, "rain", 6);
    RainyExactly(rs);
  }

  /** One complete row at 22.345 degrees, humidity 55.7 and wind 3.9, next to a row whose
      temperature is missing: the incomplete row is dropped, the temperature is rounded half to even
      to 22.34, humidity and wind speed are truncated to 55 and 3, and the suggestion is sunny and warm. */
  lemma OneRowEndToEnd()
    ensures var raw := [RawRow(Some(Nine), Some("clear sky"), Some(22.345), Some(55.7), Some(3.9)),
                        RawRow(Some(Noon), Some("few clouds"), None, Some(60.0), Some(2.0))];
            var out := Normalize(raw);
            out == [Record(Nine, "clear sky", 22.34, 55, 3)] &&
            SuggestActivity(out) == Message(SunnyWarm)
  {
    var raw := [RawRow(Some(Nine), Some("clear sky"), Some(22.345), Some(55.7), Some(3.9)),
                RawRow(Some(Noon), Some("few clouds"), None, Some(60.0), Some(2.0))];
    assert (22.345 * 100.0).Floor == 2234;
    assert RoundHalfEven(22.345 * 100.0) == 2234;
    assert Round2(22.345) == 22.34;
    assert (55.7).Floor == 55;
    assert (3.9).Floor == 3;
    assert raw[1..][1..] == [];
    assert !Complete(raw[1]);
    assert Normalize(raw[1..]) == [];
    assert NormalizeRow(raw[0]) == Record(Nine, "clear sky", 22.34, 55, 3);
    var out := Normalize(raw);
    assert out == [Record(Nine, "clear sky", 22.34, 55, 3)];
    assert OccursAtIgnoringCase(out[0].description, "clear sky", 0);
    ClearAndWarmThroughout(out);
  }
}
