/** `preprocess_hourly_weather`: drop incomplete rows, round temperature, truncate humidity and wind speed. */
module Normalizer {
  import opened Wrappers
  import opened Numeric
  import opened ForecastData

  /** The error the source raises: a DataFrame built from an empty list has no `time` column. */
  datatype PreprocessError = MissingColumn(name: string)

  /** The column conversions applied to one complete row. */
  function NormalizeRow(r: RawRow): (rec: Record)
    requires Complete(r)
    ensures rec.time == r.time.value && rec.description == r.description.value
    ensures IsHundredth(rec.temperature)
    ensures r.temperature.value - 0.005 <= rec.temperature <= r.temperature.value + 0.005
    ensures 0.0 <= r.humidity.value ==> 0.0 <= r.humidity.value - rec.humidity as real < 1.0
    ensures 0.0 <= r.windSpeed.value ==> 0.0 <= r.windSpeed.value - rec.windSpeed as real < 1.0
  {
    Record(r.time.value, r.description.value, Round2(r.temperature.value),
           Trunc(r.humidity.value), Trunc(r.windSpeed.value))
  }

  /** The specification of the normaliser: the complete rows, converted, in their original order. */
  function Normalize(rows: seq<RawRow>): (out: seq<Record>)
    ensures |out| <= |rows|
  {
    if rows == [] then []
    else (if Complete(rows[0]) then [NormalizeRow(rows[0])] else []) + Normalize(rows[1..])
  }

  /** Normalising one more row at the end adds at most that row's conversion at the end. */
  lemma {:induction false} NormalizeSnoc(rows: seq<RawRow>, r: RawRow)
    ensures Normalize(rows + [r]) == Normalize(rows) + (if Complete(r) then [NormalizeRow(r)] else [])
  {
    if rows != [] {
      assert (rows + [r])[1..] == rows[1..] + [r];
      NormalizeSnoc(rows[1..], r);
    }
  }

  /** `preprocess_hourly_weather` as a loop over the rows. */
  method Preprocess(rows: seq<RawRow>) returns (res: Result<seq<Record>, PreprocessError>)
    ensures rows == [] ==> res == Failure(MissingColumn("time"))
    ensures rows != [] ==> res == Success(Normalize(rows))
  {
    if |rows| == 0 {
      return Failure(MissingColumn("time"));
    }
    var out: seq<Record> := [];
    var i := 0;
    while i < |rows|
      invariant 0 <= i <= |rows|
      invariant out == Normalize(rows[..i])
    {
      var r := rows[i];
      if Complete(r) {
        out := out + [NormalizeRow(r)];
      }
      NormalizeSnoc(rows[..i], r);
      assert rows[..i + 1] == rows[..i] + [r];
      i := i + 1;
    }
    assert rows[..i] == rows;
    return Success(out);
  }

  /** The positions, from i on, of the rows that `dropna` keeps, in increasing order. */
  function CompleteIndicesFrom(rows: seq<RawRow>, i: nat): (idx: seq<nat>)
    requires i <= |rows|
    ensures forall k :: 0 <= k < |idx| ==> i <= idx[k] < |rows| && Complete(rows[idx[k]])
    ensures forall k, l :: 0 <= k < l < |idx| ==> idx[k] < idx[l]
    ensures forall j :: i <= j < |rows| && Complete(rows[j]) ==> j in idx
    decreases |rows| - i
  {
    if i == |rows| then []
    else (if Complete(rows[i]) then [i] else []) + CompleteIndicesFrom(rows, i + 1)
  }

  /** Normalising rows[i..] converts exactly the rows at CompleteIndicesFrom(rows, i), in that order. */
  lemma {:induction false} NormalizeFrom(rows: seq<RawRow>, i: nat)
    requires i <= |rows|
    ensures var idx := CompleteIndicesFrom(rows, i);
            |Normalize(rows[i..])| == |idx| &&
            forall k :: 0 <= k < |idx| ==> Normalize(rows[i..])[k] == NormalizeRow(rows[idx[k]])
    decreases |rows| - i
  {
    if i < |rows| {
      assert rows[i..][1..] == rows[i + 1..];
      NormalizeFrom(rows, i + 1);
    }
  }

  /** The output is the complete rows of the input, each converted, in their original relative order:
      out[k] comes from input row idx[k], the idx are increasing, and every complete row is among them. */
  lemma NormalizeSelectsCompleteRowsInOrder(rows: seq<RawRow>)
    ensures var idx := CompleteIndicesFrom(rows, 0);
            var out := Normalize(rows);
            && |out| == |idx|
            && (forall k :: 0 <= k < |out| ==> idx[k] < |rows| && Complete(rows[idx[k]]) && out[k] == NormalizeRow(rows[idx[k]]))
            && (forall k, l :: 0 <= k < l < |idx| ==> idx[k] < idx[l])
            && (forall j :: 0 <= j < |rows| && Complete(rows[j]) ==> j in idx)
  {
    NormalizeFrom(rows, 0);
    assert rows[0..] == rows;
  }

  /** When no row has a missing field, every row is kept, position for position. */
  lemma {:induction false} NormalizeKeepsCompleteRows(rows: seq<RawRow>)
    requires forall j :: 0 <= j < |rows| ==> Complete(rows[j])
    ensures |Normalize(rows)| == |rows|
    ensures forall j :: 0 <= j < |rows| ==> Normalize(rows)[j] == NormalizeRow(rows[j])
  {
    if rows != [] {
      NormalizeKeepsCompleteRows(rows[1..]);
    }
  }

  /** A row with a missing field never reaches the output; with none complete, nothing does. */
  lemma {:induction false} NormalizeDropsIncompleteRows(rows: seq<RawRow>)
    requires forall j :: 0 <= j < |rows| ==> !Complete(rows[j])
    ensures Normalize(rows) == []
  {
    if rows != [] {
      NormalizeDropsIncompleteRows(rows[1..]);
    }
  }

  /** A normalised record read back as a raw row (the DataFrame fed to the normaliser again). */
  function ToRaw(rec: Record): (r: RawRow)
    ensures Complete(r)
  {
    RawRow(Some(rec.time), Some(rec.description), Some(rec.temperature),
           Some(rec.humidity as real), Some(rec.windSpeed as real))
  }

  /** A normalised record set read back as raw rows. */
  function ToRawRows(recs: seq<Record>): (rows: seq<RawRow>)
    ensures |rows| == |recs|
  {
    seq(|recs|, k requires 0 <= k < |recs| => ToRaw(recs[k]))
  }

  /** A record whose temperature is already in hundredths converts back to itself. */
  lemma NormalizeRowOfRecord(rec: Record)
    requires IsHundredth(rec.temperature)
    ensures NormalizeRow(ToRaw(rec)) == rec
  {
    Round2OfHundredth(rec.temperature);
    TruncOfInt(rec.humidity);
    TruncOfInt(rec.windSpeed);
  }

  /** Normalising already normalised data changes nothing. */
  lemma NormalizeIdempotent(rows: seq<RawRow>)
    ensures Normalize(ToRawRows(Normalize(rows))) == Normalize(rows)
  {
    var out := Normalize(rows);
    NormalizeSelectsCompleteRowsInOrder(rows);
    var again := ToRawRows(out);
    assert forall j :: 0 <= j < |again| ==> again[j] == ToRaw(out[j]);
    NormalizeKeepsCompleteRows(again);
    var out' := Normalize(again);
    assert |out'| == |out|;
    forall k | 0 <= k < |out|
      ensures out'[k] == out[k]
    {
      assert out'[k] == NormalizeRow(again[k]);
      assert again[k] == ToRaw(out[k]);
      NormalizeRowOfRecord(out[k]);
    }
    assert out' == out;
  }
}
