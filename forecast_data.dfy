/** The rows that flow through the pipeline: the raw forecast rows and the normalised records. */
module ForecastData {
  import opened Wrappers

  /** A parsed, timezone-naive `datetime` (the fetch parses `dt_txt` before normalisation). */
  datatype DateTime = DateTime(year: int, month: int, day: int, hour: int, minute: int, second: int)

  /** One row of the DataFrame built from the fetched list; a field is None where the cell is missing. */
  datatype RawRow = RawRow(
    time: Option<DateTime>,
    description: Option<string>,
    temperature: Option<real>,
    humidity: Option<real>,
    windSpeed: Option<real>)

  /** One row after normalisation: every field present, humidity and wind speed whole numbers. */
  datatype Record = Record(
    time: DateTime,
    description: string,
    temperature: real,
    humidity: int,
    windSpeed: int)

  /** No field of the row is missing, so `dropna` keeps it. */
  predicate Complete(r: RawRow) {
    r.time.Some? && r.description.Some? && r.temperature.Some? && r.humidity.Some? && r.windSpeed.Some?
  }
}
