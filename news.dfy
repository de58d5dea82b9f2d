/** The news table that the cleaning, topic and timing scripts load, extend
    with a column in place, and save for the next script. */
module News {
  import opened Wrappers

  /** An hour of the day, as `DatetimeIndex.hour` returns it. */
  type Hour = h: int | 0 <= h < 24

  /** A UTC timestamp, already decoded into a day number and an hour of that day. */
  datatype Stamp = Stamp(day: int, hour: Hour)

  /** One row of the news table, indexed by its timestamp. A column that is
      null in this row, or not yet added to the table, is `None`; `extra` holds
      the columns of the raw file that no script reads. */
  datatype NewsRecord = NewsRecord(
    stamp: Stamp,
    headline: Option<string>,
    publisher: Option<string>,
    extra: map<string, string>,
    publisherDomain: Option<string>,
    nmfTopicId: Option<nat>,
    publicationHourUtc: Option<Hour>)

  /** A pandas DataFrame of news rows, in index order. Tables come from the
      files the scripts read, so the model never creates one. */
  class NewsTable {
    var rows: seq<NewsRecord>
  }
}
