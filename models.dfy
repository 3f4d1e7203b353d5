/**
 * The two records the bot stores: a user's registration and one trip entry,
 * with the trip entry's validation and its thirteen-column spreadsheet row.
 */
module Models {
  import opened Wrappers
  import opened Text

  /** A registered driver; `createdAt` is an ISO 8601 UTC stamp. */
  datatype Registration = Registration(telegramUserId: int, fullName: string, createdAt: string)

  /**
   * One trip. `date`, `timeStart` and `timeEnd` hold the spreadsheet's
   * `DD.MM.YYYY` and `HH:MM` text; `project` and `address` may be absent.
   */
  datatype TripEntry = TripEntry(
    date: string,
    timeStart: string,
    timeEnd: string,
    odometerStart: int,
    odometerEnd: int,
    distanceKm: int,
    engineer: string,
    project: Option<string>,
    address: Option<string>,
    comment: string,
    createdAt: string,
    authorTgId: int,
    rowUid: string)

  datatype ValidationError = OdometerEndBelowStart

  /**
   * Constructing a `TripEntry`: the end reading may not be below the start
   * reading, the distance is always recomputed from the two readings whatever
   * was passed in, and a missing `row_uid` is filled with a fresh identifier.
   */
  function NewTripEntry(date: string, timeStart: string, timeEnd: string,
                        odometerStart: int, odometerEnd: int, distanceKm: int,
                        engineer: string, project: Option<string>, address: Option<string>,
                        comment: string, createdAt: string, authorTgId: int,
                        rowUid: Option<string>, freshUid: string): (r: Result<TripEntry, ValidationError>)
    ensures r.Failure? <==> odometerEnd < odometerStart
    ensures r.Success? ==> var e := r.value;
      && e.distanceKm == odometerEnd - odometerStart >= 0
      && e.odometerStart == odometerStart && e.odometerEnd == odometerEnd
      && e.rowUid == (if rowUid.Some? then rowUid.value else freshUid)
      && e == TripEntry(date, timeStart, timeEnd, odometerStart, odometerEnd, e.distanceKm,
                        engineer, project, address, comment, createdAt, authorTgId, e.rowUid)
  {
    if odometerEnd < odometerStart then Failure(OdometerEndBelowStart)
    else
      var uid := match rowUid case Some(u) => u case None => freshUid;
      Success(TripEntry(date, timeStart, timeEnd, odometerStart, odometerEnd, odometerEnd - odometerStart,
                        engineer, project, address, comment, createdAt, authorTgId, uid))
  }

  /** The column names, in column order A to M. */
  const Headers: seq<string> := ["date", "time_start", "time_end", "odometer_start", "odometer_end",
    "distance_km", "engineer", "project", "address", "comment", "created_at", "author_tg_id", "row_uid"]

  const CreatedAtColumn := 10
  const AuthorColumn := 11
  const RowUidColumn := 12

  lemma HeadersShape()
    ensures |Headers| == 13
    ensures forall i, j :: 0 <= i < j < |Headers| ==> Headers[i] != Headers[j]
    ensures Headers[CreatedAtColumn] == "created_at" && Headers[AuthorColumn] == "author_tg_id"
    ensures Headers[RowUidColumn] == "row_uid"
  {
  }

  function OrEmpty(o: Option<string>): string
  {
    match o
    case Some(s) => s
    case None => ""
  }

  /**
   * The text a spreadsheet cell holds for the named field of an entry: numbers
   * as `str()` writes them, an absent project or address as the empty string.
   */
  function FieldText(e: TripEntry, name: string): Option<string>
  {
    if name == "date" then Some(e.date)
    else if name == "time_start" then Some(e.timeStart)
    else if name == "time_end" then Some(e.timeEnd)
    else if name == "odometer_start" then Some(IntToString(e.odometerStart))
    else if name == "odometer_end" then Some(IntToString(e.odometerEnd))
    else if name == "distance_km" then Some(IntToString(e.distanceKm))
    else if name == "engineer" then Some(e.engineer)
    else if name == "project" then Some(OrEmpty(e.project))
    else if name == "address" then Some(OrEmpty(e.address))
    else if name == "comment" then Some(e.comment)
    else if name == "created_at" then Some(e.createdAt)
    else if name == "author_tg_id" then Some(IntToString(e.authorTgId))
    else if name == "row_uid" then Some(e.rowUid)
    else None
  }

  /** `to_sheets_row`: one cell per header, each holding that field's text. */
  function ToSheetsRow(e: TripEntry): (row: seq<string>)
    ensures |row| == |Headers|
    ensures forall i :: 0 <= i < |Headers| ==> FieldText(e, Headers[i]) == Some(row[i])
  {
    [e.date, e.timeStart, e.timeEnd, IntToString(e.odometerStart), IntToString(e.odometerEnd),
     IntToString(e.distanceKm), e.engineer, OrEmpty(e.project), OrEmpty(e.address), e.comment,
     e.createdAt, IntToString(e.authorTgId), e.rowUid]
  }

  /** Every field of an entry but the optional ones reads back from its row. */
  lemma {:induction false} RowReadsBack(e: TripEntry)
    ensures var row := ToSheetsRow(e);
      && ParseInt(row[3]) == Some(e.odometerStart)
      && ParseInt(row[4]) == Some(e.odometerEnd)
      && ParseInt(row[5]) == Some(e.distanceKm)
      && ParseInt(row[AuthorColumn]) == Some(e.authorTgId)
      && row[0] == e.date && row[1] == e.timeStart && row[2] == e.timeEnd
      && row[CreatedAtColumn] == e.createdAt && row[RowUidColumn] == e.rowUid
  {
    RowCells(e);
    IntToStringRoundTrip(e.odometerStart);
    IntToStringRoundTrip(e.odometerEnd);
    IntToStringRoundTrip(e.distanceKm);
    IntToStringRoundTrip(e.authorTgId);
  }

  /** The cells of a row, by position. */
  lemma RowCells(e: TripEntry)
    ensures var row := ToSheetsRow(e);
      && row[0] == e.date && row[1] == e.timeStart && row[2] == e.timeEnd
      && row[3] == IntToString(e.odometerStart) && row[4] == IntToString(e.odometerEnd)
      && row[5] == IntToString(e.distanceKm) && row[AuthorColumn] == IntToString(e.authorTgId)
      && row[CreatedAtColumn] == e.createdAt && row[RowUidColumn] == e.rowUid
  {
  }
}
