/**
 * The spreadsheet behind the bot: a list of rows of cells (columns A to M),
 * row 1 holding the headers. The Google Sheets service is modelled by the
 * `rows` it would return for the range `A:M`; whether a write reaches the
 * service is a parameter.
 */
module SheetsClient {
  import opened Wrappers
  import opened Text
  import opened TimeUtils
  import opened Models

  type Row = seq<string>
  type RowDict = map<string, string>

  /** `dict(zip(headers, row))`: one key per header that has a cell. */
  function ZipHeaders(row: Row): (d: RowDict)
    ensures forall i :: 0 <= i < |Headers| && i < |row| ==> Headers[i] in d && d[Headers[i]] == row[i]
    ensures d.Keys == set i | 0 <= i < |Headers| && i < |row| :: Headers[i]
  {
    HeadersShape();
    map i | 0 <= i < |Headers| && i < |row| :: Headers[i] := row[i]
  }

  /** What a stored entry's row reads back as, field by field. */
  lemma {:induction false} StoredRowFields(e: TripEntry)
    ensures var d := ZipHeaders(ToSheetsRow(e));
      forall i :: 0 <= i < |Headers| ==> Headers[i] in d && FieldText(e, Headers[i]) == Some(d[Headers[i]])
  {
    var row := ToSheetsRow(e);
    var d := ZipHeaders(row);
    forall i | 0 <= i < |Headers|
      ensures Headers[i] in d && FieldText(e, Headers[i]) == Some(d[Headers[i]])
    {
      assert d[Headers[i]] == row[i];
    }
  }

  // ---------------------------------------------------------------- header

  /** `ensure_header`: row 1 becomes the header row unless it already is. */
  function WithHeader(rows: seq<Row>): (r: seq<Row>)
    ensures |r| >= 1 && r[0] == Headers
    ensures |r| == if rows == [] then 1 else |rows|
    ensures forall i :: 1 <= i < |rows| ==> r[i] == rows[i]
  {
    if rows == [] then [Headers]
    else if rows[0] != Headers then [Headers] + rows[1..]
    else rows
  }

  lemma WithHeaderIdempotent(rows: seq<Row>)
    ensures WithHeader(WithHeader(rows)) == WithHeader(rows)
  {
  }

  // ---------------------------------------------------------------- reading the newest rows

  /** The rows of at least thirteen cells; shorter ones are skipped when listing. */
  predicate IsFull(row: Row)
  {
    |row| >= |Headers|
  }

  function Keep(row: Row): (r: seq<RowDict>)
    ensures |r| <= 1
  {
    if IsFull(row) then [ZipHeaders(row)] else []
  }

  /** The full rows of `w`, as dictionaries, the bottom-most first. */
  function NewestFirst(w: seq<Row>): (r: seq<RowDict>)
    ensures |r| <= |w|
  {
    if w == [] then [] else Keep(w[|w| - 1]) + NewestFirst(w[..|w| - 1])
  }

  /** A row added at the top of a window comes out last. */
  lemma {:induction false} NewestFirstCons(x: Row, w: seq<Row>)
    ensures NewestFirst([x] + w) == NewestFirst(w) + Keep(x)
    decreases |w|
  {
    var xw := [x] + w;
    if w == [] {
      assert xw[..0] == [];
      assert NewestFirst(xw) == Keep(x) + NewestFirst([]);
    } else {
      var w' := w[..|w| - 1];
      assert xw[..|xw| - 1] == [x] + w';
      assert xw[|xw| - 1] == w[|w| - 1];
      assert NewestFirst(xw) == Keep(w[|w| - 1]) + NewestFirst([x] + w');
      NewestFirstCons(x, w');
      assert NewestFirst(w) == Keep(w[|w| - 1]) + NewestFirst(w');
    }
  }

  /**
   * Where `rows[-limit:] if len(rows) > limit else rows` starts, Python slicing
   * included: a zero limit keeps every row and a negative one drops the first
   * `-limit` rows.
   */
  function WindowStart(n: nat, limit: int): (start: nat)
    ensures start <= n
    ensures limit > 0 ==> n - start == (if n > limit then limit else n)
  {
    if n <= limit then 0
    else if limit > 0 then n - limit
    else if limit == 0 then 0
    else if -limit < n then -limit
    else n
  }

  /** `get_last_rows`: the full rows among the newest `limit` data rows, newest first. */
  function LastRows(sheet: seq<Row>, limit: int): seq<RowDict>
  {
    if |sheet| <= 1 then []
    else
      var data := sheet[1..];
      NewestFirst(data[WindowStart(|data|, limit)..])
  }

  /** At most `limit` rows come back, and never the header row. */
  lemma LastRowsBound(sheet: seq<Row>, limit: int)
    ensures limit > 0 ==> |LastRows(sheet, limit)| <= limit
    ensures |sheet| >= 1 ==> |LastRows(sheet, limit)| <= |sheet| - 1
  {
  }

  /**
   * The first sheet position `get_last_rows` looks at: past the header row, and
   * at the start of the newest `limit` data rows.
   */
  function LastRowsFrom(sheet: seq<Row>, limit: int): (lo: nat)
    ensures lo <= |sheet|
    ensures |sheet| >= 1 ==> lo >= 1
    ensures |sheet| >= 1 && limit > 0 ==> |sheet| - lo == if |sheet| - 1 > limit then limit else |sheet| - 1
  {
    if |sheet| <= 1 then |sheet| else 1 + WindowStart(|sheet| - 1, limit)
  }

  /** The positions of the full rows among `sheet[lo..hi]`, bottom-most first. */
  function FullPositions(sheet: seq<Row>, lo: nat, hi: nat): (js: seq<nat>)
    requires lo <= hi <= |sheet|
    ensures forall k :: 0 <= k < |js| ==> lo <= js[k] < hi
    decreases hi - lo
  {
    if hi == lo then []
    else
      var rest := FullPositions(sheet, lo, hi - 1);
      if IsFull(sheet[hi - 1]) then [hi - 1] + rest else rest
  }

  /** Only full rows of the stretch are listed. */
  lemma {:induction false} FullPositionsFull(sheet: seq<Row>, lo: nat, hi: nat)
    requires lo <= hi <= |sheet|
    ensures forall k :: 0 <= k < |FullPositions(sheet, lo, hi)| ==> IsFull(sheet[FullPositions(sheet, lo, hi)[k]])
    decreases hi - lo
  {
    if hi > lo {
      var rest := FullPositions(sheet, lo, hi - 1);
      FullPositionsFull(sheet, lo, hi - 1);
      var js := FullPositions(sheet, lo, hi);
      if IsFull(sheet[hi - 1]) {
        assert js == [hi - 1] + rest;
        forall k | 0 <= k < |js| ensures IsFull(sheet[js[k]]) {
          if k > 0 {
            assert js[k] == rest[k - 1];
            assert IsFull(sheet[rest[k - 1]]);
          }
        }
      }
    }
  }

  /** The positions are listed bottom-most first. */
  lemma {:induction false} FullPositionsDescending(sheet: seq<Row>, lo: nat, hi: nat)
    requires lo <= hi <= |sheet|
    ensures forall k, k' :: 0 <= k < k' < |FullPositions(sheet, lo, hi)| ==>
      FullPositions(sheet, lo, hi)[k] > FullPositions(sheet, lo, hi)[k']
    decreases hi - lo
  {
    if hi > lo {
      var rest := FullPositions(sheet, lo, hi - 1);
      FullPositionsDescending(sheet, lo, hi - 1);
      var js := FullPositions(sheet, lo, hi);
      if IsFull(sheet[hi - 1]) {
        assert js == [hi - 1] + rest;
        forall k, k' | 0 <= k < k' < |js| ensures js[k] > js[k'] {
          assert js[k'] == rest[k' - 1] < hi - 1;
          if k > 0 {
            assert js[k] == rest[k - 1];
            assert rest[k - 1] > rest[k' - 1];
          }
        }
      }
    }
  }

  /** Every full row of the stretch is listed. */
  lemma {:induction false} FullPositionsComplete(sheet: seq<Row>, lo: nat, hi: nat)
    requires lo <= hi <= |sheet|
    ensures forall j :: lo <= j < hi && IsFull(sheet[j]) ==> j in FullPositions(sheet, lo, hi)
    decreases hi - lo
  {
    if hi > lo {
      var rest := FullPositions(sheet, lo, hi - 1);
      FullPositionsComplete(sheet, lo, hi - 1);
      var js := FullPositions(sheet, lo, hi);
      if IsFull(sheet[hi - 1]) {
        assert js == [hi - 1] + rest;
        forall j | lo <= j < hi - 1 && IsFull(sheet[j]) ensures j in js {
          var i :| 0 <= i < |rest| && rest[i] == j;
          assert js[i + 1] == j;
        }
      }
    }
  }

  /** Listing a stretch of the sheet gives the dictionaries of its full rows, bottom-most first. */
  lemma {:induction false} NewestFirstPositions(sheet: seq<Row>, lo: nat, hi: nat)
    requires lo <= hi <= |sheet|
    ensures var r, js := NewestFirst(sheet[lo..hi]), FullPositions(sheet, lo, hi);
      |r| == |js| && forall k :: 0 <= k < |r| ==> r[k] == ZipHeaders(sheet[js[k]])
    decreases hi - lo
  {
    if hi > lo {
      var w := sheet[lo..hi];
      assert w[..|w| - 1] == sheet[lo..hi - 1];
      assert w[|w| - 1] == sheet[hi - 1];
      var older, rest := NewestFirst(sheet[lo..hi - 1]), FullPositions(sheet, lo, hi - 1);
      NewestFirstPositions(sheet, lo, hi - 1);
      var r, js := NewestFirst(w), FullPositions(sheet, lo, hi);
      assert r == Keep(sheet[hi - 1]) + older;
      if IsFull(sheet[hi - 1]) {
        assert js == [hi - 1] + rest;
        forall k | 0 <= k < |r| ensures r[k] == ZipHeaders(sheet[js[k]]) {
          if k > 0 {
            assert r[k] == older[k - 1] && js[k] == rest[k - 1];
          }
        }
      } else {
        assert r == older && js == rest;
      }
    }
  }

  /**
   * What `get_last_rows` returns: the full rows among the newest `limit` data
   * rows, never the header row, each as its dictionary, bottom-most first, and
   * every such row.
   */
  lemma LastRowsContent(sheet: seq<Row>, limit: int)
    ensures var r, lo, js := LastRows(sheet, limit), LastRowsFrom(sheet, limit), FullPositions(sheet, LastRowsFrom(sheet, limit), |sheet|);
      && |r| == |js|
      && (forall k :: 0 <= k < |r| ==> r[k] == ZipHeaders(sheet[js[k]]))
      && (forall k :: 0 <= k < |js| ==> lo <= js[k] < |sheet| && IsFull(sheet[js[k]]))
      && (forall k, k' :: 0 <= k < k' < |js| ==> js[k] > js[k'])
      && (forall j :: lo <= j < |sheet| && IsFull(sheet[j]) ==> j in js)
  {
    var lo := LastRowsFrom(sheet, limit);
    NewestFirstPositions(sheet, lo, |sheet|);
    FullPositionsFull(sheet, lo, |sheet|);
    FullPositionsDescending(sheet, lo, |sheet|);
    FullPositionsComplete(sheet, lo, |sheet|);
    if |sheet| > 1 {
      var data := sheet[1..];
      assert data[WindowStart(|data|, limit)..] == sheet[lo..|sheet|];
    }
  }

  /** Right after a full row is appended, it is the first row `get_last_rows` returns. */
  lemma LastRowsAfterAppend(sheet: seq<Row>, row: Row, limit: int)
    requires |sheet| >= 1 && IsFull(row) && limit >= 1
    ensures |LastRows(sheet + [row], limit)| >= 1 && LastRows(sheet + [row], limit)[0] == ZipHeaders(row)
  {
    var data := (sheet + [row])[1..];
    assert data == sheet[1..] + [row];
    var w := data[WindowStart(|data|, limit)..];
    assert w[|w| - 1] == row;
  }

  // ---------------------------------------------------------------- finding rows

  /** A row `find_row_by_uid` accepts: thirteen cells, the identifier and the author's id as text. */
  predicate UidMatch(row: Row, rowUid: string, authorTgId: int)
  {
    |row| >= 13 && row[RowUidColumn] == rowUid && row[AuthorColumn] == IntToString(authorTgId)
  }

  function FindFrom(sheet: seq<Row>, i: nat, rowUid: string, authorTgId: int): (r: Option<(int, Row)>)
    requires 1 <= i <= |sheet|
    ensures r.Some? ==> i + 1 <= r.value.0 <= |sheet| && r.value.1 == sheet[r.value.0 - 1]
                        && UidMatch(r.value.1, rowUid, authorTgId)
                        && forall j :: i <= j < r.value.0 - 1 ==> !UidMatch(sheet[j], rowUid, authorTgId)
    ensures r.None? ==> forall j :: i <= j < |sheet| ==> !UidMatch(sheet[j], rowUid, authorTgId)
    decreases |sheet| - i
  {
    if i == |sheet| then None
    else if UidMatch(sheet[i], rowUid, authorTgId) then Some((i + 1, sheet[i]))
    else FindFrom(sheet, i + 1, rowUid, authorTgId)
  }

  /**
   * `find_row_by_uid`: the 1-based number and the cells of the topmost data row
   * carrying the identifier and the author; the header row is never a match.
   */
  function FindByUid(sheet: seq<Row>, rowUid: string, authorTgId: int): (r: Option<(int, Row)>)
    ensures r.Some? ==> 2 <= r.value.0 <= |sheet| && r.value.1 == sheet[r.value.0 - 1]
                        && UidMatch(r.value.1, rowUid, authorTgId)
                        && forall j :: 1 <= j < r.value.0 - 1 ==> !UidMatch(sheet[j], rowUid, authorTgId)
    ensures r.None? <==> forall j :: 1 <= j < |sheet| ==> !UidMatch(sheet[j], rowUid, authorTgId)
  {
    if |sheet| <= 1 then None else FindFrom(sheet, 1, rowUid, authorTgId)
  }

  /** A row `get_last_user_entry` accepts: at least twelve cells, the author's id in column L. */
  predicate AuthorMatch(row: Row, authorTgId: int)
  {
    |row| >= 12 && row[AuthorColumn] == IntToString(authorTgId)
  }

  function LastAuthorIndex(sheet: seq<Row>, authorTgId: int): (r: Option<nat>)
    ensures r.Some? ==> 1 <= r.value < |sheet| && AuthorMatch(sheet[r.value], authorTgId)
                        && forall j :: r.value < j < |sheet| ==> !AuthorMatch(sheet[j], authorTgId)
    ensures r.None? ==> forall j :: 1 <= j < |sheet| ==> !AuthorMatch(sheet[j], authorTgId)
    decreases |sheet|
  {
    if |sheet| <= 1 then None
    else if AuthorMatch(sheet[|sheet| - 1], authorTgId) then Some(|sheet| - 1)
    else LastAuthorIndex(sheet[..|sheet| - 1], authorTgId)
  }

  /** The bottom-most row of the author is the one the walk up from the bottom stops at. */
  lemma LastAuthorIndexAt(sheet: seq<Row>, j: nat, authorTgId: int)
    requires 1 <= j < |sheet| && AuthorMatch(sheet[j], authorTgId)
    requires forall k :: j < k < |sheet| ==> !AuthorMatch(sheet[k], authorTgId)
    ensures LastUserEntry(sheet, authorTgId) == Some(ZipHeaders(sheet[j]))
  {
    var r := LastAuthorIndex(sheet, authorTgId);
    assert r.Some?;
    assert r.value == j;
  }

  /** With no row of the author, there is no last entry. */
  lemma LastAuthorIndexNone(sheet: seq<Row>, authorTgId: int)
    requires forall k :: 1 <= k < |sheet| ==> !AuthorMatch(sheet[k], authorTgId)
    ensures LastUserEntry(sheet, authorTgId) == None
  {
  }

  /** `get_last_user_entry`: the bottom-most data row of the author, as a dictionary. */
  function LastUserEntry(sheet: seq<Row>, authorTgId: int): (r: Option<RowDict>)
    ensures r.Some? <==> exists j :: 1 <= j < |sheet| && AuthorMatch(sheet[j], authorTgId)
  {
    match LastAuthorIndex(sheet, authorTgId)
    case Some(j) => Some(ZipHeaders(sheet[j]))
    case None => None
  }

  /** Right after the author's entry is appended, it is the author's last entry. */
  lemma LastUserEntryAfterAppend(sheet: seq<Row>, e: TripEntry)
    requires |sheet| >= 1
    ensures LastUserEntry(sheet + [ToSheetsRow(e)], e.authorTgId) == Some(ZipHeaders(ToSheetsRow(e)))
  {
  }

  // ---------------------------------------------------------------- writing rows

  /**
   * The sheet after writing `row` over row number `n` (1-based): the row is
   * replaced, or the sheet grows with empty rows up to it.
   */
  function UpdatedSheet(sheet: seq<Row>, n: int, row: Row): (r: seq<Row>)
    requires n >= 1
    ensures |r| == if n <= |sheet| then |sheet| else n
    ensures r[n - 1] == row
    ensures forall j :: 0 <= j < |sheet| && j != n - 1 ==> r[j] == sheet[j]
    ensures forall j :: |sheet| <= j < n - 1 ==> r[j] == []
  {
    if n <= |sheet| then sheet[n - 1 := row]
    else sheet + seq(n - 1 - |sheet|, _ => []) + [row]
  }

  /**
   * Rewriting the row `find_row_by_uid` found with an entry that keeps its
   * identifier and author leaves that row findable under the same number.
   */
  lemma EditKeepsRowFindable(sheet: seq<Row>, e: TripEntry)
    requires FindByUid(sheet, e.rowUid, e.authorTgId).Some?
    ensures var n := FindByUid(sheet, e.rowUid, e.authorTgId).value.0;
      FindByUid(UpdatedSheet(sheet, n, ToSheetsRow(e)), e.rowUid, e.authorTgId) == Some((n, ToSheetsRow(e)))
  {
    var n := FindByUid(sheet, e.rowUid, e.authorTgId).value.0;
    var s' := UpdatedSheet(sheet, n, ToSheetsRow(e));
    var r := FindByUid(s', e.rowUid, e.authorTgId);
    assert UidMatch(s'[n - 1], e.rowUid, e.authorTgId);
  }

  // ---------------------------------------------------------------- the duplicate check

  function Lookup(d: RowDict, key: string, default: string): string
  {
    if key in d then d[key] else default
  }

  /** A row of the same author stamped less than 30 seconds away from `newStamp`. */
  predicate IsDupRow(d: RowDict, newStamp: Stamp, authorTgId: int)
    requires Valid(newStamp.at)
  {
    && ParseInt(Lookup(d, "author_tg_id", "0")) == Some(authorTgId)
    && var stamp := ParseStamp(Lookup(d, "created_at", ""));
    && stamp.Some?
    && var diff := StampDiff(newStamp, stamp.value);
    && diff.Some? && -30 < diff.value < 30
  }

  predicate AuthorsParse(rows: seq<RowDict>)
  {
    forall k :: 0 <= k < |rows| ==> ParseInt(Lookup(rows[k], "author_tg_id", "0")).Some?
  }

  /** What one step of the duplicate scan makes of a row. */
  datatype Verdict = StopScan | DupFound | NextRow

  /**
   * One step of the loop of `_check_duplicate`: an author cell that is not an
   * integer ends the check with "no duplicate"; a row of the same author whose
   * stamp is less than 30 seconds away is a duplicate; a row whose stamp does
   * not read back, or that mixes naive and aware stamps, is passed over.
   */
  function RowVerdict(d: RowDict, newStamp: Stamp, authorTgId: int): (v: Verdict)
    requires Valid(newStamp.at)
    ensures v == StopScan <==> ParseInt(Lookup(d, "author_tg_id", "0")).None?
    ensures v == DupFound <==> IsDupRow(d, newStamp, authorTgId)
  {
    var author := ParseInt(Lookup(d, "author_tg_id", "0"));
    if author.None? then StopScan
    else if author.value != authorTgId then NextRow
    else
      var stamp := ParseStamp(Lookup(d, "created_at", ""));
      if stamp.None? then NextRow
      else
        var diff := StampDiff(newStamp, stamp.value);
        if diff.Some? && -30 < diff.value < 30 then DupFound else NextRow
  }

  /** The verdict on each of `rows`, in order. */
  function Verdicts(rows: seq<RowDict>, newStamp: Stamp, authorTgId: int): (vs: seq<Verdict>)
    requires Valid(newStamp.at)
    ensures |vs| == |rows|
    ensures forall k :: 0 <= k < |rows| ==> vs[k] == RowVerdict(rows[k], newStamp, authorTgId)
  {
    seq(|rows|, k requires 0 <= k < |rows| => RowVerdict(rows[k], newStamp, authorTgId))
  }

  /** The loop of `_check_duplicate`, on the verdicts of the rows it walks. */
  function Scan(vs: seq<Verdict>): (dup: bool)
  {
    if vs == [] then false
    else
      match vs[0]
      case StopScan => false
      case DupFound => true
      case NextRow => Scan(vs[1..])
  }

  /** The loop of `_check_duplicate` over the newest rows. */
  function ScanDup(rows: seq<RowDict>, newStamp: Stamp, authorTgId: int): (dup: bool)
    requires Valid(newStamp.at)
  {
    Scan(Verdicts(rows, newStamp, authorTgId))
  }

  /**
   * The scan reports a duplicate exactly when some row is found a duplicate
   * and every row before it is passed over.
   */
  lemma {:induction false} ScanMeaning(vs: seq<Verdict>)
    ensures Scan(vs) <==> exists k :: 0 <= k < |vs| && vs[k] == DupFound && forall j :: 0 <= j < k ==> vs[j] == NextRow
  {
    if vs != [] {
      var rest := vs[1..];
      ScanMeaning(rest);
      if Scan(vs) && vs[0] == NextRow {
        var k :| 0 <= k < |rest| && rest[k] == DupFound && forall j :: 0 <= j < k ==> rest[j] == NextRow;
        assert vs[k + 1] == DupFound;
        forall j | 0 <= j < k + 1 ensures vs[j] == NextRow {
          if j > 0 { assert vs[j] == rest[j - 1]; }
        }
      }
      if exists k :: 0 <= k < |vs| && vs[k] == DupFound && forall j :: 0 <= j < k ==> vs[j] == NextRow {
        var k :| 0 <= k < |vs| && vs[k] == DupFound && forall j :: 0 <= j < k ==> vs[j] == NextRow;
        if k > 0 {
          assert vs[0] == NextRow && rest[k - 1] == DupFound;
          forall j | 0 <= j < k - 1 ensures rest[j] == NextRow {
            assert rest[j] == vs[j + 1];
          }
        }
      }
    }
  }

  /** Where no verdict stops the scan, any duplicate is reported. */
  lemma {:induction false} ScanFindsAny(vs: seq<Verdict>, k: nat)
    requires forall j :: 0 <= j < |vs| ==> vs[j] != StopScan
    requires k < |vs| && vs[k] == DupFound
    ensures Scan(vs)
    decreases k
  {
    if k > 0 && vs[0] != DupFound {
      var rest := vs[1..];
      assert rest[k - 1] == vs[k];
      forall j | 0 <= j < |rest| ensures rest[j] != StopScan {
        assert rest[j] == vs[j + 1];
      }
      ScanFindsAny(rest, k - 1);
    }
  }

  /**
   * A duplicate is reported only for a row of the same author less than 30
   * seconds away, and, as long as every author cell is an integer, for every
   * such row.
   */
  lemma ScanDupMeaning(rows: seq<RowDict>, newStamp: Stamp, authorTgId: int)
    requires Valid(newStamp.at)
    ensures ScanDup(rows, newStamp, authorTgId) ==> exists k :: 0 <= k < |rows| && IsDupRow(rows[k], newStamp, authorTgId)
    ensures AuthorsParse(rows) ==>
      (ScanDup(rows, newStamp, authorTgId) <==> exists k :: 0 <= k < |rows| && IsDupRow(rows[k], newStamp, authorTgId))
  {
    var vs := Verdicts(rows, newStamp, authorTgId);
    ScanMeaning(vs);
    if ScanDup(rows, newStamp, authorTgId) {
      var k :| 0 <= k < |vs| && vs[k] == DupFound && forall j :: 0 <= j < k ==> vs[j] == NextRow;
      assert IsDupRow(rows[k], newStamp, authorTgId);
    }
    if AuthorsParse(rows) && exists k :: 0 <= k < |rows| && IsDupRow(rows[k], newStamp, authorTgId) {
      var k :| 0 <= k < |rows| && IsDupRow(rows[k], newStamp, authorTgId);
      assert vs[k] == DupFound;
      forall j | 0 <= j < |vs| ensures vs[j] != StopScan {
        assert ParseInt(Lookup(rows[j], "author_tg_id", "0")).Some?;
      }
      ScanFindsAny(vs, k);
    }
  }

  /** `_check_duplicate`: the entry's own stamp must read back, then the newest ten rows are scanned. */
  function IsDuplicate(sheet: seq<Row>, e: TripEntry): bool
  {
    match ParseStamp(e.createdAt)
    case None => false
    case Some(st) => ScanDup(LastRows(sheet, 10), st, e.authorTgId)
  }

  /** With `created_at` as `get_utc_iso_string` writes it, no entry is ever a duplicate. */
  lemma AsWrittenNeverDuplicate(sheet: seq<Row>, e: TripEntry, createdUtc: DateTime)
    requires Valid(createdUtc) && e.createdAt == UtcIsoStringAsWritten(createdUtc)
    ensures !IsDuplicate(sheet, e)
  {
    AsWrittenStampUnreadable(createdUtc);
  }

  /** A first row that is a duplicate is reported. */
  lemma ScanDupFirst(rows: seq<RowDict>, newStamp: Stamp, authorTgId: int)
    requires Valid(newStamp.at) && |rows| >= 1 && IsDupRow(rows[0], newStamp, authorTgId)
    ensures ScanDup(rows, newStamp, authorTgId)
  {
    assert Verdicts(rows, newStamp, authorTgId)[0] == DupFound;
  }

  lemma StoredRowIsDup(prev: TripEntry, newStamp: Stamp, t0: DateTime)
    requires Valid(t0) && prev.createdAt == ZuluIsoString(t0) && newStamp.offsetMinutes == Some(0)
    requires Valid(newStamp.at) && -30 < Seconds(newStamp.at) - Seconds(t0) < 30
    ensures IsDupRow(ZipHeaders(ToSheetsRow(prev)), newStamp, prev.authorTgId)
  {
    var row := ToSheetsRow(prev);
    var d := ZipHeaders(row);
    assert Headers[AuthorColumn] == "author_tg_id" && Headers[CreatedAtColumn] == "created_at";
    assert d["author_tg_id"] == row[AuthorColumn] && d["created_at"] == row[CreatedAtColumn];
    RowReadsBack(prev);
    ZuluStampReadsBack(t0);
  }

  /**
   * With `Z` stamps, an entry stamped less than 30 seconds from the same
   * author's newest row is a duplicate.
   */
  lemma ZuluResubmitIsDuplicate(sheet: seq<Row>, prev: TripEntry, e: TripEntry, t0: DateTime, t1: DateTime)
    requires |sheet| >= 1 && Valid(t0) && Valid(t1)
    requires prev.createdAt == ZuluIsoString(t0) && e.createdAt == ZuluIsoString(t1)
    requires prev.authorTgId == e.authorTgId
    requires -30 < Seconds(t1) - Seconds(t0) < 30
    ensures IsDuplicate(sheet + [ToSheetsRow(prev)], e)
  {
    var row := ToSheetsRow(prev);
    LastRowsAfterAppend(sheet, row, 10);
    ZuluStampReadsBack(t1);
    StoredRowIsDup(prev, Stamp(t1, Some(0)), t0);
    ScanDupFirst(LastRows(sheet + [row], 10), Stamp(t1, Some(0)), e.authorTgId);
  }

  // ---------------------------------------------------------------- the client

  /** The loop of `get_last_rows`: the full rows of the window, walked from the bottom. */
  method CollectNewestFirst(last: seq<Row>) returns (r: seq<RowDict>)
    ensures r == NewestFirst(last)
  {
    r := [];
    var i := |last|;
    while i > 0
      invariant 0 <= i <= |last|
      invariant r == NewestFirst(last[i..])
    {
      assert last[i - 1..] == [last[i - 1]] + last[i..];
      NewestFirstCons(last[i - 1], last[i..]);
      r := r + Keep(last[i - 1]);
      i := i - 1;
    }
    assert last[0..] == last;
  }

  /** The client, holding the rows the service currently returns for `A:M`. */
  class Ledger {
    var rows: seq<Row>

    /** Connecting to a sheet makes sure its header row is in place. */
    constructor (initial: seq<Row>)
      ensures rows == WithHeader(initial)
    {
      rows := WithHeader(initial);
    }

    method EnsureHeader()
      modifies this
      ensures rows == WithHeader(old(rows))
    {
      if rows == [] || rows[0] != Headers {
        rows := [Headers] + (if rows == [] then [] else rows[1..]);
      }
    }

    method GetLastRows(limit: int) returns (r: seq<RowDict>)
      ensures r == LastRows(rows, limit)
    {
      if |rows| <= 1 {
        return [];
      }
      var data := rows[1..];
      r := CollectNewestFirst(data[WindowStart(|data|, limit)..]);
    }

    method FindRowByUid(rowUid: string, authorTgId: int) returns (r: Option<(int, Row)>)
      ensures r == FindByUid(rows, rowUid, authorTgId)
    {
      if |rows| <= 1 {
        return None;
      }
      var i := 1;
      var author := IntToString(authorTgId);
      while i < |rows|
        invariant 1 <= i <= |rows|
        invariant FindFrom(rows, i, rowUid, authorTgId) == FindByUid(rows, rowUid, authorTgId)
      {
        var row := rows[i];
        if |row| >= 13 && row[12] == rowUid && row[11] == author {
          return Some((i + 1, row));
        }
        i := i + 1;
      }
      return None;
    }

    method UpdateRow(rowNumber: int, e: TripEntry, serviceUp: bool) returns (ok: bool)
      modifies this
      ensures ok <==> serviceUp && rowNumber >= 1
      ensures rows == if ok then UpdatedSheet(old(rows), rowNumber, ToSheetsRow(e)) else old(rows)
    {
      if !serviceUp || rowNumber < 1 {
        return false;
      }
      rows := UpdatedSheet(rows, rowNumber, ToSheetsRow(e));
      return true;
    }

    method GetLastUserEntry(authorTgId: int) returns (r: Option<RowDict>)
      ensures r == LastUserEntry(rows, authorTgId)
    {
      if |rows| <= 1 {
        return None;
      }
      var author := IntToString(authorTgId);
      var i := |rows|;
      while i > 1
        invariant 1 <= i <= |rows|
        invariant forall j :: i <= j < |rows| ==> !AuthorMatch(rows[j], authorTgId)
      {
        var row := rows[i - 1];
        if |row| >= 12 && row[11] == author {
          LastAuthorIndexAt(rows, i - 1, authorTgId);
          return Some(ZipHeaders(row));
        }
        i := i - 1;
      }
      LastAuthorIndexNone(rows, authorTgId);
      return None;
    }

    method CheckDuplicate(e: TripEntry) returns (dup: bool)
      ensures dup == IsDuplicate(rows, e)
    {
      var newStamp := ParseStamp(e.createdAt);
      if newStamp.None? {
        return false;
      }
      var last := GetLastRows(10);
      ghost var vs := Verdicts(last, newStamp.value, e.authorTgId);
      var k := 0;
      while k < |last|
        invariant 0 <= k <= |last|
        invariant Scan(vs[k..]) == Scan(vs)
      {
        var author := ParseInt(Lookup(last[k], "author_tg_id", "0"));
        if author.None? {
          return false;
        }
        if author.value == e.authorTgId {
          var stamp := ParseStamp(Lookup(last[k], "created_at", ""));
          if stamp.Some? {
            var diff := StampDiff(newStamp.value, stamp.value);
            if diff.Some? && -30 < diff.value < 30 {
              return true;
            }
          }
        }
        assert vs[k..][1..] == vs[k + 1..];
        k := k + 1;
      }
      return false;
    }

    /** `append_row`: nothing is written for a duplicate or when the service is unreachable. */
    method AppendRow(e: TripEntry, serviceUp: bool) returns (ok: bool)
      modifies this
      ensures ok <==> serviceUp && !IsDuplicate(old(rows), e)
      ensures rows == if ok then old(rows) + [ToSheetsRow(e)] else old(rows)
    {
      var dup := CheckDuplicate(e);
      if dup || !serviceUp {
        return false;
      }
      rows := rows + [ToSheetsRow(e)];
      return true;
    }
  }
}
