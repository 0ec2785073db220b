/** database/attendance_repository.py: the DiemDanh table, the filter-to-SQL
 *  builder of get_attendance_records, the guard of
 *  get_daily_attendance_summary, and the "today" window of
 *  count_attendance_today.
 *
 *  Filter arguments are Python values that are either None or a string;
 *  truthiness is "present and non-empty". SQL text is a list of pieces,
 *  fixed text or a `%s` placeholder. Times are whole seconds on the local
 *  clock counted from a midnight, so a calendar day is a block of 86400
 *  seconds. */
module AttendanceRepo {
  import opened Common

  /** One row of DiemDanh. */
  datatype AttendanceRecord = AttendanceRecord(sessionId: string, studentId: string, time: int, status: string)

  /** The fixed SQL fragments the repository's queries are made of. */
  datatype Fragment =
    | SelectRecords | SelectSummary
    | SessionColumn | StudentColumn | DateColumn | StatusColumn
    | OrderByTime | GroupByStatus

  /** The text of each fragment. */
  function FragmentText(f: Fragment): string
  {
    match f
    case SelectRecords =>
      "SELECT dd.ID_DiemDanh, sv.MaSV, sv.TenSV, bh.MaBuoiHoc, bh.NgayHoc, bh.MaMon, bh.MaLop_FK, "
      + "dd.ThoiGian, dd.TrangThai FROM DiemDanh dd JOIN SinhVien sv ON dd.MaSV_FK = sv.MaSV "
      + "JOIN BuoiHoc bh ON dd.MaBuoiHoc_FK = bh.MaBuoiHoc WHERE 1 = 1 "
    case SelectSummary =>
      "SELECT dd.TrangThai, COUNT(DISTINCT dd.MaSV_FK) as SoLuong FROM DiemDanh dd "
      + "JOIN BuoiHoc bh ON dd.MaBuoiHoc_FK = bh.MaBuoiHoc WHERE 1 = 1 "
    case SessionColumn => " AND dd.MaBuoiHoc_FK = "
    case StudentColumn => " AND dd.MaSV_FK = "
    case DateColumn => " AND DATE(dd.ThoiGian) = "
    case StatusColumn => " AND dd.TrangThai = "
    case OrderByTime => " ORDER BY dd.ThoiGian DESC"
    case GroupByStatus => " GROUP BY dd.TrangThai"
  }

  /** A piece of SQL text: a fixed fragment, or a `%s` placeholder. */
  datatype Piece = Text(fragment: Fragment) | Param

  /** An SQL text and its parameter tuple, as handed to fetch_all. */
  datatype Query = Query(sql: seq<Piece>, params: seq<string>)

  /** The exception raised by `isinstance(Ngay, datetime.date)`: `datetime`
   *  names the class, so `datetime.date` is a method and not a type. */
  datatype QueryError = TypeError

  const SecondsPerDay: int := 86400

  const RecordsBase: seq<Piece> := [Text(SelectRecords)]
  const SummaryBase: seq<Piece> := [Text(SelectSummary)]
  const SessionClause: seq<Piece> := [Text(SessionColumn), Param]
  const StudentClause: seq<Piece> := [Text(StudentColumn), Param]
  const DateClause: seq<Piece> := [Text(DateColumn), Param]
  const StatusClause: seq<Piece> := [Text(StatusColumn), Param]
  const OrderByClause: seq<Piece> := [Text(OrderByTime)]
  const GroupByClause: seq<Piece> := [Text(GroupByStatus)]

  /** Python truthiness of an optional string argument. */
  predicate Truthy(v: Option<string>)
  {
    v.Some? && v.value != ""
  }

  /** The number of `%s` placeholders in an SQL text. */
  function Placeholders(sql: seq<Piece>): (n: nat)
    ensures n <= |sql|
  {
    if sql == [] then 0
    else Placeholders(sql[..|sql| - 1]) + (if sql[|sql| - 1] == Param then 1 else 0)
  }

  /** Placeholders add up over a concatenation. */
  lemma {:induction false} PlaceholdersConcat(x: seq<Piece>, y: seq<Piece>)
    ensures Placeholders(x + y) == Placeholders(x) + Placeholders(y)
    decreases |y|
  {
    if y == [] {
      assert x + y == x;
    } else {
      var init := y[..|y| - 1];
      PlaceholdersConcat(x, init);
      assert (x + y)[..|x + y| - 1] == x + init;
    }
  }

  // ----------------------------------------------------- record filters

  /** A filter: the clause it adds and the argument that switches it on. */
  type Filter = (seq<Piece>, Option<string>)

  /** The text and parameters one filter contributes. */
  function ClauseOf(f: Filter): seq<Piece>
  {
    if Truthy(f.1) then f.0 else []
  }

  function ParamOf(f: Filter): seq<string>
  {
    if Truthy(f.1) then [f.1.value] else []
  }

  /** The truthy arguments, in order. */
  function TruthyValues(filters: seq<Filter>): (r: seq<string>)
    ensures |r| <= |filters|
  {
    if filters == [] then []
    else TruthyValues(filters[..|filters| - 1]) + ParamOf(filters[|filters| - 1])
  }

  lemma TruthyValuesSnoc(filters: seq<Filter>, f: Filter)
    ensures TruthyValues(filters + [f]) == TruthyValues(filters) + ParamOf(f)
  {
    assert (filters + [f])[..|filters|] == filters;
  }

  /** Each filter clause holds exactly one placeholder, and the fixed
   *  head and tail of the records query hold none. */
  lemma ClauseConstants()
    ensures Placeholders(SessionClause) == 1 && Placeholders(StudentClause) == 1
    ensures Placeholders(DateClause) == 1 && Placeholders(StatusClause) == 1
    ensures Placeholders(RecordsBase) == 0 && Placeholders(OrderByClause) == 0
  {
    assert SessionClause[..1] == [Text(SessionColumn)] && StudentClause[..1] == [Text(StudentColumn)];
    assert DateClause[..1] == [Text(DateColumn)] && StatusClause[..1] == [Text(StatusColumn)];
  }

  /** Appending a filter's clause adds as many placeholders as the filter
   *  passes parameters. */
  lemma AppendClause(x: seq<Piece>, f: Filter)
    requires Placeholders(f.0) == 1
    ensures Placeholders(x + ClauseOf(f)) == Placeholders(x) + |ParamOf(f)|
  {
    PlaceholdersConcat(x, ClauseOf(f));
  }

  function RecordFilters(maBuoiHoc: Option<string>, maSv: Option<string>, ngay: Option<string>,
                         trangThai: Option<string>): seq<Filter>
  {
    [(SessionClause, maBuoiHoc), (StudentClause, maSv), (DateClause, ngay), (StatusClause, trangThai)]
  }

  /** get_attendance_records as evidently intended: the date is passed on
   *  like the other filters, each truthy filter appending its clause and
   *  its parameter in the order MaBuoiHoc, MaSV, Ngay, TrangThai. */
  function CorrectedRecordsQuery(maBuoiHoc: Option<string>, maSv: Option<string>, ngay: Option<string>,
                                 trangThai: Option<string>): (q: Query)
    ensures |q.params| <= 4
    ensures |q.sql| == |RecordsBase| + 2 * |q.params| + |OrderByClause|
  {
    var a, b, c, d := (SessionClause, maBuoiHoc), (StudentClause, maSv), (DateClause, ngay),
                      (StatusClause, trangThai);
    Query(RecordsBase + ClauseOf(a) + ClauseOf(b) + ClauseOf(c) + ClauseOf(d) + OrderByClause,
          ParamOf(a) + ParamOf(b) + ParamOf(c) + ParamOf(d))
  }

  /** The corrected builder's placeholders and parameters agree, the
   *  parameters are the truthy filters in their fixed order, and the text
   *  starts with the SELECT and ends with ORDER BY. */
  lemma CorrectedRecordsQueryWellFormed(maBuoiHoc: Option<string>, maSv: Option<string>, ngay: Option<string>,
                                        trangThai: Option<string>)
    ensures var q := CorrectedRecordsQuery(maBuoiHoc, maSv, ngay, trangThai);
            && Placeholders(q.sql) == |q.params|
            && q.params == TruthyValues(RecordFilters(maBuoiHoc, maSv, ngay, trangThai))
            && q.sql[0] == RecordsBase[0]
            && q.sql[|q.sql| - 1] == OrderByClause[0]
  {
    RecordPlaceholders(maBuoiHoc, maSv, ngay, trangThai);
    RecordParams(maBuoiHoc, maSv, ngay, trangThai);
  }

  /** The corrected query holds one placeholder per parameter and keeps its
   *  SELECT and its ORDER BY at the ends. */
  lemma RecordPlaceholders(maBuoiHoc: Option<string>, maSv: Option<string>, ngay: Option<string>,
                           trangThai: Option<string>)
    ensures var q := CorrectedRecordsQuery(maBuoiHoc, maSv, ngay, trangThai);
            && Placeholders(q.sql) == |q.params|
            && q.sql[0] == RecordsBase[0]
            && q.sql[|q.sql| - 1] == OrderByClause[0]
  {
    var a, b, c, d := (SessionClause, maBuoiHoc), (StudentClause, maSv), (DateClause, ngay),
                      (StatusClause, trangThai);
    ClauseConstants();
    var x0 := RecordsBase + ClauseOf(a);
    var x1 := x0 + ClauseOf(b);
    var x2 := x1 + ClauseOf(c);
    var x3 := x2 + ClauseOf(d);
    AppendClause(RecordsBase, a);
    AppendClause(x0, b);
    AppendClause(x1, c);
    AppendClause(x2, d);
    PlaceholdersConcat(x3, OrderByClause);
    assert |ParamOf(a) + ParamOf(b) + ParamOf(c) + ParamOf(d)|
           == |ParamOf(a)| + |ParamOf(b)| + |ParamOf(c)| + |ParamOf(d)|;
  }

  /** The parameters of the corrected query are the truthy filter values. */
  lemma RecordParams(maBuoiHoc: Option<string>, maSv: Option<string>, ngay: Option<string>,
                     trangThai: Option<string>)
    ensures CorrectedRecordsQuery(maBuoiHoc, maSv, ngay, trangThai).params
            == TruthyValues(RecordFilters(maBuoiHoc, maSv, ngay, trangThai))
  {
    var fs := RecordFilters(maBuoiHoc, maSv, ngay, trangThai);
    TruthyValuesSnoc([], fs[0]);
    assert [] + [fs[0]] == [fs[0]];
    TruthyValuesSnoc([fs[0]], fs[1]);
    assert [fs[0]] + [fs[1]] == [fs[0], fs[1]];
    TruthyValuesSnoc([fs[0], fs[1]], fs[2]);
    assert [fs[0], fs[1]] + [fs[2]] == [fs[0], fs[1], fs[2]];
    TruthyValuesSnoc([fs[0], fs[1], fs[2]], fs[3]);
    assert [fs[0], fs[1], fs[2]] + [fs[3]] == fs;
    assert [] + ParamOf(fs[0]) == ParamOf(fs[0]);
  }

  /** get_attendance_records as written: any truthy date raises. */
  function RecordsQuery(maBuoiHoc: Option<string>, maSv: Option<string>, ngay: Option<string>,
                        trangThai: Option<string>): (r: Result<Query, QueryError>)
    ensures r.Failure? <==> Truthy(ngay)
    ensures r.Success? ==> r.value == CorrectedRecordsQuery(maBuoiHoc, maSv, ngay, trangThai)
  {
    if Truthy(ngay) then Failure(TypeError)
    else Success(CorrectedRecordsQuery(maBuoiHoc, maSv, ngay, trangThai))
  }

  /** A date filter, which the intended builder passes on as a parameter,
   *  makes the written builder raise instead of querying. */
  lemma DateFilterRaises()
    ensures RecordsQuery(None, None, Some("2024-05-01"), None) == Failure(TypeError)
    ensures CorrectedRecordsQuery(None, None, Some("2024-05-01"), None).params == ["2024-05-01"]
  {

  }

  /** The as-written builder yields a well-formed query exactly when no
   *  date is given. */
  lemma RecordsQueryWellFormed(maBuoiHoc: Option<string>, maSv: Option<string>, ngay: Option<string>,
                               trangThai: Option<string>)
    ensures var r := RecordsQuery(maBuoiHoc, maSv, ngay, trangThai);
            (r.Failure? <==> Truthy(ngay))
            && (r.Success? ==> Placeholders(r.value.sql) == |r.value.params|)
  {
    CorrectedRecordsQueryWellFormed(maBuoiHoc, maSv, ngay, trangThai);
  }

  /** get_attendance_records' query building, clause by clause; the result
   *  is the query handed to fetch_all, or the exception. */
  method GetAttendanceRecordsQuery(maBuoiHoc: Option<string>, maSv: Option<string>, ngay: Option<string>,
                                   trangThai: Option<string>)
    returns (r: Result<Query, QueryError>)
    ensures r == RecordsQuery(maBuoiHoc, maSv, ngay, trangThai)
  {
    var baseQuery := RecordsBase;
    var params: seq<string> := [];
    if Truthy(maBuoiHoc) {
      baseQuery := baseQuery + SessionClause;
      params := params + [maBuoiHoc.value];
    }
    assert baseQuery == RecordsBase + ClauseOf((SessionClause, maBuoiHoc));
    assert params == ParamOf((SessionClause, maBuoiHoc));
    if Truthy(maSv) {
      baseQuery := baseQuery + StudentClause;
      params := params + [maSv.value];
    }
    assert baseQuery == RecordsBase + ClauseOf((SessionClause, maBuoiHoc)) + ClauseOf((StudentClause, maSv));
    assert params == ParamOf((SessionClause, maBuoiHoc)) + ParamOf((StudentClause, maSv));
    if Truthy(ngay) {
      return Failure(TypeError);
    }
    ghost var q2, p2 := baseQuery, params;
    assert q2 + ClauseOf((DateClause, ngay)) == q2 && p2 + ParamOf((DateClause, ngay)) == p2;
    if Truthy(trangThai) {
      baseQuery := baseQuery + StatusClause;
      params := params + [trangThai.value];
    }
    assert baseQuery == q2 + ClauseOf((StatusClause, trangThai));
    assert params == p2 + ParamOf((StatusClause, trangThai));
    baseQuery := baseQuery + OrderByClause;
    return Success(Query(baseQuery, params));
  }

  // ----------------------------------------------------- daily summary

  /** get_daily_attendance_summary up to the fetch: None without criteria,
   *  the exception for a truthy date, otherwise the grouped query on the
   *  session. */
  function SummaryQuery(ngay: Option<string>, maBuoiHoc: Option<string>): (r: Result<Option<Query>, QueryError>)
    ensures (!Truthy(ngay) && !Truthy(maBuoiHoc)) <==> r == Success(None)
    ensures Truthy(ngay) <==> r.Failure?
    ensures r.Success? && r.value.Some? ==>
              r.value.value.params == [maBuoiHoc.value] && Placeholders(r.value.value.sql) == 1
  {
    if !Truthy(ngay) && !Truthy(maBuoiHoc) then Success(None)
    else if Truthy(ngay) then Failure(TypeError)
    else
      PlaceholdersConcat(SummaryBase, SessionClause);
      PlaceholdersConcat(SummaryBase + SessionClause, GroupByClause);
      assert SessionClause[..1] == [Text(SessionColumn)];
      Success(Some(Query(SummaryBase + SessionClause + GroupByClause, [maBuoiHoc.value])))
  }

  /** One row of the summary query as fetch_all hands it over. The
   *  connection is opened with DictCursor, so a row is a dictionary whose
   *  keys are the selected column names, TrangThai then SoLuong. */
  datatype SummaryRow = SummaryRow(trangThai: string, soLuong: int)

  const StatusKey: string := "TrangThai"
  const CountKey: string := "SoLuong"

  /** `status, count = row` on a dictionary row binds its two keys, in
   *  column order: what the comprehension of get_daily_attendance_summary
   *  unpacks as written. */
  function UnpackAsWritten(row: SummaryRow): (string, string)
  {
    (StatusKey, CountKey)
  }

  /** The pair the comprehension evidently means: the row's two values. */
  function UnpackIntended(row: SummaryRow): (string, int)
  {
    (row.trangThai, row.soLuong)
  }

  /** `{k: v for k, v in pairs}`: a later pair for the same key
   *  overwrites an earlier one. */
  function SummaryDict<V>(pairs: seq<(string, V)>): (m: map<string, V>)
    ensures forall st :: st in m <==> exists k :: 0 <= k < |pairs| && pairs[k].0 == st
    ensures forall st :: st in m ==> exists k :: 0 <= k < |pairs| && pairs[k] == (st, m[st])
  {
    if pairs == [] then map[]
    else
      var m := SummaryDict(pairs[..|pairs| - 1]);
      assert forall k :: 0 <= k < |pairs| - 1 ==> pairs[..|pairs| - 1][k] == pairs[k];
      m[pairs[|pairs| - 1].0 := pairs[|pairs| - 1].1]
  }

  /** The value kept for a key is the one on its last pair. */
  lemma {:induction false} SummaryDictLastWins<V>(pairs: seq<(string, V)>, k: nat)
    requires k < |pairs|
    requires forall j :: k < j < |pairs| ==> pairs[j].0 != pairs[k].0
    ensures pairs[k].0 in SummaryDict(pairs) && SummaryDict(pairs)[pairs[k].0] == pairs[k].1
  {
    if k < |pairs| - 1 {
      var init := pairs[..|pairs| - 1];
      assert forall j :: k < j < |init| ==> init[j] == pairs[j];
      SummaryDictLastWins(init, k);
    }
  }

  /** The (status, count) pairs of the fetched rows. */
  function IntendedPairs(rows: seq<SummaryRow>): (r: seq<(string, int)>)
    ensures |r| == |rows|
    ensures forall k :: 0 <= k < |rows| ==> r[k] == (rows[k].trangThai, rows[k].soLuong)
  {
    seq(|rows|, k requires 0 <= k < |rows| => UnpackIntended(rows[k]))
  }

  /** The dictionary line 89 builds as written: every row unpacks to the
   *  same two column names. */
  function SummaryAsWritten(rows: seq<SummaryRow>): map<string, string>
  {
    SummaryDict(seq(|rows|, k requires 0 <= k < |rows| => UnpackAsWritten(rows[k])))
  }

  /** Whatever non-empty result the query fetches, the summary as written
   *  maps the column name TrangThai to the column name SoLuong. */
  lemma SummaryAsWrittenIsColumnNames(rows: seq<SummaryRow>)
    requires rows != []
    ensures SummaryAsWritten(rows) == map[StatusKey := CountKey]
  {
    var pairs := seq(|rows|, k requires 0 <= k < |rows| => UnpackAsWritten(rows[k]));
    var m := SummaryDict(pairs);
    assert pairs[0].0 == StatusKey;
    assert StatusKey in m;
    forall st | st in m
      ensures st == StatusKey && m[st] == CountKey
    {
      var k :| 0 <= k < |pairs| && pairs[k] == (st, m[st]);
    }
  }

  /** One fetched row shows the difference: the summary as written reports
   *  the column names, the intended one the status and its count. */
  lemma SummaryOfOneRow()
    ensures SummaryAsWritten([SummaryRow("C\U{00F3} m\U{1EB7}t", 3)]) == map["TrangThai" := "SoLuong"]
    ensures SummaryDict(IntendedPairs([SummaryRow("C\U{00F3} m\U{1EB7}t", 3)])) == map["C\U{00F3} m\U{1EB7}t" := 3]
  {
    SummaryAsWrittenIsColumnNames([SummaryRow("C\U{00F3} m\U{1EB7}t", 3)]);
    var pairs := IntendedPairs([SummaryRow("C\U{00F3} m\U{1EB7}t", 3)]);
    SummaryDictLastWins(pairs, 0);
  }

  /** The whole of get_daily_attendance_summary, with the comprehension
   *  reading the row values as intended; `fetched` is fetch_all's answer
   *  (None when the query fails). */
  function DailySummary(ngay: Option<string>, maBuoiHoc: Option<string>, fetched: Option<seq<SummaryRow>>)
    : (r: Result<Option<map<string, int>>, QueryError>)
    ensures (!Truthy(ngay) && !Truthy(maBuoiHoc)) <==> r == Success(None)
    ensures Truthy(ngay) <==> r.Failure?
    ensures r.Success? && r.value.Some? && (fetched.None? || fetched.value == []) ==> r.value.value == map[]
    ensures r.Success? && r.value.Some? && fetched.Some? ==>
              && (forall st :: st in r.value.value <==>
                    exists k :: 0 <= k < |fetched.value| && fetched.value[k].trangThai == st)
              && (forall st :: st in r.value.value ==>
                    exists k :: 0 <= k < |fetched.value| && fetched.value[k] == SummaryRow(st, r.value.value[st]))
  {
    match SummaryQuery(ngay, maBuoiHoc)
    case Failure(e) => Failure(e)
    case Success(None) => Success(None)
    case Success(Some(_)) =>
      if fetched.None? || fetched.value == [] then Success(Some(map[]))
      else Success(Some(SummaryDict(IntendedPairs(fetched.value))))
  }

  // ----------------------------------------------------- today's window

  /** The half-open interval [today, tomorrow) of count_attendance_today. */
  predicate InDay(t: int, day: int)
  {
    day * SecondsPerDay <= t < (day + 1) * SecondsPerDay
  }

  /** A time lies in a day's window exactly when that is its calendar day. */
  lemma InDayIffSameDay(t: int, day: int)
    ensures InDay(t, day) <==> t / SecondsPerDay == day
  {
    var q := t / 86400;
    assert q * 86400 <= t < q * 86400 + 86400;
    if InDay(t, day) {
      assert day * 86400 <= t < day * 86400 + 86400;
      assert day * 86400 < q * 86400 + 86400 && q * 86400 < day * 86400 + 86400;
    }
  }

  /** COUNT(*) over the records in the day's window. */
  function CountInDay(records: seq<AttendanceRecord>, day: int): (n: nat)
    ensures n <= |records|
  {
    if records == [] then 0
    else CountInDay(records[..|records| - 1], day) + (if InDay(records[|records| - 1].time, day) then 1 else 0)
  }

  /** Every record inside the window adds one to the count, and records
   *  outside it add nothing. */
  lemma CountInDayAppend(records: seq<AttendanceRecord>, rec: AttendanceRecord, day: int)
    ensures CountInDay(records + [rec], day) == CountInDay(records, day) + (if InDay(rec.time, day) then 1 else 0)
  {
    assert (records + [rec])[..|records|] == records;
  }

  /** count_attendance_today's answer for the day `today`; `readOk` is
   *  whether fetch_one returns a row. */
  function CountAttendanceToday(records: seq<AttendanceRecord>, today: int, readOk: bool): (n: nat)
    ensures !readOk ==> n == 0
    ensures readOk ==> n == CountInDay(records, today)
  {
    if readOk then CountInDay(records, today) else 0
  }

  // ----------------------------------------------------- the table

  class AttendanceRepository {
    /** The rows of DiemDanh, in insertion order. */
    var records: seq<AttendanceRecord>

    constructor (rows: seq<AttendanceRecord>)
      ensures records == rows
    {
      records := rows;
    }

    /** add_attendance_record: one INSERT with no existence check.
     *  `executeOk` is whether execute_query commits. */
    method AddAttendanceRecord(sessionId: string, studentId: string, time: int, status: string, executeOk: bool)
      returns (ok: bool)
      modifies this
      ensures ok == executeOk
      ensures ok ==> records == old(records) + [AttendanceRecord(sessionId, studentId, time, status)]
      ensures !ok ==> records == old(records)
    {
      if executeOk {
        records := records + [AttendanceRecord(sessionId, studentId, time, status)];
      }
      ok := executeOk;
    }
  }
}
