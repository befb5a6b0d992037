/**
 * `export_requests`: a month's requests as CSV rows. Only the rows are
 * modelled; their quoting is the `csv` module's business.
 */
module Export {
  import opened Outcomes
  import opened Numerals
  import opened Reading
  import opened Records

  /** The header row, in the column order of the export. */
  const Header: seq<string> := ["ID", "Имя", "Email", "Телефон", "Услуга", "Тип компании", "Сообщение", "Дата", "Статус"]

  /** The CSV row of one request. */
  function Row(r: Request): (row: seq<string>)
    ensures |row| == |Header|
  {
    [Str(r.id), r.name, r.email, r.phone, r.serviceType, r.companyType, r.message, r.date, r.status]
  }

  /** The id cell of a row reads back as the request's id. */
  lemma RowIdReadsBack(r: Request)
    ensures ParseInt(Row(r)[0]) == Some(r.id)
  {
    StrRoundTrip(r.id);
  }

  /** The other cells of a row are the request's fields, in column order. */
  lemma RowFields(r: Request)
    ensures Row(r)[1..] == [r.name, r.email, r.phone, r.serviceType, r.companyType, r.message, r.date, r.status]
  {
  }

  /** The export stops with a message when the month has no requests. */
  datatype ExportError = NothingToExport

  /** `row` is the CSV row of `r`: as wide as the header, with an id cell
      that reads back as the request's id and then the other fields in
      column order. */
  predicate ExportedRow(r: Request, row: seq<string>) {
    && |row| == |Header|
    && ParseInt(row[0]) == Some(r.id)
    && row[1..] == [r.name, r.email, r.phone, r.serviceType, r.companyType, r.message, r.date, r.status]
  }

  /** The rows `export_requests` writes: the header, then one row per
      request in stored order. */
  method ExportRows(p: seq<Request>) returns (r: Result<seq<seq<string>>, ExportError>)
    ensures r.Err? <==> |p| == 0
    ensures r.Ok? ==> |r.value| == |p| + 1 && r.value[0] == Header
    ensures r.Ok? ==> forall i :: 0 <= i < |p| ==> ExportedRow(p[i], r.value[i + 1])
  {
    if |p| == 0 {
      return Err(NothingToExport);
    }
    var rows := [Header];
    var n := 0;
    while n < |p|
      invariant 0 <= n <= |p|
      invariant |rows| == n + 1 && rows[0] == Header
      invariant forall i :: 0 <= i < n ==> rows[i + 1] == Row(p[i])
    {
      rows := rows + [Row(p[n])];
      n := n + 1;
    }
    forall i | 0 <= i < |p| ensures ExportedRow(p[i], rows[i + 1]) {
      RowIdReadsBack(p[i]);
      RowFields(p[i]);
    }
    return Ok(rows);
  }
}
