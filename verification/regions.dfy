/** `regions_lookup`: an ISO 3166 code is looked up in the text of
    `regions.csv` and the region's name and boundary relation id are
    returned. The file's contents are a parameter. */
module Regions {
  import opened Wrappers
  import opened Text

  /** `isocode.upper().replace('_', '-')`. */
  function Normalize(code: string): (r: string)
    ensures |r| == |code|
    ensures '_' !in r
    ensures forall k :: 0 <= k < |r| ==> !('a' <= r[k] <= 'z')
  {
    ReplaceChar(Upper(code), '_', '-')
  }

  /** Normalizing twice changes nothing: a code already in upper case
      with dashes, such as `DE-BY`, is its own normal form. */
  lemma NormalizeIdempotent(code: string)
    ensures Normalize(Normalize(code)) == Normalize(code)
  {
  }

  /** `de_by`, `De_By` and `DE-BY` name the same region. */
  lemma NormalizeSpellings()
    ensures Normalize("de_by") == Normalize("De_By") == Normalize("DE-BY") == "DE-BY"
  {
  }

  /** The columns whose header contains `iso`, in header order. */
  function IsoColumns(headers: seq<string>, from: nat): (cols: seq<nat>)
    requires from <= |headers|
    ensures forall k :: 0 <= k < |cols| ==> from <= cols[k] < |headers| && Contains(headers[cols[k]], "iso")
    ensures forall ix :: from <= ix < |headers| && Contains(headers[ix], "iso") ==> ix in cols
    ensures forall k, k' :: 0 <= k < k' < |cols| ==> cols[k] < cols[k']
    decreases |headers| - from
  {
    if from == |headers| then []
    else
      var rest := IsoColumns(headers, from + 1);
      if Contains(headers[from], "iso") then [from] + rest else rest
  }

  /** `headers.index(name)`. */
  function IndexOf(headers: seq<string>, name: string): (r: Option<nat>)
    ensures r.Some? ==> r.value < |headers| && headers[r.value] == name && name !in headers[..r.value]
    ensures r.None? <==> name !in headers
  {
    if |headers| == 0 then None
    else if headers[0] == name then Some(0)
    else
      match IndexOf(headers[1..], name)
      case None => None
      case Some(i) =>
        assert headers[..i + 1] == [headers[0]] + headers[1..][..i];
        Some(i + 1)
  }

  predicate Increasing(cols: seq<nat>) {
    forall k, k' :: 0 <= k < k' < |cols| ==> cols[k] < cols[k']
  }

  /** A row has a cell for every searched column. */
  predicate Complete(cells: seq<string>, cols: seq<nat>) {
    forall k :: 0 <= k < |cols| ==> cols[k] < |cells|
  }

  /** Some searched cell equals the code exactly. */
  predicate Hit(cells: seq<string>, cols: seq<nat>, code: string) {
    exists k :: 0 <= k < |cols| && cols[k] < |cells| && cells[cols[k]] == code
  }

  /** The inner loop over the searched columns of one row: `None` to go
      on with the next row, a result when a cell matches or a cell is
      missing. `r_d[i].find(isocode) >= 0` is implied by `r_d[i] == isocode`. */
  function ScanCells(cells: seq<string>, cols: seq<nat>, code: string, headers: seq<string>): (r: Option<Result<(string, string)>>)
    requires Increasing(cols)
    ensures r.None? <==> Complete(cells, cols) && !Hit(cells, cols, code)
    ensures Hit(cells, cols, code) ==> r == Some(Pick(cells, headers))
    ensures !Hit(cells, cols, code) && !Complete(cells, cols) ==> r == Some(Failure(IndexError))
    decreases |cols|
  {
    if |cols| == 0 then None
    else if cols[0] >= |cells| then
      assert !Hit(cells, cols, code) by {
        forall k | 0 < k < |cols| ensures cols[k] >= |cells| { assert cols[0] < cols[k]; }
      }
      Some(Failure(IndexError))
    else if Find(cells[cols[0]], code) >= 0 && cells[cols[0]] == code then Some(Pick(cells, headers))
    else
      var r := ScanCells(cells, cols[1..], code, headers);
      assert Hit(cells, cols, code) <==> Hit(cells, cols[1..], code) by {
        if Hit(cells, cols, code) {
          var k :| 0 <= k < |cols| && cols[k] < |cells| && cells[cols[k]] == code;
          assert k > 0;
          assert cols[1..][k - 1] == cols[k];
        }
      }
      r
  }

  /** `r_d[headers.index('name')], r_d[headers.index('osm_id')]`. */
  function Pick(cells: seq<string>, headers: seq<string>): (r: Result<(string, string)>)
    ensures r.Success? <==> (IndexOf(headers, "name").Some? && IndexOf(headers, "osm_id").Some?
      && IndexOf(headers, "name").value < |cells| && IndexOf(headers, "osm_id").value < |cells|)
    ensures r.Success? ==> r.value == (cells[IndexOf(headers, "name").value], cells[IndexOf(headers, "osm_id").value])
    ensures r.Failure? && "name" !in headers ==> r.error == ValueError("name is not in list")
  {
    match (IndexOf(headers, "name"), IndexOf(headers, "osm_id"))
    case (None, _) => Failure(ValueError("name is not in list"))
    case (_, None) => Failure(ValueError("osm_id is not in list"))
    case (Some(n), Some(o)) =>
      if n >= |cells| || o >= |cells| then Failure(IndexError) else Success((cells[n], cells[o]))
  }

  function Cells(row: string): seq<string> {
    Split(row, ',')
  }

  /** A row the scan passes over: every searched cell is there and none
      matches. */
  predicate Skips(row: string, cols: seq<nat>, code: string) {
    Complete(Cells(row), cols) && !Hit(Cells(row), cols, code)
  }

  /** Row `j` is the first row that is not passed over, and it matches. */
  predicate FoundAt(rows: seq<string>, j: int, cols: seq<nat>, code: string) {
    0 <= j < |rows| && Hit(Cells(rows[j]), cols, code) && forall j' :: 0 <= j' < j ==> Skips(rows[j'], cols, code)
  }

  lemma FoundAtShift(rows: seq<string>, j: int, cols: seq<nat>, code: string)
    requires |rows| > 0 && Skips(rows[0], cols, code)
    requires FoundAt(rows[1..], j, cols, code)
    ensures FoundAt(rows, j + 1, cols, code) && rows[j + 1] == rows[1..][j]
  {
    forall j' | 0 <= j' < j + 1 ensures Skips(rows[j'], cols, code) {
      if j' > 0 { assert rows[j'] == rows[1..][j' - 1]; }
    }
  }

  /** The outer loop over the data rows. */
  function ScanRows(rows: seq<string>, cols: seq<nat>, code: string, headers: seq<string>): (r: Result<(string, string)>)
    requires Increasing(cols)
    ensures r.Success? ==> exists j :: FoundAt(rows, j, cols, code) && r == Pick(Cells(rows[j]), headers)
    ensures (forall j :: 0 <= j < |rows| ==> Skips(rows[j], cols, code)) ==> r == Failure(BoundaryNotFound(code))
    decreases |rows|
  {
    if |rows| == 0 then Failure(BoundaryNotFound(code))
    else
      match ScanCells(Cells(rows[0]), cols, code, headers)
      case Some(res) =>
        res
      case None =>
        var r := ScanRows(rows[1..], cols, code, headers);
        assert r.Success? ==> exists j :: FoundAt(rows, j, cols, code) && r == Pick(Cells(rows[j]), headers) by {
          if r.Success? {
            var j :| FoundAt(rows[1..], j, cols, code) && r == Pick(Cells(rows[1..][j]), headers);
            FoundAtShift(rows, j, cols, code);
          }
        }
        assert (forall j :: 0 <= j < |rows| ==> Skips(rows[j], cols, code)) ==> forall j :: 0 <= j < |rows| - 1 ==> Skips(rows[1..][j], cols, code) by {
          forall j | 0 <= j < |rows| - 1 ensures rows[1..][j] == rows[j + 1] { }
        }
        r
  }

  /** The file's lines once stripped: the header line, then the data rows. */
  function Lines(csv: string): (r: seq<string>)
    ensures |r| >= 1
  {
    Split(Strip(csv), '\n')
  }

  function Headers(csv: string): seq<string> {
    Cells(Lines(csv)[0])
  }

  function DataRows(csv: string): seq<string> {
    Lines(csv)[1..]
  }

  function SearchColumns(csv: string): seq<nat> {
    IsoColumns(Headers(csv), 0)
  }

  /** `regions_lookup(isocode)` over the file text `csv`: the first data
      row that is not passed over must match the normalized code and gives
      `(name, osm_id)`; when every row is passed over, the lookup fails
      with the code (the program logs it and exits). */
  function Lookup(csv: string, isocode: string): (r: Result<(string, string)>)
    ensures r.Success? ==> exists j :: (FoundAt(DataRows(csv), j, SearchColumns(csv), Normalize(isocode))
      && r == Pick(Cells(DataRows(csv)[j]), Headers(csv)))
    ensures (forall j :: 0 <= j < |DataRows(csv)| ==> Skips(DataRows(csv)[j], SearchColumns(csv), Normalize(isocode)))
      ==> r == Failure(BoundaryNotFound(Normalize(isocode)))
    ensures forall j :: FoundAt(DataRows(csv), j, SearchColumns(csv), Normalize(isocode)) ==> r == Pick(Cells(DataRows(csv)[j]), Headers(csv))
  {
    var rows, cols, code := DataRows(csv), SearchColumns(csv), Normalize(isocode);
    forall j | FoundAt(rows, j, cols, code) ensures ScanRows(rows, cols, code, Headers(csv)) == Pick(Cells(rows[j]), Headers(csv)) {
      FirstMatchDecides(rows, j, cols, code, Headers(csv));
    }
    ScanRows(rows, cols, code, Headers(csv))
  }

  /** The first data row that is not passed over decides the lookup: it
      matches, and its `name` and `osm_id` cells are the result. */
  lemma {:induction false} FirstMatchDecides(rows: seq<string>, j: int, cols: seq<nat>, code: string, headers: seq<string>)
    requires Increasing(cols)
    requires FoundAt(rows, j, cols, code)
    ensures ScanRows(rows, cols, code, headers) == Pick(Cells(rows[j]), headers)
    decreases |rows|
  {
    if j > 0 {
      assert FoundAt(rows[1..], j - 1, cols, code) by {
        forall j' | 0 <= j' < j - 1 ensures Skips(rows[1..][j'], cols, code) {
          assert rows[1..][j'] == rows[j' + 1];
        }
        assert rows[1..][j - 1] == rows[j];
      }
      FirstMatchDecides(rows[1..], j - 1, cols, code, headers);
      assert Skips(rows[0], cols, code);
    }
  }
}
