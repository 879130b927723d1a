/** The pure part of the export helpers: the empty-data guard shared by the CSV
    and Excel exports, the Excel column widths, the download file names, and
    the timestamp helper `getTimestampString`. */
module Export {
  import opened Wrappers
  import opened Text
  import OrderedMap

  /** A cell value as the exported records hold it. Numbers are integers. */
  datatype Value = Undefined | Null | Bool(b: bool) | Number(n: int) | Str(s: string)

  /** A record in `Object.keys` order: (key, value) entries. An object has
      each key once, so no key occurs in two entries. */
  type Record = r: seq<(string, Value)> | OrderedMap.UniqueKeys(r) witness []

  /** `row[key]`: the value under `key`, `undefined` when the entries lack it. */
  function Lookup(r: seq<(string, Value)>, key: string): (v: Value)
    ensures key !in OrderedMap.Keys(r) ==> v == Undefined
    ensures v != Undefined ==> (key, v) in r
  {
    if r == [] then Undefined
    else if r[0].0 == key then r[0].1
    else
      assert OrderedMap.Keys(r) == [r[0].0] + OrderedMap.Keys(r[1..]);
      Lookup(r[1..], key)
  }

  /** In a record every entry is what its key looks up: no earlier entry
      shadows it, because keys are not repeated. */
  lemma {:induction false} LookupEntry(r: Record, i: nat)
    requires i < |r|
    ensures Lookup(r, r[i].0) == r[i].1
  {
    if i > 0 {
      assert OrderedMap.Keys(r)[0] != OrderedMap.Keys(r)[i];
      var t := r[1..];
      assert OrderedMap.UniqueKeys(t) by {
        forall a, b | 0 <= a < b < |t| ensures OrderedMap.Keys(t)[a] != OrderedMap.Keys(t)[b] {
          assert OrderedMap.Keys(r)[a + 1] != OrderedMap.Keys(r)[b + 1];
        }
      }
      LookupEntry(t, i - 1);
    }
  }

  /** The values JavaScript treats as false. */
  predicate Falsy(v: Value) {
    v == Undefined || v == Null || v == Bool(false) || v == Number(0) || v == Str("")
  }

  /** `String(row[key] || "")`: falsy values become the empty string. */
  function CellText(v: Value): string {
    if Falsy(v) then ""
    else match v
      case Bool(_) => "true"
      case Number(n) => IntString(n)
      case Str(s) => s
      case _ => ""
  }

  /** The length a cell contributes to its column's width. */
  function CellLength(v: Value): nat {
    |CellText(v)|
  }

  /** A cell counts as empty exactly when its value is falsy. */
  lemma EmptyIffFalsy(v: Value)
    ensures CellLength(v) == 0 <==> Falsy(v)
  {
    if v.Number? && v.n != 0 {
      assert |Decimal(if v.n < 0 then -v.n else v.n)| >= 1;
    }
  }

  /** The length of each row's cell under `key`, in row order. */
  function CellLengths(key: string, data: seq<Record>): (ls: seq<nat>)
    ensures |ls| == |data|
    ensures forall i :: 0 <= i < |data| ==> ls[i] == CellLength(Lookup(data[i], key))
  {
    seq(|data|, i requires 0 <= i < |data| => CellLength(Lookup(data[i], key)))
  }

  /** The largest of `ls`, 0 when it is empty: `Math.max` over the lengths. */
  function Largest(ls: seq<nat>): (m: nat)
    ensures forall i :: 0 <= i < |ls| ==> ls[i] <= m
    ensures m == 0 || m in ls
  {
    if ls == [] then 0
    else
      var rest := Largest(ls[1..]);
      assert forall i :: 1 <= i < |ls| ==> ls[1..][i - 1] == ls[i];
      if ls[0] >= rest then ls[0] else rest
  }

  /** The widest a column gets. */
  const MaxWidth: nat := 50

  /** `{ wch: Math.min(Math.max(key.length, ...cells) + 2, maxWidth) }`. */
  function ColumnWidth(key: string, data: seq<Record>): (w: nat)
    ensures w <= MaxWidth
    ensures w >= Min(|key| + 2, MaxWidth)
    ensures forall i :: 0 <= i < |data| ==> w >= Min(CellLength(Lookup(data[i], key)) + 2, MaxWidth)
  {
    var ls := CellLengths(key, data);
    CappedBounds(|key|, ls);
    Capped(|key|, ls)
  }

  /** `Math.min(Math.max(h, ...ls) + 2, maxWidth)`. */
  function Capped(h: nat, ls: seq<nat>): nat {
    var longest := Largest(ls);
    Min((if h >= longest then h else longest) + 2, MaxWidth)
  }

  /** The capped width covers the header and every length, each plus two,
      up to the cap. */
  lemma CappedBounds(h: nat, ls: seq<nat>)
    ensures Capped(h, ls) <= MaxWidth
    ensures Capped(h, ls) >= Min(h + 2, MaxWidth)
    ensures forall i :: 0 <= i < |ls| ==> Capped(h, ls) >= Min(ls[i] + 2, MaxWidth)
  {
  }

  /** The width is no more than needed: it is the header plus two, some row's
      cell plus two, or the cap, and then only because the header or a cell
      would have reached it. */
  lemma WidthAttained(key: string, data: seq<Record>)
    ensures var w := ColumnWidth(key, data);
            || (w == MaxWidth
                && (|key| + 2 >= MaxWidth
                    || exists i :: 0 <= i < |data| && CellLength(Lookup(data[i], key)) + 2 >= MaxWidth))
            || w == |key| + 2
            || exists i :: 0 <= i < |data| && w == CellLength(Lookup(data[i], key)) + 2
  {
    var ls := CellLengths(key, data);
    var longest := Largest(ls);
    if longest > |key| {
      var i :| 0 <= i < |ls| && ls[i] == longest;
      assert ls[i] == CellLength(Lookup(data[i], key));
    }
  }

  function Min(a: nat, b: nat): nat {
    if a <= b then a else b
  }

  /** One width per key of the first record, in key order. */
  function ColumnWidths(data: seq<Record>): (ws: seq<nat>)
    requires |data| > 0
    ensures |ws| == |data[0]|
    ensures forall j :: 0 <= j < |ws| ==> ws[j] == ColumnWidth(data[0][j].0, data)
  {
    seq(|data[0]|, j requires 0 <= j < |data[0]| => ColumnWidth(data[0][j].0, data))
  }

  /** Rows whose cells under `key` have the same lengths give the same width. */
  lemma SameLengthsSameWidth(key: string, a: seq<Record>, b: seq<Record>)
    requires |a| == |b|
    requires forall i :: 0 <= i < |a| ==> CellLength(Lookup(a[i], key)) == CellLength(Lookup(b[i], key))
    ensures ColumnWidth(key, a) == ColumnWidth(key, b)
  {
    assert CellLengths(key, a) == CellLengths(key, b);
  }

  /** A falsy cell widens its column no more than a row without the key. */
  lemma FalsyCellIgnored(key: string, data: seq<Record>, i: nat, v: Value)
    requires i < |data| && Falsy(v)
    ensures ColumnWidth(key, data[i := [(key, v)]]) == ColumnWidth(key, data[i := []])
  {
    EmptyIffFalsy(v);
    SameLengthsSameWidth(key, data[i := [(key, v)]], data[i := []]);
  }

  // ---------------------------------------------------------------------------
  // The two exports

  const NoData := "No data to export"

  /** The download name: the base name, an underscore, the millisecond clock. */
  function StampedName(filename: string, now: nat, extension: string): string {
    filename + "_" + Decimal(now) + extension
  }

  /** `exportToCSV`: rejects empty data, else names the `.csv` download. The
      file contents come from a CSV serialiser outside this model. */
  function ExportToCsv(data: seq<Record>, filename: string, now: nat): (r: Result<string, string>)
    ensures r.Failure? <==> |data| == 0
    ensures r.Failure? ==> r.error == NoData
    ensures r.Success? ==> r.value == StampedName(filename, now, ".csv")
  {
    if |data| == 0 then Failure(NoData) else Success(StampedName(filename, now, ".csv"))
  }

  /** What `exportToExcel` hands to the spreadsheet writer. */
  datatype Workbook = Workbook(sheetName: string, widths: seq<nat>, fileName: string)

  /** `exportToExcel`: rejects empty data, else one sheet with the computed
      column widths, named `sheetName` or "Sheet1" when none is given. */
  function ExportToExcel(data: seq<Record>, filename: string, sheetName: Option<string>, now: nat)
    : (r: Result<Workbook, string>)
    ensures r.Failure? <==> |data| == 0
    ensures r.Failure? ==> r.error == NoData
    ensures r.Success? ==>
              && r.value.sheetName == sheetName.GetOr("Sheet1")
              && |r.value.widths| == |data[0]|
              && (forall j :: 0 <= j < |data[0]| ==> r.value.widths[j] == ColumnWidth(data[0][j].0, data))
              && r.value.fileName == StampedName(filename, now, ".xlsx")
  {
    if |data| == 0 then Failure(NoData)
    else Success(Workbook(sheetName.GetOr("Sheet1"), ColumnWidths(data), StampedName(filename, now, ".xlsx")))
  }

  /** Both exports refuse exactly the same inputs, with the same message. */
  lemma SameGuard(data: seq<Record>, filename: string, sheetName: Option<string>, now: nat)
    ensures ExportToCsv(data, filename, now).Failure? <==> ExportToExcel(data, filename, sheetName, now).Failure?
    ensures ExportToCsv(data, filename, now).Failure? ==>
              ExportToCsv(data, filename, now).error == ExportToExcel(data, filename, sheetName, now).error
  {
  }

  /** The clock can be read back from a download name. */
  lemma StampReadBack(filename: string, now: nat, extension: string)
    ensures var name := StampedName(filename, now, extension);
            var stamp := name[|filename| + 1 .. |name| - |extension|];
            && stamp == Decimal(now)
            && ParseDecimal(stamp) == now
  {
    var name := StampedName(filename, now, extension);
    assert name == filename + "_" + Decimal(now) + extension;
    assert name[|filename| + 1 .. |name| - |extension|] == Decimal(now);
    DecimalRoundTrip(now);
  }

  // ---------------------------------------------------------------------------
  // Timestamp strings

  /** Every ':' replaced by '-', as `replace(/:/g, "-")`. */
  function ColonsToDashes(s: string): (r: string)
    ensures |r| == |s|
    ensures forall i :: 0 <= i < |s| ==> r[i] == if s[i] == ':' then '-' else s[i]
  {
    seq(|s|, i requires 0 <= i < |s| => if s[i] == ':' then '-' else s[i])
  }

  /** `getTimestampString` given the clock's ISO string: its first 19
      characters, with colons made safe for file names. */
  function TimestampString(iso: string): (r: string)
    ensures |r| == Min(|iso|, 19)
    ensures ':' !in r
    ensures forall i :: 0 <= i < |r| && iso[i] != ':' ==> r[i] == iso[i]
    ensures forall i :: 0 <= i < |r| && iso[i] == ':' ==> r[i] == '-'
  {
    ColonsToDashes(iso[..Min(|iso|, 19)])
  }

  /** A timestamp string is already safe: making it again changes nothing. */
  lemma TimestampIdempotent(iso: string)
    ensures TimestampString(TimestampString(iso)) == TimestampString(iso)
  {
  }

  predicate DigitsAt(s: string, lo: nat, hi: nat)
    requires lo <= hi <= |s|
  {
    forall i :: lo <= i < hi ==> IsDigit(s[i])
  }

  /** `Date.prototype.toISOString()` output: `YYYY-MM-DDTHH:mm:ss.sssZ`. */
  predicate IsIsoInstant(s: string) {
    && |s| == 24
    && DigitsAt(s, 0, 4) && DigitsAt(s, 5, 7) && DigitsAt(s, 8, 10)
    && DigitsAt(s, 11, 13) && DigitsAt(s, 14, 16) && DigitsAt(s, 17, 19) && DigitsAt(s, 20, 23)
    && s[4] == '-' && s[7] == '-' && s[10] == 'T' && s[13] == ':' && s[16] == ':'
    && s[19] == '.' && s[23] == 'Z'
  }

  /** For a clock reading, the timestamp is `YYYY-MM-DDTHH-mm-ss`: the date and
      time fields kept, the two time colons turned into dashes. */
  lemma IsoTimestamp(iso: string)
    requires IsIsoInstant(iso)
    ensures var r := TimestampString(iso);
            && |r| == 19
            && r[..13] == iso[..13]
            && r[13] == '-' && r[14..16] == iso[14..16]
            && r[16] == '-' && r[17..] == iso[17..19]
  {
  }
}
