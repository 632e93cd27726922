/**
 * The record normalisation of `pdc_task1/app.py` for one input file: the ten derived
 * columns with their forward fills, then the in-place imputation of `time_zone` and
 * `city` from their most frequent values. Reading the file, parsing each line and
 * writing the CSV are outside the model; a file arrives as its sequence of records.
 */
module App {
  import opened Wrappers
  import opened Text
  import opened Utils
  import opened Columns

  /** One key of a parsed JSON record: not there, `null`, or holding a value. */
  datatype Field<T> = Absent | Null | Given(value: T)

  /** The JSON value under `ll`: a list, whose elements may be `null`, or any other value. */
  datatype Location<C> = List(items: seq<Option<C>>) | NotList

  /**
   * One line of the input file. `C` is whatever the coordinates are; they are only
   * copied, never computed with.
   */
  datatype Record<C> = Record(
    a: Field<string>, r: Field<string>, u: Field<string>, cy: Field<string>,
    ll: Field<Location<C>>, tz: Field<string>, t: Field<int>, hc: Field<int>)

  /** The keys of a record that hold text or epoch seconds. */
  datatype TextKey = A | R | U | Cy | Tz
  datatype TimeKey = T | Hc

  /** What processing one file can raise, with the key or column concerned. */
  datatype Error =
    | KeyError(key: string)        // no record has the key, so the frame has no such column
    | TypeError(key: string)       // an extractor was given a missing value instead of a string
    | TimestampError(key: string)  // a missing timestamp reached the local-time conversion
    | IndexError(column: string)   // `mode()` of a column with no present cell is empty

  /** The processed frame: ten columns, in the order they are written out. */
  datatype Table<C> = Table(
    webBrowser: seq<Option<string>>, operatingSys: seq<Option<string>>,
    fromUrl: seq<Option<string>>, toUrl: seq<Option<string>>,
    city: seq<Option<string>>, longitude: seq<Option<C>>, latitude: seq<Option<C>>,
    timeZone: seq<Option<string>>, timeIn: seq<Option<TimeValue>>, timeOut: seq<Option<TimeValue>>)

  /** Every column of `t` has `n` cells. */
  predicate HasRows<C>(t: Table<C>, n: nat) {
    && |t.webBrowser| == n && |t.operatingSys| == n && |t.fromUrl| == n && |t.toUrl| == n
    && |t.city| == n && |t.longitude| == n && |t.latitude| == n
    && |t.timeZone| == n && |t.timeIn| == n && |t.timeOut| == n
  }

  // ---------------------------------------------------------------------------
  // Raw columns of the frame built from the records
  // ---------------------------------------------------------------------------

  function TextField<C>(record: Record<C>, key: TextKey): Field<string> {
    match key
    case A => record.a
    case R => record.r
    case U => record.u
    case Cy => record.cy
    case Tz => record.tz
  }

  function TimeField<C>(record: Record<C>, key: TimeKey): Field<int> {
    match key
    case T => record.t
    case Hc => record.hc
  }

  /** A field as a frame cell: `null` and a missing key both read as a missing value. */
  function Cell<T>(f: Field<T>): Option<T> {
    if f.Given? then Some(f.value) else None
  }

  /** The frame has a column for a key when at least one record carries it. */
  predicate HasColumn<T>(fields: seq<Field<T>>) {
    exists i :: 0 <= i < |fields| && !fields[i].Absent?
  }

  /** Every record holds a value under the key. */
  predicate AllGiven<T>(fields: seq<Field<T>>) {
    forall i :: 0 <= i < |fields| ==> fields[i].Given?
  }

  function TextFields<C>(records: seq<Record<C>>, key: TextKey): (fs: seq<Field<string>>)
    ensures |fs| == |records|
    ensures forall i :: 0 <= i < |records| ==> fs[i] == TextField(records[i], key)
  {
    seq(|records|, i requires 0 <= i < |records| => TextField(records[i], key))
  }

  function TimeFields<C>(records: seq<Record<C>>, key: TimeKey): (fs: seq<Field<int>>)
    ensures |fs| == |records|
    ensures forall i :: 0 <= i < |records| ==> fs[i] == TimeField(records[i], key)
  {
    seq(|records|, i requires 0 <= i < |records| => TimeField(records[i], key))
  }

  function LocationFields<C>(records: seq<Record<C>>): (fs: seq<Field<Location<C>>>)
    ensures |fs| == |records|
    ensures forall i :: 0 <= i < |records| ==> fs[i] == records[i].ll
  {
    seq(|records|, i requires 0 <= i < |records| => records[i].ll)
  }

  // ---------------------------------------------------------------------------
  // Cells before the forward fill
  // ---------------------------------------------------------------------------

  /** The three functions of `utils.py` the frame applies to a column. */
  datatype Extractor = BrowserOf | OperatingSystemOf | ShortUrlOf

  function Extract(e: Extractor, s: string): string {
    match e
    case BrowserOf => Browser(s)
    case OperatingSystemOf => OperatingSystem(s)
    case ShortUrlOf => ShortenUrl(s)
  }

  /** The column of `key` with an extractor applied to each value. */
  function ExtractedCells<C>(records: seq<Record<C>>, key: TextKey, e: Extractor): (cells: seq<Option<string>>)
    ensures |cells| == |records|
    ensures forall i :: 0 <= i < |records| && TextField(records[i], key).Given? ==>
              cells[i] == Some(Extract(e, TextField(records[i], key).value))
  {
    seq(|records|, i requires 0 <= i < |records| =>
      match TextField(records[i], key)
      case Given(s) => Some(Extract(e, s))
      case _ => None)
  }

  /** The latitude of one record before the fill: `ll[0]` when `ll` is a two-element list. */
  function LatitudeOf<C>(ll: Field<Location<C>>): Option<C> {
    match ll
    case Given(List(items)) => if |items| == 2 then items[0] else None
    case _ => None
  }

  /** The longitude of one record before the fill: `ll[1]` when `ll` is a two-element list. */
  function LongitudeOf<C>(ll: Field<Location<C>>): Option<C> {
    match ll
    case Given(List(items)) => if |items| == 2 then items[1] else None
    case _ => None
  }

  function LatitudeCells<C>(records: seq<Record<C>>): (cells: seq<Option<C>>)
    ensures |cells| == |records|
    ensures forall i :: 0 <= i < |records| ==> cells[i] == LatitudeOf(records[i].ll)
  {
    seq(|records|, i requires 0 <= i < |records| => LatitudeOf(records[i].ll))
  }

  function LongitudeCells<C>(records: seq<Record<C>>): (cells: seq<Option<C>>)
    ensures |cells| == |records|
    ensures forall i :: 0 <= i < |records| ==> cells[i] == LongitudeOf(records[i].ll)
  {
    seq(|records|, i requires 0 <= i < |records| => LongitudeOf(records[i].ll))
  }

  function CityCells<C>(records: seq<Record<C>>): (cells: seq<Option<string>>)
    ensures |cells| == |records|
    ensures forall i :: 0 <= i < |records| ==> cells[i] == Cell(records[i].cy)
  {
    seq(|records|, i requires 0 <= i < |records| => Cell(records[i].cy))
  }

  function TimeZoneCells<C>(records: seq<Record<C>>): (cells: seq<Option<string>>)
    ensures |cells| == |records|
    ensures forall i :: 0 <= i < |records| ==> cells[i] == Cell(records[i].tz)
  {
    seq(|records|, i requires 0 <= i < |records| => Cell(records[i].tz))
  }

  /** The timestamps under `key` passed through `convert_timestamp`; a missing one stays missing. */
  function TimeCells<C>(records: seq<Record<C>>, key: TimeKey, keepUnix: bool, localTime: int -> string): (cells: seq<Option<TimeValue>>)
    ensures |cells| == |records|
    ensures forall i :: 0 <= i < |records| && TimeField(records[i], key).Given? ==>
              cells[i] == Some(ConvertTimestamp(TimeField(records[i], key).value, keepUnix, localTime))
    ensures forall i :: 0 <= i < |records| && !TimeField(records[i], key).Given? ==> cells[i].None?
  {
    seq(|records|, i requires 0 <= i < |records| =>
      match TimeField(records[i], key)
      case Given(x) => Some(ConvertTimestamp(x, keepUnix, localTime))
      case _ => None)
  }

  // ---------------------------------------------------------------------------
  // The processed frame
  // ---------------------------------------------------------------------------

  /**
   * The records can be turned into a frame: every record holds a user agent, a referrer
   * and a URL (and both timestamps when they are converted to local time), and each of
   * the other keys is carried by at least one record.
   */
  ghost predicate Derivable<C>(records: seq<Record<C>>, keepUnix: bool) {
    && (forall i :: 0 <= i < |records| ==> records[i].a.Given? && records[i].r.Given? && records[i].u.Given?)
    && (!keepUnix ==> forall i :: 0 <= i < |records| ==> records[i].t.Given? && records[i].hc.Given?)
    && (exists i :: 0 <= i < |records| && !records[i].cy.Absent?)
    && (exists i :: 0 <= i < |records| && !records[i].ll.Absent?)
    && (exists i :: 0 <= i < |records| && !records[i].tz.Absent?)
    && (exists i :: 0 <= i < |records| && !records[i].t.Absent?)
    && (exists i :: 0 <= i < |records| && !records[i].hc.Absent?)
  }

  /**
   * What deriving one column raises: `KeyError` when no record carries the key, otherwise
   * `valueError` when the derivation reads every value (`valueError` is then `Some`) and
   * some record has none.
   */
  function ColumnError<T>(fields: seq<Field<T>>, name: string, valueError: Option<Error>): Option<Error> {
    if !HasColumn(fields) then Some(KeyError(name))
    else if valueError.Some? && !AllGiven(fields) then valueError
    else None
  }

  /** The first error among `outcomes` from index `k` on, or `None` when there is none. */
  function FirstError(outcomes: seq<Option<Error>>, k: nat): (e: Option<Error>)
    requires k <= |outcomes|
    ensures e.None? <==> forall j :: k <= j < |outcomes| ==> outcomes[j].None?
    ensures e.Some? ==> exists j :: k <= j < |outcomes| && e == outcomes[j]
    decreases |outcomes| - k
  {
    if k == |outcomes| then None
    else if outcomes[k].Some? then outcomes[k]
    else FirstError(outcomes, k + 1)
  }

  /** The first error is the one at the first index that holds one. */
  lemma {:induction false} FirstErrorAt(outcomes: seq<Option<Error>>, k: nat, j: nat)
    requires k <= j < |outcomes| && outcomes[j].Some?
    requires forall i :: k <= i < j ==> outcomes[i].None?
    ensures FirstError(outcomes, k) == outcomes[j]
    decreases j - k
  {
    if k < j {
      FirstErrorAt(outcomes, k + 1, j);
    }
  }

  /** A missing timestamp fails only when it is converted to local time. */
  function TimeError(keepUnix: bool, name: string): Option<Error> {
    if keepUnix then None else Some(TimestampError(name))
  }

  /**
   * The outcome of each column derivation of lines 51-60, in the order of `DeriveOrder`:
   * the extractors read every `a`, `r` and `u`, the conversion reads every `t` and `hc`
   * unless timestamps are kept, and `cy`, `ll` and `tz` are only looked up.
   */
  function DeriveSteps<C>(records: seq<Record<C>>, keepUnix: bool): (steps: seq<Option<Error>>)
    ensures |steps| == |DeriveOrder|
  {
    [ ColumnError(TextFields(records, A), "a", Some(TypeError("a"))),
      ColumnError(TextFields(records, R), "r", Some(TypeError("r"))),
      ColumnError(TextFields(records, U), "u", Some(TypeError("u"))),
      ColumnError(TextFields(records, Cy), "cy", None),
      ColumnError(LocationFields(records), "ll", None),
      ColumnError(TextFields(records, Tz), "tz", None),
      ColumnError(TimeFields(records, T), "t", TimeError(keepUnix, "t")),
      ColumnError(TimeFields(records, Hc), "hc", TimeError(keepUnix, "hc")) ]
  }

  /** The first error the column derivations raise, in the order `app.py` evaluates them. */
  function DeriveError<C>(records: seq<Record<C>>, keepUnix: bool): (r: Option<Error>)
    ensures records == [] ==> r == Some(KeyError("a"))
    ensures r.Some? && r.value.TypeError? ==> r.value.key == "a" || r.value.key == "r" || r.value.key == "u"
    ensures r.Some? && r.value.TimestampError? ==> !keepUnix && (r.value.key == "t" || r.value.key == "hc")
    ensures r.Some? ==> !r.value.IndexError?
  {
    var steps := DeriveSteps(records, keepUnix);
    if records == [] then
      FirstErrorAt(steps, 0, 0);
      FirstError(steps, 0)
    else
      FirstError(steps, 0)
  }

  /** The derivations raise nothing exactly when the records are derivable. */
  lemma DeriveErrorExactly<C>(records: seq<Record<C>>, keepUnix: bool)
    ensures DeriveError(records, keepUnix).None? <==> Derivable(records, keepUnix)
  {
    var steps := DeriveSteps(records, keepUnix);
    forall k | 0 <= k < |DeriveOrder|
      ensures steps[k].None? <==> !Raises(records, keepUnix, DeriveOrder[k])
    {
      StepOutcome(records, keepUnix, k);
    }
    DerivableNoneRaises(records, keepUnix);
  }

  /** The records are derivable exactly when none of the eight derivations raises. */
  lemma DerivableNoneRaises<C>(records: seq<Record<C>>, keepUnix: bool)
    ensures Derivable(records, keepUnix) <==> forall k :: 0 <= k < |DeriveOrder| ==> !Raises(records, keepUnix, DeriveOrder[k])
  {
    var names := DeriveOrder;
    assert names[0] == "a" && names[1] == "r" && names[2] == "u" && names[3] == "cy";
    assert names[4] == "ll" && names[5] == "tz" && names[6] == "t" && names[7] == "hc";
    if forall k :: 0 <= k < |names| ==> !Raises(records, keepUnix, names[k]) {
      assert !Raises(records, keepUnix, "a") && !Raises(records, keepUnix, "r") && !Raises(records, keepUnix, "u");
      assert !Raises(records, keepUnix, "t") && !Raises(records, keepUnix, "hc");
      assert !Raises(records, keepUnix, "cy") && !Raises(records, keepUnix, "ll") && !Raises(records, keepUnix, "tz");
    }
  }

  // ---------------------------------------------------------------------------
  // Which error the derivations raise
  // ---------------------------------------------------------------------------

  /** The keys in the order the derivations at lines 51-60 read them. */
  const DeriveOrder: seq<string> := ["a", "r", "u", "cy", "ll", "tz", "t", "hc"]

  function TextKeyName(key: TextKey): string {
    match key
    case A => "a"
    case R => "r"
    case U => "u"
    case Cy => "cy"
    case Tz => "tz"
  }

  function TimeKeyName(key: TimeKey): string {
    match key
    case T => "t"
    case Hc => "hc"
  }

  /** The record has the key `name`, with a value or with `null`. */
  predicate CarriesKey<C>(record: Record<C>, name: string) {
    if name == "a" then !record.a.Absent?
    else if name == "r" then !record.r.Absent?
    else if name == "u" then !record.u.Absent?
    else if name == "cy" then !record.cy.Absent?
    else if name == "ll" then !record.ll.Absent?
    else if name == "tz" then !record.tz.Absent?
    else if name == "t" then !record.t.Absent?
    else if name == "hc" then !record.hc.Absent?
    else false
  }

  /** The record holds a value, neither missing nor `null`, under the key `name`. */
  predicate HoldsValue<C>(record: Record<C>, name: string) {
    if name == "a" then record.a.Given?
    else if name == "r" then record.r.Given?
    else if name == "u" then record.u.Given?
    else if name == "t" then record.t.Given?
    else if name == "hc" then record.hc.Given?
    else false
  }

  /**
   * The derivation of `name` hands every record's value to a function that fails on a
   * missing one: the extractors for `a`, `r` and `u`, the local-time conversion for `t`
   * and `hc`.
   */
  predicate ReadsEveryValue(name: string, keepUnix: bool) {
    name == "a" || name == "r" || name == "u" || (!keepUnix && (name == "t" || name == "hc"))
  }

  /** No record carries the key `name`, so the frame has no such column. */
  ghost predicate ColumnMissing<C>(records: seq<Record<C>>, name: string) {
    forall i :: 0 <= i < |records| ==> !CarriesKey(records[i], name)
  }

  /** The derivation of `name` raises: its column is missing, or a value it reads is. */
  ghost predicate Raises<C>(records: seq<Record<C>>, keepUnix: bool, name: string) {
    || ColumnMissing(records, name)
    || (ReadsEveryValue(name, keepUnix) && exists i :: 0 <= i < |records| && !HoldsValue(records[i], name))
  }

  /** The error the derivation of `name` raises when it does. */
  ghost function RaisedBy<C>(records: seq<Record<C>>, keepUnix: bool, name: string): Error {
    if ColumnMissing(records, name) then KeyError(name)
    else if name == "a" || name == "r" || name == "u" then TypeError(name)
    else TimestampError(name)
  }

  lemma ExtractedKeyRaises<C>(records: seq<Record<C>>, keepUnix: bool, key: TextKey)
    requires key in {A, R, U}
    ensures var name := TextKeyName(key);
      ColumnError(TextFields(records, key), name, Some(TypeError(name)))
      == if Raises(records, keepUnix, name) then Some(RaisedBy(records, keepUnix, name)) else None
  {
    var fs := TextFields(records, key);
    assert forall i :: 0 <= i < |records| ==> (CarriesKey(records[i], TextKeyName(key)) <==> !fs[i].Absent?);
    assert forall i :: 0 <= i < |records| ==> (HoldsValue(records[i], TextKeyName(key)) <==> fs[i].Given?);
  }

  lemma CopiedKeyRaises<C>(records: seq<Record<C>>, keepUnix: bool, key: TextKey)
    requires key in {Cy, Tz}
    ensures var name := TextKeyName(key);
      ColumnError(TextFields(records, key), name, None)
      == if Raises(records, keepUnix, name) then Some(RaisedBy(records, keepUnix, name)) else None
  {
    var fs := TextFields(records, key);
    assert forall i :: 0 <= i < |records| ==> (CarriesKey(records[i], TextKeyName(key)) <==> !fs[i].Absent?);
  }

  lemma TimeKeyRaises<C>(records: seq<Record<C>>, keepUnix: bool, key: TimeKey)
    ensures var name := TimeKeyName(key);
      ColumnError(TimeFields(records, key), name, TimeError(keepUnix, name))
      == if Raises(records, keepUnix, name) then Some(RaisedBy(records, keepUnix, name)) else None
  {
    var fs := TimeFields(records, key);
    assert forall i :: 0 <= i < |records| ==> (CarriesKey(records[i], TimeKeyName(key)) <==> !fs[i].Absent?);
    assert forall i :: 0 <= i < |records| ==> (HoldsValue(records[i], TimeKeyName(key)) <==> fs[i].Given?);
  }

  lemma LocationRaises<C>(records: seq<Record<C>>, keepUnix: bool)
    ensures ColumnError(LocationFields(records), "ll", None)
            == if Raises(records, keepUnix, "ll") then Some(RaisedBy(records, keepUnix, "ll")) else None
  {
    var fs := LocationFields(records);
    assert forall i :: 0 <= i < |records| ==> (CarriesKey(records[i], "ll") <==> !fs[i].Absent?);
  }

  /** Deriving the k-th column raises exactly when `Raises` says so, with `RaisedBy`'s error. */
  lemma StepOutcome<C>(records: seq<Record<C>>, keepUnix: bool, k: nat)
    requires k < |DeriveOrder|
    ensures DeriveSteps(records, keepUnix)[k]
            == if Raises(records, keepUnix, DeriveOrder[k]) then Some(RaisedBy(records, keepUnix, DeriveOrder[k])) else None
  {
    var steps := DeriveSteps(records, keepUnix);
    if k == 0 {
      assert steps[0] == ColumnError(TextFields(records, A), "a", Some(TypeError("a")));
      ExtractedKeyRaises(records, keepUnix, A);
    } else if k == 1 {
      assert steps[1] == ColumnError(TextFields(records, R), "r", Some(TypeError("r")));
      ExtractedKeyRaises(records, keepUnix, R);
    } else if k == 2 {
      assert steps[2] == ColumnError(TextFields(records, U), "u", Some(TypeError("u")));
      ExtractedKeyRaises(records, keepUnix, U);
    } else if k == 3 {
      assert steps[3] == ColumnError(TextFields(records, Cy), "cy", None);
      CopiedKeyRaises(records, keepUnix, Cy);
    } else if k == 4 {
      assert steps[4] == ColumnError(LocationFields(records), "ll", None);
      LocationRaises(records, keepUnix);
    } else if k == 5 {
      assert steps[5] == ColumnError(TextFields(records, Tz), "tz", None);
      CopiedKeyRaises(records, keepUnix, Tz);
    } else if k == 6 {
      assert steps[6] == ColumnError(TimeFields(records, T), "t", TimeError(keepUnix, "t"));
      TimeKeyRaises(records, keepUnix, T);
    } else {
      assert steps[7] == ColumnError(TimeFields(records, Hc), "hc", TimeError(keepUnix, "hc"));
      TimeKeyRaises(records, keepUnix, Hc);
    }
  }

  /**
   * The derivations run in the order of `DeriveOrder`: when the derivation of the k-th key
   * raises and none before it does, that derivation's error is the one reported.
   */
  lemma DeriveErrorFirst<C>(records: seq<Record<C>>, keepUnix: bool, k: nat)
    requires k < |DeriveOrder| && Raises(records, keepUnix, DeriveOrder[k])
    requires forall j :: 0 <= j < k ==> !Raises(records, keepUnix, DeriveOrder[j])
    ensures DeriveError(records, keepUnix) == Some(RaisedBy(records, keepUnix, DeriveOrder[k]))
  {
    var steps := DeriveSteps(records, keepUnix);
    forall j | 0 <= j <= k
      ensures steps[j] == if Raises(records, keepUnix, DeriveOrder[j]) then Some(RaisedBy(records, keepUnix, DeriveOrder[j])) else None
    {
      StepOutcome(records, keepUnix, j);
    }
    FirstErrorAt(steps, 0, k);
  }

  /**
   * The `df_processed` frame built from the records of one file: each column derived
   * from its key record by record and forward-filled, except `time_zone`.
   */
  function Processed<C>(records: seq<Record<C>>, keepUnix: bool, localTime: int -> string): (t: Table<C>)
    ensures HasRows(t, |records|)
  {
    Table(
      webBrowser := FFill(ExtractedCells(records, A, BrowserOf)),
      operatingSys := FFill(ExtractedCells(records, A, OperatingSystemOf)),
      fromUrl := FFill(ExtractedCells(records, R, ShortUrlOf)),
      toUrl := FFill(ExtractedCells(records, U, ShortUrlOf)),
      city := FFill(CityCells(records)),
      longitude := FFill(LongitudeCells(records)),
      latitude := FFill(LatitudeCells(records)),
      timeZone := TimeZoneCells(records),
      timeIn := FFill(TimeCells(records, T, keepUnix, localTime)),
      timeOut := FFill(TimeCells(records, Hc, keepUnix, localTime)))
  }

  /** Lines 50-61 as a whole: the processed frame, or the first error its derivations raise. */
  function Process<C>(records: seq<Record<C>>, keepUnix: bool, localTime: int -> string): (res: Result<Table<C>, Error>)
    ensures res.Err? <==> DeriveError(records, keepUnix).Some?
    ensures res.Err? ==> res.error == DeriveError(records, keepUnix).value
    ensures res.Ok? ==> res.value == Processed(records, keepUnix, localTime)
  {
    match DeriveError(records, keepUnix)
    case Some(e) => Err(e)
    case None => Ok(Processed(records, keepUnix, localTime))
  }

  /** A file with no records yields a frame with no columns, so the first lookup fails. */
  lemma ProcessNoRecords<C>(keepUnix: bool, localTime: int -> string)
    ensures Process<C>([], keepUnix, localTime) == Err(KeyError("a"))
  {
  }

  /** The derivations that succeed have found a value under every text key an extractor reads. */
  lemma DerivedKeysGiven<C>(records: seq<Record<C>>, keepUnix: bool)
    requires DeriveError(records, keepUnix).None?
    ensures AllGiven(TextFields(records, A)) && AllGiven(TextFields(records, R)) && AllGiven(TextFields(records, U))
    ensures !keepUnix ==> AllGiven(TimeFields(records, T)) && AllGiven(TimeFields(records, Hc))
  {
    var steps := DeriveSteps(records, keepUnix);
    assert steps[0].None? && steps[1].None? && steps[2].None? && steps[6].None? && steps[7].None?;
  }

  /** An extracted column with a value in every record is not changed by its forward fill. */
  lemma ExtractedColumnUnfilled<C>(records: seq<Record<C>>, key: TextKey, e: Extractor, i: nat)
    requires AllGiven(TextFields(records, key)) && i < |records|
    ensures TextField(records[i], key).Given?
    ensures FFill(ExtractedCells(records, key, e))[i] == Some(Extract(e, TextField(records[i], key).value))
  {
    assert TextFields(records, key)[i] == TextField(records[i], key);
    FFillComplete(ExtractedCells(records, key, e));
  }

  /**
   * The browser and operating-system columns are never missing, so their forward fill
   * changes nothing: row i holds what the extractor finds in record i's user agent.
   */
  lemma ProcessedAgentColumns<C>(records: seq<Record<C>>, keepUnix: bool, localTime: int -> string, i: nat)
    requires DeriveError(records, keepUnix).None? && i < |records|
    ensures records[i].a.Given?
    ensures Processed(records, keepUnix, localTime).webBrowser[i] == Some(Browser(records[i].a.value))
    ensures Processed(records, keepUnix, localTime).operatingSys[i] == Some(OperatingSystem(records[i].a.value))
  {
    DerivedKeysGiven(records, keepUnix);
    ExtractedColumnUnfilled(records, A, BrowserOf, i);
    ExtractedColumnUnfilled(records, A, OperatingSystemOf, i);
  }

  /**
   * The two URL columns are never missing either: row i holds the shortened referrer and
   * the shortened target URL of record i.
   */
  lemma ProcessedUrlColumns<C>(records: seq<Record<C>>, keepUnix: bool, localTime: int -> string, i: nat)
    requires DeriveError(records, keepUnix).None? && i < |records|
    ensures records[i].r.Given? && records[i].u.Given?
    ensures Processed(records, keepUnix, localTime).fromUrl[i] == Some(ShortenUrl(records[i].r.value))
    ensures Processed(records, keepUnix, localTime).toUrl[i] == Some(ShortenUrl(records[i].u.value))
  {
    DerivedKeysGiven(records, keepUnix);
    UrlColumnsOfGivenKeys(records, keepUnix, localTime, i);
  }

  /** Row i of the URL columns when every record holds `r` and `u`. */
  lemma UrlColumnsOfGivenKeys<C>(records: seq<Record<C>>, keepUnix: bool, localTime: int -> string, i: nat)
    requires AllGiven(TextFields(records, R)) && AllGiven(TextFields(records, U)) && i < |records|
    ensures records[i].r.Given? && records[i].u.Given?
    ensures Processed(records, keepUnix, localTime).fromUrl[i] == Some(ShortenUrl(records[i].r.value))
    ensures Processed(records, keepUnix, localTime).toUrl[i] == Some(ShortenUrl(records[i].u.value))
  {
    ProcessedExtractedColumn(records, keepUnix, localTime, R, i);
    ProcessedExtractedColumn(records, keepUnix, localTime, U, i);
  }

  /** Row i of the URL column taken from `key`, stated through the extractor it applies. */
  lemma ProcessedExtractedColumn<C>(records: seq<Record<C>>, keepUnix: bool, localTime: int -> string, key: TextKey, i: nat)
    requires AllGiven(TextFields(records, key)) && i < |records| && (key == R || key == U)
    ensures TextField(records[i], key).Given?
    ensures var t := Processed(records, keepUnix, localTime);
      (if key == R then t.fromUrl else t.toUrl)[i] == Some(Extract(ShortUrlOf, TextField(records[i], key).value))
  {
    ExtractedColumnUnfilled(records, key, ShortUrlOf, i);
  }

  /**
   * The columns taken from `cy`, `ll`, `t` and `hc` are forward fills of one cell per
   * record, in record order; `time_zone` is `tz` copied without a fill.
   */
  lemma ProcessedFilledColumns<C>(records: seq<Record<C>>, keepUnix: bool, localTime: int -> string)
    ensures var t := Processed(records, keepUnix, localTime);
      && IsForwardFill(CityCells(records), t.city)
      && IsForwardFill(LatitudeCells(records), t.latitude)
      && IsForwardFill(LongitudeCells(records), t.longitude)
      && IsForwardFill(TimeCells(records, T, keepUnix, localTime), t.timeIn)
      && IsForwardFill(TimeCells(records, Hc, keepUnix, localTime), t.timeOut)
      && forall i :: 0 <= i < |records| ==> t.timeZone[i] == Cell(records[i].tz)
  {
  }

  /**
   * With human-readable timestamps every record has both timestamps, so `time_in`
   * and `time_out` are the local times of the record's own `t` and `hc`.
   */
  lemma ProcessedLocalTimes<C>(records: seq<Record<C>>, localTime: int -> string, i: nat)
    requires DeriveError(records, false).None? && i < |records|
    ensures records[i].t.Given? && records[i].hc.Given?
    ensures var t := Processed(records, false, localTime);
      && t.timeIn[i] == Some(Local(localTime(records[i].t.value)))
      && t.timeOut[i] == Some(Local(localTime(records[i].hc.value)))
  {
    DerivedKeysGiven(records, false);
    TimeColumnUnfilled(records, T, localTime, i);
    TimeColumnUnfilled(records, Hc, localTime, i);
  }

  /** A timestamp column with a value in every record is not changed by its forward fill. */
  lemma TimeColumnUnfilled<C>(records: seq<Record<C>>, key: TimeKey, localTime: int -> string, i: nat)
    requires AllGiven(TimeFields(records, key)) && i < |records|
    ensures TimeField(records[i], key).Given?
    ensures FFill(TimeCells(records, key, false, localTime))[i] == Some(Local(localTime(TimeField(records[i], key).value)))
  {
    assert TimeFields(records, key)[i] == TimeField(records[i], key);
    FFillComplete(TimeCells(records, key, false, localTime));
  }

  /**
   * A record whose `ll` is a two-element list has its own latitude and longitude in its
   * row; when they are present they are not overwritten by the fill.
   */
  lemma ProcessedCoordinates<C>(records: seq<Record<C>>, keepUnix: bool, localTime: int -> string, i: nat, lat: C, lon: C)
    requires i < |records|
    requires records[i].ll == Given(List([Some(lat), Some(lon)]))
    ensures Processed(records, keepUnix, localTime).latitude[i] == Some(lat)
    ensures Processed(records, keepUnix, localTime).longitude[i] == Some(lon)
  {
    assert LatitudeCells(records)[i] == Some(lat);
    assert LongitudeCells(records)[i] == Some(lon);
  }

  // ---------------------------------------------------------------------------
  // Imputation
  // ---------------------------------------------------------------------------

  /**
   * The frame after `time_zone` and `city` are imputed from the modes of the processed
   * frame; `IndexError` when a mode is empty, `time_zone` being looked at first.
   */
  function Imputed<C>(t: Table<C>): (res: Result<Table<C>, Error>)
    ensures res.Err? <==> Mode(t.timeZone).None? || Mode(t.city).None?
    ensures res.Err? ==> res.error == IndexError(if Mode(t.timeZone).None? then "time_zone" else "city")
  {
    match Mode(t.timeZone)
    case None => Err(IndexError("time_zone"))
    case Some(mostTz) =>
      match Mode(t.city)
      case None => Err(IndexError("city"))
      case Some(mostC) => Ok(t.(timeZone := ImputeTimeZone(t.timeZone, mostTz), city := ImputeCity(t.city, mostC)))
  }

  /** Once both modes exist, the imputed frame is the one with both columns replaced. */
  lemma ImputedByModes<C>(t: Table<C>, mostTz: string, mostC: string)
    requires Mode(t.timeZone) == Some(mostTz) && Mode(t.city) == Some(mostC)
    ensures Imputed(t) == Ok(t.(timeZone := ImputeTimeZone(t.timeZone, mostTz), city := ImputeCity(t.city, mostC)))
  {
  }

  /**
   * Imputing an imputed frame again changes nothing when the value put into `time_zone`
   * was already stripped and non-empty; the value put into `city` may be anything.
   */
  lemma ImputedIdempotent<C>(t: Table<C>)
    requires Imputed(t).Ok?
    requires Mode(t.timeZone).value != [] && Strip(Mode(t.timeZone).value) == Mode(t.timeZone).value
    ensures Imputed(Imputed(t).value) == Imputed(t)
  {
    var mostTz, mostC := Mode(t.timeZone).value, Mode(t.city).value;
    ImputedByModes(t, mostTz, mostC);
    var tz1, c1 := ImputeTimeZone(t.timeZone, mostTz), ImputeCity(t.city, mostC);
    if mostC == [] {
      assert c1 == t.city;
    }
    ImputeKeepsMode(t.timeZone, mostTz, mostC);
    ImputeKeepsMode(t.city, mostTz, mostC);
    var t1 := t.(timeZone := tz1, city := c1);
    ImputedByModes(t1, Mode(tz1).value, Mode(c1).value);
    ImputeTimeZoneIdempotent(t.timeZone, mostTz, Mode(tz1).value);
    ImputeCityIdempotent(t.city, mostC, Mode(c1).value);
  }

  /** The processed frame, held as a mutable object whose columns can be replaced. */
  class Frame<C> {
    var webBrowser: seq<Option<string>>
    var operatingSys: seq<Option<string>>
    var fromUrl: seq<Option<string>>
    var toUrl: seq<Option<string>>
    var city: seq<Option<string>>
    var longitude: seq<Option<C>>
    var latitude: seq<Option<C>>
    var timeZone: seq<Option<string>>
    var timeIn: seq<Option<TimeValue>>
    var timeOut: seq<Option<TimeValue>>

    /** The columns as a value. */
    function Columns(): Table<C>
      reads this
    {
      Table(webBrowser, operatingSys, fromUrl, toUrl, city, longitude, latitude, timeZone, timeIn, timeOut)
    }

    constructor (t: Table<C>)
      ensures Columns() == t
    {
      webBrowser, operatingSys, fromUrl, toUrl := t.webBrowser, t.operatingSys, t.fromUrl, t.toUrl;
      city, longitude, latitude := t.city, t.longitude, t.latitude;
      timeZone, timeIn, timeOut := t.timeZone, t.timeIn, t.timeOut;
    }

    /**
     * Computes both modes, then overwrites `time_zone` and `city` in place. When a mode
     * is empty it fails before either column is assigned.
     */
    method Impute() returns (outcome: Outcome<Error>)
      modifies this`timeZone, this`city
      ensures outcome.Fail? <==> Imputed(old(Columns())).Err?
      ensures outcome.Fail? ==> outcome.error == Imputed(old(Columns())).error && Columns() == old(Columns())
      ensures outcome.Pass? ==> Columns() == Imputed(old(Columns())).value
    {
      var mostTz := Mode(timeZone);
      if mostTz.None? {
        return Fail(IndexError("time_zone"));
      }
      var mostC := Mode(city);
      if mostC.None? {
        return Fail(IndexError("city"));
      }
      ImputedByModes(Columns(), mostTz.value, mostC.value);
      timeZone := ImputeTimeZone(timeZone, mostTz.value);
      city := ImputeCity(city, mostC.value);
      return Pass;
    }
  }

  /**
   * One input file, from its parsed records to the frame that is written out: build the
   * processed frame, then impute its `time_zone` and `city` in place.
   */
  method ProcessFile<C>(records: seq<Record<C>>, keepUnix: bool, localTime: int -> string)
    returns (result: Result<Table<C>, Error>)
    ensures result.Err? <==> DeriveError(records, keepUnix).Some? || Imputed(Processed(records, keepUnix, localTime)).Err?
    ensures result.Ok? ==> result == Imputed(Processed(records, keepUnix, localTime)) && HasRows(result.value, |records|)
    ensures result.Err? && DeriveError(records, keepUnix).Some? ==> result.error == DeriveError(records, keepUnix).value
    ensures result.Err? && DeriveError(records, keepUnix).None? ==> result.error == Imputed(Processed(records, keepUnix, localTime)).error
  {
    var processed := Process(records, keepUnix, localTime);
    if processed.Err? {
      return Err(processed.error);
    }
    var frame := new Frame(processed.value);
    var outcome := frame.Impute();
    if outcome.Fail? {
      return Err(outcome.error);
    }
    return Ok(frame.Columns());
  }
}
