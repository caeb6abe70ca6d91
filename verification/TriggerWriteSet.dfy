/**
 * From a trigger's record to the columns a write sets
 * (internal/db/AppRuntimeMutation.go, AppRuntime.go, HandleSave.go).
 */
module TriggerWriteSet {
  import opened Common
  import opened Text
  import opened StableSorting

  /** A value as scripts see it; a stored date or timestamp is read as an instant. */
  datatype Value = Nil | Text(text: string) | Number(number: int) | Flag(flag: bool) | Tree(json: string)
                     | Instant(instant: int)

  datatype ViewColumn = ViewColumn(name: string, dataType: string, isNullable: bool)

  type Record = map<string, Value>

  /** Reading a Go map: a missing key is nil. */
  function Lookup(record: Record, key: string): Value { if key in record then record[key] else Nil }

  function IsSet(flags: map<string, bool>, key: string): bool { key in flags && flags[key] }

  datatype Normal = Normal(text: string, isNull: bool)

  /** normalizeScriptColumnValue, comparableSnapshotValue, runtimeFieldValue and scriptColumnCast. */
  datatype Codec = Codec(
    normalize: (ViewColumn, Value) -> Result<Normal, string>,
    comparable: (ViewColumn, Value) -> string,
    native: (ViewColumn, string, bool) -> Result<Value, string>,
    cast: string -> string)

  /** What those four do with nulls, instants, plain text and dates. */
  ghost predicate LawfulCodec(codec: Codec) {
    && (forall c :: codec.normalize(c, Nil) == Ok(Normal("", true)))
    && (forall c, v :: codec.normalize(c, v).Ok? && codec.normalize(c, v).value.isNull ==>
        codec.normalize(c, v).value.text == "")
    && (forall c, t :: codec.normalize(c, Instant(t)).Err?)
    && (forall c: ViewColumn, s: string :: c.dataType == "text" ==>
        codec.normalize(c, Text(s)) == Ok(Normal(TrimSpace(s), false)))
    && (forall c :: codec.comparable(c, Nil) == "")
    && (forall c: ViewColumn, s: string :: c.dataType == "text" ==> codec.comparable(c, Text(s)) == s)
    && (forall c: ViewColumn, s: string :: c.dataType == "date" && |s| >= 10 ==>
        codec.comparable(c, Text(s)) == s[..10])
    && (forall c, s :: codec.native(c, s, true) == Ok(Nil))
  }

  /** scriptColumnsByName. */
  function ColumnsByName(columns: seq<ViewColumn>): (m: map<string, ViewColumn>)
    ensures forall name :: name in m <==> exists i :: 0 <= i < |columns| && columns[i].name == name
    ensures forall name :: name in m ==> m[name].name == name && m[name] in columns
  {
    if columns == [] then map[] else
    var front := ColumnsByName(columns[..|columns| - 1]);
    var last := columns[|columns| - 1];
    assert forall i :: 0 <= i < |columns| - 1 ==> columns[..|columns| - 1][i] == columns[i];
    front[last.name := last]
  }

  /** Of several columns of one name the last one is found. */
  lemma {:induction false} LastColumnWins(columns: seq<ViewColumn>, i: nat)
    requires i < |columns| && forall j :: i < j < |columns| ==> columns[j].name != columns[i].name
    ensures columns[i].name in ColumnsByName(columns) && ColumnsByName(columns)[columns[i].name] == columns[i]
  {
    if i < |columns| - 1 {
      LastColumnWins(columns[..|columns| - 1], i);
    }
  }

  predicate IsSystemKey(key: string) { "_" <= key }

  /** A column of the view that triggers may write. */
  predicate Known(columns: seq<ViewColumn>, key: string) { key in ColumnsByName(columns) && !IsSystemKey(key) }

  // ---- What a trigger's record asks for ----

  datatype Cell = Absent | Bind(text: string) | SetNull

  function NormalText(n: Normal): string { if n.isNull then "" else n.text }

  /** The value to write for one column of the record: nothing when it is unchanged. */
  function CellFor(codec: Codec, c: ViewColumn, current: Value, previous: Value, isCreate: bool): Cell {
    var normal := codec.normalize(c, current);
    if normal.Err? || (!isCreate && NormalText(normal.value) == codec.comparable(c, previous)) then Absent
    else if normal.value.isNull then SetNull
    else Bind(normal.value.text)
  }

  function KeyCell(codec: Codec, columns: seq<ViewColumn>, current: Record, previous: Record, isCreate: bool,
                   key: string): Cell
    requires Known(columns, key)
  {
    if key !in current then Absent
    else CellFor(codec, ColumnsByName(columns)[key], current[key], Lookup(previous, key), isCreate)
  }

  predicate Normalizes(codec: Codec, columns: seq<ViewColumn>, current: Record, key: string)
    requires Known(columns, key)
  {
    key in current ==> codec.normalize(ColumnsByName(columns)[key], current[key]).Ok?
  }

  /** The two maps hold exactly this cell for the key. */
  predicate Holds(form: map<string, string>, nulls: map<string, bool>, key: string, cell: Cell) {
    && (key in form <==> cell.Bind?)
    && (cell.Bind? ==> form[key] == cell.text)
    && (key in nulls <==> cell.SetNull?)
    && (cell.SetNull? ==> nulls[key])
  }

  predicate SameKey(form: map<string, string>, nulls: map<string, bool>, form0: map<string, string>,
                    nulls0: map<string, bool>, key: string) {
    && (key in form <==> key in form0) && (key in form ==> form[key] == form0[key])
    && (key in nulls <==> key in nulls0) && (key in nulls ==> nulls[key] == nulls0[key])
  }

  /** Everything but the known columns is as it was. */
  ghost predicate OthersKept(columns: seq<ViewColumn>, form: map<string, string>, nulls: map<string, bool>,
                             form0: map<string, string>, nulls0: map<string, bool>) {
    forall key :: !Known(columns, key) ==> SameKey(form, nulls, form0, nulls0, key)
  }

  /** A trigger's record on its way into the two maps. */
  datatype Applying = Applying(codec: Codec, columns: seq<ViewColumn>, current: Record, previous: Record,
                               isCreate: bool)

  ghost predicate KeyApplied(a: Applying, form: map<string, string>, nulls: map<string, bool>, key: string)
    requires Known(a.columns, key)
  {
    Normalizes(a.codec, a.columns, a.current, key)
        && Holds(form, nulls, key, KeyCell(a.codec, a.columns, a.current, a.previous, a.isCreate, key))
  }

  /** Every known column has its cell, except those of the fields still to be walked. */
  ghost predicate AppliedExcept(a: Applying, form: map<string, string>, nulls: map<string, bool>,
                                remaining: set<string>) {
    forall key :: Known(a.columns, key) ==>
      if key in remaining then Holds(form, nulls, key, Absent) else KeyApplied(a, form, nulls, key)
  }

  lemma SkippedField(a: Applying, form: map<string, string>, nulls: map<string, bool>, remaining: set<string>,
                     key: string)
    requires AppliedExcept(a, form, nulls, remaining) && !Known(a.columns, key)
    ensures AppliedExcept(a, form, nulls, remaining - {key})
  {
    hide Known, KeyApplied, Holds;
  }

  lemma AppliedField(a: Applying, form: map<string, string>, nulls: map<string, bool>, form0: map<string, string>,
                     nulls0: map<string, bool>,
                     remaining: set<string>, key: string)
    requires AppliedExcept(a, form0, nulls0, remaining) && Known(a.columns, key) && KeyApplied(a, form, nulls, key)
    requires forall other :: other != key ==> SameKey(form, nulls, form0, nulls0, other)
    ensures AppliedExcept(a, form, nulls, remaining - {key})
  {
    hide Known, Normalizes, KeyCell;
    forall k | Known(a.columns, k)
      ensures if k in remaining - {key} then Holds(form, nulls, k, Absent) else KeyApplied(a, form, nulls, k)
    {
      if k != key { assert SameKey(form, nulls, form0, nulls0, k); }
    }
  }

  lemma StillAbsent(a: Applying, form: map<string, string>, nulls: map<string, bool>, remaining: set<string>,
                    key: string)
    requires AppliedExcept(a, form, nulls, remaining) && Known(a.columns, key) && key in remaining
    ensures Holds(form, nulls, key, Absent)
  {}

  lemma AllApplied(a: Applying, form: map<string, string>, nulls: map<string, bool>)
    requires AppliedExcept(a, form, nulls, {})
    ensures forall key :: Known(a.columns, key) ==>
              Normalizes(a.codec, a.columns, a.current, key)
                  && Holds(form, nulls, key, KeyCell(a.codec, a.columns, a.current, a.previous, a.isCreate, key))
  {
    hide Known, Normalizes, Holds, KeyCell;
    forall key | Known(a.columns, key) ensures KeyApplied(a, form, nulls, key) {}
  }

  lemma OthersStayKept(columns: seq<ViewColumn>, form: map<string, string>, nulls: map<string, bool>,
                       form0: map<string, string>, nulls0: map<string, bool>,
                       form1: map<string, string>, nulls1: map<string, bool>, key: string)
    requires OthersKept(columns, form1, nulls1, form0, nulls0) && Known(columns, key)
    requires forall other :: other != key ==> SameKey(form, nulls, form1, nulls1, other)
    ensures OthersKept(columns, form, nulls, form0, nulls0)
  {
    hide Known;
    forall other | !Known(columns, other) ensures SameKey(form, nulls, form0, nulls0, other) {
      assert SameKey(form, nulls, form1, nulls1, other) && SameKey(form1, nulls1, form0, nulls0, other);
    }
  }

  /** The submitted values of a write, as it travels from the form to the SQL statement. */
  class WriteSet {
    var formData: map<string, string>
    var nullColumns: map<string, bool>

    constructor (form: map<string, string>, nulls: map<string, bool>)
      ensures formData == form && nullColumns == nulls
    {
      formData, nullColumns := form, nulls;
    }

    /** applyRuntimeTriggerRecordToFormData; the record is walked in any order. */
    method ApplyTriggerRecord(codec: Codec, columns: seq<ViewColumn>, current: Record, previous: Record,
                              isCreate: bool) returns (error: Option<string>)
      modifies this
      ensures error.None? <==> forall key :: Known(columns, key) ==> Normalizes(codec, columns, current, key)
      ensures OthersKept(columns, formData, nullColumns, old(formData), old(nullColumns))
      ensures error.None? ==>
                forall key :: Known(columns, key) ==>
                    Holds(formData, nullColumns, key, KeyCell(codec, columns, current, previous, isCreate, key))
    {
      DropKnown(columns);
      ghost var a := Applying(codec, columns, current, previous, isCreate);
      var byName := ColumnsByName(columns);
      var remaining := current.Keys;
      assert AppliedExcept(a, formData, nullColumns, remaining);
      hide AppliedExcept, CellFor, OthersKept, ColumnsByName, Holds, SameKey;
      while remaining != {}
        invariant remaining <= current.Keys
        invariant OthersKept(columns, formData, nullColumns, old(formData), old(nullColumns))
        invariant AppliedExcept(a, formData, nullColumns, remaining)
        decreases remaining
      {
        ghost var form, nulls := formData, nullColumns;
        var fieldName :| fieldName in remaining;
        if fieldName !in byName || "_" <= fieldName {
          SkippedField(a, form, nulls, remaining, fieldName);
          remaining := remaining - {fieldName};
          continue;
        }
        StillAbsent(a, form, nulls, remaining, fieldName);
        error := ApplyField(codec, byName[fieldName], current[fieldName], Lookup(previous, fieldName), isCreate);
        OthersStayKept(columns, formData, nullColumns, old(formData), old(nullColumns), form, nulls, fieldName);
        if error.Some? {
          assert Known(columns, fieldName) && !Normalizes(codec, columns, current, fieldName);
          return;
        }
        AppliedField(a, formData, nullColumns, form, nulls, remaining, fieldName);
        remaining := remaining - {fieldName};
      }
      AllApplied(a, formData, nullColumns);
      return None;
    }

    /** The body of the second loop. */
    method ApplyField(codec: Codec, column: ViewColumn, rawValue: Value, previousValue: Value, isCreate: bool)
        returns (error: Option<string>)
      requires Holds(formData, nullColumns, column.name, Absent)
      modifies this
      ensures error.None? <==> codec.normalize(column, rawValue).Ok?
      ensures Holds(formData, nullColumns, column.name, CellFor(codec, column, rawValue, previousValue, isCreate))
      ensures forall key :: key != column.name ==> SameKey(formData, nullColumns, old(formData), old(nullColumns), key)
    {
      var normal := codec.normalize(column, rawValue);
      if normal.Err? {
        return Some(normal.error);
      }
      var currentComparable := if normal.value.isNull then "" else normal.value.text;
      if !isCreate && currentComparable == codec.comparable(column, previousValue) {
        return None;
      }
      if normal.value.isNull {
        nullColumns := nullColumns[column.name := true];
        return None;
      }
      formData := formData[column.name := normal.value.text];
      nullColumns := nullColumns - {column.name};
      return None;
    }

    /** The first loop: every known column is forgotten. */
    method DropKnown(columns: seq<ViewColumn>)
      modifies this
      ensures forall key :: Known(columns, key) ==> Holds(formData, nullColumns, key, Absent)
      ensures forall key :: !Known(columns, key) ==>
                SameKey(formData, nullColumns, old(formData), old(nullColumns), key)
    {
      for i := 0 to |columns|
        invariant forall k :: 0 <= k < i && !IsSystemKey(columns[k].name) ==>
                    Holds(formData, nullColumns, columns[k].name, Absent)
        invariant forall key :: !Known(columns, key) ==>
                    SameKey(formData, nullColumns, old(formData), old(nullColumns), key)
      {
        if "_" <= columns[i].name {
          continue;
        }
        formData := formData - {columns[i].name};
        nullColumns := nullColumns - {columns[i].name};
      }
    }
  }

  // ---- The write set is an exact difference ----

  /** The comparable value a write leaves in a column: null, the bound text, or what was there. */
  function Effect(codec: Codec, c: ViewColumn, form: map<string, string>, nulls: map<string, bool>,
                  previous: Value): string {
    if IsSet(nulls, c.name) then "" else if c.name in form then form[c.name] else codec.comparable(c, previous)
  }

  /** The comparable value of a column of the trigger's record. */
  function RecordText(codec: Codec, columns: seq<ViewColumn>, current: Record, key: string): string
    requires Known(columns, key) && key in current && Normalizes(codec, columns, current, key)
  {
    NormalText(codec.normalize(ColumnsByName(columns)[key], current[key]).value)
  }

  /** What ApplyTriggerRecord leaves behind when it succeeds. */
  ghost predicate Applied(a: Applying, form: map<string, string>, nulls: map<string, bool>) {
    forall key :: Known(a.columns, key) ==>
      Normalizes(a.codec, a.columns, a.current, key)
          && Holds(form, nulls, key, KeyCell(a.codec, a.columns, a.current, a.previous, a.isCreate, key))
  }

  /**
   * On an update: no column is in both maps; a column is in neither exactly
   * when the record lacks it or has its old value; and laid over the previous
   * record the maps give the record's value.
   */
  lemma WriteSetIsExactDifference(a: Applying, form: map<string, string>, nulls: map<string, bool>, key: string)
    requires LawfulCodec(a.codec) && !a.isCreate && Applied(a, form, nulls) && Known(a.columns, key)
    ensures !(key in form && key in nulls)
    ensures key !in form && key !in nulls <==>
              key !in a.current || RecordText(a.codec, a.columns, a.current, key) ==
                  a.codec.comparable(ColumnsByName(a.columns)[key], Lookup(a.previous, key))
    ensures key in a.current ==>
              Effect(a.codec, ColumnsByName(a.columns)[key], form, nulls, Lookup(a.previous, key)) ==
                  RecordText(a.codec, a.columns, a.current, key)
  {
    hide ColumnsByName, LawfulCodec;
  }

  /** On an insert every known column of the record is written, as its value or as NULL. */
  lemma InsertWritesWholeRecord(a: Applying, form: map<string, string>, nulls: map<string, bool>, key: string)
    requires a.isCreate && Applied(a, form, nulls) && Known(a.columns, key)
    ensures key in form || key in nulls <==> key in a.current
    ensures key in a.current ==>
              Effect(a.codec, ColumnsByName(a.columns)[key], form, nulls, Nil) ==
                  RecordText(a.codec, a.columns, a.current, key)
  {
    hide ColumnsByName;
  }

  // ---- The record a trigger gets ----

  /** A column of the view that the write names. */
  predicate Submitted(columns: seq<ViewColumn>, form: map<string, string>, nulls: map<string, bool>, key: string) {
    key in ColumnsByName(columns) && (key in form || key in nulls)
  }

  /** The snapshot with the submitted values of known columns laid over it, key by key. */
  ghost predicate IsTriggerRecord(codec: Codec, columns: seq<ViewColumn>, base: Record, form: map<string, string>,
                                  nulls: map<string, bool>, record: Record) {
    forall key ::
      var submitted := Submitted(columns, form, nulls, key);
      && (key in record <==> key in base || submitted)
      && (submitted && key in form ==>
          codec.native(ColumnsByName(columns)[key], form[key], IsSet(nulls, key)) == Ok(record[key]))
      && (submitted && key !in form ==> record[key] == Nil)
      && (key in base && !submitted ==> record[key] == base[key])
  }

  /** buildRuntimeTriggerRecord. */
  function TriggerRecord(codec: Codec, columns: seq<ViewColumn>, base: Record, form: map<string, string>,
                         nulls: map<string, bool>): Record
    requires SubmitsValues(codec, columns, form, nulls)
  {
    map key | key in base.Keys + form.Keys + nulls.Keys && (key in base || Submitted(columns, form, nulls, key)) ::
      if !Submitted(columns, form, nulls, key) then base[key]
      else if key in form then codec.native(ColumnsByName(columns)[key], form[key], IsSet(nulls, key)).value
      else Nil
  }

  lemma TriggerRecordIsOne(codec: Codec, columns: seq<ViewColumn>, base: Record, form: map<string, string>,
                           nulls: map<string, bool>)
    requires SubmitsValues(codec, columns, form, nulls)
    ensures IsTriggerRecord(codec, columns, base, form, nulls, TriggerRecord(codec, columns, base, form, nulls))
  {
    hide ColumnsByName, IsSet;
  }

  lemma TriggerRecordUnique(codec: Codec, columns: seq<ViewColumn>, base: Record, form: map<string, string>,
                            nulls: map<string, bool>, record: Record)
    requires SubmitsValues(codec, columns, form, nulls) && IsTriggerRecord(codec, columns, base, form, nulls, record)
    ensures record == TriggerRecord(codec, columns, base, form, nulls)
  {
    hide ColumnsByName, IsSet;
    var built := TriggerRecord(codec, columns, base, form, nulls);
    forall key ensures (key in record <==> key in built) && (key in record ==> record[key] == built[key]) {}
    assert record.Keys == built.Keys;
  }

  predicate SubmitsValues(codec: Codec, columns: seq<ViewColumn>, form: map<string, string>, nulls: map<string, bool>) {
    forall key :: key in form && key in ColumnsByName(columns) ==>
        codec.native(ColumnsByName(columns)[key], form[key], IsSet(nulls, key)).Ok?
  }

  /** The snapshot with the submitted values of `done` laid over it. */
  ghost predicate LaidOver(codec: Codec, byName: map<string, ViewColumn>, base: Record, form: map<string, string>,
                           nulls: map<string, bool>, done: set<string>, record: Record) {
    forall key ::
      if key in form && key in done && key in byName then
        key in record && codec.native(byName[key], form[key], IsSet(nulls, key)) == Ok(record[key])
      else (key in record <==> key in base) && (key in base ==> record[key] == base[key])
  }

  lemma LaidField(codec: Codec, byName: map<string, ViewColumn>, base: Record, form: map<string, string>,
                  nulls: map<string, bool>, remaining: set<string>, record: Record, key: string)
    requires LaidOver(codec, byName, base, form, nulls, form.Keys - remaining, record) && key in remaining
               && key in form
    ensures key !in byName ==> LaidOver(codec, byName, base, form, nulls, form.Keys - (remaining - {key}), record)
    ensures key in byName && codec.native(byName[key], form[key], IsSet(nulls, key)).Ok? ==>
              LaidOver(codec, byName, base, form, nulls, form.Keys - (remaining - {key}),
                       record[key := codec.native(byName[key], form[key], IsSet(nulls, key)).value])
  {
    hide IsSet;
    assert form.Keys - (remaining - {key}) == form.Keys - remaining + {key};
  }

  lemma Unreadable(codec: Codec, columns: seq<ViewColumn>, form: map<string, string>, nulls: map<string, bool>,
                   key: string)
    requires key in form && key in ColumnsByName(columns)
               && codec.native(ColumnsByName(columns)[key], form[key], IsSet(nulls, key)).Err?
    ensures !SubmitsValues(codec, columns, form, nulls)
  {
    hide ColumnsByName, IsSet;
  }

  method BuildTriggerRecord(codec: Codec, columns: seq<ViewColumn>, base: Record, form: map<string, string>,
                            nulls: map<string, bool>)
    returns (r: Result<Record, string>)
    ensures r.Ok? <==> SubmitsValues(codec, columns, form, nulls)
    ensures r.Ok? ==> r.value == TriggerRecord(codec, columns, base, form, nulls)
  {
    var record, byName := base, ColumnsByName(columns);
    var remaining := form.Keys;
    assert form.Keys - remaining == {};
    assert LaidOver(codec, byName, base, form, nulls, {}, record);
    hide ColumnsByName, LaidOver, NilLaid, SubmitsValues, IsTriggerRecord, TriggerRecord, IsSet;
    while remaining != {}
      invariant remaining <= form.Keys
      invariant LaidOver(codec, byName, base, form, nulls, form.Keys - remaining, record)
      decreases remaining
    {
      var fieldName :| fieldName in remaining;
      LaidField(codec, byName, base, form, nulls, remaining, record, fieldName);
      remaining := remaining - {fieldName};
      if fieldName !in byName {
        continue;
      }
      var native := codec.native(byName[fieldName], form[fieldName], IsSet(nulls, fieldName));
      if native.Err? {
        Unreadable(codec, columns, form, nulls, fieldName);
        return Err(native.error);
      }
      record := record[fieldName := native.value];
    }
    ghost var submitted := record;
    record := LayNulls(byName, record, form, nulls);
    TriggerRecordFromParts(codec, columns, base, form, nulls, submitted, record);
    TriggerRecordUnique(codec, columns, base, form, nulls, record);
    return Ok(record);
  }

  /** `record` is `submitted` with nil for the columns that only the null map names. */
  ghost predicate NilLaid(byName: map<string, ViewColumn>, submitted: Record, form: map<string, string>,
                          nulls: map<string, bool>, done: set<string>, record: Record) {
    forall key ::
      if key in byName && key !in form && key in nulls && key in done then key in record && record[key] == Nil
      else (key in record <==> key in submitted) && (key in submitted ==> record[key] == submitted[key])
  }

  /** The second loop: columns that only the null map names become nil. */
  method LayNulls(byName: map<string, ViewColumn>, submitted: Record, form: map<string, string>,
                  nulls: map<string, bool>) returns (record: Record)
    ensures NilLaid(byName, submitted, form, nulls, nulls.Keys, record)
  {
    record := submitted;
    var remaining := nulls.Keys;
    while remaining != {}
      invariant remaining <= nulls.Keys
      invariant NilLaid(byName, submitted, form, nulls, nulls.Keys - remaining, record)
      decreases remaining
    {
      var fieldName :| fieldName in remaining;
      remaining := remaining - {fieldName};
      if fieldName !in byName || fieldName in form {
        continue;
      }
      record := record[fieldName := Nil];
    }
    assert nulls.Keys - {} == nulls.Keys;
  }

  lemma TriggerRecordFromParts(codec: Codec, columns: seq<ViewColumn>, base: Record, form: map<string, string>,
                               nulls: map<string, bool>, submitted: Record, record: Record)
    requires LaidOver(codec, ColumnsByName(columns), base, form, nulls, form.Keys - {}, submitted)
    requires NilLaid(ColumnsByName(columns), submitted, form, nulls, nulls.Keys, record)
    ensures IsTriggerRecord(codec, columns, base, form, nulls, record) && SubmitsValues(codec, columns, form, nulls)
  {
    hide ColumnsByName, IsSet;
  }

  // ---- The statements ----

  datatype Placeholder = Placeholder(number: nat, cast: string)

  datatype Insert = Insert(columns: seq<string>, values: seq<Option<string>>, placeholders: seq<Placeholder>)

  function Quoted(key: string): string { "\"" + key + "\"" }

  lemma QuotedIs(key: string)
    ensures |Quoted(key)| == |key| + 2 && Quoted(key)[1..|key| + 1] == key
    ensures Quoted(key)[0] == Quoted(key)[|key| + 1] == '"'
  {}

  /** Go reads a missing text as "". */
  function BoundValue(form: map<string, string>, nulls: map<string, bool>, key: string): Option<string> {
    if IsSet(nulls, key) then None else Some(if key in form then form[key] else "")
  }

  function Cast(codec: Codec, byName: map<string, ViewColumn>, key: string): string {
    if key in byName then codec.cast(byName[key].dataType) else ""
  }

  predicate Safe(keys: seq<string>) { forall i :: 0 <= i < |keys| ==> IsSafeIdentifier(keys[i]) }

  /** Row `i` of the three lists is for key `i`, and its placeholder has the next number. */
  predicate RowsFor(codec: Codec, byName: map<string, ViewColumn>, form: map<string, string>, nulls: map<string, bool>,
                    keys: seq<string>, n: nat, s: Insert)
    requires n <= |keys|
  {
    && |s.columns| == |s.values| == |s.placeholders| == n
    && forall i :: 0 <= i < n ==>
         && s.columns[i] == Quoted(keys[i])
         && s.values[i] == BoundValue(form, nulls, keys[i])
         && s.placeholders[i] == Placeholder(i + 1, Cast(codec, byName, keys[i]))
  }

  /** The statement for the keys, refused when one of them may not be quoted. */
  predicate InsertOf(codec: Codec, byName: map<string, ViewColumn>, form: map<string, string>,
                     nulls: map<string, bool>, keys: seq<string>, r: Result<Insert, string>) {
    && (r.Ok? <==> Safe(keys))
    && (r.Ok? ==> RowsFor(codec, byName, form, nulls, keys, |keys|, r.value))
  }

  method CollectKeys(form: map<string, string>, nulls: map<string, bool>) returns (keys: seq<string>)
    ensures SortedKeys(keys, form.Keys + nulls.Keys)
  {
    keys := [];
    var seen: set<string> := {};
    var remaining := form.Keys;
    while remaining != {}
      invariant remaining <= form.Keys && seen == form.Keys - remaining
      invariant Distinct(keys) && forall k :: k in keys <==> k in seen
      decreases remaining
    {
      var key :| key in remaining;
      remaining := remaining - {key};
      seen := seen + {key};
      keys := keys + [key];
    }
    remaining := nulls.Keys;
    while remaining != {}
      invariant remaining <= nulls.Keys && seen == form.Keys + (nulls.Keys - remaining)
      invariant Distinct(keys) && forall k :: k in keys <==> k in seen
      decreases remaining
    {
      var key :| key in remaining;
      remaining := remaining - {key};
      if key in seen {
        continue;
      }
      seen := seen + {key};
      keys := keys + [key];
    }
    SortingGivesSortedKeys(keys, form.Keys + nulls.Keys);
    keys := StableSort(keys, LexLess);
  }

  lemma NextRow(codec: Codec, byName: map<string, ViewColumn>, form: map<string, string>, nulls: map<string, bool>,
                keys: seq<string>, n: nat, s: Insert)
    requires n < |keys| && RowsFor(codec, byName, form, nulls, keys, n, s)
    ensures RowsFor(codec, byName, form, nulls, keys, n + 1,
                    Insert(s.columns + [Quoted(keys[n])], s.values + [BoundValue(form, nulls, keys[n])],
                           s.placeholders + [Placeholder(n + 1, Cast(codec, byName, keys[n]))]))
  {
    hide Quoted, BoundValue, Cast;
  }

  lemma NoRows(codec: Codec, byName: map<string, ViewColumn>, form: map<string, string>, nulls: map<string, bool>,
               keys: seq<string>)
    ensures RowsFor(codec, byName, form, nulls, keys, 0, Insert([], [], []))
  {}

  lemma InsertDecided(codec: Codec, byName: map<string, ViewColumn>, form: map<string, string>,
                      nulls: map<string, bool>, keys: seq<string>)
    ensures forall i, e :: 0 <= i < |keys| && !IsSafeIdentifier(keys[i]) ==>
              InsertOf(codec, byName, form, nulls, keys, Err(e))
    ensures forall s ::
              (forall i :: 0 <= i < |keys| ==> IsSafeIdentifier(keys[i]))
              && RowsFor(codec, byName, form, nulls, keys, |keys|, s)
              ==> InsertOf(codec, byName, form, nulls, keys, Ok(s))
  {
    hide IsSafeIdentifier, RowsFor;
  }

  /** buildInsertColumnsAndValues. */
  method BuildInsert(codec: Codec, byName: map<string, ViewColumn>, form: map<string, string>, nulls: map<string, bool>)
    returns (r: Result<Insert, string>)
    ensures exists keys :: SortedKeys(keys, form.Keys + nulls.Keys) && InsertOf(codec, byName, form, nulls, keys, r)
  {
    hide *;
    var sorted := CollectKeys(form, nulls);
    InsertDecided(codec, byName, form, nulls, sorted);
    NoRows(codec, byName, form, nulls, sorted);
    var quotedColumns, values, placeholders := [], [], [];
    for index := 0 to |sorted|
      invariant forall i :: 0 <= i < index ==> IsSafeIdentifier(sorted[i])
      invariant RowsFor(codec, byName, form, nulls, sorted, index, Insert(quotedColumns, values, placeholders))
    {
      var key := sorted[index];
      if !IsSafeIdentifier(key) {
        assert InsertOf(codec, byName, form, nulls, sorted, Err(key));
        return Err(key);
      }
      NextRow(codec, byName, form, nulls, sorted, index, Insert(quotedColumns, values, placeholders));
      quotedColumns := quotedColumns + [Quoted(key)];
      values := values + [BoundValue(form, nulls, key)];
      placeholders := placeholders + [Placeholder(index + 1, Cast(codec, byName, key))];
    }
    assert InsertOf(codec, byName, form, nulls, sorted, Ok(Insert(quotedColumns, values, placeholders)));
    return Ok(Insert(quotedColumns, values, placeholders));
  }

  /**
   * Every key is bound once, to its own value and its own placeholder, in the same
   * row whatever order the maps are walked in.
   */
  lemma InsertBindsEachKeyOnce(codec: Codec, byName: map<string, ViewColumn>, form: map<string, string>,
                               nulls: map<string, bool>, keys: seq<string>, s: Insert,
                               other: seq<string>, t: Insert, key: string)
    requires SortedKeys(keys, form.Keys + nulls.Keys) && RowsFor(codec, byName, form, nulls, keys, |keys|, s)
    requires SortedKeys(other, form.Keys + nulls.Keys) && RowsFor(codec, byName, form, nulls, other, |other|, t)
    requires key in form || key in nulls
    ensures s == t
    ensures exists i :: 0 <= i < |s.columns| && s.columns[i] == Quoted(key)
              && s.values[i] == BoundValue(form, nulls, key) && s.placeholders[i].number == i + 1
    ensures forall i, j :: 0 <= i < j < |s.columns| ==>
              s.columns[i] != s.columns[j] && s.placeholders[i].number != s.placeholders[j].number
  {
    hide *;
    SortedKeysUnique(keys, other, form.Keys + nulls.Keys);
    SameRows(codec, byName, form, nulls, keys, s, t);
    SortedMembers(keys, form.Keys + nulls.Keys, key);
    var i :| 0 <= i < |keys| && keys[i] == key;
    RowAt(codec, byName, form, nulls, keys, s, i);
    forall i, j | 0 <= i < j < |s.columns| ensures s.columns[i] != s.columns[j]
        && s.placeholders[i].number != s.placeholders[j].number {
      RowAt(codec, byName, form, nulls, keys, s, i);
      RowAt(codec, byName, form, nulls, keys, s, j);
      SortedApart(keys, form.Keys + nulls.Keys, i, j);
      QuotedApart(keys[i], keys[j]);
    }
  }

  lemma RowAt(codec: Codec, byName: map<string, ViewColumn>, form: map<string, string>, nulls: map<string, bool>,
              keys: seq<string>, s: Insert, i: nat)
    requires RowsFor(codec, byName, form, nulls, keys, |keys|, s)
    ensures |s.columns| == |s.values| == |s.placeholders| == |keys|
    ensures i < |keys| ==>
              s.columns[i] == Quoted(keys[i]) && s.values[i] == BoundValue(form, nulls, keys[i])
                  && s.placeholders[i].number == i + 1
  {
    hide Quoted, BoundValue, Cast;
  }

  lemma SameRows(codec: Codec, byName: map<string, ViewColumn>, form: map<string, string>, nulls: map<string, bool>,
                 keys: seq<string>, s: Insert, t: Insert)
    requires RowsFor(codec, byName, form, nulls, keys, |keys|, s)
               && RowsFor(codec, byName, form, nulls, keys, |keys|, t)
    ensures s == t && |s.columns| == |s.values| == |s.placeholders| == |keys|
  {
    hide Quoted, BoundValue, Cast;
    assert s.columns == t.columns && s.values == t.values && s.placeholders == t.placeholders;
  }

  lemma SortedMembers(keys: seq<string>, members: set<string>, key: string)
    requires SortedKeys(keys, members) && key in members
    ensures key in keys
  {
    hide LexLess;
  }

  lemma SortedApart(keys: seq<string>, members: set<string>, i: nat, j: nat)
    requires SortedKeys(keys, members) && i < j < |keys|
    ensures keys[i] != keys[j]
  {
    LexLessAsymmetric(keys[i], keys[j]);
    hide LexLess;
  }

  lemma QuotedApart(a: string, b: string)
    requires a != b
    ensures Quoted(a) != Quoted(b)
  {
    assert Quoted(a)[1..|a| + 1] == a && Quoted(b)[1..|b| + 1] == b;
  }

  lemma KeysOfForm(form: map<string, string>, nothing: map<string, bool>, names: seq<string>)
    requires SortedKeys(names, form.Keys + nothing.Keys) && nothing == map[]
    ensures forall key :: key in names <==> key in form
  {
    hide LexLess;
  }

  /** The SET list of an UPDATE takes its columns from the text map alone. */
  method BuildAssignments(form: map<string, string>, nulls: map<string, bool>)
      returns (r: Result<map<string, Option<string>>, string>)
    ensures r.Ok? <==> forall key :: key in form ==> IsSafeIdentifier(key)
    ensures r.Ok? ==>
              r.value.Keys == form.Keys && forall key :: key in form ==> r.value[key] == BoundValue(form, nulls, key)
  {
    hide *;
    var columnNames := CollectKeys(form, map[]);
    KeysOfForm(form, map[], columnNames);
    var setList: map<string, Option<string>> := map[];
    for i := 0 to |columnNames|
      invariant forall k :: 0 <= k < i ==> IsSafeIdentifier(columnNames[k])
      invariant forall key :: key in setList <==> key in columnNames[..i]
      invariant forall key :: key in setList ==> setList[key] == BoundValue(form, nulls, key)
    {
      if !IsSafeIdentifier(columnNames[i]) {
        assert columnNames[i] in columnNames;
        return Err(columnNames[i]);
      }
      setList := setList[columnNames[i] := BoundValue(form, nulls, columnNames[i])];
    }
    assert columnNames[..|columnNames|] == columnNames;
    return Ok(setList);
  }

  /** The comparable value of a column after the UPDATE. */
  function UpdatedText(codec: Codec, c: ViewColumn, form: map<string, string>, nulls: map<string, bool>,
                       previous: Value): string {
    if c.name !in form then codec.comparable(c, previous)
    else if BoundValue(form, nulls, c.name).None? then "" else BoundValue(form, nulls, c.name).value
  }

  /**
   * An UPDATE stores the value of the trigger's record exactly when the record
   * does not turn a value into a null: those nulls are only in the null map,
   * and the SET list never names them.
   */
  lemma UpdateStoresRecordIff(a: Applying, form: map<string, string>, nulls: map<string, bool>, key: string)
    requires LawfulCodec(a.codec) && !a.isCreate && Applied(a, form, nulls) && Known(a.columns, key) && key in a.current
    ensures var c := ColumnsByName(a.columns)[key];
            UpdatedText(a.codec, c, form, nulls, Lookup(a.previous, key)) ==
                RecordText(a.codec, a.columns, a.current, key) <==>
              !(a.codec.normalize(c, a.current[key]).value.isNull
                && a.codec.comparable(c, Lookup(a.previous, key)) != "")
  {
    hide ColumnsByName;
  }

  /** Clearing a date on an existing record: the UPDATE keeps the old date. */
  lemma ClearedFieldExample(codec: Codec, form: map<string, string>, nulls: map<string, bool>)
    requires LawfulCodec(codec)
    requires Applied(Applying(codec, [ViewColumn("due", "date", true)], map["due" := Nil],
                              map["due" := Text("2024-05-01")], false), form, nulls)
    ensures "due" !in form && IsSet(nulls, "due")
    ensures UpdatedText(codec, ViewColumn("due", "date", true), form, nulls, Text("2024-05-01")) == "2024-05-01"
  {
    var due := ViewColumn("due", "date", true);
    assert [due][..0] == [] && ColumnsByName([due]) == map["due" := due];
    assert "_"[0] != "due"[0];
    assert Known([due], "due");
    assert "2024-05-01"[..10] == "2024-05-01";
  }

  // ---- The chain of triggers ----

  /** A trigger: when it fires and what its script makes of the record. */
  datatype Trigger = Trigger(name: string, order: int, table: string, event: string, enabled: bool,
                             condition: Record -> bool, script: (Record, Record) -> Result<Record, string>)

  predicate TriggerBefore(a: Trigger, b: Trigger) { RanksBefore(a.order, a.name, b.order, b.name) }

  lemma TriggerBeforeIsWeak()
    ensures StrictWeakOrder(TriggerBefore)
  {
    hide RanksBefore;
    forall a: Trigger, b: Trigger, c: Trigger
      ensures TriggerBefore(a, b) ==> !TriggerBefore(b, a)
      ensures TriggerBefore(a, c) ==> TriggerBefore(a, b) || TriggerBefore(b, c)
    {
      RanksBeforeWeak((a.order, a.name), (b.order, b.name), (c.order, c.name));
    }
  }

  /** The app's triggers and those of its tables. */
  datatype Triggered = Triggered(triggers: seq<Trigger>, tables: seq<(string, seq<Trigger>)>)

  function TableTriggers(tables: seq<(string, seq<Trigger>)>, tableName: string): seq<Trigger> {
    if tables == [] then [] else if NormalizeIdentifier(tables[0].0) == tableName then tables[0].1
        else TableTriggers(tables[1..], tableName)
  }

  /** The enabled triggers of the table and event, of the app and of the table, by order and name. */
  function ResolveTriggers(app: Triggered, tableName: string, eventName: string): seq<Trigger> {
    var global := Filter(app.triggers, (t: Trigger) => t.enabled && NormalizeIdentifier(t.table) == tableName
                         && NormalizeIdentifier(t.event) == eventName);
    var own := Filter(TableTriggers(app.tables, tableName), (t: Trigger) => t.enabled
                      && NormalizeIdentifier(t.event) == eventName);
    StableSort(global + own, TriggerBefore)
  }

  /** Ascending order, and by name where the orders are equal. */
  ghost predicate InFiringOrder(list: seq<Trigger>) {
    forall i, j :: 0 <= i < j < |list| ==>
      list[i].order < list[j].order || (list[i].order == list[j].order && !LexLess(list[j].name, list[i].name))
  }

  predicate IsFirstNamed(tables: seq<(string, seq<Trigger>)>, tableName: string, k: int) {
    && 0 <= k < |tables| && NormalizeIdentifier(tables[k].0) == tableName
    && forall j :: 0 <= j < k ==> NormalizeIdentifier(tables[j].0) != tableName
  }

  /** The triggers of the first table of that name. */
  ghost predicate OwnTriggers(tables: seq<(string, seq<Trigger>)>, tableName: string, own: seq<Trigger>) {
    || (exists k :: IsFirstNamed(tables, tableName, k) && own == tables[k].1)
    || (own == [] && forall k :: 0 <= k < |tables| ==> NormalizeIdentifier(tables[k].0) != tableName)
  }

  predicate ListensTo(t: Trigger, eventName: string) { t.enabled && NormalizeIdentifier(t.event) == eventName }

  /**
   * How often a trigger fires: as often as it is declared for the table, when it
   * is enabled and listens to the event.
   */
  ghost predicate FiresAsDeclared(app: Triggered, tableName: string, eventName: string, own: seq<Trigger>,
                                  list: seq<Trigger>) {
    forall t: Trigger ::
      multiset(list)[t] ==
        if !ListensTo(t, eventName) then 0
        else multiset(own)[t] + if NormalizeIdentifier(t.table) == tableName then multiset(app.triggers)[t] else 0
  }

  /** Exactly the triggers that fire for the table and event, in the order they fire. */
  ghost predicate IsResolution(app: Triggered, tableName: string, eventName: string, list: seq<Trigger>) {
    && InFiringOrder(list)
    && exists own :: OwnTriggers(app.tables, tableName, own) && FiresAsDeclared(app, tableName, eventName, own, list)
  }

  lemma {:induction false} TableTriggersAreOwn(tables: seq<(string, seq<Trigger>)>, tableName: string)
    ensures OwnTriggers(tables, tableName, TableTriggers(tables, tableName))
  {
    hide NormalizeIdentifier;
    if tables != [] && NormalizeIdentifier(tables[0].0) != tableName {
      var rest, own := tables[1..], TableTriggers(tables, tableName);
      TableTriggersAreOwn(rest, tableName);
      assert forall j :: 1 <= j < |tables| ==> tables[j] == rest[j - 1];
      if k :| IsFirstNamed(rest, tableName, k) && own == rest[k].1 {
        assert IsFirstNamed(tables, tableName, k + 1);
      }
    }
  }

  lemma ResolveTriggersResolves(app: Triggered, tableName: string, eventName: string)
    ensures IsResolution(app, tableName, eventName, ResolveTriggers(app, tableName, eventName))
  {
    var ofApp := (t: Trigger) => t.enabled && NormalizeIdentifier(t.table) == tableName
        && NormalizeIdentifier(t.event) == eventName;
    var ofTable := (t: Trigger) => t.enabled && NormalizeIdentifier(t.event) == eventName;
    var own := TableTriggers(app.tables, tableName);
    TableTriggersAreOwn(app.tables, tableName);
    var list := ResolveTriggers(app, tableName, eventName);
    TriggerBeforeIsWeak();
    StableSortResult(Filter(app.triggers, ofApp) + Filter(own, ofTable), TriggerBefore);
    hide StableSort, Filter, NormalizeIdentifier, OwnTriggers, StrictWeakOrder, TableTriggers;
    SortedFires(list);
    forall t: Trigger
      ensures multiset(list)[t] ==
                if !ListensTo(t, eventName) then 0
                else multiset(own)[t] + if NormalizeIdentifier(t.table) ==
                    tableName then multiset(app.triggers)[t] else 0
    {
      FilterCounts(app.triggers, ofApp, t);
      FilterCounts(own, ofTable, t);
    }
  }

  lemma SortedFires(list: seq<Trigger>)
    requires Sorted(list, TriggerBefore)
    ensures InFiringOrder(list)
  {
    hide LexLess;
    forall i, j | 0 <= i < j < |list|
      ensures list[i].order < list[j].order || (list[i].order == list[j].order && !LexLess(list[j].name, list[i].name))
    {
      assert !TriggerBefore(list[j], list[i]);
    }
  }

  /** One trigger: it may be skipped, fail, replace the record, or return nothing. */
  function Fire(t: Trigger, record: Record, previous: Record): Result<Record, string> {
    if !t.condition(record) then Ok(record) else
    var result := t.script(record, previous);
    if result.Err? then result else if |result.value| > 0 then result else Ok(record)
  }

  function Chain(triggers: seq<Trigger>, record: Record, previous: Record): Result<Record, string> {
    if triggers == [] then Ok(record) else
    var before := Chain(triggers[..|triggers| - 1], record, previous);
    if before.Err? then before else Fire(triggers[|triggers| - 1], before.value, previous)
  }

  /** What a trigger does to the record it gets. */
  lemma FireIs(t: Trigger, record: Record, previous: Record)
    ensures !t.condition(record) ==> Fire(t, record, previous) == Ok(record)
    ensures t.condition(record) && t.script(record, previous).Err? ==>
              Fire(t, record, previous) == t.script(record, previous)
    ensures t.condition(record) && t.script(record, previous) == Ok(map[]) ==> Fire(t, record, previous) == Ok(record)
    ensures forall given :: t.condition(record) && t.script(record, previous) == Ok(given) && given != map[] ==>
                              Fire(t, record, previous) == Ok(given)
  {}

  /** The record that the first triggers leave is what the later ones get; the first failure ends the chain. */
  lemma {:induction false} ChainHandsOver(a: seq<Trigger>, b: seq<Trigger>, record: Record, previous: Record)
    ensures Chain([], record, previous) == Ok(record)
    ensures forall t :: Chain([t], record, previous) == Fire(t, record, previous)
    ensures Chain(a + b, record, previous) ==
              if Chain(a, record, previous).Err? then Chain(a, record, previous)
              else Chain(b, Chain(a, record, previous).value, previous)
  {
    hide Fire;
    forall t: Trigger ensures Chain([t], record, previous) == Fire(t, record, previous) {
      assert [t][..0] == [];
    }
    if b == [] {
      assert a + b == a;
    } else {
      var front, last := b[..|b| - 1], b[|b| - 1];
      assert (a + b)[..|a + b| - 1] == a + front && (a + b)[|a + b| - 1] == last;
      ChainHandsOver(a, front, record, previous);
    }
  }

  lemma {:induction false} ChainPrefixFails(triggers: seq<Trigger>, i: nat, record: Record, previous: Record)
    requires i <= |triggers| && Chain(triggers[..i], record, previous).Err?
    ensures Chain(triggers, record, previous) == Chain(triggers[..i], record, previous)
    decreases |triggers|
  {
    if i == |triggers| {
      assert triggers[..i] == triggers;
    } else {
      assert triggers[..|triggers| - 1][..i] == triggers[..i];
      ChainPrefixFails(triggers[..|triggers| - 1], i, record, previous);
    }
  }

  method RunBeforeWriteTriggers(app: Triggered, rawTable: string, rawEvent: string, record: Record,
                                previousRecord: Record) returns (r: Result<Record, string>, ghost fired: seq<Trigger>)
    ensures r == Chain(fired, record, previousRecord)
    ensures if NormalizeIdentifier(rawTable) == "" || NormalizeIdentifier(rawEvent) == "" then fired == []
            else IsResolution(app, NormalizeIdentifier(rawTable), NormalizeIdentifier(rawEvent), fired)
    ensures r == Chain(if NormalizeIdentifier(rawTable) == "" || NormalizeIdentifier(rawEvent) == "" then []
                       else ResolveTriggers(app, NormalizeIdentifier(rawTable), NormalizeIdentifier(rawEvent)),
                       record, previousRecord)
  {
    hide NormalizeIdentifier, ResolveTriggers, IsResolution;
    var tableName, eventName := NormalizeIdentifier(rawTable), NormalizeIdentifier(rawEvent);
    if tableName == "" || eventName == "" {
      return Ok(record), [];
    }
    var triggers := ResolveTriggers(app, tableName, eventName);
    ResolveTriggersResolves(app, tableName, eventName);
    var currentRecord := record;
    for i := 0 to |triggers|
      invariant Chain(triggers[..i], record, previousRecord) == Ok(currentRecord)
    {
      assert triggers[..i + 1][..i] == triggers[..i] && triggers[..i + 1][i] == triggers[i];
      if !triggers[i].condition(currentRecord) {
        continue;
      }
      var result := triggers[i].script(currentRecord, previousRecord);
      if result.Err? {
        ChainPrefixFails(triggers, i + 1, record, previousRecord);
        return result, triggers;
      }
      if |result.value| > 0 {
        currentRecord := result.value;
      }
    }
    assert triggers[..|triggers|] == triggers;
    return Ok(currentRecord), triggers;
  }

  /** A trigger that, when it fires, hands the record back or returns nothing. */
  ghost predicate LeavesRecord(t: Trigger, record: Record, previous: Record) {
    t.condition(record) ==>
        t.script(record, previous).Ok? && (t.script(record, previous).value == record
                                           || t.script(record, previous).value == map[])
  }

  lemma {:induction false} QuietChain(triggers: seq<Trigger>, record: Record, previous: Record)
    requires forall i :: 0 <= i < |triggers| ==> LeavesRecord(triggers[i], record, previous)
    ensures Chain(triggers, record, previous) == Ok(record)
  {
    if triggers != [] {
      hide LeavesRecord;
      QuietChain(triggers[..|triggers| - 1], record, previous);
      assert LeavesRecord(triggers[|triggers| - 1], record, previous)
               && Fire(triggers[|triggers| - 1], record, previous) ==
                    Ok(record) by { QuietFire(triggers[|triggers| - 1], record, previous); }
    }
  }

  lemma QuietFire(t: Trigger, record: Record, previous: Record)
    requires LeavesRecord(t, record, previous)
    ensures Fire(t, record, previous) == Ok(record)
  {}

  /**
   * The record a table's triggers produce does not depend on the order in which
   * differently named triggers are declared.
   */
  lemma TriggerDeclarationOrderIrrelevant(a: seq<Trigger>, b: seq<Trigger>, record: Record, previous: Record)
    requires multiset(a) == multiset(b) && forall i, j :: 0 <= i < j < |a| ==> a[i].name != a[j].name
    ensures Chain(StableSort(a, TriggerBefore), record, previous) ==
              Chain(StableSort(b, TriggerBefore), record, previous)
  {
    TriggerBeforeIsWeak();
    forall x, y | x in a && y in a && x != y ensures TriggerBefore(x, y) || TriggerBefore(y, x) {
      var i :| 0 <= i < |a| && a[i] == x;
      var j :| 0 <= j < |a| && a[j] == y;
      RanksBeforeWeak((x.order, x.name), (y.order, y.name), (x.order, x.name));
    }
    hide TriggerBefore, Chain;
    StableSortUnique(a, b, TriggerBefore);
  }

  /** The chain runs through, and every known column of its record normalises. */
  ghost predicate UpdateRuns(codec: Codec, columns: seq<ViewColumn>, triggers: seq<Trigger>, previous: Record,
                             form: map<string, string>, nulls: map<string, bool>)
    requires SubmitsValues(codec, columns, form, nulls)
  {
    var run := Chain(triggers, TriggerRecord(codec, columns, previous, form, nulls), previous);
    run.Ok? && forall key :: Known(columns, key) ==> Normalizes(codec, columns, run.value, key)
  }

  /** The way of an update through its triggers: build the record, run the chain, keep the difference. */
  method UpdateThroughTriggers(codec: Codec, columns: seq<ViewColumn>, app: Triggered, table: string, previous: Record,
                               write: WriteSet)
    returns (error: Option<string>, ghost fired: seq<Trigger>)
    requires table != "" && NormalizeIdentifier(table) == table
    modifies write
    ensures IsResolution(app, table, "record.update", fired)
    ensures error.None? <==>
              && SubmitsValues(codec, columns, old(write.formData), old(write.nullColumns))
              && UpdateRuns(codec, columns, fired, previous, old(write.formData), old(write.nullColumns))
    ensures error.None? ==>
              var submitted := TriggerRecord(codec, columns, previous, old(write.formData), old(write.nullColumns));
              var current := Chain(fired, submitted, previous).value;
              Applied(Applying(codec, columns, current, previous, false), write.formData, write.nullColumns)
    ensures error.None? ==>
              OthersKept(columns, write.formData, write.nullColumns, old(write.formData), old(write.nullColumns))
  {
    hide TriggerRecord, Chain, ResolveTriggers, IsResolution, OthersKept, Known, SubmitsValues, Holds, Normalizes,
         KeyCell;
    assert NormalizeIdentifier("record.update") == "record.update" by { TrimSpaceKeepsTrimmed("record.update"); }
    hide NormalizeIdentifier;
    fired := ResolveTriggers(app, table, "record.update");
    ResolveTriggersResolves(app, table, "record.update");
    var built := BuildTriggerRecord(codec, columns, previous, write.formData, write.nullColumns);
    if built.Err? {
      return Some(built.error), fired;
    }
    var run;
    run, fired := RunBeforeWriteTriggers(app, table, "record.update", built.value, previous);
    if run.Err? {
      return Some(run.error), fired;
    }
    error := write.ApplyTriggerRecord(codec, columns, run.value, previous, false);
  }

  // ---- Triggers that change nothing ----

  /** Triggers that leave the record of this write as it is. */
  ghost predicate Quiet(codec: Codec, columns: seq<ViewColumn>, triggers: seq<Trigger>, previous: Record,
                        form: map<string, string>, nulls: map<string, bool>)
    requires SubmitsValues(codec, columns, form, nulls)
  {
    forall i :: 0 <= i < |triggers| ==>
        LeavesRecord(triggers[i], TriggerRecord(codec, columns, previous, form, nulls), previous)
  }

  /** The submitted value, or the stored one when none was submitted, can be written. */
  predicate InputNormalizes(codec: Codec, c: ViewColumn, previous: Record, form: map<string, string>,
                            nulls: map<string, bool>)
    requires c.name in form ==> codec.native(c, form[c.name], IsSet(nulls, c.name)).Ok?
  {
    if c.name in form then IsSet(nulls, c.name) || codec.normalize(c, codec.native(c, form[c.name], false).value).Ok?
    else c.name in nulls || (c.name in previous ==> codec.normalize(c, previous[c.name]).Ok?)
  }

  /** The value of one known column in the record that the triggers get. */
  lemma RecordValue(codec: Codec, columns: seq<ViewColumn>, previous: Record, form: map<string, string>,
                    nulls: map<string, bool>, key: string)
    requires SubmitsValues(codec, columns, form, nulls) && Known(columns, key)
    ensures var record, c := TriggerRecord(codec, columns, previous, form, nulls), ColumnsByName(columns)[key];
            && c.name == key
            && (key in record <==> key in form || key in nulls || key in previous)
            && (key in form ==> codec.native(c, form[key], IsSet(nulls, key)) == Ok(record[key]))
            && (key !in form && key in nulls ==> record[key] == Nil)
            && (key !in form && key !in nulls && key in previous ==> record[key] == previous[key])
  {
    TriggerRecordIsOne(codec, columns, previous, form, nulls);
    hide ColumnsByName, TriggerRecord, IsSet;
  }

  lemma InputNormalizesIff(codec: Codec, columns: seq<ViewColumn>, previous: Record, form: map<string, string>,
                           nulls: map<string, bool>, key: string)
    requires LawfulCodec(codec) && SubmitsValues(codec, columns, form, nulls) && Known(columns, key)
    ensures ColumnsByName(columns)[key].name == key
    ensures key in form ==> codec.native(ColumnsByName(columns)[key], form[key], IsSet(nulls, key)).Ok?
    ensures Normalizes(codec, columns, TriggerRecord(codec, columns, previous, form, nulls), key) <==>
            InputNormalizes(codec, ColumnsByName(columns)[key], previous, form, nulls)
  {
    RecordValue(codec, columns, previous, form, nulls, key);
    hide ColumnsByName, TriggerRecord, SubmitsValues;
  }

  /** A write whose triggers change nothing succeeds exactly when every value it reads can be written. */
  lemma QuietUpdateRunsIff(codec: Codec, columns: seq<ViewColumn>, triggers: seq<Trigger>, previous: Record,
                           form: map<string, string>, nulls: map<string, bool>)
    requires LawfulCodec(codec) && SubmitsValues(codec, columns, form, nulls)
               && Quiet(codec, columns, triggers, previous, form, nulls)
    ensures UpdateRuns(codec, columns, triggers, previous, form, nulls) <==>
            forall key :: Known(columns, key) ==>
                InputNormalizes(codec, ColumnsByName(columns)[key], previous, form, nulls)
  {
    var record := TriggerRecord(codec, columns, previous, form, nulls);
    QuietChain(triggers, record, previous);
    hide Chain, TriggerRecord, LawfulCodec, SubmitsValues, Known, Normalizes, ColumnsByName, InputNormalizes, IsSet;
    forall key | Known(columns, key)
      ensures Normalizes(codec, columns, record, key) <==>
                InputNormalizes(codec, ColumnsByName(columns)[key], previous, form, nulls)
    {
      InputNormalizesIff(codec, columns, previous, form, nulls, key);
    }
  }

  /** A stored value normalises to the text it compares as. */
  predicate ComparesAsStored(codec: Codec, c: ViewColumn, v: Value)
    requires codec.normalize(c, v).Ok?
  {
    NormalText(codec.normalize(c, v).value) == codec.comparable(c, v)
  }

  /**
   * When the maps, laid over the snapshot, mean the same before and after: a
   * submitted text reads back as itself, a null flag is raised, and a value
   * that was not submitted compares as it is stored.
   */
  predicate KeepsEffect(codec: Codec, c: ViewColumn, previous: Record, form: map<string, string>,
                        nulls: map<string, bool>)
    requires c.name in form ==> codec.native(c, form[c.name], IsSet(nulls, c.name)).Ok?
    requires InputNormalizes(codec, c, previous, form, nulls)
  {
    if IsSet(nulls, c.name) then true
    else if c.name in form then NormalText(codec.normalize(c, codec.native(c, form[c.name], false).value).value) ==
        form[c.name]
    else if c.name in nulls then codec.comparable(c, Lookup(previous, c.name)) == ""
    else c.name in previous ==> ComparesAsStored(codec, c, previous[c.name])
  }

  /**
   * When the UPDATE stores the same before and after: a cleared column was
   * already empty; a submitted text reads back as itself, or as a null over
   * that same stored text; and a value that was not submitted is null or
   * compares as it is stored.
   */
  predicate KeepsUpdate(codec: Codec, c: ViewColumn, previous: Record, form: map<string, string>,
                        nulls: map<string, bool>)
    requires c.name in form ==> codec.native(c, form[c.name], IsSet(nulls, c.name)).Ok?
    requires InputNormalizes(codec, c, previous, form, nulls)
  {
    if c.name in form && IsSet(nulls, c.name) then codec.comparable(c, Lookup(previous, c.name)) == ""
    else if c.name in form then
      var normal := codec.normalize(c, codec.native(c, form[c.name], false).value).value;
      if normal.isNull then codec.comparable(c, Lookup(previous, c.name)) == form[c.name]
          else normal.text == form[c.name]
    else c.name !in nulls && c.name in previous ==>
        codec.normalize(c, previous[c.name]).value.isNull || ComparesAsStored(codec, c, previous[c.name])
  }

  /** A write before its triggers, and the maps they leave behind when they change nothing. */
  datatype QuietWrite = QuietWrite(codec: Codec, columns: seq<ViewColumn>, previous: Record, form0: map<string,
                                   string>, nulls0: map<string, bool>,
                                   form: map<string, string>, nulls: map<string, bool>)

  ghost predicate QuietlyWritten(w: QuietWrite, triggers: seq<Trigger>) {
    && LawfulCodec(w.codec) && SubmitsValues(w.codec, w.columns, w.form0, w.nulls0)
    && Quiet(w.codec, w.columns, triggers, w.previous, w.form0, w.nulls0)
    && UpdateRuns(w.codec, w.columns, triggers, w.previous, w.form0, w.nulls0)
    && var current := Chain(triggers, TriggerRecord(w.codec, w.columns, w.previous, w.form0, w.nulls0),
                            w.previous).value;
       Applied(Applying(w.codec, w.columns, current, w.previous, false), w.form, w.nulls)
  }

  /** The maps hold the cell of the very record that was built. */
  lemma QuietCell(w: QuietWrite, triggers: seq<Trigger>, key: string)
    requires QuietlyWritten(w, triggers) && Known(w.columns, key)
    ensures LawfulCodec(w.codec) && SubmitsValues(w.codec, w.columns, w.form0, w.nulls0)
    ensures ColumnsByName(w.columns)[key].name == key
    ensures key in w.form0 ==> w.codec.native(ColumnsByName(w.columns)[key], w.form0[key], IsSet(w.nulls0, key)).Ok?
    ensures InputNormalizes(w.codec, ColumnsByName(w.columns)[key], w.previous, w.form0, w.nulls0)
    ensures Normalizes(w.codec, w.columns, TriggerRecord(w.codec, w.columns, w.previous, w.form0, w.nulls0), key)
    ensures Holds(w.form, w.nulls, key,
                  KeyCell(w.codec, w.columns, TriggerRecord(w.codec, w.columns, w.previous, w.form0, w.nulls0),
                          w.previous, false, key))
  {
    hide Chain, TriggerRecord, LawfulCodec, SubmitsValues, Known, Normalizes, ColumnsByName, InputNormalizes, IsSet,
         Holds, KeyCell;
    var record := TriggerRecord(w.codec, w.columns, w.previous, w.form0, w.nulls0);
    QuietChain(triggers, record, w.previous);
    InputNormalizesIff(w.codec, w.columns, w.previous, w.form0, w.nulls0, key);
  }

  /** What a cell leaves in its column, over the snapshot and by the UPDATE. */
  lemma CellWritten(codec: Codec, columns: seq<ViewColumn>, current: Record, previous: Record,
                    form: map<string, string>, nulls: map<string, bool>, key: string)
    requires LawfulCodec(codec) && Known(columns, key) && Normalizes(codec, columns, current, key)
    requires ColumnsByName(columns)[key].name == key
               && Holds(form, nulls, key, KeyCell(codec, columns, current, previous, false, key))
    ensures codec.normalize(ColumnsByName(columns)[key], Nil) == Ok(Normal("", true))
              && codec.comparable(ColumnsByName(columns)[key], Nil) == ""
    ensures var c, stored := ColumnsByName(columns)[key],
              codec.comparable(ColumnsByName(columns)[key], Lookup(previous, key));
            if key !in current then
              Effect(codec, c, form, nulls, Lookup(previous, key)) == stored ==
                  UpdatedText(codec, c, form, nulls, Lookup(previous, key))
            else
              var normal := codec.normalize(c, current[key]).value;
              && Effect(codec, c, form, nulls, Lookup(previous, key)) == NormalText(normal)
              && UpdatedText(codec, c, form, nulls, Lookup(previous, key)) == if normal.isNull then stored
                   else normal.text
  {
    hide ColumnsByName;
  }

  /** Triggers that change nothing leave the submitted maps' meaning over the snapshot exactly under KeepsEffect. */
  lemma QuietTriggersKeepEffectIff(w: QuietWrite, triggers: seq<Trigger>, key: string)
    requires QuietlyWritten(w, triggers) && Known(w.columns, key)
    ensures var c := ColumnsByName(w.columns)[key];
            && c.name == key
            && (key in w.form0 ==> w.codec.native(c, w.form0[key], IsSet(w.nulls0, key)).Ok?)
            && InputNormalizes(w.codec, c, w.previous, w.form0, w.nulls0)
            && (Effect(w.codec, c, w.form, w.nulls, Lookup(w.previous, key)) ==
                Effect(w.codec, c, w.form0, w.nulls0, Lookup(w.previous, key))
                <==> KeepsEffect(w.codec, c, w.previous, w.form0, w.nulls0))
  {
    QuietCell(w, triggers, key);
    RecordValue(w.codec, w.columns, w.previous, w.form0, w.nulls0, key);
    CellWritten(w.codec, w.columns, TriggerRecord(w.codec, w.columns, w.previous, w.form0, w.nulls0), w.previous,
                w.form, w.nulls, key);
    hide QuietlyWritten, TriggerRecord, ColumnsByName, SubmitsValues, LawfulCodec, Holds, KeyCell, Known;
  }

  /** The UPDATE then stores in a column what it would have stored of the submitted maps exactly under KeepsUpdate. */
  lemma QuietTriggersKeepUpdateIff(w: QuietWrite, triggers: seq<Trigger>, key: string)
    requires QuietlyWritten(w, triggers) && Known(w.columns, key)
    ensures var c := ColumnsByName(w.columns)[key];
            && c.name == key
            && (key in w.form0 ==> w.codec.native(c, w.form0[key], IsSet(w.nulls0, key)).Ok?)
            && InputNormalizes(w.codec, c, w.previous, w.form0, w.nulls0)
            && (UpdatedText(w.codec, c, w.form, w.nulls, Lookup(w.previous, key)) ==
                UpdatedText(w.codec, c, w.form0, w.nulls0, Lookup(w.previous, key))
                <==> KeepsUpdate(w.codec, c, w.previous, w.form0, w.nulls0))
  {
    QuietCell(w, triggers, key);
    RecordValue(w.codec, w.columns, w.previous, w.form0, w.nulls0, key);
    CellWritten(w.codec, w.columns, TriggerRecord(w.codec, w.columns, w.previous, w.form0, w.nulls0), w.previous,
                w.form, w.nulls, key);
    hide QuietlyWritten, TriggerRecord, ColumnsByName, SubmitsValues, LawfulCodec, Holds, KeyCell, Known;
  }

  // ---- Three writes that triggers change although they do nothing ----

  lemma OnlyColumn(c: ViewColumn)
    requires !IsSystemKey(c.name)
    ensures ColumnsByName([c]) == map[c.name := c] && Known([c], c.name)
  {
    assert [c][..0] == [] && [c][|[c]| - 1] == c;
    assert ColumnsByName([c]) == ColumnsByName([])[c.name := c];
  }

  /** A date that the form clears: the submitted maps would store NULL, after the triggers the old date stays. */
  lemma QuietClearExample(w: QuietWrite)
    requires QuietlyWritten(w, [])
    requires w.columns == [ViewColumn("due", "date", true)] && w.previous == map["due" := Text("2024-05-01")]
    requires w.form0 == map["due" := ""] && w.nulls0 == map["due" := true]
    ensures var due, stored := ViewColumn("due", "date", true), Text("2024-05-01");
            && UpdatedText(w.codec, due, w.form0, w.nulls0, stored) == ""
            && UpdatedText(w.codec, due, w.form, w.nulls, stored) == "2024-05-01"
  {
    var due := ViewColumn("due", "date", true);
    assert "_"[0] != "due"[0];
    OnlyColumn(due);
    QuietCell(w, [], "due");
    RecordValue(w.codec, w.columns, w.previous, w.form0, w.nulls0, "due");
    hide QuietlyWritten, TriggerRecord, ColumnsByName, SubmitsValues;
    assert w.codec.comparable(due, Text("2024-05-01")) == "2024-05-01"[..10] == "2024-05-01";
  }

  /** A stored text with blanks around it that the form does not submit: the triggers make the write trim it. */
  lemma UnsubmittedTextExample(w: QuietWrite)
    requires QuietlyWritten(w, [])
    requires w.columns == [ViewColumn("note", "text", true)] && w.previous == map["note" := Text(" x ")]
               && w.form0 == map[] && w.nulls0 == map[]
    ensures var note, stored := ViewColumn("note", "text", true), Text(" x ");
            && UpdatedText(w.codec, note, w.form0, w.nulls0, stored) == " x "
            && UpdatedText(w.codec, note, w.form, w.nulls, stored) == "x"
  {
    var note := ViewColumn("note", "text", true);
    assert "_"[0] != "note"[0];
    OnlyColumn(note);
    TrimsToX();
    hide TrimSpace;
    QuietCell(w, [], "note");
    RecordValue(w.codec, w.columns, w.previous, w.form0, w.nulls0, "note");
    hide QuietlyWritten, TriggerRecord, ColumnsByName, SubmitsValues;
  }

  lemma TrimsToX()
    ensures TrimSpace(" x ") == "x"
  {
    assert " x "[1..] == "x " && "x "[..1] == "x";
  }

  /** A stored instant that the form does not submit: every update through the triggers is refused. */
  lemma StoredInstantExample(codec: Codec, triggers: seq<Trigger>, instant: int)
    requires LawfulCodec(codec)
    requires SubmitsValues(codec, [ViewColumn("at", "timestamp", true)], map[], map[])
    requires Quiet(codec, [ViewColumn("at", "timestamp", true)], triggers, map["at" := Instant(instant)], map[], map[])
    ensures !UpdateRuns(codec, [ViewColumn("at", "timestamp", true)], triggers, map["at" := Instant(instant)], map[],
                        map[])
  {
    var at := ViewColumn("at", "timestamp", true);
    assert "_"[0] != "at"[0];
    OnlyColumn(at);
    QuietUpdateRunsIff(codec, [at], triggers, map["at" := Instant(instant)], map[], map[]);
    hide UpdateRuns, Quiet, ColumnsByName;
    assert !InputNormalizes(codec, ColumnsByName([at])["at"], map["at" := Instant(instant)], map[], map[]);
  }
}
