/** Rows of the events table and event entities (core/ent/event.go, core/ent/event_create.go and
    core/ent/event_query.go): which columns a query asks for, which holders are allocated for them,
    how scanned holders are assigned to an entity, and what creating an event writes. */
module EventRows {

  import opened Options

  // ---------------------------------------------------------------- columns

  /** Column names: the constants of the event package, and any other name. */
  datatype Column =
    | ID | UID | RemoteID | Etag | Summary | Description | Location | URL | MeetingURL | Status
    | Start | End | AllDay | StartTz | EndTz | Recurrence | RecurringID | OriginalStart | Organizer
    | Attendees | Reminders | Categories | Transparency | Visibility | RawIcs | Created | Updated
    | ForeignKey
    | Named(name: string)

  const DESCRIPTIVE: seq<Column> := [ID, UID, RemoteID, Etag, Summary, Description, Location, URL, MeetingURL, Status]
  const TEMPORAL: seq<Column> := [Start, End, AllDay, StartTz, EndTz, Recurrence, RecurringID, OriginalStart]
  const SUNDRY: seq<Column> :=
    [Organizer, Attendees, Reminders, Categories, Transparency, Visibility, RawIcs, Created, Updated]

  /** All columns of the entity, in table order; the foreign key is not among them. */
  const COLUMNS: seq<Column> := DESCRIPTIVE + TEMPORAL + SUNDRY

  /** The columns of a query: the selected fields with the id in front, or all columns; and the
      foreign key behind them if it is needed. */
  function QueryColumns(selected: seq<Column>, withFKs: bool): seq<Column> {
    (if selected == [] then COLUMNS else [ID] + WithoutID(selected)) + if withFKs then [ForeignKey] else []
  }

  function WithoutID(selected: seq<Column>): seq<Column> {
    if selected == [] then []
    else if selected[0] == ID then WithoutID(selected[1..])
    else [selected[0]] + WithoutID(selected[1..])
  }

  datatype Kind = TextKind | TimeKind | FlagKind | JsonKind | OtherKind

  /** The switch of scanValues. */
  function ScanKind(column: Column): Kind {
    match column
    case Recurrence | Organizer | Attendees | Reminders | Categories => JsonKind
    case AllDay => FlagKind
    case ID | UID | RemoteID | Etag | Summary | Description | Location | URL | MeetingURL | Status | StartTz | EndTz
       | RecurringID | Transparency | Visibility | RawIcs => TextKind
    case Start | End | OriginalStart | Created | Updated => TimeKind
    case ForeignKey => TextKind
    case Named(_) => OtherKind
  }

  /** What the switch of assignValues takes a column's holder to be. */
  function AssignKind(column: Column): Kind {
    match column
    case ID | UID | RemoteID | Etag | Summary | Description | Location | URL | MeetingURL | Status => TextKind
    case Start | End => TimeKind
    case AllDay => FlagKind
    case StartTz | EndTz => TextKind
    case Recurrence => JsonKind
    case RecurringID => TextKind
    case OriginalStart => TimeKind
    case Organizer | Attendees | Reminders | Categories => JsonKind
    case Transparency | Visibility | RawIcs => TextKind
    case Created | Updated => TimeKind
    case ForeignKey => TextKind
    case Named(_) => OtherKind
  }

  predicate IsField(column: Column) {
    !column.ForeignKey? && !column.Named?
  }

  // ---------------------------------------------------------------- values

  /** A value of an entity field, of a mutation, or (JSON in its text form) of a database column. */
  datatype Value = Text(s: string) | Time(t: int) | Flag(b: bool) | Json(doc: string) | Bytes(text: string)

  /** json.Marshal and json.Unmarshal, a document standing for the Go value. */
  datatype Codec = Codec(marshal: string -> string, unmarshal: string -> Option<string>)

  ghost predicate Lawful(codec: Codec) {
    forall doc :: codec.marshal(doc) != "" && codec.unmarshal(codec.marshal(doc)) == Some(doc)
  }

  /** What database/sql scans into; None stands for NULL. */
  datatype Holder =
    | NullString(s: Option<string>)
    | NullTime(t: Option<int>)
    | NullBool(b: Option<bool>)
    | RawBytes(text: string)
    | Unknown(v: Option<Value>)

  /** A row: the columns that are not NULL. */
  type Row = map<Column, Value>

  /** Every column holds values of its own type. */
  predicate Typed(row: Row) {
    forall c :: c in row ==>
      match ScanKind(c)
      case TextKind => row[c].Text?
      case TimeKind => row[c].Time?
      case FlagKind => row[c].Flag?
      case JsonKind => row[c].Bytes?
      case OtherKind => true
  }

  /** The holder that scanValues allocates for a column. */
  function Allocate(column: Column): Holder {
    match ScanKind(column)
    case TextKind => NullString(None)
    case TimeKind => NullTime(None)
    case FlagKind => NullBool(None)
    case JsonKind => RawBytes("")
    case OtherKind => Unknown(None)
  }

  function AllocateAll(columns: seq<Column>): (r: seq<Holder>)
    ensures |r| == |columns| && forall i :: 0 <= i < |r| ==> r[i] == Allocate(columns[i])
  {
    seq(|columns|, i requires 0 <= i < |columns| => Allocate(columns[i]))
  }

  /** An empty holder for every column, of the type the column is stored in. */
  method ScanValues(columns: seq<Column>) returns (values: seq<Holder>)
    ensures values == AllocateAll(columns)
    ensures forall i :: 0 <= i < |columns| ==>
              values[i] ==
              if columns[i].Named? then Unknown(None)
              else if columns[i] in {Recurrence, Organizer, Attendees, Reminders, Categories} then RawBytes("")
              else if columns[i] in {Start, End, OriginalStart, Created, Updated} then NullTime(None)
              else if columns[i] == AllDay then NullBool(None)
              else NullString(None)
  {
    values := [];
    for i := 0 to |columns|
      invariant |values| == i && forall j :: 0 <= j < i ==> values[j] == Allocate(columns[j])
    {
      values := values + [Allocate(columns[i])];
    }
  }

  /** Scanning one column of a typed row into the holder allocated for it. */
  function Fill(h: Holder, v: Option<Value>): Holder {
    match h
    case NullString(_) => NullString(if v.Some? && v.value.Text? then Some(v.value.s) else None)
    case NullTime(_) => NullTime(if v.Some? && v.value.Time? then Some(v.value.t) else None)
    case NullBool(_) => NullBool(if v.Some? && v.value.Flag? then Some(v.value.b) else None)
    case RawBytes(_) => RawBytes(if v.Some? && v.value.Bytes? then v.value.text else "")
    case Unknown(_) => Unknown(v)
  }

  function Cell(row: Row, column: Column): Option<Value> {
    if column in row then Some(row[column]) else None
  }

  function FillAll(columns: seq<Column>, holders: seq<Holder>, row: Row): (r: seq<Holder>)
    requires |columns| == |holders|
    ensures |r| == |columns| && forall i :: 0 <= i < |r| ==> r[i] == Fill(holders[i], Cell(row, columns[i]))
  {
    seq(|columns|, i requires 0 <= i < |columns| => Fill(holders[i], Cell(row, columns[i])))
  }

  // ---------------------------------------------------------------- entities

  /** An event entity: its fields under their column names (absent means the zero value), its foreign
      key, and values selected under other names. */
  datatype Entity = Entity(fields: map<Column, Value>, foreignKey: Option<string>, selected: map<Column, Holder>)

  const BLANK := Entity(map[], None, map[])

  datatype Error =
    | TooFewValues
    | UnexpectedType(column: Column)
    | Unmarshal(column: Column)

  datatype Assigned = Assigned(entity: Entity, error: Option<Error>)

  /** A field is set to what its holder holds, and left alone for NULL. */
  function SetField(e: Entity, column: Column, v: Option<Value>): Assigned {
    Assigned(if v.Some? then e.(fields := e.fields[column := v.value]) else e, None)
  }

  /** One case of the switch in assignValues. */
  function AssignOne(codec: Codec, e: Entity, column: Column, h: Holder): Assigned {
    match AssignKind(column)
    case TextKind =>
      if !h.NullString? then Assigned(e, Some(UnexpectedType(column)))
      else if column == ForeignKey then Assigned(if h.s.Some? then e.(foreignKey := h.s) else e, None)
      else SetField(e, column, if h.s.Some? then Some(Text(h.s.value)) else None)
    case TimeKind =>
      if !h.NullTime? then Assigned(e, Some(UnexpectedType(column)))
      else SetField(e, column, if h.t.Some? then Some(Time(h.t.value)) else None)
    case FlagKind =>
      if !h.NullBool? then Assigned(e, Some(UnexpectedType(column)))
      else SetField(e, column, if h.b.Some? then Some(Flag(h.b.value)) else None)
    case JsonKind =>
      if !h.RawBytes? then Assigned(e, Some(UnexpectedType(column)))
      else if h.text == "" then Assigned(e, None)
      else
        (match codec.unmarshal(h.text)
         case None => Assigned(e, Some(Unmarshal(column)))
         case Some(doc) => SetField(e, column, Some(Json(doc))))
    case OtherKind =>
      Assigned(e.(selected := e.selected[column := h]), None)
  }

  /** assignValues: the cases for all columns in order, up to the first error. */
  function Assign(codec: Codec, e: Entity, columns: seq<Column>, values: seq<Holder>): Assigned
    decreases |columns|
  {
    if |values| < |columns| then Assigned(e, Some(TooFewValues))
    else if columns == [] then Assigned(e, None)
    else
      var one := AssignOne(codec, e, columns[0], values[0]);
      if one.error.Some? then one else Assign(codec, one.entity, columns[1..], values[1..])
  }

  /** A calendar entity, as far as eager loading is concerned. */
  class Calendar {
    const id: string
    var events: seq<Event>

    constructor (id: string)
      ensures this.id == id && events == []
    {
      this.id, events := id, [];
    }
  }

  class Event {
    var view: Entity
    var calendar: Option<Calendar>

    constructor ()
      ensures view == BLANK && calendar == None
    {
      view, calendar := BLANK, None;
    }

    method AssignValues(codec: Codec, columns: seq<Column>, values: seq<Holder>) returns (err: Option<Error>)
      modifies this`view
      ensures Assigned(view, err) == Assign(codec, old(view), columns, values)
    {
      if |values| < |columns| {
        return Some(TooFewValues);
      }
      err := None;
      for i := 0 to |columns|
        invariant err == None
        invariant Assign(codec, view, columns[i..], values[i..]) == Assign(codec, old(view), columns, values)
      {
        assert columns[i..][1..] == columns[i + 1..] && values[i..][1..] == values[i + 1..];
        var one := AssignOne(codec, view, columns[i], values[i]);
        view := one.entity;
        if one.error != None {
          return one.error;
        }
      }
    }
  }

  // ---------------------------------------------------------------- reading rows

  /** What a typed row must hold for its JSON columns to be readable. */
  predicate Readable(codec: Codec, row: Row) {
    && Typed(row)
    && forall c :: c in row && ScanKind(c) == JsonKind && row[c].text != "" ==> codec.unmarshal(row[c].text).Some?
  }

  /** The entity field that a cell stands for; None for NULL and for an empty document. */
  function FieldOf(codec: Codec, row: Row, column: Column): Option<Value>
    requires Readable(codec, row)
  {
    if column !in row then None
    else if ScanKind(column) != JsonKind then Some(row[column])
    else if row[column].text == "" then None
    else Some(Json(codec.unmarshal(row[column].text).value))
  }

  /** Reading a row through a column list. */
  function Read(codec: Codec, columns: seq<Column>, row: Row): Assigned {
    Assign(codec, BLANK, columns, FillAll(columns, AllocateAll(columns), row))
  }

  /** An entity that holds, of a row, exactly the given columns. */
  ghost predicate Holds(codec: Codec, e: Entity, columns: seq<Column>, row: Row)
    requires Readable(codec, row)
  {
    && HoldsFields(codec, e.fields, columns, row)
    && e.foreignKey == (if ForeignKey in columns && ForeignKey in row then Some(row[ForeignKey].s) else None)
    && HoldsSelected(e.selected, columns, row)
  }

  ghost predicate HoldsFields(codec: Codec, fields: map<Column, Value>, columns: seq<Column>, row: Row)
    requires Readable(codec, row)
  {
    && (forall c :: c in fields <==> c in columns && IsField(c) && FieldOf(codec, row, c).Some?)
    && (forall c :: c in fields ==> Some(fields[c]) == FieldOf(codec, row, c))
  }

  ghost predicate HoldsSelected(selected: map<Column, Holder>, columns: seq<Column>, row: Row) {
    && (forall c :: c in selected <==> c in columns && c.Named?)
    && (forall c :: c in selected ==> selected[c] == Unknown(Cell(row, c)))
  }

  /** What assigning one cell of a readable row does. */
  function Absorb(codec: Codec, e: Entity, column: Column, row: Row): Entity
    requires Readable(codec, row)
  {
    if column.Named? then e.(selected := e.selected[column := Unknown(Cell(row, column))])
    else if column.ForeignKey? then (if column in row then e.(foreignKey := Some(row[column].s)) else e)
    else e.(fields := WithField(e.fields, column, FieldOf(codec, row, column)))
  }

  function WithField(fields: map<Column, Value>, column: Column, v: Option<Value>): map<Column, Value> {
    if v.Some? then fields[column := v.value] else fields
  }

  lemma AssignAbsorbs(codec: Codec, e: Entity, column: Column, row: Row)
    requires Readable(codec, row)
    ensures AssignOne(codec, e, column, Fill(Allocate(column), Cell(row, column))) ==
            Assigned(Absorb(codec, e, column, row), None)
  {
    if column in row {
      match ScanKind(column)
      case TextKind =>
      case TimeKind =>
      case FlagKind =>
      case JsonKind =>
      case OtherKind =>
    }
  }

  lemma AssignHolds(codec: Codec, e: Entity, before: seq<Column>, column: Column, row: Row)
    requires Readable(codec, row) && Holds(codec, e, before, row)
    ensures var one := AssignOne(codec, e, column, Fill(Allocate(column), Cell(row, column)));
            one.error == None && Holds(codec, one.entity, before + [column], row)
  {
    AssignAbsorbs(codec, e, column, row);
    AbsorbHolds(codec, e, before, column, row);
  }

  lemma AbsorbHolds(codec: Codec, e: Entity, before: seq<Column>, column: Column, row: Row)
    requires Readable(codec, row) && Holds(codec, e, before, row)
    ensures Holds(codec, Absorb(codec, e, column, row), before + [column], row)
  {
    AbsorbFields(codec, e, before, column, row);
    AbsorbSelected(codec, e, before, column, row);
    assert ForeignKey in before + [column] <==> ForeignKey in before || column == ForeignKey;
  }

  lemma AbsorbFields(codec: Codec, e: Entity, before: seq<Column>, column: Column, row: Row)
    requires Readable(codec, row) && HoldsFields(codec, e.fields, before, row)
    ensures HoldsFields(codec, Absorb(codec, e, column, row).fields, before + [column], row)
  {
    assert forall c :: c in before + [column] <==> c in before || c == column;
  }

  lemma AbsorbSelected(codec: Codec, e: Entity, before: seq<Column>, column: Column, row: Row)
    requires Readable(codec, row) && HoldsSelected(e.selected, before, row)
    ensures HoldsSelected(Absorb(codec, e, column, row).selected, before + [column], row)
  {
    assert forall c :: c in before + [column] <==> c in before || c == column;
  }

  lemma {:induction false} AssignAllHolds(codec: Codec, e: Entity, before: seq<Column>, columns: seq<Column>, row: Row)
    requires Readable(codec, row) && Holds(codec, e, before, row)
    ensures var all := Assign(codec, e, columns, FillAll(columns, AllocateAll(columns), row));
            all.error == None && Holds(codec, all.entity, before + columns, row)
    decreases |columns|
  {
    if columns == [] {
      assert before + columns == before;
    } else {
      var first, rest := columns[0], columns[1..];
      AssignHolds(codec, e, before, first, row);
      var one := AssignOne(codec, e, first, Fill(Allocate(first), Cell(row, first)));
      AssignAllHolds(codec, one.entity, before + [first], rest, row);
      assert before + [first] + rest == before + columns;
      assert FillAll(columns, AllocateAll(columns), row)[1..] == FillAll(rest, AllocateAll(rest), row);
    }
  }

  /** For every column list, of any order and with any repetitions, the holders that scanValues
      allocates are accepted, and the entity holds exactly the cells of the listed columns. */
  lemma ReadHolds(codec: Codec, columns: seq<Column>, row: Row)
    requires Readable(codec, row)
    ensures var r := Read(codec, columns, row); r.error == None && Holds(codec, r.entity, columns, row)
  {
    AssignAllHolds(codec, BLANK, [], columns, row);
    assert [] + columns == columns;
  }

  /** The order of the columns does not matter. */
  lemma ColumnOrder(codec: Codec, a: seq<Column>, b: seq<Column>, row: Row)
    requires Readable(codec, row) && forall c :: c in a <==> c in b
    ensures Read(codec, a, row) == Read(codec, b, row)
  {
    ReadHolds(codec, a, row);
    ReadHolds(codec, b, row);
    var x, y := Read(codec, a, row).entity, Read(codec, b, row).entity;
    assert x.fields == y.fields;
    assert x.selected == y.selected;
  }

  lemma {:induction false} KeepsOthers(selected: seq<Column>, c: Column)
    ensures c in WithoutID(selected) <==> c in selected && c != ID
  {
    if selected != [] {
      KeepsOthers(selected[1..], c);
    }
  }

  /** The columns a query asks for: the id, the selected ones or else all of the entity, and the foreign key if
      it is forced. */
  lemma ColumnsAsked(selected: seq<Column>, withFKs: bool, c: Column)
    ensures c in QueryColumns(selected, withFKs) <==>
            || c == ID
            || c in selected
            || (selected == [] && !c.ForeignKey? && !c.Named?)
            || (withFKs && c == ForeignKey)
  {
    var own := if selected == [] then COLUMNS else [ID] + WithoutID(selected);
    InEither(own, if withFKs then [ForeignKey] else [], c);
    if selected == [] {
      AllColumns();
    } else {
      KeepsOthers(selected, c);
      InEither([ID], WithoutID(selected), c);
    }
  }

  /** Every selected column is read, with the id, and no other one; without a selection all fields are. */
  lemma SelectionRead(codec: Codec, selected: seq<Column>, withFKs: bool, row: Row)
    requires Readable(codec, row)
    ensures var r := Read(codec, QueryColumns(selected, withFKs), row);
            && r.error == None
            && (forall c :: c in r.entity.fields <==>
                  && !c.ForeignKey? && !c.Named?
                  && (c == ID || selected == [] || c in selected)
                  && FieldOf(codec, row, c).Some?)
            && (forall c :: c in r.entity.fields ==> Some(r.entity.fields[c]) == FieldOf(codec, row, c))
            && (forall c :: c in r.entity.selected <==> c.Named? && c in selected)
            && r.entity.foreignKey ==
               if (withFKs || ForeignKey in selected) && ForeignKey in row then Some(row[ForeignKey].s) else None
  {
    var columns := QueryColumns(selected, withFKs);
    ReadHolds(codec, columns, row);
    forall c
      ensures c in columns <==>
              || c == ID || c in selected
              || (selected == [] && !c.ForeignKey? && !c.Named?)
              || (withFKs && c == ForeignKey)
    {
      ColumnsAsked(selected, withFKs, c);
    }
  }

  /** With the foreign key forced, every selection of fields reads the key and the id of the row. */
  lemma ForcedForeignKey(codec: Codec, selected: seq<Column>, row: Row)
    requires Readable(codec, row) && ForeignKey in row && ID in row
    ensures var r := Read(codec, QueryColumns(selected, true), row);
            && r.error == None
            && r.entity.foreignKey == Some(row[ForeignKey].s)
            && ID in r.entity.fields && r.entity.fields[ID] == row[ID]
  {
    var columns := QueryColumns(selected, true);
    ReadHolds(codec, columns, row);
    assert columns[|columns| - 1] == ForeignKey;
    assert columns[0] == ID;
  }

  /** Without it the key is read only if it was selected by name. */
  lemma UnforcedForeignKey(codec: Codec, selected: seq<Column>, row: Row)
    requires Readable(codec, row) && ForeignKey in row
    ensures Read(codec, QueryColumns(selected, false), row).entity.foreignKey ==
            if ForeignKey in selected then Some(row[ForeignKey].s) else None
  {
    var columns := QueryColumns(selected, false);
    ReadHolds(codec, columns, row);
    KeepsOthers(selected, ForeignKey);
    assert ForeignKey in columns <==> ForeignKey in selected;
  }

  // ---------------------------------------------------------------- writing rows

  /** The fields set on a create mutation, each of its column's type. */
  predicate SetFields(fields: map<Column, Value>) {
    forall c :: c in fields ==>
      && IsField(c)
      && match ScanKind(c)
         case TextKind => fields[c].Text?
         case TimeKind => fields[c].Time?
         case FlagKind => fields[c].Flag?
         case JsonKind => fields[c].Json?
         case OtherKind => true
  }

  function Store(codec: Codec, v: Value): Value {
    if v.Json? then Bytes(codec.marshal(v.doc)) else v
  }

  /** The row that creating an event writes. */
  function WrittenRow(codec: Codec, fields: map<Column, Value>, calendar: string): Row {
    (map c | c in fields :: Store(codec, fields[c]))[ForeignKey := Text(calendar)]
  }

  /** createSpec: field by field, the field of the specification and the field of the node; then the
      foreign key of both. */
  method CreateSpec(codec: Codec, fields: map<Column, Value>, calendar: string) returns (row: Row, node: Entity)
    requires SetFields(fields)
    ensures row == WrittenRow(codec, fields, calendar)
    ensures node == Entity(fields, Some(calendar), map[])
  {
    row, node := SpecFields(codec, fields, COLUMNS);
    AllColumns();
    assert node.fields == fields;
    row := row[ForeignKey := Text(calendar)];
    node := node.(foreignKey := Some(calendar));
  }

  method SpecFields(codec: Codec, fields: map<Column, Value>, columns: seq<Column>) returns (row: Row, node: Entity)
    ensures node.foreignKey == None && node.selected == map[]
    ensures forall c :: c in node.fields <==> c in columns && c in fields
    ensures forall c :: c in node.fields ==> node.fields[c] == fields[c]
    ensures row.Keys == node.fields.Keys && forall c :: c in row ==> row[c] == Store(codec, fields[c])
  {
    row, node := map[], BLANK;
    for i := 0 to |columns|
      invariant forall c :: c in node.fields <==> c in columns[..i] && c in fields
      invariant forall c :: c in node.fields ==> node.fields[c] == fields[c]
      invariant row.Keys == node.fields.Keys && forall c :: c in row ==> row[c] == Store(codec, fields[c])
      invariant node.foreignKey == None && node.selected == map[]
    {
      var c := columns[i];
      assert columns[..i + 1] == columns[..i] + [c];
      if c in fields {
        row := row[c := Store(codec, fields[c])];
        node := node.(fields := node.fields[c := fields[c]]);
      }
    }
    assert columns[..|columns|] == columns;
  }

  lemma AllColumns()
    ensures forall c :: c in COLUMNS <==> IsField(c)
  {
    forall c
      ensures c in COLUMNS <==> IsField(c)
    {
      InDescriptive(c);
      InTemporal(c);
      InSundry(c);
      InEither(DESCRIPTIVE, TEMPORAL, c);
      InEither(DESCRIPTIVE + TEMPORAL, SUNDRY, c);
    }
  }

  lemma InEither(a: seq<Column>, b: seq<Column>, c: Column)
    ensures c in a + b <==> c in a || c in b
  {
  }

  lemma InDescriptive(c: Column)
    ensures c in DESCRIPTIVE <==>
            c.ID? || c.UID? || c.RemoteID? || c.Etag? || c.Summary? || c.Description? || c.Location? || c.URL?
            || c.MeetingURL? || c.Status?
  {
  }

  lemma InTemporal(c: Column)
    ensures c in TEMPORAL <==>
            c.Start? || c.End? || c.AllDay? || c.StartTz? || c.EndTz? || c.Recurrence? || c.RecurringID?
            || c.OriginalStart?
  {
  }

  lemma InSundry(c: Column)
    ensures c in SUNDRY <==>
            c.Organizer? || c.Attendees? || c.Reminders? || c.Categories? || c.Transparency? || c.Visibility?
            || c.RawIcs? || c.Created? || c.Updated?
  {
  }

  /** Writing an event and reading its row back gives the node that was handed out. */
  lemma WriteReadBack(codec: Codec, fields: map<Column, Value>, calendar: string)
    requires Lawful(codec) && SetFields(fields)
    ensures Read(codec, QueryColumns([], true), WrittenRow(codec, fields, calendar)) ==
            Assigned(Entity(fields, Some(calendar), map[]), None)
  {
    var row, columns := WrittenRow(codec, fields, calendar), QueryColumns([], true);
    WrittenReadable(codec, fields, calendar);
    ReadHolds(codec, columns, row);
    assert forall c :: c in columns <==> IsField(c) || c == ForeignKey by {
      AllColumns();
    }
    HoldsWritten(codec, Read(codec, columns, row).entity, columns, fields, calendar);
  }

  lemma WrittenReadable(codec: Codec, fields: map<Column, Value>, calendar: string)
    requires Lawful(codec) && SetFields(fields)
    ensures var row := WrittenRow(codec, fields, calendar);
            && Readable(codec, row)
            && forall c :: c in fields ==> FieldOf(codec, row, c) == Some(fields[c])
  {
  }

  lemma HoldsWritten(codec: Codec, e: Entity, columns: seq<Column>, fields: map<Column, Value>, calendar: string)
    requires Lawful(codec) && SetFields(fields)
    requires Readable(codec, WrittenRow(codec, fields, calendar))
    requires Holds(codec, e, columns, WrittenRow(codec, fields, calendar))
    requires forall c :: c in columns <==> IsField(c) || c == ForeignKey
    ensures e == Entity(fields, Some(calendar), map[])
  {
    WrittenReadable(codec, fields, calendar);
    assert e.fields == fields;
    assert e.selected == map[];
  }
}
