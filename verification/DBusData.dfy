/** Conversion of records to DBus structures and back
    (fatbuildr/protocols/dbus/__init__.py, fatbuildr/protocols/exports.py). DBus has
    no null value, so None travels as -1 or as the empty-set sign. */
module DBusData {
  import opened Wrappers

  /** The declared type of a field; a nested type is named in the registry. */
  datatype Type =
    | TStr
    | TInt
    | TBool
    | TPath
    | TDate
    | TStrings
    | TNested(name: string)
    | TNestedList(name: string)

  datatype Field = Field(name: string, native: Type)


  /** A value of a Python attribute. A date is a timestamp in seconds. */
  datatype Native =
    | NNone
    | NStr(s: string)
    | NInt(n: int)
    | NBool(b: bool)
    | NPath(path: string)
    | NDate(t: real)
    | NStrings(strings: seq<string>)
    | NRecord(fields: map<string, Native>)
    | NRecords(records: seq<Native>)

  /** A value on the wire, under its variant signature. */
  datatype Wire =
    | WStr(s: string)
    | WInt(n: int)
    | WBool(b: bool)
    | WStrings(strings: seq<string>)
    | WStruct(entries: map<string, Wire>)
    | WStructs(structs: seq<Wire>)

  /** The fields of each exportable type, and what get_variant makes of the empty-set
      sign for a wire type other than an integer or a string: a wire value of that
      type, or None when it raises. */
  datatype Registry = Registry(types: map<string, seq<Field>>, variant: Type -> Option<Wire>)

  const NULL_INT := -1
  const NULL_STR := "\U{2205}"

  /** int() of a float: towards zero. */
  function Truncate(t: real): int {
    if t >= 0.0 then t.Floor else -((-t).Floor)
  }

  /** ExportableField.wire_type is int */
  predicate IntOnWire(t: Type) {
    t.TInt? || t.TDate?
  }

  /** ExportableField.wire_type is str */
  predicate StrOnWire(t: Type) {
    t.TStr? || t.TPath?
  }

  // ---- records of the declared types ----

  ghost predicate HasType(reg: Registry, t: Type, v: Native)
    decreases v, 2
  {
    match v
    case NNone => true
    case NStr(_) => t.TStr?
    case NInt(_) => t.TInt?
    case NBool(_) => t.TBool?
    case NPath(_) => t.TPath?
    case NDate(_) => t.TDate?
    case NStrings(_) => t.TStrings?
    case NRecord(_) => t.TNested? && t.name in reg.types && IsRecord(reg, reg.types[t.name], v)
    case NRecords(records) =>
      t.TNestedList? && t.name in reg.types &&
      forall r :: r in records ==> r.NRecord? && IsRecord(reg, reg.types[t.name], r)
  }

  /** A record with exactly the given fields, each of its declared type. */
  ghost predicate IsRecord(reg: Registry, fields: seq<Field>, r: Native)
    requires r.NRecord?
    ensures IsRecord(reg, fields, r) ==> Typed(reg, fields, r)
    decreases r, 1
  {
    && Unique(fields)
    && (forall name :: name in r.fields ==> exists f :: f in fields && f.name == name)
    && Typed(reg, fields, r)
  }

  ghost predicate Typed(reg: Registry, fields: seq<Field>, r: Native)
    requires r.NRecord?
    decreases r, 0
  {
    forall f :: f in fields ==> f.name in r.fields && HasType(reg, f.native, r.fields[f.name])
  }

  ghost predicate Unique(fields: seq<Field>) {
    forall f, g :: f in fields && g in fields && f.name == g.name ==> f == g
  }

  // ---- to_structure ----

  /** The wire value of a field, None when get_variant refuses it. */
  function EncodeValue(reg: Registry, t: Type, v: Native): Option<Wire>
    requires HasType(reg, t, v)
    decreases v, 2, 0
  {
    match v
    case NNone => if IntOnWire(t) then Some(WInt(NULL_INT)) else if StrOnWire(t) then Some(WStr(NULL_STR)) else reg.variant(t)
    case NStr(s) => Some(WStr(s))
    case NInt(n) => Some(WInt(n))
    case NBool(b) => Some(WBool(b))
    case NPath(p) => Some(WStr(p))
    case NDate(t) => Some(WInt(Truncate(t)))
    case NStrings(strings) => Some(WStrings(strings))
    case NRecord(_) =>
      (match EncodeFields(reg, reg.types[t.name], v)
       case None => None
       case Some(entries) => Some(WStruct(entries)))
    case NRecords(records) =>
      (match EncodeAll(reg, reg.types[t.name], records)
       case None => None
       case Some(structs) => Some(WStructs(structs)))
  }

  function EncodeFields(reg: Registry, fields: seq<Field>, r: Native): Option<map<string, Wire>>
    requires r.NRecord? && Typed(reg, fields, r)
    decreases r, 1, |fields|
  {
    if fields == [] then Some(map[])
    else
      var f := fields[|fields| - 1];
      match EncodeFields(reg, fields[..|fields| - 1], r)
      case None => None
      case Some(before) =>
        match EncodeValue(reg, f.native, r.fields[f.name])
        case None => None
        case Some(w) => Some(before[f.name := w])
  }

  function EncodeAll(reg: Registry, fields: seq<Field>, records: seq<Native>): Option<seq<Wire>>
    requires forall r :: r in records ==> r.NRecord? && IsRecord(reg, fields, r)
    decreases records, 1, 0
  {
    if records == [] then Some([])
    else
      var last := records[|records| - 1];
      assert IsRecord(reg, fields, last);
      match EncodeAll(reg, fields, records[..|records| - 1])
      case None => None
      case Some(before) =>
        match EncodeFields(reg, fields, last)
        case None => None
        case Some(entries) => Some(before + [WStruct(entries)])
  }

  // ---- from_structure ----

  /** The native value of a field, None when the wire value does not fit its type. */
  function DecodeValue(reg: Registry, t: Type, w: Wire): Option<Native>
    decreases w, 2, 0
  {
    if (IntOnWire(t) && w == WInt(NULL_INT)) || (StrOnWire(t) && w == WStr(NULL_STR)) then Some(NNone)
    else match w
         case WStr(s) => if t.TStr? then Some(NStr(s)) else if t.TPath? then Some(NPath(s)) else None
         case WInt(n) => if t.TInt? then Some(NInt(n)) else if t.TDate? then Some(NDate(n as real)) else None
         case WBool(b) => if t.TBool? then Some(NBool(b)) else None
         case WStrings(strings) => if t.TStrings? then Some(NStrings(strings)) else None
         case WStruct(_) =>
           if !t.TNested? || t.name !in reg.types then None
           else (match DecodeFields(reg, reg.types[t.name], w)
                 case None => None
                 case Some(fields) => Some(NRecord(fields)))
         case WStructs(structs) =>
           if !t.TNestedList? || t.name !in reg.types then None
           else (match DecodeAll(reg, reg.types[t.name], structs)
                 case None => None
                 case Some(records) => Some(NRecords(records)))
  }

  function DecodeFields(reg: Registry, fields: seq<Field>, s: Wire): Option<map<string, Native>>
    requires s.WStruct?
    decreases s, 1, |fields|
  {
    if fields == [] then Some(map[])
    else
      var f := fields[|fields| - 1];
      match DecodeFields(reg, fields[..|fields| - 1], s)
      case None => None
      case Some(before) =>
        if f.name !in s.entries then None
        else match DecodeValue(reg, f.native, s.entries[f.name])
             case None => None
             case Some(v) => Some(before[f.name := v])
  }

  function DecodeAll(reg: Registry, fields: seq<Field>, structs: seq<Wire>): Option<seq<Native>>
    decreases structs, 1, 0
  {
    if structs == [] then Some([])
    else
      match DecodeAll(reg, fields, structs[..|structs| - 1])
      case None => None
      case Some(before) =>
        if !structs[|structs| - 1].WStruct? then None
        else match DecodeFields(reg, fields, structs[|structs| - 1])
             case None => None
             case Some(r) => Some(before + [NRecord(r)])
  }

  // ---- what a round trip does ----

  /** The value on the other side: dates lose their fraction, and what looks like
      None becomes None. */
  function Normal(v: Native): Native {
    match v
    case NStr(s) => if s == NULL_STR then NNone else v
    case NPath(p) => if p == NULL_STR then NNone else v
    case NInt(n) => if n == NULL_INT then NNone else v
    case NDate(t) => if Truncate(t) == NULL_INT then NNone else NDate(Truncate(t) as real)
    case NRecord(fields) => NRecord(map name | name in fields :: Normal(fields[name]))
    case NRecords(records) => NRecords(NormalAll(records))
    case _ => v
  }

  function NormalAll(records: seq<Native>): (out: seq<Native>)
    ensures |out| == |records| && forall k :: 0 <= k < |records| ==> out[k] == Normal(records[k])
  {
    if records == [] then []
    else NormalAll(records[..|records| - 1]) + [Normal(records[|records| - 1])]
  }

  /** None only where the wire type has a sign for it. */
  ghost predicate Signed(reg: Registry, t: Type, v: Native)
    requires HasType(reg, t, v)
    decreases v, 1
  {
    match v
    case NNone => t.TInt? || t.TDate? || t.TStr? || t.TPath?
    case NRecord(_) => AllSigned(reg, reg.types[t.name], v)
    case NRecords(records) => forall r :: r in records ==> AllSigned(reg, reg.types[t.name], r)
    case _ => true
  }

  ghost predicate AllSigned(reg: Registry, fields: seq<Field>, r: Native)
    requires r.NRecord? && Typed(reg, fields, r)
    decreases r, 0
  {
    forall f :: f in fields ==> Signed(reg, f.native, r.fields[f.name])
  }

  /** The value is received in its normal form. */
  ghost predicate Arrives(reg: Registry, t: Type, v: Native)
    requires HasType(reg, t, v)
  {
    EncodeValue(reg, t, v).Some? && DecodeValue(reg, t, EncodeValue(reg, t, v).value) == Some(Normal(v))
  }

  lemma LeafRoundTrip(reg: Registry, t: Type, v: Native)
    requires HasType(reg, t, v) && !v.NRecord? && !v.NRecords?
    ensures Arrives(reg, t, v) <==> Signed(reg, t, v)
  {
  }

  /** Whatever get_variant does with the sign of another type, a value is received in its
      normal form if and only if None only stands where the wire type has a sign
      for it. */
  lemma {:induction false} RoundTrip(reg: Registry, t: Type, v: Native)
    requires HasType(reg, t, v)
    ensures Arrives(reg, t, v) <==> Signed(reg, t, v)
    decreases v, 3, 0
  {
    match v
    case NRecord(_) =>
      RecordRoundTrip(reg, reg.types[t.name], v);
      NestedRoundTrip(reg, t, v);
    case NRecords(records) =>
      AllRoundTrip(reg, reg.types[t.name], records);
      NestedListRoundTrip(reg, t, records);
    case _ =>
      LeafRoundTrip(reg, t, v);
  }

  ghost predicate RecordArrives(reg: Registry, fields: seq<Field>, r: Native)
    requires r.NRecord? && Typed(reg, fields, r)
  {
    EncodeFields(reg, fields, r).Some? &&
    DecodeFields(reg, fields, WStruct(EncodeFields(reg, fields, r).value)) == Some(Normal(r).fields)
  }

  ghost predicate AllArrive(reg: Registry, fields: seq<Field>, records: seq<Native>)
    requires forall r :: r in records ==> r.NRecord? && IsRecord(reg, fields, r)
  {
    EncodeAll(reg, fields, records).Some? &&
    DecodeAll(reg, fields, EncodeAll(reg, fields, records).value) == Some(NormalAll(records))
  }

  lemma {:induction false} NestedRoundTrip(reg: Registry, t: Type, v: Native)
    requires v.NRecord? && HasType(reg, t, v)
    ensures Arrives(reg, t, v) <==> RecordArrives(reg, reg.types[t.name], v)
  {
  }

  lemma {:induction false} NestedListRoundTrip(reg: Registry, t: Type, records: seq<Native>)
    requires HasType(reg, t, NRecords(records))
    ensures Arrives(reg, t, NRecords(records)) <==> AllArrive(reg, reg.types[t.name], records)
  {
  }

  /** The entries of a structure are the wire values of the fields. */
  lemma {:induction false} EntriesAre(reg: Registry, fields: seq<Field>, r: Native)
    requires r.NRecord? && Typed(reg, fields, r) && Unique(fields)
    ensures EncodeFields(reg, fields, r).Some? <==>
            forall f :: f in fields ==> EncodeValue(reg, f.native, r.fields[f.name]).Some?
    ensures EncodeFields(reg, fields, r).Some? ==>
              var entries := EncodeFields(reg, fields, r).value;
              forall f :: f in fields ==>
                f.name in entries && EncodeValue(reg, f.native, r.fields[f.name]) == Some(entries[f.name])
    decreases |fields|
  {
    if fields != [] {
      var init, f := fields[..|fields| - 1], fields[|fields| - 1];
      EntriesAre(reg, init, r);
      assert forall g :: g in fields <==> g in init || g == f;
    }
  }

  lemma {:induction false} DecodeStep(reg: Registry, fields: seq<Field>, s: Wire)
    requires s.WStruct? && fields != []
    requires var init, f := fields[..|fields| - 1], fields[|fields| - 1];
             && DecodeFields(reg, init, s).Some?
             && f.name in s.entries && DecodeValue(reg, f.native, s.entries[f.name]).Some?
    ensures var init, f := fields[..|fields| - 1], fields[|fields| - 1];
            DecodeFields(reg, fields, s) ==
            Some(DecodeFields(reg, init, s).value[f.name := DecodeValue(reg, f.native, s.entries[f.name]).value])
  {
  }

  /** Decoding a structure whose entries decode to the values of a record. */
  lemma {:induction false} DecodeEntries(reg: Registry, fields: seq<Field>, values: map<string, Native>, s: Wire)
    requires s.WStruct? && Unique(fields)
    requires forall f :: f in fields ==>
               f.name in s.entries && f.name in values &&
               DecodeValue(reg, f.native, s.entries[f.name]) == Some(values[f.name])
    ensures DecodeFields(reg, fields, s).Some?
    ensures var out := DecodeFields(reg, fields, s).value;
            && (forall name :: name in out ==> name in values && out[name] == values[name])
            && (forall name :: name in out <==> exists f :: f in fields && f.name == name)
    decreases |fields|
  {
    if fields != [] {
      var init, f := fields[..|fields| - 1], fields[|fields| - 1];
      assert forall g :: g in fields <==> g in init || g == f;
      DecodeEntries(reg, init, values, s);
      DecodeStep(reg, fields, s);
    }
  }

  /** What is decoded is decoded from the entries, field by field. */
  lemma {:induction false} DecodedAre(reg: Registry, fields: seq<Field>, s: Wire)
    requires s.WStruct? && Unique(fields) && DecodeFields(reg, fields, s).Some?
    ensures var out := DecodeFields(reg, fields, s).value;
            forall f :: f in fields ==>
              f.name in s.entries && f.name in out && DecodeValue(reg, f.native, s.entries[f.name]) == Some(out[f.name])
    decreases |fields|
  {
    if fields != [] {
      var init, f := fields[..|fields| - 1], fields[|fields| - 1];
      assert forall g :: g in fields <==> g in init || g == f;
      DecodedAre(reg, init, s);
      DecodeStep(reg, fields, s);
    }
  }

  /** A record arrives if and only if all its fields do. */
  lemma {:induction false} RecordArrivesByFields(reg: Registry, fields: seq<Field>, r: Native)
    requires r.NRecord? && IsRecord(reg, fields, r)
    ensures RecordArrives(reg, fields, r) <==>
            forall f :: f in fields ==> Arrives(reg, f.native, r.fields[f.name])
  {
    if RecordArrives(reg, fields, r) {
      FieldsOfArrived(reg, fields, r);
    }
    if forall f :: f in fields ==> Arrives(reg, f.native, r.fields[f.name]) {
      ArrivedOfFields(reg, fields, r);
    }
  }

  lemma {:induction false} FieldsOfArrived(reg: Registry, fields: seq<Field>, r: Native)
    requires r.NRecord? && IsRecord(reg, fields, r) && RecordArrives(reg, fields, r)
    ensures forall f :: f in fields ==> Arrives(reg, f.native, r.fields[f.name])
  {
    EntriesAre(reg, fields, r);
    DecodedAre(reg, fields, WStruct(EncodeFields(reg, fields, r).value));
  }

  lemma {:induction false} ArrivedOfFields(reg: Registry, fields: seq<Field>, r: Native)
    requires r.NRecord? && IsRecord(reg, fields, r)
    requires forall f :: f in fields ==> Arrives(reg, f.native, r.fields[f.name])
    ensures RecordArrives(reg, fields, r)
  {
    EntriesAre(reg, fields, r);
    var s, values := WStruct(EncodeFields(reg, fields, r).value), Normal(r).fields;
    DecodeEntries(reg, fields, values, s);
    var out := DecodeFields(reg, fields, s).value;
    assert out.Keys == values.Keys;
    assert out == values;
  }

  lemma {:induction false} RecordRoundTrip(reg: Registry, fields: seq<Field>, r: Native)
    requires r.NRecord? && IsRecord(reg, fields, r)
    ensures RecordArrives(reg, fields, r) <==> AllSigned(reg, fields, r)
    decreases r, 2, 0
  {
    RecordArrivesByFields(reg, fields, r);
    forall f | f in fields
      ensures Arrives(reg, f.native, r.fields[f.name]) <==> Signed(reg, f.native, r.fields[f.name])
    {
      RoundTrip(reg, f.native, r.fields[f.name]);
    }
  }

  /** A list arrives if and only if its beginning and its last record do. */
  lemma {:induction false} AllArriveStep(reg: Registry, fields: seq<Field>, records: seq<Native>, init: seq<Native>, r: Native)
    requires forall r :: r in records ==> r.NRecord? && IsRecord(reg, fields, r)
    requires records != [] && init == records[..|records| - 1] && r == records[|records| - 1]
    ensures r.NRecord? && IsRecord(reg, fields, r)
    ensures AllArrive(reg, fields, records) <==> AllArrive(reg, fields, init) && RecordArrives(reg, fields, r)
  {
    assert r in records;
    if EncodeAll(reg, fields, records).Some? {
      var structs := EncodeAll(reg, fields, records).value;
      assert structs[..|structs| - 1] == EncodeAll(reg, fields, init).value;
      var out := DecodeAll(reg, fields, structs);
      if out.Some? {
        var before := DecodeAll(reg, fields, structs[..|structs| - 1]).value;
        var last := DecodeFields(reg, fields, structs[|structs| - 1]).value;
        AppendedEqual(before, NRecord(last), NormalAll(init), Normal(r));
      }
    }
  }

  lemma AppendedEqual(a: seq<Native>, x: Native, b: seq<Native>, y: Native)
    ensures a + [x] == b + [y] <==> a == b && x == y
  {
    if a + [x] == b + [y] {
      assert |a| + 1 == |a + [x]| == |b + [y]| == |b| + 1;
      assert a == (a + [x])[..|a|] == (b + [y])[..|b|] == b;
      assert x == (a + [x])[|a|] == (b + [y])[|b|] == y;
    }
  }

  lemma {:induction false} AllRoundTrip(reg: Registry, fields: seq<Field>, records: seq<Native>)
    requires forall r :: r in records ==> r.NRecord? && IsRecord(reg, fields, r)
    ensures AllArrive(reg, fields, records) <==> forall r :: r in records ==> AllSigned(reg, fields, r)
    decreases records, 1, 0
  {
    if records != [] {
      var init, r := records[..|records| - 1], records[|records| - 1];
      AllRoundTrip(reg, fields, init);
      AllArriveStep(reg, fields, records, init, r);
      RecordRoundTrip(reg, fields, r);
      assert forall x :: x in records <==> x in init || x == r;
    }
  }

  // ---- what goes on the wire, and what is received, value by value ----

  /** `n` is `t` without its fraction, towards zero. */
  predicate WholePart(t: real, n: int) {
    && (t >= 0.0 ==> n as real <= t < n as real + 1.0)
    && (t <= 0.0 ==> n as real - 1.0 < t <= n as real)
  }

  lemma TruncateIs(t: real)
    ensures WholePart(t, Truncate(t))
  {
  }

  /** How a value travels. */
  ghost predicate OnWire(t: Type, v: Native, w: Wire) {
    match v
    case NNone =>
      if t.TInt? || t.TDate? then w == WInt(-1) else t.TStr? || t.TPath? ==> w == WStr("\U{2205}")
    case NStr(s) => w == WStr(s)
    case NInt(n) => w == WInt(n)
    case NBool(b) => w == WBool(b)
    case NPath(p) => w == WStr(p)
    case NDate(d) => w.WInt? && WholePart(d, w.n)
    case NStrings(strings) => w == WStrings(strings)
    case NRecord(_) => w.WStruct?
    case NRecords(records) => w.WStructs? && |w.structs| == |records|
  }

  lemma {:induction false} AsManyStructs(reg: Registry, fields: seq<Field>, records: seq<Native>)
    requires forall r :: r in records ==> r.NRecord? && IsRecord(reg, fields, r)
    ensures EncodeAll(reg, fields, records).Some? ==> |EncodeAll(reg, fields, records).value| == |records|
    decreases |records|
  {
    if records != [] {
      AsManyStructs(reg, fields, records[..|records| - 1]);
    }
  }

  lemma {:induction false} EncodedOnWire(reg: Registry, t: Type, v: Native)
    requires HasType(reg, t, v) && EncodeValue(reg, t, v).Some?
    ensures OnWire(t, v, EncodeValue(reg, t, v).value)
  {
    match v
    case NDate(d) => TruncateIs(d);
    case NRecords(records) => AsManyStructs(reg, reg.types[t.name], records);
    case _ =>
  }

  /** Every field is in the structure, under its name. */
  ghost predicate FieldsOnWire(fields: seq<Field>, r: Native, structure: map<string, Wire>)
    requires r.NRecord?
  {
    forall f :: f in fields ==>
      f.name in r.fields && f.name in structure && OnWire(f.native, r.fields[f.name], structure[f.name])
  }

  lemma {:induction false} EncodedFieldsOnWire(reg: Registry, fields: seq<Field>, r: Native)
    requires r.NRecord? && IsRecord(reg, fields, r) && EncodeFields(reg, fields, r).Some?
    ensures FieldsOnWire(fields, r, EncodeFields(reg, fields, r).value)
  {
    EntriesAre(reg, fields, r);
    forall f | f in fields
      ensures OnWire(f.native, r.fields[f.name], EncodeFields(reg, fields, r).value[f.name])
    {
      EncodedOnWire(reg, f.native, r.fields[f.name]);
    }
  }

  /** How a value comes out: a string or a path that is the empty-set sign, an integer or
      a date that is -1, and None, are None; dates lose their fraction; nothing else
      changes. */
  ghost predicate ReceivedAs(v: Native, w: Native)
    decreases v
  {
    match v
    case NNone => w == NNone
    case NStr(s) => w == if s == "\U{2205}" then NNone else v
    case NPath(p) => w == if p == "\U{2205}" then NNone else v
    case NInt(n) => w == if n == -1 then NNone else v
    case NDate(t) => exists n :: WholePart(t, n) && w == if n == -1 then NNone else NDate(n as real)
    case NBool(_) => w == v
    case NStrings(_) => w == v
    case NRecord(fields) =>
      w.NRecord? && w.fields.Keys == fields.Keys &&
      forall name :: name in fields ==> ReceivedAs(fields[name], w.fields[name])
    case NRecords(records) =>
      w.NRecords? && |w.records| == |records| &&
      forall k :: 0 <= k < |records| ==> ReceivedAs(records[k], w.records[k])
  }

  lemma {:induction false} NormalIsReceived(v: Native)
    ensures ReceivedAs(v, Normal(v))
    decreases v
  {
    match v
    case NDate(t) => TruncateIs(t);
    case NRecord(fields) =>
      forall name | name in fields
        ensures ReceivedAs(fields[name], Normal(fields[name]))
      {
        NormalIsReceived(fields[name]);
      }
      assert Normal(v).fields.Keys == fields.Keys;
    case NRecords(records) =>
      forall k | 0 <= k < |records|
        ensures ReceivedAs(records[k], NormalAll(records)[k])
      {
        NormalIsReceived(records[k]);
      }
    case _ =>
  }

  // ---- stability, and when nothing changes ----

  /** The normal form has the same type, can be encoded, and is its own normal form:
      a second round trip changes nothing. */
  lemma {:induction false} NormalIsStable(reg: Registry, t: Type, v: Native)
    requires HasType(reg, t, v) && Signed(reg, t, v)
    ensures HasType(reg, t, Normal(v)) && Signed(reg, t, Normal(v))
    ensures Normal(Normal(v)) == Normal(v)
    decreases v
  {
    match v
    case NRecord(_) => RecordIsStable(reg, reg.types[t.name], v);
    case NRecords(records) =>
      var out := NormalAll(records);
      forall k | 0 <= k < |records|
        ensures out[k].NRecord? && IsRecord(reg, reg.types[t.name], out[k])
        ensures AllSigned(reg, reg.types[t.name], out[k]) && Normal(out[k]) == out[k]
      {
        assert records[k] in records;
        RecordIsStable(reg, reg.types[t.name], records[k]);
      }
      assert NormalAll(out) == out;
    case _ =>
  }

  lemma {:induction false} RecordIsStable(reg: Registry, fields: seq<Field>, r: Native)
    requires r.NRecord? && IsRecord(reg, fields, r) && AllSigned(reg, fields, r)
    ensures Normal(r).NRecord? && IsRecord(reg, fields, Normal(r)) && AllSigned(reg, fields, Normal(r))
    ensures Normal(Normal(r)) == Normal(r)
    decreases r, 0
  {
    var out := Normal(r).fields;
    forall f | f in fields
      ensures HasType(reg, f.native, out[f.name]) && Signed(reg, f.native, out[f.name])
      ensures Normal(out[f.name]) == out[f.name]
    {
      NormalIsStable(reg, f.native, r.fields[f.name]);
    }
    assert forall name :: name in out ==> Normal(out[name]) == out[name];
    assert Normal(NRecord(out)).fields == out;
  }

  /** No value that looks like None, and whole seconds only. */
  predicate Clean(v: Native) {
    match v
    case NStr(s) => s != "\U{2205}"
    case NPath(p) => p != "\U{2205}"
    case NInt(n) => n != -1
    case NDate(t) => t == t.Floor as real && t != -1.0
    case NRecord(fields) => forall name :: name in fields ==> Clean(fields[name])
    case NRecords(records) => forall r :: r in records ==> Clean(r)
    case _ => true
  }

  lemma {:induction false} NormalOfClean(v: Native)
    ensures Normal(v) == v <==> Clean(v)
    decreases v
  {
    match v
    case NRecord(fields) =>
      forall name | name in fields
        ensures Normal(fields[name]) == fields[name] <==> Clean(fields[name])
      {
        NormalOfClean(fields[name]);
      }
      NormalOfRecord(fields);
    case NRecords(records) =>
      forall r | r in records
        ensures Normal(r) == r <==> Clean(r)
      {
        NormalOfClean(r);
      }
      NormalOfRecords(records);
    case _ =>
      NormalOfLeaf(v);
  }

  lemma NormalOfLeaf(v: Native)
    requires !v.NRecord? && !v.NRecords?
    ensures Normal(v) == v <==> Clean(v)
  {
  }

  lemma {:induction false} NormalOfRecord(fields: map<string, Native>)
    requires forall name :: name in fields ==> (Normal(fields[name]) == fields[name] <==> Clean(fields[name]))
    ensures Normal(NRecord(fields)) == NRecord(fields) <==> Clean(NRecord(fields))
  {
    var out := Normal(NRecord(fields)).fields;
    assert out.Keys == fields.Keys;
    assert out == fields <==> forall name :: name in fields ==> out[name] == fields[name];
  }

  lemma {:induction false} NormalOfRecords(records: seq<Native>)
    requires forall r :: r in records ==> (Normal(r) == r <==> Clean(r))
    ensures Normal(NRecords(records)) == NRecords(records) <==> Clean(NRecords(records))
  {
    var out := NormalAll(records);
    assert out == records <==> forall k :: 0 <= k < |records| ==> out[k] == records[k];
    assert forall k :: 0 <= k < |records| ==> records[k] in records;
  }

  /** Whatever is received is clean. */
  lemma {:induction false} DecodedIsClean(reg: Registry, t: Type, w: Wire)
    ensures DecodeValue(reg, t, w).Some? ==> Clean(DecodeValue(reg, t, w).value)
    decreases w, 2, 0
  {
    match w
    case WStruct(_) =>
      if t.TNested? && t.name in reg.types {
        DecodedFieldsAreClean(reg, reg.types[t.name], w);
      }
    case WStructs(structs) =>
      if t.TNestedList? && t.name in reg.types {
        AllDecodedAreClean(reg, reg.types[t.name], structs);
      }
    case _ =>
  }

  lemma {:induction false} DecodedFieldsAreClean(reg: Registry, fields: seq<Field>, s: Wire)
    requires s.WStruct?
    ensures DecodeFields(reg, fields, s).Some? ==> Clean(NRecord(DecodeFields(reg, fields, s).value))
    decreases s, 1, |fields|
  {
    if fields != [] && DecodeFields(reg, fields, s).Some? {
      var init, f := fields[..|fields| - 1], fields[|fields| - 1];
      DecodedFieldsAreClean(reg, init, s);
      DecodedIsClean(reg, f.native, s.entries[f.name]);
      DecodeStep(reg, fields, s);
      CleanUpdate(DecodeFields(reg, init, s).value, f.name, DecodeValue(reg, f.native, s.entries[f.name]).value);
    }
  }

  lemma CleanUpdate(fields: map<string, Native>, name: string, v: Native)
    requires Clean(NRecord(fields)) && Clean(v)
    ensures Clean(NRecord(fields[name := v]))
  {
  }

  lemma {:induction false} AllDecodedAreClean(reg: Registry, fields: seq<Field>, structs: seq<Wire>)
    ensures DecodeAll(reg, fields, structs).Some? ==>
              forall r :: r in DecodeAll(reg, fields, structs).value ==> Clean(r)
    decreases structs, 1, 0
  {
    if structs != [] {
      var last := structs[|structs| - 1];
      AllDecodedAreClean(reg, fields, structs[..|structs| - 1]);
      if last.WStruct? {
        DecodedFieldsAreClean(reg, fields, last);
      }
    }
  }

  /** A value arrives unchanged if and only if it is clean and every None has a sign. */
  lemma ArrivesUnchanged(reg: Registry, t: Type, v: Native)
    requires HasType(reg, t, v)
    ensures EncodeValue(reg, t, v).Some? && DecodeValue(reg, t, EncodeValue(reg, t, v).value) == Some(v)
            <==> Signed(reg, t, v) && Clean(v)
  {
    RoundTrip(reg, t, v);
    NormalOfClean(v);
    if EncodeValue(reg, t, v).Some? {
      DecodedIsClean(reg, t, EncodeValue(reg, t, v).value);
    }
  }

  /** What is received, sent again, is received the same. */
  lemma SecondRoundTrip(reg: Registry, t: Type, v: Native)
    requires HasType(reg, t, v) && Signed(reg, t, v)
    ensures EncodeValue(reg, t, v).Some? && DecodeValue(reg, t, EncodeValue(reg, t, v).value).Some?
    ensures var received := DecodeValue(reg, t, EncodeValue(reg, t, v).value).value;
            HasType(reg, t, received) && EncodeValue(reg, t, received).Some? &&
            DecodeValue(reg, t, EncodeValue(reg, t, received).value) == Some(received)
  {
    RoundTrip(reg, t, v);
    NormalIsStable(reg, t, v);
    RoundTrip(reg, t, Normal(v));
  }

  // ---- the loops ----

  /** FatbuildrDBusData.to_structure(): the dictionary is filled field by field, None
      when get_variant refuses a value. */
  method ToStructure(reg: Registry, fields: seq<Field>, r: Native) returns (structure: Option<map<string, Wire>>)
    requires r.NRecord? && IsRecord(reg, fields, r)
    ensures structure == EncodeFields(reg, fields, r)
    ensures structure.Some? ==> FieldsOnWire(fields, r, structure.value)
    decreases r, 1
  {
    if EncodeFields(reg, fields, r).Some? {
      EncodedFieldsOnWire(reg, fields, r);
    }
    var entries := map[];
    for k := 0 to |fields|
      invariant EncodeFields(reg, fields[..k], r) == Some(entries)
    {
      var f := fields[k];
      EncodeStep(reg, fields, r, k);
      var w := WireValue(reg, f.native, r.fields[f.name]);
      if w == None {
        EncodeStopsAt(reg, fields, r, k + 1);
        return None;
      }
      entries := entries[f.name := w.value];
    }
    assert fields[..|fields|] == fields;
    structure := Some(entries);
  }

  lemma {:induction false} EncodeStep(reg: Registry, fields: seq<Field>, r: Native, k: nat)
    requires r.NRecord? && Typed(reg, fields, r) && k < |fields|
    ensures var before := EncodeFields(reg, fields[..k], r);
            var w := EncodeValue(reg, fields[k].native, r.fields[fields[k].name]);
            EncodeFields(reg, fields[..k + 1], r) ==
            if before.None? || w.None? then None else Some(before.value[fields[k].name := w.value])
  {
    assert fields[..k + 1][..k] == fields[..k];
  }

  /** The value of one field: a nested record or a list of them is converted in turn. */
  method WireValue(reg: Registry, t: Type, v: Native) returns (w: Option<Wire>)
    requires HasType(reg, t, v)
    ensures w == EncodeValue(reg, t, v)
    decreases v, 2
  {
    match v {
      case NRecord(_) =>
        var entries := ToStructure(reg, reg.types[t.name], v);
        w := if entries == None then None else Some(WStruct(entries.value));
      case NRecords(records) =>
        var structs := [];
        for k := 0 to |records|
          invariant EncodeAll(reg, reg.types[t.name], records[..k]) == Some(structs)
        {
          assert records[..k + 1][..k] == records[..k];
          var entries := ToStructure(reg, reg.types[t.name], records[k]);
          if entries == None {
            EncodeAllStopsAt(reg, reg.types[t.name], records, k + 1);
            return None;
          }
          structs := structs + [WStruct(entries.value)];
        }
        assert records[..|records|] == records;
        w := Some(WStructs(structs));
      case _ =>
        w := EncodeValue(reg, t, v);
    }
  }

  lemma {:induction false} EncodeStopsAt(reg: Registry, fields: seq<Field>, r: Native, k: nat)
    requires r.NRecord? && Typed(reg, fields, r) && k <= |fields|
    requires EncodeFields(reg, fields[..k], r) == None
    ensures EncodeFields(reg, fields, r) == None
    decreases |fields|
  {
    if k < |fields| {
      assert fields[..|fields| - 1][..k] == fields[..k];
      EncodeStopsAt(reg, fields[..|fields| - 1], r, k);
    } else {
      assert fields[..k] == fields;
    }
  }

  lemma {:induction false} EncodeAllStopsAt(reg: Registry, fields: seq<Field>, records: seq<Native>, k: nat)
    requires (forall r :: r in records ==> r.NRecord? && IsRecord(reg, fields, r)) && k <= |records|
    requires EncodeAll(reg, fields, records[..k]) == None
    ensures EncodeAll(reg, fields, records) == None
    decreases |records|
  {
    if k < |records| {
      assert records[..|records| - 1][..k] == records[..k];
      EncodeAllStopsAt(reg, fields, records[..|records| - 1], k);
    } else {
      assert records[..k] == records;
    }
  }

  /** FatbuildrDBusData.from_structure(): the attributes are set field by field; a
      missing entry or a value of another type raises, here None. */
  method FromStructure(reg: Registry, fields: seq<Field>, s: Wire) returns (data: Option<map<string, Native>>)
    requires s.WStruct?
    ensures data == DecodeFields(reg, fields, s)
    decreases s, 1
  {
    var values := map[];
    for k := 0 to |fields|
      invariant DecodeFields(reg, fields[..k], s) == Some(values)
    {
      var f := fields[k];
      assert fields[..k + 1][..k] == fields[..k];
      var v := None;
      if f.name in s.entries {
        v := NativeValue(reg, f.native, s.entries[f.name]);
      }
      if v == None {
        DecodeStopsAt(reg, fields, s, k + 1);
        return None;
      }
      values := values[f.name := v.value];
    }
    assert fields[..|fields|] == fields;
    data := Some(values);
  }

  method NativeValue(reg: Registry, t: Type, w: Wire) returns (v: Option<Native>)
    ensures v == DecodeValue(reg, t, w)
    decreases w, 2
  {
    match w {
      case WStruct(_) =>
        if !t.TNested? || t.name !in reg.types {
          return None;
        }
        var values := FromStructure(reg, reg.types[t.name], w);
        v := if values == None then None else Some(NRecord(values.value));
      case WStructs(structs) =>
        if !t.TNestedList? || t.name !in reg.types {
          return None;
        }
        var records := [];
        for k := 0 to |structs|
          invariant DecodeAll(reg, reg.types[t.name], structs[..k]) == Some(records)
        {
          assert structs[..k + 1][..k] == structs[..k];
          var values := None;
          if structs[k].WStruct? {
            values := FromStructure(reg, reg.types[t.name], structs[k]);
          }
          if values == None {
            DecodeAllStopsAt(reg, reg.types[t.name], structs, k + 1);
            return None;
          }
          records := records + [NRecord(values.value)];
        }
        assert structs[..|structs|] == structs;
        v := Some(NRecords(records));
      case _ =>
        v := DecodeValue(reg, t, w);
    }
  }

  lemma {:induction false} DecodeStopsAt(reg: Registry, fields: seq<Field>, s: Wire, k: nat)
    requires s.WStruct? && k <= |fields|
    requires DecodeFields(reg, fields[..k], s) == None
    ensures DecodeFields(reg, fields, s) == None
    decreases |fields|
  {
    if k < |fields| {
      assert fields[..|fields| - 1][..k] == fields[..k];
      DecodeStopsAt(reg, fields[..|fields| - 1], s, k);
    } else {
      assert fields[..k] == fields;
    }
  }

  lemma {:induction false} DecodeAllStopsAt(reg: Registry, fields: seq<Field>, structs: seq<Wire>, k: nat)
    requires k <= |structs|
    requires DecodeAll(reg, fields, structs[..k]) == None
    ensures DecodeAll(reg, fields, structs) == None
    decreases |structs|
  {
    if k < |structs| {
      assert structs[..|structs| - 1][..k] == structs[..k];
      DecodeAllStopsAt(reg, fields, structs[..|structs| - 1], k);
    } else {
      assert structs[..k] == structs;
    }
  }

  /** Sending a record and receiving it: the received record is the normal form of the
      one sent if and only if no field holds a None that has no sign. */
  method SendAndReceive(reg: Registry, fields: seq<Field>, r: Native) returns (received: Option<Native>)
    requires r.NRecord? && IsRecord(reg, fields, r)
    ensures received == Some(Normal(r)) <==> AllSigned(reg, fields, r)
    ensures AllSigned(reg, fields, r) ==> received.Some? && ReceivedAs(r, received.value)
  {
    RecordRoundTrip(reg, fields, r);
    NormalIsReceived(r);
    var structure := ToStructure(reg, fields, r);
    if structure == None {
      return None;
    }
    var data := FromStructure(reg, fields, WStruct(structure.value));
    received := if data == None then None else Some(NRecord(data.value));
  }
}
