/** What the emitted converters do when they run: they terminate, return true, overwrite every member
    of the destination, and the two directions undo each other. */
module ConverterSemantics {
  import opened GraphTypes
  import opened Generator

  /** Contents of message structs; struct members by name. */
  datatype Value = Scalar(v: int) | Struct(fields: map<string, Value>) | Items(items: seq<Value>)

  /** The emitted converters of all message definitions together. */
  type Program = map<Converter, seq<Stmt>>

  /** How running a piece of emitted code ends. Undefined covers what C leaves undefined: a missing
      member, an index out of range, a call of a missing converter; OutOfDepth a call stack that is too short. */
  datatype Outcome =
    | Done(destination: map<string, Value>)                    // the code after it goes on
    | Returned(ok: bool, destination: map<string, Value>)
    | Undefined
    | OutOfDepth

  function Read(s: map<string, Value>, p: Place, index: nat): Option<Value> {
    if p.name !in s then None
    else match p
      case Field(name) => Some(s[name])
      case Element(name) => if s[name].Items? && index < |s[name].items| then Some(s[name].items[index]) else None
  }

  function Write(d: map<string, Value>, p: Place, index: nat, v: Value): map<string, Value>
    requires Read(d, p, index).Some?
  {
    match p
    case Field(name) => d[name := v]
    case Element(name) => d[name := Items(d[name].items[index := v])]
  }

  /** A call with the given arguments; None is a null pointer. */
  function Call(program: Program, depth: nat, c: Converter, source: Option<Value>, destination: Option<Value>): Outcome
    decreases depth, 3, 0, 0
  {
    if source.None? || destination.None? then Returned(false, if destination.Some? && destination.value.Struct? then destination.value.fields else map[])
    else if c !in program || !source.value.Struct? || !destination.value.Struct? then Undefined
    else RunBody(program, depth, program[c], source.value.fields, destination.value.fields)
  }

  function RunBody(program: Program, depth: nat, body: seq<Stmt>, source: map<string, Value>, destination: map<string, Value>): Outcome
    decreases depth, 2, |body|, 0
  {
    if body == [] then Returned(true, destination)
    else
      var o := RunStmt(program, depth, body[0], 0, source, destination);
      if o.Done? then RunBody(program, depth, body[1..], source, o.destination) else o
  }

  function RunStmt(program: Program, depth: nat, s: Stmt, index: nat, source: map<string, Value>, destination: map<string, Value>): Outcome
    decreases depth, 1, s, 0
  {
    match s
    case Assign(to, from) =>
      if Read(source, from, index).None? || Read(destination, to, index).None? then Undefined
      else Done(Write(destination, to, index, Read(source, from, index).value))
    case CallOrFail(converter, from, to) =>
      if Read(source, from, index).None? || Read(destination, to, index).None? then Undefined
      else if depth == 0 then OutOfDepth
      else
        var o := Call(program, depth - 1, converter, Read(source, from, index), Read(destination, to, index));
        if !o.Returned? then o
        else
          var written := Write(destination, to, index, Struct(o.destination));
          if o.ok then Done(written) else Returned(false, written)
    case Repeat(size, body) => RunLoop(program, depth, body, 0, size, source, destination)
  }

  function RunLoop(program: Program, depth: nat, body: Stmt, index: nat, size: nat, source: map<string, Value>, destination: map<string, Value>): Outcome
    decreases depth, 1, body, if index < size then size - index + 1 else 1
  {
    if index >= size then Done(destination)
    else
      var o := RunStmt(program, depth, body, index, source, destination);
      if o.Done? then RunLoop(program, depth, body, index + 1, size, source, o.destination) else o
  }

  // ---------- what the values mean ----------

  type Definitions = map<TypeName, seq<Member>>

  datatype Side = Ros | Dds

  function NameOn(side: Side, name: string): string {
    if side == Ros then name else name + "_"
  }

  function SourceSide(d: Direction): Side {
    if d == RosToDds then Ros else Dds
  }

  function DestinationSide(d: Direction): Side {
    if d == RosToDds then Dds else Ros
  }

  ghost function NamesOn(side: Side, members: seq<Member>): set<string> {
    set i | 0 <= i < |members| :: NameOn(side, members[i].name)
  }

  lemma {:induction false} NameIsThere(side: Side, members: seq<Member>, i: nat)
    requires i < |members|
    ensures NameOn(side, members[i].name) in NamesOn(side, members)
  {
  }

  function Across(side: Side): Side {
    if side == Ros then Dds else Ros
  }

  /** v is laid out as the struct (or scalar, or array) that type t has on one side; scalars are arbitrary. */
  ghost predicate HasLayout(defs: Definitions, side: Side, t: MemberType, v: Value)
    decreases v, 1
  {
    match t
    case Basic => v.Scalar?
    case Named(name) =>
      v.Struct? && name in defs && v.fields.Keys == NamesOn(side, defs[name]) &&
      forall i :: 0 <= i < |defs[name]| ==> MemberHasLayout(defs, side, defs[name][i], v)
    case ArrayOf(element, size) =>
      v.Items? && |v.items| == size && forall i :: 0 <= i < |v.items| ==> HasLayout(defs, side, element, v.items[i])
    case Other => false
  }

  ghost predicate MemberHasLayout(defs: Definitions, side: Side, m: Member, v: Value)
    decreases v, 0
  {
    v.Struct? && NameOn(side, m.name) in v.fields && HasLayout(defs, side, m.type_, v.fields[NameOn(side, m.name)])
  }

  /** a on one side and b on the other carry the same message of type t. */
  ghost predicate Same(defs: Definitions, side: Side, t: MemberType, a: Value, b: Value)
    decreases a, 1
  {
    match t
    case Basic => a.Scalar? && a == b
    case Named(name) =>
      a.Struct? && b.Struct? && name in defs &&
      a.fields.Keys == NamesOn(side, defs[name]) && b.fields.Keys == NamesOn(Across(side), defs[name]) &&
      forall i :: 0 <= i < |defs[name]| ==> SameMember(defs, side, defs[name][i], a, b)
    case ArrayOf(element, size) =>
      a.Items? && b.Items? && |a.items| == |b.items| == size &&
      forall i :: 0 <= i < |a.items| && i < |b.items| ==> Same(defs, side, element, a.items[i], b.items[i])
    case Other => false
  }

  ghost predicate SameMember(defs: Definitions, side: Side, m: Member, a: Value, b: Value)
    decreases a, 0
  {
    a.Struct? && b.Struct? && NameOn(side, m.name) in a.fields && NameOn(Across(side), m.name) in b.fields &&
    Same(defs, side, m.type_, a.fields[NameOn(side, m.name)], b.fields[NameOn(Across(side), m.name)])
  }
}
