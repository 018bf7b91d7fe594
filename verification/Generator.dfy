/** The converter generator: from message definitions to the statements of the emitted C converters,
    and the dependencies of a generated file. */
module Generator {
  import opened GraphTypes

  datatype TypeName = TypeName(namespaces: seq<string>, name: string) {
    function NamespacedName(): seq<string> {
      namespaces + [name]
    }
  }

  /** Member types as the parser delivers them; Other stands for strings, sequences and the rest. */
  datatype MemberType =
    | Basic
    | Named(name: TypeName)
    | ArrayOf(element: MemberType, size: nat)
    | Other

  datatype Member = Member(name: string, type_: MemberType)

  datatype Message = Message(name: TypeName, members: seq<Member>)

  datatype Direction = RosToDds | DdsToRos

  datatype Converter = Converter(of: TypeName, direction: Direction)

  /** A member of the sample struct, or the element of an array member at the loop index. */
  datatype Place = Field(name: string) | Element(name: string)

  /** The emitted statements: an assignment, a call that returns false when it fails, a counted loop. */
  datatype Stmt =
    | Assign(destination: Place, source: Place)
    | CallOrFail(converter: Converter, source: Place, destination: Place)
    | Repeat(size: nat, body: Stmt)

  predicate IsPlain(t: MemberType) {
    t.Basic? || t.Named?
  }

  predicate IsSupported(t: MemberType) {
    IsPlain(t) || (t.ArrayOf? && IsPlain(t.element))
  }

  /** A member is called `name` in the ROS struct and `name_` in the DDS struct. */
  function SourceName(direction: Direction, name: string): string {
    if direction == RosToDds then name else name + "_"
  }

  function DestinationName(direction: Direction, name: string): string {
    if direction == RosToDds then name + "_" else name
  }

  function Conversion(member: Member, direction: Direction): Stmt
    requires IsSupported(member.type_)
  {
    var source, destination := SourceName(direction, member.name), DestinationName(direction, member.name);
    match member.type_
    case Basic => Assign(Field(destination), Field(source))
    case Named(name) => CallOrFail(Converter(name, direction), Field(source), Field(destination))
    case ArrayOf(element, size) =>
      Repeat(size,
        if element.Basic? then Assign(Element(destination), Element(source))
        else CallOrFail(Converter(element.name, direction), Element(source), Element(destination)))
  }

  predicate AllSupported(members: seq<Member>) {
    forall i :: 0 <= i < |members| ==> IsSupported(members[i].type_)
  }

  function BodyOf(members: seq<Member>, direction: Direction): (r: seq<Stmt>)
    requires AllSupported(members)
    ensures |r| == |members|
    ensures forall i :: 0 <= i < |r| ==> r[i] == Conversion(members[i], direction)
  {
    seq(|members|, i requires 0 <= i < |members| && AllSupported(members) => Conversion(members[i], direction))
  }

  /** The named type a member needs a converter for, if any. */
  function Needed(t: MemberType): Option<TypeName> {
    var inner := if t.ArrayOf? then t.element else t;
    if inner.Named? then Some(inner.name) else None
  }

  /** Strings, sequences and the rest, arrays of those, and arrays of arrays; arrays of any size are accepted. */
  predicate IsRejected(t: MemberType) {
    t.Other? || (t.ArrayOf? && (t.element.Other? || t.element.ArrayOf?))
  }

  /** The statement for a member reads it under its name in the source struct and writes it under its name in the
      destination struct, in as many elements as it has. */
  ghost predicate Carries(s: Stmt, m: Member, direction: Direction) {
    var (source, destination) := if direction == RosToDds then (m.name, m.name + "_") else (m.name + "_", m.name);
    match m.type_
    case Basic => s == Assign(Field(destination), Field(source))
    case Named(n) => s == CallOrFail(Converter(n, direction), Field(source), Field(destination))
    case ArrayOf(Basic, size) => s == Repeat(size, Assign(Element(destination), Element(source)))
    case ArrayOf(Named(n), size) => s == Repeat(size, CallOrFail(Converter(n, direction), Element(source), Element(destination)))
    case _ => false
  }

  /** The lines of one converter; None is the error raised at the first unsupported member. */
  method EmitBody(members: seq<Member>, direction: Direction) returns (body: Option<seq<Stmt>>)
    ensures body.Some? <==> AllSupported(members)
    ensures body.None? <==> exists i :: 0 <= i < |members| && IsRejected(members[i].type_)
    ensures body.Some? ==> |body.value| == |members| && forall i :: 0 <= i < |members| ==> Carries(body.value[i], members[i], direction)
    ensures body.Some? ==> body.value == BodyOf(members, direction)
  {
    var lines: seq<Stmt> := [];
    for i := 0 to |members|
      invariant AllSupported(members[..i])
      invariant lines == BodyOf(members[..i], direction)
    {
      if !IsSupported(members[i].type_) {
        return None;
      }
      assert members[..i + 1] == members[..i] + [members[i]];
      lines := lines + [Conversion(members[i], direction)];
    }
    assert members[..|members|] == members;
    return Some(lines);
  }

  /** Both converters of every message of a file, and nothing else. */
  ghost predicate Emits(messages: seq<Message>, converters: map<Converter, seq<Stmt>>) {
    (forall i :: 0 <= i < |messages| ==> AllSupported(messages[i].members)) &&
    (forall c :: c in converters <==> exists i :: 0 <= i < |messages| && messages[i].name == c.of) &&
    forall i, d :: 0 <= i < |messages| ==>
      (Converter(messages[i].name, d) in converters &&
       converters[Converter(messages[i].name, d)] == BodyOf(messages[i].members, d))
  }

  /** All converters of one file. */
  method GenerateFile(messages: seq<Message>) returns (converters: Option<map<Converter, seq<Stmt>>>)
    requires forall i, j :: 0 <= i < j < |messages| ==> messages[i].name != messages[j].name
    ensures converters.Some? <==> forall i :: 0 <= i < |messages| ==> AllSupported(messages[i].members)
    ensures converters.Some? ==> Emits(messages, converters.value)
  {
    var emitted: map<Converter, seq<Stmt>> := map[];
    for i := 0 to |messages|
      invariant forall k :: 0 <= k < i ==> AllSupported(messages[k].members)
      invariant forall c: Converter :: c in emitted ==> exists k :: 0 <= k < i && messages[k].name == c.of
      invariant forall k, d :: 0 <= k < i ==>
        (Converter(messages[k].name, d) in emitted && emitted[Converter(messages[k].name, d)] == BodyOf(messages[k].members, d))
    {
      var toDds := EmitBody(messages[i].members, RosToDds);
      if toDds.None? {
        return None;
      }
      var toRos := EmitBody(messages[i].members, DdsToRos);
      emitted := emitted[Converter(messages[i].name, RosToDds) := toDds.value][Converter(messages[i].name, DdsToRos) := toRos.value];
      forall d ensures Converter(messages[i].name, d) in emitted &&
                       emitted[Converter(messages[i].name, d)] == BodyOf(messages[i].members, d)
      {
        assert d == RosToDds || d == DdsToRos;
      }
    }
    forall c: Converter, k | 0 <= k < |messages| && messages[k].name == c.of ensures c in emitted {
      assert Converter(messages[k].name, c.direction) in emitted;
    }
    return Some(emitted);
  }

  /** Some message of the file has a member that needs a converter for a type with this name. */
  ghost predicate IsNeeded(messages: seq<Message>, key: seq<string>) {
    exists i, k :: 0 <= i < |messages| && 0 <= k < |messages[i].members| && NeededKey(messages[i].members[k], key)
  }

  ghost predicate NeededKey(member: Member, key: seq<string>) {
    Needed(member.type_).Some? && Needed(member.type_).value.NamespacedName() == key
  }

  /** The dictionary of types whose headers the generated file includes. */
  method CollectDependencies(messages: seq<Message>) returns (dependencies: map<seq<string>, TypeName>)
    ensures forall key :: key in dependencies <==> IsNeeded(messages, key)
    ensures forall key :: key in dependencies ==> dependencies[key].NamespacedName() == key
  {
    dependencies := map[];
    for i := 0 to |messages|
      invariant forall key :: key in dependencies <==> IsNeeded(messages[..i], key)
      invariant forall key :: key in dependencies ==> dependencies[key].NamespacedName() == key
    {
      var members, before := messages[i].members, dependencies;
      for k := 0 to |members|
        invariant forall key :: key in dependencies <==> key in before || exists j :: 0 <= j < k && NeededKey(members[j], key)
        invariant forall key :: key in dependencies ==> dependencies[key].NamespacedName() == key
      {
        var needed := Needed(members[k].type_);
        if needed.Some? {
          dependencies := dependencies[needed.value.NamespacedName() := needed.value];
        }
      }
      forall key ensures IsNeeded(messages[..i + 1], key) <==>
        IsNeeded(messages[..i], key) || exists j :: 0 <= j < |members| && NeededKey(members[j], key)
      {
        NeededStep(messages, i, key);
      }
    }
    assert messages[..|messages|] == messages;
  }

  lemma {:induction false} NeededStep(messages: seq<Message>, i: nat, key: seq<string>)
    requires i < |messages|
    ensures IsNeeded(messages[..i + 1], key) <==>
            IsNeeded(messages[..i], key) || exists k :: 0 <= k < |messages[i].members| && NeededKey(messages[i].members[k], key)
  {
    var s, t := messages[..i], messages[..i + 1];
    assert forall j :: 0 <= j < i ==> t[j] == s[j];
    if IsNeeded(s, key) {
      var j, k :| 0 <= j < |s| && 0 <= k < |s[j].members| && NeededKey(s[j].members[k], key);
      assert t[j] == s[j];
    }
    if k :| 0 <= k < |messages[i].members| && NeededKey(messages[i].members[k], key) {
      assert t[i] == messages[i];
    }
  }

  /** The converters a statement calls. */
  function Calls(s: Stmt): set<Converter> {
    match s
    case Assign(_, _) => {}
    case CallOrFail(converter, _, _) => {converter}
    case Repeat(_, body) => Calls(body)
  }

  /** The emitted code of a file calls a converter exactly when its type is among the collected dependencies. */
  lemma {:induction false} CallsAreDependencies(messages: seq<Message>, direction: Direction, name: TypeName)
    requires forall i :: 0 <= i < |messages| ==> AllSupported(messages[i].members)
    ensures IsNeeded(messages, name.NamespacedName()) <==>
            exists i, k :: 0 <= i < |messages| && 0 <= k < |messages[i].members| &&
              Converter(name, direction) in Calls(BodyOf(messages[i].members, direction)[k])
  {
    var key := name.NamespacedName();
    forall i, k | 0 <= i < |messages| && 0 <= k < |messages[i].members|
      ensures NeededKey(messages[i].members[k], key) <==>
              Converter(name, direction) in Calls(BodyOf(messages[i].members, direction)[k])
    {
      CallsOfMember(messages[i].members[k], direction, name);
    }
  }

  lemma {:induction false} CallsOfMember(member: Member, direction: Direction, name: TypeName)
    requires IsSupported(member.type_)
    ensures NeededKey(member, name.NamespacedName()) <==> Converter(name, direction) in Calls(Conversion(member, direction))
  {
    if Needed(member.type_).Some? {
      var other := Needed(member.type_).value;
      if other.NamespacedName() == name.NamespacedName() {
        var a, b := other.NamespacedName(), name.NamespacedName();
        assert a[..|a| - 1] == other.namespaces && b[..|b| - 1] == name.namespaces;
        assert a[|a| - 1] == other.name && b[|b| - 1] == name.name;
      }
    }
  }
}
