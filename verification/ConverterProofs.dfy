/** The emitted converters preserve every message value. */
module ConverterProofs {
  import opened GraphTypes
  import opened Generator
  import opened ConverterSemantics

  /** Definitions the generator accepts: every member is supported, member names differ. */
  ghost predicate Accepted(defs: Definitions) {
    forall n :: n in defs ==>
      AllSupported(defs[n]) && forall i, j :: 0 <= i < j < |defs[n]| ==> defs[n][i].name != defs[n][j].name
  }

  /** Nested types are defined, and nesting goes down in rank: the definitions have no cycle. */
  ghost predicate Acyclic(defs: Definitions, rank: map<TypeName, nat>) {
    forall n :: n in defs ==> n in rank && forall i :: 0 <= i < |defs[n]| ==> Below(defs, rank, rank[n], defs[n][i].type_)
  }

  ghost predicate Below(defs: Definitions, rank: map<TypeName, nat>, r: nat, t: MemberType) {
    Needed(t).Some? ==> Needed(t).value in defs && Needed(t).value in rank && rank[Needed(t).value] < r
  }

  /** The program holds the emitted converters of all definitions. */
  ghost predicate Linked(program: Program, defs: Definitions) {
    Accepted(defs) && forall n, d :: n in defs ==> Converter(n, d) in program && program[Converter(n, d)] == BodyOf(defs[n], d)
  }

  /** The program that results from several generated files together. */
  function LinkAll(files: seq<Program>): Program {
    if files == [] then map[] else LinkAll(files[..|files| - 1]) + files[|files| - 1]
  }

  /** The definitions are those of the messages of the files. */
  ghost predicate Defines(files: seq<seq<Message>>, defs: Definitions) {
    (forall n :: n in defs ==> exists f, i :: 0 <= f < |files| && 0 <= i < |files[f]| && files[f][i].name == n) &&
    forall f, i :: 0 <= f < |files| && 0 <= i < |files[f]| ==>
      files[f][i].name in defs && defs[files[f][i].name] == files[f][i].members
  }

  lemma {:induction false} LinkedFromFile(files: seq<Program>, c: Converter)
    ensures c in LinkAll(files) <==> exists f :: 0 <= f < |files| && c in files[f]
    ensures c in LinkAll(files) ==> exists f :: 0 <= f < |files| && c in files[f] && files[f][c] == LinkAll(files)[c]
  {
    if files != [] {
      var front, last := files[..|files| - 1], files[|files| - 1];
      LinkedFromFile(front, c);
      if c in last {
        assert files[|files| - 1][c] == LinkAll(files)[c];
      } else if c in LinkAll(front) {
        var f :| 0 <= f < |front| && c in front[f] && front[f][c] == LinkAll(front)[c];
        assert files[f] == front[f];
      }
    }
  }

  /** What the generator emits for the files of a set of definitions, put together, is a program that holds the
      converters of all of them; the theorems below start from there. */
  lemma {:induction false} GeneratedFilesLink(files: seq<seq<Message>>, emitted: seq<Program>, defs: Definitions)
    requires |files| == |emitted| && Defines(files, defs)
    requires forall f :: 0 <= f < |files| ==> Emits(files[f], emitted[f])
    requires forall n :: n in defs ==> forall i, j :: 0 <= i < j < |defs[n]| ==> defs[n][i].name != defs[n][j].name
    ensures Linked(LinkAll(emitted), defs)
  {
    hide LinkAll;
    var program := LinkAll(emitted);
    forall n, d | n in defs
      ensures AllSupported(defs[n]) && Converter(n, d) in program && program[Converter(n, d)] == BodyOf(defs[n], d)
    {
      var c := Converter(n, d);
      var f, i :| 0 <= f < |files| && 0 <= i < |files[f]| && files[f][i].name == n;
      LinkedFromFile(emitted, c);
      assert c in emitted[f];
      var g :| 0 <= g < |emitted| && c in emitted[g] && emitted[g][c] == program[c];
      var k :| 0 <= k < |files[g]| && files[g][k].name == n;
      assert emitted[g][c] == BodyOf(files[g][k].members, d);
    }
  }

  ghost predicate Setting(defs: Definitions, rank: map<TypeName, nat>, program: Program) {
    Accepted(defs) && Acyclic(defs, rank) && Linked(program, defs)
  }

  /** What a converter call has achieved. */
  ghost predicate Converted(defs: Definitions, d: Direction, n: TypeName, source: Value, o: Outcome) {
    o.Returned? && o.ok && Same(defs, SourceSide(d), Named(n), source, Struct(o.destination))
  }

  lemma {:induction false} NamesDiffer(side: Side, a: string, b: string)
    ensures NameOn(side, a) == NameOn(side, b) <==> a == b
  {
    if side == Dds && a + "_" == b + "_" {
      assert a == (a + "_")[..|a|] && b == (b + "_")[..|b|];
    }
  }

  /** Every emitted converter, called with two structs of its type at any call depth that its nesting
      needs, returns true and leaves the source's message in the destination, whatever was there before. */
  lemma {:induction false} ConverterPreserves(defs: Definitions, rank: map<TypeName, nat>, program: Program, depth: nat,
                                              n: TypeName, d: Direction, source: Value, destination: Value)
    requires Setting(defs, rank, program) && n in defs && rank[n] <= depth
    requires HasLayout(defs, SourceSide(d), Named(n), source) && HasLayout(defs, DestinationSide(d), Named(n), destination)
    ensures Converted(defs, d, n, source, Call(program, depth, Converter(n, d), Some(source), Some(destination)))
    decreases rank[n], 4, 0
  {
    hide NameOn, NamesOn, Same;
    var members := defs[n];
    assert BodyOf(members, d)[0..] == BodyOf(members, d);
    forall i | 0 <= i < |members| ensures MemberState(defs, d, members[i], false, source.fields, destination.fields) {
      assert MemberHasLayout(defs, SourceSide(d), members[i], source);
      assert MemberHasLayout(defs, DestinationSide(d), members[i], destination);
    }
    BodyPreserves(defs, rank, program, depth, n, d, 0, source.fields, destination.fields);
  }

  /** The members from k on are converted one after the other. */
  lemma {:induction false} BodyPreserves(defs: Definitions, rank: map<TypeName, nat>, program: Program, depth: nat,
                                         n: TypeName, d: Direction, k: nat, source: map<string, Value>, destination: map<string, Value>)
    requires Setting(defs, rank, program) && n in defs && rank[n] <= depth && k <= |defs[n]|
    requires HasLayout(defs, SourceSide(d), Named(n), Struct(source))
    requires destination.Keys == NamesOn(DestinationSide(d), defs[n])
    requires forall i :: 0 <= i < |defs[n]| ==>
      MemberState(defs, d, defs[n][i], i < k, source, destination)
    ensures Converted(defs, d, n, Struct(source), RunBody(program, depth, BodyOf(defs[n], d)[k..], source, destination))
    decreases rank[n], 3, |defs[n]| - k
  {
    hide Same, HasLayout, RunStmt, Conversion, NamesOn, BodyOf;
    var members, body := defs[n], BodyOf(defs[n], d);
    if k < |members| {
      assert body[k..][0] == Conversion(members[k], d) && body[k..][1..] == body[k + 1..];
      assert MemberState(defs, d, members[k], false, source, destination);
      assert Below(defs, rank, rank[n], members[k].type_) by {
        NestedIsBelow(defs, rank, n, k);
      }
      var x := MemberPreserves(defs, rank, program, depth, rank[n], members[k], d, source, destination);
      var next := destination[NameOn(DestinationSide(d), members[k].name) := x];
      forall i | 0 <= i < |members| ensures MemberState(defs, d, members[i], i < k + 1, source, next) {
        assert MemberState(defs, d, members[i], i < k, source, destination);
        MemberNamesDiffer(defs, d, n, i, k);
      }
      NameIsThere(DestinationSide(d), members, k);
      BodyPreserves(defs, rank, program, depth, n, d, k + 1, source, next);
    } else {
      assert body[k..] == [];
      AllMembersDone(defs, d, n, source, destination);
    }
  }

  lemma {:induction false} NestedIsBelow(defs: Definitions, rank: map<TypeName, nat>, n: TypeName, k: nat)
    requires Acyclic(defs, rank) && n in defs && k < |defs[n]|
    ensures Below(defs, rank, rank[n], defs[n][k].type_)
  {
  }

  lemma {:induction false} MemberNamesDiffer(defs: Definitions, d: Direction, n: TypeName, i: nat, k: nat)
    requires Accepted(defs) && n in defs && i < |defs[n]| && k < |defs[n]|
    ensures NameOn(DestinationSide(d), defs[n][i].name) == NameOn(DestinationSide(d), defs[n][k].name) <==> i == k
  {
    NamesDiffer(DestinationSide(d), defs[n][i].name, defs[n][k].name);
  }

  lemma {:induction false} SidesAreOpposite(d: Direction)
    ensures DestinationSide(d) == Across(SourceSide(d)) && Across(Across(SourceSide(d))) == SourceSide(d)
    ensures forall name :: SourceName(d, name) == NameOn(SourceSide(d), name) && DestinationName(d, name) == NameOn(DestinationSide(d), name)
  {
  }

  lemma {:induction false} AllMembersDone(defs: Definitions, d: Direction, n: TypeName, source: map<string, Value>, destination: map<string, Value>)
    requires n in defs && HasLayout(defs, SourceSide(d), Named(n), Struct(source))
    requires destination.Keys == NamesOn(DestinationSide(d), defs[n])
    requires forall i :: 0 <= i < |defs[n]| ==> MemberState(defs, d, defs[n][i], true, source, destination)
    ensures Same(defs, SourceSide(d), Named(n), Struct(source), Struct(destination))
  {
    hide NameOn, NamesOn, SourceSide, DestinationSide;
    assert DestinationSide(d) == Across(SourceSide(d)) by {
      SidesAreOpposite(d);
    }
    forall i | 0 <= i < |defs[n]| ensures SameMember(defs, SourceSide(d), defs[n][i], Struct(source), Struct(destination)) {
      assert MemberState(defs, d, defs[n][i], true, source, destination);
    }
  }

  /** A member before or after its statement ran. */
  ghost predicate MemberState(defs: Definitions, d: Direction, m: Member, done: bool, source: map<string, Value>, destination: map<string, Value>) {
    NameOn(SourceSide(d), m.name) in source && NameOn(DestinationSide(d), m.name) in destination &&
    HasLayout(defs, SourceSide(d), m.type_, source[NameOn(SourceSide(d), m.name)]) &&
    if done then Same(defs, SourceSide(d), m.type_, source[NameOn(SourceSide(d), m.name)], destination[NameOn(DestinationSide(d), m.name)])
    else HasLayout(defs, DestinationSide(d), m.type_, destination[NameOn(DestinationSide(d), m.name)])
  }

  /** One member's statement writes that member and nothing else. */
  lemma {:induction false} MemberPreserves(defs: Definitions, rank: map<TypeName, nat>, program: Program, depth: nat, r: nat,
                                           m: Member, d: Direction, source: map<string, Value>, destination: map<string, Value>)
    returns (x: Value)
    requires Setting(defs, rank, program) && r <= depth && IsSupported(m.type_) && Below(defs, rank, r, m.type_)
    requires MemberState(defs, d, m, false, source, destination)
    ensures RunStmt(program, depth, Conversion(m, d), 0, source, destination) == Done(destination[NameOn(DestinationSide(d), m.name) := x])
    ensures Same(defs, SourceSide(d), m.type_, source[NameOn(SourceSide(d), m.name)], x)
    decreases r, 2, 0
  {
    var from, to := SourceName(d, m.name), DestinationName(d, m.name);
    if m.type_.ArrayOf? {
      x := LoopPreserves(defs, rank, program, depth, r, m.type_.element, d, Conversion(m, d).body, from, to, 0, source, destination);
    } else {
      x := CellPreserves(defs, rank, program, depth, r, m.type_, d, Conversion(m, d), Field(from), Field(to), 0, source, destination);
    }
  }

  /** The statement for one scalar or nested struct, in a member of its own or in an array element. */
  lemma {:induction false} CellPreserves(defs: Definitions, rank: map<TypeName, nat>, program: Program, depth: nat, r: nat,
                                         t: MemberType, d: Direction, s: Stmt, from: Place, to: Place, index: nat,
                                         source: map<string, Value>, destination: map<string, Value>) returns (x: Value)
    requires Setting(defs, rank, program) && r <= depth && IsPlain(t) && Below(defs, rank, r, t)
    requires s == if t.Basic? then Assign(to, from) else CallOrFail(Converter(t.name, d), from, to)
    requires Read(source, from, index).Some? && Read(destination, to, index).Some?
    requires HasLayout(defs, SourceSide(d), t, Read(source, from, index).value)
    requires HasLayout(defs, DestinationSide(d), t, Read(destination, to, index).value)
    ensures RunStmt(program, depth, s, index, source, destination) == Done(Write(destination, to, index, x))
    ensures Same(defs, SourceSide(d), t, Read(source, from, index).value, x)
    decreases r, 0, 0
  {
    hide Setting, NamesOn, RunBody;
    var a, b := Read(source, from, index).value, Read(destination, to, index).value;
    if t.Basic? {
      x := a;
    } else {
      ConverterPreserves(defs, rank, program, depth - 1, t.name, d, a, b);
      x := Struct(Call(program, depth - 1, Converter(t.name, d), Some(a), Some(b)).destination);
    }
  }

  /** The loop over an array member, from index i on. */
  lemma {:induction false} LoopPreserves(defs: Definitions, rank: map<TypeName, nat>, program: Program, depth: nat, r: nat,
                                         t: MemberType, d: Direction, s: Stmt, from: string, to: string, i: nat,
                                         source: map<string, Value>, destination: map<string, Value>) returns (x: Value)
    requires Setting(defs, rank, program) && r <= depth && IsPlain(t) && Below(defs, rank, r, t)
    requires s == if t.Basic? then Assign(Element(to), Element(from)) else CallOrFail(Converter(t.name, d), Element(from), Element(to))
    requires from in source && to in destination && source[from].Items? && destination[to].Items?
    requires var size := |source[from].items|; |destination[to].items| == size && i <= size
    requires forall k :: 0 <= k < |source[from].items| ==> HasLayout(defs, SourceSide(d), t, source[from].items[k])
    requires forall k :: 0 <= k < i ==> Same(defs, SourceSide(d), t, source[from].items[k], destination[to].items[k])
    requires forall k :: i <= k < |source[from].items| ==> HasLayout(defs, DestinationSide(d), t, destination[to].items[k])
    ensures RunLoop(program, depth, s, i, |source[from].items|, source, destination) == Done(destination[to := x])
    ensures Same(defs, SourceSide(d), ArrayOf(t, |source[from].items|), source[from], x)
    decreases r, 1, |source[from].items| - i
  {
    if i < |source[from].items| {
      var y := CellPreserves(defs, rank, program, depth, r, t, d, s, Element(from), Element(to), i, source, destination);
      var next := Write(destination, Element(to), i, y);
      x := LoopPreserves(defs, rank, program, depth, r, t, d, s, from, to, i + 1, source, next);
      assert next[to := x] == destination[to := x];
    } else {
      x := destination[to];
      assert destination[to := x] == destination;
    }
  }

  // ---------- the meaning is unambiguous, and both directions agree on it ----------

  lemma {:induction false} FieldsAgree(side: Side, members: seq<Member>, a: map<string, Value>, c: map<string, Value>)
    requires a.Keys == c.Keys == NamesOn(side, members)
    requires forall i :: 0 <= i < |members| ==>
      (NameOn(side, members[i].name) in a && NameOn(side, members[i].name) in c &&
       a[NameOn(side, members[i].name)] == c[NameOn(side, members[i].name)])
    ensures a == c
  {
    hide NameOn;
  }

  /** Going across and back leads to the value one started from. */
  lemma {:induction false} SameTwice(defs: Definitions, side: Side, t: MemberType, a: Value, b: Value, c: Value)
    requires Same(defs, side, t, a, b) && Same(defs, Across(side), t, b, c)
    ensures a == c
    decreases a, 1
  {
    match t
    case Basic =>
    case Named(name) => SameStructTwice(defs, side, name, a, b, c);
    case ArrayOf(element, size) =>
      forall i | 0 <= i < size ensures a.items[i] == c.items[i] {
        SameTwice(defs, side, element, a.items[i], b.items[i], c.items[i]);
      }
      assert a.items == c.items;
    case Other =>
  }

  lemma {:induction false} SameStructTwice(defs: Definitions, side: Side, name: TypeName, a: Value, b: Value, c: Value)
    requires Same(defs, side, Named(name), a, b) && Same(defs, Across(side), Named(name), b, c)
    ensures a == c
    decreases a, 0
  {
    var members := defs[name];
    assert Across(Across(side)) == side;
    forall i | 0 <= i < |members|
      ensures NameOn(side, members[i].name) in a.fields && NameOn(side, members[i].name) in c.fields
      ensures a.fields[NameOn(side, members[i].name)] == c.fields[NameOn(side, members[i].name)]
    {
      assert SameMember(defs, side, members[i], a, b) && SameMember(defs, Across(side), members[i], b, c);
      var f, g := NameOn(side, members[i].name), NameOn(Across(side), members[i].name);
      SameTwice(defs, side, members[i].type_, a.fields[f], b.fields[g], c.fields[f]);
    }
    assert a.fields.Keys == NamesOn(side, members) && c.fields.Keys == NamesOn(side, members);
    FieldsAgree(side, members, a.fields, c.fields);
  }

  lemma {:induction false} SameIsSymmetric(defs: Definitions, side: Side, t: MemberType, a: Value, b: Value)
    requires Same(defs, side, t, a, b)
    ensures Same(defs, Across(side), t, b, a)
    decreases a
  {
    match t
    case Basic =>
    case Named(name) =>
      var members := defs[name];
      forall i | 0 <= i < |members| ensures SameMember(defs, Across(side), members[i], b, a) {
        assert SameMember(defs, side, members[i], a, b);
        SameIsSymmetric(defs, side, members[i].type_, a.fields[NameOn(side, members[i].name)], b.fields[NameOn(Across(side), members[i].name)]);
      }
    case ArrayOf(element, size) =>
      forall i | 0 <= i < size ensures Same(defs, Across(side), element, b.items[i], a.items[i]) {
        SameIsSymmetric(defs, side, element, a.items[i], b.items[i]);
      }
    case Other =>
  }

  lemma {:induction false} SameHasLayout(defs: Definitions, side: Side, t: MemberType, a: Value, b: Value)
    requires Same(defs, side, t, a, b)
    ensures HasLayout(defs, Across(side), t, b)
    decreases a
  {
    match t
    case Basic =>
    case Named(name) =>
      var members := defs[name];
      forall i | 0 <= i < |members| ensures MemberHasLayout(defs, Across(side), members[i], b) {
        assert SameMember(defs, side, members[i], a, b);
        SameHasLayout(defs, side, members[i].type_, a.fields[NameOn(side, members[i].name)], b.fields[NameOn(Across(side), members[i].name)]);
      }
    case ArrayOf(element, size) =>
      forall i | 0 <= i < size ensures HasLayout(defs, Across(side), element, b.items[i]) {
        SameHasLayout(defs, side, element, a.items[i], b.items[i]);
      }
    case Other =>
  }

  // ---------- the theorems ----------

  /** Converting to the other side and back gives the original value, for every message value of every
      accepted acyclic set of definitions, whatever the two destinations held before; in both orders. */
  lemma {:induction false} RoundTrip(defs: Definitions, rank: map<TypeName, nat>, program: Program, depth: nat,
                                     n: TypeName, there: Direction, original: Value, middle: Value, final: Value)
    requires Setting(defs, rank, program) && n in defs && rank[n] <= depth
    requires HasLayout(defs, SourceSide(there), Named(n), original)
    requires HasLayout(defs, DestinationSide(there), Named(n), middle)
    requires HasLayout(defs, SourceSide(there), Named(n), final)
    ensures var back := if there == RosToDds then DdsToRos else RosToDds;
      var o := Call(program, depth, Converter(n, there), Some(original), Some(middle));
      o.Returned? && o.ok &&
      Call(program, depth, Converter(n, back), Some(Struct(o.destination)), Some(final)) == Returned(true, original.fields)
  {
    hide HasLayout, RunBody, NamesOn, Setting;
    var back := if there == RosToDds then DdsToRos else RosToDds;
    ConverterPreserves(defs, rank, program, depth, n, there, original, middle);
    var o := Call(program, depth, Converter(n, there), Some(original), Some(middle));
    var carried := Struct(o.destination);
    SameHasLayout(defs, SourceSide(there), Named(n), original, carried);
    ConverterPreserves(defs, rank, program, depth, n, back, carried, final);
    var p := Call(program, depth, Converter(n, back), Some(carried), Some(final));
    SameTwice(defs, SourceSide(there), Named(n), original, carried, Struct(p.destination));
  }

  /** The result depends on the source only: no old content of the destination survives. */
  lemma {:induction false} OldContentIsOverwritten(defs: Definitions, rank: map<TypeName, nat>, program: Program, depth: nat,
                                                   n: TypeName, d: Direction, source: Value, old1: Value, old2: Value)
    requires Setting(defs, rank, program) && n in defs && rank[n] <= depth
    requires HasLayout(defs, SourceSide(d), Named(n), source)
    requires HasLayout(defs, DestinationSide(d), Named(n), old1) && HasLayout(defs, DestinationSide(d), Named(n), old2)
    ensures Call(program, depth, Converter(n, d), Some(source), Some(old1)) == Call(program, depth, Converter(n, d), Some(source), Some(old2))
  {
    hide HasLayout, RunBody, NamesOn, Setting;
    ConverterPreserves(defs, rank, program, depth, n, d, source, old1);
    ConverterPreserves(defs, rank, program, depth, n, d, source, old2);
    var o1 := Call(program, depth, Converter(n, d), Some(source), Some(old1));
    var o2 := Call(program, depth, Converter(n, d), Some(source), Some(old2));
    SameIsSymmetric(defs, SourceSide(d), Named(n), source, Struct(o1.destination));
    SameTwice(defs, Across(SourceSide(d)), Named(n), Struct(o1.destination), source, Struct(o2.destination));
  }
}
