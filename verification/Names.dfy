/** The two name translations between ROS and DDS: topic names, and message type names. */
module Names {
  import opened GraphTypes

  // ---------- topic names ----------

  /** The DDS name of an absolute ROS topic; other names have none. */
  function MakeDdsTopicName(rosTopic: CString): Option<string> {
    if rosTopic.Null? || rosTopic.chars == "" || rosTopic.chars[0] != '/' then None
    else Some("rt" + rosTopic.chars)
  }

  /** The name under which a topic query reports a DDS topic, if it reports it. */
  function TopicOutputName(ddsTopic: string, noDemangle: bool): Option<string> {
    if ddsTopic == "ros_discovery_info" then None
    else if noDemangle then Some(ddsTopic)
    else if |ddsTopic| < 3 || ddsTopic[..3] != "rt/" then None
    else Some(ddsTopic[2..])
  }

  /** The printer and the parser are inverse to each other: a DDS topic is reported as t
      exactly when t is absolute and the DDS topic is the one made from t. */
  lemma {:induction false} TopicNamesRoundTrip(ddsTopic: string, t: string)
    ensures TopicOutputName(ddsTopic, false) == Some(t) <==> MakeDdsTopicName(Text(t)) == Some(ddsTopic)
  {
    if TopicOutputName(ddsTopic, false) == Some(t) {
      assert t[0] == ddsTopic[..3][2];
      assert ddsTopic[..2] == ddsTopic[..3][..2] == "rt";
      assert ddsTopic == ddsTopic[..2] + ddsTopic[2..];
    }
    if MakeDdsTopicName(Text(t)) == Some(ddsTopic) {
      assert ddsTopic == "rt" + t && t[0] == '/';
      assert ddsTopic[..3] == "rt/";
      assert ddsTopic[2..] == t;
      assert "ros_discovery_info"[1] == 'o' && ddsTopic[1] == 't';
    }
  }

  // ---------- type names ----------

  const MARKER := "dds_::"

  predicate OccursAt(s: string, pattern: string, i: nat) {
    i + |pattern| <= |s| && s[i..i + |pattern|] == pattern
  }

  /** The first occurrence of the pattern at or after i, or None (the C library's strstr). */
  function FindFrom(s: string, pattern: string, i: nat): (r: Option<nat>)
    requires i <= |s|
    ensures r.Some? ==> i <= r.value && OccursAt(s, pattern, r.value)
    ensures forall k :: i <= k < (if r.Some? then r.value else |s|) ==> !OccursAt(s, pattern, k)
    decreases |s| - i
  {
    if OccursAt(s, pattern, i) then Some(i)
    else if i == |s| then None
    else FindFrom(s, pattern, i + 1)
  }

  /** Every "::" replaced by "/", reading from the left. */
  function Slashed(s: string): string {
    if s == "" then ""
    else if |s| >= 2 && s[0] == ':' && s[1] == ':' then "/" + Slashed(s[2..])
    else [s[0]] + Slashed(s[1..])
  }

  function TypeOutputName(source: string, noDemangle: bool): string {
    var marker := FindFrom(source, MARKER, 0);
    if noDemangle || marker.None? || source == "" || source[|source| - 1] != '_' then source
    else
      MarkerEndsBeforeLast(source, marker.value);
      Slashed(source[..marker.value]) + source[marker.value + |MARKER|..|source| - 1]
  }

  /** A type name stays as it is when the query does not demangle, when it lacks the marker, or when it lacks the final
      underscore; otherwise the part before the first marker is slashed, and what follows the marker loses the underscore. */
  lemma {:induction false} TypeOutputIs(source: string, noDemangle: bool, before: string, after: string)
    ensures noDemangle || source == "" || source[|source| - 1] != '_' || (forall i :: 0 <= i < |source| ==> !OccursAt(source, "dds_::", i)) ==>
            TypeOutputName(source, noDemangle) == source
    ensures source == before + "dds_::" + after + "_" && (forall i :: 0 <= i < |before| ==> !OccursAt(source, "dds_::", i)) ==>
            TypeOutputName(source, false) == Slashed(before) + after
  {
    hide Slashed;
    if source == before + "dds_::" + after + "_" && forall i :: 0 <= i < |before| ==> !OccursAt(source, "dds_::", i) {
      assert source[|before|..|before| + 6] == MARKER;
      assert OccursAt(source, MARKER, |before|);
      assert FindFrom(source, MARKER, 0) == Some(|before|);
      assert source[..|before|] == before && source[|before| + 6..|source| - 1] == after;
    }
  }

  /** The length of the type part, computed by subtraction, cannot underflow. */
  lemma {:induction false} MarkerEndsBeforeLast(source: string, marker: nat)
    requires OccursAt(source, MARKER, marker) && source[|source| - 1] == '_'
    ensures marker + |MARKER| <= |source| - 1
  {
    assert source[marker..marker + 6][5] == ':';
  }

  lemma {:induction false} SlashedIsShorter(s: string)
    ensures |Slashed(s)| <= |s|
  {
    if s != "" {
      SlashedIsShorter(s[1..]);
      if |s| >= 2 {
        SlashedIsShorter(s[2..]);
      }
    }
  }

  /** The output never outgrows the input, so it fits any buffer the input fits. */
  lemma {:induction false} TypeOutputFits(source: string, noDemangle: bool)
    ensures |TypeOutputName(source, noDemangle)| <= |source|
  {
    hide Slashed, FindFrom;
    var marker := FindFrom(source, MARKER, 0);
    if marker.Some? && source != "" && source[|source| - 1] == '_' {
      SlashedIsShorter(source[..marker.value]);
    }
  }

  /** The character loop over the bounded output buffer. */
  method GraphTypeOutputName(source: string, noDemangle: bool, output: array<char>)
    requires |source| <= GRAPH_STRING_BOUND && output.Length == GRAPH_STRING_BOUND + 1
    modifies output
    ensures |TypeOutputName(source, noDemangle)| < output.Length
    ensures output[..|TypeOutputName(source, noDemangle)|] == TypeOutputName(source, noDemangle)
    ensures output[|TypeOutputName(source, noDemangle)|] == '\0'
  {
    var marker := FindFrom(source, MARKER, 0);
    if noDemangle || marker.None? || |source| == 0 || source[|source| - 1] != '_' {
      CopyTo(output, 0, source);
      output[|source|] := '\0';
      return;
    }
    MarkerEndsBeforeLast(source, marker.value);
    SlashedIsShorter(source[..marker.value]);
    var destination := SlashInto(source[..marker.value], output);
    var typeName := marker.value + |MARKER|;
    var typeLength := |source| - typeName - 1;
    CopyTo(output, destination, source[typeName..typeName + typeLength]);
    output[destination + typeLength] := '\0';
  }

  /** The loop up to the marker: two cursors, the writing one never ahead of the reading one. */
  method SlashInto(source: string, output: array<char>) returns (destination: nat)
    requires |source| <= output.Length
    modifies output
    ensures destination == |Slashed(source)| <= output.Length && output[..destination] == Slashed(source)
  {
    destination := 0;
    var cursor := 0;
    while cursor < |source|
      invariant destination <= cursor <= |source|
      invariant output[..destination] + Slashed(source[cursor..]) == Slashed(source)
      decreases |source| - cursor
    {
      ghost var rest, done := source[cursor..], output[..destination];
      var paired := cursor + 1 < |source| && source[cursor] == ':' && source[cursor + 1] == ':';
      ghost var tail := Slashed(if paired then rest[2..] else rest[1..]);
      output[destination] := if paired then '/' else source[cursor];
      AppendStep(done, output[destination], tail, Slashed(source));
      assert output[..destination + 1] == done + [output[destination]];
      cursor := if paired then cursor + 2 else cursor + 1;
      assert source[cursor..] == if paired then rest[2..] else rest[1..];
      destination := destination + 1;
    }
  }

  lemma {:induction false} AppendStep(done: string, x: char, tail: string, total: string)
    requires done + ([x] + tail) == total
    ensures (done + [x]) + tail == total
  {
  }

  method CopyTo(output: array<char>, start: nat, chars: string)
    requires start + |chars| <= output.Length
    modifies output
    ensures output[..start + |chars|] == old(output[..start]) + chars
  {
    forall i | 0 <= i < |chars| {
      output[start + i] := chars[i];
    }
  }

  // ---------- the names the generator prints ----------

  function Join(parts: seq<string>, separator: string): string {
    if |parts| == 0 then ""
    else if |parts| == 1 then parts[0]
    else parts[0] + separator + Join(parts[1..], separator)
  }

  function DdsTypeName(namespaces: seq<string>, name: string): string {
    Join(namespaces + ["dds_", name + "_"], "::")
  }

  function RosTypeName(namespaces: seq<string>, name: string): string {
    Join(namespaces + [name], "/")
  }

  predicate NoColon(s: string) {
    ':' !in s
  }

  predicate EndsWith(s: string, suffix: string) {
    |suffix| <= |s| && s[|s| - |suffix|..] == suffix
  }

  /** No namespace component ends in "dds_"; holds in particular when none ends in '_'. */
  predicate NoMarkerLike(namespaces: seq<string>) {
    forall i :: 0 <= i < |namespaces| ==> !EndsWith(namespaces[i], "dds_")
  }

  lemma {:induction false} DdsTypeNameUnfolds(namespaces: seq<string>, name: string)
    ensures namespaces == [] ==> DdsTypeName(namespaces, name) == MARKER + name + "_" && RosTypeName(namespaces, name) == name
    ensures namespaces != [] ==>
      DdsTypeName(namespaces, name) == namespaces[0] + "::" + DdsTypeName(namespaces[1..], name) &&
      RosTypeName(namespaces, name) == namespaces[0] + "/" + RosTypeName(namespaces[1..], name)
  {
    var parts := namespaces + ["dds_", name + "_"];
    if namespaces == [] {
      assert parts[1..] == [name + "_"];
      assert Join(parts[1..], "::") == name + "_";
      assert "dds_" + "::" == MARKER;
    } else {
      assert parts[1..] == namespaces[1..] + ["dds_", name + "_"];
      assert (namespaces + [name])[1..] == namespaces[1..] + [name];
    }
  }

  /** The length of everything before the marker that the generator put there. */
  function PrefixLength(namespaces: seq<string>): nat {
    if namespaces == [] then 0 else |namespaces[0]| + 2 + PrefixLength(namespaces[1..])
  }

  lemma {:induction false} MarkerIsThere(namespaces: seq<string>, name: string)
    ensures var d, p := DdsTypeName(namespaces, name), PrefixLength(namespaces);
            OccursAt(d, MARKER, p) && |d| == p + |MARKER| + |name| + 1 &&
            d[p + |MARKER|..] == name + "_"
  {
    DdsTypeNameUnfolds(namespaces, name);
    if namespaces != [] {
      MarkerIsThere(namespaces[1..], name);
      var d, rest, k := DdsTypeName(namespaces, name), DdsTypeName(namespaces[1..], name), |namespaces[0]| + 2;
      assert d[k..] == rest;
      var p := PrefixLength(namespaces[1..]);
      assert d[k + p..k + p + 6] == rest[p..p + 6];
      assert d[k + p + 6..] == rest[p + 6..];
    }
  }

  lemma {:induction false} PrefixSlashes(namespaces: seq<string>, name: string)
    requires forall i :: 0 <= i < |namespaces| ==> NoColon(namespaces[i])
    requires PrefixLength(namespaces) <= |DdsTypeName(namespaces, name)|
    ensures Slashed(DdsTypeName(namespaces, name)[..PrefixLength(namespaces)]) + name == RosTypeName(namespaces, name)
  {
    DdsTypeNameUnfolds(namespaces, name);
    if namespaces != [] {
      var tail := namespaces[1..];
      MarkerIsThere(tail, name);
      PrefixSlashes(tail, name);
      var d, rest, p := DdsTypeName(namespaces, name), DdsTypeName(tail, name), PrefixLength(tail);
      assert d[..PrefixLength(namespaces)] == namespaces[0] + "::" + rest[..p];
      SlashedComponent(namespaces[0], rest[..p]);
    }
  }

  lemma {:induction false} SlashedComponent(component: string, rest: string)
    requires NoColon(component)
    ensures Slashed(component + "::" + rest) == component + "/" + Slashed(rest)
  {
    var s := component + "::" + rest;
    if component == "" {
      assert s[2..] == rest;
    } else {
      assert component[0] in component;
      assert s[1..] == component[1..] + "::" + rest;
      SlashedComponent(component[1..], rest);
    }
  }

  lemma {:induction false} MarkerChars(s: string, i: nat, k: nat)
    requires OccursAt(s, MARKER, i) && k < 6
    ensures i + 6 <= |s| && s[i + k] == MARKER[k]
    ensures s[i + k] == ':' <==> k >= 4
  {
    assert s[i..i + 6][k] == s[i + k];
  }

  lemma {:induction false} OccurrenceEndsComponent(component: string, rest: string, i: nat)
    requires NoColon(component) && i < |component| + 2
    requires OccursAt(component + "::" + rest, MARKER, i)
    ensures EndsWith(component, "dds_")
  {
    hide OccursAt;
    var d, n := component + "::" + rest, |component|;
    MarkerChars(d, i, 0);
    MarkerChars(d, i, 4);
    forall k | 0 <= k < n ensures d[k] != ':' {
      assert d[k] == component[k] && component[k] in component;
    }
    assert d[n] == ':' && d[n + 1] == ':';
    assert i < n <= i + 4;
    MarkerChars(d, i, n - i);
    forall k | 0 <= k < 4 ensures component[i + k] == "dds_"[k] {
      MarkerChars(d, i, k);
      assert d[i + k] == component[i + k];
    }
  }

  /** Nothing before the generator's own marker looks like it unless a component ends in "dds_". */
  lemma {:induction false} NoEarlierMarker(namespaces: seq<string>, name: string, i: nat)
    requires forall k :: 0 <= k < |namespaces| ==> NoColon(namespaces[k])
    requires NoMarkerLike(namespaces)
    requires OccursAt(DdsTypeName(namespaces, name), MARKER, i)
    ensures PrefixLength(namespaces) <= i
  {
    DdsTypeNameUnfolds(namespaces, name);
    if namespaces != [] {
      var d, rest, n := DdsTypeName(namespaces, name), DdsTypeName(namespaces[1..], name), |namespaces[0]|;
      if i < n + 2 {
        OccurrenceEndsComponent(namespaces[0], rest, i);
      } else {
        assert rest[i - n - 2..i - n - 2 + 6] == d[i..i + 6];
        NoEarlierMarker(namespaces[1..], name, i - n - 2);
      }
    }
  }

  lemma {:induction false} EarlierMarker(namespaces: seq<string>, name: string, k: nat) returns (i: nat)
    requires k < |namespaces| && EndsWith(namespaces[k], "dds_")
    ensures i < PrefixLength(namespaces) && OccursAt(DdsTypeName(namespaces, name), MARKER, i)
  {
    DdsTypeNameUnfolds(namespaces, name);
    var d, rest, n := DdsTypeName(namespaces, name), DdsTypeName(namespaces[1..], name), |namespaces[0]|;
    if k == 0 {
      i := n - 4;
      assert d[i..n] == namespaces[0][i..] && d[n..n + 2] == "::";
      assert d[i..i + 6] == d[i..n] + d[n..n + 2];
    } else {
      var j := EarlierMarker(namespaces[1..], name, k - 1);
      i := n + 2 + j;
      assert d[i..i + 6] == rest[j..j + 6];
    }
  }

  lemma {:induction false} RosNameHasNoColon(namespaces: seq<string>, name: string)
    requires forall k :: 0 <= k < |namespaces| ==> NoColon(namespaces[k])
    requires NoColon(name)
    ensures NoColon(RosTypeName(namespaces, name))
  {
    DdsTypeNameUnfolds(namespaces, name);
    if namespaces != [] {
      RosNameHasNoColon(namespaces[1..], name);
    }
  }

  lemma {:induction false} RoundTripWithoutMarkerLike(namespaces: seq<string>, name: string)
    requires forall k :: 0 <= k < |namespaces| ==> NoColon(namespaces[k])
    requires NoMarkerLike(namespaces)
    ensures TypeOutputName(DdsTypeName(namespaces, name), false) == RosTypeName(namespaces, name)
  {
    hide DdsTypeName, RosTypeName, PrefixLength, NoMarkerLike, NoColon, Slashed;
    var d, p := DdsTypeName(namespaces, name), PrefixLength(namespaces);
    MarkerIsThere(namespaces, name);
    assert d[|d| - 1] == d[p + 6..][|name|];
    var m := FindFrom(d, MARKER, 0).value;
    NoEarlierMarker(namespaces, name, m);
    assert m == p;
    assert d[p + 6..|d| - 1] == d[p + 6..][..|name|] == name;
    PrefixSlashes(namespaces, name);
  }

  lemma {:induction false} MarkerLikeLeavesColon(namespaces: seq<string>, name: string, k: nat)
    requires k < |namespaces| && EndsWith(namespaces[k], "dds_")
    ensures ':' in TypeOutputName(DdsTypeName(namespaces, name), false)
  {
    var d, p := DdsTypeName(namespaces, name), PrefixLength(namespaces);
    MarkerIsThere(namespaces, name);
    assert d[|d| - 1] == d[p + 6..][|name|];
    var i := EarlierMarker(namespaces, name, k);
    var m := FindFrom(d, MARKER, 0).value;
    assert m <= i;
    MarkerEndsBeforeLast(d, m);
    assert d[p..p + 6][5] == ':';
    var tail := d[m + 6..|d| - 1];
    assert tail[p + 5 - (m + 6)] == ':';
    assert TypeOutputName(d, false) == Slashed(d[..m]) + tail;
  }

  /** Demangling the generated DDS type name gives back the generated ROS type name exactly when
      no namespace component ends in "dds_". */
  lemma {:induction false} TypeNamesRoundTrip(namespaces: seq<string>, name: string)
    requires NoColon(name) && forall k :: 0 <= k < |namespaces| ==> NoColon(namespaces[k])
    ensures TypeOutputName(DdsTypeName(namespaces, name), false) == RosTypeName(namespaces, name) <==>
            NoMarkerLike(namespaces)
  {
    if NoMarkerLike(namespaces) {
      RoundTripWithoutMarkerLike(namespaces, name);
    } else {
      var k :| 0 <= k < |namespaces| && EndsWith(namespaces[k], "dds_");
      MarkerLikeLeavesColon(namespaces, name, k);
      RosNameHasNoColon(namespaces, name);
    }
  }

  /** A namespace for which it does not: the marker is found inside the component. */
  lemma {:induction false} MarkerInsideComponent()
    ensures TypeOutputName(DdsTypeName(["my_dds_", "msg"], "Number"), false) != RosTypeName(["my_dds_", "msg"], "Number")
  {
    var namespaces := ["my_dds_", "msg"];
    assert EndsWith(namespaces[0], "dds_") by {
      assert namespaces[0][3..] == "dds_";
    }
    TypeNamesRoundTrip(namespaces, "Number");
  }
}
