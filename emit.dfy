/**
 * What the emitters produce, at the level of structure: enum cases, class fields and
 * constructors, command methods, the ordered event map and the event registry cases,
 * together with the ids the generator synthesizes for requests, responses and events.
 */
module Emit {
  import opened Results
  import opened Text
  import opened Schema

  /** The marker interface every generated enum implements. */
  const EnumMarker := "CDPEnum"
  /** The global event registry enum. */
  const EventEnumName := "CDPEventType"
  /** The asynchronous result handle every command method returns. */
  const FutureType := "io.netty.util.concurrent.Future"

  /** One enum constant: its identifier and the raw value it is constructed with. */
  datatype EnumCase = EnumCase(ident: string, value: string)

  /** A typed name: a field, or a constructor parameter. */
  datatype Field = Field(typeName: string, name: string)

  /** this.<field> = <parameter>; or, when value is None, this.<field> = null; */
  datatype Assign = Assign(field: string, value: Option<string>)

  datatype Ctor = Ctor(params: seq<Field>, assigns: seq<Assign>)

  /**
   * A command method: its name, return type and optional request parameter type, and the
   * call it makes: connection.send(wireId, request or null[, responseClass.class]).
   */
  datatype CommandMethod = CommandMethod(name: string, returnType: string, request: Option<string>,
                                         wireId: string, responseClass: Option<string>)

  /** An entry of the ordered event map: wire key and payload class (None for no parameters). */
  datatype EventEntry = EventEntry(key: string, payload: Option<string>)

  /** A constant of the event registry enum. */
  datatype EventCase = EventCase(ident: string, key: string, payload: Option<string>)

  datatype Body =
    | MarkerInterface(name: string)
    | EnumBody(id: string, marker: string, cases: seq<EnumCase>)
    | ClassBody(id: string, fields: seq<Field>, full: Ctor, defaults: Option<Ctor>)
    | DomainBody(name: string, connection: string, methods: seq<CommandMethod>)
    | EventEnumBody(name: string, events: seq<EventCase>)

  /** One generated source file: its package and what it declares. */
  datatype Decl = Decl(pkg: string, body: Body)

  /* ---------------- enums ---------------- */

  /** One case per raw value, in order, each named by the normalised value. */
  function EnumCases(values: seq<string>): (r: seq<EnumCase>)
    ensures |r| == |values|
    ensures forall i :: 0 <= i < |r| ==> r[i].value == values[i] && r[i].ident == NormalizeIdent(values[i])
    decreases |values|
  {
    if values == [] then []
    else EnumCases(values[..|values| - 1]) + [EnumCase(NormalizeIdent(values[|values| - 1]), values[|values| - 1])]
  }

  /** Every case identifier is made of [A-Z0-9_] and is as long as its raw value. */
  lemma EnumCaseIdentsWellFormed(values: seq<string>, i: nat, j: nat)
    requires i < |values| && j < |values[i]|
    ensures |EnumCases(values)[i].ident| == |values[i]|
    ensures IsIdentChar(EnumCases(values)[i].ident[j])
  {
  }

  /** createEnum: the enum `t.id` implementing the marker interface, one case per enum value. */
  function EnumBodyOf(pkg: string, t: TypeSpec): Body {
    EnumBody(t.id, pkg + "." + EnumMarker, EnumCases(t.enums))
  }

  /** createEnumInterface: the marker interface, directly under the root package. */
  function MarkerDecl(pkg: string): Decl {
    Decl(pkg, MarkerInterface(EnumMarker))
  }

  /* ---------------- objects ---------------- */

  /** A property named "this" becomes "self"; every other name is kept. */
  function FieldName(name: string): (r: string)
    ensures r != "this"
    ensures name == "this" ==> r == "self"
    ensures name != "this" ==> r == name
  {
    if name == "this" then "self" else name
  }

  predicate HasOptional(props: seq<TypeSpec>) {
    exists i :: 0 <= i < |props| && props[i].optional
  }

  /** this.f = f; for every field, in order. */
  function CopyAssigns(fields: seq<Field>): (r: seq<Assign>)
    ensures |r| == |fields|
    ensures forall i :: 0 <= i < |r| ==> r[i] == Assign(fields[i].name, Some(fields[i].name))
    decreases |fields|
  {
    if fields == [] then []
    else CopyAssigns(fields[..|fields| - 1]) + [Assign(fields[|fields| - 1].name, Some(fields[|fields| - 1].name))]
  }

  /** The fields of the non-optional properties, in declaration order. */
  function Kept(props: seq<TypeSpec>, fields: seq<Field>): (r: seq<Field>)
    requires |props| == |fields|
    ensures |r| <= |fields|
    ensures forall f :: f in r ==> exists i :: 0 <= i < |fields| && !props[i].optional && fields[i] == f
    decreases |props|
  {
    if props == [] then []
    else
      var n := |props| - 1;
      var front := Kept(props[..n], fields[..n]);
      if props[n].optional then front else front + [fields[n]]
  }

  /** The positions of the non-optional properties, in increasing order: each such position once. */
  function KeptIndices(props: seq<TypeSpec>): (r: seq<nat>)
    ensures forall k :: 0 <= k < |r| ==> r[k] < |props| && !props[r[k]].optional
    ensures forall k, l :: 0 <= k < l < |r| ==> r[k] < r[l]
    ensures forall i :: 0 <= i < |props| && !props[i].optional ==> i in r
    decreases |props|
  {
    if props == [] then []
    else
      var n := |props| - 1;
      var front := KeptIndices(props[..n]);
      assert forall k :: 0 <= k < |front| ==> props[..n][front[k]] == props[front[k]];
      assert forall i :: 0 <= i < n ==> props[..n][i] == props[i];
      if props[n].optional then front else front + [n]
  }

  /**
   * The defaults constructor's parameters are the fields at exactly the non-optional
   * positions, in declaration order, each once.
   */
  lemma {:induction false} KeptAtIndices(props: seq<TypeSpec>, fields: seq<Field>)
    requires |props| == |fields|
    ensures var idx := KeptIndices(props);
      |Kept(props, fields)| == |idx| && forall k :: 0 <= k < |idx| ==> Kept(props, fields)[k] == fields[idx[k]]
    decreases |props|
  {
    if props != [] {
      var n := |props| - 1;
      KeptAtIndices(props[..n], fields[..n]);
      var idx, front := KeptIndices(props[..n]), Kept(props[..n], fields[..n]);
      forall k | 0 <= k < |idx|
        ensures front[k] == fields[idx[k]]
      {
        assert fields[..n][idx[k]] == fields[idx[k]];
      }
      if !props[n].optional {
        assert KeptIndices(props) == idx + [n];
        assert Kept(props, fields) == front + [fields[n]];
      }
    }
  }

  /** this.f = f; for non-optional properties and this.f = null; for optional ones. */
  function DefaultAssigns(props: seq<TypeSpec>, fields: seq<Field>): (r: seq<Assign>)
    requires |props| == |fields|
    ensures |r| == |fields|
    ensures forall i :: 0 <= i < |r| ==>
      r[i].field == fields[i].name && r[i].value == if props[i].optional then None else Some(fields[i].name)
    decreases |props|
  {
    if props == [] then []
    else
      var n := |props| - 1;
      DefaultAssigns(props[..n], fields[..n]) +
        [Assign(fields[n].name, if props[n].optional then None else Some(fields[n].name))]
  }

  /** Every field of a non-optional property is a parameter of the defaults constructor. */
  lemma {:induction false} KeptHasEveryRequired(props: seq<TypeSpec>, fields: seq<Field>, i: nat)
    requires |props| == |fields| && i < |props| && !props[i].optional
    ensures fields[i] in Kept(props, fields)
    decreases |props|
  {
    var n := |props| - 1;
    if i < n {
      KeptHasEveryRequired(props[..n], fields[..n], i);
    }
  }

  /** With no optional property, the non-optional fields are all the fields. */
  lemma {:induction false} KeptAllWhenNoneOptional(props: seq<TypeSpec>, fields: seq<Field>)
    requires |props| == |fields| && !HasOptional(props)
    ensures Kept(props, fields) == fields
    decreases |props|
  {
    if props != [] {
      var n := |props| - 1;
      assert !HasOptional(props[..n]) by {
        forall i | 0 <= i < n ensures !props[..n][i].optional { assert props[..n][i] == props[i]; }
      }
      KeptAllWhenNoneOptional(props[..n], fields[..n]);
      assert fields == fields[..n] + [fields[n]];
    }
  }

  /** With an optional property, the defaults constructor takes strictly fewer parameters. */
  lemma {:induction false} KeptShorterWhenOptional(props: seq<TypeSpec>, fields: seq<Field>)
    requires |props| == |fields| && HasOptional(props)
    ensures |Kept(props, fields)| < |fields|
    decreases |props|
  {
    var n := |props| - 1;
    if !props[n].optional {
      var i :| 0 <= i < |props| && props[i].optional;
      assert props[..n][i] == props[i];
      KeptShorterWhenOptional(props[..n], fields[..n]);
    }
  }

  /**
   * createObject: one field per property, a constructor taking every field, and a second
   * constructor, only when some property is optional, taking the non-optional fields and
   * setting every optional field to null.
   */
  function ObjectBodyOf(id: string, props: seq<TypeSpec>, fields: seq<Field>): (r: Body)
    requires |props| == |fields|
    ensures r.ClassBody? && r.id == id && r.fields == fields
    ensures r.full.params == fields && |r.full.assigns| == |fields|
    ensures forall i :: 0 <= i < |fields| ==> r.full.assigns[i] == Assign(fields[i].name, Some(fields[i].name))
    ensures r.defaults.Some? <==> HasOptional(props)
    ensures r.defaults.Some? ==>
      r.defaults.value.params == Kept(props, fields) && |r.defaults.value.params| < |fields| &&
      |r.defaults.value.assigns| == |fields| &&
      forall i :: 0 <= i < |fields| ==>
        r.defaults.value.assigns[i].field == fields[i].name &&
        (r.defaults.value.assigns[i].value.None? <==> props[i].optional)
  {
    var defaults :=
      if HasOptional(props) then
        KeptShorterWhenOptional(props, fields);
        Some(Ctor(Kept(props, fields), DefaultAssigns(props, fields)))
      else None;
    ClassBody(id, fields, Ctor(fields, CopyAssigns(fields)), defaults)
  }

  /* ---------------- synthesized ids ---------------- */

  function RequestId(command: string): string {
    Capitalize(command) + "Request"
  }

  function ResponseId(command: string): string {
    Capitalize(command) + "Response"
  }

  /** The payload class of an event: the capitalized name with a trailing "event" (any case) replaced by "Event". */
  function EventId(event: string): string {
    RemoveEndIgnoreCase(Capitalize(event), "event") + "Event"
  }

  /** No request class of one command has the name of a response class of another. */
  lemma RequestAndResponseIdsDiffer(a: string, b: string)
    ensures RequestId(a) != ResponseId(b)
  {
    var q, s := RequestId(a), ResponseId(b);
    if |q| == |s| {
      assert q[|q| - 1] == 't' && s[|s| - 1] == 'e';
    }
  }

  /** Two commands share a request (or response) class name exactly when their capitalized names agree. */
  lemma RequestIdInjective(a: string, b: string)
    ensures RequestId(a) == RequestId(b) <==> Capitalize(a) == Capitalize(b)
    ensures ResponseId(a) == ResponseId(b) <==> Capitalize(a) == Capitalize(b)
  {
    if RequestId(a) == RequestId(b) {
      assert Capitalize(a) == RequestId(a)[..|Capitalize(a)|];
      assert Capitalize(b) == RequestId(b)[..|Capitalize(b)|];
    }
    if ResponseId(a) == ResponseId(b) {
      assert Capitalize(a) == ResponseId(a)[..|Capitalize(a)|];
      assert Capitalize(b) == ResponseId(b)[..|Capitalize(b)|];
    }
  }

  lemma StripEventSuffix(x: string)
    ensures RemoveEndIgnoreCase(x + "Event", "event") == x
  {
    var s := x + "Event";
    assert s[|s| - 5..] == "Event";
    assert EndsWithIgnoreCase(s, "event");
    assert s[..|s| - 5] == x;
  }

  /** An event id is capitalized, ends with "Event", and naming it again changes nothing. */
  lemma EventIdIdempotent(event: string)
    ensures var id := EventId(event);
      |id| >= 5 && id[|id| - 5..] == "Event" && !IsLowerLetter(id[0]) && EventId(id) == id
  {
    var c := Capitalize(event);
    var x := RemoveEndIgnoreCase(c, "event");
    var id := x + "Event";
    assert id[|id| - 5..] == "Event";
    if x == [] {
      assert Capitalize(id) == id;
    } else {
      assert x[0] == c[0];
      assert Capitalize(id) == [UpperChar(id[0])] + id[1..];
      assert Capitalize(id) == id;
    }
    StripEventSuffix(x);
  }

  /** The Request class synthesized for a command with parameters (never registered). */
  function RequestSpec(c: Command): TypeSpec {
    TypeSpec(RequestId(c.name), None, Some(Object), false, [], [], None, c.parameters)
  }

  /** The Response class synthesized for a command with return values (never registered). */
  function ResponseSpec(c: Command): TypeSpec {
    TypeSpec(ResponseId(c.name), None, Some(Object), false, [], [], None, c.returnValues)
  }

  /** The payload class synthesized for an event with parameters (never registered). */
  function EventSpec(e: Event): TypeSpec {
    TypeSpec(EventId(e.name), None, Some(Object), false, [], [], None, e.parameters)
  }

  /** The identifier a command or an event has on the wire. */
  function WireId(domain: string, name: string): string {
    domain + "." + name
  }

  /**
   * The method createCommand writes for command `c`: a Future parameterized by the response
   * class when there is one, a request parameter when there is one, and a send of the wire id.
   */
  function CommandMethodOf(domain: string, c: Command, response: Option<string>, request: Option<string>): (m: CommandMethod)
    ensures m.name == c.name && m.wireId == WireId(domain, c.name)
    ensures m.request == request && m.responseClass == response
    ensures response.None? ==> m.returnType == FutureType
    ensures response.Some? ==> m.returnType == FutureType + "<" + response.value + ">"
  {
    CommandMethod(c.name, if response.Some? then FutureType + "<" + response.value + ">" else FutureType,
                  request, WireId(domain, c.name), response)
  }

  /* ---------------- the ordered event map ---------------- */

  function Keys(m: seq<EventEntry>): (r: seq<string>)
    ensures |r| == |m| && forall i :: 0 <= i < |m| ==> r[i] == m[i].key
  {
    seq(|m|, i requires 0 <= i < |m| => m[i].key)
  }

  predicate UniqueKeys(m: seq<EventEntry>) {
    forall i, j :: 0 <= i < j < |m| ==> m[i].key != m[j].key
  }

  /** The position of `key` in the map, if it is there. */
  function IndexOf(m: seq<EventEntry>, key: string): (r: Option<nat>)
    ensures r.None? ==> forall i :: 0 <= i < |m| ==> m[i].key != key
    ensures r.Some? ==> r.value < |m| && m[r.value].key == key
  {
    if m == [] then None
    else if m[0].key == key then Some(0)
    else
      var rest := IndexOf(m[1..], key);
      if rest.None? then None else Some(rest.value + 1)
  }

  /**
   * LinkedHashMap.put: a new key goes last; an existing key keeps its position and takes
   * the new value. Keys stay unique and no other entry changes.
   */
  function Put(m: seq<EventEntry>, e: EventEntry): (r: seq<EventEntry>)
    ensures UniqueKeys(m) ==> UniqueKeys(r)
    ensures e.key !in Keys(m) ==> r == m + [e]
    ensures e.key in Keys(m) ==> |r| == |m| && Keys(r) == Keys(m) && e in r
    ensures forall i :: 0 <= i < |m| && m[i].key != e.key ==> r[i] == m[i]
  {
    match IndexOf(m, e.key)
    case None =>
      assert e.key !in Keys(m);
      m + [e]
    case Some(i) =>
      assert e.key in Keys(m);
      assert m[i := e][i] == e;
      m[i := e]
  }

  /** putAll: put every entry of `es`, in order. */
  function PutAll(m: seq<EventEntry>, es: seq<EventEntry>): (r: seq<EventEntry>)
    ensures UniqueKeys(m) ==> UniqueKeys(r)
    ensures |r| >= |m| && Keys(r)[..|m|] == Keys(m)
    decreases |es|
  {
    if es == [] then m else Put(PutAll(m, es[..|es| - 1]), es[|es| - 1])
  }

  /** A key is in the map after a put exactly when it was before or is the key put. */
  lemma PutKeys(m: seq<EventEntry>, e: EventEntry, key: string)
    ensures key in Keys(Put(m, e)) <==> key in Keys(m) || key == e.key
  {
    var r := Put(m, e);
    if e.key !in Keys(m) {
      assert Keys(r) == Keys(m) + [e.key];
    } else {
      assert e.key in Keys(r) by {
        var i :| 0 <= i < |r| && r[i] == e;
        assert Keys(r)[i] == e.key;
      }
    }
  }

  lemma KeysOfPrefix(es: seq<EventEntry>)
    requires es != []
    ensures Keys(es) == Keys(es[..|es| - 1]) + [es[|es| - 1].key]
  {
  }

  /** A key is in the merged map exactly when it was in the map or in one of the entries put. */
  lemma {:induction false} PutAllKeys(m: seq<EventEntry>, es: seq<EventEntry>, key: string)
    ensures key in Keys(PutAll(m, es)) <==> key in Keys(m) || key in Keys(es)
    decreases |es|
  {
    if es != [] {
      var n := |es| - 1;
      PutAllKeys(m, es[..n], key);
      KeysOfPrefix(es);
      var front := PutAll(m, es[..n]);
      var r := Put(front, es[n]);
      if es[n].key !in Keys(front) {
        assert r == front + [es[n]];
        KeysOfPrefix(r);
        assert r[..|r| - 1] == front;
      }
    }
  }

  /** Merging entries whose keys are distinct and new appends them, in order. */
  lemma {:induction false} PutAllFresh(m: seq<EventEntry>, es: seq<EventEntry>)
    requires UniqueKeys(es)
    requires forall i, j :: 0 <= i < |es| && 0 <= j < |m| ==> es[i].key != m[j].key
    ensures PutAll(m, es) == m + es
    decreases |es|
  {
    if es != [] {
      var n := |es| - 1;
      PutAllFresh(m, es[..n]);
      var front := m + es[..n];
      forall k | 0 <= k < |front|
        ensures front[k].key != es[n].key
      {
        if k >= |m| {
          assert front[k] == es[k - |m|];
        }
      }
      assert es[n].key !in Keys(front);
      assert front + [es[n]] == m + es;
    }
  }

  /** The value of a key in the merged map is that of the last entry put under it. */
  lemma {:induction false} PutAllLastWins(m: seq<EventEntry>, es: seq<EventEntry>, i: nat)
    requires i < |es|
    requires forall j :: i < j < |es| ==> es[j].key != es[i].key
    ensures es[i] in PutAll(m, es)
    decreases |es|
  {
    var n := |es| - 1;
    var front := PutAll(m, es[..n]);
    if i < n {
      PutAllLastWins(m, es[..n], i);
      var k :| 0 <= k < |front| && front[k] == es[i];
      assert Put(front, es[n])[k] == es[i];
    } else {
      if es[n].key !in Keys(front) {
        assert Put(front, es[n]) == front + [es[n]];
      }
    }
  }

  /** One registry case per event key, named by the normalised key. */
  function EventCases(entries: seq<EventEntry>): (r: seq<EventCase>)
    ensures |r| == |entries|
    ensures forall i :: 0 <= i < |r| ==>
      r[i] == EventCase(NormalizeIdent(entries[i].key), entries[i].key, entries[i].payload)
    decreases |entries|
  {
    if entries == [] then []
    else
      var e := entries[|entries| - 1];
      EventCases(entries[..|entries| - 1]) + [EventCase(NormalizeIdent(e.key), e.key, e.payload)]
  }

  /** createEventEnum: the registry enum, directly under the root package. */
  function EventRegistryDecl(pkg: string, entries: seq<EventEntry>): Decl {
    Decl(pkg, EventEnumBody(EventEnumName, EventCases(entries)))
  }
}
