/**
 * What a whole run of the generator promises: nothing is written when the two protocol
 * documents disagree on their version; otherwise the marker interface comes first, the
 * registry holds every declared type of the merged domains before anything is generated,
 * and a successful run ends with the event registry, which holds one case per event wire id.
 */
module Orchestration {
  import opened Results
  import opened Text
  import opened Schema
  import opened Registry
  import opened Emit
  import opened Traces

  /** Unequal versions stop the run before the marker interface: no file, registry untouched. */
  lemma RunVersionMismatch(reg0: map<string, Declared>, pkg: string, conn: string, browser: Document, js: Document)
    requires browser.version != js.version
    ensures Run(reg0, pkg, conn, browser, js) == RunResult(Trace([], Err(VersionMismatch)), reg0)
  {
    VersionEqualsIsStructural(browser.version, js.version);
  }

  /** Equal versions: the marker interface is the first file, whatever happens afterwards. */
  lemma RunWritesMarkerFirst(reg0: map<string, Declared>, pkg: string, conn: string, browser: Document, js: Document)
    requires browser.version == js.version
    ensures var run := Run(reg0, pkg, conn, browser, js);
      |run.trace.emitted| >= 1 && run.trace.emitted[0] == MarkerDecl(pkg)
  {
    VersionEqualsIsStructural(browser.version, js.version);
  }

  /**
   * Pass 1 covers every merged domain, browser domains first: after a run from an empty
   * registry, a key is registered exactly when one of the domains declares a type under it.
   * Pass 2 resolves every reference against this complete registry.
   */
  lemma RunRegistersEveryDeclaredType(pkg: string, conn: string, browser: Document, js: Document, key: string)
    requires browser.version == js.version
    ensures var ds := browser.domains + js.domains;
      var run := Run(map[], pkg, conn, browser, js);
      run.registry == Register(map[], Declarations(ds)) &&
      (key in run.registry <==>
        exists i, t :: 0 <= i < |ds| && t in ds[i].types && Key(ds[i].name, t.id) == key)
  {
    VersionEqualsIsStructural(browser.version, js.version);
    RegisteredIffDeclared(browser.domains + js.domains, key);
  }

  /** createEvent's map holds each key once, and exactly the wire ids of the domain's events. */
  lemma EventsTraceKeys(reg: map<string, Declared>, pkg: string, domain: string, events: seq<Event>, key: string)
    ensures var t := EventsTrace(reg, pkg, domain, events);
      t.outcome.Ok? ==>
        UniqueKeys(t.outcome.value) &&
        (key in Keys(t.outcome.value) <==> exists j :: 0 <= j < |events| && WireId(domain, events[j].name) == key)
  {
    var step := EventStep(reg, pkg, domain);
    var t := Fold(step, PutEntry(), [], events);
    PutFoldUnique(step, events);
    if t.outcome.Ok? {
      if key in Keys(t.outcome.value) {
        PutFoldKeyFrom(step, events, key);
        var j :| 0 <= j < |events| && step(events[j]).outcome.Ok? && step(events[j]).outcome.value.key == key;
        EventTraceEntry(reg, pkg, domain, events[j]);
      }
      if exists j :: 0 <= j < |events| && WireId(domain, events[j].name) == key {
        var j :| 0 <= j < |events| && WireId(domain, events[j].name) == key;
        PutFoldHasKey(step, events, j);
        EventTraceEntry(reg, pkg, domain, events[j]);
      }
    }
  }

  /** Two events of one domain share a wire id exactly when they share a name. */
  lemma WireIdInjective(domain: string, a: string, b: string)
    ensures WireId(domain, a) == WireId(domain, b) <==> a == b
  {
    if WireId(domain, a) == WireId(domain, b) {
      assert a == WireId(domain, a)[|domain| + 1..];
    }
  }

  /**
   * When a domain's event names are distinct, createEvent's map is one entry per event, in
   * declaration order: keyed by the event's wire id, with no payload class exactly when the
   * event has no parameters.
   */
  lemma EventsTraceInOrder(reg: map<string, Declared>, pkg: string, domain: string, events: seq<Event>)
    requires forall i, j :: 0 <= i < j < |events| ==> events[i].name != events[j].name
    ensures var t := EventsTrace(reg, pkg, domain, events);
      t.outcome.Ok? ==>
        |t.outcome.value| == |events| &&
        forall i :: 0 <= i < |events| ==>
          t.outcome.value[i].key == WireId(domain, events[i].name) &&
          (t.outcome.value[i].payload.None? <==> |events[i].parameters| == 0)
  {
    var step := EventStep(reg, pkg, domain);
    forall i | 0 <= i < |events|
      ensures step(events[i]).outcome.Ok? ==>
        step(events[i]).outcome.value.key == WireId(domain, events[i].name) &&
        (step(events[i]).outcome.value.payload.None? <==> |events[i].parameters| == 0)
    {
      EventTraceEntry(reg, pkg, domain, events[i]);
    }
    forall i, j | 0 <= i < j < |events|
      ensures WireId(domain, events[i].name) != WireId(domain, events[j].name)
    {
      WireIdInjective(domain, events[i].name, events[j].name);
    }
    PutFoldInOrder(step, events);
  }

  /** Pass 2 on one domain yields that domain's event map. */
  lemma DomainTraceEvents(reg: map<string, Declared>, pkg: string, conn: string, d: Domain)
    ensures var t := DomainTrace(reg, pkg, conn, d);
      t.outcome.Ok? ==> t.outcome == EventsTrace(reg, pkg, d.name, d.events).outcome
  {
  }

  /**
   * The merged event map of pass 2 holds each key once, and a key exactly when it is the
   * wire id "<domain>.<event>" of some event of some merged domain.
   */
  lemma DomainsTraceEventKeys(reg: map<string, Declared>, pkg: string, conn: string, ds: seq<Domain>, key: string)
    ensures var t := DomainsTrace(reg, pkg, conn, ds);
      t.outcome.Ok? ==>
        UniqueKeys(t.outcome.value) &&
        (key in Keys(t.outcome.value) <==>
          exists i, j :: 0 <= i < |ds| && 0 <= j < |ds[i].events| && WireId(ds[i].name, ds[i].events[j].name) == key)
  {
    var step := DomainStep(reg, pkg, conn);
    var t := Fold(step, PutEntries(), [], ds);
    PutAllFoldUnique(step, ds);
    if t.outcome.Ok? {
      if key in Keys(t.outcome.value) {
        PutAllFoldKeyFrom(step, ds, key);
        var i :| 0 <= i < |ds| && step(ds[i]).outcome.Ok? && key in Keys(step(ds[i]).outcome.value);
        DomainTraceEvents(reg, pkg, conn, ds[i]);
        EventsTraceKeys(reg, pkg, ds[i].name, ds[i].events, key);
        var j :| 0 <= j < |ds[i].events| && WireId(ds[i].name, ds[i].events[j].name) == key;
      }
      if exists i, j :: 0 <= i < |ds| && 0 <= j < |ds[i].events| && WireId(ds[i].name, ds[i].events[j].name) == key {
        var i, j :| 0 <= i < |ds| && 0 <= j < |ds[i].events| && WireId(ds[i].name, ds[i].events[j].name) == key;
        FoldOk(step, PutEntries(), [], ds);
        DomainTraceEvents(reg, pkg, conn, ds[i]);
        EventsTraceKeys(reg, pkg, ds[i].name, ds[i].events, key);
        PutAllFoldHasKey(step, ds, i, key);
      }
    }
  }

  /* ---------------- the merged event registry, entry by entry ---------------- */

  /** An event together with the domain that declares it. */
  datatype DomainEvent = DomainEvent(domain: string, event: Event)

  function WireIdOf(x: DomainEvent): string {
    WireId(x.domain, x.event.name)
  }

  /** A domain's events, in declaration order. */
  function DomainEvents(d: Domain): (r: seq<DomainEvent>)
    ensures |r| == |d.events| && forall j :: 0 <= j < |r| ==> r[j] == DomainEvent(d.name, d.events[j])
  {
    seq(|d.events|, j requires 0 <= j < |d.events| => DomainEvent(d.name, d.events[j]))
  }

  /** The events of all merged domains, domain by domain, each domain's in declaration order. */
  function AllEvents(ds: seq<Domain>): seq<DomainEvent>
    decreases |ds|
  {
    if ds == [] then [] else AllEvents(ds[..|ds| - 1]) + DomainEvents(ds[|ds| - 1])
  }

  predicate DistinctWireIds(xs: seq<DomainEvent>) {
    forall a, b :: 0 <= a < b < |xs| ==> WireIdOf(xs[a]) != WireIdOf(xs[b])
  }

  /** The entry an event contributes: its wire id, and its payload class when it has parameters. */
  function RegistryEntry(pkg: string, x: DomainEvent): EventEntry {
    EventEntry(WireIdOf(x), if |x.event.parameters| == 0 then None else Some(Qualified(pkg, EventSpec(x.event), x.domain)))
  }

  function RegistryEntries(pkg: string, xs: seq<DomainEvent>): (r: seq<EventEntry>)
    ensures |r| == |xs| && forall k :: 0 <= k < |r| ==> r[k] == RegistryEntry(pkg, xs[k])
  {
    seq(|xs|, k requires 0 <= k < |xs| => RegistryEntry(pkg, xs[k]))
  }

  /** Distinct wire ids of a concatenation are distinct on each side and across the two. */
  lemma DistinctWireIdsSplit(a: seq<DomainEvent>, b: seq<DomainEvent>)
    requires DistinctWireIds(a + b)
    ensures DistinctWireIds(a) && DistinctWireIds(b)
    ensures forall i, j :: 0 <= i < |a| && 0 <= j < |b| ==> WireIdOf(a[i]) != WireIdOf(b[j])
  {
    var ab := a + b;
    forall i, j | 0 <= i < j < |a|
      ensures WireIdOf(a[i]) != WireIdOf(a[j])
    {
      assert ab[i] == a[i] && ab[j] == a[j];
    }
    forall i, j | 0 <= i < j < |b|
      ensures WireIdOf(b[i]) != WireIdOf(b[j])
    {
      assert ab[|a| + i] == b[i] && ab[|a| + j] == b[j];
    }
    forall i, j | 0 <= i < |a| && 0 <= j < |b|
      ensures WireIdOf(a[i]) != WireIdOf(b[j])
    {
      assert ab[i] == a[i] && ab[|a| + j] == b[j];
    }
  }

  /**
   * When a domain's wire ids are distinct, createEvent's map is exactly its events' entries,
   * in declaration order, each with the payload class of its event.
   */
  lemma EventsTraceEntries(reg: map<string, Declared>, pkg: string, d: Domain)
    requires DistinctWireIds(DomainEvents(d))
    ensures var t := EventsTrace(reg, pkg, d.name, d.events);
      t.outcome.Ok? ==> t.outcome.value == RegistryEntries(pkg, DomainEvents(d))
  {
    var step := EventStep(reg, pkg, d.name);
    var xs := DomainEvents(d);
    forall i | 0 <= i < |d.events|
      ensures step(d.events[i]).outcome.Ok? ==> step(d.events[i]).outcome.value == RegistryEntry(pkg, xs[i])
    {
      EventTraceEntry(reg, pkg, d.name, d.events[i]);
    }
    PutFoldInOrder(step, d.events);
  }

  /**
   * When the wire ids of all merged domains' events are distinct, pass 2's merged map is every
   * event's entry, domain by domain in merged order, each domain's events in declaration order.
   */
  lemma {:induction false} DomainsTraceEntries(reg: map<string, Declared>, pkg: string, conn: string, ds: seq<Domain>)
    requires DistinctWireIds(AllEvents(ds))
    ensures var t := DomainsTrace(reg, pkg, conn, ds);
      t.outcome.Ok? ==> t.outcome.value == RegistryEntries(pkg, AllEvents(ds))
    decreases |ds|
  {
    var t := DomainsTrace(reg, pkg, conn, ds);
    if ds != [] && t.outcome.Ok? {
      var n := |ds| - 1;
      var a, b := AllEvents(ds[..n]), DomainEvents(ds[n]);
      assert AllEvents(ds) == a + b;
      DistinctWireIdsSplit(a, b);
      var front := DomainsTrace(reg, pkg, conn, ds[..n]);
      var step := DomainStep(reg, pkg, conn)(ds[n]);
      assert front.outcome.Ok? && step.outcome.Ok?;
      assert t.outcome.value == PutAll(front.outcome.value, step.outcome.value);
      DomainsTraceEntries(reg, pkg, conn, ds[..n]);
      DomainTraceEvents(reg, pkg, conn, ds[n]);
      EventsTraceEntries(reg, pkg, ds[n]);
      MergeEntries(pkg, a, b);
    }
  }

  /** Merging the entries of events with distinct wire ids appends them. */
  lemma MergeEntries(pkg: string, a: seq<DomainEvent>, b: seq<DomainEvent>)
    requires DistinctWireIds(a + b)
    ensures PutAll(RegistryEntries(pkg, a), RegistryEntries(pkg, b)) == RegistryEntries(pkg, a + b)
  {
    DistinctWireIdsSplit(a, b);
    FreshEntries(pkg, a, b);
    PutAllFresh(RegistryEntries(pkg, a), RegistryEntries(pkg, b));
    EntriesAppend(pkg, a, b);
  }

  /** The entries of events with distinct wire ids hold each key once, and none of another such group's. */
  lemma FreshEntries(pkg: string, a: seq<DomainEvent>, b: seq<DomainEvent>)
    requires DistinctWireIds(b)
    requires forall i, j :: 0 <= i < |a| && 0 <= j < |b| ==> WireIdOf(a[i]) != WireIdOf(b[j])
    ensures UniqueKeys(RegistryEntries(pkg, b))
    ensures var m, es := RegistryEntries(pkg, a), RegistryEntries(pkg, b);
      forall i, j :: 0 <= i < |es| && 0 <= j < |m| ==> es[i].key != m[j].key
  {
    var m, es := RegistryEntries(pkg, a), RegistryEntries(pkg, b);
    forall i, j | 0 <= i < j < |es|
      ensures es[i].key != es[j].key
    {
      assert es[i].key == WireIdOf(b[i]) && es[j].key == WireIdOf(b[j]);
    }
    forall i, j | 0 <= i < |es| && 0 <= j < |m|
      ensures es[i].key != m[j].key
    {
      assert es[i].key == WireIdOf(b[i]) && m[j].key == WireIdOf(a[j]);
    }
  }

  /** The entries of two groups of events, one after the other. */
  /** One position of EntriesAppend: entry k of the concatenation is entry k of the joined parts. */
  lemma EntriesAppendAt(pkg: string, a: seq<DomainEvent>, b: seq<DomainEvent>, k: nat)
    requires k < |a| + |b|
    ensures RegistryEntries(pkg, a + b)[k] == (RegistryEntries(pkg, a) + RegistryEntries(pkg, b))[k]
  {
    if k < |a| {
      assert (a + b)[k] == a[k];
    } else {
      assert (a + b)[k] == b[k - |a|];
    }
  }

  lemma EntriesAppend(pkg: string, a: seq<DomainEvent>, b: seq<DomainEvent>)
    ensures RegistryEntries(pkg, a) + RegistryEntries(pkg, b) == RegistryEntries(pkg, a + b)
  {
    var m, es, ab := RegistryEntries(pkg, a), RegistryEntries(pkg, b), RegistryEntries(pkg, a + b);
    forall k | 0 <= k < |ab|
      ensures ab[k] == (m + es)[k]
    {
      EntriesAppendAt(pkg, a, b, k);
    }
    assert m + es == ab;
  }

  /**
   * A successful run ends with the event registry, directly under the root package; its
   * cases carry each key once, and a key exactly when it is the wire id of an event of a
   * merged domain.
   */
  lemma RunEndsWithEventRegistry(reg0: map<string, Declared>, pkg: string, conn: string, browser: Document, js: Document, key: string)
    ensures var run := Run(reg0, pkg, conn, browser, js);
      var ds := browser.domains + js.domains;
      run.trace.outcome.Ok? ==>
        |run.trace.emitted| >= 2 &&
        var last := run.trace.emitted[|run.trace.emitted| - 1];
        last.pkg == pkg && last.body.EventEnumBody? &&
        (forall a, b :: 0 <= a < b < |last.body.events| ==> last.body.events[a].key != last.body.events[b].key) &&
        ((exists c :: 0 <= c < |last.body.events| && last.body.events[c].key == key) <==>
          exists i, j :: 0 <= i < |ds| && 0 <= j < |ds[i].events| && WireId(ds[i].name, ds[i].events[j].name) == key)
  {
    var run := Run(reg0, pkg, conn, browser, js);
    if run.trace.outcome.Ok? {
      var ds := browser.domains + js.domains;
      var reg := Register(reg0, Declarations(ds));
      var t := DomainsTrace(reg, pkg, conn, ds);
      RunLastFile(reg0, pkg, conn, browser, js);
      var events := t.outcome.value;
      DomainsTraceEventKeys(reg, pkg, conn, ds, key);
      EventCasesKeys(events, key);
    }
  }

  /**
   * When the wire ids of the merged domains' events are distinct, a successful run's event
   * registry has one case per event, in merged order: case c is named by the c-th event's
   * normalised wire id, keyed by it, and carries that event's payload class (none when the
   * event has no parameters).
   */
  lemma RunEventRegistryCases(reg0: map<string, Declared>, pkg: string, conn: string, browser: Document, js: Document)
    requires DistinctWireIds(AllEvents(browser.domains + js.domains))
    ensures var run := Run(reg0, pkg, conn, browser, js);
      var xs := AllEvents(browser.domains + js.domains);
      run.trace.outcome.Ok? ==>
        |run.trace.emitted| >= 2 &&
        var last := run.trace.emitted[|run.trace.emitted| - 1];
        last.pkg == pkg && last.body.EventEnumBody? && |last.body.events| == |xs| &&
        forall c :: 0 <= c < |xs| ==>
          last.body.events[c].ident == NormalizeIdent(WireIdOf(xs[c])) &&
          last.body.events[c].key == WireIdOf(xs[c]) &&
          last.body.events[c].payload == RegistryEntry(pkg, xs[c]).payload
  {
    var run := Run(reg0, pkg, conn, browser, js);
    if run.trace.outcome.Ok? {
      var ds := browser.domains + js.domains;
      RunLastFile(reg0, pkg, conn, browser, js);
      DomainsTraceEntries(Register(reg0, Declarations(ds)), pkg, conn, ds);
    }
  }

  /** A successful run's last file is the event registry of pass 2's merged map. */
  lemma RunLastFile(reg0: map<string, Declared>, pkg: string, conn: string, browser: Document, js: Document)
    requires Run(reg0, pkg, conn, browser, js).trace.outcome.Ok?
    ensures var ds := browser.domains + js.domains;
      var t := DomainsTrace(Register(reg0, Declarations(ds)), pkg, conn, ds);
      var emitted := Run(reg0, pkg, conn, browser, js).trace.emitted;
      t.outcome.Ok? && |emitted| >= 2 && emitted[|emitted| - 1] == EventRegistryDecl(pkg, t.outcome.value)
  {
  }

  /** The registry's cases carry the map's keys: each once when the map holds each once. */
  lemma EventCasesKeys(events: seq<EventEntry>, key: string)
    ensures var cases := EventCases(events);
      (UniqueKeys(events) ==> forall a, b :: 0 <= a < b < |cases| ==> cases[a].key != cases[b].key) &&
      (key in Keys(events) <==> exists c :: 0 <= c < |cases| && cases[c].key == key)
  {
    var cases := EventCases(events);
    if key in Keys(events) {
      var c :| 0 <= c < |events| && Keys(events)[c] == key;
      assert cases[c].key == key;
    }
    if exists c :: 0 <= c < |cases| && cases[c].key == key {
      var c :| 0 <= c < |cases| && cases[c].key == key;
      assert Keys(events)[c] == key;
    }
  }

  /** A command with parameters: the last file it writes is its Request class, in the entity package. */
  lemma CommandRequestLast(reg: map<string, Declared>, pkg: string, domain: string, c: Command)
    ensures var t := CommandTrace(reg, pkg, domain, c);
      t.outcome.Ok? && |c.parameters| > 0 ==>
        |t.emitted| >= 1 &&
        t.emitted[|t.emitted| - 1].pkg == pkg + ".entity." + Lower(domain) &&
        t.emitted[|t.emitted| - 1].body.ClassBody? &&
        t.emitted[|t.emitted| - 1].body.id == RequestId(c.name)
  {
    var t := CommandTrace(reg, pkg, domain, c);
    if t.outcome.Ok? && |c.parameters| > 0 {
      var qs := RequestSpec(c);
      var resp := if |c.returnValues| == 0 then Trace([], Ok(())) else TypeTrace(reg, pkg, domain, ResponseSpec(c));
      var req := TypeTrace(reg, pkg, domain, qs);
      assert t.emitted == resp.emitted + req.emitted;
      TypeTraceShape(reg, pkg, domain, qs);
      assert t.emitted[|t.emitted| - 1] == req.emitted[|req.emitted| - 1];
    }
  }

  /**
   * A command with return values writes its Response class, in the entity package, before
   * anything its parameters produce: so before its Request class when it has one.
   */
  lemma CommandResponseFirst(reg: map<string, Declared>, pkg: string, domain: string, c: Command)
    ensures var t := CommandTrace(reg, pkg, domain, c);
      t.outcome.Ok? && |c.returnValues| > 0 ==>
        exists k :: 0 <= k < |t.emitted| &&
          t.emitted[k].pkg == pkg + ".entity." + Lower(domain) &&
          t.emitted[k].body.ClassBody? && t.emitted[k].body.id == ResponseId(c.name) &&
          (|c.parameters| > 0 ==> k < |t.emitted| - 1)
  {
    var t := CommandTrace(reg, pkg, domain, c);
    if t.outcome.Ok? && |c.returnValues| > 0 {
      var rs := ResponseSpec(c);
      var resp := TypeTrace(reg, pkg, domain, rs);
      var req := if |c.parameters| == 0 then Trace([], Ok(())) else TypeTrace(reg, pkg, domain, RequestSpec(c));
      assert t.emitted == resp.emitted + req.emitted;
      TypeTraceShape(reg, pkg, domain, rs);
      if |c.parameters| > 0 {
        TypeTraceShape(reg, pkg, domain, RequestSpec(c));
      }
      var k := |resp.emitted| - 1;
      assert t.emitted[k] == resp.emitted[k];
    }
  }

  /**
   * The classes synthesized for a command and an event: named after the command or event
   * alone (no domain prefix), in the entity package of the domain being generated.
   */
  lemma SynthesizedClassNames(pkg: string, domain: string, c: Command, e: Event)
    ensures Qualified(pkg, RequestSpec(c), domain) == pkg + ".entity." + Lower(domain) + "." + Capitalize(c.name) + "Request"
    ensures Qualified(pkg, ResponseSpec(c), domain) == pkg + ".entity." + Lower(domain) + "." + Capitalize(c.name) + "Response"
    ensures Qualified(pkg, EventSpec(e), domain) == pkg + ".entity." + Lower(domain) + "." + EventId(e.name)
  {
    var p := pkg + ".entity." + Lower(domain);
    assert Package(pkg, RequestSpec(c), domain) == p;
    assert p + "." + (Capitalize(c.name) + "Request") == p + "." + Capitalize(c.name) + "Request";
    assert p + "." + (Capitalize(c.name) + "Response") == p + "." + Capitalize(c.name) + "Response";
  }
}
