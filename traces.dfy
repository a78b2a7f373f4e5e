/**
 * The specification of every emitter and of the whole run as functions: the declarations
 * each one writes, in order, and how it ends. On an error the declarations are those
 * written before the failure; the run stops there, as the generator's exceptions do.
 */
module Traces {
  import opened Results
  import opened Text
  import opened Schema
  import opened Registry
  import opened Resolver
  import opened Emit

  /** What an emitter leaves behind: the files it wrote, in order, and how it ended. */
  datatype Trace<+T> = Trace(emitted: seq<Decl>, outcome: Result<T>)

  /* ---------------- loops that stop at the first failure ---------------- */

  /**
   * One more iteration: nothing happens once `front` has failed; otherwise the step's files
   * follow and its value is folded into the accumulated one.
   */
  function Then<S, T>(front: Trace<S>, step: Trace<T>, combine: (S, T) -> S): (r: Trace<S>)
    ensures front.outcome.Err? ==> r == front
  {
    if front.outcome.Err? then front
    else Trace(front.emitted + step.emitted,
               if step.outcome.Err? then Err(step.outcome.error) else Ok(combine(front.outcome.value, step.outcome.value)))
  }

  /** A loop running `f` on each element of `xs` in order, stopping at the first failure. */
  function Fold<A, S, T>(f: A -> Trace<T>, combine: (S, T) -> S, init: S, xs: seq<A>): Trace<S>
    decreases |xs|
  {
    if xs == [] then Trace([], Ok(init))
    else Then(Fold(f, combine, init, xs[..|xs| - 1]), f(xs[|xs| - 1]), combine)
  }

  /** The loop after i + 1 iterations is the loop after i iterations and one more. */
  lemma FoldSnoc<A, S, T>(f: A -> Trace<T>, combine: (S, T) -> S, init: S, xs: seq<A>, i: nat)
    requires i < |xs|
    ensures Fold(f, combine, init, xs[..i + 1]) == Then(Fold(f, combine, init, xs[..i]), f(xs[i]), combine)
  {
    assert xs[..i + 1][..i] == xs[..i];
  }

  /** A successful loop: its last iteration succeeded after the others, and its value folds that one in. */
  lemma FoldLast<A, S, T>(f: A -> Trace<T>, combine: (S, T) -> S, init: S, xs: seq<A>)
    requires xs != [] && Fold(f, combine, init, xs).outcome.Ok?
    ensures var n := |xs| - 1;
      var front := Fold(f, combine, init, xs[..n]);
      front.outcome.Ok? && f(xs[n]).outcome.Ok? &&
      Fold(f, combine, init, xs).outcome.value == combine(front.outcome.value, f(xs[n]).outcome.value)
  {
  }

  /** Once the first i iterations have failed, the whole loop is that failure. */
  lemma {:induction false} FoldStops<A, S, T>(f: A -> Trace<T>, combine: (S, T) -> S, init: S, xs: seq<A>, i: nat)
    requires i <= |xs| && Fold(f, combine, init, xs[..i]).outcome.Err?
    ensures Fold(f, combine, init, xs) == Fold(f, combine, init, xs[..i])
    decreases |xs|
  {
    if i < |xs| {
      var n := |xs| - 1;
      assert xs[..n][..i] == xs[..i];
      FoldStops(f, combine, init, xs[..n], i);
    } else {
      assert xs[..i] == xs;
    }
  }

  /** Files written in three stages, one after the other. */
  lemma Concat3(before: seq<Decl>, a: seq<Decl>, b: seq<Decl>, c: seq<Decl>)
    ensures before + a + b + c == before + (a + b + c) && before + a + b == before + (a + b)
  {
  }

  /**
   * The next iteration of a loop that has not failed yet, with `before` the files written
   * before the loop, `log` those written before this iteration and `after` those written
   * once it is over: on success the loop goes on with the step's value folded in; on failure
   * the whole loop ends there, with that error.
   */
  lemma FoldNext<A, S, T>(f: A -> Trace<T>, combine: (S, T) -> S, init: S, xs: seq<A>, i: nat,
                          acc: S, before: seq<Decl>, log: seq<Decl>, after: seq<Decl>)
    requires i < |xs| && Fold(f, combine, init, xs[..i]).outcome == Ok(acc)
    requires log == before + Fold(f, combine, init, xs[..i]).emitted && after == log + f(xs[i]).emitted
    ensures f(xs[i]).outcome.Ok? ==>
      Fold(f, combine, init, xs[..i + 1]).outcome == Ok(combine(acc, f(xs[i]).outcome.value)) &&
      after == before + Fold(f, combine, init, xs[..i + 1]).emitted
    ensures f(xs[i]).outcome.Err? ==>
      Fold(f, combine, init, xs).outcome == Err(f(xs[i]).outcome.error) &&
      after == before + Fold(f, combine, init, xs).emitted
  {
    FoldSnoc(f, combine, init, xs, i);
    Concat3(before, Fold(f, combine, init, xs[..i]).emitted, f(xs[i]).emitted, []);
    if f(xs[i]).outcome.Err? {
      FoldStops(f, combine, init, xs, i + 1);
    }
  }

  /** A loop that ran over every element is the whole loop. */
  lemma FoldDone<A, S, T>(f: A -> Trace<T>, combine: (S, T) -> S, init: S, xs: seq<A>)
    ensures Fold(f, combine, init, xs[..|xs|]) == Fold(f, combine, init, xs)
  {
    assert xs[..|xs|] == xs;
  }

  /** A loop succeeds exactly when every iteration does. */
  lemma {:induction false} FoldOk<A, S, T>(f: A -> Trace<T>, combine: (S, T) -> S, init: S, xs: seq<A>)
    ensures Fold(f, combine, init, xs).outcome.Ok? <==> forall i :: 0 <= i < |xs| ==> f(xs[i]).outcome.Ok?
    decreases |xs|
  {
    if xs != [] {
      var n := |xs| - 1;
      FoldOk(f, combine, init, xs[..n]);
      assert forall i :: 0 <= i < n ==> xs[..n][i] == xs[i];
    }
  }

  /** A loop whose every iteration writes at most one file writes at most one file per element. */
  lemma {:induction false} FoldEmitsAtMostOneEach<A, S, T>(f: A -> Trace<T>, combine: (S, T) -> S, init: S, xs: seq<A>)
    requires forall i :: 0 <= i < |xs| ==> |f(xs[i]).emitted| <= 1
    ensures |Fold(f, combine, init, xs).emitted| <= |xs|
    decreases |xs|
  {
    if xs != [] {
      var n := |xs| - 1;
      assert forall i :: 0 <= i < n ==> xs[..n][i] == xs[i];
      FoldEmitsAtMostOneEach(f, combine, init, xs[..n]);
    }
  }

  /** A property every iteration's files have is a property of every file the loop writes. */
  lemma {:induction false} FoldEmitsOnly<A, S, T>(f: A -> Trace<T>, combine: (S, T) -> S, init: S, xs: seq<A>, p: Decl -> bool)
    requires forall i, d :: 0 <= i < |xs| && d in f(xs[i]).emitted ==> p(d)
    ensures forall d :: d in Fold(f, combine, init, xs).emitted ==> p(d)
    decreases |xs|
  {
    if xs != [] {
      var n := |xs| - 1;
      assert forall i :: 0 <= i < n ==> xs[..n][i] == xs[i];
      FoldEmitsOnly(f, combine, init, xs[..n], p);
    }
  }

  /** Appending each iteration's value to a list. */
  function Append<T>(): (seq<T>, T) -> seq<T> {
    (s: seq<T>, x: T) => s + [x]
  }

  /** A loop collecting one value per element. */
  function Collect<A, T>(f: A -> Trace<T>, xs: seq<A>): (t: Trace<seq<T>>)
    ensures t.outcome.Ok? ==> |t.outcome.value| == |xs|
  {
    CollectValues(f, xs);
    Fold(f, Append(), [], xs)
  }

  /** A collecting loop that succeeds yields one value per element: element i's own value. */
  lemma {:induction false} CollectValues<A, T>(f: A -> Trace<T>, xs: seq<A>)
    ensures var t := Fold(f, Append(), [], xs);
      t.outcome.Ok? ==>
        |t.outcome.value| == |xs| && forall i :: 0 <= i < |xs| ==> f(xs[i]).outcome == Ok(t.outcome.value[i])
    decreases |xs|
  {
    if xs != [] {
      var n := |xs| - 1;
      CollectValues(f, xs[..n]);
      var front := Fold(f, Append(), [], xs[..n]);
      var t := Fold(f, Append(), [], xs);
      if t.outcome.Ok? {
        assert t.outcome.value == front.outcome.value + [f(xs[n]).outcome.value];
        forall i | 0 <= i < n
          ensures t.outcome.value[i] == front.outcome.value[i] && xs[..n][i] == xs[i]
        {
        }
      }
    }
  }

  /** Putting each iteration's entry into an ordered map. */
  function PutEntry(): (seq<EventEntry>, EventEntry) -> seq<EventEntry> {
    (m: seq<EventEntry>, e: EventEntry) => Put(m, e)
  }

  /** Putting all of each iteration's entries into an ordered map. */
  function PutEntries(): (seq<EventEntry>, seq<EventEntry>) -> seq<EventEntry> {
    (m: seq<EventEntry>, es: seq<EventEntry>) => PutAll(m, es)
  }

  /** A loop putting entries into an empty map never holds a key twice. */
  lemma {:induction false} PutFoldUnique<A>(f: A -> Trace<EventEntry>, xs: seq<A>)
    ensures var t := Fold(f, PutEntry(), [], xs);
      t.outcome.Ok? ==> UniqueKeys(t.outcome.value)
    decreases |xs|
  {
    if xs != [] {
      PutFoldUnique(f, xs[..|xs| - 1]);
    }
  }

  /** Every entry a successful putting loop's iterations produce is keyed in its result. */
  lemma {:induction false} PutFoldHasKey<A>(f: A -> Trace<EventEntry>, xs: seq<A>, i: nat)
    requires i < |xs| && Fold(f, PutEntry(), [], xs).outcome.Ok?
    ensures f(xs[i]).outcome.Ok? && f(xs[i]).outcome.value.key in Keys(Fold(f, PutEntry(), [], xs).outcome.value)
    decreases |xs|
  {
    var n := |xs| - 1;
    var front := Fold(f, PutEntry(), [], xs[..n]);
    assert front.outcome.Ok?;
    var m, e := front.outcome.value, f(xs[n]).outcome.value;
    assert Fold(f, PutEntry(), [], xs).outcome.value == Put(m, e);
    if i < n {
      PutFoldHasKey(f, xs[..n], i);
      assert xs[..n][i] == xs[i];
    }
    PutKeys(m, e, f(xs[i]).outcome.value.key);
  }

  /** Every key of a successful putting loop's result comes from one of its iterations. */
  lemma {:induction false} PutFoldKeyFrom<A>(f: A -> Trace<EventEntry>, xs: seq<A>, key: string)
    requires Fold(f, PutEntry(), [], xs).outcome.Ok? && key in Keys(Fold(f, PutEntry(), [], xs).outcome.value)
    ensures exists i :: 0 <= i < |xs| && f(xs[i]).outcome.Ok? && f(xs[i]).outcome.value.key == key
    decreases |xs|
  {
    var n := |xs| - 1;
    var front := Fold(f, PutEntry(), [], xs[..n]);
    assert front.outcome.Ok?;
    var m, e := front.outcome.value, f(xs[n]).outcome.value;
    PutKeys(m, e, key);
    if key in Keys(m) {
      PutFoldKeyFrom(f, xs[..n], key);
      var i :| 0 <= i < n && f(xs[..n][i]).outcome.Ok? && f(xs[..n][i]).outcome.value.key == key;
      assert xs[..n][i] == xs[i];
    } else {
      assert f(xs[n]).outcome.value.key == key;
    }
  }

  /**
   * When the iterations' keys are pairwise distinct, a successful putting loop is exactly the
   * iterations' entries, in iteration order.
   */
  lemma {:induction false} PutFoldInOrder<A>(f: A -> Trace<EventEntry>, xs: seq<A>)
    requires forall i, j :: 0 <= i < j < |xs| && f(xs[i]).outcome.Ok? && f(xs[j]).outcome.Ok? ==>
      f(xs[i]).outcome.value.key != f(xs[j]).outcome.value.key
    ensures var t := Fold(f, PutEntry(), [], xs);
      t.outcome.Ok? ==>
        |t.outcome.value| == |xs| && forall i :: 0 <= i < |xs| ==> f(xs[i]).outcome == Ok(t.outcome.value[i])
    decreases |xs|
  {
    var t := Fold(f, PutEntry(), [], xs);
    if xs != [] && t.outcome.Ok? {
      var n := |xs| - 1;
      var front := Fold(f, PutEntry(), [], xs[..n]);
      assert front.outcome.Ok?;
      forall i, j | 0 <= i < j < n && f(xs[..n][i]).outcome.Ok? && f(xs[..n][j]).outcome.Ok?
        ensures f(xs[..n][i]).outcome.value.key != f(xs[..n][j]).outcome.value.key
      {
        assert xs[..n][i] == xs[i] && xs[..n][j] == xs[j];
      }
      PutFoldInOrder(f, xs[..n]);
      var m, e := front.outcome.value, f(xs[n]).outcome.value;
      forall i | 0 <= i < n
        ensures f(xs[i]).outcome == Ok(m[i]) && m[i].key != e.key
      {
        assert xs[..n][i] == xs[i];
      }
      assert e.key !in Keys(m);
      assert t.outcome.value == Put(m, e) == m + [e];
    }
  }

  /** A loop merging maps into an empty map never holds a key twice. */
  lemma {:induction false} PutAllFoldUnique<A>(f: A -> Trace<seq<EventEntry>>, xs: seq<A>)
    ensures var t := Fold(f, PutEntries(), [], xs);
      t.outcome.Ok? ==> UniqueKeys(t.outcome.value)
    decreases |xs|
  {
    if xs != [] {
      PutAllFoldUnique(f, xs[..|xs| - 1]);
    }
  }

  /** A successful merging loop holds a key exactly when the loop before its last iteration or that iteration's map does. */
  lemma PutAllFoldLastKeys<A>(f: A -> Trace<seq<EventEntry>>, xs: seq<A>, key: string)
    requires xs != [] && Fold(f, PutEntries(), [], xs).outcome.Ok?
    ensures var n := |xs| - 1;
      var front := Fold(f, PutEntries(), [], xs[..n]);
      front.outcome.Ok? && f(xs[n]).outcome.Ok? &&
      (key in Keys(Fold(f, PutEntries(), [], xs).outcome.value) <==>
        key in Keys(front.outcome.value) || key in Keys(f(xs[n]).outcome.value))
  {
    var n := |xs| - 1;
    FoldLast(f, PutEntries(), [], xs);
    PutAllKeys(Fold(f, PutEntries(), [], xs[..n]).outcome.value, f(xs[n]).outcome.value, key);
  }

  /** Every key of every map a successful merging loop's iterations produce is in its result. */
  lemma {:induction false} PutAllFoldHasKey<A>(f: A -> Trace<seq<EventEntry>>, xs: seq<A>, i: nat, key: string)
    requires i < |xs| && Fold(f, PutEntries(), [], xs).outcome.Ok?
    requires f(xs[i]).outcome.Ok? && key in Keys(f(xs[i]).outcome.value)
    ensures key in Keys(Fold(f, PutEntries(), [], xs).outcome.value)
    decreases |xs|
  {
    var n := |xs| - 1;
    var front := xs[..n];
    PutAllFoldLastKeys(f, xs, key);
    if i < n {
      assert front[i] == xs[i];
      PutAllFoldHasKey(f, front, i, key);
      assert key in Keys(Fold(f, PutEntries(), [], front).outcome.value);
    } else {
      assert i == n;
    }
  }

  /** Every key of a successful merging loop's result comes from one of its iterations' maps. */
  lemma {:induction false} PutAllFoldKeyFrom<A>(f: A -> Trace<seq<EventEntry>>, xs: seq<A>, key: string)
    requires Fold(f, PutEntries(), [], xs).outcome.Ok? && key in Keys(Fold(f, PutEntries(), [], xs).outcome.value)
    ensures exists i :: 0 <= i < |xs| && f(xs[i]).outcome.Ok? && key in Keys(f(xs[i]).outcome.value)
    decreases |xs|
  {
    var n := |xs| - 1;
    var front := Fold(f, PutEntries(), [], xs[..n]);
    assert front.outcome.Ok?;
    var m, es := front.outcome.value, f(xs[n]).outcome.value;
    PutAllKeys(m, es, key);
    if key in Keys(m) {
      PutAllFoldKeyFrom(f, xs[..n], key);
      var i :| 0 <= i < n && f(xs[..n][i]).outcome.Ok? && key in Keys(f(xs[..n][i]).outcome.value);
      assert xs[..n][i] == xs[i];
    } else {
      assert key in Keys(f(xs[n]).outcome.value);
    }
  }

  /** Ignoring the iterations' values. */
  function Skip(): ((), ()) -> () {
    (u: (), v: ()) => ()
  }

  /* ---------------- the emitters ---------------- */

  /** The file createType writes for an enum-shaped spec owned by `domain`. */
  function EnumDecl(pkg: string, domain: string, t: TypeSpec): Decl {
    Decl(Package(pkg, t, domain), EnumBodyOf(pkg, t))
  }

  /** getType on a property: its type name, and the one inline enum declaration it may emit. */
  function ResolveTrace(reg: map<string, Declared>, pkg: string, domain: string, prop: TypeSpec, parentId: string): (t: Trace<string>)
    ensures |t.emitted| <= 1
    ensures t.outcome.Err? ==> t.emitted == []
  {
    var r := ResolveProperty(reg, pkg, domain, prop, parentId);
    if r.Err? then Trace([], Err(r.error))
    else if r.value.pending.None? then Trace([], Ok(r.value.name))
    else Trace([EnumDecl(pkg, domain, r.value.pending.value)], Ok(r.value.name))
  }

  /** One step of createObject's first loop: resolve the property, then name its field. */
  function PropertyTrace(reg: map<string, Declared>, pkg: string, domain: string, parent: TypeSpec, prop: TypeSpec): (t: Trace<Field>)
    ensures |t.emitted| <= 1
  {
    var r := ResolveTrace(reg, pkg, domain, prop, parent.id);
    if r.outcome.Err? then Trace(r.emitted, Err(r.outcome.error))
    else if prop.name.None? then Trace(r.emitted, Err(MissingPropertyName))
    else Trace(r.emitted, Ok(Field(r.outcome.value, FieldName(prop.name.value))))
  }

  function PropertyStep(reg: map<string, Declared>, pkg: string, domain: string, parent: TypeSpec): TypeSpec -> Trace<Field> {
    prop => PropertyTrace(reg, pkg, domain, parent, prop)
  }

  /**
   * createObject's first loop: each property resolved once, in order; its field is typed
   * with that one resolution, which the constructors then read back from the cache.
   */
  function PropertiesTrace(reg: map<string, Declared>, pkg: string, domain: string, parent: TypeSpec, props: seq<TypeSpec>): Trace<seq<Field>> {
    Collect(PropertyStep(reg, pkg, domain, parent), props)
  }

  /**
   * createType: an enum-shaped spec emits its enum; an object-shaped one emits the enums its
   * properties synthesize and then its class; any other spec emits nothing.
   */
  function TypeTrace(reg: map<string, Declared>, pkg: string, domain: string, t: TypeSpec): Trace<()> {
    if IsEnum(t) then Trace([EnumDecl(pkg, domain, t)], Ok(()))
    else if IsObject(t) then
      var fs := PropertiesTrace(reg, pkg, domain, t, t.properties);
      if fs.outcome.Err? then Trace(fs.emitted, Err(fs.outcome.error))
      else Trace(fs.emitted + [Decl(Package(pkg, t, domain), ObjectBodyOf(t.id, t.properties, fs.outcome.value))], Ok(()))
    else Trace([], Ok(()))
  }

  function TypeStep(reg: map<string, Declared>, pkg: string, domain: string): TypeSpec -> Trace<()> {
    t => TypeTrace(reg, pkg, domain, t)
  }

  /** The loop over a domain's declared types, in order. */
  function TypesTrace(reg: map<string, Declared>, pkg: string, domain: string, types: seq<TypeSpec>): Trace<()> {
    Fold(TypeStep(reg, pkg, domain), Skip(), (), types)
  }

  /** One command of createCommand: its Response class, then its Request class, then its method. */
  function CommandTrace(reg: map<string, Declared>, pkg: string, domain: string, c: Command): Trace<CommandMethod> {
    var rs, qs := ResponseSpec(c), RequestSpec(c);
    var resp := if |c.returnValues| == 0 then Trace([], Ok(())) else TypeTrace(reg, pkg, domain, rs);
    if resp.outcome.Err? then Trace(resp.emitted, Err(resp.outcome.error))
    else
      var req := if |c.parameters| == 0 then Trace([], Ok(())) else TypeTrace(reg, pkg, domain, qs);
      var m := CommandMethodOf(domain, c,
                               if |c.returnValues| == 0 then None else Some(Qualified(pkg, rs, domain)),
                               if |c.parameters| == 0 then None else Some(Qualified(pkg, qs, domain)));
      Trace(resp.emitted + req.emitted, if req.outcome.Err? then Err(req.outcome.error) else Ok(m))
  }

  function CommandStep(reg: map<string, Declared>, pkg: string, domain: string): Command -> Trace<CommandMethod> {
    c => CommandTrace(reg, pkg, domain, c)
  }

  /** The loop over a domain's commands: one method per command, in order. */
  function CommandsTrace(reg: map<string, Declared>, pkg: string, domain: string, cs: seq<Command>): Trace<seq<CommandMethod>> {
    Collect(CommandStep(reg, pkg, domain), cs)
  }

  /** createCommand: the files its commands synthesize, then the domain's wrapper class. */
  function DomainClassTrace(reg: map<string, Declared>, pkg: string, conn: string, d: Domain): Trace<()> {
    var cmds := CommandsTrace(reg, pkg, d.name, d.commands);
    if cmds.outcome.Err? then Trace(cmds.emitted, Err(cmds.outcome.error))
    else Trace(cmds.emitted + [Decl(pkg + ".domain", DomainBody(d.name, conn, cmds.outcome.value))], Ok(()))
  }

  /** One event of createEvent: its payload class when it has parameters, and its map entry. */
  function EventTrace(reg: map<string, Declared>, pkg: string, domain: string, e: Event): Trace<EventEntry> {
    var key := WireId(domain, e.name);
    if |e.parameters| == 0 then Trace([], Ok(EventEntry(key, None)))
    else
      var es := EventSpec(e);
      var r := TypeTrace(reg, pkg, domain, es);
      if r.outcome.Err? then Trace(r.emitted, Err(r.outcome.error))
      else Trace(r.emitted, Ok(EventEntry(key, Some(Qualified(pkg, es, domain)))))
  }

  function EventStep(reg: map<string, Declared>, pkg: string, domain: string): Event -> Trace<EventEntry> {
    e => EventTrace(reg, pkg, domain, e)
  }

  /** createEvent: the domain's events, in order, put into an ordered map. */
  function EventsTrace(reg: map<string, Declared>, pkg: string, domain: string, events: seq<Event>): Trace<seq<EventEntry>> {
    Fold(EventStep(reg, pkg, domain), PutEntry(), [], events)
  }

  /** Pass 2 on one domain: its declared types, then its commands, then its events. */
  function DomainTrace(reg: map<string, Declared>, pkg: string, conn: string, d: Domain): Trace<seq<EventEntry>> {
    var ts := TypesTrace(reg, pkg, d.name, d.types);
    if ts.outcome.Err? then Trace(ts.emitted, Err(ts.outcome.error))
    else
      var cl := DomainClassTrace(reg, pkg, conn, d);
      if cl.outcome.Err? then Trace(ts.emitted + cl.emitted, Err(cl.outcome.error))
      else
        var ev := EventsTrace(reg, pkg, d.name, d.events);
        Trace(ts.emitted + cl.emitted + ev.emitted, ev.outcome)
  }

  function DomainStep(reg: map<string, Declared>, pkg: string, conn: string): Domain -> Trace<seq<EventEntry>> {
    d => DomainTrace(reg, pkg, conn, d)
  }

  /** Pass 2: the domains in merged order, each domain's events merged into one ordered map. */
  function DomainsTrace(reg: map<string, Declared>, pkg: string, conn: string, ds: seq<Domain>): Trace<seq<EventEntry>> {
    Fold(DomainStep(reg, pkg, conn), PutEntries(), [], ds)
  }

  /** What a run leaves behind: the files written, the outcome, and the registry. */
  datatype RunResult = RunResult(trace: Trace<()>, registry: map<string, Declared>)

  /**
   * execute: check the versions, write the marker interface, merge the domains (browser
   * first), register every declared type (pass 1), generate every domain (pass 2), and
   * write the event registry.
   */
  function Run(reg0: map<string, Declared>, pkg: string, conn: string, browser: Document, js: Document): RunResult {
    if !VersionEquals(browser.version, js.version) then RunResult(Trace([], Err(VersionMismatch)), reg0)
    else
      var ds := browser.domains + js.domains;
      var reg := Register(reg0, Declarations(ds));
      var t := DomainsTrace(reg, pkg, conn, ds);
      if t.outcome.Err? then RunResult(Trace([MarkerDecl(pkg)] + t.emitted, Err(t.outcome.error)), reg)
      else RunResult(Trace([MarkerDecl(pkg)] + t.emitted + [EventRegistryDecl(pkg, t.outcome.value)], Ok(())), reg)
  }

  /* What one step writes and yields. */

  /** getType writes nothing but the inline enum it synthesized, into the current domain's constant package. */
  lemma ResolveTraceEmitsEnum(reg: map<string, Declared>, pkg: string, domain: string, prop: TypeSpec, parentId: string)
    ensures var t := ResolveTrace(reg, pkg, domain, prop, parentId);
      t.emitted != [] ==> t.emitted[0].pkg == pkg + ".constant." + Lower(domain) && t.emitted[0].body.EnumBody?
  {
    var r := ResolveProperty(reg, pkg, domain, prop, parentId);
    if r.Ok? && r.value.pending.Some? {
      var e := r.value.pending.value;
      assert IsEnum(e);
      assert ResolveTrace(reg, pkg, domain, prop, parentId).emitted == [EnumDecl(pkg, domain, e)];
    }
  }

  /** A property's field: named after the property, typed with what getType returns for it. */
  lemma PropertyTraceField(reg: map<string, Declared>, pkg: string, domain: string, parent: TypeSpec, prop: TypeSpec)
    ensures var t := PropertyTrace(reg, pkg, domain, parent, prop);
      t.outcome.Ok? <==>
        prop.name.Some? && ResolveProperty(reg, pkg, domain, prop, parent.id).Ok?
    ensures var t := PropertyTrace(reg, pkg, domain, parent, prop);
      t.outcome.Ok? ==>
        t.outcome.value.name == FieldName(prop.name.value) &&
        t.outcome.value.typeName == ResolveProperty(reg, pkg, domain, prop, parent.id).value.name
  {
  }

  /**
   * createObject's first loop writes only the enums its properties synthesize: at most one
   * per property, each in the current domain's constant package.
   */
  lemma PropertiesTraceEmitsEnums(reg: map<string, Declared>, pkg: string, domain: string, parent: TypeSpec, props: seq<TypeSpec>)
    ensures var fs := PropertiesTrace(reg, pkg, domain, parent, props);
      |fs.emitted| <= |props| &&
      forall d :: d in fs.emitted ==> d.pkg == pkg + ".constant." + Lower(domain) && d.body.EnumBody?
  {
    var step := PropertyStep(reg, pkg, domain, parent);
    var p := (d: Decl) => d.pkg == pkg + ".constant." + Lower(domain) && d.body.EnumBody?;
    forall i, d | 0 <= i < |props| && d in step(props[i]).emitted
      ensures p(d)
    {
      ResolveTraceEmitsEnum(reg, pkg, domain, props[i], parent.id);
    }
    FoldEmitsOnly(step, Append(), [], props, p);
    FoldEmitsAtMostOneEach(step, Append(), [], props);
  }

  /**
   * createType: an enum-shaped spec yields exactly its enum file; an object-shaped one ends
   * with its class file in the entity package; any other spec writes nothing.
   */
  lemma TypeTraceShape(reg: map<string, Declared>, pkg: string, domain: string, t: TypeSpec)
    ensures !IsEnum(t) && !IsObject(t) ==> TypeTrace(reg, pkg, domain, t) == Trace([], Ok(()))
    ensures IsEnum(t) ==> TypeTrace(reg, pkg, domain, t) == Trace([EnumDecl(pkg, domain, t)], Ok(()))
    ensures IsEnum(t) ==> EnumDecl(pkg, domain, t).pkg == pkg + ".constant." + Lower(domain)
    ensures var r := TypeTrace(reg, pkg, domain, t);
      IsObject(t) && r.outcome.Ok? ==>
        |r.emitted| >= 1 && r.emitted[|r.emitted| - 1].pkg == pkg + ".entity." + Lower(domain) &&
        r.emitted[|r.emitted| - 1].body.ClassBody? && r.emitted[|r.emitted| - 1].body.id == t.id
  {
    assert IsObject(t) ==> !IsEnum(t);
  }

  /**
   * createType on an object-shaped spec: every file before its class (all its files, when it
   * fails) is what its first property loop writes, so an enum one of its properties
   * synthesized, in the current domain's constant package, at most one per property.
   */
  lemma TypeTraceObjectFiles(reg: map<string, Declared>, pkg: string, domain: string, t: TypeSpec)
    requires IsObject(t)
    ensures var r := TypeTrace(reg, pkg, domain, t);
      var before := if r.outcome.Ok? && r.emitted != [] then r.emitted[..|r.emitted| - 1] else r.emitted;
      before == PropertiesTrace(reg, pkg, domain, t, t.properties).emitted &&
      |before| <= |t.properties| &&
      forall k :: 0 <= k < |before| ==> before[k].pkg == pkg + ".constant." + Lower(domain) && before[k].body.EnumBody?
  {
    assert !IsEnum(t);
    PropertiesTraceEmitsEnums(reg, pkg, domain, t, t.properties);
    var fs := PropertiesTrace(reg, pkg, domain, t, t.properties);
    var r := TypeTrace(reg, pkg, domain, t);
    if r.outcome.Ok? {
      assert r.emitted[..|r.emitted| - 1] == fs.emitted;
    }
  }

  /** One command's method: its wire id, and a Request / Response class exactly when it has parameters / returns. */
  lemma CommandTraceMethod(reg: map<string, Declared>, pkg: string, domain: string, c: Command)
    ensures var t := CommandTrace(reg, pkg, domain, c);
      t.outcome.Ok? ==>
        var m := t.outcome.value;
        m.name == c.name && m.wireId == WireId(domain, c.name) &&
        m.returnType == (if |c.returnValues| == 0 then FutureType
                         else FutureType + "<" + Qualified(pkg, ResponseSpec(c), domain) + ">") &&
        (m.request.Some? <==> |c.parameters| > 0) &&
        (m.request.Some? ==> m.request.value == Qualified(pkg, RequestSpec(c), domain)) &&
        (m.responseClass.Some? <==> |c.returnValues| > 0) &&
        (m.responseClass.Some? ==> m.responseClass.value == Qualified(pkg, ResponseSpec(c), domain))
  {
  }

  /**
   * createCommand ends with the domain's wrapper class over the given connection: method i is
   * the method of command i, named after it and sending its wire id.
   */
  lemma DomainClassTraceWrapper(reg: map<string, Declared>, pkg: string, conn: string, d: Domain)
    ensures var t := DomainClassTrace(reg, pkg, conn, d);
      t.outcome.Ok? ==>
        |t.emitted| >= 1 &&
        var last := t.emitted[|t.emitted| - 1];
        last.pkg == pkg + ".domain" && last.body.DomainBody? &&
        last.body.name == d.name && last.body.connection == conn && |last.body.methods| == |d.commands| &&
        forall i :: 0 <= i < |d.commands| ==>
          CommandTrace(reg, pkg, d.name, d.commands[i]).outcome == Ok(last.body.methods[i]) &&
          last.body.methods[i].name == d.commands[i].name &&
          last.body.methods[i].wireId == WireId(d.name, d.commands[i].name)
  {
    var step := CommandStep(reg, pkg, d.name);
    CollectValues(step, d.commands);
    forall i | 0 <= i < |d.commands|
      ensures var c := CommandTrace(reg, pkg, d.name, d.commands[i]);
        c.outcome.Ok? ==> c.outcome.value.name == d.commands[i].name && c.outcome.value.wireId == WireId(d.name, d.commands[i].name)
    {
      CommandTraceMethod(reg, pkg, d.name, d.commands[i]);
    }
  }

  /** One event's entry: keyed by its wire id, with a payload class exactly when it has parameters. */
  lemma EventTraceEntry(reg: map<string, Declared>, pkg: string, domain: string, e: Event)
    ensures var t := EventTrace(reg, pkg, domain, e);
      t.outcome.Ok? ==>
        t.outcome.value.key == WireId(domain, e.name) && (t.outcome.value.payload.None? <==> |e.parameters| == 0)
    ensures var t := EventTrace(reg, pkg, domain, e);
      t.outcome.Ok? && |e.parameters| > 0 ==> t.outcome.value.payload == Some(Qualified(pkg, EventSpec(e), domain))
    ensures |e.parameters| == 0 ==> EventTrace(reg, pkg, domain, e) == Trace([], Ok(EventEntry(WireId(domain, e.name), None)))
  {
  }
}
