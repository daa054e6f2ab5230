/** catpip's merge of per-module Pipfiles into one: every module's parsed
    Pipfile is folded, in command-line order, into three tables (`release` for
    the `packages` section, `build` for `dev-packages`, `requirements` for
    `requires`) by `update_section`, whose policy is: a new name is inserted as
    given, a wildcard on either side of a conflict makes the entry "*" and ends
    the section, and otherwise the numerically larger version is kept. */
module Catpip {
  import opened Versions
  import opened Tables

  /** One `name = "version"` line of a section. */
  datatype Entry = Entry(name: string, version: string)

  /** A section of a parsed Pipfile, in document order. */
  type Section = seq<Entry>

  /** A parsed Pipfile: section name to section. */
  type Document = map<string, Section>

  datatype Option<T> = None | Some(value: T)

  const Packages: string := "packages"
  const DevPackages: string := "dev-packages"
  const Requires: string := "requires"

  predicate SectionWF(a: Section) {
    forall i :: 0 <= i < |a| ==> WellFormed(a[i].version)
  }

  predicate TableWF(t: Dict) {
    forall k :: k in t.values ==> WellFormed(t.values[k])
  }

  function Names(a: Section): set<string> {
    set i | 0 <= i < |a| :: a[i].name
  }

  /** The keys of a TOML table are unique. */
  predicate DistinctNames(a: Section) {
    forall i, j :: 0 <= i < j < |a| ==> a[i].name != a[j].name
  }

  lemma SectionTail(a: Section)
    requires a != []
    ensures SectionWF(a) ==> SectionWF(a[1..])
    ensures Names(a) == {a[0].name} + Names(a[1..])
  {
    assert forall i :: 0 < i < |a| ==> a[i] == a[1..][i - 1];
    forall k | k in Names(a) ensures k in {a[0].name} + Names(a[1..]) {
      var i :| 0 <= i < |a| && a[i].name == k;
      if i > 0 { assert a[1..][i - 1].name == k; }
    }
  }

  // ---------------------------------------------------------------------------
  // update_section as a function of the table it starts from

  /** After one entry: go on with the next, or leave the section. */
  datatype Outcome = Continue(table: Dict) | Stop(table: Dict)

  /** One pass of `update_section`'s loop body for entry `e`. */
  function Absorb(e: Entry, t: Dict): (o: Outcome)
    requires WellFormed(e.version) && TableWF(t)
    ensures TableWF(o.table)
    ensures t.Valid() ==> o.table.Valid()
  {
    if e.name !in t.values then Continue(t.Set(e.name, e.version))
    else if t.values[e.name] == Wildcard || e.version == Wildcard then Stop(t.Set(e.name, Wildcard))
    else if t.values[e.name] != e.version && VersionLess(t.values[e.name], e.version) then
      Continue(t.Set(e.name, e.version))
    else Continue(t)
  }

  /** The table `update_section` leaves after processing section `a`. */
  function Merge(a: Section, t: Dict): (r: Dict)
    requires SectionWF(a) && TableWF(t)
    ensures TableWF(r)
    ensures t.Valid() ==> r.Valid()
    decreases |a|
  {
    if a == [] then t
    else
      SectionTail(a);
      match Absorb(a[0], t)
      case Stop(u) => u
      case Continue(u) => Merge(a[1..], u)
  }

  /** Processing section `a` from `t` ends at a wildcard conflict. */
  predicate Stopped(a: Section, t: Dict)
    requires SectionWF(a) && TableWF(t)
    decreases |a|
  {
    a != [] &&
    (SectionTail(a);
     match Absorb(a[0], t)
     case Stop(_) => true
     case Continue(u) => Stopped(a[1..], u))
  }

  /** `update_section(parse, section, table)`. The loop leaves through the
      `return` on a wildcard conflict. */
  method UpdateSection(parse: Document, section: string, table: Table)
    requires section in parse && SectionWF(parse[section])
    requires table.Valid() && TableWF(table.Model())
    modifies table
    ensures table.Valid() && TableWF(table.Model())
    ensures table.Model() == Merge(parse[section], old(table.Model()))
  {
    var entries := parse[section];
    for i := 0 to |entries|
      invariant table.Valid() && TableWF(table.Model())
      invariant Merge(entries[i..], table.Model()) == Merge(entries, old(table.Model()))
    {
      assert entries[i..][0] == entries[i] && entries[i..][1..] == entries[i + 1..];
      ghost var before := table.Model();
      var name := entries[i].name;
      if name in table.values {
        var current := table.values[name];
        var incoming := entries[i].version;
        if current == "*" || incoming == "*" {
          table.Put(name, "*");
          assert Absorb(entries[i], before) == Stop(table.Model());
          return;
        }
        if current != incoming {
          var l := ExpandVersion(current);
          var r := ExpandVersion(incoming);
          ExpandedFields(current);
          ExpandedFields(incoming);
          if ParsedLess(l, r) {
            table.Put(name, incoming);
          }
        }
      } else {
        table.Put(name, entries[i].version);
      }
    }
  }

  // ---------------------------------------------------------------------------
  // What update_section guarantees

  /** Early exit: a section's result is that of its first part when the
      first part already ended at a wildcard conflict, and otherwise the
      second part continues from the first part's result. */
  lemma {:induction false} MergeSplit(p: Section, q: Section, t: Dict)
    requires SectionWF(p) && SectionWF(q) && TableWF(t)
    ensures SectionWF(p + q)
    ensures Merge(p + q, t) == if Stopped(p, t) then Merge(p, t) else Merge(q, Merge(p, t))
    decreases |p|
  {
    assert forall i :: 0 <= i < |p + q| ==> (p + q)[i] == if i < |p| then p[i] else q[i - |p|];
    if p == [] {
      assert p + q == q;
    } else {
      assert (p + q)[0] == p[0];
      assert (p + q)[1..] == p[1..] + q;
      SectionTail(p);
      match Absorb(p[0], t)
      case Stop(_) =>
      case Continue(u) => MergeSplit(p[1..], q, u);
    }
  }

  /** Keys are never removed and never reordered; only names of the section
      are added; and a section that runs to its end leaves every one of its
      names in the table. */
  lemma {:induction false} MergeKeys(a: Section, t: Dict)
    requires SectionWF(a) && TableWF(t)
    ensures t.keys <= Merge(a, t).keys
    ensures t.values.Keys <= Merge(a, t).values.Keys <= t.values.Keys + Names(a)
    ensures !Stopped(a, t) ==> Merge(a, t).values.Keys == t.values.Keys + Names(a)
    decreases |a|
  {
    if a != [] {
      SectionTail(a);
      match Absorb(a[0], t)
      case Stop(u) =>
      case Continue(u) => MergeKeys(a[1..], u);
    }
  }

  /** The names of `a` not in `known`, in document order, each once: the
      order in which a full pass appends them to the table. */
  function NewNames(a: Section, known: set<string>): seq<string>
    decreases |a|
  {
    if a == [] then []
    else if a[0].name in known then NewNames(a[1..], known)
    else [a[0].name] + NewNames(a[1..], known + {a[0].name})
  }

  /** A section that runs to its end appends its new names after the old
      keys, in document order and each once; this is the order in which
      `print_pipfile` lists them. */
  lemma {:induction false} MergeOrder(a: Section, t: Dict)
    requires SectionWF(a) && TableWF(t) && !Stopped(a, t)
    ensures Merge(a, t).keys == t.keys + NewNames(a, t.values.Keys)
    decreases |a|
  {
    if a != [] {
      SectionTail(a);
      var u := Absorb(a[0], t).table;
      assert Absorb(a[0], t) == Continue(u);
      MergeOrder(a[1..], u);
      AbsorbKeys(a[0], t);
      NewNamesStep(a, t.keys, t.values.Keys, u.keys, u.values.Keys);
    }
  }

  /** One entry's contribution to `NewNames`, as `AbsorbKeys` describes it. */
  lemma NewNamesStep(a: Section, keys: seq<string>, known: set<string>, keys': seq<string>, known': set<string>)
    requires a != []
    requires a[0].name in known ==> keys' == keys && known' == known
    requires a[0].name !in known ==> keys' == keys + [a[0].name] && known' == known + {a[0].name}
    ensures keys + NewNames(a, known) == keys' + NewNames(a[1..], known')
  {
    if a[0].name !in known {
      assert (keys + [a[0].name]) + NewNames(a[1..], known') == keys + ([a[0].name] + NewNames(a[1..], known'));
    }
  }

  /** One iteration that goes on leaves the keys alone when the name is
      known and appends it otherwise. */
  lemma AbsorbKeys(e: Entry, t: Dict)
    requires WellFormed(e.version) && TableWF(t)
    ensures e.name in t.values ==>
              Absorb(e, t).table.keys == t.keys && Absorb(e, t).table.values.Keys == t.values.Keys
    ensures e.name !in t.values ==>
              Absorb(e, t).table.keys == t.keys + [e.name] &&
              Absorb(e, t).table.values.Keys == t.values.Keys + {e.name}
  {
  }

  /** A name the section does not mention keeps its presence and its value. */
  lemma {:induction false} MergeElsewhere(a: Section, t: Dict, k: string)
    requires SectionWF(a) && TableWF(t) && k !in Names(a)
    ensures k in Merge(a, t).values <==> k in t.values
    ensures k in t.values ==> Merge(a, t).values[k] == t.values[k]
    decreases |a|
  {
    if a != [] {
      SectionTail(a);
      match Absorb(a[0], t)
      case Stop(u) =>
      case Continue(u) => MergeElsewhere(a[1..], u, k);
    }
  }

  lemma AbsorbMonotone(e: Entry, t: Dict)
    requires WellFormed(e.version) && TableWF(t)
    ensures forall k :: k in t.values ==>
              k in Absorb(e, t).table.values && Dominates(Absorb(e, t).table.values[k], t.values[k])
  {
    var u := Absorb(e, t).table;
    forall k | k in t.values ensures k in u.values && Dominates(u.values[k], t.values[k]) {
      DominatesOrder(t.values[k], t.values[k], t.values[k]);
      if k == e.name && u.values[k] != t.values[k] && u.values[k] != Wildcard {
        VersionLessIsStrictTotal(t.values[k], e.version, e.version);
      }
    }
  }

  /** Monotonic maximum: every recorded version stays where it was or rises;
      a recorded wildcard stays a wildcard. */
  lemma {:induction false} MergeMonotone(a: Section, t: Dict)
    requires SectionWF(a) && TableWF(t)
    ensures forall k :: k in t.values ==>
              k in Merge(a, t).values && Dominates(Merge(a, t).values[k], t.values[k])
    ensures forall k :: k in t.values && t.values[k] == Wildcard ==> Merge(a, t).values[k] == Wildcard
    decreases |a|
  {
    var r := Merge(a, t);
    if a == [] {
      forall k | k in t.values ensures Dominates(r.values[k], t.values[k]) {
        DominatesOrder(t.values[k], t.values[k], t.values[k]);
      }
    } else {
      SectionTail(a);
      var u := Absorb(a[0], t).table;
      AbsorbMonotone(a[0], t);
      if Absorb(a[0], t).Continue? {
        MergeMonotone(a[1..], u);
        forall k | k in t.values ensures Dominates(r.values[k], t.values[k]) {
          DominatesOrder(r.values[k], u.values[k], t.values[k]);
        }
      }
    }
    forall k | k in t.values && t.values[k] == Wildcard ensures r.values[k] == Wildcard {
      DominatesOrder(r.values[k], Wildcard, Wildcard);
    }
  }

  /** One iteration for entry `e` from a table `s` that agrees with `t` on
      `e.name`, described in terms of `t`. */
  lemma AbsorbAgreeing(e: Entry, s: Dict, t: Dict)
    requires WellFormed(e.version) && TableWF(s) && TableWF(t)
    requires e.name in s.values <==> e.name in t.values
    requires e.name in t.values ==> s.values[e.name] == t.values[e.name]
    ensures e.name in Absorb(e, s).table.values
    ensures e.name !in t.values ==> Absorb(e, s).Continue? && Absorb(e, s).table.values[e.name] == e.version
    ensures e.name in t.values && (t.values[e.name] == Wildcard || e.version == Wildcard) ==>
              Absorb(e, s).Stop? && Absorb(e, s).table.values[e.name] == Wildcard
    ensures e.name in t.values && t.values[e.name] != Wildcard && e.version != Wildcard ==>
              Absorb(e, s).Continue? &&
              Absorb(e, s).table.values[e.name] ==
                if VersionLess(t.values[e.name], e.version) then e.version else t.values[e.name]
  {
  }

  /** How section `a` settles the name of its entry `a[i]`, when the section
      has not ended before reaching it: a new name gets the entry's version;
      a wildcard on either side gives "*" and ends the section there (the
      entries after `a[i]` change nothing); otherwise the numerically larger
      version wins, the recorded one on a tie. */
  lemma MergeOutcome(a: Section, t: Dict, i: nat)
    requires SectionWF(a) && TableWF(t) && DistinctNames(a)
    requires i < |a| && !Stopped(a[..i], t)
    ensures a[i].name in Merge(a, t).values
    ensures a[i].name !in t.values ==> Merge(a, t).values[a[i].name] == a[i].version
    ensures a[i].name in t.values && (t.values[a[i].name] == Wildcard || a[i].version == Wildcard) ==>
              Merge(a, t).values[a[i].name] == Wildcard && Merge(a, t) == Merge(a[..i + 1], t)
    ensures a[i].name in t.values && t.values[a[i].name] != Wildcard && a[i].version != Wildcard ==>
              Merge(a, t).values[a[i].name] ==
                if VersionLess(t.values[a[i].name], a[i].version) then a[i].version else t.values[a[i].name]
  {
    var e, p, q, rest := a[i], a[..i], a[i..], a[i + 1..];
    assert SectionWF(p) && SectionWF(q) && SectionWF(rest);
    var s := Merge(p, t);
    assert Merge(a, t) == Merge(q, s) by {
      assert a == p + q;
      MergeSplit(p, q, t);
    }
    assert e.name !in Names(p) && e.name !in Names(rest);
    MergeElsewhere(p, t, e.name);
    var o := Absorb(e, s);
    AbsorbAgreeing(e, s, t);
    assert Merge(q, s) == if o.Stop? then o.table else Merge(rest, o.table) by {
      assert q != [] && q[0] == e && q[1..] == rest;
    }
    if o.Stop? {
      assert Merge(a[..i + 1], t) == Merge([e], s) by {
        assert a[..i + 1] == p + [e];
        MergeSplit(p, [e], t);
      }
      assert Merge([e], s) == o.table by {
        assert [e][0] == e;
      }
    } else {
      MergeElsewhere(rest, o.table, e.name);
    }
  }

  /** The `return` after a wildcard conflict also skips the names after it:
      one that the table did not hold before the section is not inserted. */
  lemma LaterNamesDropped(a: Section, t: Dict, i: nat, j: nat)
    requires SectionWF(a) && TableWF(t) && DistinctNames(a)
    requires i < j < |a| && !Stopped(a[..i], t)
    requires a[i].name in t.values && (t.values[a[i].name] == Wildcard || a[i].version == Wildcard)
    requires a[j].name !in t.values
    ensures a[j].name !in Merge(a, t).values
  {
    MergeOutcome(a, t, i);
    var p := a[..i + 1];
    assert SectionWF(p);
    MergeKeys(p, t);
    assert a[j].name !in Names(p);
  }

  // ---------------------------------------------------------------------------
  // exec: the fold over the modules

  /** What the three tables hold. */
  datatype State = State(release: Dict, build: Dict, requirements: Dict)

  const Start: State := State(Empty, Empty, Empty)

  predicate StateWF(s: State) {
    TableWF(s.release) && TableWF(s.build) && TableWF(s.requirements)
  }

  /** A module's Pipfile that `exec` can fold: the three sections are present
      (the source raises KeyError otherwise) and hold version strings. */
  predicate Loadable(d: Document) {
    && Packages in d && DevPackages in d && Requires in d
    && SectionWF(d[Packages]) && SectionWF(d[DevPackages]) && SectionWF(d[Requires])
  }

  /** A module whose Pipfile is missing is `None`. */
  predicate AllLoadable(ms: seq<Option<Document>>) {
    forall i :: 0 <= i < |ms| && ms[i].Some? ==> Loadable(ms[i].value)
  }

  /** `update_release`, `update_build` and `update_requires` in turn. */
  function FoldModule(d: Document, s: State): (r: State)
    requires Loadable(d) && StateWF(s)
    ensures StateWF(r)
  {
    State(Merge(d[Packages], s.release), Merge(d[DevPackages], s.build), Merge(d[Requires], s.requirements))
  }

  /** The tables after folding the modules `ms`, in order. */
  function Fold(ms: seq<Option<Document>>, s: State): (r: State)
    requires AllLoadable(ms) && StateWF(s)
    ensures StateWF(r)
    decreases |ms|
  {
    if ms == [] then s
    else
      assert AllLoadable(ms[1..]) by {
        assert forall i :: 0 < i < |ms| ==> ms[1..][i - 1] == ms[i];
      }
      var next := match ms[0] case None => s case Some(d) => FoldModule(d, s);
      Fold(ms[1..], next)
  }

  ghost predicate Grows(now: Dict, before: Dict)
    requires TableWF(now) && TableWF(before)
  {
    && before.keys <= now.keys
    && (forall k :: k in before.values ==> k in now.values && Dominates(now.values[k], before.values[k]))
  }

  lemma GrowsOrder(a: Dict, b: Dict, c: Dict)
    requires TableWF(a) && TableWF(b) && TableWF(c)
    ensures Grows(a, a)
    ensures Grows(a, b) && Grows(b, c) ==> Grows(a, c)
  {
    forall k | k in a.values ensures Dominates(a.values[k], a.values[k]) {
      DominatesOrder(a.values[k], a.values[k], a.values[k]);
    }
    if Grows(a, b) && Grows(b, c) {
      forall k | k in c.values ensures Dominates(a.values[k], c.values[k]) {
        DominatesOrder(a.values[k], b.values[k], c.values[k]);
      }
    }
  }

  lemma MergeGrows(a: Section, t: Dict)
    requires SectionWF(a) && TableWF(t)
    ensures Grows(Merge(a, t), t)
  {
    MergeKeys(a, t);
    MergeMonotone(a, t);
  }

  /** Over a whole run, in each of the three tables no key is removed or
      reordered, no recorded version falls, and a wildcard stays a wildcard. */
  lemma {:induction false} FoldGrows(ms: seq<Option<Document>>, s: State)
    requires AllLoadable(ms) && StateWF(s)
    ensures Grows(Fold(ms, s).release, s.release)
    ensures Grows(Fold(ms, s).build, s.build)
    ensures Grows(Fold(ms, s).requirements, s.requirements)
    ensures forall k :: k in s.release.values && s.release.values[k] == Wildcard ==>
              Fold(ms, s).release.values[k] == Wildcard
    ensures forall k :: k in s.build.values && s.build.values[k] == Wildcard ==>
              Fold(ms, s).build.values[k] == Wildcard
    ensures forall k :: k in s.requirements.values && s.requirements.values[k] == Wildcard ==>
              Fold(ms, s).requirements.values[k] == Wildcard
    decreases |ms|
  {
    var r := Fold(ms, s);
    if ms == [] {
      GrowsOrder(s.release, s.release, s.release);
      GrowsOrder(s.build, s.build, s.build);
      GrowsOrder(s.requirements, s.requirements, s.requirements);
    } else {
      assert AllLoadable(ms[1..]) by {
        assert forall i :: 0 < i < |ms| ==> ms[1..][i - 1] == ms[i];
      }
      var next := match ms[0] case None => s case Some(d) => FoldModule(d, s);
      FoldGrows(ms[1..], next);
      match ms[0]
      case None =>
      case Some(d) =>
        MergeGrows(d[Packages], s.release);
        MergeGrows(d[DevPackages], s.build);
        MergeGrows(d[Requires], s.requirements);
        GrowsOrder(r.release, next.release, s.release);
        GrowsOrder(r.build, next.build, s.build);
        GrowsOrder(r.requirements, next.requirements, s.requirements);
    }
    forall k | k in s.release.values && s.release.values[k] == Wildcard
      ensures r.release.values[k] == Wildcard
    {
      DominatesOrder(r.release.values[k], Wildcard, Wildcard);
    }
    forall k | k in s.build.values && s.build.values[k] == Wildcard
      ensures r.build.values[k] == Wildcard
    {
      DominatesOrder(r.build.values[k], Wildcard, Wildcard);
    }
    forall k | k in s.requirements.values && s.requirements.values[k] == Wildcard
      ensures r.requirements.values[k] == Wildcard
    {
      DominatesOrder(r.requirements.values[k], Wildcard, Wildcard);
    }
  }

  /** A Pipfile whose only entry is `name = "version"` under `packages`. */
  function OnePackage(name: string, version: string): Document {
    map[Packages := [Entry(name, version)], DevPackages := [], Requires := []]
  }

  lemma FoldOnePackage(name: string, version: string, s: State)
    requires WellFormed(version) && StateWF(s)
    ensures Loadable(OnePackage(name, version))
    ensures FoldModule(OnePackage(name, version), s) == State(Absorb(Entry(name, version), s.release).table, s.build, s.requirements)
  {
    var d := OnePackage(name, version);
    assert Packages != DevPackages by { assert |Packages| != |DevPackages|; }
    assert Packages != Requires by { assert Packages[0] != Requires[0]; }
    assert DevPackages != Requires by { assert |DevPackages| != |Requires|; }
    assert d[Packages] == [Entry(name, version)] && d[DevPackages] == [] && d[Requires] == [];
    var e := [Entry(name, version)];
    assert e[0] == Entry(name, version) && e[1..] == [];
    assert Merge(e, s.release) == Absorb(Entry(name, version), s.release).table;
    assert Merge([], s.build) == s.build && Merge([], s.requirements) == s.requirements;
  }

  lemma FoldThree(a: Document, b: Document, c: Document, s: State)
    requires Loadable(a) && Loadable(b) && Loadable(c) && StateWF(s)
    ensures AllLoadable([Some(a), Some(b), Some(c)])
    ensures Fold([Some(a), Some(b), Some(c)], s) == FoldModule(c, FoldModule(b, FoldModule(a, s)))
  {
    var ms := [Some(a), Some(b), Some(c)];
    assert AllLoadable(ms);
    assert AllLoadable([Some(b), Some(c)]) && AllLoadable([Some(c)]) && AllLoadable([]);
    var s1 := FoldModule(a, s);
    var s2 := FoldModule(b, s1);
    var s3 := FoldModule(c, s2);
    assert Fold([Some(c)], s2) == s3 by {
      assert [Some(c)][1..] == [];
    }
    assert Fold([Some(b), Some(c)], s1) == Fold([Some(c)], s2) by {
      assert [Some(b), Some(c)][1..] == [Some(c)];
    }
    assert Fold(ms, s) == Fold([Some(b), Some(c)], s1) by {
      assert ms[1..] == [Some(b), Some(c)];
    }
  }

  lemma ExampleVersions()
    ensures Numeric("1.0.0") && Numeric("2.0.0") && Numeric("1.5.0")
    ensures VersionLess("1.0.0", "2.0.0") && !VersionLess("2.0.0", "1.5.0")
  {
    KeyOfOneDigitVersion('1', '0', '0');
    KeyOfOneDigitVersion('2', '0', '0');
    KeyOfOneDigitVersion('1', '5', '0');
  }

  /** An explicit version meeting an explicit recorded one for its name: the
      loop goes on, and the table takes the incoming version when it compares
      strictly greater and is otherwise left as it was. */
  lemma AbsorbExplicit(t: Dict, name: string, incoming: string)
    requires TableWF(t) && name in t.values && Numeric(t.values[name]) && Numeric(incoming)
    ensures Absorb(Entry(name, incoming), t) ==
              Continue(if VersionLess(t.values[name], incoming) then t.Set(name, incoming) else t)
  {
    WildcardIsNotNumeric();
    VersionLessIsStrictTotal(incoming, incoming, incoming);
  }

  /** The two steps of the maximum example, for any versions `lo < hi` and
      `mid` not above `hi`: `hi` replaces `lo`, then `mid` leaves `hi`. */
  lemma MaximumSteps(name: string, lo: string, hi: string, mid: string)
    requires Numeric(lo) && Numeric(hi) && Numeric(mid)
    requires VersionLess(lo, hi) && !VersionLess(hi, mid)
    ensures TableWF(Dict([name], map[name := lo])) && TableWF(Dict([name], map[name := hi]))
    ensures Absorb(Entry(name, hi), Dict([name], map[name := lo])) == Continue(Dict([name], map[name := hi]))
    ensures Absorb(Entry(name, mid), Dict([name], map[name := hi])) == Continue(Dict([name], map[name := hi]))
  {
    var t1, t2 := Dict([name], map[name := lo]), Dict([name], map[name := hi]);
    SetSingleton(name, lo, hi);
    AbsorbExplicit(t1, name, hi);
    AbsorbExplicit(t2, name, mid);
  }

  /** Modules declaring 1.0.0, 2.0.0 and 1.5.0 for one package, in that order,
      leave 2.0.0 recorded. */
  lemma MaximumExample()
    ensures var ms := [Some(OnePackage("x", "1.0.0")), Some(OnePackage("x", "2.0.0")), Some(OnePackage("x", "1.5.0"))];
            AllLoadable(ms) && Fold(ms, Start).release.values == map["x" := "2.0.0"]
  {
    ExampleVersions();
    var t1, t2 := Dict(["x"], map["x" := "1.0.0"]), Dict(["x"], map["x" := "2.0.0"]);
    MaximumSteps("x", "1.0.0", "2.0.0", "1.5.0");
    FoldOnePackage("x", "1.0.0", Start);
    var s1 := FoldModule(OnePackage("x", "1.0.0"), Start);
    assert s1 == State(t1, Empty, Empty);
    FoldOnePackage("x", "2.0.0", s1);
    var s2 := FoldModule(OnePackage("x", "2.0.0"), s1);
    assert s2 == State(t2, Empty, Empty);
    FoldOnePackage("x", "1.5.0", s2);
    var s3 := FoldModule(OnePackage("x", "1.5.0"), s2);
    assert s3 == State(t2, Empty, Empty);
    FoldThree(OnePackage("x", "1.0.0"), OnePackage("x", "2.0.0"), OnePackage("x", "1.5.0"), Start);
  }

  /** A module declaring "*" for a package that an earlier module pinned makes
      it "*", and a later explicit version leaves it "*". */
  lemma WildcardExample()
    ensures var ms := [Some(OnePackage("x", "1.0.0")), Some(OnePackage("x", "*")), Some(OnePackage("x", "2.0.0"))];
            AllLoadable(ms) && Fold(ms, Start).release.values == map["x" := "*"]
  {
    assert Numeric("1.0.0") && Numeric("2.0.0") by {
      KeyOfOneDigitVersion('1', '0', '0');
      KeyOfOneDigitVersion('2', '0', '0');
    }
    var t1, t2 := Dict(["x"], map["x" := "1.0.0"]), Dict(["x"], map["x" := "*"]);
    FoldOnePackage("x", "1.0.0", Start);
    var s1 := FoldModule(OnePackage("x", "1.0.0"), Start);
    assert s1 == State(t1, Empty, Empty);
    FoldOnePackage("x", "*", s1);
    var s2 := FoldModule(OnePackage("x", "*"), s1);
    assert s2 == State(t2, Empty, Empty) by {
      assert Absorb(Entry("x", "*"), t1) == Stop(t2);
    }
    FoldOnePackage("x", "2.0.0", s2);
    var s3 := FoldModule(OnePackage("x", "2.0.0"), s2);
    assert s3 == State(t2, Empty, Empty) by {
      assert Absorb(Entry("x", "2.0.0"), t2) == Stop(t2);
    }
    FoldThree(OnePackage("x", "1.0.0"), OnePackage("x", "*"), OnePackage("x", "2.0.0"), Start);
  }

  /** A wildcard conflict on `x` ends the section: `y`, listed after it and new
      to the table, is not inserted. */
  lemma EarlyExitExample()
    ensures var t := Dict(["x"], map["x" := "*"]);
            var a := [Entry("x", "*"), Entry("y", "*")];
            SectionWF(a) && TableWF(t) && Merge(a, t) == t && "y" !in Merge(a, t).values
  {
    var t := Dict(["x"], map["x" := "*"]);
    var a := [Entry("x", "*"), Entry("y", "*")];
    assert SectionWF(a) && TableWF(t);
    assert Absorb(a[0], t) == Stop(t);
  }

  // ---------------------------------------------------------------------------
  // The module state of catpip

  /** catpip's three module-level tables. */
  class Pipfiles {
    const release: Table
    const build: Table
    const requirements: Table

    ghost predicate Valid()
      reads release, build, requirements
    {
      && release != build && build != requirements && release != requirements
      && release.Valid() && build.Valid() && requirements.Valid()
      && StateWF(Snapshot())
    }

    function Snapshot(): State
      reads release, build, requirements
    {
      State(release.Model(), build.Model(), requirements.Model())
    }

    /** `release = {}`, `build = {}`, `requires = {}` */
    constructor ()
      ensures Valid() && Snapshot() == Start
      ensures fresh(release) && fresh(build) && fresh(requirements)
    {
      release := new Table();
      build := new Table();
      requirements := new Table();
    }

    /** `update_release`: the `packages` section into `release`. */
    method UpdateRelease(parse: Document)
      requires Valid() && Packages in parse && SectionWF(parse[Packages])
      modifies release
      ensures Valid()
      ensures release.Model() == Merge(parse[Packages], old(release.Model()))
      ensures unchanged(build) && unchanged(requirements)
    {
      UpdateSection(parse, "packages", release);
    }

    /** `update_build`: the `dev-packages` section into `build`. */
    method UpdateBuild(parse: Document)
      requires Valid() && DevPackages in parse && SectionWF(parse[DevPackages])
      modifies build
      ensures Valid()
      ensures build.Model() == Merge(parse[DevPackages], old(build.Model()))
      ensures unchanged(release) && unchanged(requirements)
    {
      UpdateSection(parse, "dev-packages", build);
    }

    /** `update_requires`: the `requires` section into `requirements`. */
    method UpdateRequires(parse: Document)
      requires Valid() && Requires in parse && SectionWF(parse[Requires])
      modifies requirements
      ensures Valid()
      ensures requirements.Model() == Merge(parse[Requires], old(requirements.Model()))
      ensures unchanged(release) && unchanged(build)
    {
      UpdateSection(parse, "requires", requirements);
    }

    /** `exec` after the files are read: each module's Pipfile in order, a
        missing one skipped. */
    method Exec(modules: seq<Option<Document>>)
      requires Valid() && AllLoadable(modules)
      modifies release, build, requirements
      ensures Valid() && Snapshot() == Fold(modules, old(Snapshot()))
    {
      for i := 0 to |modules|
        invariant Valid()
        invariant AllLoadable(modules[i..])
        invariant Fold(modules[i..], Snapshot()) == Fold(modules, old(Snapshot()))
      {
        assert modules[i..][0] == modules[i] && modules[i..][1..] == modules[i + 1..];
        match modules[i]
        case None =>
        case Some(parse) =>
          UpdateRelease(parse);
          UpdateBuild(parse);
          UpdateRequires(parse);
      }
    }
  }
}
