/**
 * `ss workspace sync` (bin/index.js:416-507): the dependencies a project
 * declares in its four dependency sections are looked up among the entries of
 * the current workspace, and every declared version that differs from the
 * tracked one is rewritten in the manifest's text by the dependency patcher of
 * bin/utils.js. The result is the patched text, the counts of updated and
 * already-current dependencies, and the list of updates in the order they
 * were made.
 */
module DependencySync {
  import opened Wrappers
  import opened Packages
  import opened TextPatch
  import opened WorkspaceStore

  /** One declared dependency: its name and the version range the manifest gives it. */
  datatype Dep = Dep(name: string, version: string)

  /**
   * The four dependency sections of the parsed manifest, each as the sequence
   * of its keys in `Object.keys` order; an absent section is empty.
   */
  datatype Manifest = Manifest(
    dependencies: seq<Dep>,
    devDependencies: seq<Dep>,
    peerDependencies: seq<Dep>,
    optionalDependencies: seq<Dep>)

  /** One recorded update: `{ name, section, oldVersion, newVersion }`. */
  datatype Update = Update(name: string, section: string, oldVersion: string, newVersion: string)

  /** The variables the section walk updates: the text so far, the two counters and the updates made. */
  datatype Progress = Progress(json: string, updated: nat, skipped: nat, results: seq<Update>)

  // ----- The lookup of tracked versions -----

  /**
   * `workspacePackages`: every entry's name mapped to its version, a later
   * entry overwriting an earlier one with the same name.
   */
  function Table(ps: seq<PackageEntry>): (r: map<string, string>)
    ensures forall k :: 0 <= k < |ps| ==> ps[k].name in r
    ensures ps != [] ==> r[ps[|ps| - 1].name] == ps[|ps| - 1].version
    ensures |r| <= |ps|
  {
    if ps == [] then map[]
    else Table(ps[..|ps| - 1])[ps[|ps| - 1].name := ps[|ps| - 1].version]
  }

  /** The `forEach` that fills `workspacePackages`. */
  method BuildTable(ps: seq<PackageEntry>) returns (t: map<string, string>)
    ensures t == Table(ps)
  {
    t := map[];
    var i := 0;
    while i < |ps|
      invariant 0 <= i <= |ps|
      invariant t == Table(ps[..i])
    {
      assert ps[..i + 1][..i] == ps[..i];
      t := t[ps[i].name := ps[i].version];
      i := i + 1;
    }
    assert ps[..|ps|] == ps;
  }

  /** A name is in the lookup exactly when some entry carries it. */
  lemma {:induction false} TableKeys(ps: seq<PackageEntry>, n: string)
    ensures n in Table(ps) <==> exists k :: 0 <= k < |ps| && ps[k].name == n
  {
    if ps != [] {
      var front := ps[..|ps| - 1];
      TableKeys(front, n);
      if ps[|ps| - 1].name != n {
        if n in Table(front) {
          var k :| 0 <= k < |front| && front[k].name == n;
          assert ps[k].name == n;
        }
        if exists k :: 0 <= k < |ps| && ps[k].name == n {
          var k :| 0 <= k < |ps| && ps[k].name == n;
          assert front[k].name == n;
        }
      }
    }
  }

  /** The last entry carrying a name wins: the lookup maps the name to that entry's version. */
  lemma {:induction false} TableLastWins(ps: seq<PackageEntry>, n: string, k: nat)
    requires k < |ps| && ps[k].name == n
    requires forall j :: k < j < |ps| ==> ps[j].name != n
    ensures n in Table(ps) && Table(ps)[n] == ps[k].version
  {
    if k < |ps| - 1 {
      var front := ps[..|ps| - 1];
      assert front[k] == ps[k];
      forall j | k < j < |front| ensures front[j].name != n {
        assert front[j] == ps[j];
      }
      TableLastWins(front, n, k);
      assert ps[|ps| - 1].name != n;
    }
  }

  /** `if (workspacePackages[depName])`: the name is tracked with a non-empty version. */
  predicate Tracked(t: map<string, string>, name: string) {
    name in t && t[name] != ""
  }

  /** A declared dependency whose tracked version differs from the declared one. */
  predicate Stale(t: map<string, string>, d: Dep) {
    Tracked(t, d.name) && d.version != t[d.name]
  }

  // ----- The walk, step by step -----

  /** What one key of a section does to the walk's variables. */
  function Step(t: map<string, string>, section: string, d: Dep, p: Progress): (r: Progress)
    ensures r.updated + r.skipped == p.updated + p.skipped + (if Tracked(t, d.name) then 1 else 0)
    ensures r.updated == p.updated + (if Stale(t, d) then 1 else 0)
    ensures |r.results| == |p.results| + (r.updated - p.updated) && r.results[..|p.results|] == p.results
    ensures Stale(t, d) ==> r.results[|p.results|] == Update(d.name, section, d.version, t[d.name])
    ensures !Stale(t, d) ==> r.json == p.json
  {
    if !Tracked(t, d.name) then p
    else if d.version != t[d.name] then
      Progress(PatchDependency(p.json, d.name, t[d.name]), p.updated + 1, p.skipped,
               p.results + [Update(d.name, section, d.version, t[d.name])])
    else
      p.(skipped := p.skipped + 1)
  }

  /** The walk over the keys of one section, in order. */
  function SectionRun(t: map<string, string>, section: string, deps: seq<Dep>, p: Progress): (r: Progress)
    ensures p.updated <= r.updated && p.skipped <= r.skipped
    ensures r.updated + r.skipped <= p.updated + p.skipped + |deps|
    ensures |r.results| == |p.results| + (r.updated - p.updated) && r.results[..|p.results|] == p.results
    ensures r.updated == p.updated ==> r.json == p.json
  {
    if deps == [] then p
    else Step(t, section, deps[|deps| - 1], SectionRun(t, section, deps[..|deps| - 1], p))
  }

  /** The walk over the four sections, in the fixed order, from the original text. */
  function Run(t: map<string, string>, m: Manifest, json: string): (r: Progress)
    ensures r.updated == |r.results|
    ensures r.updated + r.skipped <= |m.dependencies| + |m.devDependencies|
      + |m.peerDependencies| + |m.optionalDependencies|
    ensures r.updated == 0 ==> r.json == json
  {
    var p0 := Progress(json, 0, 0, []);
    var p1 := SectionRun(t, "dependencies", m.dependencies, p0);
    var p2 := SectionRun(t, "devDependencies", m.devDependencies, p1);
    var p3 := SectionRun(t, "peerDependencies", m.peerDependencies, p2);
    SectionRun(t, "optionalDependencies", m.optionalDependencies, p3)
  }

  // ----- What the walk computes, stated on its own -----

  /** The updates a section calls for: its stale keys, in order. */
  function Pending(t: map<string, string>, section: string, deps: seq<Dep>): seq<Update>
  {
    if deps == [] then []
    else
      (if Stale(t, deps[0]) then [Update(deps[0].name, section, deps[0].version, t[deps[0].name])] else [])
      + Pending(t, section, deps[1..])
  }

  /** How many keys of a section are tracked at all. */
  function TrackedCount(t: map<string, string>, deps: seq<Dep>): nat
  {
    if deps == [] then 0
    else (if Tracked(t, deps[0].name) then 1 else 0) + TrackedCount(t, deps[1..])
  }

  /** The text after applying the dependency patcher for each update in turn. */
  function ApplyAll(json: string, us: seq<Update>): string
    decreases us
  {
    if us == [] then json
    else ApplyAll(PatchDependency(json, us[0].name, us[0].newVersion), us[1..])
  }

  /** An update is pending exactly when it is made of a stale key of the section and its tracked version. */
  lemma {:induction false} PendingMembers(t: map<string, string>, section: string, deps: seq<Dep>, u: Update)
    ensures u in Pending(t, section, deps) <==>
      exists k :: 0 <= k < |deps| && Stale(t, deps[k])
        && u == Update(deps[k].name, section, deps[k].version, t[deps[k].name])
  {
    if deps != [] {
      PendingMembers(t, section, deps[1..], u);
      if u in Pending(t, section, deps[1..]) {
        var k :| 0 <= k < |deps[1..]| && Stale(t, deps[1..][k])
          && u == Update(deps[1..][k].name, section, deps[1..][k].version, t[deps[1..][k].name]);
        assert deps[k + 1] == deps[1..][k];
      }
      if exists k :: (0 <= k < |deps| && Stale(t, deps[k])
        && u == Update(deps[k].name, section, deps[k].version, t[deps[k].name]))
      {
        var k :| 0 <= k < |deps| && Stale(t, deps[k])
          && u == Update(deps[k].name, section, deps[k].version, t[deps[k].name]);
        if k > 0 {
          assert deps[1..][k - 1] == deps[k];
        }
      }
    }
  }

  /** There are no more pending updates than tracked keys, nor tracked keys than keys. */
  lemma {:induction false} PendingBounds(t: map<string, string>, section: string, deps: seq<Dep>)
    ensures |Pending(t, section, deps)| <= TrackedCount(t, deps) <= |deps|
  {
    if deps != [] {
      PendingBounds(t, section, deps[1..]);
    }
  }

  /** The filter and the count, extended by one key at the end. */
  lemma {:induction false} PendingSnoc(t: map<string, string>, section: string, deps: seq<Dep>, d: Dep)
    ensures Pending(t, section, deps + [d]) ==
      Pending(t, section, deps) + (if Stale(t, d) then [Update(d.name, section, d.version, t[d.name])] else [])
    ensures TrackedCount(t, deps + [d]) == TrackedCount(t, deps) + (if Tracked(t, d.name) then 1 else 0)
  {
    if deps != [] {
      assert (deps + [d])[1..] == deps[1..] + [d];
      PendingSnoc(t, section, deps[1..], d);
    }
  }

  /** Patching through a concatenation of update lists is patching through one, then the other. */
  lemma {:induction false} ApplyAllConcat(json: string, a: seq<Update>, b: seq<Update>)
    ensures ApplyAll(json, a + b) == ApplyAll(ApplyAll(json, a), b)
    decreases a
  {
    if a != [] {
      assert (a + b)[0] == a[0] && (a + b)[1..] == a[1..] + b;
      ApplyAllConcat(PatchDependency(json, a[0].name, a[0].newVersion), a[1..], b);
    } else {
      assert a + b == b;
    }
  }

  /** The walk over a section appends exactly the section's pending updates and counts each as updated. */
  lemma {:induction false} SectionRunResults(t: map<string, string>, section: string, deps: seq<Dep>, p: Progress)
    ensures var r := SectionRun(t, section, deps, p);
      r.results == p.results + Pending(t, section, deps) && r.updated == p.updated + |Pending(t, section, deps)|
  {
    if deps != [] {
      var front := deps[..|deps| - 1];
      var d := deps[|deps| - 1];
      var us := Pending(t, section, front);
      SectionRunResults(t, section, front, p);
      assert deps == front + [d];
      PendingSnoc(t, section, front, d);
      if Stale(t, d) {
        assert p.results + us + [Update(d.name, section, d.version, t[d.name])]
          == p.results + (us + [Update(d.name, section, d.version, t[d.name])]);
      } else {
        assert us + [] == us;
      }
    }
  }

  /** The walk over a section counts every tracked key once, as updated or as skipped. */
  lemma {:induction false} SectionRunCounts(t: map<string, string>, section: string, deps: seq<Dep>, p: Progress)
    ensures var r := SectionRun(t, section, deps, p);
      r.updated + r.skipped == p.updated + p.skipped + TrackedCount(t, deps)
  {
    if deps != [] {
      var front := deps[..|deps| - 1];
      var d := deps[|deps| - 1];
      SectionRunCounts(t, section, front, p);
      assert deps == front + [d];
      PendingSnoc(t, section, front, d);
    }
  }

  /** The walk over a section leaves the text patched by the section's pending updates, in order. */
  lemma {:induction false} SectionRunText(t: map<string, string>, section: string, deps: seq<Dep>, p: Progress)
    ensures SectionRun(t, section, deps, p).json == ApplyAll(p.json, Pending(t, section, deps))
  {
    if deps != [] {
      var front := deps[..|deps| - 1];
      var d := deps[|deps| - 1];
      var q := SectionRun(t, section, front, p);
      var us := Pending(t, section, front);
      SectionRunText(t, section, front, p);
      assert deps == front + [d];
      PendingSnoc(t, section, front, d);
      if Stale(t, d) {
        var u := Update(d.name, section, d.version, t[d.name]);
        ApplyAllConcat(p.json, us, [u]);
        assert ApplyAll(q.json, [u]) == PatchDependency(q.json, d.name, t[d.name]);
      } else {
        assert us + [] == us;
      }
    }
  }

  /**
   * The walk over a section records exactly the section's pending updates,
   * counts each of them as updated and every other tracked key as skipped,
   * and leaves the text patched by those updates, in order.
   */
  lemma SectionRunSummary(t: map<string, string>, section: string, deps: seq<Dep>, p: Progress)
    ensures var r := SectionRun(t, section, deps, p);
      var us := Pending(t, section, deps);
      && r.results == p.results + us
      && r.updated == p.updated + |us|
      && r.updated + r.skipped == p.updated + p.skipped + TrackedCount(t, deps)
      && r.json == ApplyAll(p.json, us)
  {
    SectionRunResults(t, section, deps, p);
    SectionRunCounts(t, section, deps, p);
    SectionRunText(t, section, deps, p);
  }

  /**
   * Over the whole manifest: the updates are those of `dependencies`, then
   * `devDependencies`, then `peerDependencies`, then `optionalDependencies`;
   * the updated count is their number, updated plus skipped is the number of
   * tracked keys, and the text is the original patched by each update in turn.
   */
  lemma RunSummary(t: map<string, string>, m: Manifest, json: string)
    ensures var r := Run(t, m, json);
      var us := Pending(t, "dependencies", m.dependencies)
        + Pending(t, "devDependencies", m.devDependencies)
        + Pending(t, "peerDependencies", m.peerDependencies)
        + Pending(t, "optionalDependencies", m.optionalDependencies);
      && r.results == us
      && r.updated == |us|
      && r.updated + r.skipped == TrackedCount(t, m.dependencies) + TrackedCount(t, m.devDependencies)
           + TrackedCount(t, m.peerDependencies) + TrackedCount(t, m.optionalDependencies)
      && r.json == ApplyAll(json, us)
  {
    var u1 := Pending(t, "dependencies", m.dependencies);
    var u2 := Pending(t, "devDependencies", m.devDependencies);
    var u3 := Pending(t, "peerDependencies", m.peerDependencies);
    var u4 := Pending(t, "optionalDependencies", m.optionalDependencies);
    var p0 := Progress(json, 0, 0, []);
    var p1 := SectionRun(t, "dependencies", m.dependencies, p0);
    var p2 := SectionRun(t, "devDependencies", m.devDependencies, p1);
    var p3 := SectionRun(t, "peerDependencies", m.peerDependencies, p2);
    SectionRunSummary(t, "dependencies", m.dependencies, p0);
    SectionRunSummary(t, "devDependencies", m.devDependencies, p1);
    SectionRunSummary(t, "peerDependencies", m.peerDependencies, p2);
    SectionRunSummary(t, "optionalDependencies", m.optionalDependencies, p3);
    assert [] + u1 == u1;
    ApplyAllConcat(json, u1, u2);
    ApplyAllConcat(json, u1 + u2, u3);
    ApplyAllConcat(json, u1 + u2 + u3, u4);
  }

  /**
   * The patcher is given only the dependency's name: patching the same name
   * twice with the same version rewrites the first occurrence in the text
   * once more, and so changes nothing.
   */
  lemma RepeatedNameLeavesText(json: string, name: string, v: string)
    requires '"' !in name && '"' !in v
    ensures var once := PatchDependency(json, name, v);
      PatchDependency(once, name, v) == once
  {
    PatchIdempotent(json, name, v);
  }

  /**
   * A name declared stale in two sections: both keys are counted and reported
   * as updates, but only the first occurrence of the name in the text is
   * rewritten, whichever section it sits in; everything after that value,
   * any later occurrence included, keeps its old text, and the second key
   * leaves the text as the first one left it.
   */
  lemma LaterDuplicateCountedNotWritten(t: map<string, string>, s1: string, s2: string,
                                        d1: Dep, d2: Dep, p: Progress)
    requires d1.name == d2.name && Stale(t, d1) && Stale(t, d2)
    requires '"' !in d1.name && '"' !in t[d1.name]
    ensures var p1 := Step(t, s1, d1, p);
      var p2 := Step(t, s2, d2, p1);
      && p2.updated == p.updated + 2
      && p2.results == p.results + [Update(d1.name, s1, d1.version, t[d1.name]),
                                    Update(d2.name, s2, d2.version, t[d2.name])]
      && p2.json == p1.json
      && (FirstMatch(p.json, d1.name, 0).Some? ==>
            var h := FirstMatch(p.json, d1.name, 0).value;
            && FirstValue(p2.json, d1.name) == Some(t[d1.name])
            && h.start + |t[d1.name]| <= |p2.json|
            && p2.json[..h.start] == p.json[..h.start]
            && p2.json[h.start + |t[d1.name]|..] == p.json[h.end..])
  {
    RepeatedNameLeavesText(p.json, d1.name, t[d1.name]);
  }

  // ----- The command -----

  /** The variables `updateDependencySection` closes over, and the helper itself. */
  class SyncRun {
    const table: map<string, string>
    var json: string
    var updated: nat
    var skipped: nat
    var results: seq<Update>

    function State(): Progress
      reads this
    {
      Progress(json, updated, skipped, results)
    }

    /** Counters at zero, no updates, the text as read from the manifest. */
    constructor (table: map<string, string>, json: string)
      ensures this.table == table && State() == Progress(json, 0, 0, [])
    {
      this.table := table;
      this.json := json;
      updated := 0;
      skipped := 0;
      results := [];
    }

    /** The `forEach` callback for one key `depName` of section `section`. */
    method Visit(section: string, d: Dep)
      modifies this
      ensures State() == Step(table, section, d, old(State()))
    {
      if d.name in table && table[d.name] != "" {
        var newVersion := table[d.name];
        if d.version != newVersion {
          json := PatchDependency(json, d.name, newVersion);
          updated := updated + 1;
          results := results + [Update(d.name, section, d.version, newVersion)];
        } else {
          skipped := skipped + 1;
        }
      }
    }

    /** `updateDependencySection(sectionName, dependencies)`: the walk over one section's keys. */
    method UpdateSection(section: string, deps: seq<Dep>)
      modifies this
      ensures State() == SectionRun(table, section, deps, old(State()))
    {
      var i := 0;
      while i < |deps|
        invariant 0 <= i <= |deps|
        invariant State() == SectionRun(table, section, deps[..i], old(State()))
      {
        assert deps[..i + 1][..i] == deps[..i];
        Visit(section, deps[i]);
        i := i + 1;
      }
      assert deps[..|deps|] == deps;
    }
  }

  /** How the command ends. */
  datatype SyncOutcome =
    | EmptyWorkspace
    | NoMatches
    | AlreadyCurrent(skipped: nat)
    | Synced(updated: nat, skipped: nat, results: seq<Update>)

  /**
   * `syncWorkspace` on a manifest whose text is `json` and whose parse is `m`:
   * the current workspace is loaded (and created when missing); an empty
   * workspace ends the command; otherwise the sections are walked, and the
   * patched text is written back (`written`) only when something was updated.
   */
  method SyncWorkspace(store: Store, json: string, m: Manifest, now: string)
    returns (outcome: SyncOutcome, written: Option<string>)
    requires store.Valid()
    modifies store
    ensures store.Valid()
    ensures var name := ResolveName("", old(store.Loaded(now)).currentWorkspace);
      && (name in old(store.files) ==> store.files == old(store.files) && store.config == old(store.config))
      && (name !in old(store.files) ==>
            store.files == old(store.files)[name := InitialRecord(name, now)]
            && store.config == Some(Initialized(old(store.Loaded(now)), name, now)))
      && name in store.files
      && var ps := store.files[name].packages;
         var r := Run(Table(ps), m, json);
         && (ps == [] ==> outcome == EmptyWorkspace && written == None)
         && (ps != [] && r.updated == 0 && r.skipped == 0 ==> outcome == NoMatches && written == None)
         && (ps != [] && r.updated == 0 && r.skipped > 0 ==> outcome == AlreadyCurrent(r.skipped) && written == None)
         && (ps != [] && r.updated > 0 ==>
               outcome == Synced(r.updated, r.skipped, r.results) && written == Some(r.json))
  {
    var ws := store.LoadWorkspace("", now);
    if |ws.packages| == 0 {
      return EmptyWorkspace, None;
    }
    var t := BuildTable(ws.packages);
    var run := new SyncRun(t, json);
    run.UpdateSection("dependencies", m.dependencies);
    run.UpdateSection("devDependencies", m.devDependencies);
    run.UpdateSection("peerDependencies", m.peerDependencies);
    run.UpdateSection("optionalDependencies", m.optionalDependencies);
    if run.updated == 0 && run.skipped == 0 {
      return NoMatches, None;
    }
    if run.updated > 0 {
      outcome := Synced(run.updated, run.skipped, run.results);
      written := Some(run.json);
    } else {
      outcome := AlreadyCurrent(run.skipped);
      written := None;
    }
  }
}
