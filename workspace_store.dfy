/**
 * The workspace registry of bin/index.js: a config record naming the current
 * workspace and listing the known workspaces, and one record per workspace
 * holding its packages. The program keeps both as JSON files under
 * `~/.snapshot-creator`; here the config file is an optional value and the
 * workspace files a map from workspace name to record. Every operation loads
 * the config (a default one when the file is missing), changes it and writes it
 * back, as the program does.
 */
module WorkspaceStore {
  import opened Wrappers
  import opened Packages

  /** `DEFAULT_WORKSPACE`. */
  const DefaultWorkspace := "default"

  /**
   * `explicit || current || DEFAULT_WORKSPACE`: the first name that is set,
   * where the empty string stands for an unset name.
   */
  function ResolveName(explicit: string, current: string): (r: string)
    ensures r != ""
    ensures explicit != "" ==> r == explicit
    ensures explicit == "" && current != "" ==> r == current
    ensures explicit == "" && current == "" ==> r == DefaultWorkspace
  {
    if explicit != "" then explicit else if current != "" then current else DefaultWorkspace
  }

  // ---------------------------------------------------------------------------
  // the config record and its `workspaces` object

  /** What the config records about one workspace. */
  datatype Summary = Summary(name: string, created: string, lastModified: string)

  /** The entries of the `workspaces` object, in their insertion order. */
  type Registry = seq<(string, Summary)>

  /** The config file's content. */
  datatype Config = Config(currentWorkspace: string, workspaces: Registry, created: string)

  /** The config `loadWorkspacesConfig` returns when the file does not exist. */
  function DefaultConfig(now: string): Config {
    Config(DefaultWorkspace, [], now)
  }

  /** The keys of a registry, in order: `Object.keys(config.workspaces)`. */
  function Keys(m: Registry): (r: seq<string>)
    ensures |r| == |m| && forall i :: 0 <= i < |m| ==> r[i] == m[i].0
    ensures forall k :: k in r <==> k in KeySet(m)
    ensures DistinctKeys(m) ==> forall i, j :: 0 <= i < j < |r| ==> r[i] != r[j]
  {
    seq(|m|, i requires 0 <= i < |m| => m[i].0)
  }

  /** The set of keys of a registry. */
  function KeySet(m: Registry): set<string> {
    set i | 0 <= i < |m| :: m[i].0
  }

  /** The index of the entry for `k`, or -1. */
  function Find(m: Registry, k: string): (r: int)
    ensures -1 <= r < |m|
    ensures r >= 0 ==> m[r].0 == k && forall i :: 0 <= i < r ==> m[i].0 != k
    ensures r == -1 ==> forall i :: 0 <= i < |m| ==> m[i].0 != k
  {
    if m == [] then -1
    else if m[0].0 == k then 0
    else
      var r := Find(m[1..], k);
      if r == -1 then -1 else r + 1
  }

  /** `config.workspaces[k]`, None when absent. */
  function Lookup(m: Registry, k: string): (r: Option<Summary>)
    ensures r.Some? <==> k in KeySet(m)
  {
    var i := Find(m, k);
    if i >= 0 then Some(m[i].1) else None
  }

  /** `config.workspaces[k] = v`: an existing key keeps its place, a new key goes last. */
  function Put(m: Registry, k: string, v: Summary): (r: Registry)
    ensures |r| == if k in KeySet(m) then |m| else |m| + 1
    ensures (k, v) in r
    ensures forall x :: 0 <= x < |m| && m[x].0 != k ==> r[x] == m[x]
  {
    var i := Find(m, k);
    if i >= 0 then
      assert m[i := (k, v)][i] == (k, v);
      m[i := (k, v)]
    else
      assert (m + [(k, v)])[|m|] == (k, v);
      m + [(k, v)]
  }

  /**
   * `delete config.workspaces[k]`: every entry under `k` goes, every other
   * entry stays, in its old order (`RemoveConcat`).
   */
  function Remove(m: Registry, k: string): (r: Registry)
    ensures |r| <= |m|
    ensures forall x :: 0 <= x < |r| ==> r[x].0 != k
    ensures forall x :: 0 <= x < |m| && m[x].0 != k ==> m[x] in r
  {
    if m == [] then []
    else if m[0].0 == k then Remove(m[1..], k)
    else [m[0]] + Remove(m[1..], k)
  }

  /** Whether no key occurs twice, as in a JavaScript object. */
  predicate DistinctKeys(m: Registry) {
    forall i, j :: 0 <= i < j < |m| ==> m[i].0 != m[j].0
  }

  /** Whether every entry records the name it is filed under. */
  predicate NamesMatch(m: Registry) {
    forall i :: 0 <= i < |m| ==> m[i].1.name == m[i].0
  }

  /** The index of a key is the first index that holds it. */
  lemma FindAt(m: Registry, k: string, i: int)
    requires -1 <= i < |m|
    requires i >= 0 ==> m[i].0 == k && forall x :: 0 <= x < i ==> m[x].0 != k
    requires i == -1 ==> forall x :: 0 <= x < |m| ==> m[x].0 != k
    ensures Find(m, k) == i
  {
  }

  /** After `m[k] = v`, `k` maps to `v` and every other key to what it mapped to. */
  lemma LookupPut(m: Registry, k: string, v: Summary, j: string)
    ensures Lookup(Put(m, k, v), j) == if j == k then Some(v) else Lookup(m, j)
  {
    var r := Put(m, k, v);
    var i := Find(m, k);
    assert forall x :: 0 <= x < |m| && x != i ==> r[x] == m[x];
    if j != k {
      FindAt(r, j, Find(m, j));
    } else if i >= 0 {
      FindAt(r, j, i);
    } else {
      FindAt(r, j, |m|);
    }
  }

  /** Assigning to an existing key keeps the key order; a new key is appended. */
  lemma PutKeys(m: Registry, k: string, v: Summary)
    ensures Keys(Put(m, k, v)) == if k in KeySet(m) then Keys(m) else Keys(m) + [k]
  {
    var i := Find(m, k);
    if i >= 0 {
      assert Keys(Put(m, k, v)) == Keys(m);
    } else {
      assert Keys(Put(m, k, v)) == Keys(m) + [k];
    }
  }

  /** The keys after `m[k] = v` are those before, and `k`. */
  lemma PutKeySet(m: Registry, k: string, v: Summary)
    ensures KeySet(Put(m, k, v)) == KeySet(m) + {k}
  {
    var r := Put(m, k, v);
    var i := Find(m, k);
    forall x | x in KeySet(m) + {k} ensures x in KeySet(r) {
      if x == k {
        if i >= 0 { assert r[i].0 == k; } else { assert r[|m|].0 == k; }
      } else {
        var y :| 0 <= y < |m| && m[y].0 == x;
        assert r[y].0 == x;
      }
    }
    forall x | x in KeySet(r) ensures x in KeySet(m) + {k} {
      var y :| 0 <= y < |r| && r[y].0 == x;
      if y < |m| && x != k {
        assert m[y].0 == x;
      }
    }
  }

  /** An assignment keeps keys unique and entries filed under their own names. */
  lemma PutKeepsShape(m: Registry, k: string, v: Summary)
    requires DistinctKeys(m) && NamesMatch(m) && v.name == k
    ensures DistinctKeys(Put(m, k, v)) && NamesMatch(Put(m, k, v))
  {
    var r := Put(m, k, v);
    var i := Find(m, k);
    forall x, y | 0 <= x < y < |r| ensures r[x].0 != r[y].0 {
      if i < 0 && y == |m| {
        assert r[x] == m[x];
      }
    }
  }

  /** After `delete m[k]`, `k` is gone and every other key maps to what it mapped to. */
  lemma {:induction false} LookupRemove(m: Registry, k: string, j: string)
    ensures Lookup(Remove(m, k), j) == if j == k then None else Lookup(m, j)
  {
    if m != [] {
      LookupRemove(m[1..], k, j);
      var r := Remove(m, k);
      if m[0].0 != k {
        assert r == [m[0]] + Remove(m[1..], k);
        if m[0].0 != j {
          assert Find(r, j) == (if Find(Remove(m[1..], k), j) == -1 then -1 else Find(Remove(m[1..], k), j) + 1);
          assert Find(m, j) == (if Find(m[1..], j) == -1 then -1 else Find(m[1..], j) + 1);
        }
      }
    }
  }

  /** The keys after `delete m[k]` are those before, without `k`. */
  lemma RemoveKeySet(m: Registry, k: string)
    ensures KeySet(Remove(m, k)) == KeySet(m) - {k}
  {
    forall j ensures j in KeySet(Remove(m, k)) <==> j in KeySet(m) - {k} {
      LookupRemove(m, k, j);
    }
  }

  /**
   * Deleting from a registry split in two deletes from each part and keeps
   * the parts in order, so the surviving entries keep their relative order.
   */
  lemma {:induction false} RemoveConcat(a: Registry, b: Registry, k: string)
    ensures Remove(a + b, k) == Remove(a, k) + Remove(b, k)
  {
    if a == [] {
      assert a + b == b;
    } else {
      assert (a + b)[0] == a[0];
      assert (a + b)[1..] == a[1..] + b;
      RemoveConcat(a[1..], b, k);
    }
  }

  /** A deletion keeps keys unique and entries filed under their own names. */
  lemma {:induction false} RemoveKeepsShape(m: Registry, k: string)
    requires DistinctKeys(m) && NamesMatch(m)
    ensures DistinctKeys(Remove(m, k)) && NamesMatch(Remove(m, k))
  {
    if m != [] {
      RemoveKeepsShape(m[1..], k);
      if m[0].0 != k {
        var rest := Remove(m[1..], k);
        RemoveKeySet(m[1..], k);
        var r := [m[0]] + rest;
        forall x, y | 0 <= x < y < |r| ensures r[x].0 != r[y].0 {
          if x == 0 {
            assert r[y].0 in KeySet(rest);
          } else {
            assert r[x] == rest[x - 1] && r[y] == rest[y - 1];
          }
        }
      }
    }
  }

  /**
   * `Object.keys(m)[0]` after `delete m[k]`: the first key of `m` other than
   * `k`, when there is one.
   */
  lemma {:induction false} FirstRemainingKey(m: Registry, k: string)
    ensures Remove(m, k) != [] <==> exists i :: 0 <= i < |m| && m[i].0 != k
    ensures Remove(m, k) != [] ==>
      exists i :: (0 <= i < |m| && m[i].0 != k && Remove(m, k)[0] == m[i] && forall x :: 0 <= x < i ==> m[x].0 == k)
  {
    if m != [] {
      FirstRemainingKey(m[1..], k);
      if m[0].0 == k {
        if Remove(m, k) != [] {
          var i :| 0 <= i < |m[1..]| && m[1..][i].0 != k
            && Remove(m[1..], k)[0] == m[1..][i] && forall x :: 0 <= x < i ==> m[1..][x].0 == k;
          assert m[i + 1] == m[1..][i];
          assert forall x :: 0 <= x < i + 1 ==> m[x].0 == k by {
            forall x | 0 < x < i + 1 ensures m[x].0 == k {
              assert m[x] == m[1..][x - 1];
            }
          }
        } else {
          forall i | 0 <= i < |m| ensures m[i].0 == k {
            if i > 0 {
              assert m[i] == m[1..][i - 1];
            }
          }
        }
      }
    }
  }

  // ---------------------------------------------------------------------------
  // workspace records

  /** A workspace file's content; `lastModified` is empty until the first save. */
  datatype WorkspaceRecord = WorkspaceRecord(name: string, packages: seq<PackageEntry>, created: string, lastModified: string)

  /** The record `initWorkspace` writes for a new workspace. */
  function InitialRecord(name: string, now: string): WorkspaceRecord {
    WorkspaceRecord(name, [], now, "")
  }

  /** The record of workspace `name` once it has been initialised: its file, or a new empty one. */
  function Prepared(files: map<string, WorkspaceRecord>, name: string, now: string): WorkspaceRecord {
    if name in files then files[name] else InitialRecord(name, now)
  }

  /** Writing a key twice leaves the second value. */
  lemma MapOverwrite<K, V>(m: map<K, V>, k: K, a: V, b: V)
    ensures m[k := a][k := b] == m[k := b]
  {
  }

  /**
   * A workspace as the program holds it after loading its file: an object whose
   * `packages`, `name` and `lastModified` are updated in place.
   */
  class Workspace {
    var name: string
    var packages: seq<PackageEntry>
    var created: string
    var lastModified: string

    /** The workspace's content, as it would be written to its file. */
    function Record(): WorkspaceRecord
      reads this
    {
      WorkspaceRecord(name, packages, created, lastModified)
    }

    /** The object `JSON.parse` builds from a workspace file. */
    constructor Load(r: WorkspaceRecord)
      ensures Record() == r
    {
      name := r.name;
      packages := r.packages;
      created := r.created;
      lastModified := r.lastModified;
    }

    /**
     * The package upsert of the add flows: overwrite the first entry with the
     * same name and path, or push.
     */
    method Upsert(e: PackageEntry)
      modifies this
      ensures packages == Upserted(old(packages), e)
      ensures name == old(name) && created == old(created) && lastModified == old(lastModified)
    {
      var i := FindIndex(packages, e);
      if i >= 0 {
        packages := packages[i := e];
      } else {
        packages := packages + [e];
      }
    }
  }

  // ---------------------------------------------------------------------------
  // the config after each operation

  /** The config after `initWorkspace` created workspace `name`. */
  function Initialized(c: Config, name: string, now: string): (r: Config)
    ensures Lookup(r.workspaces, name) == Some(Summary(name, now, now))
    ensures KeySet(r.workspaces) == KeySet(c.workspaces) + {name}
    ensures c.currentWorkspace != "" ==> r.currentWorkspace == c.currentWorkspace
    ensures name != "" ==> r.currentWorkspace != ""
    ensures c.currentWorkspace == "" ==> r.currentWorkspace == name
    ensures r.created == c.created
  {
    LookupPut(c.workspaces, name, Summary(name, now, now), name);
    PutKeySet(c.workspaces, name, Summary(name, now, now));
    Config(if c.currentWorkspace == "" then name else c.currentWorkspace,
           Put(c.workspaces, name, Summary(name, now, now)),
           c.created)
  }

  /** The config after `saveWorkspace` wrote record `r` under `name` at `now`. */
  function Saved(c: Config, name: string, created: string, now: string): (r: Config)
    ensures Lookup(r.workspaces, name) == Some(Summary(name, if created != "" then created else now, now))
    ensures KeySet(r.workspaces) == KeySet(c.workspaces) + {name}
    ensures r.currentWorkspace == c.currentWorkspace && r.created == c.created
  {
    var s := Summary(name, if created != "" then created else now, now);
    LookupPut(c.workspaces, name, s, name);
    PutKeySet(c.workspaces, name, s);
    c.(workspaces := Put(c.workspaces, name, s))
  }

  /**
   * The config after `clearWorkspace` removed `name`: when it was current, the
   * first remaining workspace, or `default`, becomes current.
   */
  function Cleared(c: Config, name: string): (r: Config)
    ensures Lookup(r.workspaces, name).None?
    ensures KeySet(r.workspaces) == KeySet(c.workspaces) - {name}
    ensures c.currentWorkspace != name ==> r.currentWorkspace == c.currentWorkspace
    ensures c.currentWorkspace == name && r.workspaces != [] ==> r.currentWorkspace == r.workspaces[0].0
    ensures c.currentWorkspace == name && r.workspaces == [] ==> r.currentWorkspace == DefaultWorkspace
    ensures r.created == c.created
  {
    RemoveKeySet(c.workspaces, name);
    var rest := Remove(c.workspaces, name);
    var current :=
      if c.currentWorkspace == name then (if rest != [] then Keys(rest)[0] else DefaultWorkspace)
      else c.currentWorkspace;
    Config(current, rest, c.created)
  }

  /**
   * Clearing the current workspace makes current the first workspace of the
   * old registry under another name, or `default` when there is none.
   */
  lemma ClearedTakesFirstRemaining(c: Config, name: string)
    requires c.currentWorkspace == name
    ensures var m := c.workspaces;
      (exists i :: 0 <= i < |m| && m[i].0 != name) ==>
        exists i :: 0 <= i < |m| && m[i].0 != name && Cleared(c, name).currentWorkspace == m[i].0
          && forall x :: 0 <= x < i ==> m[x].0 == name
    ensures var m := c.workspaces;
      (forall i :: 0 <= i < |m| ==> m[i].0 == name) ==> Cleared(c, name).currentWorkspace == DefaultWorkspace
  {
    FirstRemainingKey(c.workspaces, name);
  }

  /** What `createWorkspace` reports. */
  datatype CreateOutcome = NameRequired | AlreadyExists | Created

  /** What `switchWorkspace` reports. */
  datatype SwitchOutcome = SwitchNameRequired | NotFound | Switched

  /** What `clearWorkspace` reports. */
  datatype ClearOutcome = ClearNotFound | ClearDone

  /**
   * The config file and the workspace files. A missing config file is None.
   */
  class Store {
    var config: Option<Config>
    var files: map<string, WorkspaceRecord>

    /**
     * The registry and the files agree: the config lists exactly the workspaces
     * that have a file, each once and under its own name, and every file
     * records the name it is stored under. Without a config file there are no
     * workspace files.
     */
    ghost predicate Valid()
      reads this
    {
      && (forall n :: n in files ==> files[n].name == n)
      && match config
         case None => files == map[]
         case Some(c) => DistinctKeys(c.workspaces) && NamesMatch(c.workspaces) && KeySet(c.workspaces) == files.Keys
    }

    /** An empty home directory: no config file, no workspaces. */
    constructor ()
      ensures Valid() && config == None && files == map[]
    {
      config := None;
      files := map[];
    }

    /** `loadWorkspacesConfig()`: the config file, or the default config when it does not exist. */
    function Loaded(now: string): (r: Config)
      reads this
      ensures config.None? ==> r.currentWorkspace == DefaultWorkspace && KeySet(r.workspaces) == {} && r.created == now
      ensures Valid() ==> DistinctKeys(r.workspaces) && NamesMatch(r.workspaces) && KeySet(r.workspaces) == files.Keys
    {
      match config
      case None => DefaultConfig(now)
      case Some(c) => c
    }

    /** The config once workspace `name` has been initialised. */
    function PreparedConfig(name: string, now: string): Config
      reads this
    {
      if name in files then Loaded(now) else Initialized(Loaded(now), name, now)
    }

    /**
     * `initWorkspace(explicit)`: resolve the name; if the workspace has no file,
     * write an empty one, register it, make it current when no workspace is
     * current, and save the config; then load the workspace.
     */
    method InitWorkspace(explicit: string, now: string) returns (ws: Workspace)
      requires Valid()
      modifies this
      ensures Valid() && fresh(ws)
      ensures var name := ResolveName(explicit, old(Loaded(now)).currentWorkspace);
        && (name in old(files) ==> files == old(files) && config == old(config))
        && (name !in old(files) ==>
              files == old(files)[name := InitialRecord(name, now)]
              && config == Some(Initialized(old(Loaded(now)), name, now)))
        && name in files && ws.Record() == files[name]
    ensures var name := ResolveName(explicit, old(Loaded(now)).currentWorkspace);
      && ws.name == name
      && files == old(files)[name := Prepared(old(files), name, now)]
      && config == Some(old(PreparedConfig(name, now)))
    {
      var c := Loaded(now);
      var name := ResolveName(explicit, c.currentWorkspace);
      if name !in files {
        PutKeySet(c.workspaces, name, Summary(name, now, now));
        PutKeepsShape(c.workspaces, name, Summary(name, now, now));
        files := files[name := InitialRecord(name, now)];
        config := Some(Initialized(c, name, now));
      }
      ws := new Workspace.Load(files[name]);
    }

    /**
     * `loadWorkspace(explicit)`: the workspace's record when it has a file,
     * otherwise what `initWorkspace` makes of the same name.
     */
    method LoadWorkspace(explicit: string, now: string) returns (ws: Workspace)
      requires Valid()
      modifies this
      ensures Valid() && fresh(ws)
      ensures var name := ResolveName(explicit, old(Loaded(now)).currentWorkspace);
        && (name in old(files) ==> files == old(files) && config == old(config))
        && (name !in old(files) ==>
              files == old(files)[name := InitialRecord(name, now)]
              && config == Some(Initialized(old(Loaded(now)), name, now)))
        && name in files && ws.Record() == files[name]
    {
      var name := ResolveName(explicit, Loaded(now).currentWorkspace);
      if name in files {
        ws := new Workspace.Load(files[name]);
      } else {
        ws := InitWorkspace(name, now);
      }
    }

    /**
     * `listWorkspace(explicit)`: the packages of the workspace it loads, which
     * an empty list reports as an empty workspace. Loading a workspace that has
     * no file initialises it, so listing a new name creates that workspace.
     */
    method ListWorkspace(explicit: string, now: string) returns (packages: seq<PackageEntry>)
      requires Valid()
      modifies this
      ensures Valid()
      ensures var name := ResolveName(explicit, old(Loaded(now)).currentWorkspace);
        && files == old(files)[name := Prepared(old(files), name, now)]
        && config == Some(old(PreparedConfig(name, now)))
        && packages == files[name].packages
        && (name !in old(files) ==> packages == [])
    {
      var ws := LoadWorkspace(explicit, now);
      packages := ws.packages;
    }

    /**
     * `saveWorkspace(ws, explicit)`: resolve the name (`explicit || ws.name ||
     * current || default`), stamp the workspace with it and with `now`, write
     * its file and register it; `created` falls back to `now` when unset.
     */
    method SaveWorkspace(ws: Workspace, explicit: string, now: string)
      requires Valid()
      modifies this, ws
      ensures Valid()
      ensures var name := if explicit != "" then explicit else ResolveName(old(ws.name), old(Loaded(now)).currentWorkspace);
        && ws.name == name && ws.lastModified == now
        && ws.packages == old(ws.packages) && ws.created == old(ws.created)
        && files == old(files)[name := ws.Record()]
        && config == Some(Saved(old(Loaded(now)), name, ws.created, now))
    {
      var c := Loaded(now);
      var name := if explicit != "" then explicit else ResolveName(ws.name, c.currentWorkspace);
      ws.name := name;
      ws.lastModified := now;
      var s := Summary(name, if ws.created != "" then ws.created else now, now);
      PutKeepsShape(c.workspaces, name, s);
      ghost var w := Saved(c, name, ws.created, now).workspaces;
      assert w == Put(c.workspaces, name, s);
      assert KeySet(w) == old(files).Keys + {name};
      files := files[name := ws.Record()];
      config := Some(Saved(c, name, ws.created, now));
    }

    /**
     * `clearWorkspace(explicit)`: when the resolved workspace has a file, delete
     * it and its registration, and if it was current, make the first remaining
     * workspace (or `default`) current.
     */
    method ClearWorkspace(explicit: string, now: string) returns (outcome: ClearOutcome)
      requires Valid()
      modifies this
      ensures Valid()
      ensures var name := ResolveName(explicit, old(Loaded(now)).currentWorkspace);
        && (name !in old(files) ==> outcome == ClearNotFound && files == old(files) && config == old(config))
        && (name in old(files) ==>
              outcome == ClearDone
              && files == old(files) - {name}
              && config == Some(Cleared(old(Loaded(now)), name)))
    {
      var c := Loaded(now);
      var name := ResolveName(explicit, c.currentWorkspace);
      if name !in files {
        return ClearNotFound;
      }
      RemoveKeySet(c.workspaces, name);
      RemoveKeepsShape(c.workspaces, name);
      files := files - {name};
      config := Some(Cleared(c, name));
      outcome := ClearDone;
    }

    /**
     * `createWorkspace(name)`: a name is required; a registered name is
     * reported as existing; otherwise `initWorkspace(name)`.
     */
    method CreateWorkspace(name: string, now: string) returns (outcome: CreateOutcome)
      requires Valid()
      modifies this
      ensures Valid()
      ensures name == "" ==> outcome == NameRequired && files == old(files) && config == old(config)
      ensures name != "" && Lookup(old(Loaded(now)).workspaces, name).Some? ==>
        outcome == AlreadyExists && files == old(files) && config == old(config)
      ensures name != "" && Lookup(old(Loaded(now)).workspaces, name).None? ==>
        outcome == Created
        && files == old(files)[name := InitialRecord(name, now)]
        && config == Some(Initialized(old(Loaded(now)), name, now))
    {
      if name == "" {
        return NameRequired;
      }
      var c := Loaded(now);
      if Lookup(c.workspaces, name).Some? {
        return AlreadyExists;
      }
      var ws := InitWorkspace(name, now);
      outcome := Created;
    }

    /**
     * `switchWorkspace(name)`: a name is required; a workspace without a file
     * is reported missing; otherwise it becomes current.
     */
    method SwitchWorkspace(name: string, now: string) returns (outcome: SwitchOutcome)
      requires Valid()
      modifies this
      ensures Valid() && files == old(files)
      ensures name == "" ==> outcome == SwitchNameRequired && config == old(config)
      ensures name != "" && name !in old(files) ==> outcome == NotFound && config == old(config)
      ensures name != "" && name in old(files) ==>
        outcome == Switched && config == Some(old(Loaded(now)).(currentWorkspace := name))
    {
      if name == "" {
        return SwitchNameRequired;
      }
      if name !in files {
        return NotFound;
      }
      config := Some(Loaded(now).(currentWorkspace := name));
      outcome := Switched;
    }

    /**
     * The common part of `addToWorkspace` and `addToWorkspaceAfterPublish`:
     * initialise the current workspace, upsert the entry and save it.
     */
    method AddEntry(e: PackageEntry, now: string)
      requires Valid()
      modifies this
      ensures Valid()
      ensures var name := ResolveName("", old(Loaded(now)).currentWorkspace);
        var before := Prepared(old(files), name, now);
        && files == old(files)[name := WorkspaceRecord(name, Upserted(before.packages, e), before.created, now)]
        && config == Some(Saved(old(PreparedConfig(name, now)), name, before.created, now))
    {
      var ws := InitWorkspace("", now);
      ghost var name := ws.name;
      ghost var before := Prepared(old(files), name, now);
      assert Loaded(now) == old(PreparedConfig(name, now));
      assert files == old(files)[name := before] && ws.packages == before.packages && ws.created == before.created;
      UpsertAndSave(ws, e, now);
      MapOverwrite(old(files), name, before, files[name]);
    }

    /** Upsert the entry into a loaded workspace and save it under its own name. */
    method UpsertAndSave(ws: Workspace, e: PackageEntry, now: string)
      requires Valid() && ws.name != "" && ws.name in files && ws.Record() == files[ws.name]
      modifies this, ws
      ensures Valid()
      ensures files == old(files)[ws.name := WorkspaceRecord(ws.name, Upserted(old(ws.packages), e), old(ws.created), now)]
      ensures ws.name == old(ws.name)
      ensures config == Some(Saved(old(Loaded(now)), ws.name, old(ws.created), now))
    {
      ws.Upsert(e);
      SaveWorkspace(ws, "", now);
    }

    /**
     * `addToWorkspace`: the current workspace is initialised first; then the
     * revision is read, and a failing `git rev-parse` (None) ends the command
     * there; otherwise the unpublished entry is upserted and saved.
     */
    method AddToWorkspace(packageName: string, version: string, gitHash: Option<string>, path: string,
                          description: string, now: string)
      requires Valid()
      modifies this
      ensures Valid()
      ensures var name := ResolveName("", old(Loaded(now)).currentWorkspace);
        var before := Prepared(old(files), name, now);
        && (gitHash.None? ==> files == old(files)[name := before] && config == Some(old(PreparedConfig(name, now))))
        && (gitHash.Some? ==>
              var e := PackageEntry(packageName, version, gitHash.value, path, now, description, false);
              && files == old(files)[name := WorkspaceRecord(name, Upserted(before.packages, e), before.created, now)]
              && config == Some(Saved(old(PreparedConfig(name, now)), name, before.created, now)))
    {
      var ws := InitWorkspace("", now);
      ghost var name := ws.name;
      ghost var before := Prepared(old(files), name, now);
      assert Loaded(now) == old(PreparedConfig(name, now));
      assert files == old(files)[name := before] && ws.packages == before.packages && ws.created == before.created;
      if gitHash.None? {
        return;
      }
      var e := PackageEntry(packageName, version, gitHash.value, path, now, description, false);
      UpsertAndSave(ws, e, now);
      MapOverwrite(old(files), name, before, files[name]);
    }

    /**
     * `publishToWorkspace` after `npm publish` has run: only when it succeeded
     * and the revision could be read is the published entry upserted into the
     * current workspace; any failure leaves the registry as it was.
     */
    method PublishToWorkspace(publishOk: bool, packageName: string, version: string, gitHash: Option<string>,
                              path: string, description: string, now: string)
      requires Valid()
      modifies this
      ensures Valid()
      ensures !publishOk || gitHash.None? ==> files == old(files) && config == old(config)
      ensures publishOk && gitHash.Some? ==>
        var name := ResolveName("", old(Loaded(now)).currentWorkspace);
        var before := Prepared(old(files), name, now);
        var e := PackageEntry(packageName, version, gitHash.value, path, now, description, true);
        && files == old(files)[name := WorkspaceRecord(name, Upserted(before.packages, e), before.created, now)]
        && config == Some(Saved(old(PreparedConfig(name, now)), name, before.created, now))
    {
      if !publishOk || gitHash.None? {
        return;
      }
      AddEntry(PackageEntry(packageName, version, gitHash.value, path, now, description, true), now);
    }
  }
}
