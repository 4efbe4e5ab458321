/**
 The (role, foreign table) cache of JS contexts and instances (fdw.c), its two
 invalidation routes, and its agreement with building every instance afresh.
 */
module FdwCache {
  import opened Options

  type Oid = nat

  // ----- the catalog

  datatype DefElem = DefElem(name: string, value: string)

  /** xmin and ctid of a row of pljs.modules. */
  datatype Version = Version(xmin: nat, ctid: nat)

  datatype ModuleRow = ModuleRow(version: Version, source: string)

  datatype ForeignTable = ForeignTable(server: Oid, options: seq<DefElem>)

  datatype MappingKey = MappingKey(user: Oid, server: Oid)

  datatype Catalog = Catalog(
    modules: map<string, ModuleRow>,
    tables: map<Oid, ForeignTable>,
    servers: map<Oid, seq<DefElem>>,
    mappings: map<MappingKey, seq<DefElem>>)

  const PUBLIC: Oid := 0
  const NO_VERSION: Version := Version(0, 0)

  function FirstOption(options: seq<DefElem>, name: string): Option<string> {
    if options == [] then None
    else if options[0].name == name then Some(options[0].value)
    else FirstOption(options[1..], name)
  }

  method GetOption(options: seq<DefElem>, name: string) returns (value: Option<string>)
    ensures value == FirstOption(options, name)
  {
    for i := 0 to |options|
      invariant FirstOption(options, name) == FirstOption(options[i..], name)
    {
      if options[i].name == name {
        return Some(options[i].value);
      }
      assert options[i..][1..] == options[i + 1..];
    }
    value := None;
  }

  type Properties = map<string, string>

  function AsProperties(options: seq<DefElem>): Properties {
    if options == [] then map[]
    else AsProperties(options[..|options| - 1])[options[|options| - 1].name := options[|options| - 1].value]
  }

  method AddProperties(obj: Properties, options: seq<DefElem>) returns (r: Properties)
    ensures r == obj + AsProperties(options)
  {
    r := obj;
    for i := 0 to |options|
      invariant r == obj + AsProperties(options[..i])
    {
      assert options[..i + 1][..i] == options[..i];
      r := r[options[i].name := options[i].value];
    }
    assert options[..|options|] == options;
  }

  /** The options object: a table option wins over a user mapping's, and that over a server's. */
  method BuildOptions(server: seq<DefElem>, mapping: seq<DefElem>, table: seq<DefElem>) returns (obj: Properties)
    ensures obj == AsProperties(server) + AsProperties(mapping) + AsProperties(table)
    ensures forall name :: name in obj ==>
      obj[name] == if name in AsProperties(table) then AsProperties(table)[name]
                   else if name in AsProperties(mapping) then AsProperties(mapping)[name]
                   else AsProperties(server)[name]
  {
    hide AsProperties;
    obj := AddProperties(map[], server);
    obj := AddProperties(obj, mapping);
    obj := AddProperties(obj, table);
  }

  function MappingOf(cat: Catalog, user: Oid, server: Oid): seq<DefElem> {
    if MappingKey(user, server) in cat.mappings then cat.mappings[MappingKey(user, server)]
    else if MappingKey(PUBLIC, server) in cat.mappings then cat.mappings[MappingKey(PUBLIC, server)]
    else []
  }

  function ServerOptions(cat: Catalog, server: Oid): seq<DefElem> {
    if server in cat.servers then cat.servers[server] else []
  }

  // ----- building afresh

  /** What an instance was constructed from. */
  datatype Instance = Instance(source: string, options: Properties)

  function ModulePath(cat: Catalog, table: Oid): Option<string> {
    if table !in cat.tables then None
    else
      var t := cat.tables[table];
      var own := FirstOption(t.options, "module");
      if own.Some? then own else FirstOption(ServerOptions(cat, t.server), "module")
  }

  function MergedOptions(cat: Catalog, user: Oid, table: Oid): Properties
    requires table in cat.tables
  {
    var t := cat.tables[table];
    AsProperties(ServerOptions(cat, t.server)) + AsProperties(MappingOf(cat, user, t.server)) + AsProperties(t.options)
  }

  /** The instance a backend without a cache would construct now. */
  function Fresh(cat: Catalog, user: Oid, table: Oid): Option<Instance> {
    var path := ModulePath(cat, table);
    if path.None? || path.value !in cat.modules then None
    else Some(Instance(cat.modules[path.value].source, MergedOptions(cat, user, table)))
  }

  // ----- an instance by the catalog's lists

  predicate Lacks(options: seq<DefElem>, name: string) {
    forall i :: 0 <= i < |options| ==> options[i].name != name
  }

  /** `value` is that of the first entry of the name. */
  ghost predicate FirstNamed(options: seq<DefElem>, name: string, value: string) {
    exists i :: 0 <= i < |options| && options[i] == DefElem(name, value) && Lacks(options[..i], name)
  }

  /** `value` is that of the last entry of the name. */
  ghost predicate LastNamed(options: seq<DefElem>, name: string, value: string) {
    exists i :: 0 <= i < |options| && options[i] == DefElem(name, value) && Lacks(options[i + 1..], name)
  }

  /** The lists of a foreign table: its own, the user mapping's (the role's, or else PUBLIC's) and the server's. */
  datatype Lists = Lists(table: seq<DefElem>, mapping: seq<DefElem>, server: seq<DefElem>)

  predicate AreLists(cat: Catalog, user: Oid, table: Oid, l: Lists) {
    && table in cat.tables && l.table == cat.tables[table].options
    && var server := cat.tables[table].server;
       && (if server in cat.servers then l.server == cat.servers[server] else l.server == [])
       && (MappingKey(user, server) in cat.mappings ==> l.mapping == cat.mappings[MappingKey(user, server)])
       && (MappingKey(user, server) !in cat.mappings ==>
             if MappingKey(0, server) in cat.mappings then l.mapping == cat.mappings[MappingKey(0, server)]
             else l.mapping == [])
  }

  /** The table's first module option, or the server's if the table has none. */
  ghost predicate ModuleIs(l: Lists, path: string) {
    FirstNamed(l.table, "module", path) || (Lacks(l.table, "module") && FirstNamed(l.server, "module", path))
  }

  /** The value of an option: the table's last one, or else the user mapping's, or else the server's. */
  ghost predicate OptionIs(l: Lists, name: string, value: string) {
    || LastNamed(l.table, name, value)
    || (Lacks(l.table, name) && LastNamed(l.mapping, name, value))
    || (Lacks(l.table, name) && Lacks(l.mapping, name) && LastNamed(l.server, name, value))
  }

  /** The instance the catalog asks for now: constructed from the table's module, with all the options. */
  ghost predicate IsAsked(cat: Catalog, user: Oid, table: Oid, instance: Instance) {
    exists l: Lists, path: string ::
      && AreLists(cat, user, table, l) && ModuleIs(l, path) && path in cat.modules
      && instance.source == cat.modules[path].source
      && (forall name, value ::
            (name in instance.options && instance.options[name] == value) <==> OptionIs(l, name, value))
  }

  /** Neither the table nor its server has a module option. */
  ghost predicate NoModule(cat: Catalog, table: Oid) {
    && table in cat.tables && Lacks(cat.tables[table].options, "module")
    && (cat.tables[table].server in cat.servers ==> Lacks(cat.servers[cat.tables[table].server], "module"))
  }

  lemma FirstCons(d: DefElem, rest: seq<DefElem>, name: string, value: string)
    ensures FirstNamed([d] + rest, name, value)
       <==> if d.name == name then d.value == value else FirstNamed(rest, name, value)
  {
    var all := [d] + rest;
    if d.name == name && d.value == value {
      assert all[0] == DefElem(name, value) && Lacks(all[..0], name);
    }
    if d.name != name && FirstNamed(rest, name, value) {
      var i :| 0 <= i < |rest| && rest[i] == DefElem(name, value) && Lacks(rest[..i], name);
      assert all[..i + 1] == [d] + rest[..i] && all[i + 1] == rest[i];
    }
    if FirstNamed(all, name, value) {
      var i :| 0 <= i < |all| && all[i] == DefElem(name, value) && Lacks(all[..i], name);
      if i > 0 {
        assert all[..i][0] == d;
        assert rest[..i - 1] == all[..i][1..] && rest[i - 1] == all[i];
      }
    }
  }

  lemma {:induction false} FirstOptionIs(options: seq<DefElem>, name: string, value: string)
    ensures FirstOption(options, name) == None <==> Lacks(options, name)
    ensures FirstOption(options, name) == Some(value) <==> FirstNamed(options, name, value)
  {
    hide FirstNamed;
    if options == [] {
      NothingNamed(name, value);
    } else {
      FirstOptionIs(options[1..], name, value);
      assert options == [options[0]] + options[1..];
      FirstCons(options[0], options[1..], name, value);
      assert Lacks(options, name) <==> options[0].name != name && Lacks(options[1..], name);
    }
  }

  lemma NothingNamed(name: string, value: string)
    ensures !FirstNamed([], name, value) && !LastNamed([], name, value) && Lacks([], name)
  {
  }

  lemma LacksSnoc(front: seq<DefElem>, d: DefElem, name: string)
    ensures Lacks(front + [d], name) <==> Lacks(front, name) && d.name != name
  {
    assert (front + [d])[|front|] == d;
    assert forall i :: 0 <= i < |front| ==> (front + [d])[i] == front[i];
  }

  lemma LastSnoc(front: seq<DefElem>, d: DefElem, name: string, value: string)
    ensures LastNamed(front + [d], name, value)
       <==> if d.name == name then d.value == value else LastNamed(front, name, value)
  {
    var all, k := front + [d], |front|;
    NothingNamed(name, value);
    hide Lacks;
    forall i | 0 <= i < k
      ensures all[i] == front[i] && (Lacks(all[i + 1..], name) <==> Lacks(front[i + 1..], name) && d.name != name)
    {
      assert all[i + 1..] == front[i + 1..] + [d];
      LacksSnoc(front[i + 1..], d, name);
    }
    assert all[k] == d && all[k + 1..] == [];
    if d.name != name && LastNamed(front, name, value) {
      var i :| 0 <= i < k && front[i] == DefElem(name, value) && Lacks(front[i + 1..], name);
      assert all[i] == DefElem(name, value);
    }
    if LastNamed(all, name, value) {
      var i :| 0 <= i < |all| && all[i] == DefElem(name, value) && Lacks(all[i + 1..], name);
      if i < k {
        assert front[i] == DefElem(name, value);
      }
    }
  }

  lemma {:induction false} PropertiesAre(options: seq<DefElem>, name: string, value: string)
    ensures name !in AsProperties(options) <==> Lacks(options, name)
    ensures (name in AsProperties(options) && AsProperties(options)[name] == value) <==> LastNamed(options, name, value)
    decreases |options|
  {
    hide LastNamed;
    if options == [] {
      NothingNamed(name, value);
    } else {
      var k := |options| - 1;
      PropertiesAre(options[..k], name, value);
      assert options == options[..k] + [options[k]];
      LastSnoc(options[..k], options[k], name, value);
      assert Lacks(options, name) <==> Lacks(options[..k], name) && options[k].name != name;
    }
  }

  function ListsOf(cat: Catalog, user: Oid, table: Oid): Lists
    requires table in cat.tables
  {
    var t := cat.tables[table];
    Lists(t.options, MappingOf(cat, user, t.server), ServerOptions(cat, t.server))
  }

  lemma {:induction false} PathIsModule(cat: Catalog, user: Oid, table: Oid)
    requires table in cat.tables
    ensures AreLists(cat, user, table, ListsOf(cat, user, table))
    ensures ModulePath(cat, table) == None <==> NoModule(cat, table)
    ensures forall path :: ModulePath(cat, table) == Some(path) <==> ModuleIs(ListsOf(cat, user, table), path)
  {
    hide FirstOption, Lacks, FirstNamed;
    var l := ListsOf(cat, user, table);
    forall path
      ensures FirstOption(l.table, "module") == Some(path) <==> FirstNamed(l.table, "module", path)
      ensures FirstOption(l.server, "module") == Some(path) <==> FirstNamed(l.server, "module", path)
    {
      FirstOptionIs(l.table, "module", path);
      FirstOptionIs(l.server, "module", path);
    }
    FirstOptionIs(l.table, "module", "");
    FirstOptionIs(l.server, "module", "");
    NothingNamed("module", "");
  }

  lemma {:induction false} MergedAre(cat: Catalog, user: Oid, table: Oid, name: string, value: string)
    requires table in cat.tables
    ensures var merged := MergedOptions(cat, user, table);
            (name in merged && merged[name] == value) <==> OptionIs(ListsOf(cat, user, table), name, value)
  {
    hide AsProperties, Lacks, LastNamed;
    var l := ListsOf(cat, user, table);
    PropertiesAre(l.table, name, value);
    PropertiesAre(l.mapping, name, value);
    PropertiesAre(l.server, name, value);
  }

  /** Building afresh gives what the catalog asks for. */
  lemma {:induction false} FreshIsAsked(cat: Catalog, user: Oid, table: Oid)
    ensures Fresh(cat, user, table).Some? ==> IsAsked(cat, user, table, Fresh(cat, user, table).value)
    ensures Fresh(cat, user, table).Some? <==> exists instance :: IsAsked(cat, user, table, instance)
  {
    hide MergedOptions, ModuleIs, OptionIs, AreLists, NoModule;
    if Fresh(cat, user, table).Some? {
      PathMeansTable(cat, table);
      PathIsModule(cat, user, table);
      var path, instance := ModulePath(cat, table).value, Fresh(cat, user, table).value;
      hide ModulePath;
      var l := ListsOf(cat, user, table);
      forall name, value
        ensures (name in instance.options && instance.options[name] == value) <==> OptionIs(l, name, value)
      {
        MergedAre(cat, user, table, name, value);
      }
      assert ModuleIs(l, path);
    } else if instance :| IsAsked(cat, user, table, instance) {
      var l: Lists, path: string :| AreLists(cat, user, table, l) && ModuleIs(l, path) && path in cat.modules;
      AskedIsFresh(cat, user, table, l, path);
    }
  }

  /** The table's module row, if there is one. */
  lemma {:induction false} AskedIsFresh(cat: Catalog, user: Oid, table: Oid, l: Lists, path: string)
    requires AreLists(cat, user, table, l) && ModuleIs(l, path)
    ensures Fresh(cat, user, table).Some? <==> path in cat.modules
  {
    hide ModuleIs, ModulePath, NoModule, MergedOptions;
    PathIsModule(cat, user, table);
    assert l == ListsOf(cat, user, table);
  }

  lemma PathMeansTable(cat: Catalog, table: Oid)
    ensures ModulePath(cat, table).Some? ==> table in cat.tables
  {
  }

  // ----- the cache

  datatype Key = Key(user: Oid, table: Oid)

  datatype Entry = Entry(ctx: nat, instance: Instance, modulePath: string, version: Version)

  datatype Failure = NoSuchTable | NoModuleOption | LoadFailed | ConstructorThrew | AlreadyExists

  datatype Answer = Found(ctx: nat, instance: Instance) | Failed(reason: Failure)

  /** `nextContext` numbers the contexts created; `freed` counts how often each was freed. */
  datatype Cache = Cache(entries: map<Key, Entry>, pending: bool, nextContext: nat, freed: multiset<nat>)

  const EMPTY: Cache := Cache(map[], false, 0, multiset{})

  /** Every context created is either cached under one key or freed, and freed once only. */
  ghost predicate Valid(c: Cache) {
    && (forall k, l :: k in c.entries && l in c.entries && k != l ==> c.entries[k].ctx != c.entries[l].ctx)
    && (forall k :: k in c.entries ==> c.entries[k].ctx < c.nextContext && c.entries[k].ctx !in c.freed)
    && (forall x :: x in c.freed ==> x < c.nextContext && c.freed[x] == 1)
    && (forall x :: 0 <= x < c.nextContext ==> x in c.freed || x in Contexts(c.entries))
  }

  function Contexts(entries: map<Key, Entry>): set<nat> {
    set k | k in entries :: entries[k].ctx
  }

  function Flushed(c: Cache): Cache {
    if c.pending then Cache(map[], false, c.nextContext, c.freed + multiset(Contexts(c.entries))) else c
  }

  function Removed(c: Cache, key: Key): Cache {
    if key in c.entries then
      c.(entries := c.entries - {key}, freed := c.freed + multiset{c.entries[key].ctx})
    else c
  }

  function RowVersion(cat: Catalog, path: string): Option<Version> {
    if path in cat.modules then Some(cat.modules[path].version) else None
  }

  function IsCurrent(cat: Catalog, e: Entry): bool {
    RowVersion(cat, e.modulePath) == Some(e.version)
  }

  /** Eviction of an entry whose module row has changed. */
  function Checked(c: Cache, cat: Catalog, key: Key): Cache {
    if key in c.entries && !IsCurrent(cat, c.entries[key]) then Removed(c, key) else c
  }

  /** Building an instance for a key: `loads` and `constructs` say what the module's code does. */
  function Built(c: Cache, cat: Catalog, key: Key, loads: bool, constructs: bool): (Cache, Answer) {
    var path := ModulePath(cat, key.table);
    if key.table !in cat.tables then (c, Failed(NoSuchTable))
    else if path.None? then (c, Failed(NoModuleOption))
    else
      var ctx := c.nextContext;
      var created := c.(nextContext := ctx + 1);
      var discarded := created.(freed := created.freed + multiset{ctx});
      if !loads || path.value !in cat.modules then (discarded, Failed(LoadFailed))
      else if !constructs then (discarded, Failed(ConstructorThrew))
      else
        var row := cat.modules[path.value];
        var instance := Instance(row.source, MergedOptions(cat, key.user, key.table));
        if key in c.entries then (created, Failed(AlreadyExists))
        else (created.(entries := c.entries[key := Entry(ctx, instance, path.value, row.version)]),
              Found(ctx, instance))
  }

  function GetOrCreateStep(c: Cache, cat: Catalog, key: Key, loads: bool, constructs: bool): (Cache, Answer) {
    var current := Checked(Flushed(c), cat, key);
    if key in current.entries then (current, Found(current.entries[key].ctx, current.entries[key].instance))
    else Built(current, cat, key, loads, constructs)
  }

  class InstanceCache {
    var entries: map<Key, Entry>
    var pending: bool
    var nextContext: nat
    var freed: multiset<nat>

    function View(): Cache
      reads this
    {
      Cache(entries, pending, nextContext, freed)
    }

    constructor ()
      ensures View() == EMPTY
    {
      entries, pending, nextContext, freed := map[], false, 0, multiset{};
    }

    method CleanupContext(ctx: nat)
      modifies this`freed
      ensures freed == old(freed) + multiset{ctx}
    {
      freed := freed + multiset{ctx};
    }

    method Add(key: Key, entry: Entry) returns (ok: bool)
      modifies this`entries
      ensures ok == (key !in old(entries))
      ensures entries == if ok then old(entries)[key := entry] else old(entries)
    {
      if key in entries {
        return false;
      }
      entries := entries[key := entry];
      ok := true;
    }

    method Find(key: Key) returns (e: Option<Entry>)
      ensures e == if key in entries then Some(entries[key]) else None
    {
      e := if key in entries then Some(entries[key]) else None;
    }

    method Remove(key: Key)
      modifies this`entries, this`freed
      ensures View() == Removed(old(View()), key)
    {
      if key in entries {
        var e := entries[key];
        entries := entries - {key};
        CleanupContext(e.ctx);
      }
    }

    method SyscacheCallback()
      modifies this`pending
      ensures View() == old(View()).(pending := true)
    {
      pending := true;
    }

    method CheckInvalidation()
      requires Valid(View())
      modifies this
      ensures View() == Flushed(old(View()))
    {
      hide Contexts;
      if !pending {
        return;
      }
      assert multiset(Contexts(entries - entries.Keys)) == multiset{} by {
        ContextsOfNone(entries);
      }
      var left := entries.Keys;
      while left != {}
        invariant left <= entries.Keys && entries == old(entries)
        invariant freed == old(freed) + multiset(Contexts(entries - left))
        invariant pending == old(pending) && nextContext == old(nextContext)
        decreases left
      {
        var k :| k in left;
        ContextsGrow(entries, left, k);
        CleanupContext(entries[k].ctx);
        left := left - {k};
      }
      assert entries - {} == entries;
      entries := map[];
      pending := false;
    }

    /** Drops the entry for `key` if the module row it was built from is no longer there. */
    method CheckVersion(cat: Catalog, key: Key)
      modifies this`entries, this`freed
      ensures View() == Checked(old(View()), cat, key)
    {
      var cached := Find(key);
      if cached.Some? {
        var current := RowVersion(cat, cached.value.modulePath);
        if current.None? || current.value != cached.value.version {
          Remove(key);
        }
      }
    }

    method Build(cat: Catalog, key: Key, loads: bool, constructs: bool) returns (answer: Answer)
      modifies this
      ensures (View(), answer) == Built(old(View()), cat, key, loads, constructs)
    {
      hide AsProperties, FirstOption;
      if key.table !in cat.tables {
        return Failed(NoSuchTable);
      }
      var t := cat.tables[key.table];
      var serverOptions := ServerOptions(cat, t.server);
      var path := GetOption(t.options, "module");
      if path.None? {
        path := GetOption(serverOptions, "module");
      }
      if path.None? {
        return Failed(NoModuleOption);
      }
      var ctx := nextContext;
      nextContext := nextContext + 1;
      if !loads || path.value !in cat.modules {
        CleanupContext(ctx);
        return Failed(LoadFailed);
      }
      var version := RowVersion(cat, path.value);
      var options := BuildOptions(serverOptions, MappingOf(cat, key.user, t.server), t.options);
      if !constructs {
        CleanupContext(ctx);
        return Failed(ConstructorThrew);
      }
      var instance := Instance(cat.modules[path.value].source, options);
      var added := Add(key, Entry(ctx, instance, path.value, if version.Some? then version.value else NO_VERSION));
      if !added {
        return Failed(AlreadyExists);
      }
      answer := Found(ctx, instance);
    }

    method GetOrCreate(cat: Catalog, user: Oid, table: Oid, loads: bool, constructs: bool) returns (answer: Answer)
      requires Valid(View())
      modifies this
      ensures (View(), answer) == GetOrCreateStep(old(View()), cat, Key(user, table), loads, constructs)
    {
      hide Flushed, Checked, Built;
      CheckInvalidation();
      var key := Key(user, table);
      CheckVersion(cat, key);
      var cached := Find(key);
      if cached.Some? {
        return Found(cached.value.ctx, cached.value.instance);
      }
      answer := Build(cat, key, loads, constructs);
    }
  }

  lemma ContextsOfNone(entries: map<Key, Entry>)
    ensures Contexts(entries - entries.Keys) == {}
  {
  }

  lemma ContextsGrow(entries: map<Key, Entry>, left: set<Key>, k: Key)
    requires k in left && left <= entries.Keys
    requires forall a, b :: a in entries && b in entries && a != b ==> entries[a].ctx != entries[b].ctx
    ensures multiset(Contexts(entries - (left - {k}))) == multiset(Contexts(entries - left)) + multiset{entries[k].ctx}
  {
    var before, after := Contexts(entries - left), Contexts(entries - (left - {k}));
    assert (entries - (left - {k})).Keys == (entries - left).Keys + {k};
    assert after == before + {entries[k].ctx};
    assert entries[k].ctx !in before;
  }

  // ----- runs

  /** DDL replaces tables, servers and mappings and fires the callback; module rows change without it. */
  datatype Event =
    | Ddl(tables: map<Oid, ForeignTable>, servers: map<Oid, seq<DefElem>>, mappings: map<MappingKey, seq<DefElem>>)
    | WriteModule(path: string, source: string, version: Version)
    | DeleteModule(path: string)
    | Lookup(user: Oid, table: Oid, loads: bool, constructs: bool)

  /** `history` remembers the source of every row version there has been. */
  datatype World = World(cat: Catalog, cache: Cache, history: map<Version, string>)

  datatype Outcome = Outcome(world: World, answer: Option<Answer>)

  function Step(w: World, e: Event): Outcome {
    match e
    case Ddl(tables, servers, mappings) =>
      Outcome(World(Catalog(w.cat.modules, tables, servers, mappings), w.cache.(pending := true), w.history), None)
    case WriteModule(path, source, version) =>
      Outcome(World(w.cat.(modules := w.cat.modules[path := ModuleRow(version, source)]), w.cache,
                    w.history[version := source]), None)
    case DeleteModule(path) =>
      Outcome(w.(cat := w.cat.(modules := w.cat.modules - {path})), None)
    case Lookup(user, table, loads, constructs) =>
      var r := GetOrCreateStep(w.cache, w.cat, Key(user, table), loads, constructs);
      Outcome(w.(cache := r.0), Some(r.1))
  }

  /** (xmin, ctid) identifies a row version: one that was there before, as after a rollback, has its source again. */
  predicate Possible(w: World, e: Event) {
    e.WriteModule? && e.version in w.history ==> w.history[e.version] == e.source
  }

  ghost predicate Coherent(w: World) {
    && Valid(w.cache)
    && (forall p :: p in w.cat.modules ==>
          w.cat.modules[p].version in w.history && w.history[w.cat.modules[p].version] == w.cat.modules[p].source)
    && (forall k :: k in w.cache.entries ==> EntryCoherent(w, k))
  }

  ghost predicate EntryCoherent(w: World, k: Key)
    requires k in w.cache.entries
  {
    var e := w.cache.entries[k];
    && e.version in w.history && w.history[e.version] == e.instance.source
    && (!w.cache.pending ==>
          && k.table in w.cat.tables
          && ModulePath(w.cat, k.table) == Some(e.modulePath)
          && e.instance.options == MergedOptions(w.cat, k.user, k.table))
  }

  lemma FlushIsValid(c: Cache)
    requires Valid(c)
    ensures Valid(Flushed(c))
  {
    if c.pending {
      var f := Flushed(c);
      forall x | x in f.freed
        ensures x < f.nextContext && f.freed[x] == 1
      {
        if x in Contexts(c.entries) {
          var k :| k in c.entries && c.entries[k].ctx == x;
          assert c.entries[k].ctx !in c.freed;
        }
      }
    }
  }

  lemma RemoveIsValid(c: Cache, key: Key)
    requires Valid(c)
    ensures Valid(Removed(c, key))
  {
    if key in c.entries {
      var r := Removed(c, key);
      forall x | 0 <= x < c.nextContext && x !in r.freed
        ensures x in Contexts(r.entries)
      {
        assert x in Contexts(c.entries);
        var k :| k in c.entries && c.entries[k].ctx == x;
        assert k in r.entries;
      }
    }
  }

  lemma DiscardIsValid(c: Cache)
    requires Valid(c)
    ensures Valid(c.(nextContext := c.nextContext + 1, freed := c.freed + multiset{c.nextContext}))
  {
    hide Contexts;
    assert c.nextContext !in c.freed;
  }

  lemma AddIsValid(c: Cache, key: Key, entry: Entry)
    requires Valid(c) && key !in c.entries && entry.ctx == c.nextContext
    ensures Valid(c.(nextContext := c.nextContext + 1, entries := c.entries[key := entry]))
  {
    var entries := c.entries[key := entry];
    forall x | 0 <= x < c.nextContext + 1 && x !in c.freed
      ensures x in Contexts(entries)
    {
      if x == c.nextContext {
        assert entries[key].ctx == x;
      } else {
        assert x in Contexts(c.entries);
        var k :| k in c.entries && c.entries[k].ctx == x;
        assert entries[k].ctx == x;
      }
    }
  }

  lemma {:induction false} BuildIsValid(c: Cache, cat: Catalog, key: Key, loads: bool, constructs: bool)
    requires Valid(c) && key !in c.entries
    ensures Valid(Built(c, cat, key, loads, constructs).0)
  {
    hide ModulePath, MergedOptions, Valid;
    DiscardIsValid(c);
    var r := Built(c, cat, key, loads, constructs).0;
    if key in r.entries {
      AddIsValid(c, key, r.entries[key]);
    }
  }

  /** After both invalidation checks, what is left of the cache is current. */
  lemma {:induction false} CheckedIsCoherent(w: World, key: Key)
    requires Coherent(w)
    ensures var c := Checked(Flushed(w.cache), w.cat, key);
            && Coherent(w.(cache := c)) && !c.pending
            && (key in c.entries ==> IsCurrent(w.cat, c.entries[key]))
  {
    hide ModulePath, MergedOptions, Valid;
    FlushIsValid(w.cache);
    RemoveIsValid(Flushed(w.cache), key);
    var c := Checked(Flushed(w.cache), w.cat, key);
    forall k | k in c.entries
      ensures EntryCoherent(w.(cache := c), k)
    {
      assert EntryCoherent(w, k);
    }
  }

  lemma CachedIsFresh(w: World, key: Key)
    requires Coherent(w) && !w.cache.pending && key in w.cache.entries && IsCurrent(w.cat, w.cache.entries[key])
    ensures Fresh(w.cat, key.user, key.table) == Some(w.cache.entries[key].instance)
    ensures w.cache.entries[key].ctx !in w.cache.freed
  {
    hide ModulePath, MergedOptions;
    assert EntryCoherent(w, key);
  }

  lemma BuiltEntries(w: World, key: Key, loads: bool, constructs: bool, k: Key)
    requires Coherent(w) && !w.cache.pending && key !in w.cache.entries
    requires k in Built(w.cache, w.cat, key, loads, constructs).0.entries
    ensures EntryCoherent(w.(cache := Built(w.cache, w.cat, key, loads, constructs).0), k)
  {
    PathMeansTable(w.cat, key.table);
    hide ModulePath, MergedOptions, Valid;
    if k != key {
      assert EntryCoherent(w, k);
    }
  }

  lemma BuiltIsFresh(cat: Catalog, c: Cache, key: Key, loads: bool, constructs: bool)
    requires key !in c.entries
    ensures var r := Built(c, cat, key, loads, constructs);
            && r.1 != Failed(AlreadyExists)
            && (r.1.Found? ==> Fresh(cat, key.user, key.table) == Some(r.1.instance))
            && (loads && constructs ==> (r.1.Found? <==> Fresh(cat, key.user, key.table).Some?))
  {
    PathMeansTable(cat, key.table);
    hide ModulePath, MergedOptions;
  }

  lemma {:induction false} BuiltIsCoherent(w: World, key: Key, loads: bool, constructs: bool)
    requires Coherent(w) && !w.cache.pending && key !in w.cache.entries
    ensures var r := Built(w.cache, w.cat, key, loads, constructs);
            && Coherent(w.(cache := r.0)) && r.1 != Failed(AlreadyExists)
            && (r.1.Found? ==> Fresh(w.cat, key.user, key.table) == Some(r.1.instance) && r.1.ctx !in r.0.freed)
            && (loads && constructs ==> (r.1.Found? <==> Fresh(w.cat, key.user, key.table).Some?))
  {
    BuildIsValid(w.cache, w.cat, key, loads, constructs);
    BuiltIsFresh(w.cat, w.cache, key, loads, constructs);
    BuiltContextIsNew(w.cache, w.cat, key, loads, constructs);
    var r := Built(w.cache, w.cat, key, loads, constructs);
    forall k | k in r.0.entries
      ensures EntryCoherent(w.(cache := r.0), k)
    {
      BuiltEntries(w, key, loads, constructs, k);
    }
    hide Built, Valid, EntryCoherent;
  }

  lemma BuiltContextIsNew(c: Cache, cat: Catalog, key: Key, loads: bool, constructs: bool)
    requires Valid(c)
    ensures var r := Built(c, cat, key, loads, constructs); r.1.Found? ==> r.1.ctx !in r.0.freed
  {
    hide ModulePath, MergedOptions;
  }

  /**
   What a lookup may answer: an instance the catalog asks for, in a context that is alive, or an error; each
   error only where it is due.
   */
  ghost predicate AnswersLookup(cat: Catalog, user: Oid, table: Oid, answer: Answer, freed: multiset<nat>) {
    && answer != Failed(AlreadyExists)
    && (answer == Failed(NoSuchTable) <==> table !in cat.tables)
    && (answer == Failed(NoModuleOption) <==> NoModule(cat, table))
    && (answer.Found? ==> IsAsked(cat, user, table, answer.instance) && answer.ctx !in freed)
  }

  lemma BuiltFailures(c: Cache, cat: Catalog, key: Key, loads: bool, constructs: bool)
    requires key !in c.entries
    ensures var r := Built(c, cat, key, loads, constructs);
            && (r.1 == Failed(NoSuchTable) <==> key.table !in cat.tables)
            && (r.1 == Failed(NoModuleOption) <==> NoModule(cat, key.table))
  {
    hide ModulePath, MergedOptions, NoModule;
    if key.table in cat.tables {
      PathIsModule(cat, key.user, key.table);
    } else {
      NoTableNoModule(cat, key.table);
    }
  }

  lemma NoTableNoModule(cat: Catalog, table: Oid)
    ensures NoModule(cat, table) ==> table in cat.tables
  {
  }

  /** A lookup returns what a build would have returned, from a context that is alive. */
  lemma {:induction false} LookupIsFresh(w: World, e: Event)
    requires Coherent(w) && e.Lookup?
    ensures var o := Step(w, e);
            && Coherent(o.world)
            && o.answer.Some? && AnswersLookup(w.cat, e.user, e.table, o.answer.value, o.world.cache.freed)
            && Tells(w, e, o.answer.value)
            && (e.loads && e.constructs ==>
                  (o.answer.value.Found? <==> exists instance :: IsAsked(w.cat, e.user, e.table, instance)))
  {
    hide Coherent, Checked, Flushed, Built, Fresh, IsAsked, NoModule;
    var key := Key(e.user, e.table);
    var c := Checked(Flushed(w.cache), w.cat, key);
    CheckedIsCoherent(w, key);
    FreshIsAsked(w.cat, e.user, e.table);
    if key in c.entries {
      CachedIsFresh(w.(cache := c), key);
      FreshHasModule(w.cat, e.user, e.table);
    } else {
      BuiltIsCoherent(w.(cache := c), key, e.loads, e.constructs);
      BuiltFailures(c, w.cat, key, e.loads, e.constructs);
      BuiltTells(c, w.cat, key, e.loads, e.constructs);
    }
    CheckedKeeps(w, key);
  }

  /**
   Without a cached instance one is found only if the module loads and its constructor returns; otherwise
   the error is that of the step that failed.
   */
  ghost predicate Tells(w: World, e: Event, answer: Answer)
    requires e.Lookup?
  {
    && (answer.Found? ==>
          || (e.loads && e.constructs)
          || (Key(e.user, e.table) in w.cache.entries
              && answer == Found(w.cache.entries[Key(e.user, e.table)].ctx,
                                 w.cache.entries[Key(e.user, e.table)].instance)))
    && (answer == Failed(LoadFailed) ==>
          !e.loads || forall instance :: !IsAsked(w.cat, e.user, e.table, instance))
    && (answer == Failed(ConstructorThrew) ==> e.loads && !e.constructs)
  }

  lemma BuiltTells(c: Cache, cat: Catalog, key: Key, loads: bool, constructs: bool)
    ensures var r := Built(c, cat, key, loads, constructs);
            && (r.1.Found? ==> loads && constructs)
            && (r.1 == Failed(LoadFailed) ==> !loads || Fresh(cat, key.user, key.table) == None)
            && (r.1 == Failed(ConstructorThrew) ==> loads && !constructs)
  {
    hide ModulePath, MergedOptions;
  }

  lemma CheckedKeeps(w: World, key: Key)
    ensures var c := Checked(Flushed(w.cache), w.cat, key);
            key in c.entries ==> key in w.cache.entries && c.entries[key] == w.cache.entries[key]
  {
  }

  lemma FreshHasModule(cat: Catalog, user: Oid, table: Oid)
    ensures Fresh(cat, user, table).Some? ==> table in cat.tables && !NoModule(cat, table)
  {
    hide NoModule, MergedOptions, ModulePath;
    PathMeansTable(cat, table);
    if table in cat.tables {
      PathIsModule(cat, user, table);
    }
  }

  lemma {:induction false} StepCoherent(w: World, e: Event)
    requires Coherent(w) && Possible(w, e)
    ensures Coherent(Step(w, e).world)
  {
    if e.Lookup? {
      LookupIsFresh(w, e);
    } else {
      ChangeIsCoherent(w, e);
    }
  }

  lemma {:induction false} ChangeIsCoherent(w: World, e: Event)
    requires Coherent(w) && Possible(w, e) && !e.Lookup?
    ensures Coherent(Step(w, e).world)
  {
    hide ModulePath, MergedOptions, GetOrCreateStep, Contexts;
    var w' := Step(w, e).world;
    forall k | k in w'.cache.entries
      ensures EntryCoherent(w', k)
    {
      assert EntryCoherent(w, k);
      SameLookups(w.cat, w'.cat, k);
    }
  }

  lemma SameLookups(a: Catalog, b: Catalog, k: Key)
    ensures a.tables == b.tables && a.servers == b.servers && a.mappings == b.mappings ==>
      && ModulePath(a, k.table) == ModulePath(b, k.table)
      && (k.table in a.tables ==> MergedOptions(a, k.user, k.table) == MergedOptions(b, k.user, k.table))
  {
  }

  /** The answers of a run, each with the world it was given in. */
  function Run(w: World, events: seq<Event>): World
    decreases |events|
  {
    if events == [] then w else Run(Step(w, events[0]).world, events[1..])
  }

  predicate PossibleRun(w: World, events: seq<Event>)
    decreases |events|
  {
    events == [] || (Possible(w, events[0]) && PossibleRun(Step(w, events[0]).world, events[1..]))
  }

  lemma {:induction false} RunCoherent(w: World, events: seq<Event>)
    requires Coherent(w) && PossibleRun(w, events)
    ensures Coherent(Run(w, events))
    decreases |events|
  {
    hide Coherent, Possible;
    if events != [] {
      StepCoherent(w, events[0]);
      RunCoherent(Step(w, events[0]).world, events[1..]);
    }
  }

  /**
   After any run from an empty cache, a lookup that succeeds returns an instance
   of the current source and the current options, in a live context; the
   "already exists" error never occurs; and every context is cached or has been
   freed once.
   */
  lemma EveryLookupIsFresh(cat: Catalog, history: map<Version, string>, events: seq<Event>,
                           user: Oid, table: Oid, loads: bool, constructs: bool)
    requires forall p :: p in cat.modules ==>
      cat.modules[p].version in history && history[cat.modules[p].version] == cat.modules[p].source
    requires PossibleRun(World(cat, EMPTY, history), events)
    ensures var w := Run(World(cat, EMPTY, history), events);
            var o := Step(w, Lookup(user, table, loads, constructs));
            && o.answer.Some? && AnswersLookup(w.cat, user, table, o.answer.value, o.world.cache.freed)
            && (loads && constructs ==>
                  (o.answer.value.Found? <==> exists instance :: IsAsked(w.cat, user, table, instance)))
            && (forall x :: o.world.cache.freed[x] <= 1)
            && (forall x :: 0 <= x < o.world.cache.nextContext ==>
                  x in o.world.cache.freed || x in Contexts(o.world.cache.entries))
  {
    hide AnswersLookup, IsAsked;
    var start := World(cat, EMPTY, history);
    RunCoherent(start, events);
    LookupIsFresh(Run(start, events), Lookup(user, table, loads, constructs));
  }

  // ----- one instance for all lookups

  /** The entry is there, current, and not waiting for a flush. */
  predicate Holds(w: World, key: Key, entry: Entry) {
    !w.cache.pending && key in w.cache.entries && w.cache.entries[key] == entry && IsCurrent(w.cat, entry)
  }

  /** Not DDL, and not a change of the module's row. */
  predicate LeavesAlone(e: Event, path: string) {
    !e.Ddl? && (e.WriteModule? || e.DeleteModule? ==> e.path != path)
  }

  lemma {:induction false} StepHolds(w: World, e: Event, key: Key, entry: Entry)
    requires Holds(w, key, entry) && LeavesAlone(e, entry.modulePath)
    ensures Holds(Step(w, e).world, key, entry)
    ensures e.Lookup? && Key(e.user, e.table) == key ==> Step(w, e).answer == Some(Found(entry.ctx, entry.instance))
  {
    hide ModulePath, MergedOptions;
  }

  lemma {:induction false} RunHolds(w: World, events: seq<Event>, key: Key, entry: Entry)
    requires Holds(w, key, entry) && forall i :: 0 <= i < |events| ==> LeavesAlone(events[i], entry.modulePath)
    ensures Holds(Run(w, events), key, entry)
    decreases |events|
  {
    hide Holds, Step, LeavesAlone;
    if events != [] {
      StepHolds(w, events[0], key, entry);
      RunHolds(Step(w, events[0]).world, events[1..], key, entry);
    }
  }

  lemma {:induction false} FoundHolds(w: World, e: Event)
    requires Coherent(w) && e.Lookup? && Step(w, e).answer.Some? && Step(w, e).answer.value.Found?
    ensures var o, key := Step(w, e), Key(e.user, e.table);
            && key in o.world.cache.entries && Holds(o.world, key, o.world.cache.entries[key])
            && o.answer.value == Found(o.world.cache.entries[key].ctx, o.world.cache.entries[key].instance)
            && ModulePath(o.world.cat, e.table) == Some(o.world.cache.entries[key].modulePath)
  {
    hide ModulePath, MergedOptions, Flushed, Checked, Coherent;
    CheckedIsCoherent(w, Key(e.user, e.table));
    LookupIsFresh(w, e);
    CoherentPath(Step(w, e).world, Key(e.user, e.table));
  }

  lemma CoherentPath(w: World, key: Key)
    requires Coherent(w) && !w.cache.pending && key in w.cache.entries
    ensures ModulePath(w.cat, key.table) == Some(w.cache.entries[key].modulePath)
  {
    hide Valid, MergedOptions;
    assert EntryCoherent(w, key);
  }

  /**
   A class is constructed once: until there is DDL, or the row of the table's module changes, every lookup
   of the role and table finds the same instance in the same context.
   */
  lemma {:induction false} SameInstance(w: World, e: Event, path: string, between: seq<Event>)
    requires Coherent(w) && e.Lookup? && Step(w, e).answer.Some? && Step(w, e).answer.value.Found?
    requires exists l: Lists :: AreLists(w.cat, e.user, e.table, l) && ModuleIs(l, path)
    requires forall i :: 0 <= i < |between| ==> LeavesAlone(between[i], path)
    ensures var again := Run(Step(w, e).world, between);
            forall loads, constructs ::
              Step(again, Lookup(e.user, e.table, loads, constructs)).answer == Step(w, e).answer
  {
    hide Coherent, Step, Holds, LeavesAlone, Run, ModulePath, ModuleIs, NoModule;
    var key, w' := Key(e.user, e.table), Step(w, e).world;
    FoundHolds(w, e);
    LookupKeepsCatalog(w, e);
    PathIsModule(w.cat, e.user, e.table);
    var l: Lists :| AreLists(w.cat, e.user, e.table, l) && ModuleIs(l, path);
    assert l == ListsOf(w.cat, e.user, e.table);
    var entry := w'.cache.entries[key];
    RunHolds(w', between, key, entry);
    forall loads, constructs
      ensures Step(Run(w', between), Lookup(e.user, e.table, loads, constructs)).answer == Step(w, e).answer
    {
      LookupLeavesAlone(e.user, e.table, loads, constructs, entry.modulePath);
      StepHolds(Run(w', between), Lookup(e.user, e.table, loads, constructs), key, entry);
    }
  }

  lemma LookupLeavesAlone(user: Oid, table: Oid, loads: bool, constructs: bool, path: string)
    ensures LeavesAlone(Lookup(user, table, loads, constructs), path)
  {
  }

  lemma LookupKeepsCatalog(w: World, e: Event)
    requires e.Lookup?
    ensures Step(w, e).world.cat == w.cat
  {
    hide GetOrCreateStep;
  }

  // ----- the cache object over a run

  /**
   One event as the running cache sees it: DDL reaches it through the syscache callback, a module
   write not at all.
   */
  method Handle(cache: InstanceCache, w: World, e: Event) returns (o: Outcome)
    requires cache.View() == w.cache && Valid(w.cache)
    modifies cache
    ensures o == Step(w, e) && cache.View() == o.world.cache
  {
    hide GetOrCreateStep, Valid;
    match e
    case Ddl(tables, servers, mappings) =>
      cache.SyscacheCallback();
      o := Outcome(World(Catalog(w.cat.modules, tables, servers, mappings), cache.View(), w.history), None);
    case WriteModule(path, source, version) =>
      o := Outcome(World(w.cat.(modules := w.cat.modules[path := ModuleRow(version, source)]), cache.View(),
                         w.history[version := source]), None);
    case DeleteModule(path) =>
      o := Outcome(World(w.cat.(modules := w.cat.modules - {path}), cache.View(), w.history), None);
    case Lookup(user, table, loads, constructs) =>
      var answer := cache.GetOrCreate(w.cat, user, table, loads, constructs);
      o := Outcome(World(w.cat, cache.View(), w.history), Some(answer));
  }

  /** The answer a backend may give to an event. */
  ghost predicate FreshAnswer(before: World, e: Event, o: Outcome) {
    e.Lookup? ==>
      o.answer.Some? && AnswersLookup(before.cat, e.user, e.table, o.answer.value, o.world.cache.freed)
  }

  lemma {:induction false} RunSnoc(w: World, events: seq<Event>, e: Event)
    ensures Run(w, events + [e]) == Step(Run(w, events), e).world
    decreases |events|
  {
    hide Step;
    if events == [] {
      assert [e][1..] == [] && events + [e] == [e];
    } else {
      assert (events + [e])[1..] == events[1..] + [e];
      RunSnoc(Step(w, events[0]).world, events[1..], e);
    }
  }

  /** A backend's life: every lookup is answered by a fresh instance, as if there were no cache. */
  method Serve(cache: InstanceCache, start: World, events: seq<Event>)
    returns (end: World, answers: seq<Option<Answer>>)
    requires cache.View() == start.cache && Coherent(start) && PossibleRun(start, events)
    modifies cache
    ensures end == Run(start, events) && cache.View() == end.cache && Coherent(end)
    ensures |answers| == |events|
    ensures forall k :: 0 <= k < |events| ==>
      var before := Run(start, events[..k]);
      var o := Step(before, events[k]);
      answers[k] == o.answer && FreshAnswer(before, events[k], o)
  {
    hide Coherent, Step, FreshAnswer, Possible, Run;
    end, answers := start, [];
    assert events[0..] == events;
    NoEvents(start);
    for k := 0 to |events|
      invariant cache.View() == end.cache && Coherent(end) && PossibleRun(end, events[k..])
      invariant end == Run(start, events[..k])
      invariant |answers| == k
      invariant forall j :: 0 <= j < k ==>
        answers[j] == Step(Run(start, events[..j]), events[j]).answer
        && FreshAnswer(Run(start, events[..j]), events[j], Step(Run(start, events[..j]), events[j]))
    {
      assert events[k..][1..] == events[k + 1..];
      StepIsFresh(end, events[k]);
      var o := Handle(cache, end, events[k]);
      RunSnoc(start, events[..k], events[k]);
      assert events[..k] + [events[k]] == events[..k + 1];
      end := o.world;
      answers := answers + [o.answer];
    }
    assert events[..|events|] == events;
  }

  lemma NoEvents(w: World)
    ensures forall events: seq<Event> :: events == [] ==> Run(w, events) == w
  {
  }

  lemma StepIsFresh(w: World, e: Event)
    requires Coherent(w) && Possible(w, e)
    ensures Valid(w.cache) && Coherent(Step(w, e).world) && FreshAnswer(w, e, Step(w, e))
  {
    hide Step, AnswersLookup, IsAsked;
    StepCoherent(w, e);
    if e.Lookup? {
      LookupIsFresh(w, e);
    }
  }
}
