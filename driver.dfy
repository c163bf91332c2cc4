/**
 * The module registry and the driver matching of egldriver.c.
 *
 * `_eglModules` is either absent (NULL) or an array of named modules, kept
 * free of duplicate names. It is filled once, from `EGL_DRIVER` or from the
 * built-in table, and each module's driver is constructed on first use.
 * Matching walks the array in order, drops every module whose driver cannot
 * be constructed, and stops at the first driver that initializes the
 * display; a second walk with the fallback flag set follows a failed one.
 *
 * The registry state is also given as a value (`Modules`), and each step
 * of the source as a function on that value; the methods of
 * `ModuleRegistry` are proved to compute those functions, and the lemmas
 * say what the functions guarantee.
 */
module EglDriver {
  import opened EglTypes
  import opened EglSeqs
  import opened EglDisplay

  /** `_EGLModule`: a name, the built-in entry point, the driver once loaded. */
  datatype Module = Module(name: string, builtIn: Option<EntryPoint>, driver: Option<Driver>)

  /** An entry of `_eglBuiltInDrivers` (the NULL terminator excluded). */
  datatype BuiltIn = BuiltIn(name: string, main: EntryPoint)

  /**
   * The outcome of the allocations one `_eglAddModule` call makes: the array
   * (only tried while there is none) and the module record with its copy of
   * the name (`calloc` and `strdup` together).
   */
  datatype Alloc = Alloc(arrayOk: bool, recordOk: bool)

  /** `_eglModules` as a value: absent (`created` false) or an array. */
  datatype Modules = Modules(created: bool, list: seq<Module>)

  /**
   * What matching asks outside the core: the `EGL_DRIVER` variable, the
   * built-in constructors (`BuiltIn(NULL)`, NULL as `None`), and whether a
   * driver's `Initialize` accepts the display being matched under the given
   * options.
   */
  datatype Host = Host(
    driverEnv: Option<string>,
    construct: EntryPoint -> Option<Driver>,
    initialize: (Driver, Options) -> bool)

  /** The names of the modules, in array order. */
  function Names(ms: seq<Module>): seq<string> {
    seq(|ms|, k requires 0 <= k < |ms| => ms[k].name)
  }

  /** The names of the built-in table, in table order. */
  function TableNames(table: seq<BuiltIn>): seq<string> {
    seq(|table|, k requires 0 <= k < |table| => table[k].name)
  }

  /**
   * The loaded modules come first: a module with a driver is preceded only
   * by modules with drivers.
   */
  predicate LoadedFirst(ms: seq<Module>) {
    forall i, j :: 0 <= i < j < |ms| && ms[j].driver.Some? ==> ms[i].driver.Some?
  }

  /**
   * What every operation keeps of the registry: no array means no modules,
   * names are pairwise distinct, a loaded driver always has a name, and the
   * loaded modules come first.
   */
  predicate ModulesOk(s: Modules) {
    && (!s.created ==> s.list == [])
    && Distinct(Names(s.list))
    && (forall k :: 0 <= k < |s.list| && s.list[k].driver.Some? ==> s.list[k].driver.value.name.Some?)
    && LoadedFirst(s.list)
  }

  /**
   * `_eglAddModule`: create the array if there is none, return the index of
   * the module called `name` if there is one, and otherwise append a fresh
   * module with that name, no entry point and no driver.
   */
  function AddModuleSpec(s: Modules, name: string, a: Alloc): (r: (Modules, Option<nat>))
    ensures ModulesOk(s) ==> ModulesOk(r.0)
    ensures r.0.created == (s.created || a.arrayOk)
    ensures r.1.Some? ==> r.1.value < |r.0.list| && r.0.list[r.1.value].name == name
    ensures r.1.None? ==> r.0.list == s.list
    ensures name in Names(s.list) && r.0.created ==> r.0.list == s.list && r.1 == IndexOf(Names(s.list), name)
    ensures name !in Names(s.list) && r.0.created && a.recordOk ==>
              r.0.list == s.list + [Module(name, None, None)] && r.1 == Some(|s.list|)
    ensures name !in Names(s.list) && !(r.0.created && a.recordOk) ==> r.0.list == s.list && r.1.None?
  {
    if !s.created && !a.arrayOk then (s, None)
    else
      match IndexOf(Names(s.list), name)
      case Some(k) => (Modules(true, s.list), Some(k))
      case None =>
        if a.recordOk then
          var ms := s.list + [Module(name, None, None)];
          assert Names(ms) == Names(s.list) + [name];
          (Modules(true, ms), Some(|s.list|))
        else (Modules(true, s.list), None)
  }

  /** `mod->BuiltIn = main` on the module `_eglAddModule` returned, if any. */
  function Bind(s: Modules, idx: Option<nat>, main: EntryPoint): (r: Modules)
    ensures r.created == s.created && Names(r.list) == Names(s.list)
    ensures |r.list| == |s.list| && forall k :: 0 <= k < |s.list| ==> r.list[k].driver == s.list[k].driver
    ensures ModulesOk(s) ==> ModulesOk(r)
    ensures idx.Some? && idx.value < |s.list| ==> r.list[idx.value].builtIn == Some(main)
    ensures forall k :: 0 <= k < |s.list| && idx != Some(k) ==> r.list[k] == s.list[k]
  {
    if idx.Some? && idx.value < |s.list| then
      Modules(s.created, s.list[idx.value := s.list[idx.value].(builtIn := Some(main))])
    else s
  }

  /**
   * `_eglAddBuiltInDrivers` from table entry `i` on: register each entry's
   * name, `alloc(k)` being the allocation outcome for entry `k`, and bind
   * its entry point.
   */
  function AddBuiltInsFrom(s: Modules, table: seq<BuiltIn>, alloc: nat -> Alloc, i: nat): (r: Modules)
    requires i <= |table|
    ensures ModulesOk(s) ==> ModulesOk(r)
    ensures s.created ==> r.created
    ensures |s.list| <= |r.list|
    decreases |table| - i
  {
    if i == |table| then s
    else
      var (s1, idx) := AddModuleSpec(s, table[i].name, alloc(i));
      AddBuiltInsFrom(Bind(s1, idx, table[i].main), table, alloc, i + 1)
  }

  /** The table entry `EGL_DRIVER` names exactly, if it is set and names one. */
  function UserIndex(table: seq<BuiltIn>, env: Option<string>): (r: Option<nat>)
    ensures r.Some? ==> env.Some? && r.value < |table| && table[r.value].name == env.value
    ensures r.None? ==> env.None? || env.value !in TableNames(table)
  {
    if env.None? then None else IndexOf(TableNames(table), env.value)
  }

  /**
   * `_eglAddUserDriver`: when `EGL_DRIVER` names a built-in, register that
   * one module, bind its entry point and report true; otherwise change
   * nothing and report false.
   */
  function AddUserDriverSpec(s: Modules, table: seq<BuiltIn>, env: Option<string>, alloc: nat -> Alloc): (r: (Modules, bool))
    ensures r.1 == UserIndex(table, env).Some?
    ensures !r.1 ==> r.0 == s
    ensures ModulesOk(s) ==> ModulesOk(r.0)
  {
    match UserIndex(table, env)
    case None => (s, false)
    case Some(k) =>
      var (s1, idx) := AddModuleSpec(s, env.value, alloc(k));
      (Bind(s1, idx, table[k].main), true)
  }

  /**
   * `_eglAddDrivers`: nothing to do once the array exists; otherwise the
   * user driver, or else every built-in; the result says whether the array
   * exists afterwards.
   */
  function AddDriversSpec(s: Modules, table: seq<BuiltIn>, env: Option<string>, alloc: nat -> Alloc): (r: (Modules, bool))
    ensures s.created ==> r == (s, true)
    ensures r.1 == r.0.created
    ensures ModulesOk(s) ==> ModulesOk(r.0)
  {
    if s.created then (s, true)
    else
      var (s1, found) := AddUserDriverSpec(s, table, env, alloc);
      var s2 := if found then s1 else AddBuiltInsFrom(s1, table, alloc, 0);
      (s2, s2.created)
  }

  /** The modules every built-in yields when nothing fails: table order, entry point bound, no driver. */
  function Registered(table: seq<BuiltIn>): (r: seq<Module>)
    ensures |r| == |table|
    ensures Names(r) == TableNames(table)
  {
    seq(|table|, k requires 0 <= k < |table| => Module(table[k].name, Some(table[k].main), None))
  }

  /**
   * With distinct table names and no allocation failure, registering the
   * built-ins from entry `i` on completes the first `i` into the whole table.
   */
  lemma {:induction false} AddBuiltInsAllSucceed(table: seq<BuiltIn>, alloc: nat -> Alloc, i: nat)
    requires i <= |table| && Distinct(TableNames(table))
    requires forall k :: 0 <= k < |table| ==> alloc(k).arrayOk && alloc(k).recordOk
    ensures AddBuiltInsFrom(Modules(i > 0, Registered(table[..i])), table, alloc, i) == Modules(|table| > 0, Registered(table))
    decreases |table| - i
  {
    if i < |table| {
      calc {
        AddBuiltInsFrom(Modules(i > 0, Registered(table[..i])), table, alloc, i);
        == { RegisterNext(table, alloc, i); }
        AddBuiltInsFrom(Modules(i + 1 > 0, Registered(table[..i + 1])), table, alloc, i + 1);
        == { AddBuiltInsAllSucceed(table, alloc, i + 1); }
        Modules(|table| > 0, Registered(table));
      }
    } else {
      RegisteredAll(table, alloc);
    }
  }

  /** With the whole table registered there is nothing left to add. */
  lemma RegisteredAll(table: seq<BuiltIn>, alloc: nat -> Alloc)
    ensures AddBuiltInsFrom(Modules(|table| > 0, Registered(table[..|table|])), table, alloc, |table|)
         == Modules(|table| > 0, Registered(table))
  {
    assert table[..|table|] == table;
  }

  /** One successful registration step extends the registered prefix of the table by entry `i`. */
  lemma RegisterNext(table: seq<BuiltIn>, alloc: nat -> Alloc, i: nat)
    requires i < |table| && Distinct(TableNames(table))
    requires alloc(i).arrayOk && alloc(i).recordOk
    ensures AddBuiltInsFrom(Modules(i > 0, Registered(table[..i])), table, alloc, i)
         == AddBuiltInsFrom(Modules(i + 1 > 0, Registered(table[..i + 1])), table, alloc, i + 1)
  {
    var s := Modules(i > 0, Registered(table[..i]));
    var name := table[i].name;
    assert name !in Names(s.list) by {
      forall k | 0 <= k < i ensures Names(s.list)[k] != name {
        assert Names(s.list)[k] == table[k].name == TableNames(table)[k];
        assert TableNames(table)[k] != TableNames(table)[i];
      }
    }
    var (s1, idx) := AddModuleSpec(s, name, alloc(i));
    assert s1.list == s.list + [Module(name, None, None)] && idx == Some(i);
    assert Bind(s1, idx, table[i].main) == Modules(true, Registered(table[..i + 1]));
  }

  /**
   * `_eglAddDrivers` on an absent array, when `EGL_DRIVER` names no
   * built-in and nothing fails: every built-in, in table order.
   */
  lemma AddDriversDefault(table: seq<BuiltIn>, env: Option<string>, alloc: nat -> Alloc)
    requires UserIndex(table, env).None? && Distinct(TableNames(table))
    requires forall k :: 0 <= k < |table| ==> alloc(k).arrayOk && alloc(k).recordOk
    ensures AddDriversSpec(Modules(false, []), table, env, alloc) == (Modules(|table| > 0, Registered(table)), |table| > 0)
  {
    var s := Modules(false, []);
    assert AddUserDriverSpec(s, table, env, alloc) == (s, false);
    assert Registered(table[..0]) == [];
    AddBuiltInsAllSucceed(table, alloc, 0);
    assert AddBuiltInsFrom(s, table, alloc, 0) == Modules(|table| > 0, Registered(table));
  }

  /**
   * `_eglAddDrivers` on an absent array, when `EGL_DRIVER` names built-in
   * `k` and nothing fails: that one module only, with its entry point.
   */
  lemma AddDriversUser(table: seq<BuiltIn>, env: Option<string>, alloc: nat -> Alloc, k: nat)
    requires UserIndex(table, env) == Some(k)
    requires alloc(k).arrayOk && alloc(k).recordOk
    ensures AddDriversSpec(Modules(false, []), table, env, alloc) == (Modules(true, [Module(table[k].name, Some(table[k].main), None)]), true)
  {
    var s := Modules(false, []);
    var name := env.value;
    assert |Names(s.list)| == 0 && name !in Names(s.list);
    assert s.list + [Module(name, None, None)] == [Module(name, None, None)];
    assert AddModuleSpec(s, name, alloc(k)) == (Modules(true, [Module(name, None, None)]), Some(0));
    assert Bind(Modules(true, [Module(name, None, None)]), Some(0), table[k].main) == Modules(true, [Module(name, Some(table[k].main), None)]);
  }

  /**
   * `_eglLoadModule`: the driver a module has after a load attempt. A loaded
   * module keeps its driver; otherwise the entry point must exist and
   * construct a driver that has a name.
   */
  function LoadResult(m: Module, construct: EntryPoint -> Option<Driver>): (r: Option<Driver>)
    ensures m.driver.Some? ==> r == m.driver
    ensures m.driver.None? && r.Some? ==> m.builtIn.Some? && construct(m.builtIn.value) == r && r.value.name.Some?
    ensures (m.driver.None? && m.builtIn.Some? && construct(m.builtIn.value).Some?
             && construct(m.builtIn.value).value.name.Some?) ==> r.Some?
  {
    if m.driver.Some? then m.driver
    else if m.builtIn.None? then None
    else match construct(m.builtIn.value)
      case None => None
      case Some(d) => if d.name.None? then None else Some(d)
  }

  /** Loading is idempotent: a module loaded once loads to the same driver again. */
  lemma LoadIdempotent(m: Module, construct: EntryPoint -> Option<Driver>)
    requires LoadResult(m, construct).Some?
    ensures LoadResult(m.(driver := LoadResult(m, construct)), construct) == LoadResult(m, construct)
  {
  }

  /**
   * `_eglFreeModule` through `_eglUnloadModule`: the driver whose `Unload`
   * hook runs when the module is freed, if any.
   */
  function UnloadCall(m: Module): (r: Option<Driver>)
    ensures r.Some? <==> m.driver.Some? && m.driver.value.hasUnload
    ensures r.Some? ==> r == m.driver
  {
    if m.driver.Some? && m.driver.value.hasUnload then m.driver else None
  }

  /** A module evicted because it does not load has no driver, so freeing it unloads nothing. */
  lemma EvictedModuleUnloadsNothing(m: Module, construct: EntryPoint -> Option<Driver>)
    requires LoadResult(m, construct).None?
    ensures UnloadCall(m).None?
  {
  }

  /**
   * The walk of `_eglMatchAndInitialize` over `ms`: the array it leaves and
   * the driver it returns. A module that does not load is dropped; a loaded
   * one is kept with its driver cached; the walk stops at the first driver
   * whose `Initialize` accepts the display.
   */
  function Walk(ms: seq<Module>, host: Host, opts: Options): (r: (seq<Module>, Option<Driver>))
  {
    if ms == [] then ([], None)
    else match LoadResult(ms[0], host.construct)
      case None => Walk(ms[1..], host, opts)
      case Some(d) =>
        var m := ms[0].(driver := Some(d));
        if host.initialize(d, opts) then ([m] + ms[1..], Some(d))
        else var rest := Walk(ms[1..], host, opts); ([m] + rest.0, rest.1)
  }

  /** One step of the walk, at position `i` of `ms`. */
  lemma WalkFrom(ms: seq<Module>, i: nat, host: Host, opts: Options)
    requires i < |ms|
    ensures var d := LoadResult(ms[i], host.construct);
            var rest := Walk(ms[i + 1..], host, opts);
            Walk(ms[i..], host, opts) ==
              if d.None? then rest
              else if host.initialize(d.value, opts) then ([ms[i].(driver := d)] + ms[i + 1..], d)
              else ([ms[i].(driver := d)] + rest.0, rest.1)
  {
    assert ms[i..][0] == ms[i] && ms[i..][1..] == ms[i + 1..];
  }

  /** What the in-place walk has established after index `i` of `ms`: the walk of `start` is the kept prefix followed by the walk of the rest. */
  predicate WalkedTo(start: seq<Module>, ms: seq<Module>, i: nat, host: Host, opts: Options) {
    && i <= |ms|
    && Walk(start, host, opts).0 == ms[..i] + Walk(ms[i..], host, opts).0
    && Walk(start, host, opts).1 == Walk(ms[i..], host, opts).1
  }

  /** One iteration of the in-place walk at index `i`: erase, stop, or cache and advance. */
  lemma WalkStep(start: seq<Module>, ms: seq<Module>, i: nat, host: Host, opts: Options)
    requires WalkedTo(start, ms, i, host, opts) && i < |ms|
    ensures var d := LoadResult(ms[i], host.construct);
            && (d.None? ==> WalkedTo(start, ms[..i] + ms[i + 1..], i, host, opts))
            && (d.Some? && host.initialize(d.value, opts) ==>
                  Walk(start, host, opts) == (ms[i := ms[i].(driver := d)], d))
            && (d.Some? && !host.initialize(d.value, opts) ==>
                  WalkedTo(start, ms[i := ms[i].(driver := d)], i + 1, host, opts))
  {
    WalkFrom(ms, i, host, opts);
    var d := LoadResult(ms[i], host.construct);
    if d.None? {
      var ms' := ms[..i] + ms[i + 1..];
      assert ms'[..i] == ms[..i] && ms'[i..] == ms[i + 1..];
    } else {
      var ms' := ms[i := ms[i].(driver := d)];
      assert ms'[..i] == ms[..i] && ms'[i + 1..] == ms[i + 1..];
      if host.initialize(d.value, opts) {
        assert ms' == ms[..i] + ([ms'[i]] + ms[i + 1..]);
      } else {
        assert ms'[..i + 1] == ms[..i] + [ms'[i]];
      }
    }
  }

  /** The modules of `ms` that load, in order, each with its driver cached. */
  function LoadAll(ms: seq<Module>, construct: EntryPoint -> Option<Driver>): (r: seq<Module>)
    ensures |r| <= |ms|
    ensures forall k :: 0 <= k < |r| ==> r[k].driver.Some?
  {
    if ms == [] then []
    else match LoadResult(ms[0], construct)
      case None => LoadAll(ms[1..], construct)
      case Some(d) => [ms[0].(driver := Some(d))] + LoadAll(ms[1..], construct)
  }

  /**
   * Module `p` is the first of `ms` that loads and whose driver initializes
   * the display; every module before it either does not load or fails.
   */
  predicate FirstSuccessAt(ms: seq<Module>, p: nat, host: Host, opts: Options) {
    && p < |ms|
    && LoadResult(ms[p], host.construct).Some?
    && host.initialize(LoadResult(ms[p], host.construct).value, opts)
    && forall j :: 0 <= j < p && LoadResult(ms[j], host.construct).Some? ==>
         !host.initialize(LoadResult(ms[j], host.construct).value, opts)
  }

  /** No module of `ms` both loads and initializes the display. */
  predicate NoSuccess(ms: seq<Module>, host: Host, opts: Options) {
    forall j :: 0 <= j < |ms| && LoadResult(ms[j], host.construct).Some? ==>
      !host.initialize(LoadResult(ms[j], host.construct).value, opts)
  }

  /**
   * First success: when module `p` is the first that loads and initializes,
   * the walk returns its driver, drops the modules before it that do not
   * load, keeps the others before it with their drivers cached, and leaves
   * every module after it untouched.
   */
  lemma {:induction false} WalkFirstSuccess(ms: seq<Module>, p: nat, host: Host, opts: Options)
    requires FirstSuccessAt(ms, p, host, opts)
    ensures Walk(ms, host, opts) == (LoadAll(ms[..p + 1], host.construct) + ms[p + 1..], LoadResult(ms[p], host.construct))
  {
    if p == 0 {
      WalkStopsAtHead(ms, host, opts);
    } else {
      FirstSuccessTail(ms, p, host, opts);
      WalkFirstSuccess(ms[1..], p - 1, host, opts);
      WalkPastHead(ms, p, host, opts);
    }
  }

  /** The walk stops at a head module that loads and initializes. */
  lemma WalkStopsAtHead(ms: seq<Module>, host: Host, opts: Options)
    requires FirstSuccessAt(ms, 0, host, opts)
    ensures Walk(ms, host, opts) == (LoadAll(ms[..1], host.construct) + ms[1..], LoadResult(ms[0], host.construct))
  {
    WalkFrom(ms, 0, host, opts);
    assert ms[0..] == ms;
    LoadAllPrefixCons(ms, 1, host.construct);
    assert ms[1..][..0] == [];
    assert LoadAll(ms[..1], host.construct) == [ms[0].(driver := LoadResult(ms[0], host.construct))];
  }

  /**
   * Past a head module that fails, the walk's outcome is the head's load
   * result followed by the walk of the tail, given as a first success at `p - 1`.
   */
  lemma WalkPastHead(ms: seq<Module>, p: nat, host: Host, opts: Options)
    requires 0 < p < |ms|
    requires var d := LoadResult(ms[0], host.construct); d.Some? ==> !host.initialize(d.value, opts)
    requires Walk(ms[1..], host, opts) == (LoadAll(ms[1..][..p], host.construct) + ms[1..][p..], LoadResult(ms[1..][p - 1], host.construct))
    ensures Walk(ms, host, opts) == (LoadAll(ms[..p + 1], host.construct) + ms[p + 1..], LoadResult(ms[p], host.construct))
  {
    WalkFrom(ms, 0, host, opts);
    assert ms[0..] == ms;
    LoadAllPrefixCons(ms, p + 1, host.construct);
    assert ms[1..][p..] == ms[p + 1..] && ms[1..][p - 1] == ms[p];
    var d := LoadResult(ms[0], host.construct);
    var tail := LoadAll(ms[1..][..p], host.construct);
    if d.Some? {
      assert [ms[0].(driver := d)] + (tail + ms[p + 1..]) == [ms[0].(driver := d)] + tail + ms[p + 1..];
    }
  }

  /** Loading a non-empty prefix is loading its head, then loading the rest of the prefix. */
  lemma LoadAllPrefixCons(ms: seq<Module>, n: nat, construct: EntryPoint -> Option<Driver>)
    requires 0 < n <= |ms|
    ensures LoadResult(ms[0], construct).None? ==> LoadAll(ms[..n], construct) == LoadAll(ms[1..][..n - 1], construct)
    ensures LoadResult(ms[0], construct).Some? ==>
              LoadAll(ms[..n], construct) == [ms[0].(driver := LoadResult(ms[0], construct))] + LoadAll(ms[1..][..n - 1], construct)
  {
    var pre := ms[..n];
    assert pre[0] == ms[0] && pre[1..] == ms[1..][..n - 1];
  }

  /** A first success at `p > 0` is a first success at `p - 1` of the tail, after a head that fails. */
  lemma FirstSuccessTail(ms: seq<Module>, p: nat, host: Host, opts: Options)
    requires FirstSuccessAt(ms, p, host, opts) && p > 0
    ensures FirstSuccessAt(ms[1..], p - 1, host, opts)
    ensures LoadResult(ms[0], host.construct).Some? ==> !host.initialize(LoadResult(ms[0], host.construct).value, opts)
  {
    forall j | 0 <= j < p - 1 ensures ms[1..][j] == ms[j + 1] { }
  }

  /** No success: the walk returns nothing and keeps exactly the modules that load. */
  lemma {:induction false} WalkNoSuccess(ms: seq<Module>, host: Host, opts: Options)
    requires NoSuccess(ms, host, opts)
    ensures Walk(ms, host, opts) == (LoadAll(ms, host.construct), None)
  {
    if ms != [] {
      assert NoSuccess(ms[1..], host, opts) by {
        forall j | 0 <= j < |ms| - 1 ensures ms[1..][j] == ms[j + 1] { }
      }
      WalkNoSuccess(ms[1..], host, opts);
      assert LoadResult(ms[0], host.construct).Some? ==> !host.initialize(LoadResult(ms[0], host.construct).value, opts);
    }
  }

  /** The walk fails exactly when no module both loads and initializes the display. */
  lemma {:induction false} WalkFailsIff(ms: seq<Module>, host: Host, opts: Options)
    ensures Walk(ms, host, opts).1.None? <==> NoSuccess(ms, host, opts)
  {
    if ms != [] {
      WalkFailsIff(ms[1..], host, opts);
      var d := LoadResult(ms[0], host.construct);
      if NoSuccess(ms, host, opts) {
        assert NoSuccess(ms[1..], host, opts) by {
          forall j | 0 <= j < |ms| - 1 ensures ms[1..][j] == ms[j + 1] { }
        }
      }
      if Walk(ms, host, opts).1.None? {
        assert d.None? || !host.initialize(d.value, opts);
        forall j | 0 <= j < |ms| && LoadResult(ms[j], host.construct).Some?
          ensures !host.initialize(LoadResult(ms[j], host.construct).value, opts)
        {
          if j > 0 { assert ms[j] == ms[1..][j - 1]; }
        }
      }
    }
  }

  /**
   * The driver a walk returns is cached in the array it leaves and
   * accepted the display; when it returns none, every module left is
   * loaded and its driver refused the display.
   */
  lemma {:induction false} WalkOutcome(ms: seq<Module>, host: Host, opts: Options)
    ensures var (l, r) := Walk(ms, host, opts);
            r.Some? ==> host.initialize(r.value, opts) && exists k :: 0 <= k < |l| && l[k].driver == r
    ensures var (l, r) := Walk(ms, host, opts);
            r.None? ==> forall k :: 0 <= k < |l| ==> l[k].driver.Some? && !host.initialize(l[k].driver.value, opts)
  {
    if ms != [] {
      WalkOutcome(ms[1..], host, opts);
      var (l, r) := Walk(ms, host, opts);
      var rest := Walk(ms[1..], host, opts);
      var d := LoadResult(ms[0], host.construct);
      if d.Some? && host.initialize(d.value, opts) {
        assert l[0].driver == r;
      } else if d.Some? {
        assert l == [ms[0].(driver := d)] + rest.0;
        if r.Some? {
          var k :| 0 <= k < |rest.0| && rest.0[k].driver == r;
          assert l[k + 1].driver == r;
        }
      }
    }
  }

  /** Dropping the first module keeps the registry invariant. */
  lemma ModulesOkTail(ms: seq<Module>)
    requires ModulesOk(Modules(true, ms)) && ms != []
    ensures ModulesOk(Modules(true, ms[1..])) && Names(ms[1..]) == Names(ms)[1..]
    ensures ms[0].name !in Names(ms[1..])
  {
    var tail := ms[1..];
    assert Names(tail) == Names(ms)[1..];
    forall i, j | 0 <= i < j < |tail| ensures Names(tail)[i] != Names(tail)[j] {
      assert Names(ms)[i + 1] != Names(ms)[j + 1];
    }
    forall k | 0 <= k < |tail| ensures Names(tail)[k] != ms[0].name {
      assert Names(ms)[0] != Names(ms)[k + 1];
    }
  }

  /** A loaded module with a named driver and a fresh name can head an array that keeps the invariant. */
  lemma ModulesOkCons(m: Module, rest: seq<Module>)
    requires ModulesOk(Modules(true, rest)) && m.name !in Names(rest)
    requires m.driver.Some? && m.driver.value.name.Some?
    ensures ModulesOk(Modules(true, [m] + rest)) && Names([m] + rest) == [m.name] + Names(rest)
  {
    var l := [m] + rest;
    assert Names(l) == [m.name] + Names(rest);
    forall k | 0 <= k < |l| && l[k].driver.Some? ensures l[k].driver.value.name.Some? {
      if k > 0 {
        assert l[k] == rest[k - 1];
      }
    }
  }

  /**
   * The walk keeps what the registry promises: the modules it leaves carry
   * names of modules it was given, stay pairwise distinct by name, and
   * their drivers have names.
   */
  lemma {:induction false} WalkKeepsOk(ms: seq<Module>, host: Host, opts: Options)
    requires ModulesOk(Modules(true, ms))
    ensures ModulesOk(Modules(true, Walk(ms, host, opts).0))
    ensures forall k :: 0 <= k < |Walk(ms, host, opts).0| ==> Walk(ms, host, opts).0[k].name in Names(ms)
  {
    if ms != [] {
      var tail := ms[1..];
      ModulesOkTail(ms);
      WalkKeepsOk(tail, host, opts);
      var d := LoadResult(ms[0], host.construct);
      var l := Walk(ms, host, opts).0;
      var rest := Walk(tail, host, opts).0;
      assert forall k :: 0 <= k < |rest| ==> rest[k].name in Names(ms) by {
        forall k | 0 <= k < |rest| ensures rest[k].name in Names(ms) {
          assert rest[k].name in Names(tail);
        }
      }
      if d.Some? {
        var m := ms[0].(driver := d);
        assert m.name == Names(ms)[0];
        if host.initialize(d.value, opts) {
          assert l == [m] + tail;
          ModulesOkCons(m, tail);
          forall k | 0 <= k < |l| ensures l[k].name in Names(ms) {
            assert Names(l)[k] == l[k].name && Names(l)[k] == Names(ms)[k];
          }
        } else {
          assert l == [m] + rest;
          assert m.name !in Names(rest) by {
            forall k | 0 <= k < |rest| ensures Names(rest)[k] != m.name {
              assert rest[k].name in Names(tail);
            }
          }
          ModulesOkCons(m, rest);
        }
      }
    }
  }

  /**
   * The eviction scenario: `a` cannot be loaded and `b` loads and accepts
   * the display, so the walk returns `b`'s driver and leaves `b` alone in
   * the array; a later walk, for a display `b` accepts as well, returns the
   * same driver at once and changes nothing.
   */
  lemma EvictionScenario(a: Module, b: Module, host: Host, opts: Options, later: Options)
    requires LoadResult(a, host.construct).None? && LoadResult(b, host.construct).Some?
    requires host.initialize(LoadResult(b, host.construct).value, opts)
    requires host.initialize(LoadResult(b, host.construct).value, later)
    ensures var b' := b.(driver := LoadResult(b, host.construct));
            && Walk([a, b], host, opts) == ([b'], LoadResult(b, host.construct))
            && Walk([b'], host, later) == ([b'], LoadResult(b, host.construct))
  {
    var b' := b.(driver := LoadResult(b, host.construct));
    assert [a, b][0..] == [a, b] && [a, b][1..] == [b];
    assert [b][0..] == [b] && [b'][0..] == [b'] && [b'] + [b][1..] == [b'];
    WalkFrom([a, b], 0, host, opts);
    WalkFrom([b], 0, host, opts);
    WalkFrom([b'], 0, host, later);
  }

  /**
   * One `_eglMatchAndInitialize`: populate the array; if that fails, no
   * driver. If the display already carries a driver, only that driver's
   * `Initialize` is asked. Otherwise the walk.
   */
  function MatchOnceSpec(s: Modules, pinned: Option<Driver>, table: seq<BuiltIn>, host: Host,
                         alloc: nat -> Alloc, opts: Options): (r: (Modules, Option<Driver>))
    ensures s.created && pinned.Some? ==> r.0 == s && (r.1 == pinned <==> host.initialize(pinned.value, opts))
    ensures pinned.Some? ==> r.0 == AddDriversSpec(s, table, host.driverEnv, alloc).0
    ensures pinned.Some? ==> r.1 == pinned || r.1.None?
    ensures pinned.Some? ==> (r.1 == pinned <==> AddDriversSpec(s, table, host.driverEnv, alloc).1 && host.initialize(pinned.value, opts))
  {
    var (s1, ok) := AddDriversSpec(s, table, host.driverEnv, alloc);
    if !ok then (s1, None)
    else if pinned.Some? then (s1, if host.initialize(pinned.value, opts) then pinned else None)
    else
      var w := Walk(s1.list, host, opts);
      (Modules(true, w.0), w.1)
  }

  /** One `_eglMatchAndInitialize` keeps the registry invariant. */
  lemma MatchOnceKeepsOk(s: Modules, pinned: Option<Driver>, table: seq<BuiltIn>, host: Host,
                         alloc: nat -> Alloc, opts: Options)
    requires ModulesOk(s)
    ensures ModulesOk(MatchOnceSpec(s, pinned, table, host, alloc, opts).0)
  {
    var (s1, ok) := AddDriversSpec(s, table, host.driverEnv, alloc);
    if ok && pinned.None? {
      WalkKeepsOk(s1.list, host, opts);
    }
  }

  /**
   * `_eglMatchDriver` on the registry: a pass without fallback, and a
   * second pass with fallback only when the first found nothing. The third
   * component is the final `UseFallback` flag.
   */
  function MatchDriverSpec(s: Modules, pinned: Option<Driver>, testOnly: bool, table: seq<BuiltIn>, host: Host,
                           alloc1: nat -> Alloc, alloc2: nat -> Alloc): (r: (Modules, Option<Driver>, bool))
    ensures !r.2 ==> r.1.Some?
    ensures r.2 <==> MatchOnceSpec(s, pinned, table, host, alloc1, Options(testOnly, false)).1.None?
  {
    var (s1, r1) := MatchOnceSpec(s, pinned, table, host, alloc1, Options(testOnly, false));
    if r1.Some? then (s1, r1, false)
    else
      var (s2, r2) := MatchOnceSpec(s1, pinned, table, host, alloc2, Options(testOnly, true));
      (s2, r2, true)
  }

  /** `_eglMatchDriver` keeps the registry invariant. */
  lemma MatchDriverKeepsOk(s: Modules, pinned: Option<Driver>, testOnly: bool, table: seq<BuiltIn>, host: Host,
                           alloc1: nat -> Alloc, alloc2: nat -> Alloc)
    requires ModulesOk(s)
    ensures ModulesOk(MatchDriverSpec(s, pinned, testOnly, table, host, alloc1, alloc2).0)
  {
    MatchOnceKeepsOk(s, pinned, table, host, alloc1, Options(testOnly, false));
    var s1 := MatchOnceSpec(s, pinned, table, host, alloc1, Options(testOnly, false)).0;
    MatchOnceKeepsOk(s1, pinned, table, host, alloc2, Options(testOnly, true));
  }

  /**
   * With the array in place, the first pass decides when some module loads
   * and accepts the display without fallback: the first such module in
   * array order wins, the modules before it that do not load are erased,
   * and no fallback pass runs.
   */
  lemma MatchFirstPass(s: Modules, p: nat, testOnly: bool, table: seq<BuiltIn>, host: Host,
                       alloc1: nat -> Alloc, alloc2: nat -> Alloc)
    requires s.created && FirstSuccessAt(s.list, p, host, Options(testOnly, false))
    ensures MatchDriverSpec(s, None, testOnly, table, host, alloc1, alloc2)
            == (Modules(true, LoadAll(s.list[..p + 1], host.construct) + s.list[p + 1..]),
                LoadResult(s.list[p], host.construct), false)
  {
    WalkFirstSuccess(s.list, p, host, Options(testOnly, false));
  }

  /**
   * With the array in place, when no module loads and accepts the display
   * without fallback, the first pass leaves exactly the modules that load,
   * and the fallback pass walks those.
   */
  lemma MatchSecondPass(s: Modules, testOnly: bool, table: seq<BuiltIn>, host: Host,
                        alloc1: nat -> Alloc, alloc2: nat -> Alloc)
    requires s.created && NoSuccess(s.list, host, Options(testOnly, false))
    ensures var w := Walk(LoadAll(s.list, host.construct), host, Options(testOnly, true));
            MatchDriverSpec(s, None, testOnly, table, host, alloc1, alloc2) == (Modules(true, w.0), w.1, true)
  {
    WalkNoSuccess(s.list, host, Options(testOnly, false));
  }

  /**
   * Matching a display that already carries a driver, with the array in
   * place, never touches the array and returns that driver exactly when
   * its `Initialize` succeeds with or without fallback.
   */
  lemma MatchReusesPinned(s: Modules, pinned: Option<Driver>, testOnly: bool, table: seq<BuiltIn>, host: Host,
                          alloc1: nat -> Alloc, alloc2: nat -> Alloc)
    requires s.created && pinned.Some?
    ensures var (s', r, _) := MatchDriverSpec(s, pinned, testOnly, table, host, alloc1, alloc2);
            && s' == s
            && (r == pinned <==> host.initialize(pinned.value, Options(testOnly, false)) || host.initialize(pinned.value, Options(testOnly, true)))
            && (r.Some? ==> r == pinned)
  {
  }

  /**
   * A fresh display: a driver matching returns was cached in the array and
   * accepted the display under the final options; when matching fails with
   * the array in place, the fallback pass ran and every module left is
   * loaded and refused the display with fallback.
   */
  lemma MatchFreshOutcome(s: Modules, testOnly: bool, table: seq<BuiltIn>, host: Host,
                          alloc1: nat -> Alloc, alloc2: nat -> Alloc)
    ensures var (s', r, fallback) := MatchDriverSpec(s, None, testOnly, table, host, alloc1, alloc2);
            r.Some? ==> host.initialize(r.value, Options(testOnly, fallback))
                        && exists k :: 0 <= k < |s'.list| && s'.list[k].driver == r
    ensures var (s', r, fallback) := MatchDriverSpec(s, None, testOnly, table, host, alloc1, alloc2);
            r.None? && s'.created ==>
              (&& fallback
               && forall k :: 0 <= k < |s'.list| ==>
                    s'.list[k].driver.Some? && !host.initialize(s'.list[k].driver.value, Options(testOnly, true)))
  {
    var o1 := Options(testOnly, false);
    var o2 := Options(testOnly, true);
    var (s1, ok1) := AddDriversSpec(s, table, host.driverEnv, alloc1);
    WalkOutcome(s1.list, host, o1);
    var (m1, r1) := MatchOnceSpec(s, None, table, host, alloc1, o1);
    if r1.None? {
      var (s2, ok2) := AddDriversSpec(m1, table, host.driverEnv, alloc2);
      WalkOutcome(s2.list, host, o2);
    }
  }

  /** The number of modules at the head of `ms` whose driver is loaded. */
  function LoadedRun(ms: seq<Module>): (n: nat)
    ensures n <= |ms|
    ensures forall k :: 0 <= k < n ==> ms[k].driver.Some?
    ensures n < |ms| ==> ms[n].driver.None?
  {
    if ms == [] || ms[0].driver.None? then 0 else 1 + LoadedRun(ms[1..])
  }

  /**
   * The scan of `_eglGetDriverProc`: ask the drivers in array order, stop
   * at the first module without a driver, return the first non-NULL answer.
   */
  function ProcScan(ms: seq<Module>, getProc: Driver -> Option<Proc>): (r: Option<Proc>)
    ensures r.Some? ==> exists k :: 0 <= k < LoadedRun(ms) && getProc(ms[k].driver.value) == r
                          && forall j :: 0 <= j < k ==> getProc(ms[j].driver.value).None?
    ensures r.None? ==> forall k :: 0 <= k < LoadedRun(ms) ==> getProc(ms[k].driver.value).None?
  {
    if ms == [] || ms[0].driver.None? then None
    else match getProc(ms[0].driver.value)
      case Some(p) => Some(p)
      case None =>
        var r := ProcScan(ms[1..], getProc);
        assert forall k :: 0 <= k < LoadedRun(ms[1..]) ==> ms[1..][k] == ms[k + 1];
        if r.Some? then
          var k :| 0 <= k < LoadedRun(ms[1..]) && getProc(ms[1..][k].driver.value) == r
                   && forall j :: 0 <= j < k ==> getProc(ms[1..][j].driver.value).None?;
          assert getProc(ms[k + 1].driver.value) == r;
          assert forall j :: 0 <= j < k + 1 ==> getProc(ms[j].driver.value).None? by {
            forall j | 0 < j < k + 1 ensures getProc(ms[j].driver.value).None? {
              assert ms[j] == ms[1..][j - 1];
            }
          }
          r
        else r
  }

  /**
   * Since loaded modules come first, the scan of `_eglGetDriverProc`, which
   * stops at the first module without a driver, passes over no loaded
   * driver: it finds nothing exactly when every loaded driver answers NULL.
   */
  lemma ProcScanComplete(s: Modules, getProc: Driver -> Option<Proc>)
    requires ModulesOk(s)
    ensures ProcScan(s.list, getProc).None? <==>
              forall k :: 0 <= k < |s.list| && s.list[k].driver.Some? ==> getProc(s.list[k].driver.value).None?
  {
    var n := LoadedRun(s.list);
    assert forall k :: 0 <= k < |s.list| && s.list[k].driver.Some? ==> k < n;
  }

  /** The `Unload` hooks `_eglUnloadDrivers` runs, one per loaded driver that has one, in array order. */
  function UnloadCalls(ms: seq<Module>): seq<Driver> {
    if ms == [] then []
    else (if UnloadCall(ms[0]).Some? then [ms[0].driver.value] else []) + UnloadCalls(ms[1..])
  }

  /** The `Unload` hooks run are exactly those of the loaded drivers that have one. */
  lemma {:induction false} UnloadCallsExact(ms: seq<Module>)
    ensures |UnloadCalls(ms)| <= |ms|
    ensures forall d :: d in UnloadCalls(ms) ==> d.hasUnload && exists k :: 0 <= k < |ms| && ms[k].driver == Some(d)
    ensures forall k :: 0 <= k < |ms| && ms[k].driver.Some? && ms[k].driver.value.hasUnload ==> ms[k].driver.value in UnloadCalls(ms)
  {
    if ms != [] {
      UnloadCallsExact(ms[1..]);
      assert forall k :: 0 <= k < |ms| - 1 ==> ms[1..][k] == ms[k + 1];
    }
  }

  /** `_eglModules` and `_eglBuiltInDrivers`. */
  class ModuleRegistry {
    /** The built-in table, fixed at build time. */
    const builtIns: seq<BuiltIn>
    /** `_eglModules != NULL`. */
    var created: bool
    var modules: seq<Module>

    function State(): Modules
      reads this
    {
      Modules(created, modules)
    }

    ghost predicate Valid()
      reads this
    {
      ModulesOk(State())
    }

    /** The registry before first use: no array. */
    constructor (table: seq<BuiltIn>)
      ensures builtIns == table && State() == Modules(false, []) && Valid()
    {
      builtIns := table;
      created := false;
      modules := [];
    }

    /** `_eglAddModule`: the index of the module called `name`, if one is or gets registered. */
    method AddModule(name: string, a: Alloc) returns (idx: Option<nat>)
      requires Valid()
      modifies this`created, this`modules
      ensures (State(), idx) == AddModuleSpec(old(State()), name, a)
      ensures Valid()
    {
      if !created {
        if !a.arrayOk {
          return None;
        }
        created := true;
      }
      var i := 0;
      while i < |modules|
        invariant 0 <= i <= |modules|
        invariant forall j :: 0 <= j < i ==> Names(modules)[j] != name
      {
        if modules[i].name == name {
          assert Names(modules)[i] == name;
          assert IndexOf(Names(modules), name) == Some(i);
          return Some(i);
        }
        i := i + 1;
      }
      if !a.recordOk {
        return None;
      }
      modules := modules + [Module(name, None, None)];
      idx := Some(|modules| - 1);
    }

    /** `_eglLoadModule` on module `i`: report whether it has a driver afterwards. */
    method LoadModule(i: nat, construct: EntryPoint -> Option<Driver>) returns (ok: bool)
      requires i < |modules|
      modifies this`modules
      ensures ok == LoadResult(old(modules[i]), construct).Some?
      ensures modules == if ok then old(modules)[i := old(modules[i]).(driver := LoadResult(old(modules[i]), construct))]
                         else old(modules)
    {
      var mod := modules[i];
      if mod.driver.Some? {
        return true;
      }
      if mod.builtIn.None? {
        return false;
      }
      var drv := construct(mod.builtIn.value);
      if drv.None? || drv.value.name.None? {
        return false;
      }
      modules := modules[i := mod.(driver := drv)];
      ok := true;
    }

    /** Store the table's entry point in the module just registered, if any. */
    method BindBuiltIn(idx: Option<nat>, main: EntryPoint)
      modifies this`modules
      ensures State() == Bind(old(State()), idx, main)
    {
      if idx.Some? && idx.value < |modules| {
        modules := modules[idx.value := modules[idx.value].(builtIn := Some(main))];
      }
    }

    /** `_eglAddUserDriver`, `EGL_DRIVER` being `env`. */
    method AddUserDriver(env: Option<string>, alloc: nat -> Alloc) returns (found: bool)
      requires Valid()
      modifies this`created, this`modules
      ensures (State(), found) == AddUserDriverSpec(old(State()), builtIns, env, alloc)
      ensures Valid()
    {
      if env.None? {
        return false;
      }
      var i := 0;
      while i < |builtIns|
        invariant 0 <= i <= |builtIns|
        invariant forall j :: 0 <= j < i ==> TableNames(builtIns)[j] != env.value
      {
        if builtIns[i].name == env.value {
          assert TableNames(builtIns)[i] == env.value;
          assert UserIndex(builtIns, env) == Some(i);
          var idx := AddModule(env.value, alloc(i));
          BindBuiltIn(idx, builtIns[i].main);
          return true;
        }
        i := i + 1;
      }
      found := false;
    }

    /** `_eglAddBuiltInDrivers`: register every built-in in table order. */
    method AddBuiltInDrivers(alloc: nat -> Alloc)
      requires Valid()
      modifies this`created, this`modules
      ensures State() == AddBuiltInsFrom(old(State()), builtIns, alloc, 0)
      ensures Valid()
    {
      var i := 0;
      while i < |builtIns|
        invariant 0 <= i <= |builtIns|
        invariant Valid()
        invariant AddBuiltInsFrom(old(State()), builtIns, alloc, 0) == AddBuiltInsFrom(State(), builtIns, alloc, i)
      {
        ghost var s0 := State();
        var idx := AddModule(builtIns[i].name, alloc(i));
        BindBuiltIn(idx, builtIns[i].main);
        assert AddBuiltInsFrom(s0, builtIns, alloc, i) == AddBuiltInsFrom(State(), builtIns, alloc, i + 1);
        i := i + 1;
      }
    }

    /** `_eglAddDrivers`: report whether the array exists afterwards. */
    method AddDrivers(env: Option<string>, alloc: nat -> Alloc) returns (ok: bool)
      requires Valid()
      modifies this`created, this`modules
      ensures Valid()
      ensures (State(), ok) == AddDriversSpec(old(State()), builtIns, env, alloc)
    {
      if created {
        return true;
      }
      var found := AddUserDriver(env, alloc);
      if !found {
        AddBuiltInDrivers(alloc);
      }
      ok := created;
    }

    /**
     * The loop of `_eglMatchAndInitialize`: the index advances only past a
     * module whose driver refused the display; a module that does not load
     * is erased in place.
     */
    method WalkModules(host: Host, opts: Options) returns (drv: Option<Driver>)
      modifies this`modules
      ensures (modules, drv) == Walk(old(modules), host, opts)
    {
      ghost var start := modules;
      var i := 0;
      drv := None;
      assert modules[..0] == [] && modules[0..] == modules;
      while i < |modules|
        invariant drv.None? && WalkedTo(start, modules, i, host, opts)
        decreases |modules| - i
      {
        WalkStep(start, modules, i, host, opts);
        var loaded := LoadModule(i, host.construct);
        if !loaded {
          modules := modules[..i] + modules[i + 1..];
          continue;
        }
        var d := modules[i].driver.value;
        if host.initialize(d, opts) {
          drv := Some(d);
          return;
        }
        i := i + 1;
      }
      assert modules[i..] == [] && modules[..i] + [] == modules;
    }

    /**
     * `_eglMatchAndInitialize`: populate the array, then either re-initialize
     * the driver the display already carries or walk the modules.
     */
    method MatchAndInitialize(dpy: Display, host: Host, alloc: nat -> Alloc) returns (drv: Option<Driver>)
      requires Valid()
      modifies this`created, this`modules
      ensures (State(), drv) == MatchOnceSpec(old(State()), dpy.driver, builtIns, host, alloc, dpy.options)
      ensures Valid()
    {
      var ok := AddDrivers(host.driverEnv, alloc);
      if !ok {
        return None;
      }
      if dpy.driver.Some? {
        drv := dpy.driver;
        if !host.initialize(drv.value, dpy.options) {
          drv := None;
        }
        return;
      }
      ghost var start := modules;
      drv := WalkModules(host, dpy.options);
      WalkKeepsOk(start, host, dpy.options);
    }

    /**
     * `_eglMatchDriver`: set the options, run a pass without fallback and, if
     * it finds nothing, one with fallback; pin the winner unless `testOnly`.
     * `alloc1` and `alloc2` are the allocation outcomes of the two passes.
     */
    method MatchDriver(dpy: Display, testOnly: bool, host: Host, alloc1: nat -> Alloc, alloc2: nat -> Alloc)
      returns (best: Option<Driver>)
      requires Valid() && !dpy.initialized
      modifies this`created, this`modules, dpy`options, dpy`driver, dpy`initialized
      ensures Valid()
      ensures (State(), best, dpy.options.useFallback)
              == MatchDriverSpec(old(State()), old(dpy.driver), testOnly, builtIns, host, alloc1, alloc2)
      ensures dpy.options.testOnly == testOnly
      ensures best.Some? && !testOnly ==> dpy.driver == best && dpy.initialized
      ensures best.None? || testOnly ==> dpy.driver == old(dpy.driver) && !dpy.initialized
    {
      dpy.options := Options(testOnly, false);
      best := MatchAndInitialize(dpy, host, alloc1);
      if best.None? {
        dpy.options := Options(testOnly, true);
        best := MatchAndInitialize(dpy, host, alloc2);
      }
      if best.Some? && !testOnly {
        dpy.driver := best;
        dpy.initialized := true;
      }
    }

    /** The scan of `_eglGetDriverProc` over the array as it is. */
    method ScanProcs(getProc: Driver -> Option<Proc>) returns (proc: Option<Proc>)
      ensures proc == ProcScan(modules, getProc)
    {
      var i := 0;
      proc := None;
      while i < |modules|
        invariant 0 <= i <= |modules| && proc.None?
        invariant ProcScan(modules, getProc) == ProcScan(modules[i..], getProc)
      {
        assert modules[i..][1..] == modules[i + 1..];
        if modules[i].driver.None? {
          break;
        }
        proc := getProc(modules[i].driver.value);
        if proc.Some? {
          break;
        }
        i := i + 1;
      }
    }

    /**
     * `_eglGetDriverProc`: with no array yet, first match the default display
     * `dflt` (what `eglGetDisplay(EGL_DEFAULT_DISPLAY)` yields) in test-only
     * mode, giving up when there is none or no driver matches; then scan.
     */
    method GetDriverProc(dflt: Display?, host: Host, alloc1: nat -> Alloc, alloc2: nat -> Alloc,
                         getProc: Driver -> Option<Proc>) returns (proc: Option<Proc>)
      requires Valid()
      requires !created && dflt != null ==> !dflt.initialized
      modifies this`created, this`modules, dflt
      ensures Valid()
      ensures dflt != null ==> dflt.driver == old(dflt.driver) && dflt.initialized == old(dflt.initialized)
                               && dflt.resourceLists == old(dflt.resourceLists)
      ensures old(created) ==> State() == old(State()) && proc == ProcScan(modules, getProc)
      ensures !old(created) && dflt == null ==> State() == old(State()) && proc.None?
      ensures old(created) && dflt != null ==> dflt.options == old(dflt.options)
      ensures !old(created) && dflt != null ==> dflt.options.testOnly
      ensures !old(created) && dflt != null ==>
                dflt.options == Options(true, MatchDriverSpec(old(State()), old(dflt.driver), true, builtIns, host, alloc1, alloc2).2)
      ensures !old(created) && dflt != null ==>
                var (s, r, _) := MatchDriverSpec(old(State()), old(dflt.driver), true, builtIns, host, alloc1, alloc2);
                State() == s && proc == (if r.None? then None else ProcScan(s.list, getProc))
    {
      if !created {
        if dflt == null {
          return None;
        }
        var matched := MatchDriver(dflt, true, host, alloc1, alloc2);
        if matched.None? {
          return None;
        }
      }
      proc := ScanProcs(getProc);
    }

    /** `_eglUnloadDrivers`: free every module, running loaded drivers' `Unload`, and drop the array. */
    method UnloadDrivers() returns (unloaded: seq<Driver>)
      requires Valid()
      modifies this`created, this`modules
      ensures State() == Modules(false, []) && Valid()
      ensures unloaded == UnloadCalls(old(modules))
    {
      unloaded := [];
      var i := 0;
      while i < |modules|
        invariant 0 <= i <= |modules|
        invariant UnloadCalls(modules) == unloaded + UnloadCalls(modules[i..])
      {
        assert modules[i..][1..] == modules[i + 1..];
        var call := UnloadCall(modules[i]);
        if call.Some? {
          unloaded := unloaded + [call.value];
        }
        i := i + 1;
      }
      assert modules[i..] == [];
      created := false;
      modules := [];
    }
  }
}
