# EGL display registry, resource base and driver matching

A Dafny model of the bookkeeping core of an EGL runtime:

- **Native platform choice** (`EglPlatform`, platform.dfy). The platform named by `EGL_PLATFORM`, or else by the
  deprecated `EGL_DISPLAY`, is looked up in the `egl_platforms` name table. If that gives nothing, the detection result
  is used, and after that the build-time default (X11).
- **Display registry** (`EglDisplay.DisplayRegistry`, display.dfy). This is the process-wide display list.
  `FindDisplay` finds the display with a given (platform, native handle) key, or prepends a new one.
  `CheckDisplayHandle` tests whether a handle is in the list. `FiniDisplay` drains the list at exit.
- **Resource base** (`EglDisplay.Resource`, display.dfy). This covers the reference-counted resources (contexts,
  surfaces, images, syncs) that hang off a display in one list per kind. It includes init, get, put, link (push to the
  head of the list), unlink (from the head or after a found predecessor) and validity checking.
  `ReleaseDisplayResources` drains the context and surface lists through the driver's destroy callbacks.
- **Module registry and driver matching** (`EglDriver`, driver.dfy). `_eglModules` holds named modules without
  duplicate names. It is filled from `EGL_DRIVER` or from the built-in table, and each module's driver is constructed
  lazily. `MatchDriver` walks the modules in order. It erases modules that fail to load and stops at the first driver
  whose `Initialize` accepts the display. If that walk finds nothing, it walks again with `UseFallback` set. Unless the
  call is test-only, it pins the winner to the display. `GetDriverProc` and `UnloadDrivers` complete the registry.

Global and per-object state is modelled by classes. `DisplayRegistry.displays` is the display list. `Display` holds
one `seq<Resource>` per resource kind. `Resource` holds `refCount` and `isLinked`. `ModuleRegistry` holds
`created`/`modules` for `_eglModules`. The intrusive `Next` pointers of the source are represented by positions in
these sequences.

The module registry is also described as a value (`Modules`), with one function per step of the source
(`AddModuleSpec`, `AddDriversSpec`, `Walk`, `MatchOnceSpec`, `MatchDriverSpec`, ...). Each method of
`ModuleRegistry` is proved to compute its function, and lemmas state what those functions guarantee.

Everything outside the core is a parameter:
- the environment (a map of variables);
- the detection result;
- the outcome of each allocation;
- the built-in table;
- the driver callbacks: the built-in constructors, `Initialize`, `GetProcAddress`, and the `Unload` hook, which
  appears as the list of drivers it is called on;
- the display that `eglGetDisplay(EGL_DEFAULT_DISPLAY)` yields.

The model follows the code in three places a reader might not expect:
- `_eglReleaseDisplayResources` drains only the context and surface lists. The image and sync drains are commented out.
- `_eglGetDriverProc` forces a match only when the module array does not exist, whether or not any module in it is
  loaded. Its scan stops at the first module without a driver. `ProcScanComplete` shows that this skips no loaded
  driver, because loaded modules always come first (`LoadedFirst`, part of the registry invariant).
- `_eglMatchDriver` runs the fallback pass only when the first pass returned NULL, and a display that already carries a
  driver is only re-initialized, never matched by walking the array.

## Model

| member | source | states |
|---|---|---|
| `EglPlatform.PlatformName` | EGL/main/egldisplay.c:89-94 | `EGL_PLATFORM` is used when it is set and non-empty, otherwise `EGL_DISPLAY` on the same terms, otherwise nothing. The name returned is never empty. |
| `EglPlatform.Lookup` | EGL/main/egldisplay.c:97-102 | A name that no table entry carries gives the invalid platform. Any other result comes from an entry whose name equals the given one exactly. |
| `EglPlatform.EnvPlatform` | EGL/main/egldisplay.c:89-104 | No environment name gives the invalid platform. A valid result is the platform whose table name is the environment name. |
| `EglPlatform.LookupUnrolled` | EGL/main/egldisplay.c:67-77 | Looking a name up in `egl_platforms` tries x11, wayland, drm, android, haiku and surfaceless in that order, and gives the invalid platform for any other name. |
| `EglPlatform.LookupIsNameOf` | EGL/main/egldisplay.c:67-77 | A name maps to a platform exactly when it is that platform's entry in the `egl_platforms` table (exact match); every other name maps to the invalid platform. |
| `EglPlatform.GetNativePlatformFromEnv` | EGL/main/egldisplay.c:83-105 | The scan of the table returns the platform whose table name equals the environment name, and the invalid platform when no name is set or none matches. |
| `EglPlatform.GetNativePlatform` | EGL/main/egldisplay.c:184-207 | The environment choice wins, then detection, then the build-time default (X11). The result is never the invalid platform. |
| `EglDisplay.Display.constructor` | EGL/main/egldisplay.c:267-273 | A new display carries its key, is not initialized, has no driver, cleared options and empty resource lists. |
| `EglDisplay.DisplayRegistry.constructor` | EGL/main/egldisplay.c:236 | The registry starts with an empty display list, the NULL list that `_eglFiniDisplay` also leaves behind. The static initializer of `_eglGlobal` (eglglobals.c) is not part of this model. |
| `EglDisplay.DisplayRegistry.FindDisplay` | EGL/main/egldisplay.c:244-286 | The invalid platform gives NULL and no change. An existing display with the key is returned and the list is unchanged. Otherwise, if allocation succeeds, a fresh zeroed display with the key is prepended. If allocation fails, NULL is returned and nothing changes. No two displays ever share a key. |
| `EglDisplay.KeyIdentifiesDisplay` | EGL/main/egldisplay.c:257-264 | In a list with unique keys, two displays with equal keys are the same display. |
| `EglDisplay.FindDisplayTwice` | EGL/main/egldisplay.c:257-282 | Find-or-create is idempotent: a second lookup of a key returns the very display the first returned. The list then holds exactly the old entries, with that display in front if it was new. |
| `EglDisplay.DisplayRegistry.CheckDisplayHandle` | EGL/main/egldisplay.c:360-374 | A handle is valid exactly when it is a non-NULL element of the display list; nothing changes. |
| `EglDisplay.WithResources` | EGL/main/egldisplay.c:219-233 | The displays the exit-time diagnostic reports, as a filter over the list; its properties are stated by `WithResourcesExact`. |
| `EglDisplay.WithResourcesExact` | EGL/main/egldisplay.c:223-230 | A display is reported by the exit-time diagnostic exactly when it is in the list and some resource list of it is non-empty; the order is the list order that `WithResources` keeps. |
| `EglDisplay.DisplayRegistry.ScanResourceLists` | EGL/main/egldisplay.c:227-232 | The scan over the resource kinds answers true exactly when some list of the display is non-empty; it changes nothing. |
| `EglDisplay.DisplayRegistry.FiniDisplay` | EGL/main/egldisplay.c:213-237 | The display list ends empty. Every display that still had resources is reported, in list order. |
| `EglDisplay.CheckResource` | EGL/main/egldisplay.c:381-398 | NULL is invalid. Any other resource is valid exactly when it is in the display's list for its kind. |
| `EglDisplay.Resource.constructor` | EGL/main/egldisplay.c:408-414 | A new resource holds one reference, is stamped with its display and is unlinked. |
| `EglDisplay.Resource.Get` | EGL/main/egldisplay.c:420-426 | Requires a positive count and adds one. |
| `EglDisplay.Resource.Put` | EGL/main/egldisplay.c:432-438 | Requires a positive count and subtracts one. It reports true exactly when the count reaches zero. |
| `EglDisplay.Resource.Link` | EGL/main/egldisplay.c:444-453 | Requires a resource that is in none of its display's lists. The resource becomes the head of its display's list for the kind, and the other lists are unchanged. It is marked linked and its count rises by one. |
| `EglDisplay.Resource.Unlink` | EGL/main/egldisplay.c:459-484 | The resource must be in the list. Exactly that element is removed, and the others keep their order, through either the head path or the predecessor scan. The other lists are unchanged. The resource is marked unlinked, and its count falls by one and stays nonzero. |
| `EglDisplay.LinkThenUnlink` | EGL/main/egldisplay.c:444-484 | For a resource in no list, link followed by unlink restores every list of the display and the reference count, and leaves the resource unlinked. |
| `EglDisplay.DestroyLog` | EGL/main/egldisplay.c:297-315 | One destroy callback per resource of the list, in list order, each for the right kind and driver, and each recording the resource as unlinked with one reference fewer than before the drain. |
| `EglDisplay.RefCounts` | EGL/main/egldisplay.c:297-315 | The reference counts of a list of resources, entry by entry. |
| `EglDisplay.PopHead` | EGL/main/egldisplay.c:299-303 | The resource taken is the old head of the list, the list loses exactly its head, the other lists are unchanged, and the resource ends unlinked with one reference fewer. |
| `EglDisplay.DrainStep` | EGL/main/egldisplay.c:297-305 | One iteration of a drain loop: the head is popped, unlinked and put, and its destroy call is logged with that state. Everything drained so far keeps its state. |
| `EglDisplay.DrainList` | EGL/main/egldisplay.c:297-305 | One drain loop empties the list for one kind. It calls destroy once per element in list order. The log records each element as unlinked with its count lowered by one at the moment of its destroy call, and that is its state afterwards. The other lists are unchanged. |
| `EglDisplay.DrainListFramed` | EGL/main/egldisplay.c:297-315 | The same drain, and resources outside the drained list keep their links and counts, so a second drain does not disturb the first one's log. |
| `EglDisplay.ReleaseDisplayResources` | EGL/main/egldisplay.c:292-338 | The context and surface lists end empty. The image and sync lists are unchanged. The destroy log is all contexts, then all surfaces, in list order. Each call records its resource as unlinked with one reference fewer than before, and that is the resource's state afterwards. |
| `EglDriver.ModulesOk` | EGL/main/egldriver.c:111-145 | The registry invariant: no modules before the array exists, distinct names, a name on every driver, and loaded modules before unloaded ones. Its preservation is stated by `AddModuleSpec`, `AddUserDriverSpec`, `AddBuiltInsFrom`, `AddDriversSpec`, `WalkKeepsOk`, `MatchOnceKeepsOk` and `MatchDriverKeepsOk`. |
| `EglDriver.AddModuleSpec` | EGL/main/egldriver.c:111-145 | The array is created when absent, and if that fails nothing changes. An existing module with an equal name is returned and the array is unchanged. Otherwise, if allocation succeeds, a module with that name, no entry point and no driver is appended and its index returned. The registry invariant (distinct names, named drivers, loaded modules first) is kept. |
| `EglDriver.ModuleRegistry.constructor` | EGL/main/egldriver.c:54-55 | Before first use there is no module array. |
| `EglDriver.ModuleRegistry.AddModule` | EGL/main/egldriver.c:111-145 | The duplicate scan and the append compute `AddModuleSpec` and keep the registry invariant. |
| `EglDriver.ModuleRegistry.BindBuiltIn` | EGL/main/egldriver.c:179-180 | Setting `BuiltIn` on the module just registered computes `Bind`. |
| `EglDriver.Bind` | EGL/main/egldriver.c:178-180 | Binding an entry point to the module just registered changes only that module's `BuiltIn`. Names and drivers are unchanged. |
| `EglDriver.UserIndex` | EGL/main/egldriver.c:172-184 | `EGL_DRIVER` selects a built-in only when it is set and equals that entry's name exactly. |
| `EglDriver.AddUserDriverSpec` | EGL/main/egldriver.c:167-188 | The result is true exactly when `EGL_DRIVER` names a built-in. Otherwise the registry is unchanged. The invariant is kept. |
| `EglDriver.ModuleRegistry.AddUserDriver` | EGL/main/egldriver.c:167-188 | The table scan and the registration compute `AddUserDriverSpec`. |
| `EglDriver.AddBuiltInsFrom` | EGL/main/egldriver.c:194-205 | Registering the built-ins keeps the invariant, never removes the array and never shrinks it. |
| `EglDriver.ModuleRegistry.AddBuiltInDrivers` | EGL/main/egldriver.c:194-205 | The loop over the table computes `AddBuiltInsFrom` from entry 0. |
| `EglDriver.AddDriversSpec` | EGL/main/egldriver.c:212-227 | Once the array exists this is a no-op returning true. The result always says whether the array exists afterwards. The invariant is kept. |
| `EglDriver.ModuleRegistry.AddDrivers` | EGL/main/egldriver.c:212-227 | Computes `AddDriversSpec`: the user driver, and the built-ins only when `EGL_DRIVER` names none. |
| `EglDriver.Registered` | EGL/main/egldriver.c:57-68 | The modules for the table, in table order, carry the table's names. |
| `EglDriver.AddBuiltInsAllSucceed` | EGL/main/egldriver.c:194-205 | With distinct table names and no allocation failure, the built-ins are registered in table order, each with its entry point and no driver. |
| `EglDriver.AddDriversDefault` | EGL/main/egldriver.c:212-227 | On an absent array, when `EGL_DRIVER` names no built-in and nothing fails, the array becomes every built-in in table order. The result is true iff the table is non-empty. |
| `EglDriver.AddDriversUser` | EGL/main/egldriver.c:167-188 | On an absent array, when `EGL_DRIVER` names built-in k and nothing fails, only that module is registered, with its entry point bound. |
| `EglDriver.LoadResult` | EGL/main/egldriver.c:73-91 | A loaded module keeps its driver. Otherwise loading succeeds only through an existing entry point that constructs a driver with a name, and always does when such a driver is constructed. |
| `EglDriver.LoadIdempotent` | EGL/main/egldriver.c:78-79 | Loading a module that has loaded yields the same driver again. |
| `EglDriver.ModuleRegistry.LoadModule` | EGL/main/egldriver.c:73-91 | Reports whether the module has a driver afterwards. On success only that module changes, gaining the cached driver; on failure nothing changes. |
| `EglDriver.UnloadCall` | EGL/main/egldriver.c:97-105 | Freeing a module runs `Unload` exactly when it has a driver with an `Unload` hook, and on that driver. |
| `EglDriver.EvictedModuleUnloadsNothing` | EGL/main/egldriver.c:256-259 | A module erased because it does not load has no driver, so freeing it runs no `Unload`. |
| `EglDriver.LoadAll` | EGL/main/egldriver.c:253-270 | The modules a failed walk leaves are all loaded. |
| `EglDriver.Walk` | EGL/main/egldriver.c:253-270 | The walk over the module array as a function; its properties are stated by `WalkFirstSuccess`, `WalkNoSuccess`, `WalkFailsIff`, `WalkOutcome` and `WalkKeepsOk`. |
| `EglDriver.WalkFirstSuccess` | EGL/main/egldriver.c:253-270 | Suppose module p is the first that loads and initializes. Then the walk returns its driver. Modules before it that fail to load are erased. The others before it are kept, in order, with their drivers cached. Modules after it are untouched. |
| `EglDriver.WalkNoSuccess` | EGL/main/egldriver.c:253-270 | When no module loads and initializes, the walk returns NULL and keeps exactly the modules that load, in order. |
| `EglDriver.WalkFailsIff` | EGL/main/egldriver.c:253-272 | The walk returns NULL exactly when no module both loads and initializes the display. |
| `EglDriver.WalkOutcome` | EGL/main/egldriver.c:253-272 | A returned driver accepted the display and is cached in the array. When the walk returns NULL, every module left is loaded and refused the display. |
| `EglDriver.WalkKeepsOk` | EGL/main/egldriver.c:253-270 | The walk keeps the registry invariant, and the modules it leaves carry only names it was given. |
| `EglDriver.WalkFrom` | EGL/main/egldriver.c:254-269 | One iteration at index i either erases the module, stops at it, or caches its driver and moves on. |
| `EglDriver.WalkStep` | EGL/main/egldriver.c:253-270 | Each iteration of the in-place loop keeps "the walk of the original array is the kept prefix followed by the walk of the rest", and a stop at index i returns exactly the walk of the original array. |
| `EglDriver.EvictionScenario` | EGL/main/egldriver.c:253-270 | Take [a, b] where a fails to load and b initializes. The walk returns b's driver and leaves [b] alone. A later walk returns that driver at once without changing the array. |
| `EglDriver.ModuleRegistry.WalkModules` | EGL/main/egldriver.c:253-270 | The in-place loop, whose index advances only on init failure, computes `Walk`. |
| `EglDriver.MatchOnceSpec` | EGL/main/egldriver.c:234-273 | If the display already carries a driver, only that driver's `Initialize` is asked. The result is that driver exactly when the array exists after `_eglAddDrivers` and `Initialize` succeeds, NULL otherwise. The array is then only populated (`_eglAddDrivers`), and it is left exactly as it was when it already existed. |
| `EglDriver.MatchOnceKeepsOk` | EGL/main/egldriver.c:234-273 | One matching pass keeps the registry invariant. |
| `EglDriver.ModuleRegistry.MatchAndInitialize` | EGL/main/egldriver.c:234-273 | Computes `MatchOnceSpec` and keeps the registry invariant. |
| `EglDriver.MatchDriverSpec` | EGL/main/egldriver.c:286-298 | The fallback pass runs exactly when the first pass returns NULL, and the result is NULL only when the fallback pass ran. |
| `EglDriver.MatchDriverKeepsOk` | EGL/main/egldriver.c:286-298 | Both passes together keep the registry invariant. |
| `EglDriver.MatchFirstPass` | EGL/main/egldriver.c:253-270 | For an unpinned display where module p is the first to load and initialize, matching returns p's driver without fallback, caches the drivers of the modules up to p, erases those that failed to load and leaves the rest untouched. |
| `EglDriver.MatchSecondPass` | EGL/main/egldriver.c:286-298 | For an unpinned display where no module initializes without fallback, the fallback pass walks the modules that loaded, in order, and its outcome is the result. |
| `EglDriver.MatchReusesPinned` | EGL/main/egldriver.c:245-251 | A display that carries a driver is never matched by walking. The array is unchanged. The result is that driver exactly when its `Initialize` succeeds without or with fallback. |
| `EglDriver.MatchFreshOutcome` | EGL/main/egldriver.c:286-298 | A returned driver accepted the display under the final options and is cached in the array. A failure with the array present means the fallback pass ran and every remaining module refused the display with fallback. |
| `EglDriver.ModuleRegistry.MatchDriver` | EGL/main/egldriver.c:281-312 | Requires an uninitialized display. `TestOnly` is set and the two passes follow `MatchDriverSpec`. On success without `test_only`, the winner is pinned and the display becomes initialized. Otherwise the driver and `Initialized` are unchanged. |
| `EglDriver.LoadedRun` | EGL/main/egldriver.c:329-333 | Counts the modules at the head of the array that have a driver; the next one, if any, has none. |
| `EglDriver.ProcScan` | EGL/main/egldriver.c:329-339 | The scan returns the first non-NULL answer among the leading loaded drivers, and returns NULL only when they all answer NULL. |
| `EglDriver.ProcScanComplete` | EGL/main/egldriver.c:329-339 | Under the registry invariant, the scan finds nothing exactly when every loaded driver answers NULL; stopping early skips no driver. |
| `EglDriver.ModuleRegistry.ScanProcs` | EGL/main/egldriver.c:329-339 | The loop computes `ProcScan` and changes nothing. |
| `EglDriver.ModuleRegistry.GetDriverProc` | EGL/main/egldriver.c:315-340 | With the array present, it only scans and leaves the default display's options alone. Otherwise it matches the default display test-only. It returns NULL when there is no such display or no driver matches, and scans the resulting array when one does. The default display keeps its driver, stays uninitialized and keeps its resource lists, and when a match ran it is left with `TestOnly` set and `UseFallback` as the last pass set it. |
| `EglDriver.UnloadCalls` | EGL/main/egldriver.c:346-354 | The drivers whose `Unload` hook runs when the array is freed, in array order; its properties are stated by `UnloadCallsExact`. |
| `EglDriver.UnloadCallsExact` | EGL/main/egldriver.c:346-354 | The `Unload` hooks run are exactly those of the loaded drivers that have one. |
| `EglDriver.ModuleRegistry.UnloadDrivers` | EGL/main/egldriver.c:346-354 | Runs those hooks in array order and leaves the registry absent. |

## Left out

- Native-display detection (`_eglPointerIsDereferencable`, `_eglNativePlatformDetectNativeDisplay`) probes memory residency and foreign structures; its result is a parameter of `GetNativePlatform`.
- Mutexes (the global display-list lock, the module lock, the per-display lock): every operation is one atomic sequential step.
- Logging: only the exit-time "destroyed with resources" diagnostic of `_eglFiniDisplay` is kept, as the returned list of displays.
- Memory management (`calloc`, `free`, `memset` of the subclass bytes in `_eglInitResource`, `strdup`): allocation outcomes are parameters; freeing is not modelled.
- The `Next` field of resources and displays is not a field of the model; list order stands for it, so "clears `Next`" in unlink is implicit.
- eglarray.c (array capacity 8 and growth) is not part of this model; the module array is a sequence with append and erase-at-index, and `_eglDestroyArray` is assumed to free elements in index order.
- `_eglCleanupDisplay`, the X11 attribute parser, `_eglGetX11Display` and the gbm, wayland and surfaceless wrappers are stubs, incomplete or compiled out.
- The image and sync drains of `_eglReleaseDisplayResources` are commented out in the source.
- The driver dispatch table (eglapi.h), the `_EGLDriver` layout, eglfallbacks.c and the built-in constructors `_eglBuiltInDriverDRI2`/`_eglBuiltInDriverHaiku` are outside the core; the constructors, `Initialize`, `GetProcAddress` and `DestroyContext`/`DestroySurface` are oracles, and destroy calls are recorded as a log rather than executed.
- `eglGetDisplay` and `_eglLookupDisplay`, called by `_eglGetDriverProc`, are outside the core; their result is the `dflt` parameter.
- Which built-ins exist is decided by build macros; the table is a constructor parameter of `ModuleRegistry`.
- EglDriver.Host: `Initialize` is a function of the driver and the options for the display being matched, so a driver that answers differently on a repeated identical call, or that changes the display while initializing, is not captured.
- EglDisplay.Resource.Link: `_eglLinkResource` does not check `IsLinked`; relinking a resource that is already in a list makes the chain cycle back to it and drops the old tail. The model requires the resource to be in none of its display's lists, so that misuse is not captured.
- EglDisplay.Resource.Get: `RefCount` is an unbounded integer; the 32-bit overflow of `EGLint` is not modelled.
- EglDisplay.ReleaseDisplayResources: requires what the unlink assertions of the source demand of every listed resource (it belongs to the display, occurs once, and holds a reference besides the list's), and that no resource is in both lists.
- `_eglUnloadModule` on its own (clearing `Driver`) is only reached through `_eglFreeModule`, so it is modelled as `UnloadCall` on a module about to be freed.
