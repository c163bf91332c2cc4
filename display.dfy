/**
 * The display registry and the resource base of egldisplay.c.
 *
 * A `Display` is found or created by its key (platform, native handle) in
 * the global display list, which `DisplayRegistry` holds. Every display owns
 * one list of `Resource`s per `ResourceType`; a resource is reference
 * counted, and linking it into its display's list takes one reference of
 * its own. The intrusive `Next` chains of the source are represented by the
 * order of the elements in a sequence.
 */
module EglDisplay {
  import opened EglTypes
  import opened EglSeqs

  /** `_EGLDisplay`. */
  class Display {
    const platform: PlatformType
    const platformDisplay: NativeHandle
    var initialized: bool
    var driver: Option<Driver>
    var options: Options
    /** `ResourceLists`: a kind that is not a key has a NULL list head. */
    var resourceLists: map<ResourceType, seq<Resource>>

    /** A zeroed display carrying its key, as `_eglFindDisplay` allocates it. */
    constructor (plat: PlatformType, handle: NativeHandle)
      ensures platform == plat && platformDisplay == handle
      ensures !initialized && driver == None && options == Options(false, false)
      ensures forall t :: List(t) == []
    {
      platform := plat;
      platformDisplay := handle;
      initialized := false;
      driver := None;
      options := Options(false, false);
      resourceLists := map[];
    }

    /** The list of resources of kind `t`, head first. */
    function List(t: ResourceType): seq<Resource>
      reads this
    {
      if t in resourceLists then resourceLists[t] else []
    }

    /** Some resource list is not empty. */
    predicate HasResources()
      reads this
    {
      exists i :: 0 <= i < |RESOURCE_TYPES| && List(RESOURCE_TYPES[i]) != []
    }
  }

  /** `_EGLResource`, the base of contexts, surfaces, images and syncs. */
  class Resource {
    /** The display the resource was created for; `_eglInitResource` sets it once. */
    const display: Display?
    var refCount: int
    var isLinked: bool

    /** `_eglInitResource`: a zeroed resource stamped with its display, holding one reference. */
    constructor (dpy: Display?)
      ensures display == dpy && refCount == 1 && !isLinked
    {
      display := dpy;
      refCount := 1;
      isLinked := false;
    }

    /** `_eglGetResource`: take one more reference of a live resource. */
    method Get()
      requires refCount > 0
      modifies this`refCount
      ensures refCount == old(refCount) + 1
    {
      refCount := refCount + 1;
    }

    /** `_eglPutResource`: drop one reference; report whether none is left. */
    method Put() returns (zero: bool)
      requires refCount > 0
      modifies this`refCount
      ensures refCount == old(refCount) - 1
      ensures zero <==> refCount == 0
    {
      refCount := refCount - 1;
      zero := refCount == 0;
    }

    /**
     * `_eglLinkResource`: push the resource onto the head of its display's
     * list for `t`, mark it linked and take the registry's reference.
     */
    method Link(t: ResourceType)
      requires display != null && refCount > 0
      requires forall u :: this !in display.List(u)
      modifies this`isLinked, this`refCount, display`resourceLists
      ensures display.List(t) == [this] + old(display.List(t))
      ensures forall u :: u != t ==> display.List(u) == old(display.List(u))
      ensures isLinked && refCount == old(refCount) + 1
    {
      isLinked := true;
      display.resourceLists := display.resourceLists[t := [this] + display.List(t)];
      Get();
    }

    /**
     * `_eglUnlinkResource`: take the resource out of its display's list for
     * `t`, either at the head or after the predecessor the scan finds, mark it
     * unlinked and drop the registry's reference; the driver still holds one.
     */
    method Unlink(t: ResourceType)
      requires display != null && this in display.List(t)
      requires refCount > 1
      modifies this`isLinked, this`refCount, display`resourceLists
      ensures display.List(t) == RemoveFirst(old(display.List(t)), this)
      ensures forall u :: u != t ==> display.List(u) == old(display.List(u))
      ensures !isLinked && refCount == old(refCount) - 1 && refCount != 0
    {
      var list := display.List(t);
      RemoveFirstMultiset(list, this);
      if list[0] != this {
        // the predecessor scan: stop at the element whose successor is `this`
        var prev := 0;
        while !(prev + 1 < |list| && list[prev + 1] == this)
          invariant 0 <= prev < |list|
          invariant forall j :: 0 <= j <= prev ==> list[j] != this
          decreases |list| - prev
        {
          prev := prev + 1;
        }
        RemoveFirstAt(list, this, prev + 1);
        display.resourceLists := display.resourceLists[t := list[..prev + 1] + list[prev + 2..]];
      } else {
        display.resourceLists := display.resourceLists[t := list[1..]];
      }
      isLinked := false;
      var zero := Put();
      assert !zero;
    }
  }

  /**
   * A link followed by an unlink restores the display's lists and the
   * reference count, and leaves the resource unlinked.
   */
  method LinkThenUnlink(res: Resource, t: ResourceType)
    requires res.display != null && res.refCount > 0
    requires forall u :: res !in res.display.List(u)
    modifies res, res.display`resourceLists
    ensures forall u :: res.display.List(u) == old(res.display.List(u))
    ensures res.refCount == old(res.refCount) && !res.isLinked
  {
    res.Link(t);
    res.Unlink(t);
    RemoveFirstAfterPush(old(res.display.List(t)), res);
  }

  /**
   * `_eglCheckResource`: a non-NULL resource is valid for `dpy` exactly when
   * it is an element of `dpy`'s list for `t`.
   */
  method CheckResource(res: Resource?, t: ResourceType, dpy: Display) returns (valid: bool)
    requires res != null && res in dpy.List(t) ==> res.display == dpy
    ensures valid <==> res != null && res in dpy.List(t)
  {
    var list := dpy.List(t);
    if res == null {
      return false;
    }
    var i := 0;
    while i < |list|
      invariant 0 <= i <= |list|
      invariant forall j :: 0 <= j < i ==> list[j] != res
    {
      if list[i] == res {
        assert list[i].display == dpy;
        break;
      }
      i := i + 1;
    }
    valid := i < |list|;
  }

  /**
   * A destroy callback of the driver (`DestroyContext`, `DestroySurface`, ...),
   * with the state of the resource at the moment of the call.
   */
  datatype DestroyCall = DestroyCall(kind: ResourceType, drv: Driver, res: Resource, linked: bool, refCount: int)

  /** The reference counts of the resources `rs`, in list order. */
  function RefCounts(rs: seq<Resource>): (r: seq<int>)
    reads rs
    ensures |r| == |rs| && forall k :: 0 <= k < |rs| ==> r[k] == rs[k].refCount
  {
    if rs == [] then [] else [rs[0].refCount] + RefCounts(rs[1..])
  }

  /**
   * The destroy callbacks for the resources `rs` of kind `t`, in list order,
   * `counts` being their reference counts before the drain: at its callback
   * each resource is no longer linked and holds one reference fewer.
   */
  function DestroyLog(t: ResourceType, drv: Driver, rs: seq<Resource>, counts: seq<int>): (r: seq<DestroyCall>)
    requires |counts| == |rs|
    ensures |r| == |rs|
    ensures forall k :: 0 <= k < |rs| ==>
              && r[k].res == rs[k] && r[k].kind == t && r[k].drv == drv
              && !r[k].linked && r[k].refCount == counts[k] - 1
  {
    if rs == [] then [] else [DestroyCall(t, drv, rs[0], false, counts[0] - 1)] + DestroyLog(t, drv, rs[1..], counts[1..])
  }

  /**
   * What draining the list of kind `t` relies on: every element belongs to
   * `d`, occurs once, and holds a reference besides the registry's.
   */
  predicate Drainable(d: Display, t: ResourceType)
    reads d, d.List(t)
  {
    && Distinct(d.List(t))
    && forall k :: 0 <= k < |d.List(t)| ==> d.List(t)[k].display == d && d.List(t)[k].refCount > 1
  }

  /**
   * One pass of a drain loop: pop the head of the list of kind `t` and
   * unlink it (it is then handed to the driver's destroy callback).
   */
  method PopHead(display: Display, t: ResourceType) returns (res: Resource)
    requires display.List(t) != []
    requires display.List(t)[0].display == display && display.List(t)[0].refCount > 1
    modifies display`resourceLists, display.List(t)[0]
    ensures res == old(display.List(t)[0]) && display.List(t) == old(display.List(t))[1..]
    ensures forall u :: u != t ==> display.List(u) == old(display.List(u))
    ensures !res.isLinked && res.refCount == old(res.refCount) - 1
  {
    res := display.List(t)[0];
    res.Unlink(t);
  }

  /**
   * The state of one drain loop after `i` of the resources `all` of kind `t`
   * (whose counts were `counts`) are popped: the list is the rest, each
   * popped resource is unlinked with one reference fewer and has had its
   * destroy callback, and the others are untouched.
   */
  ghost predicate DrainedUpTo(drv: Driver, display: Display, t: ResourceType, all: seq<Resource>,
                              counts: seq<int>, i: nat, calls: seq<DestroyCall>)
    reads display, all
  {
    && i <= |all| && |counts| == |all| && |calls| == i && display.List(t) == all[i..]
    && forall k :: 0 <= k < |all| ==>
         if k < i then calls[k] == DestroyCall(t, drv, all[k], false, counts[k] - 1)
                       && all[k].refCount == counts[k] - 1 && !all[k].isLinked
         else all[k].refCount == counts[k] > 1
  }

  /** One iteration of a drain loop: pop, unlink, destroy. */
  method DrainStep(drv: Driver, display: Display, t: ResourceType, ghost all: seq<Resource>, ghost counts: seq<int>,
                   ghost i: nat, calls: seq<DestroyCall>) returns (calls': seq<DestroyCall>)
    requires DrainedUpTo(drv, display, t, all, counts, i, calls) && i < |all| && Distinct(all)
    requires all[i].display == display
    modifies display`resourceLists, all[i]
    ensures DrainedUpTo(drv, display, t, all, counts, i + 1, calls')
    ensures forall u :: u != t ==> display.List(u) == old(display.List(u))
  {
    DistinctAt(all, i);
    var res := PopHead(display, t);
    calls' := calls + [DestroyCall(t, drv, res, res.isLinked, res.refCount)];
  }

  /**
   * One drain loop of `_eglReleaseDisplayResources`: pop the head, unlink
   * it, then call the driver's destroy for it, until the list is empty.
   */
  method DrainList(drv: Driver, display: Display, t: ResourceType) returns (calls: seq<DestroyCall>)
    requires Drainable(display, t)
    modifies display`resourceLists, display.List(t)
    ensures display.List(t) == []
    ensures forall u :: u != t ==> display.List(u) == old(display.List(u))
    ensures calls == DestroyLog(t, drv, old(display.List(t)), old(RefCounts(display.List(t))))
    ensures forall k :: 0 <= k < |calls| ==> calls[k].res.refCount == calls[k].refCount && calls[k].res.isLinked == calls[k].linked
    ensures forall k :: 0 <= k < |old(display.List(t))| ==> old(display.List(t))[k].display == display
  {
    ghost var all := display.List(t);
    ghost var counts := RefCounts(all);
    ghost var i := 0;
    calls := [];
    while display.List(t) != []
      invariant DrainedUpTo(drv, display, t, all, counts, i, calls)
      invariant forall u :: u != t ==> display.List(u) == old(display.List(u))
      decreases |all| - i
    {
      calls := DrainStep(drv, display, t, all, counts, i, calls);
      i := i + 1;
    }
    assert calls == DestroyLog(t, drv, all, counts);
  }

  /**
   * A drain loop seen from outside the list: the resources of earlier
   * destroy callbacks `earlier` keep the state they had at their callback,
   * and the resources `others` keep their counts, when none of them is in
   * the list being drained.
   */
  method DrainListFramed(drv: Driver, display: Display, t: ResourceType,
                         ghost earlier: seq<DestroyCall>, ghost others: seq<Resource>)
    returns (calls: seq<DestroyCall>)
    requires Drainable(display, t)
    requires forall k :: 0 <= k < |earlier| ==>
               && earlier[k].res !in display.List(t)
               && earlier[k].res.refCount == earlier[k].refCount && earlier[k].res.isLinked == earlier[k].linked
    requires forall k :: 0 <= k < |others| ==> others[k] !in display.List(t)
    modifies display`resourceLists, display.List(t)
    ensures display.List(t) == []
    ensures forall u :: u != t ==> display.List(u) == old(display.List(u))
    ensures calls == DestroyLog(t, drv, old(display.List(t)), old(RefCounts(display.List(t))))
    ensures forall k :: 0 <= k < |calls| ==> calls[k].res.refCount == calls[k].refCount && calls[k].res.isLinked == calls[k].linked
    ensures forall k :: 0 <= k < |earlier| ==>
              earlier[k].res.refCount == earlier[k].refCount && earlier[k].res.isLinked == earlier[k].linked
    ensures RefCounts(others) == old(RefCounts(others))
  {
    ghost var counts := RefCounts(others);
    calls := DrainList(drv, display, t);
    assert forall k :: 0 <= k < |others| ==> others[k].refCount == counts[k];
  }

  /**
   * `_eglReleaseDisplayResources`: drain the context list, then the surface
   * list, through the driver's destroy callbacks; the image and sync lists
   * are left as they are.
   */
  method ReleaseDisplayResources(drv: Driver, display: Display) returns (calls: seq<DestroyCall>)
    requires Drainable(display, Context) && Drainable(display, Surface)
    requires forall r :: r in display.List(Surface) ==> r !in display.List(Context)
    modifies display`resourceLists, display.List(Context), display.List(Surface)
    ensures display.List(Context) == [] && display.List(Surface) == []
    ensures display.List(Image) == old(display.List(Image)) && display.List(Sync) == old(display.List(Sync))
    ensures calls == DestroyLog(Context, drv, old(display.List(Context)), old(RefCounts(display.List(Context))))
                   + DestroyLog(Surface, drv, old(display.List(Surface)), old(RefCounts(display.List(Surface))))
    ensures forall k :: 0 <= k < |calls| ==> calls[k].res.refCount == calls[k].refCount && calls[k].res.isLinked == calls[k].linked
  {
    ghost var surfaces := display.List(Surface);
    ghost var surfaceCounts := RefCounts(surfaces);
    var destroyedContexts := DrainListFramed(drv, display, Context, [], surfaces);
    assert Drainable(display, Surface);
    var destroyedSurfaces := DrainListFramed(drv, display, Surface, destroyedContexts, []);
    calls := destroyedContexts + destroyedSurfaces;
  }

  /** The registry key of a display. */
  function Key(d: Display): (PlatformType, NativeHandle) {
    (d.platform, d.platformDisplay)
  }

  /** No two displays of the list share a key. */
  predicate KeysUnique(ds: seq<Display>) {
    forall i, j :: 0 <= i < j < |ds| ==> Key(ds[i]) != Key(ds[j])
  }

  /** Some display of the list carries the key (`plat`, `handle`). */
  predicate HasKey(ds: seq<Display>, plat: PlatformType, handle: NativeHandle) {
    exists j :: 0 <= j < |ds| && Key(ds[j]) == (plat, handle)
  }

  /** In a list with unique keys, the key determines the display. */
  lemma KeyIdentifiesDisplay(ds: seq<Display>, d1: Display, d2: Display)
    requires KeysUnique(ds) && d1 in ds && d2 in ds && Key(d1) == Key(d2)
    ensures d1 == d2
  {
  }

  /** The displays of the list that still have resources, in list order. */
  function WithResources(ds: seq<Display>): seq<Display>
    reads ds
  {
    if ds == [] then []
    else (if ds[0].HasResources() then [ds[0]] else []) + WithResources(ds[1..])
  }

  /** The filter keeps exactly the displays that still have resources. */
  lemma {:induction false} WithResourcesExact(ds: seq<Display>)
    ensures forall k :: 0 <= k < |WithResources(ds)| ==> WithResources(ds)[k] in ds && WithResources(ds)[k].HasResources()
    ensures forall k :: 0 <= k < |ds| && ds[k].HasResources() ==> ds[k] in WithResources(ds)
  {
    if ds != [] {
      WithResourcesExact(ds[1..]);
      var head := if ds[0].HasResources() then [ds[0]] else [];
      assert WithResources(ds) == head + WithResources(ds[1..]);
      forall k | 0 <= k < |ds| && ds[k].HasResources() ensures ds[k] in WithResources(ds) {
        if k > 0 {
          assert ds[k] == ds[1..][k - 1];
        }
      }
    }
  }

  /** Filtering one more display appends it exactly when it has resources. */
  lemma {:induction false} WithResourcesSnoc(ds: seq<Display>, d: Display)
    ensures WithResources(ds + [d]) == WithResources(ds) + (if d.HasResources() then [d] else [])
  {
    if ds != [] {
      assert (ds + [d])[1..] == ds[1..] + [d];
      WithResourcesSnoc(ds[1..], d);
    }
  }

  /** The same, for the prefixes of one list. */
  lemma WithResourcesPrefix(ds: seq<Display>, n: nat)
    requires n < |ds|
    ensures WithResources(ds[..n + 1]) == WithResources(ds[..n]) + (if ds[n].HasResources() then [ds[n]] else [])
  {
    assert ds[..n + 1] == ds[..n] + [ds[n]];
    WithResourcesSnoc(ds[..n], ds[n]);
  }

  /** `_eglGlobal.DisplayList`, the registry of all displays of the process. */
  class DisplayRegistry {
    var displays: seq<Display>

    ghost predicate Valid()
      reads this
    {
      KeysUnique(displays)
    }

    constructor ()
      ensures Valid() && displays == []
    {
      displays := [];
    }

    /**
     * `_eglFindDisplay`: return the display with key (`plat`, `platDpy`),
     * prepending a new one when there is none; `allocOk` is the outcome of
     * the allocation. The invalid platform yields NULL.
     */
    method FindDisplay(plat: PlatformType, platDpy: NativeHandle, allocOk: bool) returns (dpy: Display?)
      requires Valid()
      modifies this
      ensures Valid()
      ensures plat == InvalidPlatform ==> dpy == null && displays == old(displays)
      ensures plat != InvalidPlatform && HasKey(old(displays), plat, platDpy) ==>
                && dpy != null && dpy in old(displays) && Key(dpy) == (plat, platDpy)
                && displays == old(displays)
      ensures plat != InvalidPlatform && !HasKey(old(displays), plat, platDpy) && allocOk ==>
                && dpy != null && fresh(dpy) && Key(dpy) == (plat, platDpy)
                && displays == [dpy] + old(displays)
                && !dpy.initialized && dpy.driver == None && dpy.options == Options(false, false)
                && forall t :: dpy.List(t) == []
      ensures plat != InvalidPlatform && !HasKey(old(displays), plat, platDpy) && !allocOk ==>
                dpy == null && displays == old(displays)
    {
      if plat == InvalidPlatform {
        return null;
      }
      var i := 0;
      while i < |displays| && !(displays[i].platform == plat && displays[i].platformDisplay == platDpy)
        invariant 0 <= i <= |displays|
        invariant forall j :: 0 <= j < i ==> Key(displays[j]) != (plat, platDpy)
      {
        i := i + 1;
      }
      if i < |displays| {
        dpy := displays[i];
        assert Key(displays[i]) == (plat, platDpy);
      } else if allocOk {
        dpy := new Display(plat, platDpy);
        displays := [dpy] + displays;
      } else {
        dpy := null;
      }
    }

    /**
     * `_eglCheckDisplayHandle`: a handle is valid exactly when it is an
     * element of the display list.
     */
    method CheckDisplayHandle(handle: Display?) returns (valid: bool)
      ensures valid <==> handle != null && handle in displays
    {
      var i := 0;
      while i < |displays| && displays[i] != handle
        invariant 0 <= i <= |displays|
        invariant forall j :: 0 <= j < i ==> displays[j] != handle
      {
        i := i + 1;
      }
      valid := i < |displays|;
    }

    /** The per-display test of `_eglFiniDisplay`: is any resource list non-empty? */
    static method ScanResourceLists(dpy: Display) returns (used: bool)
      ensures used <==> dpy.HasResources()
    {
      var i := 0;
      used := false;
      while i < |RESOURCE_TYPES|
        invariant 0 <= i <= |RESOURCE_TYPES|
        invariant !used
        invariant forall j :: 0 <= j < i ==> dpy.List(RESOURCE_TYPES[j]) == []
      {
        if dpy.List(RESOURCE_TYPES[i]) != [] {
          used := true;
          return;
        }
        i := i + 1;
      }
    }

    /**
     * `_eglFiniDisplay`: pop and free every display, empty the list, and
     * report (the debug message of the source) each display freed while it
     * still had resources.
     */
    method FiniDisplay() returns (leaked: seq<Display>)
      modifies this
      ensures Valid() && displays == []
      ensures leaked == WithResources(old(displays))
    {
      ghost var all := displays;
      ghost var n := 0;
      var dpyList := displays;
      leaked := [];
      while dpyList != []
        invariant 0 <= n <= |all| && dpyList == all[n..]
        invariant leaked == WithResources(all[..n])
        decreases |dpyList|
      {
        var dpy := dpyList[0];
        dpyList := dpyList[1..];
        var used := ScanResourceLists(dpy);
        WithResourcesPrefix(all, n);
        if used {
          leaked := leaked + [dpy];
        }
        n := n + 1;
      }
      assert all[..n] == all;
      displays := [];
    }
  }

  /**
   * Find-or-create is idempotent: a second lookup of the same key returns the
   * very display the first one returned, and leaves the list as it was.
   */
  method FindDisplayTwice(reg: DisplayRegistry, plat: PlatformType, platDpy: NativeHandle, alloc1: bool, alloc2: bool)
    returns (first: Display?, second: Display?)
    requires reg.Valid()
    modifies reg
    ensures first != null ==> second == first
    ensures first != null ==> reg.displays == (if old(HasKey(reg.displays, plat, platDpy)) then old(reg.displays) else [first] + old(reg.displays))
  {
    first := reg.FindDisplay(plat, platDpy, alloc1);
    ghost var between := reg.displays;
    second := reg.FindDisplay(plat, platDpy, alloc2);
    if first != null {
      assert HasKey(between, plat, platDpy) by {
        assert first in between && Key(first) == (plat, platDpy);
      }
      KeyIdentifiesDisplay(between, first, second);
    }
  }
}
