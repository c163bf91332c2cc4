/**
 * The choice of the native platform (egldisplay.c): the `EGL_PLATFORM` /
 * `EGL_DISPLAY` environment names, the `egl_platforms` name table, the
 * detection result and the build-time default, in that order of priority.
 */
module EglPlatform {
  import opened EglTypes

  /** The `egl_platforms` table: the name of each valid platform, in table order. */
  const PLATFORM_TABLE: seq<(PlatformType, string)> := [
    (X11, "x11"),
    (Wayland, "wayland"),
    (Drm, "drm"),
    (Android, "android"),
    (Haiku, "haiku"),
    (Surfaceless, "surfaceless")
  ]

  /** `_EGL_NATIVE_PLATFORM`, the build-time default (X11 in this build). */
  const NATIVE_PLATFORM: PlatformType := X11

  /** The process environment: a variable that is not in the map is unset. */
  type Env = map<string, string>

  /** `getenv`: `None` stands for a NULL result. */
  function GetEnv(env: Env, key: string): Option<string> {
    if key in env then Some(env[key]) else None
  }

  /** An environment value that `_eglGetNativePlatformFromEnv` accepts: set and non-empty. */
  predicate IsSetName(v: Option<string>) {
    v.Some? && v.value != ""
  }

  /**
   * The platform name read from the environment: `EGL_PLATFORM` when it is
   * set and non-empty, otherwise the deprecated `EGL_DISPLAY` on the same
   * terms, otherwise none.
   */
  function PlatformName(env: Env): (r: Option<string>)
    ensures r.Some? ==> r.value != ""
    ensures IsSetName(GetEnv(env, "EGL_PLATFORM")) ==> r == GetEnv(env, "EGL_PLATFORM")
    ensures (!IsSetName(GetEnv(env, "EGL_PLATFORM")) && IsSetName(GetEnv(env, "EGL_DISPLAY")))
              ==> r == GetEnv(env, "EGL_DISPLAY")
    ensures r.None? <==> !IsSetName(GetEnv(env, "EGL_PLATFORM")) && !IsSetName(GetEnv(env, "EGL_DISPLAY"))
  {
    var platform := GetEnv(env, "EGL_PLATFORM");
    var name := if IsSetName(platform) then platform else GetEnv(env, "EGL_DISPLAY");
    if IsSetName(name) then name else None
  }

  /** `egl_platforms[p].name`: the table name of a valid platform. */
  function NameOf(p: PlatformType): string
    requires p != InvalidPlatform
  {
    match p
    case X11 => "x11"
    case Wayland => "wayland"
    case Drm => "drm"
    case Android => "android"
    case Haiku => "haiku"
    case Surfaceless => "surfaceless"
  }

  /** The platform of the first table entry whose name equals `name` exactly. */
  function Lookup(table: seq<(PlatformType, string)>, name: string): (r: PlatformType)
    ensures (forall i :: 0 <= i < |table| ==> table[i].1 != name) ==> r == InvalidPlatform
    ensures r != InvalidPlatform ==> (r, name) in table
  {
    if table == [] then InvalidPlatform
    else if table[0].1 == name then table[0].0
    else Lookup(table[1..], name)
  }

  /** The platform the environment selects, or `InvalidPlatform`. */
  function EnvPlatform(env: Env): (r: PlatformType)
    ensures PlatformName(env).None? ==> r == InvalidPlatform
    ensures r != InvalidPlatform ==> PlatformName(env) == Some(NameOf(r))
  {
    match PlatformName(env)
    case None => InvalidPlatform
    case Some(name) => LookupIsNameOf(name); Lookup(PLATFORM_TABLE, name)
  }

  /**
   * Table lookup and `NameOf` are inverse: a name maps to a platform exactly
   * when it is that platform's table name, and otherwise to the invalid one.
   */
  lemma LookupIsNameOf(name: string)
    ensures Lookup(PLATFORM_TABLE, name) != InvalidPlatform ==> NameOf(Lookup(PLATFORM_TABLE, name)) == name
    ensures forall p :: p != InvalidPlatform ==> (Lookup(PLATFORM_TABLE, name) == p <==> NameOf(p) == name)
  {
    LookupUnrolled(name);
  }

  /** The lookup in `egl_platforms`, entry by entry in table order. */
  lemma LookupUnrolled(name: string)
    ensures Lookup(PLATFORM_TABLE, name)
         == if name == "x11" then X11
            else if name == "wayland" then Wayland
            else if name == "drm" then Drm
            else if name == "android" then Android
            else if name == "haiku" then Haiku
            else if name == "surfaceless" then Surfaceless
            else InvalidPlatform
  {
    var t := PLATFORM_TABLE;
    var t1 := [(Wayland, "wayland"), (Drm, "drm"), (Android, "android"), (Haiku, "haiku"), (Surfaceless, "surfaceless")];
    var t2 := [(Drm, "drm"), (Android, "android"), (Haiku, "haiku"), (Surfaceless, "surfaceless")];
    var t3 := [(Android, "android"), (Haiku, "haiku"), (Surfaceless, "surfaceless")];
    var t4 := [(Haiku, "haiku"), (Surfaceless, "surfaceless")];
    var t5 := [(Surfaceless, "surfaceless")];
    assert t[1..] == t1 && t1[1..] == t2 && t2[1..] == t3 && t3[1..] == t4 && t4[1..] == t5 && t5[1..] == [];
    assert Lookup(t, name) == if name == "x11" then X11 else Lookup(t1, name);
    assert Lookup(t1, name) == if name == "wayland" then Wayland else Lookup(t2, name);
    assert Lookup(t2, name) == if name == "drm" then Drm else Lookup(t3, name);
    assert Lookup(t3, name) == if name == "android" then Android else Lookup(t4, name);
    assert Lookup(t4, name) == if name == "haiku" then Haiku else Lookup(t5, name);
    assert Lookup(t5, name) == if name == "surfaceless" then Surfaceless else InvalidPlatform;
  }

  /**
   * `_eglGetNativePlatformFromEnv`: pick the environment name and look it up
   * in `egl_platforms` by exact comparison.
   */
  method GetNativePlatformFromEnv(env: Env) returns (plat: PlatformType)
    ensures plat == EnvPlatform(env)
    ensures plat != InvalidPlatform ==> PlatformName(env) == Some(NameOf(plat))
    ensures PlatformName(env).None? ==> plat == InvalidPlatform
  {
    plat := InvalidPlatform;
    var platName := GetEnv(env, "EGL_PLATFORM");
    if !IsSetName(platName) {
      platName := GetEnv(env, "EGL_DISPLAY");
    }
    if !IsSetName(platName) {
      return InvalidPlatform;
    }
    var name := platName.value;
    var i := 0;
    while i < |PLATFORM_TABLE|
      invariant 0 <= i <= |PLATFORM_TABLE|
      invariant Lookup(PLATFORM_TABLE, name) == Lookup(PLATFORM_TABLE[i..], name)
    {
      if PLATFORM_TABLE[i].1 == name {
        plat := PLATFORM_TABLE[i].0;
        break;
      }
      assert PLATFORM_TABLE[i..][1..] == PLATFORM_TABLE[i + 1..];
      i := i + 1;
    }
    LookupIsNameOf(name);
  }

  /**
   * `_eglGetNativePlatform`: the environment choice, else the detection
   * result (an input here), else the build-time default; never invalid.
   */
  method GetNativePlatform(env: Env, detected: PlatformType) returns (plat: PlatformType)
    ensures plat != InvalidPlatform
    ensures EnvPlatform(env) != InvalidPlatform ==> plat == EnvPlatform(env)
    ensures EnvPlatform(env) == InvalidPlatform && detected != InvalidPlatform ==> plat == detected
    ensures EnvPlatform(env) == InvalidPlatform && detected == InvalidPlatform ==> plat == NATIVE_PLATFORM
  {
    plat := GetNativePlatformFromEnv(env);
    if plat == InvalidPlatform {
      plat := detected;
    }
    if plat == InvalidPlatform {
      plat := NATIVE_PLATFORM;
    }
  }
}
