/**
 * Values shared by the display registry (egldisplay.c) and the module
 * registry (egldriver.c).
 */
module EglTypes {

  /** A nullable value: `None` plays the part of a NULL pointer. */
  datatype Option<+T> = None | Some(value: T)

  /** `_EGLPlatformType`, with `_EGL_INVALID_PLATFORM` as its own constructor. */
  datatype PlatformType =
    | X11
    | Wayland
    | Drm
    | Android
    | Haiku
    | Surfaceless
    | InvalidPlatform

  /** `_EGLResourceType`: every display keeps one resource list per kind. */
  datatype ResourceType = Context | Surface | Image | Sync

  /** The `_EGL_NUM_RESOURCES` kinds, in enumeration order. */
  const RESOURCE_TYPES: seq<ResourceType> := [Context, Surface, Image, Sync]

  /** An opaque native display pointer; 0 is `EGL_DEFAULT_DISPLAY`. */
  type NativeHandle = nat

  /** `_EGLDisplay.Options`, the driver-selection flags. */
  datatype Options = Options(testOnly: bool, useFallback: bool)

  /** A `_EGLMain_t` built-in entry point, identified by an opaque code. */
  type EntryPoint = nat

  /** A function pointer handed out by a driver's `GetProcAddress`. */
  type Proc = nat

  /**
   * A `_EGLDriver` produced by a built-in entry point: its identity, its
   * (possibly NULL) `Name` and whether its `Unload` hook is set.
   */
  datatype Driver = Driver(id: nat, name: Option<string>, hasUnload: bool)
}
