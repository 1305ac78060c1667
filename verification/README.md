# streets-gl: render-graph queue and WebGL 2 texture parameters

A Dafny model of two small, self-contained pieces of the streets-gl renderer:

- **`Queue<T>`** of the render-graph utilities (`src/ts/render-graph/Utils.ts`): a FIFO over
  a backing array, with `push` at the back, `pop` from the front (returning `undefined` when
  empty) and `isEmpty`. Modelled as a value `Queue(store: seq<T>)` with pure operations; `pop`
  returns the new queue and an `Option` (`None` for `undefined`).
- **`WebGL2Texture`** (`src/ts/renderer/webgl2-renderer/WebGL2Texture.ts`): the static
  conversions from the renderer's wrap, min-filter, mag-filter and texture-format enums to
  WebGL 2.0 constants; the constructor's parameter defaults; and the methods that issue GL
  calls (`bind`, `unbind`, `updateWrapping`, `updateFilters`, `updateFlipY`,
  `updateAnisotropy`, `generateMipmaps`, `delete`). The GL calls are not performed: each
  operation returns the list of calls it would issue, and an abstract GL state
  (`WebGL2Context.Replay`) gives those calls their meaning, following section 3.8
  (Texturing) of the OpenGL ES 3.0 specification, which WebGL 2.0 adopts: a texture parameter
  call acts on the texture bound to its target.

Files:

| file | contents |
|---|---|
| `wrappers.dfy` | `Option`, for `undefined` results and omitted parameters |
| `queue.dfy` | module `RenderGraphQueue`: the queue, its operations and the FIFO lemmas |
| `renderer_types.dfy` | module `RendererTypes`: the renderer enums as far as the conversions name them |
| `gl_constants.dfy` | module `WebGL2Constants`: symbolic GL constants and the legal-value tables of OpenGL ES 3.0 (table 3.19 for texture parameters, table 3.2 for upload formats) |
| `gl_context.dfy` | module `WebGL2Context`: the recorded GL calls and the abstract GL state they act on |
| `texture.dfy` | module `WebGL2Texture`: conversions, their reverse readings, the texture record and its operations |

The GL constants are symbolic (`CLAMP_TO_EDGE`, `REPEAT`, ...), not numbers. Each renderer
enum carries one extra constructor (`UnlistedWrap(code)`, `UnlistedMinFilter(code)`,
`UnlistedMagFilter(code)`, `UnlistedFormat(code)`) standing for any runtime value a
conversion's `switch` does not name, so that the fallback `return` after each `switch` is
reachable in the model.

## Model

| member | source | states |
|---|---|---|
| RenderGraphQueue.New | src/ts/render-graph/Utils.ts:2 | a freshly constructed queue is empty |
| RenderGraphQueue.Push | src/ts/render-graph/Utils.ts:4-6 | the store grows by exactly one, every earlier element stays where it was, the pushed value is last, and the queue is then non-empty |
| RenderGraphQueue.Pop | src/ts/render-graph/Utils.ts:8-10 | `None` is returned exactly when the queue is empty, and then the queue is unchanged; otherwise the oldest element is returned and the rest keeps its order |
| RenderGraphQueue.IsEmpty | src/ts/render-graph/Utils.ts:12-14 | holds exactly when the store has length 0, that is, exactly of the fresh queue |
| RenderGraphQueue.EmptyCharacterised | src/ts/render-graph/Utils.ts:12-14 | `isEmpty` holds exactly of the fresh queue and exactly when `pop` would return `None` |
| RenderGraphQueue.PushPopCommute | src/ts/render-graph/Utils.ts:4-10 | on a non-empty queue a push does not change what `pop` returns, and pushing then popping equals popping then pushing |
| RenderGraphQueue.PushOntoEmptyThenPop | src/ts/render-graph/Utils.ts:4-10 | on an empty queue a pushed value is popped straight back, leaving the queue empty |
| RenderGraphQueue.PushAll | src/ts/render-graph/Utils.ts:4-6 | successive pushes append the pushed values, in order, after the stored ones |
| RenderGraphQueue.Drain | src/ts/render-graph/Utils.ts:8-10 | `n` successive pops hand back exactly `n` results |
| RenderGraphQueue.DrainTakesOldestFirst | src/ts/render-graph/Utils.ts:8-10 | `n` pops return the oldest elements in insertion order, then `None` for each pop past the end; the queue keeps exactly the unpopped suffix |
| RenderGraphQueue.FifoRoundTrip | src/ts/render-graph/Utils.ts:4-10 | pushing `xs` onto a fresh queue and popping `len(xs)` times returns `xs` in the same order and leaves the queue empty |
| RenderGraphQueue.PopUntilEmpty | src/ts/render-graph/Utils.ts:8-14 | popping until `isEmpty` yields every stored element, oldest first, and ends with an empty queue |
| WebGL2Texture.ConvertWrap | src/ts/renderer/webgl2-renderer/WebGL2Texture.ts:104-115 | the result is always a legal wrap value; REPEAT exactly for Repeat, MIRRORED_REPEAT exactly for MirroredRepeat, CLAMP_TO_EDGE exactly for ClampToEdge and every unlisted value |
| WebGL2Texture.WrapRoundTrip | src/ts/renderer/webgl2-renderer/WebGL2Texture.ts:104-115 | the wrap conversion is a bijection between the listed wrap modes and the legal wrap values |
| WebGL2Texture.ConvertMinFilter | src/ts/renderer/webgl2-renderer/WebGL2Texture.ts:117-134 | the result is always a legal min-filter value; each of the six filters maps to its same-named constant and to no other, and unlisted values fall back to NEAREST |
| WebGL2Texture.MinFilterRoundTrip | src/ts/renderer/webgl2-renderer/WebGL2Texture.ts:117-134 | the min-filter conversion is a bijection between the six listed filters and the legal min-filter values |
| WebGL2Texture.ConvertMagFilter | src/ts/renderer/webgl2-renderer/WebGL2Texture.ts:136-145 | the result is always a legal mag-filter value; LINEAR exactly for Linear, NEAREST for Nearest and every unlisted value |
| WebGL2Texture.MagFilterRoundTrip | src/ts/renderer/webgl2-renderer/WebGL2Texture.ts:136-145 | the mag-filter conversion is a bijection between Nearest/Linear and the legal mag-filter values |
| WebGL2Texture.MinMagAgree | src/ts/renderer/webgl2-renderer/WebGL2Texture.ts:117-145 | the min and mag conversions give the same constant for Nearest and for Linear, both fall back to NEAREST, and every mag-filter constant is also a legal min filter |
| WebGL2Texture.ConvertFormat | src/ts/renderer/webgl2-renderer/WebGL2Texture.ts:147-190 | the triple is a valid upload combination of OpenGL ES 3.0 table 3.2; Depth32Float is the only format uploaded as FLOAT (with DEPTH_COMPONENT / DEPTH_COMPONENT32F), every other format as UNSIGNED_BYTE; RGBA is used exactly for RGBA8Unorm and unlisted formats |
| WebGL2Texture.FormatRoundTrip | src/ts/renderer/webgl2-renderer/WebGL2Texture.ts:152-183 | the format conversion is a bijection between the five listed formats and the valid upload triples named here |
| WebGL2Texture.FormatFallbackIsRGBA8 | src/ts/renderer/webgl2-renderer/WebGL2Texture.ts:171-189 | an unlisted format yields exactly RGBA8Unorm's triple (RGBA, RGBA8, UNSIGNED_BYTE) |
| WebGL2Texture.Construct | src/ts/renderer/webgl2-renderer/WebGL2Texture.ts:20-53 | width, height, format, target and handle are stored as given; omitted anisotropy is 1, filters Nearest, wrap ClampToEdge, flipY and mipmaps false; the texture starts not deleted and its GL texture object exists |
| WebGL2Texture.ConstructStoresExplicitParams | src/ts/renderer/webgl2-renderer/WebGL2Texture.ts:36-44 | constructing from the explicit parameters of a live texture gives that texture back: no given parameter is altered |
| WebGL2Texture.OmittedMeansDefault | src/ts/renderer/webgl2-renderer/WebGL2Texture.ts:27-33 | omitting a parameter is the same as passing its default explicitly |
| WebGL2Texture.Bind | src/ts/renderer/webgl2-renderer/WebGL2Texture.ts:56-58 | binds this texture on its own target and changes no other binding |
| WebGL2Texture.Unbind | src/ts/renderer/webgl2-renderer/WebGL2Texture.ts:60-62 | leaves the texture's target with nothing bound and changes nothing else in the GL state |
| WebGL2Texture.RendererBind | src/ts/renderer/webgl2-renderer/WebGL2Texture.ts:67 | `this.renderer.bindTexture(this)` (also at lines 76, 87 and 95) names the texture's own target and leaves this texture bound there, other bindings unchanged |
| WebGL2Texture.UpdateWrapping | src/ts/renderer/webgl2-renderer/WebGL2Texture.ts:64-70 | every call acts on the texture's own target and every parameter value set is legal for its parameter |
| WebGL2Texture.UpdateWrappingSetsBothCoordinates | src/ts/renderer/webgl2-renderer/WebGL2Texture.ts:64-70 | from any GL state, afterwards both the S and T wrap parameters of this texture hold the converted wrap mode and it is bound on its target; no other texture's integer parameters and no float parameter change |
| WebGL2Texture.UpdateWrappingFrame | src/ts/renderer/webgl2-renderer/WebGL2Texture.ts:64-70 | the whole GL state afterwards is the old one with this texture bound on its target and its S and T wrap parameters set to the converted wrap mode; nothing else changes |
| WebGL2Texture.UpdateFilters | src/ts/renderer/webgl2-renderer/WebGL2Texture.ts:72-79 | every call acts on the texture's own target and every parameter value set is legal for its parameter |
| WebGL2Texture.UpdateFiltersSetsBoth | src/ts/renderer/webgl2-renderer/WebGL2Texture.ts:72-79 | from any GL state, afterwards this texture's min and mag filters hold the converted filters and it is bound on its target; no other texture's integer parameters and no float parameter change |
| WebGL2Texture.UpdateFiltersFrame | src/ts/renderer/webgl2-renderer/WebGL2Texture.ts:72-79 | the whole GL state afterwards is the old one with this texture bound on its target and its min and mag filters set to the converted filters; nothing else changes |
| WebGL2Texture.FiltersSurviveUpdateWrapping | src/ts/renderer/webgl2-renderer/WebGL2Texture.ts:64-79 | calling `updateFilters` then `updateWrapping` leaves this texture's filters set and its wrap mode set as well |
| WebGL2Texture.UpdateFlipY | src/ts/renderer/webgl2-renderer/WebGL2Texture.ts:81-83 | only the context-wide unpack flip flag changes, to the texture's flipY |
| WebGL2Texture.UpdateAnisotropy | src/ts/renderer/webgl2-renderer/WebGL2Texture.ts:92-97 | every call acts on the texture's own target |
| WebGL2Texture.UpdateAnisotropySetsIt | src/ts/renderer/webgl2-renderer/WebGL2Texture.ts:92-97 | afterwards this texture's maximum anisotropy is the stored value and no integer parameter changed |
| WebGL2Texture.UpdateAnisotropyFrame | src/ts/renderer/webgl2-renderer/WebGL2Texture.ts:92-97 | the whole GL state afterwards is the old one with this texture bound on its target and its maximum anisotropy set to the stored value; nothing else changes |
| WebGL2Texture.GenerateMipmaps | src/ts/renderer/webgl2-renderer/WebGL2Texture.ts:85-90 | GL calls are issued exactly when `mipmaps` is true, and only on the texture's target |
| WebGL2Texture.GenerateMipmapsGuard | src/ts/renderer/webgl2-renderer/WebGL2Texture.ts:85-90 | with `mipmaps` the texture's mipmaps are generated; without, the GL state is left exactly as it was |
| WebGL2Texture.GenerateMipmapsFrame | src/ts/renderer/webgl2-renderer/WebGL2Texture.ts:85-90 | with `mipmaps`, the whole GL state afterwards is the old one with this texture bound on its target and marked mipmapped; nothing else changes |
| WebGL2Texture.Delete | src/ts/renderer/webgl2-renderer/WebGL2Texture.ts:99-102 | `deleted` becomes true and no other field changes; the GL texture object no longer exists and is bound to no target |
| WebGL2Texture.DeleteTwice | src/ts/renderer/webgl2-renderer/WebGL2Texture.ts:99-102 | `delete` has no guard: a second call issues `deleteTexture` again for the same object, and the existing texture objects end as after one delete |

## Left out

- The real WebGL 2 calls (`createTexture`, `bindTexture`, `texParameteri`, `texParameterf`,
  `pixelStorei`, `generateMipmap`, `deleteTexture`) are foreign browser effects: each operation
  returns the calls it would issue, and `WebGL2Context.Replay` is an abstract reading of them,
  not the browser's behaviour (GL errors, texture completeness and the actual pixel data are
  not modelled).
- The numeric values of the WebGL 2 constants: the constants file is not part of this model,
  so constants are symbolic and only their identity matters.
- `WebGL2Renderer.bindTexture`, which every parameter update starts with, is not part of this
  model; it is taken to bind the texture on its own target (any caching of the current binding
  in the renderer is not modelled).
- `renderer.extensions.anisotropy`: the anisotropy extension is taken to be present; the source
  would fail if the renderer had none, and that failure is not modelled.
- `RendererTypes` is not part of this model: its enums are given only the members the
  conversions name, plus one `Unlisted…` constructor each for every other runtime value.
- `textureTypeConstant` is abstract and supplied by subclasses that are not part of this model;
  it is the `target` argument of `WebGL2Texture.Construct`. Likewise the object returned by
  `gl.createTexture()` is the `handle` argument.
- JavaScript numbers: `width` and `height` are modelled as integers and `anisotropy` as a real;
  floating-point rounding is not modelled.
- `WebGL2Texture.UpdateAnisotropy`: its contract only says that the calls stay on the
  texture's target; what they do to the whole GL state is stated by `UpdateAnisotropyFrame`
  (and, per parameter, by `UpdateAnisotropySetsIt`).
- The render-graph scheduler, passes, resource descriptors, lifetimes and aliasing, and
  `Resource.ts` (a constructor that stores fields and a one-line delegation to a physical
  resource builder) are not part of this model. The queue's code shifts an array
  (`Array.prototype.shift`), so the model uses a sequence.
- Application code (`App.ts`, `Config.ts`, `RenderableObject3D.ts`, `UIRoot.tsx`, `drone.ts`):
  the frame loop, configuration data, floating-point frustum culling and UI.
- A queue whose element type itself includes `undefined` cannot tell an empty `pop` from a
  stored `undefined` in the source; the model's `Option` keeps the two apart.
