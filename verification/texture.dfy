/** The WebGL 2 texture object: its static conversions from renderer enums to
    WebGL constants, the parameter defaults of its constructor, and the GL
    calls its methods issue, recorded as a trace. */
module WebGL2Texture {
  import opened Wrappers
  import opened RendererTypes
  import opened WebGL2Constants
  import opened WebGL2Context

  // ---------------------------------------------------------------------
  // Conversions
  // ---------------------------------------------------------------------

  /** `convertWrapToWebGLConstant`: each wrap mode to its same-named
      constant; any unlisted value falls back to CLAMP_TO_EDGE. */
  function ConvertWrap(wrap: TextureWrap): (c: GLenum)
    ensures IsWrapValue(c)
    ensures c == REPEAT <==> wrap == Repeat
    ensures c == MIRRORED_REPEAT <==> wrap == MirroredRepeat
    ensures c == CLAMP_TO_EDGE <==> (wrap == ClampToEdge || wrap.UnlistedWrap?)
  {
    match wrap
    case ClampToEdge => CLAMP_TO_EDGE
    case Repeat => REPEAT
    case MirroredRepeat => MIRRORED_REPEAT
    case UnlistedWrap(_) => CLAMP_TO_EDGE
  }

  /** `convertMinFilterToWebGLConstant`: each of the six filters to its
      same-named constant; any unlisted value falls back to NEAREST. */
  function ConvertMinFilter(f: MinFilter): (c: GLenum)
    ensures IsMinFilterValue(c)
    ensures c == NEAREST <==> (f == MinFilter.Nearest || f.UnlistedMinFilter?)
    ensures c == LINEAR <==> f == MinFilter.Linear
    ensures c == NEAREST_MIPMAP_NEAREST <==> f == NearestMipmapNearest
    ensures c == LINEAR_MIPMAP_NEAREST <==> f == LinearMipmapNearest
    ensures c == NEAREST_MIPMAP_LINEAR <==> f == NearestMipmapLinear
    ensures c == LINEAR_MIPMAP_LINEAR <==> f == LinearMipmapLinear
  {
    match f
    case Nearest => NEAREST
    case Linear => LINEAR
    case NearestMipmapNearest => NEAREST_MIPMAP_NEAREST
    case LinearMipmapNearest => LINEAR_MIPMAP_NEAREST
    case NearestMipmapLinear => NEAREST_MIPMAP_LINEAR
    case LinearMipmapLinear => LINEAR_MIPMAP_LINEAR
    case UnlistedMinFilter(_) => NEAREST
  }

  /** `convertMagFilterToWebGLConstant`: Nearest and Linear to their
      same-named constants; any unlisted value falls back to NEAREST. */
  function ConvertMagFilter(f: MagFilter): (c: GLenum)
    ensures IsMagFilterValue(c)
    ensures c == LINEAR <==> f == MagFilter.Linear
    ensures c == NEAREST <==> (f == MagFilter.Nearest || f.UnlistedMagFilter?)
  {
    match f
    case Nearest => NEAREST
    case Linear => LINEAR
    case UnlistedMagFilter(_) => NEAREST
  }

  /** `convertFormatToWebGLConstants`: the (format, internal format, type)
      triple used to upload a texture of the given format. Depth32Float is
      the only depth format and the only one uploaded as FLOAT; every other
      format, the unlisted fallback included, is uploaded as UNSIGNED_BYTE. */
  function ConvertFormat(f: TextureFormat): (r: FormatTriple)
    ensures IsValidUpload(r)
    ensures r.pixelType == FLOAT <==> f == Depth32Float
    ensures r.pixelType == UNSIGNED_BYTE <==> f != Depth32Float
    ensures f == Depth32Float ==> r.format == DEPTH_COMPONENT && r.internalFormat == DEPTH_COMPONENT32F
    ensures r.format == RGBA <==> (f == RGBA8Unorm || f.UnlistedFormat?)
  {
    match f
    case R8Unorm => FormatTriple(RED, R8, UNSIGNED_BYTE)
    case RG8Unorm => FormatTriple(RG, RG8, UNSIGNED_BYTE)
    case RGB8Unorm => FormatTriple(RGB, RGB8, UNSIGNED_BYTE)
    case RGBA8Unorm => FormatTriple(RGBA, RGBA8, UNSIGNED_BYTE)
    case Depth32Float => FormatTriple(DEPTH_COMPONENT, DEPTH_COMPONENT32F, FLOAT)
    case UnlistedFormat(_) => FormatTriple(RGBA, RGBA8, UNSIGNED_BYTE)
  }

  // ---------------------------------------------------------------------
  // Reading a constant back as the renderer value it stands for
  // ---------------------------------------------------------------------

  /** The wrap mode a wrap constant stands for. */
  function WrapOf(c: GLenum): Option<TextureWrap>
  {
    match c
    case CLAMP_TO_EDGE => Some(ClampToEdge)
    case REPEAT => Some(Repeat)
    case MIRRORED_REPEAT => Some(MirroredRepeat)
    case _ => None
  }

  /** The min filter a filter constant stands for. */
  function MinFilterOf(c: GLenum): Option<MinFilter>
  {
    match c
    case NEAREST => Some(MinFilter.Nearest)
    case LINEAR => Some(MinFilter.Linear)
    case NEAREST_MIPMAP_NEAREST => Some(NearestMipmapNearest)
    case LINEAR_MIPMAP_NEAREST => Some(LinearMipmapNearest)
    case NEAREST_MIPMAP_LINEAR => Some(NearestMipmapLinear)
    case LINEAR_MIPMAP_LINEAR => Some(LinearMipmapLinear)
    case _ => None
  }

  /** The mag filter a filter constant stands for. */
  function MagFilterOf(c: GLenum): Option<MagFilter>
  {
    match c
    case NEAREST => Some(MagFilter.Nearest)
    case LINEAR => Some(MagFilter.Linear)
    case _ => None
  }

  /** The texture format a sized internal format stands for. */
  function FormatOf(t: FormatTriple): Option<TextureFormat>
  {
    match t.internalFormat
    case R8 => Some(R8Unorm)
    case RG8 => Some(RG8Unorm)
    case RGB8 => Some(RGB8Unorm)
    case RGBA8 => Some(RGBA8Unorm)
    case DEPTH_COMPONENT32F => Some(Depth32Float)
    case _ => None
  }

  /** The wrap conversion is a bijection between the listed wrap modes and
      the legal wrap values: reading the constant back gives the mode, and
      every legal wrap value is the conversion of the mode it stands for. */
  lemma WrapRoundTrip(w: TextureWrap, c: GLenum)
    ensures !w.UnlistedWrap? ==> WrapOf(ConvertWrap(w)) == Some(w)
    ensures WrapOf(c).Some? <==> IsWrapValue(c)
    ensures IsWrapValue(c) ==> ConvertWrap(WrapOf(c).value) == c
  {
  }

  /** The min-filter conversion is a bijection between the six listed
      filters and the legal min-filter values. */
  lemma MinFilterRoundTrip(f: MinFilter, c: GLenum)
    ensures !f.UnlistedMinFilter? ==> MinFilterOf(ConvertMinFilter(f)) == Some(f)
    ensures MinFilterOf(c).Some? <==> IsMinFilterValue(c)
    ensures IsMinFilterValue(c) ==> ConvertMinFilter(MinFilterOf(c).value) == c
  {
  }

  /** The mag-filter conversion is a bijection between the two listed
      filters and the legal mag-filter values. */
  lemma MagFilterRoundTrip(f: MagFilter, c: GLenum)
    ensures !f.UnlistedMagFilter? ==> MagFilterOf(ConvertMagFilter(f)) == Some(f)
    ensures MagFilterOf(c).Some? <==> IsMagFilterValue(c)
    ensures IsMagFilterValue(c) ==> ConvertMagFilter(MagFilterOf(c).value) == c
  {
  }

  /** The format conversion is a bijection between the five listed formats
      and the valid upload triples this model names. */
  lemma FormatRoundTrip(f: TextureFormat, t: FormatTriple)
    ensures !f.UnlistedFormat? ==> FormatOf(ConvertFormat(f)) == Some(f)
    ensures IsValidUpload(t) ==> FormatOf(t).Some? && ConvertFormat(FormatOf(t).value) == t
  {
  }

  /** An unlisted format is uploaded exactly like RGBA8Unorm. */
  lemma FormatFallbackIsRGBA8(code: int)
    ensures ConvertFormat(UnlistedFormat(code)) == ConvertFormat(RGBA8Unorm)
    ensures ConvertFormat(UnlistedFormat(code)) == FormatTriple(RGBA, RGBA8, UNSIGNED_BYTE)
  {
  }

  /** The min and mag conversions agree on the two filters both enums name,
      Nearest and Linear; both fall back to NEAREST; and every mag-filter
      constant is also a legal min filter. */
  lemma MinMagAgree(f: MagFilter, minCode: int, magCode: int)
    ensures ConvertMinFilter(MinFilter.Nearest) == ConvertMagFilter(MagFilter.Nearest)
    ensures ConvertMinFilter(MinFilter.Linear) == ConvertMagFilter(MagFilter.Linear)
    ensures ConvertMinFilter(UnlistedMinFilter(minCode)) == NEAREST
    ensures ConvertMagFilter(UnlistedMagFilter(magCode)) == NEAREST
    ensures IsMinFilterValue(ConvertMagFilter(f))
  {
  }

  // ---------------------------------------------------------------------
  // The texture object
  // ---------------------------------------------------------------------

  /** The constructor's parameter object; `None` is an omitted parameter. */
  datatype TextureParams = TextureParams(
    width: int,
    height: int,
    anisotropy: Option<real>,
    minFilter: Option<MinFilter>,
    magFilter: Option<MagFilter>,
    wrap: Option<TextureWrap>,
    format: TextureFormat,
    flipY: Option<bool>,
    mipmaps: Option<bool>)

  /** The texture's fields. `target` is the texture-type constant a concrete
      subclass supplies; `handle` is the GL texture object created for it. */
  datatype Texture = Texture(
    target: GLenum,
    handle: Handle,
    width: int,
    height: int,
    anisotropy: real,
    minFilter: MinFilter,
    magFilter: MagFilter,
    wrap: TextureWrap,
    format: TextureFormat,
    flipY: bool,
    mipmaps: bool,
    deleted: bool)

  /** A texture together with the GL calls an operation issued. */
  datatype Effect = Effect(texture: Texture, calls: seq<GLCall>)

  const DefaultAnisotropy: real := 1.0
  const DefaultMinFilter: MinFilter := MinFilter.Nearest
  const DefaultMagFilter: MagFilter := MagFilter.Nearest
  const DefaultWrap: TextureWrap := ClampToEdge
  const DefaultFlipY: bool := false
  const DefaultMipmaps: bool := false

  /** The constructor: omitted parameters take their defaults, the rest are
      stored as given, the texture starts not deleted, and one GL texture
      object is created (`handle` is what `createTexture` returned). */
  function Construct(target: GLenum, handle: Handle, p: TextureParams): (r: Effect)
    ensures !r.texture.deleted
    ensures r.texture.target == target && r.texture.handle == handle
    ensures r.texture.width == p.width && r.texture.height == p.height
    ensures r.texture.format == p.format
    ensures p.anisotropy == None ==> r.texture.anisotropy == 1.0
    ensures p.minFilter == None ==> r.texture.minFilter == MinFilter.Nearest
    ensures p.magFilter == None ==> r.texture.magFilter == MagFilter.Nearest
    ensures p.wrap == None ==> r.texture.wrap == ClampToEdge
    ensures p.flipY == None ==> !r.texture.flipY
    ensures p.mipmaps == None ==> !r.texture.mipmaps
    ensures forall s :: handle in Replay(s, r.calls).live
  {
    Effect(
      Texture(
        target, handle, p.width, p.height,
        p.anisotropy.GetOr(DefaultAnisotropy),
        p.minFilter.GetOr(DefaultMinFilter),
        p.magFilter.GetOr(DefaultMagFilter),
        p.wrap.GetOr(DefaultWrap),
        p.format,
        p.flipY.GetOr(DefaultFlipY),
        p.mipmaps.GetOr(DefaultMipmaps),
        false),
      [CreateTexture(handle)])
  }

  /** The parameter object that passes every field of `t` explicitly. */
  function ParamsOf(t: Texture): TextureParams
  {
    TextureParams(t.width, t.height, Some(t.anisotropy), Some(t.minFilter), Some(t.magFilter),
                  Some(t.wrap), t.format, Some(t.flipY), Some(t.mipmaps))
  }

  /** `p` with every omitted parameter replaced by its default, given explicitly. */
  function WithDefaults(p: TextureParams): TextureParams
  {
    p.(anisotropy := Some(p.anisotropy.GetOr(DefaultAnisotropy)),
       minFilter := Some(p.minFilter.GetOr(DefaultMinFilter)),
       magFilter := Some(p.magFilter.GetOr(DefaultMagFilter)),
       wrap := Some(p.wrap.GetOr(DefaultWrap)),
       flipY := Some(p.flipY.GetOr(DefaultFlipY)),
       mipmaps := Some(p.mipmaps.GetOr(DefaultMipmaps)))
  }

  /** The constructor stores explicit parameters unchanged: constructing
      from the parameters of any live texture gives that texture back. */
  lemma ConstructStoresExplicitParams(t: Texture)
    requires !t.deleted
    ensures Construct(t.target, t.handle, ParamsOf(t)).texture == t
  {
  }

  /** Omitting a parameter is the same as passing its default. */
  lemma OmittedMeansDefault(target: GLenum, handle: Handle, p: TextureParams)
    ensures Construct(target, handle, p) == Construct(target, handle, WithDefaults(p))
  {
  }

  /** `bind`: bind the texture on its target. */
  function Bind(t: Texture): (calls: seq<GLCall>)
    ensures OnlyOnTarget(calls, t.target)
    ensures forall s :: Replay(s, calls).bound == s.bound[t.target := t.handle]
  {
    [BindTexture(t.target, Some(t.handle))]
  }

  /** `unbind`: leave the texture's target with nothing bound. */
  function Unbind(t: Texture): (calls: seq<GLCall>)
    ensures OnlyOnTarget(calls, t.target)
    ensures forall s :: t.target !in Replay(s, calls).bound
    ensures forall s :: Replay(s, calls) == s.(bound := s.bound - {t.target})
  {
    [BindTexture(t.target, None)]
  }

  /** `renderer.bindTexture(this)`, which every parameter update starts
      with: it leaves this texture bound on its target. */
  function RendererBind(t: Texture): (c: GLCall)
    ensures TargetOf(c) == Some(t.target)
    ensures forall s :: Step(s, c).bound == s.bound[t.target := t.handle]
  {
    BindTexture(t.target, Some(t.handle))
  }

  /** `updateWrapping`: set both wrap coordinates to the converted wrap mode. */
  function UpdateWrapping(t: Texture): (calls: seq<GLCall>)
    ensures OnlyOnTarget(calls, t.target)
    ensures LegalParameters(calls)
  {
    var c := ConvertWrap(t.wrap);
    [RendererBind(t),
     TexParameteri(t.target, TEXTURE_WRAP_S, c),
     TexParameteri(t.target, TEXTURE_WRAP_T, c)]
  }

  /** `updateFilters`: set the min and mag filters to their converted values. */
  function UpdateFilters(t: Texture): (calls: seq<GLCall>)
    ensures OnlyOnTarget(calls, t.target)
    ensures LegalParameters(calls)
  {
    [RendererBind(t),
     TexParameteri(t.target, TEXTURE_MIN_FILTER, ConvertMinFilter(t.minFilter)),
     TexParameteri(t.target, TEXTURE_MAG_FILTER, ConvertMagFilter(t.magFilter))]
  }

  /** `updateFlipY`: set the context-wide unpack flip flag; no texture is bound. */
  function UpdateFlipY(t: Texture): (calls: seq<GLCall>)
    ensures forall s :: Replay(s, calls) == s.(unpackFlipY := t.flipY)
  {
    [PixelStorei(UNPACK_FLIP_Y_WEBGL, t.flipY)]
  }

  /** `updateAnisotropy`: set the texture's maximum anisotropy. */
  function UpdateAnisotropy(t: Texture): (calls: seq<GLCall>)
    ensures OnlyOnTarget(calls, t.target)
  {
    [RendererBind(t), TexParameterf(t.target, TEXTURE_MAX_ANISOTROPY_EXT, t.anisotropy)]
  }

  /** `generateMipmaps`: GL work only when the texture wants mipmaps. */
  function GenerateMipmaps(t: Texture): (calls: seq<GLCall>)
    ensures OnlyOnTarget(calls, t.target)
    ensures calls == [] <==> !t.mipmaps
  {
    if t.mipmaps then [RendererBind(t), GenerateMipmap(t.target)] else []
  }

  /** `delete`: delete the GL texture object, which also unbinds it from
      every target, and mark the texture deleted; no other field changes. */
  function Delete(t: Texture): (r: Effect)
    ensures r.texture.deleted
    ensures r.texture.(deleted := t.deleted) == t
    ensures forall s :: t.handle !in Replay(s, r.calls).live
    ensures forall s, tg :: tg in Replay(s, r.calls).bound ==> Replay(s, r.calls).bound[tg] != t.handle
  {
    Effect(t.(deleted := true), [DeleteTexture(t.handle)])
  }

  // ---------------------------------------------------------------------
  // What the issued calls do to the GL state
  // ---------------------------------------------------------------------

  /** Two calls replay one after the other. */
  lemma ReplayTwo(s: GLState, a: GLCall, b: GLCall)
    ensures Replay(s, [a, b]) == Step(Step(s, a), b)
  {
    ReplayAppend(s, [a], [b]);
  }

  /** Three calls replay one after the other. */
  lemma ReplayThree(s: GLState, a: GLCall, b: GLCall, c: GLCall)
    ensures Replay(s, [a, b, c]) == Step(Step(Step(s, a), b), c)
  {
    assert [a, b, c] == [a] + [b, c];
    ReplayAppend(s, [a], [b, c]);
    ReplayTwo(Step(s, a), b, c);
  }

  /** After `updateWrapping`, whatever the prior GL state, this texture's S
      and T wrap parameters both hold the converted wrap mode, the texture is
      bound on its target, no other texture's integer parameters change, and
      no float parameter changes (`UpdateWrappingFrame` gives the whole state). */
  lemma UpdateWrappingSetsBothCoordinates(t: Texture, s: GLState)
    ensures IntParam(Replay(s, UpdateWrapping(t)), t.handle, TEXTURE_WRAP_S) == Some(ConvertWrap(t.wrap))
    ensures IntParam(Replay(s, UpdateWrapping(t)), t.handle, TEXTURE_WRAP_T) == Some(ConvertWrap(t.wrap))
    ensures Replay(s, UpdateWrapping(t)).bound == s.bound[t.target := t.handle]
    ensures forall h, p :: h != t.handle ==>
      IntParam(Replay(s, UpdateWrapping(t)), h, p) == IntParam(s, h, p)
    ensures Replay(s, UpdateWrapping(t)).floatParams == s.floatParams
  {
    var c := ConvertWrap(t.wrap);
    ReplayThree(s, RendererBind(t), TexParameteri(t.target, TEXTURE_WRAP_S, c),
                TexParameteri(t.target, TEXTURE_WRAP_T, c));
  }

  /** The whole GL state after `updateWrapping`: the texture is bound on its
      target, its two wrap parameters are set, and nothing else changes. */
  lemma UpdateWrappingFrame(t: Texture, s: GLState)
    ensures Replay(s, UpdateWrapping(t)) ==
      s.(bound := s.bound[t.target := t.handle],
         intParams := s.intParams[(t.handle, TEXTURE_WRAP_S) := ConvertWrap(t.wrap)]
                                 [(t.handle, TEXTURE_WRAP_T) := ConvertWrap(t.wrap)])
  {
    var c := ConvertWrap(t.wrap);
    ReplayThree(s, RendererBind(t), TexParameteri(t.target, TEXTURE_WRAP_S, c),
                TexParameteri(t.target, TEXTURE_WRAP_T, c));
  }

  /** After `updateFilters`, this texture's min and mag filters hold the
      converted filters, no other texture's integer parameters change, and
      no float parameter changes (`UpdateFiltersFrame` gives the whole state). */
  lemma UpdateFiltersSetsBoth(t: Texture, s: GLState)
    ensures IntParam(Replay(s, UpdateFilters(t)), t.handle, TEXTURE_MIN_FILTER) == Some(ConvertMinFilter(t.minFilter))
    ensures IntParam(Replay(s, UpdateFilters(t)), t.handle, TEXTURE_MAG_FILTER) == Some(ConvertMagFilter(t.magFilter))
    ensures Replay(s, UpdateFilters(t)).bound == s.bound[t.target := t.handle]
    ensures forall h, p :: h != t.handle ==>
      IntParam(Replay(s, UpdateFilters(t)), h, p) == IntParam(s, h, p)
    ensures Replay(s, UpdateFilters(t)).floatParams == s.floatParams
  {
    ReplayThree(s, RendererBind(t),
                TexParameteri(t.target, TEXTURE_MIN_FILTER, ConvertMinFilter(t.minFilter)),
                TexParameteri(t.target, TEXTURE_MAG_FILTER, ConvertMagFilter(t.magFilter)));
  }

  /** The whole GL state after `updateFilters`: the texture is bound on its
      target, its two filter parameters are set, and nothing else changes. */
  lemma UpdateFiltersFrame(t: Texture, s: GLState)
    ensures Replay(s, UpdateFilters(t)) ==
      s.(bound := s.bound[t.target := t.handle],
         intParams := s.intParams[(t.handle, TEXTURE_MIN_FILTER) := ConvertMinFilter(t.minFilter)]
                                 [(t.handle, TEXTURE_MAG_FILTER) := ConvertMagFilter(t.magFilter)])
  {
    ReplayThree(s, RendererBind(t),
                TexParameteri(t.target, TEXTURE_MIN_FILTER, ConvertMinFilter(t.minFilter)),
                TexParameteri(t.target, TEXTURE_MAG_FILTER, ConvertMagFilter(t.magFilter)));
  }

  /** Filters set by `updateFilters` survive a following `updateWrapping`,
      and the wrap mode is then set as well. */
  lemma FiltersSurviveUpdateWrapping(t: Texture, s: GLState)
    ensures IntParam(Replay(Replay(s, UpdateFilters(t)), UpdateWrapping(t)), t.handle, TEXTURE_MIN_FILTER)
         == Some(ConvertMinFilter(t.minFilter))
    ensures IntParam(Replay(Replay(s, UpdateFilters(t)), UpdateWrapping(t)), t.handle, TEXTURE_MAG_FILTER)
         == Some(ConvertMagFilter(t.magFilter))
    ensures IntParam(Replay(Replay(s, UpdateFilters(t)), UpdateWrapping(t)), t.handle, TEXTURE_WRAP_S)
         == Some(ConvertWrap(t.wrap))
  {
    UpdateFiltersFrame(t, s);
    UpdateWrappingFrame(t, Replay(s, UpdateFilters(t)));
  }

  /** After `updateAnisotropy`, this texture's maximum anisotropy is the
      stored one, and its integer parameters are untouched. */
  lemma UpdateAnisotropySetsIt(t: Texture, s: GLState)
    ensures FloatParam(Replay(s, UpdateAnisotropy(t)), t.handle, TEXTURE_MAX_ANISOTROPY_EXT) == Some(t.anisotropy)
    ensures Replay(s, UpdateAnisotropy(t)).intParams == s.intParams
  {
    ReplayTwo(s, RendererBind(t), TexParameterf(t.target, TEXTURE_MAX_ANISOTROPY_EXT, t.anisotropy));
  }

  /** The whole GL state after `updateAnisotropy`: the texture is bound on
      its target, its maximum anisotropy is set, and nothing else changes. */
  lemma UpdateAnisotropyFrame(t: Texture, s: GLState)
    ensures Replay(s, UpdateAnisotropy(t)) ==
      s.(bound := s.bound[t.target := t.handle],
         floatParams := s.floatParams[(t.handle, TEXTURE_MAX_ANISOTROPY_EXT) := t.anisotropy])
  {
    ReplayTwo(s, RendererBind(t), TexParameterf(t.target, TEXTURE_MAX_ANISOTROPY_EXT, t.anisotropy));
  }

  /** The whole GL state after `generateMipmaps` on a texture that wants
      mipmaps: the texture is bound on its target, it is marked mipmapped,
      and nothing else changes. */
  lemma GenerateMipmapsFrame(t: Texture, s: GLState)
    ensures t.mipmaps ==>
      (Replay(s, GenerateMipmaps(t)) ==
       s.(bound := s.bound[t.target := t.handle], mipmapped := s.mipmapped + {t.handle}))
  {
    if t.mipmaps {
      ReplayTwo(s, RendererBind(t), GenerateMipmap(t.target));
    }
  }

  /** `generateMipmaps` generates this texture's mipmaps when it wants
      them, and otherwise leaves the GL state exactly as it was. */
  lemma GenerateMipmapsGuard(t: Texture, s: GLState)
    ensures t.mipmaps ==> t.handle in Replay(s, GenerateMipmaps(t)).mipmapped
    ensures !t.mipmaps ==> Replay(s, GenerateMipmaps(t)) == s
  {
    if t.mipmaps {
      ReplayTwo(s, RendererBind(t), GenerateMipmap(t.target));
    }
  }

  /** A second `delete` issues `deleteTexture` again for the same object;
      the set of existing texture objects ends as after a single delete. */
  lemma DeleteTwice(t: Texture, s: GLState)
    ensures Delete(Delete(t).texture).calls == Delete(t).calls
    ensures Replay(s, Delete(t).calls + Delete(Delete(t).texture).calls).live
         == Replay(s, Delete(t).calls).live
  {
    ReplayTwo(s, DeleteTexture(t.handle), DeleteTexture(t.handle));
  }
}
