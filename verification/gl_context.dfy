/** The calls a WebGL 2 texture issues, recorded rather than performed, and
    an abstract GL context state that gives a call trace its meaning. */
module WebGL2Context {
  import opened Wrappers
  import opened WebGL2Constants

  /** An opaque WebGL texture object, as returned by `createTexture`. */
  type Handle = nat

  /** One call into the WebGL 2 context, recorded rather than performed. */
  datatype GLCall =
    | CreateTexture(handle: Handle)
    | BindTexture(target: GLenum, texture: Option<Handle>)
    | TexParameteri(target: GLenum, pname: GLenum, param: GLenum)
    | TexParameterf(target: GLenum, pname: GLenum, value: real)
    | PixelStorei(pname: GLenum, flag: bool)
    | GenerateMipmap(target: GLenum)
    | DeleteTexture(handle: Handle)

  /** The target a call names, if any. */
  function TargetOf(c: GLCall): Option<GLenum>
  {
    match c
    case BindTexture(t, _) => Some(t)
    case TexParameteri(t, _, _) => Some(t)
    case TexParameterf(t, _, _) => Some(t)
    case GenerateMipmap(t) => Some(t)
    case _ => None
  }

  /** Every call in `calls` that names a texture target names `target`. */
  predicate OnlyOnTarget(calls: seq<GLCall>, target: GLenum)
  {
    forall i :: 0 <= i < |calls| ==> TargetOf(calls[i]) in {None, Some(target)}
  }

  /** Every integer texture parameter set in `calls` is given a legal value. */
  predicate LegalParameters(calls: seq<GLCall>)
  {
    forall i :: 0 <= i < |calls| && calls[i].TexParameteri? ==>
      IsLegalTexParameter(calls[i].pname, calls[i].param)
  }

  /** The part of the GL context's state the texture calls affect: the
      texture bound to each target, each texture's parameters, the unpack
      flip flag, which textures had mipmaps generated, and which texture
      objects exist. */
  datatype GLState = GLState(
    bound: map<GLenum, Handle>,
    intParams: map<(Handle, GLenum), GLenum>,
    floatParams: map<(Handle, GLenum), real>,
    unpackFlipY: bool,
    mipmapped: set<Handle>,
    live: set<Handle>)

  /** The effect of one call. Parameter calls act on the texture currently
      bound to the target and do nothing when none is bound. Deleting a
      texture also unbinds it from every target it is bound to (OpenGL ES 3.0,
      section 3.8.1). */
  function Step(s: GLState, c: GLCall): GLState
  {
    match c
    case CreateTexture(h) => s.(live := s.live + {h})
    case BindTexture(t, Some(h)) => s.(bound := s.bound[t := h])
    case BindTexture(t, None) => s.(bound := s.bound - {t})
    case TexParameteri(t, p, v) =>
      if t in s.bound then s.(intParams := s.intParams[(s.bound[t], p) := v]) else s
    case TexParameterf(t, p, v) =>
      if t in s.bound then s.(floatParams := s.floatParams[(s.bound[t], p) := v]) else s
    case PixelStorei(p, f) => if p == UNPACK_FLIP_Y_WEBGL then s.(unpackFlipY := f) else s
    case GenerateMipmap(t) =>
      if t in s.bound then s.(mipmapped := s.mipmapped + {s.bound[t]}) else s
    case DeleteTexture(h) =>
      s.(live := s.live - {h}, bound := map tg | tg in s.bound && s.bound[tg] != h :: s.bound[tg])
  }

  /** The state after issuing `calls` in order. */
  function Replay(s: GLState, calls: seq<GLCall>): GLState
    decreases |calls|
  {
    if |calls| == 0 then s else Replay(Step(s, calls[0]), calls[1..])
  }

  /** Replaying a concatenation replays its parts in turn. */
  lemma {:induction false} ReplayAppend(s: GLState, a: seq<GLCall>, b: seq<GLCall>)
    ensures Replay(s, a + b) == Replay(Replay(s, a), b)
    decreases |a|
  {
    if |a| > 0 {
      assert (a + b)[1..] == a[1..] + b;
      ReplayAppend(Step(s, a[0]), a[1..], b);
    } else {
      assert a + b == b;
    }
  }

  /** Integer parameter `pname` of texture `h`, if it has been set. */
  function IntParam(s: GLState, h: Handle, pname: GLenum): Option<GLenum>
  {
    if (h, pname) in s.intParams then Some(s.intParams[(h, pname)]) else None
  }

  /** Float parameter `pname` of texture `h`, if it has been set. */
  function FloatParam(s: GLState, h: Handle, pname: GLenum): Option<real>
  {
    if (h, pname) in s.floatParams then Some(s.floatParams[(h, pname)]) else None
  }
}
