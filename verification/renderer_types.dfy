/** The renderer's backend-independent texture enums, as far as the WebGL 2
    texture conversions name them. Each enum also carries an `Unlisted…`
    constructor standing for any runtime value the conversion's `switch` does
    not name (another member of the enum, or a stray number), so the
    conversions' fallback branches are reachable in the model. */
module RendererTypes {

  datatype TextureWrap =
    | ClampToEdge
    | Repeat
    | MirroredRepeat
    | UnlistedWrap(code: int)

  datatype MinFilter =
    | Nearest
    | Linear
    | NearestMipmapNearest
    | LinearMipmapNearest
    | NearestMipmapLinear
    | LinearMipmapLinear
    | UnlistedMinFilter(code: int)

  datatype MagFilter =
    | Nearest
    | Linear
    | UnlistedMagFilter(code: int)

  datatype TextureFormat =
    | R8Unorm
    | RG8Unorm
    | RGB8Unorm
    | RGBA8Unorm
    | Depth32Float
    | UnlistedFormat(code: int)
}
