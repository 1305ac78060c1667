/** Symbolic WebGL 2.0 constants and the legal-value tables of the OpenGL ES
    3.0 specification they are checked against. The numeric values of the
    constants are not modelled: only which constant is meant. */
module WebGL2Constants {

  datatype GLenum =
    // texture targets, the texture types a texture object is bound to
    | TEXTURE_2D | TEXTURE_2D_ARRAY | TEXTURE_3D | TEXTURE_CUBE_MAP
    // parameter names
    | TEXTURE_WRAP_S | TEXTURE_WRAP_T | TEXTURE_MIN_FILTER | TEXTURE_MAG_FILTER
    | TEXTURE_MAX_ANISOTROPY_EXT | UNPACK_FLIP_Y_WEBGL
    // wrap modes
    | CLAMP_TO_EDGE | REPEAT | MIRRORED_REPEAT
    // filters
    | NEAREST | LINEAR
    | NEAREST_MIPMAP_NEAREST | LINEAR_MIPMAP_NEAREST
    | NEAREST_MIPMAP_LINEAR | LINEAR_MIPMAP_LINEAR
    // pixel formats
    | RED | RG | RGB | RGBA | DEPTH_COMPONENT
    // sized internal formats
    | R8 | RG8 | RGB8 | RGBA8 | DEPTH_COMPONENT32F
    // pixel types
    | UNSIGNED_BYTE | FLOAT

  /** The (format, internalFormat, type) triple used to upload texture data. */
  datatype FormatTriple = FormatTriple(format: GLenum, internalFormat: GLenum, pixelType: GLenum)

  /** Legal values of TEXTURE_WRAP_S and TEXTURE_WRAP_T (OpenGL ES 3.0, table 3.19). */
  predicate IsWrapValue(c: GLenum)
  {
    c in {CLAMP_TO_EDGE, REPEAT, MIRRORED_REPEAT}
  }

  /** Legal values of TEXTURE_MIN_FILTER (OpenGL ES 3.0, table 3.19). */
  predicate IsMinFilterValue(c: GLenum)
  {
    c in {NEAREST, LINEAR, NEAREST_MIPMAP_NEAREST, LINEAR_MIPMAP_NEAREST,
          NEAREST_MIPMAP_LINEAR, LINEAR_MIPMAP_LINEAR}
  }

  /** Legal values of TEXTURE_MAG_FILTER (OpenGL ES 3.0, table 3.19). */
  predicate IsMagFilterValue(c: GLenum)
  {
    c in {NEAREST, LINEAR}
  }

  /** Legal value for an integer texture parameter `pname`. */
  predicate IsLegalTexParameter(pname: GLenum, value: GLenum)
  {
    match pname
    case TEXTURE_WRAP_S => IsWrapValue(value)
    case TEXTURE_WRAP_T => IsWrapValue(value)
    case TEXTURE_MIN_FILTER => IsMinFilterValue(value)
    case TEXTURE_MAG_FILTER => IsMagFilterValue(value)
    case _ => false
  }

  /** The rows of the table of valid (format, type, sized internal format)
      combinations (OpenGL ES 3.0, table 3.2) whose constants this model names. */
  predicate IsValidUpload(t: FormatTriple)
  {
    t in {
      FormatTriple(RED, R8, UNSIGNED_BYTE),
      FormatTriple(RG, RG8, UNSIGNED_BYTE),
      FormatTriple(RGB, RGB8, UNSIGNED_BYTE),
      FormatTriple(RGBA, RGBA8, UNSIGNED_BYTE),
      FormatTriple(DEPTH_COMPONENT, DEPTH_COMPONENT32F, FLOAT)
    }
  }
}
