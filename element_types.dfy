/** The element-kind table: the vector kinds a dynamic array can be backed by
    and the byte width of one slot of each (`r_vec_elt_sizeof0`). */
module ElementTypes {

  /** `enum r_type`, restricted to the atomic kinds whose slots hold plain
      bytes that `memcpy` may copy. */
  datatype ElementKind = Logical | Integer | Double | Complex | Raw

  /** Slot width in bytes of each kind, as the C types `int`, `int`,
      `double`, `Rcomplex` and `Rbyte` have them on a 64-bit platform. */
  function EltSizeOf(kind: ElementKind): (r: int)
    ensures 1 <= r <= 16
    ensures r == 1 <==> kind == Raw
  {
    match kind
    case Logical => 4
    case Integer => 4
    case Double => 8
    case Complex => 16
    case Raw => 1
  }
}
