/** Machine-level types and status codes shared by the TopoCrypt mesh store. */
module MeshTypes {

  /** An unsigned 32-bit value, as `uint32_t` in the mesh store. */
  type u32 = x: int | 0 <= x < 0x1_0000_0000

  /** One octet of the canonical binary format. */
  type byte = x: int | 0 <= x < 0x100

  const U32Max: u32 := 0xFFFF_FFFF

  /** Capacities stay at or below 2^31, so that `newcap *= 2` never wraps. */
  const MaxCapacity: nat := 0x8000_0000

  /** Face counts stay below this bound, so that `face_count * 3` never wraps. */
  const MaxFaces: nat := 0x5555_5555

  /** The error-code enumeration of the mesh API. */
  datatype Status = Ok | ErrOom | ErrInvalidArg | ErrIo | ErrNotFound | ErrCapacity

  /** The integer value that each status has in the C enumeration. */
  function Code(s: Status): (c: nat)
    ensures c <= 5
    ensures (c == 0) == (s == Ok)
  {
    match s
    case Ok => 0
    case ErrOom => 1
    case ErrInvalidArg => 2
    case ErrIo => 3
    case ErrNotFound => 4
    case ErrCapacity => 5
  }

  /** Distinct statuses have distinct codes. */
  lemma CodesDistinct(s: Status, t: Status)
    requires s != t
    ensures Code(s) != Code(t)
  {
  }

  /** Concatenation of byte images and of text is associative. */
  lemma Assoc<T>(a: seq<T>, b: seq<T>, c: seq<T>)
    ensures (a + b) + c == a + (b + c)
  {
  }

  /** 32-bit unsigned addition, as C performs it on `uint32_t` operands. */
  function AddU32(a: u32, b: u32): (r: u32)
    ensures r == (a + b) % 0x1_0000_0000
  {
    if a + b < 0x1_0000_0000 then a + b else a + b - 0x1_0000_0000
  }
}
