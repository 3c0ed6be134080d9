/**
 Values shared by the list screen and the item screen: optional document fields, the
 snapshot events delivered by the document store, and Java's 32-bit `int`.
 */
module Values {

  datatype Option<T> = None | Some(value: T)

  /** Success or a classified failure. */
  datatype Result<T, E> = Ok(value: T) | Err(error: E)

  /** A creation time; the model never looks inside it. */
  type Timestamp = int

  /** `Boolean.TRUE.equals(b)`: an absent boolean field counts as false. */
  predicate IsTrue(b: Option<bool>)
  {
    b == Some(true)
  }

  /** One callback of a snapshot listener: an error, a null snapshot, or the full document list. */
  datatype SnapshotEvent<T> = Failed | Missing | Delivered(docs: seq<T>)

  const MinInt32: int := -0x8000_0000
  const MaxInt32: int := 0x7FFF_FFFF

  predicate IsInt32(x: int)
  {
    MinInt32 <= x <= MaxInt32
  }

  /** Two's-complement truncation to 32 bits, as Java's `long.intValue()` and `int` overflow do. */
  function ToInt32(x: int): (r: int)
    ensures IsInt32(r)
    ensures (r - x) % 0x1_0000_0000 == 0
    ensures IsInt32(x) ==> r == x
  {
    (x - MinInt32) % 0x1_0000_0000 + MinInt32
  }

  /** `Math.max(1, q)`: the quantity floor applied at every point where a quantity is written or shown. */
  function ClampQuantity(q: int): (r: int)
    ensures r >= 1
    ensures q <= 0 ==> r == 1
    ensures q >= 1 ==> r == q
  {
    if q < 1 then 1 else q
  }
}
