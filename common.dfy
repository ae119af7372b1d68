/** Types and sequence helpers shared by the product store, the user store
    and the user service. */
module Common {

  /** One byte of a Rust `String`'s UTF-8 encoding. */
  newtype byte = x: int | 0 <= x < 256

  /** A Rust `String`, as its bytes: `is_empty()` is `|s| == 0` and `len()`
      is `|s|`, both counted in bytes as Rust counts them. */
  type Text = seq<byte>

  /** A 128-bit UUID. */
  newtype Uuid = x: int | 0 <= x < 0x1_0000_0000_0000_0000_0000_0000_0000_0000

  datatype Option<T> = None | Some(value: T)

  /** The `Result<T, E>` every store operation returns. */
  datatype Result<T, E> = Ok(value: T) | Err(error: E)

  /** The position of the first occurrence of `x` in `s`, as Rust's
      `iter().position(..)` and `iter().find(..)` give it. */
  function IndexOf<T(==)>(s: seq<T>, x: T): (r: Option<nat>)
    ensures r.Some? ==> r.value < |s| && s[r.value] == x
    ensures r.Some? ==> forall j :: 0 <= j < r.value ==> s[j] != x
    ensures r.None? <==> x !in s
  {
    if |s| == 0 then None
    else if s[0] == x then Some(0)
    else match IndexOf(s[1..], x)
      case None => None
      case Some(k) => Some(k + 1)
  }

  /** `s` with the element at position `k` taken out, as `Vec::remove(k)`
      leaves it. */
  function RemoveAt<T>(s: seq<T>, k: nat): (r: seq<T>)
    requires k < |s|
    ensures |r| == |s| - 1
    ensures forall j :: 0 <= j < k ==> r[j] == s[j]
    ensures forall j :: k <= j < |r| ==> r[j] == s[j + 1]
  {
    s[..k] + s[k + 1..]
  }
}
