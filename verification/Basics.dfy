/** Bytes and optional values. */
module Basics {

  type Byte = x: int | 0 <= x < 256

  datatype Option<+T> = None | Some(value: T)

  /** The next multiple of 8. */
  function Align8(n: nat): (r: nat)
    ensures n <= r < n + 8 && r % 8 == 0
  {
    n + 7 - (n + 7) % 8
  }

  /** The list without `id`. */
  function Without(list: seq<nat>, id: nat): (r: seq<nat>)
    ensures forall i :: i in r <==> i in list && i != id
    ensures |r| <= |list|
  {
    if list == [] then []
    else if list[0] == id then Without(list[1..], id)
    else [list[0]] + Without(list[1..], id)
  }
}
