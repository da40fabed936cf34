/** Bytes and runs of zero bytes. */
module RawBytes {
  type Byte = x: nat | x < 256

  function Zeros(n: nat): (r: seq<Byte>)
    ensures |r| == n && forall i :: 0 <= i < n ==> r[i] == 0
  { seq(n, _ => 0) }
}
