/** Small shared vocabulary: octets, machine-word ranges and the optional value. */
module Common {
  type byte = x: int | 0 <= x < 256
  type u8 = x: int | 0 <= x < 0x100
  type u16 = x: int | 0 <= x < 0x1_0000
  type u32 = x: int | 0 <= x < 0x1_0000_0000

  datatype Option<+T> = None | Some(value: T)

  function Min(a: int, b: int): int { if a <= b then a else b }

  /** s with chunk copied over it at off. */
  function WriteAt(s: seq<byte>, off: nat, chunk: seq<byte>): (r: seq<byte>)
    requires off + |chunk| <= |s|
    ensures |r| == |s|
  {
    s[..off] + chunk + s[off + |chunk|..]
  }
}
