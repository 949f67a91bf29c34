/** Small types shared by every module. */
module Common {
  datatype Option<+T> = None | Some(value: T)

  type Byte = x: int | 0 <= x < 256

  /** `bytes` with `data` written at offset `off`. */
  function Overwrite(bytes: seq<Byte>, off: nat, data: seq<Byte>): (r: seq<Byte>)
    requires off + |data| <= |bytes|
    ensures |r| == |bytes|
  {
    bytes[..off] + data + bytes[off + |data|..]
  }

  /** `memcpy(dst + dstOff, src + srcOff, n)`. */
  method MemCopy(dst: array<Byte>, dstOff: nat, src: array<Byte>, srcOff: nat, n: nat)
    requires dst != src && dstOff + n <= dst.Length && srcOff + n <= src.Length
    modifies dst
    ensures dst[..] == Overwrite(old(dst[..]), dstOff, src[srcOff..srcOff + n])
  {
    for i := 0 to n
      invariant dst[..] == Overwrite(old(dst[..]), dstOff, src[srcOff..srcOff + i])
    {
      dst[dstOff + i] := src[srcOff + i];
    }
  }
}
