/**
 * Bytes as the codec sees them: `u8`, `i8`, and the caller-owned growable
 * buffer (`Vec<u8>`) that the light-array, block-entity and NBT encoders
 * append to. The position and `i64` encoders are pure functions instead.
 */
module Bytes {

  /** Rust's `u8`. */
  type Byte = b: int | 0 <= b < 256

  /** Rust's `i8`. */
  type I8 = v: int | -128 <= v < 128

  /** Rust's `v as u8` on an `i8`: the same bit pattern, read unsigned. */
  function ToU8(v: I8): (b: Byte)
    ensures b % 256 == v % 256
    ensures ToI8(b) == v
  {
    if v < 0 then v + 256 else v
  }

  /** Rust's `b as i8` on a `u8`: the same bit pattern, read signed. */
  function ToI8(b: Byte): (v: I8)
    ensures v % 256 == b % 256
  {
    if b < 128 then b else b - 256
  }

  /** The bytes of an `i8` array, each cast with `as u8`, in array order. */
  function ToU8s(s: seq<I8>): (r: seq<Byte>)
    ensures |r| == |s|
    ensures forall k :: 0 <= k < |s| ==> r[k] == ToU8(s[k])
  {
    seq(|s|, k requires 0 <= k < |s| => ToU8(s[k]))
  }

  /** A caller-owned `Vec<u8>` that encoders append to in place. */
  class ByteBuffer {
    var bytes: seq<Byte>

    constructor ()
      ensures bytes == []
    {
      bytes := [];
    }

    /** `Vec::push`. */
    method Push(b: Byte)
      modifies this
      ensures bytes == old(bytes) + [b]
    {
      bytes := bytes + [b];
    }

    /** `Vec::extend_from_slice`. */
    method Extend(s: seq<Byte>)
      modifies this
      ensures bytes == old(bytes) + s
    {
      bytes := bytes + s;
    }
  }
}
