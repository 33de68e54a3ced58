/**
 * The wire form of an `i64`: eight bytes, most significant first, holding the
 * value's two's-complement bit pattern. Writing appends the eight bytes; reading
 * takes them at a cursor and fails when fewer than eight remain.
 */
module LongCodec {
  import opened Wrappers
  import opened Int64
  import opened Bytes

  /** Reading a number ran out of input. */
  datatype DeserializeNumberError = NotEnoughBytes

  /** The low `n` bytes of `u`, most significant first. */
  function BigEndian(u: nat, n: nat): (r: seq<Byte>)
    ensures |r| == n
  {
    if n == 0 then [] else BigEndian(u / 256, n - 1) + [u % 256]
  }

  /** The number whose big-endian bytes are `s`. */
  function BigEndianValue(s: seq<Byte>): (u: nat)
    ensures u < Pow2(8 * |s|)
  {
    if s == [] then 0
    else
      var init := s[..|s| - 1];
      AppendByteBound(BigEndianValue(init), s[|s| - 1], |init|);
      BigEndianValue(init) * 256 + s[|s| - 1]
  }

  /** Appending one byte to a number below 2^(8n) gives one below 2^(8(n+1)). */
  lemma AppendByteBound(v: nat, b: Byte, n: nat)
    requires v < Pow2(8 * n)
    ensures v * 256 + b < Pow2(8 * (n + 1))
  {
    Pow2Add(8, 8 * n);
    Pow2Low();
    assert v * 256 + b < (v + 1) * 256;
    MulAtLeast(Pow2(8 * n) - v - 1, 256);
  }

  /** Reading back `n` big-endian bytes of `u` gives `u` modulo 2^(8n). */
  lemma {:induction false} BigEndianRoundTrip(u: nat, n: nat)
    ensures BigEndianValue(BigEndian(u, n)) == u % Pow2(8 * n)
  {
    if n > 0 {
      var s := BigEndian(u, n);
      assert s[..n - 1] == BigEndian(u / 256, n - 1);
      BigEndianRoundTrip(u / 256, n - 1);
      Pow2Add(8, 8 * (n - 1));
      Pow2Values();
      DivModSplit(u, 256, Pow2(8 * (n - 1)));
    }
  }

  /** `i64::encode`: the eight bytes of the value appended to `bytes`. */
  function EncodeLong(v: I64, bytes: seq<Byte>): (r: seq<Byte>)
    ensures |r| == |bytes| + 8 && r[..|bytes|] == bytes
  {
    bytes + BigEndian(Unsigned(v), 8)
  }

  /** `i64::decode`: the value at `index` and the cursor just past it. */
  function DecodeLong(bytes: seq<Byte>, index: nat): (r: Result<(I64, nat), DeserializeNumberError>)
    ensures r.Success? <==> index + 8 <= |bytes|
    ensures r.Success? ==> r.value.1 == index + 8
  {
    if index + 8 > |bytes| then Failure(NotEnoughBytes)
    else
      var u := BigEndianValue(bytes[index..index + 8]);
      Pow2High();
      Success((Signed(u), index + 8))
  }

  /** Decoding at the position where a value was appended yields that value, whatever follows. */
  lemma LongRoundTrip(v: I64, bytes: seq<Byte>, rest: seq<Byte>)
    ensures DecodeLong(EncodeLong(v, bytes) + rest, |bytes|) == Success((v, |bytes| + 8))
  {
    var all := EncodeLong(v, bytes) + rest;
    assert all[|bytes|..|bytes| + 8] == BigEndian(Unsigned(v), 8);
    var u := Unsigned(v);
    BigEndianRoundTrip(u, 8);
    Pow2Values();
    DivModUnique(u, TWO_64, 0, u);
    assert BigEndianValue(all[|bytes|..|bytes| + 8]) == u;
    SignedUnsigned(v);
  }
}
