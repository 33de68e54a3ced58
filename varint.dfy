/**
 * The variable-length integer of the wire protocol: a 32-bit signed value,
 * taken as its unsigned bit pattern, written 7 bits per byte, least significant
 * group first, with the high bit of every byte but the last set (the layout of
 * unsigned LEB128). Reading accepts at most five bytes.
 */
module VarInt {
  import opened Wrappers
  import opened Bytes
  import Int64

  const TWO_31: int := 0x8000_0000
  const TWO_32: int := 0x1_0000_0000

  /** Rust's `i32`. */
  type I32 = v: int | -0x8000_0000 <= v < 0x8000_0000

  /** Rust's `n as i32`: the low 32 bits of `n`, read signed. */
  function WrapI32(n: int): (r: I32)
    ensures r % TWO_32 == n % TWO_32
    ensures 0 <= n < TWO_31 ==> r == n
  {
    var u := n % TWO_32;
    if u < TWO_31 then u else u - TWO_32
  }

  /** The 7-bit groups of `u`, least significant first; every byte but the last carries the continuation bit. */
  function Groups(u: nat): (r: seq<Byte>)
    ensures |r| >= 1
    ensures forall k :: 0 <= k < |r| ==> (r[k] >= 128 <==> k < |r| - 1)
    decreases u
  {
    if u < 128 then [u] else [u % 128 + 128] + Groups(u / 128)
  }

  /** `VarInt::encode`: the groups of the value's unsigned 32-bit pattern. */
  function Encode(v: I32): (r: seq<Byte>)
    ensures 1 <= |r| <= 5
    ensures forall k :: 0 <= k < |r| ==> (r[k] >= 128 <==> k < |r| - 1)
  {
    GroupsLength(v % TWO_32, 5);
    Groups(v % TWO_32)
  }

  lemma {:induction false} GroupsLength(u: nat, n: nat)
    requires n >= 1 && u < Pow128(n)
    ensures |Groups(u)| <= n
  {
    if u >= 128 {
      assert n >= 2;
      GroupsLength(u / 128, n - 1);
    }
  }

  function Pow128(n: nat): nat {
    if n == 0 then 1 else 128 * Pow128(n - 1)
  }

  datatype VarIntError = TooLong | EndOfBuffer

  /** The groups starting at `index`, after `count` groups already read; a sixth group is refused. */
  function ReadGroups(bytes: seq<Byte>, index: nat, count: nat): (r: Result<(nat, nat), VarIntError>)
    requires count <= 5
    ensures r.Success? ==> index < r.value.1 <= |bytes| && r.value.1 - index <= 5 - count
    decreases 5 - count
  {
    if count == 5 then Failure(TooLong)
    else if index >= |bytes| then Failure(EndOfBuffer)
    else if bytes[index] < 128 then Success((bytes[index], index + 1))
    else
      match ReadGroups(bytes, index + 1, count + 1)
      case Failure(e) => Failure(e)
      case Success((v, next)) => Success((bytes[index] - 128 + 128 * v, next))
  }

  /** `VarInt::decode`: the value at `index` and the cursor past it. */
  function Decode(bytes: seq<Byte>, index: nat): (r: Result<(I32, nat), VarIntError>)
    ensures r.Success? ==> index < r.value.1 <= index + 5
  {
    match ReadGroups(bytes, index, 0)
    case Failure(e) => Failure(e)
    case Success((v, next)) => Success((WrapI32(v), next))
  }

  lemma {:induction false} ReadGroupsOfGroups(u: nat, bytes: seq<Byte>, rest: seq<Byte>, count: nat)
    requires count + |Groups(u)| <= 5
    ensures ReadGroups(bytes + Groups(u) + rest, |bytes|, count) == Success((u, |bytes| + |Groups(u)|))
    decreases u
  {
    var all := bytes + Groups(u) + rest;
    assert all[|bytes|] == Groups(u)[0];
    if u >= 128 {
      ReadGroupsOfGroups(u / 128, bytes + [u % 128 + 128], rest, count + 1);
      assert bytes + [u % 128 + 128] + Groups(u / 128) + rest == all;
    }
  }

  /** Every 32-bit value decodes back from its encoding, wherever it sits and whatever follows it. */
  lemma RoundTrip(v: I32, bytes: seq<Byte>, rest: seq<Byte>)
    ensures Decode(bytes + Encode(v) + rest, |bytes|) == Success((v, |bytes| + |Encode(v)|))
  {
    var u := v % TWO_32;
    assert Encode(v) == Groups(u);
    ReadGroupsOfGroups(u, bytes, rest, 0);
    WrapI32OfPattern(v);
  }

  /** Reading a 32-bit value's unsigned pattern back as `i32` gives the value. */
  lemma WrapI32OfPattern(v: I32)
    ensures WrapI32(v % TWO_32) == v
  {
    if v < 0 {
      Int64.DivModUnique(v, TWO_32, -1, v + TWO_32);
      Int64.DivModUnique(v + TWO_32, TWO_32, 0, v + TWO_32);
    } else {
      Int64.DivModUnique(v, TWO_32, 0, v);
    }
  }

  /** Five bytes that all carry the continuation bit are refused as too long, before any sixth byte is read. */
  lemma {:induction false} RejectsOverlong(bytes: seq<Byte>, index: nat)
    requires index + 5 <= |bytes|
    requires forall k :: index <= k < index + 5 ==> bytes[k] >= 128
    ensures Decode(bytes, index) == Failure(TooLong)
  {
    assert ReadGroups(bytes, index + 5, 5) == Failure(TooLong);
    assert ReadGroups(bytes, index + 4, 4) == Failure(TooLong);
    assert ReadGroups(bytes, index + 3, 3) == Failure(TooLong);
    assert ReadGroups(bytes, index + 2, 2) == Failure(TooLong);
    assert ReadGroups(bytes, index + 1, 1) == Failure(TooLong);
  }
}
