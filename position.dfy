/**
 * The packed block position: three integer coordinates in one `i64`, with X in
 * bits 38..63, Z in bits 12..37 and Y in bits 0..11. Encoding masks each
 * coordinate to its field width and ors the shifted fields together; decoding
 * recovers each field with a left shift followed by an arithmetic right shift,
 * which sign-extends it.
 *
 * The source keeps the coordinates as `f64`; only their integral values are
 * modelled, so a coordinate is an `int` and `x as i64` is the saturating cast.
 */
module BlockPosition {
  import opened Wrappers
  import opened Int64
  import opened Bytes
  import opened LongCodec

  datatype Position = Position(x: int, y: int, z: int)

  const P12: int := 0x1000
  const P26: int := 0x400_0000
  const P38: int := 0x40_0000_0000
  const P52: int := 0x10_0000_0000_0000

  const MASK_26: I64 := 0x3FF_FFFF
  const MASK_12: I64 := 0xFFF

  /**
   * The 64-bit word `encode` builds from a position: read unsigned, it is the
   * weighted sum of the coordinates' low bits, so the three fields do not overlap.
   */
  function Pack(p: Position): (r: I64)
    ensures Unsigned(r) == (SaturatingCast(p.x) % P26) * P38
                         + (SaturatingCast(p.z) % P26) * P12
                         + SaturatingCast(p.y) % P12
  {
    var x, y, z := SaturatingCast(p.x), SaturatingCast(p.y), SaturatingCast(p.z);
    MaskedFields(x);
    MaskedFields(y);
    MaskedFields(z);
    FieldsValue(x % P26, z % P26, y % P12);
    Or(Or(Shl(And(x, MASK_26), 38), Shl(And(z, MASK_26), 12)), And(y, MASK_12))
  }

  /** The position `decode` reads from a 64-bit word: each field of the word, sign-extended. */
  function Unpack(w: I64): (r: Position)
    ensures r == Position(
      SignExtend26(Unsigned(w) / P38),
      SignExtend12(Unsigned(w) % P12),
      SignExtend26((Unsigned(w) / P12) % P26))
  {
    DecodeX(w);
    DecodeY(w);
    DecodeZ(w);
    Position(Sar(w, 38), Sar(Shl(w, 52), 52), Sar(Shl(w, 26), 38))
  }

  /** `Position::encode`: the packed word appended to `bytes`; it cannot fail. */
  function Encode(p: Position, bytes: seq<Byte>): (r: seq<Byte>)
    ensures |r| == |bytes| + 8 && r[..|bytes|] == bytes
  {
    EncodeLong(Pack(p), bytes)
  }

  /** `Position::decode`: the position at `index` and the cursor past it, or the `i64` read's error. */
  function Decode(bytes: seq<Byte>, index: nat): (r: Result<(Position, nat), DeserializeNumberError>)
    ensures r.Success? <==> index + 8 <= |bytes|
    ensures r.Success? ==> r.value.1 == index + 8
  {
    match DecodeLong(bytes, index)
    case Failure(e) => Failure(e)
    case Success((w, next)) => Success((Unpack(w), next))
  }

  /** The signed value of a 26-bit field. */
  function SignExtend26(f: int): int {
    if f < P26 / 2 then f else f - P26
  }

  /** The signed value of a 12-bit field. */
  function SignExtend12(f: int): int {
    if f < P12 / 2 then f else f - P12
  }

  predicate InRange(p: Position) {
    -P26 / 2 <= p.x < P26 / 2 && -P26 / 2 <= p.z < P26 / 2 && -P12 / 2 <= p.y < P12 / 2
  }

  /** The masked fields of a value, as `v & 0x3FFFFFF` and `v & 0xFFF` leave them. */
  lemma MaskedFields(v: I64)
    ensures And(v, MASK_26) == v % P26
    ensures And(v, MASK_12) == v % P12
  {
    Pow2Low();
    AndLowMask(v, MASK_26, 26);
    AndLowMask(v, MASK_12, 12);
  }

  /** Or-ing the shifted fields places them side by side: the word is their weighted sum. */
  lemma FieldsValue(xf: I64, zf: I64, yf: I64)
    requires 0 <= xf < P26 && 0 <= zf < P26 && 0 <= yf < P12
    ensures Unsigned(Or(Or(Shl(xf, 38), Shl(zf, 12)), yf)) == xf * P38 + zf * P12 + yf
  {
    Pow2Values();
    ShlExact(xf, 38);
    ShlExact(zf, 12);
    var xs, zs := Shl(xf, 38), Shl(zf, 12);
    assert (xf * P38) % Pow2(38) == 0 by {
      DivModUnique(xf * P38, P38, xf, 0);
    }
    OrDisjoint(xs, zs, 38);
    var hi := Or(xs, zs);
    LowBitsClear(Unsigned(hi), xf, zf);
    OrDisjoint(hi, yf, 12);
  }

  lemma LowBitsClear(u: int, xf: int, zf: int)
    requires u == xf * P38 + zf * P12
    ensures u % Pow2(12) == 0
  {
    Pow2Values();
    DivModUnique(u, P12, xf * P26 + zf, 0);
  }

  /** Encoding places the low 26 bits of X in bits 38..63, of Z in bits 12..37, and the low 12 bits of Y in bits 0..11. */
  lemma PackLayout(p: Position)
    ensures Unsigned(Pack(p)) / P38 == SaturatingCast(p.x) % P26
    ensures (Unsigned(Pack(p)) / P12) % P26 == SaturatingCast(p.z) % P26
    ensures Unsigned(Pack(p)) % P12 == SaturatingCast(p.y) % P12
  {
    var x, y, z := SaturatingCast(p.x), SaturatingCast(p.y), SaturatingCast(p.z);
    FieldLayout(Unsigned(Pack(p)), x % P26, z % P26, y % P12);
  }

  /** The three fields of X·2^38 + Z·2^12 + Y, for fields within their widths. */
  lemma FieldLayout(u: int, xf: int, zf: int, yf: int)
    requires u == xf * P38 + zf * P12 + yf
    requires 0 <= xf < P26 && 0 <= zf < P26 && 0 <= yf < P12
    ensures u / P38 == xf && (u / P12) % P26 == zf && u % P12 == yf
  {
    DivModUnique(u, P38, xf, zf * P12 + yf);
    DivModUnique(u, P12, xf * P26 + zf, yf);
    DivModUnique(xf * P26 + zf, P26, xf, zf);
  }

  /** Decoding X: the arithmetic shift by 38 sign-extends bits 38..63. */
  lemma DecodeX(w: I64)
    ensures Sar(w, 38) == SignExtend26(Unsigned(w) / P38)
  {
    Pow2Values();
    var u := Unsigned(w);
    if w < 0 {
      DivModUnique(w, P38, u / P38 - P26, u % P38);
    }
  }

  /** Decoding Y: shifting left by 52 then right by 52 sign-extends bits 0..11. */
  lemma DecodeY(w: I64)
    ensures Sar(Shl(w, 52), 52) == SignExtend12(Unsigned(w) % P12)
  {
    Pow2Values();
    var f := Unsigned(w) % P12;
    UnsignedMod(w, P12, P52);
    ShlPattern(w, 52, P12);
    var s := Shl(w, 52);
    if f < P12 / 2 {
      SarFloor(s, 52, f, 0);
    } else {
      SarFloor(s, 52, f - P12, 0);
    }
  }

  /** Decoding Z: shifting left by 26 then right by 38 sign-extends bits 12..37. */
  lemma DecodeZ(w: I64)
    ensures Sar(Shl(w, 26), 38) == SignExtend26((Unsigned(w) / P12) % P26)
  {
    Pow2Values();
    var u := Unsigned(w);
    var m := u % P38;
    UnsignedMod(w, P38, P26);
    ShlPattern(w, 26, P38);
    var s := Shl(w, 26);
    var f, c := m / P12, (m % P12) * P26;
    assert f == (u / P12) % P26 by {
      DivModSplit(u, P12, P26);
      DivModUnique(m, P12, (u / P12) % P26, u % P12);
    }
    ShlLayout(m, f, c);
    if f < P26 / 2 {
      SarFloor(s, 38, f, c);
    } else {
      SarFloor(s, 38, f - P26, c);
    }
  }

  /** The 38-bit value m, moved up by 26 bits: its top 26 bits land above bit 38. */
  lemma ShlLayout(m: int, f: int, c: int)
    requires 0 <= m < P38 && f == m / P12 && c == (m % P12) * P26
    ensures m * P26 == f * P38 + c && 0 <= c < P38
  {
    assert m == P12 * f + m % P12;
  }

  /**
   * Decoding the packed word gives back every coordinate reduced to its field:
   * the low 26 (X, Z) or 12 (Y) bits of the saturated value, sign-extended.
   * Out-of-range coordinates wrap; nothing is rejected.
   */
  lemma UnpackPack(p: Position)
    ensures Unpack(Pack(p)) == Position(
      SignExtend26(SaturatingCast(p.x) % P26),
      SignExtend12(SaturatingCast(p.y) % P12),
      SignExtend26(SaturatingCast(p.z) % P26))
  {
    PackLayout(p);
  }

  /** Every decoded position is in range, so it survives another encode and decode unchanged. */
  lemma UnpackInRange(w: I64)
    ensures InRange(Unpack(w))
  {
  }

  /** A value already within a field's signed range is its own sign-extended low bits. */
  lemma SignExtendMod(v: int)
    requires -P26 / 2 <= v < P26 / 2
    ensures SaturatingCast(v) == v
    ensures SignExtend26(v % P26) == v
    ensures -P12 / 2 <= v < P12 / 2 ==> SignExtend12(v % P12) == v
  {
    assert Dist(SaturatingCast(v), v) <= Dist(v, v);
    if v < 0 {
      DivModUnique(v, P26, -1, v + P26);
      if -P12 / 2 <= v {
        DivModUnique(v, P12, -1, v + P12);
      }
    }
  }

  /** Integral coordinates within the field widths survive encode then decode exactly. */
  lemma PackRoundTrip(p: Position)
    requires InRange(p)
    ensures Unpack(Pack(p)) == p
  {
    UnpackPack(p);
    SignExtendMod(p.x);
    SignExtendMod(p.z);
    SignExtendMod(p.y);
  }

  /** The same round trip through bytes: decoding where the position was appended gives it back. */
  lemma RoundTrip(p: Position, bytes: seq<Byte>, rest: seq<Byte>)
    requires InRange(p)
    ensures Decode(Encode(p, bytes) + rest, |bytes|) == Success((p, |bytes| + 8))
  {
    LongRoundTrip(Pack(p), bytes, rest);
    PackRoundTrip(p);
  }

  /** The unit test's vector (18357644, 831, -20882616) round-trips from an empty buffer. */
  lemma TestVectorRoundTrips()
    ensures Decode(Encode(Position(18357644, 831, -20882616), []), 0)
         == Success((Position(18357644, 831, -20882616), 8))
  {
    var p := Position(18357644, 831, -20882616);
    RoundTrip(p, [], []);
    assert Encode(p, []) + [] == Encode(p, []);
  }
}
