/**
 * The chunk-data-and-light packet: its default value (an empty chunk column)
 * and the encoders of its block-entity and light-array fields.
 */
module ChunkDataAndUpdateLight {
  import opened Wrappers
  import opened Bytes
  import opened Int64
  import opened VarInt
  import NbtField

  /** A chunk section; only the void section is built by this core. */
  datatype ChunkSection = Void

  /** A bit set as its 64-bit words; the default has none. */
  datatype BitSet = BitSet(words: seq<I64>)

  /** A block entity; it has no fields yet. */
  datatype BlockEntity = BlockEntity

  /** One light array: signed bytes, half a byte per light value. */
  datatype Light = Light(blockLightArray: seq<I8>)

  datatype ChunkDataAndUpdateLightPacket = ChunkDataAndUpdateLightPacket(
    chunkX: I32,
    chunkZ: I32,
    heightMaps: NbtField.Nbt,
    size: I32,
    data: seq<ChunkSection>,
    blockEntities: seq<BlockEntity>,
    skyLightMask: BitSet,
    blockLightMask: BitSet,
    emptySkyLightMask: BitSet,
    emptyBlockLightMask: BitSet,
    skyLightArrays: seq<Light>,
    blockLightArrays: seq<Light>)

  const SECTION_COUNT: nat := 24
  const HEIGHT_MAP_LONGS: nat := 37

  /**
   * `Default::default`. `encodeSections` is the encoding of a sequence of chunk
   * sections (`Vec<ChunkSection>::encode`), which is not part of this model.
   * The `size` field is the byte length of the encoded sections, read as an `i32`.
   */
  function DefaultPacket(encodeSections: seq<ChunkSection> -> seq<Byte>): (r: ChunkDataAndUpdateLightPacket)
    ensures r.size % TWO_32 == |encodeSections(r.data)| % TWO_32
    ensures |encodeSections(r.data)| < TWO_31 ==> r.size == |encodeSections(r.data)|
  {
    var longArrayTag := NbtField.LongArray(Some("MOTION_BLOCKING"), seq(HEIGHT_MAP_LONGS, _ => 0));
    var rootTag := NbtField.NamelessCompound([longArrayTag]);
    var data := seq(SECTION_COUNT, _ => Void);
    var encodedData := encodeSections(data);
    ChunkDataAndUpdateLightPacket(
      0, 0, rootTag, WrapI32(|encodedData|), data, [],
      BitSet([]), BitSet([]), BitSet([]), BitSet([]), [], [])
  }

  /**
   * The default packet is the empty column at chunk (0, 0): 24 void sections, a
   * height map holding only a 37-long
   * "MOTION_BLOCKING" array of zeros, and no block entities, masks or light arrays.
   */
  lemma DefaultShape(encodeSections: seq<ChunkSection> -> seq<Byte>)
    ensures var p := DefaultPacket(encodeSections);
      && p.chunkX == 0 && p.chunkZ == 0
      && |p.data| == 24 && (forall k :: 0 <= k < |p.data| ==> p.data[k] == Void)
      && p.heightMaps.NamelessCompound? && |p.heightMaps.tags| == 1
      && p.heightMaps.tags[0] == NbtField.LongArray(Some("MOTION_BLOCKING"), p.heightMaps.tags[0].longs)
      && |p.heightMaps.tags[0].longs| == 37
      && (forall k :: 0 <= k < 37 ==> p.heightMaps.tags[0].longs[k] == 0)
      && p.blockEntities == [] && p.skyLightArrays == [] && p.blockLightArrays == []
      && p.skyLightMask.words == [] && p.blockLightMask.words == []
      && p.emptySkyLightMask.words == [] && p.emptyBlockLightMask.words == []
  {
  }

  /** `BlockEntity::encode`: writes nothing and cannot fail. */
  method EncodeBlockEntity(entity: BlockEntity, bytes: ByteBuffer)
    ensures bytes.bytes == old(bytes.bytes)
  {
  }

  /** The bytes `Light::encode` appends: the VarInt length, then each `i8` as a `u8`, in order. */
  function LightBytes(light: Light): seq<Byte> {
    Encode(WrapI32(|light.blockLightArray|)) + ToU8s(light.blockLightArray)
  }

  /** `Light::encode`: appends the array's VarInt length, then one byte per element; cannot fail. */
  method EncodeLight(light: Light, bytes: ByteBuffer)
    modifies bytes
    ensures bytes.bytes == old(bytes.bytes) + LightBytes(light)
  {
    var values := light.blockLightArray;
    var size := WrapI32(|values|);
    bytes.Extend(Encode(size));
    var i := 0;
    while i < |values|
      invariant 0 <= i <= |values|
      invariant bytes.bytes == old(bytes.bytes) + Encode(size) + ToU8s(values[..i])
    {
      assert ToU8s(values[..i + 1]) == ToU8s(values[..i]) + [ToU8(values[i])];
      bytes.Push(ToU8(values[i]));
      i := i + 1;
    }
    assert values[..i] == values;
  }

  /**
   * What a reader sees in the light bytes: the VarInt prefix decodes to the
   * array's length, and after it come exactly the array's elements, one byte
   * each, each reading back as the same `i8`.
   */
  lemma LightLayout(light: Light, before: seq<Byte>, after: seq<Byte>)
    requires |light.blockLightArray| < TWO_31
    ensures var values, prefix := light.blockLightArray, Encode(WrapI32(|light.blockLightArray|));
      var all := before + LightBytes(light) + after;
      && |LightBytes(light)| == |prefix| + |values|
      && VarInt.Decode(all, |before|) == Success((|values|, |before| + |prefix|))
      && forall k :: 0 <= k < |values| ==> ToI8(all[|before| + |prefix| + k]) == values[k]
  {
    var values, prefix := light.blockLightArray, Encode(WrapI32(|light.blockLightArray|));
    VarInt.RoundTrip(WrapI32(|values|), before, ToU8s(values) + after);
    assert before + prefix + (ToU8s(values) + after) == before + LightBytes(light) + after;
  }
}
