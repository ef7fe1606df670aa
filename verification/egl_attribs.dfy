/**
 The attribute list handed to the image-import entry point of the Khronos
 EGL_EXT_image_dma_buf_import extension: a flat sequence of key/value pairs
 closed by EGL_NONE, describing the exported buffer as a single-plane image.
 */
module EglAttribs {
  import opened Common
  import opened DrmMode
  import opened GemBuffer

  /** Attribute keys and enum values from the EGL headers. */
  const EglNone: int32 := 0x3038
  const EglHeight: int32 := 0x3056
  const EglWidth: int32 := 0x3057
  const EglOpenglEsApi: int32 := 0x30A0
  const EglLinuxDmaBufExt: int32 := 0x3270
  const EglLinuxDrmFourccExt: int32 := 0x3271
  const EglDmaBufPlane0FdExt: int32 := 0x3272
  const EglDmaBufPlane0OffsetExt: int32 := 0x3273
  const EglDmaBufPlane0PitchExt: int32 := 0x3274

  /** Null handles: `EGL_NO_CONTEXT` and the absent client buffer of a dma-buf import. */
  const EglNoContext: nat := 0
  const NoClientBuffer: nat := 0

  /** A DRM format code: four characters packed little-endian into 32 bits. */
  function FourCC(a: byte, b: byte, c: byte, d: byte): uint32
  {
    a + b * 0x100 + c * 0x1_0000 + d * 0x100_0000
  }

  /** The four characters of a format code, first character in the low byte. */
  function FourCCChars(code: uint32): (byte, byte, byte, byte)
  {
    (code % 0x100, code / 0x100 % 0x100, code / 0x100 / 0x100 % 0x100, code / 0x100 / 0x100 / 0x100 % 0x100)
  }

  /** Packing four characters and reading them back gives the same characters. */
  lemma FourCCRoundTrip(a: byte, b: byte, c: byte, d: byte)
    ensures FourCCChars(FourCC(a, b, c, d)) == (a, b, c, d)
  {
    var q2 := d * 0x100 + c;
    var q1 := q2 * 0x100 + b;
    var code := FourCC(a, b, c, d);
    assert code == q1 * 0x100 + a;
    DivModUnique(code, 0x100, q1, a);
    DivModUnique(q1, 0x100, q2, b);
    DivModUnique(q2, 0x100, d, c);
    DivModUnique(d, 0x100, 0, d);
  }

  /** DRM_FORMAT_XRGB8888: 'X','R','2','4', i.e. bytes B, G, R, unused in memory order. */
  const DrmFormatXrgb8888: uint32 := FourCC('X' as int, 'R' as int, '2' as int, '4' as int)

  /** One key/value entry of the attribute list. */
  datatype Attrib = Attrib(key: int32, value: int32)

  /** The flat list: keys and values alternate, and EGL_NONE closes it. */
  function Encode(pairs: seq<Attrib>): (r: seq<int32>)
    ensures |r| == 2 * |pairs| + 1 && r[|r| - 1] == EglNone
    ensures forall i :: 0 <= i < |pairs| ==> r[2 * i] == pairs[i].key && r[2 * i + 1] == pairs[i].value
  {
    if |pairs| == 0 then [EglNone]
    else
      var rest := Encode(pairs[1..]);
      assert forall i :: 1 <= i < |pairs| ==> pairs[i] == pairs[1..][i - 1];
      [pairs[0].key, pairs[0].value] + rest
  }

  /**
   How a consumer reads the flat list: pairs up to the first EGL_NONE key,
   or nothing if the list ends before a terminator or in the middle of a pair.
   */
  function Decode(list: seq<int32>): (r: Option<seq<Attrib>>)
    ensures r.Some? ==> forall i :: 0 <= i < |r.value| ==> r.value[i].key != EglNone
  {
    if |list| == 0 then None
    else if list[0] == EglNone then Some([])
    else if |list| == 1 then None
    else
      match Decode(list[2..])
      case None => None
      case Some(rest) => Some([Attrib(list[0], list[1])] + rest)
  }

  /** Encoding pairs none of which uses the terminator as key, then reading back, gives the pairs, whatever follows. */
  lemma {:induction false} DecodeEncode(pairs: seq<Attrib>, tail: seq<int32>)
    requires forall i :: 0 <= i < |pairs| ==> pairs[i].key != EglNone
    ensures Decode(Encode(pairs) + tail) == Some(pairs)
  {
    if |pairs| > 0 {
      var list := Encode(pairs) + tail;
      assert list[2..] == Encode(pairs[1..]) + tail;
      DecodeEncode(pairs[1..], tail);
      assert [pairs[0]] + pairs[1..] == pairs;
    }
  }

  /** A list that reads back to some pairs starts with exactly the encoding of those pairs. */
  lemma {:induction false} EncodeDecode(list: seq<int32>)
    requires Decode(list).Some?
    ensures |Encode(Decode(list).value)| <= |list|
    ensures list[..|Encode(Decode(list).value)|] == Encode(Decode(list).value)
  {
    if list[0] != EglNone {
      var rest := Decode(list[2..]).value;
      EncodeDecode(list[2..]);
      assert Decode(list).value == [Attrib(list[0], list[1])] + rest;
      assert Decode(list).value[1..] == rest;
    }
  }

  /** Value of the first pair with the given key. */
  function Lookup(pairs: seq<Attrib>, key: int32): (r: Option<int32>)
    ensures r.Some? <==> exists i :: 0 <= i < |pairs| && pairs[i].key == key
    ensures r.Some? ==> exists i :: 0 <= i < |pairs| && pairs[i] == Attrib(key, r.value)
  {
    if |pairs| == 0 then None
    else if pairs[0].key == key then Some(pairs[0].value)
    else
      var r := Lookup(pairs[1..], key);
      assert forall i :: 1 <= i < |pairs| ==> pairs[i] == pairs[1..][i - 1];
      assert r.Some? ==> pairs[1..][0] == pairs[1];
      r
  }

  /** The first pair carrying `key` decides the lookup. */
  lemma {:induction false} LookupFirst(pairs: seq<Attrib>, i: nat, key: int32)
    requires i < |pairs| && pairs[i].key == key
    requires forall j :: 0 <= j < i ==> pairs[j].key != key
    ensures Lookup(pairs, key) == Some(pairs[i].value)
  {
    if i > 0 {
      LookupFirst(pairs[1..], i - 1, key);
    }
  }

  /** The single-plane image a consumer sees in the attributes. */
  datatype ImageDesc = ImageDesc(
    width: int32, height: int32, fourcc: int32, fd: int32, offset: int32, pitch: int32)

  /** The image an attribute list describes, if it is well formed and names all six properties. */
  function ImageFromAttribs(list: seq<int32>): Option<ImageDesc>
  {
    match Decode(list)
    case None => None
    case Some(pairs) =>
      var w := Lookup(pairs, EglWidth);
      var h := Lookup(pairs, EglHeight);
      var f := Lookup(pairs, EglLinuxDrmFourccExt);
      var fd := Lookup(pairs, EglDmaBufPlane0FdExt);
      var off := Lookup(pairs, EglDmaBufPlane0OffsetExt);
      var pitch := Lookup(pairs, EglDmaBufPlane0PitchExt);
      if w.Some? && h.Some? && f.Some? && fd.Some? && off.Some? && pitch.Some? then
        Some(ImageDesc(w.value, h.value, f.value, fd.value, off.value, pitch.value))
      else None
  }

  /**
   The import image agrees with the allocated buffer: same width and height
   as the mode, the fixed XRGB8888 format, the exported descriptor as plane 0
   at offset 0, a pitch equal to the stride, and pitch times height equal to
   the allocated byte size.
   */
  ghost predicate MatchesBuffer(img: ImageDesc, mode: ModeInfo, g: Geometry, dmaFd: int32)
  {
    && img.width == mode.hdisplay
    && img.height == mode.vdisplay
    && img.fourcc == DrmFormatXrgb8888
    && img.fd == dmaFd
    && img.offset == 0
    && img.pitch == g.stride
    && img.pitch * img.height == g.size
  }

  /** The six pairs of the import, in the program's order. */
  function ImportPairs(mode: ModeInfo, dmaFd: int32): seq<Attrib>
  {
    [ Attrib(EglWidth, mode.hdisplay),
      Attrib(EglHeight, mode.vdisplay),
      Attrib(EglLinuxDrmFourccExt, DrmFormatXrgb8888),
      Attrib(EglDmaBufPlane0FdExt, dmaFd),
      Attrib(EglDmaBufPlane0OffsetExt, 0),
      Attrib(EglDmaBufPlane0PitchExt, BufferGeometry(mode).stride) ]
  }

  /**
   The import attribute list: 13 entries, the six pairs WIDTH, HEIGHT,
   FOURCC, PLANE0_FD, PLANE0_OFFSET, PLANE0_PITCH in that order, then EGL_NONE.
   */
  function ImportAttribs(mode: ModeInfo, dmaFd: int32): (r: seq<int32>)
    ensures |r| == 13 && r[12] == EglNone
    ensures r[0] == EglWidth && r[1] == mode.hdisplay
    ensures r[2] == EglHeight && r[3] == mode.vdisplay
    ensures r[4] == EglLinuxDrmFourccExt && r[5] == DrmFormatXrgb8888
    ensures r[6] == EglDmaBufPlane0FdExt && r[7] == dmaFd
    ensures r[8] == EglDmaBufPlane0OffsetExt && r[9] == 0
    ensures r[10] == EglDmaBufPlane0PitchExt && r[11] == BufferGeometry(mode).stride
  {
    var pairs := ImportPairs(mode, dmaFd);
    var r := Encode(pairs);
    assert r[0] == pairs[0].key && r[2 * 5 + 1] == pairs[5].value;
    r
  }

  /** The import list reads back as exactly its six pairs. */
  lemma ImportAttribsDecode(mode: ModeInfo, dmaFd: int32)
    ensures Decode(ImportAttribs(mode, dmaFd)) == Some(ImportPairs(mode, dmaFd))
  {
    var pairs := ImportPairs(mode, dmaFd);
    DecodeEncode(pairs, []);
    assert Encode(pairs) + [] == ImportAttribs(mode, dmaFd);
  }

  /** The geometry keys of the import look up the mode's dimensions and the format. */
  lemma ImportPairsLookupImage(mode: ModeInfo, dmaFd: int32)
    ensures Lookup(ImportPairs(mode, dmaFd), EglWidth) == Some(mode.hdisplay as int32)
    ensures Lookup(ImportPairs(mode, dmaFd), EglHeight) == Some(mode.vdisplay as int32)
    ensures Lookup(ImportPairs(mode, dmaFd), EglLinuxDrmFourccExt) == Some(DrmFormatXrgb8888 as int32)
  {
    var pairs := ImportPairs(mode, dmaFd);
    LookupFirst(pairs, 0, EglWidth);
    LookupFirst(pairs, 1, EglHeight);
    LookupFirst(pairs, 2, EglLinuxDrmFourccExt);
  }

  /** The plane keys of the import look up the descriptor, offset 0 and the stride. */
  lemma ImportPairsLookupPlane(mode: ModeInfo, dmaFd: int32)
    ensures Lookup(ImportPairs(mode, dmaFd), EglDmaBufPlane0FdExt) == Some(dmaFd)
    ensures Lookup(ImportPairs(mode, dmaFd), EglDmaBufPlane0OffsetExt) == Some(0)
    ensures Lookup(ImportPairs(mode, dmaFd), EglDmaBufPlane0PitchExt) == Some(BufferGeometry(mode).stride as int32)
  {
    var pairs := ImportPairs(mode, dmaFd);
    LookupFirst(pairs, 3, EglDmaBufPlane0FdExt);
    LookupFirst(pairs, 4, EglDmaBufPlane0OffsetExt);
    LookupFirst(pairs, 5, EglDmaBufPlane0PitchExt);
  }

  /** No key of the import pairs repeats, so each key has a single value. */
  ghost predicate DistinctKeys(pairs: seq<Attrib>)
  {
    forall i, j :: 0 <= i < |pairs| && 0 <= j < |pairs| && pairs[i].key == pairs[j].key ==> i == j
  }

  /**
   The import never repeats a key. So the value any reader takes for a key,
   whether the first or the last pair carrying it, is the one value the key
   has, and the first-pair rule of `Lookup` is no assumption about the reader.
   */
  lemma ImportPairsDistinct(mode: ModeInfo, dmaFd: int32)
    ensures DistinctKeys(ImportPairs(mode, dmaFd))
  {
  }

  /** With distinct keys, the pair at `i` is the only pair carrying its key, and the lookup returns its value. */
  lemma DistinctKeysLookup(pairs: seq<Attrib>, i: nat)
    requires DistinctKeys(pairs) && i < |pairs|
    ensures forall j :: 0 <= j < |pairs| && pairs[j].key == pairs[i].key ==> pairs[j] == pairs[i]
    ensures Lookup(pairs, pairs[i].key) == Some(pairs[i].value)
  {
    LookupFirst(pairs, i, pairs[i].key);
  }

  /** Reading the import list back yields an image that agrees with the allocated buffer. */
  lemma ImportAttribsMatchBuffer(mode: ModeInfo, dmaFd: int32)
    ensures ImageFromAttribs(ImportAttribs(mode, dmaFd)).Some?
    ensures MatchesBuffer(ImageFromAttribs(ImportAttribs(mode, dmaFd)).value, mode, BufferGeometry(mode), dmaFd)
  {
    ImportAttribsDecode(mode, dmaFd);
    ImportPairsLookupImage(mode, dmaFd);
    ImportPairsLookupPlane(mode, dmaFd);
  }
}
