/**
 The GEM buffer block: the geometry of the buffer sized to the chosen mode,
 the allocation and export requests sent to the kernel, and the row-major
 pixel layout that the size and stride describe.
 */
module GemBuffer {
  import opened Common
  import opened DrmMode

  /** Bytes per pixel of the single 32-bit packed format the program uses. */
  const BytesPerPixel: nat := 4

  /** EXYNOS_BO_NONCONTIG: the allocation may use non-contiguous physical memory. */
  const ExynosBoNonContig: uint32 := 1

  /** DRM_CLOEXEC, equal to O_CLOEXEC: the exported descriptor is closed on exec. */
  const DrmCloexec: uint32 := 0x80000

  /** Byte size (a size_t) and row stride (a uint32_t) of the buffer. */
  datatype Geometry = Geometry(size: uint64, stride: uint32)

  /** The allocation request: byte size and placement flags. */
  datatype GemCreateRequest = GemCreateRequest(size: uint64, flags: uint32)

  /** The kernel object the allocation returned, with the geometry it was allocated for. */
  datatype GemObject = GemObject(handle: uint32, geometry: Geometry)

  lemma MulMono(a: nat, b: nat, c: nat, d: nat)
    requires a <= c && b <= d
    ensures a * b <= c * d
  {
    assert a * b <= c * b;
    assert c * b <= c * d;
  }

  lemma MulMonoLeft(a: nat, b: nat, d: nat)
    ensures a <= b ==> a * d <= b * d
  {
    if a <= b {
      MulMono(a, d, b, d);
    }
  }

  /** Any mode's area fits in 32 unsigned bits. */
  lemma AreaFits(m: ModeInfo)
    ensures Area(m) <= 0xFFFF * 0xFFFF
  {
    MulMono(m.hdisplay, m.vdisplay, 0xFFFF, 0xFFFF);
  }

  /**
   Size and stride of the buffer for a mode: four bytes per pixel, the stride
   covers one row, and the size is exactly `vdisplay` rows of `stride` bytes.
   Both fit their C fields, and the stride also fits a signed 32-bit
   attribute value.
   */
  function BufferGeometry(mode: ModeInfo): (g: Geometry)
    ensures g.size == Area(mode) * BytesPerPixel
    ensures g.stride == mode.hdisplay * BytesPerPixel
    ensures g.size == g.stride * mode.vdisplay
    ensures g.stride < 0x8000_0000
  {
    AreaFits(mode);
    Geometry(mode.hdisplay * mode.vdisplay * BytesPerPixel, mode.hdisplay * BytesPerPixel)
  }

  /** The 1920x1080 case: 8,294,400 bytes with a 7,680-byte stride. */
  lemma FullHdGeometry(refresh: uint32)
    ensures BufferGeometry(ModeInfo(1920, 1080, refresh)) == Geometry(8294400, 7680)
  {
  }

  /** A byte of the image: column, row, and byte within the pixel. */
  datatype Pixel = Pixel(x: nat, y: nat, b: nat)

  predicate InImage(mode: ModeInfo, px: Pixel)
  {
    px.x < mode.hdisplay && px.y < mode.vdisplay && px.b < BytesPerPixel
  }

  /** Offset of an image byte in a row-major buffer with the given stride. */
  function PixelOffset(g: Geometry, px: Pixel): nat
  {
    px.y * g.stride + px.x * BytesPerPixel + px.b
  }

  /** The image byte stored at a buffer offset. */
  function PixelAt(g: Geometry, off: nat): Pixel
    requires g.stride > 0
  {
    var r := off % g.stride;
    Pixel(r / BytesPerPixel, off / g.stride, r % BytesPerPixel)
  }

  lemma DivModUnique(n: nat, d: nat, q: nat, r: nat)
    requires 0 <= r < d && n == q * d + r
    ensures n / d == q && n % d == r
  {
    var q', r' := n / d, n % d;
    assert n == q' * d + r';
    MulMonoLeft(q' + 1, q, d);
    MulMonoLeft(q + 1, q', d);
  }

  /**
   Every byte of the image lies inside the buffer, and the buffer offset
   gives that byte back: no two image bytes share an offset.
   */
  lemma PixelRoundTrip(mode: ModeInfo, px: Pixel)
    requires InImage(mode, px)
    ensures BufferGeometry(mode).stride > 0
    ensures PixelOffset(BufferGeometry(mode), px) < BufferGeometry(mode).size
    ensures PixelAt(BufferGeometry(mode), PixelOffset(BufferGeometry(mode), px)) == px
  {
    var g := BufferGeometry(mode);
    var inRow := px.x * BytesPerPixel + px.b;
    assert inRow < g.stride;
    var off := PixelOffset(g, px);
    MulMono(px.y + 1, g.stride, mode.vdisplay, g.stride);
    assert off < g.size;
    DivModUnique(off, g.stride, px.y, inRow);
    DivModUnique(inRow, BytesPerPixel, px.x, px.b);
  }

  /** Every byte of the buffer belongs to exactly the image byte `PixelAt` names. */
  lemma OffsetRoundTrip(mode: ModeInfo, off: nat)
    requires off < BufferGeometry(mode).size
    ensures BufferGeometry(mode).stride > 0
    ensures InImage(mode, PixelAt(BufferGeometry(mode), off))
    ensures PixelOffset(BufferGeometry(mode), PixelAt(BufferGeometry(mode), off)) == off
  {
    var g := BufferGeometry(mode);
    assert g.stride > 0;
    var px := PixelAt(g, off);
    var r := off % g.stride;
    assert off == px.y * g.stride + r;
    assert r == px.x * BytesPerPixel + px.b;
    MulMonoLeft(mode.vdisplay, px.y, g.stride);
  }
}
