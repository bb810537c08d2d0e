/** make_png: the bytes of a width x height PNG image, every pixel green,
    as the icon generator writes it. The two zlib routines are parameters:
    `crc32` gives the checksum of a byte string (any integer; the result is
    masked to 32 bits as the generator does) and `compress` the deflate
    stream of a byte string. */
module Png {
  import opened JsValue

  newtype byte = x: int | 0 <= x < 256

  const Two32 := 0x1_0000_0000

  /** The PNG signature (section 5.2 of the PNG specification). */
  const Signature: seq<byte> := [0x89, 0x50, 0x4E, 0x47, 0x0D, 0x0A, 0x1A, 0x0A]

  const IHDR: seq<byte> := [0x49, 0x48, 0x44, 0x52]
  const IDAT: seq<byte> := [0x49, 0x44, 0x41, 0x54]
  const IEND: seq<byte> := [0x49, 0x45, 0x4E, 0x44]

  /** `& 0xffffffff` */
  function Mask(n: int): (m: int)
    ensures 0 <= m < Two32
    ensures 0 <= n < Two32 ==> m == n
  {
    n % Two32
  }

  /** `struct.pack('!I', n)` for an n in range: four bytes, most
      significant first. */
  function U32(n: int): (b: seq<byte>)
    requires 0 <= n < Two32
    ensures |b| == 4
  {
    var q1 := n / 0x100;
    var q2 := q1 / 0x100;
    [(q2 / 0x100) as byte, (q2 % 0x100) as byte, (q1 % 0x100) as byte, (n % 0x100) as byte]
  }

  /** Reading four bytes back as a big-endian number. */
  function ReadU32(b: seq<byte>): (n: int)
    requires |b| == 4
    ensures 0 <= n < Two32
  {
    b[0] as int * 0x100_0000 + b[1] as int * 0x1_0000 + b[2] as int * 0x100 + b[3] as int
  }

  lemma ReadU32Inverse(n: int)
    requires 0 <= n < Two32
    ensures ReadU32(U32(n)) == n
  {
  }

  /** Different numbers, different bytes. */
  lemma U32Injective(m: int, n: int)
    requires 0 <= m < Two32 && 0 <= n < Two32
    requires U32(m) == U32(n)
    ensures m == n
  {
    ReadU32Inverse(m);
    ReadU32Inverse(n);
  }

  /** `struct.pack('!I', n)`: struct.error (None) outside 0 .. 2^32 - 1. */
  function PackU32(n: int): (r: Option<seq<byte>>)
    ensures r.Some? <==> 0 <= n < Two32
    ensures r.Some? ==> r.value == U32(n)
    ensures r.Some? ==> |r.value| == 4 && ReadU32(r.value) == n
  {
    if 0 <= n < Two32 then ReadU32Inverse(n); Some(U32(n)) else None
  }

  /** `struct.pack('!IIBBBBB', width, height, 8, 2, 0, 0, 0)`: bit depth 8,
      colour type 2 (truecolour), default compression, filter and no
      interlace. */
  function IhdrData(width: int, height: int): (r: Option<seq<byte>>)
    ensures r.Some? <==> 0 <= width < Two32 && 0 <= height < Two32
    ensures r.Some? ==> |r.value| == 13 && r.value == U32(width) + U32(height) + [8, 2, 0, 0, 0]
    ensures r.Some? ==> ReadU32(r.value[..4]) == width && ReadU32(r.value[4..8]) == height && r.value[8..] == [8, 2, 0, 0, 0]
  {
    if 0 <= width < Two32 && 0 <= height < Two32 then
      var data := U32(width) + U32(height) + [8, 2, 0, 0, 0];
      assert data[..4] == U32(width);
      assert data[4..8] == U32(height);
      ReadU32Inverse(width);
      ReadU32Inverse(height);
      Some(data)
    else None
  }

  /** `struct.pack('!I', len(data)) + kind + data + struct.pack('!I', crc)`
      with crc the masked checksum of kind + data. */
  function Chunk(kind: seq<byte>, data: seq<byte>, crc32: seq<byte> -> int): (r: Option<seq<byte>>)
    ensures r.Some? <==> |data| < Two32
    ensures r.Some? ==> |r.value| == 8 + |kind| + |data|
  {
    if |data| < Two32 then Some(U32(|data|) + kind + data + U32(Mask(crc32(kind + data)))) else None
  }

  /** `s * n` */
  function Repeat(s: seq<byte>, n: nat): (r: seq<byte>)
    ensures |r| == |s| * n
  {
    if n == 0 then [] else Repeat(s, n - 1) + s
  }

  /** `b'\x00' + b'\x00\xff\x00' * width`: a scanline with filter type 0
      and `width` green pixels. */
  function Scanline(width: nat): (r: seq<byte>)
    ensures |r| == 1 + 3 * width
  {
    [0] + Repeat([0x00, 0xFF, 0x00], width)
  }

  /** make_png(width, height); None where `struct.pack` raises. */
  function MakePng(width: int, height: int, crc32: seq<byte> -> int, compress: seq<byte> -> seq<byte>): Option<seq<byte>> {
    match IhdrData(width, height)
    case None => None
    case Some(ihdrData) =>
      var compressed := compress(Repeat(Scanline(width), height));
      var ihdr := Chunk(IHDR, ihdrData, crc32).value;
      match Chunk(IDAT, compressed, crc32)
      case None => None
      case Some(idat) =>
        var iend := Chunk(IEND, [], crc32).value;
        Some(Signature + ihdr + idat + iend)
  }

  /** A chunk reads back: its length, its kind, its data and its checksum
      are where the PNG specification puts them. */
  lemma ChunkFields(kind: seq<byte>, data: seq<byte>, crc32: seq<byte> -> int)
    requires |kind| == 4 && |data| < Two32
    ensures var c := Chunk(kind, data, crc32).value;
      && ReadU32(c[..4]) == |data|
      && c[4..8] == kind
      && c[8..8 + |data|] == data
      && ReadU32(c[8 + |data|..]) == Mask(crc32(kind + data))
  {
    var c := Chunk(kind, data, crc32).value;
    assert c[..4] == U32(|data|);
    assert c[8 + |data|..] == U32(Mask(crc32(kind + data)));
    ReadU32Inverse(|data|);
    ReadU32Inverse(Mask(crc32(kind + data)));
  }

  /** make_png fails exactly when a width, a height or the compressed
      length does not fit in 32 bits. */
  lemma MakePngFails(width: int, height: int, crc32: seq<byte> -> int, compress: seq<byte> -> seq<byte>)
    ensures MakePng(width, height, crc32, compress).None? <==>
      !(0 <= width < Two32 && 0 <= height < Two32) ||
      |compress(Repeat(Scanline(width), height))| >= Two32
  {
  }

  /** The IHDR chunk: length 13, kind, width, height, the five settings and
      the checksum of kind and data. */
  lemma IhdrChunk(width: int, height: int, crc32: seq<byte> -> int)
    requires 0 <= width < Two32 && 0 <= height < Two32
    ensures var data := U32(width) + U32(height) + [8, 2, 0, 0, 0];
      Chunk(IHDR, IhdrData(width, height).value, crc32) ==
        Some(U32(13) + IHDR + data + U32(Mask(crc32(IHDR + data))))
  {
  }

  /** The IEND chunk: length 0, kind and the checksum of the kind. */
  lemma IendChunk(crc32: seq<byte> -> int)
    ensures Chunk(IEND, [], crc32) == Some(U32(0) + IEND + U32(Mask(crc32(IEND))))
  {
    assert IEND + [] == IEND;
    assert U32(0) + IEND + [] == U32(0) + IEND;
  }

  /** The file: the signature, a 25-byte IHDR chunk holding the size, the
      IDAT chunk of the compressed scanlines, and the 12-byte IEND chunk. */
  lemma MakePngLayout(width: int, height: int, crc32: seq<byte> -> int, compress: seq<byte> -> seq<byte>)
    requires 0 <= width < Two32 && 0 <= height < Two32
    requires |compress(Repeat(Scanline(width), height))| < Two32
    ensures var png := MakePng(width, height, crc32, compress);
      var compressed := compress(Repeat(Scanline(width), height));
      && png.Some?
      && |png.value| == 8 + 25 + (12 + |compressed|) + 12
      && png.value[..8] == Signature
      && png.value[8..33] == Chunk(IHDR, U32(width) + U32(height) + [8, 2, 0, 0, 0], crc32).value
      && png.value[33..45 + |compressed|] == Chunk(IDAT, compressed, crc32).value
      && png.value[45 + |compressed|..] == Chunk(IEND, [], crc32).value
  {
    var compressed := compress(Repeat(Scanline(width), height));
    var ihdr := Chunk(IHDR, IhdrData(width, height).value, crc32).value;
    var idat := Chunk(IDAT, compressed, crc32).value;
    var iend := Chunk(IEND, [], crc32).value;
    assert MakePng(width, height, crc32, compress) == Some(Signature + ihdr + idat + iend);
    Slices(Signature, ihdr, idat, iend);
  }

  /** The four parts of `a + b + c + d` are where their lengths put them. */
  lemma Slices<T>(a: seq<T>, b: seq<T>, c: seq<T>, d: seq<T>)
    ensures var s := a + b + c + d;
      && s[..|a|] == a
      && s[|a|..|a| + |b|] == b
      && s[|a| + |b|..|a| + |b| + |c|] == c
      && s[|a| + |b| + |c|..] == d
  {
  }

  /** A PNG reader finds the size: after the signature, the IHDR length 13,
      the kind IHDR, then the width and the height, bit depth 8 and colour
      type 2. */
  lemma MakePngHeader(width: int, height: int, crc32: seq<byte> -> int, compress: seq<byte> -> seq<byte>)
    requires 0 <= width < Two32 && 0 <= height < Two32
    requires |compress(Repeat(Scanline(width), height))| < Two32
    ensures var png := MakePng(width, height, crc32, compress);
      && png.Some?
      && |png.value| >= 33
      && ReadU32(png.value[8..12]) == 13
      && png.value[12..16] == IHDR
      && ReadU32(png.value[16..20]) == width
      && ReadU32(png.value[20..24]) == height
      && png.value[24..29] == [8, 2, 0, 0, 0]
  {
    var compressed := compress(Repeat(Scanline(width), height));
    var ihdr := Chunk(IHDR, IhdrData(width, height).value, crc32).value;
    var idat := Chunk(IDAT, compressed, crc32).value;
    var iend := Chunk(IEND, [], crc32).value;
    var png := Signature + ihdr + idat + iend;
    assert MakePng(width, height, crc32, compress) == Some(png);
    Slices(Signature, ihdr, idat, iend);
    var data := U32(width) + U32(height) + [8, 2, 0, 0, 0];
    IhdrChunk(width, height, crc32);
    var crc := U32(Mask(crc32(IHDR + data)));
    assert ihdr == U32(13) + IHDR + data + crc;
    Slices(U32(13), IHDR, data, crc);
    Slices(U32(width), U32(height), [8, 2, 0, 0, 0], []);
    SubSlice(png, 8, 33, 0, 4);
    SubSlice(png, 8, 33, 4, 8);
    SubSlice(png, 8, 33, 8, 21);
    SubSlice(png, 16, 29, 0, 4);
    SubSlice(png, 16, 29, 4, 8);
    SubSlice(png, 16, 29, 8, 13);
    ReadU32Inverse(13);
    ReadU32Inverse(width);
    ReadU32Inverse(height);
  }

  /** A slice of a slice is a slice. */
  lemma SubSlice<T>(s: seq<T>, i: nat, j: nat, k: nat, l: nat)
    requires i <= j <= |s| && k <= l <= j - i
    ensures s[i..j][k..l] == s[i + k..i + l]
  {
    forall m | 0 <= m < l - k
      ensures s[i..j][k..l][m] == s[i + k..i + l][m]
    {
    }
  }

  lemma MulLe(d: nat, a: nat, b: nat)
    requires a <= b
    ensures d * a <= d * b
  {
    assert d * b == d * a + d * (b - a);
  }

  /** Byte `j` of copy `q` of `s` in `s * n` is byte `j` of `s`. */
  lemma {:induction false} RepeatAt(s: seq<byte>, n: nat, q: nat, j: nat)
    requires q < n && j < |s|
    ensures |s| * q + j < |Repeat(s, n)|
    ensures Repeat(s, n)[|s| * q + j] == s[j]
  {
    MulLe(|s|, q + 1, n);
    if q < n - 1 {
      RepeatAt(s, n - 1, q, j);
    } else {
      assert |s| * q == |s| * (n - 1) == |Repeat(s, n - 1)|;
    }
  }

  /** The image the deflate stream encodes: `height` scanlines, each a
      filter byte 0 and `width` pixels (0, 255, 0). */
  lemma ScanlinesAt(width: nat, height: nat, row: nat, col: nat)
    requires row < height && col < width
    ensures var raw := Repeat(Scanline(width), height);
      var line := 1 + 3 * width;
      var start := line * row;
      && |raw| == line * height
      && start + 3 * col + 3 < |raw|
      && raw[start] == 0
      && raw[start + 1 + 3 * col] == 0x00
      && raw[start + 2 + 3 * col] == 0xFF
      && raw[start + 3 + 3 * col] == 0x00
  {
    var line := 1 + 3 * width;
    var sl := Scanline(width);
    var px: seq<byte> := [0x00, 0xFF, 0x00];
    RepeatAt(sl, height, row, 0);
    RepeatAt(sl, height, row, 1 + 3 * col);
    RepeatAt(sl, height, row, 2 + 3 * col);
    RepeatAt(sl, height, row, 3 + 3 * col);
    RepeatAt(px, width, col, 0);
    RepeatAt(px, width, col, 1);
    RepeatAt(px, width, col, 2);
    assert sl[1 + 3 * col] == Repeat(px, width)[3 * col];
    assert sl[2 + 3 * col] == Repeat(px, width)[3 * col + 1];
    assert sl[3 + 3 * col] == Repeat(px, width)[3 * col + 2];
  }
}
