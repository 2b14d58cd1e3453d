/**
 * Rebuilding standalone files from resources: a `.bmp` file from an RT_BITMAP
 * resource (a 14-byte file header in front of the resource), and an `.ico` or
 * `.cur` file from an RT_GROUP_ICON or RT_GROUP_CURSOR resource (a file
 * directory followed by the member images, found by id).
 */
module Extract {
  import opened Bytes
  import opened Wres
  import opened IntUtil
  import opened FileRead
  import opened ResTable

  const RtBitmap: int := 2
  const RtGroupCursor: int := 12
  const RtGroupIcon: int := 14
  const RtVersion: int := 16

  const GroupHeaderSize: nat := 6     // Win32CursorIconDir, Win32CursorIconFileDir
  const GroupEntrySize: nat := 14     // Win32CursorIconDirEntry
  const FileEntrySize: nat := 16      // Win32CursorIconFileDirEntry
  const InfoHeaderSize: nat := 40     // Win32BitmapInfoHeader
  const FileHeaderSize: nat := 14     // the BITMAPFILEHEADER written in front

  /** The eight-byte PNG signature (section 3.1 of RFC 2083). */
  const PngSignature: seq<Byte> := [137, 80, 78, 71, 13, 10, 26, 10]

  // ---------------------------------------------------------------- writing into a block

  /** `b` with `bytes` written from `at`. */
  function Overwrite(b: seq<Byte>, at: nat, bytes: seq<Byte>): (r: seq<Byte>)
    requires at + |bytes| <= |b|
    ensures |r| == |b|
  {
    b[..at] + bytes + b[at + |bytes|..]
  }

  /** The written bytes are in place and every other byte is kept. */
  lemma OverwriteShape(b: seq<Byte>, at: nat, bytes: seq<Byte>)
    requires at + |bytes| <= |b|
    ensures Overwrite(b, at, bytes)[at..at + |bytes|] == bytes
    ensures forall i :: 0 <= i < |b| && !(at <= i < at + |bytes|) ==> Overwrite(b, at, bytes)[i] == b[i]
  {
  }

  /** A write into the allocated block; one that would leave the block is an error of the model. */
  function Put(b: seq<Byte>, at: int, bytes: seq<Byte>): (r: Result<seq<Byte>>)
    ensures r.Ok? ==> |r.value| == |b|
    ensures r.Err? ==> r.error == OutOfBounds
  {
    if 0 <= at && at + |bytes| <= |b| then Ok(Overwrite(b, at, bytes)) else Err(OutOfBounds)
  }

  /** `memcpy(block + at, bytes, |bytes|)`. */
  method WriteBlock(block: array<Byte>, at: int, bytes: seq<Byte>) returns (ok: bool)
    modifies block
    ensures ok <==> 0 <= at && at + |bytes| <= block.Length
    ensures Put(old(block[..]), at, bytes) == if ok then Ok(block[..]) else Err(OutOfBounds)
    ensures !ok ==> block[..] == old(block[..])
  {
    if at < 0 || at + |bytes| > block.Length {
      return false;
    }
    for i := 0 to |bytes|
      invariant forall j :: 0 <= j < block.Length ==>
        block[j] == if at <= j < at + i then bytes[j - at] else old(block[j])
    {
      block[at + i] := bytes[i];
    }
    OverwriteShape(old(block[..]), at, bytes);
    assert block[..] == Overwrite(old(block[..]), at, bytes);
    return true;
  }

  // ---------------------------------------------------------------- bitmaps

  /** The signed 32-bit value stored at `off`. */
  function I32At(m: seq<Byte>, off: nat): int
    requires off + 4 <= |m|
  {
    Int32(U32At(m, off))
  }

  /** Bytes of colour table: none for 24 bits, all colours of 1, 4 or 8 bits when `clr_used` is 0, else four per colour used. */
  function Palette(bitCount: nat, clrUsed: nat): nat
  {
    if bitCount == 24 then 0
    else if clrUsed == 0 then
      if bitCount == 1 then 8 else if bitCount == 4 then 64 else if bitCount == 8 then 1024 else 0
    else Wrap32(4 * clrUsed)
  }

  /** `offbits`: header size + 14 + colour table, in 32-bit unsigned arithmetic. */
  function OffBits(headerSize: nat, bitCount: nat, clrUsed: nat): (o: nat)
    ensures o < TwoTo32
  {
    Wrap32(Wrap32(headerSize + FileHeaderSize) + Palette(bitCount, clrUsed))
  }

  /** Without wrap-around the pixels start after both headers and the colour table. */
  lemma OffBitsCases(headerSize: nat, bitCount: nat, clrUsed: nat)
    requires headerSize < TwoTo31 && clrUsed < 0x1000_0000
    ensures bitCount == 24 ==> OffBits(headerSize, bitCount, clrUsed) == headerSize + 14
    ensures bitCount != 24 && clrUsed != 0 ==> OffBits(headerSize, bitCount, clrUsed) == headerSize + 14 + 4 * clrUsed
    ensures bitCount != 24 && clrUsed == 0 ==>
      OffBits(headerSize, bitCount, clrUsed) == headerSize + 14 + Palette(bitCount, 0)
    ensures Palette(bitCount, 0) in {0, 8, 64, 1024}
  {
  }

  /** A 40-byte header, 8 bits per pixel, all colours: pixels at 1078. */
  lemma OffBitsExample()
    ensures OffBits(40, 8, 0) == 1078
    ensures OffBits(40, 24, 0) == 54
    ensures OffBits(40, 4, 16) == 118
  {
  }

  /** "BM", the file size, four reserved zero bytes, the pixel offset. */
  function BitmapFileHeader(fileSize: nat, offbits: nat): (h: seq<Byte>)
    requires fileSize < TwoTo32 && offbits < TwoTo32
    ensures |h| == FileHeaderSize
  {
    [0x42, 0x4D] + LE32(fileSize) + [0, 0, 0, 0] + LE32(offbits)
  }

  /** The file header byte by byte. */
  lemma FileHeaderBytes(fileSize: nat, offbits: nat)
    requires fileSize < TwoTo32 && offbits < TwoTo32
    ensures var f, p := LE32(fileSize), LE32(offbits);
      BitmapFileHeader(fileSize, offbits) == [0x42, 0x4D, f[0], f[1], f[2], f[3], 0, 0, 0, 0, p[0], p[1], p[2], p[3]]
  {
  }

  /**
   * `extract_bitmap_resource`: the file header, then the resource bytes.
   * The 40-byte info header is read without a check.
   */
  function Bitmap(lib: Library, wr: WinResource): (r: Result<seq<Byte>>)
    ensures r.Err? ==> r.error in {PrematureEnd, OutOfBounds}
  {
    var sp :- GetResourceEntry(lib, wr);
    BitmapOf(lib.memory, sp)
  }

  /** The bitmap file of the resource data at `sp`. */
  function BitmapOf(m: seq<Byte>, sp: Span): (r: Result<seq<Byte>>)
    requires sp.offset + sp.size <= |m|
    ensures r.Err? ==> r.error == OutOfBounds
  {
    if sp.offset + InfoHeaderSize > |m| then Err(OutOfBounds)
    else
      var info := sp.offset;
      var offbits := OffBits(U32At(m, info), U16At(m, info + 14), U32At(m, info + 32));
      Ok(BitmapFileHeader(Wrap32(FileHeaderSize + sp.size), offbits) + m[sp.offset..sp.offset + sp.size])
  }

  /** The bitmap file is 14 + size bytes: 'B', 'M', the length, four zeros, `offbits`, then the resource unchanged. */
  lemma BitmapLayout(lib: Library, wr: WinResource)
    requires Bitmap(lib, wr).Ok?
    ensures var m, out, sp := lib.memory, Bitmap(lib, wr).value, GetResourceEntry(lib, wr).value;
      sp.offset + InfoHeaderSize <= |m| &&
      |out| == FileHeaderSize + sp.size &&
      out[0] == 0x42 && out[1] == 0x4D &&
      U32At(out, 2) == Wrap32(FileHeaderSize + sp.size) &&
      out[6..10] == [0, 0, 0, 0] &&
      U32At(out, 10) == OffBits(U32At(m, sp.offset), U16At(m, sp.offset + 14), U32At(m, sp.offset + 32)) &&
      out[FileHeaderSize..] == m[sp.offset..sp.offset + sp.size]
  {
    var sp := GetResourceEntry(lib, wr).value;
    assert Bitmap(lib, wr) == BitmapOf(lib.memory, sp);
    BitmapOfLayout(lib.memory, sp);
  }

  lemma BitmapOfLayout(m: seq<Byte>, sp: Span)
    requires sp.offset + sp.size <= |m| && BitmapOf(m, sp).Ok?
    ensures var out := BitmapOf(m, sp).value;
      sp.offset + InfoHeaderSize <= |m| &&
      |out| == FileHeaderSize + sp.size &&
      out[0] == 0x42 && out[1] == 0x4D &&
      U32At(out, 2) == Wrap32(FileHeaderSize + sp.size) &&
      out[6..10] == [0, 0, 0, 0] &&
      U32At(out, 10) == OffBits(U32At(m, sp.offset), U16At(m, sp.offset + 14), U32At(m, sp.offset + 32)) &&
      out[FileHeaderSize..] == m[sp.offset..sp.offset + sp.size]
  {
    var offbits := OffBits(U32At(m, sp.offset), U16At(m, sp.offset + 14), U32At(m, sp.offset + 32));
    var h := BitmapFileHeader(Wrap32(FileHeaderSize + sp.size), offbits);
    var out := BitmapOf(m, sp).value;
    assert out == h + m[sp.offset..sp.offset + sp.size];
    assert out[..4] == h[..4] && out[2..6] == LE32(Wrap32(FileHeaderSize + sp.size));
    assert out[10..14] == LE32(offbits);
  }

  /** The header stores of `extract_bitmap_resource`, one byte at a time (the masks keep the low 32 bits of `*ressize`). */
  method WriteFileHeader(result: array<Byte>, fileSize: nat, offbits: nat)
    requires fileSize < TwoTo32 && offbits < TwoTo32 && result.Length >= FileHeaderSize
    modifies result
    ensures result[..FileHeaderSize] == BitmapFileHeader(fileSize, offbits)
    ensures result[FileHeaderSize..] == old(result[FileHeaderSize..])
  {
    var size32 := LE32(fileSize);
    var pixels := LE32(offbits);
    result[0], result[1] := 0x42, 0x4D;
    result[2], result[3], result[4], result[5] := size32[0], size32[1], size32[2], size32[3];
    result[6], result[7], result[8], result[9] := 0, 0, 0, 0;
    result[10], result[11], result[12], result[13] := pixels[0], pixels[1], pixels[2], pixels[3];
    FileHeaderBytes(fileSize, offbits);
    assert result[..FileHeaderSize] == [0x42, 0x4D, size32[0], size32[1], size32[2], size32[3],
      0, 0, 0, 0, pixels[0], pixels[1], pixels[2], pixels[3]];
  }

  /** `extract_bitmap_resource`: fill the file header byte by byte, then copy the resource after it. */
  method ExtractBitmapResource(lib: Library, wr: WinResource) returns (r: Result<seq<Byte>>)
    ensures r == Bitmap(lib, wr)
  {
    var entry := GetResourceEntry(lib, wr);
    if entry.Err? {
      return Err(entry.error);
    }
    r := WriteBitmap(lib.memory, entry.value);
  }

  /** The file header and the copied resource of `extract_bitmap_resource`, once the resource is found. */
  method WriteBitmap(m: seq<Byte>, sp: Span) returns (r: Result<seq<Byte>>)
    requires sp.offset + sp.size <= |m|
    ensures r == BitmapOf(m, sp)
  {
    if sp.offset + InfoHeaderSize > |m| {
      return Err(OutOfBounds);
    }
    var offbits := OffBits(U32At(m, sp.offset), U16At(m, sp.offset + 14), U32At(m, sp.offset + 32));
    var ressize := FileHeaderSize + sp.size;
    var result := new Byte[ressize];
    WriteFileHeader(result, Wrap32(ressize), offbits);
    ghost var header := BitmapFileHeader(Wrap32(ressize), offbits);
    ghost var data := m[sp.offset..sp.offset + sp.size];
    assert BitmapOf(m, sp) == Ok(header + data);
    ghost var before := result[..];
    var _ := WriteBlock(result, FileHeaderSize, m[sp.offset..sp.offset + sp.size]);
    assert result[..] == Overwrite(before, FileHeaderSize, data);
    assert result[..] == header + data;
    return Ok(result[..]);
  }

  // ---------------------------------------------------------------- icon and cursor groups

  /** The group directory at `dir` holds entries from `dir + 6` up to entry `n`. */
  predicate EntriesReadable(m: seq<Byte>, dir: nat, n: nat)
  {
    dir + 6 + 14 * n <= |m|
  }

  /** The offset of entry `c` of the group directory at `dir`. */
  function GroupEntryAt(dir: nat, c: nat): nat
  {
    dir + 6 + 14 * c
  }

  /** `bytes_in_res` of entry `c`. */
  function DeclaredSize(m: seq<Byte>, dir: nat, c: nat): nat
    requires GroupEntryAt(dir, c) + GroupEntrySize <= |m|
  {
    U32At(m, GroupEntryAt(dir, c) + 8)
  }

  /** The length of member `c` that is kept: its size cut to the size entry `c` declares. */
  function KeptLen(m: seq<Byte>, dir: nat, sp: Span, c: nat): (len: nat)
    requires GroupEntryAt(dir, c) + GroupEntrySize <= |m|
    ensures len <= sp.size && len <= DeclaredSize(m, dir, c)
    ensures len == sp.size || len == DeclaredSize(m, dir, c)
  {
    if sp.size > DeclaredSize(m, dir, c) then DeclaredSize(m, dir, c) else sp.size
  }

  /** The name `"-%d"` under which member `c` is looked up. */
  function MemberName(m: seq<Byte>, dir: nat, c: nat): string
    requires GroupEntryAt(dir, c) + GroupEntrySize <= |m|
  {
    "-" + Decimal(U16At(m, GroupEntryAt(dir, c) + 12))
  }

  /** Members are RT_ICON (3) for an icon group, RT_CURSOR (1) for a cursor group. */
  function MemberType(isIcon: bool): string
  {
    if isIcon then "-3" else "-1"
  }

  /** The member resource of entry `c`, in any language, and its bytes. */
  function MemberLookup(lib: Library, dir: nat, c: nat, isIcon: bool): (r: Result<Span>)
    requires GroupEntryAt(dir, c) + GroupEntrySize <= |lib.memory|
    ensures r.Ok? ==> r.value.offset + r.value.size <= |lib.memory|
    ensures r.Err? ==> r.error in {ResNotFound, PrematureEnd, OutOfBounds}
  {
    var f := Find(lib, Some(MemberType(isIcon)), Some(MemberName(lib.memory, dir, c)), Some(""));
    if f.res.None? then Err(ResNotFound) else GetResourceEntry(lib, f.res.value)
  }

  /**
   * The lookup of every member the directory declares, by entry.  The
   * passes below consult entry `c` only after checking it lies in the image.
   */
  function Lookups(lib: Library, dir: nat, isIcon: bool, n: nat): (r: seq<Result<Span>>)
    ensures |r| == n && InImage(lib.memory, r)
    ensures forall j :: 0 <= j < n && r[j].Err? ==> r[j].error in {ResNotFound, PrematureEnd, OutOfBounds}
  {
    seq(n, j requires 0 <= j < n => LookupOf(lib, dir, j, isIcon))
  }

  /** The lookup of entry `j`: an entry outside the image is an early end. */
  function LookupOf(lib: Library, dir: nat, j: nat, isIcon: bool): (r: Result<Span>)
    ensures r.Ok? ==> r.value.offset + r.value.size <= |lib.memory|
    ensures r.Err? ==> r.error in {ResNotFound, PrematureEnd, OutOfBounds}
  {
    if GroupEntryAt(dir, j) + GroupEntrySize <= |lib.memory| then MemberLookup(lib, dir, j, isIcon) else Err(PrematureEnd)
  }

  /** Every span found lies in the image. */
  predicate InImage(m: seq<Byte>, looks: seq<Result<Span>>)
  {
    forall j :: 0 <= j < |looks| && looks[j].Ok? ==> looks[j].value.offset + looks[j].value.size <= |m|
  }

  /** Some lookup failed with `e`. */
  predicate Failing(looks: seq<Result<Span>>, e: WresError)
  {
    exists j :: 0 <= j < |looks| && looks[j] == Err(e)
  }

  /** The first pass: each entry from `c` on is checked, then its member's lookup is taken. */
  function Members(m: seq<Byte>, dir: nat, looks: seq<Result<Span>>, c: nat): (r: Result<seq<Span>>)
    requires c <= |looks|
    ensures r.Ok? ==> |r.value| == |looks| - c
    ensures r.Err? ==> r.error == PrematureEnd || Failing(looks, r.error)
    decreases |looks| - c
  {
    if c == |looks| then Ok([])
    else if !CheckOffset(|m|, GroupEntryAt(dir, c), GroupEntrySize) then Err(PrematureEnd)
    else
      var sp :- looks[c];
      Prepend([sp], Members(m, dir, looks, c + 1))
  }

  /** Once the first pass succeeds, every entry is readable and every lookup gave its span. */
  lemma {:induction false} MembersShape(m: seq<Byte>, dir: nat, looks: seq<Result<Span>>, c: nat, spans: seq<Span>)
    requires c <= |looks| && EntriesReadable(m, dir, c) && Members(m, dir, looks, c) == Ok(spans)
    ensures |spans| == |looks| - c && EntriesReadable(m, dir, |looks|)
    ensures forall j {:trigger looks[j]} :: c <= j < |looks| ==> looks[j] == Ok(spans[j - c])
    decreases |looks| - c
  {
    if c < |looks| {
      MembersStep(m, dir, looks, c, spans);
      MembersShape(m, dir, looks, c + 1, spans[1..]);
      forall j | c < j < |looks|
        ensures looks[j] == Ok(spans[j - c])
      {
        assert spans[1..][j - (c + 1)] == spans[j - c];
      }
    }
  }

  /** Once the first pass succeeds, every entry is readable. */
  lemma MembersReadable(m: seq<Byte>, dir: nat, looks: seq<Result<Span>>, spans: seq<Span>)
    requires EntriesReadable(m, dir, 0) && Members(m, dir, looks, 0) == Ok(spans)
    ensures EntriesReadable(m, dir, |looks|)
  {
    MembersShape(m, dir, looks, 0, spans);
  }

  /** One step of the first pass: entry `c` was checked and found, and the rest continues from `c + 1`. */
  lemma MembersStep(m: seq<Byte>, dir: nat, looks: seq<Result<Span>>, c: nat, spans: seq<Span>)
    requires c < |looks| && Members(m, dir, looks, c) == Ok(spans)
    ensures CheckOffset(|m|, GroupEntryAt(dir, c), GroupEntrySize)
    ensures |spans| == |looks| - c
    ensures looks[c] == Ok(spans[0])
    ensures Members(m, dir, looks, c + 1) == Ok(spans[1..])
  {
    var rest := Members(m, dir, looks, c + 1);
    assert looks[c].Ok? && Members(m, dir, looks, c) == Prepend([looks[c].value], rest);
    assert rest.Ok? && spans == [looks[c].value] + rest.value;
  }

  /** How many of the spans are empty: the members the program skips. */
  function Skipped(spans: seq<Span>): (s: nat)
    ensures s <= |spans|
  {
    if spans == [] then 0
    else Skipped(spans[..|spans| - 1]) + (if spans[|spans| - 1].size == 0 then 1 else 0)
  }

  /** The room claimed by the non-empty members: the larger of their actual and declared sizes. */
  function Claim(m: seq<Byte>, dir: nat, spans: seq<Span>): nat
    requires EntriesReadable(m, dir, |spans|)
  {
    if spans == [] then 0
    else
      var c := |spans| - 1;
      Claim(m, dir, spans[..c]) + (if spans[c].size == 0 then 0 else Max(spans[c].size, DeclaredSize(m, dir, c)))
  }

  /** The end of the claimed room: the first byte past the entries of the kept members plus the room they claim. */
  function ClaimEnd(m: seq<Byte>, dir: nat, spans: seq<Span>): nat
    requires EntriesReadable(m, dir, |spans|)
  {
    GroupHeaderSize + 16 * (|spans| - Skipped(spans)) + Claim(m, dir, spans)
  }

  function Max(a: nat, b: nat): nat
  {
    if a < b then b else a
  }

  /**
   * The size computed by the first pass: the group resource's own size, six
   * header bytes, sixteen per kept member, the claimed room, less four bytes
   * per kept cursor member (its hotspot words move into the entry).
   */
  function GroupSize(groupSize: nat, m: seq<Byte>, dir: nat, spans: seq<Span>, isIcon: bool): (size: int)
    requires EntriesReadable(m, dir, |spans|)
    ensures size >= GroupHeaderSize
  {
    var kept := |spans| - Skipped(spans);
    ClaimCovers(m, dir, spans);
    groupSize + GroupHeaderSize + 16 * kept + Claim(m, dir, spans) - (if isIcon then 0 else 4 * kept)
  }

  /** Every kept member claims at least one byte. */
  lemma {:induction false} ClaimCovers(m: seq<Byte>, dir: nat, spans: seq<Span>)
    requires EntriesReadable(m, dir, |spans|)
    ensures Claim(m, dir, spans) >= |spans| - Skipped(spans)
  {
    if spans != [] {
      ClaimCovers(m, dir, spans[..|spans| - 1]);
    }
  }

  /** `s` with the 16-bit value `v` stored at `at`. */
  function Set16(s: seq<Byte>, at: nat, v: nat): (r: seq<Byte>)
    requires at + 2 <= |s| && v < TwoTo16
    ensures |r| == |s|
  {
    s[..at] + LE16(v) + s[at + 2..]
  }

  /** The stored word reads back, and every other byte is kept. */
  lemma Set16Shape(s: seq<Byte>, at: nat, v: nat)
    requires at + 2 <= |s| && v < TwoTo16
    ensures var r := Set16(s, at, v);
      U16At(r, at) == v && r[..at] == s[..at] && r[at + 2..] == s[at + 2..]
  {
    var r := Set16(s, at, v);
    assert r[at] == LE16(v)[0] && r[at + 1] == LE16(v)[1];
    assert r[..at] == s[..at];
    assert r[at + 2..] == s[at + 2..];
  }

  /**
   * The file entry written for member `c` (its span `sp`, `len` bytes kept,
   * its image at `offset`): the first twelve bytes of the group entry, then
   * the image offset; a 40-byte or larger image overrides the dimensions
   * from its DIB header (width, half the height) or, for PNG, clears the
   * colour count and sets the bit count to 32; a cursor clears colour count
   * and reserved byte and takes its hotspot from the first two words of
   * its data.
   */
  function FileEntry(m: seq<Byte>, dir: nat, c: nat, sp: Span, len: nat, offset: int, isIcon: bool): (e: seq<Byte>)
    requires GroupEntryAt(dir, c) + GroupEntrySize <= |m| && sp.offset + sp.size <= |m| && len <= sp.size
    ensures |e| == FileEntrySize
  {
    var src := GroupEntryAt(dir, c);
    var d := sp.offset;
    var copied: seq<Byte> := m[src..src + 12] + LE32(Wrap32(offset));
    var shaped: seq<Byte> :=
      if sp.size < InfoHeaderSize then copied
      else if m[d..d + 8] != PngSignature then copied[0 := Low8(I32At(m, d + 4))][1 := Low8(CDiv(I32At(m, d + 8), 2))]
      else Set16(copied[2 := 0], 6, 32);
    var typed: seq<Byte> := if isIcon then shaped else shaped[2 := 0][3 := 0];
    if !isIcon && len >= 4 then Set16(Set16(typed, 4, U16At(m, d)), 6, U16At(m, d + 2)) else typed
  }

  /** A 16-bit store before `k` leaves the bytes from `k` on alone. */
  lemma Set16KeepsFrom(s: seq<Byte>, at: nat, v: nat, k: nat)
    requires at + 2 <= k <= |s| && v < TwoTo16
    ensures Set16(s, at, v)[k..] == s[k..]
  {
    var r := Set16(s, at, v);
    assert forall i :: k <= i < |s| ==> r[i] == s[i];
  }

  /** The state of the second pass: the block, the offset of the next image, the members skipped so far. */
  datatype Assembly = Assembly(block: seq<Byte>, offset: int, skipped: nat)

  /**
   * One step of the second pass: the member's lookup is taken again; an
   * empty member is skipped; otherwise it is placed.
   */
  function PlaceMember(m: seq<Byte>, dir: nat, looks: seq<Result<Span>>, isIcon: bool, c: nat, a: Assembly): (r: Result<Assembly>)
    requires EntriesReadable(m, dir, |looks|) && InImage(m, looks) && c < |looks| && a.skipped <= c
    ensures r.Ok? ==> |r.value.block| == |a.block| && r.value.skipped <= c + 1
    ensures r.Err? ==> r.error == OutOfBounds || Failing(looks, r.error)
  {
    var sp :- looks[c];
    PlaceSpan(m, dir, |looks|, isIcon, c, sp, a)
  }

  /**
   * Member `c` with data `sp`: an empty one is skipped; otherwise its file
   * entry goes to slot `c - skipped` and its data (for a cursor, without the
   * hotspot words) to the current offset, which then advances by the
   * declared size (less four for a cursor whose words were moved).  The
   * offset is an `int` and the declared size a `uint32_t`, so the sum is
   * taken modulo 2^32 and read back as an `int`.  The data is cut to the
   * declared size of entry `c - skipped`, as written.
   */
  function PlaceSpan(m: seq<Byte>, dir: nat, n: nat, isIcon: bool, c: nat, sp: Span, a: Assembly): (r: Result<Assembly>)
    requires EntriesReadable(m, dir, n) && c < n && a.skipped <= c && sp.offset + sp.size <= |m|
    ensures r.Ok? ==> |r.value.block| == |a.block| && r.value.skipped <= c + 1
    ensures r.Ok? && sp.size == 0 ==> r.value == a.(skipped := a.skipped + 1)
    ensures r.Err? ==> r.error == OutOfBounds
  {
    if sp.size == 0 then Ok(a.(skipped := a.skipped + 1))
    else
      var k := c - a.skipped;
      var len := KeptLen(m, dir, sp, k);
      var b :- Put(a.block, GroupHeaderSize + 16 * k, FileEntry(m, dir, c, sp, len, a.offset, isIcon));
      var placed :- PutPayload(m, sp, len, isIcon, b, a.offset);
      Ok(Assembly(placed.0, Advance(placed.1, DeclaredSize(m, dir, c)), a.skipped))
  }

  /**
   * A member that declares 0xFFFF_FFFF bytes moves the offset back by one:
   * the next member's data lands on the last byte of the entries.
   */
  lemma PlaceSpanWraps(m: seq<Byte>, dir: nat, sp: Span, a: Assembly)
    requires EntriesReadable(m, dir, 2) && DeclaredSize(m, dir, 0) == 0xFFFF_FFFF
    requires sp.size > 0 && sp.offset + sp.size <= |m|
    requires a.skipped == 0 && a.offset == GroupHeaderSize + 16 * 2 && |a.block| >= a.offset + sp.size
    ensures PlaceSpan(m, dir, 2, true, 0, sp, a).Ok?
    ensures PlaceSpan(m, dir, 2, true, 0, sp, a).value.offset == GroupHeaderSize + 16 * 2 - 1
  {
    var e := FileEntry(m, dir, 0, sp, sp.size, a.offset, true);
    var b := Overwrite(a.block, GroupHeaderSize, e);
    assert Put(a.block, GroupHeaderSize, e) == Ok(b);
    PayloadFits(m, sp, sp.size, true, b, a.offset);
    assert Advance(a.offset, 0xFFFF_FFFF) == a.offset - 1;
  }

  /** An offset that has gone negative refuses the next data it would receive. */
  lemma NegativeOffsetRefused(m: seq<Byte>, dir: nat, n: nat, c: nat, sp: Span, a: Assembly)
    requires EntriesReadable(m, dir, n) && c < n && a.skipped <= c && sp.offset + sp.size <= |m|
    requires sp.size > 0 && a.offset < 0
    ensures PlaceSpan(m, dir, n, true, c, sp, a) == Err(OutOfBounds)
  {
  }

  /**
   * The image data of a member at `offset`: all `len` kept bytes of an icon;
   * those after the two hotspot words of a cursor, four bytes lower; nothing
   * for a cursor of fewer than four bytes.  Gives the new block and the
   * offset the declared size is then added to.
   */
  function PutPayload(m: seq<Byte>, sp: Span, len: nat, isIcon: bool, b: seq<Byte>, offset: int): (r: Result<(seq<Byte>, int)>)
    requires len <= sp.size && sp.offset + sp.size <= |m|
    ensures r.Ok? ==> |r.value.0| == |b|
    ensures r.Err? ==> r.error == OutOfBounds
  {
    if isIcon then
      var b' :- Put(b, offset, m[sp.offset..sp.offset + len]);
      Ok((b', offset))
    else if len >= 4 then
      var b' :- Put(b, offset, m[sp.offset + 4..sp.offset + len]);
      Ok((b', offset - 4))
    else
      Ok((b, offset))
  }

  /** `offset += bytes_in_res`: an `int` plus a `uint32_t`, taken modulo 2^32 and read back as an `int`. */
  function Advance(offset: int, size: nat): (r: int)
    ensures -TwoTo31 <= r < TwoTo31
    ensures -TwoTo31 <= offset + size < TwoTo31 ==> r == offset + size
  {
    Int32(offset + size)
  }

  /** The second pass from member `c` on. */
  function Assemble(m: seq<Byte>, dir: nat, looks: seq<Result<Span>>, isIcon: bool, c: nat, a: Assembly): (r: Result<Assembly>)
    requires EntriesReadable(m, dir, |looks|) && InImage(m, looks) && c <= |looks| && a.skipped <= c
    ensures r.Ok? ==> |r.value.block| == |a.block|
    ensures r.Err? ==> r.error == OutOfBounds || Failing(looks, r.error)
    decreases |looks| - c
  {
    if c == |looks| then Ok(a)
    else
      var next :- PlaceMember(m, dir, looks, isIcon, c, a);
      Assemble(m, dir, looks, isIcon, c + 1, next)
  }

  /** The directory header of the file: reserved and type copied, the count of kept members. */
  function DirHeader(m: seq<Byte>, dir: nat, count: nat): (h: seq<Byte>)
    requires dir + 4 <= |m| && count < TwoTo16
    ensures |h| == GroupHeaderSize
  {
    m[dir..dir + 4] + LE16(count)
  }

  /** `extract_group_icon_cursor_resource`: the `.ico` or `.cur` file rebuilt from a group resource. */
  function GroupFile(lib: Library, wr: WinResource, isIcon: bool): (r: Result<seq<Byte>>)
    ensures r.Err? ==> r.error in {ResNotFound, PrematureEnd, OutOfBounds}
  {
    var group :- GetResourceEntry(lib, wr);
    GroupAt(lib, group, isIcon)
  }

  /** The file rebuilt from the group directory found at `group`: its member count is read first. */
  function GroupAt(lib: Library, group: Span, isIcon: bool): (r: Result<seq<Byte>>)
    ensures r.Err? ==> r.error in {ResNotFound, PrematureEnd, OutOfBounds}
  {
    var m := lib.memory;
    var dir := group.offset;
    if !CheckOffset(|m|, dir + 4, 2) then Err(PrematureEnd)
    else GroupFrom(m, dir, group.size, isIcon, Lookups(lib, dir, isIcon, U16At(m, dir + 4)))
  }

  /** The two passes over the group directory at `dir`, a resource of `groupSize` bytes, given its members' lookups. */
  function GroupFrom(m: seq<Byte>, dir: nat, groupSize: nat, isIcon: bool, looks: seq<Result<Span>>): (r: Result<seq<Byte>>)
    requires EntriesReadable(m, dir, 0) && |looks| < TwoTo16 && InImage(m, looks)
    ensures r.Err? ==> r.error in {PrematureEnd, OutOfBounds} || Failing(looks, r.error)
  {
    var spans :- Members(m, dir, looks, 0);
    MembersReadable(m, dir, looks, spans);
    SecondPass(m, dir, looks, isIcon, GroupSize(groupSize, m, dir, spans, isIcon), |looks| - Skipped(spans))
  }

  /** The block the second pass starts from: `size` zero bytes headed by the directory header for `kept` members. */
  function StartBlock(m: seq<Byte>, dir: nat, size: nat, kept: nat): (a: Assembly)
    requires dir + 4 <= |m| && size >= GroupHeaderSize && kept < TwoTo16
    ensures |a.block| == size && a.offset == GroupHeaderSize + 16 * kept && a.skipped == 0
  {
    Assembly(Overwrite(Zeros(size), 0, DirHeader(m, dir, kept)), GroupHeaderSize + 16 * kept, 0)
  }

  /** The second pass over a file of `size` bytes for `kept` members. */
  function SecondPass(m: seq<Byte>, dir: nat, looks: seq<Result<Span>>, isIcon: bool, size: nat, kept: nat): (r: Result<seq<Byte>>)
    requires EntriesReadable(m, dir, |looks|) && InImage(m, looks) && size >= GroupHeaderSize && kept < TwoTo16
    ensures r.Ok? ==> |r.value| == size
    ensures r.Err? ==> r.error == OutOfBounds || Failing(looks, r.error)
  {
    var a :- Assemble(m, dir, looks, isIcon, 0, StartBlock(m, dir, size, kept));
    Ok(a.block)
  }

  /** Member `c`'s lookup is `find_resource` followed by `get_resource_entry`. */
  lemma LookupAt(lib: Library, dir: nat, isIcon: bool, n: nat, c: nat)
    requires c < n
    ensures Lookups(lib, dir, isIcon, n)[c] == LookupOf(lib, dir, c, isIcon)
  {
  }

  /** `find_resource` for the member of entry `c`, then `get_resource_entry` on what it found. */
  method FindMember(lib: Library, dir: nat, c: nat, isIcon: bool) returns (r: Result<Span>)
    requires GroupEntryAt(dir, c) + GroupEntrySize <= |lib.memory|
    ensures r == MemberLookup(lib, dir, c, isIcon)
  {
    var fwr, level := FindResource(lib, Some(MemberType(isIcon)), Some(MemberName(lib.memory, dir, c)), Some(""));
    if fwr.None? {
      return Err(ResNotFound);
    }
    r := GetResourceEntry(lib, fwr.value);
  }

  /** The first loop of `extract_group_icon_cursor_resource`: check each entry, find its member, add up the room it needs. */
  method SurveyMembers(lib: Library, dir: nat, n: nat, isIcon: bool, groupSize: nat)
    returns (r: Result<(int, nat)>)
    requires EntriesReadable(lib.memory, dir, 0)
    ensures var pass := Members(lib.memory, dir, Lookups(lib, dir, isIcon, n), 0);
      (r.Ok? <==> pass.Ok?) &&
      (r.Err? ==> r.error == pass.error) &&
      (r.Ok? ==> EntriesReadable(lib.memory, dir, n) && |pass.value| == n && r.value.1 == Skipped(pass.value) &&
                 r.value.0 + GroupHeaderSize + 16 * (n - r.value.1) == GroupSize(groupSize, lib.memory, dir, pass.value, isIcon))
  {
    var m := lib.memory;
    ghost var looks := Lookups(lib, dir, isIcon, n);
    var size: int := groupSize;
    var skipped: nat := 0;
    ghost var spans := [];
    PrependNothing(Members(m, dir, looks, 0));
    var c := 0;
    while c < n
      invariant c <= n && |spans| == c && EntriesReadable(m, dir, c)
      invariant Members(m, dir, looks, 0) == Prepend(spans, Members(m, dir, looks, c))
      invariant skipped == Skipped(spans)
      invariant size == groupSize + Claim(m, dir, spans) - (if isIcon then 0 else 4 * (c - skipped))
    {
      if !CheckOffset(|m|, GroupEntryAt(dir, c), GroupEntrySize) {
        return Err(PrematureEnd);
      }
      LookupAt(lib, dir, isIcon, n, c);
      var entry := FindMember(lib, dir, c, isIcon);
      if entry.Err? {
        return Err(entry.error);
      }
      var iconsize := entry.value.size;
      var declared := DeclaredSize(m, dir, c);
      if iconsize == 0 {
        skipped := skipped + 1;
      } else {
        size := size + (if iconsize < declared then declared else iconsize);
        if !isIcon {
          size := size - 4;
        }
      }
      SurveyStep(m, dir, looks, c, spans, entry.value);
      spans := spans + [entry.value];
      c := c + 1;
    }
    assert spans + [] == spans;
    MembersShape(m, dir, looks, 0, spans);
    return Ok((size, skipped));
  }

  /** One more member found: the first pass continues after it, and the counts grow by its share. */
  lemma SurveyStep(m: seq<Byte>, dir: nat, looks: seq<Result<Span>>, c: nat, spans: seq<Span>, sp: Span)
    requires c < |looks| && |spans| == c && CheckOffset(|m|, GroupEntryAt(dir, c), GroupEntrySize)
    requires looks[c] == Ok(sp)
    ensures Prepend(spans, Members(m, dir, looks, c)) == Prepend(spans + [sp], Members(m, dir, looks, c + 1))
    ensures EntriesReadable(m, dir, c + 1)
    ensures Skipped(spans + [sp]) == Skipped(spans) + (if sp.size == 0 then 1 else 0)
    ensures Claim(m, dir, spans + [sp]) ==
      Claim(m, dir, spans) + (if sp.size == 0 then 0 else Max(sp.size, DeclaredSize(m, dir, c)))
  {
    assert (spans + [sp])[..c] == spans;
    PrependAssoc(spans, [sp], Members(m, dir, looks, c + 1));
  }

  /** One member of the second loop of `extract_group_icon_cursor_resource`: find it again, then place it. */
  method PlaceOne(lib: Library, dir: nat, n: nat, isIcon: bool, c: nat, block: array<Byte>, offset: int, skipped: nat)
    returns (err: Option<WresError>, nextOffset: int, nextSkipped: nat)
    requires EntriesReadable(lib.memory, dir, n) && c < n && skipped <= c
    modifies block
    ensures var want := PlaceMember(lib.memory, dir, Lookups(lib, dir, isIcon, n), isIcon, c, Assembly(old(block[..]), offset, skipped));
      (err.None? <==> want.Ok?) &&
      (want.Ok? ==> want.value == Assembly(block[..], nextOffset, nextSkipped)) &&
      (want.Err? ==> err == Some(want.error))
  {
    var m := lib.memory;
    LookupAt(lib, dir, isIcon, n, c);
    var entry := FindMember(lib, dir, c, isIcon);
    if entry.Err? {
      return Some(entry.error), offset, skipped;
    }
    err, nextOffset, nextSkipped := PlaceData(m, dir, n, isIcon, c, entry.value, block, offset, skipped);
  }

  /** Placing one found member: the stores into the file entry, then its data. */
  method PlaceData(m: seq<Byte>, dir: nat, n: nat, isIcon: bool, c: nat, sp: Span, block: array<Byte>, offset: int, skipped: nat)
    returns (err: Option<WresError>, nextOffset: int, nextSkipped: nat)
    requires EntriesReadable(m, dir, n) && c < n && skipped <= c && sp.offset + sp.size <= |m|
    modifies block
    ensures var want := PlaceSpan(m, dir, n, isIcon, c, sp, Assembly(old(block[..]), offset, skipped));
      (err.None? <==> want.Ok?) &&
      (want.Ok? ==> want.value == Assembly(block[..], nextOffset, nextSkipped)) &&
      (want.Err? ==> err == Some(want.error))
  {
    ghost var a := Assembly(block[..], offset, skipped);
    ghost var want := PlaceSpan(m, dir, n, isIcon, c, sp, a);
    if sp.size == 0 {
      assert want == Ok(Assembly(block[..], offset, skipped + 1));
      return None, offset, skipped + 1;
    }
    var k := c - skipped;
    var len := sp.size;
    if len > DeclaredSize(m, dir, k) {
      len := DeclaredSize(m, dir, k);
    }
    assert len == KeptLen(m, dir, sp, k);
    var fe := FileEntry(m, dir, c, sp, len, offset, isIcon);
    var ok := WriteBlock(block, GroupHeaderSize + 16 * k, fe);
    if !ok {
      PlaceSpanKept(m, dir, n, isIcon, c, sp, a);
      assert want == Err(OutOfBounds);
      return Some(OutOfBounds), offset, skipped;
    }
    ghost var b := block[..];
    assert Put(a.block, GroupHeaderSize + 16 * k, fe) == Ok(b);
    ok, nextOffset := WritePayload(m, sp, len, isIcon, block, offset);
    PlaceSpanKept(m, dir, n, isIcon, c, sp, a);
    if !ok {
      assert want == Err(OutOfBounds);
      return Some(OutOfBounds), offset, skipped;
    }
    PlaceSpanPlaced(m, dir, n, isIcon, c, sp, a, k, len, b, block[..], nextOffset);
    nextOffset := Advance(nextOffset, DeclaredSize(m, dir, c));
    assert want == Ok(Assembly(block[..], nextOffset, skipped));
    return None, nextOffset, skipped;
  }

  /** A kept member: the entry write, then the data write, each of which may leave the block. */
  lemma PlaceSpanKept(m: seq<Byte>, dir: nat, n: nat, isIcon: bool, c: nat, sp: Span, a: Assembly)
    requires EntriesReadable(m, dir, n) && c < n && a.skipped <= c && sp.offset + sp.size <= |m| && sp.size > 0
    ensures var k := c - a.skipped;
      var len := KeptLen(m, dir, sp, k);
      var b := Put(a.block, GroupHeaderSize + 16 * k, FileEntry(m, dir, c, sp, len, a.offset, isIcon));
      PlaceSpan(m, dir, n, isIcon, c, sp, a).Err? <==>
        b.Err? || PutPayload(m, sp, len, isIcon, b.value, a.offset).Err?
  {
  }

  /** Both writes of a kept member done: the new state is the data write's block and offset. */
  lemma PlaceSpanPlaced(m: seq<Byte>, dir: nat, n: nat, isIcon: bool, c: nat, sp: Span, a: Assembly,
                        k: nat, len: nat, b: seq<Byte>, b2: seq<Byte>, offset2: int)
    requires EntriesReadable(m, dir, n) && c < n && a.skipped <= c && sp.offset + sp.size <= |m| && sp.size > 0
    requires k == c - a.skipped && len == KeptLen(m, dir, sp, k)
    requires Put(a.block, GroupHeaderSize + 16 * k, FileEntry(m, dir, c, sp, len, a.offset, isIcon)) == Ok(b)
    requires PutPayload(m, sp, len, isIcon, b, a.offset) == Ok((b2, offset2))
    ensures PlaceSpan(m, dir, n, isIcon, c, sp, a) == Ok(Assembly(b2, Advance(offset2, DeclaredSize(m, dir, c)), a.skipped))
  {
  }

  /** The data stores of one member, and the offset moved back over a cursor's hotspot words. */
  method WritePayload(m: seq<Byte>, sp: Span, len: nat, isIcon: bool, block: array<Byte>, offset: int)
    returns (ok: bool, nextOffset: int)
    requires len <= sp.size && sp.offset + sp.size <= |m|
    modifies block
    ensures PutPayload(m, sp, len, isIcon, old(block[..]), offset) ==
      if ok then Ok((block[..], nextOffset)) else Err(OutOfBounds)
  {
    ok, nextOffset := true, offset;
    if isIcon {
      ok := WriteBlock(block, offset, m[sp.offset..sp.offset + len]);
    } else if len >= 4 {
      ok := WriteBlock(block, offset, m[sp.offset + 4..sp.offset + len]);
      nextOffset := offset - 4;
    }
  }

  /** The second loop of `extract_group_icon_cursor_resource`. */
  method PlaceMembers(lib: Library, dir: nat, n: nat, isIcon: bool, block: array<Byte>, start: int)
    returns (err: Option<WresError>, ghost endOffset: int, ghost endSkipped: nat)
    requires EntriesReadable(lib.memory, dir, n)
    modifies block
    ensures Assemble(lib.memory, dir, Lookups(lib, dir, isIcon, n), isIcon, 0, Assembly(old(block[..]), start, 0)) ==
      if err.None? then Ok(Assembly(block[..], endOffset, endSkipped)) else Err(err.value)
  {
    ghost var looks := Lookups(lib, dir, isIcon, n);
    var offset: int, skipped: nat := start, 0;
    for c := 0 to n
      invariant skipped <= c
      invariant Assemble(lib.memory, dir, looks, isIcon, 0, Assembly(old(block[..]), start, 0)) ==
        Assemble(lib.memory, dir, looks, isIcon, c, Assembly(block[..], offset, skipped))
    {
      var e;
      e, offset, skipped := PlaceOne(lib, dir, n, isIcon, c, block, offset, skipped);
      if e.Some? {
        return e, offset, skipped;
      }
    }
    return None, offset, skipped;
  }

  /** The three header stores: reserved and type copied, the count of kept members. */
  method WriteDirHeader(memory: array<Byte>, m: seq<Byte>, dir: nat, count: nat)
    requires dir + 4 <= |m| && count < TwoTo16 && memory.Length >= GroupHeaderSize
    modifies memory
    ensures memory[..] == Overwrite(old(memory[..]), 0, DirHeader(m, dir, count))
  {
    var stored := LE16(count);
    memory[0], memory[1] := m[dir], m[dir + 1];
    memory[2], memory[3] := m[dir + 2], m[dir + 3];
    memory[4], memory[5] := stored[0], stored[1];
    assert memory[..] == Overwrite(old(memory[..]), 0, DirHeader(m, dir, count));
  }

  /** `extract_group_icon_cursor_resource`: find the group directory, then build the file from it. */
  method ExtractGroupIconCursorResource(lib: Library, wr: WinResource, isIcon: bool) returns (r: Result<seq<Byte>>)
    ensures r == GroupFile(lib, wr, isIcon)
  {
    var entry := GetResourceEntry(lib, wr);
    if entry.Err? {
      return Err(entry.error);
    }
    r := ExtractGroupAt(lib, entry.value, isIcon);
  }

  /** The member count is read from the found group directory, then the file is built. */
  method ExtractGroupAt(lib: Library, group: Span, isIcon: bool) returns (r: Result<seq<Byte>>)
    ensures r == GroupAt(lib, group, isIcon)
  {
    var m := lib.memory;
    var dir := group.offset;
    if !CheckOffset(|m|, dir + 4, 2) {
      r := Err(PrematureEnd);
    } else {
      GroupAtDirectory(lib, group, isIcon);
      r := BuildGroupFile(lib, dir, group.size, U16At(m, dir + 4), isIcon);
    }
  }

  /** Once the count is readable, the group file is the two passes over the entries it counts. */
  lemma GroupAtDirectory(lib: Library, group: Span, isIcon: bool)
    requires CheckOffset(|lib.memory|, group.offset + 4, 2)
    ensures GroupAt(lib, group, isIcon) ==
      GroupFrom(lib.memory, group.offset, group.size, isIcon, Lookups(lib, group.offset, isIcon, U16At(lib.memory, group.offset + 4)))
  {
    var m, dir := lib.memory, group.offset;
    var looks := Lookups(lib, dir, isIcon, U16At(m, dir + 4));
    assert EntriesReadable(m, dir, 0) && |looks| < TwoTo16 && InImage(m, looks);
    assert GroupAt(lib, group, isIcon) == GroupFrom(m, dir, group.size, isIcon, looks);
  }

  /** A failed first pass is the outcome of `GroupFrom`. */
  lemma GroupFromFails(m: seq<Byte>, dir: nat, groupSize: nat, isIcon: bool, looks: seq<Result<Span>>)
    requires EntriesReadable(m, dir, 0) && |looks| < TwoTo16 && InImage(m, looks)
    requires Members(m, dir, looks, 0).Err?
    ensures GroupFrom(m, dir, groupSize, isIcon, looks) == Err(Members(m, dir, looks, 0).error)
  {
  }

  /** After a successful first pass, `GroupFrom` is the second pass over the block of `size` bytes headed for `kept` members. */
  lemma GroupFromSteps(m: seq<Byte>, dir: nat, groupSize: nat, isIcon: bool, looks: seq<Result<Span>>, size: int, kept: nat)
    requires EntriesReadable(m, dir, |looks|) && |looks| < TwoTo16 && InImage(m, looks)
    requires Members(m, dir, looks, 0).Ok?
    requires size == GroupSize(groupSize, m, dir, Members(m, dir, looks, 0).value, isIcon)
    requires kept == |looks| - Skipped(Members(m, dir, looks, 0).value)
    ensures size >= GroupHeaderSize && kept < TwoTo16
    ensures GroupFrom(m, dir, groupSize, isIcon, looks) == SecondPass(m, dir, looks, isIcon, size, kept)
  {
    var spans := Members(m, dir, looks, 0).value;
    MembersShape(m, dir, looks, 0, spans);
    assert Members(m, dir, looks, 0) == Ok(spans);
    assert kept <= |looks| && size >= GroupHeaderSize;
    assert GroupFrom(m, dir, groupSize, isIcon, looks) ==
      SecondPass(m, dir, looks, isIcon, GroupSize(groupSize, m, dir, spans, isIcon), |looks| - Skipped(spans));
  }

  /** Size the file, allocate it, write its header, then place the members. */
  method BuildGroupFile(lib: Library, dir: nat, groupSize: nat, n: nat, isIcon: bool) returns (r: Result<seq<Byte>>)
    requires EntriesReadable(lib.memory, dir, 0) && n < TwoTo16
    ensures r == GroupFrom(lib.memory, dir, groupSize, isIcon, Lookups(lib, dir, isIcon, n))
  {
    var survey := SurveyMembers(lib, dir, n, isIcon, groupSize);
    if survey.Err? {
      GroupFromFails(lib.memory, dir, groupSize, isIcon, Lookups(lib, dir, isIcon, n));
      return Err(survey.error);
    }
    var skipped := survey.value.1;
    r := BuildSized(lib, dir, groupSize, n, isIcon, survey.value.0 + GroupHeaderSize + 16 * (n - skipped), n - skipped);
  }

  /** The file once the first pass has given its size and the number of kept members. */
  method BuildSized(lib: Library, dir: nat, groupSize: nat, n: nat, isIcon: bool, size: int, kept: nat) returns (r: Result<seq<Byte>>)
    requires EntriesReadable(lib.memory, dir, n) && n < TwoTo16
    requires Members(lib.memory, dir, Lookups(lib, dir, isIcon, n), 0).Ok?
    requires size == GroupSize(groupSize, lib.memory, dir, Members(lib.memory, dir, Lookups(lib, dir, isIcon, n), 0).value, isIcon)
    requires kept == n - Skipped(Members(lib.memory, dir, Lookups(lib, dir, isIcon, n), 0).value)
    ensures r == GroupFrom(lib.memory, dir, groupSize, isIcon, Lookups(lib, dir, isIcon, n))
  {
    GroupFromSteps(lib.memory, dir, groupSize, isIcon, Lookups(lib, dir, isIcon, n), size, kept);
    r := LayOut(lib, dir, n, isIcon, size, kept);
  }

  /** The file of `size` bytes with its header for `kept` members, and the members placed after the entries. */
  method LayOut(lib: Library, dir: nat, n: nat, isIcon: bool, size: nat, kept: nat) returns (r: Result<seq<Byte>>)
    requires EntriesReadable(lib.memory, dir, n) && size >= GroupHeaderSize && kept < TwoTo16
    ensures r == SecondPass(lib.memory, dir, Lookups(lib, dir, isIcon, n), isIcon, size, kept)
  {
    ghost var start := StartBlock(lib.memory, dir, size, kept);
    ghost var want := Assemble(lib.memory, dir, Lookups(lib, dir, isIcon, n), isIcon, 0, start);
    assert SecondPass(lib.memory, dir, Lookups(lib, dir, isIcon, n), isIcon, size, kept) ==
      if want.Err? then Err(want.error) else Ok(want.value.block);
    var memory := new Byte[size](_ => 0);
    assert memory[..] == Zeros(size);
    WriteDirHeader(memory, lib.memory, dir, kept);
    assert memory[..] == start.block;
    assert start == Assembly(memory[..], GroupHeaderSize + 16 * kept, 0);
    var err, endOffset, endSkipped := PlaceMembers(lib, dir, n, isIcon, memory, GroupHeaderSize + 16 * kept);
    assert want == if err.None? then Ok(Assembly(memory[..], endOffset, endSkipped)) else Err(err.value);
    if err.Some? {
      return Err(err.value);
    }
    return Ok(memory[..]);
  }

  // ---------------------------------------------------------------- choosing the conversion

  /** What `extract_resource` hands back: the bytes, and whether they are a new block the caller must free. */
  datatype Extracted = Extracted(data: seq<Byte>, owned: bool)

  /** `STRIP_RES_ID_FORMAT`: one leading `-` or `+` is dropped. */
  function StripFormat(s: string): string
  {
    if |s| > 0 && (s[0] == '-' || s[0] == '+') then s[1..] else s
  }

  /** The type number a type argument names, read by `parse_int32` once its sign is stripped. */
  function TypeNumber(typ: Option<string>): Option<int>
  {
    if typ.None? then None else SignedValue(StripFormat(typ.value), Int32Min, Int32Max)
  }

  /** The bytes of a resource entry, where they lie in the image. */
  function RawData(lib: Library, wr: WinResource): (r: Result<seq<Byte>>)
    ensures r.Ok? <==> GetResourceEntry(lib, wr).Ok?
    ensures r.Ok? ==> exists sp :: GetResourceEntry(lib, wr) == Ok(sp) && r.value == lib.memory[sp.offset..sp.offset + sp.size]
  {
    var sp :- GetResourceEntry(lib, wr);
    Ok(lib.memory[sp.offset..sp.offset + sp.size])
  }

  function Handed(d: Result<seq<Byte>>, owned: bool): Result<Extracted>
  {
    if d.Err? then Err(d.error) else Ok(Extracted(d.value, owned))
  }

  /**
   * `extract_resource`: raw data is the entry itself; otherwise a bitmap, an
   * icon group or a cursor group is rebuilt into a new block, version
   * information is the entry itself, and any other type is refused.
   */
  function Extraction(lib: Library, wr: WinResource, typ: Option<string>, raw: bool): (r: Result<Extracted>)
  {
    if raw then Handed(RawData(lib, wr), false)
    else
      var t := TypeNumber(typ);
      if t == Some(RtBitmap) then Handed(Bitmap(lib, wr), true)
      else if t == Some(RtGroupIcon) then Handed(GroupFile(lib, wr, true), true)
      else if t == Some(RtGroupCursor) then Handed(GroupFile(lib, wr, false), true)
      else if t == Some(RtVersion) then Handed(RawData(lib, wr), false)
      else Err(UnsupportedResType)
  }

  /** `extract_resource`, step by step: the raw case, the type argument parsed, then one of the four conversions. */
  method ExtractResource(lib: Library, wr: WinResource, typ: Option<string>, raw: bool) returns (r: Result<Extracted>)
    ensures r == Extraction(lib, wr, typ, raw)
  {
    if raw {
      return Handed(RawData(lib, wr), false);
    }
    if typ.Some? {
      var parsed, intval := ParseInt32(StripFormat(typ.value), 0);
      if parsed {
        if intval == RtBitmap {
          var d := ExtractBitmapResource(lib, wr);
          return Handed(d, true);
        }
        if intval == RtGroupIcon {
          var d := ExtractGroupIconCursorResource(lib, wr, true);
          return Handed(d, true);
        }
        if intval == RtGroupCursor {
          var d := ExtractGroupIconCursorResource(lib, wr, false);
          return Handed(d, true);
        }
        if intval == RtVersion {
          return Handed(RawData(lib, wr), false);
        }
      }
    }
    return Err(UnsupportedResType);
  }

  /** Only a type other than the four known ones is refused as unsupported; the conversions fail only on the image. */
  lemma UnsupportedExactly(lib: Library, wr: WinResource, typ: Option<string>, raw: bool)
    ensures Extraction(lib, wr, typ, raw) == Err(UnsupportedResType) <==>
      !raw && TypeNumber(typ) !in {Some(RtBitmap), Some(RtGroupIcon), Some(RtGroupCursor), Some(RtVersion)}
  {
  }

  /** A new block is handed out exactly for a converted bitmap or group; raw data and version information point into the image. */
  lemma OwnedExactly(lib: Library, wr: WinResource, typ: Option<string>, raw: bool)
    requires Extraction(lib, wr, typ, raw).Ok?
    ensures Extraction(lib, wr, typ, raw).value.owned <==>
      !raw && TypeNumber(typ) in {Some(RtBitmap), Some(RtGroupIcon), Some(RtGroupCursor)}
    ensures !Extraction(lib, wr, typ, raw).value.owned ==>
      Extraction(lib, wr, typ, raw).value.data == RawData(lib, wr).value
  {
  }

  /** A sign in front of the type number is ignored. */
  lemma SignIgnored(s: string, sign: char)
    requires sign == '-' || sign == '+'
    requires |s| == 0 || (s[0] != '-' && s[0] != '+')
    ensures TypeNumber(Some([sign] + s)) == TypeNumber(Some(s))
  {
    assert ([sign] + s)[1..] == s;
  }

  // ---------------------------------------------------------------- properties of the group file

  /** The file entry ends with the declared size copied from the group entry and the image offset, narrowed to 32 bits. */
  lemma FileEntryOffset(m: seq<Byte>, dir: nat, c: nat, sp: Span, len: nat, offset: int, isIcon: bool)
    requires GroupEntryAt(dir, c) + GroupEntrySize <= |m| && sp.offset + sp.size <= |m| && len <= sp.size
    ensures var src := GroupEntryAt(dir, c);
      FileEntry(m, dir, c, sp, len, offset, isIcon)[8..] == m[src + 8..src + 12] + LE32(Wrap32(offset))
  {
    var src, d := GroupEntryAt(dir, c), sp.offset;
    var copied: seq<Byte> := m[src..src + 12] + LE32(Wrap32(offset));
    var tail := m[src + 8..src + 12] + LE32(Wrap32(offset));
    assert copied[8..] == tail;
    var shaped: seq<Byte> :=
      if sp.size < InfoHeaderSize then copied
      else if m[d..d + 8] != PngSignature then copied[0 := Low8(I32At(m, d + 4))][1 := Low8(CDiv(I32At(m, d + 8), 2))]
      else Set16(copied[2 := 0], 6, 32);
    if sp.size >= InfoHeaderSize && m[d..d + 8] == PngSignature {
      Set16KeepsFrom(copied[2 := 0], 6, 32, 8);
    }
    assert shaped[8..] == tail;
    var typed: seq<Byte> := if isIcon then shaped else shaped[2 := 0][3 := 0];
    assert typed[8..] == tail;
    if !isIcon && len >= 4 {
      Set16KeepsFrom(typed, 4, U16At(m, d), 8);
      Set16KeepsFrom(Set16(typed, 4, U16At(m, d)), 6, U16At(m, d + 2), 8);
    }
  }

  /**
   * An icon's file entry: the group entry's first twelve bytes, except that
   * a DIB image of 40 bytes or more gives the width and half the height
   * (narrowed to a byte), and a PNG image clears the colour count and
   * sets the bit count to 32.
   */
  lemma IconFileEntry(m: seq<Byte>, dir: nat, c: nat, sp: Span, len: nat, offset: int)
    requires GroupEntryAt(dir, c) + GroupEntrySize <= |m| && sp.offset + sp.size <= |m| && len <= sp.size
    ensures var e, src, d := FileEntry(m, dir, c, sp, len, offset, true), GroupEntryAt(dir, c), sp.offset;
      (sp.size < InfoHeaderSize ==> e[..12] == m[src..src + 12]) &&
      (sp.size >= InfoHeaderSize && m[d..d + 8] != PngSignature ==>
         e[0] == Low8(I32At(m, d + 4)) && e[1] == Low8(CDiv(I32At(m, d + 8), 2)) && e[2..12] == m[src + 2..src + 12]) &&
      (sp.size >= InfoHeaderSize && m[d..d + 8] == PngSignature ==>
         e[..2] == m[src..src + 2] && e[2] == 0 && e[3..6] == m[src + 3..src + 6] && U16At(e, 6) == 32 && e[8..12] == m[src + 8..src + 12])
  {
    var e, src, d := FileEntry(m, dir, c, sp, len, offset, true), GroupEntryAt(dir, c), sp.offset;
    var copied: seq<Byte> := m[src..src + 12] + LE32(Wrap32(offset));
    if sp.size < InfoHeaderSize {
      assert e[..12] == copied[..12];
    } else if m[d..d + 8] != PngSignature {
      assert e[2..12] == copied[2..12];
    } else {
      PngFileEntry(m, dir, c, sp, len, offset);
    }
  }

  /** The PNG case of `IconFileEntry`. */
  lemma PngFileEntry(m: seq<Byte>, dir: nat, c: nat, sp: Span, len: nat, offset: int)
    requires GroupEntryAt(dir, c) + GroupEntrySize <= |m| && sp.offset + sp.size <= |m| && len <= sp.size
    requires sp.size >= InfoHeaderSize && m[sp.offset..sp.offset + 8] == PngSignature
    ensures var e, src := FileEntry(m, dir, c, sp, len, offset, true), GroupEntryAt(dir, c);
      e[..2] == m[src..src + 2] && e[2] == 0 && e[3..6] == m[src + 3..src + 6] && U16At(e, 6) == 32 && e[8..12] == m[src + 8..src + 12]
  {
    var e, src := FileEntry(m, dir, c, sp, len, offset, true), GroupEntryAt(dir, c);
    var copied: seq<Byte> := m[src..src + 12] + LE32(Wrap32(offset));
    assert e == Set16(copied[2 := 0], 6, 32);
    Set16Shape(copied[2 := 0], 6, 32);
    assert e[..6] == copied[2 := 0][..6];
    assert e[..2] == copied[..2] && e[3..6] == copied[3..6];
    var head := m[src..src + 12];
    assert copied[..12] == head;
    assert copied[..2] == head[..2] == m[src..src + 2];
    assert copied[3..6] == head[3..6] == m[src + 3..src + 6];
    assert e[8..12] == copied[8..12] == head[8..12] == m[src + 8..src + 12];
  }

  /**
   * A cursor's file entry: colour count and reserved byte cleared, and when
   * the image holds its two hotspot words, those words as the hotspot.
   */
  lemma CursorFileEntry(m: seq<Byte>, dir: nat, c: nat, sp: Span, len: nat, offset: int)
    requires GroupEntryAt(dir, c) + GroupEntrySize <= |m| && sp.offset + sp.size <= |m| && len <= sp.size
    ensures var e, d := FileEntry(m, dir, c, sp, len, offset, false), sp.offset;
      e[2] == 0 && e[3] == 0 &&
      (len >= 4 ==> U16At(e, 4) == U16At(m, d) && U16At(e, 6) == U16At(m, d + 2))
  {
    var e, d := FileEntry(m, dir, c, sp, len, offset, false), sp.offset;
    if len >= 4 {
      var src := GroupEntryAt(dir, c);
      var copied: seq<Byte> := m[src..src + 12] + LE32(Wrap32(offset));
      var shaped: seq<Byte> :=
        if sp.size < InfoHeaderSize then copied
        else if m[d..d + 8] != PngSignature then copied[0 := Low8(I32At(m, d + 4))][1 := Low8(CDiv(I32At(m, d + 8), 2))]
        else Set16(copied[2 := 0], 6, 32);
      var typed := shaped[2 := 0][3 := 0];
      var t1 := Set16(typed, 4, U16At(m, d));
      Set16Shape(typed, 4, U16At(m, d));
      Set16Shape(t1, 6, U16At(m, d + 2));
      assert e[..6] == t1[..6];
      assert e[4] == t1[4] && e[5] == t1[5];
      assert e[2] == t1[2] == typed[2] && e[3] == t1[3] == typed[3];
    }
  }

  /** The spans of the first `c + 1` members: one more skipped if member `c` is empty, its claim added otherwise. */
  lemma PrefixStep(m: seq<Byte>, dir: nat, spans: seq<Span>, c: nat)
    requires c < |spans| && EntriesReadable(m, dir, |spans|)
    ensures Skipped(spans[..c + 1]) == Skipped(spans[..c]) + (if spans[c].size == 0 then 1 else 0)
    ensures Claim(m, dir, spans[..c + 1]) ==
      Claim(m, dir, spans[..c]) + (if spans[c].size == 0 then 0 else Max(spans[c].size, DeclaredSize(m, dir, c)))
  {
    assert spans[..c + 1][..c] == spans[..c];
  }

  /** Members kept and room claimed only grow along the directory. */
  lemma {:induction false} PrefixBounds(m: seq<Byte>, dir: nat, spans: seq<Span>, c: nat)
    requires c <= |spans| && EntriesReadable(m, dir, |spans|)
    ensures c - Skipped(spans[..c]) <= |spans| - Skipped(spans)
    ensures Claim(m, dir, spans[..c]) <= Claim(m, dir, spans)
    decreases |spans| - c
  {
    if c == |spans| {
      assert spans[..c] == spans;
    } else {
      PrefixStep(m, dir, spans, c);
      PrefixBounds(m, dir, spans, c + 1);
    }
  }

  /**
   * Placing one member fits: its entry slot lies before `base`, the end of
   * the entries, and its data within the claimed room; the offset stays
   * at least `base` less four per member placed and at most `base` plus
   * the room claimed so far, as long as that stays below 2^31 so that the
   * `int` offset does not wrap.
   */
  lemma PlaceSpanFits(m: seq<Byte>, dir: nat, n: nat, isIcon: bool, c: nat, sp: Span, a: Assembly,
                      kept: nat, claim: nat, grow: nat)
    requires EntriesReadable(m, dir, n) && c < n && a.skipped <= c && sp.offset + sp.size <= |m|
    requires grow == if sp.size == 0 then 0 else Max(sp.size, DeclaredSize(m, dir, c))
    requires sp.size > 0 ==> c - a.skipped < kept
    requires GroupHeaderSize + 16 * kept - 4 * (c - a.skipped) <= a.offset <= GroupHeaderSize + 16 * kept + claim
    requires |a.block| >= GroupHeaderSize + 16 * kept + claim + grow && GroupHeaderSize + 16 * kept + claim + grow < TwoTo31
    ensures var r := PlaceSpan(m, dir, n, isIcon, c, sp, a);
      r.Ok? && r.value.skipped == a.skipped + (if sp.size == 0 then 1 else 0) &&
      GroupHeaderSize + 16 * kept - 4 * (c + 1 - r.value.skipped) <= r.value.offset &&
      r.value.offset <= GroupHeaderSize + 16 * kept + claim + grow
  {
    if sp.size > 0 {
      var k := c - a.skipped;
      var len := KeptLen(m, dir, sp, k);
      assert GroupHeaderSize + 16 * k + FileEntrySize <= GroupHeaderSize + 16 * kept;
      var b := Overwrite(a.block, GroupHeaderSize + 16 * k, FileEntry(m, dir, c, sp, len, a.offset, isIcon));
      assert Put(a.block, GroupHeaderSize + 16 * k, FileEntry(m, dir, c, sp, len, a.offset, isIcon)) == Ok(b);
      PayloadFits(m, sp, len, isIcon, b, a.offset);
      var placed := PutPayload(m, sp, len, isIcon, b, a.offset).value;
      PlaceSpanPlaced(m, dir, n, isIcon, c, sp, a, k, len, b, placed.0, placed.1);
      assert DeclaredSize(m, dir, c) <= grow;
      assert Advance(placed.1, DeclaredSize(m, dir, c)) == placed.1 + DeclaredSize(m, dir, c);
    }
  }

  /** The data of a member fits when the block holds `size` bytes from a non-negative offset (four more for a cursor's words). */
  lemma PayloadFits(m: seq<Byte>, sp: Span, len: nat, isIcon: bool, b: seq<Byte>, offset: int)
    requires len <= sp.size && sp.offset + sp.size <= |m|
    requires 4 <= offset && offset + sp.size <= |b|
    ensures var r := PutPayload(m, sp, len, isIcon, b, offset);
      r.Ok? && r.value.1 == offset - (if !isIcon && len >= 4 then 4 else 0)
  {
  }

  /** The second pass from member `c` on succeeds while the offset keeps within the bounds of `PlaceSpanFits`. */
  lemma {:induction false} AssembleFits(m: seq<Byte>, dir: nat, looks: seq<Result<Span>>, isIcon: bool, spans: seq<Span>,
                                        c: nat, a: Assembly)
    requires EntriesReadable(m, dir, |looks|) && InImage(m, looks) && c <= |looks| && |spans| == |looks|
    requires forall j :: 0 <= j < |looks| ==> looks[j] == Ok(spans[j])
    requires |a.block| >= ClaimEnd(m, dir, spans) && ClaimEnd(m, dir, spans) < TwoTo31
    requires a.skipped == Skipped(spans[..c])
    requires GroupHeaderSize + 16 * (|looks| - Skipped(spans)) - 4 * (c - a.skipped) <= a.offset
    requires a.offset <= GroupHeaderSize + 16 * (|looks| - Skipped(spans)) + Claim(m, dir, spans[..c])
    ensures Assemble(m, dir, looks, isIcon, c, a).Ok?
    decreases |looks| - c
  {
    if c < |looks| {
      var kept := |looks| - Skipped(spans);
      PrefixStep(m, dir, spans, c);
      PrefixBounds(m, dir, spans, c + 1);
      PlaceSpanFits(m, dir, |looks|, isIcon, c, spans[c], a, kept, Claim(m, dir, spans[..c]),
                    if spans[c].size == 0 then 0 else Max(spans[c].size, DeclaredSize(m, dir, c)));
      var next := PlaceSpan(m, dir, |looks|, isIcon, c, spans[c], a).value;
      assert PlaceMember(m, dir, looks, isIcon, c, a) == Ok(next);
      AssembleFits(m, dir, looks, isIcon, spans, c + 1, next);
    }
  }

  /**
   * Once every member is found, the claimed room ends below 2^31, so every
   * offset of the second pass is its exact value as an `int`.
   */
  predicate OffsetsFit(m: seq<Byte>, dir: nat, looks: seq<Result<Span>>)
    requires EntriesReadable(m, dir, 0) && Members(m, dir, looks, 0).Ok?
  {
    MembersReadable(m, dir, looks, Members(m, dir, looks, 0).value);
    ClaimEnd(m, dir, Members(m, dir, looks, 0).value) < TwoTo31
  }

  /**
   * Once every member is found and the claimed room ends below 2^31, the
   * file is built: always for an icon group, and for a cursor group whose resource is at least four bytes
   * per kept member (the sizing subtracts four per cursor from it).
   */
  lemma GroupFits(m: seq<Byte>, dir: nat, groupSize: nat, isIcon: bool, looks: seq<Result<Span>>)
    requires EntriesReadable(m, dir, 0) && |looks| < TwoTo16 && InImage(m, looks)
    requires Members(m, dir, looks, 0).Ok? && OffsetsFit(m, dir, looks)
    requires isIcon || 4 * (|looks| - Skipped(Members(m, dir, looks, 0).value)) <= groupSize
    ensures GroupFrom(m, dir, groupSize, isIcon, looks).Ok?
  {
    var spans := Members(m, dir, looks, 0).value;
    MembersShape(m, dir, looks, 0, spans);
    var kept := |looks| - Skipped(spans);
    var size := GroupSize(groupSize, m, dir, spans, isIcon);
    StartFits(m, dir, looks, isIcon, spans, groupSize, size, kept);
    GroupFromSteps(m, dir, groupSize, isIcon, looks, size, kept);
  }

  /** The second pass gets through from the freshly headed block of the sized file. */
  lemma StartFits(m: seq<Byte>, dir: nat, looks: seq<Result<Span>>, isIcon: bool, spans: seq<Span>,
                  groupSize: nat, size: int, kept: nat)
    requires EntriesReadable(m, dir, |looks|) && |looks| < TwoTo16 && InImage(m, looks) && |spans| == |looks|
    requires forall j :: 0 <= j < |looks| ==> looks[j] == Ok(spans[j])
    requires kept == |looks| - Skipped(spans) && size == GroupSize(groupSize, m, dir, spans, isIcon)
    requires isIcon || 4 * kept <= groupSize
    requires ClaimEnd(m, dir, spans) < TwoTo31
    ensures size >= GroupHeaderSize
    ensures kept < TwoTo16 && SecondPass(m, dir, looks, isIcon, size, kept).Ok?
  {
    var a := StartBlock(m, dir, size, kept);
    assert spans[..0] == [];
    AssembleFits(m, dir, looks, isIcon, spans, 0, a);
  }

  /** The first loop of `extract_group_icon_cursor_resource` gets through: the count is readable and every member is found. */
  predicate MembersFound(lib: Library, wr: WinResource, isIcon: bool)
  {
    var g := GetResourceEntry(lib, wr);
    g.Ok? && CheckOffset(|lib.memory|, g.value.offset + 4, 2) &&
    Members(lib.memory, g.value.offset, Lookups(lib, g.value.offset, isIcon, U16At(lib.memory, g.value.offset + 4)), 0).Ok?
  }

  /** Every member is found and the room they claim ends below 2^31. */
  predicate Buildable(lib: Library, wr: WinResource, isIcon: bool)
  {
    MembersFound(lib, wr, isIcon) &&
    var g := GetResourceEntry(lib, wr).value;
    OffsetsFit(lib.memory, g.offset, Lookups(lib, g.offset, isIcon, U16At(lib.memory, g.offset + 4)))
  }

  /**
   * The group file is built only when every member is found, and then,
   * while the claimed room ends below 2^31, always for icons and for
   * cursors when the group resource holds at least four bytes per member.
   */
  lemma GroupFileBuilt(lib: Library, wr: WinResource, isIcon: bool)
    ensures GroupFile(lib, wr, isIcon).Ok? ==> MembersFound(lib, wr, isIcon)
    ensures (Buildable(lib, wr, isIcon) &&
             (isIcon || 4 * U16At(lib.memory, GetResourceEntry(lib, wr).value.offset + 4) <= GetResourceEntry(lib, wr).value.size))
      ==> GroupFile(lib, wr, isIcon).Ok?
    ensures Buildable(lib, wr, true) ==> GroupFile(lib, wr, true).Ok?
  {
    GroupFileNeedsMembers(lib, wr, isIcon);
    if Buildable(lib, wr, isIcon) &&
       (isIcon || 4 * U16At(lib.memory, GetResourceEntry(lib, wr).value.offset + 4) <= GetResourceEntry(lib, wr).value.size) {
      GroupFileFromMembers(lib, wr, isIcon);
    }
    if Buildable(lib, wr, true) {
      GroupFileFromMembers(lib, wr, true);
    }
  }

  /** A group file that is built had every member found. */
  lemma GroupFileNeedsMembers(lib: Library, wr: WinResource, isIcon: bool)
    ensures GroupFile(lib, wr, isIcon).Ok? ==> MembersFound(lib, wr, isIcon)
  {
    var g := GetResourceEntry(lib, wr);
    if g.Ok? && CheckOffset(|lib.memory|, g.value.offset + 4, 2) {
      assert GroupFile(lib, wr, isIcon) == GroupAt(lib, g.value, isIcon);
      GroupAtBuilt(lib, g.value, isIcon);
    }
  }

  /** A group whose members are all found within the room below 2^31 is built, for cursors when it leaves 4 bytes per member. */
  lemma GroupFileFromMembers(lib: Library, wr: WinResource, isIcon: bool)
    requires Buildable(lib, wr, isIcon)
    requires isIcon || 4 * U16At(lib.memory, GetResourceEntry(lib, wr).value.offset + 4) <= GetResourceEntry(lib, wr).value.size
    ensures GroupFile(lib, wr, isIcon).Ok?
  {
    var g := GetResourceEntry(lib, wr).value;
    assert GroupFile(lib, wr, isIcon) == GroupAt(lib, g, isIcon);
    GroupAtBuilt(lib, g, isIcon);
  }

  /** `GroupFileBuilt` for the group directory found at `group`, once its count is readable. */
  lemma GroupAtBuilt(lib: Library, group: Span, isIcon: bool)
    requires CheckOffset(|lib.memory|, group.offset + 4, 2)
    ensures var looks := Lookups(lib, group.offset, isIcon, U16At(lib.memory, group.offset + 4));
      (GroupAt(lib, group, isIcon).Ok? ==> Members(lib.memory, group.offset, looks, 0).Ok?) &&
      ((Members(lib.memory, group.offset, looks, 0).Ok? && OffsetsFit(lib.memory, group.offset, looks) &&
        (isIcon || 4 * U16At(lib.memory, group.offset + 4) <= group.size))
        ==> GroupAt(lib, group, isIcon).Ok?)
  {
    GroupAtDirectory(lib, group, isIcon);
    var m, dir := lib.memory, group.offset;
    var n := U16At(m, dir + 4);
    var looks := Lookups(lib, dir, isIcon, n);
    if Members(m, dir, looks, 0).Err? {
      GroupFromFails(m, dir, group.size, isIcon, looks);
    } else if OffsetsFit(m, dir, looks) && (isIcon || 4 * n <= group.size) {
      MembersShape(m, dir, looks, 0, Members(m, dir, looks, 0).value);
      GroupFits(m, dir, group.size, isIcon, looks);
    }
  }

  /** A write at or after `k` keeps the first `k` bytes. */
  lemma PutKeepsPrefix(b: seq<Byte>, at: int, bytes: seq<Byte>, k: nat)
    requires k <= at && Put(b, at, bytes).Ok?
    ensures k <= |b| && Put(b, at, bytes).value[..k] == b[..k]
  {
    OverwriteShape(b, at, bytes);
    assert Put(b, at, bytes).value[..k] == b[..k];
  }

  /**
   * Placing one member leaves the directory header alone and keeps the
   * offset's bounds of `PlaceSpanFits`, while the claimed room ends below
   * 2^31.
   */
  lemma PlaceSpanKeeps(m: seq<Byte>, dir: nat, n: nat, isIcon: bool, c: nat, sp: Span, a: Assembly,
                       kept: nat, claim: nat, grow: nat)
    requires EntriesReadable(m, dir, n) && c < n && a.skipped <= c && sp.offset + sp.size <= |m|
    requires grow == if sp.size == 0 then 0 else Max(sp.size, DeclaredSize(m, dir, c))
    requires sp.size > 0 ==> c - a.skipped < kept
    requires GroupHeaderSize + 16 * kept - 4 * (c - a.skipped) <= a.offset && GroupHeaderSize <= |a.block|
    requires a.offset <= GroupHeaderSize + 16 * kept + claim && GroupHeaderSize + 16 * kept + claim + grow < TwoTo31
    ensures var r := PlaceSpan(m, dir, n, isIcon, c, sp, a);
      r.Ok? ==>
        r.value.block[..GroupHeaderSize] == a.block[..GroupHeaderSize] &&
        r.value.skipped == a.skipped + (if sp.size == 0 then 1 else 0) &&
        GroupHeaderSize + 16 * kept - 4 * (c + 1 - r.value.skipped) <= r.value.offset &&
        r.value.offset <= GroupHeaderSize + 16 * kept + claim + grow
  {
    if sp.size > 0 && PlaceSpan(m, dir, n, isIcon, c, sp, a).Ok? {
      var k := c - a.skipped;
      var len := KeptLen(m, dir, sp, k);
      var e := FileEntry(m, dir, c, sp, len, a.offset, isIcon);
      PlaceSpanKept(m, dir, n, isIcon, c, sp, a);
      PutKeepsPrefix(a.block, GroupHeaderSize + 16 * k, e, GroupHeaderSize);
      assert Put(a.block, GroupHeaderSize + 16 * k, e).Ok?;
      var b := Put(a.block, GroupHeaderSize + 16 * k, e).value;
      assert PutPayload(m, sp, len, isIcon, b, a.offset).Ok?;
      var placed := PutPayload(m, sp, len, isIcon, b, a.offset).value;
      PayloadKeeps(m, sp, len, isIcon, b, a.offset);
      PlaceSpanPlaced(m, dir, n, isIcon, c, sp, a, k, len, b, placed.0, placed.1);
      assert a.offset - 4 <= placed.1 <= a.offset;
      assert DeclaredSize(m, dir, c) <= grow;
      assert Advance(placed.1, DeclaredSize(m, dir, c)) == placed.1 + DeclaredSize(m, dir, c);
      var r := PlaceSpan(m, dir, n, isIcon, c, sp, a).value;
      assert r.offset == placed.1 + DeclaredSize(m, dir, c) && r.block == placed.0;
    }
  }

  /** The data of a member written at an offset of six or more leaves the directory header alone. */
  lemma PayloadKeeps(m: seq<Byte>, sp: Span, len: nat, isIcon: bool, b: seq<Byte>, offset: int)
    requires len <= sp.size && sp.offset + sp.size <= |m| && GroupHeaderSize <= offset && GroupHeaderSize <= |b|
    requires PutPayload(m, sp, len, isIcon, b, offset).Ok?
    ensures var r := PutPayload(m, sp, len, isIcon, b, offset).value;
      r.0[..GroupHeaderSize] == b[..GroupHeaderSize] &&
      r.1 == offset - (if !isIcon && len >= 4 then 4 else 0)
  {
    if isIcon {
      PutKeepsPrefix(b, offset, m[sp.offset..sp.offset + len], GroupHeaderSize);
    } else if len >= 4 {
      var data := m[sp.offset + 4..sp.offset + len];
      PutKeepsPrefix(b, offset, data, GroupHeaderSize);
    }
  }

  /** The second pass from member `c` on leaves the directory header alone. */
  lemma {:induction false} AssembleKeeps(m: seq<Byte>, dir: nat, looks: seq<Result<Span>>, isIcon: bool, spans: seq<Span>,
                                         c: nat, a: Assembly)
    requires EntriesReadable(m, dir, |looks|) && InImage(m, looks) && c <= |looks| && |spans| == |looks|
    requires forall j :: 0 <= j < |looks| ==> looks[j] == Ok(spans[j])
    requires GroupHeaderSize <= |a.block| && a.skipped == Skipped(spans[..c])
    requires GroupHeaderSize + 16 * (|looks| - Skipped(spans)) - 4 * (c - a.skipped) <= a.offset
    requires a.offset <= GroupHeaderSize + 16 * (|looks| - Skipped(spans)) + Claim(m, dir, spans[..c])
    requires ClaimEnd(m, dir, spans) < TwoTo31
    ensures var r := Assemble(m, dir, looks, isIcon, c, a);
      r.Ok? ==> r.value.block[..GroupHeaderSize] == a.block[..GroupHeaderSize]
    decreases |looks| - c
  {
    if c < |looks| && Assemble(m, dir, looks, isIcon, c, a).Ok? {
      var kept := |looks| - Skipped(spans);
      PrefixStep(m, dir, spans, c);
      PrefixBounds(m, dir, spans, c + 1);
      PlaceSpanKeeps(m, dir, |looks|, isIcon, c, spans[c], a, kept, Claim(m, dir, spans[..c]),
                     if spans[c].size == 0 then 0 else Max(spans[c].size, DeclaredSize(m, dir, c)));
      assert PlaceMember(m, dir, looks, isIcon, c, a) == PlaceSpan(m, dir, |looks|, isIcon, c, spans[c], a);
      var next := PlaceSpan(m, dir, |looks|, isIcon, c, spans[c], a).value;
      AssembleKeeps(m, dir, looks, isIcon, spans, c + 1, next);
    }
  }

  /**
   * A built group file has the size the first pass computed and, while
   * the claimed room ends below 2^31, starts with the group's reserved and
   * type words followed by the count of members kept.
   */
  lemma GroupHeader(m: seq<Byte>, dir: nat, groupSize: nat, isIcon: bool, looks: seq<Result<Span>>)
    requires EntriesReadable(m, dir, 0) && |looks| < TwoTo16 && InImage(m, looks)
    requires GroupFrom(m, dir, groupSize, isIcon, looks).Ok?
    requires Members(m, dir, looks, 0).Ok? && OffsetsFit(m, dir, looks)
    ensures Members(m, dir, looks, 0).Ok? && |Members(m, dir, looks, 0).value| == |looks| && EntriesReadable(m, dir, |looks|)
    ensures var spans, out := Members(m, dir, looks, 0).value, GroupFrom(m, dir, groupSize, isIcon, looks).value;
      |out| == GroupSize(groupSize, m, dir, spans, isIcon) && out[..4] == m[dir..dir + 4] &&
      U16At(out, 4) == |looks| - Skipped(spans)
  {
    var spans := Members(m, dir, looks, 0).value;
    MembersShape(m, dir, looks, 0, spans);
    assert ClaimEnd(m, dir, spans) < TwoTo31;
    var size, kept := GroupSize(groupSize, m, dir, spans, isIcon), |looks| - Skipped(spans);
    GroupFromSteps(m, dir, groupSize, isIcon, looks, size, kept);
    assert forall j :: 0 <= j < |looks| ==> looks[j] == Ok(spans[j - 0]);
    SecondPassHeader(m, dir, looks, isIcon, spans, size, kept);
  }

  /** The file is built only after a successful first pass. */
  lemma GroupFromMembers(m: seq<Byte>, dir: nat, groupSize: nat, isIcon: bool, looks: seq<Result<Span>>)
    requires EntriesReadable(m, dir, 0) && |looks| < TwoTo16 && InImage(m, looks)
    requires GroupFrom(m, dir, groupSize, isIcon, looks).Ok?
    ensures Members(m, dir, looks, 0).Ok?
  {
  }

  /** A second pass that gets through keeps the directory header of its start block. */
  lemma SecondPassHeader(m: seq<Byte>, dir: nat, looks: seq<Result<Span>>, isIcon: bool, spans: seq<Span>, size: nat, kept: nat)
    requires EntriesReadable(m, dir, |looks|) && InImage(m, looks) && |spans| == |looks| && |looks| < TwoTo16
    requires forall j :: 0 <= j < |looks| ==> looks[j] == Ok(spans[j])
    requires kept == |looks| - Skipped(spans) && size >= GroupHeaderSize
    requires SecondPass(m, dir, looks, isIcon, size, kept).Ok? && ClaimEnd(m, dir, spans) < TwoTo31
    ensures var out := SecondPass(m, dir, looks, isIcon, size, kept).value;
      out[..4] == m[dir..dir + 4] && U16At(out, 4) == kept
  {
    var h := DirHeader(m, dir, kept);
    var start := StartBlock(m, dir, size, kept);
    OverwriteShape(Zeros(size), 0, h);
    assert start.block[..GroupHeaderSize] == h;
    assert spans[..0] == [];
    AssembleKeeps(m, dir, looks, isIcon, spans, 0, start);
    var out := SecondPass(m, dir, looks, isIcon, size, kept).value;
    assert out[..GroupHeaderSize] == h;
    assert out[..4] == h[..4];
    assert U16At(out, 4) == U16At(h, 4);
  }

  // The layout of a rebuilt file whose members are all non-empty.

  /** Every member is non-empty, so none is skipped. */
  predicate NoneEmpty(spans: seq<Span>)
  {
    forall j :: 0 <= j < |spans| ==> spans[j].size > 0
  }

  /** Every span lies in the image. */
  predicate SpansInImage(m: seq<Byte>, spans: seq<Span>)
  {
    forall j :: 0 <= j < |spans| ==> spans[j].offset + spans[j].size <= |m|
  }

  /** The bytes by which the offset falls back after a member: the four hotspot bytes of a cursor of at least four bytes. */
  function Hotspot(isIcon: bool, len: nat): nat
  {
    if !isIcon && len >= 4 then 4 else 0
  }

  /**
   * The bytes of a member that reach the file when `len` are kept: all of
   * an icon's, those after the two hotspot words of a cursor, none of a
   * cursor shorter than four bytes.
   */
  function ImageBytes(m: seq<Byte>, sp: Span, len: nat, isIcon: bool): (d: seq<Byte>)
    requires len <= sp.size && sp.offset + sp.size <= |m|
    ensures |d| + Hotspot(isIcon, len) <= len
  {
    if isIcon then m[sp.offset..sp.offset + len]
    else if len >= 4 then m[sp.offset + 4..sp.offset + len]
    else []
  }

  /** How far the offset moves on past member `j`: its declared size less its hotspot bytes, never less than the data placed. */
  function Strides(m: seq<Byte>, dir: nat, spans: seq<Span>, isIcon: bool): (s: seq<nat>)
    requires EntriesReadable(m, dir, |spans|) && SpansInImage(m, spans)
    ensures |s| == |spans|
    ensures forall j :: 0 <= j < |spans| ==> |ImageBytes(m, spans[j], KeptLen(m, dir, spans[j], j), isIcon)| <= s[j]
  {
    seq(|spans|, j requires 0 <= j < |spans| => DeclaredSize(m, dir, j) - Hotspot(isIcon, KeptLen(m, dir, spans[j], j)))
  }

  /** The offsets `base`, then each stride further on. */
  function Chain(base: int, strides: seq<nat>, j: nat): (o: int)
    requires j <= |strides|
    ensures base <= o
  {
    if j == 0 then base else Chain(base, strides, j - 1) + strides[j - 1]
  }

  /**
   * Where the data of member `j` goes when no member is skipped and no
   * offset wraps: past the entries of all members, then each member's
   * stride further on.
   */
  function ImageOffset(m: seq<Byte>, dir: nat, spans: seq<Span>, isIcon: bool, j: nat): (o: int)
    requires j <= |spans| && EntriesReadable(m, dir, |spans|) && SpansInImage(m, spans)
    ensures GroupHeaderSize + 16 * |spans| <= o
  {
    Chain(GroupHeaderSize + 16 * |spans|, Strides(m, dir, spans, isIcon), j)
  }

  /** The file entry of member `j` is in its slot, recording the member's offset. */
  predicate EntryPlaced(out: seq<Byte>, m: seq<Byte>, dir: nat, spans: seq<Span>, isIcon: bool, j: nat)
    requires j < |spans| && EntriesReadable(m, dir, |spans|) && SpansInImage(m, spans)
  {
    var at := GroupHeaderSize + 16 * j;
    at + FileEntrySize <= |out| &&
    out[at..at + FileEntrySize] ==
      FileEntry(m, dir, j, spans[j], KeptLen(m, dir, spans[j], j), ImageOffset(m, dir, spans, isIcon, j), isIcon)
  }

  /** The data of member `j` is at the offset its entry records. */
  predicate DataPlaced(out: seq<Byte>, m: seq<Byte>, dir: nat, spans: seq<Span>, isIcon: bool, j: nat)
    requires j < |spans| && EntriesReadable(m, dir, |spans|) && SpansInImage(m, spans)
  {
    var o, d := ImageOffset(m, dir, spans, isIcon, j), ImageBytes(m, spans[j], KeptLen(m, dir, spans[j], j), isIcon);
    d == [] || (o + |d| <= |out| && out[o..o + |d|] == d)
  }

  /** Members `0` to `c - 1` are in place in `out`. */
  predicate Placed(out: seq<Byte>, m: seq<Byte>, dir: nat, spans: seq<Span>, isIcon: bool, c: nat)
    requires c <= |spans| && EntriesReadable(m, dir, |spans|) && SpansInImage(m, spans)
  {
    forall j :: 0 <= j < c ==> EntryPlaced(out, m, dir, spans, isIcon, j) && DataPlaced(out, m, dir, spans, isIcon, j)
  }

  /** With no member empty, none is skipped. */
  lemma {:induction false} NothingSkipped(spans: seq<Span>)
    requires NoneEmpty(spans)
    ensures Skipped(spans) == 0
  {
    if spans != [] {
      var init := spans[..|spans| - 1];
      assert forall j :: 0 <= j < |init| ==> init[j] == spans[j];
      NothingSkipped(init);
    }
  }

  /** Each offset of the chain is at or past the previous one and its stride. */
  lemma {:induction false} ChainBefore(base: int, strides: seq<nat>, j: nat, c: nat)
    requires j < c <= |strides|
    ensures Chain(base, strides, j) + strides[j] <= Chain(base, strides, c)
    decreases c
  {
    if c > j + 1 {
      ChainBefore(base, strides, j, c - 1);
    }
  }

  /** The data of member `j` ends at or before the offset of every later member. */
  lemma OffsetsBefore(m: seq<Byte>, dir: nat, spans: seq<Span>, isIcon: bool, j: nat, c: nat)
    requires j < c <= |spans| && EntriesReadable(m, dir, |spans|) && SpansInImage(m, spans)
    ensures ImageOffset(m, dir, spans, isIcon, j) + |ImageBytes(m, spans[j], KeptLen(m, dir, spans[j], j), isIcon)|
      <= ImageOffset(m, dir, spans, isIcon, c)
  {
    var strides := Strides(m, dir, spans, isIcon);
    var base := GroupHeaderSize + 16 * |spans|;
    assert ImageOffset(m, dir, spans, isIcon, j) == Chain(base, strides, j);
    assert ImageOffset(m, dir, spans, isIcon, c) == Chain(base, strides, c);
    ChainBefore(base, strides, j, c);
    assert |ImageBytes(m, spans[j], KeptLen(m, dir, spans[j], j), isIcon)| <= strides[j];
  }

  /** With no member empty, the offset of member `c` is within the room the first `c` members claim. */
  lemma {:induction false} OffsetClaimed(m: seq<Byte>, dir: nat, spans: seq<Span>, isIcon: bool, c: nat)
    requires c <= |spans| && EntriesReadable(m, dir, |spans|) && SpansInImage(m, spans) && NoneEmpty(spans)
    ensures ImageOffset(m, dir, spans, isIcon, c) <= GroupHeaderSize + 16 * |spans| + Claim(m, dir, spans[..c])
    decreases c
  {
    if c == 0 {
      assert spans[..c] == [];
    } else {
      OffsetClaimed(m, dir, spans, isIcon, c - 1);
      PrefixStep(m, dir, spans, c - 1);
      assert Strides(m, dir, spans, isIcon)[c - 1] <= DeclaredSize(m, dir, c - 1);
    }
  }

  /** A write that ends before `lo` or starts at `hi` or later leaves `b[lo..hi]` alone. */
  lemma OverwriteKeeps(b: seq<Byte>, at: nat, bytes: seq<Byte>, lo: nat, hi: nat)
    requires at + |bytes| <= |b| && lo <= hi <= |b|
    requires hi <= at || at + |bytes| <= lo
    ensures Overwrite(b, at, bytes)[lo..hi] == b[lo..hi]
  {
    OverwriteShape(b, at, bytes);
    var r := Overwrite(b, at, bytes);
    assert forall i :: 0 <= i < hi - lo ==> r[lo..hi][i] == r[lo + i];
  }

  /**
   * A write past the entries of members `0` to `c - 1` that either stays
   * within the entry slots or starts past their data leaves them in place.
   */
  lemma PlacedKept(out: seq<Byte>, at: nat, bytes: seq<Byte>, m: seq<Byte>, dir: nat, spans: seq<Span>, isIcon: bool, c: nat,
                   r: seq<Byte>)
    requires c <= |spans| && EntriesReadable(m, dir, |spans|) && SpansInImage(m, spans)
    requires Placed(out, m, dir, spans, isIcon, c) && at + |bytes| <= |out|
    requires GroupHeaderSize + 16 * c <= at
    requires at + |bytes| <= GroupHeaderSize + 16 * |spans| || ImageOffset(m, dir, spans, isIcon, c) <= at
    requires r == Overwrite(out, at, bytes)
    ensures Placed(r, m, dir, spans, isIcon, c)
  {
    forall j | 0 <= j < c
      ensures EntryPlaced(r, m, dir, spans, isIcon, j) && DataPlaced(r, m, dir, spans, isIcon, j)
    {
      EntryKept(out, at, bytes, m, dir, spans, isIcon, j, r);
      DataKept(out, at, bytes, m, dir, spans, isIcon, c, j, r);
    }
  }

  /** A write at or past the slot after member `j`'s leaves its entry in place. */
  lemma EntryKept(out: seq<Byte>, at: nat, bytes: seq<Byte>, m: seq<Byte>, dir: nat, spans: seq<Span>, isIcon: bool, j: nat,
                  r: seq<Byte>)
    requires j < |spans| && EntriesReadable(m, dir, |spans|) && SpansInImage(m, spans)
    requires EntryPlaced(out, m, dir, spans, isIcon, j) && at + |bytes| <= |out|
    requires GroupHeaderSize + 16 * (j + 1) <= at && r == Overwrite(out, at, bytes)
    ensures EntryPlaced(r, m, dir, spans, isIcon, j)
  {
    var e := GroupHeaderSize + 16 * j;
    OverwriteKeeps(out, at, bytes, e, e + FileEntrySize);
  }

  /** A write within the entry slots or past the offset of member `c` leaves the data of member `j < c` in place. */
  lemma DataKept(out: seq<Byte>, at: nat, bytes: seq<Byte>, m: seq<Byte>, dir: nat, spans: seq<Span>, isIcon: bool,
                 c: nat, j: nat, r: seq<Byte>)
    requires j < c <= |spans| && EntriesReadable(m, dir, |spans|) && SpansInImage(m, spans)
    requires DataPlaced(out, m, dir, spans, isIcon, j) && at + |bytes| <= |out|
    requires at + |bytes| <= GroupHeaderSize + 16 * |spans| || ImageOffset(m, dir, spans, isIcon, c) <= at
    requires r == Overwrite(out, at, bytes)
    ensures DataPlaced(r, m, dir, spans, isIcon, j)
  {
    var o, d := ImageOffset(m, dir, spans, isIcon, j), ImageBytes(m, spans[j], KeptLen(m, dir, spans[j], j), isIcon);
    if d != [] {
      OffsetsBefore(m, dir, spans, isIcon, j, c);
      OverwriteKeeps(out, at, bytes, o, o + |d|);
    }
  }

  /**
   * With nothing skipped so far and the offset where the layout puts it,
   * placing non-empty member `c` puts its entry in slot `c` and its data
   * at its offset, keeps the members before it, and moves the offset on to
   * that of member `c + 1`, when that is below 2^31.
   */
  lemma PlaceSpanLayout(m: seq<Byte>, dir: nat, n: nat, isIcon: bool, spans: seq<Span>, c: nat, a: Assembly)
    requires EntriesReadable(m, dir, n) && c < n == |spans| && SpansInImage(m, spans) && spans[c].size > 0
    requires a.skipped == 0 && a.offset == ImageOffset(m, dir, spans, isIcon, c)
    requires ImageOffset(m, dir, spans, isIcon, c + 1) < TwoTo31
    requires Placed(a.block, m, dir, spans, isIcon, c)
    requires PlaceSpan(m, dir, n, isIcon, c, spans[c], a).Ok?
    ensures var r := PlaceSpan(m, dir, n, isIcon, c, spans[c], a).value;
      r.skipped == 0 && r.offset == ImageOffset(m, dir, spans, isIcon, c + 1) &&
      Placed(r.block, m, dir, spans, isIcon, c + 1)
  {
    var sp, k := spans[c], c - a.skipped;
    assert k == c;
    var len := KeptLen(m, dir, sp, c);
    var at := GroupHeaderSize + 16 * k;
    var e := FileEntry(m, dir, c, sp, len, a.offset, isIcon);
    PlaceSpanKept(m, dir, n, isIcon, c, sp, a);
    var b := Overwrite(a.block, at, e);
    assert Put(a.block, at, e) == Ok(b);
    EntryStep(a.block, m, dir, spans, isIcon, c, b);
    var placed := PutPayload(m, sp, len, isIcon, b, a.offset).value;
    PlaceSpanPlaced(m, dir, n, isIcon, c, sp, a, k, len, b, placed.0, placed.1);
    DataStep(b, m, dir, spans, isIcon, c, placed.0);
    PayloadKeeps(m, sp, len, isIcon, b, a.offset);
    var strides := Strides(m, dir, spans, isIcon);
    assert strides[c] == DeclaredSize(m, dir, c) - Hotspot(isIcon, len);
    assert ImageOffset(m, dir, spans, isIcon, c + 1) == a.offset + strides[c];
  }

  /** Writing the file entry of member `c` to slot `c` puts it in place and keeps the members before it. */
  lemma EntryStep(block: seq<Byte>, m: seq<Byte>, dir: nat, spans: seq<Span>, isIcon: bool, c: nat, b: seq<Byte>)
    requires c < |spans| && EntriesReadable(m, dir, |spans|) && SpansInImage(m, spans)
    requires Placed(block, m, dir, spans, isIcon, c) && GroupHeaderSize + 16 * c + FileEntrySize <= |block|
    requires b == Overwrite(block, GroupHeaderSize + 16 * c,
      FileEntry(m, dir, c, spans[c], KeptLen(m, dir, spans[c], c), ImageOffset(m, dir, spans, isIcon, c), isIcon))
    ensures Placed(b, m, dir, spans, isIcon, c)
    ensures EntryPlaced(b, m, dir, spans, isIcon, c)
  {
    var at := GroupHeaderSize + 16 * c;
    var e := FileEntry(m, dir, c, spans[c], KeptLen(m, dir, spans[c], c), ImageOffset(m, dir, spans, isIcon, c), isIcon);
    PlacedKept(block, at, e, m, dir, spans, isIcon, c, b);
    OverwriteShape(block, at, e);
  }

  /**
   * Writing the data of member `c` at its offset, as `PutPayload` does,
   * puts it in place and keeps its entry and the members before it.
   */
  lemma DataStep(b: seq<Byte>, m: seq<Byte>, dir: nat, spans: seq<Span>, isIcon: bool, c: nat, out: seq<Byte>)
    requires c < |spans| && EntriesReadable(m, dir, |spans|) && SpansInImage(m, spans)
    requires Placed(b, m, dir, spans, isIcon, c) && EntryPlaced(b, m, dir, spans, isIcon, c)
    requires var len, o := KeptLen(m, dir, spans[c], c), ImageOffset(m, dir, spans, isIcon, c);
      PutPayload(m, spans[c], len, isIcon, b, o).Ok? && out == PutPayload(m, spans[c], len, isIcon, b, o).value.0
    ensures Placed(out, m, dir, spans, isIcon, c + 1)
  {
    var len, o := KeptLen(m, dir, spans[c], c), ImageOffset(m, dir, spans, isIcon, c);
    var d := ImageBytes(m, spans[c], len, isIcon);
    var at := GroupHeaderSize + 16 * c;
    if isIcon || len >= 4 {
      assert out == Overwrite(b, o, d);
      PlacedKept(b, o, d, m, dir, spans, isIcon, c, out);
      OverwriteKeeps(b, o, d, at, at + FileEntrySize);
      OverwriteShape(b, o, d);
    } else {
      assert out == b && d == [];
    }
    assert EntryPlaced(out, m, dir, spans, isIcon, c) && DataPlaced(out, m, dir, spans, isIcon, c);
    PlacedExtend(out, m, dir, spans, isIcon, c);
  }

  /** Members `0` to `c - 1` in place and member `c` in place make members `0` to `c` in place. */
  lemma PlacedExtend(out: seq<Byte>, m: seq<Byte>, dir: nat, spans: seq<Span>, isIcon: bool, c: nat)
    requires c < |spans| && EntriesReadable(m, dir, |spans|) && SpansInImage(m, spans)
    requires Placed(out, m, dir, spans, isIcon, c)
    requires EntryPlaced(out, m, dir, spans, isIcon, c) && DataPlaced(out, m, dir, spans, isIcon, c)
    ensures Placed(out, m, dir, spans, isIcon, c + 1)
  {
  }

  /**
   * From member `c` on, with nothing skipped and the members before it in
   * place, a second pass that gets through puts every member in place.
   */
  lemma {:induction false} AssembleLayout(m: seq<Byte>, dir: nat, looks: seq<Result<Span>>, isIcon: bool,
                                          spans: seq<Span>, c: nat, a: Assembly)
    requires EntriesReadable(m, dir, |looks|) && InImage(m, looks) && c <= |looks| && |spans| == |looks|
    requires forall j :: 0 <= j < |looks| ==> looks[j] == Ok(spans[j])
    requires SpansInImage(m, spans) && NoneEmpty(spans) && ClaimEnd(m, dir, spans) < TwoTo31
    requires a.skipped == 0 && a.offset == ImageOffset(m, dir, spans, isIcon, c)
    requires Placed(a.block, m, dir, spans, isIcon, c)
    requires Assemble(m, dir, looks, isIcon, c, a).Ok?
    ensures Placed(Assemble(m, dir, looks, isIcon, c, a).value.block, m, dir, spans, isIcon, |looks|)
    decreases |looks| - c
  {
    if c < |looks| {
      NothingSkipped(spans);
      OffsetClaimed(m, dir, spans, isIcon, c + 1);
      PrefixBounds(m, dir, spans, c + 1);
      assert ImageOffset(m, dir, spans, isIcon, c + 1) < TwoTo31;
      assert PlaceMember(m, dir, looks, isIcon, c, a) == PlaceSpan(m, dir, |looks|, isIcon, c, spans[c], a);
      var next := PlaceSpan(m, dir, |looks|, isIcon, c, spans[c], a).value;
      assert Assemble(m, dir, looks, isIcon, c, a) == Assemble(m, dir, looks, isIcon, c + 1, next);
      PlaceSpanLayout(m, dir, |looks|, isIcon, spans, c, a);
      AssembleLayout(m, dir, looks, isIcon, spans, c + 1, next);
    }
  }

  /**
   * A built group file whose members are all non-empty and whose claimed
   * room ends below 2^31 holds, for every member `j`, its file entry in
   * slot `j` and its data, cut to the declared size, at the offset that
   * entry records: just past the entries for the first member, then each
   * member's declared size further on, less a cursor's hotspot bytes.
   */
  lemma GroupLayout(m: seq<Byte>, dir: nat, groupSize: nat, isIcon: bool, looks: seq<Result<Span>>)
    requires EntriesReadable(m, dir, 0) && |looks| < TwoTo16 && InImage(m, looks)
    requires GroupFrom(m, dir, groupSize, isIcon, looks).Ok?
    requires Members(m, dir, looks, 0).Ok? && OffsetsFit(m, dir, looks) && NoneEmpty(Members(m, dir, looks, 0).value)
    ensures Members(m, dir, looks, 0).Ok? && |Members(m, dir, looks, 0).value| == |looks| && EntriesReadable(m, dir, |looks|)
    ensures SpansInImage(m, Members(m, dir, looks, 0).value)
    ensures Placed(GroupFrom(m, dir, groupSize, isIcon, looks).value, m, dir, Members(m, dir, looks, 0).value, isIcon, |looks|)
  {
    var spans := Members(m, dir, looks, 0).value;
    MembersShape(m, dir, looks, 0, spans);
    assert forall j :: 0 <= j < |looks| ==> looks[j] == Ok(spans[j - 0]);
    SpansFound(m, looks, spans);
    NothingSkipped(spans);
    var size := GroupSize(groupSize, m, dir, spans, isIcon);
    GroupFromSteps(m, dir, groupSize, isIcon, looks, size, |looks|);
    SecondPassLayout(m, dir, looks, isIcon, spans, size);
  }

  /** The spans the lookups gave lie in the image. */
  lemma SpansFound(m: seq<Byte>, looks: seq<Result<Span>>, spans: seq<Span>)
    requires InImage(m, looks) && |spans| == |looks|
    requires forall j :: 0 <= j < |looks| ==> looks[j] == Ok(spans[j])
    ensures SpansInImage(m, spans)
  {
    forall j | 0 <= j < |spans|
      ensures spans[j].offset + spans[j].size <= |m|
    {
      assert looks[j] == Ok(spans[j]);
    }
  }

  /** `GroupLayout` for the second pass over a block of `size` bytes headed for all the members. */
  lemma SecondPassLayout(m: seq<Byte>, dir: nat, looks: seq<Result<Span>>, isIcon: bool, spans: seq<Span>, size: nat)
    requires EntriesReadable(m, dir, |looks|) && InImage(m, looks) && |spans| == |looks| && |looks| < TwoTo16
    requires forall j :: 0 <= j < |looks| ==> looks[j] == Ok(spans[j])
    requires SpansInImage(m, spans) && NoneEmpty(spans) && ClaimEnd(m, dir, spans) < TwoTo31 && size >= GroupHeaderSize
    requires SecondPass(m, dir, looks, isIcon, size, |looks|).Ok?
    ensures Placed(SecondPass(m, dir, looks, isIcon, size, |looks|).value, m, dir, spans, isIcon, |looks|)
  {
    var start := StartBlock(m, dir, size, |looks|);
    assert start.offset == ImageOffset(m, dir, spans, isIcon, 0);
    AssembleLayout(m, dir, looks, isIcon, spans, 0, start);
  }

  /**
   * The entry in slot `j` of a file laid out this way records the size
   * entry `j` declares and, below 2^31, the exact offset of its data.
   */
  lemma EntryFields(out: seq<Byte>, m: seq<Byte>, dir: nat, spans: seq<Span>, isIcon: bool, j: nat)
    requires j < |spans| && EntriesReadable(m, dir, |spans|) && SpansInImage(m, spans)
    requires EntryPlaced(out, m, dir, spans, isIcon, j) && ImageOffset(m, dir, spans, isIcon, j) < TwoTo31
    ensures var at := GroupHeaderSize + 16 * j;
      U32At(out, at + 8) == DeclaredSize(m, dir, j) && U32At(out, at + 12) == ImageOffset(m, dir, spans, isIcon, j)
  {
    var at, o := GroupHeaderSize + 16 * j, ImageOffset(m, dir, spans, isIcon, j);
    var len := KeptLen(m, dir, spans[j], j);
    var e := FileEntry(m, dir, j, spans[j], len, o, isIcon);
    FileEntryOffset(m, dir, j, spans[j], len, o, isIcon);
    var src := GroupEntryAt(dir, j);
    var tail := e[8..];
    assert tail[..4] == m[src + 8..src + 12] && tail[4..] == LE32(o);
    assert out[at..at + FileEntrySize][8..] == tail;
    WordsAgree(out, at + 8, tail, 0);
    WordsAgree(out, at + 12, tail, 4);
    WordsAgree(tail, 0, m, src + 8);
    WordsAgree(tail, 4, LE32(o), 0);
    DeclaredSizeAt(m, dir, j);
  }

  /** `bytes_in_res` of entry `c` is the 32-bit word eight bytes into it. */
  lemma DeclaredSizeAt(m: seq<Byte>, dir: nat, c: nat)
    requires GroupEntryAt(dir, c) + GroupEntrySize <= |m|
    ensures DeclaredSize(m, dir, c) == U32At(m, GroupEntryAt(dir, c) + 8)
  {
  }

  /** Equal four-byte runs hold equal 32-bit values. */
  lemma WordsAgree(s: seq<Byte>, i: nat, t: seq<Byte>, k: nat)
    requires i + 4 <= |s| && k + 4 <= |t| && s[i..i + 4] == t[k..k + 4]
    ensures U32At(s, i) == U32At(t, k)
  {
    assert s[i] == s[i..i + 4][0] && t[k] == t[k..k + 4][0];
    assert s[i + 1] == s[i..i + 4][1] && t[k + 1] == t[k..k + 4][1];
    assert s[i + 2] == s[i..i + 4][2] && t[k + 2] == t[k..k + 4][2];
    assert s[i + 3] == s[i..i + 4][3] && t[k + 3] == t[k..k + 4][3];
  }
}
