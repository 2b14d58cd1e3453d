/**
 * `read_library`: recognising an MZ, NE or PE image, laying out the sections
 * of a PE image at their virtual addresses, and locating the resource root.
 */
module Loader {
  import opened Bytes
  import opened Wres
  import opened FileRead
  import opened ResTable

  const DosHeaderSize: nat := 64           // sizeof (DOSImageHeader)
  const LfanewAt: nat := 60                // DOSImageHeader.lfanew
  const MzSignature: nat := 0x5A4D         // IMAGE_DOS_SIGNATURE
  const NeSignature: nat := 0x454E         // IMAGE_OS2_SIGNATURE
  const PeSignature: nat := 0x4550         // IMAGE_NT_SIGNATURE
  const Pe32PlusMagic: nat := 0x20B        // OPTIONAL_MAGIC_PE32_64
  const SectionHeaderSize: nat := 40       // Win32ImageSectionHeader
  const UninitializedData: nat := 0x80     // IMAGE_SCN_CNT_UNINITIALIZED_DATA
  const DataDirectorySize: nat := 8        // Win32ImageDataDirectory

  // Offsets from the start of the NE header.
  const NeRsrctabAt: nat := 36
  const NeRestabAt: nat := 38

  // Offsets from the start of the PE header: file header fields, the optional
  // header, and the resource entry of the data directory in each layout.
  const NumberOfSectionsAt: nat := 6
  const SizeOfOptionalHeaderAt: nat := 20
  const OptionalHeaderAt: nat := 24
  const ResourceDirPe32At: nat := 136      // 24 + 96 + 2 * 8
  const ResourceDirPe32PlusAt: nat := 152  // 24 + 112 + 2 * 8

  // Offsets within a section header.
  const VirtualSizeAt: nat := 8
  const VirtualAddressAt: nat := 12
  const SizeOfRawDataAt: nat := 16
  const PointerToRawDataAt: nat := 20
  const CharacteristicsAt: nat := 36

  // ---------------------------------------------------------------- calc_vma_size

  /** The offset of the section table: `PE_SECTIONS`, read from the image as it currently is. */
  function SectionTable(m: seq<Byte>): (r: Result<nat>)
    ensures r.Err? ==> r.error == OutOfBounds
  {
    var lfanew :- PeekU32(m, LfanewAt);
    var optSize :- PeekU16(m, lfanew + SizeOfOptionalHeaderAt);
    Ok(lfanew + OptionalHeaderAt + optSize)
  }

  /** The offset of section header `c` of the table at `seg`. */
  function SectionAt(seg: nat, c: nat): nat
  {
    seg + 40 * c
  }

  /** The larger of a C `int` and an unsigned value, compared as `MAX` compares them: unsigned. */
  function UMax(a: int, b: nat): nat
  {
    if Wrap32(a) > b then Wrap32(a) else b
  }

  /** How far section `c` reaches: the 32-bit sums of its address with its raw size and with its virtual size, whichever is larger. */
  function SectionEnd(m: seq<Byte>, seg: nat, c: nat): (e: nat)
    requires SectionAt(seg, c) + SectionHeaderSize <= |m|
    ensures e < TwoTo32
  {
    var s := SectionAt(seg, c);
    var va := U32At(m, s + VirtualAddressAt);
    UMax(Wrap32(va + U32At(m, s + SizeOfRawDataAt)), Wrap32(va + U32At(m, s + VirtualSizeAt)))
  }

  /** The largest end among the first `n` sections, 0 for none. */
  function MaxEnd(m: seq<Byte>, seg: nat, n: nat): (e: nat)
    requires SectionAt(seg, n) <= |m|
    ensures e < TwoTo32
  {
    if n == 0 then 0 else UMax(MaxEnd(m, seg, n - 1), SectionEnd(m, seg, n - 1))
  }

  /** `MaxEnd` bounds every section's end and is the end of one of them. */
  lemma {:induction false} MaxEndIsMax(m: seq<Byte>, seg: nat, n: nat)
    requires SectionAt(seg, n) <= |m|
    ensures forall c :: 0 <= c < n ==> SectionEnd(m, seg, c) <= MaxEnd(m, seg, n)
    ensures n > 0 ==> exists c :: 0 <= c < n && SectionEnd(m, seg, c) == MaxEnd(m, seg, n)
  {
    if n > 0 {
      MaxEndIsMax(m, seg, n - 1);
      if n - 1 > 0 && MaxEnd(m, seg, n) != SectionEnd(m, seg, n - 1) {
        var c :| 0 <= c < n - 1 && SectionEnd(m, seg, c) == MaxEnd(m, seg, n - 1);
        assert SectionEnd(m, seg, c) == MaxEnd(m, seg, n);
      }
    }
  }

  /**
   * `calc_vma_size`: -1 when the section count or the first section header
   * fails its check, the image size (as an `int`) when there are no
   * sections, 0 when a later section header fails its check, and otherwise
   * the largest section end read as an `int`.
   */
  function VmaSize(m: seq<Byte>): (r: Result<int>)
    ensures r.Err? ==> r.error == OutOfBounds
  {
    var lfanew :- PeekU32(m, LfanewAt);
    if !CheckOffset(|m|, lfanew + NumberOfSectionsAt, 2) then Ok(-1)
    else
      var n := U16At(m, lfanew + NumberOfSectionsAt);
      if n == 0 then Ok(Int32(|m|))
      else
        var seg :- SectionTable(m);
        if !CheckOffset(|m|, seg, SectionHeaderSize) then Ok(-1)
        else if !CheckOffset(|m|, SectionAt(seg, n - 1), SectionHeaderSize) then Ok(0)
        else Ok(Int32(MaxEnd(m, seg, n)))
  }

  /** With every section header in the image, the size covers every section's end. */
  lemma VmaSizeCovers(m: seq<Byte>, c: nat)
    requires VmaSize(m).Ok? && VmaSize(m).value > 0
    requires var lfanew := U32At(m, LfanewAt); c < U16At(m, lfanew + NumberOfSectionsAt)
    ensures var seg := SectionTable(m).value;
      SectionAt(seg, c) + SectionHeaderSize <= |m| &&
      SectionEnd(m, seg, c) <= Wrap32(VmaSize(m).value)
  {
    var lfanew := U32At(m, LfanewAt);
    var n := U16At(m, lfanew + NumberOfSectionsAt);
    var seg := SectionTable(m).value;
    MaxEndIsMax(m, seg, n);
    WrapInt32(MaxEnd(m, seg, n));
  }

  /** No sections: the image size is kept. */
  lemma VmaSizeNoSections(m: seq<Byte>)
    requires LfanewAt + 4 <= |m|
    requires var lfanew := U32At(m, LfanewAt);
      lfanew + NumberOfSectionsAt + 2 <= |m| && U16At(m, lfanew + NumberOfSectionsAt) == 0
    ensures VmaSize(m) == Ok(Int32(|m|))
  {
  }

  /** The two `MAX` steps of the loop of `calc_vma_size` for the section header at `s`, on the `int` accumulator. */
  function NextSize(m: seq<Byte>, s: nat, size: int): int
    requires s + SectionHeaderSize <= |m|
  {
    var va := U32At(m, s + VirtualAddressAt);
    var withRaw := Int32(UMax(size, Wrap32(va + U32At(m, s + SizeOfRawDataAt))));
    Int32(UMax(withRaw, Wrap32(va + U32At(m, s + VirtualSizeAt))))
  }

  /** One section of the running maximum. */
  lemma MaxEndStep(m: seq<Byte>, seg: nat, c: nat, size: int)
    requires SectionAt(seg, c) + SectionHeaderSize <= |m| && size == Int32(MaxEnd(m, seg, c))
    ensures SectionAt(seg, c + 1) <= |m|
    ensures NextSize(m, SectionAt(seg, c), size) == Int32(MaxEnd(m, seg, c + 1))
  {
    var s := SectionAt(seg, c);
    var va := U32At(m, s + VirtualAddressAt);
    var x, y := Wrap32(va + U32At(m, s + SizeOfRawDataAt)), Wrap32(va + U32At(m, s + VirtualSizeAt));
    SectionEndIs(m, seg, c, x, y);
    MaxEndNext(m, seg, c);
    NextSizeIs(m, s, size, x, y);
    MaxThroughInt32(MaxEnd(m, seg, c), x, y);
  }

  /** A header that does not fit puts the end of the whole table past the image. */
  lemma HeaderPastImage(m: seq<Byte>, seg: nat, c: nat, n: nat)
    requires c < n && !CheckOffset(|m|, SectionAt(seg, c), SectionHeaderSize)
    ensures SectionAt(seg, n) > |m|
  {
  }

  /** The end of section `c` in terms of its two 32-bit sums. */
  lemma SectionEndIs(m: seq<Byte>, seg: nat, c: nat, x: nat, y: nat)
    requires SectionAt(seg, c) + SectionHeaderSize <= |m|
    requires var s := SectionAt(seg, c); var va := U32At(m, s + VirtualAddressAt);
      x == Wrap32(va + U32At(m, s + SizeOfRawDataAt)) && y == Wrap32(va + U32At(m, s + VirtualSizeAt))
    ensures SectionEnd(m, seg, c) == UMax(x, y)
  {
  }

  /** One more section header extends the running maximum by that section's end. */
  lemma MaxEndNext(m: seq<Byte>, seg: nat, c: nat)
    requires SectionAt(seg, c) + SectionHeaderSize <= |m|
    ensures SectionAt(seg, c + 1) <= |m| && MaxEnd(m, seg, c + 1) == UMax(MaxEnd(m, seg, c), SectionEnd(m, seg, c))
  {
  }

  /** The two `MAX` steps in terms of the two 32-bit sums. */
  lemma NextSizeIs(m: seq<Byte>, s: nat, size: int, x: nat, y: nat)
    requires s + SectionHeaderSize <= |m|
    requires var va := U32At(m, s + VirtualAddressAt);
      x == Wrap32(va + U32At(m, s + SizeOfRawDataAt)) && y == Wrap32(va + U32At(m, s + VirtualSizeAt))
    ensures NextSize(m, s, size) == Int32(UMax(Int32(UMax(size, x)), y))
  {
  }

  /** Two `MAX` steps with a cast to `int` between them are one `MAX` over both operands. */
  lemma MaxThroughInt32(a: nat, x: nat, y: nat)
    requires a < TwoTo32 && x < TwoTo32 && y < TwoTo32
    ensures Int32(UMax(Int32(UMax(Int32(a), x)), y)) == Int32(UMax(a, UMax(x, y)))
  {
    WrapInt32(a);
    var raw := UMax(Int32(a), x);
    WrapInt32(raw);
  }

  /** The loop of `calc_vma_size` over `n` section headers from `seg`: 0 at the first header that fails its check, else the running maximum. */
  method SectionsMax(m: seq<Byte>, seg: nat, n: nat) returns (size: int)
    requires CheckOffset(|m|, seg, SectionHeaderSize)
    ensures size == if SectionAt(seg, n) <= |m| then Int32(MaxEnd(m, seg, n)) else 0
  {
    size := 0;
    for c := 0 to n
      invariant SectionAt(seg, c) <= |m|
      invariant size == Int32(MaxEnd(m, seg, c))
    {
      var s := SectionAt(seg, c);
      if !CheckOffset(|m|, s, SectionHeaderSize) {
        HeaderPastImage(m, seg, c, n);
        return 0;
      }
      MaxEndStep(m, seg, c, size);
      size := NextSize(m, s, size);
    }
  }

  /** `calc_vma_size`: a read-only walk over the section headers keeping the running maximum in an `int`. */
  method CalcVmaSize(m: seq<Byte>) returns (r: Result<int>)
    ensures r == VmaSize(m)
  {
    var lfanew :- PeekU32(m, LfanewAt);
    if !CheckOffset(|m|, lfanew + NumberOfSectionsAt, 2) {
      return Ok(-1);
    }
    var segcount := U16At(m, lfanew + NumberOfSectionsAt);
    if segcount == 0 {
      return Ok(Int32(|m|));
    }
    var seg :- SectionTable(m);
    if !CheckOffset(|m|, seg, SectionHeaderSize) {
      return Ok(-1);
    }
    var size := SectionsMax(m, seg, segcount);
    return Ok(size);
  }

  // ---------------------------------------------------------------- relocation

  /** `memmove(m + dst, m + src, n)`: the `n` bytes at `src` as they were, now also at `dst`. */
  function Move(m: seq<Byte>, dst: nat, src: nat, n: nat): (r: seq<Byte>)
    requires dst + n <= |m| && src + n <= |m|
    ensures |r| == |m|
  {
    m[..dst] + m[src..src + n] + m[dst + n..]
  }

  /** After the move the destination holds the source bytes as they were, and every other byte is unchanged. */
  lemma MoveShape(m: seq<Byte>, dst: nat, src: nat, n: nat)
    requires dst + n <= |m| && src + n <= |m|
    ensures Move(m, dst, src, n)[dst..dst + n] == m[src..src + n]
    ensures forall i :: 0 <= i < |m| && !(dst <= i < dst + n) ==> Move(m, dst, src, n)[i] == m[i]
  {
  }

  /** The image after `xrealloc` to `size` bytes: cut, or grown with zero bytes. */
  function Resize(m: seq<Byte>, size: nat): (r: seq<Byte>)
    ensures |r| == size
    ensures forall i :: 0 <= i < size && i < |m| ==> r[i] == m[i]
  {
    if size <= |m| then m[..size] else m + Zeros(size - |m|)
  }

  /** An image in the middle of `read_library`, and why it stopped if it did. */
  datatype Relocation = Relocation(status: Option<WresError>, memory: seq<Byte>)

  /** Whether section `d`'s flags mark it as uninitialized data. */
  predicate Uninitialized(flags: nat)
  {
    (flags / UninitializedData) % 2 == 1
  }

  /**
   * The relocation loop of `read_library` over sections `d` down to 0:
   * a section flagged as uninitialized data is skipped; otherwise its
   * destination span at its virtual address and its source span in the file
   * are checked, and its raw data is moved when the two differ.  Each header
   * is found through `PE_SECTIONS` on the image as the earlier moves left it.
   */
  function Relocate(m: seq<Byte>, d: int): (r: Relocation)
    ensures |r.memory| == |m|
    ensures r.status.Some? ==> r.status.value in {PrematureEnd, OutOfBounds}
    decreases d + 1
  {
    if d < 0 then Relocation(None, m)
    else
      var step := RelocateOne(m, d);
      if step.status.Some? then step else Relocate(step.memory, d - 1)
  }

  /** One step of the relocation loop, for section `d`. */
  function RelocateOne(m: seq<Byte>, d: nat): (r: Relocation)
    ensures |r.memory| == |m|
    ensures r.status.Some? ==> r.status.value in {PrematureEnd, OutOfBounds} && r.memory == m
  {
    var seg := SectionTable(m);
    if seg.Err? then Relocation(Some(OutOfBounds), m)
    else
      var s := SectionAt(seg.value, d);
      if s + SectionHeaderSize > |m| then Relocation(Some(OutOfBounds), m)
      else if Uninitialized(U32At(m, s + CharacteristicsAt)) then Relocation(None, m)
      else
        var va, raw, ptr := U32At(m, s + VirtualAddressAt), U32At(m, s + SizeOfRawDataAt), U32At(m, s + PointerToRawDataAt);
        if !CheckOffset(|m|, va, raw) || !CheckOffset(|m|, ptr, raw) then Relocation(Some(PrematureEnd), m)
        else if va != ptr then Relocation(None, Move(m, va, ptr, raw))
        else Relocation(None, m)
  }

  /** The body of the relocation loop for section `d`: find its header, skip it or check both spans and move its raw data. */
  method RelocateSection(m: seq<Byte>, d: nat) returns (r: Relocation)
    ensures r == RelocateOne(m, d)
  {
    var seg := SectionTable(m);
    if seg.Err? {
      return Relocation(Some(OutOfBounds), m);
    }
    var s := SectionAt(seg.value, d);
    if s + SectionHeaderSize > |m| {
      return Relocation(Some(OutOfBounds), m);
    }
    if Uninitialized(U32At(m, s + CharacteristicsAt)) {
      return Relocation(None, m);
    }
    var va, raw := U32At(m, s + VirtualAddressAt), U32At(m, s + SizeOfRawDataAt);
    if !CheckOffset(|m|, va, raw) {
      return Relocation(Some(PrematureEnd), m);
    }
    var ptr := U32At(m, s + PointerToRawDataAt);
    if !CheckOffset(|m|, ptr, raw) {
      return Relocation(Some(PrematureEnd), m);
    }
    if va != ptr {
      return Relocation(None, Move(m, va, ptr, raw));
    }
    return Relocation(None, m);
  }

  /** A relocated section holds, at its virtual address, the raw data found at its file offset. */
  lemma RelocateOnePlaces(m: seq<Byte>, d: nat)
    requires RelocateOne(m, d).status.None?
    requires var seg := SectionTable(m).value; var s := SectionAt(seg, d);
      s + SectionHeaderSize <= |m| && !Uninitialized(U32At(m, s + CharacteristicsAt))
    ensures var seg := SectionTable(m).value; var s := SectionAt(seg, d);
      var va, raw, ptr := U32At(m, s + VirtualAddressAt), U32At(m, s + SizeOfRawDataAt), U32At(m, s + PointerToRawDataAt);
      va + raw <= |m| && ptr + raw <= |m| &&
      RelocateOne(m, d).memory[va..va + raw] == m[ptr..ptr + raw]
  {
  }

  /** A section flagged as uninitialized data is not moved. */
  lemma RelocateOneSkips(m: seq<Byte>, d: nat)
    requires SectionTable(m).Ok? && SectionAt(SectionTable(m).value, d) + SectionHeaderSize <= |m|
    requires Uninitialized(U32At(m, SectionAt(SectionTable(m).value, d) + CharacteristicsAt))
    ensures RelocateOne(m, d) == Relocation(None, m)
  {
  }

  // ---------------------------------------------------------------- read_library

  /** What `read_library` leaves behind: why it failed, if it did, and the library's fields. */
  datatype Loaded = Loaded(status: Option<WresError>, lib: Library)

  /**
   * `read_library` on an image with the given fields: an MZ stub must point
   * at least 64 bytes in; an NE header needs its resource table before its
   * resident-name table; a PE image is grown or cut to its virtual size, its
   * sections moved to their addresses, and its resource root read from the
   * PE32 or PE32+ data directory.  Anything else is not a library.
   */
  function Load(lib: Library): (l: Loaded)
  {
    var m := lib.memory;
    if !CheckOffset(|m|, 0, 2) then Loaded(Some(PrematureEnd), lib)
    else if U16At(m, 0) == MzSignature && !CheckOffset(|m|, LfanewAt, 4) then Loaded(Some(PrematureEnd), lib)
    else if U16At(m, 0) == MzSignature && U32At(m, LfanewAt) < DosHeaderSize then Loaded(Some(WrongFormat), lib)
    else if LfanewAt + 4 > |m| then Loaded(Some(OutOfBounds), lib)
    else
      var header := U32At(m, LfanewAt);
      if !CheckOffset(|m|, header, 2) then Loaded(Some(PrematureEnd), lib)
      else if U16At(m, header) == NeSignature then LoadNe(lib, header)
      else if !CheckOffset(|m|, header, 4) then Loaded(Some(PrematureEnd), lib)
      else if U32At(m, header) == PeSignature then LoadPe(lib)
      else Loaded(Some(WrongFormat), lib)
  }

  /** The NE branch of `read_library`, with the header at `header`. */
  function LoadNe(lib: Library, header: nat): (l: Loaded)
    requires header + 2 <= |lib.memory|
    ensures l.status.None? ==> !l.lib.isPE
  {
    var m := lib.memory;
    if !CheckOffset(|m|, header + NeRsrctabAt, 2) || !CheckOffset(|m|, header + NeRestabAt, 2) then
      Loaded(Some(PrematureEnd), lib)
    else if U16At(m, header + NeRsrctabAt) >= U16At(m, header + NeRestabAt) then Loaded(Some(NoResDir), lib)
    else
      var first := header + U16At(m, header + NeRsrctabAt) + 2;
      var loaded := Library(m, first, false);
      if !CheckOffset(|m|, first, TypeInfoSize) then Loaded(Some(PrematureEnd), loaded)
      else Loaded(None, loaded)
  }

  /** The PE branch of `read_library` after the signature matched. */
  function LoadPe(lib: Library): (l: Loaded)
    ensures l.status.None? ==> l.lib.isPE
  {
    var vma := VmaSize(lib.memory);
    if vma.Err? then Loaded(Some(vma.error), lib)
    else if vma.value == 0 then Loaded(Some(PrematureEnd), lib)
    else if vma.value < 0 then Loaded(Some(OutOfMemory), lib)
    else LoadSections(Library(Resize(lib.memory, vma.value), lib.firstResource, lib.isPE))
  }

  /** The PE branch after the resize: move the sections from the last to the first, then read the root. */
  function LoadSections(lib: Library): (l: Loaded)
    ensures l.status.None? ==> l.lib.isPE
  {
    var m := lib.memory;
    if LfanewAt + 4 > |m| then Loaded(Some(OutOfBounds), lib)
    else
      var header := U32At(m, LfanewAt);
      if !CheckOffset(|m|, header + NumberOfSectionsAt, 2) then Loaded(Some(PrematureEnd), lib)
      else
        var moved := Relocate(m, U16At(m, header + NumberOfSectionsAt) - 1);
        var keep := Library(moved.memory, lib.firstResource, lib.isPE);
        if moved.status.Some? then Loaded(moved.status, keep)
        else LoadPeRoot(keep, header)
  }

  /** The end of the PE branch: pick the data directory by the optional header's magic and read the resource root. */
  function LoadPeRoot(lib: Library, header: nat): (l: Loaded)
    ensures l.status.None? ==> l.lib.isPE
  {
    var m := lib.memory;
    if header + OptionalHeaderAt + 2 > |m| then Loaded(Some(OutOfBounds), lib)
    else
      var dir := header + if U16At(m, header + OptionalHeaderAt) == Pe32PlusMagic then ResourceDirPe32PlusAt else ResourceDirPe32At;
      if !CheckOffset(|m|, dir, DataDirectorySize) then Loaded(Some(PrematureEnd), lib)
      else if U32At(m, dir + 4) == 0 then Loaded(Some(NoResources), lib)
      else Loaded(None, Library(m, U32At(m, dir), true))
  }

  /** The relocation loop in one step. */
  lemma RelocateStep(m: seq<Byte>, d: nat)
    requires RelocateOne(m, d).status.None?
    ensures Relocate(m, d) == Relocate(RelocateOne(m, d).memory, d - 1)
  {
  }

  /** A loaded image whose fields `read_library` sets in place. */
  class WinLibrary {
    var memory: seq<Byte>
    var firstResource: nat
    var isPE: bool

    /** The library as the rest of the program reads it. */
    function Fields(): Library
      reads this
    {
      Library(memory, firstResource, isPE)
    }

    /** A freshly loaded file: its bytes, no resource root yet. */
    constructor (contents: seq<Byte>)
      ensures memory == contents && firstResource == 0 && !isPE
    {
      memory := contents;
      firstResource := 0;
      isPE := false;
    }

    /** `read_library`: the fields end as `Load` says, whether it succeeds or not. */
    method ReadLibrary() returns (status: Option<WresError>)
      modifies this
      ensures Loaded(status, Fields()) == Load(old(Fields()))
    {
      ghost var start := Fields();
      var m := memory;
      if !CheckOffset(|m|, 0, 2) {
        return Some(PrematureEnd);
      }
      if U16At(m, 0) == MzSignature {
        if !CheckOffset(|m|, LfanewAt, 4) {
          return Some(PrematureEnd);
        }
        if U32At(m, LfanewAt) < DosHeaderSize {
          return Some(WrongFormat);
        }
      }
      if LfanewAt + 4 > |m| {
        return Some(OutOfBounds);
      }
      var header := U32At(m, LfanewAt);
      if !CheckOffset(|m|, header, 2) {
        return Some(PrematureEnd);
      }
      if U16At(m, header) == NeSignature {
        if !CheckOffset(|m|, header + NeRsrctabAt, 2) || !CheckOffset(|m|, header + NeRestabAt, 2) {
          return Some(PrematureEnd);
        }
        if U16At(m, header + NeRsrctabAt) >= U16At(m, header + NeRestabAt) {
          return Some(NoResDir);
        }
        isPE := false;
        firstResource := header + U16At(m, header + NeRsrctabAt) + 2;
        if !CheckOffset(|m|, firstResource, TypeInfoSize) {
          return Some(PrematureEnd);
        }
        return None;
      }
      if !CheckOffset(|m|, header, 4) {
        return Some(PrematureEnd);
      }
      if U32At(m, header) != PeSignature {
        return Some(WrongFormat);
      }
      status := ReadPe();
    }

    /** The relocation loop of `read_library`, from section `d` down to section 0, on the image in place. */
    method RelocateSections(d: int) returns (status: Option<WresError>)
      modifies this
      ensures Relocation(status, memory) == Relocate(old(memory), d)
      ensures firstResource == old(firstResource) && isPE == old(isPE)
    {
      var c := d;
      while c >= 0
        invariant Relocate(memory, c) == Relocate(old(memory), d)
        invariant firstResource == old(firstResource) && isPE == old(isPE)
        decreases c + 1
      {
        var step := RelocateSection(memory, c);
        if step.status.Some? {
          return step.status;
        }
        memory := step.memory;
        c := c - 1;
      }
      return None;
    }

    /** The PE branch of `read_library`: size, reallocate, relocate from the last section to the first, find the root. */
    method ReadPe() returns (status: Option<WresError>)
      modifies this
      ensures Loaded(status, Fields()) == LoadPe(old(Fields()))
    {
      var vma := CalcVmaSize(memory);
      if vma.Err? {
        return Some(vma.error);
      }
      if vma.value == 0 {
        return Some(PrematureEnd);
      }
      if vma.value < 0 {
        return Some(OutOfMemory);
      }
      memory := Resize(memory, vma.value);
      status := PlaceSections();
    }

    /** The PE branch after the resize: relocate from the last section to the first, then find the root. */
    method PlaceSections() returns (status: Option<WresError>)
      modifies this
      ensures Loaded(status, Fields()) == LoadSections(old(Fields()))
    {
      if LfanewAt + 4 > |memory| {
        return Some(OutOfBounds);
      }
      var header := U32At(memory, LfanewAt);
      if !CheckOffset(|memory|, header + NumberOfSectionsAt, 2) {
        return Some(PrematureEnd);
      }
      status := RelocateSections(U16At(memory, header + NumberOfSectionsAt) - 1);
      if status.Some? {
        return status;
      }
      status := FindPeRoot(header);
    }

    /** The end of the PE branch: the resource data directory of the PE32 or PE32+ layout gives the root. */
    method FindPeRoot(header: nat) returns (status: Option<WresError>)
      modifies this
      ensures Loaded(status, Fields()) == LoadPeRoot(old(Fields()), header)
    {
      if header + OptionalHeaderAt + 2 > |memory| {
        return Some(OutOfBounds);
      }
      var dir := header + if U16At(memory, header + OptionalHeaderAt) == Pe32PlusMagic then ResourceDirPe32PlusAt else ResourceDirPe32At;
      if !CheckOffset(|memory|, dir, DataDirectorySize) {
        return Some(PrematureEnd);
      }
      if U32At(memory, dir + 4) == 0 {
        return Some(NoResources);
      }
      firstResource := U32At(memory, dir);
      isPE := true;
      return None;
    }
  }

  // ---------------------------------------------------------------- what loading promises

  /** Fewer than two bytes: no signature can be read. */
  lemma TooShort(lib: Library)
    requires |lib.memory| < 2
    ensures Load(lib) == Loaded(Some(PrematureEnd), lib)
  {
  }

  /** An MZ stub whose `lfanew` points inside the 64-byte DOS header is not a library. */
  lemma MzNeedsLfanew(lib: Library)
    requires DosHeaderSize <= |lib.memory| && U16At(lib.memory, 0) == MzSignature
    requires U32At(lib.memory, LfanewAt) < DosHeaderSize
    ensures Load(lib) == Loaded(Some(WrongFormat), lib)
  {
  }

  /** Without an MZ stub, `lfanew` is still read at offset 60 unchecked, so a file shorter than 64 bytes faults. */
  lemma ShortNonMzFaults(lib: Library)
    requires 2 <= |lib.memory| < DosHeaderSize && U16At(lib.memory, 0) != MzSignature
    ensures Load(lib) == Loaded(Some(OutOfBounds), lib)
  {
  }

  /** NE: a resource table that does not come before the resident-name table means no resource directory. */
  lemma NeNoResourceDir(lib: Library)
    requires DosHeaderSize <= |lib.memory|
    requires var m := lib.memory; var h := U32At(m, LfanewAt);
      (U16At(m, 0) == MzSignature ==> h >= DosHeaderSize) &&
      h + NeRestabAt + 2 <= |m| && U16At(m, h) == NeSignature &&
      U16At(m, h + NeRsrctabAt) >= U16At(m, h + NeRestabAt)
    ensures Load(lib) == Loaded(Some(NoResDir), lib)
  {
  }

  /** A loaded library is NE with its root two bytes past `rsrctab`, or PE; the NE image is unchanged. */
  lemma LoadedNe(lib: Library)
    requires Load(lib).status.None? && !Load(lib).lib.isPE
    ensures var m := lib.memory; var l := Load(lib).lib;
      LfanewAt + 4 <= |m| &&
      var h := U32At(m, LfanewAt);
      h + NeRestabAt + 2 <= |m| && U16At(m, h) == NeSignature &&
      U16At(m, h + NeRsrctabAt) < U16At(m, h + NeRestabAt) &&
      l == Library(m, h + U16At(m, h + NeRsrctabAt) + 2, false) &&
      l.firstResource + TypeInfoSize <= |m|
  {
  }

  /** The last step of the PE branch: the root comes from the PE32+ directory iff the magic is 0x20B, and a zero size means no resources. */
  lemma PeRoot(lib: Library, header: nat)
    requires header + OptionalHeaderAt + 2 <= |lib.memory|
    requires var m := lib.memory;
      var dir := header + if U16At(m, header + OptionalHeaderAt) == Pe32PlusMagic then ResourceDirPe32PlusAt else ResourceDirPe32At;
      dir + DataDirectorySize <= |m|
    ensures var m := lib.memory; var l := LoadPeRoot(lib, header);
      var dir := header + if U16At(m, header + OptionalHeaderAt) == Pe32PlusMagic then ResourceDirPe32PlusAt else ResourceDirPe32At;
      (U32At(m, dir + 4) == 0 <==> l == Loaded(Some(NoResources), lib)) &&
      (U32At(m, dir + 4) != 0 <==> l == Loaded(None, Library(m, U32At(m, dir), true)))
  {
  }

  /** Only the last step of the PE branch succeeds, and it sets a PE library. */
  lemma LoadedPeRoot(lib: Library)
    requires LoadPe(lib).status.None?
    ensures var m := Resize(lib.memory, VmaSize(lib.memory).value);
      VmaSize(lib.memory).Ok? && VmaSize(lib.memory).value > 0 &&
      LfanewAt + 4 <= |m| &&
      var h := U32At(m, LfanewAt);
      h + NumberOfSectionsAt + 2 <= |m| &&
      var moved := Relocate(m, U16At(m, h + NumberOfSectionsAt) - 1);
      moved.status.None? &&
      LoadPe(lib) == LoadPeRoot(Library(moved.memory, lib.firstResource, lib.isPE), h)
  {
    var vma := VmaSize(lib.memory);
    assert vma.Ok? && vma.value > 0;
    var keep := Library(Resize(lib.memory, vma.value), lib.firstResource, lib.isPE);
    assert LoadPe(lib) == LoadSections(keep);
    LoadedSections(keep);
  }

  /** After the resize, only the last step succeeds. */
  lemma LoadedSections(lib: Library)
    requires LoadSections(lib).status.None?
    ensures var m := lib.memory;
      LfanewAt + 4 <= |m| &&
      var h := U32At(m, LfanewAt);
      h + NumberOfSectionsAt + 2 <= |m| &&
      var moved := Relocate(m, U16At(m, h + NumberOfSectionsAt) - 1);
      moved.status.None? &&
      LoadSections(lib) == LoadPeRoot(Library(moved.memory, lib.firstResource, lib.isPE), h)
  {
  }

  /** A loaded PE library: the signature was PE and the image was resized to its virtual size. */
  lemma LoadedPe(lib: Library)
    requires Load(lib).status.None? && Load(lib).lib.isPE
    ensures var m := lib.memory; var l := Load(lib).lib;
      LfanewAt + 4 <= |m| &&
      var h := U32At(m, LfanewAt);
      h + 4 <= |m| && U32At(m, h) == PeSignature &&
      Load(lib) == LoadPe(lib) &&
      VmaSize(m).Ok? && VmaSize(m).value > 0 && |l.memory| == VmaSize(m).value
  {
    LoadedPeRoot(lib);
  }

  /** Any other signature is not a library. */
  lemma OtherSignature(lib: Library)
    requires DosHeaderSize <= |lib.memory|
    requires var m := lib.memory; var h := U32At(m, LfanewAt);
      (U16At(m, 0) == MzSignature ==> h >= DosHeaderSize) &&
      h + 4 <= |m| && U16At(m, h) != NeSignature && U32At(m, h) != PeSignature
    ensures Load(lib) == Loaded(Some(WrongFormat), lib)
  {
  }

  /** A negative virtual size (its `int` wrapped) is passed to `xrealloc`, which gives up. */
  lemma NegativeVmaSize(lib: Library)
    requires VmaSize(lib.memory).Ok? && VmaSize(lib.memory).value < 0
    ensures LoadPe(lib) == Loaded(Some(OutOfMemory), lib)
  {
  }

  /** Loading succeeds only for an NE or a PE signature. */
  lemma LoadedSignature(lib: Library)
    requires Load(lib).status.None?
    ensures var m := lib.memory;
      LfanewAt + 4 <= |m| &&
      var h := U32At(m, LfanewAt);
      h + 2 <= |m| && (U16At(m, h) == NeSignature || (h + 4 <= |m| && U32At(m, h) == PeSignature))
  {
  }
}
