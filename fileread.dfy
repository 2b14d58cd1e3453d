/**
 * The bounds check that guards reads at offsets taken from the file
 * (`check_offset`), and the raw readers built on it.
 */
module FileRead {
  import opened Bytes
  import opened Wres

  /**
   * `check_offset`: the span of `size` bytes at `rel` bytes past the start of
   * an image of `totalSize` bytes is accepted when its end lies in
   * 0..totalSize.  Only the end is tested.  Offsets here are unbounded
   * integers; the source's narrowing of the end to 32 bits is modelled by
   * `CheckOffsetAsWritten`.
   */
  predicate CheckOffset(totalSize: int, rel: int, size: int)
  {
    0 <= rel + size <= totalSize
  }

  /** `check_offset` as written: the end is narrowed to a 32-bit `int` before the test. */
  predicate CheckOffsetAsWritten(totalSize: int, rel: int, size: int)
  {
    0 <= Int32(rel + size) <= totalSize
  }

  /** The two agree whenever the end fits in a 32-bit `int`. */
  lemma AsWrittenAgrees(totalSize: int, rel: int, size: int)
    requires -TwoTo31 <= rel + size < TwoTo31
    ensures CheckOffsetAsWritten(totalSize, rel, size) == CheckOffset(totalSize, rel, size)
  {
  }

  /**
   * The narrowing lets through a span that ends 2^32 bytes past a 16-byte
   * image: a 32-byte span at offset 0xFFFF_FFF0, as a PE data entry can name.
   */
  lemma AsWrittenAcceptsFarSpan()
    ensures CheckOffsetAsWritten(16, 0xFFFF_FFF0, 0x20)
    ensures !CheckOffset(16, 0xFFFF_FFF0, 0x20)
  {
    assert Int32(0xFFFF_FFF0 + 0x20) == 0x10;
  }

  /** Spans ending exactly at the end of the image are accepted, one byte further is not. */
  lemma EndBoundary(totalSize: nat, rel: int)
    requires rel <= totalSize
    ensures CheckOffset(totalSize, rel, totalSize - rel)
    ensures CheckOffset(totalSize, totalSize, 0)
    ensures CheckOffset(totalSize, 0, totalSize)
    ensures !CheckOffset(totalSize, rel, totalSize - rel + 1)
  {
  }

  /** A span that starts before the image is accepted when its end is inside it. */
  lemma StartIsNotChecked(totalSize: nat, rel: int, size: int)
    requires rel < 0 && 0 <= rel + size <= totalSize
    ensures CheckOffset(totalSize, rel, size)
  {
  }

  /** A negative end, as a negative size produces, is rejected. */
  lemma NegativeEndRejected(totalSize: int, rel: int, size: int)
    requires rel + size < 0
    ensures !CheckOffset(totalSize, rel, size)
  {
  }

  /**
   * The pointer form checks a field's own `sizeof` bytes at the field's own
   * offset; for a field at a non-negative offset success means every byte of
   * the field lies inside the image.
   */
  lemma CheckedFieldReadable(m: seq<Byte>, rel: nat, fieldSize: nat)
    requires CheckOffset(|m|, rel, fieldSize)
    ensures rel + fieldSize <= |m|
    ensures |m[rel..rel + fieldSize]| == fieldSize
  {
  }

  /** A 16-bit field read after its pointer check; failure is a premature end. */
  function ReadU16(m: seq<Byte>, off: nat): (r: Result<nat>)
    ensures r.Ok? <==> CheckOffset(|m|, off, 2)
    ensures r.Ok? ==> r.value == U16At(m, off)
    ensures r.Err? ==> r.error == PrematureEnd
  {
    if CheckOffset(|m|, off, 2) then Ok(U16At(m, off)) else Err(PrematureEnd)
  }

  /** A 32-bit field read after its pointer check; failure is a premature end. */
  function ReadU32(m: seq<Byte>, off: nat): (r: Result<nat>)
    ensures r.Ok? <==> CheckOffset(|m|, off, 4)
    ensures r.Ok? ==> r.value == U32At(m, off)
    ensures r.Err? ==> r.error == PrematureEnd
  {
    if CheckOffset(|m|, off, 4) then Ok(U32At(m, off)) else Err(PrematureEnd)
  }

  /**
   * A 16-bit read the program performs with no check before it: inside the
   * image it yields the field, outside it is the model's `OutOfBounds`.
   */
  function PeekU16(m: seq<Byte>, off: nat): (r: Result<nat>)
    ensures r.Ok? <==> off + 2 <= |m|
    ensures r.Ok? ==> r.value == U16At(m, off)
    ensures r.Err? ==> r.error == OutOfBounds
  {
    if off + 2 <= |m| then Ok(U16At(m, off)) else Err(OutOfBounds)
  }

  /** A 32-bit read with no check before it. */
  function PeekU32(m: seq<Byte>, off: nat): (r: Result<nat>)
    ensures r.Ok? <==> off + 4 <= |m|
    ensures r.Ok? ==> r.value == U32At(m, off)
    ensures r.Err? ==> r.error == OutOfBounds
  {
    if off + 4 <= |m| then Ok(U32At(m, off)) else Err(OutOfBounds)
  }
}
