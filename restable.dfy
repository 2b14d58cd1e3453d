/**
 * The resource tree of a loaded image: decoding resource ids, listing one
 * level of the NE or PE tree, selector matching, lookup by type/name/language,
 * the walk that calls back for every matching leaf, and locating a leaf's data.
 */
module ResTable {
  import opened Bytes
  import opened Wres
  import opened CString
  import opened IntUtil
  import opened FileRead

  /** A loaded image: its bytes (`total_size` is their number), the offset of the resource root and its kind. */
  datatype Library = Library(memory: seq<Byte>, firstResource: nat, isPE: bool)

  /** A resource id: the `numeric_id` flag with the decimal `id`, or the raw characters copied into `id`. */
  datatype ResId = Numeric(n: nat) | Str(chars: string)

  /**
   * `WinResource`: one node of one level of the tree.  `record` (the C field
   * `this`) and `children` are offsets into the image: for PE the directory
   * holding the entry and the entry's subdirectory or data entry, for NE the
   * type or name record and what follows it.
   */
  datatype WinResource = WinResource(id: ResId, record: nat, children: nat, level: int, isDirectory: bool)

  /** A holder cleared with `memset(…, 0, …)`: an empty string id, no offsets. */
  const EmptyHolder: WinResource := WinResource(Str(""), 0, 0, 0, false)

  const DirectorySize: nat := 16      // Win32ImageResourceDirectory
  const DirEntrySize: nat := 8        // Win32ImageResourceDirectoryEntry
  const DataEntrySize: nat := 16      // Win32ImageResourceDataEntry
  const TypeInfoSize: nat := 8        // Win16NETypeInfo
  const NameInfoSize: nat := 12       // Win16NENameInfo
  const IdMaxLen: nat := 256          // WINRES_ID_MAXLEN
  const NameIsString: nat := 0x8000_0000   // IMAGE_RESOURCE_NAME_IS_STRING, also DATA_IS_DIRECTORY
  const NeNameIsNumeric: nat := 0x8000     // NE_RESOURCE_NAME_IS_NUMERIC

  /** The C string in `wr->id`: the decimal rendering of a numeric id, the copied characters up to a NUL otherwise. */
  function IdText(id: ResId): string
  {
    match id
    case Numeric(n) => Decimal(n)
    case Str(cs) => Text(cs)
  }

  function ByteChar(b: Byte): char
  {
    b as char
  }

  // ---------------------------------------------------------------- ids

  /** The characters of a PE string id: the low byte of each of the first `len` UTF-16 units after the length word. */
  function PeIdChars(m: seq<Byte>, rel: nat, len: nat): (cs: string)
    requires rel + 2 + 2 * len <= |m|
    ensures |cs| == len
    ensures forall c :: 0 <= c < len ==> cs[c] == ByteChar(U16At(m, rel + 2 + 2 * c) % 0x100)
  {
    seq(len, c requires 0 <= c < len => ByteChar(U16At(m, rel + 2 + 2 * c) % 0x100))
  }

  /**
   * `decode_pe_resource_id`: with bit 31 set the id is the string at the root
   * plus the low 31 bits, whose length word and body are checked first; with
   * it clear the id is the value itself.
   */
  function DecodePeId(lib: Library, value: nat): (r: Result<ResId>)
    requires value < TwoTo32
    ensures value < NameIsString ==> r == Ok(Numeric(value))
    ensures value >= NameIsString && r.Ok? ==>
      var rel := lib.firstResource + (value - NameIsString);
      rel + 2 <= |lib.memory| &&
      var len := U16At(lib.memory, rel);
      rel + 2 + 2 * len <= |lib.memory| &&
      r.value == Str(PeIdChars(lib.memory, rel, if len < IdMaxLen then len else IdMaxLen))
    ensures value >= NameIsString ==>
      var rel := lib.firstResource + (value - NameIsString);
      rel + 2 <= |lib.memory| && rel + 2 + 2 * U16At(lib.memory, rel) <= |lib.memory| ==> r.Ok?
    ensures r.Err? ==> r.error == PrematureEnd
  {
    if value >= NameIsString then
      var rel := lib.firstResource + (value - NameIsString);
      var len :- ReadU16(lib.memory, rel);
      if !CheckOffset(|lib.memory|, rel + 2, 2 * len) then Err(PrematureEnd)
      else Ok(Str(PeIdChars(lib.memory, rel, if len < IdMaxLen then len else IdMaxLen)))
    else
      Ok(Numeric(value))
  }

  /** `decode_pe_resource_id`, copying the characters one by one. */
  method DecodePeResourceId(lib: Library, value: nat) returns (r: Result<ResId>)
    requires value < TwoTo32
    ensures r == DecodePeId(lib, value)
  {
    if value >= NameIsString {
      var rel := lib.firstResource + (value - NameIsString);
      if !CheckOffset(|lib.memory|, rel, 2) {
        return Err(PrematureEnd);
      }
      var len := U16At(lib.memory, rel);
      if !CheckOffset(|lib.memory|, rel + 2, 2 * len) {
        return Err(PrematureEnd);
      }
      len := if len < IdMaxLen then len else IdMaxLen;
      var id: string := [];
      for c := 0 to len
        invariant id == PeIdChars(lib.memory, rel, len)[..c]
      {
        id := id + [ByteChar(U16At(lib.memory, rel + 2 + 2 * c) % 0x100)];
      }
      assert id == PeIdChars(lib.memory, rel, len);
      return Ok(Str(id));
    }
    return Ok(Numeric(value));
  }

  /** A numeric PE id reads back through `parse_int32` as the entry's value. */
  lemma PeNumericIdParses(lib: Library, value: nat)
    requires value < NameIsString
    ensures DecodePeId(lib, value).Ok?
    ensures SignedValue(IdText(DecodePeId(lib, value).value), Int32Min, Int32Max) == Some(value)
  {
    ParseDecimal(value, Int32Min, Int32Max);
  }

  /**
   * `decode_ne_resource_id`: with bit 0x8000 set the id is the value without
   * that bit; otherwise it is the length-prefixed string at NE header +
   * `rsrctab` + value.  The header offset and `rsrctab` are read again without
   * a check; the length is a signed `char`, and a negative one passes the
   * end-only check but makes `memcpy` run off the buffer.
   */
  function DecodeNeId(lib: Library, value: nat): (r: Result<ResId>)
    requires value < TwoTo16
    ensures value >= NeNameIsNumeric ==> r == Ok(Numeric(value - NeNameIsNumeric))
    ensures value < NeNameIsNumeric && r.Ok? ==> r.value.Str? && |r.value.chars| < 0x80
    ensures r.Err? ==> r.error in {PrematureEnd, OutOfBounds}
  {
    if value >= NeNameIsNumeric then
      Ok(Numeric(value - NeNameIsNumeric))
    else
      var m := lib.memory;
      var neHeader :- PeekU32(m, 60);
      var rsrctab :- PeekU16(m, neHeader + 36);
      var rel := neHeader + rsrctab + value;
      if !CheckOffset(|m|, rel, 1) then Err(PrematureEnd)
      else
        var len := SignedChar(m[rel]);
        if !CheckOffset(|m|, rel + 1, len) then Err(PrematureEnd)
        else if len < 0 then Err(OutOfBounds)
        else Ok(Str(seq(len, c requires 0 <= c < len => ByteChar(m[rel + 1 + c]))))
  }

  /** An NE-numeric id reads back through `parse_int32` as the value less bit 0x8000. */
  lemma NeNumericIdParses(lib: Library, value: nat)
    requires NeNameIsNumeric <= value < TwoTo16
    ensures DecodeNeId(lib, value).Ok?
    ensures SignedValue(IdText(DecodeNeId(lib, value).value), Int32Min, Int32Max) == Some(value - NeNameIsNumeric)
  {
    var v := value - NeNameIsNumeric;
    assert DecodeNeId(lib, value).value == Numeric(v);
    assert IdText(Numeric(v)) == Decimal(v);
    ParseDecimal(v, Int32Min, Int32Max);
  }

  /** An NE string id copies exactly the checked bytes after its length byte. */
  lemma NeStringIdChecked(lib: Library, value: nat)
    requires value < NeNameIsNumeric && DecodeNeId(lib, value).Ok?
    ensures 64 <= |lib.memory|
    ensures var m := lib.memory;
      var rel := U32At(m, 60) + U16At(m, U32At(m, 60) + 36) + value;
      var cs := DecodeNeId(lib, value).value.chars;
      rel + 1 + |cs| <= |m| && m[rel] == |cs| &&
      forall c :: 0 <= c < |cs| ==> cs[c] == ByteChar(m[rel + 1 + c])
  {
  }

  /** A length byte of 0x80 or more gives a negative copy length; the model stops there. */
  lemma NeNegativeLengthFaults(lib: Library, value: nat)
    requires value < NeNameIsNumeric && 64 <= |lib.memory|
    requires var m := lib.memory; var h := U32At(m, 60);
      h + 38 <= |m| &&
      var rel := h + U16At(m, h + 36) + value;
      0x80 <= rel < |m| && m[rel] >= 0x80
    ensures DecodeNeId(lib, value) == Err(OutOfBounds)
  {
  }

  // ---------------------------------------------------------------- selectors

  /**
   * `compare_resource_id`: an empty selector matches anything.  A numeric id
   * refuses a '+' selector, drops one leading '-', and matches when both texts
   * parse as the same int32; a string id refuses a '-' selector, drops one
   * leading '+', and matches when the texts are equal.
   */
  predicate CompareResourceId(id: ResId, sel: string)
  {
    var s := Text(sel);
    if s == [] then true
    else if id.Numeric? then
      if s[0] == '+' then false
      else
        var t := if s[0] == '-' then s[1..] else s;
        var a, b := SignedValue(IdText(id), Int32Min, Int32Max), SignedValue(t, Int32Min, Int32Max);
        a.Some? && b.Some? && a.value == b.value
    else
      if s[0] == '-' then false
      else
        var t := if s[0] == '+' then s[1..] else s;
        IdText(id) == t
  }

  /** A numeric id n (within int32) matches the selectors "n" and "-n", never "+n". */
  lemma NumericSelectors(n: nat)
    requires n <= Int32Max
    ensures CompareResourceId(Numeric(n), Decimal(n))
    ensures CompareResourceId(Numeric(n), "-" + Decimal(n))
    ensures !CompareResourceId(Numeric(n), "+" + Decimal(n))
  {
    ParseDecimal(n, Int32Min, Int32Max);
    TextOfPlain(Decimal(n));
    TextOfPlain("-" + Decimal(n));
    TextOfPlain("+" + Decimal(n));
    assert ("-" + Decimal(n))[1..] == Decimal(n);
  }

  /** A numeric id matches a selector exactly when the selector, less an optional '-', parses as its value. */
  lemma NumericMatchMeansEqual(n: nat, sel: string)
    requires n <= Int32Max && Text(sel) != [] && CompareResourceId(Numeric(n), sel)
    ensures var s := Text(sel);
      (s[0] != '+' && SignedValue(if s[0] == '-' then s[1..] else s, Int32Min, Int32Max) == Some(n))
  {
    ParseDecimal(n, Int32Min, Int32Max);
  }

  /** A string id s matches "s" and "+s" and never "-s"; a different text does not match. */
  lemma StringSelectors(cs: string, sel: string)
    requires NUL !in cs && NUL !in sel && cs != [] && cs[0] != '-' && cs[0] != '+'
    ensures CompareResourceId(Str(cs), cs)
    ensures CompareResourceId(Str(cs), "+" + cs)
    ensures !CompareResourceId(Str(cs), "-" + cs)
    ensures sel != [] && sel[0] != '+' && sel != cs ==> !CompareResourceId(Str(cs), sel)
  {
    TextOfPlain(cs);
    TextOfPlain(sel);
    TextOfPlain("+" + cs);
    TextOfPlain("-" + cs);
    assert ("+" + cs)[1..] == cs;
  }

  /** The empty selector matches every id. */
  lemma EmptySelectorMatches(id: ResId)
    ensures CompareResourceId(id, "")
  {
  }

  // ---------------------------------------------------------------- listing

  /** `r` with `p` put in front of its list. */
  function Prepend<T>(p: seq<T>, r: Result<seq<T>>): Result<seq<T>>
  {
    if r.Ok? then Ok(p + r.value) else r
  }

  lemma PrependNothing<T>(r: Result<seq<T>>)
    ensures Prepend([], r) == r
  {
    if r.Ok? {
      assert [] + r.value == r.value;
    }
  }

  lemma PrependAssoc<T>(p: seq<T>, q: seq<T>, r: Result<seq<T>>)
    ensures Prepend(p, Prepend(q, r)) == Prepend(p + q, r)
  {
    if r.Ok? {
      assert p + (q + r.value) == (p + q) + r.value;
    }
  }

  /** Filling slot `c` of an array extends its filled prefix by that slot. */
  lemma FilledOneMore<T>(before: seq<T>, after: seq<T>, c: nat)
    requires c < |before| == |after| && forall i :: 0 <= i < |after| && i != c ==> after[i] == before[i]
    ensures after[..c + 1] == before[..c] + [after[c]]
  {
  }

  /** The offset of directory entry `c` of the PE directory at `dir`. */
  function EntryAt(dir: nat, c: nat): nat
  {
    dir + DirectorySize + DirEntrySize * c
  }

  /** The node `list_pe_resources` makes of entry `c`, given its decoded id. */
  function PeNode(lib: Library, dir: nat, level: int, c: nat, id: ResId): WinResource
    requires EntryAt(dir, c) + DirEntrySize <= |lib.memory|
  {
    var data := U32At(lib.memory, EntryAt(dir, c) + 4);
    WinResource(id, dir, lib.firstResource + data % NameIsString, level, data >= NameIsString)
  }

  /** Entry `c` and its id are as `list_pe_resources` decodes them. */
  predicate PeEntryDecoded(lib: Library, dir: nat, level: int, c: nat, wr: WinResource)
  {
    EntryAt(dir, c) + DirEntrySize <= |lib.memory| &&
    DecodePeId(lib, U32At(lib.memory, EntryAt(dir, c))) == Ok(wr.id) &&
    wr == PeNode(lib, dir, level, c, wr.id)
  }

  /** The loop of `list_pe_resources` from entry `c` of `n`: check the entry, decode its id, fill in the node. */
  function PeListFrom(lib: Library, dir: nat, level: int, c: nat, n: nat): (r: Result<seq<WinResource>>)
    requires c <= n
    ensures r.Err? ==> r.error == PrematureEnd
    decreases n - c
  {
    if c == n then Ok([])
    else
      var e := EntryAt(dir, c);
      if !CheckOffset(|lib.memory|, e, DirEntrySize) then Err(PrematureEnd)
      else
        var id :- DecodePeId(lib, U32At(lib.memory, e));
        Prepend([PeNode(lib, dir, level, c, id)], PeListFrom(lib, dir, level, c + 1, n))
  }

  /** One step of the loop: a checked entry with a decoded id goes after the nodes listed so far. */
  lemma PeListFromStep(lib: Library, dir: nat, level: int, c: nat, n: nat, id: ResId,
                       spec: Result<seq<WinResource>>, done: seq<WinResource>)
    requires c < n && CheckOffset(|lib.memory|, EntryAt(dir, c), DirEntrySize)
    requires DecodePeId(lib, U32At(lib.memory, EntryAt(dir, c))) == Ok(id)
    requires spec == Prepend(done, PeListFrom(lib, dir, level, c, n))
    ensures spec == Prepend(done + [PeNode(lib, dir, level, c, id)], PeListFrom(lib, dir, level, c + 1, n))
  {
    var node := PeNode(lib, dir, level, c, id);
    assert PeListFrom(lib, dir, level, c, n) == Prepend([node], PeListFrom(lib, dir, level, c + 1, n));
    PrependAssoc(done, [node], PeListFrom(lib, dir, level, c + 1, n));
  }

  /** The loop lists exactly the entries c..n-1, each checked and decoded in turn. */
  lemma {:induction false} PeListFromShape(lib: Library, dir: nat, level: int, c: nat, n: nat)
    requires c <= n && PeListFrom(lib, dir, level, c, n).Ok?
    ensures var wrs := PeListFrom(lib, dir, level, c, n).value;
      |wrs| == n - c && forall i :: 0 <= i < |wrs| ==> PeEntryDecoded(lib, dir, level, c + i, wrs[i])
    decreases n - c
  {
    if c < n {
      PeListFromShape(lib, dir, level, c + 1, n);
      var wrs := PeListFrom(lib, dir, level, c, n).value;
      var rest := PeListFrom(lib, dir, level, c + 1, n).value;
      assert wrs == [wrs[0]] + rest;
      forall i | 0 < i < |wrs|
        ensures PeEntryDecoded(lib, dir, level, c + i, wrs[i])
      {
        var j := i - 1;
        assert PeEntryDecoded(lib, dir, level, (c + 1) + j, rest[j]);
        assert (c + 1) + j == c + i && wrs[i] == rest[j];
      }
    }
  }

  /** `list_pe_resources`. */
  function PeListing(lib: Library, dir: nat, level: int): (r: Result<seq<WinResource>>)
    ensures r.Err? ==> r.error == PrematureEnd
  {
    if !CheckOffset(|lib.memory|, EntryAt(dir, 0), DirEntrySize) then Err(PrematureEnd)
    else PeListFrom(lib, dir, level, 0, U16At(lib.memory, dir + 12) + U16At(lib.memory, dir + 14))
  }

  /**
   * A PE directory lists exactly named + id entries, all at the requested
   * level, each a directory iff bit 31 of its data word is set, with children
   * at the root plus the low 31 bits, and each id decoded from the name word.
   */
  lemma PeListingShape(lib: Library, dir: nat, level: int)
    requires PeListing(lib, dir, level).Ok?
    ensures var m, wrs := lib.memory, PeListing(lib, dir, level).value;
      EntryAt(dir, 0) + DirEntrySize <= |m| &&
      |wrs| == U16At(m, dir + 12) + U16At(m, dir + 14) &&
      forall i :: 0 <= i < |wrs| ==>
        PeEntryDecoded(lib, dir, level, i, wrs[i]) &&
        var data := U32At(m, EntryAt(dir, i) + 4);
        wrs[i].level == level && wrs[i].record == dir &&
        (wrs[i].isDirectory <==> data >= NameIsString) &&
        wrs[i].children == lib.firstResource + data % NameIsString
  {
    PeListFromShape(lib, dir, level, 0, U16At(lib.memory, dir + 12) + U16At(lib.memory, dir + 14));
  }

  /** `list_pe_resources`, filling an array of nodes entry by entry. */
  method ListPeResources(lib: Library, dir: nat, level: int) returns (r: Result<seq<WinResource>>)
    ensures r == PeListing(lib, dir, level)
  {
    var m := lib.memory;
    if !CheckOffset(|m|, EntryAt(dir, 0), DirEntrySize) {
      return Err(PrematureEnd);
    }
    var rescnt := U16At(m, dir + 12) + U16At(m, dir + 14);
    ghost var spec := PeListFrom(lib, dir, level, 0, rescnt);
    var wr := new WinResource[rescnt](_ => EmptyHolder);
    PrependNothing(spec);
    for c := 0 to rescnt
      invariant spec == Prepend(wr[..c], PeListFrom(lib, dir, level, c, rescnt))
    {
      var e := EntryAt(dir, c);
      if !CheckOffset(|m|, e, DirEntrySize) {
        return Err(PrematureEnd);
      }
      var id := DecodePeResourceId(lib, U32At(m, e));
      if id.Err? {
        return Err(id.error);
      }
      ghost var before := wr[..];
      PeListFromStep(lib, dir, level, c, rescnt, id.value, spec, before[..c]);
      wr[c] := PeNode(lib, dir, level, c, id.value);
      FilledOneMore(before, wr[..], c);
    }
    assert wr[..] == wr[..rescnt] + [];
    return Ok(wr[..]);
  }

  /** The offset of name record `c` after a type record whose names start at `names`. */
  function NameInfoAt(names: nat, c: nat): nat
  {
    names + NameInfoSize * c
  }

  /** Name record `c` and its id are as `list_ne_name_resources` decodes them: a level-1 leaf on its own record. */
  predicate NeNameDecoded(lib: Library, names: nat, c: nat, wr: WinResource)
  {
    var e := NameInfoAt(names, c);
    e + NameInfoSize <= |lib.memory| &&
    DecodeNeId(lib, U16At(lib.memory, e + 6)) == Ok(wr.id) &&
    wr == WinResource(wr.id, e, e, 1, false)
  }

  /** The loop of `list_ne_name_resources` from record `c` of `n`. */
  function NeNameListFrom(lib: Library, names: nat, c: nat, n: nat): (r: Result<seq<WinResource>>)
    requires c <= n
    ensures r.Err? ==> r.error in {PrematureEnd, OutOfBounds}
    decreases n - c
  {
    if c == n then Ok([])
    else
      var e := NameInfoAt(names, c);
      if !CheckOffset(|lib.memory|, e, NameInfoSize) then Err(PrematureEnd)
      else
        var id :- DecodeNeId(lib, U16At(lib.memory, e + 6));
        Prepend([WinResource(id, e, e, 1, false)], NeNameListFrom(lib, names, c + 1, n))
  }

  /** The loop lists exactly the name records c..n-1, each checked and decoded in turn. */
  lemma {:induction false} NeNameListFromShape(lib: Library, names: nat, c: nat, n: nat)
    requires c <= n && NeNameListFrom(lib, names, c, n).Ok?
    ensures var wrs := NeNameListFrom(lib, names, c, n).value;
      |wrs| == n - c && forall i :: 0 <= i < |wrs| ==> NeNameDecoded(lib, names, c + i, wrs[i])
    decreases n - c
  {
    if c < n {
      NeNameListFromShape(lib, names, c + 1, n);
      var wrs := NeNameListFrom(lib, names, c, n).value;
      var rest := NeNameListFrom(lib, names, c + 1, n).value;
      assert wrs == [wrs[0]] + rest;
      forall i | 0 < i < |wrs|
        ensures NeNameDecoded(lib, names, c + i, wrs[i])
      {
        assert wrs[i] == rest[i - 1];
      }
    }
  }

  /** `list_ne_name_resources`. */
  function NeNameListing(lib: Library, typeres: WinResource): (r: Result<seq<WinResource>>)
    ensures r.Err? ==> r.error in {PrematureEnd, OutOfBounds}
  {
    var count :- ReadU16(lib.memory, typeres.record + 2);
    NeNameListFrom(lib, typeres.children, 0, count)
  }

  /** An NE type lists as many level-1 leaves as its checked count, one per name record. */
  lemma NeNameListingShape(lib: Library, typeres: WinResource)
    requires NeNameListing(lib, typeres).Ok?
    ensures var m, wrs := lib.memory, NeNameListing(lib, typeres).value;
      typeres.record + 4 <= |m| && |wrs| == U16At(m, typeres.record + 2) &&
      forall i :: 0 <= i < |wrs| ==>
        NeNameDecoded(lib, typeres.children, i, wrs[i]) && wrs[i].level == 1 && !wrs[i].isDirectory
  {
    NeNameListFromShape(lib, typeres.children, 0, U16At(lib.memory, typeres.record + 2));
  }

  /** `list_ne_name_resources`, filling an array of nodes record by record. */
  method ListNeNameResources(lib: Library, typeres: WinResource) returns (r: Result<seq<WinResource>>)
    ensures r == NeNameListing(lib, typeres)
  {
    var m := lib.memory;
    if !CheckOffset(|m|, typeres.record + 2, 2) {
      return Err(PrematureEnd);
    }
    var rescnt := U16At(m, typeres.record + 2);
    ghost var spec := NeNameListFrom(lib, typeres.children, 0, rescnt);
    var wr := new WinResource[rescnt](_ => EmptyHolder);
    PrependNothing(spec);
    for c := 0 to rescnt
      invariant spec == Prepend(wr[..c], NeNameListFrom(lib, typeres.children, c, rescnt))
    {
      var e := NameInfoAt(typeres.children, c);
      if !CheckOffset(|m|, e, NameInfoSize) {
        return Err(PrematureEnd);
      }
      var id := DecodeNeId(lib, U16At(m, e + 6));
      if id.Err? {
        return Err(id.error);
      }
      ghost var done := wr[..c];
      wr[c] := WinResource(id.value, e, e, 1, false);
      assert wr[..c + 1] == done + [wr[c]];
      PrependAssoc(done, [wr[c]], NeNameListFrom(lib, typeres.children, c + 1, rescnt));
    }
    assert wr[..] == wr[..rescnt] + [];
    return Ok(wr[..]);
  }

  /** `NE_TYPEINFO_NEXT`: the type record after the one at `rel` and its `count` name records. */
  function NextTypeInfo(m: seq<Byte>, rel: nat): nat
    requires rel + 4 <= |m|
  {
    rel + TypeInfoSize + NameInfoSize * U16At(m, rel + 2)
  }

  /** The record where the counting loop stops after visiting `chain` from `rel`. */
  function ChainStop(m: seq<Byte>, rel: nat, chain: seq<nat>): nat
    requires |chain| > 0 ==> chain[|chain| - 1] + 4 <= |m|
  {
    if |chain| == 0 then rel else NextTypeInfo(m, chain[|chain| - 1])
  }

  /**
   * The counting loop of `list_ne_type_resources` from the checked record at
   * `rel`: the records it counts.  It stops at a `type_id` of 0, and also,
   * warning, at a record whose successor's `type_id` would lie past the end;
   * that record is not counted.  A successor it cannot check is an error.
   */
  function NeTypeChain(m: seq<Byte>, rel: nat): (r: Result<seq<nat>>)
    requires rel + TypeInfoSize <= |m|
    ensures r.Err? ==> r.error == PrematureEnd
    decreases |m| - rel
  {
    if U16At(m, rel) == 0 || NextTypeInfo(m, rel) + 2 > |m| then Ok([])
    else if !CheckOffset(|m|, NextTypeInfo(m, rel), TypeInfoSize) then Err(PrematureEnd)
    else Prepend([rel], NeTypeChain(m, NextTypeInfo(m, rel)))
  }

  /**
   * The counted records start at `rel`, follow one another by
   * `NE_TYPEINFO_NEXT`, are checked and have nonzero type ids; the record where
   * counting stops is checked and has type id 0 or a successor past the end.
   */
  lemma {:induction false} NeTypeChainShape(m: seq<Byte>, rel: nat)
    requires rel + TypeInfoSize <= |m| && NeTypeChain(m, rel).Ok?
    ensures var ch := NeTypeChain(m, rel).value;
      (forall i :: 0 <= i < |ch| ==> ch[i] + TypeInfoSize <= |m| && U16At(m, ch[i]) != 0) &&
      (|ch| > 0 ==> ch[0] == rel) &&
      (forall i :: 0 <= i < |ch| - 1 ==> ch[i + 1] == NextTypeInfo(m, ch[i])) &&
      var stop := ChainStop(m, rel, ch);
      stop + TypeInfoSize <= |m| && (U16At(m, stop) == 0 || NextTypeInfo(m, stop) + 2 > |m|)
    decreases |m| - rel
  {
    if !(U16At(m, rel) == 0 || NextTypeInfo(m, rel) + 2 > |m|) {
      var next := NextTypeInfo(m, rel);
      NeTypeChainShape(m, next);
      var ch := NeTypeChain(m, rel).value;
      var rest := NeTypeChain(m, next).value;
      assert ch == [rel] + rest;
      assert forall i :: 0 < i < |ch| ==> ch[i] == rest[i - 1];
      assert ChainStop(m, rel, ch) == ChainStop(m, next, rest);
    }
  }

  /** The node `list_ne_type_resources` makes of the record at `rel`. */
  function NeTypeNode(lib: Library, rel: nat, id: ResId): WinResource
    requires rel + TypeInfoSize <= |lib.memory|
  {
    WinResource(id, rel, rel + TypeInfoSize, 0, U16At(lib.memory, rel + 2) != 0)
  }

  /** The filling loop of `list_ne_type_resources` over the counted records. */
  function NeTypeNodes(lib: Library, chain: seq<nat>): (r: Result<seq<WinResource>>)
    requires forall i :: 0 <= i < |chain| ==> chain[i] + TypeInfoSize <= |lib.memory|
    ensures r.Err? ==> r.error in {PrematureEnd, OutOfBounds}
  {
    if chain == [] then Ok([])
    else
      var id :- DecodeNeId(lib, U16At(lib.memory, chain[0]));
      Prepend([NeTypeNode(lib, chain[0], id)], NeTypeNodes(lib, chain[1..]))
  }

  /** One node per counted record, in order. */
  lemma {:induction false} NeTypeNodesShape(lib: Library, chain: seq<nat>)
    requires forall i :: 0 <= i < |chain| ==> chain[i] + TypeInfoSize <= |lib.memory|
    requires NeTypeNodes(lib, chain).Ok?
    ensures var wrs := NeTypeNodes(lib, chain).value;
      |wrs| == |chain| &&
      forall i :: 0 <= i < |chain| ==>
        DecodeNeId(lib, U16At(lib.memory, chain[i])) == Ok(wrs[i].id) &&
        wrs[i] == NeTypeNode(lib, chain[i], wrs[i].id)
  {
    if chain != [] {
      NeTypeNodesShape(lib, chain[1..]);
      var wrs := NeTypeNodes(lib, chain).value;
      var rest := NeTypeNodes(lib, chain[1..]).value;
      assert wrs == [wrs[0]] + rest;
      assert forall i :: 0 < i < |chain| ==> wrs[i] == rest[i - 1] && chain[i] == chain[1..][i - 1];
    }
  }

  /** `list_ne_type_resources`. */
  function NeTypeListing(lib: Library): (r: Result<seq<WinResource>>)
    ensures r.Err? ==> r.error in {PrematureEnd, OutOfBounds}
  {
    var m := lib.memory;
    if !CheckOffset(|m|, lib.firstResource, TypeInfoSize) then Err(PrematureEnd)
    else
      var chain :- NeTypeChain(m, lib.firstResource);
      NeTypeChainShape(m, lib.firstResource);
      NeTypeNodes(lib, chain)
  }

  /**
   * The NE type level: nodes follow one another by `NE_TYPEINFO_NEXT` from the
   * root, are level-0, have nonzero type ids, are directories iff their count is
   * not 0, and the record after the last has type id 0 or runs off the image.
   */
  lemma NeTypeListingShape(lib: Library)
    requires NeTypeListing(lib).Ok?
    ensures var m, wrs := lib.memory, NeTypeListing(lib).value;
      (forall i :: 0 <= i < |wrs| ==>
        wrs[i].record + TypeInfoSize <= |m| && wrs[i].level == 0 && U16At(m, wrs[i].record) != 0 &&
        wrs[i].children == wrs[i].record + TypeInfoSize &&
        (wrs[i].isDirectory <==> U16At(m, wrs[i].record + 2) != 0)) &&
      (|wrs| > 0 ==> wrs[0].record == lib.firstResource) &&
      (forall i :: 0 <= i < |wrs| - 1 ==> wrs[i + 1].record == NextTypeInfo(m, wrs[i].record)) &&
      var stop := if |wrs| == 0 then lib.firstResource else NextTypeInfo(m, wrs[|wrs| - 1].record);
      stop + TypeInfoSize <= |m| && (U16At(m, stop) == 0 || NextTypeInfo(m, stop) + 2 > |m|)
  {
    var m := lib.memory;
    var chain := NeTypeChain(m, lib.firstResource).value;
    NeTypeChainShape(m, lib.firstResource);
    NeTypeNodesShape(lib, chain);
    var wrs := NeTypeNodes(lib, chain).value;
    assert NeTypeListing(lib).value == wrs;
    assert forall i :: 0 <= i < |wrs| ==> wrs[i].record == chain[i];
  }

  /** One step of the counting loop. */
  lemma NeTypeChainStep(m: seq<Byte>, rel: nat)
    requires rel + TypeInfoSize <= |m| && U16At(m, rel) != 0 && NextTypeInfo(m, rel) + 2 <= |m|
    requires CheckOffset(|m|, NextTypeInfo(m, rel), TypeInfoSize)
    ensures NeTypeChain(m, rel) == Prepend([rel], NeTypeChain(m, NextTypeInfo(m, rel)))
  {
  }

  /** One step of the filling loop. */
  lemma NeTypeNodesStep(lib: Library, chain: seq<nat>, id: ResId)
    requires chain != [] && forall i :: 0 <= i < |chain| ==> chain[i] + TypeInfoSize <= |lib.memory|
    requires DecodeNeId(lib, U16At(lib.memory, chain[0])) == Ok(id)
    ensures NeTypeNodes(lib, chain) == Prepend([NeTypeNode(lib, chain[0], id)], NeTypeNodes(lib, chain[1..]))
  {
  }

  /** The counting walk of `list_ne_type_resources` along `NE_TYPEINFO_NEXT`. */
  method CountNeTypeResources(lib: Library) returns (r: Result<nat>, ghost visited: seq<nat>)
    requires CheckOffset(|lib.memory|, lib.firstResource, TypeInfoSize)
    ensures r.Ok? <==> NeTypeChain(lib.memory, lib.firstResource).Ok?
    ensures r.Ok? ==> visited == NeTypeChain(lib.memory, lib.firstResource).value && r.value == |visited|
    ensures r.Err? ==> r.error == PrematureEnd
  {
    var m := lib.memory;
    var typeinfo := lib.firstResource;
    var rescnt := 0;
    visited := [];
    PrependNothing(NeTypeChain(m, typeinfo));
    while U16At(m, typeinfo) != 0
      invariant typeinfo + TypeInfoSize <= |m|
      invariant rescnt == |visited|
      invariant NeTypeChain(m, lib.firstResource) == Prepend(visited, NeTypeChain(m, typeinfo))
      decreases |m| - typeinfo
    {
      if NextTypeInfo(m, typeinfo) + 2 > |m| {
        break;
      }
      var next := NextTypeInfo(m, typeinfo);
      if !CheckOffset(|m|, next, TypeInfoSize) {
        return Err(PrematureEnd), visited;
      }
      NeTypeChainStep(m, typeinfo);
      PrependAssoc(visited, [typeinfo], NeTypeChain(m, next));
      visited := visited + [typeinfo];
      typeinfo := next;
      rescnt := rescnt + 1;
    }
    assert NeTypeChain(m, typeinfo) == Ok([]);
    assert visited + [] == visited;
    return Ok(rescnt), visited;
  }

  /** The filling walk of `list_ne_type_resources` over the `rescnt` counted records. */
  method FillNeTypeResources(lib: Library, rescnt: nat, ghost chain: seq<nat>) returns (r: Result<seq<WinResource>>)
    requires |chain| == rescnt && (rescnt > 0 ==> chain[0] == lib.firstResource)
    requires forall i :: 0 <= i < |chain| ==> chain[i] + TypeInfoSize <= |lib.memory|
    requires forall i :: 0 <= i < |chain| - 1 ==> chain[i + 1] == NextTypeInfo(lib.memory, chain[i])
    ensures r == NeTypeNodes(lib, chain)
  {
    var m := lib.memory;
    var wr := new WinResource[rescnt](_ => EmptyHolder);
    var typeinfo := lib.firstResource;
    PrependNothing(NeTypeNodes(lib, chain));
    assert chain[0..] == chain;
    for c := 0 to rescnt
      invariant c < rescnt ==> typeinfo == chain[c]
      invariant NeTypeNodes(lib, chain) == Prepend(wr[..c], NeTypeNodes(lib, chain[c..]))
    {
      var id := DecodeNeId(lib, U16At(m, typeinfo));
      if id.Err? {
        return Err(id.error);
      }
      NeTypeNodesStep(lib, chain[c..], id.value);
      ghost var done := wr[..c];
      wr[c] := WinResource(id.value, typeinfo, typeinfo + TypeInfoSize, 0, U16At(m, typeinfo + 2) != 0);
      assert wr[..c + 1] == done + [wr[c]];
      assert chain[c..][1..] == chain[c + 1..];
      PrependAssoc(done, [wr[c]], NeTypeNodes(lib, chain[c + 1..]));
      typeinfo := NextTypeInfo(m, typeinfo);
    }
    assert wr[..] == wr[..rescnt] + [];
    return Ok(wr[..]);
  }

  /** `list_ne_type_resources`: a counting walk, then a filling walk over the same records. */
  method ListNeTypeResources(lib: Library) returns (r: Result<seq<WinResource>>)
    ensures r == NeTypeListing(lib)
  {
    var m := lib.memory;
    if !CheckOffset(|m|, lib.firstResource, TypeInfoSize) {
      return Err(PrematureEnd);
    }
    var count;
    ghost var visited;
    count, visited := CountNeTypeResources(lib);
    if count.Err? {
      return Err(count.error);
    }
    NeTypeChainShape(m, lib.firstResource);
    r := FillNeTypeResources(lib, count.value, visited);
  }

  /**
   * `list_resources`: the children of a directory node, or the root level
   * for no node.  A leaf has no list.
   */
  function Listing(lib: Library, res: Option<WinResource>): (r: Result<seq<WinResource>>)
    ensures res.Some? && !res.value.isDirectory ==> r == Err(InvalidParam)
  {
    if res.Some? && !res.value.isDirectory then Err(InvalidParam)
    else if lib.isPE then
      PeListing(lib, if res.None? then lib.firstResource else res.value.children,
                if res.None? then 0 else res.value.level + 1)
    else if res.None? then NeTypeListing(lib)
    else NeNameListing(lib, res.value)
  }

  /** `list_resources`. */
  method ListResources(lib: Library, res: Option<WinResource>) returns (r: Result<seq<WinResource>>)
    ensures r == Listing(lib, res)
  {
    if res.Some? && !res.value.isDirectory {
      return Err(InvalidParam);
    }
    if lib.isPE {
      r := ListPeResources(lib, if res.None? then lib.firstResource else res.value.children,
                           if res.None? then 0 else res.value.level + 1);
    } else if res.None? {
      r := ListNeTypeResources(lib);
    } else {
      r := ListNeNameResources(lib, res.value);
    }
  }

  /** Every PE level sits one below its parent, at 0 under the root. */
  lemma PeLevels(lib: Library, res: Option<WinResource>)
    requires lib.isPE && Listing(lib, res).Ok?
    ensures forall wr :: wr in Listing(lib, res).value ==> wr.level == if res.None? then 0 else res.value.level + 1
  {
    PeListingShape(lib, if res.None? then lib.firstResource else res.value.children,
                   if res.None? then 0 else res.value.level + 1);
  }

  /** NE has two levels: types under the root, leaves under a type. */
  lemma NeLevels(lib: Library, res: Option<WinResource>)
    requires !lib.isPE && Listing(lib, res).Ok?
    ensures forall wr :: wr in Listing(lib, res).value ==>
      (res.None? ==> wr.level == 0) && (res.Some? ==> wr.level == 1 && !wr.isDirectory)
  {
    if res.None? {
      NeTypeListingShape(lib);
    } else {
      NeNameListingShape(lib, res.value);
    }
  }

  // ---------------------------------------------------------------- data of a leaf

  /** A block of the image: `size` bytes from `offset`. */
  datatype Span = Span(offset: nat, size: nat)

  function Pow2(n: nat): (p: nat)
    ensures p >= 1
  {
    if n == 0 then 1 else 2 * Pow2(n - 1)
  }

  /**
   * `v << shift` on a C `int` with `v` non-negative is defined exactly when
   * the shift count is below 32 and the product still fits in an `int`.
   */
  predicate ShiftFits(v: nat, shift: nat)
  {
    shift < 32 && v * Pow2(shift) < TwoTo31
  }

  /**
   * `get_resource_entry`: for PE the data entry at `children` (checked) gives
   * the offset and size of the data; the size is stored into an `int`, so a
   * stored size of 2^31 or more becomes negative, and the check runs on that
   * narrowed size. For NE the name record at `children` gives offset and
   * length, each shifted left (as an `int`) by the word just before the first
   * type record. A negative size that passes the check, and a shift C leaves
   * undefined, end in `OutOfBounds`.
   */
  function GetResourceEntry(lib: Library, wr: WinResource): (r: Result<Span>)
    ensures r.Ok? ==> r.value.offset + r.value.size <= |lib.memory| && r.value.size < TwoTo31
    ensures r.Err? ==> r.error in {PrematureEnd, OutOfBounds}
  {
    var m := lib.memory;
    if lib.isPE then
      if !CheckOffset(|m|, wr.children, DataEntrySize) then Err(PrematureEnd)
      else
        var offset, size := U32At(m, wr.children), Int32(U32At(m, wr.children + 4));
        if !CheckOffset(|m|, offset, size) then Err(PrematureEnd)
        else if size < 0 then Err(OutOfBounds)
        else Ok(Span(offset, size))
    else
      var shift :- if lib.firstResource >= 2 then PeekU16(m, lib.firstResource - 2) else Err(OutOfBounds);
      var offset :- PeekU16(m, wr.children);
      var length :- PeekU16(m, wr.children + 2);
      if !ShiftFits(length, shift) || !ShiftFits(offset, shift) then Err(OutOfBounds)
      else
        var span := Span(offset * Pow2(shift), length * Pow2(shift));
        if CheckOffset(|m|, span.offset, span.size) then Ok(span) else Err(PrematureEnd)
  }

  /**
   * PE: the span is the data entry's `offset_to_data` and `size`, given only
   * after both checks pass on the size narrowed to an `int` and that size is
   * not negative; a negative narrowed size that passes the check is the
   * `OutOfBounds` case.
   */
  lemma PeEntrySpan(lib: Library, wr: WinResource)
    requires lib.isPE
    ensures var m := lib.memory; var r := GetResourceEntry(lib, wr);
      r.Ok? <==> (CheckOffset(|m|, wr.children, DataEntrySize) &&
                  CheckOffset(|m|, U32At(m, wr.children), Int32(U32At(m, wr.children + 4))) &&
                  U32At(m, wr.children + 4) < TwoTo31)
    ensures var m := lib.memory; var r := GetResourceEntry(lib, wr);
      r.Ok? ==> r.value == Span(U32At(m, wr.children), U32At(m, wr.children + 4))
    ensures var m := lib.memory; var r := GetResourceEntry(lib, wr);
      r == Err(OutOfBounds) <==> (CheckOffset(|m|, wr.children, DataEntrySize) &&
                                  CheckOffset(|m|, U32At(m, wr.children), Int32(U32At(m, wr.children + 4))) &&
                                  U32At(m, wr.children + 4) >= TwoTo31)
  {
  }

  /**
   * A stored size of 0xFFFF_FFF0 is -16 as an `int`: a data entry at 0x20
   * of a 0x40-byte image passes the check (0x20 - 16 is inside the image),
   * and the model then refuses the negative size.
   */
  lemma PeNegativeSizePasses(lib: Library, wr: WinResource)
    requires lib.isPE && |lib.memory| == 0x40 && wr.children == 0
    requires U32At(lib.memory, 0) == 0x20 && U32At(lib.memory, 4) == 0xFFFF_FFF0
    ensures Int32(U32At(lib.memory, 4)) == -16
    ensures CheckOffset(|lib.memory|, 0x20, Int32(U32At(lib.memory, 4)))
    ensures GetResourceEntry(lib, wr) == Err(OutOfBounds)
  {
    assert Int32(0xFFFF_FFF0) == -16;
  }

  /** NE: offset and length are the name record's first two words shifted by the alignment word. */
  lemma NeEntrySpan(lib: Library, wr: WinResource)
    requires !lib.isPE && GetResourceEntry(lib, wr).Ok?
    ensures var m := lib.memory; var span := GetResourceEntry(lib, wr).value;
      2 <= lib.firstResource && wr.children + 4 <= |m| &&
      var shift := U16At(m, lib.firstResource - 2);
      ShiftFits(U16At(m, wr.children), shift) && ShiftFits(U16At(m, wr.children + 2), shift) &&
      span == Span(U16At(m, wr.children) * Pow2(shift), U16At(m, wr.children + 2) * Pow2(shift))
  {
  }

  /** NE: a shift C leaves undefined (32 or more, or one that overflows an `int`) gives `OutOfBounds`. */
  lemma NeShiftUndefined(lib: Library, wr: WinResource)
    requires !lib.isPE && 2 <= lib.firstResource <= |lib.memory| && wr.children + 4 <= |lib.memory|
    ensures var m := lib.memory; var shift := U16At(m, lib.firstResource - 2);
      !ShiftFits(U16At(m, wr.children), shift) || !ShiftFits(U16At(m, wr.children + 2), shift) <==>
      GetResourceEntry(lib, wr) == Err(OutOfBounds)
  {
  }

  // ---------------------------------------------------------------- lookup

  /** The first node of `list` that `sel` selects, if any. */
  function FirstMatch(list: seq<WinResource>, sel: string): (r: Option<WinResource>)
    ensures r.Some? ==> r.value in list && CompareResourceId(r.value.id, sel)
  {
    if list == [] then None
    else if CompareResourceId(list[0].id, sel) then Some(list[0])
    else FirstMatch(list[1..], sel)
  }

  /** Skipping nodes `sel` does not select leaves the first match unchanged. */
  lemma {:induction false} FirstMatchSkips(list: seq<WinResource>, sel: string, c: nat)
    requires c <= |list| && forall j :: 0 <= j < c ==> !CompareResourceId(list[j].id, sel)
    ensures FirstMatch(list, sel) == FirstMatch(list[c..], sel)
  {
    if c > 0 {
      assert list[1..][c - 1..] == list[c..];
      FirstMatchSkips(list[1..], sel, c - 1);
    }
  }

  /** The first match is the node at the least index `sel` selects; there is none iff no node is selected. */
  lemma FirstMatchIsFirst(list: seq<WinResource>, sel: string)
    ensures FirstMatch(list, sel).None? <==> forall i :: 0 <= i < |list| ==> !CompareResourceId(list[i].id, sel)
    ensures FirstMatch(list, sel).Some? ==>
      exists i :: 0 <= i < |list| && list[i] == FirstMatch(list, sel).value &&
        CompareResourceId(list[i].id, sel) && forall j :: 0 <= j < i ==> !CompareResourceId(list[j].id, sel)
  {
    var i := 0;
    while i < |list| && !CompareResourceId(list[i].id, sel)
      invariant i <= |list| && forall j :: 0 <= j < i ==> !CompareResourceId(list[j].id, sel)
    {
      i := i + 1;
    }
    FirstMatchSkips(list, sel, i);
  }

  /** `find_with_resource_array`: the first node under `wr` that `id` selects; nothing when the level cannot be listed. */
  function FindIn(lib: Library, wr: Option<WinResource>, id: string): Option<WinResource>
  {
    var list := Listing(lib, wr);
    if list.Err? then None else FirstMatch(list.value, id)
  }

  /** `find_with_resource_array`: list the level, return a copy of the first node `id` selects. */
  method FindWithResourceArray(lib: Library, wr: Option<WinResource>, id: string) returns (r: Option<WinResource>)
    ensures r == FindIn(lib, wr, id)
  {
    var list := ListResources(lib, wr);
    if list.Err? {
      return None;
    }
    var rescnt := |list.value|;
    for c := 0 to rescnt
      invariant forall j :: 0 <= j < c ==> !CompareResourceId(list.value[j].id, id)
    {
      if CompareResourceId(list.value[c].id, id) {
        FirstMatchSkips(list.value, id, c);
        return Some(list.value[c]);
      }
    }
    FirstMatchSkips(list.value, id, rescnt);
    return None;
  }

  /** What `find_resource` returns: a node (or none) and the depth reached in `*level`. */
  datatype Found = Found(res: Option<WinResource>, level: nat)

  /**
   * `find_resource`: select the type under the root, then a name under a
   * type directory, then a language under a name directory, stopping at a
   * missing selector or a leaf.
   */
  function Find(lib: Library, typeSel: Option<string>, nameSel: Option<string>, langSel: Option<string>): (f: Found)
    ensures f.level <= 2
    ensures typeSel.None? ==> f == Found(None, 0)
  {
    if typeSel.None? then Found(None, 0)
    else
      var t := FindIn(lib, None, typeSel.value);
      if t.None? || !t.value.isDirectory then Found(t, 0)
      else if nameSel.None? then Found(t, 1)
      else
        var n := FindIn(lib, t, nameSel.value);
        if n.None? || !n.value.isDirectory then Found(n, 1)
        else if langSel.None? then Found(n, 2)
        else Found(FindIn(lib, n, langSel.value), 2)
  }

  /** `find_resource`. */
  method FindResource(lib: Library, typeSel: Option<string>, nameSel: Option<string>, langSel: Option<string>)
    returns (r: Option<WinResource>, level: nat)
    ensures Found(r, level) == Find(lib, typeSel, nameSel, langSel)
  {
    level := 0;
    if typeSel.None? {
      return None, level;
    }
    r := FindWithResourceArray(lib, None, typeSel.value);
    if r.None? || !r.value.isDirectory {
      return r, level;
    }
    level := 1;
    if nameSel.None? {
      return r, level;
    }
    r := FindWithResourceArray(lib, r, nameSel.value);
    if r.None? || !r.value.isDirectory {
      return r, level;
    }
    level := 2;
    if langSel.None? {
      return r, level;
    }
    r := FindWithResourceArray(lib, r, langSel.value);
  }

  /**
   * The node found is the first one at its depth that the selector of that
   * depth picks, below the directories picked above it; depth 0 or 1 is
   * reported with a leaf or a missing next selector.
   */
  lemma FindPath(lib: Library, typeSel: Option<string>, nameSel: Option<string>, langSel: Option<string>)
    requires typeSel.Some?
    ensures var f, t := Find(lib, typeSel, nameSel, langSel), FindIn(lib, None, typeSel.value);
      (f.level == 0 ==> f.res == t && (t.Some? ==> !t.value.isDirectory)) &&
      (f.level >= 1 ==> t.Some? && t.value.isDirectory) &&
      (f.level == 1 && nameSel.Some? ==>
        f.res == FindIn(lib, t, nameSel.value) && (f.res.Some? ==> !f.res.value.isDirectory)) &&
      (f.level == 1 && nameSel.None? ==> f.res == t) &&
      (f.level == 2 ==>
        nameSel.Some? &&
        var n := FindIn(lib, t, nameSel.value);
        (n.Some? && n.value.isDirectory &&
         f.res == (if langSel.None? then n else FindIn(lib, n, langSel.value))))
  {
  }

  /** A node found at depth d came out of the listing below its parent and is selected by the selector of depth d. */
  lemma FoundIsSelected(lib: Library, parent: Option<WinResource>, sel: string)
    requires FindIn(lib, parent, sel).Some?
    ensures Listing(lib, parent).Ok?
    ensures FindIn(lib, parent, sel).value in Listing(lib, parent).value
    ensures CompareResourceId(FindIn(lib, parent, sel).value.id, sel)
  {
  }

  // ---------------------------------------------------------------- walking the tree

  /** The `type`, `name` and `lang` selectors given to `do_resources`; `None` is NULL. */
  datatype Selectors = Selectors(typeSel: Option<string>, nameSel: Option<string>, langSel: Option<string>)

  /** `WINRESOURCE_BY_LEVEL`: level 0 uses the type holder, 1 the name holder, any other the language holder. */
  function HolderIndex(level: int): (i: nat)
    ensures i < 3
  {
    if level == 0 then 0 else if level == 1 then 1 else 2
  }

  /** `LEVEL_MATCHES`: no selector, an empty holder, or a selector that picks the holder's id. */
  predicate LevelMatches(sel: Option<string>, holder: WinResource)
  {
    sel.None? || IdText(holder.id) == [] || CompareResourceId(holder.id, sel.value)
  }

  predicate AllMatch(sels: Selectors, holders: seq<WinResource>)
    requires |holders| == 3
  {
    LevelMatches(sels.typeSel, holders[0]) && LevelMatches(sels.nameSel, holders[1]) &&
    LevelMatches(sels.langSel, holders[2])
  }

  /** One call of the callback: the node and the three holders as they were at the call. */
  datatype Visit = Visit(wr: WinResource, holders: seq<WinResource>)

  /**
   * `do_resources_recurs` below `base`, with at most `fuel` levels: the final
   * holders and the callback's calls in order.  When the level cannot be
   * listed nothing happens; otherwise each node overwrites its level's holder,
   * and when all three levels match the walk descends into it if the FIRST
   * node of the level is a directory and calls back otherwise; at the end the
   * holder of the first node's level is cleared.
   */
  function Walk(lib: Library, base: Option<WinResource>, holders: seq<WinResource>, sels: Selectors, fuel: nat)
    : (w: (seq<WinResource>, seq<Visit>))
    requires |holders| == 3
    ensures |w.0| == 3
    decreases fuel, 1, 0
  {
    if fuel == 0 then (holders, [])
    else
      var list := Listing(lib, base);
      if list.Err? then (holders, [])
      else
        var w := WalkFrom(lib, list.value, 0, holders, sels, fuel - 1);
        if list.value == [] then w
        else (w.0[HolderIndex(list.value[0].level) := EmptyHolder], w.1)
  }

  /** The loop of `do_resources_recurs` from node `c` of the level `list`. */
  function WalkFrom(lib: Library, list: seq<WinResource>, c: nat, holders: seq<WinResource>, sels: Selectors, fuel: nat)
    : (w: (seq<WinResource>, seq<Visit>))
    requires |holders| == 3 && c <= |list|
    ensures |w.0| == 3
    decreases fuel + 1, 0, |list| - c
  {
    if c == |list| then (holders, [])
    else
      var h := holders[HolderIndex(list[c].level) := list[c]];
      if !AllMatch(sels, h) then WalkFrom(lib, list, c + 1, h, sels, fuel)
      else if list[0].isDirectory then
        var below := Walk(lib, Some(list[c]), h, sels, fuel);
        var rest := WalkFrom(lib, list, c + 1, below.0, sels, fuel);
        (rest.0, below.1 + rest.1)
      else
        var rest := WalkFrom(lib, list, c + 1, h, sels, fuel);
        (rest.0, [Visit(list[c], h)] + rest.1)
  }

  /** `WalkFrom` from `c` is the step at `c` followed by `WalkFrom` from `c + 1`. */
  function WalkStep(lib: Library, list: seq<WinResource>, c: nat, holders: seq<WinResource>, sels: Selectors, fuel: nat)
    : (w: (seq<WinResource>, seq<Visit>))
    requires |holders| == 3 && c < |list|
    ensures |w.0| == 3
  {
    var h := holders[HolderIndex(list[c].level) := list[c]];
    if !AllMatch(sels, h) then (h, [])
    else if list[0].isDirectory then Walk(lib, Some(list[c]), h, sels, fuel)
    else (h, [Visit(list[c], h)])
  }

  lemma WalkFromStep(lib: Library, list: seq<WinResource>, c: nat, holders: seq<WinResource>, sels: Selectors, fuel: nat)
    requires |holders| == 3 && c < |list|
    ensures var s := WalkStep(lib, list, c, holders, sels, fuel);
      var rest := WalkFrom(lib, list, c + 1, s.0, sels, fuel);
      WalkFrom(lib, list, c, holders, sels, fuel) == (rest.0, s.1 + rest.1)
  {
    var h := holders[HolderIndex(list[c].level) := list[c]];
    if !AllMatch(sels, h) || !list[0].isDirectory {
      var rest := WalkFrom(lib, list, c + 1, h, sels, fuel);
      assert [] + rest.1 == rest.1;
    }
  }

  /** The loop's account of the walk carries over from node `c` to node `c + 1`. */
  lemma WalkFromNext(lib: Library, list: seq<WinResource>, c: nat, holders: seq<WinResource>, sels: Selectors, fuel: nat,
                     whole: (seq<WinResource>, seq<Visit>), done: seq<Visit>, after: seq<WinResource>, got: seq<Visit>)
    requires |holders| == 3 && c < |list|
    requires var rest := WalkFrom(lib, list, c, holders, sels, fuel); whole == (rest.0, done + rest.1)
    requires (after, got) == WalkStep(lib, list, c, holders, sels, fuel)
    ensures |after| == 3
    ensures var rest := WalkFrom(lib, list, c + 1, after, sels, fuel); whole == (rest.0, (done + got) + rest.1)
  {
    WalkFromStep(lib, list, c, holders, sels, fuel);
    var rest := WalkFrom(lib, list, c + 1, after, sels, fuel);
    assert done + (got + rest.1) == (done + got) + rest.1;
  }

  /**
   * `do_resources_recurs` on the three holders: overwrite, descend or call back,
   * then clear; the calls of the callback are returned in order.
   */
  method DoResourcesRecurs(lib: Library, base: Option<WinResource>, holders: array<WinResource>, sels: Selectors, fuel: nat)
    returns (visits: seq<Visit>)
    requires holders.Length == 3
    modifies holders
    ensures (holders[..], visits) == Walk(lib, base, old(holders[..]), sels, fuel)
    decreases fuel, 1
  {
    ghost var start := holders[..];
    if fuel == 0 {
      return [];
    }
    var list := ListResources(lib, base);
    if list.Err? {
      return [];
    }
    var wr := list.value;
    var rescnt := |wr|;
    ghost var whole := WalkFrom(lib, wr, 0, start, sels, fuel - 1);
    visits := [];
    assert [] + whole.1 == whole.1;
    for c := 0 to rescnt
      invariant holders.Length == 3
      invariant var rest := WalkFrom(lib, wr, c, holders[..], sels, fuel - 1);
        whole == (rest.0, visits + rest.1)
    {
      var got := VisitNode(lib, wr, c, holders, sels, fuel - 1, whole, visits);
      visits := visits + got;
    }
    assert visits + [] == visits;
    WalkListed(lib, base, start, sels, fuel, wr);
    if rescnt > 0 {
      holders[HolderIndex(wr[0].level)] := EmptyHolder;
    }
  }

  /** A walk whose level lists as `list`: the loop over it, then the level's holder cleared when it was not empty. */
  lemma WalkListed(lib: Library, base: Option<WinResource>, holders: seq<WinResource>, sels: Selectors, fuel: nat, list: seq<WinResource>)
    requires |holders| == 3 && fuel > 0 && Listing(lib, base) == Ok(list)
    ensures var w := WalkFrom(lib, list, 0, holders, sels, fuel - 1);
      Walk(lib, base, holders, sels, fuel) == if list == [] then w else (w.0[HolderIndex(list[0].level) := EmptyHolder], w.1)
  {
  }

  /**
   * The body of the loop of `do_resources_recurs` at node `c`: overwrite the
   * level's holder, then descend or call back.  The walk of the level,
   * `whole`, is the calls `done` so far followed by the walk from `c`; after
   * the step it is `done`, the step's calls and the walk from `c + 1`.
   */
  method VisitNode(lib: Library, wr: seq<WinResource>, c: nat, holders: array<WinResource>, sels: Selectors, fuel: nat,
                   ghost whole: (seq<WinResource>, seq<Visit>), ghost done: seq<Visit>)
    returns (got: seq<Visit>)
    requires holders.Length == 3 && c < |wr|
    requires var rest := WalkFrom(lib, wr, c, holders[..], sels, fuel); whole == (rest.0, done + rest.1)
    modifies holders
    ensures (holders[..], got) == WalkStep(lib, wr, c, old(holders[..]), sels, fuel)
    ensures var rest := WalkFrom(lib, wr, c + 1, holders[..], sels, fuel); whole == (rest.0, (done + got) + rest.1)
    decreases fuel + 1, 0
  {
    ghost var before := holders[..];
    holders[HolderIndex(wr[c].level)] := wr[c];
    assert holders[..] == before[HolderIndex(wr[c].level) := wr[c]];
    got := [];
    if AllMatch(sels, holders[..]) {
      if wr[0].isDirectory {
        got := DoResourcesRecurs(lib, Some(wr[c]), holders, sels, fuel);
      } else {
        got := [Visit(wr[c], holders[..])];
      }
    }
    WalkFromNext(lib, wr, c, before, sels, fuel, whole, done, holders[..], got);
  }

  /** `do_resources`: three fresh empty holders, then the walk from the root; the callback's calls in order. */
  method DoResources(lib: Library, sels: Selectors, fuel: nat) returns (visits: seq<Visit>)
    ensures visits == Walk(lib, None, [EmptyHolder, EmptyHolder, EmptyHolder], sels, fuel).1
  {
    var holders := new WinResource[3](_ => EmptyHolder);
    assert holders[..] == [EmptyHolder, EmptyHolder, EmptyHolder];
    visits := DoResourcesRecurs(lib, None, holders, sels, fuel);
  }

  /** Every call back sees three holders that all match the selectors, the node itself in its level's holder. */
  predicate VisitOk(sels: Selectors, v: Visit)
  {
    |v.holders| == 3 && AllMatch(sels, v.holders) && v.holders[HolderIndex(v.wr.level)] == v.wr
  }

  lemma {:induction false} WalkVisitsMatch(lib: Library, base: Option<WinResource>, holders: seq<WinResource>, sels: Selectors, fuel: nat)
    requires |holders| == 3
    ensures forall v :: v in Walk(lib, base, holders, sels, fuel).1 ==> VisitOk(sels, v)
    decreases fuel, 1, 0
  {
    if fuel > 0 && Listing(lib, base).Ok? {
      WalkFromVisitsMatch(lib, Listing(lib, base).value, 0, holders, sels, fuel - 1);
    }
  }

  lemma {:induction false} WalkFromVisitsMatch(lib: Library, list: seq<WinResource>, c: nat, holders: seq<WinResource>, sels: Selectors, fuel: nat)
    requires |holders| == 3 && c <= |list|
    ensures forall v :: v in WalkFrom(lib, list, c, holders, sels, fuel).1 ==> VisitOk(sels, v)
    decreases fuel + 1, 0, |list| - c
  {
    if c < |list| {
      var h := holders[HolderIndex(list[c].level) := list[c]];
      if !AllMatch(sels, h) {
        WalkFromVisitsMatch(lib, list, c + 1, h, sels, fuel);
      } else if list[0].isDirectory {
        var below := Walk(lib, Some(list[c]), h, sels, fuel);
        WalkVisitsMatch(lib, Some(list[c]), h, sels, fuel);
        WalkFromVisitsMatch(lib, list, c + 1, below.0, sels, fuel);
      } else {
        WalkFromVisitsMatch(lib, list, c + 1, h, sels, fuel);
      }
    }
  }

  /** After a walk of a non-empty level, the holder of its first node's level is empty again; an unlistable level changes nothing. */
  lemma WalkClears(lib: Library, base: Option<WinResource>, holders: seq<WinResource>, sels: Selectors, fuel: nat)
    requires |holders| == 3 && fuel > 0
    ensures var list := Listing(lib, base); var w := Walk(lib, base, holders, sels, fuel);
      (list.Err? ==> w == (holders, [])) &&
      (list.Ok? && list.value != [] ==> w.0[HolderIndex(list.value[0].level)] == EmptyHolder)
  {
  }
}
