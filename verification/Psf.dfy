/** The PARAM.SFO parser (crates/formats/src/psf.rs).

    A file is a 20-byte header, an index of 16-byte entries, a table of null-terminated keys
    and a table of values. `Parse` follows the source's cursor; `ParseFile` says what it
    computes; `Serialize` writes the layout of the file header comment, with the padding of
    the source's own test builder, and the round trip connects the two. Strings are their
    UTF-8 bytes, and which byte strings are valid UTF-8 is a parameter. */
module Psf {
  import opened Wrappers
  import opened Types
  import opened Bytes

  const PSF_MAGIC: nat := 0x00505346
  const PSF_MAGIC_SWAPPED: nat := 0x46535000

  const BINARY: nat := 0x0004
  const TEXT: nat := 0x0204
  const INTEGER: nat := 0x0404

  type Str = seq<byte>

  type i32 = x: int | -0x8000_0000 <= x < 0x8000_0000

  datatype PsfValue = Binary(bytes: seq<byte>) | Text(text: Str) | Integer(value: i32)

  datatype Psf = Psf(version: nat, entries: map<Str, PsfValue>)

  datatype PsfError = Io | InvalidMagic(magic: nat) | UnknownFormat(format: nat) | InvalidUtf8

  datatype RawIndexEntry = RawIndexEntry(keyOffset: nat, paramFmt: nat, paramLen: nat, dataOffset: nat)

  // ---------------------------------------------------------------------------
  // What the parser computes
  // ---------------------------------------------------------------------------

  function RawAt(d: seq<byte>, p: nat): RawIndexEntry
    requires p + 16 <= |d|
  {
    RawIndexEntry(U16At(d, p), U16At(d, p + 2), U32At(d, p + 4), U32At(d, p + 12))
  }

  /** The bytes from `p` to the next zero, if the file has one. */
  function CString(d: seq<byte>, p: nat): (r: Option<Str>)
    decreases |d| - p
  {
    if p >= |d| then None
    else if d[p] == 0 then Some([])
    else
      var rest := CString(d, p + 1);
      if rest.None? then None else Some([d[p]] + rest.value)
  }

  /** An exact read of `n` bytes; reading nothing succeeds anywhere. */
  function ReadExact(d: seq<byte>, p: nat, n: nat): Option<seq<byte>> {
    if n == 0 then Some([]) else if p + n <= |d| then Some(d[p..p + n]) else None
  }

  function ValueAt(d: seq<byte>, p: nat, fmt: nat, len: nat, utf8: Str -> bool): Result<PsfValue, PsfError> {
    if fmt == BINARY then
      var r := ReadExact(d, p, len);
      if r.None? then Err(Io) else Ok(Binary(r.value))
    else if fmt == TEXT then
      var r := ReadExact(d, p, if len > 0 then len - 1 else 0);
      if r.None? then Err(Io) else if utf8(r.value) then Ok(Text(r.value)) else Err(InvalidUtf8)
    else if fmt == INTEGER then
      if p + 4 <= |d| then Ok(Integer(SignedOf32(U32At(d, p)))) else Err(Io)
    else
      Err(UnknownFormat(fmt))
  }

  function EntryOf(d: seq<byte>, keyTable: nat, dataTable: nat, raw: RawIndexEntry, utf8: Str -> bool)
    : Result<(Str, PsfValue), PsfError>
  {
    var key := CString(d, keyTable + raw.keyOffset);
    if key.None? then Err(Io)
    else if !utf8(key.value) then Err(InvalidUtf8)
    else
      var value := ValueAt(d, dataTable + raw.dataOffset, raw.paramFmt, raw.paramLen, utf8);
      if value.Err? then Err(value.error) else Ok((key.value, value.value))
  }

  /** Entries `k..n` added, in order, to those read so far. */
  function ParseEntries(d: seq<byte>, keyTable: nat, dataTable: nat, k: nat, n: nat, utf8: Str -> bool,
                        entries: map<Str, PsfValue>): Result<map<Str, PsfValue>, PsfError>
    requires k <= n && 20 + 16 * n <= |d|
    decreases n - k
  {
    if k == n then Ok(entries)
    else
      var entry := EntryOf(d, keyTable, dataTable, RawAt(d, 20 + 16 * k), utf8);
      if entry.Err? then Err(entry.error)
      else ParseEntries(d, keyTable, dataTable, k + 1, n, utf8, entries[entry.value.0 := entry.value.1])
  }

  function ParseFile(d: seq<byte>, utf8: Str -> bool): Result<Psf, PsfError> {
    if |d| < 4 then Err(Io)
    else if U32At(d, 0) != PSF_MAGIC && U32At(d, 0) != PSF_MAGIC_SWAPPED then Err(InvalidMagic(U32At(d, 0)))
    else if |d| < 20 || |d| < 20 + 16 * U32At(d, 16) then Err(Io)
    else
      var entries := ParseEntries(d, U32At(d, 8), U32At(d, 12), 0, U32At(d, 16), utf8, map[]);
      if entries.Err? then Err(entries.error) else Ok(Psf(U32At(d, 4), entries.value))
  }

  // ---------------------------------------------------------------------------
  // The parser
  // ---------------------------------------------------------------------------

  /** Parse a PSF file from a byte slice. */
  method Parse(d: seq<byte>, utf8: Str -> bool) returns (r: Result<Psf, PsfError>)
    ensures r == ParseFile(d, utf8)
  {
    if |d| < 4 {
      return Err(Io);
    }
    var magic := U32At(d, 0);
    if magic != PSF_MAGIC && magic != PSF_MAGIC_SWAPPED {
      return Err(InvalidMagic(magic));
    }
    if |d| < 20 {
      return Err(Io);
    }
    var count := U32At(d, 16);
    var raws, complete := ReadIndexTable(d, count);
    if !complete {
      return Err(Io);
    }
    var entries := ReadEntries(d, U32At(d, 8), U32At(d, 12), raws, utf8);
    if entries.Err? {
      return Err(entries.error);
    }
    return Ok(Psf(U32At(d, 4), entries.value));
  }

  /** Read the index table; false when the file ends inside it. */
  method ReadIndexTable(d: seq<byte>, count: nat) returns (raws: seq<RawIndexEntry>, complete: bool)
    requires |d| >= 20
    ensures complete <==> 20 + 16 * count <= |d|
    ensures complete ==> |raws| == count && forall k | 0 <= k < count :: raws[k] == RawAt(d, 20 + 16 * k)
  {
    hide RawAt;
    raws := [];
    var position := 20;
    while |raws| < count
      invariant |raws| <= count
      invariant position == 20 + 16 * |raws| <= |d|
      invariant forall k | 0 <= k < |raws| :: raws[k] == RawAt(d, 20 + 16 * k)
      decreases count - |raws|
    {
      if position + 16 > |d| {
        return raws, false;
      }
      raws := raws + [RawAt(d, position)];
      position := position + 16;
    }
    return raws, true;
  }

  /** Parse each entry, inserting it under its key. */
  method ReadEntries(d: seq<byte>, keyTable: nat, dataTable: nat, raws: seq<RawIndexEntry>, utf8: Str -> bool)
    returns (r: Result<map<Str, PsfValue>, PsfError>)
    requires 20 + 16 * |raws| <= |d|
    requires forall k | 0 <= k < |raws| :: raws[k] == RawAt(d, 20 + 16 * k)
    ensures r == ParseEntries(d, keyTable, dataTable, 0, |raws|, utf8, map[])
  {
    hide RawAt, ValueAt, CString;
    var entries: map<Str, PsfValue> := map[];
    var i := 0;
    while i < |raws|
      invariant 0 <= i <= |raws|
      invariant ParseEntries(d, keyTable, dataTable, 0, |raws|, utf8, map[])
                == ParseEntries(d, keyTable, dataTable, i, |raws|, utf8, entries)
    {
      var raw := raws[i];
      var key, terminated := ReadKey(d, keyTable + raw.keyOffset);
      if !terminated {
        return Err(Io);
      }
      if !utf8(key) {
        return Err(InvalidUtf8);
      }
      var value := ValueAt(d, dataTable + raw.dataOffset, raw.paramFmt, raw.paramLen, utf8);
      if value.Err? {
        return Err(value.error);
      }
      entries := entries[key := value.value];
      i := i + 1;
    }
    return Ok(entries);
  }

  /** Collect bytes up to a zero; false when the file ends first. */
  method ReadKey(d: seq<byte>, start: nat) returns (key: Str, terminated: bool)
    ensures terminated <==> CString(d, start).Some?
    ensures terminated ==> CString(d, start) == Some(key)
  {
    key := [];
    var p := start;
    assert CString(d, p).Some? ==> [] + CString(d, p).value == CString(d, p).value;
    while p < |d|
      invariant start <= p
      invariant CString(d, start).None? == CString(d, p).None?
      invariant CString(d, p).Some? ==> CString(d, start) == Some(key + CString(d, p).value)
      decreases |d| - p
    {
      if d[p] == 0 {
        assert key + [] == key;
        return key, true;
      }
      if CString(d, p).Some? {
        assert key + ([d[p]] + CString(d, p + 1).value) == (key + [d[p]]) + CString(d, p + 1).value;
      }
      key := key + [d[p]];
      p := p + 1;
    }
    return key, false;
  }

  // ---------------------------------------------------------------------------
  // The layout
  // ---------------------------------------------------------------------------

  type Entry = (Str, PsfValue)

  function Format(v: PsfValue): nat {
    match v
    case Binary(_) => BINARY
    case Text(_) => TEXT
    case Integer(_) => INTEGER
  }

  /** A value as stored; text carries its terminator. */
  function Stored(v: PsfValue): seq<byte>
  {
    match v
    case Binary(b) => b
    case Text(t) => t + [0]
    case Integer(i) => Le32(UnsignedOf32(i))
  }

  /** Zero padding to a multiple of four. */
  function Padded(s: seq<byte>): (r: seq<byte>)
    ensures s <= r && |r| < |s| + 4
  {
    s + seq((4 - |s| % 4) % 4, _ => 0)
  }

  predicate Storable(e: Entry, utf8: Str -> bool) {
    && 0 !in e.0
    && utf8(e.0)
    && (e.1.Text? ==> utf8(e.1.text))
    && |Stored(e.1)| + 4 < U32
  }

  function KeyRecords(es: seq<Entry>): (rs: seq<seq<byte>>)
    ensures |rs| == |es| && forall i | 0 <= i < |es| :: rs[i] == es[i].0 + [0]
  {
    seq(|es|, i requires 0 <= i < |es| => es[i].0 + [0])
  }

  function DataRecords(es: seq<Entry>): (rs: seq<seq<byte>>)
    ensures |rs| == |es| && forall i | 0 <= i < |es| :: rs[i] == Padded(Stored(es[i].1))
  {
    seq(|es|, i requires 0 <= i < |es| => Padded(Stored(es[i].1)))
  }

  /** Keys fit 16-bit offsets, values 32-bit offsets, and the entry count 32 bits. */
  predicate Fits(es: seq<Entry>, utf8: Str -> bool) {
    && (forall i | 0 <= i < |es| :: Storable(es[i], utf8))
    && (forall i | 0 <= i < |es| :: OffsetOf(KeyRecords(es), i) < U16)
    && (forall i | 0 <= i < |es| :: OffsetOf(DataRecords(es), i) < U32)
    && 20 + 16 * |es| + |Flatten(KeyRecords(es))| < U32
  }

  function IndexRecord(es: seq<Entry>, i: nat, utf8: Str -> bool): (r: seq<byte>)
    requires Fits(es, utf8) && i < |es|
    ensures |r| == 16
  {
    Le16(OffsetOf(KeyRecords(es), i)) + Le16(Format(es[i].1))
    + Le32(|Stored(es[i].1)|) + Le32(|Padded(Stored(es[i].1))|)
    + Le32(OffsetOf(DataRecords(es), i))
  }

  function IndexRecords(es: seq<Entry>, utf8: Str -> bool): (rs: seq<seq<byte>>)
    requires Fits(es, utf8)
    ensures |rs| == |es| && forall i | 0 <= i < |es| :: rs[i] == IndexRecord(es, i, utf8)
  {
    seq(|es|, i requires 0 <= i < |es| => IndexRecord(es, i, utf8))
  }

  function Header(version: nat, es: seq<Entry>, utf8: Str -> bool): (r: seq<byte>)
    requires version < U32 && Fits(es, utf8)
    ensures |r| == 20
  {
    [0x00, 0x50, 0x53, 0x46] + HeaderWords(version, es, utf8)
  }

  /** The four words behind the magic. */
  function HeaderWords(version: nat, es: seq<Entry>, utf8: Str -> bool): (r: seq<byte>)
    requires version < U32 && Fits(es, utf8)
    ensures |r| == 16
  {
    var keyTable := 20 + 16 * |es|;
    Le32(version) + Le32(keyTable) + Le32(keyTable + |Flatten(KeyRecords(es))|) + Le32(|es|)
  }

  function Serialize(version: nat, es: seq<Entry>, utf8: Str -> bool): seq<byte>
    requires version < U32 && Fits(es, utf8)
  {
    Header(version, es, utf8) + Flatten(IndexRecords(es, utf8))
    + Flatten(KeyRecords(es)) + Flatten(DataRecords(es))
  }

  /** The map a list of entries stands for: a later entry wins over an earlier one. */
  function Meaning(es: seq<Entry>): map<Str, PsfValue> {
    if es == [] then map[] else Meaning(es[..|es| - 1])[es[|es| - 1].0 := es[|es| - 1].1]
  }

  // ---------------------------------------------------------------------------
  // The round trip
  // ---------------------------------------------------------------------------

  lemma {:induction false} ReadsCString(d: seq<byte>, p: nat, s: Str)
    requires 0 !in s && Holds(d, p, s + [0])
    ensures CString(d, p) == Some(s)
    decreases |s|
  {
    HoldsAt(d, p, s + [0], 0);
    if s != [] {
      var rest := s[1..];
      assert s + [0] == [s[0]] + (rest + [0]);
      HoldsParts(d, p, [s[0]], rest + [0]);
      ReadsCString(d, p + 1, rest);
      assert d[p] == s[0] && s == [s[0]] + rest;
    } else {
      assert d[p] == 0;
    }
  }

  lemma ReadsValue(d: seq<byte>, p: nat, v: PsfValue, utf8: Str -> bool)
    requires v.Text? ==> utf8(v.text)
    requires Holds(d, p, Padded(Stored(v)))
    ensures ValueAt(d, p, Format(v), |Stored(v)|, utf8) == Ok(v)
  {
    HoldsParts(d, p, Stored(v), Padded(Stored(v))[|Stored(v)|..]);
    match v
    case Binary(b) =>
    case Text(t) =>
      HoldsParts(d, p, t, [0]);
    case Integer(i) =>
      Read32(d, p, UnsignedOf32(i));
  }

  /** Where the four tables of a file stand. */
  ghost predicate LaidOut(d: seq<byte>, version: nat, es: seq<Entry>, utf8: Str -> bool)
    requires version < U32 && Fits(es, utf8)
  {
    var keyTable := 20 + 16 * |es|;
    && Holds(d, 0, Header(version, es, utf8))
    && Holds(d, 20, Flatten(IndexRecords(es, utf8)))
    && Holds(d, keyTable, Flatten(KeyRecords(es)))
    && Holds(d, keyTable + |Flatten(KeyRecords(es))|, Flatten(DataRecords(es)))
  }

  lemma SerializedIsLaidOut(version: nat, es: seq<Entry>, utf8: Str -> bool)
    requires version < U32 && Fits(es, utf8)
    ensures LaidOut(Serialize(version, es, utf8), version, es, utf8)
  {
    IndexLength(es, utf8);
    hide Fits, Flatten, Header;
    FourParts(Header(version, es, utf8), Flatten(IndexRecords(es, utf8)),
              Flatten(KeyRecords(es)), Flatten(DataRecords(es)));
  }

  lemma IndexLength(es: seq<Entry>, utf8: Str -> bool)
    requires Fits(es, utf8)
    ensures |Flatten(IndexRecords(es, utf8))| == 16 * |es|
  {
    var xs := IndexRecords(es, utf8);
    FixedOffsets(xs, |es|, 16);
    assert xs[..|es|] == xs;
  }

  lemma FourParts(h: seq<byte>, x: seq<byte>, k: seq<byte>, v: seq<byte>)
    ensures var d := h + x + k + v;
            && Holds(d, 0, h)
            && Holds(d, |h|, x)
            && Holds(d, |h| + |x|, k)
            && Holds(d, |h| + |x| + |k|, v)
  {
  }

  lemma ReadsHeader(d: seq<byte>, p: nat, version: nat, es: seq<Entry>, utf8: Str -> bool)
    requires version < U32 && Fits(es, utf8) && Holds(d, p, HeaderWords(version, es, utf8))
    ensures p + 16 <= |d| && U32At(d, p) == version
    ensures U32At(d, p + 4) == 20 + 16 * |es|
    ensures U32At(d, p + 8) == 20 + 16 * |es| + |Flatten(KeyRecords(es))|
    ensures U32At(d, p + 12) == |es|
  {
    var keyTable, keyBytes := 20 + 16 * |es|, |Flatten(KeyRecords(es))|;
    assert keyTable + keyBytes < U32;
    hide Flatten, Fits, U32At, Le32, Holds;
    ReadsFourWords(d, p, version, keyTable, keyTable + keyBytes, |es|);
  }

  lemma ReadsFourWords(d: seq<byte>, p: nat, a: nat, b: nat, c: nat, e: nat)
    requires a < U32 && b < U32 && c < U32 && e < U32
    requires Holds(d, p, Le32(a) + Le32(b) + Le32(c) + Le32(e))
    ensures p + 16 <= |d|
    ensures U32At(d, p) == a && U32At(d, p + 4) == b && U32At(d, p + 8) == c && U32At(d, p + 12) == e
  {
    hide U32At, Le32, Holds;
    HoldsParts(d, p, Le32(a) + Le32(b) + Le32(c), Le32(e));
    HoldsParts(d, p, Le32(a) + Le32(b), Le32(c));
    HoldsParts(d, p, Le32(a), Le32(b));
    HoldsLength(d, p + 12, Le32(e));
    Read32(d, p, a);
    Read32(d, p + 4, b);
    Read32(d, p + 8, c);
    Read32(d, p + 12, e);
  }

  lemma ReadsIndex(d: seq<byte>, p: nat, es: seq<Entry>, i: nat, utf8: Str -> bool)
    requires Fits(es, utf8) && i < |es| && Holds(d, p, IndexRecord(es, i, utf8))
    ensures RawAt(d, p) == RawIndexEntry(OffsetOf(KeyRecords(es), i), Format(es[i].1), |Stored(es[i].1)|,
                                         OffsetOf(DataRecords(es), i))
  {
    var a, b := OffsetOf(KeyRecords(es), i), Format(es[i].1);
    var c, m, o := |Stored(es[i].1)|, |Padded(Stored(es[i].1))|, OffsetOf(DataRecords(es), i);
    hide Flatten, OffsetOf, Stored, Padded;
    HoldsParts(d, p, Le16(a) + Le16(b) + Le32(c) + Le32(m), Le32(o));
    HoldsParts(d, p, Le16(a) + Le16(b) + Le32(c), Le32(m));
    HoldsParts(d, p, Le16(a) + Le16(b), Le32(c));
    HoldsParts(d, p, Le16(a), Le16(b));
    Read16(d, p, a);
    Read16(d, p + 2, b);
    Read32(d, p + 4, c);
    Read32(d, p + 12, o);
  }

  /** Entry `i`, read through its three tables, is entry `i`. */
  lemma ReadsEntry(d: seq<byte>, keyTable: nat, dataTable: nat, es: seq<Entry>, i: nat, utf8: Str -> bool)
    requires Fits(es, utf8) && i < |es|
    requires Holds(d, 20, Flatten(IndexRecords(es, utf8)))
    requires Holds(d, keyTable, Flatten(KeyRecords(es)))
    requires Holds(d, dataTable, Flatten(DataRecords(es)))
    ensures 20 + 16 * i + 16 <= |d|
    ensures EntryOf(d, keyTable, dataTable, RawAt(d, 20 + 16 * i), utf8) == Ok(es[i])
  {
    hide Flatten, OffsetOf, CString, ValueAt, Padded, Stored, Holds, RawAt;
    EntryIndex(d, es, i, utf8);
    FindsRecord(d, keyTable, KeyRecords(es), i);
    FindsRecord(d, dataTable, DataRecords(es), i);
    ReadsKeyAndValue(d, keyTable + OffsetOf(KeyRecords(es), i), dataTable + OffsetOf(DataRecords(es), i), es[i], utf8);
  }

  lemma EntryIndex(d: seq<byte>, es: seq<Entry>, i: nat, utf8: Str -> bool)
    requires Fits(es, utf8) && i < |es| && Holds(d, 20, Flatten(IndexRecords(es, utf8)))
    ensures 20 + 16 * i + 16 <= |d|
    ensures RawAt(d, 20 + 16 * i) == RawIndexEntry(OffsetOf(KeyRecords(es), i), Format(es[i].1), |Stored(es[i].1)|,
                                                   OffsetOf(DataRecords(es), i))
  {
    hide Flatten, OffsetOf, Holds, RawAt;
    FindsRecord(d, 20, IndexRecords(es, utf8), i);
    FixedOffsets(IndexRecords(es, utf8), i, 16);
    ReadsIndex(d, 20 + 16 * i, es, i, utf8);
  }

  lemma ReadsKeyAndValue(d: seq<byte>, p: nat, q: nat, e: Entry, utf8: Str -> bool)
    requires Storable(e, utf8) && Holds(d, p, e.0 + [0]) && Holds(d, q, Padded(Stored(e.1)))
    ensures CString(d, p) == Some(e.0) && utf8(e.0)
    ensures ValueAt(d, q, Format(e.1), |Stored(e.1)|, utf8) == Ok(e.1)
  {
    ReadsCString(d, p, e.0);
    ReadsValue(d, q, e.1, utf8);
  }

  lemma {:induction false} ReadsEntries(d: seq<byte>, keyTable: nat, dataTable: nat, es: seq<Entry>, i: nat,
                                        utf8: Str -> bool)
    requires Fits(es, utf8) && i <= |es| && 20 + 16 * |es| <= |d|
    requires Holds(d, 20, Flatten(IndexRecords(es, utf8)))
    requires Holds(d, keyTable, Flatten(KeyRecords(es)))
    requires Holds(d, dataTable, Flatten(DataRecords(es)))
    ensures ParseEntries(d, keyTable, dataTable, i, |es|, utf8, Meaning(es[..i])) == Ok(Meaning(es))
    decreases |es| - i
  {
    hide Flatten, EntryOf, RawAt, Fits, Holds, Meaning;
    if i == |es| {
      assert es[..i] == es;
    } else {
      ReadsEntry(d, keyTable, dataTable, es, i, utf8);
      MeaningStep(es, i);
      ReadsEntries(d, keyTable, dataTable, es, i + 1, utf8);
    }
  }

  lemma MeaningStep(es: seq<Entry>, i: nat)
    requires i < |es|
    ensures Meaning(es[..i + 1]) == Meaning(es[..i])[es[i].0 := es[i].1]
  {
    assert es[..i + 1][..i] == es[..i];
  }

  /** Parsing any file with this layout gives its version and exactly its entries, a duplicate
      key taking its last value. */
  lemma ParsesLayout(d: seq<byte>, version: nat, es: seq<Entry>, utf8: Str -> bool)
    requires version < U32 && Fits(es, utf8) && LaidOut(d, version, es, utf8)
    ensures ParseFile(d, utf8) == Ok(Psf(version, Meaning(es)))
  {
    hide Flatten, Fits, ParseFile, HeaderWords, Meaning, Holds;
    ParsesEitherMagic(d, [0x00, 0x50, 0x53, 0x46], version, es, utf8);
  }

  /** The same after either order of the magic's bytes; the other words keep theirs. */
  lemma ParsesEitherMagic(d: seq<byte>, magic: seq<byte>, version: nat, es: seq<Entry>, utf8: Str -> bool)
    requires version < U32 && Fits(es, utf8)
    requires magic == [0x00, 0x50, 0x53, 0x46] || magic == [0x46, 0x53, 0x50, 0x00]
    requires Holds(d, 0, magic + HeaderWords(version, es, utf8))
    requires Holds(d, 20, Flatten(IndexRecords(es, utf8)))
    requires Holds(d, 20 + 16 * |es|, Flatten(KeyRecords(es)))
    requires Holds(d, 20 + 16 * |es| + |Flatten(KeyRecords(es))|, Flatten(DataRecords(es)))
    ensures ParseFile(d, utf8) == Ok(Psf(version, Meaning(es)))
  {
    hide Flatten, Fits, ParseEntries, HeaderWords, Meaning, Holds, U32At;
    HoldsParts(d, 0, magic, HeaderWords(version, es, utf8));
    ReadsMagic(d, magic);
    ReadsHeader(d, 4, version, es, utf8);
    IndexLength(es, utf8);
    HoldsLength(d, 20, Flatten(IndexRecords(es, utf8)));
    ReadsEntries(d, 20 + 16 * |es|, 20 + 16 * |es| + |Flatten(KeyRecords(es))|, es, 0, utf8);
    MeaningOfNothing(es);
  }

  lemma ReadsMagic(d: seq<byte>, magic: seq<byte>)
    requires Holds(d, 0, magic) && (magic == [0x00, 0x50, 0x53, 0x46] || magic == [0x46, 0x53, 0x50, 0x00])
    ensures |d| >= 4 && (U32At(d, 0) == PSF_MAGIC || U32At(d, 0) == PSF_MAGIC_SWAPPED)
  {
    assert Le32(PSF_MAGIC_SWAPPED) == [0x00, 0x50, 0x53, 0x46] && Le32(PSF_MAGIC) == [0x46, 0x53, 0x50, 0x00];
    HoldsLength(d, 0, magic);
    Read32(d, 0, if magic[0] == 0 then PSF_MAGIC_SWAPPED else PSF_MAGIC);
  }

  lemma MeaningOfNothing(es: seq<Entry>)
    ensures Meaning(es[..0]) == map[]
  {
  }

  /** Writing entries and parsing them back. */
  lemma RoundTrip(version: nat, es: seq<Entry>, utf8: Str -> bool)
    requires version < U32 && Fits(es, utf8)
    ensures ParseFile(Serialize(version, es, utf8), utf8) == Ok(Psf(version, Meaning(es)))
  {
    SerializedIsLaidOut(version, es, utf8);
    ParsesLayout(Serialize(version, es, utf8), version, es, utf8);
  }

  /** The last entry under a key is the one that counts. */
  lemma {:induction false} LastEntryWins(es: seq<Entry>, i: nat)
    requires i < |es| && forall j | i < j < |es| :: es[j].0 != es[i].0
    ensures es[i].0 in Meaning(es) && Meaning(es)[es[i].0] == es[i].1
  {
    if i < |es| - 1 {
      LastEntryWins(es[..|es| - 1], i);
    }
  }

  lemma {:induction false} NothingElse(es: seq<Entry>, key: Str)
    requires key in Meaning(es)
    ensures exists i | 0 <= i < |es| :: es[i].0 == key
  {
    if key != es[|es| - 1].0 {
      NothingElse(es[..|es| - 1], key);
      var i :| 0 <= i < |es| - 1 && es[..|es| - 1][i].0 == key;
      assert es[i].0 == key;
    }
  }

  /** `es` lists the entries of `m`, each key once, in some order. */
  ghost predicate Lists(es: seq<Entry>, m: map<Str, PsfValue>) {
    && (forall i | 0 <= i < |es| :: es[i].0 in m && m[es[i].0] == es[i].1)
    && (forall i, j | 0 <= i < j < |es| :: es[i].0 != es[j].0)
    && (forall k | k in m :: exists i | 0 <= i < |es| :: es[i].0 == k)
  }

  /** Every map that fits survives the trip, in whatever order its entries are written. */
  lemma MapRoundTrip(version: nat, m: map<Str, PsfValue>, es: seq<Entry>, utf8: Str -> bool)
    requires version < U32 && Lists(es, m) && Fits(es, utf8)
    ensures ParseFile(Serialize(version, es, utf8), utf8) == Ok(Psf(version, m))
  {
    RoundTrip(version, es, utf8);
    MeaningOfListing(es, m);
  }

  lemma MeaningOfListing(es: seq<Entry>, m: map<Str, PsfValue>)
    requires Lists(es, m)
    ensures Meaning(es) == m
  {
    hide Meaning;
    forall i | 0 <= i < |es|
      ensures es[i].0 in Meaning(es) && Meaning(es)[es[i].0] == m[es[i].0]
    {
      LastEntryWins(es, i);
    }
    forall k | k in Meaning(es)
      ensures k in m
    {
      NothingElse(es, k);
    }
    assert Meaning(es) == m;
  }

  // ---------------------------------------------------------------------------
  // What is refused, and the other accepted forms
  // ---------------------------------------------------------------------------

  /** The first word is one of two magics; anything else, and anything shorter, is refused. */
  lemma RefusesMagic(d: seq<byte>, utf8: Str -> bool)
    ensures |d| < 4 ==> ParseFile(d, utf8) == Err(Io)
    ensures |d| >= 4 && d[0..4] != [0x00, 0x50, 0x53, 0x46] && d[0..4] != [0x46, 0x53, 0x50, 0x00] ==>
              ParseFile(d, utf8) == Err(InvalidMagic(U32At(d, 0)))
    ensures [0x00, 0x50, 0x53, 0x46] <= d && (|d| < 20 || |d| < 20 + 16 * U32At(d, 16)) ==> ParseFile(d, utf8) == Err(Io)
  {
    if |d| >= 4 {
      WrittenBack32(d, 0);
      assert Le32(PSF_MAGIC_SWAPPED) == [0x00, 0x50, 0x53, 0x46] && Le32(PSF_MAGIC) == [0x46, 0x53, 0x50, 0x00];
      if [0x00, 0x50, 0x53, 0x46] <= d {
        Read32(d, 0, PSF_MAGIC_SWAPPED);
      }
    }
  }

  /** A text of length zero or one is empty; nothing is read for the first. */
  lemma ReadsEmptyText(d: seq<byte>, p: nat, utf8: Str -> bool)
    requires utf8([])
    ensures ValueAt(d, p, 0x0204, 0, utf8) == Ok(Text([])) && ValueAt(d, p, 0x0204, 1, utf8) == Ok(Text([]))
  {
  }

  /** How one value is refused: an unknown format, text that is no UTF-8, or too few bytes. */
  lemma RefusesValues(d: seq<byte>, p: nat, format: nat, len: nat, utf8: Str -> bool)
    ensures format !in {0x0004, 0x0204, 0x0404} ==> ValueAt(d, p, format, len, utf8) == Err(UnknownFormat(format))
    ensures format == 0x0204 && len > 0 && p + (len - 1) <= |d| && !utf8(d[p..p + (len - 1)]) ==>
              ValueAt(d, p, format, len, utf8) == Err(InvalidUtf8)
    ensures format == 0x0204 && len > 1 && p + (len - 1) > |d| ==> ValueAt(d, p, format, len, utf8) == Err(Io)
    ensures format == 0x0004 && len > 0 && p + len > |d| ==> ValueAt(d, p, format, len, utf8) == Err(Io)
    ensures format == 0x0404 && p + 4 > |d| ==> ValueAt(d, p, format, len, utf8) == Err(Io)
  {
  }

  /** How one entry is refused: its key has no end or is no UTF-8, or its value is refused. */
  lemma RefusesEntries(d: seq<byte>, keyTable: nat, dataTable: nat, raw: RawIndexEntry, key: Str, utf8: Str -> bool)
    requires keyTable + raw.keyOffset <= |d|
    ensures 0 !in d[keyTable + raw.keyOffset..] ==> EntryOf(d, keyTable, dataTable, raw, utf8) == Err(Io)
    ensures 0 !in key && Holds(d, keyTable + raw.keyOffset, key + [0]) && !utf8(key) ==>
              EntryOf(d, keyTable, dataTable, raw, utf8) == Err(InvalidUtf8)
    ensures 0 !in key && Holds(d, keyTable + raw.keyOffset, key + [0]) && utf8(key) ==>
              match ValueAt(d, dataTable + raw.dataOffset, raw.paramFmt, raw.paramLen, utf8)
              case Ok(v) => EntryOf(d, keyTable, dataTable, raw, utf8) == Ok((key, v))
              case Err(e) => EntryOf(d, keyTable, dataTable, raw, utf8) == Err(e)
  {
    hide ValueAt, CString;
    var p := keyTable + raw.keyOffset;
    if 0 !in d[p..] {
      NoTerminator(d, p);
    }
    if 0 !in key && Holds(d, p, key + [0]) {
      ReadsCString(d, p, key);
    }
  }

  lemma {:induction false} NoTerminator(d: seq<byte>, p: nat)
    requires p <= |d| && 0 !in d[p..]
    ensures CString(d, p) == None
    decreases |d| - p
  {
    if p < |d| {
      assert d[p] == d[p..][0] && d[p] in d[p..];
      assert forall x | x in d[p + 1..] :: x in d[p..];
      NoTerminator(d, p + 1);
    }
  }

  /** The first refused entry decides, and an index that the file cuts off is refused before any. */
  lemma {:induction false} FirstRefusalDecides(d: seq<byte>, keyTable: nat, dataTable: nat, k: nat, n: nat, j: nat,
                                               utf8: Str -> bool, entries: map<Str, PsfValue>)
    requires k <= j < n && 20 + 16 * n <= |d|
    requires forall i | k <= i < j :: Accepts(d, keyTable, dataTable, i, utf8)
    requires EntryOf(d, keyTable, dataTable, RawAt(d, 20 + 16 * j), utf8).Err?
    ensures ParseEntries(d, keyTable, dataTable, k, n, utf8, entries)
            == Err(EntryOf(d, keyTable, dataTable, RawAt(d, 20 + 16 * j), utf8).error)
    decreases n - k
  {
    hide EntryOf, RawAt;
    if k < j {
      assert Accepts(d, keyTable, dataTable, k, utf8);
      var entry := EntryOf(d, keyTable, dataTable, RawAt(d, 20 + 16 * k), utf8).value;
      FirstRefusalDecides(d, keyTable, dataTable, k + 1, n, j, utf8, entries[entry.0 := entry.1]);
    }
  }

  ghost predicate Accepts(d: seq<byte>, keyTable: nat, dataTable: nat, i: nat, utf8: Str -> bool)
    requires 20 + 16 * i + 16 <= |d|
  {
    EntryOf(d, keyTable, dataTable, RawAt(d, 20 + 16 * i), utf8).Ok?
  }
}
