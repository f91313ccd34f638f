/** The layout of the relocation, symbol and string tables that `parse_relocations` of
    crates/core/src/linker/module.rs reads, and what it finds in them. */
module DynamicTables {
  import opened Wrappers
  import opened Types
  import opened Bytes
  import opened ModuleImage
  import E = Elf
  import EW = ElfWriter

  /** A symbol as the tables hold it: its index, where its name starts, and the bytes of its
      record the loader does not use. */
  datatype Symbol = Symbol(index: nat, nameOffset: nat, rest: seq<byte>)

  predicate IsRelocation(r: ParsedRelocation) {
    && r.offset < U64 && r.relType < U32
    && -0x8000_0000_0000_0000 <= r.addend < 0x8000_0000_0000_0000
    && r.symbolBinding < 16 && r.symbolType < 16 && 0 !in r.symbolName
  }

  predicate IsSymbol(s: Symbol) {
    s.index < U32 && s.nameOffset < U32 && |s.rest| == 19
  }

  /** Offset, symbol index over type, addend. */
  function RelocationBytes(r: ParsedRelocation, s: Symbol): (b: seq<byte>)
    requires IsRelocation(r) && IsSymbol(s)
    ensures |b| == 24
  {
    Le64(r.offset) + Le64(s.index * U32 + r.relType) + Le64(EW.UnsignedOf64(r.addend))
  }

  /** Name offset, binding over type, and the unused rest. */
  function SymbolBytes(r: ParsedRelocation, s: Symbol): (b: seq<byte>)
    requires IsRelocation(r) && IsSymbol(s)
    ensures |b| == 24
  {
    Le32(s.nameOffset) + [r.symbolBinding * 16 + r.symbolType] + s.rest
  }

  /** The symbol of a relocation stands in the symbol table and its name in the string table;
      index zero is no symbol. */
  ghost predicate SymbolStands(d: seq<byte>, t: Tables, r: ParsedRelocation, s: Symbol)
    requires IsRelocation(r) && IsSymbol(s)
  {
    if s.index == 0 then r.symbolName == [] && r.symbolBinding == 0 && r.symbolType == 0
    else
      && s.index * 24 < t.symtabSize && s.nameOffset < t.strtabSize
      && Holds(d, t.symtab + s.index * 24, SymbolBytes(r, s))
      && Holds(d, t.strtab + s.nameOffset, r.symbolName + [0])
  }

  ghost predicate RelocationStands(d: seq<byte>, t: Tables, p: nat, r: ParsedRelocation, s: Symbol) {
    && IsRelocation(r) && IsSymbol(s)
    && Holds(d, p, RelocationBytes(r, s))
    && SymbolStands(d, t, r, s)
  }

  /** Relocation `k` stands in entry `k` of the table at `start`. */
  ghost predicate TableStands(d: seq<byte>, t: Tables, start: nat, rs: seq<ParsedRelocation>, ss: seq<Symbol>,
                              isJmpRel: bool)
  {
    && |ss| == |rs|
    && forall k | 0 <= k < |rs| :: rs[k].isJmpRel == isJmpRel && RelocationStands(d, t, start + k * 24, rs[k], ss[k])
  }

  // ---------------------------------------------------------------------------
  // Reading it back
  // ---------------------------------------------------------------------------

  lemma {:induction false} ReadsString(d: seq<byte>, p: nat, s: Name)
    requires 0 !in s && Holds(d, p, s + [0])
    ensures StringAt(d, p) == s
    decreases |s|
  {
    HoldsAt(d, p, s + [0], 0);
    if s != [] {
      var rest := s[1..];
      assert s + [0] == [s[0]] + (rest + [0]);
      HoldsParts(d, p, [s[0]], rest + [0]);
      ReadsString(d, p + 1, rest);
      assert s == [s[0]] + rest;
    }
  }

  lemma InfoParts(index: nat, relType: nat)
    requires relType < U32
    ensures (index * U32 + relType) / U32 == index && (index * U32 + relType) % U32 == relType
  {
  }

  lemma InfoFits(index: nat, relType: nat)
    requires index < U32 && relType < U32
    ensures index * U32 + relType < U64
  {
  }

  lemma Nibbles(high: nat, low: nat)
    requires low < 16
    ensures (high * 16 + low) / 16 == high && (high * 16 + low) % 16 == low
  {
  }

  lemma ReadsSymbolRecord(d: seq<byte>, p: nat, r: ParsedRelocation, s: Symbol)
    requires IsRelocation(r) && IsSymbol(s) && Holds(d, p, SymbolBytes(r, s))
    ensures p + 24 <= |d| && U32At(d, p) == s.nameOffset
    ensures d[p + 4] == r.symbolBinding * 16 + r.symbolType
  {
    hide U32At, Le32;
    var info: byte := r.symbolBinding * 16 + r.symbolType;
    HoldsLength(d, p, SymbolBytes(r, s));
    HoldsParts(d, p, Le32(s.nameOffset) + [info], s.rest);
    HoldsParts(d, p, Le32(s.nameOffset), [info]);
    Read32(d, p, s.nameOffset);
    HoldsAt(d, p + 4, [info], 0);
  }

  lemma SymbolFrom(d: seq<byte>, t: Tables, index: nat, nameOffset: nat, info: nat, name: Name)
    requires index > 0 && index * 24 < t.symtabSize && t.symtab + index * 24 + 24 <= |d|
    requires U32At(d, t.symtab + index * 24) == nameOffset && d[t.symtab + index * 24 + 4] == info
    requires nameOffset < t.strtabSize && t.strtab + nameOffset <= |d| && StringAt(d, t.strtab + nameOffset) == name
    ensures SymbolOf(d, t, index) == Some((name, info / 16, info % 16))
  {
    hide U32At, StringAt;
  }

  lemma ReadsNamedSymbol(d: seq<byte>, t: Tables, r: ParsedRelocation, s: Symbol)
    requires IsRelocation(r) && IsSymbol(s) && 0 < s.index && s.index * 24 < t.symtabSize
    requires s.nameOffset < t.strtabSize
    requires Holds(d, t.symtab + s.index * 24, SymbolBytes(r, s))
    requires Holds(d, t.strtab + s.nameOffset, r.symbolName + [0])
    ensures SymbolOf(d, t, s.index) == Some((r.symbolName, r.symbolBinding, r.symbolType))
  {
    hide U32At, StringAt, SymbolBytes, Holds, SymbolOf, IsSymbol;
    ReadsSymbolRecord(d, t.symtab + s.index * 24, r, s);
    HoldsLength(d, t.strtab + s.nameOffset, r.symbolName + [0]);
    ReadsString(d, t.strtab + s.nameOffset, r.symbolName);
    SymbolFrom(d, t, s.index, s.nameOffset, r.symbolBinding * 16 + r.symbolType, r.symbolName);
    Nibbles(r.symbolBinding, r.symbolType);
  }

  lemma ReadsSymbol(d: seq<byte>, t: Tables, r: ParsedRelocation, s: Symbol)
    requires IsRelocation(r) && IsSymbol(s) && SymbolStands(d, t, r, s)
    ensures SymbolOf(d, t, s.index) == Some((r.symbolName, r.symbolBinding, r.symbolType))
  {
    if s.index != 0 {
      hide SymbolOf, Holds, IsRelocation, IsSymbol, SymbolBytes;
      ReadsNamedSymbol(d, t, r, s);
    }
  }

  lemma ReadsWords(d: seq<byte>, p: nat, r: ParsedRelocation, s: Symbol)
    requires IsRelocation(r) && IsSymbol(s) && Holds(d, p, RelocationBytes(r, s))
    ensures p + 24 <= |d|
    ensures U64At(d, p) == r.offset && U64At(d, p + 8) == s.index * U32 + r.relType
    ensures U64At(d, p + 16) == EW.UnsignedOf64(r.addend)
  {
    hide U64At, Le64, Holds;
    InfoFits(s.index, r.relType);
    var a, b, c := Le64(r.offset), Le64(s.index * U32 + r.relType), Le64(EW.UnsignedOf64(r.addend));
    HoldsLength(d, p, RelocationBytes(r, s));
    HoldsParts(d, p, a + b, c);
    HoldsParts(d, p, a, b);
    Read64(d, p, r.offset);
    Read64(d, p + 8, s.index * U32 + r.relType);
    Read64(d, p + 16, EW.UnsignedOf64(r.addend));
  }

  /** One entry, read through its symbol and its name. */
  lemma ReadsRelocation(d: seq<byte>, t: Tables, p: nat, r: ParsedRelocation, s: Symbol)
    requires RelocationStands(d, t, p, r, s)
    ensures p + 24 <= |d| && RelocationAt(d, t, p, r.isJmpRel) == Some([r])
  {
    hide U64At, Holds, SymbolStands, SymbolOf, RelocationBytes;
    ReadsWords(d, p, r, s);
    ReadsSymbol(d, t, r, s);
    InfoParts(s.index, r.relType);
  }

  /** The table is read as exactly its relocations. */
  lemma {:induction false} ReadsTable(d: seq<byte>, t: Tables, start: nat, rs: seq<ParsedRelocation>,
                                      ss: seq<Symbol>, isJmpRel: bool, i: nat)
    requires TableStands(d, t, start, rs, ss, isJmpRel) && i <= |rs|
    ensures RelocationTable(d, t, start, |rs|, i, isJmpRel) == Some(rs[i..])
    decreases |rs| - i
  {
    hide RelocationStands, RelocationAt;
    if i < |rs| {
      assert rs[i].isJmpRel == isJmpRel;
      ReadsRelocation(d, t, start + i * 24, rs[i], ss[i]);
      ReadsTable(d, t, start, rs, ss, isJmpRel, i + 1);
      assert rs[i..] == [rs[i]] + rs[i + 1..];
    } else {
      assert rs[i..] == [];
    }
  }

  // ---------------------------------------------------------------------------
  // Entries by tag
  // ---------------------------------------------------------------------------

  /** The first entry with `tag` has this value. */
  ghost predicate First(entries: seq<E.DynamicEntry>, tag: int, value: nat) {
    exists k | 0 <= k < |entries| ::
      entries[k] == E.DynamicEntry(tag, value) && forall l | 0 <= l < k :: entries[l].tag != tag
  }

  ghost predicate Absent(entries: seq<E.DynamicEntry>, tag: int) {
    forall k | 0 <= k < |entries| :: entries[k].tag != tag
  }

  /** A lookup by tag finds the first entry with it. */
  lemma {:induction false} FindsFirst(entries: seq<E.DynamicEntry>, tag: int)
    ensures forall value: nat :: First(entries, tag, value) <==> DynamicValue(entries, tag) == Some(value)
    ensures Absent(entries, tag) <==> DynamicValue(entries, tag) == None
  {
    if entries != [] {
      var rest := entries[1..];
      FindsFirst(rest, tag);
      forall value: nat
        ensures First(entries, tag, value) <==> DynamicValue(entries, tag) == Some(value)
      {
        FirstCons(entries, tag, value);
      }
      assert forall k | 0 <= k < |rest| :: rest[k] == entries[k + 1];
      assert Absent(entries, tag) <==> entries[0].tag != tag && Absent(rest, tag) by {
        if entries[0].tag != tag && Absent(rest, tag) {
          forall k | 0 <= k < |entries|
            ensures entries[k].tag != tag
          {
            assert k > 0 ==> entries[k] == rest[k - 1];
          }
        }
      }
    }
  }

  lemma FirstCons(entries: seq<E.DynamicEntry>, tag: int, value: nat)
    requires entries != []
    ensures First(entries, tag, value) <==>
            if entries[0].tag == tag then entries[0].value == value else First(entries[1..], tag, value)
  {
    var rest := entries[1..];
    if entries[0].tag == tag {
      if entries[0].value == value {
        assert entries[0] == E.DynamicEntry(tag, value);
      }
    } else {
      if k :| 0 <= k < |entries| && entries[k] == E.DynamicEntry(tag, value)
              && forall l | 0 <= l < k :: entries[l].tag != tag {
        assert k > 0 && rest[k - 1] == entries[k];
        forall l | 0 <= l < k - 1
          ensures rest[l].tag != tag
        {
          assert rest[l] == entries[l + 1];
        }
      }
      if k :| 0 <= k < |rest| && rest[k] == E.DynamicEntry(tag, value)
              && forall l | 0 <= l < k :: rest[l].tag != tag {
        assert entries[k + 1] == rest[k];
        forall l | 0 <= l < k + 1
          ensures entries[l].tag != tag
        {
          assert l > 0 ==> entries[l] == rest[l - 1];
        }
      }
    }
  }

  /** A file whose dynamic section names two tables with this layout has exactly their
      relocations, the standard ones first. The tags are the format's. */
  lemma ReadsBothTables(entries: seq<E.DynamicEntry>, d: seq<byte>, t: Tables, standardAt: nat, jumpsAt: nat,
                        rs: seq<ParsedRelocation>, ss: seq<Symbol>, js: seq<ParsedRelocation>, ts: seq<Symbol>)
    requires First(entries, 0x6100_0039, t.symtab) && First(entries, 0x6100_003F, t.symtabSize)
    requires First(entries, 0x6100_0035, t.strtab) && First(entries, 0x6100_0037, t.strtabSize)
    requires First(entries, 0x6100_002F, standardAt) && First(entries, 0x6100_0031, 24 * |rs|)
    requires First(entries, 0x6100_0029, jumpsAt) && First(entries, 0x6100_002D, 24 * |js|)
    requires TableStands(d, t, standardAt, rs, ss, false) && TableStands(d, t, jumpsAt, js, ts, true)
    ensures RelocationsIn(entries, d) == Some(rs + js)
  {
    hide First, Absent, DynamicValue, TableStands, RelocationTable;
    FindsFirst(entries, 0x6100_0039);
    FindsFirst(entries, 0x6100_003F);
    FindsFirst(entries, 0x6100_0035);
    FindsFirst(entries, 0x6100_0037);
    FindsFirst(entries, 0x6100_002F);
    FindsFirst(entries, 0x6100_0031);
    FindsFirst(entries, 0x6100_0029);
    FindsFirst(entries, 0x6100_002D);
    ReadsTable(d, t, standardAt, rs, ss, false, 0);
    ReadsTable(d, t, jumpsAt, js, ts, true, 0);
    assert rs[0..] == rs && js[0..] == js;
    assert (24 * |rs|) / 24 == |rs| && (24 * |js|) / 24 == |js|;
  }

  /** Without one of the symbol and string table entries there are no relocations, and a table
      that lacks its address or size is no table. */
  lemma NoTables(entries: seq<E.DynamicEntry>, d: seq<byte>)
    ensures (|| Absent(entries, 0x6100_0039) || Absent(entries, 0x6100_003F)
             || Absent(entries, 0x6100_0035) || Absent(entries, 0x6100_0037)) ==> RelocationsIn(entries, d) == Some([])
    ensures ((Absent(entries, 0x6100_002F) || Absent(entries, 0x6100_0031))
             && (Absent(entries, 0x6100_0029) || Absent(entries, 0x6100_002D))) ==> RelocationsIn(entries, d) == Some([])
  {
    hide First, Absent, DynamicValue, RelocationTable;
    FindsFirst(entries, 0x6100_0039);
    FindsFirst(entries, 0x6100_003F);
    FindsFirst(entries, 0x6100_0035);
    FindsFirst(entries, 0x6100_0037);
    FindsFirst(entries, 0x6100_002F);
    FindsFirst(entries, 0x6100_0031);
    FindsFirst(entries, 0x6100_0029);
    FindsFirst(entries, 0x6100_002D);
    var none: seq<ParsedRelocation> := [];
    assert none + none == none;
  }

  // ---------------------------------------------------------------------------
  // Needed modules
  // ---------------------------------------------------------------------------

  /** An entry that names a module: of one of the two tags. */
  predicate NamesModule(e: E.DynamicEntry) {
    e.tag == 0x1 || e.tag == 0x6100_0015
  }

  /** The string an entry points at: `name`, null-terminated inside the string table, or the
      empty string, which is also what an offset outside the table or the data gives. */
  ghost predicate StringStands(d: seq<byte>, strtab: nat, strsz: nat, offset: nat, name: Name) {
    && 0 !in name
    && if name == [] then offset >= strsz || strtab + offset >= |d| || Holds(d, strtab + offset, [0])
       else offset < strsz && Holds(d, strtab + offset, name + [0])
  }

  /** `names` are the non-empty strings of the module-naming entries, in entry order. */
  ghost predicate NeededStand(entries: seq<E.DynamicEntry>, d: seq<byte>, strtab: nat, strsz: nat, names: seq<Name>) {
    if entries == [] then names == []
    else if !NamesModule(entries[0]) then NeededStand(entries[1..], d, strtab, strsz, names)
    else if names != [] && names[0] != [] && StringStands(d, strtab, strsz, entries[0].value, names[0]) then
      NeededStand(entries[1..], d, strtab, strsz, names[1..])
    else
      StringStands(d, strtab, strsz, entries[0].value, []) && NeededStand(entries[1..], d, strtab, strsz, names)
  }

  lemma ReadsDynamicString(all: seq<E.DynamicEntry>, d: seq<byte>, strtab: nat, strsz: nat, offset: nat, name: Name)
    requires First(all, 0x6100_0035, strtab) && First(all, 0x6100_0037, strsz)
    requires StringStands(d, strtab, strsz, offset, name)
    ensures DynamicString(all, d, offset) == name
  {
    hide First, Absent, DynamicValue;
    FindsFirst(all, 0x6100_0035);
    FindsFirst(all, 0x6100_0037);
    if Holds(d, strtab + offset, name + [0]) {
      HoldsLength(d, strtab + offset, name + [0]);
      ReadsString(d, strtab + offset, name);
    }
    assert [] + [0] == [0 as byte];
  }

  /** The needed modules are exactly these names: other tags and empty strings contribute nothing. */
  lemma {:induction false} ReadsNeeded(entries: seq<E.DynamicEntry>, all: seq<E.DynamicEntry>, d: seq<byte>,
                                       strtab: nat, strsz: nat, names: seq<Name>)
    requires First(all, 0x6100_0035, strtab) && First(all, 0x6100_0037, strsz)
    requires NeededStand(entries, d, strtab, strsz, names)
    ensures NeededIn(entries, all, d) == names
  {
    if entries != [] {
      hide First, StringStands, DynamicString;
      var rest := entries[1..];
      if !NamesModule(entries[0]) {
        ReadsNeeded(rest, all, d, strtab, strsz, names);
      } else if names != [] && names[0] != [] && StringStands(d, strtab, strsz, entries[0].value, names[0]) {
        ReadsDynamicString(all, d, strtab, strsz, entries[0].value, names[0]);
        ReadsNeeded(rest, all, d, strtab, strsz, names[1..]);
        assert names == [names[0]] + names[1..];
      } else {
        ReadsDynamicString(all, d, strtab, strsz, entries[0].value, []);
        ReadsNeeded(rest, all, d, strtab, strsz, names);
      }
    }
  }

  /** Without a string table no module is needed. */
  lemma {:induction false} NeedsNothing(entries: seq<E.DynamicEntry>, all: seq<E.DynamicEntry>, d: seq<byte>)
    requires Absent(all, 0x6100_0035) || Absent(all, 0x6100_0037)
    ensures NeededIn(entries, all, d) == []
  {
    hide First, Absent, DynamicValue;
    FindsFirst(all, 0x6100_0035);
    FindsFirst(all, 0x6100_0037);
    if entries != [] {
      NeedsNothing(entries[1..], all, d);
    }
  }

  // ---------------------------------------------------------------------------
  // Entries that are cut off or point outside their tables
  // ---------------------------------------------------------------------------

  /** A relocation whose symbol lies outside the symbol table, or whose symbol record the data
      cuts off, keeps its words and has no symbol; one whose name offset lies outside the string
      table keeps its binding and type and has no name. */
  lemma ReadsNameless(d: seq<byte>, t: Tables, p: nat, r: ParsedRelocation, s: Symbol)
    requires IsRelocation(r) && IsSymbol(s) && r.symbolName == [] && Holds(d, p, RelocationBytes(r, s))
    requires s.index > 0
    requires var q := t.symtab + s.index * 24;
             if s.index * 24 >= t.symtabSize || q <= |d| < q + 24 then r.symbolBinding == 0 && r.symbolType == 0
             else s.nameOffset >= t.strtabSize && Holds(d, q, SymbolBytes(r, s))
    ensures p + 24 <= |d| && RelocationAt(d, t, p, r.isJmpRel) == Some([r])
  {
    hide U64At, Holds, RelocationBytes, StringAt, SymbolBytes, U32At, SymbolOf;
    ReadsWords(d, p, r, s);
    InfoParts(s.index, r.relType);
    var q := t.symtab + s.index * 24;
    if s.index * 24 < t.symtabSize && !(q <= |d| < q + 24) {
      ReadsSymbolRecord(d, q, r, s);
      Nibbles(r.symbolBinding, r.symbolType);
    }
    NamelessSymbol(d, t, s.index, s.nameOffset, r.symbolBinding * 16 + r.symbolType, r.symbolBinding, r.symbolType);
  }

  lemma NamelessSymbol(d: seq<byte>, t: Tables, index: nat, nameOffset: nat, info: nat, binding: nat, kind: nat)
    requires index > 0
    requires var q := t.symtab + index * 24;
             if index * 24 >= t.symtabSize || q <= |d| < q + 24 then binding == 0 && kind == 0
             else q + 24 <= |d| && U32At(d, q) == nameOffset && d[q + 4] == info && nameOffset >= t.strtabSize
                  && info / 16 == binding && info % 16 == kind
    ensures SymbolOf(d, t, index) == Some(([], binding, kind))
  {
    hide U32At, StringAt;
  }

  /** An entry the data cuts off is skipped; one that would start behind the data panics. */
  lemma CutEntries(d: seq<byte>, t: Tables, start: nat, count: nat, i: nat, isJmpRel: bool)
    requires i < count
    ensures start + i * 24 > |d| ==> RelocationTable(d, t, start, count, i, isJmpRel) == None
    ensures start + i * 24 <= |d| < start + i * 24 + 24 ==>
              RelocationTable(d, t, start, count, i, isJmpRel) == RelocationTable(d, t, start, count, i + 1, isJmpRel)
  {
    var rest := RelocationTable(d, t, start, count, i + 1, isJmpRel);
    if rest.Some? {
      assert [] + rest.value == rest.value;
    }
  }
}
