/** Symbol lookup by NID or by name (crates/core/src/loader/symbols.rs). */
module Symbols {
  import opened Wrappers
  import opened Bytes

  type Name = seq<byte>

  datatype SymbolRecord = SymbolRecord(name: Name, virtualAddress: nat)

  /** What a lookup may answer: the NID's address if the NID is known, else the address of
      some record with that name, and nothing only when there is neither. The hash map's
      iteration order picks among records that share a name. */
  ghost predicate Resolves(symbols: map<Name, SymbolRecord>, name: Name, r: Option<nat>) {
    if name in symbols then r == Some(symbols[name].virtualAddress)
    else if r.None? then forall nid | nid in symbols :: symbols[nid].name != name
    else exists nid | nid in symbols :: symbols[nid].name == name && symbols[nid].virtualAddress == r.value
  }

  /** Whether a lookup finds anything does not depend on the iteration order, and neither does
      the address when records that share a name share it too. */
  lemma ResolutionIsDetermined(symbols: map<Name, SymbolRecord>, name: Name, r: Option<nat>, r': Option<nat>)
    requires Resolves(symbols, name, r) && Resolves(symbols, name, r')
    ensures r.Some? == r'.Some?
    ensures name in symbols
            || (forall a, b | a in symbols && b in symbols && symbols[a].name == symbols[b].name ::
                  symbols[a].virtualAddress == symbols[b].virtualAddress)
            ==> r == r'
  {
  }

  class SymbolResolver {
    var symbols: map<Name, SymbolRecord>

    constructor ()
      ensures symbols == map[]
    {
      symbols := map[];
    }

    /** Register a symbol; from then on its NID resolves to it, and no other NID changes. */
    method AddSymbol(nid: Name, record: SymbolRecord)
      modifies this
      ensures symbols == old(symbols)[nid := record]
      ensures Resolves(symbols, nid, Some(record.virtualAddress))
      ensures forall other: Name, r | other in old(symbols) && other != nid ::
                Resolves(old(symbols), other, r) ==> Resolves(symbols, other, r)
    {
      symbols := symbols[nid := record];
    }

    /** Try the NID, then look through the records for the name. */
    method Resolve(name: Name) returns (r: Option<nat>)
      ensures Resolves(symbols, name, r)
    {
      if name in symbols {
        return Some(symbols[name].virtualAddress);
      }
      var left := symbols.Keys;
      while left != {}
        invariant left <= symbols.Keys
        invariant forall nid | nid in symbols && nid !in left :: symbols[nid].name != name
        decreases left
      {
        var nid :| nid in left;
        if symbols[nid].name == name {
          return Some(symbols[nid].virtualAddress);
        }
        left := left - {nid};
      }
      return None;
    }
  }
}
