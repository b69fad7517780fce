/** The MIPS software-managed TLB of src/arch/mips/tlb.cc.

    The TLB is a fixed-size table of entries, each mapping an even/odd pair of
    half pages, plus a "fast lookup" multimap from a virtual page number (VPN)
    to the slots that were inserted under it.  The multimap is modelled as a
    sequence of (VPN, slot) links in insertion order: for equal keys a C++
    multimap keeps insertion order, `find` yields the first link of the equal
    range and `insert` appends at its end, and links with other keys never
    influence a search for a given key.
 */
module MipsTlb {
  import opened Base

  /** One TLB entry (`MipsISA::PTE`).  `mask` is the page-size mask in VPN
      units, `vpn` the tag, `g` the global bit; `pfn0/v0/d0` describe the even
      half page and `pfn1/v1/d1` the odd one.  `addrShiftAmount` is the bit of
      the virtual address that selects the half, and `offsetMask` the
      page-offset bits kept from the virtual address. */
  datatype Pte = Pte(
    mask: Addr,
    vpn: Addr,
    asid: bv8,
    g: bool,
    pfn0: Addr,
    pfn1: Addr,
    v0: bool,
    v1: bool,
    d0: bool,
    d1: bool,
    addrShiftAmount: int,
    offsetMask: Addr)

  /** The all-zero entry that `memset` leaves in the table. */
  const ZeroPte: Pte := Pte(0, 0, 0, false, 0, 0, false, false, false, false, 0, 0)

  /** An entry is in use when either half page is valid. */
  predicate IsValid(p: Pte)
  {
    p.v0 || p.v1
  }

  /** The match rule of `lookup` and `probeEntry`: the VPN agrees outside the
      entry's mask, and the entry is global or belongs to address space `asn`. */
  predicate Matches(p: Pte, vpn: Addr, asn: bv8)
  {
    (vpn & !p.mask) == (p.vpn & !p.mask) && (p.g || asn == p.asid)
  }

  /** One element (key, slot) of the fast-lookup multimap. */
  datatype Link = Link(vpn: Addr, slot: nat)

  /** The TLB: the entry table (its length is the TLB size), the lookup
      multimap, the replacement cursor `nlu` and the cached page-size mode. */
  datatype Tlb = Tlb(table: seq<Pte>, lookupTable: seq<Link>, nlu: int, smallPages: int)

  /** Every link names a slot of the table. */
  predicate LinksInBounds(links: seq<Link>, size: nat)
  {
    forall j :: 0 <= j < |links| ==> links[j].slot < size
  }

  /** Position `j` of the lookup table is the first link keyed by `vpn` whose
      entry matches `(vpn, asn)`: the link a search for `vpn` stops at. */
  predicate FirstMatch(t: Tlb, vpn: Addr, asn: bv8, j: int)
    requires LinksInBounds(t.lookupTable, |t.table|)
  {
    && 0 <= j < |t.lookupTable|
    && t.lookupTable[j].vpn == vpn
    && Matches(t.table[t.lookupTable[j].slot], vpn, asn)
    && forall k :: 0 <= k < j && t.lookupTable[k].vpn == vpn ==>
         !Matches(t.table[t.lookupTable[k].slot], vpn, asn)
  }

  /** Some link keyed by `vpn` leads to an entry matching `(vpn, asn)`. */
  predicate Hits(t: Tlb, vpn: Addr, asn: bv8)
    requires LinksInBounds(t.lookupTable, |t.table|)
  {
    exists j :: 0 <= j < |t.lookupTable| && t.lookupTable[j].vpn == vpn
                && Matches(t.table[t.lookupTable[j].slot], vpn, asn)
  }

  /** The search loop shared by `lookup` and `probeEntry`, from link `i` on:
      it visits only links keyed by exactly `vpn`, in insertion order, and
      returns the position of the first whose entry matches. */
  function FindLinkFrom(t: Tlb, vpn: Addr, asn: bv8, i: nat): (r: Option<nat>)
    requires LinksInBounds(t.lookupTable, |t.table|)
    requires i <= |t.lookupTable|
    ensures r.Some? ==> i <= r.value < |t.lookupTable|
    ensures r.Some? ==> t.lookupTable[r.value].vpn == vpn
                        && Matches(t.table[t.lookupTable[r.value].slot], vpn, asn)
    ensures r.Some? ==> forall k :: i <= k < r.value && t.lookupTable[k].vpn == vpn ==>
                          !Matches(t.table[t.lookupTable[k].slot], vpn, asn)
    ensures r.None? ==> forall k :: i <= k < |t.lookupTable| && t.lookupTable[k].vpn == vpn ==>
                          !Matches(t.table[t.lookupTable[k].slot], vpn, asn)
    decreases |t.lookupTable| - i
  {
    if i == |t.lookupTable| then None
    else if t.lookupTable[i].vpn == vpn && Matches(t.table[t.lookupTable[i].slot], vpn, asn) then Some(i)
    else FindLinkFrom(t, vpn, asn, i + 1)
  }

  /** `TLB::lookup`: the entry of the first matching link keyed by `vpn`, or
      `None` when no link keyed by `vpn` leads to a matching entry. */
  function Lookup(t: Tlb, vpn: Addr, asn: bv8): (r: Option<Pte>)
    requires LinksInBounds(t.lookupTable, |t.table|)
    ensures r.Some? <==> Hits(t, vpn, asn)
    ensures r.Some? ==> Matches(r.value, vpn, asn) && r.value in t.table
    ensures r.Some? ==> exists j :: FirstMatch(t, vpn, asn, j) && r.value == t.table[t.lookupTable[j].slot]
  {
    match FindLinkFrom(t, vpn, asn, 0)
    case None => None
    case Some(j) =>
      assert FirstMatch(t, vpn, asn, j);
      Some(t.table[t.lookupTable[j].slot])
  }

  /** `TLB::probeEntry`: the slot of the entry `lookup` would return, or -1. */
  function ProbeEntry(t: Tlb, vpn: Addr, asn: bv8): (r: int)
    requires LinksInBounds(t.lookupTable, |t.table|)
    ensures -1 <= r < |t.table|
    ensures r == -1 <==> !Hits(t, vpn, asn)
    ensures r != -1 ==> exists j :: FirstMatch(t, vpn, asn, j) && r == t.lookupTable[j].slot
  {
    match FindLinkFrom(t, vpn, asn, 0)
    case None => -1
    case Some(j) =>
      assert FirstMatch(t, vpn, asn, j);
      t.lookupTable[j].slot
  }

  /** The first matching link is unique, so `lookup` and `probeEntry` agree. */
  lemma FirstMatchUnique(t: Tlb, vpn: Addr, asn: bv8, j: int, k: int)
    requires LinksInBounds(t.lookupTable, |t.table|)
    requires FirstMatch(t, vpn, asn, j) && FirstMatch(t, vpn, asn, k)
    ensures j == k
  {
  }

  /** `probeEntry` returns -1 exactly when `lookup` misses, and otherwise the
      slot holding the entry `lookup` returns. */
  lemma ProbeAgreesWithLookup(t: Tlb, vpn: Addr, asn: bv8)
    requires LinksInBounds(t.lookupTable, |t.table|)
    ensures ProbeEntry(t, vpn, asn) == -1 <==> Lookup(t, vpn, asn).None?
    ensures ProbeEntry(t, vpn, asn) != -1 ==>
              Lookup(t, vpn, asn) == Some(t.table[ProbeEntry(t, vpn, asn)])
  {
    var p := ProbeEntry(t, vpn, asn);
    var l := Lookup(t, vpn, asn);
    if p != -1 {
      var j :| FirstMatch(t, vpn, asn, j) && p == t.lookupTable[j].slot;
      var k :| FirstMatch(t, vpn, asn, k) && l.value == t.table[t.lookupTable[k].slot];
      FirstMatchUnique(t, vpn, asn, j, k);
    }
  }

  /** A non-global entry is found only by its own address space; a global one
      by every address space. */
  lemma LookupAsidIsolation(t: Tlb, vpn: Addr, asn: bv8)
    requires LinksInBounds(t.lookupTable, |t.table|)
    ensures Lookup(t, vpn, asn).Some? && !Lookup(t, vpn, asn).value.g ==>
              Lookup(t, vpn, asn).value.asid == asn
    ensures forall other: bv8 :: Lookup(t, vpn, asn).Some? && Lookup(t, vpn, asn).value.g ==>
              Lookup(t, vpn, other).Some?
  {
    forall other: bv8 | Lookup(t, vpn, asn).Some? && Lookup(t, vpn, asn).value.g
      ensures Lookup(t, vpn, other).Some?
    {
      var j :| FirstMatch(t, vpn, asn, j) && Lookup(t, vpn, asn).value == t.table[t.lookupTable[j].slot];
      assert Matches(t.table[t.lookupTable[j].slot], vpn, other);
    }
  }

  /** `TLB::getEntry`: a direct read of slot `index` (the source asserts
      `index < size`). */
  function GetEntry(t: Tlb, index: nat): (r: Pte)
    requires index < |t.table|
    ensures r in t.table
  {
    t.table[index]
  }

  /** `TLB::index`: the entry under the replacement cursor, taken before the
      cursor optionally advances by `nextnlu` (not part of this model, so it
      is a parameter). */
  function Index(t: Tlb, advance: bool, nextNlu: int -> int): (r: (Pte, Tlb))
    requires 0 <= t.nlu < |t.table|
    ensures r.0 == t.table[t.nlu]
    ensures r.1.table == t.table && r.1.lookupTable == t.lookupTable && r.1.smallPages == t.smallPages
    ensures r.1.nlu == (if advance then nextNlu(t.nlu) else t.nlu)
  {
    var pte := t.table[t.nlu];
    if advance then (pte, t.(nlu := nextNlu(t.nlu))) else (pte, t)
  }

  /** Position of the first link keyed by `vpn`: what `multimap::find`
      returns, `None` standing for `end()`. */
  function FindKey(links: seq<Link>, vpn: Addr, i: nat): (r: Option<nat>)
    requires i <= |links|
    ensures r.Some? ==> i <= r.value < |links| && links[r.value].vpn == vpn
    ensures r.Some? ==> forall k :: i <= k < r.value ==> links[k].vpn != vpn
    ensures r.None? ==> forall k :: i <= k < |links| ==> links[k].vpn != vpn
    decreases |links| - i
  {
    if i == |links| then None
    else if links[i].vpn == vpn then Some(i)
    else FindKey(links, vpn, i + 1)
  }

  /** `lookupTable.erase(lookupTable.find(vpn))`: drop the first link keyed by
      `vpn`, whichever slot it names.  When no link has the key the source
      would erase `end()`; `KeyPresentOnErase` shows that cannot happen in a
      TLB that satisfies `Inv`, and the model leaves the links unchanged. */
  function EraseFirst(links: seq<Link>, vpn: Addr): (r: seq<Link>)
    ensures (forall k :: 0 <= k < |links| ==> links[k].vpn != vpn) ==> r == links
    ensures (exists k :: 0 <= k < |links| && links[k].vpn == vpn) ==>
              |r| == |links| - 1 &&
              exists j :: 0 <= j < |links| && links[j].vpn == vpn
                          && (forall k :: 0 <= k < j ==> links[k].vpn != vpn)
                          && r == links[..j] + links[j + 1..]
  {
    match FindKey(links, vpn, 0)
    case None => links
    case Some(j) =>
      links[..j] + links[j + 1..]
  }

  /** `TLB::insertAt` with the bound corrected to `index >= size` (see
      `InsertAtGuardAsWritten`).  The page-size mode is always refreshed; an
      out-of-range slot is otherwise a logged no-op.  For an in-range slot the
      entry is overwritten, one link keyed by the old VPN is erased if the old
      entry was valid, and a link for the new VPN is appended whether or not
      the new entry is valid. */
  function InsertAt(t: Tlb, pte: Pte, index: nat, smallPages: int): (r: Tlb)
    ensures r.smallPages == smallPages && r.nlu == t.nlu && |r.table| == |t.table|
    ensures !InsertAtWrites(index, |t.table|) ==> r.table == t.table && r.lookupTable == t.lookupTable
    ensures InsertAtWrites(index, |t.table|) ==>
              r.table[index] == pte &&
              forall s :: 0 <= s < |t.table| && s != index ==> r.table[s] == t.table[s]
    ensures InsertAtWrites(index, |t.table|) ==>
              |r.lookupTable| > 0 && r.lookupTable[|r.lookupTable| - 1] == Link(pte.vpn, index)
    ensures InsertAtWrites(index, |t.table|) && !IsValid(t.table[index]) ==>
              r.lookupTable[..|r.lookupTable| - 1] == t.lookupTable
    ensures InsertAtWrites(index, |t.table|) && IsValid(t.table[index]) ==>
              r.lookupTable[..|r.lookupTable| - 1] == EraseFirst(t.lookupTable, t.table[index].vpn)
  {
    if !InsertAtWrites(index, |t.table|) then
      t.(smallPages := smallPages)
    else
      var old_ := t.table[index];
      var kept := if IsValid(old_) then EraseFirst(t.lookupTable, old_.vpn) else t.lookupTable;
      var links := kept + [Link(pte.vpn, index)];
      assert links[..|links| - 1] == kept;
      Tlb(t.table[index := pte], links, t.nlu, smallPages)
  }

  /** The bound test of `insertAt` as the source writes it: it writes unless
      `index > size`, so `index == size` also writes, one past the table. */
  function InsertAtGuardAsWritten(index: nat, size: nat): (writes: bool)
    ensures writes <==> index <= size
  {
    !(index > size)
  }

  /** The corrected bound test: only slots of the table are written. */
  function InsertAtWrites(index: nat, size: nat): (writes: bool)
    ensures writes <==> index < size
  {
    index < size
  }

  /** The as-written guard lets `index == size` through although that is not
      a slot of the table; the corrected guard writes exactly the slots. */
  lemma InsertAtOffByOne(t: Tlb)
    ensures InsertAtGuardAsWritten(|t.table|, |t.table|)
    ensures !InsertAtWrites(|t.table|, |t.table|)
    ensures forall i: nat :: InsertAtWrites(i, |t.table|) ==> i < |t.table| && InsertAtGuardAsWritten(i, |t.table|)
  {
  }

  /** `TLB::flushAll`: every entry zeroed, the lookup table emptied and the
      replacement cursor reset; the page-size mode is untouched. */
  function FlushAll(t: Tlb): (r: Tlb)
    ensures |r.table| == |t.table|
    ensures forall s :: 0 <= s < |r.table| ==> r.table[s] == ZeroPte
    ensures r.lookupTable == [] && r.nlu == 0 && r.smallPages == t.smallPages
  {
    Tlb(seq(|t.table|, _ => ZeroPte), [], 0, t.smallPages)
  }

  /** The TLB as the constructor leaves it: `size` zeroed entries, no links,
      cursor 0 and `smallPages` 0. */
  function NewTlb(size: nat): (t: Tlb)
    ensures |t.table| == size && t.lookupTable == [] && t.nlu == 0 && t.smallPages == 0
    ensures forall s :: 0 <= s < size ==> t.table[s] == ZeroPte
  {
    Tlb(seq(size, _ => ZeroPte), [], 0, 0)
  }

  /** The links `unserialize` adds for a restored table: one `(vpn, slot)`
      per slot with a valid half, in slot order. */
  function RebuildIndex(entries: seq<Pte>): seq<Link>
    decreases |entries|
  {
    if |entries| == 0 then []
    else
      var n := |entries| - 1;
      var init := RebuildIndex(entries[..n]);
      if IsValid(entries[n]) then init + [Link(entries[n].vpn, n)] else init
  }

  /** Every link `RebuildIndex` adds names a valid slot under that slot's
      own VPN. */
  lemma {:induction false} RebuildIndexSound(entries: seq<Pte>)
    ensures forall j :: 0 <= j < |RebuildIndex(entries)| ==>
              var l := RebuildIndex(entries)[j];
              l.slot < |entries| && IsValid(entries[l.slot]) && l.vpn == entries[l.slot].vpn
    decreases |entries|
  {
    if |entries| > 0 {
      var n := |entries| - 1;
      RebuildIndexSound(entries[..n]);
    }
  }

  /** One step of the `unserialize` loop extends `RebuildIndex` by slot `i`. */
  lemma RebuildIndexStep(entries: seq<Pte>, i: nat)
    requires i < |entries|
    ensures RebuildIndex(entries[..i + 1]) ==
              RebuildIndex(entries[..i]) + (if IsValid(entries[i]) then [Link(entries[i].vpn, i)] else [])
  {
    var prefix := entries[..i + 1];
    assert prefix[..i] == entries[..i] && prefix[i] == entries[i];
  }

  /** `RebuildIndex` lists the slots in increasing order. */
  lemma {:induction false} RebuildIndexOrdered(entries: seq<Pte>)
    ensures forall j, k :: 0 <= j < k < |RebuildIndex(entries)| ==>
              RebuildIndex(entries)[j].slot < RebuildIndex(entries)[k].slot
    decreases |entries|
  {
    if |entries| > 0 {
      var n := |entries| - 1;
      RebuildIndexOrdered(entries[..n]);
      RebuildIndexSound(entries[..n]);
    }
  }

  /** Every slot with a valid half gets a link in `RebuildIndex`. */
  lemma {:induction false} RebuildIndexComplete(entries: seq<Pte>, s: nat)
    requires s < |entries| && IsValid(entries[s])
    ensures Link(entries[s].vpn, s) in RebuildIndex(entries)
    decreases |entries|
  {
    var n := |entries| - 1;
    if s < n {
      assert entries[..n][s] == entries[s];
      RebuildIndexComplete(entries[..n], s);
    }
  }

  /** `TLB::unserialize`: the checkpointed cursor and entries replace the
      current ones (the checkpoint holds as many entries as the table), and
      every restored entry with a valid half is inserted into the lookup
      table in slot order, after the links already there. */
  method Unserialize(t: Tlb, ckptNlu: int, entries: seq<Pte>) returns (r: Tlb)
    requires |entries| == |t.table|
    ensures r.table == entries && r.nlu == ckptNlu && r.smallPages == t.smallPages
    ensures r.lookupTable == t.lookupTable + RebuildIndex(entries)
  {
    var links := t.lookupTable;
    var i := 0;
    while i < |entries|
      invariant 0 <= i <= |entries|
      invariant links == t.lookupTable + RebuildIndex(entries[..i])
    {
      RebuildIndexStep(entries, i);
      ghost var before := RebuildIndex(entries[..i]);
      if IsValid(entries[i]) {
        var l := Link(entries[i].vpn, i);
        assert t.lookupTable + (before + [l]) == (t.lookupTable + before) + [l];
        links := links + [l];
      } else {
        assert before + [] == before;
      }
      i := i + 1;
    }
    assert entries[..i] == entries;
    r := Tlb(entries, links, ckptNlu, t.smallPages);
  }

  // ---------------------------------------------------------------------
  // The index invariant: for every key, the lookup table holds at least as
  // many links with that key as there are valid entries carrying it.

  /** How many valid entries of `table` carry VPN `k`. */
  function CountValid(table: seq<Pte>, k: Addr): nat
    decreases |table|
  {
    if |table| == 0 then 0
    else CountValid(table[..|table| - 1], k) + Own(table[|table| - 1], k)
  }

  /** What one entry contributes to `CountValid`. */
  function Own(p: Pte, k: Addr): nat
  {
    if IsValid(p) && p.vpn == k then 1 else 0
  }

  /** How many links of `links` have key `k`. */
  function CountKey(links: seq<Link>, k: Addr): nat
    decreases |links|
  {
    if |links| == 0 then 0
    else CountKey(links[..|links| - 1], k) + (if links[|links| - 1].vpn == k then 1 else 0)
  }

  /** The invariant of a TLB reachable from construction: links point into
      the table, and the keys cover the VPNs of the valid entries. */
  ghost predicate Inv(t: Tlb)
  {
    && LinksInBounds(t.lookupTable, |t.table|)
    && forall k :: CountValid(t.table, k) <= CountKey(t.lookupTable, k)
  }

  lemma {:induction false} CountKeyConcat(a: seq<Link>, b: seq<Link>, k: Addr)
    ensures CountKey(a + b, k) == CountKey(a, k) + CountKey(b, k)
    decreases |b|
  {
    if |b| == 0 {
      assert a + b == a;
    } else {
      assert (a + b)[..|a + b| - 1] == a + b[..|b| - 1];
      CountKeyConcat(a, b[..|b| - 1], k);
    }
  }

  lemma CountKeySingle(l: Link, k: Addr)
    ensures CountKey([l], k) == if l.vpn == k then 1 else 0
  {
    assert [l][..0] == [];
  }

  lemma {:induction false} CountKeyMember(links: seq<Link>, k: Addr)
    requires CountKey(links, k) > 0
    ensures exists j :: 0 <= j < |links| && links[j].vpn == k
    decreases |links|
  {
    var n := |links| - 1;
    if links[n].vpn != k {
      CountKeyMember(links[..n], k);
      var j :| 0 <= j < n && links[..n][j].vpn == k;
      assert links[j].vpn == k;
    }
  }

  lemma {:induction false} CountValidMember(table: seq<Pte>, s: nat)
    requires s < |table| && IsValid(table[s])
    ensures CountValid(table, table[s].vpn) > 0
    decreases |table|
  {
    var n := |table| - 1;
    if s < n {
      assert table[..n][s] == table[s];
      CountValidMember(table[..n], s);
    }
  }

  lemma {:induction false} CountValidUpdate(table: seq<Pte>, s: nat, p: Pte, k: Addr)
    requires s < |table|
    ensures CountValid(table[s := p], k) + Own(table[s], k) == CountValid(table, k) + Own(p, k)
    decreases |table|
  {
    var n := |table| - 1;
    var t2 := table[s := p];
    if s == n {
      assert t2[..n] == table[..n];
    } else {
      assert t2[..n] == table[..n][s := p];
      assert t2[n] == table[n];
      CountValidUpdate(table[..n], s, p, k);
    }
  }

  lemma {:induction false} CountValidAllZero(table: seq<Pte>, k: Addr)
    requires forall s :: 0 <= s < |table| ==> table[s] == ZeroPte
    ensures CountValid(table, k) == 0
    decreases |table|
  {
    if |table| > 0 {
      CountValidAllZero(table[..|table| - 1], k);
    }
  }

  /** For every key, `RebuildIndex` adds exactly as many links as there are
      valid entries carrying it. */
  lemma {:induction false} RebuildIndexCounts(entries: seq<Pte>, k: Addr)
    ensures CountKey(RebuildIndex(entries), k) == CountValid(entries, k)
    decreases |entries|
  {
    if |entries| > 0 {
      var n := |entries| - 1;
      RebuildIndexCounts(entries[..n], k);
      if IsValid(entries[n]) {
        CountKeyConcat(RebuildIndex(entries[..n]), [Link(entries[n].vpn, n)], k);
        CountKeySingle(Link(entries[n].vpn, n), k);
      }
    }
  }

  /** Erasing the first link keyed by a present `vpn` removes exactly one
      link with that key and none with another. */
  lemma EraseFirstCounts(links: seq<Link>, vpn: Addr, k: Addr)
    requires FindKey(links, vpn, 0).Some?
    ensures CountKey(EraseFirst(links, vpn), k) + (if vpn == k then 1 else 0) == CountKey(links, k)
  {
    var j := FindKey(links, vpn, 0).value;
    var a, b := links[..j], links[j + 1..];
    assert EraseFirst(links, vpn) == a + b;
    assert links == (a + [links[j]]) + b;
    CountKeyConcat(a + [links[j]], b, k);
    CountKeyConcat(a, [links[j]], k);
    CountKeyConcat(a, b, k);
    CountKeySingle(links[j], k);
  }

  /** A freshly constructed TLB satisfies the invariant. */
  lemma NewTlbInv(size: nat)
    ensures Inv(NewTlb(size))
  {
    forall k ensures CountValid(NewTlb(size).table, k) <= CountKey(NewTlb(size).lookupTable, k) {
      CountValidAllZero(NewTlb(size).table, k);
    }
  }

  /** `flushAll` re-establishes the invariant and makes every lookup miss. */
  lemma FlushAllInv(t: Tlb, vpn: Addr, asn: bv8)
    ensures Inv(FlushAll(t))
    ensures Lookup(FlushAll(t), vpn, asn).None? && ProbeEntry(FlushAll(t), vpn, asn) == -1
  {
    forall k ensures CountValid(FlushAll(t).table, k) <= CountKey(FlushAll(t).lookupTable, k) {
      CountValidAllZero(FlushAll(t).table, k);
    }
  }

  /** In a TLB satisfying the invariant, the `find` before `insertAt`'s erase
      always finds a link keyed by the old entry's VPN, so the source never
      erases `end()`. */
  lemma KeyPresentOnErase(t: Tlb, index: nat)
    requires Inv(t) && index < |t.table| && IsValid(t.table[index])
    ensures FindKey(t.lookupTable, t.table[index].vpn, 0).Some?
  {
    CountValidMember(t.table, index);
    assert CountValid(t.table, t.table[index].vpn) <= CountKey(t.lookupTable, t.table[index].vpn);
    CountKeyMember(t.lookupTable, t.table[index].vpn);
  }

  /** `insertAt` preserves the invariant. */
  lemma InsertAtInv(t: Tlb, pte: Pte, index: nat, smallPages: int)
    requires Inv(t)
    ensures Inv(InsertAt(t, pte, index, smallPages))
  {
    var r := InsertAt(t, pte, index, smallPages);
    if index < |t.table| {
      var kept := r.lookupTable[..|r.lookupTable| - 1];
      assert r.lookupTable == kept + [Link(pte.vpn, index)];
      forall k ensures CountValid(r.table, k) <= CountKey(r.lookupTable, k) {
        InsertAtCounts(t, pte, index, smallPages, k);
      }
      assert LinksInBounds(kept, |t.table|);
    }
  }

  /** The counting half of `InsertAtInv`, for one key. */
  lemma InsertAtCounts(t: Tlb, pte: Pte, index: nat, smallPages: int, k: Addr)
    requires Inv(t) && index < |t.table|
    ensures var r := InsertAt(t, pte, index, smallPages);
            CountValid(r.table, k) <= CountKey(r.lookupTable, k)
  {
    var r := InsertAt(t, pte, index, smallPages);
    var old_ := t.table[index];
    var kept := r.lookupTable[..|r.lookupTable| - 1];
    assert r.lookupTable == kept + [Link(pte.vpn, index)];
    assert r.table == t.table[index := pte];
    if IsValid(old_) {
      KeyPresentOnErase(t, index);
    }
    CountKeyConcat(kept, [Link(pte.vpn, index)], k);
    CountKeySingle(Link(pte.vpn, index), k);
    CountValidUpdate(t.table, index, pte, k);
    assert CountValid(t.table, k) <= CountKey(t.lookupTable, k);
    if IsValid(old_) {
      EraseFirstCounts(t.lookupTable, old_.vpn, k);
    }
  }

  /** `unserialize` preserves the invariant. */
  lemma RebuildInv(t: Tlb, ckptNlu: int, entries: seq<Pte>)
    requires Inv(t) && |entries| == |t.table|
    ensures Inv(Tlb(entries, t.lookupTable + RebuildIndex(entries), ckptNlu, t.smallPages))
  {
    var rb := RebuildIndex(entries);
    RebuildIndexSound(entries);
    assert LinksInBounds(rb, |entries|);
    assert LinksInBounds(t.lookupTable + rb, |entries|);
    forall k ensures CountValid(entries, k) <= CountKey(t.lookupTable + rb, k) {
      CountKeyConcat(t.lookupTable, rb, k);
      RebuildIndexCounts(entries, k);
    }
  }

  /** On a TLB whose lookup table is empty (a fresh or flushed one),
      `unserialize` leaves exactly one link `(entries[s].vpn, s)` per valid
      slot `s`, in increasing slot order. */
  lemma RebuildFreshExact(entries: seq<Pte>)
    ensures forall l: Link :: l in RebuildIndex(entries) <==>
              l.slot < |entries| && IsValid(entries[l.slot]) && l.vpn == entries[l.slot].vpn
    ensures forall j, k :: 0 <= j < k < |RebuildIndex(entries)| ==>
              RebuildIndex(entries)[j].slot < RebuildIndex(entries)[k].slot
  {
    var rb := RebuildIndex(entries);
    RebuildIndexSound(entries);
    RebuildIndexOrdered(entries);
    forall l: Link | l.slot < |entries| && IsValid(entries[l.slot]) && l.vpn == entries[l.slot].vpn
      ensures l in rb
    {
      RebuildIndexComplete(entries, l.slot);
    }
  }

  /** After `insertAt` writes slot `index`, a lookup of the new entry's own
      VPN and ASID hits (possibly an older matching entry first). */
  lemma InsertThenLookupHits(t: Tlb, pte: Pte, index: nat, smallPages: int)
    requires Inv(t) && index < |t.table|
    ensures Inv(InsertAt(t, pte, index, smallPages))
    ensures Lookup(InsertAt(t, pte, index, smallPages), pte.vpn, pte.asid).Some?
    ensures ProbeEntry(InsertAt(t, pte, index, smallPages), pte.vpn, pte.asid) != -1
    ensures GetEntry(InsertAt(t, pte, index, smallPages), index) == pte
  {
    InsertAtInv(t, pte, index, smallPages);
    var r := InsertAt(t, pte, index, smallPages);
    var j := |r.lookupTable| - 1;
    assert r.lookupTable[j].vpn == pte.vpn && Matches(r.table[r.lookupTable[j].slot], pte.vpn, pte.asid);
  }

  /** The lookup table is keyed by the VPN exactly: an entry stored under
      VPN 0x100 with mask 3 covers VPN 0x101 under the mask rule, yet a
      lookup of 0x101 misses because no link has that key. */
  lemma LookupOnlyExactKey()
    ensures var p := Pte(3, 0x100, 0, true, 0, 0, true, true, true, true, 12, 0xFFF);
            var t := Tlb([p], [Link(0x100, 0)], 0, 0);
            Matches(p, 0x101, 0) && Lookup(t, 0x101, 0).None? && Lookup(t, 0x100, 0) == Some(p)
  {
    var p := Pte(3, 0x100, 0, true, 0, 0, true, true, true, true, 12, 0xFFF);
    var t := Tlb([p], [Link(0x100, 0)], 0, 0);
    assert !Hits(t, 0x101, 0);
    assert t.lookupTable[0].vpn == 0x100 && Matches(t.table[0], 0x100, 0);
  }

  /** `insertAt` erases the first link keyed by the old VPN even when it names
      another slot: slots 0 and 1 both hold VPN 0x100 (ASIDs 1 and 2); after
      slot 1 is overwritten with VPN 0x200, slot 0 is still valid but its
      link is gone and the stale link of slot 1 remains, so a lookup that
      slot 0 matches misses. */
  lemma InsertAtMayDropOtherSlot()
    ensures var t := Tlb([DropA, DropB], [Link(0x100, 0), Link(0x100, 1)], 0, 0);
            var r := InsertAt(t, DropC, 1, 0);
            Inv(t) && Lookup(t, 0x100, 1) == Some(DropA)
            && r.table[0] == DropA && IsValid(r.table[0]) && Matches(r.table[0], 0x100, 1)
            && r.lookupTable == [Link(0x100, 1), Link(0x200, 1)]
            && Lookup(r, 0x100, 1).None?
  {
    var t := Tlb([DropA, DropB], [Link(0x100, 0), Link(0x100, 1)], 0, 0);
    DropExampleInv();
    assert FirstMatch(t, 0x100, 1, 0);
    var e := EraseFirst(t.lookupTable, 0x100);
    assert FindKey(t.lookupTable, 0x100, 0) == Some(0);
    assert e == [Link(0x100, 1)];
    var r := InsertAt(t, DropC, 1, 0);
    assert r.lookupTable == [Link(0x100, 1), Link(0x200, 1)];
    assert !Hits(r, 0x100, 1);
  }

  // The entries of the example above: two ASIDs share VPN 0x100, and a
  // third entry with VPN 0x200 replaces the second.
  const DropA: Pte := Pte(0, 0x100, 1, false, 0, 0, true, true, true, true, 12, 0xFFF)
  const DropB: Pte := Pte(0, 0x100, 2, false, 0, 0, true, true, true, true, 12, 0xFFF)
  const DropC: Pte := Pte(0, 0x200, 2, false, 0, 0, true, true, true, true, 12, 0xFFF)

  /** The example TLB before the insertion satisfies the invariant. */
  lemma DropExampleInv()
    ensures Inv(Tlb([DropA, DropB], [Link(0x100, 0), Link(0x100, 1)], 0, 0))
  {
    var t := Tlb([DropA, DropB], [Link(0x100, 0), Link(0x100, 1)], 0, 0);
    assert [DropA, DropB][..1] == [DropA] && [DropA][..0] == [];
    assert [Link(0x100, 0)][..0] == [];
    assert [Link(0x100, 0), Link(0x100, 1)][..1] == [Link(0x100, 0)];
    forall k ensures CountValid(t.table, k) <= CountKey(t.lookupTable, k) {
      assert CountValid(t.table, k) == CountValid([DropA], k) + Own(DropB, k);
      assert CountKey(t.lookupTable, k) == CountKey([Link(0x100, 0)], k) + (if 0x100 == k then 1 else 0);
    }
  }
}
