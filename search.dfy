/**
 Point search in the storage changeset table: the value a storage slot
 was written with at one block (`do_search_2` and its two adapters).
 */
module StorageSearch {
  import opened Bytes
  import opened BigEndian
  import opened Wrappers
  import opened Cursor
  import opened StorageLayout

  function Zeros(n: nat): (r: Bytes)
    ensures |r| == n
  {
    seq(n, _ => 0)
  }

  /**
   What `buf[lo..].write(addr)` leaves in a zeroed field of `width` bytes:
   `addr` cut or zero-padded to the width.
   */
  function Fit(addr: Bytes, width: nat): (r: Bytes)
    ensures |r| == width
    ensures |addr| == width ==> r == addr
  {
    if |addr| >= width then addr[..width] else addr + Zeros(width - |addr|)
  }

  /** The seek key of the zero-incarnation branch: block number ++ address. */
  function SeekKeyWithoutIncarnation(blockNumber: U64, prefixLen: nat, addr: Bytes): (k: Bytes)
  {
    EncodeU64(blockNumber) + Fit(addr, prefixLen)
  }

  /** The seek key of the known-incarnation branch: block number ++ address ++ incarnation. */
  function SeekKeyWithIncarnation(blockNumber: U64, prefixLen: nat, addr: Bytes, incarnation: U64): (k: Bytes)
  {
    EncodeU64(blockNumber) + Fit(addr, prefixLen) + EncodeU64(incarnation)
  }

  /** `buf[lo..hi].copy_from_slice(src)` */
  method CopyFromSlice(buf: array<Byte>, lo: nat, hi: nat, src: Bytes)
    requires lo <= hi <= buf.Length && hi - lo == |src|
    modifies buf
    ensures buf[..] == old(buf[..lo]) + src + old(buf[hi..])
  {
    var i := 0;
    while i < |src|
      invariant i <= |src|
      invariant forall j :: 0 <= j < buf.Length ==>
        buf[j] == if lo <= j < lo + i then src[j - lo] else old(buf[j])
    {
      buf[lo + i] := src[i];
      i := i + 1;
    }
    assert buf[..] == old(buf[..lo]) + src + old(buf[hi..]);
  }

  /** `buf[lo..].write(src)`: copies as much of `src` as fits and reports how much. */
  method WriteSlice(buf: array<Byte>, lo: nat, src: Bytes) returns (n: nat)
    requires lo <= buf.Length
    modifies buf
    ensures n == if |src| < buf.Length - lo then |src| else buf.Length - lo
    ensures buf[..] == old(buf[..lo]) + src[..n] + old(buf[lo + n..])
  {
    n := if |src| < buf.Length - lo then |src| else buf.Length - lo;
    CopyFromSlice(buf, lo, lo + n, src[..n]);
  }

  /** The entry's full changeset key, as the decoder rebuilds it. */
  function DecodedKey(e: Entry): (k: Bytes)
    requires |e.key| >= BLOCK_NUMBER_LENGTH && |e.value| >= HASH_LENGTH
  {
    FromStorageDbFormat(e.key, e.value).1
  }

  /**
   The scan of the zero-incarnation branch from position `i`: not found at
   the end of the table or at the first entry whose decoded key does not
   start with `addr`; found at the first entry whose slot hash is `slot`.
   */
  function ScanFrom(es: seq<Entry>, i: nat, prefixLen: nat, addr: Bytes, slot: Bytes): (r: Option<Bytes>)
    requires i <= |es| && StorageTable(es, prefixLen)
    ensures r.Some? ==>
      |slot| == HASH_LENGTH &&
      exists j :: i <= j < |es| && StartsWith(DecodedKey(es[j]), addr) && es[j].value == slot + r.value
    decreases |es| - i
  {
    if i == |es| then None
    else
      var d := FromStorageDbFormat(es[i].key, es[i].value);
      if !StartsWith(d.1, addr) then None
      else if d.1[prefixLen + INCARNATION_LENGTH..] == slot then
        assert d.1[prefixLen + INCARNATION_LENGTH..] == es[i].value[..HASH_LENGTH];
        assert es[i].value == es[i].value[..HASH_LENGTH] + es[i].value[HASH_LENGTH..];
        Some(d.2)
      else ScanFrom(es, i + 1, prefixLen, addr, slot)
  }

  /**
   Where the scan of the zero-incarnation branch leaves the cursor: the first
   position from `i` that is the end of the table, an entry whose decoded key
   does not start with `addr`, or an entry whose slot hash is `slot`.
   */
  function ScanStop(es: seq<Entry>, i: nat, prefixLen: nat, addr: Bytes, slot: Bytes): (j: nat)
    requires i <= |es| && StorageTable(es, prefixLen)
    ensures i <= j <= |es|
    ensures forall m :: i <= m < j ==>
      StartsWith(DecodedKey(es[m]), addr) && DecodedKey(es[m])[prefixLen + INCARNATION_LENGTH..] != slot
    ensures j < |es| ==>
      !StartsWith(DecodedKey(es[j]), addr) || DecodedKey(es[j])[prefixLen + INCARNATION_LENGTH..] == slot
    decreases |es| - i
  {
    if i == |es| then i
    else
      var d := FromStorageDbFormat(es[i].key, es[i].value);
      if !StartsWith(d.1, addr) || d.1[prefixLen + INCARNATION_LENGTH..] == slot then i
      else ScanStop(es, i + 1, prefixLen, addr, slot)
  }

  /**
   The known-incarnation branch: the first value of `key`'s duplicate group
   at or above `slot`; a hit only when that value starts with `slot`.
   */
  function DupLookup(es: seq<Entry>, prefixLen: nat, key: Bytes, slot: Bytes): (r: Option<Bytes>)
    requires StorageTable(es, prefixLen)
    ensures r.Some? ==>
      exists j :: 0 <= j < |es| && es[j].key == key && StartsWith(es[j].value, slot) && r.value == es[j].value[HASH_LENGTH..]
  {
    var j := DupRangeIndex(es, key, slot, 0);
    if j == |es| then None
    else if !StartsWith(es[j].value, slot) then None
    else Some(FromStorageDbFormat(es[j].key, es[j].value).2)
  }

  /**
   `do_search_2` on a table. A hit is always the slot value of a stored
   entry whose value begins with the slot hash, and with a known incarnation
   that entry sits under the exact store key.
   */
  function SearchSpec(es: seq<Entry>, blockNumber: U64, prefixLen: nat, addr: Bytes, slot: Bytes, incarnation: U64): (r: Option<Bytes>)
    requires StorageTable(es, prefixLen)
    ensures r.Some? ==>
      exists j :: 0 <= j < |es| && StartsWith(es[j].value, slot) && r.value == es[j].value[HASH_LENGTH..] &&
        (incarnation != 0 ==> es[j].key == SeekKeyWithIncarnation(blockNumber, prefixLen, addr, incarnation))
  {
    if incarnation == 0 then
      var r := ScanFrom(es, LowerBound(es, SeekKeyWithoutIncarnation(blockNumber, prefixLen, addr), 0), prefixLen, addr, slot);
      if r.Some? then
        var j :| 0 <= j < |es| && es[j].value == slot + r.value;
        assert StartsWith(es[j].value, slot) && r.value == es[j].value[HASH_LENGTH..];
        r
      else r
    else
      DupLookup(es, prefixLen, SeekKeyWithIncarnation(blockNumber, prefixLen, addr, incarnation), slot)
  }

  /**
   Where `do_search_2` leaves the cursor: where the scan stops, or where the
   duplicate-group seek lands.
   */
  function SearchStop(es: seq<Entry>, blockNumber: U64, prefixLen: nat, addr: Bytes, slot: Bytes, incarnation: U64): (j: nat)
    requires StorageTable(es, prefixLen)
    ensures j <= |es|
  {
    if incarnation == 0 then
      ScanStop(es, LowerBound(es, SeekKeyWithoutIncarnation(blockNumber, prefixLen, addr), 0), prefixLen, addr, slot)
    else
      DupRangeIndex(es, SeekKeyWithIncarnation(blockNumber, prefixLen, addr, incarnation), slot, 0)
  }

  /** Lines building the zero-incarnation seek buffer: a zeroed vector, then two writes. */
  method BuildSeekWithoutIncarnation(blockNumber: U64, prefixLen: nat, addr: Bytes) returns (seek: array<Byte>)
    ensures fresh(seek)
    ensures seek[..] == SeekKeyWithoutIncarnation(blockNumber, prefixLen, addr)
  {
    seek := new Byte[BLOCK_NUMBER_LENGTH + prefixLen](_ => 0);
    var be := EncodeU64(blockNumber);
    assert seek[..][BLOCK_NUMBER_LENGTH..] == Zeros(prefixLen);
    var written := WriteSlice(seek, 0, be);
    assert written == BLOCK_NUMBER_LENGTH;
    assert seek[..] == be + Zeros(prefixLen);
    written := WriteSlice(seek, BLOCK_NUMBER_LENGTH, addr);
    assert seek[..] == be + addr[..written] + Zeros(prefixLen - written);
    assert addr[..written] + Zeros(prefixLen - written) == Fit(addr, prefixLen) by {
      if |addr| >= prefixLen {
        assert written == prefixLen;
      } else {
        assert addr[..written] == addr;
      }
    }
  }

  /** Lines building the exact seek key: block number, address, then the incarnation over the tail. */
  method BuildSeekWithIncarnation(blockNumber: U64, prefixLen: nat, addr: Bytes, incarnation: U64)
    returns (seek: array<Byte>)
    ensures fresh(seek)
    ensures seek[..] == SeekKeyWithIncarnation(blockNumber, prefixLen, addr, incarnation)
  {
    seek := new Byte[BLOCK_NUMBER_LENGTH + prefixLen + INCARNATION_LENGTH](_ => 0);
    var be := EncodeU64(blockNumber);
    assert seek[..][BLOCK_NUMBER_LENGTH..] == Zeros(prefixLen + INCARNATION_LENGTH);
    CopyFromSlice(seek, 0, BLOCK_NUMBER_LENGTH, be);
    assert seek[..] == be + Zeros(prefixLen + INCARNATION_LENGTH);
    var n := WriteSlice(seek, BLOCK_NUMBER_LENGTH, addr);
    ghost var tail := addr[..n] + Zeros(prefixLen + INCARNATION_LENGTH - n);
    assert seek[..] == be + tail;
    assert tail[..prefixLen] == Fit(addr, prefixLen) by {
      if |addr| >= prefixLen {
        assert tail[..prefixLen] == addr[..prefixLen];
      } else {
        assert addr[..n] == addr;
        assert tail[..prefixLen] == addr + Zeros(prefixLen - |addr|);
      }
    }
    assert (be + tail)[..BLOCK_NUMBER_LENGTH + prefixLen] == be + tail[..prefixLen];
    CopyFromSlice(seek, BLOCK_NUMBER_LENGTH + prefixLen, seek.Length, EncodeU64(incarnation));
  }

  /** The zero-incarnation branch of `do_search_2`: a guarded linear scan. */
  method SearchWithoutIncarnation(c: DupSortCursor, blockNumber: U64, prefixLen: nat, addr: Bytes, slot: Bytes)
    returns (r: Option<Bytes>)
    requires c.Valid() && StorageTable(c.entries, prefixLen)
    modifies c
    ensures c.Valid()
    ensures r == SearchSpec(c.entries, blockNumber, prefixLen, addr, slot, 0)
    ensures c.pos == SearchStop(c.entries, blockNumber, prefixLen, addr, slot, 0)
  {
    var seek := BuildSeekWithoutIncarnation(blockNumber, prefixLen, addr);
    var k, v := c.Seek(seek[..]);
    while true
      invariant c.Valid() && Entry(k, v) == c.Current()
      invariant SearchSpec(c.entries, blockNumber, prefixLen, addr, slot, 0)
             == ScanFrom(c.entries, c.pos, prefixLen, addr, slot)
      invariant SearchStop(c.entries, blockNumber, prefixLen, addr, slot, 0)
             == ScanStop(c.entries, c.pos, prefixLen, addr, slot)
      decreases |c.entries| - c.pos
    {
      if |k| == 0 {
        break;
      }
      var d := FromStorageDbFormat(k, v);
      if !StartsWith(d.1, addr) {
        break;
      }
      var stHash := d.1[prefixLen + INCARNATION_LENGTH..];
      if stHash == slot {
        return Some(d.2);
      }
      k, v := c.Next();
    }
    return None;
  }

  /** The known-incarnation branch of `do_search_2`: one duplicate-group seek. */
  method SearchWithIncarnation(c: DupSortCursor, blockNumber: U64, prefixLen: nat, addr: Bytes, slot: Bytes, incarnation: U64)
    returns (r: Option<Bytes>)
    requires c.Valid() && StorageTable(c.entries, prefixLen) && incarnation != 0
    modifies c
    ensures c.Valid()
    ensures r == SearchSpec(c.entries, blockNumber, prefixLen, addr, slot, incarnation)
    ensures c.pos == SearchStop(c.entries, blockNumber, prefixLen, addr, slot, incarnation)
  {
    var seek := BuildSeekWithIncarnation(blockNumber, prefixLen, addr, incarnation);
    var k, v := c.SeekBothRange(seek[..], slot);
    if |k| == 0 {
      return None;
    }
    if !StartsWith(v, slot) {
      return None;
    }
    var d := FromStorageDbFormat(k, v);
    return Some(d.2);
  }

  /** `do_search_2`: incarnation 0 means "unknown" and selects the scan. */
  method DoSearch2(c: DupSortCursor, blockNumber: U64, prefixLen: nat, addr: Bytes, slot: Bytes, incarnation: U64)
    returns (r: Option<Bytes>)
    requires c.Valid() && StorageTable(c.entries, prefixLen)
    modifies c
    ensures c.Valid()
    ensures r == SearchSpec(c.entries, blockNumber, prefixLen, addr, slot, incarnation)
    ensures c.pos == SearchStop(c.entries, blockNumber, prefixLen, addr, slot, incarnation)
  {
    if incarnation == 0 {
      r := SearchWithoutIncarnation(c, blockNumber, prefixLen, addr, slot);
    } else {
      r := SearchWithIncarnation(c, blockNumber, prefixLen, addr, slot, incarnation);
    }
  }

  /**
   The argument slicing of `find_in_storage_changeset_2`: address, slot hash
   and big-endian incarnation at their fixed offsets in a full storage key.
   The three parts put back together are the key.
   */
  function ParseStorageKey(k: Bytes, prefixLen: nat): (p: (Bytes, Bytes, U64))
    requires |k| >= prefixLen + INCARNATION_LENGTH + HASH_LENGTH
    ensures |p.0| == prefixLen && |p.1| == HASH_LENGTH
    ensures p.0 + EncodeU64(p.2) + p.1 == k[..prefixLen + INCARNATION_LENGTH + HASH_LENGTH]
  {
    var keyPart := prefixLen + INCARNATION_LENGTH;
    var inc := k[prefixLen..][..8];
    EncodeDecodeU64(inc);
    assert k[..keyPart + HASH_LENGTH] == k[..prefixLen] + inc + k[keyPart..keyPart + HASH_LENGTH];
    (k[..prefixLen], k[keyPart..keyPart + HASH_LENGTH], DecodeU64(inc))
  }

  /** `find_in_storage_changeset_2` */
  method FindInStorageChangeset2(c: DupSortCursor, blockNumber: U64, prefixLen: nat, k: Bytes)
    returns (r: Option<Bytes>)
    requires c.Valid() && StorageTable(c.entries, prefixLen)
    requires |k| >= prefixLen + INCARNATION_LENGTH + HASH_LENGTH
    modifies c
    ensures c.Valid()
    ensures var p := ParseStorageKey(k, prefixLen);
      r == SearchSpec(c.entries, blockNumber, prefixLen, p.0, p.1, p.2) &&
      c.pos == SearchStop(c.entries, blockNumber, prefixLen, p.0, p.1, p.2)
  {
    var p := ParseStorageKey(k, prefixLen);
    r := DoSearch2(c, blockNumber, prefixLen, p.0, p.1, p.2);
  }

  /** `find_without_incarnation_in_storage_changeset_2`: the search with incarnation 0. */
  method FindWithoutIncarnationInStorageChangeset2(c: DupSortCursor, blockNumber: U64, prefixLen: nat, addr: Bytes, slot: Bytes)
    returns (r: Option<Bytes>)
    requires c.Valid() && StorageTable(c.entries, prefixLen)
    modifies c
    ensures c.Valid()
    ensures r == SearchSpec(c.entries, blockNumber, prefixLen, addr, slot, 0)
    ensures c.pos == SearchStop(c.entries, blockNumber, prefixLen, addr, slot, 0)
  {
    r := DoSearch2(c, blockNumber, prefixLen, addr, slot, 0);
  }

  // ---------------------------------------------------------------------
  // Where the cursor is left

  /** The scan's result is read off the entry where it stops. */
  lemma {:induction false} ScanFromAtStop(es: seq<Entry>, i: nat, prefixLen: nat, addr: Bytes, slot: Bytes)
    requires i <= |es| && StorageTable(es, prefixLen)
    ensures var j := ScanStop(es, i, prefixLen, addr, slot);
      ScanFrom(es, i, prefixLen, addr, slot) ==
        if j < |es| && StartsWith(DecodedKey(es[j]), addr) then Some(es[j].value[HASH_LENGTH..]) else None
    decreases |es| - i
  {
    if i < |es| {
      var d := FromStorageDbFormat(es[i].key, es[i].value);
      assert d.2 == (es[i].key + es[i].value)[|es[i].key| + HASH_LENGTH..] == es[i].value[HASH_LENGTH..];
      if StartsWith(d.1, addr) && d.1[prefixLen + INCARNATION_LENGTH..] != slot {
        ScanFromAtStop(es, i + 1, prefixLen, addr, slot);
      }
    }
  }

  /**
   `do_search_2`'s result is read off the entry the cursor is left on: a hit
   exactly when that entry is in the table and passes the branch's test (the
   address prefix for the scan, the slot prefix for the seek), and the hit
   is that entry's slot value.
   */
  lemma SearchAtStop(es: seq<Entry>, blockNumber: U64, prefixLen: nat, addr: Bytes, slot: Bytes, incarnation: U64)
    requires StorageTable(es, prefixLen)
    ensures var j := SearchStop(es, blockNumber, prefixLen, addr, slot, incarnation);
      SearchSpec(es, blockNumber, prefixLen, addr, slot, incarnation) ==
        if j < |es| && (if incarnation == 0 then StartsWith(DecodedKey(es[j]), addr) else StartsWith(es[j].value, slot))
        then Some(es[j].value[HASH_LENGTH..]) else None
  {
    if incarnation == 0 {
      ScanFromAtStop(es, LowerBound(es, SeekKeyWithoutIncarnation(blockNumber, prefixLen, addr), 0), prefixLen, addr, slot);
    } else {
      var j := SearchStop(es, blockNumber, prefixLen, addr, slot, incarnation);
      if j < |es| {
        var d := FromStorageDbFormat(es[j].key, es[j].value);
        assert d.2 == (es[j].key + es[j].value)[|es[j].key| + HASH_LENGTH..] == es[j].value[HASH_LENGTH..];
      }
    }
  }

  // ---------------------------------------------------------------------
  // The zero-incarnation branch

  /**
   A value found without incarnation was written to this address and slot,
   at the requested block or a later one; never under another address.
   */
  lemma SearchWithoutIncarnationSound(es: seq<Entry>, blockNumber: U64, prefixLen: nat, addr: Bytes, slot: Bytes)
    requires Sorted(es) && StorageTable(es, prefixLen) && |addr| == prefixLen
    ensures var r := SearchSpec(es, blockNumber, prefixLen, addr, slot, 0);
      r.Some? ==>
        exists j :: 0 <= j < |es| &&
          es[j].key[BLOCK_NUMBER_LENGTH..BLOCK_NUMBER_LENGTH + prefixLen] == addr &&
          es[j].value == slot + r.value &&
          BlockOf(es[j]) >= blockNumber
  {
    var seek := SeekKeyWithoutIncarnation(blockNumber, prefixLen, addr);
    var i0 := LowerBound(es, seek, 0);
    var r := ScanFrom(es, i0, prefixLen, addr, slot);
    if r.Some? {
      var j :| i0 <= j < |es| && StartsWith(DecodedKey(es[j]), addr) && es[j].value == slot + r.value;
      DecodedKeyAddress(es[j], prefixLen, addr);
      AtOrAfterSeekBlock(es, blockNumber, seek, j);
    }
  }

  /** The decoded key starts with an address of the prefix length exactly when the store key carries it after the block. */
  lemma DecodedKeyAddress(e: Entry, prefixLen: nat, addr: Bytes)
    requires |e.key| == BLOCK_NUMBER_LENGTH + prefixLen + INCARNATION_LENGTH && |e.value| >= HASH_LENGTH
    requires |addr| == prefixLen
    ensures StartsWith(DecodedKey(e), addr) <==> e.key[BLOCK_NUMBER_LENGTH..BLOCK_NUMBER_LENGTH + prefixLen] == addr
  {
    assert DecodedKey(e)[..prefixLen] == e.key[BLOCK_NUMBER_LENGTH..BLOCK_NUMBER_LENGTH + prefixLen];
  }

  /** Entries at or after a seek key that starts with the encoded block lie at that block or later. */
  lemma AtOrAfterSeekBlock(es: seq<Entry>, blockNumber: U64, seek: Bytes, j: nat)
    requires Sorted(es) && LowerBound(es, seek, 0) <= j < |es|
    requires StartsWith(seek, EncodeU64(blockNumber)) && |es[j].key| >= BLOCK_NUMBER_LENGTH
    ensures BlockOf(es[j]) >= blockNumber
  {
    AtOrAfterLowerBound(es, seek, j);
    PrefixLexLe(EncodeU64(blockNumber), seek);
    LexLeTrans(EncodeU64(blockNumber), seek, es[j].key);
    SeekKeyVersusBlock(blockNumber, es[j].key);
  }

  /**
   From any position at or after the seek key, the scan reaches every entry
   up to a matching one, because all keys in between share the seek key.
   */
  lemma {:induction false} ScanReaches(es: seq<Entry>, m: nat, j: nat, prefixLen: nat, addr: Bytes, slot: Bytes, seek: Bytes)
    requires Sorted(es) && StorageTable(es, prefixLen) && |addr| == prefixLen && |slot| == HASH_LENGTH
    requires |seek| == BLOCK_NUMBER_LENGTH + prefixLen && seek[BLOCK_NUMBER_LENGTH..] == addr
    requires m <= j < |es|
    requires LexLe(seek, es[m].key) && StartsWith(es[j].key, seek) && es[j].value[..HASH_LENGTH] == slot
    ensures var r := ScanFrom(es, m, prefixLen, addr, slot);
      r.Some? && exists j' :: m <= j' <= j && StartsWith(es[j'].key, seek) && es[j'].value == slot + r.value
    decreases j - m
  {
    SortedKeysLe(es, m, j);
    PrefixSandwich(seek, es[m].key, es[j].key);
    var d := FromStorageDbFormat(es[m].key, es[m].value);
    assert d.1[..prefixLen] == es[m].key[..|seek|][BLOCK_NUMBER_LENGTH..];
    assert d.1[prefixLen + INCARNATION_LENGTH..] == es[m].value[..HASH_LENGTH];
    if d.1[prefixLen + INCARNATION_LENGTH..] == slot {
      assert es[m].value == es[m].value[..HASH_LENGTH] + es[m].value[HASH_LENGTH..];
    } else {
      SortedKeysLe(es, m, m + 1);
      LexLeTrans(seek, es[m].key, es[m + 1].key);
      ScanReaches(es, m + 1, j, prefixLen, addr, slot, seek);
    }
  }

  /**
   If the block holds a write of this address and slot (under any
   incarnation), the search without incarnation finds a value the block
   wrote to this address and slot.
   */
  lemma SearchWithoutIncarnationComplete(es: seq<Entry>, blockNumber: U64, prefixLen: nat, addr: Bytes, slot: Bytes, j: nat)
    requires Sorted(es) && StorageTable(es, prefixLen) && |addr| == prefixLen && |slot| == HASH_LENGTH
    requires j < |es| && StartsWith(es[j].key, EncodeU64(blockNumber) + addr) && es[j].value[..HASH_LENGTH] == slot
    ensures var r := SearchSpec(es, blockNumber, prefixLen, addr, slot, 0);
      r.Some? &&
        exists j' :: 0 <= j' < |es| &&
          StartsWith(es[j'].key, EncodeU64(blockNumber) + addr) && es[j'].value == slot + r.value
  {
    var seek := SeekKeyWithoutIncarnation(blockNumber, prefixLen, addr);
    assert seek == EncodeU64(blockNumber) + addr;
    var i0 := LowerBound(es, seek, 0);
    PrefixLexLe(seek, es[j].key);
    assert i0 <= j;
    ScanReaches(es, i0, j, prefixLen, addr, slot, seek);
  }

  /**
   The zero-incarnation scan is guarded by the address only: when the
   requested block holds nothing, it returns a value from a later block.
   */
  lemma SearchWithoutIncarnationCrossesBlocks(blockNumber: U64, later: U64, prefixLen: nat, addr: Bytes, incarnation: U64, slot: Bytes, v: Bytes)
    requires blockNumber < later && |addr| == prefixLen && |slot| == HASH_LENGTH
    ensures var es := [Entry(EncodeU64(later) + addr + EncodeU64(incarnation), slot + v)];
      StorageTable(es, prefixLen) && BlockOf(es[0]) == later &&
      SearchSpec(es, blockNumber, prefixLen, addr, slot, 0) == Some(v)
  {
    var key := EncodeU64(later) + addr + EncodeU64(incarnation);
    var es := [Entry(key, slot + v)];
    assert key[..BLOCK_NUMBER_LENGTH] == EncodeU64(later);
    DecodeEncodeU64(later);
    var seek := SeekKeyWithoutIncarnation(blockNumber, prefixLen, addr);
    EncodeU64Order(later, blockNumber);
    LexLeTotal(EncodeU64(blockNumber), EncodeU64(later));
    assert key == EncodeU64(later) + (addr + EncodeU64(incarnation));
    LexLtAppend(EncodeU64(blockNumber), EncodeU64(later), addr, addr + EncodeU64(incarnation));
    assert LowerBound(es, seek, 0) == 0;
    var d := FromStorageDbFormat(key, slot + v);
    assert d.1 == addr + EncodeU64(incarnation) + slot;
    assert d.1[prefixLen + INCARNATION_LENGTH..] == slot;
    assert d.2 == v;
  }

  // ---------------------------------------------------------------------
  // The known-incarnation branch

  lemma DupLookupSound(es: seq<Entry>, prefixLen: nat, key: Bytes, slot: Bytes)
    requires StorageTable(es, prefixLen) && |slot| == HASH_LENGTH
    ensures var r := DupLookup(es, prefixLen, key, slot);
      r.Some? ==> exists j :: 0 <= j < |es| && es[j] == Entry(key, slot + r.value)
  {
    var j := DupRangeIndex(es, key, slot, 0);
    if j < |es| && StartsWith(es[j].value, slot) {
      assert es[j].value == es[j].value[..HASH_LENGTH] + es[j].value[HASH_LENGTH..];
    }
  }

  lemma DupLookupComplete(es: seq<Entry>, prefixLen: nat, key: Bytes, slot: Bytes, j: nat)
    requires Sorted(es) && StorageTable(es, prefixLen)
    requires j < |es| && es[j].key == key && StartsWith(es[j].value, slot)
    ensures DupLookup(es, prefixLen, key, slot).Some?
  {
    var i := DupRangeIndex(es, key, slot, 0);
    PrefixLexLe(slot, es[j].value);
    assert i <= j;
    if i < j {
      assert EntryLt(es[i], es[j]);
      PrefixSandwich(slot, es[i].value, es[j].value);
    }
  }

  /**
   With a known incarnation there is a hit exactly when the exact store key
   block ++ address ++ incarnation has a value starting with the slot hash.
   */
  lemma SearchWithIncarnationFound(es: seq<Entry>, blockNumber: U64, prefixLen: nat, addr: Bytes, slot: Bytes, incarnation: U64)
    requires incarnation != 0 && Sorted(es) && StorageTable(es, prefixLen) && |addr| == prefixLen
    ensures var key := EncodeU64(blockNumber) + addr + EncodeU64(incarnation);
      SearchSpec(es, blockNumber, prefixLen, addr, slot, incarnation).Some? <==>
      exists j :: 0 <= j < |es| && es[j].key == key && StartsWith(es[j].value, slot)
  {
    var key := EncodeU64(blockNumber) + addr + EncodeU64(incarnation);
    assert SeekKeyWithIncarnation(blockNumber, prefixLen, addr, incarnation) == key;
    if exists j :: 0 <= j < |es| && es[j].key == key && StartsWith(es[j].value, slot) {
      var j :| 0 <= j < |es| && es[j].key == key && StartsWith(es[j].value, slot);
      DupLookupComplete(es, prefixLen, key, slot, j);
    }
  }

  /**
   With a known incarnation, and one value per slot under each store key, the
   search returns `v` exactly when the table holds the entry
   (block ++ address ++ incarnation, slot ++ v); any other slot gives None.
   */
  lemma SearchWithIncarnationExact(es: seq<Entry>, blockNumber: U64, prefixLen: nat, addr: Bytes, slot: Bytes, incarnation: U64, v: Bytes)
    requires incarnation != 0 && Sorted(es) && StorageTable(es, prefixLen) && UniqueSlots(es)
    requires |addr| == prefixLen && |slot| == HASH_LENGTH
    ensures SearchSpec(es, blockNumber, prefixLen, addr, slot, incarnation) == Some(v) <==>
      exists j :: 0 <= j < |es| && es[j] == Entry(EncodeU64(blockNumber) + addr + EncodeU64(incarnation), slot + v)
  {
    var key := EncodeU64(blockNumber) + addr + EncodeU64(incarnation);
    assert SeekKeyWithIncarnation(blockNumber, prefixLen, addr, incarnation) == key;
    var r := DupLookup(es, prefixLen, key, slot);
    DupLookupSound(es, prefixLen, key, slot);
    if exists j :: 0 <= j < |es| && es[j] == Entry(key, slot + v) {
      var j :| 0 <= j < |es| && es[j] == Entry(key, slot + v);
      assert (slot + v)[..HASH_LENGTH] == slot;
      DupLookupComplete(es, prefixLen, key, slot, j);
      var j' :| 0 <= j' < |es| && es[j'] == Entry(key, slot + r.value);
      assert (slot + r.value)[..HASH_LENGTH] == slot;
      assert j' == j;
      assert v == (slot + v)[HASH_LENGTH..] == (slot + r.value)[HASH_LENGTH..] == r.value;
    }
    if r == Some(v) {
      var j :| 0 <= j < |es| && es[j] == Entry(key, slot + r.value);
    }
  }

  // ---------------------------------------------------------------------
  // Searching an encoded changeset

  /** A change's entry, spelled with the parts its key parses into. */
  lemma EncodeEntryOfParsedKey(blockN: U64, ch: Change, prefixLen: nat)
    requires |ch.key| == prefixLen + INCARNATION_LENGTH + HASH_LENGTH
    ensures var p := ParseStorageKey(ch.key, prefixLen);
      EncodeEntry(blockN, ch, prefixLen) == Entry(EncodeU64(blockN) + p.0 + EncodeU64(p.2), p.1 + ch.value)
  {
    var keyPart := prefixLen + INCARNATION_LENGTH;
    var p := ParseStorageKey(ch.key, prefixLen);
    assert ch.key[..keyPart + HASH_LENGTH] == ch.key;
    assert ch.key[..keyPart] == p.0 + EncodeU64(p.2);
    assert ch.key[keyPart..] == p.1;
  }

  /**
   Looking up a change of a block's encoded changeset by its full key, as
   `find_in_storage_changeset_2` does, finds exactly the change's value when
   the key carries a nonzero incarnation.
   */
  lemma FindInEncodedChangeset(blockN: U64, cs: seq<Change>, prefixLen: nat, i: nat)
    requires WellFormedChanges(cs, prefixLen) && ChangeSetSorted(cs) && i < |cs|
    requires ParseStorageKey(cs[i].key, prefixLen).2 != 0
    ensures Splittable(cs, prefixLen)
    ensures var es := EncodeStorage(blockN, cs, prefixLen);
      var p := ParseStorageKey(cs[i].key, prefixLen);
      StorageTable(es, prefixLen) &&
      SearchSpec(es, blockN, prefixLen, p.0, p.1, p.2) == Some(cs[i].value)
  {
    var es := EncodeStorage(blockN, cs, prefixLen);
    EncodeStorageTable(blockN, cs, prefixLen);
    var p := ParseStorageKey(cs[i].key, prefixLen);
    EncodeEntryOfParsedKey(blockN, cs[i], prefixLen);
    SearchWithIncarnationExact(es, blockN, prefixLen, p.0, p.1, p.2, cs[i].value);
  }

  /**
   The same lookup on a whole history: past blocks followed by this block's
   encoded changeset. With one slot per key in the past blocks, a change of
   this block is found by its full key, with nonzero incarnation, and its
   value returned.
   */
  lemma FindInHistory(history: seq<Entry>, blockN: U64, cs: seq<Change>, prefixLen: nat, i: nat)
    requires Sorted(history) && StorageTable(history, prefixLen) && UniqueSlots(history)
    requires forall h :: 0 <= h < |history| ==> BlockOf(history[h]) < blockN
    requires WellFormedChanges(cs, prefixLen) && ChangeSetSorted(cs) && i < |cs|
    requires ParseStorageKey(cs[i].key, prefixLen).2 != 0
    ensures Splittable(cs, prefixLen)
    ensures var es := history + EncodeStorage(blockN, cs, prefixLen);
      var p := ParseStorageKey(cs[i].key, prefixLen);
      StorageTable(es, prefixLen) &&
      SearchSpec(es, blockN, prefixLen, p.0, p.1, p.2) == Some(cs[i].value)
  {
    var enc := EncodeStorage(blockN, cs, prefixLen);
    var es := history + enc;
    AppendLaterBlock(history, blockN, cs, prefixLen);
    var p := ParseStorageKey(cs[i].key, prefixLen);
    EncodeEntryOfParsedKey(blockN, cs[i], prefixLen);
    assert es[|history| + i] == enc[i];
    SearchWithIncarnationExact(es, blockN, prefixLen, p.0, p.1, p.2, cs[i].value);
  }

  /**
   An entry encoded from a change is filed under the change's block and
   address and carries its slot hash; and only those.
   */
  lemma EncodeEntryMatches(blockN: U64, ch: Change, prefixLen: nat, addr: Bytes, slot: Bytes, v: Bytes)
    requires |ch.key| == prefixLen + INCARNATION_LENGTH + HASH_LENGTH && |addr| == prefixLen && |slot| == HASH_LENGTH
    ensures var e := EncodeEntry(blockN, ch, prefixLen);
      (StartsWith(e.key, EncodeU64(blockN) + addr) && e.value == slot + v) <==>
      (ch.key[..prefixLen] == addr && ch.key[prefixLen + INCARNATION_LENGTH..] == slot && ch.value == v)
  {
    var e := EncodeEntry(blockN, ch, prefixLen);
    var keyPart := prefixLen + INCARNATION_LENGTH;
    var be := EncodeU64(blockN);
    assert e.key == be + ch.key[..keyPart];
    assert e.value == ch.key[keyPart..] + ch.value;
    assert e.key[..BLOCK_NUMBER_LENGTH + prefixLen] == be + ch.key[..prefixLen];
    assert StartsWith(e.key, be + addr) <==> ch.key[..prefixLen] == addr by {
      if StartsWith(e.key, be + addr) {
        assert ch.key[..prefixLen] == (be + addr)[BLOCK_NUMBER_LENGTH..];
      }
    }
    if e.value == slot + v {
      assert ch.key[keyPart..] == (slot + v)[..HASH_LENGTH];
      assert ch.value == (slot + v)[HASH_LENGTH..];
    }
  }

  /**
   Looking up an address and slot of a block's encoded changeset without
   incarnation, as `find_without_incarnation_in_storage_changeset_2` does,
   finds the value of a change to that address and slot.
   */
  lemma FindWithoutIncarnationInEncodedChangeset(blockN: U64, cs: seq<Change>, prefixLen: nat, addr: Bytes, slot: Bytes, i: nat)
    requires WellFormedChanges(cs, prefixLen) && ChangeSetSorted(cs) && i < |cs| && |addr| == prefixLen
    requires cs[i].key[..prefixLen] == addr && cs[i].key[prefixLen + INCARNATION_LENGTH..] == slot
    ensures Splittable(cs, prefixLen)
    ensures var es := EncodeStorage(blockN, cs, prefixLen);
      StorageTable(es, prefixLen) &&
      var r := SearchSpec(es, blockN, prefixLen, addr, slot, 0);
      r.Some? &&
        exists m :: 0 <= m < |cs| &&
          cs[m].key[..prefixLen] == addr && cs[m].key[prefixLen + INCARNATION_LENGTH..] == slot && cs[m].value == r.value
  {
    var es := EncodeStorage(blockN, cs, prefixLen);
    EncodeStorageTable(blockN, cs, prefixLen);
    var be := EncodeU64(blockN);
    EncodeEntryMatches(blockN, cs[i], prefixLen, addr, slot, cs[i].value);
    SearchWithoutIncarnationComplete(es, blockN, prefixLen, addr, slot, i);
    var r := SearchSpec(es, blockN, prefixLen, addr, slot, 0);
    var j :| 0 <= j < |es| && StartsWith(es[j].key, be + addr) && es[j].value == slot + r.value;
    EncodeEntryMatches(blockN, cs[j], prefixLen, addr, slot, r.value);
  }
}
