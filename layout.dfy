/**
 The storage-changeset layout: how one block's storage writes become table
 entries (`encode_storage`), and the decoder `from_storage_db_format` that
 reads them back.

   changeset key  = address ++ incarnation ++ slot hash
   store key      = block number (8 bytes, big-endian) ++ address ++ incarnation
   store value    = slot hash ++ slot value
 */
module StorageLayout {
  import opened Bytes
  import opened BigEndian
  import opened Cursor

  const BLOCK_NUMBER_LENGTH: nat := 8
  const INCARNATION_LENGTH: nat := 8
  const HASH_LENGTH: nat := 32

  /** One write of a block's changeset: full storage key and the slot's value. */
  datatype Change = Change(key: Bytes, value: Bytes)

  /** `encode_block_number` */
  function EncodeBlockNumber(n: U64): (r: Bytes)
    ensures |r| == BLOCK_NUMBER_LENGTH && DecodeU64(r) == n
  {
    DecodeEncodeU64(n);
    EncodeU64(n)
  }

  /** The changeset is ordered by full key and has no key twice. */
  predicate ChangeSetSorted(cs: seq<Change>)
  {
    forall i, j :: 0 <= i < j < |cs| ==> LexLt(cs[i].key, cs[j].key)
  }

  /** Every key is long enough to be split after address ++ incarnation. */
  predicate Splittable(cs: seq<Change>, prefixLen: nat)
  {
    forall i :: 0 <= i < |cs| ==> |cs[i].key| >= prefixLen + INCARNATION_LENGTH
  }

  /** Every key is exactly address ++ incarnation ++ slot hash. */
  predicate WellFormedChanges(cs: seq<Change>, prefixLen: nat)
  {
    forall i :: 0 <= i < |cs| ==> |cs[i].key| == prefixLen + INCARNATION_LENGTH + HASH_LENGTH
  }

  /** The shape of every entry `encode_storage` writes with this prefix length. */
  predicate StorageTable(es: seq<Entry>, prefixLen: nat)
  {
    forall i :: 0 <= i < |es| ==>
      |es[i].key| == BLOCK_NUMBER_LENGTH + prefixLen + INCARNATION_LENGTH &&
      |es[i].value| >= HASH_LENGTH
  }

  /** The block number an entry is filed under. */
  function BlockOf(e: Entry): (n: U64)
    requires |e.key| >= BLOCK_NUMBER_LENGTH
  {
    DecodeU64(e.key[..BLOCK_NUMBER_LENGTH])
  }

  /** A key sorts at or after the encoded `from` exactly when its block is at least `from`. */
  lemma SeekKeyVersusBlock(from: U64, k: Bytes)
    requires |k| >= BLOCK_NUMBER_LENGTH
    ensures LexLe(EncodeBlockNumber(from), k) <==> from <= DecodeU64(k[..BLOCK_NUMBER_LENGTH])
  {
    var t := EncodeBlockNumber(from);
    var h := k[..BLOCK_NUMBER_LENGTH];
    BeOrder(t, h);
    if LexLe(t, k) {
      LexLeTruncate(t, k, BLOCK_NUMBER_LENGTH);
      assert t[..BLOCK_NUMBER_LENGTH] == t;
    }
    if from <= DecodeU64(h) {
      PrefixLexLe(h, k);
      LexLeTrans(t, h, k);
    }
  }

  /**
   `from_storage_db_format`, an external function, by its contract:
   the block number, the full changeset key and the slot value.
   */
  function FromStorageDbFormat(k: Bytes, v: Bytes): (d: (U64, Bytes, Bytes))
    requires |k| >= BLOCK_NUMBER_LENGTH && |v| >= HASH_LENGTH
    ensures |d.1| == |k| - BLOCK_NUMBER_LENGTH + HASH_LENGTH
    ensures EncodeU64(d.0) + d.1 + d.2 == k + v
  {
    assert k == k[..BLOCK_NUMBER_LENGTH] + k[BLOCK_NUMBER_LENGTH..];
    assert v == v[..HASH_LENGTH] + v[HASH_LENGTH..];
    (DecodeU64(k[..BLOCK_NUMBER_LENGTH]),
     k[BLOCK_NUMBER_LENGTH..] + v[..HASH_LENGTH],
     v[HASH_LENGTH..])
  }

  /** The decoder as the closure `from_storage_db_format(key_prefix_len)` hands to `walk`. */
  const StorageDecoder: (Bytes, Bytes) --> (U64, Bytes, Bytes) :=
    (k: Bytes, v: Bytes) requires |k| >= BLOCK_NUMBER_LENGTH && |v| >= HASH_LENGTH =>
      FromStorageDbFormat(k, v)

  /**
   The closure body of `encode_storage` for one change: the key is the block
   number followed by the first `prefixLen + INCARNATION_LENGTH` bytes of the
   changeset key, and the rest of the changeset key moves to the front of the
   value. Nothing is lost: key minus block number, followed by value, is the
   changeset key followed by its value.
   */
  function EncodeEntry(blockN: U64, ch: Change, prefixLen: nat): (e: Entry)
    requires |ch.key| >= prefixLen + INCARNATION_LENGTH
    ensures |e.key| == BLOCK_NUMBER_LENGTH + prefixLen + INCARNATION_LENGTH
    ensures BlockOf(e) == blockN
    ensures e.key[BLOCK_NUMBER_LENGTH..] + e.value == ch.key + ch.value
  {
    var keyPart := prefixLen + INCARNATION_LENGTH;
    var e := Entry(EncodeBlockNumber(blockN) + ch.key[..keyPart], ch.key[keyPart..] + ch.value);
    assert e.key[..BLOCK_NUMBER_LENGTH] == EncodeBlockNumber(blockN);
    assert ch.key == ch.key[..keyPart] + ch.key[keyPart..];
    e
  }

  /**
   `encode_storage`: one entry per change, in the changeset's order.
   */
  function EncodeStorage(blockN: U64, cs: seq<Change>, prefixLen: nat): (r: seq<Entry>)
    requires Splittable(cs, prefixLen)
    ensures |r| == |cs|
    ensures forall i :: 0 <= i < |cs| ==> r[i] == EncodeEntry(blockN, cs[i], prefixLen)
  {
    if cs == [] then [] else [EncodeEntry(blockN, cs[0], prefixLen)] + EncodeStorage(blockN, cs[1..], prefixLen)
  }

  /** Encoding distributes over splitting a changeset. */
  lemma {:induction false} EncodeStorageAppend(blockN: U64, a: seq<Change>, b: seq<Change>, prefixLen: nat)
    requires Splittable(a, prefixLen) && Splittable(b, prefixLen)
    ensures Splittable(a + b, prefixLen)
    ensures EncodeStorage(blockN, a + b, prefixLen) == EncodeStorage(blockN, a, prefixLen) + EncodeStorage(blockN, b, prefixLen)
  {
    assert forall i :: 0 <= i < |a + b| ==> (a + b)[i] == if i < |a| then a[i] else b[i - |a|];
    if a != [] {
      assert (a + b)[1..] == a[1..] + b;
      EncodeStorageAppend(blockN, a[1..], b, prefixLen);
    }
  }

  /** Decoding an encoded change gives back its block number, key and value. */
  lemma DecodeEncode(blockN: U64, ch: Change, prefixLen: nat)
    requires |ch.key| == prefixLen + INCARNATION_LENGTH + HASH_LENGTH
    ensures var e := EncodeEntry(blockN, ch, prefixLen);
      FromStorageDbFormat(e.key, e.value) == (blockN, ch.key, ch.value)
  {
    var e := EncodeEntry(blockN, ch, prefixLen);
    var keyPart := prefixLen + INCARNATION_LENGTH;
    assert e.value == ch.key[keyPart..] + ch.value;
    assert e.value[..HASH_LENGTH] == ch.key[keyPart..];
    assert e.value[HASH_LENGTH..] == ch.value;
    assert e.key[BLOCK_NUMBER_LENGTH..] == ch.key[..keyPart];
    assert ch.key == ch.key[..keyPart] + ch.key[keyPart..];
  }

  /** Re-encoding a decoded table entry gives back the entry. */
  lemma EncodeDecode(e: Entry, prefixLen: nat)
    requires |e.key| == BLOCK_NUMBER_LENGTH + prefixLen + INCARNATION_LENGTH
    requires |e.value| >= HASH_LENGTH
    ensures var d := FromStorageDbFormat(e.key, e.value);
      |d.1| == prefixLen + INCARNATION_LENGTH + HASH_LENGTH &&
      EncodeEntry(d.0, Change(d.1, d.2), prefixLen) == e
  {
    var d := FromStorageDbFormat(e.key, e.value);
    var e' := EncodeEntry(d.0, Change(d.1, d.2), prefixLen);
    var keyPart := prefixLen + INCARNATION_LENGTH;
    EncodeDecodeU64(e.key[..BLOCK_NUMBER_LENGTH]);
    assert d.1[..keyPart] == e.key[BLOCK_NUMBER_LENGTH..];
    assert d.1[keyPart..] == e.value[..HASH_LENGTH];
    assert e.key == e.key[..BLOCK_NUMBER_LENGTH] + e.key[BLOCK_NUMBER_LENGTH..];
    assert e.value == e.value[..HASH_LENGTH] + e.value[HASH_LENGTH..];
  }

  /**
   Two changes of one block encode in the order of their changeset keys:
   either their store keys differ in the same direction, or the store keys
   are equal and the store values (slot hash first) carry the order.
   */
  lemma EncodeEntryOrder(blockN: U64, a: Change, b: Change, prefixLen: nat)
    requires |a.key| == |b.key| >= prefixLen + INCARNATION_LENGTH
    requires LexLt(a.key, b.key)
    ensures EntryLt(EncodeEntry(blockN, a, prefixLen), EncodeEntry(blockN, b, prefixLen))
  {
    var keyPart := prefixLen + INCARNATION_LENGTH;
    var bn := EncodeBlockNumber(blockN);
    var ah, at, bh, bt := a.key[..keyPart], a.key[keyPart..], b.key[..keyPart], b.key[keyPart..];
    assert a.key == ah + at && b.key == bh + bt;
    LexLeAppend(ah, bh, at, bt);
    if ah == bh {
      assert at != bt;
      LexLtAppend(at, bt, a.value, b.value);
    } else {
      LexLeAppend(bn, bn, ah, bh);
      assert (bn + ah)[BLOCK_NUMBER_LENGTH..] == ah && (bn + bh)[BLOCK_NUMBER_LENGTH..] == bh;
    }
  }

  /** No two entries of a table share both store key and slot hash. */
  predicate UniqueSlots(es: seq<Entry>)
  {
    forall i, j :: 0 <= i < j < |es| && |es[i].value| >= HASH_LENGTH && |es[j].value| >= HASH_LENGTH ==>
      !(es[i].key == es[j].key && es[i].value[..HASH_LENGTH] == es[j].value[..HASH_LENGTH])
  }

  /**
   Encoding a well-formed sorted changeset yields a valid duplicate-sort
   table: strictly sorted, of the storage shape, one slot per key.
   */
  lemma EncodeStorageTable(blockN: U64, cs: seq<Change>, prefixLen: nat)
    requires WellFormedChanges(cs, prefixLen) && ChangeSetSorted(cs)
    ensures Splittable(cs, prefixLen)
    ensures var es := EncodeStorage(blockN, cs, prefixLen);
      Sorted(es) && NonEmptyKeys(es) && StorageTable(es, prefixLen) && UniqueSlots(es)
  {
    var es := EncodeStorage(blockN, cs, prefixLen);
    forall i, j | 0 <= i < j < |es|
      ensures EntryLt(es[i], es[j])
      ensures !(es[i].key == es[j].key && es[i].value[..HASH_LENGTH] == es[j].value[..HASH_LENGTH])
    {
      EncodeEntryOrder(blockN, cs[i], cs[j], prefixLen);
      EncodeEntrySlots(blockN, cs[i], cs[j], prefixLen);
    }
  }

  /** Two distinct well-formed changes never encode to the same store key and slot hash. */
  lemma EncodeEntrySlots(blockN: U64, a: Change, b: Change, prefixLen: nat)
    requires |a.key| == |b.key| == prefixLen + INCARNATION_LENGTH + HASH_LENGTH && a.key != b.key
    ensures var ea, eb := EncodeEntry(blockN, a, prefixLen), EncodeEntry(blockN, b, prefixLen);
      !(ea.key == eb.key && ea.value[..HASH_LENGTH] == eb.value[..HASH_LENGTH])
  {
    var keyPart := prefixLen + INCARNATION_LENGTH;
    var ea, eb := EncodeEntry(blockN, a, prefixLen), EncodeEntry(blockN, b, prefixLen);
    assert ea.key[BLOCK_NUMBER_LENGTH..] == a.key[..keyPart] && eb.key[BLOCK_NUMBER_LENGTH..] == b.key[..keyPart];
    assert ea.value[..HASH_LENGTH] == a.key[keyPart..] && eb.value[..HASH_LENGTH] == b.key[keyPart..];
    assert a.key == a.key[..keyPart] + a.key[keyPart..];
    assert b.key == b.key[..keyPart] + b.key[keyPart..];
  }

  /**
   Appending a later block's encoding to a sorted history keeps it sorted:
   the history is append-only in block order.
   */
  lemma AppendLaterBlock(history: seq<Entry>, blockN: U64, cs: seq<Change>, prefixLen: nat)
    requires Sorted(history) && StorageTable(history, prefixLen)
    requires forall i :: 0 <= i < |history| ==> BlockOf(history[i]) < blockN
    requires WellFormedChanges(cs, prefixLen) && ChangeSetSorted(cs)
    ensures Splittable(cs, prefixLen)
    ensures var es := history + EncodeStorage(blockN, cs, prefixLen);
      Sorted(es) && StorageTable(es, prefixLen) &&
      (UniqueSlots(history) ==> UniqueSlots(es))
  {
    var enc := EncodeStorage(blockN, cs, prefixLen);
    EncodeStorageTable(blockN, cs, prefixLen);
    var es := history + enc;
    if UniqueSlots(history) {
      AppendUniqueSlots(history, enc, blockN, prefixLen);
    }
    forall i, j | 0 <= i < j < |es|
      ensures EntryLt(es[i], es[j])
    {
      if j < |history| {
        assert es[i] == history[i] && es[j] == history[j];
      } else if i >= |history| {
        assert es[i] == enc[i - |history|] && es[j] == enc[j - |history|];
      } else {
        var a, b := history[i].key, enc[j - |history|].key;
        var n := BLOCK_NUMBER_LENGTH;
        EncodeDecodeU64(a[..n]);
        EncodeDecodeU64(b[..n]);
        EncodeU64Order(BlockOf(enc[j - |history|]), BlockOf(history[i]));
        LexLeTotal(a[..n], b[..n]);
        LexLtFromPrefix(a, b, n);
      }
    }
  }

  /**
   Entries of different blocks never share a store key, so one slot per key
   survives appending a later block.
   */
  lemma AppendUniqueSlots(history: seq<Entry>, enc: seq<Entry>, blockN: U64, prefixLen: nat)
    requires StorageTable(history, prefixLen) && StorageTable(enc, prefixLen)
    requires UniqueSlots(history) && UniqueSlots(enc)
    requires forall i :: 0 <= i < |history| ==> BlockOf(history[i]) < blockN
    requires forall i :: 0 <= i < |enc| ==> BlockOf(enc[i]) == blockN
    ensures UniqueSlots(history + enc)
  {
    var es := history + enc;
    forall i, j | 0 <= i < j < |es|
      ensures !(es[i].key == es[j].key && es[i].value[..HASH_LENGTH] == es[j].value[..HASH_LENGTH])
    {
      if j < |history| {
        assert es[i] == history[i] && es[j] == history[j];
      } else if i >= |history| {
        assert es[i] == enc[i - |history|] && es[j] == enc[j - |history|];
      } else {
        assert BlockOf(es[i]) < blockN == BlockOf(es[j]);
      }
    }
  }
}
