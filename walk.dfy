/**
 `walk`: stream the decoded changeset entries of the blocks `from ..= to`.
 The stream becomes the sequence of everything it would yield.
 */
module StorageWalk {
  import opened Bytes
  import opened BigEndian
  import opened Cursor
  import opened StorageLayout

  /** The decoder `walk` is handed: (block number, key, value) of one table entry. */
  type Decoder<K> = (Bytes, Bytes) --> (U64, K, Bytes)

  ghost predicate Decodable<K>(es: seq<Entry>, decoder: Decoder<K>)
  {
    forall j :: 0 <= j < |es| ==> decoder.requires(es[j].key, es[j].value)
  }

  /** What the walk yields once the cursor stands at `i`: decoded entries until one lies past `to`. */
  function WalkFrom<K>(es: seq<Entry>, i: nat, decoder: Decoder<K>, to: U64): (r: seq<(U64, K, Bytes)>)
    requires i <= |es| && Decodable(es, decoder)
    ensures i + |r| <= |es|
    ensures forall n :: 0 <= n < |r| ==> r[n].0 <= to
    decreases |es| - i
  {
    if i == |es| then []
    else
      var d := decoder(es[i].key, es[i].value);
      if d.0 > to then [] else [d] + WalkFrom(es, i + 1, decoder, to)
  }

  /** Where the walk starts: the first entry at or after the encoded `from`. */
  function WalkStart(es: seq<Entry>, from: U64): (i: nat)
  {
    LowerBound(es, EncodeBlockNumber(from), 0)
  }

  /**
   The walk yields the consecutive entries from its start on, decoded, each
   no later than `to`; it stops only at the end of the table or at the first
   entry whose block lies past `to`.
   */
  lemma {:induction false} WalkFromShape<K>(es: seq<Entry>, i: nat, decoder: Decoder<K>, to: U64)
    requires i <= |es| && Decodable(es, decoder)
    ensures var r := WalkFrom(es, i, decoder, to);
      i + |r| <= |es| &&
      (forall n :: 0 <= n < |r| ==> r[n] == decoder(es[i + n].key, es[i + n].value) && r[n].0 <= to) &&
      (i + |r| < |es| ==> decoder(es[i + |r|].key, es[i + |r|].value).0 > to)
    decreases |es| - i
  {
    if i < |es| && decoder(es[i].key, es[i].value).0 <= to {
      WalkFromShape(es, i + 1, decoder, to);
      var r := WalkFrom(es, i, decoder, to);
      assert forall n :: 1 <= n < |r| ==> r[n] == WalkFrom(es, i + 1, decoder, to)[n - 1];
    }
  }

  /** The decoder reports as block number the big-endian first eight bytes of the key. */
  ghost predicate BlockLeading<K>(es: seq<Entry>, decoder: Decoder<K>)
  {
    forall j :: 0 <= j < |es| ==>
      decoder.requires(es[j].key, es[j].value) &&
      |es[j].key| >= BLOCK_NUMBER_LENGTH &&
      decoder(es[j].key, es[j].value).0 == BlockOf(es[j])
  }

  lemma StorageDecoderIsBlockLeading(es: seq<Entry>, prefixLen: nat)
    requires StorageTable(es, prefixLen)
    ensures Decodable(es, StorageDecoder) && BlockLeading(es, StorageDecoder)
  {
  }

  /** In a sorted table the block numbers never decrease. */
  lemma SortedBlocksLe(es: seq<Entry>, i: nat, j: nat)
    requires Sorted(es) && i <= j < |es|
    requires |es[i].key| >= BLOCK_NUMBER_LENGTH && |es[j].key| >= BLOCK_NUMBER_LENGTH
    ensures BlockOf(es[i]) <= BlockOf(es[j])
  {
    SortedKeysLe(es, i, j);
    LexLeTruncate(es[i].key, es[j].key, BLOCK_NUMBER_LENGTH);
    BeOrder(es[i].key[..BLOCK_NUMBER_LENGTH], es[j].key[..BLOCK_NUMBER_LENGTH]);
  }

  /** In a sorted table an entry lies at or after the walk's start exactly when its block is at least `from`. */
  lemma StartVersusBlock(es: seq<Entry>, from: U64, j: nat)
    requires Sorted(es) && j < |es| && |es[j].key| >= BLOCK_NUMBER_LENGTH
    ensures WalkStart(es, from) <= j <==> from <= BlockOf(es[j])
  {
    SeekKeyVersusBlock(from, es[j].key);
    if WalkStart(es, from) <= j {
      AtOrAfterLowerBound(es, EncodeBlockNumber(from), j);
    }
  }

  /** An entry at or after the one the walk stopped on has a block past `to`. */
  lemma PastStopVersusBlock<K>(es: seq<Entry>, decoder: Decoder<K>, i: nat, to: U64, j: nat)
    requires Sorted(es) && BlockLeading(es, decoder) && i <= |es|
    requires Decodable(es, decoder)
    requires i + |WalkFrom(es, i, decoder, to)| <= j < |es|
    ensures BlockOf(es[j]) > to
  {
    WalkFromShape(es, i, decoder, to);
    var i1 := i + |WalkFrom(es, i, decoder, to)|;
    assert decoder(es[i1].key, es[i1].value).0 > to;
    assert decoder(es[i1].key, es[i1].value).0 == BlockOf(es[i1]);
    assert |es[j].key| >= BLOCK_NUMBER_LENGTH;
    SortedBlocksLe(es, i1, j);
  }

  /**
   On a sorted table whose decoder reads the block number from the key, the
   walk yields exactly the entries whose block lies in `from ..= to`
   (both ends inclusive), decoded, in table order.
   */
  lemma WalkExact<K>(es: seq<Entry>, decoder: Decoder<K>, from: U64, to: U64)
    requires Sorted(es) && BlockLeading(es, decoder)
    ensures Decodable(es, decoder)
    ensures var i0 := WalkStart(es, from); var r := WalkFrom(es, i0, decoder, to);
      i0 + |r| <= |es| &&
      (forall n :: 0 <= n < |r| ==> r[n] == decoder(es[i0 + n].key, es[i0 + n].value)) &&
      (forall j :: 0 <= j < |es| ==> (i0 <= j < i0 + |r| <==> from <= BlockOf(es[j]) <= to))
  {
    var i0 := WalkStart(es, from);
    var r := WalkFrom(es, i0, decoder, to);
    WalkFromShape(es, i0, decoder, to);
    forall j | 0 <= j < |es|
      ensures i0 <= j < i0 + |r| <==> from <= BlockOf(es[j]) <= to
    {
      StartVersusBlock(es, from, j);
      if i0 <= j < i0 + |r| {
        assert r[j - i0] == decoder(es[j].key, es[j].value);
      } else if i0 + |r| <= j {
        PastStopVersusBlock(es, decoder, i0, to, j);
      }
    }
  }

  /** A storage table that holds a single block is walked whole over `blockN ..= blockN`. */
  lemma WalkWholeBlock(es: seq<Entry>, blockN: U64, prefixLen: nat)
    requires Sorted(es) && StorageTable(es, prefixLen)
    requires forall n :: 0 <= n < |es| ==> BlockOf(es[n]) == blockN
    ensures Decodable(es, StorageDecoder) && WalkStart(es, blockN) == 0
    ensures var r := WalkFrom(es, 0, StorageDecoder, blockN);
      |r| == |es| &&
      forall n :: 0 <= n < |es| ==> r[n] == FromStorageDbFormat(es[n].key, es[n].value)
  {
    StorageDecoderIsBlockLeading(es, prefixLen);
    if |es| > 0 {
      StartVersusBlock(es, blockN, 0);
    }
    var r := WalkFrom(es, 0, StorageDecoder, blockN);
    WalkFromShape(es, 0, StorageDecoder, blockN);
  }

  /**
   Walking a single block's encoded changeset over `blockN ..= blockN`
   gives back the changeset itself, each change tagged with the block.
   */
  lemma WalkEncodedBlock(blockN: U64, cs: seq<Change>, prefixLen: nat)
    requires WellFormedChanges(cs, prefixLen) && ChangeSetSorted(cs)
    ensures Splittable(cs, prefixLen)
    ensures var es := EncodeStorage(blockN, cs, prefixLen);
      Decodable(es, StorageDecoder) &&
      var r := WalkFrom(es, WalkStart(es, blockN), StorageDecoder, blockN);
      |r| == |cs| &&
      forall n :: 0 <= n < |cs| ==> r[n] == (blockN, cs[n].key, cs[n].value)
  {
    var es := EncodeStorage(blockN, cs, prefixLen);
    EncodeStorageTable(blockN, cs, prefixLen);
    WalkWholeBlock(es, blockN, prefixLen);
    forall n | 0 <= n < |cs|
      ensures FromStorageDbFormat(es[n].key, es[n].value) == (blockN, cs[n].key, cs[n].value)
    {
      DecodeEncode(blockN, cs[n], prefixLen);
    }
  }

  /**
   `walk`: seek to the encoded `from`, then yield decoded entries until the
   sentinel or the first entry whose block is past `to`.
   */
  method Walk<K>(c: DupSortCursor, decoder: Decoder<K>, from: U64, to: U64) returns (out: seq<(U64, K, Bytes)>)
    requires c.Valid() && Decodable(c.entries, decoder)
    modifies c
    ensures c.Valid()
    ensures out == WalkFrom(c.entries, WalkStart(c.entries, from), decoder, to)
    ensures c.pos == WalkStart(c.entries, from) + |out|
  {
    var k, v := c.Seek(EncodeBlockNumber(from));
    out := [];
    while true
      invariant c.Valid() && Entry(k, v) == c.Current()
      invariant WalkFrom(c.entries, WalkStart(c.entries, from), decoder, to) == out + WalkFrom(c.entries, c.pos, decoder, to)
      invariant c.pos == WalkStart(c.entries, from) + |out|
      decreases |c.entries| - c.pos
    {
      if |k| == 0 {
        break;
      }
      var d := decoder(k, v);
      if d.0 > to {
        break;
      }
      out := out + [d];
      k, v := c.Next();
    }
  }
}
