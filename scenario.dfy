/**
 A worked example of one block's storage changeset: block 100 writes
 `DEAD` to slot `01…` of the 20-byte address `AA…` at incarnation 1.
 */
module StorageScenario {
  import opened Bytes
  import opened BigEndian
  import opened Wrappers
  import opened Cursor
  import opened StorageLayout
  import opened StorageWalk
  import opened StorageSearch

  const AddressLength: nat := 20
  const Block: U64 := 100
  function Addr(): (a: Bytes) { seq(AddressLength, _ => 0xAA) }
  function Slot1(): (s: Bytes) { seq(HASH_LENGTH, _ => 0x01) }
  function Slot2(): (s: Bytes) { seq(HASH_LENGTH, _ => 0x02) }
  const Dead: Bytes := [0xDE, 0xAD]

  /** The full changeset key address ++ incarnation 1 ++ slot `01…`. */
  function StorageKey(): (k: Bytes)
    ensures |k| == AddressLength + INCARNATION_LENGTH + HASH_LENGTH
  {
    Addr() + EncodeU64(1) + Slot1()
  }

  /** The parts `find_in_storage_changeset_2` slices out of that key. */
  lemma ParseScenarioKey()
    ensures ParseStorageKey(StorageKey(), AddressLength) == (Addr(), Slot1(), 1)
  {
    var p := ParseStorageKey(StorageKey(), AddressLength);
    var k := StorageKey();
    assert k[..AddressLength + INCARNATION_LENGTH + HASH_LENGTH] == k;
    assert p.0 == k[..AddressLength] == Addr();
    assert p.1 == k[AddressLength + INCARNATION_LENGTH..] == Slot1();
    assert EncodeU64(p.2) == k[AddressLength..AddressLength + INCARNATION_LENGTH] == EncodeU64(1);
    DecodeEncodeU64(p.2);
    DecodeEncodeU64(1);
  }

  /** The block's changeset: the one write. */
  function Changes(): (cs: seq<Change>)
    ensures WellFormedChanges(cs, AddressLength) && ChangeSetSorted(cs)
  {
    [Change(StorageKey(), Dead)]
  }

  /** The block's table, as `encode_storage` writes it. */
  function Table(): (es: seq<Entry>)
    ensures Sorted(es) && NonEmptyKeys(es) && StorageTable(es, AddressLength) && |es| == 1
  {
    EncodeStorageTable(Block, Changes(), AddressLength);
    EncodeStorage(Block, Changes(), AddressLength)
  }

  /** With address, incarnation 1 and slot `01…` the lookup gives `DEAD`. */
  lemma ScenarioFind()
    ensures SearchSpec(Table(), Block, AddressLength, Addr(), Slot1(), 1) == Some(Dead)
  {
    ParseScenarioKey();
    FindInEncodedChangeset(Block, Changes(), AddressLength, 0);
  }

  /** The same lookup for slot `02…` gives nothing. */
  lemma ScenarioOtherSlot()
    ensures SearchSpec(Table(), Block, AddressLength, Addr(), Slot2(), 1) == None
  {
    var es := Table();
    SearchWithIncarnationFound(es, Block, AddressLength, Addr(), Slot2(), 1);
    ParseScenarioKey();
    EncodeEntryOfParsedKey(Block, Changes()[0], AddressLength);
    assert es[0].value[0] == 0x01 && Slot2()[0] == 0x02;
  }

  /** Without the incarnation, slot `01…` of the address still gives `DEAD`. */
  lemma ScenarioFindWithoutIncarnation()
    ensures SearchSpec(Table(), Block, AddressLength, Addr(), Slot1(), 0) == Some(Dead)
  {
    assert StorageKey()[..AddressLength] == Addr();
    assert StorageKey()[AddressLength + INCARNATION_LENGTH..] == Slot1();
    FindWithoutIncarnationInEncodedChangeset(Block, Changes(), AddressLength, Addr(), Slot1(), 0);
  }

  /** Walking block 100 alone yields exactly (100, key, `DEAD`). */
  lemma ScenarioWalk()
    ensures Decodable(Table(), StorageDecoder)
    ensures WalkFrom(Table(), WalkStart(Table(), Block), StorageDecoder, Block) == [(Block, StorageKey(), Dead)]
  {
    WalkEncodedBlock(Block, Changes(), AddressLength);
  }
}
