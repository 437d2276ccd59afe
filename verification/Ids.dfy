/** Packed row ids and the choice of a table by block number. */
module Ids {

  const COEFFICIENT: nat := 100_000
  const SPLIT: nat := 1_000_000

  /** Ids per table of events or extrinsics. */
  const SPAN: nat := 100_000_000_000

  /** Go's uint is 64 bits wide. */
  const UINT: nat := 0x1_0000_0000_0000_0000

  function TableIndex(blockNum: nat): nat {
    blockNum / SPLIT
  }

  function GenerateId(blockNum: nat, index: nat): nat {
    (blockNum * COEFFICIENT + index) % UINT
  }

  function ParseIndexInt(id: nat): (nat, nat) {
    (id / COEFFICIENT, id % COEFFICIENT)
  }

  /** The table a cursor points into, as the listings compute it from an id. */
  function TableOfId(id: nat): nat {
    id / SPLIT / COEFFICIENT
  }

  lemma TableOfIdIsQuotient(id: nat)
    ensures TableOfId(id) == id / SPAN
  {
  }

  /** The packing and the tables in numbers. */
  lemma PackingSpelled(blockNum: nat, index: nat, id: nat)
    ensures GenerateId(blockNum, index) == (blockNum * 100000 + index) % 18446744073709551616
    ensures ParseIndexInt(id).0 * 100000 + ParseIndexInt(id).1 == id && ParseIndexInt(id).1 < 100000
    ensures TableIndex(blockNum) * 1000000 <= blockNum < TableIndex(blockNum) * 1000000 + 1000000
    ensures TableOfId(id) * 100000000000 <= id < TableOfId(id) * 100000000000 + 100000000000
  {
    TableOfIdIsQuotient(id);
  }

  /** An id is unpacked to its block and index exactly when the index is below the coefficient. */
  lemma PackRoundTrip(blockNum: nat, index: nat)
    requires blockNum * COEFFICIENT + index < UINT
    ensures ParseIndexInt(GenerateId(blockNum, index)) == (blockNum, index) <==> index < 100000
  {
    FitsUint(blockNum * COEFFICIENT + index);
    hide UINT;
    Unpacked(blockNum, index);
  }

  lemma FitsUint(n: nat)
    requires n < UINT
    ensures n % UINT == n
  {
  }

  lemma Unpacked(blockNum: nat, index: nat)
    ensures index < 100000 ==> (blockNum * 100000 + index) / 100000 == blockNum
    ensures (blockNum * 100000 + index) % 100000 == index <==> index < 100000
  {
  }

  /** Ids of rows with small indexes are ordered as block number and index. */
  lemma PackOrder(b1: nat, i1: nat, b2: nat, i2: nat)
    requires i1 < COEFFICIENT && i2 < COEFFICIENT
    requires b1 * COEFFICIENT + i1 < UINT && b2 * COEFFICIENT + i2 < UINT
    ensures GenerateId(b1, i1) < GenerateId(b2, i2) <==> b1 < b2 || (b1 == b2 && i1 < i2)
  {
  }

  /** A cursor points into the table its row is stored in exactly when the index does not spill over the table. */
  lemma TableOfPacked(blockNum: nat, index: nat)
    requires blockNum * COEFFICIENT + index < UINT
    ensures TableOfId(GenerateId(blockNum, index)) == TableIndex(blockNum) <==>
            blockNum % SPLIT * COEFFICIENT + index < SPAN
  {
    var id := GenerateId(blockNum, index);
    TableOfIdIsQuotient(id);
    assert id == TableIndex(blockNum) * SPAN + (blockNum % SPLIT * COEFFICIENT + index);
  }

  /** In particular whenever the index is below the coefficient. */
  lemma SmallIndexStays(blockNum: nat, index: nat)
    requires blockNum * COEFFICIENT + index < UINT && index < COEFFICIENT
    ensures TableOfId(GenerateId(blockNum, index)) == TableIndex(blockNum)
  {
    TableOfPacked(blockNum, index);
  }
}
