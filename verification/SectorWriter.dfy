/** The Web UI image goes to its partition one sector at a time. Flash erases to ones
    and a write can only clear bits; a sector that already holds the new bytes is left
    alone. */
module SectorWriter {
  import opened Bytes

  const SECTOR_SIZE := 4096

  // ---------------------------------------------------------------- flash

  /** Bitwise and of two values of `width` bits. */
  function And(a: nat, b: nat, width: nat): (r: nat) {
    if width == 0 then 0 else a % 2 * (b % 2) + 2 * And(a / 2, b / 2, width - 1)
  }

  function AllOnes(width: nat): nat {
    if width == 0 then 0 else 1 + 2 * AllOnes(width - 1)
  }

  lemma {:induction false} AndOnes(b: nat, width: nat)
    requires b <= AllOnes(width)
    ensures And(AllOnes(width), b, width) == b
  {
    if width > 0 {
      AndOnes(b / 2, width - 1);
    }
  }

  /** A byte written to an erased cell is stored as it is. */
  lemma ErasedTakesAnything(b: byte)
    ensures And(0xFF, b, 8) == b
  {
    assert AllOnes(8) == 0xFF by {
      assert AllOnes(0) == 0 && AllOnes(2) == 3 && AllOnes(4) == 15 && AllOnes(6) == 63;
    }
    AndOnes(b, 8);
  }

  lemma {:induction false} AndFits(a: nat, b: nat, width: nat)
    ensures And(a, b, width) <= AllOnes(width)
  {
    if width > 0 {
      AndFits(a / 2, b / 2, width - 1);
    }
  }

  function Cleared(old_: byte, written: byte): (b: byte) {
    AndFits(old_, written, 8);
    assert AllOnes(8) == 0xFF by { ErasedTakesAnything(0); assert AllOnes(2) == 3 && AllOnes(4) == 15 && AllOnes(6) == 63; }
    And(old_, written, 8)
  }

  /** A flash partition. `remaining` operations succeed; one that fails leaves `ruin`
      in its sector, whatever that is. */
  class Partition {
    const cells: array<byte>
    const ruin: seq<byte>
    var remaining: nat

    ghost predicate Valid() {
      cells.Length % SECTOR_SIZE == 0 && |ruin| == SECTOR_SIZE
    }

    constructor (contents: seq<byte>, ruin: seq<byte>, remaining: nat)
      requires |contents| % SECTOR_SIZE == 0 && |ruin| == SECTOR_SIZE
      ensures Valid() && fresh(cells) && cells[..] == contents
    {
      cells := new byte[|contents|](i requires 0 <= i < |contents| => contents[i]);
      this.ruin, this.remaining := ruin, remaining;
      new;
      assert cells[..] == contents;
    }

    predicate Sector(address: nat) {
      address % SECTOR_SIZE == 0 && address + SECTOR_SIZE <= cells.Length
    }

    method Read(address: nat) returns (ok: bool, data: seq<byte>)
      requires Valid() && Sector(address)
      modifies `remaining
      ensures ok ==> data == cells[address..address + SECTOR_SIZE]
      ensures !ok ==> remaining == 0
    {
      if remaining == 0 {
        return false, [];
      }
      remaining := remaining - 1;
      return true, cells[address..address + SECTOR_SIZE];
    }

    method Erase(address: nat) returns (ok: bool)
      requires Valid() && Sector(address)
      modifies `remaining, cells
      ensures cells[..address] == old(cells[..address])
      ensures cells[address + SECTOR_SIZE..] == old(cells[address + SECTOR_SIZE..])
      ensures ok ==> cells[address..address + SECTOR_SIZE] == Fill(SECTOR_SIZE, 0xFF)
      ensures !ok ==> remaining == 0
    {
      ok := remaining != 0;
      for i := 0 to SECTOR_SIZE
        invariant cells[..address] == old(cells[..address])
        invariant cells[address + SECTOR_SIZE..] == old(cells[address + SECTOR_SIZE..])
        invariant ok ==> forall k :: address <= k < address + i ==> cells[k] == 0xFF
        invariant ok == (remaining != 0)
      {
        cells[address + i] := if ok then 0xFF else ruin[i];
      }
      remaining := if ok then remaining - 1 else 0;
    }

    method Write(address: nat, data: seq<byte>) returns (ok: bool)
      requires Valid() && Sector(address) && |data| == SECTOR_SIZE
      modifies `remaining, cells
      ensures cells[..address] == old(cells[..address])
      ensures cells[address + SECTOR_SIZE..] == old(cells[address + SECTOR_SIZE..])
      ensures ok ==> forall k :: address <= k < address + SECTOR_SIZE ==>
                cells[k] == Cleared(old(cells[k]), data[k - address])
      ensures !ok ==> remaining == 0
    {
      ok := remaining != 0;
      for i := 0 to SECTOR_SIZE
        invariant cells[..address] == old(cells[..address])
        invariant cells[address + SECTOR_SIZE..] == old(cells[address + SECTOR_SIZE..])
        invariant ok ==> forall k :: address <= k < address + i ==> cells[k] == Cleared(old(cells[k]), data[k - address])
        invariant ok ==> forall k :: address + i <= k < address + SECTOR_SIZE ==> cells[k] == old(cells[k])
        invariant ok == (remaining != 0)
      {
        cells[address + i] := if ok then Cleared(cells[address + i], data[i]) else ruin[i];
      }
      remaining := if ok then remaining - 1 else 0;
    }
  }

  // ---------------------------------------------------------------- what is written

  /** How much of a stream is committed: its whole sectors. */
  function Committed(size: nat): nat {
    size / SECTOR_SIZE * SECTOR_SIZE
  }

  /** The partition once `stream` has been written over `prior`. */
  ghost predicate Holds(cells: seq<byte>, prior: seq<byte>, stream: seq<byte>) {
    && |cells| == |prior| && Committed(|stream|) <= |prior|
    && cells[..Committed(|stream|)] == stream[..Committed(|stream|)]
    && cells[Committed(|stream|)..] == prior[Committed(|stream|)..]
  }

  lemma HoldsOne(a: seq<byte>, b: seq<byte>, prior: seq<byte>, stream: seq<byte>)
    requires Holds(a, prior, stream) && Holds(b, prior, stream)
    ensures a == b
  {
    var n := Committed(|stream|);
    assert a == a[..n] + a[n..] && b == b[..n] + b[n..];
  }

  // ---------------------------------------------------------------- the writer

  class UiWriter {
    const partition: Partition
    const sector: array<byte>
    var fill: nat
    var offset: nat
    /** All data the hash has taken. */
    var hashed: seq<byte>
    ghost const prior: seq<byte>
    ghost var stream: seq<byte>

    ghost predicate Valid()
      reads this, partition, partition.cells, sector
    {
      hashed == stream && Written()
    }

    /** Flash holds the whole sectors of the stream, and the buffer its rest. */
    ghost predicate Written()
      reads this, partition, partition.cells, sector
    {
      && partition.Valid() && sector.Length == SECTOR_SIZE && sector != partition.cells
      && |prior| == partition.cells.Length
      && offset == Committed(|stream|) && fill == |stream| - offset && fill < SECTOR_SIZE
      && |stream| <= |prior|
      && sector[..fill] == stream[offset..]
      && Holds(partition.cells[..], prior, stream)
    }

    constructor (partition: Partition)
      requires partition.Valid()
      ensures Valid() && this.partition == partition && fresh(sector)
      ensures prior == partition.cells[..] && stream == []
    {
      this.partition := partition;
      sector := new byte[SECTOR_SIZE](_ => 0);
      fill, offset, hashed, stream := 0, 0, [], [];
      prior := partition.cells[..];
    }

    /** Writes the full sector buffer, unless flash already holds it. */
    method CommitSector() returns (ok: bool)
      requires partition.Valid() && sector.Length == SECTOR_SIZE && sector != partition.cells
      requires fill == SECTOR_SIZE && partition.Sector(offset)
      modifies `fill, `offset, partition`remaining, partition.cells
      ensures partition.cells[..old(offset)] == old(partition.cells[..offset])
      ensures partition.cells[old(offset) + SECTOR_SIZE..] == old(partition.cells[offset + SECTOR_SIZE..])
      ensures ok ==> partition.cells[old(offset)..old(offset) + SECTOR_SIZE] == sector[..]
      ensures !ok ==> partition.remaining == 0
      ensures if ok then offset == old(offset) + SECTOR_SIZE && fill == 0 else offset == old(offset) && fill == old(fill)
    {
      var address := offset;
      var readable, existing := partition.Read(address);
      if !readable {
        return false;
      }
      if existing != sector[..] {
        var erasable := partition.Erase(address);
        if !erasable {
          return false;
        }
        ghost var blank := partition.cells[address..address + SECTOR_SIZE];
        assert forall k :: address <= k < address + SECTOR_SIZE ==> partition.cells[k] == blank[k - address] == 0xFF;
        if sector[..] != Fill(SECTOR_SIZE, 0xFF) {
          var writable := partition.Write(address, sector[..]);
          if !writable {
            return false;
          }
          forall k | address <= k < address + SECTOR_SIZE
            ensures partition.cells[k] == sector[k - address]
          {
            ErasedTakesAnything(sector[k - address]);
          }
          assert partition.cells[address..address + SECTOR_SIZE] == sector[..];
        }
      }
      offset := offset + SECTOR_SIZE;
      fill := 0;
      ok := true;
    }

    /** Flash below `offset` equals `whole` so far; above the current sector it is untouched. */
    ghost predicate Intact(whole: seq<byte>)
      reads this, partition.cells
    {
      && offset <= |whole| && offset <= |prior| == partition.cells.Length
      && partition.cells[..offset] == whole[..offset]
      && (offset + SECTOR_SIZE <= |prior| ==> partition.cells[offset + SECTOR_SIZE..] == prior[offset + SECTOR_SIZE..])
    }

    /** Takes one chunk of the inflated stream, of any size. It is refused only when the
        stream outgrows the partition or flash fails. */
    method WriteUiImage(data: seq<byte>) returns (ok: bool)
      requires Valid()
      modifies this, sector, partition`remaining, partition.cells
      ensures ok ==> Valid() && stream == old(stream) + data
      ensures !ok ==> Intact(old(stream) + data) && (|old(stream) + data| > |prior| || partition.remaining == 0)
    {
      hashed := hashed + data;
      ghost var whole := stream + data;
      var rest := data;
      while rest != []
        invariant hashed == whole && Written() && stream + rest == whole
        decreases |rest|
      {
        hide Written, Intact;
        Bounds();
        if offset >= partition.cells.Length {
          Refused(rest);
          return false;
        }
        var size := if |rest| < SECTOR_SIZE - fill then |rest| else SECTOR_SIZE - fill;
        ghost var taken := stream + rest[..size];
        assert rest == rest[..size] + rest[size..];
        assert taken + rest[size..] == whole;
        ok := Take(rest[..size]);
        if !ok {
          MoreData(taken, rest[size..]);
          return false;
        }
        rest := rest[size..];
      }
      assert stream + [] == stream;
      ok := true;
    }

    lemma Bounds()
      requires Written()
      ensures fill < SECTOR_SIZE && offset % SECTOR_SIZE == 0 && offset <= partition.cells.Length == |prior|
      ensures offset < partition.cells.Length ==> offset + SECTOR_SIZE <= partition.cells.Length
    {
      if offset < partition.cells.Length {
        WholeSector(offset, partition.cells.Length);
      }
    }

    lemma Refused(rest: seq<byte>)
      requires Written() && offset >= partition.cells.Length && rest != []
      ensures Intact(stream + rest) && |stream + rest| > |prior|
    {
      assert partition.cells[..][..offset] == stream[..offset];
    }

    lemma MoreData(taken: seq<byte>, rest: seq<byte>)
      requires Intact(taken)
      ensures Intact(taken + rest)
    {
      assert taken[..offset] == (taken + rest)[..offset];
    }

    /** At most what still fits the sector buffer; a full buffer is committed. */
    method Take(data: seq<byte>) returns (ok: bool)
      requires Written() && |data| <= SECTOR_SIZE - fill && offset + SECTOR_SIZE <= partition.cells.Length
      modifies `fill, `offset, `stream, sector, partition`remaining, partition.cells
      ensures ok ==> Written() && stream == old(stream) + data
      ensures !ok ==> Intact(old(stream) + data) && partition.remaining == 0 && offset == old(offset)
    {
      ghost var before := partition.cells[..];
      var start := offset;
      CopyIn(data);
      assert partition.cells[..] == before;
      stream := stream + data;
      assert sector[..fill] == stream[start..];
      if fill == SECTOR_SIZE {
        assert sector[..] == sector[..fill];
        ok := CommitSector();
        if ok {
          SectorDone(before, partition.cells[..], prior, stream, start);
        } else {
          StartKept(before, partition.cells[..], prior, stream, start);
        }
      } else {
        NotYet(|stream|, offset);
        assert partition.cells[..][..offset] == stream[..offset];
        ok := true;
      }
    }

    /** Appends to the sector buffer. */
    method CopyIn(data: seq<byte>)
      requires sector.Length == SECTOR_SIZE && fill + |data| <= SECTOR_SIZE && sector != partition.cells
      modifies sector, `fill
      ensures fill == old(fill) + |data| && sector[..fill] == old(sector[..fill]) + data
    {
      for i := 0 to |data|
        invariant fill == old(fill)
        invariant sector[..fill] == old(sector[..fill])
        invariant forall k :: 0 <= k < i ==> sector[fill + k] == data[k]
      {
        sector[fill + i] := data[i];
      }
      fill := fill + |data|;
    }
  }

  lemma WholeSector(offset: nat, size: nat)
    requires offset % SECTOR_SIZE == 0 && size % SECTOR_SIZE == 0 && offset < size
    ensures offset + SECTOR_SIZE <= size
  {
  }

  lemma NotYet(size: nat, offset: nat)
    requires offset % SECTOR_SIZE == 0 && offset <= size < offset + SECTOR_SIZE
    ensures Committed(size) == offset
  {
  }

  /** Committing a full buffer extends what the partition holds by one sector. */
  lemma SectorDone(before: seq<byte>, after: seq<byte>, prior: seq<byte>, stream: seq<byte>, start: nat)
    requires |before| == |after| == |prior| && start % SECTOR_SIZE == 0 && |stream| == start + SECTOR_SIZE <= |prior|
    requires before[..start] == stream[..start] && before[start..] == prior[start..]
    requires after[..start] == before[..start] && after[start..start + SECTOR_SIZE] == stream[start..]
    requires after[start + SECTOR_SIZE..] == before[start + SECTOR_SIZE..]
    ensures Holds(after, prior, stream) && Committed(|stream|) == |stream|
  {
    assert after[..|stream|] == after[..start] + after[start..|stream|];
    assert before[start + SECTOR_SIZE..] == before[start..][SECTOR_SIZE..];
    assert prior[start + SECTOR_SIZE..] == prior[start..][SECTOR_SIZE..];
  }

  lemma StartKept(before: seq<byte>, after: seq<byte>, prior: seq<byte>, stream: seq<byte>, start: nat)
    requires |before| == |after| == |prior| && |stream| == start + SECTOR_SIZE <= |prior|
    requires before[..start] == stream[..start] && before[start..] == prior[start..]
    requires after[..start] == before[..start] && after[start + SECTOR_SIZE..] == before[start + SECTOR_SIZE..]
    ensures after[..start] == stream[..start] && after[start + SECTOR_SIZE..] == prior[start + SECTOR_SIZE..]
  {
    assert before[start + SECTOR_SIZE..] == before[start..][SECTOR_SIZE..];
    assert prior[start + SECTOR_SIZE..] == prior[start..][SECTOR_SIZE..];
  }

  // ---------------------------------------------------------------- installation

  function Flattened(chunks: seq<seq<byte>>): seq<byte> {
    if chunks == [] then [] else Flattened(chunks[..|chunks| - 1]) + chunks[|chunks| - 1]
  }

  lemma {:induction false} FlattenedPrefix(chunks: seq<seq<byte>>, k: nat)
    requires k <= |chunks|
    ensures |Flattened(chunks[..k])| <= |Flattened(chunks)|
  {
    if k == |chunks| {
      assert chunks[..k] == chunks;
    } else {
      var front := chunks[..|chunks| - 1];
      FlattenedPrefix(front, k);
      assert front[..k] == chunks[..k];
    }
  }

  lemma FullyWritten(size: nat)
    ensures size % SECTOR_SIZE == 0 ==> Committed(size) == size
  {
  }

  datatype InstallError = SizeMismatch | DownloadFailed | HashMismatch

  datatype Outcome = Installed | Failed(error: InstallError)

  /** Writes the chunks one after the other. Unless flash fails, it succeeds exactly if
      they fit the partition. */
  method WriteAll(writer: UiWriter, chunks: seq<seq<byte>>) returns (ok: bool)
    requires writer.Valid() && writer.stream == []
    modifies writer, writer.sector, writer.partition`remaining, writer.partition.cells
    ensures ok ==> writer.Valid() && writer.stream == Flattened(chunks) && |Flattened(chunks)| <= |writer.prior|
    ensures !ok ==> |Flattened(chunks)| > |writer.prior| || writer.partition.remaining == 0
  {
    for index := 0 to |chunks|
      invariant writer.Valid() && writer.stream == Flattened(chunks[..index])
    {
      ok := writer.WriteUiImage(chunks[index]);
      assert chunks[..index + 1][..index] == chunks[..index];
      if !ok {
        FlattenedPrefix(chunks, index + 1);
        return;
      }
    }
    assert chunks[..|chunks|] == chunks;
    ok := true;
  }

  /** Two runs over equal partitions, the same stream split in two ways: flash, the rest
      in the buffer and the hashed data come out the same; and without a flash error
      either both succeed or both are refused. */
  method ChunkingIsIrrelevant(first: UiWriter, second: UiWriter, a: seq<seq<byte>>, b: seq<seq<byte>>)
    returns (firstOk: bool, secondOk: bool)
    requires first.Valid() && second.Valid() && first.stream == second.stream == []
    requires first.prior == second.prior && Flattened(a) == Flattened(b)
    requires first != second && first.partition != second.partition && first.sector != second.sector
    requires {first.sector, first.partition.cells} !! {second.sector, second.partition.cells}
    modifies first, first.sector, first.partition`remaining, first.partition.cells
    modifies second, second.sector, second.partition`remaining, second.partition.cells
    ensures firstOk && secondOk ==>
              && first.Valid() && second.Valid()
              && first.partition.cells[..] == second.partition.cells[..]
              && first.fill == second.fill && first.sector[..first.fill] == second.sector[..second.fill]
              && first.offset == second.offset && first.hashed == second.hashed
    ensures first.partition.remaining > 0 && second.partition.remaining > 0 ==> firstOk == secondOk
  {
    firstOk := WriteAll(first, a);
    secondOk := WriteAll(second, b);
    if firstOk && secondOk {
      HoldsOne(first.partition.cells[..], second.partition.cells[..], first.prior, first.stream);
    }
  }

  /** Installs an image that arrives in any chunks. `digest` is the hash function and
      `expected` the signed hash of the image; `finished` whether the inflater ended
      properly. When it succeeds, the whole partition is the stream and has that hash. */
  method InstallUi(
    partition: Partition, imageSize: nat, chunks: seq<seq<byte>>, finished: bool,
    digest: seq<byte> -> seq<byte>, expected: seq<byte>)
    returns (outcome: Outcome)
    requires partition.Valid()
    modifies partition`remaining, partition.cells
    ensures outcome.Installed? ==>
              && partition.cells[..] == Flattened(chunks)
              && imageSize == partition.cells.Length && digest(partition.cells[..]) == expected
    ensures
      (finished && imageSize == partition.cells.Length == |Flattened(chunks)| && partition.remaining > 0 &&
       digest(Flattened(chunks)) == expected)
      ==> outcome.Installed?
    ensures partition.remaining > 0 ==>
              outcome ==
                if imageSize != partition.cells.Length then Failed(SizeMismatch)
                else if |Flattened(chunks)| > imageSize then Failed(DownloadFailed)
                else if !finished || |Flattened(chunks)| < imageSize then Failed(SizeMismatch)
                else if digest(Flattened(chunks)) != expected then Failed(HashMismatch)
                else Installed
  {
    if imageSize != partition.cells.Length {
      return Failed(SizeMismatch);
    }
    var writer := new UiWriter(partition);
    var ok := WriteAll(writer, chunks);
    if !ok {
      return Failed(DownloadFailed);
    }
    FullyWritten(|Flattened(chunks)|);
    if !finished || writer.fill != 0 || writer.offset != imageSize {
      return Failed(SizeMismatch);
    }
    assert partition.cells[..] == writer.stream by {
      assert partition.cells[..][..imageSize] == partition.cells[..];
      assert writer.stream[..imageSize] == writer.stream;
    }
    if digest(writer.hashed) != expected {
      return Failed(HashMismatch);
    }
    outcome := Installed;
  }
}
