/** What the node's two dual-slot stores share: the generation order, the choice
    between two slots, and a record commit that clears the magic byte first and
    restores it last. */
module NodeSlots {
  import opened Bytes
  import opened Eeprom
  import opened Options

  function GenerationIsNewer(candidate: byte, current: byte): bool {
    0 < (candidate - current) % 0x100 < 0x80
  }

  /** The generation a save gives its record. */
  function NextGeneration(current: Option<byte>): byte {
    if current.Some? then (current.value + 1) % 0x100 else 0
  }

  /** The slot `load` chooses, from the generations of the slots that decode. */
  function CurrentSlot(a: Option<byte>, b: Option<byte>): (slot: nat)
    ensures slot < 2
  {
    if a.Some? && (b.None? || GenerationIsNewer(a.value, b.value)) then 0 else 1
  }

  lemma SuccessorWins(slot: nat, generation: byte)
    requires slot < 2
    ensures
      var next := Some(NextGeneration(Some(generation)));
      CurrentSlot(if slot == 0 then next else Some(generation), if slot == 0 then Some(generation) else next) == slot
  {
  }

  /** Commits `bytes` at `address`: the first `lead` cells are cleared, the body
      written, and the lead restored backwards so the first cell comes last. */
  function CommitWrites(address: nat, bytes: seq<byte>, lead: nat): (w: seq<Write>)
    requires lead == 1 || lead == 2
    requires lead < |bytes| && address + |bytes| <= 256
    ensures |w| == |bytes| + lead
  {
    if lead == 1 then
      [Write(address, 0)] + Block(address + 1, bytes[1..]) + [Write(address, bytes[0])]
    else
      [Write(address, 0), Write(address + 1, 0)] + Block(address + 2, bytes[2..]) +
      [Write(address + 1, bytes[1]), Write(address, bytes[0])]
  }

  lemma CommitWithin(address: nat, bytes: seq<byte>, lead: nat)
    requires lead == 1 || lead == 2
    requires lead < |bytes| && address + |bytes| <= 256
    ensures Within(CommitWrites(address, bytes, lead), address, address + |bytes|)
  {
  }

  /** Until the last update the first cell of the slot stays zero. */
  lemma CommitCut(image: Image, address: nat, bytes: seq<byte>, lead: nat, k: nat)
    requires lead == 1 || lead == 2
    requires lead < |bytes| && address + |bytes| <= 256
    requires 0 < k < |bytes| + lead
    ensures Cut(image, CommitWrites(address, bytes, lead), k)[address] == 0
  {
    FirstHolds(image, CommitWrites(address, bytes, lead), address, k);
  }

  lemma CommitDone(image: Image, address: nat, bytes: seq<byte>, lead: nat)
    requires lead == 1 || lead == 2
    requires lead < |bytes| && address + |bytes| <= 256
    ensures Apply(image, CommitWrites(address, bytes, lead)) ==
            image[..address] + bytes + image[address + |bytes|..]
  {
    hide Apply, Block;
    var cleared := if lead == 1 then [Write(address, 0)] else [Write(address, 0), Write(address + 1, 0)];
    var body := Block(address + lead, bytes[lead..]);
    var restored := if lead == 1 then [Write(address, bytes[0])]
      else [Write(address + 1, bytes[1]), Write(address, bytes[0])];
    assert CommitWrites(address, bytes, lead) == (cleared + body) + restored;
    ApplyConcat(image, cleared + body, restored);
    ApplyConcat(image, cleared, body);
    ApplyBlock(Apply(image, cleared), address + lead, bytes[lead..]);
    ApplyFew(image, cleared);
    ApplyFew(Apply(image, cleared + body), restored);
  }

  lemma ApplyFew(image: Image, writes: seq<Write>)
    requires 1 <= |writes| <= 2
    ensures |writes| == 1 ==> Apply(image, writes) == image[writes[0].address := writes[0].value]
    ensures |writes| == 2 ==> Apply(image, writes) ==
                              image[writes[0].address := writes[0].value][writes[1].address := writes[1].value]
  {
    assert writes[..0] == [];
    if |writes| == 2 {
      assert writes[..1] == [writes[0]];
      assert Apply(image, writes[..1]) == image[writes[0].address := writes[0].value];
    }
  }

  /** The update sequence of both stores' `save`. */
  method CommitSlot(storage: Device, address: nat, bytes: seq<byte>, lead: nat)
    requires storage.Valid()
    requires lead == 1 || lead == 2
    requires lead < |bytes| && address + |bytes| <= 256
    modifies storage.cells, storage`log
    ensures storage.log == old(storage.log) + CommitWrites(address, bytes, lead)
    ensures storage.Contents() == Apply(old(storage.Contents()), CommitWrites(address, bytes, lead))
  {
    ghost var before := storage.Contents();
    storage.Update(address, 0);
    if lead == 2 {
      storage.Update(address + 1, 0);
    }
    ghost var cleared := if lead == 1 then [Write(address, 0)] else [Write(address, 0), Write(address + 1, 0)];
    ApplyFew(before, cleared);
    storage.UpdateBlock(address + lead, bytes[lead..]);
    ghost var body := Block(address + lead, bytes[lead..]);
    ApplyConcat(before, cleared, body);
    if lead == 2 {
      storage.Update(address + 1, bytes[1]);
    }
    storage.Update(address, bytes[0]);
    ghost var restored := if lead == 1 then [Write(address, bytes[0])]
      else [Write(address + 1, bytes[1]), Write(address, bytes[0])];
    ApplyFew(Apply(before, cleared + body), restored);
    ApplyConcat(before, cleared + body, restored);
    assert CommitWrites(address, bytes, lead) == cleared + body + restored;
  }
}
