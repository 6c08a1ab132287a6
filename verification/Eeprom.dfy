/** The node's EEPROM as the firmware sees it: 256 cells written one byte at a time.

    A power cut can fall between any two byte updates, so an operation is the list
    of updates it issues and a cut leaves the effect of some prefix of that list. */
module Eeprom {
  import opened Bytes

  const PROFILE_AREA_START := 0x40
  const COUNTER_RING_START := 0x60
  const EEPROM_SIZE := 256

  type Address = a: int | 0 <= a < 256
  type Image = s: seq<byte> | |s| == 256 witness Fill(256, 0xFF)

  datatype Write = Write(address: Address, value: byte)

  function Apply(image: Image, writes: seq<Write>): Image {
    if writes == [] then image
    else
      var last := writes[|writes| - 1];
      Apply(image, writes[..|writes| - 1])[last.address := last.value]
  }

  /** The image a power cut after `k` byte updates leaves behind. */
  function Cut(image: Image, writes: seq<Write>, k: nat): Image
    requires k <= |writes|
  {
    Apply(image, writes[..k])
  }

  /** `bytes` written to consecutive cells in ascending order. */
  function Block(address: nat, bytes: seq<byte>): (w: seq<Write>)
    requires address + |bytes| <= 256
    ensures |w| == |bytes|
  {
    seq(|bytes|, i requires 0 <= i < |bytes| => Write(address + i, bytes[i]))
  }

  predicate Within(writes: seq<Write>, low: nat, high: nat) {
    forall i :: 0 <= i < |writes| ==> low <= writes[i].address < high
  }

  lemma CutWhole(image: Image, writes: seq<Write>)
    ensures Cut(image, writes, |writes|) == Apply(image, writes)
  {
    assert writes[..|writes|] == writes;
  }

  lemma {:induction false} ApplyConcat(image: Image, a: seq<Write>, b: seq<Write>)
    ensures Apply(image, a + b) == Apply(Apply(image, a), b)
  {
    if b == [] {
      assert a + b == a;
    } else {
      var front := b[..|b| - 1];
      ApplyConcat(image, a, front);
      assert (a + b)[..|a + b| - 1] == a + front;
    }
  }

  /** A cut of two operations in a row falls inside the first or inside the second. */
  lemma CutConcat(image: Image, a: seq<Write>, b: seq<Write>, k: nat)
    requires k <= |a + b|
    ensures k <= |a| ==> Cut(image, a + b, k) == Cut(image, a, k)
    ensures k >= |a| ==> Cut(image, a + b, k) == Cut(Apply(image, a), b, k - |a|)
  {
    if k <= |a| {
      assert (a + b)[..k] == a[..k];
    }
    if k >= |a| {
      assert (a + b)[..k] == a + b[..k - |a|];
      ApplyConcat(image, a, b[..k - |a|]);
    }
  }

  lemma ApplySnoc(image: Image, writes: seq<Write>, w: Write)
    ensures Apply(image, writes + [w]) == Apply(image, writes)[w.address := w.value]
  {
    assert (writes + [w])[..|writes|] == writes;
  }

  lemma {:induction false} ApplyOutside(image: Image, writes: seq<Write>, low: nat, high: nat)
    requires Within(writes, low, high)
    ensures forall a :: 0 <= a < 256 && !(low <= a < high) ==> Apply(image, writes)[a] == image[a]
  {
    if writes != [] {
      ApplyOutside(image, writes[..|writes| - 1], low, high);
    }
  }

  /** Cells that an interrupted operation does not address keep their contents. */
  lemma CutOutside(image: Image, writes: seq<Write>, k: nat, low: nat, high: nat, from: nat, to: nat)
    requires k <= |writes| && Within(writes, low, high)
    requires from <= to <= 256 && (to <= low || high <= from)
    ensures Cut(image, writes, k)[from..to] == image[from..to]
  {
    ApplyOutside(image, writes[..k], low, high);
  }

  lemma {:induction false} ApplyBlock(image: Image, address: nat, bytes: seq<byte>)
    requires address + |bytes| <= 256
    ensures Apply(image, Block(address, bytes)) ==
            image[..address] + bytes + image[address + |bytes|..]
    decreases |bytes|
  {
    if bytes == [] {
      assert image == image[..address] + bytes + image[address..];
    } else {
      var n := |bytes| - 1;
      ApplyBlock(image, address, bytes[..n]);
      assert Block(address, bytes) == Block(address, bytes[..n]) + [Write(address + n, bytes[n])];
      ApplySnoc(image, Block(address, bytes[..n]), Write(address + n, bytes[n]));
    }
  }

  /** A cell that only the last update of a list addresses again after the first one. */
  lemma {:induction false} FirstHolds(image: Image, writes: seq<Write>, address: Address, k: nat)
    requires 0 < k <= |writes| && writes[0].address == address
    requires forall i :: 0 < i < k ==> writes[i].address != address
    ensures Cut(image, writes, k)[address] == writes[0].value
  {
    assert writes[..k][..k - 1] == writes[..k - 1];
    if k > 1 {
      FirstHolds(image, writes, address, k - 1);
    }
  }

  /** The device. `log` records every update requested of it, in order. */
  class Device {
    const cells: array<byte>
    ghost var log: seq<Write>

    ghost predicate Valid() {
      cells.Length == 256
    }

    ghost function Contents(): (image: Image)
      requires Valid()
      reads cells
    {
      cells[..]
    }

    constructor (initial: Image)
      ensures Valid() && fresh(cells)
      ensures Contents() == initial && log == []
    {
      cells := new byte[256](i requires 0 <= i < 256 => initial[i]);
      log := [];
      new;
      assert cells[..] == initial;
    }

    method Read(address: Address) returns (value: byte)
      requires Valid()
      ensures value == Contents()[address]
    {
      value := cells[address];
    }

    /** Writes only a cell that changes, as the EEPROM library does. */
    method Update(address: Address, value: byte)
      requires Valid()
      modifies cells, `log
      ensures Contents() == old(Contents())[address := value]
      ensures log == old(log) + [Write(address, value)]
    {
      if cells[address] != value {
        cells[address] := value;
      }
      log := log + [Write(address, value)];
    }

    method ReadBlock(address: nat, size: nat) returns (bytes: seq<byte>)
      requires Valid() && address + size <= 256
      ensures bytes == Contents()[address..address + size]
    {
      bytes := [];
      for index := 0 to size
        invariant bytes == Contents()[address..address + index]
      {
        var b := Read(address + index);
        bytes := bytes + [b];
      }
    }

    /** The loop every store uses for the body of a record. */
    method UpdateBlock(address: nat, bytes: seq<byte>)
      requires Valid() && address + |bytes| <= 256
      modifies cells, `log
      ensures Contents() == Apply(old(Contents()), Block(address, bytes))
      ensures log == old(log) + Block(address, bytes)
    {
      for index := 0 to |bytes|
        invariant Contents() == Apply(old(Contents()), Block(address, bytes[..index]))
        invariant log == old(log) + Block(address, bytes[..index])
      {
        ghost var done := Block(address, bytes[..index]);
        assert Block(address, bytes[..index + 1]) == done + [Write(address + index, bytes[index])];
        ApplySnoc(old(Contents()), done, Write(address + index, bytes[index]));
        Update(address + index, bytes[index]);
      }
      assert bytes[..|bytes|] == bytes;
    }
  }
}
