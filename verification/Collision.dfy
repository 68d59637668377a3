/** Trusting the copy of memory because its checksum matches is not always safe: a family of
    pairs of images that wr_mem confuses without noticing. */
module Collision {

  import opened Ez8
  import opened Device
  import opened Memory
  import Crc

  function Image3(a: Byte, b: Byte, c: Byte, tail: seq<Byte>): Image
    requires |tail| == EZ8MEM_SIZE - 3
  {
    [a, b, c] + tail
  }

  lemma SameChecksum(tail: seq<Byte>, n: nat)
    requires |tail| == EZ8MEM_SIZE - 3 && 3 <= n <= EZ8MEM_SIZE
    ensures ImageCrc(Image3(0x00, 0x00, 0x00, tail), n) == ImageCrc(Image3(0x11, 0x08, 0x01, tail), n)
  {
    hide Crc.Checksum;
    var a: seq<Byte>, b: seq<Byte> := [0x00, 0x00, 0x00], [0x11, 0x08, 0x01];
    var t := tail[..n - 3];
    assert Image3(0x00, 0x00, 0x00, tail)[..n] == a + t && Image3(0x11, 0x08, 0x01, tail)[..n] == b + t;
    Crc.ChecksumConcat(0, a, t);
    Crc.ChecksumConcat(0, b, t);
    Crc.SeventeenBitsCollide(0);
  }

  /** The chip holds 00 00 00 at the bottom of memory and the copy 11 08 01, all else equal. A
      write elsewhere in the first page passes the checksum test before and after, and turns the
      chip's first byte from 00 into 11. */
  lemma WriteCorruptsNeighbour(tail: seq<Byte>, n: nat, at: nat, data: seq<Byte>)
    requires |tail| == EZ8MEM_SIZE - 3 && EZ8MEM_PAGESIZE <= n <= EZ8MEM_SIZE
    requires 3 <= at && data != [] && at + |data| <= EZ8MEM_PAGESIZE
    ensures var flash, copy := Image3(0x00, 0x00, 0x00, tail), Image3(0x11, 0x08, 0x01, tail);
      var after := AfterWrite(flash, copy, at, data);
      && ImageCrc(flash, n) == ImageCrc(copy, n)
      && ImageCrc(after, n) == ImageCrc(Overlay(copy, at, data), n)
      && flash[0] == 0x00 && after[0] == 0x11
  {
    hide And, ImageCrc;
    var flash, copy := Image3(0x00, 0x00, 0x00, tail), Image3(0x11, 0x08, 0x01, tail);
    var after, want := AfterWrite(flash, copy, at, data), Overlay(copy, at, data);
    SameChecksum(tail, n);
    assert copy[0] == 0x11;
    assert !PageBlank(copy, 0);
    forall i | 0 <= i < EZ8MEM_SIZE
      ensures after[i] == want[i]
    {
      if i < EZ8MEM_PAGESIZE {
        assert i / EZ8MEM_PAGESIZE == 0;
        AndBlank(want[i]);
      } else {
        assert flash[i] == tail[i - 3] == copy[i];
      }
    }
    assert after == want;
    assert want[0] == 0x11;
  }
}
