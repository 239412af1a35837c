/** Reading the inventory again: the shared request keeps the offset of the last
    block read, and the next call reads the common header there. */
module FruRepeat {
  import opened Common
  import opened FruText
  import opened FruWalk
  import opened FruReader

  /** A call that comes to the product area leaves the request where the next
      one reads the header in its place only if the product area starts there
      too and takes one block. */
  lemma LeftAtHeaderIff(image: seq<byte>, e: nat)
    requires e + 8 <= |image| && Start(image, e) + 2 <= |image| && Length(image, Start(image, e)) >= 1
    ensures Left(image, e) == 0 <==> Start(image, e) == 0 && Length(image, Start(image, e)) <= 16
  {
  }

  /** The second call of a parser looks for the product area inside the product
      area, in the fifth byte of its last block. It finds it exactly if that byte
      agrees with the one in the header, up to the bits the byte product drops.
      If so it makes the same of it and leaves the request as it was, so that
      every later call does. */
  lemma SecondCallIff(image: seq<byte>, start: byte, length: byte, running: bool, n: nat)
    requires |image| >= 8 && start + 2 <= |image| && start + length <= |image|
    requires start == Start(image, 0) && length == Length(image, start) && length >= 1
    ensures var left := Left(image, 0);
      && left == start + LastBlock(length) && left + 8 <= start + length
      && (Start(image, left) == start <==> image[left + 4] % 32 == image[4] % 32)
      && (image[left + 4] % 32 == image[4] % 32 ==>
           Left(image, left) == left && InventoryOf(image, left, n, running) == InventoryOf(image, 0, n, running))
  {
    hide FieldsFrom, LastBlock, Assembled, TimesEight;
    EightDivides(image[start + 1]);
    var left := Left(image, 0);
    SameProductIff(image[left + 4], image[4]);
  }

  lemma EightDivides(b: byte)
    ensures TimesEight(b) % 8 == 0
  {
  }

  lemma SameProductIff(a: byte, b: byte)
    ensures TimesEight(a) == TimesEight(b) <==> a % 32 == b % 32
  {
    assert TimesEight(a) == a % 32 * 8 && TimesEight(b) == b % 32 * 8;
  }

  lemma ProductIsStored(image: seq<byte>, head: seq<byte>, fs: seq<Field>, rest: seq<byte>, area: seq<byte>)
    requires StoresProduct(image, head, fs, rest) && |fs| >= 5 && area == head + EncodeAll(fs) + rest
    ensures |image| >= 8 && image[4] < 32 && |area| >= |head| == 3
    ensures var start := TimesEight(image[4]) as int;
      && start == 8 * image[4] as int && start + |area| <= |image| && image[start..start + |area|] == area
      && Length(image, start) == |area| == TimesEight(head[1])
  {
    hide EncodeAll, TimesEight;
    SmallProduct(image[4]);
    SmallProduct(head[1]);
    var start := TimesEight(image[4]) as int;
    assert area[1] == head[1];
    assert image[start + 1] == image[start..start + |area|][1];
  }

  lemma SmallProduct(b: byte)
    requires b < 32
    ensures TimesEight(b) == 8 * b as int && b % 32 == b
  {
  }

  /** So of a FRU that stores a product area behind its header no second call
      reads the header, and it finds the area again exactly under that condition
      on the bytes stored; then it reports the product again. */
  lemma SecondInventoryIff(image: seq<byte>, head: seq<byte>, fs: seq<Field>, rest: seq<byte>, area: seq<byte>,
                           running: bool, n: nat)
    requires StoresProduct(image, head, fs, rest) && |fs| >= 5 && area == head + EncodeAll(fs) + rest
    requires n >= Blocks(|area|)
    ensures Start(image, 0) + 2 <= |image| && Length(image, Start(image, 0)) >= 1 && |area| >= 1
    ensures var left := Left(image, 0);
      && left == 8 * image[4] as int + LastBlock(|area|) && left + 8 <= |image| && (image[4] >= 1 ==> left >= 8)
    ensures LastBlock(|area|) + 8 <= |area|
    ensures var left, taken := Left(image, 0), area[LastBlock(|area|) + 4];
      && (Start(image, left) == 8 * image[4] as int <==> taken % 32 == image[4])
      && (taken % 32 == image[4] ==> InventoryOf(image, left, n, running) == Ok(Named(fs, running)))
  {
    hide FieldsFrom, Named, EncodeAll, LastBlock, Assembled, Blocks, InventoryOf, StoresProduct, Length, TimesEight, Left;
    ProductIsStored(image, head, fs, rest, area);
    InventoryOfProduct(image, head, fs, rest, area, running, n);
    EightDivides(head[1]);
    SmallProduct(image[4]);
    var start := Start(image, 0);
    SecondCallIff(image, start, |area|, running, n);
    assert image[Left(image, 0) + 4] == area[LastBlock(|area|) + 4];
  }

  lemma InventoryOfProduct(image: seq<byte>, head: seq<byte>, fs: seq<Field>, rest: seq<byte>, area: seq<byte>,
                           running: bool, n: nat)
    requires StoresProduct(image, head, fs, rest) && |fs| >= 5 && area == head + EncodeAll(fs) + rest
    requires n >= Blocks(|area|)
    ensures Start(image, 0) + 2 <= |image|
    ensures InventoryOf(image, 0, n, running) == Ok(Named(fs, running))
  {
    hide FieldsFrom, Named, EncodeAll, InventoryOf, Blocks;
    InventoryIsProduct(image, head, fs, rest, running, n);
  }

  /** A FRU of which the first call gives an inventory and the second one an
      error. */
  lemma SecondCallExample()
    ensures var image: seq<byte> :=
        [1, 0, 0, 0, 1, 0, 0, 0xFE, 1, 1, 0x19, 0xC1, 0x40, 0xC0, 0xC0, 0xC0];
      && Start(image, 0) == 8 && Length(image, 8) == 8 && InventoryOf(image, 0, 1, true).Ok?
      && var left := 8 + LastBlock(8);
         left == 8 && Start(image, left) == 0 && InventoryOf(image, left, 1, true) == Err(BadProductSize)
  {
    hide FieldsFrom, Assembled;
  }
}
