/**
 The image file of a secure container: its size in unsigned 32-bit arithmetic, where the
 superblock goes when it is created, and where mounting looks for it (createAsec and
 mountAsec in VolumeManager.cpp, createImageFile and lookupInfo in Loop.cpp). A file
 offset is a signed 32-bit number.
 */
module AsecImage {
  import opened Basics

  const MAGIC := 0xc0def00d
  const VERSION := 1

  // (numSectors * 4 / 512 + 1) * 2, for two FATs of four bytes a cluster
  function FatSectors(n: u32): u32 { U32((U32(n * 4) / 512 + 1) * 2) }

  // The sectors of the image without its superblock: a whole number of tracks
  function ImageSectors(n: u32): u32 {
    var img := U32(U32(n + FatSectors(n)) + 2);
    if img % 63 != 0 then U32(img + (63 - img % 63)) else img
  }

  const SECTORS_PER_MIB := 2048

  // For every size in MiB that the arithmetic carries without wrap-around: a multiple of
  // 63 that has room for the data, both FATs and two sectors more, with less than a track
  // to spare.
  lemma SizeIsRight(m: nat)
    requires 1 <= m < 0x8_0000
    ensures var n := SECTORS_PER_MIB * m; var img := ImageSectors(n);
            && img % 63 == 0
            && FatSectors(n) / 2 * 512 > n * 4
            && n + FatSectors(n) + 2 <= img < n + FatSectors(n) + 2 + 63
  {
    var n := SECTORS_PER_MIB * m;
    FatIs(m);
    Unwrapped(n + FatSectors(n));
    Rounded(2080 * m + 4);
  }

  lemma Unwrapped(n: nat)
    requires n < 0x1_0000_0000 - 2
    ensures U32(U32(n) + 2) == n + 2
  {
  }

  // The rounding of createAsec does not wrap for such sizes.
  lemma Rounded(k: nat)
    requires k < 0x1_0000_0000 - 63
    ensures var r := if k % 63 != 0 then U32(k + (63 - k % 63)) else k;
            r % 63 == 0 && k <= r < k + 63
  {
    Rounding(k);
  }

  // With its superblock it stays under 2^31 bytes exactly up to 2016 MiB.
  lemma SizeFitsIff(m: nat)
    requires 1 <= m < 0x8_0000
    ensures (ImageSectors(SECTORS_PER_MIB * m) + 1) * 512 < 0x8000_0000 <==> m <= 2016
  {
    SizeIsRight(m);
    FatIs(m);
  }

  lemma FatIs(m: nat)
    requires 1 <= m < 0x8_0000
    ensures FatSectors(SECTORS_PER_MIB * m) == 32 * m + 2
  {
    assert U32(8192 * m) == 8192 * m && 8192 * m / 512 == 16 * m;
  }

  lemma Rounding(k: nat)
    ensures var r := if k % 63 != 0 then k + (63 - k % 63) else k;
            r % 63 == 0 && k <= r < k + 63
  {
  }

  // ---- The file

  // Its length in bytes, as the code computes it
  function End(img: u32): u32 { U32((img + 1) * 512) }

  // One sector: zeros, a superblock, or anything else
  datatype Sector = Zero | Super(magic: int, ver: int, opts: int) | Data(x: int)

  function Zeros(n: nat): (s: seq<Sector>)
    ensures |s| == n && forall i :: 0 <= i < n ==> s[i] == Zero
  {
    seq(n, _ => Zero)
  }

  class ImageFile {
    var sectors: seq<Sector>  // as seen through its loop device

    constructor ()
      ensures sectors == []
    {
      sectors := [];
    }

    // createImageFile: ftruncate refuses a negative length.
    method CreateImageFile(numSectors: u32) returns (rc: int)
      modifies this
      ensures rc == if U32(numSectors * 512) < 0x8000_0000 then 0 else -1
      ensures sectors == if rc == 0 then Zeros(U32(numSectors * 512) / 512) else old(sectors)
    {
      var length := I32(U32(numSectors * 512));
      if length < 0 {
        return -1;
      }
      sectors := Zeros(length / 512);
      return 0;
    }

    // lseek and write, or lseek and read, of the superblock at the start of a sector
    method WriteAt(at: u32, sb: Sector) returns (rc: int)
      modifies this
      ensures rc == if at < 0x8000_0000 && at / 512 < |old(sectors)| then 0 else -1
      ensures sectors == if rc == 0 then old(sectors)[at / 512 := sb] else old(sectors)
    {
      if I32(at) < 0 || at / 512 >= |sectors| {
        return -1;
      }
      sectors := sectors[at / 512 := sb];
      return 0;
    }

    // The part of createAsec that makes the image, with its calls going through
    method Create(numSectors: u32, opts: int) returns (rc: int)
      requires sectors == []
      modifies this
      ensures rc == 0 <==> 0 < End(ImageSectors(numSectors)) < 0x8000_0000
      ensures rc == 0 ==>
                && |sectors| == End(ImageSectors(numSectors)) / 512 > 0
                && sectors == Zeros(|sectors| - 1) + [Super(MAGIC, VERSION, opts)]
    {
      rc := CreateSized(ImageSectors(numSectors), opts);
    }

    method CreateSized(img: u32, opts: int) returns (rc: int)
      requires sectors == []
      modifies this
      ensures rc == 0 <==> 0 < End(img) < 0x8000_0000
      ensures rc == 0 ==>
                && |sectors| == End(img) / 512 > 0
                && sectors == Zeros(|sectors| - 1) + [Super(MAGIC, VERSION, opts)]
    {
      WhereTheEndIs(img);
      rc := CreateImageFile(U32(img + 1));
      if rc == 0 {
        rc := WriteSuperblock(U32(img * 512), End(img), opts);
      }
    }

    // At a place one sector before the (wrapped) end
    method WriteSuperblock(at: u32, ghost end: u32, opts: int) returns (rc: int)
      requires sectors == Zeros(end / 512) && at == (if end == 0 then 0x1_0000_0000 else end) - 512
      requires at % 512 == 0 && end < 0x8000_0000
      modifies this
      ensures rc == if end > 0 then 0 else -1
      ensures rc == 0 ==> |sectors| == end / 512 > 0 && sectors == Zeros(|sectors| - 1) + [Super(MAGIC, VERSION, opts)]
    {
      rc := WriteAt(at, Super(MAGIC, VERSION, opts));
    }

    // lookupInfo, and the checks and the decrement of mountAsec: what is found where the
    // last sector should be, and how long the dm device is to be
    method Mount() returns (rc: int, opts: int, length: int)
      requires |sectors| < 0x1_0000_0000
      ensures rc == if SuperblockIn(sectors) then 0 else -1
      ensures rc == 0 ==> opts == sectors[Looked(|sectors|)].opts && length == |sectors| - 1
    {
      var nrSec := |sectors|;
      var at := I32(U32(U32(nrSec - 1) * 512));
      WrapsIff(U32(nrSec - 1));
      if at < 0 {
        return -1, 0, 0;
      }
      var sb := sectors[at / 512];
      if !Valid(sb) {
        return -1, 0, 0;
      }
      return 0, sb.opts, nrSec - 1;
    }
  }

  predicate Valid(sb: Sector) {
    sb.Super? && sb.magic == MAGIC && sb.ver == VERSION
  }

  function Looked(n: nat): nat
    requires n > 0
  {
    U32((n - 1) * 512) / 512
  }

  predicate SuperblockIn(s: seq<Sector>) {
    |s| > 0 && U32((|s| - 1) * 512) < 0x8000_0000 && Valid(s[Looked(|s|)])
  }

  // The superblock starts one sector before the end, also when the multiplication wraps.
  lemma WhereTheEndIs(img: u32)
    ensures U32(U32(img + 1) * 512) == End(img)
    ensures U32(img * 512) == (if End(img) == 0 then 0x1_0000_0000 else End(img)) - 512
    ensures U32(img * 512) % 512 == 0
  {
    var q, r := img / 0x80_0000, img % 0x80_0000;
    Wrapped(img * 512, q, r * 512);
    if r + 1 < 0x80_0000 {
      Wrapped((img + 1) * 512, q, (r + 1) * 512);
    } else {
      Wrapped((img + 1) * 512, q + 1, 0);
    }
    if img + 1 == 0x1_0000_0000 {
      assert End(img) == 0;
    }
  }

  lemma Wrapped(n: int, q: int, r: u32)
    requires n == q * 0x1_0000_0000 + r
    ensures U32(n) == r
  {
  }

  lemma WrapsIff(img: u32)
    ensures End(img) == (img + 1) * 512 <==> img + 1 < 0x80_0000
    ensures U32(img * 512) / 512 <= img && (img < 0x80_0000 ==> U32(img * 512) == img * 512)
  {
  }

  // Of the sizes a request can ask for without overflow, those up to 2016 MiB are created.
  lemma MibIsCreatedIff(m: nat)
    requires 1 <= m < 2048
    ensures var img := ImageSectors(SECTORS_PER_MIB * m);
            && (0 < End(img) < 0x8000_0000 <==> m <= 2016)
            && img + 1 < 0x80_0000
  {
    SizeIsRight(m);
    FatIs(m);
    SizeFitsIff(m);
    WrapsIff(ImageSectors(SECTORS_PER_MIB * m));
  }

  // What is created is found again, with its options; and mounting gives the dm device the
  // length creating gave it, exactly if the size did not wrap around.
  method CreateThenMount(numSectors: u32, options: int) returns (created: int, mounted: int, opts: int, length: int)
    ensures created == 0 ==> mounted == 0 && opts == options
    ensures created == 0 ==> (length == ImageSectors(numSectors) <==> ImageSectors(numSectors) + 1 < 0x80_0000)
  {
    mounted, opts, length := -1, 0, 0;
    var image := new ImageFile();
    created := image.Create(numSectors, options);
    if created == 0 {
      WrapsIff(ImageSectors(numSectors));
      WrapsIff(|image.sectors| - 1);
      mounted, opts, length := image.Mount();
    }
  }
}
