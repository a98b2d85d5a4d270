/**
 * Two concrete runs of `main`: a firmware table holding one image, and a
 * table file cut short of the length its header claims.
 */
module Scenarios {
  import opened Wrappers
  import opened Bytes
  import opened Layout
  import opened HexName
  import opened Loader
  import opened Walker
  import opened Emitter
  import opened Extract

  /** An image of the integrated GPU with vendor 0x1002 and device 0x1586 and a four-byte payload. */
  function SampleImage(): (img: Image)
    ensures WellFormed(img)
  {
    Image(ImageHeader(0, 0, 0, 0x1002, 0x1586, 0, 0, 0, 4), [0xDE, 0xAD, 0xBE, 0xEF])
  }

  /** Four-digit values print as their four digits. */
  lemma {:induction false} HexFourDigits(a: nat, b: nat, c: nat, d: nat)
    requires 1 <= a < 16 && b < 16 && c < 16 && d < 16
    ensures Hex(a * 0x1000 + b * 0x100 + c * 0x10 + d) == [Digit(a), Digit(b), Digit(c), Digit(d)]
  {
    var n1, n2, n3 := a, a * 0x10 + b, a * 0x100 + b * 0x10 + c;
    var n4 := a * 0x1000 + b * 0x100 + c * 0x10 + d;
    assert Hex(n1) == [Digit(a)];
    assert n2 / 16 == n1 && n2 % 16 == b;
    assert Hex(n2) == [Digit(a), Digit(b)];
    assert n3 / 16 == n2 && n3 % 16 == c;
    assert Hex(n3) == [Digit(a), Digit(b), Digit(c)];
    assert n4 / 16 == n3 && n4 % 16 == d;
  }

  /** The sample image's file is `vbios_1002_1586.bin`. */
  lemma {:induction false} SampleName()
    ensures NameOf(SampleImage()) == "vbios_1002_1586.bin"
  {
    assert Hex(0x1002) == "1002" by {
      HexFourDigits(1, 0, 0, 2);
    }
    assert Hex(0x1586) == "1586" by {
      HexFourDigits(1, 5, 8, 6);
    }
  }

  /** One sample image and four trailing bytes make a 0x70-byte table. */
  lemma {:induction false} SampleTableSize()
    ensures ChainSize([SampleImage()]) == HeaderSize + 4
    ensures PrefixSize + ChainSize([SampleImage()]) + 4 == 0x70
  {
    assert [SampleImage()][1..] == [];
  }

  /** A table holding one well-formed image whose write is complete: exit 0, and the image is in its file. */
  lemma {:induction false} SingleImageExtracted(img: Image, tail: seq<u8>, files: map<string, seq<u8>>, oracle: nat -> FileOp, k: nat)
    requires PrefixSize + ChainSize([img]) + |tail| < U32Modulus
    requires WellFormed(img) && EndsChain(tail) && Complete(oracle(k), img.payload)
    ensures var source := Some(TableImage([img], tail));
      && ExitStatus(source, oracle, k) == 0
      && var out := FilesAfter(source, files, oracle, k);
         NameOf(img) in out && out[NameOf(img)] == img.payload
  {
    var imgs := [img];
    assert forall j :: 0 <= j < |imgs| ==> WellFormed(imgs[j]) && Complete(oracle(k + j), imgs[j].payload);
    TableImageExtracted(imgs, tail, files, oracle, k, 0);
  }

  /**
   * A 0x70-byte table holding that image and four trailing bytes: when the
   * write succeeds `main` exits 0 and `vbios_1002_1586.bin` holds the payload.
   */
  lemma {:induction false} OneImageExtracted(files: map<string, seq<u8>>, oracle: nat -> FileOp, k: nat)
    requires Complete(oracle(k), [0xDE, 0xAD, 0xBE, 0xEF])
    ensures var source := Some(TableImage([SampleImage()], [0, 0, 0, 0]));
      && |source.value| == 0x70
      && ExitStatus(source, oracle, k) == 0
      && var out := FilesAfter(source, files, oracle, k);
         "vbios_1002_1586.bin" in out && out["vbios_1002_1586.bin"] == [0xDE, 0xAD, 0xBE, 0xEF]
  {
    SampleTableSize();
    SampleName();
    SingleImageExtracted(SampleImage(), [0, 0, 0, 0], files, oracle, k);
  }

  /** A table file of 0x60 bytes whose header claims 0x70 is refused before any file is written. */
  lemma {:induction false} TruncatedTableRefused(files: map<string, seq<u8>>, oracle: nat -> FileOp, k: nat)
    ensures var source := Some(EncodePrefix(0x70, PrefixSize) + Zeros(0x14));
      && Records(source) == Err(TruncatedBody)
      && ExitStatus(source, oracle, k) == 1
      && FilesAfter(source, files, oracle, k) == files
  {
    PrefixRoundTrip(0x70, PrefixSize, Zeros(0x14));
  }
}
