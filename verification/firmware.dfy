/**
 * A firmware image and what `Firmware.fromFile` infers from its bytes: the
 * chip it is built for (1 for a Propeller 1, 2 for a Propeller 2) and a
 * description. The inference adds all bytes into a signed `byte`
 * accumulator and calls the image a Propeller 1 image exactly when the
 * accumulator ends at 0x14.
 */
module Firmwares {
  import opened Results
  import opened Bytes

  /** The accumulator value that marks a Propeller 1 image. */
  const P1Checksum := 0x14

  const P1Description := "P8X32A Firmware"
  const P2Description := "P2X8C4M64P Rev B/C Firmware"

  /** The signed `byte` accumulator after adding every byte of `s`. */
  function Checksum(s: seq<Byte>): (c: int)
    ensures -128 <= c < 128
  {
    Signed(ByteSum(s) % 256)
  }

  /** The chip an image is built for. */
  function InferredVersion(image: seq<Byte>): (v: int)
    ensures v == 1 || v == 2
    ensures v == 1 <==> ByteSum(image) % 256 == P1Checksum
  {
    if Checksum(image) == P1Checksum then 1 else 2
  }

  /** The description `fromFile` gives an image of inferred version `version`. */
  function DescriptionOf(version: int): (d: string)
    ensures d == P1Description <==> version == 1
  {
    if version == 1 then P1Description else P2Description
  }

  /** Adding one more byte to the accumulator, with Java's narrowing cast. */
  lemma ChecksumStep(s: seq<Byte>, b: Byte)
    ensures Checksum(s + [b]) == ToSignedByte(Checksum(s) + Signed(b))
  {
    var t := s + [b];
    assert t[..|t| - 1] == s;
    var x := ByteSum(s);
    assert ByteSum(t) == x + b;
    SignedStep(x, b);
  }

  /** The narrowing step on the sums themselves. */
  lemma SignedStep(x: int, b: Byte)
    ensures Signed((x + b) % 256) == ToSignedByte(Signed(x % 256) + Signed(b))
  {
    var r: Byte := x % 256;
    SignedCongruent(r, b);
    assert (r + b) % 256 == (x + b) % 256;
  }

  lemma SignedCongruent(r: Byte, b: Byte)
    ensures (Signed(r) + Signed(b)) % 256 == (r + b) % 256
  {
  }

  /** The byte sum of two images laid end to end. */
  lemma {:induction false} ByteSumAppend(a: seq<Byte>, b: seq<Byte>)
    ensures ByteSum(a + b) == ByteSum(a) + ByteSum(b)
    decreases |b|
  {
    if b == [] {
      assert a + b == a;
    } else {
      var c := a + b;
      assert c[..|c| - 1] == a + b[..|b| - 1];
      ByteSumAppend(a, b[..|b| - 1]);
    }
  }

  /** The inference only looks at the sum: the order of the parts does not matter. */
  lemma InferredVersionSwap(a: seq<Byte>, b: seq<Byte>)
    ensures InferredVersion(a + b) == InferredVersion(b + a)
  {
    ByteSumAppend(a, b);
    ByteSumAppend(b, a);
  }

  /** One appended byte can always make an image read as a Propeller 1 image. */
  lemma MarkAsP1(image: seq<Byte>, b: Byte)
    requires b == (P1Checksum - ByteSum(image)) % 256
    ensures InferredVersion(image + [b]) == 1
  {
    var t := image + [b];
    assert t[..|t| - 1] == image;
    var x := ByteSum(image);
    assert ByteSum(t) == x + b;
    Complement(x, b);
  }

  lemma Complement(x: int, b: int)
    requires b == (P1Checksum - x) % 256
    ensures (x + b) % 256 == P1Checksum
  {
    var k := (P1Checksum - x) / 256;
    assert x + b == P1Checksum - 256 * k;
  }

  class Firmware {
    var description: Option<string>
    var binaryVersion: int
    /** The image; Java's `byte[]` reference, `null` until set. */
    var binaryImage: array?<Byte>

    /** Java `Firmware()`: every field left at its default. */
    constructor Empty()
      ensures description == None && binaryVersion == 0 && binaryImage == null
    {
      description := None;
      binaryVersion := 0;
      binaryImage := null;
    }

    /** Java `Firmware(binaryVersion, binaryImage, description)`: the fields as given. */
    constructor (binaryVersion: int, binaryImage: array?<Byte>, description: Option<string>)
      ensures this.binaryVersion == binaryVersion && this.binaryImage == binaryImage
      ensures this.description == description
    {
      this.binaryVersion := binaryVersion;
      this.binaryImage := binaryImage;
      this.description := description;
    }

    method SetDescription(description: Option<string>)
      modifies this
      ensures this.description == description
      ensures binaryVersion == old(binaryVersion) && binaryImage == old(binaryImage)
    {
      this.description := description;
    }

    method SetBinaryVersion(binaryVersion: int)
      modifies this
      ensures this.binaryVersion == binaryVersion
      ensures description == old(description) && binaryImage == old(binaryImage)
    {
      this.binaryVersion := binaryVersion;
    }

    method SetBinaryImage(binaryImage: array?<Byte>)
      modifies this
      ensures this.binaryImage == binaryImage
      ensures description == old(description) && binaryVersion == old(binaryVersion)
    {
      this.binaryImage := binaryImage;
    }
  }

  /** The accumulator loop of `fromFile`. */
  method ImageChecksum(image: array<Byte>) returns (checksum: int)
    ensures checksum == Checksum(image[..])
    ensures checksum == P1Checksum <==> ByteSum(image[..]) % 256 == P1Checksum
  {
    checksum := 0;
    for i := 0 to image.Length
      invariant checksum == Checksum(image[..i])
    {
      ChecksumStep(image[..i], image[i]);
      assert image[..i + 1] == image[..i] + [image[i]];
      checksum := ToSignedByte(checksum + Signed(image[i]));
    }
    assert image[..] == image[..image.Length];
  }

  /**
   * Java `fromFile` once the file's bytes are in hand: a new firmware holding
   * the same array, the inferred version and its description.
   */
  method FromImage(image: array<Byte>) returns (f: Firmware)
    ensures fresh(f) && f.binaryImage == image
    ensures f.binaryVersion == InferredVersion(image[..])
    ensures f.description == Some(DescriptionOf(f.binaryVersion))
  {
    var checksum := ImageChecksum(image);
    var binaryVersion := if checksum == P1Checksum then 1 else 2;
    var description := if binaryVersion == 1 then P1Description else P2Description;
    f := new Firmware(binaryVersion, image, Some(description));
  }
}
