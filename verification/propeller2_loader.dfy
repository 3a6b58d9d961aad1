/** The Propeller 2 serial loader: probing for the chip and downloading an image into RAM or flash. */
module P2Loader {
  import opened Results
  import opened Bytes
  import opened Text
  import opened Base64
  import opened Port
  import opened P2Image

  const UploadBaud := 2000000
  const ResetDelay := 15
  const LineTimeout := 50
  const VerifyTimeout := 10000

  /** The reply to the `Prop_Chk` probe names a Propeller 2: its second line starts with "Prop_Ver ". */
  predicate ChipFound(rx: seq<Rx>)
  {
    var reply := SecondLine(rx);
    reply.line.Ok? && StartsWith(reply.line.value, VersionPrefix)
  }

  /** The verdict of the byte that answers a download: only '.' accepts it. */
  function Acknowledge(x: Rx): (o: Outcome)
    ensures o == Pass <==> x == Got('.' as int)
    ensures x == Timeout ==> o == Fail("Timeout")
    ensures x.Got? && x.b != '.' as int ==> o == Fail("Checksum error")
    ensures x == Fault ==> o == Fail(PortFault)
  {
    match x
    case Fault => Fail(PortFault)
    case Timeout => Fail("Timeout")
    case Got(b) => if b == '.' as int then Pass else Fail("Checksum error")
  }

  /** A `try ... finally close` block: an exception from the close replaces the body's outcome. */
  function Finally(body: Outcome, close: Outcome): (o: Outcome)
    ensures close == Pass ==> o == body
    ensures close.Fail? ==> o == close
  {
    if close.Fail? then close else body
  }

  /** The four `(byte) (w >> 8 * i)` stores at offsets `k` to `k + 3`. */
  method PutWordInto(a: array<Byte>, k: nat, w: int)
    requires k + 4 <= a.Length
    modifies a
    ensures a[..] == PutWord(old(a[..]), k, w)
  {
    var b := LittleEndian(w);
    a[k] := b[0];
    a[k + 1] := b[1];
    a[k + 2] := b[2];
    a[k + 3] := b[3];
    assert a[..] == old(a[..])[..k] + b + old(a[..])[k + 4..];
  }

  /** The word at `n`, read byte by byte as the loops do. */
  method WordFrom(a: array<Byte>, n: nat) returns (data: int)
    requires n < a.Length
    ensures data == WordAt(a[..], n)
  {
    data := a[n];
    if n + 1 < a.Length {
      data := data + (a[n + 1] as int) * 0x100;
      if n + 2 < a.Length {
        data := data + (a[n + 2] as int) * 0x1_0000;
        if n + 3 < a.Length {
          data := data + (a[n + 3] as int) * 0x100_0000;
        }
      }
    }
  }

  /** The 32-bit wrapping sum of the little-endian words of `a`. */
  method WordSumOf(a: array<Byte>) returns (sum: int)
    ensures sum == WordSum(a[..])
  {
    sum := 0;
    var n := 0;
    while n < a.Length
      invariant n % 4 == 0 && n <= RoundUp4(a.Length)
      invariant sum == WordSumBelow(a[..], n)
    {
      RoundUp4Bounds(n, a.Length);
      WordSumBelowStep(a[..], n);
      var data := WordFrom(a, n);
      sum := (sum + data) % U32;
      n := n + 4;
    }
    RoundUp4Bounds(n, a.Length);
  }

  /** `new byte[length]` followed by `System.arraycopy` of the image to its start. */
  method CopyInto(binaryImage: array<Byte>, length: nat) returns (image: array<Byte>)
    requires binaryImage.Length <= length
    ensures fresh(image) && image[..] == binaryImage[..] + Zeros(length - binaryImage.Length)
  {
    image := new Byte[length](_ => 0);
    forall i | 0 <= i < binaryImage.Length {
      image[i] := binaryImage[i];
    }
    assert image[..] == binaryImage[..] + Zeros(length - binaryImage.Length);
  }

  /** A fresh copy of the image with room for the checksum word, which is filled in. */
  method PrepareImage(binaryImage: array<Byte>) returns (image: array<Byte>)
    ensures fresh(image) && image[..] == Prepared(binaryImage[..])
  {
    ghost var s := binaryImage[..];
    var sum := WordSumOf(binaryImage);
    sum := (Magic - sum) % U32;
    assert sum == Checksum(s);

    var length := (binaryImage.Length + 7) / 4 * 4;
    assert length == PreparedLength(|s|);
    image := CopyInto(binaryImage, length);
    PutWordInto(image, length - 4, sum);
    PreparedByPatch(s);
  }

  class Propeller2Loader {
    const comPort: ComPort
    /** The flash sub-loader that is sent ahead of an image destined for flash. */
    const flashLoader: seq<Byte>

    constructor (comPort: ComPort, flashLoader: seq<Byte>)
      ensures this.comPort == comPort && this.flashLoader == flashLoader
    {
      this.comPort := comPort;
      this.flashLoader := flashLoader;
    }

    /**
     * Pulses reset, sends the probe, drops the first reply line and reports 2
     * when the second starts with "Prop_Ver ", 0 otherwise.
     */
    method Hwfind() returns (r: Result<int>)
      modifies comPort
      ensures r.Ok? <==> SecondLine(old(comPort.rx)).line.Ok?
      ensures r.Err? ==> r == Err(PortFault)
      ensures r.Ok? ==> r.value == (if ChipFound(old(comPort.rx)) then 2 else 0)
      ensures comPort.rx == SecondLine(old(comPort.rx)).rest
      ensures comPort.log == old(comPort.log) + [PortEvent.HwReset(ResetDelay), WroteString(ProbeCommand)]
      ensures comPort.isOpen == old(comPort.isOpen)
    {
      comPort.HwReset(ResetDelay);
      comPort.WriteString(ProbeCommand);
      var first := ReadStringWithTimeout(comPort, LineTimeout);
      if first.Err? {
        return Err(first.message);
      }
      var result := ReadStringWithTimeout(comPort, LineTimeout);
      if result.Err? {
        return Err(result.message);
      }
      if StartsWith(result.value, VersionPrefix) {
        return Ok(2);
      }
      return Ok(0);
    }

    /** Waits for the byte that answers a download. */
    method VerifyRam() returns (r: Outcome)
      modifies comPort
      ensures r == Acknowledge(Next(old(comPort.rx)))
      ensures comPort.rx == Rest(old(comPort.rx))
      ensures comPort.log == old(comPort.log) && comPort.isOpen == old(comPort.isOpen)
    {
      var rc := comPort.ReadByteWithTimeout(VerifyTimeout);
      if rc.Fault? {
        return Fail(PortFault);
      }
      if rc == Timeout {
        return Fail("Timeout");
      }
      if rc.b != '.' as int {
        return Fail("Checksum error");
      }
      return Pass;
    }

    /**
     * Appends the checksum word to the image and sends it as `Prop_Txt`
     * Base64 text in prompted slices of 64 characters.
     */
    method Base64Upload(binaryImage: array<Byte>)
      modifies comPort
      ensures comPort.log == old(comPort.log) + TxtStream(binaryImage[..])
      ensures comPort.rx == old(comPort.rx) && comPort.isOpen == old(comPort.isOpen)
    {
      var image := PrepareImage(binaryImage);
      comPort.WriteString(TxtHeader);
      var encodedImage := Encode(image[..]);
      SendSlices(encodedImage);
      comPort.WriteString(VerifyRequest);
    }

    /** Sends the text in slices of 64 characters, each after a prompt. */
    method SendSlices(encodedImage: string)
      modifies comPort
      ensures comPort.log == old(comPort.log) + Frames(Slices(encodedImage))
      ensures comPort.rx == old(comPort.rx) && comPort.isOpen == old(comPort.isOpen)
    {
      var n := 0;
      ghost var sent: seq<string> := [];
      while n < |encodedImage|
        invariant Slices(encodedImage) == sent + SlicesFrom(encodedImage, n)
        invariant comPort.log == old(comPort.log) + Frames(sent)
        invariant comPort.rx == old(comPort.rx) && comPort.isOpen == old(comPort.isOpen)
        decreases |encodedImage| - n
      {
        var len := if |encodedImage| - n < SliceLength then |encodedImage| - n else SliceLength;
        var slice := encodedImage[n..n + len];
        comPort.WriteString(SlicePrompt);
        comPort.WriteString(slice);
        assert (sent + [slice])[..|sent|] == sent;
        sent := sent + [slice];
        n := n + SliceLength;
      }
      assert sent == Slices(encodedImage);
    }

    /**
     * Sends the image as `Prop_Hex` text: each word as four hexadecimal bytes,
     * a new prompted line every 64 bytes, then the checksum word and " ?".
     */
    method HexUpload(binaryImage: array<Byte>)
      modifies comPort
      ensures comPort.log == old(comPort.log) + HexStream(binaryImage[..])
      ensures comPort.rx == old(comPort.rx) && comPort.isOpen == old(comPort.isOpen)
    {
      ghost var s, pre := binaryImage[..], comPort.log;
      comPort.WriteString(HexHeader);
      var sum := SendHexWords(binaryImage);
      HexChecksum(s, sum);
      sum := (Magic - sum) % U32;
      comPort.WriteString(HexWord(sum) + VerifyRequest);
      HexStreamParts(pre, s);
    }

    /** The loop of `hexUpload`: every word of the image as hex text, and their 32-bit sum. */
    method SendHexWords(binaryImage: array<Byte>) returns (sum: int)
      modifies comPort
      ensures sum == WordSum(binaryImage[..])
      ensures comPort.log == old(comPort.log) + HexLines(binaryImage[..], RoundUp4(binaryImage.Length) / 4)
      ensures comPort.rx == old(comPort.rx) && comPort.isOpen == old(comPort.isOpen)
    {
      ghost var s := binaryImage[..];
      ghost var pre := comPort.log;
      sum := 0;
      var n := 0;
      ghost var k := 0;
      while n < binaryImage.Length
        invariant n == 4 * k && n % 4 == 0 && n <= RoundUp4(|s|)
        invariant sum == WordSumBelow(s, n)
        invariant comPort.log == pre + HexLines(s, k)
        invariant comPort.rx == old(comPort.rx) && comPort.isOpen == old(comPort.isOpen)
        decreases |s| - n
      {
        sum := SendHexWord(binaryImage, n, k, pre, sum);
        n := n + 4;
        k := k + 1;
      }
      RoundUp4Bounds(n, |s|);
      assert n == RoundUp4(|s|) && k == RoundUp4(|s|) / 4;
    }

    /** One round of `hexUpload`'s loop: the word at offset `n` is read and written as hex text. */
    method SendHexWord(binaryImage: array<Byte>, n: nat, ghost k: nat, ghost pre: seq<PortEvent>, sum: int) returns (sum': int)
      requires n == 4 * k && n % 4 == 0 && n < binaryImage.Length
      requires sum == WordSumBelow(binaryImage[..], n)
      requires comPort.log == pre + HexLines(binaryImage[..], k)
      modifies comPort
      ensures n + 4 <= RoundUp4(binaryImage.Length) && (n + 4) % 4 == 0
      ensures sum' == WordSumBelow(binaryImage[..], n + 4)
      ensures comPort.log == pre + HexLines(binaryImage[..], k + 1)
      ensures comPort.rx == old(comPort.rx) && comPort.isOpen == old(comPort.isOpen)
    {
      ghost var s := binaryImage[..];
      RoundUp4Bounds(n, |s|);
      var data := WordFrom(binaryImage, n);
      sum' := (sum + data) % U32;
      WordSumBelowStep(s, n);
      HexLinesNext(s, k);
      WriteHexLine(n, data);
      AppendAssoc(pre, HexLines(s, k), HexLine(n, LittleEndian(data)));
    }

    /** The writes for one word of `hexUpload`: a prompt every 64 bytes, then the word's four bytes. */
    method WriteHexLine(n: nat, data: int)
      modifies comPort
      ensures comPort.log == old(comPort.log) + HexLine(n, LittleEndian(data))
      ensures comPort.rx == old(comPort.rx) && comPort.isOpen == old(comPort.isOpen)
    {
      if n > 0 && n % 64 == 0 {
        comPort.WriteString(HexPrompt);
      }
      comPort.WriteString(HexWord(data));
    }

    /** What `bufferUpload` sends for an image: the image itself, or wrapped by the flash sub-loader. */
    function Payload(kind: int, s: seq<Byte>): seq<Byte>
      requires kind == RunFlash ==> |flashLoader| >= 12
    {
      if kind == RunFlash then FlashImage(flashLoader, s) else s
    }

    /**
     * Downloads an image and waits for the verdict; for flash the image is first
     * appended to the sub-loader, whose length and checksum words are patched.
     */
    method BufferUpload(kind: int, binaryImage: array<Byte>) returns (r: Outcome)
      requires kind == RunFlash ==> |flashLoader| >= 12
      modifies comPort
      ensures comPort.log == old(comPort.log) + TxtStream(Payload(kind, binaryImage[..]))
      ensures r == Acknowledge(Next(old(comPort.rx))) && comPort.rx == Rest(old(comPort.rx))
      ensures comPort.isOpen == old(comPort.isOpen)
    {
      var image := binaryImage;
      if kind == RunFlash {
        image := BuildFlashImage(binaryImage);
      }
      Base64Upload(image);
      r := VerifyRam();
    }

    /** The sub-loader followed by the image, zero-filled to whole words, in a new array. */
    method CombineImages(binaryImage: array<Byte>) returns (loaderImage: array<Byte>)
      ensures fresh(loaderImage) && loaderImage[..] == Combined(flashLoader, binaryImage[..])
    {
      loaderImage := new Byte[|flashLoader| + (binaryImage.Length + 3) / 4 * 4](_ => 0);
      forall i | 0 <= i < |flashLoader| {
        loaderImage[i] := flashLoader[i];
      }
      forall i | 0 <= i < binaryImage.Length {
        loaderImage[|flashLoader| + i] := binaryImage[i];
      }
      assert loaderImage[..] == Combined(flashLoader, binaryImage[..]);
    }

    /**
     * The flash branch of `bufferUpload`: the sub-loader and the zero-filled
     * image in a new array, its length patched in at byte 8, then the negated
     * word sum at byte 4.
     */
    method BuildFlashImage(binaryImage: array<Byte>) returns (loaderImage: array<Byte>)
      requires |flashLoader| >= 12
      ensures fresh(loaderImage) && loaderImage[..] == FlashImage(flashLoader, binaryImage[..])
    {
      ghost var s := binaryImage[..];
      ghost var withLength := WithLength(flashLoader, s);
      loaderImage := CombineImages(binaryImage);
      PutWordInto(loaderImage, 8, loaderImage.Length);
      assert loaderImage[..] == withLength;
      var sum := WordSumOf(loaderImage);
      ghost var target := PutWord(withLength, 4, -sum);
      assert target == FlashImage(flashLoader, s);
      PutWordInto(loaderImage, 4, -sum);
      assert loaderImage[..] == target;
      assert binaryImage[..] == s;
    }

    /**
     * Opens the port, looks for the chip and downloads the image; the port is
     * closed on every path, and an exception from the close replaces any other.
     */
    method Upload(binaryImage: array<Byte>, writeFlash: bool) returns (r: Outcome)
      requires !comPort.isOpen
      requires writeFlash ==> |flashLoader| >= 12
      modifies comPort
      ensures !comPort.isOpen
      ensures r == Pass <==>
        comPort.available && ChipFound(old(comPort.rx)) && Next(SecondLine(old(comPort.rx)).rest) == Got('.' as int)
      ensures !comPort.available ==> r == Fail(NotOpened) && comPort.log == old(comPort.log)
      ensures comPort.available && SecondLine(old(comPort.rx)).line.Ok? && !ChipFound(old(comPort.rx)) ==>
        r == Fail("No propeller chip on port " + comPort.portName)
      ensures comPort.available ==>
        comPort.log == old(comPort.log)
        + [Opened, Params(UploadBaud), PortEvent.HwReset(ResetDelay), WroteString(ProbeCommand)]
        + (if ChipFound(old(comPort.rx))
           then TxtStream(Payload(if writeFlash then RunFlash else RunRam, binaryImage[..]))
           else [])
        + [Closed]
    {
      ghost var probed := old(comPort.log) + [Opened, Params(UploadBaud), PortEvent.HwReset(ResetDelay), WroteString(ProbeCommand)];
      var open := comPort.OpenPort();
      if open.Fail? {
        var closed := comPort.ClosePort();
        return Finally(open, closed);
      }
      comPort.SetParams(UploadBaud);
      var rc := Hwfind();
      assert comPort.log == probed;
      if rc.Err? {
        var closed := comPort.ClosePort();
        return Finally(Fail(rc.message), closed);
      }
      if rc.value == 0 {
        var closed := comPort.ClosePort();
        return Finally(Fail("No propeller chip on port " + comPort.portName), closed);
      }
      r := BufferUpload(if writeFlash then RunFlash else RunRam, binaryImage);
      var closed := comPort.ClosePort();
      r := Finally(r, closed);
    }
  }
}
