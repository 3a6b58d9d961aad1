/**
 * What the Propeller 2 loader sends: the checksummed RAM image, its Base64
 * framing for `Prop_Txt`, its hexadecimal framing for `Prop_Hex`, and the
 * image the flash sub-loader is wrapped into.
 */
module P2Image {
  import opened Results
  import opened Bytes
  import opened Text
  import opened Base64
  import opened Port

  /** The word the ROM wants the sum of a downloaded image to come to ("Prop" in ASCII). */
  const Magic := 0x706F7250
  const RunRam := 0
  const RunFlash := 1
  const ProbeCommand := "> \r> Prop_Chk 0 0 0 0\r"
  const TxtHeader := "> Prop_Txt 0 0 0 0"
  const HexHeader := "> Prop_Hex 0 0 0 0"
  /** What starts each Base64 slice. */
  const SlicePrompt := "\r> "
  /** What starts each 64-byte line of hexadecimal words. */
  const HexPrompt := "\r>"
  /** What ends a download and asks for the checksum verdict. */
  const VerifyRequest := " ?"
  const SliceLength := 64
  const VersionPrefix := "Prop_Ver "

  /** The trailer word: what brings the word sum of the image up to `Magic`, modulo 2^32. */
  function Checksum(s: seq<Byte>): (c: int)
    ensures 0 <= c < U32
    ensures (WordSum(s) + c) % U32 == Magic
  {
    (Magic - WordSum(s)) % U32
  }

  /** `(n + 7) & ~3`: room for the image rounded up to whole words plus the trailer word. */
  function PreparedLength(n: nat): (m: nat)
    ensures m % 4 == 0 && m == RoundUp4(n) + 4
    ensures n + 4 <= m < n + 8
  {
    (n + 7) / 4 * 4
  }

  /** The image zero-filled to whole words. */
  function Padded(s: seq<Byte>): (p: seq<Byte>)
    ensures |p| == RoundUp4(|s|) && |p| % 4 == 0
  {
    s + Zeros(RoundUp4(|s|) - |s|)
  }

  /** The image as downloaded: zero-filled to whole words, then the checksum word. */
  function Prepared(s: seq<Byte>): (p: seq<Byte>)
    ensures |p| == PreparedLength(|s|)
  {
    Padded(s) + LittleEndian(Checksum(s))
  }

  /** The prepared image starts with the image and is zero between the image and the trailer. */
  lemma PreparedLayout(s: seq<Byte>)
    ensures Prepared(s)[..|s|] == s
    ensures forall i :: |s| <= i < |Prepared(s)| - 4 ==> Prepared(s)[i] == 0
    ensures Prepared(s)[|Prepared(s)| - 4..] == LittleEndian(Checksum(s))
  {
    assert Prepared(s)[..|s|] == Padded(s)[..|s|];
  }

  /** A word sum below the padded length sees only the image and zeros. */
  lemma WordSumOfPadded(s: seq<Byte>, t: seq<Byte>)
    requires |t| >= RoundUp4(|s|) && t[..RoundUp4(|s|)] == Padded(s)
    ensures WordSumBelow(t, RoundUp4(|s|)) == WordSum(s)
  {
    var r := RoundUp4(|s|);
    forall i | 0 <= i < r
      ensures ByteOr0(t, i) == ByteOr0(s, i)
    {
      assert t[i] == Padded(s)[i];
    }
    WordSumBelowAgree(t, s, r);
  }

  /** The prepared image is the zero-extended image with the checksum stored in its last word. */
  lemma PreparedByPatch(s: seq<Byte>)
    ensures PutWord(s + Zeros(PreparedLength(|s|) - |s|), PreparedLength(|s|) - 4, Checksum(s)) == Prepared(s)
  {
    var z := s + Zeros(PreparedLength(|s|) - |s|);
    var r := PreparedLength(|s|) - 4;
    assert z[..r] == Padded(s);
  }

  /** The checksum law the ROM checks: the words of the prepared image sum to `Magic`. */
  lemma PreparedWordSum(s: seq<Byte>)
    ensures WordSum(Prepared(s)) == Magic
  {
    var p := Prepared(s);
    var r := RoundUp4(|s|);
    PreparedParts(s);
    WordSumBelowStep(p, r);
    assert WordSum(p) == WordSumBelow(p, r + 4);
  }

  /** Read as words, the prepared image is the image's word sum and then the checksum word. */
  lemma PreparedParts(s: seq<Byte>)
    ensures RoundUp4(|Prepared(s)|) == RoundUp4(|s|) + 4
    ensures WordSumBelow(Prepared(s), RoundUp4(|s|)) == WordSum(s)
    ensures WordAt(Prepared(s), RoundUp4(|s|)) == Checksum(s)
  {
    var p := Prepared(s);
    var r := RoundUp4(|s|);
    assert p[..r] == Padded(s);
    WordSumOfPadded(s, p);
    assert p[r..r + 4] == LittleEndian(Checksum(s));
    WordOfLittleEndian(p, r, Checksum(s));
    ModOfBounded(Checksum(s));
  }

  /** The Base64 text cut into slices of at most `SliceLength` characters, starting at `n`. */
  function SlicesFrom(e: string, n: nat): seq<string>
    decreases |e| - n
  {
    if n >= |e| then []
    else
      var len := if |e| - n < SliceLength then |e| - n else SliceLength;
      [e[n..n + len]] + SlicesFrom(e, n + SliceLength)
  }

  /** Every slice holds 1 to 64 characters, all but the last exactly 64. */
  lemma {:induction false} SlicesFromLengths(e: string, n: nat)
    ensures var r := SlicesFrom(e, n);
      && (forall i :: 0 <= i < |r| ==> 1 <= |r[i]| <= SliceLength)
      && (forall i :: 0 <= i < |r| - 1 ==> |r[i]| == SliceLength)
      && (n <= |e| ==> |r| == (|e| - n + SliceLength - 1) / SliceLength)
    decreases |e| - n
  {
    if n < |e| {
      SlicesFromLengths(e, n + SliceLength);
      var r := SlicesFrom(e, n);
      assert r[1..] == SlicesFrom(e, n + SliceLength);
    }
  }

  function Slices(e: string): seq<string>
  {
    SlicesFrom(e, 0)
  }

  function Concat(ss: seq<string>): string
  {
    if ss == [] then "" else ss[0] + Concat(ss[1..])
  }

  /** Nothing is lost or reordered by slicing: the slices put together are the text. */
  lemma {:induction false} SlicesFromConcat(e: string, n: nat)
    requires n <= |e|
    ensures Concat(SlicesFrom(e, n)) == e[n..]
    decreases |e| - n
  {
    if n < |e| {
      var len := if |e| - n < SliceLength then |e| - n else SliceLength;
      var r := SlicesFrom(e, n);
      assert r[0] == e[n..n + len] && r[1..] == SlicesFrom(e, n + SliceLength);
      if n + SliceLength <= |e| {
        SlicesFromConcat(e, n + SliceLength);
        assert e[n..] == e[n..n + len] + e[n + SliceLength..];
      } else {
        assert SlicesFrom(e, n + SliceLength) == [];
        assert e[n..] == e[n..n + len];
      }
    }
  }

  lemma SlicesConcat(e: string)
    ensures Concat(Slices(e)) == e
  {
    SlicesFromConcat(e, 0);
  }

  /** The port writes for a run of slices: a prompt, then the slice, for each. */
  function Frames(ss: seq<string>): seq<PortEvent>
  {
    if ss == [] then [] else Frames(ss[..|ss| - 1]) + [WroteString(SlicePrompt), WroteString(ss[|ss| - 1])]
  }

  /** Everything `base64Upload` writes for an image. */
  function TxtStream(s: seq<Byte>): seq<PortEvent>
  {
    [WroteString(TxtHeader)] + Frames(Slices(Encode(Prepared(s)))) + [WroteString(VerifyRequest)]
  }

  /**
   * The text sent after the `Prop_Txt` header decodes, as Base64, to exactly
   * the prepared image, whose words sum to `Magic`.
   */
  lemma TxtUploadCarriesPrepared(s: seq<Byte>)
    ensures var ss := Slices(Encode(Prepared(s)));
      Decode(Concat(ss)) == Some(Prepared(s)) && WordSum(Prepared(s)) == Magic
  {
    SlicesConcat(Encode(Prepared(s)));
    DecodeEncode(Prepared(s));
    PreparedWordSum(s);
  }

  /** `" %x %x %x %x"` of the four bytes of `w`, least significant first. */
  function HexWord(w: int): string
  {
    HexBytes(LittleEndian(w))
  }

  /** Each byte as `" %x"`. */
  function HexBytes(b: seq<Byte>): string
    decreases |b|
  {
    if b == [] then "" else " " + Hex(b[0] as nat) + HexBytes(b[1..])
  }

  /**
   * Reads `" %x"` fields back as numbers: a space, then the longest run of
   * hexadecimal digits. Reading stops at anything else.
   */
  function ReadHexFields(t: string): seq<nat>
    decreases |t|
  {
    if t == [] || t[0] != ' ' then []
    else
      var u := t[1..];
      var n := HexDigitRun(u);
      HexDigitRunDigits(u);
      [ParseDigits(u[..n], 16)] + ReadHexFields(u[n..])
  }

  /** The text `HexBytes` writes reads back as the bytes it was written from. */
  lemma {:induction false} ReadHexBytes(b: seq<Byte>)
    ensures ReadHexFields(HexBytes(b)) == b
    decreases |b|
  {
    if b != [] {
      var h := Hex(b[0] as nat);
      var rest := HexBytes(b[1..]);
      HexBytesStart(b[1..]);
      ReadHexField(h, rest);
      ParseDigitsOfDigits(b[0] as nat, 16);
      ReadHexBytes(b[1..]);
      assert b == [b[0]] + b[1..];
    }
  }

  /** One field: a space, a run of digits, then the next field or the end. */
  lemma ReadHexField(h: string, rest: string)
    requires forall i :: 0 <= i < |h| ==> IsDigitIn(h[i], 16)
    requires rest == [] || rest[0] == ' '
    ensures ReadHexFields(" " + h + rest) == [ParseDigits(h, 16)] + ReadHexFields(rest)
  {
    var t := " " + h + rest;
    var u := t[1..];
    assert t[0] == ' ' && u == h + rest;
    HexDigitRunOf(h, rest);
    assert u[..|h|] == h && u[|h|..] == rest;
  }

  /** The text of any bytes is empty or starts a field. */
  lemma HexBytesStart(b: seq<Byte>)
    ensures HexBytes(b) == [] || HexBytes(b)[0] == ' '
  {
  }

  /** Each `Prop_Hex` line ends with the text of its four bytes, which reads back as those bytes. */
  lemma HexLineReadsBack(m: nat, b: seq<Byte>)
    ensures var e := HexLine(m, b)[|HexLine(m, b)| - 1];
      e.WroteString? && ReadHexFields(e.s) == b
  {
    ReadHexBytes(b);
  }

  /** The four bytes of the word at offset `n`, zero past the end. */
  function WordBytes(s: seq<Byte>, n: nat): seq<Byte>
  {
    [ByteOr0(s, n), ByteOr0(s, n + 1), ByteOr0(s, n + 2), ByteOr0(s, n + 3)]
  }

  /** The words of the image, a partial last word zero-extended. */
  function Words(s: seq<Byte>): (ws: seq<int>)
    ensures |ws| == RoundUp4(|s|) / 4
    ensures forall i :: 0 <= i < |ws| ==> ws[i] == WordAt(s, 4 * i)
  {
    seq(RoundUp4(|s|) / 4, i requires 0 <= i => WordAt(s, 4 * i))
  }

  /** The writes for the word with bytes `b` at byte offset `m`: every 64 bytes after the first a new prompted line. */
  function HexLine(m: nat, b: seq<Byte>): seq<PortEvent>
  {
    (if m > 0 && m % 64 == 0 then [WroteString(HexPrompt)] else []) + [WroteString(HexBytes(b))]
  }

  /** The writes for the first `k` words, at offsets 0, 4, ..., 4 * k - 4. */
  function HexLines(s: seq<Byte>, k: nat): seq<PortEvent>
    decreases k
  {
    if k == 0 then [] else HexLines(s, k - 1) + HexLine(4 * (k - 1), WordBytes(s, 4 * (k - 1)))
  }

  /** One more word's writes, with the word read as `WordAt` reads it. */
  lemma HexLinesNext(s: seq<Byte>, k: nat)
    ensures HexLines(s, k + 1) == HexLines(s, k) + HexLine(4 * k, LittleEndian(WordAt(s, 4 * k)))
  {
    LittleEndianOfWordAt(s, 4 * k);
  }

  /** Everything `hexUpload` writes for an image. */
  function HexStream(s: seq<Byte>): seq<PortEvent>
  {
    [WroteString(HexHeader)] + HexLines(s, RoundUp4(|s|) / 4) + [WroteString(HexWord(Checksum(s)) + VerifyRequest)]
  }
  /** The checksum word `hexUpload` computes from the running word sum. */
  lemma HexChecksum(s: seq<Byte>, sum: int)
    requires sum == WordSum(s)
    ensures (Magic - sum) % U32 == Checksum(s)
  {
  }

  /** The writes of `hexUpload` after the writes `pre`, grouped as the method makes them. */
  lemma HexStreamParts(pre: seq<PortEvent>, s: seq<Byte>)
    ensures pre + HexStream(s)
         == ((pre + [WroteString(HexHeader)]) + HexLines(s, RoundUp4(|s|) / 4)) + [WroteString(HexWord(Checksum(s)) + VerifyRequest)]
  {
    AppendAfter(pre, [WroteString(HexHeader)], HexLines(s, RoundUp4(|s|) / 4), [WroteString(HexWord(Checksum(s)) + VerifyRequest)]);
  }


  /** The bytes a run of words stands for. */
  function Unwords(ws: seq<int>): (r: seq<Byte>)
    ensures |r| == 4 * |ws|
  {
    if ws == [] then [] else Unwords(ws[..|ws| - 1]) + LittleEndian(ws[|ws| - 1])
  }

  lemma {:induction false} UnwordsWords(s: seq<Byte>, k: nat)
    requires k <= RoundUp4(|s|) / 4
    ensures Unwords(Words(s)[..k]) == Padded(s)[..4 * k]
  {
    if k > 0 {
      UnwordsWords(s, k - 1);
      var ws := Words(s)[..k];
      assert ws[..k - 1] == Words(s)[..k - 1];
      WordOfPadded(s, k - 1);
      var p := Padded(s);
      assert p[..4 * k] == p[..4 * (k - 1)] + p[4 * (k - 1)..4 * k];
    }
  }

  /** Word `j` of the image, written back little-endian, is its four bytes of the padded image. */
  lemma WordOfPadded(s: seq<Byte>, j: nat)
    requires j < RoundUp4(|s|) / 4
    ensures LittleEndian(WordAt(s, 4 * j)) == Padded(s)[4 * j..4 * j + 4]
  {
    LittleEndianOfWordAt(s, 4 * j);
    var p := Padded(s);
    forall i | 4 * j <= i < 4 * j + 4
      ensures ByteOr0(s, i) == p[i]
    {
    }
  }

  /**
   * The words the `Prop_Hex` path writes, followed by its checksum word, stand
   * for exactly the prepared image the `Prop_Txt` path sends.
   */
  lemma HexUploadCarriesPrepared(s: seq<Byte>)
    ensures Unwords(Words(s) + [Checksum(s)]) == Prepared(s)
  {
    var ws := Words(s);
    UnwordsWords(s, |ws|);
    assert ws[..|ws|] == ws;
    assert (ws + [Checksum(s)])[..|ws|] == ws;
  }

  /** Read back word by word, the prepared image is the image's words and then the checksum. */
  lemma WordsOfPrepared(s: seq<Byte>)
    ensures Words(Prepared(s)) == Words(s) + [Checksum(s)]
  {
    var ws := Words(s);
    var p := Prepared(s);
    var r := RoundUp4(|s|);
    forall i | 0 <= i < |ws|
      ensures WordAt(p, 4 * i) == WordAt(s, 4 * i)
    {
      forall j | 4 * i <= j < 4 * i + 4
        ensures ByteOr0(p, j) == ByteOr0(s, j)
      {
        assert p[j] == Padded(s)[j];
      }
      WordAtAgree(p, s, 4 * i);
    }
    assert p[r..r + 4] == LittleEndian(Checksum(s));
    WordOfLittleEndian(p, r, Checksum(s));
    ModOfBounded(Checksum(s));
  }

  /** The flash sub-loader followed by the image zero-filled to whole words. */
  function Combined(loader: seq<Byte>, s: seq<Byte>): (c: seq<Byte>)
    ensures |c| == |loader| + RoundUp4(|s|)
  {
    loader + Padded(s)
  }

  /** `c` with the word at `k` replaced by `w`. */
  function PutWord(c: seq<Byte>, k: nat, w: int): (r: seq<Byte>)
    requires k + 4 <= |c|
    ensures |r| == |c| && r[k..k + 4] == LittleEndian(w)
  {
    c[..k] + LittleEndian(w) + c[k + 4..]
  }

  /** Outside the replaced word, `PutWord` keeps every byte. */
  lemma PutWordKeeps(c: seq<Byte>, k: nat, w: int)
    requires k + 4 <= |c|
    ensures forall i :: 0 <= i < |c| && !(k <= i < k + 4) ==> PutWord(c, k, w)[i] == c[i]
  {
  }

  /**
   * The image `bufferUpload` sends when writing to flash: the combined image
   * with its length at byte 8, then the negated word sum of that at byte 4.
   */
  function FlashImage(loader: seq<Byte>, s: seq<Byte>): (f: seq<Byte>)
    requires |loader| >= 12
    ensures |f| == |loader| + RoundUp4(|s|)
  {
    PutWord(WithLength(loader, s), 4, -WordSum(WithLength(loader, s)))
  }

  /** The combined image with its own length in bytes 8 to 11. */
  function WithLength(loader: seq<Byte>, s: seq<Byte>): (c: seq<Byte>)
    requires |loader| >= 12
    ensures |c| == |loader| + RoundUp4(|s|)
  {
    PutWord(Combined(loader, s), 8, |loader| + RoundUp4(|s|))
  }

  /**
   * The flash image keeps the loader outside bytes 4 to 11, then carries the
   * padded image; bytes 8 to 11 hold its own length.
   */
  lemma FlashImageLayout(loader: seq<Byte>, s: seq<Byte>)
    requires |loader| >= 12
    ensures var f := FlashImage(loader, s);
      && (forall i :: 0 <= i < |loader| && !(4 <= i < 12) ==> f[i] == loader[i])
      && f[8..12] == LittleEndian(|f|)
      && f[|loader|..] == Padded(s)
  {
    var c := Combined(loader, s);
    var c1 := WithLength(loader, s);
    var f := FlashImage(loader, s);
    PutWordKeeps(c, 8, |c|);
    PutWordKeeps(c1, 4, -WordSum(c1));
    var len := |loader| + RoundUp4(|s|);
    assert |f| == len && c1[8..12] == LittleEndian(len);
    assert f[8..12] == c1[8..12];
    assert f[|loader|..] == c[|loader|..];
  }

  /** Replacing an aligned word changes the word sum by the difference of the two words. */
  lemma PutWordSum(c: seq<Byte>, k: nat, w: int)
    requires k % 4 == 0 && k + 4 <= |c|
    ensures WordSum(PutWord(c, k, w)) == (WordSum(c) - WordAt(c, k) + w % U32) % U32
  {
    var f := PutWord(c, k, w);
    PutWordKeeps(c, k, w);
    var n := RoundUp4(|c|);
    assert RoundUp4(|f|) == n;
    forall i | 0 <= i < n && !(k <= i < k + 4)
      ensures ByteOr0(c, i) == ByteOr0(f, i)
    {
    }
    WordSumBelowReplace(c, f, n, k);
    WordOfLittleEndian(f, k, w);
  }

  /**
   * Whatever the loader carries in bytes 4 to 7, the words of the flash image
   * sum to its negation: zero exactly when those bytes are zero, which lets
   * the sub-loader check itself.
   */
  lemma FlashImageWordSum(loader: seq<Byte>, s: seq<Byte>)
    requires |loader| >= 12
    ensures WordSum(FlashImage(loader, s)) == (-WordAt(loader, 4)) % U32
  {
    var c := WithLength(loader, s);
    PutWordKeeps(Combined(loader, s), 8, |loader| + RoundUp4(|s|));
    forall i | 4 <= i < 8
      ensures ByteOr0(c, i) == ByteOr0(loader, i)
    {
    }
    WordAtAgree(c, loader, 4);
    NegatedSumCancels(c, FlashImage(loader, s));
  }

  /**
   * The checksum has to be taken after the length patch. Over any image `c`
   * (in `bufferUpload`, the combined image, with `len` its length): taking the
   * negated sum at byte 4 first and writing `len` at byte 8 afterwards leaves
   * the length word out of the sum, and the words of the two results sum
   * alike exactly when `c` already held `len` at byte 8.
   */
  lemma PatchOrderMatters(c: seq<Byte>, len: int)
    requires |c| >= 12
    ensures var w := PutWord(c, 8, len);
      WordSum(PutWord(w, 4, -WordSum(w))) == (-WordAt(c, 4)) % U32
    ensures var w := PutWord(c, 8, len);
      WordSum(PutWord(PutWord(c, 4, -WordSum(c)), 8, len)) == WordSum(PutWord(w, 4, -WordSum(w)))
      <==> WordAt(c, 8) == len % U32
  {
    LengthThenSum(c, len);
    SumBeforeLength(c, len);
    LengthLeftOut(WordAt(c, 4), WordAt(c, 8), len);
  }

  /** The source's order: the length first, then the negated sum of the result. */
  lemma LengthThenSum(c: seq<Byte>, len: int)
    requires |c| >= 12
    ensures var w := PutWord(c, 8, len);
      WordSum(PutWord(w, 4, -WordSum(w))) == (-WordAt(c, 4)) % U32
  {
    var w := PutWord(c, 8, len);
    PutWordOtherWord(c, 8, len, 4);
    NegatedSumCancels(w, PutWord(w, 4, -WordSum(w)));
  }

  /**
   * Over any image: taking the negated sum at byte 4 and then writing `len`
   * at byte 8 leaves the words summing to `len` minus the two words the
   * image first held there.
   */
  lemma SumBeforeLength(c: seq<Byte>, len: int)
    requires |c| >= 12
    ensures WordSum(PutWord(PutWord(c, 4, -WordSum(c)), 8, len)) == (-WordAt(c, 4) - WordAt(c, 8) + len) % U32
  {
    var c4 := PutWord(c, 4, -WordSum(c));
    NegatedSumCancels(c, c4);
    PutWordOtherWord(c, 4, -WordSum(c), 8);
    PutWordSum(c4, 8, len);
    SumFold(WordSum(c4), WordAt(c, 4), WordAt(c4, 8), WordAt(c, 8), len, WordSum(PutWord(c4, 8, len)));
  }

  /** The arithmetic of `SumBeforeLength`, every intermediate sum named. */
  lemma SumFold(s4: int, a: int, b4: int, b: int, len: int, total: int)
    requires s4 == (-a) % U32 && b4 == b
    requires total == (s4 - b4 + len % U32) % U32
    ensures total == (-a - b + len) % U32
  {
    ModAdd(-a, len - b);
    ModAdd(len, -a - b);
  }

  /** Writing one aligned word leaves every other aligned word as it was. */
  lemma PutWordOtherWord(c: seq<Byte>, k: nat, w: int, j: nat)
    requires k + 4 <= |c| && j + 4 <= |c| && (j + 4 <= k || k + 4 <= j)
    ensures WordAt(PutWord(c, k, w), j) == WordAt(c, j)
  {
    var f := PutWord(c, k, w);
    PutWordKeeps(c, k, w);
    forall i | j <= i < j + 4
      ensures ByteOr0(f, i) == ByteOr0(c, i)
    {
    }
    WordAtAgree(f, c, j);
  }

  /** Leaving out a word `b` below 2^32 and adding `len` changes nothing exactly when `b` is `len`. */
  lemma LengthLeftOut(a: int, b: int, len: int)
    requires 0 <= b < U32
    ensures (-a - b + len) % U32 == (-a) % U32 <==> b == len % U32
  {
    ModAdd(-a, len - b);
    ModAdd(len, -b);
  }

  /** Storing the negated word sum at offset 4 leaves only the negation of the word it overwrote. */
  lemma NegatedSumCancels(c: seq<Byte>, f: seq<Byte>)
    requires 8 <= |c| && f == PutWord(c, 4, -WordSum(c))
    ensures WordSum(f) == (-WordAt(c, 4)) % U32
  {
    PutWordSum(c, 4, -WordSum(c));
    CancelSum(WordSum(c), WordAt(c, 4));
  }

  lemma CancelSum(a: int, b: int)
    ensures (a - b + (-a) % U32) % U32 == (-b) % U32
  {
    ModAdd(-a, a - b);
  }
}
