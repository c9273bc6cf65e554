/**
 * The UDIF "koly" trailer: the last 512 bytes of a disk image, whose
 * big-endian fields give the signature and where the plist metadata lies.
 * The file is a byte sequence; its length is the reader's length().
 */
module Udif {
  import opened Wrappers
  import opened Ints
  import opened DmgErrors
  import Text

  /** 256^width: the number of values a width-byte field holds. */
  function Pow256(width: nat): (r: nat)
    ensures r > 0
  {
    if width == 0 then 1 else 256 * Pow256(width - 1)
  }

  /** be(): the value of a big-endian field. */
  function BigEndian(b: seq<uint8>): (r: nat)
    ensures r < Pow256(|b|)
  {
    if b == [] then 0 else BigEndian(b[..|b| - 1]) * 256 + b[|b| - 1] as int
  }

  /** The width-byte big-endian representation of n, most significant byte first. */
  function ToBigEndian(n: nat, width: nat): (r: seq<uint8>)
    ensures |r| == width
  {
    if width == 0 then [] else ToBigEndian(n / 256, width - 1) + [(n % 256) as uint8]
  }

  lemma {:induction false} BigEndianOfToBigEndian(n: nat, width: nat)
    requires n < Pow256(width)
    ensures BigEndian(ToBigEndian(n, width)) == n
  {
    if width > 0 {
      var b := ToBigEndian(n, width);
      assert b[..width - 1] == ToBigEndian(n / 256, width - 1);
      assert n / 256 < Pow256(width - 1);
      BigEndianOfToBigEndian(n / 256, width - 1);
    }
  }

  lemma {:induction false} ToBigEndianOfBigEndian(b: seq<uint8>)
    ensures ToBigEndian(BigEndian(b), |b|) == b
  {
    if b != [] {
      var front := b[..|b| - 1];
      var n := BigEndian(b);
      assert n / 256 == BigEndian(front) && n % 256 == b[|b| - 1] as int;
      ToBigEndianOfBigEndian(front);
      assert b == front + [b[|b| - 1]];
    }
  }

  lemma {:induction false} ZerosBigEndian(width: nat)
    ensures BigEndian(seq(width, _ => 0 as uint8)) == 0
  {
    if width > 0 {
      assert seq(width, _ => 0 as uint8)[..width - 1] == seq(width - 1, _ => 0 as uint8);
      ZerosBigEndian(width - 1);
    }
  }

  /** sizeof(UDIFResourceFile). */
  const KolySize: nat := 512
  /** Byte offsets of the fields the reader uses, in the layout of UDIFResourceFile. */
  const SignatureField: nat := 0
  const XmlOffsetField: nat := 216
  const XmlLengthField: nat := 224
  /** UDIF_SIGNATURE: the four characters "koly". */
  const UdifSignature: nat := 0x6B6F6C79

  lemma TwoTo64IsPow256()
    ensures Pow256(8) == TwoTo64
  {
  }

  /** The big-endian field of `width` bytes at `at`. */
  function Field(block: seq<uint8>, at: nat, width: nat): (r: nat)
    requires at + width <= |block|
    ensures r < Pow256(width)
  {
    BigEndian(block[at..at + width])
  }

  /** The trailer fields the reader goes on to use. */
  datatype KolyTrailer = KolyTrailer(xmlOffset: nat, xmlLength: nat)

  /** The 512 bytes the constructor reads at length() - 512. */
  function KolyBlock(file: seq<uint8>): (r: seq<uint8>)
    requires |file| >= KolySize
    ensures |r| == KolySize && file == file[..|file| - KolySize] + r
  {
    file[|file| - KolySize..]
  }

  /**
   * The checks of the constructor: too short a file, then the signature, and
   * on success the XML offset and length that loadKoly reads.
   */
  function OpenTrailer(file: seq<uint8>): (r: Result<KolyTrailer, DmgError>)
    ensures r == Failure(FileTooSmall) <==> |file| < KolySize
    ensures r == Failure(InvalidKolySignature)
        <==> |file| >= KolySize && Field(KolyBlock(file), SignatureField, 4) != UdifSignature
    ensures r.Success? ==> r.value.xmlOffset < TwoTo64 && r.value.xmlLength < TwoTo64
  {
    TwoTo64IsPow256();
    if |file| < KolySize then Failure(FileTooSmall)
    else
      var koly := KolyBlock(file);
      if Field(koly, SignatureField, 4) != UdifSignature then Failure(InvalidKolySignature)
      else Success(KolyTrailer(Field(koly, XmlOffsetField, 8), Field(koly, XmlLengthField, 8)))
  }

  /** Reader::read: the bytes at offset, fewer (or none) at the end of the file. */
  function ReadAt(file: seq<uint8>, offset: nat, count: nat): (r: seq<uint8>)
    ensures |r| <= count
    ensures offset + count <= |file| ==> r == file[offset..offset + count]
    ensures offset >= |file| ==> r == []
  {
    if offset >= |file| then []
    else if offset + count <= |file| then file[offset..offset + count]
    else file[offset..]
  }

  /**
   * isDMG: length() - 512 in uint64 arithmetic, which wraps past the end of
   * a short file; the read overwrites the zero-initialised signature with the
   * bytes it gets and the rest stays zero.
   */
  function IsDmg(file: seq<uint8>): bool
    requires |file| < TwoTo64
  {
    var offset := Text.SizeSub(|file|, KolySize);
    var got := ReadAt(file, offset, 4);
    var sig := got + seq(4 - |got|, _ => 0 as uint8);
    BigEndian(sig) == UdifSignature
  }

  /** isDMG answers, without raising, whether the constructor's checks pass. */
  lemma IsDmgIffTrailerOpens(file: seq<uint8>)
    requires |file| < TwoTo64
    ensures IsDmg(file) <==> OpenTrailer(file).Success?
  {
    var offset := Text.SizeSub(|file|, KolySize);
    var got := ReadAt(file, offset, 4);
    var sig := got + seq(4 - |got|, _ => 0 as uint8);
    if |file| < KolySize {
      assert got == [];
      ZerosBigEndian(4);
      assert sig == seq(4, _ => 0 as uint8);
    } else {
      assert got == KolyBlock(file)[SignatureField..SignatureField + 4];
      assert sig == got;
    }
  }

  /**
   * A trailer laid out as the constructor expects: the signature, the XML
   * offset and length at their places, and any bytes at all in the other
   * fields (`between` for bytes 4-215, `after` for bytes 232-511).
   */
  function TrailerBytes(t: KolyTrailer, between: seq<uint8>, after: seq<uint8>): (r: seq<uint8>)
    requires |between| == 212 && |after| == 280
    ensures |r| == KolySize
  {
    ToBigEndian(UdifSignature, 4) + between + ToBigEndian(t.xmlOffset, 8) + ToBigEndian(t.xmlLength, 8) + after
  }

  /** Any file ending in such a trailer opens and yields its XML offset and length, whatever its other fields hold. */
  lemma OpenTrailerBytes(prefix: seq<uint8>, t: KolyTrailer, between: seq<uint8>, after: seq<uint8>)
    requires t.xmlOffset < TwoTo64 && t.xmlLength < TwoTo64
    requires |between| == 212 && |after| == 280
    ensures OpenTrailer(prefix + TrailerBytes(t, between, after)) == Success(t)
  {
    TwoTo64IsPow256();
    var block := TrailerBytes(t, between, after);
    var file := prefix + block;
    assert KolyBlock(file) == block;
    assert block[0..4] == ToBigEndian(UdifSignature, 4);
    assert block[216..224] == ToBigEndian(t.xmlOffset, 8);
    assert block[224..232] == ToBigEndian(t.xmlLength, 8);
    assert Pow256(4) == 0x1_0000_0000;
    BigEndianOfToBigEndian(UdifSignature, 4);
    BigEndianOfToBigEndian(t.xmlOffset, 8);
    BigEndianOfToBigEndian(t.xmlLength, 8);
  }
}
