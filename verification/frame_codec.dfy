/** The binary part frame of the upload: a 16-byte header (magic, part
    index, unpadded length, CRC-32 of the unpadded data, each field four
    bytes big-endian) followed by the data zero-padded to 4096 bytes. */
module FrameCodec {
  import opened Wrappers
  import opened Binary
  import Crc32

  const ChunkSize: nat := 4096
  const HeaderSize: nat := 16
  const FrameSize: nat := HeaderSize + ChunkSize
  const Magic: Bytes := [0x5A, 0x5A, 0xA5, 0xA5]

  /** A frame as the device reads it. */
  datatype Frame = Frame(index: nat, length: nat, crc: nat, body: Bytes)

  /** `data` followed by zeros up to a full chunk. */
  function Pad(data: Bytes): (r: Bytes)
    requires |data| <= ChunkSize
    ensures |r| == ChunkSize
    ensures r[..|data|] == data
    ensures forall i | |data| <= i < ChunkSize :: r[i] == 0
  {
    data + Zeros(ChunkSize - |data|)
  }

  /** A 4-byte big-endian field. */
  function Field(n: nat): (r: Bytes)
    requires n < U32Limit
    ensures |r| == 4
    ensures FromBigEndian(r) == n
  {
    Pow256Four();
    ToBigEndian(n, 4)
  }

  /** The 16-byte header: magic, index, length, checksum. */
  function Header(index: nat, length: nat, crc: nat): (r: Bytes)
    requires index < U32Limit && length < U32Limit && crc < U32Limit
    ensures |r| == HeaderSize
    ensures r[..4] == Magic
    ensures r[4..8] == Field(index)
    ensures r[8..12] == Field(length)
    ensures r[12..16] == Field(crc)
  {
    Magic + Field(index) + Field(length) + Field(crc)
  }

  /** The frame carrying part `index` whose unpadded data is `data`. */
  function Encode(index: nat, data: Bytes): (r: Bytes)
    requires index < U32Limit
    requires |data| <= ChunkSize
    ensures |r| == FrameSize
  {
    Header(index, |data|, Crc32.Checksum(data)) + Pad(data)
  }

  /** Every frame is 4112 bytes: the magic, the index, the unpadded length
      and the checksum of the unpadded data, then the data padded with zeros. */
  lemma EncodeLayout(index: nat, data: Bytes)
    requires index < U32Limit
    requires |data| <= ChunkSize
    ensures |Encode(index, data)| == FrameSize
    ensures Encode(index, data)[..4] == Magic
    ensures FromBigEndian(Encode(index, data)[4..8]) == index
    ensures FromBigEndian(Encode(index, data)[8..12]) == |data|
    ensures FromBigEndian(Encode(index, data)[12..16]) == Crc32.Checksum(data)
    ensures Encode(index, data)[HeaderSize..HeaderSize + |data|] == data
    ensures forall i | HeaderSize + |data| <= i < FrameSize :: Encode(index, data)[i] == 0
  {
    var h := Header(index, |data|, Crc32.Checksum(data));
    var r := Encode(index, data);
    assert r[..HeaderSize] == h;
    assert r[..4] == h[..4];
    assert r[4..8] == h[4..8];
    assert r[8..12] == h[8..12];
    assert r[12..16] == h[12..16];
    assert r[HeaderSize..] == Pad(data);
  }

  /** Reads a frame back; `None` unless it has the frame size and the magic. */
  function Decode(b: Bytes): (r: Option<Frame>)
    ensures r.Some? <==> |b| == FrameSize && b[..4] == Magic
  {
    if |b| != FrameSize || b[..4] != Magic then None
    else Some(Frame(FromBigEndian(b[4..8]), FromBigEndian(b[8..12]),
                    FromBigEndian(b[12..16]), b[HeaderSize..]))
  }

  /** The data a frame carries: its body cut back to the reported length. */
  function Unpadded(f: Frame): Bytes
    requires f.length <= |f.body|
  {
    f.body[..f.length]
  }

  /** Decoding an encoded frame gives back the index, the unpadded length,
      the checksum of the unpadded data (not of the padded body), and the
      data followed by zeros. */
  lemma EncodeDecode(index: nat, data: Bytes)
    requires index < U32Limit
    requires |data| <= ChunkSize
    ensures Decode(Encode(index, data)) == Some(Frame(index, |data|, Crc32.Checksum(data), Pad(data)))
    ensures Unpadded(Decode(Encode(index, data)).value) == data
  {
    EncodeLayout(index, data);
    var r := Encode(index, data);
    assert r[HeaderSize..] == Pad(data);
  }

  /** A four-byte field read and written back is unchanged. */
  lemma FieldRoundTrip(b: Bytes)
    requires |b| == 4
    ensures FromBigEndian(b) < U32Limit && Field(FromBigEndian(b)) == b
  {
    Pow256Four();
    ToFromBigEndian(b);
  }

  /** The header of a frame-sized block with the magic is the header of
      the fields it reads as. */
  lemma HeaderRoundTrip(b: Bytes)
    requires |b| == FrameSize && b[..4] == Magic
    ensures FromBigEndian(b[4..8]) < U32Limit
    ensures FromBigEndian(b[8..12]) < U32Limit
    ensures FromBigEndian(b[12..16]) < U32Limit
    ensures Header(FromBigEndian(b[4..8]), FromBigEndian(b[8..12]), FromBigEndian(b[12..16])) == b[..HeaderSize]
  {
    FieldRoundTrip(b[4..8]);
    FieldRoundTrip(b[8..12]);
    FieldRoundTrip(b[12..16]);
    var h := Header(FromBigEndian(b[4..8]), FromBigEndian(b[8..12]), FromBigEndian(b[12..16]));
    HeaderFields(h);
    HeaderFields(b);
    assert h[..HeaderSize] == h;
  }

  /** The first 16 bytes of a block are its four 4-byte fields in order. */
  lemma HeaderFields(b: Bytes)
    requires |b| >= HeaderSize
    ensures b[..HeaderSize] == b[..4] + b[4..8] + b[8..12] + b[12..16]
  {
  }

  /** A body whose bytes after `length` are zero is its first `length`
      bytes padded. */
  lemma PadRoundTrip(body: Bytes, length: nat)
    requires |body| == ChunkSize && length <= ChunkSize
    requires forall i | length <= i < ChunkSize :: body[i] == 0
    ensures Pad(body[..length]) == body
  {
    var r := Pad(body[..length]);
    forall i | 0 <= i < ChunkSize
      ensures r[i] == body[i]
    {
      if i < length {
        assert r[i] == r[..length][i];
      }
    }
  }

  /** A decoded frame whose length fits a chunk, whose padding is zero and
      whose checksum matches its data is exactly the encoding of that data. */
  lemma DecodeEncode(b: Bytes)
    requires Decode(b).Some?
    requires Decode(b).value.length <= ChunkSize
    requires forall i | Decode(b).value.length <= i < ChunkSize :: Decode(b).value.body[i] == 0
    requires Decode(b).value.crc == Crc32.Checksum(Unpadded(Decode(b).value))
    ensures Encode(Decode(b).value.index, Unpadded(Decode(b).value)) == b
  {
    var f := Decode(b).value;
    HeaderRoundTrip(b);
    PadRoundTrip(f.body, f.length);
    assert b == b[..HeaderSize] + b[HeaderSize..];
  }
}
