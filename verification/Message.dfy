/** The message object: a raw buffer that the encoders and the reader rewrite in place. */
module Message {
  import opened Bytes
  import opened Crc32
  import opened Frame
  import opened Codec

  class Message {
    var raw: bytes

    /** An empty message has room for one header, filled with zero bytes. */
    constructor ()
      ensures raw == Resize([], HEADER_SIZE)
    {
      raw := Resize([], HEADER_SIZE);
    }

    /** Fills a fresh message. An unknown type leaves it empty, where the source throws.
        `file` is what the named file holds, for a file message. */
    method Init(kind: byte, address: bytes, port: nat, str: bytes, file: bytes) returns (ok: bool)
      modifies this
      ensures ok <==> kind == TEXT || kind == WRITE_FILE
      ensures kind == TEXT ==> raw == TextFrame(Render(address, port), str)
      ensures kind == WRITE_FILE ==> raw == FileFrame(Render(address, port), BaseName(str), file)
      ensures kind == WRITE_FILE ==>
                forall name | NameOf(str, name) :: raw == FileFrame(Render(address, port), name, file)
      ensures !ok ==> raw == old(raw)
    {
      hide *;
      ok := true;
      if kind == TEXT {
        InitAsText(Render(address, port), str);
      } else if kind == WRITE_FILE {
        InitAsFile(Render(address, port), str, file);
      } else {
        ok := false;
      }
      assert TEXT != WRITE_FILE by { DistinctKinds(); }
    }

    method InitAsText(origin: bytes, text: bytes)
      modifies this
      ensures raw == TextFrame(origin, text)
    {
      hide Write, Crc, LittleEndian, ByteOf, WordBytes;
      raw := Resize(raw, HEADER_SIZE + |origin| + 1 + |text| + 1);
      WriteHeader(TEXT, |origin| + 1, |text| + 1);
      FillThree(raw, origin + [NUL], text + [NUL], []);
      raw := Write(raw, DATA_OFFSET, origin + [NUL]);
      raw := Write(raw, DATA_OFFSET + |origin| + 1, text + [NUL]);
      WriteChecksum();
      assert origin + [NUL] + (text + [NUL]) + [] == origin + [NUL] + (text + [NUL]);
    }

    method InitAsFile(origin: bytes, filepath: bytes, file: bytes)
      modifies this
      ensures raw == FileFrame(origin, BaseName(filepath), file)
      ensures forall name | NameOf(filepath, name) :: raw == FileFrame(origin, name, file)
    {
      hide BaseName, Write, Crc, LittleEndian, ByteOf, WordBytes;
      var name := BaseName(filepath);
      raw := Resize(raw, HEADER_SIZE + |origin| + 1 + |name| + 1 + |file|);
      WriteHeader(WRITE_FILE, |origin| + 1, |name| + 1 + |file|);
      FillThree(raw, origin + [NUL], name + [NUL], file);
      raw := Write(raw, DATA_OFFSET, origin + [NUL]);
      raw := Write(raw, DATA_OFFSET + |origin| + 1, name + [NUL]);
      raw := Write(raw, DATA_OFFSET + |origin| + 1 + |name| + 1, file);
      WriteChecksum();
      assert origin + [NUL] + (name + [NUL]) + file == origin + [NUL] + (name + [NUL] + file);
      OnlyName(filepath);
    }

    /** The type and the two lengths, cut to the width of their fields. */
    method WriteHeader(kind: byte, originLen: nat, stringDataLen: nat)
      requires |raw| >= HEADER_SIZE
      modifies this
      ensures |raw| == old(|raw|)
      ensures raw[..CHECKSUM_OFFSET] == [kind, ByteOf(U8(originLen))] + LittleEndian(U32(stringDataLen), 4)
    {
      hide LittleEndian, ByteOf;
      raw := Write(raw, MESSAGE_TYPE_OFFSET, [kind]);
      raw := Write(raw, ORIGIN_LEN_OFFSET, [ByteOf(U8(originLen))]);
      assert raw[..2] == [kind, ByteOf(U8(originLen))];
      ghost var two := raw[..2];
      raw := Write(raw, STRINGDATA_LEN_OFFSET, LittleEndian(U32(stringDataLen), 4));
      assert raw[..CHECKSUM_OFFSET] == two + LittleEndian(U32(stringDataLen), 4);
    }

    /** Stores the checksum of the data part. */
    method WriteChecksum()
      requires |raw| >= HEADER_SIZE
      modifies this
      ensures raw == old(raw[..CHECKSUM_OFFSET]) + WordBytes(Crc(CRC_START, old(Data(raw)))) + old(Data(raw))
    {
      hide Crc, WordBytes;
      var data := raw[DATA_OFFSET..];
      var crc := GetCrc32(data, |data|);
      assert data[..|data|] == data;
      raw := Write(raw, CHECKSUM_OFFSET, WordBytes(crc));
    }

    /** Gives the buffer the length that its header announces. */
    method Adjust()
      requires |raw| >= HEADER_SIZE
      modifies this
      ensures raw == Resize(old(raw), HEADER_SIZE + DataLen(old(raw)))
      ensures raw[..HEADER_SIZE] == old(raw[..HEADER_SIZE])
    {
      raw := Resize(raw, HEADER_SIZE + DataLen(raw));
    }
  }

  lemma OnlyName(path: bytes)
    ensures forall name | NameOf(path, name) :: name == BaseName(path)
  {
    hide BaseName, NameOf;
    forall name | NameOf(path, name) ensures name == BaseName(path) {
      BaseNameExact(path, name);
    }
  }

  /** Consecutive writes after the header fill the rest of the buffer. */
  lemma FillThree(raw: bytes, a: bytes, b: bytes, c: bytes)
    requires |raw| == HEADER_SIZE + |a| + |b| + |c|
    ensures var filled := Write(Write(Write(raw, HEADER_SIZE, a), HEADER_SIZE + |a|, b), HEADER_SIZE + |a| + |b|, c);
            && filled[..CHECKSUM_OFFSET] == raw[..CHECKSUM_OFFSET]
            && Data(filled) == a + b + c
            && (c == [] ==> filled == Write(Write(raw, HEADER_SIZE, a), HEADER_SIZE + |a|, b))
  {
    var one := Write(raw, HEADER_SIZE, a);
    assert one == raw[..HEADER_SIZE] + a + raw[HEADER_SIZE + |a|..];
    var two := Write(one, HEADER_SIZE + |a|, b);
    assert two == raw[..HEADER_SIZE] + a + b + raw[HEADER_SIZE + |a| + |b|..];
    var three := Write(two, HEADER_SIZE + |a| + |b|, c);
    assert three == raw[..HEADER_SIZE] + a + b + c;
  }
}
