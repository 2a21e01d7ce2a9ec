/** The stream overload of the checksum, over a model of the input stream it reads. */
module CrcStream {
  import opened Bytes
  import opened CrcTable
  import opened Crc32

  const BUFFER_SIZE: nat := 8192

  /** A binary input stream. `sound` means that it was opened and its reads succeed: then
      end of file shows once a read comes short. Any other stream gives what it can, which
      is nothing if it was not opened, and never shows end of file. */
  class InputStream {
    const content: bytes
    const sound: bool
    var pos: nat
    var eof: bool

    ghost predicate Valid()
      reads this
    {
      && pos <= |content| && (eof ==> pos == |content|)
      && (!sound ==> !eof)
    }

    ghost function Remaining(): bytes
      reads this
      requires Valid()
    {
      content[pos..]
    }

    constructor (content: bytes, sound: bool)
      ensures Valid() && !eof && Remaining() == content && this.sound == sound
    {
      this.content, this.sound := content, sound;
      pos, eof := 0, false;
    }

    /** Reads up to `n` bytes into the front of the buffer and reports how many. */
    method Read(buffer: array<byte>, n: nat) returns (count: nat)
      requires Valid() && !eof && n <= buffer.Length
      modifies this, buffer
      ensures Valid() && count <= n
      ensures old(Remaining()) == buffer[..count] + Remaining()
      ensures eof <==> sound && count < n
    {
      count := 0;
      while count < n && pos < |content|
        invariant pos <= |content| && pos == old(pos) + count && count <= n
        invariant !eof
        invariant buffer[..count] == content[old(pos)..pos]
      {
        buffer[count] := content[pos];
        count, pos := count + 1, pos + 1;
      }
      eof := sound && count < n;
      assert content[old(pos)..] == content[old(pos)..pos] + content[pos..];
    }
  }

  /** The body of the loop: one chunk is read and added to the checksum. */
  method Round(inFile: InputStream, buffer: array<byte>, reg: Word) returns (reg': Word, ghost chunk: bytes)
    requires inFile.Valid() && !inFile.eof && buffer.Length == BUFFER_SIZE
    modifies inFile, buffer
    ensures inFile.Valid() && old(inFile.Remaining()) == chunk + inFile.Remaining()
    ensures reg' == Crc(reg, chunk) && |chunk| <= 8192
    ensures inFile.eof <==> inFile.sound && |chunk| < 8192
  {
    var count := inFile.Read(buffer, BUFFER_SIZE);
    chunk := buffer[..count];
    assert buffer[..][..count] == buffer[..count];
    reg' := Crc32.GetCrc32(buffer[..], count, reg);
  }

  /** Ends on every sound stream, the empty one and exact multiples of the buffer size
      included, and complements the checksum of everything that was left to read. */
  method GetCrc32(inFile: InputStream, crc32: Word := 0xFFFFFFFF) returns (r: Word)
    requires inFile.Valid() && inFile.sound
    modifies inFile
    ensures inFile.Valid() && inFile.eof
    ensures r == Crc(crc32, old(inFile.Remaining())) ^ 0xFFFFFFFF
  {
    hide Crc;
    var buffer := new byte[BUFFER_SIZE];
    var reg := crc32;
    ghost var done, chunk: bytes := [], [];
    Crc32.CrcEmpty(crc32, []);
    while !inFile.eof
      invariant inFile.Valid() && buffer.Length == BUFFER_SIZE
      invariant old(inFile.Remaining()) == done + inFile.Remaining()
      invariant reg == Crc(crc32, done)
      decreases |inFile.Remaining()|, !inFile.eof
    {
      reg, chunk := Round(inFile, buffer, reg);
      CrcConcat(crc32, done, chunk);
      done := done + chunk;
    }
    assert inFile.Remaining() == [] && done + [] == done;
    r := reg ^ 0xFFFFFFFF;
  }

  /** The checksum of some contents, from the start value that callers leave out. */
  method ContentChecksum(content: bytes) returns (r: Word)
    ensures r == Crc(0xFFFFFFFF, content) ^ 0xFFFFFFFF
  {
    var inFile := new InputStream(content, true);
    r := GetCrc32(inFile);
  }

  /** The same loop, given up after `rounds` rounds. It has ended by then exactly when the
      stream is sound and holds less than that many chunks, so on one that could not be
      opened, or whose reads fail, it never ends, and the register stays where the bytes
      that could be read have brought it. */
  method GetCrc32Within(inFile: InputStream, crc32: Word, rounds: nat)
    returns (reg: Word, ended: bool, ghost done: bytes)
    requires inFile.Valid() && !inFile.eof
    modifies inFile
    ensures inFile.Valid()
    ensures ended <==> inFile.sound && |old(inFile.Remaining())| < rounds * 8192
    ensures old(inFile.Remaining()) == done + inFile.Remaining() && reg == Crc(crc32, done)
    ensures ended ==> inFile.eof && reg == Crc(crc32, old(inFile.Remaining()))
    ensures !inFile.sound ==> !inFile.eof
  {
    hide Crc;
    var buffer := new byte[BUFFER_SIZE];
    reg := crc32;
    ghost var chunk: bytes := [];
    done := [];
    Crc32.CrcEmpty(crc32, []);
    var k := 0;
    while !inFile.eof && k < rounds
      invariant inFile.Valid() && buffer.Length == BUFFER_SIZE && k <= rounds
      invariant old(inFile.Remaining()) == done + inFile.Remaining()
      invariant reg == Crc(crc32, done)
      invariant inFile.eof ==> inFile.sound && |done| < k * BUFFER_SIZE
      invariant !inFile.eof && inFile.sound ==> |done| == k * BUFFER_SIZE
      decreases rounds - k
    {
      reg, chunk := Round(inFile, buffer, reg);
      CrcConcat(crc32, done, chunk);
      done := done + chunk;
      k := k + 1;
    }
    ended := inFile.eof;
    assert inFile.Remaining() == [] ==> done + [] == done;
  }
}
