/** The chunked, encoding file reader of src/common/tftp_read_file.cpp. */
module ReadFile {
  import opened Bytes
  import opened Packets
  import Blocks
  import Netascii

  lemma EncodedConcat(mode: Mode, a: Data, b: Data)
    ensures Blocks.Encoded(mode, a + b) == Blocks.Encoded(mode, a) + Blocks.Encoded(mode, b)
  {
    Netascii.EncodeConcat(a, b);
  }

  lemma EncodedSplit(mode: Mode, content: Data, from: nat, to: nat)
    requires from <= to <= |content|
    ensures Blocks.Encoded(mode, content[from..])
         == Blocks.Encoded(mode, content[from..to]) + Blocks.Encoded(mode, content[to..])
  {
    EncodedConcat(mode, content[from..to], content[to..]);
    assert content[from..] == content[from..to] + content[to..];
  }

  /** Moving file bytes through the overflow buffer neither loses nor reorders encoded bytes. */
  lemma Refines(mode: Mode, content: Data, from: nat, to: nat, carried: Data, kept: Data, out: Data)
    requires from <= to <= |content|
    requires out + kept == carried + Blocks.Encoded(mode, content[from..to])
    ensures out + (kept + Blocks.Encoded(mode, content[to..]))
         == carried + Blocks.Encoded(mode, content[from..])
    ensures to == |content| ==> Blocks.Encoded(mode, content[to..]) == []
  {
    EncodedSplit(mode, content, from, to);
    Reassociate(out, kept, carried, Blocks.Encoded(mode, content[from..to]), Blocks.Encoded(mode, content[to..]));
  }

  lemma Reassociate(a: Data, b: Data, c: Data, d: Data, rest: Data)
    requires a + b == c + d
    ensures a + (b + rest) == c + (d + rest)
  {
    Assoc(a, b, rest);
    Assoc(c, d, rest);
  }

  /** The bytes in the overflow buffer are the encoded bytes read so far that have not been handed out. */
  lemma CarriedBytes(mode: Mode, content: Data, position: nat, handed: Data, overflow: Data)
    requires position <= |content|
    requires handed + (overflow + Blocks.Encoded(mode, content[position..])) == Blocks.Encoded(mode, content)
    ensures handed + overflow == Blocks.Encoded(mode, content[..position])
  {
    EncodedSplit(mode, content, 0, position);
    assert content[0..] == content && content[0..position] == content[..position];
    Assoc(handed, overflow, Blocks.Encoded(mode, content[position..]));
    SameFront(handed + overflow, Blocks.Encoded(mode, content[..position]), Blocks.Encoded(mode, content[position..]));
  }

  lemma SameFront(a: Data, b: Data, rest: Data)
    requires a + rest == b + rest
    ensures a == b
  {
    assert (a + rest)[..|a|] == a && (b + rest)[..|b|] == b;
  }

  class TftpReadFile {
    var mode: Mode
    var content: Data    // the file behind the stream
    var position: nat    // the stream's offset in it
    var atEof: bool      // feof
    var failed: bool     // ferror
    var overflow: Data   // encoded bytes that did not fit the last block

    ghost var remaining: Data   // the encoded bytes that have not been handed out yet

    ghost predicate Consistent()
      reads this
    {
      position <= |content| && (atEof ==> position == |content|)
    }

    ghost predicate Valid()
      reads this
    {
      && Consistent()
      && (mode == OCTET ==> overflow == [])
      && remaining == overflow + Blocks.Encoded(mode, content[position..])
    }

    constructor ()
      ensures Valid() && mode == OCTET && !failed && overflow == [] && remaining == []
    {
      mode := OCTET;
      content, position := [], 0;
      atEof, failed := false, false;
      overflow, remaining := [], [];
    }

    method Open(file: Data, m: Mode)
      requires overflow == []
      modifies this
      ensures Valid() && mode == m && content == file && !failed && overflow == []
      ensures remaining == Blocks.Encoded(m, file)
    {
      mode, content, position := m, file, 0;
      atEof, failed := false, false;
      remaining := Blocks.Encoded(m, file);
      assert content[0..] == content;
    }

    predicate Eof()
      reads this
    {
      overflow == [] && atEof
    }

    /**
     * C's `fread` of `count` single bytes: short only at end of file or on an error.
     * `fault` is the number of bytes after which the device fails, if it does.
     */
    method Fread(count: nat, fault: Option<nat>) returns (bytes: Data)
      requires Consistent()
      modifies this`position, this`atEof, this`failed
      ensures Consistent()
      ensures |bytes| <= count && position == old(position) + |bytes|
      ensures bytes == content[old(position)..position]
      ensures |bytes| < count ==> atEof || failed
      ensures old(atEof) ==> atEof
      ensures old(failed) ==> failed
      ensures fault.None? ==> failed == old(failed)
    {
      var n := Min(count, |content| - position);
      if fault.Some? && fault.value < n {
        n := fault.value;
        failed := true;
      } else if n < count {
        atEof := true;
      }
      bytes := content[position..position + n];
      position := position + n;
    }

    /**
     * Fills one block. What comes out and what is left make up what was left before, and without a
     * device error the block is as long as the block size and the remaining bytes allow.
     */
    method ReadInTo(size: nat, fault: Option<nat>) returns (ret: Data)
      requires Valid() && |overflow| <= size
      modifies this`position, this`atEof, this`failed, this`overflow, this`remaining
      ensures Valid() && |overflow| <= size
      ensures ret + remaining == old(remaining)
      ensures |ret| <= size
      ensures !failed ==> |ret| == Min(size, |old(remaining)|)
      ensures old(failed) ==> failed
      ensures fault.None? ==> failed == old(failed)
      ensures !failed && |ret| < size ==> Eof() && remaining == []
      ensures old(position) <= position
      ensures !failed ==> position == Min(|content|, old(position) + size - |old(overflow)|)
      ensures overflow == [] <==> |old(overflow)| + |Blocks.Encoded(mode, content[old(position)..position])| <= size
    {
      if mode != OCTET {
        ret := ReadNetascii(size, fault);
      } else {
        ret := ReadOctet(size, fault);
      }
      remaining := overflow + Blocks.Encoded(mode, content[position..]);
      Refines(mode, content, old(position), position, old(overflow), overflow, ret);
    }

    /** The netascii reading loop, which leaves the consumed file bytes in `ret`. */
    method FillNetascii(size: nat, fault: Option<nat>) returns (ret: Data)
      requires Consistent() && |overflow| <= size
      modifies this`position, this`atEof, this`failed
      ensures Consistent() && position == old(position) + |ret| && ret == content[old(position)..position]
      ensures |ret| <= size - |overflow|
      ensures |ret| < size - |overflow| ==> atEof || failed
      ensures !failed ==> position == Min(|content|, old(position) + size - |overflow|)
      ensures old(failed) ==> failed
      ensures fault.None? ==> failed == old(failed)
    {
      var readBytes := 0;
      ret := seq(size, _ => 0);
      var bytesFromFile := size - |overflow|;
      while !failed && !atEof && readBytes < bytesFromFile
        invariant Consistent() && readBytes <= bytesFromFile && |ret| == size
        invariant position == old(position) + readBytes
        invariant ret[..readBytes] == content[old(position)..position]
        invariant readBytes == 0 || failed || atEof || readBytes == bytesFromFile
        invariant old(failed) ==> failed
        invariant fault.None? ==> failed == old(failed)
        decreases bytesFromFile - readBytes, if failed || atEof then 0 else 1
      {
        // The request is not reduced by readBytes, yet the write never leaves the buffer.
        assert readBytes + bytesFromFile <= |ret|;
        var got := Fread(bytesFromFile, fault);
        ret := ret[..readBytes] + got + ret[readBytes + |got|..];
        readBytes := readBytes + |got|;
      }
      ret := ret[..readBytes];
    }

    method ReadNetascii(size: nat, fault: Option<nat>) returns (ret: Data)
      requires Consistent() && |overflow| <= size && mode == NETASCII
      modifies this`position, this`atEof, this`failed, this`overflow
      ensures Consistent() && |overflow| <= size && old(position) <= position
      ensures ret + overflow == old(overflow) + Blocks.Encoded(mode, content[old(position)..position])
      ensures |ret| <= size && (|ret| < size ==> overflow == [] && (atEof || failed))
      ensures |ret| == Min(size, |ret| + |overflow|)
      ensures !failed ==> position == Min(|content|, old(position) + size - |old(overflow)|)
      ensures old(failed) ==> failed
      ensures fault.None? ==> failed == old(failed)
    {
      ret := FillNetascii(size, fault);
      var netasciiData := Netascii.NativeToNetascii(ret);
      ret := Emit(netasciiData, size);
    }

    /** Hands out the carried-over bytes and the new ones, keeping what exceeds the block. */
    method Emit(netasciiData: Data, size: nat) returns (ret: Data)
      requires |overflow| <= size && |overflow| + |netasciiData| <= 2 * size
      modifies this`overflow
      ensures ret + overflow == old(overflow) + netasciiData
      ensures |ret| == Min(size, |old(overflow)| + |netasciiData|)
      ensures |overflow| <= size
    {
      ret := [];
      if overflow != [] {
        ret := overflow + ret;
        overflow := [];
      }
      if netasciiData != [] {
        ret := ret + netasciiData;
      }
      if |ret| > size {
        overflow := ret[size..] + overflow;
        ret := ret[..size];
      }
    }

    method ReadOctet(size: nat, fault: Option<nat>) returns (ret: Data)
      requires Consistent()
      modifies this`position, this`atEof, this`failed
      ensures Consistent() && old(position) <= position
      ensures ret == content[old(position)..position]
      ensures |ret| <= size && (|ret| < size ==> atEof || failed)
      ensures |ret| == position - old(position)
      ensures !failed ==> position == Min(|content|, old(position) + size)
      ensures old(failed) ==> failed
      ensures fault.None? ==> failed == old(failed)
    {
      var readBytes := 0;
      ret := seq(size, _ => 0);
      while !failed && !atEof && readBytes < size
        invariant Consistent() && readBytes <= size && |ret| == size
        invariant position == old(position) + readBytes
        invariant ret[..readBytes] == content[old(position)..position]
        invariant old(failed) ==> failed
        invariant fault.None? ==> failed == old(failed)
        decreases size - readBytes, if failed || atEof then 0 else 1
      {
        var got := Fread(size - readBytes, fault);
        ret := ret[..readBytes] + got + ret[readBytes + |got|..];
        readBytes := readBytes + |got|;
      }
      ret := ret[..readBytes];
    }
  }
}
