/** The assertion of the reader's destructor, that its overflow buffer is empty. */
module CarriedOver {
  import opened Bytes
  import opened Packets
  import opened ReadFile
  import opened ReadSide
  import opened ServerConnection
  import Blocks

  /**
   * A READ that ends with block n cached, whatever ended it, leaves in the buffer the part of the encoding of
   * what was read that lies beyond the first n blocks; the destructor finds the buffer empty exactly when
   * there is no such part.
   */
  lemma CarriedAtBlock(c: TftpServerConnection, n: nat)
    requires c.Valid() && c.kind == READ && c.pktReady
    requires ReadInv(c.View(), n, Blocks.Encoded(c.fileReader.mode, c.fileReader.content))
    ensures var r := c.fileReader;
      var handed := Concat(Blocks.Blocks(Blocks.Encoded(r.mode, r.content), c.blockSize)[..n]);
      var read := Blocks.Encoded(r.mode, r.content[..r.position]);
      handed + r.overflow == read && (r.overflow == [] <==> handed == read)
  {
    var r := c.fileReader;
    var e := Blocks.Encoded(r.mode, r.content);
    HandedOut(c.View(), n, e);
    CarriedBytes(r.mode, r.content, r.position, Concat(Blocks.Blocks(e, c.blockSize)[..n]), r.overflow);
  }

  /** So it does when everything has been handed out. */
  lemma NothingCarried(c: TftpServerConnection)
    requires c.Valid() && c.View().source == Some([])
    ensures c.fileReader.overflow == []
  {
  }
}
