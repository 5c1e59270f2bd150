/** The decoding file writer of src/common/tftp_write_file.cpp. */
module WriteFile {
  import opened Bytes
  import opened Packets
  import Blocks
  import Netascii

  class TftpWriteFile {
    var mode: Mode
    var contents: Data   // what the file holds
    var failed: bool     // ferror

    constructor ()
      ensures mode == OCTET && contents == [] && !failed
    {
      mode, contents, failed := OCTET, [], false;
    }

    method Open(m: Mode)
      modifies this
      ensures mode == m && contents == [] && !failed
    {
      mode, contents, failed := m, [], false;
    }

    /** C's `fwrite`: writes everything, or nothing and sets the error flag. */
    method Fwrite(bytes: Data, fails: bool) returns (written: nat)
      modifies this`contents, this`failed
      ensures written == if fails then 0 else |bytes|
      ensures contents == if fails then old(contents) else old(contents) + bytes
      ensures failed == (old(failed) || fails)
    {
      if fails {
        failed := true;
        written := 0;
      } else {
        contents := contents + bytes;
        written := |bytes|;
      }
    }

    /**
     * Decodes and appends one payload; `faults` attempts fail before one succeeds.
     * The netascii loop gives up on an error, the octet loop does not look at the error flag.
     */
    method Write(data: Data, faults: nat) returns (threw: bool)
      modifies this`contents, this`failed
      ensures threw <==> Blocks.Decoded(mode, data).None?
      ensures threw ==> contents == old(contents) && failed == old(failed)
      ensures !threw && !failed ==> contents == old(contents) + Blocks.Decoded(mode, data).value
      ensures !threw && failed && mode == OCTET ==> contents == old(contents) + data
      ensures !threw && failed && mode == NETASCII ==> contents == old(contents)
      ensures old(failed) ==> failed
      ensures faults == 0 ==> failed == old(failed)
    {
      threw := false;
      var bytesWritten, attempt := 0, 0;
      if mode != OCTET {
        var decoded := Netascii.NetasciiToNative(data);
        if decoded.None? {
          return true;
        }
        var nativeData := decoded.value;
        while !failed && bytesWritten < |nativeData|
          invariant bytesWritten == 0 || bytesWritten == |nativeData|
          invariant bytesWritten == 0 ==> contents == old(contents)
          invariant bytesWritten > 0 ==> contents == old(contents) + nativeData && !failed
          invariant old(failed) ==> failed
          invariant faults == 0 ==> failed == old(failed)
          decreases |nativeData| - bytesWritten, if failed then 0 else 1
        {
          var n := Fwrite(nativeData[..|nativeData| - bytesWritten], attempt < faults);
          bytesWritten := bytesWritten + n;
          attempt := attempt + 1;
        }
      } else {
        while bytesWritten < |data|
          invariant bytesWritten == 0 || bytesWritten == |data|
          invariant contents == if bytesWritten == 0 then old(contents) else old(contents) + data
          invariant old(failed) ==> failed
          invariant faults == 0 ==> failed == old(failed)
          decreases |data| - bytesWritten, faults - attempt
        {
          var n := Fwrite(data[..|data| - bytesWritten], attempt < faults);
          bytesWritten := bytesWritten + n;
          attempt := attempt + 1;
        }
      }
    }
  }
}
