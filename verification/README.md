# Verified model of a TFTP server and client

A Dafny model of the TFTP server connection, of the file streams that feed it, of the wire formats, of the
client's `get_file` and of the epoll loop, with proofs that transfers over an unreliable network deliver the
right bytes. `dafny verify dfyconfig.toml` checks everything.

## What the model consists of

- **The connection.** `Connection` gives `handle_read`, `handle_write`, `retransmit` and the constructor as
  functions from one connection value to the next. `ServerConnection.TftpServerConnection` is the class with
  the original's fields; each method is proved to do exactly what the function says, on top of the reader,
  writer and timer classes. Sockets, devices and clocks appear as parameters: a receive finds a datagram, nothing or
  an error; a send is taken, refused for now or fails; a timer may fire at any moment.
- **The streams.** `Blocks` is the specification "encode the whole file, then cut it into blocks".
  `ReadFile.TftpReadFile` is the chunked reader with its overflow buffer, whose ghost field `remaining` is the part of
  the encoded file that has not been handed out. `WriteFile.TftpWriteFile` is the decoding writer.
- **The environments.** `History` runs one connection against arbitrary datagrams, send results, device errors
  and expiries and records what it did. `FifoTransfer` puts a READ connection and a receiver at the ends of two queues
  that lose and repeat datagrams but keep their order; `BagTransfer` uses sets from which anything ever sent can be
  delivered any number of times in any order. The receiver is `get_file` or one that, like RFC 1350
  asks, answers repeated packets. For WRITE, `HonestWrites` says what a sender of one file can make arrive.
  Unbounded block indices are kept beside the datagrams as bookkeeping; the two sides see wire numbers only.
- **The loop.** `EventLoop` models batches of epoll events over a map of connections with their interest masks.

The main results:

- READ: lockstep safety for files of any length (`FifoResults.ReadSafety`), completion (`FifoResults.ReadCompletion`),
  end-to-end correctness of `get_file` (`FifoResults.EndToEnd`), when it can succeed
  (`FifoProgress.GetFileCanSucceed`), and from which states a transfer can still be completed
  (`RecoveryResults.RecoverableExactly`).
- READ with reordering: safety and completion (`BagTransfer.BagSafety`, `BagTransfer.BagCompletion`) and exactly when
  they fail (`BagResults.WrongBlockExactly`, `BagResults.EarlyFinishExactly`).
- WRITE: every block once and in order (`WriteSide.WriteExactlyOnce`), when a file can be stored
  (`WriteResults.WriteSucceedsExactly`) and when something else is (`WriteResults.WrongWriteExactly`).
- Giving up: when a healthy transfer is aborted (`FifoResults.MismatchExactly`, `FalseAborts.FalseAbortExactly`,
  `WriteAborts.WriteAbortExactly`), bounded effort (`Effort.BoundedEffort`), and when silence ends a connection
  (`Silence.SilenceEndsExactly`).
- Failing sends, reads and writes: what a connection notes (`Failures.FailureNotedExactly`), what it says from then
  on (`Failures.FailureSilences`) and when it is over (`Failures.ErrorEndsExactly`).
- The loop: dispatch safety (`EventLoop.DispatchSafety`), that it holds exactly the connections it should, each where
  its own events lead (`LoopResults.LoopKeepsTraces`, `LoopResults.ClientsAreIsolated`), and what ends it
  (`LoopResults.TurnEndsExactly`).
- The client: how a call of `get_file` ends (`Client.SucceedsExactly`, `Client.GivesUpExactly`,
  `Client.EscapesExactly`) and what it leaves in the file (`Client.OutputExactly`).
- Every datagram a waiting connection can be sent: `Reactions.ReadReacts` and `Reactions.WriteReacts`.
- Options: which are acknowledged with what (`Options.OackExactly`) and which values are used
  in every run (`Terms.TermsInForce`).
- The streams and codecs: `Streams.ReadBlocks`, `Blocks.NetasciiBlocksDecode` and the round trips.

## Where the code departs from what is intended

Each is kept in the model, and a lemma says exactly when it shows.

- `_block_number - 1` is compared as an `int`, so at wire number 0 the previous number is not recognised: from
  65536 blocks on, one repeated acknowledgement can abort a healthy READ (`FalseAborts.FalseAbortExactly`). One
  repeated block would do the same to a WRITE, but only under a receive limit with room for a full block; the
  limit of the code hides this, since it lets no WRITE get past its first block (`WriteAborts.WriteAbortExactly`).
- WAIT_FOR_DATA receives at most the block size with the header counted in, so a full block never fits and a WRITE
  stores at most one block, cut to the block size minus 4 and then taken as the final one: only files at least
  four bytes shorter than a block arrive whole (`WriteResults.CodedWriteSucceedsExactly`).
- After acknowledging options a WRITE expects block 0 and refuses DATA 1 (`WriteSide.OackWriteRefusesBlockOne`,
  `WriteAborts.WriteAbortExactly`): under the limit of the code it never stores a file
  (`WriteResults.CodedWriteSucceedsExactly`), nor under any other unless the file has a split carriage return
  pair and at least 65535 (S + 1) blocks (`WriteResults.OptionsNeverComplete`).
- Sending an option acknowledgement arms no timer: a connection that has sent nothing else is the one that waits
  for ever (`Effort.WokenExactly`, `Silence.SilenceEndsExactly`, `RecoveryResults.RecoverableExactly`).
- ERROR packets are noticed only in WAIT_FOR_DATA and only if they fit its receive limit
  (`Silence.ErrorSeenExactly`).
- The timer can fire while there is something to send, and then a debug build hits the assertion in `retransmit`
  (`LateExpiry.AssertionReachableExactly`).
- A netascii READ that is abandoned with bytes in the overflow buffer fails the reader's assertion in a debug build
  (`CarriedOver.CarriedAtBlock`, `Streams.ReadFirstBlock`).
- Payloads are decoded one by one, so a block boundary inside a carriage return pair makes netascii decoding throw
  (`Blocks.NetasciiBlocksDecode`); in a WRITE that ends the server's loop (`LoopResults.TurnEndsExactly`).
- The ERROR parser sign-extends the low code byte (`Packets.ErrorRoundTrip`).
- A block size request of 2^32 or more is acknowledged as asked and served modulo 2^32
  (`Options.BlockSizeMisreported`).
- A number with a minus sign is taken as counted down from 2^64 (`Options.NumberRead`).
- An ERROR packet for a wrong number says nothing: code 0 and an empty text (`Failures.ErrorPacketExactly`).
- Extra bytes behind an acknowledgement and the first byte of a datagram are not looked at
  (`Packets.AckReadExactly`, `Packets.DataReadExactly`).

## Model

| member | source | states |
|---|---|---|
| FifoTransfer.LockstepAlways | src/server/tftp_server_connection.cpp:299-554 | In every run over an order-keeping network that loses and repeats, server and receiver stay within one block of each other, the queues hold only current and previous indices in order, and every datagram in flight is the one its index names |
| FifoResults.ReadSafety | src/server/tftp_server_connection.cpp:319-480 | For any file length: receiver count and server index differ by at most one, indices in flight lie in {n-1, n}, and the bytes received are a prefix of the encoded file, although the wire carries indices modulo 65536 |
| FifoResults.ReadCompletion | src/server/tftp_server_connection.cpp:333-341 | When the server finishes through the final acknowledgement, the receiver holds the whole encoded file in exactly \|e\| / S + 1 blocks and the reader has nothing left |
| FifoResults.ServedStarts | src/server/tftp_connection_handler.cpp:21-29 | The request `get_file` sends is read by the listener as it was sent if and only if it fits the 2048 bytes received, and then starts a 512-byte transfer of the file's encoding at block 1 |
| FifoResults.StrictReceiverIsGetFile | src/client/tftp_client.cpp:78-120 | The receiver inside a run is `get_file` on exactly the datagrams delivered to it |
| FifoResults.EndToEnd | src/client/tftp_client.cpp:58-121 | Whenever `get_file` returns true its output is the server's file, in both modes and for every length; an exception escapes only if a block boundary splits a carriage return pair |
| FifoProgress.GetFileCanSucceed | src/client/tftp_client.cpp:78-121 | Some run makes `get_file` return true if and only if the mode is octet or no block boundary splits a carriage return pair |
| FifoProgress.CleanTransferCompletes | src/server/tftp_server_connection.cpp:299-554 | Without losses three actions a block (and three for options) finish both sides, for every decodable file |
| FifoResults.MismatchExactly | src/server/tftp_server_connection.cpp:325-351 | In every reachable state the next acknowledgement leads to ERROR if and only if it repeats the previous block's and the current wire number is 0 |
| FifoResults.NoFalseAbort | src/server/tftp_server_connection.cpp:346-351 | Below 65536 blocks no run without local failures reaches ERROR |
| FalseAborts.FalseAbortExactly | src/server/tftp_server_connection.cpp:325-351 | A run without local failures that reaches ERROR exists if and only if the file has 65536 blocks or more and, for a strict receiver, the first 65534 decode |
| RecoveryResults.RecoverableExactly | src/server/tftp_server_connection.cpp:299-554 | From every reachable state that is neither finished nor ERROR, whatever was lost, some continuation completes the transfer on both sides if and only if the server does not wait for the answer to a lost option acknowledgement and, with its last retry used, can still get on by what is in flight |
| BagTransfer.OrderedAlways | src/server/tftp_server_connection.cpp:299-554 | The invariant of READ over a reordering network: nothing in flight is ahead of the server or, for acknowledgements, of the receiver |
| BagTransfer.BagSafety | src/server/tftp_server_connection.cpp:319-480 | With loss, repetition, delay and reordering and at most 65536 blocks, the receiver's blocks are a prefix of the file's blocks |
| BagResults.WrongBlockExactly | src/server/tftp_server_connection.cpp:437-480 | Some run makes the receiver store a wrong block if and only if, after more than 65535 blocks that can be stored, two different blocks share the wire number that is next |
| BagResults.ConfusableExactly | src/server/tftp_server_connection.cpp:437-480 | Where all blocks before the last decode, that is the case if and only if the file has more than 65536 blocks |
| BagTransfer.BagCompletion | src/server/tftp_server_connection.cpp:333-341 | There too the server finishes through an acknowledgement only when the receiver holds the whole file: up to 65536 blocks, 65535 after an option acknowledgement |
| BagResults.EarlyFinishExactly | src/server/tftp_server_connection.cpp:333-341 | Some run finishes by an acknowledgement before the receiver has all the blocks if and only if the file is longer than that and its first 65535 blocks decode |
| ReadSide.CreatedForReading | src/server/tftp_server_connection.cpp:58-83 | A permitted READ starts at block 1, or at 0 with an option acknowledgement to send, with the whole encoding ahead of it |
| Streams.ReadBlocks | src/common/tftp_read_file.cpp:54-94 | Any number of calls of `read_in_to` in a row hands out the blocks of the encoded file in order and then only empty ones, and nothing is lost in between |
| Streams.ReadFromStart | src/common/tftp_read_file.cpp:54-94 | After any number of reads from the start the overflow buffer holds just what has been read and encoded but not handed out |
| Streams.ReadFirstBlock | src/common/tftp_read_file.cpp:61-84 | The first netascii block leaves bytes in the overflow buffer exactly when the line feeds and carriage returns among the bytes read do not fit the block |
| Streams.StreamRefinesBlocks | src/common/tftp_read_file.cpp:54-94 | Taking the front of what remains over and over is cutting into blocks |
| ReadSide.ReadStep | src/server/tftp_server_connection.cpp:299-426 | `handle_read` keeps the READ invariant for any datagram, never touches the reader and lets no codec exception escape |
| ReadSide.WriteStep | src/server/tftp_server_connection.cpp:433-554 | `handle_write` keeps the READ invariant, and whatever DATA it sends is the block of the current index |
| ReadSide.RetransmissionIdentity | src/server/tftp_server_connection.cpp:437-481 | In every run the k-th read of the file is for block k and no block is read twice; every DATA datagram of an index carries that block of the encoded file, across refusals, timeouts and repeated acknowledgements |
| ReadSide.ReadNeverThrowsCodec | src/server/tftp_server_connection.cpp:299-426 | In every READ run only a socket error can escape from `handle_read` |
| Reactions.ReadReacts | src/server/tftp_server_connection.cpp:319-363 | In every run of a READ that waits at block n: the acknowledgement of n moves on to n + 1 or ends the transfer at the last block, that of n - 1 has block n sent again unless n is 0 modulo 65536, any other leads to ERROR, and what is no acknowledgement changes nothing |
| Reactions.ReadSends | src/server/tftp_server_connection.cpp:437-476 | In every run of a READ with a block to send, the block of the current index goes out and the wait for its acknowledgement begins |
| Blocks.BlocksConcat | src/common/tftp_read_file.cpp:80-84 | The blocks make up the encoded file |
| Blocks.BlocksCount | src/server/tftp_server_connection.cpp:449-456 | A file of \|e\| encoded bytes takes \|e\| / S + 1 blocks |
| Blocks.BlocksShape | src/server/tftp_server_connection.cpp:449-456 | Every block but the last is full and the last is short |
| Blocks.DecodedBlocksAgree | src/server/tftp_server_connection.cpp:383-384 | Where block-by-block decoding succeeds it equals decoding the whole |
| Blocks.BlocksDecodeToFile | src/client/tftp_client.cpp:84-92 | Blocks of a file that all decode, decode to the file |
| Blocks.NetasciiBlocksDecode | src/common/tftp_write_file.cpp:56-64 | Decoding a netascii transfer block by block fails if and only if a block boundary separates a carriage return from its line feed or NUL; otherwise it yields the file |
| Blocks.BlockEndsAtMultiples | src/common/tftp_read_file.cpp:80-84 | Block boundaries are the multiples of the block size |
| Blocks.OctetBlocksDecode | src/common/tftp_write_file.cpp:65-70 | In octet mode block-by-block storing never fails |
| ReadFile.TftpReadFile.ReadInTo | src/common/tftp_read_file.cpp:54-94 | Output and what remains make up what remained before; the overflow never exceeds the block size; without a device error the block is as long as possible, and a short one comes exactly at the end with an empty buffer; how far the file is read and exactly when bytes are carried over |
| ReadFile.TftpReadFile.FillNetascii | src/common/tftp_read_file.cpp:61-66 | The reading loop puts the next file bytes into the buffer, never past its end |
| ReadFile.TftpReadFile.Emit | src/common/tftp_read_file.cpp:68-84 | The carried-over bytes come first and what exceeds the block is carried over |
| ReadFile.TftpReadFile.ReadOctet | src/common/tftp_read_file.cpp:86-93 | The octet loop returns the next file bytes, short only at the end or on an error |
| ReadFile.TftpReadFile.Open | src/common/tftp_read_file.cpp:31-39 | The whole encoding of the file remains to be read |
| ReadFile.Refines | src/common/tftp_read_file.cpp:68-84 | Carrying bytes over neither loses nor reorders encoded bytes |
| WriteFile.TftpWriteFile.Write | src/common/tftp_write_file.cpp:53-71 | Throws exactly on an undecodable payload; otherwise appends the decoded payload once, however often attempts fail in octet mode |
| ServerConnection.TftpServerConnection.constructor | src/server/tftp_server_connection.cpp:18-118 | The new connection is the value `Created` gives |
| ServerConnection.TftpServerConnection.ProcessOptions | src/server/tftp_server_connection.cpp:129-213 | The loop over the options computes `Negotiate` |
| ServerConnection.TftpServerConnection.HandleRead | src/server/tftp_server_connection.cpp:299-426 | Changes the state and throws as `Connection.HandleRead` says, with the block size as receive limit |
| ServerConnection.TftpServerConnection.HandleWrite | src/server/tftp_server_connection.cpp:433-554 | Changes the state, sends and throws as `Connection.HandleWrite` says |
| ServerConnection.TftpServerConnection.AcceptData | src/server/tftp_server_connection.cpp:368-405 | The three cases of a DATA packet |
| ServerConnection.TftpServerConnection.StorePayload | src/server/tftp_server_connection.cpp:383-398 | Decoding errors escape, device errors lead to ERROR, a short payload is final |
| ServerConnection.TftpServerConnection.LoadPacket | src/server/tftp_server_connection.cpp:439-461 | Takes the next block off the remaining bytes and caches it under the current number |
| ServerConnection.TftpServerConnection.SendData | src/server/tftp_server_connection.cpp:437-481 | Sends the cached packet, reading one only if none is cached, and arms the timer only when it went out |
| CarriedOver.CarriedAtBlock | src/common/tftp_read_file.cpp:27 | A READ that ends with block n cached, whatever ends it, leaves in the overflow buffer the part of the encoding of what was read that lies beyond the first n blocks; the destructor's assertion holds if and only if there is none |
| CarriedOver.NothingCarried | src/common/tftp_read_file.cpp:27 | In particular the assertion holds once everything is handed out |
| Timers.OneShot | src/common/timer.cpp:38-71 | However often time passes and the timer is read, arming it is noticed once, or never if no read comes after it ran out or the period is zero |
| WriteSide.CreatedForWriting | src/server/tftp_server_connection.cpp:84-105 | A permitted WRITE starts with an empty file, expecting block 1, or block 0 after an option acknowledgement |
| WriteSide.WriteExactlyOnce | src/server/tftp_server_connection.cpp:365-503 | On any datagrams and under any receive limit a plain WRITE accepts blocks 1, 2, 3, ... modulo 65536 once each, the file is their decoded concatenation, and the current number follows from the count across timeouts and the wrap |
| HonestWrites.HonestWrite | src/server/tftp_server_connection.cpp:365-399 | With room for the header and at most 65536 blocks, a sender's own datagrams in any order store only leading blocks, and once the final block is in the stored file is the sender's |
| WriteResults.WrongWriteExactly | src/server/tftp_server_connection.cpp:365-399 | Under any receive limit such a sender can make something else than the next block be stored if and only if two of its datagrams can be confused: the numbers agree, what fits the limit decodes and differs, and everything before can be stored |
| WriteResults.ConfusedExactly | src/server/tftp_server_connection.cpp:365-399 | With room for the header and blocks that decode, that is the case if and only if the file has more than 65536 blocks |
| WriteAborts.WriteAbortExactly | src/server/tftp_server_connection.cpp:365-404 | For every receive limit: a sender that keeps in step can meet an ERROR without any local failure if and only if the limit has room for a full block, the file has 65536 blocks or more and the first 65535 can be stored; after an option acknowledgement, if and only if a header fits the limit |
| WriteSide.CodedWriteAtMostOneBlock | src/server/tftp_server_connection.cpp:366 | With the receive limit of the code no run accepts a second block |
| WriteSide.SecondBlockNeedsHeaderRoom | src/server/tftp_server_connection.cpp:366-396 | With or without options, a run that accepts two blocks exists if and only if the receive limit is at least the block size plus 4 |
| WriteResults.WriteSucceedsExactly | src/server/tftp_server_connection.cpp:365-528 | For every receive limit and every file whose blocks decode or number less than 65536 (S + 1): some run with an honest sender ends with exactly that file stored if and only if no option was acknowledged, the limit leaves room for the longest block's header and no block boundary splits a carriage return pair |
| LuckyWrites.SplitFileStored | src/server/tftp_server_connection.cpp:380-398 | Of longer files with a split pair some are stored all the same: a file of which not all blocks decode, and a run with an honest sender that ends with it stored |
| StoredBlocks.SameCount | src/server/tftp_server_connection.cpp:380-398 | Blocks that decode to the file are its blocks, in order, unless the file has at least 65536 (S + 1) blocks, or 65535 (S + 1) after options |
| WriteResults.CodedWriteSucceedsExactly | src/server/tftp_server_connection.cpp:366 | With the limit of the code a file of any length can be stored if and only if no option was acknowledged and its encoding is at least four bytes shorter than a block |
| WriteResults.OptionsNeverComplete | src/server/tftp_server_connection.cpp:525-528 | After an option acknowledgement no run with an honest sender ends with the file stored, if its blocks decode or number less than 65535 (S + 1) |
| WriteResults.ShortLimitNeverCompletes | src/server/tftp_server_connection.cpp:366-398 | Without that room, with or without options, no run with an honest sender ends with a file of any length stored |
| WriteSide.OackWriteRefusesBlockOne | src/server/tftp_server_connection.cpp:525-528 | In every run of a WRITE with options that has accepted nothing, DATA 1 leads to ERROR |
| Reactions.WriteReacts | src/server/tftp_server_connection.cpp:364-415 | In every run of a WRITE that waits for block n, under any receive limit: a block n that decodes is stored and acknowledged or, if it cannot be written, leads to ERROR; block n - 1 is only acknowledged, unless n is 0 modulo 65536; any other leads to ERROR; an ERROR packet ends it; anything else changes nothing |
| Reactions.ExpiryReacts | src/server/tftp_server_connection.cpp:280-315 | In every run an unread expiry is read instead of whatever the socket holds: the fourth in a row ends the connection, any other makes a waiting one send its last packet again, its file and cached block untouched |
| Reactions.WriteSends | src/server/tftp_server_connection.cpp:482-508 | In every run of a WRITE an acknowledgement that is sent parses to the number of the last block taken, and the connection is finished then exactly if that block was short |
| LateExpiry.AssertionReachableExactly | src/server/tftp_server_connection.cpp:287-291 | A run with a retransmission due in a sending state exists for every READ, for a plain WRITE if and only if the receive limit is at least 4, and after an option acknowledgement if and only if it has room for a full block |
| Effort.BoundedEffort | src/server/tftp_server_connection.cpp:301-315 | p parsed packets lead to at most 3(p + 1) retransmissions and, while unfinished, 4p + 4 DATA or ACK datagrams; the fourth timeout in a row finishes |
| Effort.WokenExactly | src/server/tftp_server_connection.cpp:470-528 | A waiting, unfinished connection has a running timer or an unread expiry if and only if it has sent a DATA or ACK packet |
| Effort.NeverStuck | src/server/tftp_server_connection.cpp:470-475 | Having sent DATA or ACK, a waiting connection has an unread expiry or a timer running for 1 to 255 seconds |
| Effort.TimeoutFinishesExactlyAtLimit | src/server/tftp_server_connection.cpp:303-307 | Reading an expiry finishes the connection if and only if three in a row went before |
| Silence.SilenceEndsExactly | src/server/tftp_server_connection.cpp:301-315 | A waiting connection whose peer falls silent can come to an end, and then within four expiries, if and only if it has sent a DATA or ACK packet |
| Silence.LostOackWaitsForever | src/server/tftp_server_connection.cpp:510-531 | After an option acknowledgement a silent peer leaves the connection waiting, unchanged, whatever time passes |
| Silence.ErrorSeenExactly | src/server/tftp_server_connection.cpp:355-414 | An ERROR packet ends a waiting connection if and only if it waits for data and the packet up to its first NUL fits the receive limit |
| Silence.ErrorUnseenInWaitForAck | src/server/tftp_server_connection.cpp:320-362 | A datagram that is no acknowledgement, an ERROR included, changes nothing in WAIT_FOR_ACK |
| Effort.StartsWithoutEffort | src/server/tftp_server_connection.cpp:28-37 | Every READ and WRITE start meets the premises of the effort bounds |
| Endings.FinishedStays | src/server/tftp_server_connection.cpp:299-554 | No event revives a finished connection |
| Endings.ErrorIsFinal | src/server/tftp_server_connection.cpp:532-546 | A connection in ERROR never again sends DATA or ACK, reads or writes its file, or changes its state or block number |
| Endings.RefusalEnds | src/server/tftp_server_connection.cpp:532-546 | A refusing connection finishes exactly when its ERROR packet was sent or failed for good, or its socket broke |
| Endings.DenialIsTold | src/server/tftp_server_connection.cpp:44-49 | A forbidden request gets nothing but the ERROR packet of the permission check, which parses back to it |
| Failures.FailureNotedExactly | src/server/tftp_server_connection.cpp:443-516 | In every run of a transfer the internal error is noted, and the state is ERROR, if and only if some DATA or ACK packet could not be sent for good, some block could not be read or some expected block could not be written |
| Failures.FailureSilences | src/server/tftp_server_connection.cpp:463-517 | After such a failure no continuation sends DATA or ACK again or writes to the file; all that is ever sent is an ERROR packet that parses to code 0 and "Internal server error", and a socket that takes a datagram gets it |
| Failures.ErrorEndsExactly | src/server/tftp_server_connection.cpp:533-547 | In every run a connection in ERROR, whatever its timer does, finishes exactly when its ERROR packet was sent or failed for good or its socket broke |
| Failures.FailureEndsExactly | src/server/tftp_server_connection.cpp:463-547 | So it does after a failure |
| Failures.LostOackEnds | src/server/tftp_server_connection.cpp:510-517 | An option acknowledgement that cannot be sent finishes the connection with nothing said |
| Failures.ErrorPacketExactly | src/server/tftp_server_connection.cpp:346-404 | The ERROR packet of a transfer that was started parses to code 0, with the text "Internal server error" if and only if something failed and an empty text otherwise |
| Failures.RefusalIsTold | src/server/tftp_server_connection.cpp:84-117 | A permitted request starts in ERROR if and only if it is a WRITE whose file cannot be opened or no READ or WRITE; it gets nothing but an ERROR packet that parses to code 2 or 4 and its text, and ends when that settled |
| Failures.PutOffSendsTheSame | src/server/tftp_server_connection.cpp:477-481 | However often a send is put off, nothing goes out meanwhile and it then ends as it would have at once |
| Client.GetFile | src/client/tftp_client.cpp:37-122 | The loop's outcome, output file and acknowledgements are those of the datagram-by-datagram receiver |
| Client.SucceedsExactly | src/client/tftp_client.cpp:44-121 | `get_file` returns true exactly on datagram sequences that begin with decodable blocks 1, 2, 3, ... modulo 65536, full but for the last |
| Client.GivesUpExactly | src/client/tftp_client.cpp:44-117 | It returns false exactly on datagram sequences in which, behind nothing but full blocks, something comes that is no DATA packet or carries another number |
| Client.EscapesExactly | src/client/tftp_client.cpp:84-87 | The exception of the codec escapes exactly when, behind nothing but full blocks, the next block does not decode |
| Client.OutputExactly | src/client/tftp_client.cpp:78-118 | In every case the output file holds the decoded payloads of the first datagrams, one each, but for a last one that does not decode |
| Client.PayloadTaken | src/client/tftp_client.cpp:40-106 | Of a longer datagram only the first 512 bytes of payload are taken |
| Client.WaitingRun | src/client/tftp_client.cpp:78-118 | It still waits exactly when every datagram so far was the next full block, and it has acknowledged blocks 1 to n once each, in order |
| Client.StoppedRun | src/client/tftp_client.cpp:94-118 | Once `get_file` has returned or thrown, later datagrams change nothing |
| EventLoop.DispatchSafety | src/server/tftp_server.cpp:70-113 | Over every run of the loop, events in any order, the "Error state" exception is unreachable and sockets are registered for what their connection waits for |
| EventLoop.TwiceReportedThrows | src/server/tftp_server.cpp:91-98 | That each descriptor is reported once a batch is needed: a socket reported twice makes the second call throw |
| LoopResults.LoopKeepsTraces | src/server/tftp_server.cpp:57-126 | In every run of the loop the server holds exactly the connections that arrived and were not dropped as finished; each is where the list of events it met since its arrival, one for each handler call, leads in its own run, registered for what it waits for; and the loop has ended exactly if one of these events let an exception escape, with that exception |
| LoopResults.ClientsAreIsolated | src/server/tftp_server.cpp:88-125 | A turn that does not end the loop takes each connection where the events meant for itself lead, whatever else the batch holds, and it is gone if and only if it is finished then and the sweep drops it |
| LoopResults.NewcomersExactly | src/server/tftp_server.cpp:73-86 | The first arrival under a new id is held in the state it arrived in, with the mask that state asks for, nobody else is added and nobody is touched |
| LoopResults.ConnectionsFollowRuns | src/server/tftp_server.cpp:57-126 | So each connection is where some run leads from one of the states newcomers arrive in |
| LoopResults.TurnEndsExactly | src/server/tftp_server.cpp:70-113 | A turn ends the loop if and only if some waiting connection without an expiry is woken to a failed receive or to the expected block of a WRITE that does not decode |
| EventLoop.ReadKeepsSending | src/server/tftp_server_connection.cpp:299-426 | `handle_read` never turns a connection that has something to send into one that waits |
| EventLoop.TftpServer.Start | src/server/tftp_server.cpp:49-128 | The loop computes `Serve`, turn by turn, until an exception leaves it |
| EventLoop.TftpServer.HandleTurn | src/server/tftp_server.cpp:59-125 | One batch of events in order, then the sweep |
| EventLoop.TftpServer.AcceptArrivals | src/server/tftp_server.cpp:73-86 | New connections enter with the mask their state asks for and existing ones stay |
| Netascii.NativeToNetascii | src/common/utils.cpp:10-38 | The loop computes `Encode` |
| Netascii.NetasciiToNative | src/common/utils.cpp:41-87 | The loop computes `Decode`, failing exactly where the code throws |
| Netascii.BytesEncoded | src/common/utils.cpp:15-33 | A line feed becomes 13, 10, a carriage return 13, 0, and every other byte stays |
| Netascii.RoundTrip | src/common/utils.cpp:10-87 | decode(encode(x)) = x for every x |
| Netascii.EncodeConcat | src/common/utils.cpp:10-38 | Encoding is a homomorphism |
| Netascii.DecodeConcat | src/common/utils.cpp:41-87 | A decodable front decodes independently of what follows |
| Netascii.EncodeAfterDecode | src/common/utils.cpp:10-87 | For decodable y, encode(decode(y)) = y if and only if y has no bare line feed |
| Netascii.EncodedCrPaired | src/common/utils.cpp:21-30 | In encoded text every carriage return is followed by a line feed or NUL |
| Bytes.WireIsRemainder | src/server/tftp_server_connection.cpp:344 | The wire number, which the model gets by repeated subtraction, is the remainder modulo 65536 |
| CStrings.ExtractCStringsFromBuffer | src/common/utils.cpp:132-142 | The loop computes `Extract` of the buffer past the offset |
| CStrings.JoinRoundTrip | src/common/utils.cpp:132-142 | Splitting restores a joined list if and only if its strings are NUL-free |
| CStrings.JoinOfExtract | src/common/utils.cpp:132-142 | Rejoining gives a prefix of the buffer and the remainder has no NUL |
| CStrings.ExtractUnique | src/common/utils.cpp:132-142 | No other list of NUL-free strings does |
| CStrings.ExtractCount | src/common/utils.cpp:132-142 | One string comes out for every NUL |
| Packets.DataRoundTrip | src/common/tftp.cpp:74-99 | DATA round-trips for all 65536 numbers and all payloads |
| Packets.WordOfBytes | src/common/tftp.cpp:81-96 | Every block number is recovered from the two bytes it is sent in |
| Packets.DataParseUnique | src/common/tftp.cpp:87-99 | Only that datagram parses to the packet, up to its unread first byte |
| Packets.AckRoundTrip | src/common/tftp.cpp:102-124 | ACK round-trips for all 65536 numbers |
| Packets.AckParseUnique | src/common/tftp.cpp:115-124 | An ACK is determined by bytes 1 to 3 |
| Packets.ErrorCodeRead | src/common/tftp.cpp:150 | The code read back from two signed characters: the high byte becomes 255 when the low one is 128 or more |
| Packets.ErrorRoundTrip | src/common/tftp.cpp:127-159 | ERROR round-trips if and only if the message is NUL-free and the low code byte is below 128 or the high one is 255 |
| Packets.StandardErrorsRoundTrip | src/common/tftp.cpp:127-159 | All codes of section 5 of RFC 1350 survive |
| Packets.OackRoundTrip | src/common/tftp.cpp:162-210 | OACK round-trips if and only if names and values are NUL-free |
| Packets.RequestParsed | src/common/tftp.cpp:33-71 | A request with options arrives with its name and mode, and its options in order |
| Packets.OptionsReceived | src/common/tftp.cpp:57-69 | Every option of a request is read in order, its letters turned into capitals and every other byte unchanged |
| Packets.ModeExactly | src/common/tftp.cpp:213-227 | A mode string means OCTET if and only if its part before the first NUL spells these five letters in either case, and NETASCII likewise |
| Packets.ModeIgnoresCase | src/common/tftp.cpp:213-227 | Mode strings that agree up to letter case mean the same |
| Packets.RequestRefused | src/common/tftp.cpp:33-56 | A request with terminated file name and mode is refused if and only if the mode spells neither name |
| Packets.NoRequest | src/common/tftp.cpp:36-46 | Fewer than two strings or another opcode are refused |
| Packets.RwRoundTrip | src/common/tftp.cpp:16-71 | A request round-trips if and only if it is a READ or WRITE without options whose file name is NUL-free |
| Packets.WireFormats | src/common/tftp.cpp:16-186 | Every packet format byte by byte, with numbers in network byte order and the two mode names |
| Packets.DataReadExactly | src/common/tftp.cpp:87-99 | A datagram parses to a DATA packet if and only if it has opcode 3, the number in network order and the payload, whatever its first byte |
| Packets.AckReadExactly | src/common/tftp.cpp:115-124 | It parses to an ACK if and only if it has opcode 4 and the number, whatever its first byte and whatever follows |
| Packets.ErrorReadExactly | src/common/tftp.cpp:139-159 | It parses to an ERROR if and only if it has five bytes, opcode 5 and a NUL behind the code; the text is what stands before the first one |
| Packets.OackRead | src/common/tftp.cpp:189-210 | Names and values in turn parse to the options, whatever the first byte; an unterminated rest is dropped and with a name left over all options are |
| Packets.RequestRead | src/common/tftp.cpp:33-71 | So for a request, in whatever case its mode is spelled |
| Packets.SerialiseOackPacket | src/common/tftp.cpp:162-186 | The loop computes the opcode and the NUL-terminated join of all names and values |
| Packets.DeserialiseRwPacket | src/common/tftp.cpp:33-71 | The parser, its rejections and its option loop compute `DeserialiseRw` |
| Packets.DeserialiseOackPacket | src/common/tftp.cpp:189-210 | The parser and its option loop compute `DeserialiseOack` |
| Options.OackNamesSubsequence | src/server/tftp_server_connection.cpp:129-213 | The acknowledged names are a subsequence of the requested ones |
| Options.TimeoutNegotiated | src/server/tftp_server_connection.cpp:187-207 | The timeout stays in 1..255 and is what the last acknowledged TIMEOUT says, or the default |
| Options.TimeoutDecided | src/server/tftp_server_connection.cpp:187-207 | The last TIMEOUT that parses to 1..255 decides, and without one it is two seconds |
| Options.OackExactly | src/server/tftp_server_connection.cpp:129-213 | Each BLKSIZE that parses, each TSIZE of a READ and each TIMEOUT in 1..255 is acknowledged, in request order, with the MTU or the text of the request, the file size and the timeout in plain digits; nothing else is |
| Terms.TermsInForce | src/server/tftp_server_connection.cpp:52-57 | In every run of a started transfer its mode is that of the request, a running timer has the period of the last TIMEOUT in 1..255 or two seconds, and the block size is the last one asked for, cut to 32 bits and to the MTU, or 512 |
| Terms.OackInForce | src/server/tftp_server_connection.cpp:129-213 | A transfer starts with an option acknowledgement if and only if some option can be accepted, and whenever it is sent it answers just these options |
| Options.NumberRead | src/server/tftp_server_connection.cpp:138-193 | What `stoul` makes of blanks, a sign, zeros, a number and anything behind it: the number, counted down from 2^64 behind a minus sign, or out of range |
| Options.NoNumberRead | src/server/tftp_server_connection.cpp:138-193 | Without a digit the conversion fails |
| Options.BlockSizeAcknowledged | src/server/tftp_server_connection.cpp:134-164 | The block size is the number in the last acknowledged BLKSIZE if and only if that number fits 32 bits |
| Options.BlockSizeClamped | src/server/tftp_server_connection.cpp:138-158 | The last parseable BLKSIZE decides, cut to 32 bits and to the MTU |
| Options.BlockSizeMisreported | src/server/tftp_server_connection.cpp:138-158 | A request of n >= 2^32 is acknowledged as n and served as n modulo 2^32 |
| Options.DecimalRoundTrip | src/server/tftp_server_connection.cpp:138-199 | `stoul` reads back every number `to_string` prints |

## Left out

- Sockets, epoll and timerfd system calls, logging, argument parsing and signals: only their contracts appear, as parameters of the handlers.
- `is_operation_allowed`, `is_subpath` and all path handling: the outcome of the permission check is a parameter of the constructor.
- `tftp_client::send_file`: it compares the outgoing packet with itself, so there is no lock-step property to state.
- `error_code_to_string` and `state_to_string`: plain tables.
- ReadFile.TftpReadFile.Open: a failing open is left out, because the code goes on with a null stream, which is undefined.
- ServerConnection.TftpServerConnection.constructor: a READ whose file cannot be opened is left out for that reason; the code overwrites its ERROR state.
- WriteFile.TftpWriteFile.Write: a failing `fwrite` attempt transfers nothing; partial writes are not modelled, and the octet loop, which ignores the error flag, is given finitely many failing attempts.
- Client.GetFile: the three-second poll and a failure to open the output file are left out; both only make it return false earlier.
- EventLoop.TftpServer.Start: failures and interruptions of epoll_wait and the exit flag are left out; the model stops after any number of turns.
- EventLoop.TftpServer.HandleTurn: the sweep drops some finished connections; the code advances the iterator `erase` returned, possibly past the end, so nothing more can be said.
- EventLoop.TftpServer.AcceptArrivals: the request queue and `_max_clients` are left out; arrivals are a parameter of a turn.
- WriteResults.WriteSucceedsExactly: files with a split carriage return pair and 65536 (S + 1) blocks or more (65535 (S + 1) after options) are left out, because there the condition is false of some file (`LuckyWrites.SplitFileStored`): wrong blocks under repeated numbers can add up to the file.
- WriteResults.OptionsNeverComplete: leaves out the same files.
- WriteResults.WrongWriteExactly: is about a WRITE without options; with options every sender's first block is refused.
- WriteAborts.WriteAbortExactly: the sender is described by what it can make arrive, the last accepted block and the next one, not by a state machine of its own.
- RecoveryResults.RecoverableExactly: a connection that a last expiry has finished goes on being served, as it is in the code until the sweep drops it.
- A block size of 0 is negotiated as in the code, but the transfer results are for block sizes of at least 1.
- MTU and file size are arbitrary numbers (the file size below 2^64, as a `size_t` is, where its text is concerned), with one MTU value during a negotiation.
- Vectors passed by reference and filled in place (`read_in_to`, `_data_pkt.data`) are returned as sequences; capacity and aliasing are not captured.
- In the event loop connections are values in a map, not objects; `TftpServerConnection` is the object and is proved equal to those values.
- The wire strings "OCTET", "NETASCII", "BLKSIZE", "TSIZE" and "TIMEOUT" are written as byte lists (`Packets.WireFormats` and `Options.OptionNames` spell them).
