# Modbus Console: a verified model of the core

The Go core of Modbus Console is a Modbus master and slave over TCP and RTU, on one shared register store with a relay
whose coil and holding views must agree. This project models that code in Dafny, in the shape the code has (the store,
connection, port, slave and master are classes; frames are filled in place; loops are loops) and proves what it is for:

- an encoded request, served by the slave and decoded by the master, means exactly the store operation it stands for,
  on either transport, for whole runs;
- the RTU checksum detects every burst of up to 16 wire bits, every odd number of flipped bits and every error of up to
  three bits but one kind, which needs a frame longer than any a serial line will carry;
- every byte of a request, a reply and a refusal is what the protocol says, each master takes for a reply exactly what
  answers its own request, and a damaged frame changes nothing but an error count;
- frames cut themselves out of a byte stream however it is dealt out, and the slave's loop serves a stream of requests
  exactly as the requests mean;
- the sparse store refines a total view of cells, and the relay's two views mirror each other through every run;
- for a slave that is started and closed by interleaved goroutines, exactly which steps leave two loops live, put two on
  one port, leave an open port without one, or put a Close in a position to panic;
- the browser's independent codec agrees with the core's.

`dafny verify dfyconfig.toml` checks everything. Each module file opens with what it models:

| module | subject |
|---|---|
| Words, BitPacking | bytes, 16-bit words, packed bits |
| Crc, CrcAlgebra, CrcTheory, CrcOrder | the checksum and what it detects |
| StoreModel, StoreImpl, StoreTheory, Relay | the register store: as values, as the class, cell by cell, and its invariants |
| Codec, Slave, SlaveTheory, EndToEnd | request validation, PDUs, dispatch, response parsing and their composition |
| Wire | requests, replies and refusals byte by byte, and the cells they are about |
| Tcp, Rtu, RtuDevices, Transports | both framings, both ends of each, and runs over either |
| Noise | damaged frames on the serial line, and whose frames each end listens to |
| Browser | the TypeScript codec |
| Lifecycle | Start, Close and loop of the RTU slave as interleaved steps |
| Simulator, Api, Runs | the lab profile and its reset, the control API's entry points, and whole runs |

Where code and expectation differ, the model follows the code:

- `Write` does not look at the slave id, so a write to slave 0 or 248..255 succeeds and no read sees it
  (`StoreTheory.HiddenSlave`).
- The upper bound of a relay window is computed in 16 bits. A window that ends at 65536 or beyond is closed: every entry
  is refused (`Relay.ClosedWindow`).
- `Set` goes round the relay and can break its mirror (`Relay.SetCanBreakMirror`); `Relay.SetKeepsMirror` says exactly
  when. That the API sends it only input and discrete tables is what keeps the mirror.
- A read of a table that is none of the four is the one read that sees whether banks exist
  (`StoreTheory.OtherTableSeesBanks`). The API refuses such tables before reading.
- Bit replies are not checked for enough bytes, and such a reply gets through the framing of either transport to the
  index past its end: `RtuDevices.RtuPanicHappens`, `Tcp.TcpPanicHappens`; exactly when: `Codec.PanicsExactly`,
  `RtuDevices.RtuPanicsExactly`, `Tcp.TcpPanicsExactly`.
- In strict mode an exception may follow a partial write to the relay (`SlaveTheory.StrictExceptionCanChange`); exactly
  when nothing has changed: `SlaveTheory.StrictExceptionExactly`.
- A Start inside an unfinished Close can leave two loops on one port (`Lifecycle.TwoLoopsOnOnePort`), or, landing between
  the release of the wait and its waking, make that Close panic (`Lifecycle.StartSurprisesClose`). A failed write can leave
  an open port that no loop serves (`Lifecycle.FailedWriteLeavesPort`). `Lifecycle.ExpectationsExactly` says of each step of
  a run exactly whether it is the one to bring such a state about: two live loops (a Start that commits while the wait group
  is not zero), two loops with the open port in hand (a loop fetching it while another has it), an open port without a loop
  that serves it (a failed write of the only one that does), a Close in a position to panic (a Start that commits while a
  released Close has not run; whether it then does panic is `Lifecycle.CloseReturnsAlone`).
- The browser lets through three kinds of request the core refuses (`Browser.BrowserAdmits`) and decodes three kinds of
  reply the core does not (`Browser.BrowserDecodesExactly`).
- An RTU slave never answers that a function is not supported, and finds the end of a request by itself.
  `Transports.AlikeExactly` says exactly which PDUs the two transports treat alike; besides those that delimit themselves
  there are some it cuts short with a right checksum (`Transports.AlikeByAccident`).

## Model

| member | source | states |
|---|---|---|
| Crc.ComputeCrc16 | core/internal/modbus/rtu.go:73-86 | the two nested loops compute the register fold that all the checksum theorems are about |
| CrcTheory.PublishedChecksum | core/internal/modbus/rtu.go:73-91 | the checksum of 02 07 is 0x1241 and goes on the wire as 41 12 |
| CrcTheory.ZerosRejected | core/internal/modbus/rtu.go:73-99 | a frame of zero bytes is never accepted, whatever its length |
| CrcTheory.Crc16IsBitSerial | core/internal/modbus/rtu.go:73-86 | the byte-wise loops equal a shift register fed one wire bit at a time |
| CrcTheory.AppendedVerifies | core/internal/modbus/rtu.go:88-99 | appending the checksum makes a frame accepted, exactly if its body has at least two bytes |
| CrcTheory.VerifiedIsAppended | core/internal/modbus/rtu.go:88-99 | an accepted frame is its own body with the checksum appended |
| CrcTheory.ResidueZero | core/internal/modbus/rtu.go:93-99 | a frame is accepted iff it has at least four bytes and the checksum of all of it is 0 |
| CrcTheory.BurstDetected | core/internal/modbus/rtu.go:73-99 | two frames of one length, any length, differing only within 16 consecutive wire bits have different checksums and are not both accepted |
| CrcTheory.AdjacentBytesDetected | core/internal/modbus/rtu.go:73-99 | replacing two neighbouring bytes of an accepted frame leaves it accepted iff nothing changed |
| CrcTheory.ChecksumParity | core/internal/modbus/rtu.go:73-86 | the parity of the checksum of any data is the parity of its set bits |
| CrcTheory.AcceptedIsEven | core/internal/modbus/rtu.go:73-99 | every accepted frame has an even number of set bits, checksum included |
| CrcTheory.OddFlipsDetected | core/internal/modbus/rtu.go:73-99 | any odd number of flipped bits in an accepted frame is rejected |
| CrcOrder.PowerPeriod | core/internal/modbus/rtu.go:77-83 | the shift step first comes back after exactly 32767 shifts |
| CrcOrder.TwoFlips | core/internal/modbus/rtu.go:73-99 | two flipped bits leave the checksum the same, and an accepted frame accepted, iff they are a multiple of 32767 bits apart |
| CrcOrder.ThreeFlips | core/internal/modbus/rtu.go:73-99 | one to three flipped bits in an accepted frame of any length go unnoticed iff they are two, a multiple of 32767 bits apart |
| CrcOrder.ThreeFlipsDetected | core/internal/modbus/rtu.go:73-99 | so in a frame of up to 4095 bytes they are always noticed |
| BitPacking.PackedBit | core/internal/modbus/client.go:87-100 | wire bit i of a packed list is value i and every padding bit is 0 |
| BitPacking.UnpackPacked | core/internal/modbus/rtu.go:283-292 | unpacking what was packed gives the values back, non-zero ones as 1, whatever follows them |
| BitPacking.PackUnpacked | core/internal/modbus/server.go:199-202 | bytes with zero padding are recovered by packing what they unpack to |
| BitPacking.PackInto | core/internal/modbus/server.go:145-154 | the in-place `\|=` loop turns a zeroed stretch of a buffer into the packed bits and leaves the rest alone |
| BitPacking.UnpackBits | core/internal/modbus/client.go:170-174 | the unpacking loop gives the first n bits, and runs off the data iff there are too few bytes |
| Codec.ValidateProtocol | core/internal/modbus/types.go:68-113 | succeeds iff the request is valid, and otherwise reports the first thing wrong, each refusal characterised |
| Codec.BuildPdu | core/internal/modbus/client.go:64-115 | the buffers filled field by field are the PDU of the request, for any request, with the remembered quantity |
| Wire.RequestBytes | core/internal/modbus/client.go:64-115 | the bytes of every valid request's PDU: function code, address, quantity or value, byte count, packed bits with zero padding, registers, words most significant byte first |
| Codec.ParsePduResponse | core/internal/modbus/rtu.go:271-330 | the parser's branches and loops compute the reading function on any bytes, running off the end included |
| Wire.DecodesExactly | core/internal/modbus/rtu.go:271-330 | a master decodes a reply to a valid request iff it has its function code and, by function, enough bits, twice the quantity of register bytes, the address sent, or address and quantity sent, and of FC05 a coil value; what it decodes is what is there |
| Wire.RefusesExactly | core/internal/modbus/rtu.go:271-330 | every other reply is refused as exactly what is wrong with it |
| Codec.PanicsExactly | core/internal/modbus/rtu.go:283-292 | exactly when a bit reply makes the parser index past its end; never if 8 times the byte count covers the quantity |
| Codec.RegistersRoundTrip | core/internal/modbus/rtu.go:298-302 | registers decode to what was encoded, whatever follows them |
| StoreImpl.Store.Read | core/internal/modbus/store.go:62-91 | the read loop returns the range, or in strict mode refuses at the first unmapped cell |
| StoreImpl.Store.Set | core/internal/modbus/store.go:93-116 | the loop stores the longest acceptable prefix and reports an error iff that is not everything |
| StoreImpl.Store.Write | core/internal/modbus/store.go:118-150 | the loops of a plain and of a relay write leave exactly the closed-form state and error |
| StoreImpl.Store.WriteOne | core/internal/modbus/store.go:167-204 | one entry switches one channel in both views, or is refused and changes nothing |
| StoreImpl.Store.EnableRelay | core/internal/modbus/store.go:152-165 | the loop puts every channel, at wrapped addresses, in the off state |
| StoreTheory.ReadMeans | core/internal/modbus/store.go:62-91 | a read succeeds iff in range and, in strict mode, fully mapped; it shows each cell, 0 for unmapped; which banks exist does not matter |
| StoreTheory.SetMeans | core/internal/modbus/store.go:93-116 | the exact cells after Set, the written prefix on failure included, every other cell of every slave unchanged |
| StoreTheory.SetRefusals | core/internal/modbus/store.go:93-116 | each error of Set, and exactly when it is given |
| StoreTheory.PlainWriteMeans | core/internal/modbus/store.go:118-150 | the same for a write to a slave that is not the relay |
| StoreTheory.RelayWriteMeans | core/internal/modbus/store.go:128-141 | the exact cells after a write to the relay: each channel asked for shows in both views, all else unchanged; in strict mode for the prefix before the first refused entry |
| StoreTheory.WriteRefusals | core/internal/modbus/store.go:118-150 | each error of Write, and when it is given; on the strict relay that of the first refused entry |
| StoreTheory.JudgeMeans | core/internal/modbus/store.go:167-195 | an entry is acted on iff the window ends below 65536, contains the address, and the value is on or off; refused for its address iff not in the window, else for its value |
| StoreTheory.AskedMeans | core/internal/modbus/store.go:167-203 | a channel is asked for iff some entry of the list addresses it acceptably |
| StoreTheory.EnableMeans | core/internal/modbus/store.go:152-165 | the exact cells after enabling a relay |
| StoreTheory.EnableSucceeds | core/internal/modbus/store.go:152-156 | a relay is accepted iff its slave is 1..247 and it has 1..64 channels; otherwise nothing changes |
| StoreTheory.ReadRespectsView | core/internal/modbus/store.go:38-91 | stores with the same cells read the same: lazily created banks are never seen |
| StoreTheory.SetRespectsView | core/internal/modbus/store.go:93-116 | Set maps stores with the same cells to stores with the same cells and the same error |
| StoreTheory.WriteRespectsView | core/internal/modbus/store.go:118-150 | so does Write, plain or relay, strict or not |
| StoreTheory.EnableRespectsView | core/internal/modbus/store.go:152-165 | so does EnableRelay |
| StoreTheory.WriteSucceeds | core/internal/modbus/store.go:118-150 | a write in range succeeds iff every entry can be stored, or it is to the relay in non-strict mode |
| StoreTheory.ReadBack | core/internal/modbus/store.go:62-150 | after a successful write to any slave, the relay included, a read of the range succeeds, in strict mode too, and shows every entry stored, and where one was skipped what was there before |
| StoreTheory.HiddenSlave | core/internal/modbus/store.go:118-130 | a write to slave 0 or 248..255 is accepted and changes no read |
| StoreTheory.OtherTableSeesBanks | core/internal/modbus/store.go:71-81 | a read of an unknown table is refused iff the slave's banks exist |
| Relay.WriteKeepsMirror | core/internal/modbus/store.go:118-204 | no write of any kind separates the relay's two views, wrapped windows included |
| Relay.SetKeepsMirror | core/internal/modbus/store.go:93-116 | Set keeps the mirror iff every entry it stores on a channel of the relay is the on or off value and the other view already shows the channel so |
| Relay.SetCanBreakMirror | core/internal/modbus/store.go:93-116 | a concrete Set on the relay's coils does |
| Relay.EnableMirrors | core/internal/modbus/store.go:152-165 | enabling a valid relay establishes the mirror from any state |
| Relay.ClosedWindow | core/internal/modbus/store.go:176-187 | a window that ends past 65535 makes a write change no cell: skipped silently, or in strict mode refused |
| Relay.WriteKeepsBits | core/internal/modbus/store.go:118-150 | coil and discrete cells stay 0 or 1 under Write |
| Relay.SetKeepsBits | core/internal/modbus/store.go:93-116 | and under Set |
| Relay.EnableKeepsBits | core/internal/modbus/store.go:152-165 | and under EnableRelay iff its coil values are bits |
| Relay.WriteSparesInputs | core/internal/modbus/store.go:118-121 | Write changes no input or discrete cell |
| Slave.Dispatch | core/internal/modbus/server.go:121-236 | total on all bytes; buffers, loops and store calls come to the reply, failure flag and store of the serving function |
| Wire.ExceptionsExactly | core/internal/modbus/server.go:119-236 | what every PDU not served is answered with: 3 to an empty one, 1 to an unsupported function, 3 iff malformed, and 2, for a well-formed one, when the store refuses |
| Wire.ValidRefusedWithTwo | core/internal/modbus/server.go:140-229 | a valid request that is refused is refused with exception 2 |
| Wire.ReadBytes | core/internal/modbus/server.go:129-165 | the bytes of the reply to every valid read: coils for 1, discrete for 2, holding for 3, input for 4; refused iff strict and a cell unmapped; store untouched |
| Wire.WriteCells | core/internal/modbus/server.go:166-232 | every valid write off the relay is echoed by its first five bytes, puts each value in its own cell, coils for 5 and 15, holding for 6 and 16, and changes no other cell of any slave |
| SlaveTheory.ReplyShape | core/internal/modbus/server.go:119-236 | every reply has 2..252 bytes and is the function code, or the marked code and an exception code 1..3; code 1 iff unsupported |
| SlaveTheory.ReplyCount | core/internal/modbus/server.go:145-232 | a successful reply announces its own length |
| SlaveTheory.ServeWrites | core/internal/modbus/server.go:121-236 | all that serving a PDU can do to the store is one Write, failing iff that Write fails |
| SlaveTheory.ExceptionChangesNothing | core/internal/modbus/server.go:121-236 | in non-strict mode an exception reply means an unchanged store |
| SlaveTheory.StrictException | core/internal/modbus/store.go:131-140 | in strict mode an exception leaves the store as it was, or follows a relay write cut at its first refused entry, and then changed exactly that prefix |
| SlaveTheory.StrictExceptionExactly | core/internal/modbus/store.go:131-140 | in strict mode an exception leaves every cell as it was iff the PDU does not reach the relay or each entry before the first refused one asks for what its channel already shows |
| SlaveTheory.StrictExceptionCanChange | core/internal/modbus/store.go:131-140 | a concrete PDU to a strict relay, answered with an exception after one channel has been switched |
| SlaveTheory.CanonicalForm | core/internal/modbus/server.go:121-236 | every PDU answered without an exception is, to every store, the same as the PDU of one valid request: same reply, same store |
| EndToEnd.RoundTrip | core/internal/modbus/client.go:64-115 | every valid request, encoded, served and decoded, does to any store and tells its sender exactly what the store operation does, exceptions included |
| EndToEnd.ValidRequestsSucceed | core/internal/modbus/server.go:121-236 | on a non-strict store of bits: reads return Store.Read and change nothing, writes leave Store.Write's store and return the values asked for |
| EndToEnd.BitReadExact | core/internal/modbus/server.go:145-154 | a bit read is exact iff the cells read are bits |
| Tcp.BuildFrame | core/internal/modbus/client.go:24-30 | the client's buffer is the MBAP frame |
| Tcp.MbapBytes | core/internal/modbus/client.go:24-30 | the bytes of the MBAP frame: transaction, protocol 0, length, unit, PDU |
| Tcp.TakesExactlyMbap | core/internal/modbus/server.go:88-102 | the server takes a frame off its input iff the input starts with the MBAP frame of a PDU of 1..253 bytes, and gives up iff a whole header names another protocol or a length outside 2..254 |
| Tcp.ConnectionEnds | core/internal/modbus/server.go:88-116 | too few bytes change nothing, a bad header adds one error, and a request whose reply cannot be written has been served and counted |
| Tcp.Server.HandleConn | core/internal/modbus/server.go:82-117 | on any input and any point of write failure: replies, counters and store are those of the serving fold |
| Tcp.ParseResponse | core/internal/modbus/client.go:144-215 | the offset-based TCP parser is the header checks followed by the RTU parser on the PDU, on any bytes |
| Tcp.TakesReplyExactly | core/internal/modbus/client.go:129-141 | the client takes a frame off its answer iff the answer starts with one of 8..260 bytes that announces its length |
| Tcp.HearsOnlyItsOwn | core/internal/modbus/client.go:144-164 | it decodes an answer only if that starts with an MBAP frame under its own transaction and unit, and then as its PDU reads |
| Tcp.HearsItsOwn | core/internal/modbus/client.go:144-215 | and it reads every such frame so |
| Tcp.Client.Execute | core/internal/modbus/client.go:16-40 | a blank host, a bad port or an invalid request sends nothing; otherwise it takes the next transaction id, sends its frame and decodes the answer |
| Tcp.TcpPanicsExactly | core/internal/modbus/client.go:166-173 | the client indexes past the end of an answer iff it is a whole frame with its ids and function code whose bytes are too few for the bits asked for |
| Tcp.TcpPanicHappens | core/internal/modbus/client.go:166-173 | a concrete such answer to a valid request |
| Tcp.Pipelining | core/internal/modbus/server.go:82-117 | n frames back to back are answered in order, each with its own ids; the store is the fold; what follows is served on that store |
| Tcp.RepliesTaken | core/internal/modbus/client.go:129-141 | every reply passes the client's length check and echoes transaction and unit |
| Tcp.ErrorsBounded | core/internal/modbus/server.go:82-117 | on any stream errors grow by at most requests + 1 |
| Rtu.ReadExact | core/internal/modbus/rtu.go:203-223 | however reads are dealt out, the buffer gets the front of the stream; filled unless one read faults or the deadline passes first, each counted |
| Rtu.ReadRequest | core/internal/modbus/rtu.go:452-480 | takes exactly the next frame, or refuses an unsupported code after two bytes, and breaks off only for one failed read or one timeout |
| Rtu.ReadResponse | core/internal/modbus/rtu.go:225-269 | the same for replies, with slave and checksum checked |
| Rtu.RequestEndsItself | core/internal/modbus/rtu.go:452-480 | bytes after a frame do not change where it ends |
| Rtu.CutInOrder | core/internal/modbus/rtu.go:452-480 | a stream of request frames can be cut in one way only: in order, the rest untouched |
| Rtu.ValidRequestFrames | core/internal/modbus/rtu.go:159-167 | every valid request's frame is self-delimiting with a right checksum |
| Rtu.ReplyFrames | core/internal/modbus/rtu.go:225-269 | every reply dispatch can give, exceptions included, is cut out whole by the reply reader |
| RtuDevices.RtuSlave.Loop | core/internal/modbus/rtu.go:405-450 | every byte that leaves the line belongs to one of the turns; store, counters and replies are those of answering the frames taken; a turn takes no frame only by refusing an unsupported code or for one counted failed read or timeout |
| RtuDevices.LoopCutsInOrder | core/internal/modbus/rtu.go:405-450 | off any stream of request frames a loop that loses nothing takes exactly those frames in order, one per unbroken turn, and leaves the rest untouched |
| Noise.ServesExactlyFrames | core/internal/modbus/rtu.go:424-449 | the slave serves a frame iff it is that of some PDU to a unit other than 0; any other is one error, unanswered, and changes nothing |
| Noise.NoiseIsDropped | core/internal/modbus/rtu.go:424-427 | frames with wrong checksums between others are as if absent, but for one error each |
| Noise.DamageShows | core/internal/modbus/rtu.go:93-99 | a frame damaged in up to 16 consecutive bits, an odd number of bits, or, up to 4095 bytes, in up to three, has a wrong checksum |
| Noise.LoopIgnoresDamage | core/internal/modbus/rtu.go:405-450 | the loop on a line where frames arrive as sent or damaged: store, replies and requests are those of the undamaged, plus one error for each damaged |
| Noise.CutsRepliesExactly | core/internal/modbus/rtu.go:225-269 | where the reply reader takes the end of a frame to be, by function |
| Noise.HearsOnlyItsSlave | core/internal/modbus/rtu.go:225-269 | the RTU master hears an answer only if it starts with the frame of a PDU from the slave it asked, and then as that PDU reads |
| Noise.DamagedReplyIsLost | core/internal/modbus/rtu.go:244-267 | a reply damaged on its way is lost |
| RtuDevices.RtuPanicsExactly | core/internal/modbus/rtu.go:283-292 | the RTU master indexes past the end of an answer iff it is a whole frame of its slave with a right checksum, the function code asked for and too few bytes for the bits asked for |
| RtuDevices.RtuPanicHappens | core/internal/modbus/rtu.go:283-292 | a concrete such answer to a valid request |
| RtuDevices.RtuMaster.Execute | core/internal/modbus/rtu.go:159-201 | an undisturbed line decodes the answer; line failures close the port, parse failures do not |
| Transports.TcpIsDirect | core/internal/modbus/client.go:16-40 | over TCP a valid request does and tells exactly what the store operation does |
| Transports.RtuIsDirect | core/internal/modbus/rtu.go:159-201 | and so over RTU |
| Transports.TransportsAgree | core/internal/modbus/rtu.go:271-330 | any run of valid requests yields the same results and store whatever transport each takes, from any store |
| Transports.RunsSucceed | core/internal/modbus/server.go:121-236 | on a non-strict store of bits every request of every run is answered with values |
| Transports.ConnectionIsDirect | core/internal/modbus/server.go:82-117 | valid requests back to back on one connection: final store and each decoded reply are the requests' meanings |
| Transports.LineIsDirect | core/internal/modbus/rtu.go:405-450 | valid requests back to back on the line, whatever follows: the loop serves one per unbroken turn; final store, each decoded reply and the bytes left are what the requests' meanings give, idle timeouts in between or not |
| Transports.UndisturbedLine | core/internal/modbus/rtu.go:405-450 | in particular with no failed operation and no timeout: the loop lives and serves one request per turn |
| Transports.TcpServesOne | core/internal/modbus/server.go:82-117 | over TCP any PDU of 1..253 bytes is served once and answered |
| Transports.AlikeExactly | core/internal/modbus/rtu.go:425-449 | an arbitrary PDU sent to the RTU slave does just that to store and counters, with the same PDU coming back, iff it is not a broadcast and the slave cuts off its line a frame with a right checksum |
| Transports.SelfDelimitingAlike | core/internal/modbus/rtu.go:452-480 | the slave cuts the line as it was sent iff the PDU delimits itself, and then serves it just so, unless it is a broadcast, which it only counts |
| Transports.AlikeByAccident | core/internal/modbus/rtu.go:452-480 | a concrete PDU that does not delimit itself and is treated alike all the same |
| Transports.NeverIllegalFunction | core/internal/modbus/rtu.go:473-474 | no reply of the RTU slave is exception 1 |
| Browser.Crc32Bit | apps/web/lib/browser-rtu.ts:16 | the 32-bit loops with a final mask compute the 16-bit checksum |
| Browser.EncodeRequest | apps/web/lib/browser-rtu.ts:15-32 | the browser's own checks, byte splitting, packing and flattening loops and checksum bytes come to the frame, quantity and values of BuildFrame, throwing where it has none |
| Browser.SameFrames | apps/web/lib/browser-rtu.ts:20-32 | for every request the browser lets through, every valid one included, that is the core's frame and quantity, and for writes the values |
| Browser.BrowserAdmits | apps/web/lib/browser-rtu.ts:20-32 | the core's validity is the browser's plus exactly three more checks |
| Browser.LengthSettles | apps/web/lib/browser-rtu.ts:34 | a known expected length does not change as bytes arrive |
| Browser.Accumulate | apps/web/lib/browser-rtu.ts:62-63 | the chunk loop's result depends only on the bytes, not on the chunks |
| Browser.SameCut | apps/web/lib/browser-rtu.ts:34 | it cuts a reply exactly where the core's reader does |
| Browser.BrowserFollowsCore | apps/web/lib/browser-rtu.ts:35-42 | whatever bytes the core decodes, the browser decodes to the same values |
| Browser.BrowserDecodesExactly | apps/web/lib/browser-rtu.ts:35-42 | on any bytes the browser decodes iff the core does, or the core panics or refuses the echo |
| Browser.BrowserDecodesTo | apps/web/lib/browser-rtu.ts:35-42 | and to what: the bits, registers, coil state, word or written values its frame carries, for bits past a short reply's end those of its checksum and then 0 |
| Browser.MastersAgree | apps/web/lib/browser-rtu.ts:35-42 | on any slave's reply to a valid request both decode the same values or both report an error |
| Lifecycle.AlwaysSafe | core/internal/modbus/rtu.go:362-418 | under every interleaving: no stop channel closed twice, open port has open stop channel, wait group counts live loops and strands no waiter, live loops at most one per open port plus one per Close not let go |
| Lifecycle.NeverTurnsToTakenPort | core/internal/modbus/rtu.go:405-420 | in every reachable state no step starts a loop reading a port that is not the open one; a loop that finds its stop channel closed returns, and one that does not reads the open port |
| Lifecycle.QuietMeansOneLoop | core/internal/modbus/rtu.go:362-418 | once every Close has been let go, at most one loop is live, and none if the port is closed |
| Lifecycle.CloseReturnsAlone | core/internal/modbus/rtu.go:386-399 | when Close ends no loop is live, or it panics, and it panics iff one is |
| Lifecycle.ExpectationsExactly | core/internal/modbus/rtu.go:362-418 | over every run: at most one loop is live throughout iff every committing Start finds the wait group at zero; no two loops have the open port in hand iff none fetches it while another has it; an open port is served by some loop iff none fails a write on an open port that no other serves, and by the newest iff that one never does; no Close is in a position to panic iff no Start commits while a released Close has not run |
| Lifecycle.ReuseExactly | core/internal/modbus/rtu.go:386-399 | the next step can make a Close panic iff a released one has not run and the wait group is in use |
| Lifecycle.OneLoopFromStart | core/internal/modbus/rtu.go:362-418 | in particular, if no Start commits inside an unfinished Close, at most one loop is ever live and no Close panics |
| Lifecycle.TwoLoopsOnOnePort | core/internal/modbus/rtu.go:408-418 | otherwise two loops can read one port while that Close waits: a concrete run |
| Lifecycle.StartSurprisesClose | core/internal/modbus/rtu.go:376-398 | and a Close can panic: a concrete run |
| Lifecycle.FailedWriteLeavesPort | core/internal/modbus/rtu.go:441-448 | a failed write ends its loop with the port still set, and served by none if every Close has been let go; Start refuses until Close |
| Lifecycle.LoopsRunOut | core/internal/modbus/rtu.go:405-418 | with the port gone and no Start, loops take a bounded number of steps in any interleaving |
| Lifecycle.CloseCanReturn | core/internal/modbus/rtu.go:386-399 | until then some loop can step; after it nobody waits and every Close that has closed its port can return |
| Simulator.ResetProfile | core/internal/modbus/simulator.go:57-70 | the loops over devices and ranges, early error return included, come to the reset fold |
| Simulator.ResetSucceeds | core/internal/modbus/simulator.go:57-70 | a reset succeeds iff every range is settable and the relay valid, whatever the state |
| Simulator.ResetStops | core/internal/modbus/simulator.go:59-67 | a failing reset has done the ranges before the first bad one, that one as far as Set goes, and nothing after |
| Simulator.ResetRestores | core/internal/modbus/simulator.go:57-70 | from any state a reset to a good profile gives every listed cell its value, both relay views off, every other cell unchanged |
| Simulator.ResetIdempotent | core/internal/modbus/simulator.go:57-70 | resetting twice is resetting once |
| Simulator.ProfileReadsBack | core/internal/modbus/simulator.go:57-70 | every range of a disjoint profile then reads exactly as listed, in strict mode too |
| Simulator.LabIsGood | core/internal/modbus/simulator.go:30-51 | the built-in profile meets those conditions |
| Simulator.LabReads | core/internal/modbus/simulator.go:30-51 | after a reset from any state every device of the lab reads its built-in values, the relay all off |
| Simulator.LabSwitches | core/internal/modbus/simulator.go:69 | then coil 0 or holding 256 switches a channel on, 1 or 512 off, seen in both views |
| Api.Handlers.WriteSimulatorRegisters | core/internal/api/server.go:240-277 | the guards, the routing to Write or Set, and the read-back, as one function of the store |
| Api.WritingMeans | core/internal/api/server.go:341-379 | a register write answers Ok iff its arguments are within the limits and the store can take all of it, or the non-strict relay what it can; else a bad request, which changes nothing if the arguments were refused; Ok lists what was stored and, where the relay skipped an entry, what was there before, never nothing |
| Api.ReadingMeans | core/internal/api/server.go:298-333 | a register read is a bad request iff outside the limits, not found iff a strict store has not mapped all of it, and otherwise shows each cell |
| Api.Handlers.ResetSimulator | core/internal/api/server.go:225-231 | the reset and its error |
| Api.ResettingMeans | core/internal/api/server.go:225-231 | a reset answers Ok iff the profile is good, and a server error otherwise |
| Api.InjectionReadsBack | core/internal/api/server.go:240-277 | an injection into any slave, the relay included, succeeds iff in range and storable, or to the non-strict relay, and answers with what it stored; never a server error |
| Runs.AlwaysMirrored | core/internal/modbus/store.go:118-204 | after any interleaving of arbitrary Modbus traffic on both transports, API writes, injections and resets, the relay is mirrored and bit tables hold bits |
| Runs.MappedStaysMapped | core/internal/modbus/store.go:93-165 | through any run a mapped cell stays mapped and the mode of the store stays what it is |
| Runs.ReadAfterWriteSucceeds | core/internal/api/server.go:263-277 | whatever other operations come between a handler's successful Write or Set and its Read, the Read succeeds with one value for each written: no server error, no empty answer |
| Runs.InputsReadOnly | core/internal/modbus/server.go:121-236 | no sequence of arbitrary Modbus traffic changes an input or discrete cell |
| Runs.InjectThenPoll | core/internal/api/server.go:263-277 | what an injection answers, which off the relay is what was injected, is what a master polling the range decodes, on either transport |
| Runs.ResetThenPoll | core/internal/modbus/simulator.go:57-70 | after a reset from any state, every profile range is decoded as listed, on either transport |

## Left out

- Sockets, serial ports and their library: a connection or port is the bytes still to come; each port read delivers any number of them.
- Real time: `readExact` has a millisecond clock for its deadline; timeout clamps, silent intervals and latencies are not modelled.
- The store's mutex: its operations are atomic, so runs are sequences of them. The handlers' Write and the Read after it are taken together in `Api`, though other operations may come between and change the values read; that the Read succeeds all the same is `Runs.ReadAfterWriteSucceeds`.
- Sharing of bank maps by reference: no two slaves ever share banks in the source, and they are values here.
- Slices of 2^32 values or more, whose length the range checks would truncate to 32 bits.
- The 64-bit request and error counters do not wrap, and the count of connected clients is not kept.
- `Server.Start`, `Server.Close`, the accept loop, and the browser's promise queue: runtime scheduling.
- The gap between a loop's decision to return and its Done, and, inside the last Done, between the counter reaching zero and the release of the waiters: decision, Done and release are one step here. In Go a Start may land in either gap; in the second it panics, as one that lands just after may make the Close panic (`Lifecycle.StartSurprisesClose`).
- `SerialConfig.mode`, opening of ports, result formatting.
- HTTP routing, authentication, CORS, JSON decoding, token files, the React pages.
- Names and descriptions in the simulator profile, except device keys.
- JavaScript numbers that are not integers, and absent fields other than as 0 or an empty list.
