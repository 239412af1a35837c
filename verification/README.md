# Verification of the Intel DCM platform collector

A Dafny model of the parts of the plugin where something can go wrong between a
management controller and a published metric, with proofs about all inputs, all
runs and all schedules. `dafny verify dfyconfig.toml` checks everything.

## What is modelled

**The controller** (`Bmc`, `Repository`, `Simulator`). A controller answers a
request with bytes or not at all, and may answer differently at another time.
The log of requests doubles as the clock. What is assumed of the answers is
written as predicates over them (`Reserves`, `ServesRecords`, ...), never as
fixed behaviour, so any request may fail at any time. `Simulator` decodes
requests byte by byte and shows that the assumptions can be met.

**The SDR scan** (`SdrPlan`, `SdrSpec`, `SdrList`, `SdrScan`, `Health`,
`HealthTrust`, `HealthBytes`; `ipmi/sdr.go`).
Partial reads of a record, with the loop guard as written; the walk along the
record list; readings; the health map; the memo of the last scan.

- The read loop stops early on records longer than twice the read size.
  `SdrPlan` has its exact reach. The sensor fields are still seen in every record
  of 26 bytes or more, and 26 is the exact bound; IPMI v2.0 sensor records are
  longer. For shorter records the condition on length and read size is exact too.
- Offsets and counts are cut to a byte in the request. They fit exactly when the
  record or the read size is at most 255.
- `SdrList` and `HealthBytes` say what is listed and what is published in terms of
  the bytes on the wire and the codes of the specification alone.
- The states tested in the health loop are the positions of the configured list,
  not its entries (Go's one-variable `range`). `FlaggedIsBadStateIff` says for
  which lists that makes no difference: in the table only the battery's.
- A threshold sensor in range overwrites what sensors of its type reported before
  it, and a listed state that is behind the positions tested is not reported at
  all. `OkCanBeTrustedIff` tells from the scanned list for which components "OK"
  still means that no sensor is out of range or in a listed state.
- A scan succeeds exactly if all replies are long enough and every sensor's record
  is: 14 bytes, and below 256 unless the read size is. Otherwise it returns an
  error or panics. Panics are modelled as results.

**The batch engine** (`BatchEngine`, `Inband`; `ipmi/linux_inband.c`,
`ipmi/inband.go`). A state machine over the turns of the send/receive loop, with
a driver that takes or refuses messages, answers each at most once in any order,
and may lose one in a failed receive; and the loop itself, proved to be a run of
that machine. Nothing in the C code ever advances `recvd`, although the window
test counts on it. `Params.counts` chooses between the code (false) and a version
in which a receipt counts (true); the results say what each of them gives. As
written a batch can succeed exactly when all of it fits the window, so the twelve
requests of the generic vendor table never succeed with the window of three that
the Go side passes.

**FRU inventory** (`FruText`, `FruExact`, `FruBcd`, `FruPlain`, `FruDecoder`,
`FruWalk`, `FruReader`, `FruRepeat`; `ipmi/fru.go`).
Block reads of the product area, the walk over type/length fields, and their
decoding. `running` chooses between the six-bit branch as
written (false), which sets its index back for every three bytes, and the running
index its buffer is sized for (true). As written a packed text comes back exactly
if it is all spaces; with a running index exactly under the condition in
`SixBitSurvivesIff`. BCD plus, of which the code shows one character in two, comes
back exactly under the condition in `BcdSurvivesIff`. The shared request keeps the
offset of its last read, so that a second call looks for the common header inside
the product area; `SecondInventoryIff` says for which FRUs it still finds the area
and so reports the product again.

**Collection** (`Names`, `Formats`, `FormatBytes`, `Merging`, `Collector`, `Oob`,
`Vendors`, `Advertised`, `Published`; `intelDCMPlugin/plugin.go`, `ipmi/oob.go`, `ipmi/formats.go`,
`ipmi/vendor.go`).
Names and paths, response formats, the index of responses, host-major publishing,
and the goroutines of the out-of-band layer. Goroutines and Go's map iteration
are nondeterministic choices in the methods; their contracts say what comes out
whatever is chosen. Order does not matter exactly when no two requests disagree
on a path (`OrderFreeIff`), and in the shipped table none do.

Two of the repository's own statements differ from its code; the code is what is
modelled. The unit test of the node manager parser expects a main metric with an
empty name where the code has `cur`, and the published list of health metrics
says "OK" means a good state, which holds exactly for the components that meet the
condition in `OkCanBeTrustedIff`.

Machine integers are ranges of `int`; every conversion that can cut off bits is
written out. Values the code keeps in `uint16` are checked to stay in that range;
positions in a slice are plain integers, bounded by its length.

## Model

| member | source | states |
|---|---|---|
| SdrPlan.ReadsIsLeast | ipmi/sdr.go:404-423 | the number of partial reads is the least k with (2k-1)·m >= total, and at least one |
| SdrPlan.NextPiece | ipmi/sdr.go:404-423 | while the guard holds another piece is due: it starts where the last one ended, lies inside the record, and its offset and count fit a byte if record or read size do |
| SdrPlan.LastPiece | ipmi/sdr.go:404-405 | when the guard first fails, exactly the planned reads were made and exactly the reach has been read |
| SdrPlan.CompleteIff | ipmi/sdr.go:400-434 | a record is read to its end exactly when it is no longer than two reads |
| SdrPlan.CoversIff | ipmi/sdr.go:404-423 | the first n bytes are read exactly under a closed condition on record length and read size |
| SdrPlan.SensorFieldsCovered | ipmi/sdr.go:467-471 | bytes up to 13 are read for every read size exactly from 26 bytes of record on, and from 14 bytes on if reads take 14 |
| SdrPlan.HeaderCovered | ipmi/sdr.go:461-469 | header and sensor number are read whenever the record is long enough to be indexed |
| SdrPlan.RequestsFitIff | ipmi/sdr.go:267-270 | no offset or count is cut off by the byte conversions exactly when record or read size is below 256 |
| Simulator.GetSdrRoundTrip | ipmi/sdr.go:261-270 | a Get SDR request decodes to the reservation, id, offset and count it was built from exactly when offset and count are bytes |
| Simulator.CommandCodes | ipmi/sdr.go:52-73 | every request has the network function and command of the specification, by where the records are kept |
| Simulator.ChoiceFromBytes | ipmi/sdr.go:183-198 | records of the device itself are used exactly if it may have some and its support byte names them and no repository |
| Simulator.SimulatorConforms | ipmi/sdr.go:169-280 | everything assumed of a controller is met by one that decodes requests and keeps arbitrary records |
| Bmc.IpmiRequest.Clone | ipmi/interface.go:73-81 | the clone has the same contents in memory of its own |
| Repository.ChainHasNoRepeat | ipmi/sdr.go:348-396 | a record list that ends visits no record twice, which bounds the scan |
| Repository.ChainIsUnique | ipmi/sdr.go:392-395 | the records met from an id on are determined by the id |
| SdrScan.SdrParser.GetSdr | ipmi/sdr.go:254-280 | sends one well-formed request with offset and count cut to bytes, leaves the shared templates alone, fails exactly if nothing comes back, and else returns the piece that asks for, or fewer bytes |
| SdrScan.SdrParser.GetSdrBytes | ipmi/sdr.go:400-434 | sends exactly the planned requests; succeeds exactly if all are answered in full and the record or the read size is below 256; then panics exactly if the last reply is too short; the buffer is next id, the record up to the reach, then zeros |
| SdrScan.SdrParser.ReadPiece | ipmi/sdr.go:411-422 | one turn of the loop takes the buffer to the next filling, or stops at a piece that is missing or too short |
| SdrScan.SdrParser.StorePiece | ipmi/sdr.go:416-422 | stores a piece behind the bytes already read and touches nothing else |
| SdrScan.SdrParser.GetSdrHeader | ipmi/sdr.go:436-450 | returns the true header of the record an id stands for |
| SdrScan.SdrParser.GetSdrByHeader | ipmi/sdr.go:452-476 | succeeds exactly if all is answered and the record can be scanned: 14 bytes or more, and it or the read size below 256; then returns the record as seen through partial reads |
| SdrSpec.SeenIsTrueIff | ipmi/sdr.go:468-471 | what is seen is the true record if a condition on length and read size holds, and where it fails some record of that length is seen wrongly |
| SdrSpec.LongEnoughCases | ipmi/sdr.go:454-471 | the condition holds for records of 26 bytes and more with any read size, and for any record with reads of 14 |
| SdrSpec.SeenListIsTrue | ipmi/sdr.go:338-398 | a scan of long enough records lists every sensor with its true fields |
| SdrList.TrueListIs | ipmi/sdr.go:361-396 | the list has exactly the records of type byte 01h and 02h that are selected, in the order of the chain, each with its id, the next one, and bytes 2, 3, 4, 7, 12 and 13 |
| SdrList.SeenListIs | ipmi/sdr.go:361-396 | so has the list that partial reads give, with header and sensor number true and the two types as far as the reads reach |
| SdrList.FitIsScannable | ipmi/sdr.go:400-476 | the condition for a successful scan, told from type bytes and lengths |
| SdrList.DefaultReads | ipmi/sdr.go:311-323 | without an allocation unit reads are of 16 bytes and show every record as it is |
| SdrList.ChainExample | ipmi/sdr.go:338-398 | a chain of a full, another and a compact record: two sensors are listed |
| SdrScan.SdrParser.ScanSdrLoop | ipmi/sdr.go:338-398 | terminates, succeeds exactly if every request was answered and every selected sensor can be scanned, and lists exactly the selected type 1 and 2 records in list order |
| SdrScan.SdrParser.GetSdrRepositoryAllocationInfo | ipmi/sdr.go:233-252 | fails exactly if it is not answered with ten bytes; the read size is the allocation unit, 16 if that is 0, never 0 |
| SdrScan.SdrParser.ReserveSdr | ipmi/sdr.go:215-231 | returns the reservation the later reads have to quote |
| SdrScan.SdrParser.ScanSdr | ipmi/sdr.go:296-335 | end to end: a scan succeeds exactly if every request was answered and every sensor can be scanned, and then equals the list of true sensor records if these are long enough for the read size |
| SdrScan.SdrParser.GetDeviceId | ipmi/sdr.go:169-201 | tells where the host keeps its records, and fails exactly if it is not answered, or too shortly, or there are none |
| SdrScan.SdrParser.GetSdrData | ipmi/sdr.go:478-523 | asks every listed sensor once, in order, and decodes each reply as of the time it came |
| SdrScan.SdrParser.DecodeReading | ipmi/sdr.go:491-519 | the loop body computes the status of the reading, the zero status with the flag for one that cannot be read |
| HealthBytes.StatusFromBytes | ipmi/sdr.go:498-519 | a reading with bit 6 clear or bit 5 set is unavailable and writes nothing; any other has the sensor's number and types and the comparisons or states of its bytes |
| HealthBytes.ReadInTurnIsDecoded | ipmi/sdr.go:478-523 | sensors read in turn are decoded from the replies behind their completion codes |
| Health.StatesInReading | ipmi/sdr.go:502-515 | state i of a discrete or threshold reading is the bit the specification says, of 15 or 6 |
| Health.HighestThreshold | ipmi/sdr.go:525-558 | the error code is the position of the highest threshold bit set, and fixes the severity |
| SdrScan.SdrParser.MarkUnexpected | ipmi/sdr.go:154-159 | the inner loop writes SEV_UNKNOWN exactly if a bit at one of the list's positions is set |
| SdrScan.SdrParser.Summarise | ipmi/sdr.go:139-164 | the health map holds under each name what its last reporting sensor wrote, and no other names |
| Health.HealthIsUnique | ipmi/sdr.go:139-164 | the last-writer description leaves only one map |
| HealthBytes.HealthFromBytes | ipmi/sdr.go:139-164 | from the bytes of all readings, by literal codes: a name holds a value exactly if the last sensor to write under it wrote that value |
| HealthBytes.ReportIsWritten | ipmi/sdr.go:139-164 | which name and value a sensor writes, for all eight components, all comparisons and all rows of the table |
| HealthBytes.ListedIs | ipmi/sdr.go:81-103 | the states each row lists; all rows but the battery's have one that is missed |
| Health.HealthOneMore | ipmi/sdr.go:147-157 | one more sensor replaces what its name held or changes nothing |
| Health.OkIffLastInRange | ipmi/sdr.go:147-149 | a component is said to be OK exactly if its last reporting sensor is a threshold sensor in range |
| HealthTrust.OkCanBeTrustedIff | ipmi/sdr.go:139-164 | over all readings, OK means that no sensor of the component is out of range or in a state its row lists, exactly if the scanned list has no threshold sensor that can hide another: by coming after it, or because that one has a listed state behind the positions tested |
| HealthTrust.HiddenTrouble | ipmi/sdr.go:139-164 | for any list with such a pair there are readings where the hidden sensor is in trouble and the component OK |
| HealthTrust.TroubleIsWritten | ipmi/sdr.go:147-159 | a sensor in trouble writes under its component, unless it has a state that is missed |
| HealthTrust.OkIsUnanimousIff | ipmi/sdr.go:139-164 | over all readings, OK means that no sensor wrote anything else, exactly if no threshold sensor comes after another that can write |
| HealthTrust.MissedStateExample | ipmi/sdr.go:81-103 | a fan sensor in range and one in a listed state that is not tested make the fan OK |
| HealthTrust.OkExample | ipmi/sdr.go:147-149 | a temperature sensor above its critical threshold and one in range make the temperature OK |
| Health.FlaggedIsBadStateIff | ipmi/sdr.go:154-159 | testing positions equals testing the listed states, for every status, exactly if the list is 0, 1, ... in some order |
| Health.OnlyBatteryIsTestedAsListed | ipmi/sdr.go:81-103 | of the discrete rows of the table only the battery's has that form |
| Health.FanExample | ipmi/sdr.go:88-88 | a listed fan state that is not flagged and an unlisted one that is |
| SdrScan.SdrParser.GetComponentHealth | ipmi/sdr.go:121-167 | succeeds exactly if all is answered and sensors are remembered or can be scanned; gives the health of those remembered, of whichever host, else of those scanned, as they answer now; with one host the memo stays empty or equal to a full scan, so every call reports on what a new scan would list |
| BatchEngine.StepAccounted | ipmi/linux_inband.c:95-161 | every step keeps each sent message in exactly one place, in flight as it was given |
| BatchEngine.StepOutputsFit | ipmi/linux_inband.c:107-158 | every step keeps result i untouched, pending or the reply to request i, as far as i has come |
| BatchEngine.StepCounted | ipmi/linux_inband.c:114-160 | every step keeps to_receive, recvd, status and the window bound tied to what happened to the messages |
| BatchEngine.RunInv | ipmi/linux_inband.c:94-161 | all of that holds in every state of every run |
| BatchEngine.Conservation | ipmi/linux_inband.c:94-161 | sent = refused + in flight + answered + lost; to_receive = n - refused - answered - failed receives; a sent result is valid exactly if its reply came, else as before but marked 0; status OK exactly if nothing failed |
| BatchEngine.StatusIsLastTrouble | ipmi/linux_inband.c:95-163 | the status names the last thing that went wrong in the run |
| BatchEngine.OkMeansEveryReply | ipmi/linux_inband.c:94-163 | a run that ends with IPMI_OK has the reply to request i in output i for every i, in whatever order replies came, even if requests are equal and their replies are not |
| BatchEngine.WindowHolds | ipmi/linux_inband.c:96-119 | counting receipts, at most window messages are unanswered; as written, at most window are ever sent |
| BatchEngine.RunsAreShort | ipmi/linux_inband.c:95-161 | whatever the driver does, n messages take at most 2n + 1 turns |
| BatchEngine.Finish | ipmi/linux_inband.c:95-163 | from every trouble-free state of a batch that can succeed there is a way to IPMI_OK |
| BatchEngine.SucceedsIff | ipmi/linux_inband.c:96-163 | as written some run succeeds exactly if the batch fits the window or is empty; counting receipts, exactly if the window is positive or the batch is empty |
| Inband.StoreReply | ipmi/linux_inband.c:154-158 | the copy loop stores the reply over the front of the buffer, with its length |
| Inband.SendTurn | ipmi/linux_inband.c:96-121 | the sending half of the loop is a Send or SendFails step of the machine |
| Inband.ReceiveTurn | ipmi/linux_inband.c:141-160 | the receiving half is a Receive or ReceiveFails step of the machine |
| Inband.WaitTurn | ipmi/linux_inband.c:124-160 | one select, then a timeout exactly if it gave 0, an error exactly if it was negative, and a receive otherwise |
| Inband.SendAndReceive | ipmi/linux_inband.c:94-163 | the loop is a run of the machine with receipts not counted, and returns where the run ended; it times out exactly if the last select gave 0, is not ready exactly if it was negative, and receives after every other one |
| Inband.MessageBytes | ipmi/linux_inband.c:109-112 | netfn, command and data of a message are the bytes of the request in order |
| Inband.ThreeFit | ipmi/inband.go:63-69 | with the window that is passed a batch can succeed exactly if it has at most three requests |
| Inband.BatchCommands | ipmi/linux_inband.c:54-164 | short inputs and an unopened device are refused with all outputs untouched; IPMI_OK means every reply is in place; a timeout or failed wait is one that select reported |
| Inband.BatchExecRaw | ipmi/inband.go:43-87 | success gives the reply to each request in request order, and is impossible for more than three |
| Vendors.InbandDiscoveryFails | ipmi/inband.go:97-111 | the batch that would discover the generic table's capabilities never succeeds |
| FruText.UnpackPack | ipmi/fru.go:189-235 | unpacking a packed six-bit text gives the text |
| FruText.PackUnpack | ipmi/fru.go:189-235 | packing unpacked bytes gives the bytes |
| FruText.SixBitAsWrittenIff | ipmi/fru.go:193-235 | as written the branch agrees with a running index exactly if nothing is visible; else it panics, for up to three visible bytes, or returns text that starts with a zero byte |
| FruExact.AsWrittenSurvivesIff | ipmi/fru.go:168-235 | as written a packed text comes back exactly if all of it is spaces |
| FruExact.AsWrittenText | ipmi/fru.go:189-235 | as written the text of four bytes or more is a zero byte, the last four characters, and zeros |
| FruExact.LostTextExample | ipmi/fru.go:168-175 | a text whose packing starts with a zero byte, so that nothing is visible |
| FruExact.SixBitSurvivesIff | ipmi/fru.go:168-235 | with a running index a packed text comes back exactly if its packed bytes are all 0 from the first 0x00 or 0xFF on |
| FruBcd.BcdSurvivesIff | ipmi/fru.go:168-175 | a BCD plus field comes back exactly if every high half is a space and at most one byte holds another character |
| FruBcd.SolidBcd | ipmi/fru.go:237-244 | spaces aside the code shows no more characters than the definition, and as many only if every high half is a space |
| FruBcd.BcdExample | ipmi/fru.go:241-241 | a byte with the digits 1 and 2 is shown as 2 |
| FruPlain.PlainTextIs | ipmi/fru.go:168-188 | a plain field gives its bytes up to the first 0x00 or 0xFF without white space at either end |
| FruPlain.PlainSurvivesIff | ipmi/fru.go:168-188 | a plain field comes back as it is exactly if it has no such byte and no white space at its ends |
| FruPlain.OnlyBetween | ipmi/fru.go:168-188 | that description leaves only one text |
| FruPlain.BinaryIsEmpty | ipmi/fru.go:182-182 | a field of type 0 gives no text |
| FruPlain.CutOffIsEmpty | ipmi/fru.go:164-166 | nor does a field that is cut off by the end of the area |
| FruPlain.BcdCharacters | ipmi/fru.go:156-157 | the character of every half byte |
| FruPlain.PackedExample | ipmi/fru.go:189-235 | "IPMI" is packed as 29h DCh A6h, the example of the FRU definition |
| FruDecoder.Shift | ipmi/fru.go:227-232 | the byte-wise shift divides the register by 64 |
| FruDecoder.ShiftIsDivision | ipmi/fru.go:224-232 | the bit operations of the shift are the division and remainder used for them |
| FruDecoder.EmitQuad | ipmi/fru.go:223-233 | four characters are the base-64 digits of the register; the write panics exactly if they do not fit |
| FruDecoder.BufferSize | ipmi/fru.go:192-192 | the buffer has four bytes for every three of the field, the last group rounded up |
| FruDecoder.UnpackSixBit | ipmi/fru.go:189-235 | the branch gives the text of all triples with a running index, and the last quad on bytes 1 to 4, or a panic, as written |
| FruDecoder.GetFruAreaString | ipmi/fru.go:149-247 | the text of the field at the front, for every type code, cut-off field and end mark, without an access outside the data |
| FruText.VisibleEnds | ipmi/fru.go:168-175 | the visible part is the prefix before the first mark |
| FruText.FieldIsLocal | ipmi/fru.go:149-175 | the text of a stored field depends on its own bytes only |
| FruWalk.ReadFields | ipmi/fru.go:104-121 | the loop visits field starts in order and keeps the named ones until the area ends |
| FruWalk.FieldStartsThere | ipmi/fru.go:112-121 | in an encoded area the i-th visited position is where the i-th field was put |
| FruWalk.WalkInvertsEncoding | ipmi/fru.go:104-121 | from an area that stores five or more fields the walk gives the texts of the first, second and fifth |
| FruReader.LocatedIff | ipmi/fru.go:54-64 | the byte products locate the product area exactly if both header bytes are below 32 |
| FruReader.FruParser.GenerateFruData | ipmi/fru.go:143-147 | the shared request asks for the given offset and count |
| FruReader.FruParser.ReadBlocks | ipmi/fru.go:70-102 | reads consecutive blocks without gap or overlap, ceil(len/16) if all are served; the buffer is the area as far as blocks came, zeros after the first error; panics exactly if the last reply has no data |
| FruReader.BlocksExample | ipmi/fru.go:70-102 | the three requests for an area of forty bytes, byte for byte |
| FruReader.FruParser.CopyBlock | ipmi/fru.go:88-88 | copies a block to its place and touches nothing else |
| FruReader.FruParser.GetInventoryInfo | ipmi/fru.go:19-121 | result and offset left are fixed by the offset found, the number of requests made and the last reply: the inventory of the whole area if all is served, of its first blocks if a block fails, an error or a panic if something before fails |
| FruReader.FruParser.ReadProduct | ipmi/fru.go:53-121 | that from the product area's start on, also if the FRU ends before it |
| FruReader.FruCanBeServed | ipmi/fru.go:19-68 | a controller that decodes each request and serves slices of any stored image meets what the reader assumes of it |
| FruReader.InventoryIsProduct | ipmi/fru.go:53-121 | of a FRU that stores a product area the first call reports the first, second and fifth field |
| FruRepeat.LeftAtHeaderIff | ipmi/fru.go:38-102 | a call leaves the request at the common header exactly if it took the product area to start there and to fit one block |
| FruRepeat.SecondCallIff | ipmi/fru.go:38-102 | of any FRU the second call finds the product area exactly if a byte of its last block agrees with the one in the header up to the bits dropped; if so it and every later call report the same |
| FruRepeat.SecondInventoryIff | ipmi/fru.go:38-121 | the same for a FRU that stores a product, told from the bytes stored; behind a header no second call reads the header |
| FruRepeat.SecondCallExample | ipmi/fru.go:38-68 | a FRU of which the first call gives an inventory and the second an error |
| Names.NameRoundTrip | intelDCMPlugin/plugin.go:46-54 | parsing the name made of a metric gives the metric, for every string |
| Names.NamespaceRoundTrip | intelDCMPlugin/plugin.go:46-54 | making the name parsed from a namespace under intel, dcm gives the namespace |
| Names.ExtendPathInjective | intelDCMPlugin/plugin.go:56-61 | under one root different submetrics have different paths |
| Names.ExtendPathParts | intelDCMPlugin/plugin.go:56-61 | extending a path appends the parts of the extension |
| Names.ContainsIff | intelDCMPlugin/plugin.go:142-144 | a string contains a part exactly if it stands somewhere in it |
| Names.DecimalIsNumber | ipmi/formats.go:161-161 | what is printed are digits that stand for the number, without a zero in front |
| Names.DecimalInjective | ipmi/formats.go:161-161 | different numbers print differently |
| Formats.ParseTemp | ipmi/formats.go:167-191 | the loop builds the map described entry by entry |
| Formats.TempEntries | ipmi/formats.go:167-191 | in a response of any length every temperature byte has its own entry and there is no other |
| Formats.TempMetricsAreParsed | ipmi/formats.go:157-191 | for any response of 72 bytes the 68 advertised names are different, are exactly the keys, and the i-th holds byte 4 + i |
| FormatBytes.NodeManagerIsParsed | ipmi/formats.go:123-145 | statistics encoded low byte first behind four bytes are parsed as current, minimum, maximum, average |
| FormatBytes.DCMIPowerIsParsed | ipmi/formats.go:331-352 | the same behind two bytes |
| FormatBytes.CUPSIsParsed | ipmi/formats.go:68-89 | three load factors |
| FormatBytes.CUPSIndexIsParsed | ipmi/formats.go:102-106 | the index, valid or not |
| FormatBytes.PECIIsParsed | ipmi/formats.go:210-222 | margin offset in one byte, TJ max in two |
| FormatBytes.PMBusIsParsed | ipmi/formats.go:238-258 | six voltage regulators |
| FormatBytes.PSUIsParsed | ipmi/formats.go:273-278 | two power supplies, valid or not |
| FormatBytes.PolicyIsParsed | ipmi/formats.go:315-319 | the power limit behind thirteen bytes, valid or not |
| FormatBytes.ReadingIsParsed | ipmi/formats.go:294-368 | a sensor reading is the byte behind the completion code, for both formats that have one |
| FormatBytes.InvalidIsParsed | ipmi/formats.go:68-352 | an invalid response gives 0xFFFF for everything, 0xFFFE for regulators that are missing |
| FormatBytes.MissingRegulators | ipmi/formats.go:241-247 | so do fewer than fourteen bytes, valid or not |
| FormatBytes.AdvertisedIffParsed | ipmi/formats.go:62-368 | what is advertised for a format is exactly what is parsed |
| FormatBytes.PassesIff | ipmi/formats.go:33-45 | a valid response is let through exactly if it starts with completion code 0, an invalid one always |
| Merging.MergeHolds | intelDCMPlugin/plugin.go:116-127 | a merged map has the keys of all its parts, each with the value of the last part that has it |
| Merging.CompatibleIsOrderFree | intelDCMPlugin/plugin.go:115-129 | parts that agree merge alike in every order |
| Merging.OrderFreeIff | intelDCMPlugin/plugin.go:115-129 | every order gives the same map exactly if no two parts disagree on a key |
| Collector.Under | intelDCMPlugin/plugin.go:123-126 | every submetric is found under its path and there is no other path |
| Collector.AddSubmetrics | intelDCMPlugin/plugin.go:122-126 | in whatever order the map is ranged over, all submetrics are added and the rest is kept |
| Collector.IndexHost | intelDCMPlugin/plugin.go:116-128 | succeeds exactly if every response passes and is long enough, and then merges what they yield in order; else the first that is not decides between an error and a panic |
| Collector.StopIs | intelDCMPlugin/plugin.go:116-121 | the collection ends in an error exactly if the response claims to be valid and is empty or has another completion code than 0, and else in a panic |
| Collector.IpmiCollector.IndexResponses | intelDCMPlugin/plugin.go:115-129 | in whatever order hosts come, fails exactly if some response is refused or too short, with the error that some host alone gives, and else indexes every host by its own responses |
| Collector.IpmiCollector.CollectMetrics | intelDCMPlugin/plugin.go:115-164 | fails exactly if some response is refused or too short; else publishes host by host the values of the index, the inventory and the health tables |
| Collector.Sources.HostMajorAt | intelDCMPlugin/plugin.go:136-162 | the output has hosts times metrics entries, and entry h·m + i is metric i of host h with its value |
| Collector.IndexHolds | intelDCMPlugin/plugin.go:115-129 | the index has under each path the value parsed from the last request that yields it, and nothing if none does |
| Collector.IpmiCollector.EntryIsParsed | intelDCMPlugin/plugin.go:115-162 | entry h·m + i of a collection is metric i of host h, with the value parsed from the last of that host's own requests that yields its path, or 0 |
| Published.TextsArePublished | intelDCMPlugin/plugin.go:142-154 | the five inventory metrics come from the inventory and the eight health metrics from the health tables |
| Published.StatisticsArePublished | intelDCMPlugin/plugin.go:115-162 | from response bytes to published values: each statistic of every entry found is published under its own name |
| Oob.LinuxOutOfBand.BatchExecRaw | ipmi/oob.go:45-68 | in whatever order goroutines get the lock, response i is what the host answers to request i at a moment of its own |
| Oob.LinuxOutOfBand.CountZeros | ipmi/oob.go:123-130 | a reply counts exactly if it has a byte other than zero |
| Oob.LinuxOutOfBand.SupportsIff | ipmi/oob.go:110-135 | probing is bridged for the node manager protocol only; a failed command or zeros only is no capability |
| Oob.LinuxOutOfBand.ProbeHost | ipmi/oob.go:110-135 | in whatever order goroutines get the lock, the list holds every request that was supported when it was tried, as often as the table, and nothing else |
| Oob.LinuxOutOfBand.GetPlatformCapabilities | ipmi/oob.go:101-171 | that for every host |
| Oob.IndexIsMerge | intelDCMPlugin/plugin.go:103-129 | the index built from a batch is the merge of what each description yields |
| Oob.IndexIsOrderFreeIff | ipmi/oob.go:110-135 | whatever the host answers later, every discovery order leads to the same index exactly if no two of the requests found disagree on a path |
| Vendors.PathsAreOwned | ipmi/vendor.go:25-44 | every path an entry of the generic table can ever yield belongs to that entry |
| Vendors.RequestCodes | ipmi/vendor.go:25-44 | the entries are Intel's commands by format, but for the chipset sensor |
| Published.StatisticsRequests | ipmi/vendor.go:29-38 | each statistic is asked for by its mode and domain |
| Published.RequestsDiffer | ipmi/vendor.go:25-44 | no two entries send the same request |
| Vendors.EntriesAreDisjoint | ipmi/vendor.go:25-44 | no two entries yield the same path, from any responses |
| Vendors.GenericIsOrderFree | ipmi/oob.go:110-135 | for the generic table the index does not depend on the discovery order, whatever the host answers at collection |
| Vendors.PublishedIsOrderFree | intelDCMPlugin/plugin.go:101-154 | nor does any published value: collectors that found the same capabilities in different orders publish the same from the same answers, which need not be those seen at discovery |
| Advertised.MetricsAreParsed | ipmi/formats.go:62-368 | every submetric a format advertises is parsed from a long enough response |
| Advertised.AdvertisedIsPublished | intelDCMPlugin/plugin.go:136-189 | where requests agree on paths, an advertised metric is published with the value parsed from the response to its own request |
| Advertised.GenericIsPublished | intelDCMPlugin/plugin.go:136-189 | for the generic table that holds of every advertised metric, whatever the host answers |
| Advertised.PlainIsNeither | intelDCMPlugin/plugin.go:138-149 | a path without two pairs of letters is taken for neither inventory nor health |

## Left out

- SdrScan.SdrParser.GetSdrBytes: the code never looks at completion codes; a reply that is long enough is assumed to hold just the bytes asked for.
- SdrScan.SdrParser.ScanSdr: assumes a record list that ends; on a cyclic list the code does not terminate. Records of other types are read but not interpreted.
- SdrScan.SdrParser.GetComponentHealth: for hosts whose records do not change; the package variable is a field of the parser. A reading that can be read but holds no state byte is excluded by TellsReadings; on it the code panics, or not, depending on the reading type.
- FruReader.FruParser.ReadBlocks: byte access only; for word access the code scales offsets but not counts.
- FruReader.FruParser.GetInventoryInfo: without firmware version and MAC address, which are formatted from fixed positions of two more replies. The package variable with the shared request is a field of the parser: a new parser of the code goes on with the offset left by the one before. A reply with data is assumed to be as long as was asked for.
- FruText.Trim: removes ASCII white space; Go also trims the encodings of other Unicode spaces.
- Collector.IpmiCollector.CollectMetrics: for an initialised collector; timestamps are not modelled, and all health metrics of one call see the same health tables.
- Oob.LinuxOutOfBand.GetPlatformCapabilities: without the DCMI thermal branch, whose deferred call locks the mutex a second time.
- Channel and slave addresses: carried through unchanged by the code.
- `open`, `ioctl`, `select` and running ipmitool: replaced by the driver and the controller; parsing of ipmitool's output is left out.
- The in-band ipmitool layer: the same calls as the out-of-band one, in sequence.
- Configuration, logging, namespaces of the plugin framework, `GetMetricTypes` as a whole: plumbing around what is modelled.
