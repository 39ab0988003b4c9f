# Table tools, interface generator and telemetry routing: a verified model

A Dafny 4.11 model of four tools of the repository, with proofs. `dafny verify dfyconfig.toml` checks all of it.

| files | what they model |
|---|---|
| `Crc16`, `CrcTable`, `CrcWords`, `CrcTool` | `tools/tblCRCTool/cfe_ts_crc.c`: the CRC as polynomial division over bits, its table and byte loop over sign-extended words, and the chunked file loop |
| `Bytes`, `ElfLayout`, `ElfRecords`, `ElfSpec`, `Elf2CfeTbl` | `tools/elf2cfetbl/elf2cfetbl.c`: `ElfSpec.Run` says what a source file is translated to, from its bytes alone; `Elf2CfeTbl.Translator` is the program, with its globals, file position, byte swaps and loops, and is proved to do that |
| `ElfTables`, `ObjectFile`, `ElfEncoder`, `ExampleObject`, `TableImage`, `CharacterIds` | what the translation means: which tables are found, independence of the encoding, an encoder with an example that meets its conditions, the image read back, ids given as characters |
| `TwoTools`, `ByteWords` | the image of the translator given to the CRC tool |
| `SerialConfig`, `InitProgram`, `GeneratedInit` | `tools/serial-configtool`: the generator, an interpreter for what it generates, and the correctness of the generated function |
| `Routing`, `Subscriptions` | `tools/cFS-GroundSystem`: the host registry and topics of the routing service, and what the windows subscribe to |
| `Common` | definitions that several of these share |

## How the translator is treated

`ElfSpec.Run` decodes every field directly in the byte order that `e_ident` names. No host, no swap, no file position
and no Verbose flag occur in it. `Translator.Convert` ends in `Run(source, options)` for every value of the host's byte
order and of Verbose, so runs on different hosts, quiet or verbose, agree. `Safe` excludes the source files on which the
program, as far as it gets, would take an index out of range, run over a name buffer or overflow a signed integer. A file
that the program rejects is judged only by what comes before the rejection.

`ObjectFile.Encodes` relates a file to an abstract object (named sections, symbols, a descriptor); class, byte order,
machine, section order, extra sections and layout are free. `EncodingTranslates` shows that a run on any file that
encodes an object writes the image of the object, and `ElfEncoder`, which writes whole records in declaration order
(`ElfRecords`) and not through the translator's accessors, builds such a file for each class and byte order.
`ExampleObject` is a concrete object that satisfies every condition these lemmas put on objects.

## Where the code differs from what one would expect

- The object is found under its name or its name with any one character after it. The printability test at
  elf2cfetbl.c:2374 looks at the terminator, so it always passes.
- The last symbol named `CFE_TBL_FileDef`, with at most one character before it, is the descriptor.
- The symbols read are the table's entries exactly when its entry size is the record size of the class
  (`CoverageNeedsEntrySize`).
- A seek to a name at a negative offset (a symbol's name offset is cut to 32 bits) fails unnoticed, and the name is read
  after the record instead. The model does the same.
- An object that reaches past the end of the source file is completed with 0xFF bytes, and the run still succeeds.
- An id given as four characters depends on whether char is signed where one of the last three has its high bit set.
  `CharacterIds` covers both kinds of host and gives the exact condition; ASCII ids are safe.
- The CRC register is a signed 16-bit value returned as an unsigned 32-bit one, so the printed CRC repeats bit 15 in its
  high half. All claims are about the low half; feeding the result back in is shown to be harmless.
- The inner loop of the routing service never ends, so the limit of five socket errors has no effect: all events are
  handled, however many of them are errors (`RoutingService.Run`).
- The main window of the ground system keeps host names as byte strings, so it starts the telemetry system for
  `GroundSystem.bSpacecraft1.TelemetryPackets`. That is a prefix of no topic: a telemetry system hears everything when all
  hosts are selected and nothing when one is (`SystemHears`). Pages opened from the latter hear nothing either.
- Pages opened with all hosts selected hear the first host only, and a page with an id from 1 to 0xFFF also hears the
  packets whose ids extend its own in hexadecimal (`PageOfAllIsExact`).
- For a ready interface of a kind it does not know, the generator emits the status check and the log but no call, and the
  log uses an enumerator that does not exist. Names whose error macro `cfe_error.h` already defines (`CSP`, `HANDLE` and
  others), and equal names of a pin and a device, define a macro twice. `CompilesExactly` gives the exact condition under
  the flags of this repository: sample_defs/arch_build_custom.cmake:35 turns the warning for a macro that is defined again
  into an error, and cfe/modules/srl/CMakeLists.txt:67 lets arrays of size zero pass. Under ISO C, whose section 6.7.6.2
  forbids them, a configuration needs a ready device and a ready pin as well (`ConformsExactly`).
- `genfunction.py` defines `Write_spi_handle_init` twice; the second definition, which passes speed and mode, is the one in
  effect and the one modelled.

## Model

| member | source | states |
|---|---|---|
| Crc16.RegisterIsRemainder | tools/tblCRCTool/cfe_ts_crc.c:22-27 | The bit-serial register is the remainder of dividing the message, with the start added to its head and 16 zeros after it, by the generator 0x8005 with its leading term, bit by bit in long division |
| Crc16.CrcLinear | tools/tblCRCTool/cfe_ts_crc.c:92-99 | The CRC of an exclusive or of messages and starts is the exclusive or of the CRCs |
| Crc16.StartToResultIsBijection | tools/tblCRCTool/cfe_ts_crc.c:92-99 | For fixed data every 16-bit result comes from exactly one start |
| Crc16.BurstDetected | tools/tblCRCTool/cfe_ts_crc.c:70-101 | Different bit sequences of one length that differ only within 16 consecutive bits, at any alignment, have different CRCs |
| Crc16.ParityConserved | tools/tblCRCTool/cfe_ts_crc.c:70-99 | The parity of the register is that of the start plus that of the message |
| Crc16.OddErrorsDetected | tools/tblCRCTool/cfe_ts_crc.c:70-99 | Any odd number of flipped bits changes the CRC |
| Crc16.ResidueIsClear | tools/tblCRCTool/cfe_ts_crc.c:92-99 | Sixteen trailing bits clear the register if and only if they are the CRC |
| Crc16.ZeroBitsKeep | tools/tblCRCTool/cfe_ts_crc.c:92-99 | After zero bits the register is clear if and only if it was before |
| CrcTable.TableEntry | tools/tblCRCTool/cfe_ts_crc.c:70-90 | Each of the 256 entries is its index after eight shift-and-xor steps with 0xA001 |
| CrcWords.SignExtensionHarmless | tools/tblCRCTool/cfe_ts_crc.c:92-101 | Returning the signed register in 32 bits and masking it on the next call gives the register back |
| CrcWords.MaskedShift | tools/tblCRCTool/cfe_ts_crc.c:98 | Shifting the negative register right and masking it is an unsigned shift |
| CrcWords.LoopBodyRefinesBits | tools/tblCRCTool/cfe_ts_crc.c:95-99 | One pass of the loop body does eight bit steps, for every register and byte |
| CrcWords.BitsInjective | tools/tblCRCTool/cfe_ts_crc.c:95-99 | Different byte messages have different bits, so claims on bits hold of bytes |
| CrcTool.CalculateCRC | tools/tblCRCTool/cfe_ts_crc.c:63-102 | The byte loop returns the bit-serial CRC of the bytes, started from the low half of its argument, in the low half, and copies of its top bit in the high half |
| CrcTool.ChunkingIsIrrelevant | tools/tblCRCTool/cfe_ts_crc.c:141-152 | The CRC of two pieces in turn is that of the pieces joined |
| CrcTool.ReportFile | tools/tblCRCTool/cfe_ts_crc.c:126-158 | However the reads cut the file, the report has the number of bytes after the first 116 and their one-shot CRC, with the high half all copies of its top bit; there is none exactly when a read fails |
| CrcTool.BurstDetectedInWords | tools/tblCRCTool/cfe_ts_crc.c:63-102 | Byte messages that differ within 16 consecutive bits have different CRC words |
| CrcTool.SelfCheck | tools/tblCRCTool/cfe_ts_crc.c:92-99 | Appending the CRC's low byte, its high byte and any zero bytes leaves the register at 0 |
| CrcTool.ResidueOfBytes | tools/tblCRCTool/cfe_ts_crc.c:92-99 | Two trailing bytes clear the register if and only if they are the CRC, low byte first |
| CrcWords.SignExtended | tools/tblCRCTool/cfe_ts_crc.c:101 | The returned word holds the register in its low half and sixteen copies of the register's top bit in its high half |
| Bytes.SwapUInt16 | tools/elf2cfetbl/elf2cfetbl.c:2196-2202 | The two bytes are reversed in place and all others kept |
| Bytes.SwapUInt32 | tools/elf2cfetbl/elf2cfetbl.c:2208-2217 | The four bytes are reversed in place and all others kept |
| Bytes.SwapUInt64 | tools/elf2cfetbl/elf2cfetbl.c:2219-2239 | The eight bytes are reversed in place and all others kept |
| Bytes.SwapFieldsInvolution | tools/elf2cfetbl/elf2cfetbl.c:2100-2190 | Swapping disjoint fields twice restores every field and everything between them |
| Bytes.FieldDecoding | tools/elf2cfetbl/elf2cfetbl.c:1494-1506 | For every host and file byte order, a field after the conditional swap, read by the host, is the direct decode of its file bytes |
| ElfLayout.UsedFieldsAreSwapped | tools/elf2cfetbl/elf2cfetbl.c:2100-2190 | Every multi-byte field the program uses is on the swap list of its record |
| ElfLayout.SwapElfHeader | tools/elf2cfetbl/elf2cfetbl.c:2100-2134 | Reverses in place exactly the listed fields of the class |
| ElfLayout.SwapSectionHeader | tools/elf2cfetbl/elf2cfetbl.c:2140-2168 | Reverses in place exactly the listed fields of the class |
| ElfLayout.SwapSymbol | tools/elf2cfetbl/elf2cfetbl.c:2174-2190 | Reverses in place exactly the listed fields of the class |
| ElfRecords.FileHeaderRead | tools/elf2cfetbl/ELF_Structures.h:43-80 | For a file header written out member by member in declaration order, of either class and byte order, every accessor reads the member of its name |
| ElfRecords.SectionHeaderRead | tools/elf2cfetbl/ELF_Structures.h:340-369 | Likewise for a section header: the offset and not the address, the entry size and not the alignment |
| ElfRecords.SymbolEntryRead | tools/elf2cfetbl/ELF_Structures.h:421-442 | Likewise for a symbol, whose members come in a different order in each class |
| ElfRecords.FileHeaderSwapped | tools/elf2cfetbl/elf2cfetbl.c:2100-2134 | Swapping turns a file header of one byte order into the same header, in every member, of the other |
| ElfRecords.SectionHeaderSwapped | tools/elf2cfetbl/elf2cfetbl.c:2140-2168 | Likewise for a section header |
| ElfRecords.SymbolEntrySwapped | tools/elf2cfetbl/elf2cfetbl.c:2174-2190 | Likewise for a symbol, whose two single bytes stay |
| ElfRecords.DescriptorRead | cfe/modules/core_api/fsw/inc/cfe_tbl_filedef.h:65-113 | From a descriptor laid out in declaration order, of either byte order, every text and the size are read back |
| Elf2CfeTbl.LoadedRecord | tools/elf2cfetbl/elf2cfetbl.c:1644-1647 | A record that was read and conditionally swapped shows the host the direct decode of every listed field |
| Elf2CfeTbl.GetStringFromMap | tools/elf2cfetbl/elf2cfetbl.c:2245-2268 | Succeeds if and only if the key is in the map |
| Elf2CfeTbl.Translator.GetElfHeader | tools/elf2cfetbl/elf2cfetbl.c:1489-1690 | Succeeds if and only if the header is accepted, and then class, swap flag and header fields are those of the file |
| Elf2CfeTbl.Translator.GetSectionHeader | tools/elf2cfetbl/elf2cfetbl.c:1696-1889 | Succeeds if and only if the header can be read, and then stores the section's name and folds its effect into the table offsets |
| Elf2CfeTbl.Translator.GetSymbol | tools/elf2cfetbl/elf2cfetbl.c:1895-1980 | Succeeds if and only if the entry can be read at a 31-bit offset, and then stores the symbol's name and notes a descriptor |
| Elf2CfeTbl.Translator.GetTblDefInfo | tools/elf2cfetbl/elf2cfetbl.c:2274-2340 | Succeeds if and only if size, offset and bytes of the descriptor are in order, and then holds its texts and its size field |
| Elf2CfeTbl.Translator.LocateAndReadUserObject | tools/elf2cfetbl/elf2cfetbl.c:2346-2502 | Finds the first symbol that names the object, reconciles its size and leaves the file at its first byte, whether or not the object was dumped |
| Elf2CfeTbl.Translator.OutputDataToTargetFile | tools/elf2cfetbl/elf2cfetbl.c:2508-2645 | Writes both headers big-endian on either host, and then the object's bytes or zeros |
| Elf2CfeTbl.Translator.Convert | tools/elf2cfetbl/elf2cfetbl.c:622-711 | For every host byte order and either value of Verbose, the outcome, the target's name and its contents are those that Run gives from the source's bytes and the options |
| ElfTables.DotStrtabIsChosen | tools/elf2cfetbl/elf2cfetbl.c:1799-1813 | With nonzero offsets, the last string table named .strtab is used, wherever it sits |
| ElfTables.FirstOtherIsChosen | tools/elf2cfetbl/elf2cfetbl.c:1799-1813 | Without one, the first string table that does not hold section names is used |
| ElfTables.NothingIsChosen | tools/elf2cfetbl/elf2cfetbl.c:669-673 | Without either, none is, and the run is rejected |
| ElfTables.LastSymbolTableIsUsed | tools/elf2cfetbl/elf2cfetbl.c:1778-1797 | The last symbol table gives count, entry size and first entry |
| ElfTables.KnownMachines | tools/elf2cfetbl/elf2cfetbl.c:164-352 | The file types and machines that are accepted, as ranges |
| ElfTables.NamesThatFit | tools/elf2cfetbl/elf2cfetbl.c:1948-1951 | A name can be read exactly when a zero byte is among the next sixty bytes |
| TableImage.DescriptorNames | tools/elf2cfetbl/elf2cfetbl.c:1958-1963 | The names taken for the descriptor's are CFE_TBL_FileDef and that with one character before it |
| TableImage.ObjectNames | tools/elf2cfetbl/elf2cfetbl.c:2364-2388 | The names taken for the object's are its own and that with one character after it |
| ElfTables.SymbolCoverage | tools/elf2cfetbl/elf2cfetbl.c:680-684 | The i-th symbol read is entry i + 1 of the table and lies inside its section |
| ElfTables.CoverageNeedsEntrySize | tools/elf2cfetbl/elf2cfetbl.c:1778-1797 | That holds of all symbols if and only if the entry size is the record size of the class |
| ObjectFile.EncodingTranslates | tools/elf2cfetbl/elf2cfetbl.c:622-711 | A run on any file that encodes an object writes the object's image |
| ObjectFile.EncodingIndependence | tools/elf2cfetbl/elf2cfetbl.c:355-598 | Any two encodings of an object, of either class and byte order and any layout, give the same image byte for byte |
| ObjectFile.DefinitionDecodes | tools/elf2cfetbl/elf2cfetbl.c:2300-2316 | The descriptor's bytes of either byte order decode to one definition |
| ElfEncoder.FileEncodes | tools/elf2cfetbl/ELF_Structures.h:43-80 | Every object that fits has an encoding as ELF32 and ELF64 in both byte orders |
| ElfEncoder.EncodedThenTranslated | tools/elf2cfetbl/elf2cfetbl.c:622-711 | Encoding an object and running the translator gives the object's image |
| TableImage.HeaderRoundTrip | tools/elf2cfetbl/elf2cfetbl.c:2515-2624 | Reading the image's headers big-endian gives content type cFE1, sub-type 8 and length 64, each id and the time as given on the command line and otherwise 0, each text as given there and otherwise the descriptor's, zero-padded to full width, and the byte count |
| CharacterIds.CharactersInOrder | tools/elf2cfetbl/elf2cfetbl.c:45-46 | An id given as four characters is written as exactly those four bytes, in order, if and only if char is unsigned or every character of 0x80 or more, after the first, follows only 0xFF; so it always is for ASCII |
| CharacterIds.SignedBytes | tools/elf2cfetbl/elf2cfetbl.c:45-46 | Where char is signed, every byte before the last character with its high bit set becomes 0xFF |
| TableImage.PayloadExactness | tools/elf2cfetbl/elf2cfetbl.c:2422-2479 | On every run that writes an image, NumBytes is the length of the payload, and the payload is that of the selected object: zeros for .bss, else the source's bytes from section offset plus value on, in the smaller of the two sizes; the file is the descriptor's, in the directory given or else the current one |
| TwoTools.CheckImage | tools/tblCRCTool/cfe_ts_crc.c:126-158 | The CRC tool on an image reports NumBytes and the CRC of the payload, unless a read fails |
| TwoTools.TranslateAndCheck | tools/elf2cfetbl/elf2cfetbl.c:2586-2642 | After a translation the CRC tool, unless a read of the image fails, reports NumBytes and, for an object inside the source file, the CRC of the object's bytes there |
| TwoTools.ObjectChecked | tools/tblCRCTool/cfe_ts_crc.c:126-158 | Whatever the encoding, the report on the image of an object outside .bss has the object's size and the CRC of its bytes |
| SerialConfig.GetGeneralSrlNameArr | tools/serial-configtool/genfunction.py:8-14 | The upper-cased names of the ready interfaces of general kinds, in order |
| SerialConfig.UpperLetters | tools/serial-configtool/genfunction.py:13 | The 26 lower-case letters become the upper-case ones, and every other character stays |
| SerialConfig.GetGpioNum | tools/serial-configtool/genfunction.py:16-21 | The number of ready pins |
| SerialConfig.WriteGpioInit | tools/serial-configtool/genfunction.py:47-55 | Emits the pin's call, or fails exactly when the direction is neither in nor out |
| SerialConfig.EmitErrors | tools/serial-configtool/generator.py:117-128 | One macro for each ready interface, numbered from 90 on |
| SerialConfig.EmitInit | tools/serial-configtool/generator.py:154-200 | The whole initialization function, or an error exactly when a ready pin's direction is improper |
| SerialConfig.Generate | tools/serial-configtool/generator.py:13-58 | Fails exactly when there are more general devices than handles, too many CSP nodes, or an improper direction, in this order |
| GeneratedInit.CompilesExactly | tools/serial-configtool/generator.py:163-190 | The generated files compile if and only if every ready kind is known and the upper-cased ready names are distinct and not taken |
| GeneratedInit.KnownKinds | tools/serial-configtool/genfunction.py:7-14 | The kinds that get a handle are exactly those that the generator has a handle call for |
| GeneratedInit.TakenMacros | cfe/modules/core_api/fsw/inc/cfe_error.h:1391-1434 | The macros of the framework's own header that end as the generated ones do keep their codes |
| GeneratedInit.ConformsExactly | tools/serial-configtool/generator.py:138-146 | They are a conforming program, without arrays of size zero, if and only if moreover there is a ready device and a ready pin |
| GeneratedInit.AllCallsSucceed | tools/serial-configtool/generator.py:154-200 | When every call succeeds, exactly the planned calls are made, in order, and success is returned |
| GeneratedInit.FirstFailureIsReported | tools/serial-configtool/generator.py:178-190 | When a call is the first to fail, the calls up to it were made and no other, and the code returned is its own: never 0, and for an interface severity 3, mission 1 and 90 plus its rank |
| GeneratedInit.EachIndexOnce | tools/serial-configtool/generator.py:31-58 | The plan initializes each handle index and each pin index exactly once, from 0 on, for the interface of that rank with its own device |
| GeneratedInit.DeviceCount | tools/serial-configtool/generator.py:36-50 | The emitted array sizes are the numbers of handles and pins initialized |
| GeneratedInit.CodesTellCallsApart | cfe/modules/core_api/fsw/inc/cfe_usr_error_macro.h:34-43 | The codes of any two calls differ if and only if the numbering stays within the macro's 16 bits |
| Routing.RoutingService.Handle | tools/cFS-GroundSystem/RoutingService.py:69-102 | One datagram or socket error takes the service's whole state to the next; a datagram of six bytes or more is published once, under a topic that spells its host's name and its first two bytes in hexadecimal, the first one more significant |
| Routing.RoutingService.Run | tools/cFS-GroundSystem/RoutingService.py:57-102 | The two nested loops handle all events, however many are socket errors, and reach the state that the events determine |
| Routing.StepKeepsValid | tools/cFS-GroundSystem/RoutingService.py:84-94 | Both lists stay in step and free of duplicates, name k is that of index k, and entries are only ever added at the end |
| Routing.RegistryOnlyGrows | tools/cFS-GroundSystem/RoutingService.py:84-94 | Over any run a host's place and name never change |
| Routing.HostsAreSenders | tools/cFS-GroundSystem/RoutingService.py:74-94 | After any run the registry has one entry for each host that sent at least six bytes, and no other but the placeholder |
| Routing.HostNumber | tools/cFS-GroundSystem/RoutingService.py:81-94 | Hosts are numbered in the order of their first telemetry header |
| Routing.OnePassIsTwoPasses | tools/cFS-GroundSystem/RoutingService.py:96-111 | Every telemetry datagram is published once, in order, under the topic that the final registry gives it |
| Routing.NumeralRoundTrip | tools/cFS-GroundSystem/RoutingService.py:117-120 | Reading the digits of a host number or packet id gives the number back |
| Routing.TopicIdentifies | tools/cFS-GroundSystem/RoutingService.py:106-120 | A topic determines host and packet id |
| Routing.TopicSpelled | tools/cFS-GroundSystem/RoutingService.py:106-120 | A topic is GroundSystem, the name, TelemetryPackets and 0x with digits that denote the first two bytes of the datagram, big-endian, without leading zeros |
| Routing.RoutingIsExact | tools/cFS-GroundSystem/RoutingService.py:57-120 | In any run two datagrams have the same topic if and only if their hosts and their first two bytes agree, and a host's prefix captures exactly its own |
| Routing.HostPrefixIsExact | tools/cFS-GroundSystem/RoutingService.py:106-111 | The prefix GroundSystem.<name>.TelemetryPackets matches every topic of its host and no topic of another, such as spacecraft 10 for spacecraft 1 |
| Routing.ErrorsAreHarmless | tools/cFS-GroundSystem/RoutingService.py:63-103 | Socket errors are counted and change nothing else |
| Subscriptions.WindowMirrorsRegistry | tools/cFS-GroundSystem/GroundSystem.py:170-173 | After every run the main window's lists are the service's |
| Subscriptions.SystemHearsAllOrNothing | tools/cFS-GroundSystem/GroundSystem.py:105-116 | The telemetry system's subscription captures every topic when all hosts are selected, and no topic of any host when one is |
| Subscriptions.SystemHears | tools/cFS-GroundSystem/Subsystems/tlmGUI/TelemetrySystem.py:155-162 | So in every run a telemetry system hears all published messages or none |
| Subscriptions.PagesOfHostHearNothing | tools/cFS-GroundSystem/Subsystems/tlmGUI/TelemetrySystem.py:71-83 | A page of a telemetry system that was started for one host subscribes to a prefix of no topic, whatever its class and id |
| Subscriptions.PagesOfAllHearFirst | tools/cFS-GroundSystem/Subsystems/tlmGUI/EventMessage.py:145-154 | With all hosts selected, generic and event pages hear exactly the first spacecraft's packets whose ids extend the page's, and the event page's own filter drops none of them |
| Subscriptions.PageOfAllIsExact | tools/cFS-GroundSystem/Subsystems/tlmGUI/GenericTelemetry.py:135-137 | Such a page hears its own packets, and no others if and only if its id is 0 or has at least four hexadecimal digits |
| Subscriptions.ManagerArgumentCapturesNothing | tools/cFS-GroundSystem/GroundSystem.py:125-135 | The string made for the file transfer manager is a prefix of no topic |

## Left out

- Elf2CfeTbl.Translator.Convert: source files outside `Safe` are excluded, since C does not say what the program does: names of 60 bytes or more or not terminated in the file, section indices out of range or of a section without a name, objects or symbol counts of 2^31 or more, signed overflow of an offset
- ObjectFile.EncodingTranslates: string tables at file offset 0, which the program takes for none, are excluded
- Elf2CfeTbl.Translator.OutputDataToTargetFile: a write that fails is not modelled; the program ignores it as well (elf2cfetbl.c:706)
- SerialConfig.Generate: the headers written before an improper direction stops the tool are not kept as an output of the failed run
- GeneratedInit.CompilesExactly: identifiers are any text; whether a name is made of identifier characters is not checked
- ElfEncoder.FileEncodes: the encoder writes one layout; `Encodes` itself leaves the layout free
- Command-line and time-epoch parsing of the translator: the options are inputs
- Opening, closing and permissions of files, memory allocation, and everything printed, including header and symbol dumps
- Display texts of the type and machine maps: only whether a key is present matters
- JSON and header reading of the generator, keys that are missing, upper-casing outside ASCII, and the CSP node and route text
- The log text, comments and includes of the generated files
- FdlSystem.py, which the main window would start, is not part of this model: it is not in the repository
- Pages started by hand, without a telemetry system
- Sockets, ZeroMQ transport and what the Qt windows show: a received datagram or an error is an event, and a host address that equals the placeholder "All" does not occur
- The DS and FM applications: their implementations are not part of this model
