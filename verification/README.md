# Verification of U-Boot's command algorithms

A Dafny model of the self-contained algorithms in U-Boot's `common/` directory (Gumstix tree), with
proofs of what they are for. Hardware is replaced by abstract devices; loops, in-place updates,
branches, constants and integer widths are those of the C code. Every method is proved against a
specification function, and the lemmas named below prove what that specification promises.

One module per component:

- `NandEcc` (`cmd_nand.c`): the table-driven Hamming code over 256-byte blocks and its corrector. Single errors
  are corrected and double errors detected, for all blocks and all positions.
- `Kermit` (`cmd_load.c`): the receiver that writes to memory while packets arrive and rolls back to a
  checkpoint. From the bytes on the line to the bytes in memory, over every session.
- `EnvStore` (`cmd_nvedit.c`): the environment, a map kept as NUL-separated text in one array.
- `MtdParts` (`cmd_jffs2.c`): parser and printer of the partition table variable, which undo each other.
- `PartTable` (`cmd_jffs2.c`): the sorted partition lists and the 8-bit index of the current partition.
- `FlashRanges` (`cmd_flash.c`): from an address range to runs of sectors over several banks.
- `MemTest` (`cmd_mem.c`): the alternative memory test, run on memory with any address decoding and any stuck bits.
- `NandRw` (`cmd_nand.c`): transfers around bad blocks.
- `Floppy` (`cmd_fdc.c`): reading with two nested retry counters.
- `SRecord` (`cmd_load.c`): memory uploaded as Motorola S-records, and a decoder for them.
- `Eeprom` (`cmd_eeprom.c`): chunked transfers to a device whose address counter wraps inside a page.
- `CircBuf` (`circbuf.c`): the ring buffer.
- `Basics`: types and facts about numbers that several modules use.

`dafny verify dfyconfig.toml` checks everything.

## Where the code does less than it seems to promise

These are proved, with the exact condition where there is one:

- A Kermit packet whose length or sequence character is damaged makes the receiver go back to the last checkpoint.
  It thereby takes back the packet before it exactly if that was a good data packet with data, which has been acknowledged
  already (`Kermit.DamagedHeaderIsHarmless`, with the characters of an upload that loses data in
  `Kermit.DamagedHeaderLosesData`). The invariant `Kermit.RunInvariant` covers these sessions too: such a packet acts
  as a failed repeat of the run before it.
- A command name that contains `=` matches entries by the part before the `=`, but the check of the names that
  can be set only once compares the whole name. Deleting `serial#=x` deletes `serial#`, and setting it to `y` makes the
  value of `serial#` `x=y` (`EnvStore.SerialIsLost`). A command takes a write-once value away exactly if its name is such
  a name and it does not define the same text again (`EnvStore.StepSparesWriteOnce`, and `EnvStore.WriteOnceStays` for
  runs). A value set under such a name does not read back (`EnvStore.SetThenGet`).
- The index of the current partition has eight bits, and a delete compares offsets with "less or equal". So an insert at or
  before the current partition number 255, and the delete of a partition behind the current one at an equal offset, lose the
  current partition (`PartTable.InsertKeepsCurrent`, `PartTable.RemoveKeepsCurrent`). The insert makes another partition
  current (`PartTable.WrappedInsert`). So does the delete if the current number is not zero. At number zero the index
  becomes 255, which is beyond the list unless that had more than 256 partitions: then no partition is current
  (`PartTable.LostCurrent`, `PartTable.EqualOffsetDelete`), and the C code goes on to read the name of the missing partition.
  Without equal offsets and index 255 none of this occurs in any run (`PartTable.SpreadingIsAllowed`).
- The flash range planner plans nothing for a start that is not on a sector boundary (`FlashRanges.NoStartNoPlan`), but it
  reports an error only if the request ends at the end of a sector or the start is inside a bank, before its last address
  (`FlashRanges.UnalignedIsReported`, with requests of both kinds in `FlashRanges.UnalignedRequests`). In the other cases
  the callers find the error by the count of zero.
- For a start on a sector whose request goes on behind its bank into unmapped space, the planner reports no error and plans up
  to the end of the bank, so the callers report success (`FlashRanges.PartialRequest`). Whenever a request is planned in part,
  it is cut at the end of a bank (`FlashRanges.PartIsTiled`). Where all of it is mapped in ascending order, an end inside a
  sector is always reported (`FlashRanges.MisalignedEndIsReported`).
- The receiver's answers use the padding and the end of line the sender asked for, whatever these are; the answers can be read
  by the same rules exactly if these are harmless (`Kermit.AnswersAreReadable`, with padding that is not in
  `Kermit.PaddingIsMisread`).
- The address line test does not see an alias where all bits of the shared cell are stuck at its pattern
  (`MemTest.AddressLineTest`, with such a memory in `MemTest.FrozenAliasPasses`); the increment test does (`MemTest.Iteration`).
- The comment on the NAND commands promises 0xff for bad blocks; bytes behind the end of the device read as 0xff as well
  (`NandRw.FilledRead`).
- In the partition table text a size of 0xFFFFFFFF stands for "the rest of the device" and is only accepted for the last
  partition; `MtdParts.TableRoundTrip` asks this of its tables and nothing more about sizes than the driver's minimum.

## Devices and assumptions

- Kermit: the line is a finite sequence of characters; a session may also end because no more come. Answers are collected.
- Environment: what the console and the serial line say to a new console device or baud rate is a parameter.
- Flash: a known bank has ascending sectors inside its size and ends below the top of the 32-bit space; an unknown bank reports no sectors.
- RAM: a function from word offsets to cells, and for every cell the bits that are stuck and their levels.
- NAND: page operations that are aligned and stay inside one good block; whether one fails is a function of its position. A skipping transfer
  needs enough good blocks before the end of the device (`NandRw.Enough`).
- Floppy: the outcome of every READ and of every positioning command is given by its number; a broken transfer may leave
  any bytes behind. At most two heads, 255 sectors and 256 tracks, as in the command bytes.
- EEPROM: a bus on which every transfer may go unacknowledged; a device owns a power-of-two range of chip addresses.

## Model

| member | source | states |
|---|---|---|
| `NandEcc.Code` | gumstix_uboot/common/cmd_nand.c:1765-1794 | the code of a block is the bit-by-bit definition: every one of the 22 stored bits is the inverted parity of the data bits whose position has the matching index bit set or clear |
| `NandEcc.CodeUnique` | gumstix_uboot/common/cmd_nand.c:1765-1794 | that definition leaves no freedom: bytes that satisfy it are the code |
| `NandEcc.CodeIsLinear` | gumstix_uboot/common/cmd_nand.c:1765-1794 | the exclusive or of two blocks' codes depends only on the exclusive or of the blocks |
| `NandEcc.CodeAfterFlip` | gumstix_uboot/common/cmd_nand.c:1765-1848 | flipping data bit (j, b) changes the code by the fixed pattern that spells j and b |
| `NandEcc.TablePair` | gumstix_uboot/common/cmd_nand.c:1686-1719 | each column bit of the 256-entry table is the parity of the byte bits that column covers, for every byte |
| `NandEcc.TableTotal` | gumstix_uboot/common/cmd_nand.c:1686-1719 | bit 6 of a table entry, the driver's test, is the parity of the whole byte |
| `NandEcc.RegistersStep` | gumstix_uboot/common/cmd_nand.c:1771-1785 | one loop step keeps the registers equal to the parities of the bytes seen so far |
| `NandEcc.EncodeIsCode` | gumstix_uboot/common/cmd_nand.c:1787-1794 | deriving the second line register from the first and the total parity gives the same code as the definition |
| `NandEcc.TransResult` | gumstix_uboot/common/cmd_nand.c:1725-1760 | the two line registers are interleaved, odd and even, into code bytes 0 and 1 |
| `NandEcc.CalculateEcc` | gumstix_uboot/common/cmd_nand.c:1765-1794 | the table-driven loop computes the bit-by-bit code of every block |
| `NandEcc.CountBits` | gumstix_uboot/common/cmd_nand.c:1850-1865 | the bit-counting loop computes the weight of a syndrome byte |
| `NandEcc.LocateByte` | gumstix_uboot/common/cmd_nand.c:1818-1833 | the mask loops gather the odd line parities into the byte index |
| `NandEcc.LocateBit` | gumstix_uboot/common/cmd_nand.c:1834-1842 | the mask loop gathers the odd column parities into the bit index |
| `NandEcc.Decide` | gumstix_uboot/common/cmd_nand.c:1804-1877 | the driver's tests on the syndrome amount to the verdict, whose meaning is that of `NandEcc.RepairIsExact` |
| `NandEcc.CorrectData` | gumstix_uboot/common/cmd_nand.c:1799-1882 | in place: result, data and stored code after the call are those of the specified corrector, for all inputs |
| `NandEcc.CheckBlock` | gumstix_uboot/common/cmd_nand.c:951-952 | computing the code and then correcting by it, as a page read does, is the specified repair |
| `NandEcc.NoError` | gumstix_uboot/common/cmd_nand.c:1808-1810 | an undamaged block gives 0 and stays as it is |
| `NandEcc.SingleErrorCorrected` | gumstix_uboot/common/cmd_nand.c:1803-1872 | every block, every one of its 2048 data bits and 22 code bits: the flip is undone (1) or, in the code, recognised with the data untouched (2) |
| `NandEcc.DoubleErrorDetected` | gumstix_uboot/common/cmd_nand.c:1803-1877 | every two distinct flips among these 2070 bits give -1 and leave data and code untouched |
| `NandEcc.RepairIsExact` | gumstix_uboot/common/cmd_nand.c:1803-1877 | the answer for every stored block, however damaged: 0 if and only if the stored code is the code of the data; 2 if and only if they differ in exactly one of all 24 bits; 1 if and only if there is a data bit whose flip makes the code agree in the 22 used bits, which is then the bit flipped; and -1 in all other cases. With 0 and -1 nothing changes, with 2 the code becomes that of the data |
| `NandEcc.KnownCodes` | gumstix_uboot/common/cmd_nand.c:1765-1794 | the codes of a cleared block and of two blocks with one bit set, as numbers |
| `NandEcc.DamageSyndrome` | gumstix_uboot/common/cmd_nand.c:1803-1806 | damage at one position changes the syndrome by a trace that does not depend on the data |
| `NandEcc.TwoTraces` | gumstix_uboot/common/cmd_nand.c:1809-1876 | no two traces combine to a syndrome that looks like a single error |
| `Kermit.DecodeQuotedAll` | gumstix_uboot/common/cmd_load.c:564-572 | decoding undoes control quoting on all byte strings (Kermit Protocol Manual, section 6.4) |
| `Kermit.QuotingIsInvertible` | gumstix_uboot/common/cmd_load.c:564-572 | it does so exactly for quote characters that stand for themselves, as `#` does |
| `Kermit.RunInvariant` | gumstix_uboot/common/cmd_load.c:882-957 | over every session: what the receiver holds is the decoded data of the last packet of each run of equal sequence numbers that passed its checks; the checkpoint is what it held before the last run; the sequence number is that of the last run. A packet with a damaged header acts as a failed repeat of the run before it |
| `Kermit.TransferIsExact` | gumstix_uboot/common/cmd_load.c:669-700 | however the quoted text is cut into packets, between a quote and its character too, and whatever was repeated or damaged: if the kept packets carry the text, the data come out exactly |
| `Kermit.DamagedHeaderLosesData` | gumstix_uboot/common/cmd_load.c:860-872 | an upload, given by its characters, of two printable characters in two packets with a damaged header between them: the three packets are acknowledged and the damaged one refused, and only the second character is left |
| `Kermit.DamagedHeaderIsHarmless` | gumstix_uboot/common/cmd_load.c:860-872 | a packet with a damaged header changes what has been received if and only if the frame before it was a good data packet with data |
| `Kermit.AllKept` | gumstix_uboot/common/cmd_load.c:882-957 | without damaged headers and repeated numbers every good data packet is kept, and no other |
| `Kermit.PackedIsRead` | gumstix_uboot/common/cmd_load.c:859-951 | a well-formed packet with up to 220 characters of data is read back exactly, wherever it stands in the stream |
| `Kermit.PackedLongIsRead` | gumstix_uboot/common/cmd_load.c:894-951 | so is a packet with extended length, up to 21278 characters, the most two length characters can say |
| `Kermit.ShortIsRead` | gumstix_uboot/common/cmd_load.c:943-951 | what a well-formed packet reads as when any character, or none, follows its block check: good exactly if that is the end character |
| `Kermit.StreamIsRead` | gumstix_uboot/common/cmd_load.c:806-970 | a stream of well-formed packets, short and extended ones mixed, up to a break packet is read packet by packet |
| `Kermit.AcceptedIffWellFormed` | gumstix_uboot/common/cmd_load.c:846-951 | what the receiver accepts, from any position of any stream: exactly a well-formed packet, short or extended, behind the first start of packet with no control-C before it, as the number, type and data it says; and it is interrupted exactly by such a control-C |
| `Kermit.FrameIsLocal` | gumstix_uboot/common/cmd_load.c:859-951 | what a packet is read as depends on nothing behind its end |
| `Kermit.FrameCompletes` | gumstix_uboot/common/cmd_load.c:859-951 | every packet that is not accepted is refused at the first character that cannot belong to a good one: up to that character it could still have become one |
| `Kermit.NumberOfFrame` | gumstix_uboot/common/cmd_load.c:859-895 | a packet counts as damaged exactly if a control character stands in place of its length or number; any other one counts under its own number and type |
| `Kermit.SessionEnds` | gumstix_uboot/common/cmd_load.c:847-967 | a session ends with a control-C, an accepted break packet or the stream, and with nothing else |
| `Kermit.RefusedIsUndone` | gumstix_uboot/common/cmd_load.c:951-966 | a refused packet changes neither parameters nor data, and only accepted data packets are kept |
| `Kermit.SendInitIsParsed` | gumstix_uboot/common/cmd_load.c:720-757 | from the fields a sender puts into its send-init packet exactly its padding, end of line and quote are taken over, for all values; a packet that leaves fields out leaves their defaults |
| `Kermit.QuoteBeforeCharacter` | gumstix_uboot/common/cmd_load.c:564-572 | a character behind a quote means the control character that differs from it in bit 6, or else itself |
| `Kermit.UploadIsExact` | gumstix_uboot/common/cmd_load.c:795-971 | from bytes on the line to memory: a clean upload in short and extended packets, quoted by any self-translating character that stands in the sixth field of its send-init packets, ends with exactly the sender's data |
| `Kermit.NegotiatedUploadIsExact` | gumstix_uboot/common/cmd_load.c:708-971 | the same for an upload that begins with a send-init packet of any fields, and the quote character in it, if that is neither a letter nor a control character |
| `Kermit.UploadIsAcknowledged` | gumstix_uboot/common/cmd_load.c:593-617 | what the receiver sends during a clean upload is, read by the same rules, one acknowledgement for every packet, in order and with its number |
| `Kermit.InitFieldsMean` | gumstix_uboot/common/cmd_load.c:725-778 | the parameters the receiver sends, read by its own rules, are its defaults: no padding, carriage return, `#` |
| `Kermit.InitFieldsAre` | gumstix_uboot/common/cmd_load.c:725-778 | they are these thirteen characters, as many fields of them as the sender offered |
| `Kermit.OfferIsKept` | gumstix_uboot/common/cmd_load.c:773-777 | a long packet of the greatest length offered there is read |
| `Kermit.CheckOfSum` | gumstix_uboot/common/cmd_load.c:574-582 | the block check is that of the character sum modulo 256 |
| `Kermit.LetterIsReceived` | gumstix_uboot/common/cmd_load.c:795-971 | an upload of one letter, number by number: the characters, the frames, the byte in memory and the answers |
| `Kermit.AnswersAreReadable` | gumstix_uboot/common/cmd_load.c:574-617 | an acknowledgement, refusal or parameter answer is a packet that the same reading rules accept if and only if the sender asked for the usual end of line, and for no padding or padding that is neither a packet start nor a control-C |
| `Kermit.PaddingIsMisread` | gumstix_uboot/common/cmd_load.c:574-617 | a send-init packet that asks for one packet start as padding: its acknowledgement is not read as that packet |
| `Kermit.Receiver.GetChar` | gumstix_uboot/common/cmd_load.c:847-858 | takes the next character of the input stream |
| `Kermit.Receiver.Save` | gumstix_uboot/common/cmd_load.c:639-643 | takes the checkpoint: the saved state is the current one |
| `Kermit.Receiver.Restore` | gumstix_uboot/common/cmd_load.c:645-649 | goes back to the checkpoint |
| `Kermit.Receiver.StoreChar` | gumstix_uboot/common/cmd_load.c:651-658 | one byte goes to memory at the download address, and nothing else changes |
| `Kermit.Receiver.DataChar` | gumstix_uboot/common/cmd_load.c:685-700 | one character advances the decoder by one step |
| `Kermit.Receiver.HandleSendPacket` | gumstix_uboot/common/cmd_load.c:708-792 | the parameters of a send-init packet are taken over, and the answer is the specified packet |
| `Kermit.Receiver.AwaitStart` | gumstix_uboot/common/cmd_load.c:847-858 | skips to the start of a packet or to a control-C |
| `Kermit.Receiver.TakeHeader` | gumstix_uboot/common/cmd_load.c:859-873 | reads length and sequence character: starved, damaged, or the rest of the packet |
| `Kermit.Receiver.TakeExtension` | gumstix_uboot/common/cmd_load.c:901-924 | reads the extended length and its check |
| `Kermit.Receiver.TakeData` | gumstix_uboot/common/cmd_load.c:925-951 | the data field goes to memory or to the send-init buffer as it comes; the frame read is the specified one |
| `Kermit.Receiver.TakeTrailer` | gumstix_uboot/common/cmd_load.c:943-951 | compares the block check and finds the end of the packet |
| `Kermit.Receiver.TakeBody` | gumstix_uboot/common/cmd_load.c:894-951 | type, length, data and check of one packet, with their effect on memory |
| `Kermit.Receiver.Conclude` | gumstix_uboot/common/cmd_load.c:951-967 | a good packet is acknowledged, a bad one refused and taken back from memory |
| `Kermit.Receiver.ReceivePacket` | gumstix_uboot/common/cmd_load.c:830-969 | one round: the frame is the one that starts next in the stream, and the state makes exactly that step |
| `Kermit.Receiver.NextPacket` | gumstix_uboot/common/cmd_load.c:830-969 | the same round seen from the session: it either ends the session or extends the frames received |
| `Kermit.Receiver.Receive` | gumstix_uboot/common/cmd_load.c:795-971 | a session that ends with a good break packet leaves exactly the assembled data in memory from the start address on, returns their number and has answered every frame as specified; memory below the start address is never changed |
| `EnvStore.SetRefinesMap` | gumstix_uboot/common/cmd_nvedit.c:153-384 | a command sets or removes one key or does nothing; all other entries keep value and order; on overflow only the named key is gone |
| `EnvStore.SetKeepsOthers` | gumstix_uboot/common/cmd_nvedit.c:153-384 | no command changes what another name reads as |
| `EnvStore.SetKeepsDistinct` | gumstix_uboot/common/cmd_nvedit.c:258-324 | every command keeps well-formed entries with distinct keys |
| `EnvStore.SetThenGet` | gumstix_uboot/common/cmd_nvedit.c:300-324 | the value just set is read back exactly for names without `=` |
| `EnvStore.OnceIsRefused` | gumstix_uboot/common/cmd_nvedit.c:184-200 | without the overwrite option an existing `serial#`, and an existing `ethaddr` with no default or with another value than the default, are refused for every argument list, and nothing changes |
| `EnvStore.SettingsAreChecked` | gumstix_uboot/common/cmd_nvedit.c:202-248 | an existing console name is not deleted and not set to a device that fails, an existing `baudrate` not changed to one that is not supported; nothing changes then |
| `EnvStore.OthersAreSet` | gumstix_uboot/common/cmd_nvedit.c:258-324 | every other command succeeds: a delete leaves no entry of the key, a definition is appended exactly if the array holds the whole environment with it, otherwise the result is 1 and the old entry is lost |
| `EnvStore.WordsAreJoined` | gumstix_uboot/common/cmd_nvedit.c:313-321 | the words of a value are separated by single blanks |
| `EnvStore.WriteOnceStays` | gumstix_uboot/common/cmd_nvedit.c:184-200 | over every run of commands: a write-once value (of `serial#`, or of `ethaddr` unless it is the default one that may be overwritten) stays after each of them if and only if every command spares it, by a name that does not mean its key by way of a `=` or by defining the very same text |
| `EnvStore.StepSparesWriteOnce` | gumstix_uboot/common/cmd_nvedit.c:184-200 | the same for a single command, a delete or a set, that succeeds, is refused or overflows |
| `EnvStore.SerialIsLost` | gumstix_uboot/common/cmd_nvedit.c:184-200 | with `serial#=1` in the environment: deleting `serial#` is refused, deleting `serial#=x` leaves nothing, setting `serial#=x` to `y` leaves `serial#=x=y` |
| `EnvStore.DefaultIsReplacedOnce` | gumstix_uboot/common/cmd_nvedit.c:188-193 | with the option for it a default `ethaddr` can be set, and what it is set to is write-once exactly if it differs from the default |
| `EnvStore.KeysCompared` | gumstix_uboot/common/cmd_nvedit.c:557-568 | where the character-wise match stops decides whether the keys are equal |
| `EnvStore.NoDoubleNul` | gumstix_uboot/common/cmd_nvedit.c:264-273 | the only double NUL of the array is its end |
| `EnvStore.Shift` | gumstix_uboot/common/cmd_nvedit.c:264-271 | the in-place copy moves the entries behind the deleted one down, up to the double NUL |
| `EnvStore.Environment.constructor` | gumstix_uboot/common/env_common.c:244-253 | the default environment: its entries in a cleared array |
| `EnvStore.Environment.EnvMatch` | gumstix_uboot/common/cmd_nvedit.c:557-568 | gives the index of the value exactly if the keys are equal |
| `EnvStore.Environment.FindEntry` | gumstix_uboot/common/cmd_nvedit.c:173-179 | walks to the entry with the key of the name, or to the end |
| `EnvStore.Environment.GetEnv` | gumstix_uboot/common/cmd_nvedit.c:486-506 | gives the index of the NUL-terminated value, and -1 exactly if there is none |
| `EnvStore.Environment.Erase` | gumstix_uboot/common/cmd_nvedit.c:258-273 | the array without the bytes of one entry, for a first, middle, last and only entry |
| `EnvStore.Environment.DeleteEntry` | gumstix_uboot/common/cmd_nvedit.c:258-273 | the entry is gone, the others keep their order, the array is their flat form again |
| `EnvStore.Environment.FindEnd` | gumstix_uboot/common/cmd_nvedit.c:296-299 | finds the place behind the last entry |
| `EnvStore.Environment.WriteDefinition` | gumstix_uboot/common/cmd_nvedit.c:313-324 | writes name, `=`, the words with blanks between them, and the double NUL |
| `EnvStore.Environment.AppendDefinition` | gumstix_uboot/common/cmd_nvedit.c:300-324 | appends the definition exactly if it fits, and refuses otherwise |
| `EnvStore.Environment.SetEnv` | gumstix_uboot/common/cmd_nvedit.c:153-384 | result and array after a command are those of the specified command on the entries |
| `MtdParts.FormatIsParsed` | gumstix_uboot/common/cmd_jffs2.c:191-238 | parsing the text of a size gives the size back, for every 32-bit number |
| `MtdParts.PartIsParsed` | gumstix_uboot/common/cmd_jffs2.c:592-700 | the text of a partition is parsed to size, offset, flags and name of that partition, with the one exception of a size that stands for "the rest" followed by another partition |
| `MtdParts.PartsAreParsed` | gumstix_uboot/common/cmd_jffs2.c:890-925 | the texts of the partitions of a device are parsed to these partitions with their offsets filled in |
| `MtdParts.DeviceIsParsed` | gumstix_uboot/common/cmd_jffs2.c:852-977 | the text of a device is parsed to the device |
| `MtdParts.SortAllAscending` | gumstix_uboot/common/cmd_jffs2.c:507-561 | sorting in partitions that ascend by offset keeps their order and refuses none |
| `MtdParts.DevicesAreParsed` | gumstix_uboot/common/cmd_jffs2.c:1375-1422 | the texts of the devices are parsed one after the other to the devices |
| `MtdParts.TableRoundTrip` | gumstix_uboot/common/cmd_jffs2.c:1092-1204 | printing any valid table and parsing the text rebuilds devices, offsets, sizes, names and read-only flags |
| `MtdParts.ValidIffInside` | gumstix_uboot/common/cmd_jffs2.c:315-431 | a partition is accepted if and only if its interval is not empty, lies in the device, and begins and ends on borders of sectors or erase blocks, or with the chip; a size that stands for the rest becomes what is left behind the offset |
| `MtdParts.RestIsParsed` | gumstix_uboot/common/cmd_jffs2.c:592-700 | partitions followed by one with a dash for its size are read as these and one that begins where they end and ends with the device, for every device with borders there |
| `MtdParts.TableWithRest` | gumstix_uboot/common/cmd_jffs2.c:1375-1422 | the usual variable of one device with such a last partition is accepted as just that |
| `MtdParts.DefinitionIsAccepted` | gumstix_uboot/common/cmd_jffs2.c:592-668 | every text of the grammar of a definition (size or dash, offset, name, option, separator) is accepted as what it says |
| `MtdParts.AcceptedIsDefinition` | gumstix_uboot/common/cmd_jffs2.c:592-668 | and nothing else is accepted |
| `MtdParts.AcceptedTableIsSound` | gumstix_uboot/common/cmd_jffs2.c:852-1422 | whatever text is accepted, its table has a device, no device twice, only known devices with partitions, and these in order, inside the device and on its borders, at most one at offset zero |
| `MtdParts.SortAddRefuses` | gumstix_uboot/common/cmd_jffs2.c:507-561 | sorting in refuses a partition if and only if it would be the second at offset zero |
| `MtdParts.SameDeviceMeans` | gumstix_uboot/common/cmd_jffs2.c:805-820 | devices are told apart by type and number |
| `MtdParts.PrefixIsThere` | gumstix_uboot/common/cmd_jffs2.c:1092-1108 | every text printed or accepted begins with `mtdparts=` |
| `MtdParts.NumberIsRead` | gumstix_uboot/lib_generic/vsprintf.c:24-49 | any text is read as the decimal, octal or hexadecimal number that its longest run of digits means, modulo 2^32 |
| `MtdParts.DigitCharacters` | gumstix_uboot/lib_generic/vsprintf.c:40-45 | the digits are those of base 16, in lower and upper case, and no other characters |
| `MtdParts.SizeIsRead` | gumstix_uboot/common/cmd_jffs2.c:191-215 | a suffix G, M or K, or its small letter, multiplies by 2^30, 2^20 or 2^10 |
| `MtdParts.FormatIsShortest` | gumstix_uboot/common/cmd_jffs2.c:224-238 | no other exact notation of a size is as short as the printed one |
| `MtdParts.StrToUl` | gumstix_uboot/lib_generic/vsprintf.c:24-49 | the loops compute the number in C notation, modulo 2^32 |
| `MtdParts.MemsizeParse` | gumstix_uboot/common/cmd_jffs2.c:191-215 | a number with its k, m or g, modulo 2^32 |
| `MtdParts.PartParse` | gumstix_uboot/common/cmd_jffs2.c:592-700 | the pointer-moving parser of one definition is the specified parser, on all texts |
| `MtdParts.PartsParse` | gumstix_uboot/common/cmd_jffs2.c:890-925 | so is the loop over the definitions of a device |
| `MtdParts.DeviceParse` | gumstix_uboot/common/cmd_jffs2.c:852-977 | and the parser of a device |
| `MtdParts.ParseMtdparts` | gumstix_uboot/common/cmd_jffs2.c:1375-1422 | and the parser of the whole variable; any error leaves no devices |
| `MtdParts.EmitPart` | gumstix_uboot/common/cmd_jffs2.c:1128-1179 | prints one partition exactly if the rest of the buffer takes it |
| `MtdParts.GenerateParts` | gumstix_uboot/common/cmd_jffs2.c:1124-1190 | prints the partitions of a device exactly if they fit |
| `MtdParts.GenerateMtdparts` | gumstix_uboot/common/cmd_jffs2.c:1092-1209 | succeeds exactly if the text behind the prefix fits, and then yields the specified text |
| `PartTable.InsertKeepsOrder` | gumstix_uboot/common/cmd_jffs2.c:507-561 | an insert adds the partition and keeps the list sorted and free of repetitions |
| `PartTable.InsertKeepsCurrent` | gumstix_uboot/common/cmd_jffs2.c:541-552 | after an insert the index points at the same partition if and only if the 8-bit index does not wrap |
| `PartTable.RemoveKeepsOrder` | gumstix_uboot/common/cmd_jffs2.c:467-470 | a delete takes out the partition and keeps the rest sorted |
| `PartTable.RemoveKeepsCurrent` | gumstix_uboot/common/cmd_jffs2.c:450-464 | after the delete of another partition the index points at the same partition if and only if the deleted one did not lie behind it at an equal offset |
| `PartTable.EditStep` | gumstix_uboot/common/cmd_jffs2.c:440-561 | one insert or delete, of a partition or of a device, on any device of the table: it leaves the right partition current if and only if it is none of these two cases, and then all lists stay sorted and the index valid |
| `PartTable.LostCurrent` | gumstix_uboot/common/cmd_jffs2.c:440-561 | in these two cases the current partition is lost, and none at all is current if and only if the edit is a delete at index zero in a list of at most 256 partitions |
| `PartTable.EqualOffsetDelete` | gumstix_uboot/common/cmd_jffs2.c:450-464 | two partitions at offset 4096 with the first one current: deleting the second gives index 255 in a list of one |
| `PartTable.WrappedInsert` | gumstix_uboot/common/cmd_jffs2.c:541-552 | 256 partitions with the last one current: one put in front becomes current itself |
| `PartTable.RunStaysConsistent` | gumstix_uboot/common/cmd_jffs2.c:440-561 | over every run of such edits, from any consistent table and the empty one too, and whatever they remove: the lists stay sorted and free of repetitions, the index stays valid, and a partition is current if and only if there is a device |
| `PartTable.RunKeepsCurrent` | gumstix_uboot/common/cmd_jffs2.c:440-561 | over every such run a partition that is current and never removed stays current |
| `PartTable.RefusedIff` | gumstix_uboot/common/cmd_jffs2.c:527-532 | a partition is refused if and only if it is at offset zero and another one there already |
| `PartTable.RunStaysProper` | gumstix_uboot/common/cmd_jffs2.c:440-561 | no run of edits, of these two cases or not, leads to a list out of order or with two partitions at offset zero |
| `PartTable.DevicesAreQueued` | gumstix_uboot/common/cmd_jffs2.c:773-841 | devices stay in the order in which they were added |
| `PartTable.SpreadIsHarmless` | gumstix_uboot/common/cmd_jffs2.c:440-561 | in a table without equal offsets every edit is outside these two cases, but for an insert while the index is 255 |
| `PartTable.SpreadingIsAllowed` | gumstix_uboot/common/cmd_jffs2.c:440-561 | so a run that brings in no equal offset, and nothing while the index is 255, is such a run as a whole, and leaves no equal offsets |
| `PartTable.Partitions.PartNumber` | gumstix_uboot/common/cmd_jffs2.c:1775-1806 | the walk finds the partition with the number, and nothing beyond the 16-bit count |
| `PartTable.Partitions.PartSortAdd` | gumstix_uboot/common/cmd_jffs2.c:507-561 | list, result and current index are those of the specified insert; a second partition at offset zero is refused |
| `PartTable.PartValidate` | gumstix_uboot/common/cmd_jffs2.c:401-431 | the checks of a partition object, with the size filled in in place, are the validation of its value |
| `PartTable.PartValidateNor` | gumstix_uboot/common/cmd_jffs2.c:315-350 | the two loops over the sectors find whether offset and end are on sector starts |
| `PartTable.SortAddIsInsert` | gumstix_uboot/common/cmd_jffs2.c:507-561 | sorting into the list of objects is, on their values, the sorting of the parser, with the same refusals |
| `PartTable.Partitions.PartAdd` | gumstix_uboot/common/cmd_jffs2.c:570-581 | the whole table after adding a partition; it is added exactly if it passes the validation and is not a second one at offset zero |
| `PartTable.Partitions.AdjustForDelete` | gumstix_uboot/common/cmd_jffs2.c:450-464 | the current index moves as specified for a delete |
| `PartTable.Partitions.PartDel` | gumstix_uboot/common/cmd_jffs2.c:440-478 | the whole table after a delete, the device going with its last partition |
| `PartTable.Partitions.DeviceDel` | gumstix_uboot/common/cmd_jffs2.c:773-795 | the whole table after removing a device; the first one left becomes current |
| `PartTable.Partitions.DeviceAdd` | gumstix_uboot/common/cmd_jffs2.c:825-841 | the whole table after appending a device |
| `FlashRanges.SelectionIsGapFree` | gumstix_uboot/common/cmd_flash.c:202-283 | without an error the planned sectors are one gap-free interval of addresses that begins at the first address and stays inside the request |
| `FlashRanges.CountIsExact` | gumstix_uboot/common/cmd_flash.c:267-269 | the count is the number of planned sectors |
| `FlashRanges.CompleteIffTiled` | gumstix_uboot/common/cmd_flash.c:202-283 | for disjoint banks a request is planned completely and without error if and only if it is cut exactly into sectors of banks mapped in ascending order |
| `FlashRanges.MisalignedEndIsReported` | gumstix_uboot/common/cmd_flash.c:249-259 | a request that begins at a sector and is wholly mapped by ascending banks is planned without an error if and only if it ends at the end of a sector |
| `FlashRanges.ReverseOrderIsReported` | gumstix_uboot/common/cmd_flash.c:274-279 | a request that ends in a bank in front of the one where it begins is reported |
| `FlashRanges.PartIsTiled` | gumstix_uboot/common/cmd_flash.c:249-269 | for disjoint banks a request that is planned without an error, but only in part, is planned up to the last address of a bank, and that part is cut exactly into sectors |
| `FlashRanges.PartialRequest` | gumstix_uboot/common/cmd_flash.c:249-269 | with one bank of 16 addresses a request from 0 to 200 is planned up to 15, without an error |
| `FlashRanges.RoundsToLeastEnd` | gumstix_uboot/common/cmd_flash.c:160-190 | rounding goes to the least sector end not before the address, over all banks |
| `FlashRanges.RoundedIsTiled` | gumstix_uboot/common/cmd_flash.c:160-190 | rounding the end makes every mapped ascending request that begins at a sector exactly tiled |
| `FlashRanges.LengthIsCovered` | gumstix_uboot/common/cmd_flash.c:149-283 | so a start with a length is planned completely, from the start up to that sector end |
| `FlashRanges.NoStartNoPlan` | gumstix_uboot/common/cmd_flash.c:202-283 | no sector is planned for a request that does not begin at a sector |
| `FlashRanges.UnalignedIsReported` | gumstix_uboot/common/cmd_flash.c:270-279 | the return code for such a request is an error if and only if the request ends at the end of a sector or begins inside a bank, before its last address |
| `FlashRanges.UnalignedRequests` | gumstix_uboot/common/cmd_flash.c:270-279 | with one sector of 16 addresses: no error for 100 to 200 and for 15 to 20, an error for 15 to 15 and for 14 to 20 |
| `FlashRanges.WrappedLengthPlansNothing` | gumstix_uboot/common/cmd_flash.c:149-158 | a length that wraps the end around, or a zero length, plans no sector even if rounding lifts the end above the start again |
| `FlashRanges.AddrSpecLast` | gumstix_uboot/common/cmd_flash.c:149-197 | the loops find the sector that holds the wrapped end and round up to its end; they fail exactly if no bank holds it |
| `FlashRanges.ScanBank` | gumstix_uboot/common/cmd_flash.c:229-249 | the sector scan finds the sector that starts at the first and the one that ends at the last address |
| `FlashRanges.PlanBank` | gumstix_uboot/common/cmd_flash.c:223-279 | what one bank adds to the plan, and its error cases |
| `FlashRanges.FillSectRanges` | gumstix_uboot/common/cmd_flash.c:202-283 | result, count and both arrays are those of the plan, bank by bank |
| `FlashRanges.SectErase` | gumstix_uboot/common/cmd_flash.c:433-472 | exactly the planned sectors of the banks tried are handed to the chips; it stops at the first chip that fails and does nothing when nothing is planned or the plan has an error, as for an end inside a sector |
| `FlashRanges.SectProtect` | gumstix_uboot/common/cmd_flash.c:650-704 | the protection flags of the planned sectors get the new value, all others keep theirs |
| `MemTest.BothWays` | gumstix_uboot/common/cmd_mem.c:909-945 | a word and its complement read back as a word and its complement only through cells without stuck bits |
| `MemTest.FirstReadsSuffice` | gumstix_uboot/common/cmd_mem.c:909-945 | if every cell's first offset reads right in both checking passes, no two offsets share a cell and no bit is stuck |
| `MemTest.Fill` | gumstix_uboot/common/cmd_mem.c:909-914 | every cell holds the pattern of the last offset decoded to it |
| `MemTest.CheckAndInvert` | gumstix_uboot/common/cmd_mem.c:916-930 | passes only if the first offsets read right, fails only on unsound memory; leaves the complements |
| `MemTest.CheckAndZero` | gumstix_uboot/common/cmd_mem.c:932-945 | the same for the complements; leaves zero |
| `MemTest.IncrementTest` | gumstix_uboot/common/cmd_mem.c:907-945 | passes if and only if every offset has its own cell and no bit of these is stuck, for any decoding and any mixture of stuck bits; then the region is zero |
| `MemTest.CommonIsLine` | gumstix_uboot/common/cmd_mem.c:856-883 | walking a power of two up while it meets the mask visits exactly the mask's lowest set bits |
| `MemTest.WriteLines` | gumstix_uboot/common/cmd_mem.c:852-858 | every tested power of two holds the pattern |
| `MemTest.CheckLines` | gumstix_uboot/common/cmd_mem.c:866-891 | passes exactly if every tested power of two but the excepted one reads as the pattern |
| `MemTest.TestAgainst` | gumstix_uboot/common/cmd_mem.c:863-893 | passes exactly if every other tested power of two reads as the pattern while this offset holds the other one, for any decoding and any stuck bits |
| `MemTest.AddressLineTest` | gumstix_uboot/common/cmd_mem.c:845-893 | passes if and only if the bits stuck at the tested powers of two agree with the pattern, and each of these that shares its cell with another one or with offset zero has all bits stuck |
| `MemTest.PassIsNoAlias` | gumstix_uboot/common/cmd_mem.c:845-893 | so without stuck bits exactly if no two of offset zero and the tested powers of two share a cell |
| `MemTest.FrozenAliasPasses` | gumstix_uboot/common/cmd_mem.c:845-893 | all offsets in one cell that is stuck at the pattern: there is an alias, and the address line test passes |
| `MemTest.Opposite` | gumstix_uboot/common/cmd_mem.c:866-891 | a word reads as the complement of what was written exactly if all its bits are stuck there |
| `MemTest.SoundHasNoAlias` | gumstix_uboot/common/cmd_mem.c:845-893 | the address line test raises no false alarm on sound memory |
| `MemTest.MaskIsRegion` | gumstix_uboot/common/cmd_mem.c:845 | the offsets tested are those of the words from the start to the end address, modulo 2^32 |
| `MemTest.Iteration` | gumstix_uboot/common/cmd_mem.c:845-945 | a whole iteration passes if and only if the memory of the region is sound, and then leaves it zero |
| `NandRw.RouteAscends` | gumstix_uboot/common/cmd_nand.c:454-523 | no transfer touches a bad block; positions ascend |
| `NandRw.SkipRoutesAgree` | gumstix_uboot/common/cmd_nand.c:481-488 | a skipping read and a skipping write go to the same positions |
| `NandRw.StrictRoute` | gumstix_uboot/common/cmd_nand.c:489-493 | the other commands go straight on up to the first bad block |
| `NandRw.CompleteIffEnough` | gumstix_uboot/common/cmd_nand.c:466-493 | a skipping transfer can be completed if and only if enough good blocks are left |
| `NandRw.CommandNumbers` | gumstix_uboot/common/cmd_nand.c:447-452 | by their numbers: 0 and 1 stop at a bad block, 3 fills, 2 and 7 skip |
| `NandRw.Chip.ReadEcc` | gumstix_uboot/common/cmd_nand.c:501-504 | an aligned page read inside one good block |
| `NandRw.Chip.WriteEcc` | gumstix_uboot/common/cmd_nand.c:505-509 | an aligned page write inside one good block |
| `NandRw.FillBlock` | gumstix_uboot/common/cmd_nand.c:473-480 | the rest of a bad block is made up with 0xff |
| `NandRw.Move` | gumstix_uboot/common/cmd_nand.c:501-517 | one page operation extends the transfer, or fails and leaves what was done |
| `NandRw.Rw` | gumstix_uboot/common/cmd_nand.c:454-523 | bytes are moved along the whole route, with result 1 at the first place a command cannot go to; or up to the first page operation that fails, whose report is the result, and nothing behind that operation is touched. All page operations are aligned and inside good blocks |
| `NandRw.BadBlocksStay` | gumstix_uboot/common/cmd_nand.c:466-493 | bad blocks keep their contents, whether a write succeeds or fails |
| `NandRw.ReadReturnsWritten` | gumstix_uboot/common/cmd_nand.c:454-523 | a skipping read with the same start and length returns the bytes of a skipping write, for every map of bad blocks |
| `NandRw.FilledRead` | gumstix_uboot/common/cmd_nand.c:473-479 | a filling read is the chip with 0xff in place of bad blocks and of what lies behind the end |
| `Floppy.NumberingIsBijective` | gumstix_uboot/common/cmd_fdc.c:309-313 | block numbers and (track, head, sector) determine each other |
| `Floppy.SameSide` | gumstix_uboot/common/cmd_fdc.c:509-515 | blocks up to the end of a side follow each other sector by sector |
| `Floppy.CommandFits` | gumstix_uboot/common/cmd_fdc.c:309-324 | the command bytes hold the position without loss, and the sectors read are the blocks meant |
| `Floppy.ChunksAreSides` | gumstix_uboot/common/cmd_fdc.c:509-580 | a request is read in as many chunks as there are track sides from that of its first block to that of its last |
| `Floppy.ReadChunk` | gumstix_uboot/common/cmd_fdc.c:518-569 | every READ is issued on the track sought and stays on one side; a complete one appends its blocks |
| `Floppy.NextChunk` | gumstix_uboot/common/cmd_fdc.c:518-580 | one round: a chunk that was read moves buffer, block number and rest of the request on, a broken one changes none of them |
| `Floppy.ReadData` | gumstix_uboot/common/cmd_fdc.c:482-598 | success leaves the blocks in order whatever transfers broke off; with positioning commands that work it succeeds if and only if the last chunk is read before the 25th broken transfer; the head is moved once to every chunk, and to track zero and back after every fifth broken transfer |
| `SRecord.UploadIsExact` | gumstix_uboot/common/cmd_load.c:324-382 | for every memory range the S-record rules decode the text to exactly its bytes at their addresses |
| `SRecord.RecordsAreLoaded` | gumstix_uboot/common/cmd_load.c:341-378 | the data records alone load the range, record by record at contiguous addresses |
| `SRecord.RecordIsRead` | gumstix_uboot/common/cmd_load.c:353-372 | a record is read as address and data, and its length is fixed by the data |
| `SRecord.RecordsAreShort` | gumstix_uboot/common/cmd_load.c:324-332 | no record is longer than 46 characters |
| `SRecord.RecordsAreFull` | gumstix_uboot/common/cmd_load.c:351-378 | there is one record for every sixteen bytes begun, and all but the last are full |
| `SRecord.EmptyUpload` | gumstix_uboot/common/cmd_load.c:324-328 | the first and the last line, letter by letter |
| `SRecord.RecordsHaveNoNewline` | gumstix_uboot/common/cmd_load.c:353-372 | no record contains a newline, so the lines of the text are the records |
| `SRecord.ChecksumFits` | gumstix_uboot/common/cmd_load.c:353-366 | with its checksum a record adds up to 0xff modulo 256 |
| `SRecord.Collect` | gumstix_uboot/common/cmd_load.c:342-350 | two hexadecimal digits and a NUL, inside the data buffer |
| `SRecord.BuildRecord` | gumstix_uboot/common/cmd_load.c:353-369 | the sums and the print into the 48-character buffer make the specified record |
| `SRecord.WriteRecord` | gumstix_uboot/common/cmd_load.c:384-398 | a string is sent up to its NUL |
| `SRecord.SaveSerial` | gumstix_uboot/common/cmd_load.c:329-382 | the upload sends exactly the specified lines, up to and with the first after which the user aborts; the result is -1 if and only if there is one |
| `Eeprom.OrIsSum` | gumstix_uboot/common/cmd_eeprom.c:154-167 | inserting the device address by a bitwise or is an addition when the device owns the low bits |
| `Eeprom.CellsAreLinear` | gumstix_uboot/common/cmd_eeprom.c:151-167 | behind its chip addresses the device is one row of bytes |
| `Eeprom.WriteInside` | gumstix_uboot/common/cmd_eeprom.c:269-279 | a page write that ends with the page at the latest is a linear write |
| `Eeprom.ChunkPlace` | gumstix_uboot/common/cmd_eeprom.c:238-279 | no chunk crosses a page or a 256-byte block, and it goes to the cell of its offset |
| `Eeprom.ChunkIsLongest` | gumstix_uboot/common/cmd_eeprom.c:238-279 | a chunk is the longest that the range, the bus and the page or block allow |
| `Eeprom.AllAcked` | gumstix_uboot/common/cmd_eeprom.c:132-380 | every byte of a range belongs to one of its transfers |
| `Eeprom.Bus.I2cWrite` | gumstix_uboot/common/cmd_eeprom.c:365-366 | the device: the address counter wraps inside the page |
| `Eeprom.Bus.I2cRead` | gumstix_uboot/common/cmd_eeprom.c:187-188 | the device: sequential reading inside a 256-byte block |
| `Eeprom.WriteChunk` | gumstix_uboot/common/cmd_eeprom.c:228-376 | one round: the chunk is written in its place or, without acknowledge, reported |
| `Eeprom.ReadChunk` | gumstix_uboot/common/cmd_eeprom.c:142-192 | one round of reading |
| `Eeprom.Write` | gumstix_uboot/common/cmd_eeprom.c:206-380 | one transfer for every chunk, whatever happens to those before it; exactly the bytes of the acknowledged chunks are in their cells, all others are unchanged; the result is 1 exactly if a chunk was not acknowledged; an end that wraps around writes nothing |
| `Eeprom.Read` | gumstix_uboot/common/cmd_eeprom.c:132-195 | one transfer for every chunk; the bytes of the acknowledged chunks are read, with the same result and wrap-around cases |
| `Eeprom.ReadReturnsWritten` | gumstix_uboot/common/cmd_eeprom.c:132-380 | a read returns what a write of the same range has written, if all their transfers were acknowledged |
| `CircBuf.WindowPushed` | gumstix_uboot/common/circbuf.c:90-104 | writing at the tail appends, and costs the oldest byte only in a full ring |
| `CircBuf.CircBuf.constructor` | gumstix_uboot/common/circbuf.c:27-41 | an empty ring of any size, zero included |
| `CircBuf.CircBuf.Push` | gumstix_uboot/common/circbuf.c:81-110 | the ring holds the last bytes of what it held and what was pushed |
| `CircBuf.CircBuf.Pop` | gumstix_uboot/common/circbuf.c:54-79 | the oldest bytes come out, as many as asked for and available, and are gone from the ring |
| `CircBuf.RunIsQueue` | gumstix_uboot/common/circbuf.c:54-110 | over every run without an overflow, what came out and what is left is what was pushed, in order |
| `CircBuf.RunHoldsLatest` | gumstix_uboot/common/circbuf.c:54-110 | over every run the ring holds a last part of what was pushed |

## Left out

- Register access, delays, chip enables, console output, watchdog and LEDs: plumbing around the algorithms.
- The chip command sequences of NAND page reads and writes, the page cache and unaligned transfers: `NandRw` takes whole-page operations as given.
- NandRw.Rw: asks for enough good blocks when it skips, because without them the C loop runs past the end of the device and its 32-bit position wraps around. With enough good blocks all positions stay inside the device.
- Kermit.Receiver.Receive: says nothing about memory from the start address on when the stream ends, or a control-C comes, before a break packet; the C code then waits or gives up with a count of zero.
- `os_data_state` of the Kermit receiver is always zero and is not a field of the model; neither are baud rate switching and the loading of S-records.
- The CRC over the environment, `getenv_r`, the update of network and console settings after a change, and saving to flash.
- MtdParts.TableRoundTrip: flags are compared as zero or not zero, since the printer writes `ro` for any flag; generated names are not printed and come back as absent.
- MtdParts.GenerateMtdparts: the fixed prefix is not charged to the buffer length, as in the code, so the buffer has to have room for it.
- Parsing of `mtdids`, the dispatch of the `mtdparts` command, and the environment variables that mirror the current partition.
- Linked lists are sequences of object references, so the link fields themselves and memory being freed are not modelled.
- Sector specifications of the form bank:first-last, data flash, and the text parsing of addresses.
- The data line test of the memory test only prints and changes no result; the default memory test is not modelled.
- MemTest works on words as numbers below 2^32, the bit operations of the code being written as arithmetic on single bits.
- Waiting for the floppy controller without end, and motor control; DMA does not occur in this driver.
- FRAM and SPI variants of the EEPROM driver, the X40430 write enable sequence, and write delays.
- CircBuf.CircBuf.Push: asks that nothing is pushed into a ring of size zero; the C code would write behind its buffer there.
- PCMCIA, PCI, MII, I2C, DOC, FPGA, IMMAP, BMP, VFD, boot, network, log and disassembler commands: I/O plumbing, tables that are not part of this model, or easier layout arithmetic.
