# Verified model of the boot library, the build-list tool and the kernel debugger

This project models the stateful cores of the repository in Dafny and proves what they promise:

* **UEFI device paths** (`DevicePath*.dfy`): the walking, splitting, appending, unpacking and matching of
  the byte records of section 9.3 of the UEFI Specification 2.4, related to a list of instances of nodes.
* **CRC-32 of table headers** (`ShiftRegister.dfy`, `Crc.dfy`, `CrcValues.dfy`): the table-driven loop against the
  bit-by-bit reflected CRC of section 8 of RFC 1952, its residue and check value, the detection of every change
  within 32 consecutive bits, and the set/check protocol of EFI table headers.
* **The glob matcher** (`MetaMatch.dfy`, `MetaMatchLaws.dfy`) against the language that a pattern denotes.
* **The formatted printer** (`PrintNumbers.dfy`, `PrintFormat.dfy`, `PrintLaws.dfy`, `PrintText.dfy`,
  `Printer.dfy`, `PrintSinks.dfy`, `PrintPool.dfy`, `PrintedNumbers.dfy`, `PrintDirectives.dfy`): a 200-slot
  buffer with flushes, newline expansion, fields and display attributes, which a reader cannot tell from
  unbuffered printing; a truncating and a growing memory sink, with the exact conditions under which they keep the text; and the number printers as inverses of
  the parsers (`ReadingLaws.dfy`).
* **mbuild evaluation** (`Mbuild.dfy`): a mutually recursive walk over global lists that terminates on
  cyclic includes and, as long as its files evaluate, leaves every listed directory visited.
* **Circular lists, growing buffers, protocol installation, self-relocation** (`ListEntries.dfy`,
  `GrowBuffer.dfy`, `ProtocolInstall.dfy`, `Relocate.dfy`, `RelocateBytes.dfy`).
* **The debugger's line editor, tokenizer and number conversions** (`DebugLine.dfy`, `DebugNumbers.dfy`).

`Basics.dfy` and `Digits.dfy` hold what these share.

What the functions of the specification mean is also said without them, in the codes, bytes and texts that a caller
sees: `CrcValues.dfy`, `MetaMatchLaws.dfy`, `DevicePathBytes.dfy`, `PrintedNumbers.dfy`, `PrintDirectives.dfy`,
`ReadingLaws.dfy`, `RelocateBytes.dfy`, and the lemmas beside `Mbuild.Apply` and `DebugLine.Edit`.

Code that updates things in place is a method over arrays, or a class; its contract ties the new state to a
function of the old one. Bytes and characters are bounded integers, or bit vectors where the source works
on bits. Wrap-around is written out where it can be observed. What comes from outside is a parameter:
keystrokes, firmware answers, refused allocations, the file system and the parser of build files.

## Where the code does less than its comments say

* `AppendDevicePath` and `AppendDevicePathNode` are commented as appending to every instance. They copy the
  second path's own end marker, so the result ends there: the comment holds exactly when the first path has one instance
  (`AppendsToEveryInstance`; `SecondInstanceLost` is a concrete case). What it writes fits what it allocates
  exactly under the condition of `AllocationSuffices`; `AllocationOverrun` is an input for which it does not.
* `SwapListEntries` puts one entry before another, except when it is there already: then the ring is broken
  (`SwapBreaksRing`).
* The dash is documented as justifying on the left. It moves only the blanks that fill the field width: the padding
  to the width stays in front of the text, so that the text is on the left exactly under the condition of
  `DashJustifies`, and without a field width the dash does nothing (`DashNeedsFieldWidth`, `DashIgnored`).
* The u directive is documented as printing an unsigned value. The value passes through a signed parameter, so this
  holds exactly under the condition of `UnsignedPrinted`; `LargestUnsigned` is a value for which it does not.
* The colours `%n`, `%h` and `%e` are documented as holding for their field only. A second one in the same
  directive overwrites what to return to, and the attribute 0 stands for none: the previous attribute returns
  exactly under the condition of `FieldColourRestored`; `TwoFieldColoursLeak` and `FieldColourLeaksFromZero`
  are inputs where it does not.
* A lasting colour such as `%E` does what it says exactly when its attribute is not 0 (`LastingColourEnds`).
  Without a display the attributes are 0 and the characters that follow are read as more of the directive
  (`HelloSwallowed`).
* `UnicodeVSPrint` is documented as truncating to the size given, with size 0 for no limit. The string ends
  within the size exactly for sizes from 4 on (`SizeRespectedIff`): size 1 is unlimited too, and sizes 2 and 3
  store nothing, not even a terminator.
* A growing print whose allocation is refused on the way and granted later returns the rest of the text as if it
  were all of it. The whole text is kept exactly under the condition of `KeepsAllIff`; `StartLost` is an input
  for which it is not.
* `UnpackDevicePath` yields a path exactly when every padded length fits its 16-bit field
  (`UnpackedReadableIffFits`; `LongNodeUnreadable` is a path that does not).
* `DevicePathInstance` returns a whole instance exactly when it has at most 513 nodes: the guard 01000 is octal
  (`InstanceCutShort`).
* `eval_internal` ignores the result of `resolve_include`, so an evaluation succeeds exactly when its own
  file does, whatever happens in nested directories, and may leave listed directories unvisited
  (`NestedFailureUnseen`). They are all visited when every file of the run evaluates.

## Model

| member | source | states |
|---|---|---|
| `Crc32Table.EntryIsEightSteps` | bootloader/gnu-efi/lib/crc.c:22-66 | each of the 256 table entries is eight single-bit steps of its index with polynomial 0xEDB88320 |
| `Crc32Table.RegisterLaws` | bootloader/gnu-efi/lib/crc.c:22-66 | the bit step is linear over xor, injective, and shifts words whose low bit is clear |
| `ShiftRegister.Register.FeedIsMix` | bootloader/gnu-efi/lib/crc.c:201-218 | for any linear register, feeding bits one at a time equals adding them all and then stepping |
| `ShiftRegister.Register.BurstDetected` | bootloader/gnu-efi/lib/crc.c:201-218 | two different runs of bits no longer than the register, between the same head and tail, leave different registers |
| `Crc.TableStep` | bootloader/gnu-efi/lib/crc.c:212-212 | one table look-up is eight bit steps of the register with the byte added, in a 64-bit word that stays below 2^32 |
| `Crc.NextCrc` | bootloader/gnu-efi/lib/crc.c:211-214 | the loop body equals feeding eight message bits, whatever follows |
| `Crc.CalculateCrc` | bootloader/gnu-efi/lib/crc.c:201-218 | for every buffer the table loop returns the bit-by-bit CRC-32 |
| `Crc.BurstOfBits` | bootloader/gnu-efi/lib/crc.c:201-218 | a change confined to 32 consecutive message bits changes the CRC, wherever it starts |
| `Crc.BurstChangesCrc` | bootloader/gnu-efi/lib/crc.c:201-218 | equally long buffers that differ only within four consecutive bytes have different CRCs |
| `Crc.SetCrcAltSize` | bootloader/gnu-efi/lib/crc.c:93-116 | the CRC32 field gets the CRC of the covered bytes taken with the field cleared; no other byte changes |
| `Crc.CheckCrcAltSize` | bootloader/gnu-efi/lib/crc.c:146-198 | true exactly for a nonzero size within the limit whose stored and computed CRCs agree; the header is left as found |
| `Crc.SetCrc` | bootloader/gnu-efi/lib/crc.c:70-91 | the same with the size read from the header |
| `Crc.CheckCrc` | bootloader/gnu-efi/lib/crc.c:119-144 | the same with the size read from the header |
| `Crc.SealedPasses` | bootloader/gnu-efi/lib/crc.c:93-198 | a header just set passes exactly when 0 < size and the size is within the limit |
| `Crc.TamperingFails` | bootloader/gnu-efi/lib/crc.c:93-198 | after setting, no change within four consecutive covered bytes that keeps the CRC32 field passes |
| `Crc.FieldTamperingFails` | bootloader/gnu-efi/lib/crc.c:93-198 | after setting, no change of the CRC32 field alone passes |
| `CrcValues.Residue` | bootloader/gnu-efi/lib/crc.c:201-218 | the residue law of section 8 of RFC 1952: for every buffer, feeding it and then the four bytes of its CRC, least significant first, from 0xFFFFFFFF leaves 0xDEBB20E3 |
| `CrcValues.EmptyMessage` | bootloader/gnu-efi/lib/crc.c:209-217 | the CRC of no bytes is 0 |
| `CrcValues.CheckValue` | bootloader/gnu-efi/lib/crc.c:201-218 | the CRC of "123456789" is 0xCBF43926 |
| `CrcValues.FieldBytes` | bootloader/gnu-efi/lib/crc.c:114-115 | the CRC is stored in bytes 16 to 19 of the header, least significant first, and no other byte changes |
| `CrcValues.SizeBytes` | bootloader/gnu-efi/lib/crc.c:90 | the size a header gives is in its bytes 12 to 15, least significant first |
| `CrcValues.CoveredBytes` | bootloader/gnu-efi/lib/crc.c:114-115 | the CRC covers the bytes of the header with zeros in place of bytes 16 to 19 |
| `MetaMatch.MatchesIffDenotes` | bootloader/gnu-efi/lib/str.c:325-409 | matching token by token from the left accepts exactly the strings that split into one fitting piece per token |
| `MetaMatch.ScanSet` | bootloader/gnu-efi/lib/str.c:367-394 | scanning a set finds a character exactly when it is listed or lies in a range as scanned, and stops after the closing bracket |
| `MetaMatch.MetaMatch` | bootloader/gnu-efi/lib/str.c:325-409 | true exactly when the string is in the pattern's language; ends under a lexicographic measure; reads neither string past its terminator |
| `MetaMatch.MatchStar` | bootloader/gnu-efi/lib/str.c:342-350 | the star succeeds exactly when some suffix matches the rest of the pattern |
| `MetaMatchLaws.RangeAdmits` | bootloader/gnu-efi/lib/str.c:373-387 | the set "a-b" admits exactly the characters from a to b, and a and b themselves |
| `MetaMatchLaws.PlainSetAdmits` | bootloader/gnu-efi/lib/str.c:384-387 | a set without a dash admits exactly its members |
| `MetaMatchLaws.JoinedSetsAdmit` | bootloader/gnu-efi/lib/str.c:367-388 | two sets written one after the other admit what either admits, when no dash stands where they meet |
| `MetaMatchLaws.LongerSetAdmits` | bootloader/gnu-efi/lib/str.c:367-388 | what any set admits, character by character of the set: itself unless it is a dash, and after a dash a range from the character before the dash or from 0 |
| `MetaMatchLaws.StarAccepts` | bootloader/gnu-efi/lib/str.c:342-350 | the pattern "*" accepts every string |
| `MetaMatchLaws.QuestionAccepts` | bootloader/gnu-efi/lib/str.c:352-358 | the pattern "?" accepts exactly the strings of one character |
| `MetaMatchLaws.LiteralAccepts` | bootloader/gnu-efi/lib/str.c:399-406 | a pattern of one ordinary character accepts exactly that character |
| `MetaMatchLaws.SetAccepts` | bootloader/gnu-efi/lib/str.c:360-397 | a set in brackets accepts exactly the strings of one character that it admits |
| `MetaMatchLaws.RangeAccepts` | bootloader/gnu-efi/lib/str.c:360-397 | the pattern "[a-b]" accepts exactly the strings of one character of the range |
| `MetaMatchLaws.DigitAccepted` | bootloader/gnu-efi/lib/str.c:379-381 | the pattern "[0-9]" accepts "5" |
| `MetaMatchLaws.TokensJoined` | bootloader/gnu-efi/lib/str.c:325-409 | the tokens of joined patterns are those of both |
| `MetaMatchLaws.JoinedAccept` | bootloader/gnu-efi/lib/str.c:325-409 | joined patterns accept exactly the strings that split into one that each accepts |
| `DevicePath.HoldsUnique` | bootloader/gnu-efi/inc/efidevp.h:50-57 | the encoding is self-delimiting: a buffer holds at most one path at an offset |
| `DevicePath.InstancesPeel` | bootloader/gnu-efi/lib/dpath.c:48-106 | the instances of a path are its first one followed by those of the rest |
| `DevicePathBytes.SegmentsAreInstances` | bootloader/gnu-efi/inc/efidevp.h:27-57 | a reader that knows only the codes on the bytes (types 0x7F and 0xFF, subtype 0xFF, little-endian length) finds, byte for byte, the instances of the path that a buffer holds |
| `DevicePathBytes.SegmentsHold` | bootloader/gnu-efi/inc/efidevp.h:27-57 | a buffer whose nodes follow each other up to one that ends the path holds a path |
| `DevicePathWalk.DevicePathInstance` | bootloader/gnu-efi/lib/dpath.c:48-106 | returns the bytes of the first instance and the position of the rest, absent exactly at the last instance; the whole instance exactly when it has at most 513 nodes, otherwise the first 513 and what the octal guard makes of the next |
| `DevicePathWalk.SeenAreInstances` | bootloader/gnu-efi/lib/dpath.c:48-106 | what repeated calls show is exactly the list of instances if and only if none has more than 513 nodes |
| `DevicePathWalk.InstanceCutShort` | bootloader/gnu-efi/lib/dpath.c:75-83 | a valid path whose one instance has more than 513 nodes of 6 bytes, for example 514: 3078 bytes of it are returned |
| `DevicePathWalk.DevicePathInstanceCount` | bootloader/gnu-efi/lib/dpath.c:108-121 | the calls return, in order, exactly the encodings of what they show, for instances of at most 513 nodes those of the instances; the result is their number; NULL has none |
| `DevicePathWalk.EncodingsAt` | bootloader/gnu-efi/lib/dpath.c:108-121 | in that list, number k is the encoding of instance number k |
| `DevicePathWalk.DevicePathSize` | bootloader/gnu-efi/lib/dpath.c:286-307 | the size of the encoding when end nodes have four bytes |
| `DevicePathWalk.DuplicateDevicePath` | bootloader/gnu-efi/lib/dpath.c:309-334 | a fresh buffer with exactly the path's bytes, or NULL exactly when the allocation is refused |
| `DevicePathWalk.JoinedInstances` | bootloader/gnu-efi/lib/dpath.c:397-433 | joining two paths at an instance end concatenates their instance lists, so that counts add |
| `DevicePathWalk.AppendDevicePathInstance` | bootloader/gnu-efi/lib/dpath.c:397-433 | a well-formed path of size SrcSize + InstanceSize whose instances are those of Src followed by those of Instance |
| `DevicePathBytes.JoinedOnBytes` | bootloader/gnu-efi/lib/dpath.c:419-430 | on bytes: the first path with the subtype of its end node set to 1, followed by the second |
| `DevicePathAppend.AppendedNodes` | bootloader/gnu-efi/lib/dpath.c:124-194 | the appended path's nodes are those of Src1's first instance followed by those of Src2 |
| `DevicePathAppend.AppendAssociative` | bootloader/gnu-efi/lib/dpath.c:124-194 | appending is associative |
| `DevicePathAppend.AppendsToEveryInstance` | bootloader/gnu-efi/lib/dpath.c:129-132 | the commented promise holds if and only if Src1 has one instance |
| `DevicePathAppend.SecondInstanceLost` | bootloader/gnu-efi/lib/dpath.c:176-186 | a two-instance Src1 whose second instance is lost |
| `DevicePathAppend.WrittenLength` | bootloader/gnu-efi/lib/dpath.c:176-190 | the copy loop writes Src1Size + n * Src2Size bytes for n instances |
| `DevicePathBytes.WrittenOnBytes` | bootloader/gnu-efi/lib/dpath.c:176-190 | on bytes: each instance with the second path behind it, separated by 7F 01 04 00 and ended by 7F FF 04 00 |
| `DevicePathAppend.AllocationSuffices` | bootloader/gnu-efi/lib/dpath.c:163-168 | for every path with four-byte end nodes, what the loop writes is at most the n * Src1Size + Src2Size allocated if and only if n = 1 or Src2Size <= Src1Size |
| `DevicePathAppend.AllocationOverrun` | bootloader/gnu-efi/lib/dpath.c:163-190 | two instances of 20 bytes and a path of 28: 76 bytes are written to an allocation of 68 |
| `DevicePathAppend.AppendDevicePath` | bootloader/gnu-efi/lib/dpath.c:124-194 | the exact bytes written, their number, and the path they hold; NULL arguments give copies; NULL exactly when the allocation is refused |
| `DevicePathAppend.AppendDevicePathNode` | bootloader/gnu-efi/lib/dpath.c:197-230 | exactly one node is added after the first instance; NULL exactly when one of the two allocations is refused |
| `DevicePathMatch.FirstDifference` | bootloader/gnu-efi/lib/dpath.c:1210-1230 | when an instance is no node prefix, its bytes differ at or before the other path's first end node |
| `DevicePathMatch.PrefixBytes` | bootloader/gnu-efi/lib/dpath.c:1210-1230 | when it is a node prefix, its bytes are a prefix |
| `DevicePathMatch.LibMatchDevicePaths` | bootloader/gnu-efi/lib/dpath.c:1210-1230 | true exactly when something that DevicePathInstance shows of Multi, for instances of at most 513 nodes some instance, is node for node a prefix of Single's first instance; NULL never matches |
| `DevicePathBytes.MatchesOnBytes` | bootloader/gnu-efi/lib/dpath.c:1210-1230 | on bytes: some instance in the one buffer is a prefix of the first instance in the other exactly when it is one node for node |
| `DevicePathMatch.AppendedInstanceMatches` | bootloader/gnu-efi/lib/dpath.c:1210-1230 | a path matches the instance that was appended to it |
| `DevicePathUnpack.UnpackedSize` | bootloader/gnu-efi/lib/dpath.c:344-359 | for both alignments in use, aligning a running total gives the sum of the aligned node sizes |
| `DevicePathUnpack.UnpackNodeFields` | bootloader/gnu-efi/lib/dpath.c:377-383 | a node keeps its type up to the flag, its subtype and its data, and gains only zeros |
| `DevicePathBytes.UnpackedBytes` | bootloader/gnu-efi/lib/dpath.c:377-383 | on bytes: the type with its top bit set, the subtype, the length rounded up to the alignment, the data, and zeros |
| `DevicePathUnpack.UnpackedIsPath` | bootloader/gnu-efi/lib/dpath.c:336-394 | when the lengths fit, the result is a path |
| `DevicePathUnpack.UnpackedInstances` | bootloader/gnu-efi/lib/dpath.c:336-394 | the instances of the result are those of the path, node by node |
| `DevicePathUnpack.UnpackedAligned` | bootloader/gnu-efi/lib/dpath.c:336-394 | every node starts at a multiple of the alignment |
| `DevicePathUnpack.UnpackIdempotent` | bootloader/gnu-efi/lib/dpath.c:336-394 | unpacking twice is unpacking once |
| `DevicePathUnpack.UnpackedReadableIffFits` | bootloader/gnu-efi/inc/efidevp.h:61-64 | the result can be read as a path if and only if every padded length is below 2^16 |
| `DevicePathUnpack.LongNodeUnreadable` | bootloader/gnu-efi/lib/dpath.c:380-381 | a valid path with a node of 65533 bytes, from whose unpacked bytes no path can be read back with either alignment |
| `DevicePathUnpack.UnpackDevicePath` | bootloader/gnu-efi/lib/dpath.c:336-394 | a fresh buffer with exactly the unpacked path's bytes, or NULL exactly when the allocation is refused |
| `PrintNumbers.ValueToHex` | bootloader/gnu-efi/lib/print.c:1330-1357 | the terminated hexadecimal digits of every 64-bit value; later slots unchanged |
| `PrintNumbers.ValueToString` | bootloader/gnu-efi/lib/print.c:1361-1404 | the terminated signed decimal, with or without commas; later slots unchanged |
| `PrintNumbers.StripGrouped` | bootloader/gnu-efi/lib/print.c:1388-1402 | deleting the commas gives the plain digits |
| `PrintNumbers.GroupedShape` | bootloader/gnu-efi/lib/print.c:1388-1402 | counted from the right every fourth character is a comma and no other is; none leads |
| `PrintNumbers.CommasOnlySeparate` | bootloader/gnu-efi/lib/print.c:1361-1404 | both facts for the printed text of every number |
| `PrintNumbers.Xtoi` | bootloader/gnu-efi/lib/str.c:267-296 | blanks are skipped and the leading hexadecimal digits denote the result modulo 2^64 |
| `PrintNumbers.Atoi` | bootloader/gnu-efi/lib/str.c:298-323 | the same in decimal |
| `ReadingLaws.MeantGrows` | bootloader/gnu-efi/lib/str.c:281-293 | digits read so far count for the base times as much with one more digit; 0 to 9, A to F and a to f stand for their values |
| `ReadingLaws.BlankSkipped` | bootloader/gnu-efi/lib/str.c:276-279 | a blank in front makes no difference |
| `ReadingLaws.DigitsParsed` | bootloader/gnu-efi/lib/str.c:281-295 | digits are read up to the first other character, modulo 2^64 |
| `PrintNumbers.XtoiUndoesValueToHex` | bootloader/gnu-efi/lib/str.c:267-296 | reading back the printed hexadecimal gives every 64-bit value again |
| `PrintNumbers.AtoiUndoesValueToString` | bootloader/gnu-efi/lib/str.c:298-323 | reading back the printed decimal gives every nonnegative INT64 again |
| `PrintFormat.FieldShape` | bootloader/gnu-efi/lib/print.c:973-1029 | a field shows its text whole unless cut by the field width; the pad character fills the width and stands directly before the text, blanks fill the field width on the side that the dash decides |
| `PrintLaws.DashJustifies` | bootloader/gnu-efi/lib/print.c:1047 | with a dash a text stands at the start of its field if and only if the width asked for is no larger than the text |
| `PrintLaws.DashNeedsFieldWidth` | bootloader/gnu-efi/lib/print.c:1005-1028 | without a field width the dash does nothing |
| `PrintText.DashIgnored` | bootloader/gnu-efi/lib/print.c:1012-1015 | "%-5d" prints four blanks before a one-digit number |
| `PrintLaws.UnsignedPrinted` | bootloader/gnu-efi/lib/print.c:1273-1280 | the u directive prints the value as unsigned if and only if it is not a 64-bit value from 2^63 on |
| `PrintText.LargestUnsigned` | bootloader/gnu-efi/lib/print.c:1273-1280 | "%lu" prints the largest 64-bit value as -1 |
| `PrintLaws.DirectiveConcat` | bootloader/gnu-efi/lib/print.c:1115-1315 | a complete directive does the same whatever follows it |
| `PrintLaws.RenderConcat` | bootloader/gnu-efi/lib/print.c:1095-1320 | rendering joined formats is rendering one and then the other with the arguments and attribute left over |
| `PrintLaws.LastingColourEnds` | bootloader/gnu-efi/lib/print.c:1309-1314 | a lasting colour sets its attribute for whatever follows, for all arguments and attributes, if and only if its attribute is not 0 |
| `PrintText.HelloSwallowed` | bootloader/gnu-efi/lib/print.c:1200-1202 | without a display "%EHello" prints a question mark |
| `PrintLaws.DirectivePen` | bootloader/gnu-efi/lib/print.c:1204-1206 | the attribute of a field and the one it would return to follow from the field colours read in its directive |
| `PrintLaws.FieldColourRestored` | bootloader/gnu-efi/lib/print.c:1050-1052 | the attribute after a field is the one before its directive if and only if it has no field colour, or one and the attribute was not 0, or the last but one set the same attribute |
| `PrintLaws.TwoFieldColoursLeak` | bootloader/gnu-efi/lib/print.c:1317-1319 | after "%ehd" on a display the error attribute stays |
| `PrintLaws.FieldColourLeaksFromZero` | bootloader/gnu-efi/lib/print.c:1317-1319 | after "%ed" where the attribute was 0 the error attribute stays |
| `PrintLaws.RenderNoNul` | bootloader/gnu-efi/lib/print.c:1033-1325 | no format shows a terminator |
| `PrintLaws.RenderPlain` | bootloader/gnu-efi/lib/print.c:1095-1100 | a format without percent signs shows itself, newlines expanded |
| `Printer.PrintState.PFlush` | bootloader/gnu-efi/lib/print.c:904-915 | the output function is given exactly the waiting characters; what has been shown does not change |
| `Printer.PrintState.PSetAttr` | bootloader/gnu-efi/lib/print.c:918-932 | waiting characters keep the attribute they were printed in |
| `Printer.PrintState.PPutc` | bootloader/gnu-efi/lib/print.c:935-955 | one character is shown, a newline after a carriage return; the position stays before the end of the buffer |
| `Printer.PrintState.PItem` | bootloader/gnu-efi/lib/print.c:973-1029 | the string is shown in its field |
| `Printer.PrintState.ParseNumber` | bootloader/gnu-efi/lib/print.c:1157-1162 | reads all digits of a width modulo 2^64 and nothing more |
| `Printer.PrintState.Switch` | bootloader/gnu-efi/lib/print.c:1117-1301 | each character of a directive changes item, arguments and attributes as the format's meaning says |
| `Printer.PrintState.DoDirective` | bootloader/gnu-efi/lib/print.c:1102-1319 | a directive shows its field in the attribute its colours say and leaves the attribute that its meaning says, which `FieldColourRestored` relates to the one before |
| `Printer.PrintState.Print` | bootloader/gnu-efi/lib/print.c:1033-1325 | the characters of all calls of the output function, each with the attribute in force, are those of the unbuffered rendering; the result is their number; each call has at most 199 characters and no terminator inside, and exactly 199 for a format whose directives read no colour, the last call aside |
| `PrintSinks.AllTextIsPlain` | bootloader/gnu-efi/lib/print.c:904-915 | chopping the output into calls leaves no trace in the text |
| `PrintSinks.FullCallsArePieces` | bootloader/gnu-efi/lib/print.c:950-953 | calls that are all full but the last are the pieces of their text, so that without colours format and arguments determine the calls |
| `PrintSinks.Sink.SPrint` | bootloader/gnu-efi/lib/print.c:313-351 | the buffer holds the terminated prefix of the old text followed by the new that fits; later slots unchanged |
| `PrintSinks.UnicodeVSPrint` | bootloader/gnu-efi/lib/print.c:423-463 | the caller's buffer ends as the terminated prefix of length min(total, maxlen) of the whole rendering; the result is that length |
| `PrintSinks.SizeRespectedIff` | bootloader/gnu-efi/lib/print.c:438-460 | for every size in bytes: whatever is printed, the string ends within the size, if and only if the size is at least 4 |
| `PrintSinks.RespectedPrefix` | bootloader/gnu-efi/lib/print.c:438-460 | a size of at least 4 reads back as the prefix of the text that leaves room for a terminator |
| `PrintSinks.SizeOneUnlimited` | bootloader/gnu-efi/lib/print.c:438-460 | sizes 0 and 1 store every text whole |
| `PrintSinks.SizesTwoAndThreeStoreNothing` | bootloader/gnu-efi/lib/print.c:438-460 | sizes 2 and 3 leave the buffer untouched |
| `PrintPool.ReallocatePool` | bootloader/gnu-efi/lib/misc.c:57-79 | a new allocation starts with what fits of the old contents; the old allocation is handed back in any case |
| `PrintPool.PoolPrintChunk` | bootloader/gnu-efi/lib/print.c:355-397 | the text is appended whole, the allocation growing by 200 spare characters, or after a refused allocation nothing is left: NULL, 0, 0 |
| `PrintPool.NothingLostIff` | bootloader/gnu-efi/lib/print.c:355-397 | nothing is lost if and only if no call that grows the allocation is refused, where the lengths of the calls tell which grow |
| `PrintPool.DeliverPool` | bootloader/gnu-efi/lib/print.c:355-397 | over a whole run exactly the calls up to the last refused growth are lost: the sink holds the text of the rest and is NULL exactly when the last call was refused |
| `PrintPool.KeepsAllIff` | bootloader/gnu-efi/lib/print.c:355-397 | the text kept is the whole text if and only if no growth is refused, or all that is lost is empty and the last call is not refused |
| `PrintPool.EmptyLossHarmless` | bootloader/gnu-efi/lib/print.c:355-397 | a refused growth after which the whole text is kept all the same |
| `PrintPool.CatPrint` | bootloader/gnu-efi/lib/print.c:566-600 | the old text and the whole rendering exactly under that condition, in general the text of the calls after the last refused growth |
| `PrintPool.VPoolPrint` | bootloader/gnu-efi/lib/print.c:503-532 | a terminated allocation with the text of the calls after the last refused growth; NULL exactly when the last call is refused; the whole rendering exactly under that condition |
| `PrintPool.StartLost` | bootloader/gnu-efi/lib/print.c:372-390 | a plain format of 199 to 397 characters whose first growth is refused: the result is not NULL and lacks its first 199 characters |
| `PrintText.JoinedOutput` | bootloader/gnu-efi/lib/print.c:566-600 | printing one format and appending another is printing the joined format |
| `PrintText.PrintedNumbersReadBack` | bootloader/gnu-efi/lib/print.c:1191-1198 | what `%ld` and `%lx` print, the parsers read back |
| `PrintedNumbers.DecimalReadBack` | bootloader/gnu-efi/lib/print.c:1191-1198 | the debugger reads back every signed 32-bit number printed with `%d`, whatever the upper half of the argument |
| `PrintedNumbers.LongDecimalReadBack` | bootloader/gnu-efi/lib/print.c:1191-1198 | it reads back every signed 64-bit number printed with `%ld` |
| `PrintedNumbers.UnsignedReadBack` | bootloader/gnu-efi/lib/print.c:1273-1280 | it reads back every unsigned 32-bit number printed with `%u` |
| `PrintedNumbers.HexReadBack` | bootloader/gnu-efi/lib/print.c:1288-1294 | xtoi, and the debugger after "0x", read back every unsigned 32-bit number printed with `%x` |
| `PrintedNumbers.HexDigitPrinted` | bootloader/gnu-efi/lib/print.c:1327-1357 | `%lx` prints each number below 16 as its character of "0123456789ABCDEF" |
| `PrintedNumbers.HexPrinted` | bootloader/gnu-efi/lib/print.c:1330-1357 | `%lx` of 16 v + d, for v > 0 and d < 16, is that of v followed by that of d |
| `PrintedNumbers.DecimalDigitPrinted` | bootloader/gnu-efi/lib/print.c:1361-1404 | `%ld` prints each number below 10 as its digit |
| `PrintedNumbers.DecimalPrinted` | bootloader/gnu-efi/lib/print.c:1361-1404 | `%ld` of 10 v + d, for v > 0 and d < 10, is that of v followed by that of d |
| `PrintedNumbers.NegativePrinted` | bootloader/gnu-efi/lib/print.c:1382-1385 | `%ld` of a negative number is a minus sign and its magnitude |
| `PrintedNumbers.ShortSignedPrinted` | bootloader/gnu-efi/lib/print.c:1195 | `%d` prints what `%ld` prints of the lower 32 bits extended by their sign |
| `PrintedNumbers.ShortUnsignedPrinted` | bootloader/gnu-efi/lib/print.c:1277 | `%u` prints what `%ld` prints of the lower 32 bits |
| `PrintedNumbers.ShortHexPrinted` | bootloader/gnu-efi/lib/print.c:1291 | `%x` prints what `%lx` prints of the lower 32 bits |
| `PrintedNumbers.LongUnsignedPrinted` | bootloader/gnu-efi/lib/print.c:1273-1280 | `%lu` prints what `%ld` prints |
| `PrintedNumbers.FixedPrinted` | bootloader/gnu-efi/lib/print.c:1282-1294 | `%X` prints eight characters: the digits of `%x` with zeros in front |
| `PrintedNumbers.LongFixedPrinted` | bootloader/gnu-efi/lib/print.c:1282-1294 | `%lX` prints sixteen characters: the digits of `%lx` with zeros in front |
| `PrintedNumbers.PointerPrinted` | bootloader/gnu-efi/lib/print.c:1242-1254 | `%p` prints "0x" and what `%x` prints, without zeros in front |
| `PrintedNumbers.PrintsJoined` | bootloader/gnu-efi/lib/print.c:1095-1320 | one format after the other prints one text after the other, the second taking the arguments that the first leaves |
| `PrintDirectives.CharactersPrinted` | bootloader/gnu-efi/lib/print.c:935-955 | a newline is printed after a carriage return, any other character but a percent sign as itself |
| `PrintDirectives.StringPrinted` | bootloader/gnu-efi/lib/print.c:1261-1266 | `%s` and `%a` print their argument up to its terminator |
| `PrintDirectives.NullPrinted` | bootloader/gnu-efi/lib/print.c:1263-1265 | for a null pointer they print "(null)" |
| `PrintDirectives.DevicePathPrinted` | bootloader/gnu-efi/lib/print.c:1179-1189 | `%D` prints at most 99 characters of a device path's text |
| `PrintDirectives.CharacterPrinted` | bootloader/gnu-efi/lib/print.c:1173-1177 | `%c` prints the character in the lower sixteen bits of its argument, nothing for 0 |
| `PrintDirectives.OthersPrinted` | bootloader/gnu-efi/lib/print.c:1296-1300 | `%%` prints a percent sign, any unknown letter a question mark |
| `PrintDirectives.WidthPrinted` | bootloader/gnu-efi/lib/print.c:1148-1163 | for every width, blanks in front of a shorter text |
| `PrintDirectives.StarPrinted` | bootloader/gnu-efi/lib/print.c:1136-1138 | a star takes the width from the arguments |
| `PrintDirectives.ZeroPadPrinted` | bootloader/gnu-efi/lib/print.c:1144-1146 | a zero before the width puts zeros in front of a shorter number |
| `PrintDirectives.FieldPrinted` | bootloader/gnu-efi/lib/print.c:1140-1142 | for every field width, a longer text is cut and a shorter one has blanks in front |
| `PrintDirectives.DashFieldPrinted` | bootloader/gnu-efi/lib/print.c:1132-1134 | with a dash the blanks are behind the text |
| `PrintDirectives.CommaPrinted` | bootloader/gnu-efi/lib/print.c:1128-1130 | `%,d` prints the digits of `%d`, from the right exactly every fourth character a comma |
| `PrintDirectives.FieldColourShown` | bootloader/gnu-efi/lib/print.c:1204-1240 | n, h and e show their field in the normal, highlight and error attribute; the attribute before returns unless it was 0 |
| `PrintDirectives.LastingColourShown` | bootloader/gnu-efi/lib/print.c:1309-1314 | N, H and E, when their attribute is not 0, set it for what follows |
| `Mbuild.Evaluator.EvalNode` | scripts/mbuild/eval.cc:23-63 | path by path: after an addition a path is listed if it was or is named, after a replacement if it is named, after a removal if it was and is not named; every other list is the same; an unknown operation fails and changes nothing |
| `Mbuild.StatementMeans` | scripts/mbuild/eval.cc:46-62 | the same for one path and one list, and when a statement creates its list |
| `Mbuild.FileMeans` | scripts/mbuild/eval.cc:90-95 | after a whole file a path is in a list exactly when some statement adds or sets it and no later one drops it, or when it was there and none drops it |
| `Mbuild.Evaluator.ResolveInclude` | scripts/mbuild/eval.cc:75-88 | each directory is evaluated at most once by `resolve_include` over the whole run; success means that all directories of the list are visited, failure that one of those visited does not evaluate |
| `Mbuild.Evaluator.EvalInternal` | scripts/mbuild/eval.cc:90-101 | terminates on cyclic includes; succeeds exactly when its own file evaluates; when all visited files do, every directory in any list is visited, for any iteration order |
| `Mbuild.Evaluator.Eval` | scripts/mbuild/eval.cc:103-115 | afterwards the lists are the full ones without directories; the run visits only directories in any set closed under naming from the root, and when all files of such a set evaluate, or all visited ones, every listed directory is visited; when the files of the root and its include closure only add, the visited directories are that closure and the lists exactly what its files add, independent of order; when no listed directory parses, at most one per list is visited |
| `Mbuild.NestedFailureUnseen` | scripts/mbuild/eval.cc:98-100 | a concrete tree whose evaluation succeeds although a nested file fails, and leaves a listed directory unvisited |
| `Mbuild.ClosureIsClosed` | scripts/mbuild/eval.cc:75-101 | the include closure is the least set of directories closed under inclusion from the root |
| `Mbuild.ClosedIsClosure` | scripts/mbuild/eval.cc:75-101 | once every listed directory is visited, the visited ones are the whole closure |
| `ListEntries.InitializeListHead` | bootloader/gnu-efi/inc/efilink.h:43-45 | a ring of the head alone |
| `ListEntries.IsListEmpty` | bootloader/gnu-efi/inc/efilink.h:54-55 | true exactly for a ring of the head alone |
| `ListEntries.RemoveEntryList` | bootloader/gnu-efi/inc/efilink.h:64-70 | the ring without the entry |
| `ListEntries.InsertTailList` | bootloader/gnu-efi/inc/efilink.h:90-98 | the ring with the entry last |
| `ListEntries.InsertHeadList` | bootloader/gnu-efi/inc/efilink.h:108-116 | the ring with the entry directly after the head |
| `ListEntries.SwapListEntries` | bootloader/gnu-efi/inc/efilink.h:126-139 | the ring with Entry2 moved before Entry1, unless it was there already; then no ring contains Entry1 |
| `ListEntries.MovedBefore` | bootloader/gnu-efi/inc/efilink.h:126-139 | after the move Entry2 directly precedes Entry1, and all other entries are in their old order |
| `ListEntries.SwapBreaksRing` | bootloader/gnu-efi/inc/efilink.h:126-139 | a head and one entry: moving the entry before the head leaves the head in no ring |
| `ListEntries.Run` | bootloader/gnu-efi/inc/efilink.h:43-139 | any sequence of allowed operations keeps Flink and Blink inverse around one ring in the order of the model sequence |
| `GrowBuffer.Grow` | bootloader/gnu-efi/lib/misc.c:130-200 | asks again exactly when a new buffer of the size named was needed and granted; an error leaves no buffer; only the buffer is live beyond what was |
| `GrowBuffer.ReallocatePool` | bootloader/gnu-efi/lib/misc.c:57-79 | whether or not a new allocation is granted, the old one is freed, once |
| `GrowBuffer.RetryLoop` | bootloader/gnu-efi/lib/misc.c:257-274 | for every sequence of answers it ends at the first one that is not retried and says how; the buffer is then NULL exactly on an error, otherwise live and of the size last offered, so large enough; every earlier buffer has been freed exactly once |
| `GrowBuffer.LibLocateHandle` | bootloader/gnu-efi/lib/hand.c:57-102 | no buffer and no handles on an error, otherwise the handles that the last answer reported, with room for them |
| `GrowBuffer.LibGetVariableAndSize` | bootloader/gnu-efi/lib/misc.c:242-281 | the size is 0 without a buffer, which is exactly on an error, and otherwise the last one reported, within the buffer |
| `GrowBuffer.LibMemoryMap` | bootloader/gnu-efi/lib/misc.c:203-240 | the entries are those last reported and fit the buffer; their number is written only on success |
| `ProtocolInstall.ListedPairs` | bootloader/gnu-efi/lib/hand.c:464-491 | a list that names no protocol twice stands for exactly its pairs |
| `ProtocolInstall.RemovedAllUndoesWith` | bootloader/gnu-efi/lib/hand.c:498-511 | taking back an installed list in its own order restores the database, also when the handle was created for it |
| `ProtocolInstall.WithHolds` | bootloader/gnu-efi/lib/hand.c:464-491 | a pair is installed after a list exactly when it was before or is a listed pair of that handle |
| `ProtocolInstall.LibInstallProtocolInterfaces` | bootloader/gnu-efi/lib/hand.c:437-519 | all or nothing for every list and every point of refusal: on an error database and handle are as before, on success, of all that is installed anywhere, exactly the listed pairs of the handle are new; the task priority is restored; exactly when it succeeds |
| `ProtocolInstall.LibUninstallProtocolInterfaces` | bootloader/gnu-efi/lib/hand.c:522-558 | of all that is installed anywhere, exactly the listed pairs of the handle are removed |
| `ProtocolInstall.RemovedAllLeaves` | bootloader/gnu-efi/lib/hand.c:535-556 | a pair is installed after taking back a list exactly when it was before and is not a listed pair of that handle |
| `Relocate.ScanDynamic` | bootloader/gnu-efi/gnuefi/reloc_x86_64.c:52-71 | the last entry of each kind counts; the table address is offset by the load address modulo 2^64 |
| `Relocate.TableIsArray` | bootloader/gnu-efi/gnuefi/reloc_x86_64.c:79-96 | the entries are those that start within the size, one entry size apart, and each offset and type are two consecutive words of memory |
| `Relocate.EntryUnchanged` | bootloader/gnu-efi/gnuefi/reloc_x86_64.c:79-96 | each entry and its addend read as before the loop |
| `Relocate.Relocate` | bootloader/gnu-efi/gnuefi/reloc_x86_64.c:43-98 | each relative target gets its addend plus the load address modulo 2^64 exactly once and no other byte changes; an error exactly when only one of table and entry size is named, and then nothing changes |
| `Relocate.ReadAddend` | bootloader/gnu-efi/gnuefi/reloc_aarch64.c:84-88 | the addend is in the target, or in the table |
| `Relocate.SameImage` | bootloader/gnu-efi/gnuefi/reloc_aarch64.c:42-97 | both relocators compute the same image outside the tables when each target first holds its addend |
| `RelocateBytes.LittleEndian` | bootloader/gnu-efi/gnuefi/reloc_x86_64.c:86-88 | a word is eight bytes, least significant first |
| `RelocateBytes.FoundValues` | bootloader/gnu-efi/gnuefi/reloc_x86_64.c:52-71 | the last value tagged 7 plus the load address is the table, the last tagged 8 its size, the last tagged 9 the size of an entry; 0 without one |
| `RelocateBytes.EntryInMemory` | bootloader/gnu-efi/gnuefi/reloc_x86_64.c:79-94 | entry k is at the table plus k entry sizes, its offset the word there and its type the lower half of the word after it |
| `RelocateBytes.RelocateX86` | bootloader/gnu-efi/gnuefi/reloc_x86_64.c:43-98 | on bytes: for each k, when the type at `rel + k * relent + 8` is 8, the word at the load address plus the word at `rel + k * relent` has the load address added, modulo 2^64; no other byte changes |
| `RelocateBytes.RelocateA64` | bootloader/gnu-efi/gnuefi/reloc_aarch64.c:42-97 | on bytes: for each k, when that type is 1027, that word becomes the load address plus the word at `rel + k * relent + 16`; no other byte changes |
| `DebugNumbers.S64ToStr` | debug/dbgio.c:92-117 | the terminated signed decimal of every value above -2^63 |
| `DebugNumbers.U64ToHstr` | debug/dbgio.c:71-76 | the terminated sixteen hexadecimal digits |
| `DebugNumbers.DbgAtol` | arch/x86_64/debug/debug.c:17-62 | the number a string starts with in signed 64 bits, and exactly when a step overflows |
| `DebugNumbers.AtolUndoesS64ToStr` | arch/x86_64/debug/debug.c:21-62 | reading back the decimal gives every signed 64-bit value again, without overflow |
| `DebugNumbers.AtolUndoesU64ToHstr` | arch/x86_64/debug/debug.c:35-56 | reading back "0x" and the hexadecimal gives every value below 2^63 again, without overflow |
| `ReadingLaws.SpaceSkipped` | arch/x86_64/debug/debug.c:26 | a blank or a code from 9 to 13 in front makes no difference |
| `ReadingLaws.SignRead` | arch/x86_64/debug/debug.c:27-33 | a minus sign before digits makes the number negative, a plus sign changes nothing |
| `ReadingLaws.DecimalRead` | arch/x86_64/debug/debug.c:57-60 | decimal digits are read up to the first other character |
| `ReadingLaws.HexadecimalRead` | arch/x86_64/debug/debug.c:35-56 | after "0x" or "0X" hexadecimal digits of either case are |
| `DebugLine.EraseUndoes` | arch/x86_64/debug/debug.c:117-125 | typing a character and erasing it with key 8 or 127 is as if neither key had been struck |
| `DebugLine.KeyEdits` | arch/x86_64/debug/debug.c:117-133 | keys 8 and 127 take the last character away, any other key adds its own |
| `DebugLine.SessionEnters` | arch/x86_64/debug/debug.c:112-137 | when a newline (10 or 13) comes before the buffer fills, the line entered is the edited one |
| `DebugLine.SessionFills` | arch/x86_64/debug/debug.c:114-136 | when the buffer fills before a newline comes, the line is what the keys up to then leave |
| `DebugLine.DbgGetcmd` | arch/x86_64/debug/debug.c:112-137 | the buffer ends with the entered line and its terminator, or full without one |
| `DebugLine.DbgParsecmd` | arch/x86_64/debug/debug.c:139-154 | the first max_args words of the line, each terminated in place; only separators are overwritten |
| `DebugLine.OneWord` | arch/x86_64/debug/debug.c:139-154 | an empty text has no word, and a text without blanks and codes 9 to 13 is one word |
| `DebugLine.WordsAround` | arch/x86_64/debug/debug.c:139-154 | on both sides of a separator the words are those of each side |
| `DebugLine.ReadCommand` | arch/x86_64/debug/debug.c:112-154 | reading and splitting a command yields the first words of the line after backspace edits |

## Left out

- DevicePathInstance: the debug assertion on the subtype it stops at is not modelled.
- AppendDevicePath: instances of more than 513 nodes are excluded; calls whose writes would exceed the allocation are excluded; `AllocationSuffices` says which these are.
- AppendDevicePathNode: as for AppendDevicePath.
- AppendDevicePathInstance: a refused allocation for two paths, which the source only asserts against, is excluded.
- CompareMem, CopyMem: RtCompareMem and RtCopyMem are not part of this model; comparison is taken to stop at the first difference.
- MetaMatch: a pattern with an unclosed set, which the source scans past its terminator, is excluded.
- Printer: a format that ends within a directive, which makes the source read past its terminator, and arguments that are missing or of another kind are excluded; lengths are not wrapped at 2^64. The calls of the output function are recorded and then handed to the sinks in order.
- PrintFormat: the texts of `%D`, `%f`, `%g`, `%r` and `%t` are arguments; DevicePathToStr, FloatToString, GuidToString, StatusToString and TimeToString are not modelled.
- ValueToString: the most negative value is printed from its magnitude taken as unsigned; in C its negation overflows.
- RetryLoop: that the buffer is large enough is stated for services that report no more than they were offered when they succeed.
- ProtocolInstall: notifications and open-protocol records are not modelled; a service that fails leaves its handle argument alone; removing an interface that was just installed succeeds.
- Relocate: a negative entry size with a positive table size, on which the source's loop overflows, is excluded, as are targets that overlap each other or the table. One method stands for both source files.
- Mbuild: lexing and parsing of build files, warnings, and errors of the file system are outside; directories form a finite set. Parsing is taken to yield the statements of its own file: in the text as it is, `ast_free` (scripts/mbuild/eval.cc:96) leaves the global `ast` pointing to freed nodes, to which the next parse appends (scripts/mbuild/ast.c:37-46), so a run with any include is undefined in C. Iterating over `g_lists` while nested evaluations insert into it (scripts/mbuild/eval.cc:98) may rehash the map and invalidate the iteration, which the model takes to go on in some order.
- DebugLine: the echo of keystrokes on the serial port.
- LibReinstallProtocolInterfaces, LibDuplicateDevicePathInstance, ValidMBR and u64_to_str are not modelled.
- The instruction decoder, interrupt and serial port code, GUID tables, sample programs, the string and memory routines of lib/, and the console functions: data, hardware access, or easy members.
