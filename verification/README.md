# Verification of ft_traceroute

This project models a small traceroute and the string library it is built on, and proves what
they promise. Strings are NUL-terminated blocks of characters, packets are byte buffers edited in
place, the line reader's list and the tracer's tables are heap objects, and every method is tied to
a specification whose own properties are proved as lemmas. What the operating system and the
network do is an input: the chunks that reads deliver, the answers to the probes, the signals, the
resolved names.

`dafny verify dfyconfig.toml` checks everything.

| file | part of the program |
|---|---|
| `CStrings.dfy`, `Options.dfy` | C strings: length, search, copy, join, slice, compare; a value that may be missing |
| `LineSpec.dfy`, `GetNextLine.dfy` | the line reader: what reading by lines means, and the heap code that does it |
| `Numbers.dfy` | printing and parsing 32-bit integers |
| `Words.dfy`, `Trim.dfy`, `Search.dfy`, `Memory.dfy` | splitting, trimming, searching, moving |
| `Checksum.dfy` | the internet checksum of RFC 1071 against the program's deferred-carry form |
| `Packets.dfy` | the probe packets and their closed form |
| `Addresses.dfy` | printed IPv4 addresses |
| `HopSpec.dfy`, `Hops.dfy` | a whole run: what it should do, and the state machine that does it |
| `Parsing.dfy`, `Traceroute.dfy` | the command line, and the program from end to end |

## Main results

* **Reading lines.** Any number of calls on a descriptor returns the lines of its stream in order and
  then the end, for ever, whatever the sizes of the reads and whatever is read from other
  descriptors in between (`EveryScheduleReadsTheLines`, tied to the heap by
  `Reader.GetNextLine` and `Session`), and what it has delivered, what it holds and what it has not read
  make up the stream (`CallsConserve`). Three exact limits of the code are part of the result. A chunk with
  a NUL byte is cut there, so the lines are those of the stream if and only if it has no NUL
  (`FaithfulIffNoNul`). How the stream was cut into reads stays hidden if and only if nothing but NULs stands
  behind its first NUL, or nothing but the newline that the last line before it lacks
  (`ChunkingInvisibleIff`). And a call goes through a NULL pointer if and only if
  the descriptor never read anything and its stream is empty (`NextLineTakesFirstLine`). Refused are exactly
  the calls on bad descriptors, and they change nothing (`RefusedIff`).
* **Checksum.** On a little-endian host the deferred-carry sum is the byte swap of the standard's sum,
  so the stored bytes are right, if and only if the 32-bit counter holds the plain sum
  (`LittleEndianSwapsIff`); it does for every buffer of at most 65537 words, and need not with one word more. Up to that
  length the bytes are right on a big-endian host if and only if there is no odd last byte or that
  byte is zero (`BigEndianIsRightIff`). The packets of the program end in a zero byte, so they verify on
  both (`ProbesVerify`).
* **A run.** Every byte of every datagram is known (`ProbeBytes`, `RunDatagramAt`), as is every item printed
  (`RunPrints`) and when any run stops, with or without signals, in either mode (`RunEndsIff`). The number of hops, every datagram sent, every item printed and the number of blocks
  freed are determined for every behaviour of the network (`Tracer.Run`, `HopsTaken`,
  `RunDatagramAt`). Every block ever handed out is freed once, except for the two strings that describe the
  destination. The comparison left out for a repeated address misses no arrival, so that a UDP run without
  signals ends with the first hop that hears from the destination (`UdpRunStopsOnArrival`), and a printed row
  can be read back in full. The address handed to the socket layer is that of the last answer, while the
  header keeps the destination (`SendsAt`): the two agree in every datagram of a run if and only if no answer
  before the last probe is reported to come from elsewhere (`RunAimsRightIff`).
* **Strings and numbers.** Splitting yields exactly the maximal separator-free runs, and undoes
  joining; trimming is the unique slice, and leaves the block if and only if the block holds nothing but
  blanks and NULs; printing and parsing are inverse on all 32-bit integers. Put
  together they show that no two IPv4 addresses print alike (`DottedInjective`), which is why the
  program may compare addresses as strings.
* **Command line.** With two or three arguments the destination and length are those left when the first
  ICMP flag is taken out; every outcome has its exact condition (`OutcomeIff`). A length is accepted if and only if it is all digits and its low 32
  bits are at most 65000: the conversion to int comes before the test (`LengthAcceptedIff`).

## Model

| member | source | states |
|---|---|---|
| CStrings.StrLen | libraries/ft_strlen.c:16-27 | the length of the text, zero for NULL |
| CStrings.StrChr | libraries/ft_strchr.c:16-32 | the first occurrence, none exactly when the character does not occur, the terminator for NUL |
| CStrings.StrNew | libraries/ft_strnew.c:16-32 | a fresh block of size + 1 zero bytes, by a counter that wraps below zero |
| CStrings.StrDup | libraries/ft_strdup.c:16-36 | a fresh copy; the empty string for NULL, which the line reader relies on |
| CStrings.StrNDup | libraries/ft_strndup.c:16-34 | a fresh copy of a prefix; NULL exactly for NULL or length zero |
| CStrings.StrJoin | libraries/ft_strjoin.c:16-44 | a fresh concatenation; NULL exactly if a side is NULL |
| CStrings.StrNCpy | libraries/ft_strncpy.c:16-33 | a bounded copy, the rest padded with zeros, nothing written beyond |
| CStrings.StrSub | libraries/ft_strsub.c:16-33 | a fresh slice that stops at the terminator |
| CStrings.StrCmp | libraries/ft_strcmp.c:16-25 | zero exactly for equal strings, else the distance at the first difference, a terminator counting as zero |
| LineSpec.LinesOfUnlines | libraries/get_next_line.c:16-38 | the reference splitting inverts joining with newlines, with or without an unterminated tail |
| LineSpec.LinesConserve | libraries/get_next_line.c:16-85 | every text is its terminated lines joined back plus its tail: no character is lost or added |
| LineSpec.NextLineTakesFirstLine | libraries/get_next_line.c:55-85 | one call removes exactly the first line of held plus unread text; exact conditions for the end and for the NULL read |
| LineSpec.NextLineReadsNoFurther | libraries/get_next_line.c:69-79 | reading stops with the first chunk that shows a newline |
| LineSpec.CallsReturnTheLines | libraries/get_next_line.c:111-127 | any number of calls returns the lines in order and then the end, for ever |
| LineSpec.ScriptAt | libraries/get_next_line.c:111-127 | reply number i is line number i, and the end from there on |
| LineSpec.EmptyStreamReadsNull | libraries/get_next_line.c:42-43 | on a fresh descriptor with an empty stream every call reads through NULL |
| LineSpec.ChunkingIsInvisible | libraries/get_next_line.c:69-79 | two chunkings of one NUL-free stream give the same replies |
| LineSpec.CallsConserve | libraries/get_next_line.c:16-85 | after any number of calls, the lines delivered with their newlines and what is still pending make up the text, save for the newline an unterminated last line lacks |
| LineSpec.FaithfulIffNoNul | libraries/get_next_line.c:71-74 | the replies of all series of calls are the lines of the raw stream if and only if it has no NUL byte |
| LineSpec.ChunkingInvisibleIff | libraries/get_next_line.c:69-79 | exactly which streams, of any content, give the same replies for all chunkings into reads of 1 to n bytes, for any n of at least 2 |
| LineSpec.NulShowsTheChunking | libraries/get_next_line.c:71-74 | a stream with a NUL byte whose chunking shows, and one whose chunking does not |
| LineSpec.InterleavingIsInvisible | libraries/get_next_line.c:87-127 | under any interleaving a descriptor is answered, and left, as if read alone |
| LineSpec.RefusedIff | libraries/get_next_line.c:120-121 | in any series of calls, refused are exactly those on a descriptor that is negative or not open |
| LineSpec.EveryScheduleReadsTheLines | libraries/get_next_line.c:87-127 | the theorems together, for every schedule of calls and every chunking, with conservation of the stream |
| GetNextLine.File.TrimAndDel | libraries/get_next_line.c:16-38 | cuts the held text at its first newline; what is returned when there is none, or no text |
| GetNextLine.File.ChecksEof | libraries/get_next_line.c:40-53 | the last line, the end, or the NULL read, and exactly when each |
| GetNextLine.File.AppendChunk | libraries/get_next_line.c:71-75 | appends the buffer up to its first NUL and leaves the next line unchanged |
| GetNextLine.ReadMore | libraries/get_next_line.c:69-79 | the read loop ends with a newline held or the input exhausted, the next line being the same |
| GetNextLine.ReadLine | libraries/get_next_line.c:55-85 | is one `NextLine` on the channel of the descriptor; no other descriptor's input moves |
| GetNextLine.Node.constructor | libraries/ft_lstnew.c:16-37 | a fresh node with its own copy of the pair (fd, NULL) |
| GetNextLine.Reader.Push | libraries/ft_lstadd.c:16-20 | the list with one node more at its head, still acyclic and one node a descriptor |
| GetNextLine.Reader.GetTheNode | libraries/get_next_line.c:87-109 | the one node of the descriptor, pushed only if there was none |
| GetNextLine.Reader.GetNextLine | libraries/get_next_line.c:111-127 | -1 and no change without a place for the line or on a bad descriptor; else 1 with the first pending line, 0 exactly when nothing is pending, or the NULL read; one step on the table of all descriptors |
| GetNextLine.Session | libraries/get_next_line.c:111-127 | a series of calls is told, and at the end still holds, the replies of the interleaved run, -1 for exactly the bad descriptors, and leaves the descriptors as that run does |
| Numbers.CountInteger | libraries/ft_count_integer.c:16-30 | the number of decimal digits of the absolute value |
| Numbers.IToA | libraries/ft_itoa.c:16-43 | the decimal notation in a block with no byte to spare |
| Numbers.AtoI | libraries/ft_atoi.c:14-41 | the leading integer of any string, wrapped to 32 bits and congruent to it modulo 2^32 |
| Numbers.LeadingIs | libraries/ft_atoi.c:23-40 | what is read from any string, cut into blanks (the six of them), sign, digits and rest |
| Numbers.DecimalReadsBack | libraries/ft_itoa.c:34-39 | decimal notation has only digits, no leading zero, and its value is the number |
| Numbers.NotationReadsBack | libraries/ft_atoi.c:23-40 | parsing inverts printing on every integer |
| Numbers.PrintThenParse | libraries/ft_itoa.c:16-43 | ft_atoi(ft_itoa(n)) == n for every 32-bit n |
| Numbers.LeastInt | libraries/ft_putnbr.c:18-23 | the special case for the least int prints its notation |
| Numbers.LeastIntText | libraries/ft_putnbr.c:18-23 | the least int prints as -2147483648 |
| Numbers.Console.PutNbr | libraries/ft_putnbr.c:16-38 | prints the same characters as ft_itoa, for every 32-bit n |
| Words.RunsAreTheMaximalRuns | libraries/ft_strsplit.c:43-86 | the listed runs are exactly the maximal separator-free runs |
| Words.RunsAreOrdered | libraries/ft_strsplit.c:77-84 | runs come left to right with a separator between any two |
| Words.WordsAreRuns | libraries/ft_strsplit.c:77-84 | the words are the slices of the string at its runs |
| Words.SplitJoin | libraries/ft_strsplit.c:60-86 | splitting a join of non-empty separator-free words gives the words back |
| Words.CountWord | libraries/ft_strsplit.c:43-58 | the counting pass finds the number of words the extraction pass takes out |
| Words.LenWord | libraries/ft_strsplit.c:28-41 | the distance to the end of the word |
| Words.StrSplit | libraries/ft_strsplit.c:60-86 | the words in order, each in its own block, and then NULL; both slots NULL when there are none |
| Trim.TrimIsUnique | libraries/ft_strtrim.c:60-74 | the trimmed string is the one slice with only blanks around it and none at its ends |
| Trim.TrimIsIdempotent | libraries/ft_strtrim.c:60-74 | trimming twice is trimming once |
| Trim.CheckTrimBack | libraries/ft_strtrim.c:16-40 | the backward length computation finds where the trailing blanks begin |
| Trim.CheckTrimFront | libraries/ft_strtrim.c:42-58 | the length it computes is that of the trimmed string |
| Trim.StrTrim | libraries/ft_strtrim.c:60-74 | the slice of the string with tabs, newlines and spaces only around it and none at its ends, or running past the block exactly when the block has nothing else than those and NULs |
| Trim.NonBlankStops | libraries/ft_strtrim.c:70-71 | a string that is not all blank never runs past its block |
| Search.StrNStr | libraries/ft_strnstr.c:35-54 | the least occurrence ending by len, none exactly when there is none |
| Search.DoesItWork | libraries/ft_strnstr.c:16-33 | whether the needle occurs here and ends by len |
| Search.StrStr | libraries/ft_strstr.c:33-55 | the least occurrence, none exactly when there is none |
| Search.BoundedAgrees | libraries/ft_strnstr.c:35-54 | the two searches agree exactly when the first occurrence, if any, ends by len |
| Memory.CopyUpIsMove | libraries/ft_memcpy.c:16-27 | the ascending copy is a move without harmful overlap, and with it exactly for self-repeating sources |
| Memory.MemCpy | libraries/ft_memcpy.c:16-27 | copies upwards cell by cell, for any overlap |
| Memory.MemMove | libraries/ft_memmove.c:17-38 | cell by cell, the destination holds the old source and nothing else changes, for any overlap |
| Checksum.ComputeChecksum | sources/send.c:10-23 | the folded, complemented plain sum of the words, for any length, with the counter wrapping at 32 bits |
| Checksum.FoldReduces | sources/send.c:19-21 | two folds give the one's-complement value of any 32-bit sum |
| Checksum.NoOverflow | sources/send.c:15-18 | at most 65537 words never overflow the counter |
| Checksum.SumIsRightIff | sources/send.c:10-23 | for any length an int can hold, the result is the one's-complement sum if and only if the plain sum fits the counter |
| Checksum.LittleEndianSwapsIff | sources/send.c:10-23 | so a little-endian host computes the byte swap of the standard's checksum if and only if it does |
| Checksum.OneWordMoreOverflows | sources/send.c:15-18 | 65538 words can: the result differs from the standard's |
| Checksum.NetSumIsReduced | sources/send.c:10-23 | adding with an end-around carry at every step (RFC 1071, section 1) is the reduced plain sum |
| Checksum.StandardExample | sources/send.c:10-23 | the reference sum gives the numerical example of RFC 1071, section 3 |
| Checksum.LittleEndianIsRight | sources/send.c:10-23 | byte-order independence (RFC 1071, section 2, part B), odd lengths included |
| Checksum.BigEndianIsRightIff | sources/send.c:17-18 | on a big-endian host the bytes are right if and only if there is no non-zero odd last byte |
| Checksum.ChecksumVerifies | sources/send.c:39-47 | filling a zeroed word with the checksum makes a second computation return zero |
| Checksum.ReceiverAccepts | sources/send.c:39-47 | a receiver following the standard then accepts the buffer |
| Packets.ConstructIpHeader | sources/send.c:25-37 | the 20 header bytes in closed form, nothing else written (for the closed form see ProbeBytes) |
| Packets.ConstructIcmpHeader | sources/send.c:39-47 | the echo message of RFC 792 with its checksum over header and payload |
| Packets.ConstructUdpHeader | sources/send.c:49-55 | ports and length in network order on either kind of host |
| Packets.ConstructPacket | sources/send.c:57-77 | a fresh packet in closed form |
| Packets.UpdatePacket | sources/send.c:86-94 | the ttl byte and, in UDP mode, the two ports are replaced, nothing else |
| Packets.UpdatedIsProbe | sources/send.c:85-95 | whatever hop a probe was made for, updating makes the probe of the new hop |
| Packets.ProbesVerify | sources/send.c:39-47 | every ICMP probe of every hop verifies to zero, on either kind of host, for every accepted size |
| Packets.ProbesDifferOnlyIn | sources/send.c:85-95 | any two probes of a run agree outside the ttl and, in UDP mode, the ports |
| Packets.ProbeDestination | sources/send.c:36-36 | the header carries the hop's ttl and the resolved destination |
| Packets.ProbeBytes | sources/send.c:25-77 | every byte of every probe at its literal place: version, ttl, protocol 1 or 17, destination, echo type 8 or ports and UDP length, the letters of the payload and its final zero |
| Packets.PortsAreConsecutive | sources/send.c:88-92 | UDP ports run through 33434, 33435, ... in order of sending, within 16 bits |
| Addresses.DottedInjective | sources/output.c:85-86 | no two IPv4 addresses have the same printed form |
| Addresses.DottedParts | sources/output.c:85-86 | the printed form is the four bytes in decimal, first byte first, with dots between |
| HopSpec.RowIsProbes | sources/send.c:85-95 | at every hop each packet is in closed form, however many updates came before |
| HopSpec.SendsAt | sources/main.c:49-57 | h hops send exactly 3h probes, three a ttl, each to the sender of the last answer so far |
| HopSpec.AimIsLastSender | sources/recieve.c:21-22 | what the overwritten address field holds |
| HopSpec.SendsAreRightIff | sources/send.c:101-103 | every probe is handed to the socket layer with the destination's address if and only if no answer before the last probe is reported to come from elsewhere |
| HopSpec.SendsGoAstray | sources/send.c:101-103 | a network in which a probe is handed over with a router's address |
| HopSpec.RunAimsRightIff | sources/send.c:101-103 | the same for the datagrams of a run: when the address handed over is the one in the datagram's own header |
| HopSpec.ProbedIs | sources/main.c:49-57 | a hop's sends, address field, tables and flag in closed form |
| HopSpec.RowReadsBack | sources/output.c:97-123 | leaving out repeated addresses loses nothing: a row determines every address |
| HopSpec.RowNeverRepeats | sources/output.c:100-103 | an address is never shown when the answer just before came from it |
| HopSpec.RunPrints | sources/output.c:97-119 | item k of the output of any run, by the bytes of the answers: star, time alone, or name and address |
| HopSpec.HopsTakenUnique | sources/main.c:72-79 | the number of hops is determined by the answers and the signals |
| HopSpec.OneMoreHop | sources/main.c:72-79 | the closed form of a run's packets, address field, flag, freed blocks, datagrams and output is kept by one more round |
| HopSpec.LeavesAfterHopsTaken | sources/main.c:72-72 | the loop leaves after exactly the number of hops that answers and signals demand |
| HopSpec.UdpStopsOnArrival | sources/output.c:109-112 | without signals a UDP hop stops the run exactly if an answer is printed as the destination |
| HopSpec.RunEndsIff | sources/main.c:72-79 | the number of hops of any run, by signals and the bytes of the answers: an echo reply in ICMP mode, or a source address that prints as the destination |
| HopSpec.UdpRunStopsOnArrival | sources/main.c:72-79 | a UDP run without signals takes exactly the hops up to the first that hears from the destination, or 30 |
| HopSpec.IcmpRunStopsOnReply | sources/recieve.c:35-38 | an ICMP run without signals takes exactly the hops up to the first with an echo reply or an answer from the destination, or 30 |
| HopSpec.RunDatagramAt | sources/send.c:85-103 | every byte of datagram k of any run, its UDP ports being 33434 + k |
| HopSpec.RunDatagramVerifies | sources/send.c:39-47 | every datagram of an ICMP run passes the checksum test at any receiver |
| Hops.TestDest | sources/parsing.c:24-33 | the strings and the address record of the destination, and who owns which block |
| Hops.Tracer.RecievePacket | sources/recieve.c:5-45 | records the datagram or the timeout, the overwritten address and the echo-reply flag |
| Hops.Tracer.SendRecieve | sources/main.c:49-57 | three sends and the tables and flag they leave |
| Hops.Tracer.GetAddress | sources/output.c:67-88 | the name found, if any, and the printed address, each in a block of its own |
| Hops.Tracer.RepeatsAddress | sources/output.c:100-101 | the comparison with the probe before never sees NULL and tells whether the two texts are equal |
| Hops.Tracer.PrintRoute | sources/output.c:97-113 | what is printed for a probe, and when the arrival test is made |
| Hops.Tracer.PrintProbesOutput | sources/main.c:59-63 | the row, and that the suppressed comparison misses no arrival |
| Hops.Tracer.BlocksInTables | sources/main.c:18-33 | a finished hop has as many blocks to free as its answers made the program allocate |
| Hops.Tracer.FreeProbesData | sources/main.c:18-33 | exactly the blocks of the per-probe tables are freed, each once, and all pointers cleared |
| Hops.Tracer.FreeSendpacketsData | sources/main.c:35-47 | exactly the packets, leftover datagrams and the address record are freed, and what is then still live |
| Hops.Tracer.ConstructPackets | sources/send.c:79-83 | three packets of the first hop, each in a fresh block |
| Hops.Tracer.UpdatePackets | sources/send.c:85-95 | all three packets edited in place for the next hop |
| Hops.Tracer.OneHop | sources/main.c:73-78 | one round of the loop is one step of the specified run, freed blocks included |
| Hops.Tracer.Loop | sources/main.c:72-79 | the loop follows the states of the run and leaves in the first that is not alive, or after hop 30 |
| Hops.Tracer.Run | sources/main.c:70-82 | hops, datagrams, output, remaining blocks and number of freed blocks of a whole run, for any network |
| Parsing.UnderstoodTwo | sources/parsing.c:101-108 | the two-argument case, by the place of the flag |
| Parsing.UnderstoodThree | sources/parsing.c:109-117 | the three-argument case, by the place of the flag |
| Parsing.ParseDest | sources/parsing.c:95-122 | the choice of arguments is deletion of the first flag, with every error outcome |
| Parsing.TestPacketlen | sources/parsing.c:44-60 | the geometry a length argument asks for, or the way it is rejected |
| Parsing.IsNum | sources/parsing.c:36-42 | whether all characters are digits |
| Parsing.CheckIcmpTraceroute | sources/parsing.c:70-79 | the index of the first flag |
| Parsing.LengthInRange | sources/parsing.c:54-59 | lengths that fit an int: accepted up to 65000, at least the headers |
| Parsing.LengthAcceptedIff | sources/parsing.c:45-59 | the exact condition on any length, whose low 32 bits alone are tested |
| Parsing.HugeLengthsAccepted | sources/parsing.c:45-59 | lengths larger by a multiple of 2^32 are accepted like the small ones |
| Parsing.OutcomeIff | sources/parsing.c:44-122 | each of the five outcomes of any command line, and exactly when it has it |
| Parsing.AcceptedIsValid | sources/parsing.c:95-122 | what is accepted: 60 bytes without a length, else its low 32 bits but at least 28; the destination and its place; the mode |
| Traceroute.Program | sources/main.c:65-83 | from any command line to the end of the run, on the destination the command line names |

## Left out

- Sockets, name resolution, the clock and signals are inputs: chunks, answers, names and signals are parameters of the model.
- A signal is modelled as coming at the end of a round or just before the loop; the flag it clears is only read there.
- Answers are assumed to have at least 28 bytes, as the code does when it reads their headers; they are otherwise arbitrary.
- GetNextLine.Node.constructor: ft_lstnew copies content of any size, and keeps NULL content with size 0; the model has the one use the program makes of it, a pair (fd, NULL).
- Read errors in the middle of a stream (`read` returning -1), after which the code writes before its buffer.
- Failing allocations, and the byte counts given to `malloc`; in ft_strsplit the array has the slots its code goes on to use.
- Lengths beyond 2^31, where `int` counters of the string routines would wrap.
- Numbers.AtoI: a digit string that overflows the long long accumulator is taken to wrap around, which the C language leaves undefined.
- GetNextLine.File.ChecksEof: reading through NULL is a distinct outcome instead of undefined behaviour.
- Round-trip times and all console text other than which of star, time, name and address is printed.
- Reuse of a freed block's address by a later allocation; the ledger tells blocks apart for ever.
- A send the socket layer refuses: the program only reports it, and the model records what was handed over.
- The uncalled `manage_args`, `print_single_route` and `check_one_route`, and `print_interrupt`, which is not installed.
- Character classes, case mapping, memory dumps, `ft_atolf`, list map and iteration, and the other one-loop routines of the library.
