# Captures, filters and streams, proved

A model of the program that turns packet captures into lines of text, filters them, follows their streams and
goes back from a line to its packet. Each module is named after what it models and says in its first comment
which file of the program that is; `dafny verify dfyconfig.toml` checks all of them.

Code that computes a value is modelled by functions; code that changes things step by step by classes and
methods with loops, proved against such functions. The main results set those functions against something else:
a reference definition, a round trip or an explicit table.

## Main results

- **Display filters.** A text is accepted exactly if it is cut into the tokens of a tree of the grammar, as what
  that tree means (`FilterLanguage.AcceptedFilters`); the pattern it is compiled into selects, of every packet's
  line, exactly those of the packets of which the tree holds (`FilterLanguage.SelectedByTree`,
  `FilterCorrect.FilterSelectsPackets`), and of all lines the packet lines on which its boolean structure holds
  (`FilterMeaning.FilterSelects`). The ranges, networks and columns below it are exact
  (`NumberRange.NumberRangeExact`, `FilterValues.Ipv4Exact`, `LineColumns.ColumnsRead`). Printing and parsing
  undo each other (`DisplayFilters.RoundTrip`, `DisplayFilters.PrintedIsTheFilter`).
- **IPv6 addresses.** The two parsers of the program, one scanning and one splitting, agree on every text
  (`Ipv6Texts.ParsersAgree`), and read back what the formatter writes (`AddressTexts.Ipv6TextIsRead`).
- **TCP streams.** Segments in any order give the stream's bytes, once each and in order, up to the first
  position none covers (`StreamContent.OrderAll`, `StreamContent.ArrivalOrder`); with limits on what is held,
  gaps lie only over bytes that never came, and what was held is handed out
  (`StreamContent.StreamReader.TakeSegment`, `Flush`, `SkipTo`).
- **Running median.** Exact up to 4096 values, within 1/128 of the exact median of any number
  (`RunningMedian.RunningMedian.Median`).
- **Random access.** A cursor that goes on from checkpoints, across files of a ring buffer, reads what converting
  the capture front to back gave, decoding at most an interval of packets
  (`CaptureCursors.CaptureCursor.Read`, `CaptureIndexes.RecordsPlace`).
- **HTTP/2.** However the bytes are cut into calls, the frames and the header blocks are those of the bytes
  (`Http2.ChunksMatterNot`, `Http2Frames.FramesAreTold`, `Http2Frames.BlockRoundTrip`), and header blocks are
  given up exactly where they cannot be read (`Http2Frames.BrokenOrRead`).
- **SIP and HTTP framing.** A written message is framed as its header section and its length
  (`WrittenMessages.MessageIsFramed`); framing that goes on where it stopped gives what framing from scratch
  does (`MessageFraming.FramerLook.FrameSipMessage`).
- **Stopping a capture.** The invariant of two shell scripts and a process in every interleaving
  (`StopProtocol.RunKeeps`), and exactly when one is left running (`StopProtocol.AliveOnlyIfDropped`).
- **Conversations.** The table, whole or in chunks used again, shows each stream's packets as they came
  (`Conversations.ConversationStats.TableMeans`, `Conversations.ConversationStats.RowsOf`).
- **DNS names.** Read exactly if the message spells a name there within the limits
  (`DnsNames.FieldReader.ReadDnsName`).
- **Capture commands.** Splitting undoes quoting (`CommandLines.SplitUndoesQuoting`,
  `WrittenCommands.LineIsSplit`), and no value becomes another argument (`CommandLines.ArgumentsInPlace`).

## What does not hold

- The bytes a recording source shows are those asked for unless the 64-bit sum of offset and length wraps
  around: `RecordingSource.ShowsExactly` says exactly when, `RecordingSource.WrappedLength` is an input.
- Letting go of bytes past what was read leaves the source inconsistent:
  `RecordingSource.RecordingSource.TrimTo`, in both directions.
- At the start of an HTTP/2 direction it matters how the bytes are cut, exactly if a cut goes through the
  connection preface: `Http2.OnlyThePrefaceMatters`.
- A Stop that makes its mark, finds the capture's directory not there yet, and tests for it again as it has
  appeared, may take the mark back and leave tcpdump running: `StopProtocol.RaceLosesTheMark`, with the exact
  condition in `StopProtocol.AliveOnlyIfDropped`; testing and making the mark in one step would close the race
  (`StopProtocol.AtomicStopIsSafe`).

## Model

| member | source | states |
|---|---|---|
| `FilterTokens.Tokenize` | `src/display_filter.cpp:257-379` | the loop over the filter gives exactly the tokens, or the position of the first character that begins none |
| `FilterTokens.PieceIs` | `src/display_filter.cpp:257-379` | a token begins at a place exactly if its symbol, its name in any case or a plain word is spelled there and it could not be longer: a word up to a character no word has, `<`, `>`, `!`, `==` and `!=` in front of no `=` |
| `FilterTokens.FilterIsItsTokens` | `src/display_filter.cpp:257-379` | the tokens are accepted if and only if they cut the filter: each where it says and as long as it can be, only blanks between them, the end behind the last |
| `FilterTokens.RejectedWhere` | `src/display_filter.cpp:257-379` | a filter that cannot be cut is rejected at a position in it |
| `FilterTokens.WrittenIsRead` | `src/display_filter.cpp:257-379` | tokens written in any of their spellings with any blanks behind each are cut into those tokens |
| `FilterTests.FindField` | `src/display_filter.cpp:86-94` | the loop over the table of fields finds the field with the name, or none |
| `FilterTestSyntax.NamesTell` | `src/display_filter.cpp:68-94` | a word names a field, in any case, if and only if it is the field's protocol, a dot and what it is of it |
| `FilterTests.ParseNumber` | `src/display_filter.cpp:646-667` | the loop over the digits gives the number, none if there is no digit, another character or more than the kind of field holds |
| `FilterTestSyntax.NumberIsRead` | `src/display_filter.cpp:646-667` | a number is accepted if and only if it is decimal, or hexadecimal behind 0x, and at most 65535 for a port or 2^64 - 1 otherwise |
| `FilterTestSyntax.HexIgnoresCase` | `src/display_filter.cpp:646-667` | hexadecimal digits are read in either case |
| `FilterTests.ParseAddress` | `src/display_filter.cpp:598-644` | the address with its prefix length, or the rejection, as the specification function says |
| `FilterTestSyntax.Ipv4IsRead` | `src/display_filter.cpp:598-644` | accepted as an address if and only if the text is an IPv4 address, alone or with /0 to /32, and that address is the first of its network in canonical form, with no prefix length for a single address |
| `FilterTestSyntax.Ipv6IsRead` | `src/display_filter.cpp:598-644` | accepted as an address if and only if the text is an IPv6 address and that is it in canonical form |
| `FilterTestSyntax.SingleMeans` | `src/display_filter.cpp:526-569` | what a word alone is read as: its field, the field of a protocol told by one, or the protocol; and nothing else |
| `FilterTestSyntax.ComparedMeans` | `src/display_filter.cpp:571-596` | a word is compared with a value if and only if it names a field and the value is one of that field and no field itself; addresses by == and != only |
| `FilterTestSyntax.TestMeans` | `src/display_filter.cpp:526-596` | the tests the parser reads are the declared ones in one word or three, and no others |
| `FilterTests.TestIsLeaf` | `src/display_filter.cpp:526-596` | every test accepted is in canonical form |
| `FilterTests.TestReads` | `src/display_filter.cpp:526-596` | a canonical test written out is read as that test |
| `FilterTests.TestRejects` | `src/display_filter.cpp:526-596` | a test is rejected at a position in the filter |
| `FilterParser.Parser.CombineAll` | `src/display_filter.cpp:417-436` | the loop over the operands splices those of the same kind: the specification's combination |
| `FilterParser.Parser.ReadOr` | `src/display_filter.cpp:438-446` | the result and the new position are those of the grammar; the depth is as before |
| `FilterParser.Parser.ReadAnd` | `src/display_filter.cpp:448-456` | the same for `&&` |
| `FilterParser.Parser.Deepen` | `src/display_filter.cpp:458-485` | one level deeper, unless 64 are open |
| `FilterParser.Parser.ReadUnary` | `src/display_filter.cpp:487-497` | the same for `!` |
| `FilterParser.Parser.ReadPrimary` | `src/display_filter.cpp:499-523` | the same for parentheses and tests |
| `FilterParser.Parser.ReadOneTest` | `src/display_filter.cpp:526-569` | the same for the test whose word was taken |
| `FilterParser.Parser.ReadOneComparison` | `src/display_filter.cpp:571-596` | the same for a comparison |
| `FilterParser.Parser.Parse` | `src/display_filter.cpp:390-403` | a whole filter: an empty one and one with tokens behind it are rejected |
| `FilterSyntax.AcceptedExactly` | `src/display_filter.cpp:390-523` | the tokens are accepted as an expression if and only if they are those of a tree of the grammar (`!` before `&&` before or, any parentheses, at most 64 nested) that means it |
| `FilterRoundTrip.ExpressionIsRead` | `src/display_filter.cpp:390-523` | the tokens of an expression in normal form are parsed as it exactly if it nests no deeper than 64, and rejected otherwise |
| `FilterRoundTrip.AcceptedIsNormal` | `src/display_filter.cpp:390-523` | every expression accepted is in normal form and nests at most 64 deep; a rejection has a position in the filter |
| `FilterRoundTrip.CombinedFits` | `src/display_filter.cpp:417-436` | combining keeps the normal form and adds no nesting |
| `DisplayFilters.CombineMeans` | `src/display_filter.cpp:417-436` | however operands are spliced, the result holds of a packet when all of them do, or any of them |
| `DisplayFilters.ParseDisplayFilter` | `src/display_filter.cpp:958-965` | the object of tokens and position gives what the specification function of the text gives |
| `DisplayFilters.ParsedIsNormal` | `src/display_filter.cpp:958-965` | a filter is accepted in normal form or rejected at a position in it, for every text |
| `DisplayFilters.WrittenIsParsed` | `src/display_filter.cpp:958-965` | an expression written in any spelling is parsed back as it, exactly if it nests at most 64 deep |
| `DisplayFilters.RoundTrip` | `src/display_filter.cpp:958-965` | parsing undoes printing exactly if the expression nests at most 64 deep |
| `DisplayFilters.PrintedIsTheFilter` | `src/display_filter.cpp:958-965` | printing what was parsed and parsing it again changes nothing |
| `DisplayFilters.ParsedIsWellFormed` | `src/display_filter.cpp:958-965` | the translation into a pattern is defined on whatever is accepted |
| `FilterLanguage.AcceptedFilters` | `src/display_filter.cpp:958-965` | for every text and expression: accepted as it if and only if the text is cut into the tokens of a tree that means it |
| `FilterLanguage.DisjunctsMean` | `src/display_filter.cpp:417-523` | what a tree means holds of a packet if and only if one of its or operands has all its `&&` operands hold, `!` turning each round |
| `FilterLanguage.SelectedByTree` | `src/display_filter.cpp:979-986` | from text to line: a filter cut into the tokens of a tree selects exactly the lines of the packets of which the tree holds |
| `DisplayFilters.DisplayFilterPattern` | `src/display_filter.cpp:979-986` | for every text: a pattern if and only if the filter is accepted, and that pattern selects the line of a packet exactly when the filter holds of it |
| `NumberRange.DigitsRangeExact` | `src/display_filter.cpp:698-722` | the pattern matches exactly the digit strings of the range, leading zeros included |
| `NumberRange.WriteNumberRange` | `src/display_filter.cpp:988-1011` | the loop over the numbers of digits writes the range's alternatives |
| `NumberRange.NumberRangeExact` | `src/display_filter.cpp:988-1011` | the pattern matches the numerals of the range and no other text; none for an empty range, no upper bound for UINT64_MAX |
| `FilterValues.NumbersExact` | `src/display_filter.cpp:796-830` | of the numbers a field can hold, the values' pattern matches exactly those the comparison selects |
| `FilterCorrect.NothingSelected` | `src/display_filter.cpp:796-830` | where a comparison has no pattern it selects no number its field can hold |
| `FilterValues.Ipv4Exact` | `src/display_filter.cpp:771-785` | the pattern matches the dotted texts of the addresses of the network and no other text |
| `Ipv4Network.NetworkByOctets` | `src/display_filter.cpp:771-785` | two addresses agree in the bits of the prefix exactly if each pair of octets agrees in its share of them |
| `Ipv4Masks.FirstIsOfNetwork` | `src/display_filter.cpp:598-644` | clearing the bits behind the prefix gives the one address of the network with none set |
| `FilterTestSyntax.FirstIsUnique` | `src/display_filter.cpp:598-644` | an address of the network with no bit set behind the prefix is that one |
| `FilterMeaning.TestIsPacketLine` | `src/display_filter.cpp:834-884` | a line that a test's pattern selects is a packet line |
| `FilterMeaning.AssertionMeans` | `src/display_filter.cpp:900-936` | the assertions of an expression consume nothing and hold exactly where its boolean structure does, of any line |
| `FilterMeaning.GuardIsRedundant` | `src/display_filter.cpp:939-954` | where the guard is left out, every line on which the filter holds is a packet line anyway |
| `FilterMeaning.FilterSelects` | `src/display_filter.cpp:967-977` | the pattern selects, of all lines, the packet lines on which the filter holds |
| `LineColumns.ColumnsRead` | `src/display_filter.cpp:743-755` | the pattern of columns begins a line exactly if each column as it was written matches its part: none is read early or late, whichever time columns there are |
| `LineColumns.TimesRead` | `src/regex_lab.cpp:50-58` | the time columns are passed over where the line shows them and never taken for Source |
| `LineAddresses.EndpointMatches` | `src/packet_formatter.cpp:141-152` | an address pattern with the name that may follow matches a column exactly if the column shows an address it is for, be it a MAC, IPv4 or IPv6 address |
| `LineTransport.MacsRead` | `src/display_filter.cpp:761-767` | the MAC columns a line shows are passed over and never taken for ports |
| `LineInfo.InfoRead` | `src/display_filter.cpp:761-767` | behind tunnels and markers the packet's own ports are read, and TCP's never as UDP's |
| `FilterCorrect.LineIsPacketLine` | `src/packet_formatter.cpp:214-275` | every line the formatter writes is a packet line |
| `FilterCorrect.PortsShown` | `src/packet_formatter.cpp:214-275` | where the line shows the two ports, and that they are the packet's |
| `FilterCorrect.TestMeans` | `src/display_filter.cpp:834-884` | a test's pattern selects the line of a packet exactly if a value of its field is selected |
| `FilterCorrect.FilterSelectsPackets` | `src/display_filter.cpp:967-977` | compiler correctness: for every filter and packet, the pattern selects the line the formatter writes exactly when the filter holds of the packet |
| `AddressTexts.FormatIpv4` | `src/wire_bytes.h:78-96` | the digits written by hand are the four octets in decimal with dots |
| `AddressTexts.Ipv4TextIsRead` | `src/wire_bytes.h:78-96` | an IPv4 address written is read as itself |
| `AddressTexts.FindLongestRun` | `src/wire_bytes.h:114-150` | the two loops find the leftmost longest run of two or more zero groups, or that there is none |
| `AddressTexts.FormatIpv6` | `src/wire_bytes.h:114-150` | the text is the groups in hexadecimal with that run as `::` |
| `AddressTexts.Ipv6TextIsRead` | `src/wire_bytes.h:114-150` | an IPv6 address written is read as itself |
| `Ipv6Parsers.Ipv4Address` | `src/describe_sip.cpp:215-238` | scanning accepts exactly the texts of four octets, and gives those |
| `Ipv6Parsers.Ipv6Address` | `src/describe_sip.cpp:242-307` | the scanner's 16 bytes are the groups and the gap of its specification |
| `Ipv6Parsers.ParseIpv4` | `src/display_filter.cpp:126-149` | splitting accepts exactly the texts of four octets, and gives the 32-bit number they make |
| `Ipv6Parsers.ParseIpv6Groups` | `src/display_filter.cpp:159-187` | the groups of the items between colons, an IPv4 address as the last only where it may be |
| `Ipv6Parsers.ParseIpv6` | `src/display_filter.cpp:190-217` | the splitter's 16 bytes are those of the items on both sides of the gap |
| `Ipv6Parsers.ParseBoth` | `src/display_filter.cpp:190-217` | run on the same text the two parsers give the same answer, 16 bytes or none |
| `Ipv6Texts.ParsersAgree` | `src/describe_sip.cpp:242-307` | the scanner of SIP and the splitter of display filters accept the same texts as the same address, for every text |
| `ByteStreamOrder.SeqAfterPositions` | `src/byte_stream_orderer.h:40-43` | within 2^31 of each other, 32-bit sequence numbers are as far apart as the positions they stand for, wherever they wrap |
| `ByteStreamOrder.SeqAfterOrders` | `src/byte_stream_orderer.h:40-43` | of numbers after a third, serial order is the order of the distances |
| `ByteStreamOrder.ByteStreamOrderer.Reset` | `src/byte_stream_orderer.cpp:31-35` | nothing is held and the number given is next |
| `ByteStreamOrder.ByteStreamOrderer.PlaceOf` | `src/byte_stream_orderer.cpp:37-47` | early if after the next number, next if it reaches past it, with the overlap, else taken |
| `ByteStreamOrder.ByteStreamOrderer.Advance` | `src/byte_stream_orderer.h:101-104` | the next number is the length further, modulo 2^32 |
| `ByteStreamOrder.ByteStreamOrderer.Holds` | `src/byte_stream_orderer.cpp:49-57` | whether a segment of the number at least as long is held |
| `ByteStreamOrder.ByteStreamOrderer.HoldEarly` | `src/byte_stream_orderer.cpp:59-62` | the segment is held behind the others |
| `ByteStreamOrder.ByteStreamOrderer.PopNext` | `src/byte_stream_orderer.cpp:64-83` | the held segments that are due are dropped one by one, up to one with bytes that are next |
| `ByteStreamOrder.ByteStreamOrderer.FirstEarlySeq` | `src/byte_stream_orderer.cpp:85-94` | a held number, and the first in the stream once no held segment is due |
| `ByteStreamOrder.ByteStreamOrderer.SkipTo` | `src/byte_stream_orderer.cpp:96-104` | how many bytes are skipped, and that the number is next if any are |
| `ByteStreamOrder.ByteStreamOrderer.EarlyBytes` | `src/byte_stream_orderer.cpp:106-113` | the bytes held in all |
| `StreamContent.StreamReader.PopNext` | `src/stream_content.cpp:383-393` | the bytes that are next are handed out until none is; what is known stays the same |
| `StreamContent.StreamReader.SkipGap` | `src/stream_content.cpp:395-416` | exactly the bytes up to the number are skipped, then what follows is handed out |
| `StreamContent.StreamReader.Flush` | `src/stream_content.cpp:418-427` | nothing is held afterwards; the gaps are of bytes that were not offered, each before some that were: all that was held is handed out as bytes |
| `StreamContent.StreamReader.SkipHeld` | `src/stream_content.cpp:395-416` | held segments before the target come after their own gaps |
| `StreamContent.StreamReader.SkipTo` | `src/stream_content.cpp:395-416` | the reader reaches the acknowledged position, or that of the FIN; the bytes skipped lie before it and were not offered |
| `StreamContent.StreamReader.TakeNext` | `src/stream_content.cpp:325-354` | the bytes behind the overlap are handed out and count as offered; none is skipped |
| `StreamContent.StreamReader.HoldEarly` | `src/stream_content.cpp:325-354` | a segment held counts as offered, within the limits |
| `StreamContent.StreamReader.TakeEarly` | `src/stream_content.cpp:325-354` | held, or with too much held already what is held handed out first; only missing bytes are skipped |
| `StreamContent.StreamReader.TakeSegment` | `src/stream_content.cpp:294-358` | with segments of one stream in the window, what is handed out stays a true account of it: its bytes in order, gaps only where nothing was offered |
| `StreamContent.StreamReader.StandsAtFrontier` | `src/stream_content.cpp:294-358` | the reader always stands at the first position neither offered nor skipped |
| `StreamContent.GaplessDelivers` | `src/stream_content.cpp:294-358` | without gaps what was handed out is the stream from its start |
| `StreamContent.OrderAll` | `src/stream_content.cpp:294-358` | segments in any order, overlapping, repeated and wrapping: the stream's bytes, once each and in order, up to the first position none covers |
| `StreamContent.ArrivalOrder` | `src/stream_content.cpp:294-358` | that position depends on the segments, not on their order of arrival |
| `RunningMedian.HighestBitOf` | `src/capture_stats.cpp:92-99` | the loop finds the highest bit set |
| `RunningMedian.BucketNumber` | `src/capture_stats.cpp:101-109` | the bucket, computed in 64 bits, is the specification's |
| `RunningMedian.BucketMonotone` | `src/capture_stats.cpp:101-109` | a greater value never has a lower bucket |
| `RunningMedian.BucketInRange` | `src/capture_stats.cpp:101-109` | there are buckets enough for every 64-bit value |
| `RunningMedian.MiddleIsNear` | `src/capture_stats.cpp:112-121` | every value lies within 1/128 of itself from its bucket's middle |
| `RunningMedian.BucketOfRank` | `src/capture_stats.cpp:150-171` | the bucket at which the counts pass a rank is that of the value of the rank |
| `RunningMedian.SortedHasRank` | `src/capture_stats.cpp:150-171` | the value of a rank is the one at it once the values are sorted |
| `RunningMedian.NthElement` | `src/capture_stats.cpp:150-171` | the value at the place is the one of that rank |
| `RunningMedian.RunningMedian.Add` | `src/capture_stats.cpp:125-143` | the value is counted in, exact values turned into buckets past 4096 of them |
| `RunningMedian.RunningMedian.CountInBucket` | `src/capture_stats.cpp:145-148` | the buckets count the values with one more |
| `RunningMedian.RunningMedian.Median` | `src/capture_stats.cpp:150-171` | exact up to 4096 values, within 1/128 of the exact median of any number of them, none of none |
| `CaptureIndexes.CaptureIndex.constructor` | `src/capture_index.cpp:50-53` | an interval of at least 1 and nothing noted |
| `CaptureIndexes.CaptureIndex.Note` | `src/capture_index.cpp:55-61` | the packet is counted, and every interval-th place kept |
| `CaptureIndexes.CaptureIndex.SetCaptureParts` | `src/capture_index.cpp:111-135` | the files are these and the checkpoints in files rotated away are dropped |
| `CaptureIndexes.CaptureIndex.Nearest` | `src/capture_index.cpp:176-183` | the last checkpoint before the packet |
| `CaptureIndexes.CaptureIndex.FileOf` | `src/capture_index.cpp:146-156` | a file exactly for packets read and not rotated away: the one that has the packet |
| `CaptureIndexes.HoldsOnce` | `src/capture_index.cpp:146-156` | one file has each packet that is not rotated away, and none has another |
| `CaptureIndexes.DroppingChangesNoRead` | `src/capture_index.cpp:111-135` | dropping checkpoints changes the reading of no packet kept |
| `CaptureIndexes.ReadFromIsNear` | `src/capture_index.cpp:399-409` | a packet is read from a place at most an interval before it, in its own file |
| `CaptureIndexes.KeptHasPlace` | `src/capture_index.cpp:91-102` | an offset has a place in a file exactly if it lies in its records or is that of a header record copied ahead |
| `CaptureIndexes.RecordsPlace` | `src/capture_index.cpp:91-102` | of a file described byte by byte, the bytes at that place are those of the capture at the offset |
| `CaptureIndexes.HeadersPlace` | `src/capture_index.cpp:91-102` | and those of a header record copied ahead are that record's, all of it |
| `CaptureFiles.NextReads` | `src/pcap_parser.cpp:1316-1350` | a reader that stands before a record reads it in the state of all before it, and stands behind it |
| `CaptureCursors.ResumeStands` | `src/pcap_parser.cpp:1247-1254` | resumed at a checkpoint in a file, the reader stands where reading from the file's start would leave it |
| `CaptureCursors.RecordPlace` | `src/capture_index.cpp:91-102` | a record of a file begins where its place in the capture says |
| `CaptureCursors.ReadFromFile` | `src/capture_index.cpp:399-409` | the checkpoint moved into the file resumes a reader there |
| `CaptureCursors.CaptureCursor.RelocateHeaders` | `src/capture_index.cpp:355-369` | succeeds exactly if the file has every header record |
| `CaptureCursors.CaptureCursor.Reopen` | `src/capture_index.cpp:338-373` | succeeds exactly if the file is there, resumes and has the headers; the reader is then the file's, at the checkpoint |
| `CaptureCursors.CaptureCursor.ReadOn` | `src/capture_index.cpp:421-449` | the packet of the number, decoding one record for each packet from where the cursor was |
| `CaptureCursors.CaptureCursor.Read` | `src/capture_index.cpp:375-449` | the packet that converting the capture front to back gives, its record where that file has it, decoding no more than an interval of records; none exactly if the number is out of reach, or at most if the file lacks headers |
| `CaptureCursors.Convert` | `src/packet_recorder.cpp:47-69` | the packets of the capture in order, and an index that knows places of it |
| `StreamExtents.StreamIndex.NoteStream` | `src/capture_index.cpp:63-78` | the packet extends its stream; one of no stream changes nothing |
| `StreamExtents.StreamIndex.StreamExtent` | `src/capture_index.cpp:80-89` | a stream's first and last packet exactly if one was noted |
| `RecordingSource.RecordingSource.Read` | `src/capture_index.cpp:242-256` | the bytes read are passed on; they are kept behind those before, or nothing is when that is too much |
| `RecordingSource.RecordingSource.SkipByReading` | `src/capture_index.cpp:258-270` | succeeds exactly if there are as many bytes, leaves a short source at its end, and keeps what it passes |
| `RecordingSource.RecordingSource.Skip` | `src/capture_index.cpp:258-270` | succeeds exactly if there are as many; few enough are kept as if read, more are let go of; where a failure leaves the position |
| `RecordingSource.RecordingSource.Seek` | `src/capture_index.cpp:272-281` | succeeds exactly within the source; nothing is kept then, and a failure changes nothing |
| `RecordingSource.RecordingSource.TrimTo` | `src/capture_index.cpp:289-297` | what is kept is still the stream's if and only if the offset is not past the position |
| `RecordingSource.RecordingSource.Bytes` | `src/capture_index.cpp:301-307` | bytes kept are shown, and those shown are the stream's if offset and length do not wrap around |
| `RecordingSource.ShowsExactly` | `src/capture_index.cpp:301-307` | exactly when the bytes shown are those asked for: unless the 64-bit sum wraps to no more than is kept |
| `RecordingSource.WrappedLength` | `src/capture_index.cpp:301-307` | an input where it wraps and bytes are shown that were never kept |
| `RecordingSource.ByteSource.Skip` | `src/pcap_parser.cpp:1120-1132` | skipping by reading: success exactly within the source, at its end otherwise |
| `Http2Reader.FragmentOf` | `src/describe_http.cpp:542-565` | the fragment between what comes first and the padding, if they fit |
| `Http2Reader.Http2Direction.AbandonHeaders` | `src/describe_http.cpp:600-612` | header blocks are given up and the rest of a frame being read is passed over |
| `Http2Reader.Http2Direction.Resync` | `src/describe_http.cpp:614-621` | the next bytes begin a frame and header blocks stay given up |
| `Http2Reader.Http2Direction.FrameDone` | `src/describe_http.cpp:542-593` | the new state is the specification's of a whole frame |
| `Http2Reader.Http2Direction.Step` | `src/describe_http.cpp:490-538` | one turn of the loop takes as many bytes as lie in one part of a frame, and does what they do one by one |
| `Http2Reader.Http2Direction.Describe` | `src/describe_http.cpp:474-540` | bounded in what it holds, and equal to taking the bytes one by one behind the preface |
| `Http2.ChunksMatterNot` | `src/describe_http.cpp:474-540` | once started it does not matter how the bytes are cut into calls |
| `Http2.OnlyThePrefaceMatters` | `src/describe_http.cpp:479-487` | at the start it matters exactly if a cut goes through the connection preface |
| `Http2.FeedHolds` | `src/describe_http.cpp:474-540` | what is held stays bounded by a frame header, or one header block frame and 64 KiB of block |
| `Http2Frames.FramesAreTold` | `src/describe_http.cpp:488-525` | the frames named are those the bytes begin by their lengths alone, whatever their header blocks do |
| `Http2Frames.AbandonKeepsStep` | `src/describe_http.cpp:600-612` | giving up, even in mid-frame, keeps in step with the frames |
| `Http2Frames.BlockRoundTrip` | `src/describe_http.cpp:542-593` | however a block is cut into frames, padded and prefixed, the decoder is given the block |
| `Http2Frames.BrokenOrRead` | `src/describe_http.cpp:542-593` | a header block frame makes it give up exactly if it continues no block, begins one in another, outgrows 64 KiB, is too short for its padding and prefix, or the decoder refuses the block |
| `Http2Frames.FramePassed` | `src/describe_http.cpp:514-523` | frames of other kinds change no header block; one too long to hold gives up |
| `Http2Frames.GivenUpForGood` | `src/describe_http.cpp:514-523` | once given up, the decoder is left alone whatever comes |
| `HeaderLines.Lines.Next` | `src/describe_sip.cpp:165-210` | the line up to the next line feed without its end, or that there is none |
| `HeaderLines.ReadHeaderLines` | `src/describe_sip.cpp:564-606` | reading goes as the specification says, up to where it stopped |
| `HeaderLines.ReadHeadersStays` | `src/describe_sip.cpp:564-606` | with more bytes reading goes on where it stopped, and what was told stays told |
| `MessageFraming.FramerLook.FrameSipMessage` | `src/describe_sip.cpp:790-838` | with bytes added call after call, each answer is that of framing all of them from scratch |
| `MessageFraming.FramerLook.FrameHttpHeader` | `src/describe_http.cpp:207-231` | the same for an HTTP header section, looking at no byte more than three times until it is framed |
| `MessageFraming.NothingNew` | `src/describe_sip.cpp:790-838` | without a line feed in the new bytes, the message goes on: one byte more than there are |
| `WrittenMessages.StartIsRead` | `src/describe_sip.cpp:506-545` | a request or status line as it is written is a start line |
| `WrittenMessages.SectionIsRead` | `src/describe_sip.cpp:564-606` | a written header section is read to its end, with its lines counted and its first Content-Length, or malformed where it is |
| `WrittenMessages.MessageIsFramed` | `src/describe_sip.cpp:790-838` | a written message is framed as its header section and its Content-Length (either name, any case, blanks around it), as the section alone without one; a malformed or too large length, a line without a colon or too many lines reject it; whatever bytes follow |
| `WrittenMessages.PartIsNotFramed` | `src/describe_sip.cpp:790-838` | while its header section is not whole, it is told to go on |
| `WrittenMessages.SectionIsFramed` | `src/describe_http.cpp:207-231` | an HTTP header section in lines, ended by an empty one, is framed at its end whatever follows |
| `StopProtocol.RunKeeps` | `src/adb_source.cpp:224-255` | in every interleaving of the two scripts and the process, the invariant holds at every point |
| `StopProtocol.LeftAloneUntilStopped` | `src/adb_source.cpp:224-240` | a capture nobody stops is dead only if it ended on its own |
| `StopProtocol.AliveOnlyIfDropped` | `src/adb_source.cpp:242-255` | a run that is over leaves tcpdump alive if and only if Stop took its mark back too soon and tcpdump has not ended on its own |
| `StopProtocol.RunsEnd` | `src/adb_source.cpp:224-255` | each step leaves less of the run |
| `StopProtocol.CanEnd` | `src/adb_source.cpp:224-255` | from every point reached the scripts and the process can be run to an end |
| `StopProtocol.RaceLosesTheMark` | `src/adb_source.cpp:242-255` | a schedule that does leave tcpdump running with Stop done |
| `StopProtocol.AtomicStopIsSafe` | `src/adb_source.cpp:242-255` | with the mark tested and made in one step, no run leaves tcpdump alive |
| `Conversations.CountPacket` | `src/conversations.cpp:43-85` | the packet is counted in its stream, with new streams before it |
| `Conversations.ConversationStats.Add` | `src/conversations.cpp:43-85` | the packet is added; counts and chunks stay true to the packets added |
| `Conversations.CountsMean` | `src/conversations.cpp:43-85` | a stream's counts are its packets and bytes each way, and side A the sender of its first packet |
| `Conversations.TimesMean` | `src/conversations.cpp:43-85` | its times are those of its earliest and latest packet, whatever their order |
| `Conversations.RowMeans` | `src/conversations.cpp:135-163` | a row shows, of the stream's packets alone: A the sender of the first, packets and bytes each way, addresses and ports of the ends, start and duration by the earliest and latest packet, and the last label's name, else TCP or UDP |
| `Conversations.ConversationStats.TableMeans` | `src/conversations.cpp:165-180` | the table shows a row for each stream of the packets added: the TCP streams, then the UDP ones |
| `Conversations.ConversationStats.Conversations` | `src/conversations.cpp:165-180` | the two loops give the table |
| `Conversations.MakeChunks` | `src/conversations.cpp:182-216` | the chunks used again and those made anew are together the rows |
| `Conversations.ConversationStats.RowsOf` | `src/conversations.cpp:182-216` | the chunked rows are the table, whatever packets came between the calls and whether the start moved |
| `ConversationRows.ConversationRows.constructor` | `src/conversations.cpp:105-113` | the chunks, where each starts, and how many rows there are |
| `ConversationRows.ConversationRows.At` | `src/conversations.cpp:115-121` | row i of the chunks one behind the other, empty ones passed over |
| `ConversationRows.ConversationRows.List` | `src/conversations.cpp:123-131` | all the rows |
| `DnsNames.FollowName` | `src/describe_dns.cpp:157-210` | the loop gives the dotted labels of the name read and where it ends in place |
| `DnsNames.FieldReader.ReadDnsName` | `src/describe_dns.cpp:157-210` | read if and only if the message spells a name there of at most 255 bytes and 64 pointers, each pointing before itself, that ends in place; a failure moves nothing |
| `DnsNames.FieldReader.Skip` | `src/describe_common.h:238-245` | succeeds exactly within the limit |
| `DnsNames.SpelledOnce` | `src/describe_dns.cpp:157-210` | a message spells at most one name at a place |
| `DnsNames.ReadIsSpelled` | `src/describe_dns.cpp:157-210` | what is read is spelled there, within the limits |
| `DnsNames.SpelledIsRead` | `src/describe_dns.cpp:157-210` | what is spelled there within the limits is read |
| `DnsNames.PlainRoundTrip` | `src/describe_dns.cpp:157-210` | labels written out are read back |
| `DnsNames.CompressedRoundTrip` | `src/describe_dns.cpp:157-210` | labels that end in a pointer are read with those of the name pointed to |
| `CommandLines.SplitCommandLine` | `src/command_source.cpp:385-458` | the loop splits as the specification does |
| `CommandLines.SplitUndoesQuoting` | `src/live_source.cpp:349-354` | words quoted for a shell are split back as themselves, whatever they hold |
| `WrittenCommands.LineIsSplit` | `src/command_source.cpp:385-458` | a line of words written in any mix of quotes and escapes gives those words, and the first word written without quotes that holds pipe, &, ;, < or > as its operator |
| `WrittenCommands.OpenLineFails` | `src/command_source.cpp:385-458` | a line that leaves a quote or an escape open fails |
| `CommandLines.ReplacePlaceholders` | `src/command_source.cpp:92-106` | one pass renders the text's pieces |
| `CommandLines.PiecesAreExact` | `src/command_source.cpp:92-106` | the pieces are the text, and no placeholder is left in the text between them |
| `CommandLines.PlaceholdersMean` | `src/command_source.cpp:92-106` | each of the six placeholders gives its own value, quoted behind :sh |
| `CommandLines.QuotedValueIsOneWord` | `src/command_source.cpp:92-106` | a quoted placeholder's value is one word for the shell that splits it |
| `CommandLines.ArgumentsInPlace` | `src/command_source.cpp:574-609` | with a filter each word makes the argument of its own place: no value reaches another's |
| `CommandLines.OneArgument` | `src/command_source.cpp:82-85` | an empty filter's own word makes no argument, any other word one |
| `CommandLines.ArgumentsBoth` | `src/command_source.cpp:574-609` | arguments follow their words in order |
| `CommandLines.ArgumentCount` | `src/command_source.cpp:574-609` | how many arguments there are depends on no value, but for the filter's being empty |
| `CommandLines.CustomCommand` | `src/command_source.cpp:505-609` | without a shell: the program and its arguments, or none of a line that may not run, has an open quote or an operator, or names no program |

## Left out

- Regular expressions are matched as sets of texts and `^` as beginning at position 0; PCRE's Unicode case folding is not modelled, names are compared by ASCII case alone.
- The civil date behind a time column is not computed: a packet's time texts are any of the shape the formatter prints.
- The Info text of packets other than TCP and UDP is any that does not itself show two ports with an arrow the way theirs do.
- Error messages are left out; a filter's rejection keeps its position.
- The readers of pcap and pcapng are abstract functions of state and record: how a format is parsed is not modelled, only that reading is deterministic from a state.
- HPACK is an abstract decoder, and HTTP and SIP messages are framed but not named.
- Resetting a TCP stream at a new SYN, and telling a plausible acknowledgement, are not modelled.
- CaptureIndex: opening files, gzip access points and modification times are a truth value each that the caller gives; a file that changed is told apart by that alone.
- CaptureCursor: the places of header records that were moved are looked up but not handed on with the packet.
- Conversations: packets of no numbered stream are not counted, and durations are exact nanoseconds in place of floating seconds.
- DnsNames: how a name is cut for display is left out.
- std::nth_element, std::lower_bound and std::upper_bound are methods written out here.
- StopProtocol: another user's directory is the only interference; a reused process number is not modelled.
- CommandLines.CustomCommand: the branch that hands the line to the system's shell is left out.
- StreamContent.StreamReader.TakeSegment: the number of segments and bytes held at most are parameters; the source has 64 segments and 1 MiB.
- RecordingSource.RecordingSource.Bytes: the source promises the bytes of any range kept; where the 64-bit sum of offset and length wraps around it shows others, and ShowsExactly says when.
- RecordingSource.RecordingSource.TrimTo: an offset past what was read leaves the source inconsistent, and the contract says that this is the only case.
- Http2.ChunksMatterNot: fails for the first call when the connection preface comes in two, and OnlyThePrefaceMatters says that this is the only case.
- StopProtocol.AtomicStopIsSafe: true of a Stop script that tests and makes its mark in one step, which the one in the source does not; RaceLosesTheMark is the run it lets through.
