# beast-splitter: a verified model

beast-splitter reads Mode S messages from a Beast or Radarcape receiver, or
from another beast-splitter, and redistributes them to any number of clients,
each with its own filter, output format and timestamp format. This project
models that path in Dafny and proves what holds along it.

| file | component |
|---|---|
| `BitStrings.dfy`, `Common.dfy` | bytes, 32-bit words and messages as sequences of bits; chunks of a stream |
| `Polynomial.dfy`, `Powers.dfy` | remainders modulo the Mode S generator polynomial, and the order of x |
| `Crc.dfy` | crc.h and crc.cc: table-driven CRC, residual, syndrome tables |
| `Message.dfy`, `Correction.dfy` | modes_message.h: the CRC test and single-bit correction with its caches, and what they detect, repair and refuse |
| `Filters.dfy`, `Distributor.dfy` | modes_filter: the filter order, the distributor and its re-entrant broadcast |
| `Settings.dfy`, `Commands.dfy` | beast_settings: settings, filters, status bytes, and the commands that carry settings |
| `Link.dfy` | beast_input.cc: keeping the receiver configured |
| `Deframer.dfy`, `Framing.dfy`, `MidStream.dfy` | beast_input.cc and beast_output.cc: cutting the byte stream into messages, printing and decoding them, resynchronising, and starting in the middle of a stream |
| `Timestamps.dfy` | beast_output.cc: 12MHz and GPS timestamps |
| `OutputBuffer.dfy`, `Output.dfy` | beast_output.cc: the output buffer protocol and the client connection |
| `Autobaud.dfy` | beast_input_serial.cc: the hunt for the baud rate |
| `Relay.dfy`, `Chain.dfy`, `EndToEnd.dfy`, `Session.dfy` | theorems across components: clients behind another splitter, splitters in a chain, what a client is sent, and whole runs of a client connection |

Objects whose methods update fields are classes here too (`Crc.SyndromeTables`,
`Message.Message`, `Distributor.FilterDistributor`, `Link.BeastInput`,
`Deframer.BeastInput`, `Framing.Dispatcher`, `Output.SocketOutput`,
`Autobaud.SerialInput`). Each method is proved equal to a function on the
abstract state, and the properties are proved of those functions over every
input and every run. A `uint8_t` is an integer from 0 to 255 and a `uint32_t`
accumulator is its 32 bits. Sockets, timers and the io_service appear as events
that may happen in any order the source allows.

## Main results

- The table-driven CRC is division by the generator of section 3.1.2.3.3 of
  ICAO Annex 10 Volume IV, for every byte string; garbage in the top byte of the
  accumulator never matters (`Crc.ComputeCrc`, `Crc.ResidualIsDivisionRemainder`).
- All single-bit syndromes differ, so single-bit correction is exact; even
  numbers of bit errors are never miscorrected, and bursts of up to 24 bits are
  detected.
- The deframer is independent of how the stream is cut into reads, is the
  inverse of the printer, and after a loss of sync recovers exactly the frames
  from the first lockable one on, without ever emitting a false one. For a new
  connection that starts in the middle of a stream it is determined exactly when
  a message that was never sent can come out, and what comes out after it.
- The upstream filter is the least filter above those of all live clients in
  every run. For splitters in a chain it is determined exactly which messages
  that a client wants do not reach it: status messages on a Beast's connection,
  DF0, DF4 and DF5 when a receiver type is left open and GPS timestamps are asked
  for, and frames of the wrong length that the first splitter repaired badly.
- Which messages a client is sent, and with which data, is stated for all its
  settings; formats that carry no checkable CRC are never held back or changed.
- A client that wants checked data is sent data that passes the CRC test,
  unless it failed at a length that its DF does not have; every client is sent
  timestamps that stand for the original time of day, and status messages that
  announce exactly the timestamps sent. A downstream splitter decodes exactly
  what was sent, if it starts with the right idea of the timestamps, and passes on
  exactly the part from the first status message on, if it starts without knowing
  the receiver type. Over every run of a connection, what was delivered are the
  first messages sent.
- What reaches the socket is a prefix of what was written, in every interleaving.

## Model

| member | source | states |
|---|---|---|
| `Powers.GeneratorValue` | crc.cc:36 | the generator used throughout is the source's constant 0xfff409 |
| `Crc.CrcGenShifts` | crc.cc:36-42 | k levels of the table generator multiply the low 24 bits by x^k modulo the generator polynomial |
| `Crc.TableEntry` | crc.cc:44-46 | table entry n is the byte n times x^24 reduced by the generator polynomial |
| `Crc.TableStep` | crc.h:47 | one table step is eight shift-and-reduce steps on the low 24 bits, whatever the top byte of the accumulator holds |
| `Crc.ComputeCrc` | crc.h:44-50 | the loop over the table computes the remainder of data times x^24, for every byte string |
| `Crc.MessageResidual` | crc.h:53-64 | the residual is the remainder of the whole frame, parity included, and 0 up to three bytes |
| `Crc.ResidualIsDivisionRemainder` | crc.h:53-64 | r is the residual if and only if the frame is a multiple of the generator plus r |
| `Crc.AppendedParity` | crc.h:53-64 | three appended bytes make the residual zero if and only if they are the CRC of the data |
| `Crc.ResidualUnderError` | crc.h:53-64 | the residual is linear over exclusive-or on messages of one length |
| `Polynomial.LongDivision` | crc.cc:36-42 | every bit string is a quotient times the generator plus the remainder that the CRC computes |
| `Polynomial.RemainderIsUnique` | crc.cc:36-42 | no other remainder fits, whatever the quotient |
| `Polynomial.TimesXInjective` | crc.cc:38 | one shift-and-reduce step is injective on 24-bit values |
| `Polynomial.RemainderKeepsParity` | crc.cc:36-38 | the generator has even weight, so a string and its remainder have the same parity of ones |
| `Powers.PowersDiffer` | crc.cc:36-38 | the first 112 powers of x modulo the generator are distinct |
| `Powers.PowerAboveLastSeven` | modes_message.h:113-114 | powers of x from the 7th to the 50th are visible above the mask of the last seven bits |
| `Powers.TwoPowersAboveLastSeven` | modes_message.h:113-114 | a sum of two different powers up to the 50th is invisible there if and only if both are below the 7th |
| `Powers.ShortAndLongDiffer` | modes_message.h:157-166 | the syndromes of a bit in 56 and in 112 bits differ above that mask |
| `Crc.SyndromesDiffer` | crc.cc:51-67 | syndromes of different bits of a message differ, so no table entry overwrites another |
| `Crc.FillTable` | crc.cc:51-67 | the loop that flips each bit in place and back builds the table of exactly the syndromes of bits 5 and up |
| `Crc.FlipInPlace` | crc.cc:55-57 | flipping a bit in the array flips that bit of the message |
| `Crc.SyndromeTables.InitSyndromes` | crc.cc:51-67 | both tables are complete and exact afterwards |
| `Crc.SyndromeTables.CorrectableBitShort` | crc.h:71-76 | the lazily filled table yields the bit in 5 to 55 with that syndrome, or -1 if there is none |
| `Crc.SyndromeTables.CorrectableBitLong` | crc.h:78-83 | the same for bits 5 to 111 |
| `Message.Message.CrcResidual` | modes_message.h:148-153 | the cache never changes the answer, although its empty value is a possible word |
| `Message.Message.IsCrcBad` | modes_message.h:111-121 | DF11 is tested above its interrogator code, DF17 and DF18 on all 24 bits, others never |
| `Message.Message.FindCorrectableBit` | modes_message.h:155-174 | the cached bit is the position of the single-bit error that explains the residual |
| `Message.Message.CorrectedData` | modes_message.h:125-145 | the original data if the CRC is good, nothing if it cannot be corrected, else the data with that bit flipped |
| `Message.CorrectionInRangeExactly` | modes_message.h:143 | correction would index past the data for exactly these frames: short, with DF17 or DF18, and a residual that is one of the 56 syndromes of single bits in 56 bits |
| `Correction.SingleBitPastEnd` | modes_message.h:157-166 | one flipped bit in a valid short frame with DF17 or DF18 is such a case: it is located 56 bits too far |
| `Correction.SingleBitRepairedLong` | modes_message.h:111-145 | any one flipped bit in 5 to 111 of a valid DF17 or DF18 frame is detected, located and repaired |
| `Correction.SingleBitRepairedShort` | modes_message.h:111-145 | a flipped bit of a DF11 frame is detected exactly when it is at most 48, and then repaired exactly when the interrogator code was zero |
| `Correction.EvenErrorsNotCorrectable` | modes_message.h:123 | an even number of bit errors in a valid frame is never taken for a correctable one |
| `Correction.TwoBitErrors` | modes_message.h:111-123 | two flipped bits are never miscorrected, and in DF17 and DF18 frames always detected |
| `Correction.TwoBitErrorsShort` | modes_message.h:111-121 | in a DF11 frame with any interrogator code they are detected if and only if the first is at most bit 48 |
| `Correction.BurstErrorsDetected` | modes_message.h:111-121 | every nonzero error within 24 consecutive bits after the DF field of a valid DF17 or DF18 frame is detected |
| `Correction.RepairIsValid` | modes_message.h:125-145 | a repaired frame keeps its DF, and has residual zero, and passes the CRC test, if and only if its length is the one its DF stands for |
| `Correction.CorrectedExactly` | modes_message.h:125-145 | which of the three answers correction gives, for all frames that it indexes in range |
| `Filters.InplaceCombine` | modes_filter.cc:33-44 | the loop and the assignments compute the join |
| `Filters.JoinIsUpperBound` | modes_filter.cc:33-44 | the combined filter is above both filters |
| `Filters.JoinIsLeast` | modes_filter.cc:33-44 | and below every filter that is above both |
| `Filters.Passes` | modes_filter.h:55-77 | the test with cached CRC checks decides acceptance |
| `Filters.AcceptsMonotone` | modes_filter.h:55-77 | a greater filter accepts every message that a smaller one accepts |
| `Distributor.FilterDistributor.UpdateUpstreamFilter` | modes_filter.cc:137-150 | the published filter is the combination of the filters of all clients not deleted |
| `Distributor.FilterDistributor.AddClient` | modes_filter.cc:88-93 | a fresh handle, the new client, and a new published filter |
| `Distributor.FilterDistributor.UpdateClientFilter` | modes_filter.cc:95-109 | unknown and deleted clients and unchanged filters change nothing |
| `Distributor.FilterDistributor.RemoveClient` | modes_filter.cc:111-122 | the client becomes a tombstone and no longer counts for the published filter |
| `Distributor.FilterDistributor.TakeTurn` | modes_filter.cc:126-133 | one client's turn: notified if live and accepting, then erased if it is, or has become, deleted |
| `Distributor.FilterDistributor.Broadcast` | modes_filter.cc:124-135 | the map is visited in key order, clients added on the way included, with notifiers that call back into the distributor |
| `Distributor.RemoveEndsOneLife` | modes_filter.cc:111-122 | after a removal exactly the other live clients are live, with the filters they had |
| `Distributor.UpdateChangesOneFilter` | modes_filter.cc:95-109 | an update gives a live client the new filter; all other filters, and who is live, stay as they are |
| `Distributor.AddStartsOneLife` | modes_filter.cc:88-93 | exactly one client becomes live, under the next handle and with its filter |
| `Distributor.TurnChangesLives` | modes_filter.cc:124-135 | a turn changes lives and filters only as the notifier does, and that runs exactly if the client is live and accepts |
| `Distributor.DeliveredExactlyOnce` | modes_filter.cc:124-135 | a handle is notified, once and in order, if and only if its client is live and accepts at its turn |
| `Distributor.NotifiedExactly` | modes_filter.cc:126-128 | the same for one handle, in terms of its entry and its filter at that moment |
| `Distributor.RemovedForGood` | modes_filter.cc:88-135 | after a removal, whatever follows, re-entrant broadcasts included, the client is never live again |
| `Distributor.RemovedNeverNotified` | modes_filter.cc:124-135 | and no later broadcast notifies it |
| `Distributor.TurnsSettle` | modes_filter.cc:124-135 | once the handles are exhausted nothing more happens |
| `Distributor.LiveClientsStay` | modes_filter.cc:124-135 | a client disappears in a broadcast only if a notifier that ran in it removed that client |
| `Distributor.TombstonesErased` | modes_filter.cc:130-133 | a removed client never returns, and its turn erases it |
| `Distributor.PublishedIsLeastUpperBound` | modes_filter.cc:137-150 | the published filter is below g exactly when every live client's filter is |
| `Distributor.RunKeepsInv` | modes_filter.cc:88-150 | in every run, re-entrant notifiers included, the published filter is up to date and handles are fresh |
| `Distributor.UpstreamServesClients` | modes_filter.cc:88-150 | after any events, what a live client accepts passes the published filter |
| `Settings.StatusByteRoundTrip` | beast_settings.cc:147-152 | printing the settings read from a status byte gives that byte |
| `Settings.StatusByteBits` | beast_settings.cc:147-152 | which bit stands for which setting, what a setting that is not mentioned counts as, and 0 unless it is a Radarcape |
| `Settings.MergePrefersLeft` | beast_settings.cc:131-145 | merging is associative and idempotent, the left side wins, and positionEnable is not merged |
| `Settings.ComputeFromFilter` | beast_settings.cc:35-48 | the constructor with its loop; only DF11, DF17 and DF18 wanted is what turns that filter on |
| `Settings.SettingsSuffice` | beast_settings.cc:35-48 | the settings made for a filter pass all it wants, if and only if it does not want positions, nor DF5 without DF0 and DF4 |
| `Settings.LeastExactly` | beast_settings.cc:35-48 | for filters of clients and joins of them, no settings that pass all that is wanted pass less, status messages aside, if and only if only DF11, DF17 and DF18 are wanted or DF0, DF4 and DF5 are |
| `Settings.FilterLeavesOpen` | beast_settings.cc:35-48 | the settings made for a filter mention nothing that does not select messages, and never switch verbatim off |
| `Settings.AggregatesArise` | beast_settings.cc:154-180 | filters of settings, the status writer's filter and joins of them all want DF0, DF4 and DF5 together and no positions |
| `Settings.Parse` | beast_settings.cc:50-129 | in a settings string the last mention of each setting counts, and the result is self-consistent |
| `Commands.CommandLetters` | beast_output.cc:94-140 | for every byte, a command does what that letter does in a settings string, except g and G on a Beast, k, K, B and R |
| `Commands.CommandsRoundTrip` | beast_settings.cc:193-214 | settings printed as commands and read in any chunks, whatever the receiver types on the two sides, give the merge on the transmitted fields, with g and G in the reader's meaning, and leave the others alone |
| `Commands.MessageRoundTrip` | beast_output.cc:94-140 | the same unchunked |
| `Commands.TransmittedIsMerge` | beast_settings.cc:131-145 | for receiver types that agree this is the merge, g and G meaning GPS timestamps for a Radarcape and DF0/4/5 for a Beast |
| `Commands.ReadChunksIsReadBytes` | beast_output.cc:61-84 | command reading resumes at any byte boundary |
| `Commands.ReadGrammar` | beast_output.cc:61-84 | for arbitrary bytes: what is skipped, and what makes a command of which byte |
| `Link.BeastInput.SendSettingsMessage` | beast_input.cc:91-112 | sends what is wanted when it differs from what was sent, and remembers it only if it could be written |
| `Link.BeastInput.ConnectionEstablished` | beast_input.cc:47-75 | forgets the old connection and configures the new one |
| `Link.BeastInput.SetFilter` | beast_input.cc:114-119 | a changed filter, and only that, is sent on |
| `Link.BeastInput.AutodetectTimerExpired` | beast_input.cc:65-72 | without a status message in time the receiver counts as a Beast |
| `Link.BeastInput.StatusMessageSeen` | beast_input.cc:268-274 | the first status message makes the receiver a Radarcape and sends the g or G setting |
| `Link.ForcedSettingsPrevail` | beast_input.cc:91-112 | over every run of a link, whatever clients ask for, the other side has every forced setting as forced; binary format is always on; flow control is always on for serial links, and for others exactly as forced |
| `Link.StaysCurrent` | beast_input.cc:91-119 | from a connect on, while writes succeed, the settings sent are those wanted for the latest filter and receiver type |
| `Link.RunKeepsInv` | beast_input.cc:91-112 | whichever writes succeed, the remembered settings are the last ones written, and no write repeats the one before |
| `Link.ReconnectStartsAfresh` | beast_input.cc:47-75 | a reconnect depends on nothing that was sent or detected before |
| `Link.SendsExactly` | beast_input.cc:91-119 | which event sends what: the wanted settings, if they are new and can be written |
| `Link.ReceiverFromEvents` | beast_input.cc:47-75 | over every run, the receiver type from the last event about it: as forced, or unknown, after a connect; a Beast after the timer; a Radarcape after a status message |
| `Link.FilterFromEvents` | beast_input.cc:114-119 | over every run, the filter is the one that was set last |
| `Link.SentReceiverType` | beast_input.cc:91-112 | while writes succeed the other side is addressed as a Radarcape exactly if that is forced or a status message came last |
| `Deframer.BeastInput.ParseInput` | beast_input.cc:121-249 | the buffer loop equals the byte-per-step automaton, terminates, and good sync implies no bad bytes, which never exceed the bytes since the last good message |
| `Deframer.BeastInput.ScanForFrame` | beast_input.cc:127-147 | the look-ahead scan of RESYNC |
| `Deframer.BeastInput.ExpectFrame` | beast_input.cc:149-158 | READ_1A: lost sync consumes nothing |
| `Deframer.BeastInput.ExpectType` | beast_input.cc:160-173 | READ_TYPE: an unknown type loses sync and consumes nothing |
| `Deframer.BeastInput.ReadMessage` | beast_input.cc:175-209 | READ_DATA with its inner loop over escapes |
| `Deframer.BeastInput.ExpectEscape` | beast_input.cc:211-237 | READ_ESCAPED_1A: an escape cut in two by a read |
| `Deframer.BeastInput.ConnectionEstablished` | beast_input.cc:52-55 | a new connection starts in READ_1A without good sync |
| `Deframer.TypeTable` | beast_input.h:46-61 | the message type and the length that each of the 256 bytes announces |
| `Deframer.FeedKeepsValid` | beast_input.cc:121-249 | whatever the input, every message has seven bytes of metadata and the data of its type |
| `Deframer.FeedConcat` | beast_input.cc:121-249 | parsing a and then b is parsing a followed by b |
| `Deframer.ChunksDoNotMatter` | beast_input.cc:121-249 | how a stream is cut into reads makes no difference to messages and parser state |
| `Framing.Dispatcher.DispatchMessage` | beast_input.cc:265-315 | status messages set the timestamp type first, nothing is passed on before the receiver type is known, and position messages, alone, become longer than a message may be |
| `Framing.DispatchKnown` | beast_input.cc:287-315 | with the receiver type known, all messages are passed on as decoded |
| `Framing.DispatchUnknown` | beast_input.cc:268-288 | with the receiver type unknown, exactly those from the first status message on, with the right timestamp types whatever was believed |
| `Framing.TimestampIsBigEndian` | beast_input.cc:308 | the timestamp is the number in the first 48 bits of the metadata, most significant first |
| `Framing.TimestampRoundTrip` | beast_output.cc:250-255 | printed 48-bit timestamps decode to themselves |
| `Framing.PositionsAreSpecial` | beast_input.cc:302-311 | position messages are printed without metadata and under no type, and decoded with the metadata as data |
| `Framing.FramingRoundTrip` | beast_output.cc:238-263 | printing any frames and deframing them in any chunks gives the same frames, with the timestamp types their status messages announce, in good sync |
| `Framing.FeedAll` | beast_input.cc:149-237 | from READ_1A, whatever was parsed before, all printed frames are recovered and counted |
| `Framing.HuntFromWithin` | beast_input.cc:127-147 | a scan that starts anywhere in a message body, even between the halves of an escape, takes nothing for a frame |
| `Framing.ResyncIsExact` | beast_input.cc:127-193 | from RESYNC at any byte, exactly the frames from the first lockable one on come out: the first that starts later and whose preceding byte is not 0x1A |
| `Framing.ResyncIsExactInChunks` | beast_input.cc:121-249 | the same for any cutting into reads |
| `MidStream.ConnectIsExact` | beast_input.cc:149-173 | from READ_1A at any byte that does not look like the start of a frame, exactly the frames come out that RESYNC would have recovered |
| `MidStream.OpensExactly` | beast_output.cc:238-242 | inside a printed frame, exactly the second half of an escape before a type byte looks like the start of a frame |
| `MidStream.OpensInFrame` | beast_output.cc:244-260 | and nothing across the border of two frames does |
| `MidStream.FalseFrameExactly` | beast_input.cc:149-209 | a start inside a frame gets a message out of it if and only if it falls on such a byte and enough of the body follows for that type |
| `MidStream.ConnectOnEscape` | beast_input.cc:149-237 | from such a byte, at most one false message, cut out of the body, and then exactly the frames from the first one on that the parser is ready for |
| `MidStream.FalseLock` | beast_input.cc:149-173 | a long frame whose data starts with 0x1A 0x31 gives a Mode A/C message that was never sent |
| `Timestamps.ToGpsExact` | beast_output.cc:169-175 | nothing overflows for 48-bit input; the result is a valid 48-bit GPS time of day |
| `Timestamps.ToTwelveMegExact` | beast_output.cc:176-183 | nothing overflows for 48-bit input; the result is the rounded-down tick |
| `Timestamps.TwelveMegRoundTrip` | beast_output.cc:168-183 | 12MHz to GPS and back is the time of day, one tick short unless 3 divides it |
| `Timestamps.RoundTripsSettle` | beast_output.cc:168-183 | any number of round trips loses at most two ticks, and from the second on the value stays at the multiple of 3 below |
| `Timestamps.GpsRoundTrip` | beast_output.cc:168-183 | a valid GPS time loses an exactly stated 0 to 83 ns |
| `Timestamps.ToGpsMonotone` | beast_output.cc:169-175 | within a day the order of 12MHz timestamps is kept |
| `Timestamps.ToTwelveMegMonotone` | beast_output.cc:176-183 | and the order of GPS timestamps |
| `OutputBuffer.RunKeepsInv` | beast_output.cc:198-236 | in every interleaving at most one asynchronous write is outstanding, delivered bytes are a prefix of the written ones, and until a write fails nothing is lost, repeated or reordered |
| `OutputBuffer.PostedFlushWrites` | beast_output.cc:212-214 | a posted flush always finds data: its early return is never taken |
| `OutputBuffer.NextWriteFlushes` | beast_output.cc:205-236 | the first write after a completion sends everything buffered |
| `OutputBuffer.NothingAfterClose` | beast_output.cc:142-144 | after closing or a failed write, whatever follows, nothing is written |
| `OutputBuffer.IdleDelivery` | beast_output.cc:220-235 | when nothing is pending, everything written has been delivered if and only if nothing was written since the last flush |
| `OutputBuffer.LateWriteWaits` | beast_output.cc:220-235 | a run in which data written during an asynchronous write stays in the buffer |
| `Output.SocketOutput.ProcessCommands` | beast_output.cc:61-92 | the loop reads the commands, and the notifier is called at most once a read and always with the latest settings |
| `Output.SocketOutput.PrepareWrite` | beast_output.cc:198-203 | buffered bytes are kept |
| `Output.SocketOutput.CompleteWrite` | beast_output.cc:205-210 | a flush is posted exactly if none is pending and there is data |
| `Output.SocketOutput.FlushOutbuf` | beast_output.cc:212-220 | the whole buffer becomes one asynchronous write |
| `Output.SocketOutput.WriteDone` | beast_output.cc:220-236 | a completion, successful or not, clears the flag and keeps bytes that arrived meanwhile |
| `Output.SocketOutput.WriteBinary` | beast_output.cc:244-263 | appends exactly the printed frame |
| `Output.SocketOutput.WriteMessage` | beast_output.cc:168-196 | the timestamp translation and the output format that the settings ask for |
| `Output.PrintedExactly` | beast_output.cc:187-195 | the output format from the three-valued settings: binary and timestamps unless switched off, and no text for status and position messages |
| `Output.HexReadsBack` | beast_output.cc:267-271 | the hexadecimal digits of any bytes read back to these bytes |
| `Output.TextReadsBack` | beast_output.cc:273-301 | both text lines have their marks and their length, and their digits read back to the data, and to the timestamp before it |
| `Output.SocketOutput.Write` | beast_output.cc:142-166 | status data is rewritten, other data corrected if wanted and possible, and nothing is written to a closed socket |
| `EndToEnd.SelectedExactly` | beast_settings.cc:154-180 | for all three-valued settings, exactly the messages of each type that a client with these settings is sent |
| `EndToEnd.StatusWriterSelects` | status_writer.cc:44-46 | its client is sent status messages and nothing else |
| `EndToEnd.OtherFormatsUnchecked` | modes_message.h:111-121 | messages of all formats but DF11, DF17 and DF18 pass every filter that wants their format, and reach every client as received |
| `EndToEnd.SentDataExactly` | beast_output.cc:161-165 | for all settings, the data that a client is sent of any message but status ones: repaired exactly if it fails the check, can be repaired, and neither verbatim nor fec_disable is on |
| `EndToEnd.DamagedBitRepaired` | beast_output.cc:161-165 | every client with neither of these on gets the original of a valid frame with one damaged bit, crc_disable or not; of a DF11 frame only up to bit 48 |
| `EndToEnd.TranslatedIfNeeded` | beast_output.cc:168-185 | a timestamp is translated if and only if its format changes, and one of no known format is left alone |
| `EndToEnd.CleanData` | beast_output.cc:161-165 | a client without crc_disable and verbatim is sent data changed in at most one bit and never in the DF field, and it passes the CRC test if and only if it did as received or its length is the one its DF stands for |
| `EndToEnd.CleanStream` | modes_filter.h:55-77 | nothing in such a client's stream fails the CRC test, if and only if no frame it accepts fails it at a length that its DF does not have |
| `EndToEnd.SentKeepsTime` | beast_output.cc:168-185 | for all settings and all 48-bit timestamps, the timestamp sent stands for the original time, whole days apart, or at most 83 ns less |
| `EndToEnd.SentGpsExactly` | beast_output.cc:168-185 | which clients are sent GPS timestamps, from the three-valued settings and what the receiver sends |
| `EndToEnd.StatusOverridden` | beast_output.cc:146-160 | the client's settings override the reported ones; the emulation flags are set for a client that wants GPS timestamps the receiver does not send, which for self-consistent settings is exactly when they are translated to GPS; all other bytes stay |
| `EndToEnd.StatusAnnounces` | beast_output.cc:146-158 | the rewritten status byte announces exactly the timestamps that the client is sent |
| `EndToEnd.UnannouncedIsTwelveMeg` | beast_settings.cc:174 | a client that gets no status messages is never sent GPS timestamps |
| `EndToEnd.StreamAnnounced` | beast_output.cc:142-185 | if the receiver's stream announces its timestamp types, so does every client's filtered and translated stream |
| `EndToEnd.ChainedStream` | beast_output.cc:142-263 | a downstream splitter decodes exactly the messages sent, types included, if and only if it starts with the right timestamp type or a status message comes first |
| `EndToEnd.NewConnectionBelief` | beast_input.cc:51 | for receivers with and without GPS timestamps, the settings for which the 12MHz timestamps that a new connection assumes decode the stream correctly from its first message |
| `EndToEnd.ChainedNotified` | beast_input.cc:265-315 | what a downstream splitter passes on of a client's stream: that stream under the same condition if it knows the receiver type, and the stream from its first status message on if it does not |
| `EndToEnd.DeliveredPrefix` | beast_output.cc:244-263 | the messages in any prefix of printed frames are the first of these frames |
| `Session.DeliveredIsSent` | beast_output.cc:61-263 | over every run of messages, commands, flushes, completions and closing, with binary output, what was delivered deframes to the first messages sent, each as the settings at its own time asked for |
| `Session.RunKeepsInv` | beast_output.cc:142-263 | in every such run the bytes written are the printed messages sent |
| `Session.SentIsStream` | beast_output.cc:350-352 | on an open connection without commands, the messages sent are the filtered and translated stream |
| `Chain.CommandsKeepConsistent` | beast_output.cc:94-140 | no bytes from a client make its settings inconsistent or change its receiver type |
| `Chain.PublishedIsAggregate` | status_writer.cc:44-46 | with clients that register settings filters or the status writer's, the published filter is always such an aggregate |
| `Chain.TransmittedAccepts` | beast_settings.cc:154-214 | a filter sent upstream as commands, whatever the receiver types on the two sides, lets through what the filter accepts but for exactly two losses: status messages for a Beast's client, and DF0, DF4 and DF5 when a G for GPS timestamps is read by a client that is not a Radarcape's |
| `Chain.OpenReceiverLoses` | beast_output.cc:114-118 | a client with default settings behind a connection with the receiver type left open: it is sent status messages, and loses DF0, DF4 and DF5 |
| `Chain.ChainLosesExactly` | beast_input.cc:91-112 | after any events downstream, of the messages that a live client accepts, exactly those pass the upstream client's filter that are not lost in these ways, and exactly those reach the live client that are not lost in upstream repair either |
| `Chain.ChainedRunLosesExactly` | beast_input.cc:47-119 | the same over any run of the link and all that was written on it |
| `Chain.WireDecides` | beast_output.cc:61-84 | of any number of settings messages read in a row, for whatever receiver types, the last one decides |
| `Relay.AfterRepair` | modes_message.h:125-145 | what correction leaves is good exactly if the length suits the DF, and never correctable again |
| `Relay.StillAccepted` | modes_filter.h:55-77 | a filter that accepts a message accepts what another splitter sends of it, if and only if it does not mind bad data, nothing was changed, or the length suits the DF |
| `Relay.SameDataExactly` | beast_output.cc:161-165 | when a client behind a splitter gets the same data of a Mode S message as one connected directly, for all settings of both |
| `Autobaud.RunIsSafe` | beast_input_serial.cc:117-225 | with automatic rates, in every order of events: nothing is dispatched but at a rate that was accepted and is still in force, the rate is the list entry reached since the last error, and the interval doubles per cycle up to 16 seconds |
| `Autobaud.EarnedExactly` | beast_input_serial.cc:214-223 | a dispatched message was earned by four good messages in a row, right before the rate in force was accepted, if and only if none counted before the hunt was carried over into it |
| `Autobaud.EarnedUnlessLate` | beast_input_serial.cc:117-138 | so all are, if no message is read between the start of a hunt and the next connection start or lost sync |
| `Autobaud.LateMessage` | beast_input.cc:77-89 | a run in which one is not: an I/O error does not reset the count, and a message read before it is parsed after it |
| `Autobaud.StepKeepsInv` | beast_input_serial.cc:117-225 | every event keeps these facts |
| `Autobaud.SerialInput.constructor` | beast_input_serial.cc:40-51 | a fixed rate turns the hunt off for good |
| `Autobaud.SerialInput.HandleError` | beast_input_serial.cc:117-138 | an I/O error restarts the hunt from the first rate and the shortest interval |
| `Autobaud.SerialInput.AdvanceAutobaud` | beast_input_serial.cc:140-153 | the next rate, or the first with a doubled interval, and a new connection |
| `Autobaud.SerialInput.CheckFramingErrors` | beast_input_serial.cc:155-170 | more than 1000 bytes without good sync restart the hunt |
| `Autobaud.SerialInput.SawGoodMessage` | beast_input_serial.cc:214-223 | the fourth good message accepts the rate |
| `Autobaud.SerialInput.MessageRead` | beast_input_serial.cc:225 | nothing is dispatched while the hunt goes on |
| `Autobaud.TimerMovesOn` | beast_input_serial.cc:140-153 | a timer during a hunt: the other rate of the list, an interval doubled up to 16 seconds after a full cycle, and nothing counted; the first rate and shortest interval if the port does not open |
| `Autobaud.TimerIgnored` | beast_input_serial.cc:140-142 | without a hunt the timer changes nothing |
| `Autobaud.HuntRestarts` | beast_input_serial.cc:155-170 | a hunt begins at the end of a read, by moving on in the same way, exactly if more than 1000 bytes have come without good sync |
| `Autobaud.ReadOnlyCounts` | beast_input_serial.cc:155-170 | during a hunt or with a fixed rate the end of a read only counts |
| `Autobaud.MessageCounts` | beast_input_serial.cc:214-225 | the fourth message ends a hunt, and a message is dispatched exactly if no hunt goes on and the receiver type is known |
| `Autobaud.ErrorStartsOver` | beast_input_serial.cc:117-138 | an I/O error, or a port that does not open, starts a hunt from the first rate; fixed rates stay, and so does the count of messages |
| `Autobaud.ConnectionStartsAfresh` | beast_input.cc:47-75 | a new connection has nothing counted and keeps rate and interval |
| `Autobaud.OtherEvents` | beast_input.cc:77-89 | what a lost connection, lost sync and a detected receiver change |
| `Autobaud.NewInput` | beast_input_serial.cc:40-51 | a new input hunts exactly if no rate is fixed, from the first rate and the shortest interval |

## Left out

- Sockets, resolvers, acceptors, serial port options and real timers: they appear only as events (bytes arrived, write completed with n bytes or an error, timer fired, port could or could not be opened).
- `SocketListener` and `SocketConnector`: only that a client's filter is always the filter of its current settings, and that the settings notifier reports every change.
- `splitter_main.cc`, option parsing, logging and stream printing.
- `status_writer.cc`: only its filter, as one more client; its JSON output is a flat list of decisions.
- Position messages beyond dispatching: the output has no type byte for them (beast_output.h:51), and dispatching one glues seven bytes of metadata to 14 of data although the message constructor asserts 14 (beast_input.cc:306, modes_message.h:87). Settings never ask for them.
- The text formats: the repository has no reader of them, so `Output.TextReadsBack` reads back a line's digits, not a stream of lines.
- `tristate::operator+` and `apply_defaults`, which have no callers.
- Handles and counters are unbounded, so their wrap-around at 2^32 is not modelled.
- Shifts and masks on timestamps are multiplications, quotients and remainders; the 64-bit wrap-around of products and sums is written out.
- The serial read loop's buffer recycling and scheduling of reads, and the warning about a wrong fixed rate.
- `Message.Message.CorrectedData`: is not promised for the frames of `Message.RunsPastEnd`. The source picks the syndrome table by DF and not by length, and indexes the data with the bit it finds; for a frame of seven bytes with DF17 or DF18 and one of 56 residuals that bit is past the end, and C++ does not say what happens. `Message.CorrectionInRangeExactly` proves that these are the only such frames.
- `Output.SocketOutput.Write`: is not promised for the same frames, when correction is not switched off; nor are `EndToEnd.CleanData` and the theorems on streams, which ask for nothing else.
- `EndToEnd.ChainedStream`: is about one client's settings; commands that change them in the middle of a stream are in `Session.dfy`, which does not decode timestamp types.
- `Autobaud.SerialInput.MessageRead`: messages and lost sync are events here; that the parser produces them as bytes arrive is proved separately in `Deframer.dfy`.
- `Link.BeastInput.AutodetectTimerExpired`: may happen at any time, also where the source has cancelled the timer.
- `Link.BeastInput.ConnectionEstablished`: is the part that concerns settings; the parser's part is `Deframer.BeastInput.ConnectionEstablished`.

Where the code and its documentation differ, the model follows the code:

- A filter that wants DF5 but neither DF0 nor DF4 turns the DF0/4/5 filter on, because the third test in `Settings(Filter)` lacks a negation (beast_settings.cc:35). `Settings.SettingsSuffice` says exactly when that matters, and `Settings.AggregatesArise` that filters of clients never get there.
- The same test asks for DF0, DF4 and DF5 also when no client wants them, as soon as some format other than DF11, DF17 and DF18 is wanted (beast_settings.cc:35); `Settings.LeastExactly` says that this is the only excess, status messages aside.
- With the receiver type left open, g and G set the DF0/4/5 filter (beast_output.cc:115-118) while status messages are still forwarded (beast_settings.cc:174), so that a splitter behind such a connection takes it for a Radarcape's. Nothing warns of this where the README describes chains; `Chain.OpenReceiverLoses` shows the loss, and `Chain.ChainLosesExactly` says exactly what is lost for every pair of receiver types.
- The repository's own README (lines 33-35) says that hardware handshake cannot be overridden; only serial inputs enforce it (beast_input_serial.cc:227-232), and `Link.ForcedSettingsPrevail` says what others do.
- A new connection parses from READ_1A (beast_input.cc:55), as if every stream began at the start of a frame; `MidStream.FalseFrameExactly` says when that makes up a message.
- An I/O error restarts the hunt for the baud rate without resetting the count of good messages (beast_input_serial.cc:117-138, beast_input.cc:77-89); `Autobaud.EarnedExactly` says when that matters.
- A completed write does not flush what accumulated meanwhile (beast_output.cc:220-235); `OutputBuffer.IdleDelivery` says exactly when data waits.
