# Verified models of the WICED SDK's small stateful algorithms

This project models, in Dafny 4.11, eight pieces of the WICED SDK that are plain C loops over buffers and
static state, and proves what they are for. Each method keeps the loops, branches, constants and integer
widths of the C function it models and is proved against a specification function; the lemmas beside it say
what that function means, over all inputs and over whole runs.

    dafny verify dfyconfig.toml

| file | subject |
|---|---|
| `Words.dfy`, `Crc32.dfy`, `CrcPolynomial.dfy`, `CrcErrors.dfy` | 32-bit words over GF(2); the bitwise CRC-32 and its algebra, its meaning as a polynomial remainder, and exactly which errors it detects |
| `Well512.dfy`, `Prng.dfy` | the WELL512 transition against its published recurrence; entropy input, reseed counter and byte filler |
| `Wildcard.dfy` | the greedy wildcard matcher against the exhaustive meaning of a pattern |
| `Numerals.dfy`, `NumberText.dfy`, `DottedQuad.dfy` | positional numerals; number printers and parsers; the IPv4 address parser |
| `Calendar.dfy`, `Iso8601.dfy`, `Clock.dfy` | the Gregorian calendar; the ISO 8601 text; the clock over a wrapping tick |
| `Network.dfy`, `TcpStream.dfy`, `SendBuffer.dfy` | packets and their fate; the buffered TCP stream; buffers split into packets and TLS records |
| `Cooee.dfy` | out-of-order reassembly with a segment bitmap |
| `SystemMonitor.dfy` | the watchdog's monitors |
| `StationLink.dfy` | the station link state machine |
| `Common.dfy` | what several of these share |

## How the environment is modelled

Ticks and cycle counts are arguments. The network is a list of the packet spaces still to be allocated and of
the fates of the sends still to come, so that every network is covered by some pair of lists; the packets offered
to it, each sent or failed, and the packets that will be received are lists too. TLS encryption is an arbitrary
codec whose decoding undoes its encoding up to the negotiated length.
Whether a join succeeds is an arbitrary function of the attempt. A C string is the sequence of characters before
its terminator. Static C state is a class with those fields; true time, histories and logs exist only in the run
models, except that the station keeps as a field the row of its posts to the worker, with notes of the occasions
for them (an error callback, for instance, requires that one has been posted and not yet run). Every lemma about
runs is a statement about the same functions the methods are proved against.

## Where the code and a natural law part

Each of these is a theorem with the exact condition.

- A stream write reports success although it dropped bytes, for some network, exactly when it is given more than
  65535 bytes; 65536 if every packet has some space and no failed send has left its length behind. The 32-bit
  remaining count is cut to 16 bits after each copy (`TcpStream.SuccessIsCompleteIff`, with runs that lose bytes in
  `TcpStream.LongWriteLoses` and `TcpStream.RoundWriteLoses`).
- A write offers an empty packet to the network exactly when it was allocated no space, or when a failed send of a
  packet full by the TLS limit left its length behind (`TcpStream.EmptyOfferIff`), as one during a write does and one during a flush does not
  (`TcpStream.SessionCounts`).
- The ISO 8601 fraction is right exactly for the first 66 milliseconds of a second; the microseconds are narrowed
  to 16 bits (`Iso8601.FractionExactIff`).
- A print width beyond ten decimal or eight hexadecimal places is clamped to the size of the digit buffer, which
  counts its terminator, so the value 0, if padded at all, gets a NUL for its last digit. The documentation limits the
  width to ten and eight; the code does not (`NumberText.PrintedDenotes`).
- A digit run is read with its true value exactly if that fits in 32 bits (`NumberText.UnsignedExactIff`). The limit is
  tested before a digit is added, so the number may overflow and reading go on (`NumberText.ParseReads`).
- Signed printing is undone by parsing exactly when the width holds the digits and the sign and anything is
  printed, at every width up to ten (`NumberText.SignedRoundTrip`); in one to ten places that leaves out the values below -999999999
  (`NumberText.SignedRoundTripFullWidth`).
- The random source powers up all zero. One four-byte cycle count, and no other, leaves it so at the first reseed
  (`Prng.ReseedFromZero`).
- Burst detection stops at 32 bits: of the errors within 33 bits one is missed, the generator
  (`CrcErrors.LongBurstUnnoticedIff`; over five bytes in `Crc32.BurstBoundIsTight`).
- The clock is right exactly when every get since the last set came less than 2^32 ms after the call before it
  (`Clock.ClockIsIdealIff`); a late one loses the whole wraps in its wait (`Clock.LateCallLoses`).
- The watchdog's scans decide rightly in every run exactly when the gap between scans and the longest delay together
  stay below 2^32 ms (`SystemMonitor.SafeTimingIff`, with a run that deceives it in `SystemMonitor.Deception`).
- The wildcard matcher steps past the pattern's terminator exactly when a terminator inside the given length follows
  a part of the string that the whole pattern matches, and the pattern does not end in a star
  (`Wildcard.MatchStringWithWildcardPattern`, with a case in `Wildcard.EmptyPatternOverruns`).
- Cooee's comment says that only the first sender is listened to; the code only records that sender. A frame from
  another sender is ignored exactly when any sender's would be: after completion, when it carries nothing that can
  be taken, or when its segment is there already (`Cooee.OtherSenderIgnoredIff`, with two frames that are both
  stored in `Cooee.TwoSenders`).
- Cooee's size test keeps the frames of a kind inside the buffer exactly when the beacon's size and the kind's offset
  come to 81 or more, and never those shorter than a frame without data, down to the 16-bit wrap
  (`Cooee.TestSufficesIff`, `Cooee.InBufferIff`, with a frame outside in `Cooee.ShortFrameOutside`).

## Model

| member | source | states |
|---|---|---|
| Crc32.Crc32Calc | WICED/internal/wiced_crypto.c:95-120 | The two nested loops compute the CRC of the first `bufferLength` bytes, from any previous value |
| Crc32.CrcConcat | WICED/internal/wiced_crypto.c:95-120 | A message may be fed in pieces: the CRC of a concatenation is the CRC of the second part started from the first part's CRC |
| Crc32.UpdateLinear | WICED/internal/wiced_crypto.c:99-117 | Register and message together are linear over GF(2) |
| Crc32.CrcAffine | WICED/internal/wiced_crypto.c:95-120 | The exclusive-or of three CRCs of equal-length messages is the CRC of their exclusive-or |
| Crc32.UpdateIsPacked | WICED/internal/wiced_crypto.c:104-117 | Up to four bytes absorbed one by one equal one exclusive-or of a 32-bit word followed by all their shifts |
| Crc32.BurstDetected | WICED/internal/wiced_crypto.c:95-120 | Two equal-length messages that differ, and only inside four consecutive bytes, never share a CRC, whatever surrounds the bytes and whatever the previous value |
| Crc32.BurstBoundIsTight | WICED/internal/wiced_crypto.c:95-120 | Five bytes are too many: a five-byte message other than zero has the CRC of five zeros |
| CrcPolynomial.CrcIsRemainder | WICED/internal/wiced_crypto.c:95-120 | With previous value 0, the complemented CRC is the remainder of the message polynomial (first 32 bits complemented, times x^32) modulo the generator given by its exponents, as in section 8 of RFC 1952 |
| CrcPolynomial.RemainderUnique | WICED/internal/wiced_crypto.c:95-120 | There is only one such remainder, so the CRC is determined by that description |
| CrcPolynomial.BitUpdateDivides | WICED/internal/wiced_crypto.c:108-116 | Bit by bit the register is the remainder of a long division whose quotient is the sequence of bits shifted out |
| CrcErrors.SameCrcIff | WICED/internal/wiced_crypto.c:95-120 | Two messages of one length have the same CRC, from any previous value, if and only if the polynomial of their difference times x^32 is a multiple of the generator |
| CrcErrors.BitBurstDetected | WICED/internal/wiced_crypto.c:95-120 | Errors within 32 consecutive bits, wherever they start, always change the CRC |
| CrcErrors.LongBurstUnnoticedIff | WICED/internal/wiced_crypto.c:95-120 | Errors within 33 consecutive bits leave the CRC as it was in one case only: when they are the generator's pattern |
| Well512.NextLinear | WICED/internal/wiced_crypto.c:122-157 | A draw from the word-wise sum of two states is the sum of the draws |
| Well512.RunLinear | WICED/internal/wiced_crypto.c:122-157 | So is any number of draws |
| Well512.NextInjective | WICED/internal/wiced_crypto.c:139-149 | State and position before a draw can be recovered from those after it |
| Well512.RunKeepsNonZero | WICED/internal/wiced_crypto.c:122-157 | Over any run of draws the state ends all zero if and only if it began so; the index stays below 16 |
| Well512.NextIsRecurrence | WICED/internal/wiced_crypto.c:139-151 | The in-place draw around the ring of sixteen is one step of the published WELL512 recurrence, matrix by matrix, on the window of words from the current one; the word returned is the newest |
| Well512.RunIsRecurrence | WICED/internal/wiced_crypto.c:122-157 | Any number of draws is as many steps of that recurrence |
| Prng.RandomSource.constructor | WICED/internal/wiced_crypto.c:78-81 | Power-up: an all-zero state and a full reseed counter |
| Prng.RandomSource.GetRandom | WICED/internal/wiced_crypto.c:122-157 | The in-place draw leaves exactly the next state and returns the word written last |
| Prng.RandomSource.AddEntropy | WICED/internal/wiced_crypto.c:159-181 | The two loops add sixteen chained checksums of the buffer to the sixteen words, the position unchanged |
| Prng.ChainIsCopies | WICED/internal/wiced_crypto.c:167-171 | The i-th checksum is the CRC of i + 1 copies of the buffer in a row |
| Prng.EntropyCancels | WICED/internal/wiced_crypto.c:159-181 | Adding the same entropy twice changes nothing |
| Prng.ReseedFromZero | WICED/internal/wiced_crypto.c:159-181 | Four bytes of entropy take the power-up generator out of the all-zero state for good, except for exactly one value |
| Prng.RandomSource.IsAddCyclecntEntropy | WICED/internal/wiced_crypto.c:183-202 | Whether a request reseeds, and the counter after it |
| Prng.ReseedCadence | WICED/internal/wiced_crypto.c:183-202 | Over any requests: the counter is the total of bytes modulo 1024; a request reseeds if and only if it is the first or the one before it reached a multiple of 1024 in the total; one that does not reseed starts with fewer than 1024 bytes since the last reseed |
| Prng.RandomSource.AddCyclecntEntropy | WICED/internal/wiced_crypto.c:204-211 | The cycle count is stirred in exactly when the counter asks for it, and changes nothing otherwise |
| Prng.RandomSource.CryptoGetRandom | WICED/internal/wiced_crypto.c:213-236 | Exactly n bytes are written, the first n of the little-endian stream of successive draws from the generator as it is after the reseed, if one is due; the generator has made ceil(n/4) draws; the rest of the buffer is unchanged |
| Prng.PutWord | WICED/internal/wiced_crypto.c:224-232 | One draw fills up to four bytes, lowest first, and nothing else |
| Prng.StirredIs | WICED/internal/wiced_crypto.c:159-181 | Stirring adds to word i the CRC of i + 1 copies of the bytes, and leaves the position |
| Prng.RunOfRequests | WICED/internal/wiced_crypto.c:159-236 | After any requests from power-up the generator is the one obtained by mixing in the little-endian cycle count at exactly the requests that are due, by the total of bytes before them, with ceil(n/4) draws after each |
| Prng.LastOutput | WICED/internal/wiced_crypto.c:213-236 | Every byte handed out is byte k mod 4, lowest first, of word k/4 + 1 of the published recurrence from there |
| Prng.FirstRequestZeroIff | WICED/internal/wiced_crypto.c:204-236 | After the first request from power-up, whatever its length, the generator is all zero if and only if the cycle count is 0x6DD90A9D |
| Prng.FirstRequest | WICED/internal/wiced_crypto.c:204-236 | The same of a new object on which the request is made |
| Wildcard.MatchStringWithWildcardPattern | WICED/internal/wiced_lib.c:314-383 | Steps past the pattern's terminator if and only if `Overruns` holds, and otherwise returns 1 if and only if the string is in the pattern's language; terminates by (pattern left after the latest star, restart place, length left), wrap of the saved length included |
| Wildcard.TerminatedMatches | WICED/internal/wiced_lib.c:314-383 | A matcher that took the terminator for a character would match exactly the strings in which a terminator follows a part that the whole pattern matches |
| Wildcard.EmptyPatternOverruns | WICED/internal/wiced_lib.c:325-334 | A concrete overrun: the empty pattern against one terminator |
| Wildcard.NoOverrun | WICED/internal/wiced_lib.c:314-383 | No overrun without a terminator inside the string, nor with a pattern that ends in a star |
| Wildcard.LatestStarSuffices | WICED/internal/wiced_lib.c:341-352 | Forgetting the earlier backtrack point at a new star loses no match |
| Wildcard.MismatchMovesOn | WICED/internal/wiced_lib.c:367-372 | A mismatch rules out the present restart place and no other |
| Wildcard.ExhaustedString | WICED/internal/wiced_lib.c:339-382 | When the string is used up, no later restart can match, so only the rest of the pattern counts |
| Wildcard.FromStretch | WICED/internal/wiced_lib.c:354-366 | Matching a star-free stretch is fitting it character by character and matching what follows |
| Numerals.NibbleRoundTrip | include/wiced_utilities.h:335-374 | The digit printed for a nibble is read back as that nibble, in both radices |
| Numerals.DigitMeaning | include/wiced_utilities.h:335-374 | Each nibble is written as its upper-case digit, and read from either case |
| Numerals.DigitsAre | include/wiced_utilities.h:335-374 | No other character is a digit |
| Numerals.DigitsDenoteModulo | WICED/internal/wiced_lib.c:198-288 | The lowest w digits denote the number modulo the w-th power of the radix |
| Numerals.DigitsExact | WICED/internal/wiced_lib.c:198-288 | They denote the number itself if and only if it has at most w digits |
| NumberText.UnsignedToDecimalString | WICED/internal/wiced_lib.c:198-224 | Writes the printed text and a terminator at the output, nothing else, and returns its length max(min, min(max, digits)); nothing for a null output |
| NumberText.SignedToDecimalString | WICED/internal/wiced_lib.c:239-252 | The same with a sign that takes one place of the maximum |
| NumberText.UnsignedToHexString | WICED/internal/wiced_lib.c:268-288 | The same in hexadecimal |
| NumberText.PrintedDenotes | WICED/internal/wiced_lib.c:198-288 | The printed digits denote the value modulo the power of the radix for their length, if and only if the width stays inside the digit buffer's places or the value is not 0 or nothing is padded |
| NumberText.PrintedModuloLimit | WICED/internal/wiced_lib.c:198-288 | Under the same condition, and only then, they denote the value modulo the power of the radix for the width limit asked for |
| NumberText.WidestPrints | WICED/internal/wiced_lib.c:198-288 | Ten decimal and eight hexadecimal places hold every 32-bit value |
| NumberText.PrintedShape | WICED/internal/wiced_lib.c:198-288 | What is printed lies between the widths, is made of upper-case digits, has no zero in front beyond the minimum width if all digits fit, and the maximum width if they do not |
| NumberText.SignedShape | WICED/internal/wiced_lib.c:239-252 | A number below 0 is a minus and the digits of its absolute value in one place less, and any other its digits without a sign; in no place nothing is printed |
| NumberText.StringToGeneric | WICED/internal/wiced_lib.c:55-97 | The parsing loop, with its refusal of further digits and its 8-bit count |
| NumberText.UnsignedExactIff | WICED/internal/wiced_lib.c:55-97 | A digit run is read in full and with its true value if and only if the value fits in 32 bits |
| NumberText.ParseReads | WICED/internal/wiced_lib.c:55-97 | What is read of any text: the digits up to the first of the length in 8 bits, the end, a character that is no digit, or a value beyond a tenth or sixteenth of the largest; and their value in 32 bits, overflow included |
| NumberText.StringToUnsigned | WICED/internal/wiced_lib.c:180-183 | Unsigned parsing |
| NumberText.StringToSigned | WICED/internal/wiced_lib.c:135-166 | Signed parsing, the length count cut to 16 bits and the result to int32 |
| NumberText.SignRead | WICED/internal/wiced_lib.c:135-166 | A plus or a minus counts as a character if a digit follows, and a minus gives the opposite number |
| NumberText.NoSignRead | WICED/internal/wiced_lib.c:135-166 | Without a sign the number read is the unsigned one |
| NumberText.UnsignedRoundTrip | WICED/internal/wiced_lib.c:55-288 | Within the digit buffer's places, parsing gives back the value and every character if and only if the width holds all its digits and something is printed |
| NumberText.SignedRoundTrip | WICED/internal/wiced_lib.c:135-252 | For every int32 but the least, all widths up to ten and every parse length from the printed length on, signed printing is undone by signed parsing, every character consumed, if and only if the width holds the digits besides the sign and something is printed |
| NumberText.SignedRoundTripFullWidth | WICED/internal/wiced_lib.c:135-252 | In one to ten places that is exactly the values from -999999999 |
| DottedQuad.StrToIp | WICED/network/wiced_network_common.c:391-423 | Returns 0, and sets the version, if and only if four digit groups are found; the address is their base-256 sum in 32 bits |
| DottedQuad.AcceptedIff | WICED/network/wiced_network_common.c:391-423 | They are found if and only if the text starts with four possibly empty digit groups joined by dots and followed by the end or a dot, and the groups are unique |
| DottedQuad.GroupRead | WICED/network/wiced_network_common.c:404-405 | The three-character number parse reads exactly the value of a group's first three digits |
| DottedQuad.AddressSum | WICED/network/wiced_network_common.c:391-423 | The address of any four groups, those longer or larger than a byte included, is the sum of the numbers in their first three digits times 2^24, 2^16, 2^8 and 1, in 32 bits |
| DottedQuad.CanonicalRead | WICED/network/wiced_network_common.c:391-423 | Every dotted quad written from four bytes is read as those bytes, first one highest |
| Calendar.FindYear | WICED/internal/time.c:137-164 | The estimate, leap count and backward correction end in the one year whose span contains the time |
| Calendar.LeapYearsCount | WICED/internal/time.c:142-144 | The closed formula with its three divisions counts the leap years since 1970 |
| Calendar.DaysBeforeMonthIs | WICED/internal/time.c:25-50 | The days before each month, from a table of thirteen numbers and the leap rule |
| Calendar.SecondsAre | WICED/internal/time.c:137-202 | The second count of a date-time in closed form |
| Calendar.ValidIs | WICED/internal/time.c:166-202 | Which date-times are valid, month lengths written out |
| Calendar.SplitYear | WICED/internal/time.c:166-202 | The month loop breaks at a valid month and the peeled fields denote the second of the year exactly |
| Calendar.CalendarFields | WICED/internal/time.c:137-202 | The fields form a valid Gregorian date-time (leap rule of Appendix C of RFC 3339) whose second count from 1970 is the time |
| Calendar.OrderedBySeconds | WICED/internal/time.c:137-202 | Date-times are ordered as their second counts, so that date-time is unique |
| Iso8601.ConvertUtcMsToIso8601 | WICED/internal/time.c:124-222 | The 27 bytes are the text of the date-time that denotes the time |
| Iso8601.PrintFields | WICED/internal/time.c:205-211 | Seven overlapping printer calls leave each field with its terminator, none overwriting an earlier field |
| Iso8601.SeparatorsReplaceTerminators | include/wiced_time.h:62-78 | Every terminator lies on a separator that is written afterwards |
| Iso8601.IsoTextShape | WICED/internal/time.c:205-219 | The text has the date-time shape of section 5.6 of RFC 3339 with six fraction digits |
| Iso8601.IsoTextReads | WICED/internal/time.c:204-219 | The seven numbers in the text, at their places, are the date, the time and the microseconds kept |
| Iso8601.TextOrderIsTimeOrder | WICED/internal/time.c:205-219 | Before the year 10000 the first 19 characters compare as the times do, in whole seconds |
| Iso8601.LastFourDigitYear | WICED/internal/time.c:137-164 | Four digits suffice for the year exactly below second 253402300800 |
| Iso8601.FractionExactIff | WICED/internal/time.c:138 | The printed fraction is the true one if and only if at most 65 ms have passed in the second |
| Clock.UtcClock.GetUtcTimeMs | WICED/internal/time.c:89-106 | A reading adds the wrapped tick difference and moves the reference |
| Clock.UtcClock.SetUtcTimeMs | WICED/internal/time.c:108-113 | A set replaces value and reference |
| Clock.ClockIsIdeal | WICED/internal/time.c:89-113 | Over any run of calls, across any number of wraps, the clock shows the last set value plus the true time since, if each get since the last set came less than 2^32 ms after the call before it |
| Clock.ClockIsIdealIff | WICED/internal/time.c:89-113 | And only if: while true time fits in 64 bits, the clock is right after a run exactly when every get since the last set was that prompt |
| Clock.ClockShows | WICED/internal/time.c:89-113 | After any run, however late its calls, the clock shows the last set value plus what remains of each wait since after whole wraps |
| Clock.ReadingsFollowTime | WICED/internal/time.c:89-106 | Between sets readings differ by the true time between them, so they never decrease |
| Clock.LateCallLoses | WICED/internal/time.c:96 | A get that comes late after a prompt run loses the whole wraps in its wait |
| TcpStream.Stream.Write | WICED/network/wiced_tcpip_common.c:237-333 | Refused with nothing changed exactly on a down link; otherwise a write of at most 65535 bytes succeeds if and only if the packets have room for it and those it fills are sent, and success means that exactly its data were taken; the whole new state is that of the write on values, for every network |
| TcpStream.WriteConserves | WICED/network/wiced_tcpip_common.c:251-330 | Whatever fails, the packets offered plus the pending packet grow by exactly the bytes taken, in order; a failed send is reported if and only if there was one; from a state no failed send has touched all packets offered are full, and none is empty if each has some space |
| TcpStream.WriteTakesAll | WICED/network/wiced_tcpip_common.c:251-330 | A successful write of at most 65535 bytes has taken them all; also one of 65536 where every packet has some space and no failed send has left its length behind |
| TcpStream.WriteSucceedsIff | WICED/network/wiced_tcpip_common.c:251-330 | A write of at most 65535 bytes, from any state, succeeds if and only if some number of rooms (the rest of the open packet, then the packets to come, each up to the TLS fragment limit) is just enough for it and each one filled up is sent |
| TcpStream.SuccessIsCompleteIff | WICED/network/wiced_tcpip_common.c:283 | Success means complete, on every network and from every state, if and only if the write is of at most 65535 bytes; on orderly ones, of at most 65536 |
| TcpStream.LongWriteLoses | WICED/network/wiced_tcpip_common.c:283 | A longer write that meets a one-byte packet first succeeds and drops the difference |
| TcpStream.RoundWriteLoses | WICED/network/wiced_tcpip_common.c:283 | A write of 65536 bytes that meets a packet without space succeeds and takes nothing |
| TcpStream.EmptyOfferIff | WICED/network/wiced_tcpip_common.c:251-330 | A turn of the write loop offers an empty packet if and only if the packet it opened has no space or a failed send has left the fragment length used up |
| TcpStream.Stream.Flush | WICED/network/wiced_tcpip_common.c:427-453 | Refused with nothing changed exactly on a down link; otherwise nothing is pending and all bytes taken so far have been offered; success if and only if the packet was sent |
| TcpStream.FlushConserves | WICED/network/wiced_tcpip_common.c:427-453 | A flush loses nothing and leaves nothing pending, offers no empty packet, and succeeds if and only if the packet was sent; after any history |
| TcpStream.SessionConserves | WICED/network/wiced_tcpip_common.c:237-453 | Over any run of writes and flushes, whatever fails, packets offered and the pending packet are exactly the bytes taken, in order; no packet is beyond its space or the TLS fragment limit; while no send fails and every packet has some space, none is empty |
| TcpStream.CallResult | WICED/network/wiced_tcpip_common.c:237-453 | Of any call: not-up exactly on a down link, and then nothing done; a successful write of at most 65535 bytes took exactly its data, a successful flush leaves nothing pending, and both only if every packet offered was sent |
| TcpStream.SuccessfulSession | WICED/network/wiced_tcpip_common.c:237-453 | If every call of a run succeeds, the bytes taken are the data of all its writes, in order, and every packet offered was sent |
| TcpStream.FlushedSession | WICED/network/wiced_tcpip_common.c:237-453 | If the last of them is a flush, the packets offered are exactly all of the data |
| TcpStream.SessionCounts | WICED/network/wiced_tcpip_common.c:282-453 | In every run the fragment length is what the pending packet holds plus, in 16 bits, every packet since the last one sent or flushed: a send that fails during a write leaves its length behind |
| TcpStream.Stream.ReadWithCount | WICED/network/wiced_tcpip_common.c:367-425 | The bytes copied, the count, the result and the rest of the stream are those of the read on values; the rest of the buffer is untouched |
| TcpStream.ReadConserves | WICED/network/wiced_tcpip_common.c:367-425 | A read takes the next bytes of the stream, as many as are wanted and there, and leaves the rest |
| TcpStream.ReceiveConserves | WICED/network/wiced_tcpip_common.c:367-425 | Over any run of arrivals and reads, bytes copied out plus bytes still to be read are the bytes received, in order |
| TcpStream.WrittenIsRead | WICED/network/wiced_tcpip_common.c:237-453 | When every packet was sent: writes, flushes, any re-chunking by the network and reads of any sizes give back a prefix of what was written, and all of it once the queue is empty |
| SendBuffer.Sender.SendData | WICED/network/wiced_tcpip_common.c:121-176 | The packet loop succeeds if and only if the next packets have the space and those needed are sent; network and record number are those of the pieces on values |
| SendBuffer.Sender.SendBuffer | WICED/network/wiced_tcpip_common.c:36-190 | Not-up with nothing changed on a down link; otherwise success if and only if the network suffices for the buffer, without TLS or record by record; network and record number are those of the split on values |
| SendBuffer.PiecesCarryData | WICED/network/wiced_tcpip_common.c:121-176 | Without failure the wire carries the data cut into pieces, in the clear or one record each; none empty if every packet has some space |
| SendBuffer.SendPiecesIff | WICED/network/wiced_tcpip_common.c:121-176 | Data go out without failure if and only if for some k the next k packets, and no fewer, have the space for them and the next k sends succeed |
| SendBuffer.FragmentIff | WICED/network/wiced_tcpip_common.c:75-176 | The same of a TLS fragment, by the length of its encoding if it is beyond the segment size and of its plaintext otherwise; and what of the network and which record number are left |
| SendBuffer.SendRecordsIff | WICED/network/wiced_tcpip_common.c:61-189 | A whole TLS send succeeds if and only if that holds of each fragment on what the ones before it left |
| SendBuffer.OversizeEncryptedOnce | WICED/network/wiced_tcpip_common.c:75-121 | A fragment beyond the segment size uses one record number and one encryption, however many packets carry it |
| SendBuffer.RecordsCarryBuffer | WICED/network/wiced_tcpip_common.c:61-189 | The wire carries the encodings of plaintexts that concatenate to the buffer, each within the negotiated length (section 4 of RFC 6066, section 6.2.1 of RFC 5246), none empty if every packet has some space |
| SendBuffer.DecodeUndoesEncode | WICED/network/wiced_tcpip_common.c:61-189 | For any codec that round-trips plaintexts between two lengths, decoding a row of records within them gives back the plaintexts' concatenation |
| SendBuffer.SentBufferDecodes | WICED/network/wiced_tcpip_common.c:61-189 | What a successful TLS send added to the wire decodes to exactly the buffer, for any codec that round-trips plaintexts up to the negotiated length; empty ones included if packets without space occur |
| SendBuffer.SentBufferPlain | WICED/network/wiced_tcpip_common.c:61-189 | Without TLS the wire gets a prefix of the buffer, and success is reported if and only if it is all of it |
| Cooee.SetThenGet | WICED/internal/wiced_cooee.c:28-29 | Setting a bit of the bitmap sets that bit and no other |
| Cooee.Workspace.ProcessRawPacket | WICED/internal/wiced_cooee.c:324-334 | A frame has the effect of processing on values, and none after completion |
| Cooee.Workspace.ProcessPacket | WICED/internal/wiced_cooee.c:336-390 | Beacons, both address forms and foreign frames are told apart as on values |
| Cooee.Workspace.TakeSegment | WICED/internal/wiced_cooee.c:390-427 | A data frame is placed, counted and checked for completion, or dropped as a repetition |
| Cooee.FirstBeacon | WICED/internal/wiced_cooee.c:347-368 | Nothing is stored before the first beacon, which in either form fixes the size of a frame without data |
| Cooee.BeaconIs | WICED/internal/wiced_cooee.c:347-368 | A first beacon two bytes longer than a frame without data with the beacon address third, or of just that length with it first, fixes that length; any other frame before it changes nothing |
| Cooee.InBufferIff | WICED/internal/wiced_cooee.c:391-407 | The frame sizes, for each beacon size, whose place lies inside the buffer |
| Cooee.TestSufficesIff | WICED/internal/wiced_cooee.c:391 | The source's size test keeps all frames of a kind no shorter than one without data inside, if and only if beacon size and offset come to 81 or more |
| Cooee.ShortFrameOutside | WICED/internal/wiced_cooee.c:391-407 | A frame that passes the test and whose place lies outside |
| Cooee.OtherSenderIgnoredIff | WICED/internal/wiced_cooee.c:393-407 | A frame from another sender than the recorded one changes nothing if and only if reception is complete, it carries nothing that can be taken, or its segment is there |
| Cooee.SecondSenderStored | WICED/internal/wiced_cooee.c:393-407 | The first two segments from any two senders are both stored, and the first sender only is recorded |
| Cooee.TwoSenders | WICED/internal/wiced_cooee.c:393-407 | Two concrete frames for which this happens |
| Cooee.ProcessHolds | WICED/internal/wiced_cooee.c:324-427 | Every frame that may arrive keeps: set bits are the segments supplied, each in place; the count is twice their number; complete if and only if all are there; and it stays inside the buffer |
| Cooee.Reassembled | WICED/internal/wiced_cooee.c:324-427 | So at every point of every run, whatever the order and repetition of frames |
| Cooee.FromPowerUp | WICED/internal/wiced_cooee.c:324-427 | From power-up, frames given by their addresses, data frames before the beacon included: nothing is taken before the first beacon of either form, and from then on exactly the segments heard are there |
| Cooee.FromPowerUpTells | WICED/internal/wiced_cooee.c:324-427 | That is: the bits set are those of the segments heard, their bytes are in place, the count is twice their number, and completion comes if and only if all have been heard, with the message in the buffer |
| Cooee.CompletedByLastMissing | WICED/internal/wiced_cooee.c:411-424 | Completion is set exactly by the frame that supplies the last missing segment, and then the buffer starts with the message |
| SystemMonitor.SystemMonitors.Scan | WICED/internal/system_monitor.c:97-115 | A scan kicks if and only if no registered monitor is overdue |
| SystemMonitor.SystemMonitors.Register | WICED/internal/system_monitor.c:122-139 | A monitor is checked in and put in the first free slot, or refused with nothing changed |
| SystemMonitor.SystemMonitors.Update | WICED/internal/system_monitor.c:141-152 | An update is accepted if and only if the monitor is not overdue |
| SystemMonitor.OverdueModuloWrap | WICED/internal/system_monitor.c:106 | The tick comparison tests the true time since the check-in less whole wraps |
| SystemMonitor.OverdueIffLate | WICED/internal/system_monitor.c:106 | With scans often enough, overdue on the tick means late in true time |
| SystemMonitor.KickIffAllInTime | WICED/internal/system_monitor.c:97-115 | Then a scan kicks if and only if every registered monitor is truly in time |
| SystemMonitor.StepKeeps | WICED/internal/system_monitor.c:97-152 | Every register, update and scan step keeps the log, the table and the kicks in agreement |
| SystemMonitor.StepTakesEffect | WICED/internal/system_monitor.c:122-152 | A registration takes effect if and only if a slot is free, an update of a registered monitor if and only if it is not late in true time; and then it is the last check-in, with its moment and delay |
| SystemMonitor.RunSafety | WICED/internal/system_monitor.c:97-152 | In every interleaving accepted updates are never further apart than the delay in force, and at every kick no check-in still in force was older than its delay, unless a newer one fell in the same millisecond |
| SystemMonitor.ScansDecide | WICED/internal/system_monitor.c:97-115 | At every scan of every prompt run, until a reboot: it kicks if and only if no registered monitor is late in true time at that step, and reboots otherwise |
| SystemMonitor.SafeTimingIff | WICED/internal/system_monitor.c:97-152 | All scans of all runs from the start decide rightly if and only if the gap between scans and the longest delay together stay below 2^32 ms |
| SystemMonitor.Deception | WICED/internal/system_monitor.c:97-152 | At or beyond that bound, a run in which the watchdog is kicked with a late monitor |
| SystemMonitor.LateIsFinal | WICED/internal/system_monitor.c:97-152 | After a missed deadline no update revives the monitor, no kick follows, and the next scan reboots |
| StationLink.Station.LinkUpHandler | WICED/internal/wifi.c:671-683 | Posts link-up on a change and renewal otherwise |
| StationLink.Station.LinkDownHandler | WICED/internal/wifi.c:685-698 | Posts link-down on a change only |
| StationLink.Station.LinkEventsHandler | WICED/internal/wifi.c:783-864 | An event for the station has the effect of the event step, by security type and handshake flag; what that is follows from the inputs alone in `UpIff` and `PostsFollowInputs` |
| StationLink.Station.HandshakeTimeoutHandler | WICED/internal/wifi.c:773-781 | A timeout stops the timer and posts the error callback |
| StationLink.Station.HandshakeErrorCallback | WICED/internal/wifi.c:700-771 | Leaves, then tries the stored access points in order for three rounds and takes the first that accepts; a failed read of the store ends the search |
| StationLink.Station.JoinApSpecific | WICED/internal/wifi.c:445-494 | A join succeeds directly or by scanning, and only then sets link, security and handler |
| StationLink.Station.LeaveAp | WICED/internal/wifi.c:497-507 | Leaving as a station clears the link and the handler |
| StationLink.StepConsistent | WICED/internal/wifi.c:445-864 | Every step keeps the flags equal to what the history of posts says |
| StationLink.RunConsistent | WICED/internal/wifi.c:445-864 | So they agree in every run |
| StationLink.RunAgrees | WICED/internal/wifi.c:445-864 | In every run link, security type, handshake flag, timer, handler, posts and outstanding error callbacks are what the inputs alone call for |
| StationLink.UpIff | WICED/internal/wifi.c:445-864 | In every run the link is up if and only if some input brought it up (an accepted join or rejoin, a link event with one of six security types, a keyed event that answers a link event) and none since took it down (a link-lost event, deauthentication, disassociation, leaving, an error callback) |
| StationLink.PostsFollowInputs | WICED/internal/wifi.c:671-864 | In every run the posts are, input by input, those the inputs call for: one for each change by an event or rejoin, a renewal where the link was up, one error callback per timeout of a running timer, and no other |
| StationLink.LinkEventAlone | WICED/internal/wifi.c:798-846 | With each of the WPA and WPA2 types a link event alone posts nothing and leaves the link as it was |
| StationLink.FirstJoinIs | WICED/internal/wifi.c:711-768 | The first attempt not refused, in the order of rounds and entries, decides: an entry that accepts is rejoined, one that cannot be read ends the search |
| StationLink.ThreeRounds | WICED/internal/wifi.c:711-768 | An attempt of any of three rounds that is the first not refused is rejoined |
| StationLink.NoneAccepts | WICED/internal/wifi.c:711-768 | If all attempts of three rounds are refused, nothing is |
| StationLink.UpPostsSeparated | WICED/internal/wifi.c:671-698 | In every run two link-up posts have a link-down post or a leave between them |
| StationLink.DownPostsSeparated | WICED/internal/wifi.c:671-698 | In every run two link-down posts have a link-up post or a join between them |
| StationLink.AnnouncementsConsumeLinks | WICED/internal/wifi.c:783-864 | In every run each completed handshake has an earlier link event of its own, with no other announcement between |
| StationLink.HandshakesBounded | WICED/internal/wifi.c:700-864 | In every run there are no more announcements, and no more error callbacks, than link events that called for a handshake |

## Left out

- Calendar.FindYear, Calendar.CalendarFields: times from second 63566 * 31536000 on, whose year estimate leaves 16 bits; for years that wrap below 1970 the product of leap years and seconds overflows.
- Iso8601.ConvertUtcMsToIso8601: the same times; from the year 10000 on only the last four digits of the year are printed.
- NumberText.UnsignedToDecimalString, NumberText.UnsignedToHexString: a minimum width above the maximum, whose negative copy length is beyond the buffers, and an output too short for the text; the hexadecimal printer does not check for a null output, so none is passed.
- NumberText.SignedToDecimalString: the least int32, whose negation overflows in C, and a minimum width above the places the sign leaves.
- NumberText.StringToGeneric, NumberText.StringToSigned: null strings, which return 0 at once.
- Wildcard.MatchStringWithWildcardPattern: what is read beyond the pattern's terminator after an overrun.
- DottedQuad.StrToIp: what is promised of the address when parsing fails.
- Prng.RandomSource.CryptoGetRandom: a replaced generator, locking, and generators other than the default one.
- TcpStream.Stream.ReadWithCount: received packets of several fragments.
- TcpStream.SessionConserves: with TLS the payloads are the plaintexts; their encryption on the way out is the record codec's matter.
- SendBuffer.Sender.SendBuffer: what a TLS socket has on the wire after a failure, the failure of memory allocation, and freeing.
- Cooee.Workspace.ProcessRawPacket, Cooee.Workspace.ProcessPacket, Cooee.Workspace.TakeSegment: what is overwritten by a frame whose place lies outside the buffer.
- Cooee.Reassembled: several senders, messages of odd length or beyond 254 bytes, and retries, which do not zero the buffer again.
- SystemMonitor.RunSafety: a scan interrupted half way, a reboot request that returns, updates of structures never registered.
- StationLink.Station.JoinApSpecific: the ad-hoc flag and the keys given to the driver.
- StationLink.RunConsistent: link notifications inside the network stack and the handlers of other interfaces.
- The RTOS, drivers, buses, flash and TLS internals are not part of this model.
- Cooee's decryption and TLV stage: a cipher and a table walk.
- The stream's deinitialisation and its resource writer: short loops over operations that are modelled.
- The filesystem mount table, the scan-result lists, the WLAN log reader, link callback arrays and reset sequences.
- `float_to_string`: floating point. `format_wep_keys`, byte-swap helpers and configuration layouts: easy.
