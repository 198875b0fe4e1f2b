# Verified models of nvme-cli and SPDK bookkeeping

A Dafny model of the parts of this repository whose correctness is not visible from one
function body:

- the NVMe over Fabrics discovery walk of nvme-cli, a recursion over a possibly cyclic graph
  of discovery controllers (section 5 of NVMe over Fabrics 1.1);
- the authenticated RPMB data transfers of nvme-cli, against a target that follows section
  8.10 of the NVM Express Base Specification 1.4, with other hosts sending frames in between;
- CRC-32 and Base64, and the DH-HMAC-CHAP key texts built from both;
- printing 128-bit counters in decimal, with and without thousands separators;
- reading and printing sizes with SI and binary suffixes;
- SPDK's latency histogram, from the C code that fills the buckets to the script that reports
  them;
- the script that associates DPDK heap elements, memzones and mempools.

Code that updates buffers, fields or loop variables is modelled by classes, arrays and loops;
each method is proved against a function or predicate that is defined independently of it, and
the lemmas are about those. Calls into libnvme, the kernel and HMAC-SHA256 have arbitrary
outcomes: every property holds for all of them. Sent frames and discovery events are recorded
in ghost sequences, so that statements about whole runs can be made.

`dafny verify dfyconfig.toml` checks the project.

## Layout

| file | contents |
|---|---|
| `Common.dfy`, `Bytes.dfy`, `Numerals.dfy`, `CStrings.dfy` | shared arithmetic, little-endian numbers, decimal numerals, `strtoull` with base 0 |
| `Crc32.dfy`, `Base64.dfy`, `DhchapKey.dfy` | checksums, encodings, key texts |
| `Uint128.dfy`, `Suffix.dfy` | decimal printing, unit suffixes |
| `Histogram.dfy`, `MemInfo.dfy` | SPDK histogram, DPDK memory report |
| `Discovery.dfy` | the discovery walk |
| `RpmbFrames.dfy`, `RpmbDevice.dfy`, `RpmbHost.dfy` | frame layout, target, host |

## Where the code falls short of its purpose

Each of these is a theorem about the code as it is: the exact condition under which the
purpose is met, with an input that fails in its proof or in a lemma of its own.

- A success reported by the RPMB host may belong to another host's write, because only the
  result field of the response is tested (`SuccessOfAnother`), or even answer another host's
  counter or read request (`AnswerLies`). It can be trusted exactly if no other host sends
  either such a request or a rival of the frame: an authentic, well-sized write, unless the
  frame is one too, with the same counter, and neither longer nor reaching further
  (`ReportTrustedIff`).
- If there is no memory for the request of a chunk, the chunk counts as written although
  nothing was sent. What is reported is on the target exactly if that does not happen
  (`WriteChunk`, `AuthDataWrite`).
- The RPMB read loop compares the absolute sector number with the number of sectors wanted,
  and returns the absolute number. On a target that allows it, it reads everything asked for
  exactly if it starts at sector 0 or needs one request only. The caller takes the number for
  the size of the buffer; it goes past the buffer exactly if the start is behind the number of
  sectors wanted, or something was read and the first request ends behind it (`AuthDataRead`,
  `ShortAndLongRead`). Far up, where the unsigned difference turns into a positive `int`, the
  loop asks for something else than the rest (`NextAgreesIff`).
- A response is copied in the length it states. On a shared link that is too long for some
  interleaving exactly if another host reads more sectors in range (`NeverOverrunsIff`); a
  response that states none makes the loop ask again (`CounterRequestStalls`).
- The closing test of the Base64 decoder uses a logical instead of a bitwise operator. Spare
  bits and padding are not checked; a text of a wrong length is refused unless the last 32 bits
  shifted in are zero (`RefusedExactly`, `LaxDecoding`). Exactly the canonical texts survive
  decoding and encoding (`ReencodesIffCanonical`).
- The buffer for a decoded DH-HMAC-CHAP key has 128 bytes. It is large enough for all texts
  exactly if a hash is named or the encoded part has at most 171 characters
  (`BufferSufficesIff`).
- The thousands separators of a 128-bit number are right for all numbers exactly if the
  separator's length is zero, or one modulo four (`GroupsCorrectlyIff`); the buffer holds all
  numbers exactly if it is at most one (`FitsIff`).
- An SI size loses its fraction exactly if the fraction has as many digits as the suffix's
  exponent and is not zero (`SiParseExactIff`, `FractionIsDropped`). A fraction that starts
  with a zero is read as octal; `LeadingZeroFraction` says exactly when that does no harm.
- The slot number of the histogram has 32 bits: it is right for all values exactly if there are
  at most 2^32 buckets (`SlotFitsIff`).
- The histogram script stops one range short: it accounts for exactly the recorded values below
  2^63 (`ReportTotal`).
- Removing heap elements while iterating skips the element behind each removed one
  (`SecondIsSkipped`). Nothing is missed exactly if no two neighbours cover the same memzone
  (`MissesNothingIff`), which holds for heaps whose elements do not overlap
  (`MovesExactlyHolders`).
- Associating memzones with mempools conserves the total size exactly if no zone with a size
  matches two pool names (`SizeConservedIff`, `CountedTwice`).
- A discovery controller stays connected although none is returned exactly if it was added
  under the well-known name and the buffer for its identify data cannot be allocated
  (`CreateDiscoverCtrl`).
- The keep-alive timeout of a discovery controller follows the global `persistent` option,
  while the rule that keeps or drops it follows the parameter of the same name and the entry's
  flags. What is kept is always kept alive exactly if the option is set or the caller's timeout
  is negative (`WalksKeepAliveIff`); through a root that is connected already, a referral stays
  without keep-alive (`StaysWithoutKeepAlive`).

## Model

| member | source | states |
|---|---|---|
| Discovery.Host.Discover | nvme-cli/fabrics.c:263-384 | the recursion terminates on every finite graph, cyclic or not; the whole run is a `Walk` from the controllers connected before to those connected after: none connected before is disconnected, a new one is there exactly if the keep rule retains it, no controller is attempted while connected, every eligible entry of every log read is dealt with, every successful referral is read, and every attempt uses the right keep-alive timeout; nothing happens without a cause (`Started`): only entries of logs read are attempted, and only where they are worth it, and only announced controllers are read; the timeout in the shared configuration is unchanged |
| Discovery.Host.VisitEntry | nvme-cli/fabrics.c:296-379 | one entry: the part of the run it causes, nested walks included, is a `Walk`, an eligible entry is connected or attempted, and no other is |
| Discovery.Host.BelowChild | nvme-cli/fabrics.c:359-367 | connecting, recursing and then keeping or dropping the child, as its entry says, is such a part |
| Discovery.Host.SetDiscoveryKato | nvme-cli/fabrics.c:155-167 | with the global option there is a timeout afterwards, 30 if there was none, without it there is none that is positive; a timeout that suits already is left alone, and the caller's is returned |
| Discovery.Host.CreateCtrl | nvme-cli/fabrics.c:169-197 | a new controller is added under the discovery timeout, or nothing changes; the timeout is restored |
| Discovery.Host.CreateDiscoverCtrl | nvme-cli/fabrics.c:199-238 | exactly one new controller stays: the one asked for, or, asked for under the well-known name, the same under the name with which it identified itself; none without such an answer; on failure one stays exactly if it was added under the well-known name and the identify buffer could not be allocated |
| Discovery.Host.DiscoverCommand | nvme-cli/fabrics.c:572-589 | over a whole command, nothing connected before is lost; what the keep rule retains is there at the end; whatever is new was kept by it, is the root, which stays exactly if the option or its own name says so, or is the leaked root, which there is exactly under that condition; with a root that the lookup finds, with or without a device name, the run is a walk that is asked to be persistent |
| Discovery.WalkThen | nvme-cli/fabrics.c:296-379 | walks compose: all parts of the walk invariant carry over to two runs in a row |
| Discovery.EntryMeans | nvme-cli/fabrics.c:304-351 | keep rule, eligibility, timeout and key of every entry in terms of its subtype, flags and names |
| Discovery.NeverAttempted | nvme-cli/fabrics.c:313-316 | a controller of the start set is connected throughout a walk and never attempted |
| Discovery.WalkChildKept | nvme-cli/fabrics.c:353-362 | connecting a child that is retained and walking below it is a walk that leaves the child connected |
| Discovery.WalkChildDropped | nvme-cli/fabrics.c:353-367 | the same with a child that is not retained, disconnected afterwards: nothing overlooked and nothing else lost |
| Discovery.WalkRead | nvme-cli/fabrics.c:281-296 | reading a log and dealing with all its entries is a walk |
| Discovery.RetainedHasTimeoutIff | nvme-cli/fabrics.c:333-347 | every discovery entry that the keep rule retains has a keep-alive timeout exactly if the global option is set or the caller's timeout is negative |
| Discovery.WalksKeepAliveIff | nvme-cli/fabrics.c:296-379 | the same over all walks: every discovery controller connected and retained has a timeout, exactly then |
| Discovery.StaysWithoutKeepAlive | nvme-cli/fabrics.c:572-577 | a walk of a command without the option, through a connected root, that connects a referral, reads its log and retains it without keep-alive |
| Discovery.ReadsWholeChain | nvme-cli/fabrics.c:359-362 | every controller at the end of a chain of referrals from the root has its log read in every walk, even if chains run into each other and controllers on them have been dropped meanwhile |
| Discovery.DiscoveryIsComplete | nvme-cli/fabrics.c:294-380 | if no discovery controller but the root is connected at the start, every eligible entry reachable through readable referrals has been attempted or is connected |
| RpmbFrames.EncodeFields | nvme-cli/nvme-rpmb.c:250-263 | every field of a frame is read where it was written, and the MAC lies outside the bytes it is computed over |
| RpmbDevice.CounterGrows | nvme-cli/nvme-rpmb.c:663-715 | over every run of frames the counter never falls, and while it stays the contents stay |
| RpmbDevice.CompareAndSwap | nvme-cli/nvme-rpmb.c:663-715 | a frame built from a counter value is accepted, whatever others send in between, only on the contents of the moment the counter had that value |
| RpmbDevice.NoFrameTwice | nvme-cli/nvme-rpmb.c:677-691 | no frame takes effect twice in any run |
| RpmbDevice.WriteFrameAcceptedIff | nvme-cli/nvme-rpmb.c:669-691 | the host's frame is accepted exactly if key, counter, range and the MAC under the target's key fit |
| RpmbDevice.ReportedResult | nvme-cli/nvme-rpmb.c:698-702 | the outcome the target keeps is that of the last write processed, whoever sent it |
| RpmbDevice.ResultAfterRequest | nvme-cli/nvme-rpmb.c:698-711 | that outcome is what waits right after a request for the result |
| RpmbDevice.OwnResult | nvme-cli/nvme-rpmb.c:698-702 | without other writes in between the kept outcome is the host's own |
| RpmbDevice.OwnReceived | nvme-cli/nvme-rpmb.c:698-715 | if besides nothing but requests for the result follows the host's own, it is also what is received |
| RpmbDevice.ReportTrustedIff | nvme-cli/nvme-rpmb.c:690-715 | for every set of frames that other hosts may send, before and after the request for the result: at all targets and in all interleavings a received success means that the host's own frame took effect, exactly if the set holds no rival of it and no counter or read request that a target answers |
| RpmbDevice.RivalLies | nvme-cli/nvme-rpmb.c:396-414 | for every rival a run in which its success is received and the host's frame refused |
| RpmbDevice.AnswerLies | nvme-cli/nvme-rpmb.c:396-414 | for every counter or read request a run in which its answer is received as success and the host's frame refused |
| RpmbDevice.HarmlessIsTrusted | nvme-cli/nvme-rpmb.c:690-715 | without such frames every received success, however late, is the host's own |
| RpmbDevice.ClosedRefuses | nvme-cli/nvme-rpmb.c:691-702 | a target without key, room or counter values left accepts no write and keeps no successful outcome, whatever is sent |
| RpmbDevice.SuccessOfAnother | nvme-cli/nvme-rpmb.c:396-414 | a run in which the host is told success, its frame was refused and the sector holds another host's data |
| RpmbHost.Link.Send | nvme-cli/nvme-rpmb.c:275-294 | a successful send delivers the frame once among those of others; a failed one may or may not have delivered it |
| RpmbHost.Link.Receive | nvme-cli/nvme-rpmb.c:296-316 | the response waiting at the target, cut or padded to the buffer |
| RpmbHost.RequestInit | nvme-cli/nvme-rpmb.c:346-375 | setting the fields one by one in a zeroed buffer gives the encoding of those fields; NULL exactly if there is no memory |
| RpmbHost.ReadRequest | nvme-cli/nvme-rpmb.c:421-463 | a response is returned only after the request was processed, and only one with result zero; without failures, of memory too, exactly then |
| RpmbHost.CounterIsSeen | nvme-cli/nvme-rpmb.c:466-488 | in every interleaving, whatever response waits after the counter request was processed, and whoever asked for it, states the counter of some moment since, or zero |
| RpmbHost.ReadWriteCounter | nvme-cli/nvme-rpmb.c:466-488 | the counter taken was the target's at some moment during the call, or is zero; alone on the link it is the current one, nothing changed and all that was sent went to the target |
| RpmbHost.BuildWriteFrame | nvme-cli/nvme-rpmb.c:669-688 | the frame built in place is the authenticated encoding of the write request |
| RpmbHost.AskForResult | nvme-cli/nvme-rpmb.c:698-702 | the request for the result, to the same target |
| RpmbHost.Submit | nvme-cli/nvme-rpmb.c:690-715 | success means that the frame and then the request for its result, to the same target, were processed and the response that waits says so; alone on the link the outcome is the frame's own, and without failures it is reported |
| RpmbHost.SuccessMeansWritten | nvme-cli/nvme-rpmb.c:690-715 | on any link, if others send only what is harmless to it, a frame whose success was reported has been accepted |
| RpmbHost.WriteChunk | nvme-cli/nvme-rpmb.c:648-722 | in every interleaving, from whatever response the counter came, the frame takes effect only on the contents of one moment between the call's start and the reading of the counter; alone on the link a chunk reported as success is written exactly if there was memory for its request, in any case it is written whole or not at all, and written if nothing stands against it |
| RpmbHost.ChunkIsAtomic | nvme-cli/nvme-rpmb.c:663-715 | the same for any longer run: whenever the frame is accepted, contents and counter are those of that moment, the counter zero of other responses included |
| RpmbHost.StoreStep | nvme-cli/nvme-rpmb.c:734-748 | chunks tile: the next chunk behind the parts so far is written, with one more on the counter, or dropped, and everything else is untouched |
| RpmbHost.TransferredIff | nvme-cli/nvme-rpmb.c:734-750 | the bytes reported are on the target, with a step of the counter for each chunk, exactly if no part was dropped |
| RpmbHost.HealthyStep | nvme-cli/nvme-rpmb.c:734-748 | if key, range, access size and counter allow the whole message, they allow each chunk in turn |
| RpmbHost.SendChunk | nvme-cli/nvme-rpmb.c:734-743 | one round of the loop: which part is added to those on the target |
| RpmbHost.AuthDataWrite | nvme-cli/nvme-rpmb.c:725-751 | for every address, message and access size: the parts tile what is reported as written and at most one further chunk, the target is as before but for the stored ones, and the counter rose by their number; the reported bytes are all there exactly if no part was dropped for lack of memory; everything is written if the target allows it and nothing fails; all frames go to the target given |
| RpmbHost.ReadStep | nvme-cli/nvme-rpmb.c:554-568 | a read request is answered with the sectors asked for exactly if they are in range, and changes nothing |
| RpmbHost.RequestSectors | nvme-cli/nvme-rpmb.c:554-565 | one request to the target given, on any link, and the response that waits; alone on the link it holds the sectors asked for |
| RpmbHost.ReadSectors | nvme-cli/nvme-rpmb.c:554-570 | one request, on any link: the sectors of the response are put into the buffer at its place; more than asked for would go past it, which does not happen alone on the link, where they are the sectors asked for |
| RpmbHost.NeverOverrunsIff | nvme-cli/nvme-rpmb.c:567-568 | for every set of frames that other hosts may send: no interleaving lets a response state more sectors than asked for, exactly if the set holds no read of more sectors in range |
| RpmbHost.CounterRequestStalls | nvme-cli/nvme-rpmb.c:569-574 | a counter request of another host between request and response makes a round of the loop succeed without progress, exactly if the target has a key and counter values left |
| RpmbHost.NextAgreesIff | nvme-cli/nvme-rpmb.c:571-574 | the 32-bit comparison and difference are those of the numbers exactly if the sum stays below 2^32 and the sector number exceeds the count by at most 2^31 |
| RpmbHost.AuthDataRead | nvme-cli/nvme-rpmb.c:534-583 | the loop ends; the buffer holds the sectors from the start up to the number returned; the number exceeds the buffer exactly if the start is behind the count, or something was read and the first chunk ends behind it; with a readable target the number is the larger of the end of the first chunk and the count wanted, so that everything is read exactly if the start is 0 or one request is enough; no buffer and -1 without memory; all frames go to the target given |
| RpmbHost.ShortAndLongRead | nvme-cli/nvme-rpmb.c:1021-1031 | a read that stops half way, and one whose result is twice what the buffer holds |
| RpmbHost.WriteThenRead | nvme-cli/nvme-rpmb.c:534-751 | writing at address 0 and reading back with any two access sizes returns the message whenever both report the full size and no part was dropped, else the old contents in its place; both do on a target that allows it |
| Crc32.TableCorrect | nvme-cli/util/crc32.c:37-90 | each of the 256 constants is the register after eight steps of the bitwise division by 0xEDB88320 |
| Crc32.TableStepCorrect | nvme-cli/util/crc32.c:98-98 | a table lookup does what feeding the byte's eight bits does, from every register value |
| Crc32.Crc32 | nvme-cli/util/crc32.c:92-100 | the loop computes the bit-by-bit CRC (section 8 of RFC 1952) for every seed and buffer |
| Crc32.Streams | nvme-cli/util/crc32.c:92-100 | the CRC of a prefix, continued over the rest, is the CRC of the whole |
| Crc32.DetectsBurst | nvme-cli/util/crc32.c:92-100 | two different messages of any length that differ within 32 consecutive bits only have different CRCs |
| Crc32.DetectsFourBytes | nvme-cli/util/crc32.c:92-100 | the same for four consecutive bytes |
| Crc32.TrailerIffResidue | nvme-cli/nvme.c:9480-9488 | a message ends in its own CRC exactly if the register over all of it ends in one fixed state |
| Crc32.TrailerDetectsFourBytes | nvme-cli/nvme.c:9480-9488 | two messages that both end in their own CRC never differ in four consecutive bytes only, body, trailer and seam included |
| Base64.Base64Encode | nvme-cli/util/base64.c:43-67 | in spite of the overflowing 32-bit accumulator the output is the encoding of section 4 of RFC 4648, of length 4 * ceil(n / 3), and nothing behind it is written |
| Base64.CompleteSnoc | nvme-cli/util/base64.c:49-56 | each byte pushed appends exactly the symbols it completes, whatever the accumulator lost at its top |
| Base64.EncodedLength | nvme-cli/util/base64.c:66-66 | four symbols for every three bytes begun |
| Base64.Base64Decode | nvme-cli/util/base64.c:79-108 | the three outcomes of the loop, and the bytes written, as a function of the text |
| Base64.BytesSnoc | nvme-cli/util/base64.c:85-103 | each character appends exactly the byte it completes |
| Base64.DecodeEncode | nvme-cli/util/base64.c:79-108 | decoding an encoded message of any length returns it |
| Base64.EncodeIsCanonical | nvme-cli/util/base64.c:57-64 | every encoded text is canonical: padding only at the end, spare bits zero |
| Base64.ReencodesIffCanonical | nvme-cli/util/base64.c:43-108 | exactly the canonical texts, all unpadded texts of 4k symbols among them, come back unchanged when decoded and encoded again |
| Base64.RefusedExactly | nvme-cli/util/base64.c:104-105 | which texts are invalid, and which the closing test refuses, both ways |
| Base64.LaxDecoding | nvme-cli/util/base64.c:104-105 | a text of a wrong length and one with spare bits set that are accepted |
| Base64.StaysInsideIff | nvme-cli/util/base64.c:99-102 | all texts of n characters stay inside a buffer, stops at invalid characters included, exactly if three quarters of n do |
| DhchapKey.GenerateText | nvme-cli/nvme.c:9391-9398 | the text is the encoding of the secret followed by its CRC |
| DhchapKey.CheckText | nvme-cli/nvme.c:9439-9488 | accepted exactly if the length fits the hash, the text decodes, the secret has 32, 48 or 64 bytes and the trailer is its CRC, and which error it is otherwise, whenever decoding stays inside the 128-byte buffer |
| DhchapKey.AcceptedLengths | nvme-cli/nvme.c:9439-9479 | under a named hash only texts as long as those of its secrets are accepted |
| DhchapKey.BufferSufficesIff | nvme-cli/nvme.c:9465-9465 | it does for all texts of a length exactly if a hash is named or the length is at most 171 |
| DhchapKey.GeneratedIsAccepted | nvme-cli/nvme.c:9439-9488 | every generated text is accepted and yields the secret it was made from |
| DhchapKey.PiecesMakeBytes | nvme-cli/nvme.c:9465-9470 | for every text, padded anyhow, the decoded bytes are what its characters add one by one, each depending on that character and the one before |
| DhchapKey.FourCharsReachFourBytes | nvme-cli/nvme.c:9465-9470 | a change of four consecutive characters, at any alignment and into or out of padding, reaches at most four consecutive bytes and changes the count by at most four |
| DhchapKey.CorruptionIsRefused | nvme-cli/nvme.c:9465-9488 | no change of four consecutive characters, padding included, makes a generated text pass as another secret |
| Uint128.Le128ToCpu | nvme-cli/util/types.c:14-25 | the words denote the little-endian value of the sixteen bytes |
| Uint128.Carry | nvme-cli/util/types.c:89-91 | a link of the division chain fits 64 bits and its quotient fits 32 |
| Uint128.DivideByTen | nvme-cli/util/types.c:87-103 | the four links are one division of the 128-bit value by ten |
| Uint128.PutSeparator | nvme-cli/util/types.c:83-84 | the separator is written in front, everything else is untouched |
| Uint128.PutDigit | nvme-cli/util/types.c:82-105 | one round prepends the digit, with a separator behind it where one is due |
| Uint128.Uint128ToString | nvme-cli/util/types.c:64-109 | the loop ends and leaves the rendered number, NUL-terminated, at the end of the 60-byte buffer |
| Uint128.PrintsDecimal | nvme-cli/util/types.c:111-114 | without separator the rendering is the canonical decimal numeral |
| Uint128.PrintsGrouped | nvme-cli/util/types.c:81-106 | with a separator of length one modulo four it is the numeral grouped by threes from the right |
| Uint128.GroupsCorrectlyIff | nvme-cli/util/types.c:82-82 | all 128-bit values are grouped correctly exactly for separator length zero and lengths that are one modulo four |
| Uint128.ThirtyNineDigits | nvme-cli/util/types.c:81-106 | at most 39 rounds |
| Uint128.AlwaysFits | nvme-cli/util/types.c:66-66 | with at most one byte of separator every value fits the buffer |
| Uint128.FitsIff | nvme-cli/util/types.c:66-66 | all 128-bit values fit exactly if the separator has at most one byte |
| Uint128.StripSeparators | nvme-cli/util/types.c:82-85 | removing the separators from a grouped numeral gives the numeral, and a separator never leads |
| Uint128.BytesToString | nvme-cli/util/types.c:111-114 | sixteen bytes to the canonical numeral of their value, the only one without leading zeros, for all bytes |
| Uint128.BytesToLocalString | nvme-cli/util/types.c:116-119 | sixteen bytes to the grouped numeral, for all bytes and one-byte separators |
| Suffix.SuffixSiCheck | nvme-cli/util/suffix.c:72-85 | true exactly for the ten SI letters |
| Suffix.ScaleUp | nvme-cli/util/suffix.c:145-146 | the multiplication loop is one multiplication by a power of ten modulo 2^64 |
| Suffix.ScaleDown | nvme-cli/util/suffix.c:152-153 | the division loop is one floor division by a power of ten |
| Suffix.ScaleBoth | nvme-cli/util/suffix.c:144-158 | number and fraction scaled together, modulo 2^64 |
| Suffix.ApplySuffix | nvme-cli/util/suffix.c:138-166 | which suffix applies, and the value it gives, or an error |
| Suffix.SuffixSiParse | nvme-cli/util/suffix.c:87-167 | success, value and errors for every string, as `SiParse` says, which the following lemmas evaluate form by form |
| Suffix.Exponents | nvme-cli/util/suffix.c:45-60 | the ten letters and their powers of ten |
| Suffix.SiParseInteger | nvme-cli/util/suffix.c:98-117 | an integer alone is its value, with a suffix the value times the power of ten modulo 2^64 |
| Suffix.SiParseFraction | nvme-cli/util/suffix.c:125-166 | a fraction without a suffix is dropped; followed by anything but one suffix it is an error |
| Suffix.SiParseRefused | nvme-cli/util/suffix.c:92-133 | an integer that is too large, one followed by anything else, and one with a point and no digits are errors |
| Suffix.SiParseNothing | nvme-cli/util/suffix.c:93-96 | a text that starts with no number is an error, for both parsers |
| Suffix.SiParseWritten | nvme-cli/util/suffix.c:87-167 | for "n.f" and a suffix the result is floor(n.f * 10^e) modulo 2^64, or n * 10^e if the fraction has e digits |
| Suffix.SiParseExactIff | nvme-cli/util/suffix.c:148-156 | without overflow it is floor(n.f * 10^e) exactly if the fraction's length is not e or the fraction is zero |
| Suffix.FractionIsDropped | nvme-cli/util/suffix.c:154-155 | "1.500k" is read as 1000 |
| Suffix.LeadingZeroFraction | nvme-cli/util/suffix.c:125-156 | the exact condition, in terms of the decimal digits kept and cut off, for a fraction with a leading zero, which is read as octal |
| Suffix.SuffixBinaryGet | nvme-cli/util/suffix.c:196-211 | the unit chosen and the rounded quotient, truncating as C does |
| Suffix.UnitChosen | nvme-cli/util/suffix.c:200-203 | the unit is the largest that does not exceed the size |
| Suffix.SuffixBinaryParse | nvme-cli/util/suffix.c:229-266 | success, value and errors for every string, as `BinaryParse` says |
| Suffix.BinarySuffixes | nvme-cli/util/suffix.c:185-194 | the five suffixes in any case and their shifts |
| Suffix.BinaryParseForms | nvme-cli/util/suffix.c:234-265 | an integer alone is its value, with one of these the value shifted modulo 2^64, with anything else an error |
| Suffix.NearestIsNear | nvme-cli/util/suffix.c:203-206 | the printed size is within half a unit, and exact exactly for multiples of the unit |
| Suffix.BinaryRoundTrip | nvme-cli/util/suffix.c:196-266 | reading back a printed size gives that nearest multiple |
| Histogram.RangesMeet | spdk/scripts/histogram.py:38-42 | a range ends where the next starts |
| Histogram.WidthBound | spdk/scripts/histogram.py:38-42 | a bucket is one wide or at most a 2^s-th of its start |
| Histogram.SlotsTile | spdk/scripts/histogram.py:31-42 | bucket ends strictly increase and each bucket starts where the last one ended |
| Histogram.SlotsReach | spdk/scripts/histogram.py:31-42 | the visited buckets reach up to exactly 2^63 |
| Histogram.Total | spdk/scripts/histogram.py:26-29 | the first loops sum every visited slot once |
| Histogram.Report | spdk/scripts/histogram.py:31-46 | the second loops visit every slot once, in order, with its bounds, count and running total |
| Histogram.ReportTiles | spdk/scripts/histogram.py:31-46 | the lines tile [0, 2^63) with the promised resolution, and the last running total is the total minus one |
| Histogram.TallyLands | spdk/include/spdk/histogram_data.h:93-122 | the bucket the C code picks contains the value |
| Histogram.OnlyBucket | spdk/include/spdk/histogram_data.h:93-122 | no other bucket does |
| Histogram.SlotFitsIff | spdk/include/spdk/histogram_data.h:66-73 | the 32-bit slot number is the slot for all values exactly if there are at most 2^32 buckets |
| Histogram.SlotIffBounds | spdk/include/spdk/histogram_data.h:124-131 | a value is tallied in slot k exactly if the script's bounds for k enclose it |
| Histogram.HistogramData.constructor | spdk/include/spdk/histogram_data.h:203-221 | all buckets zero |
| Histogram.HistogramData.Tally | spdk/include/spdk/histogram_data.h:124-131 | one bucket is incremented modulo 2^64, all 32-bit index arithmetic included |
| Histogram.BucketsCount | spdk/include/spdk/histogram_data.h:124-131 | after any values, each bucket holds the number of values inside its bounds modulo 2^64, where the slot number is right |
| Histogram.LineCountsValues | spdk/scripts/histogram.py:33-36 | each line of the script reports the number of values the C code recorded in its range |
| Histogram.RunningTotal | spdk/scripts/histogram.py:35-35 | the running total counts the values below the line's end |
| Histogram.ReportTotal | spdk/scripts/histogram.py:26-29 | the script accounts for exactly the values below 2^63 |
| MemInfo.HeapElement.CheckMemzoneCompatibility | spdk/scripts/dpdk_mem_info.py:124-130 | true exactly if the element covers the zone, which it then records |
| MemInfo.CoversIff | spdk/scripts/dpdk_mem_info.py:125-127 | the test holds exactly if every address of the zone lies in the element |
| MemInfo.SweepHeap | spdk/scripts/dpdk_mem_info.py:92-95 | the loop with removal during iteration: the two lists after it, and the zones recorded |
| MemInfo.Memory.SweepHeaps | spdk/scripts/dpdk_mem_info.py:91-95 | the same for every heap, none disturbing another |
| MemInfo.Memory.AssociateHeapElements | spdk/scripts/dpdk_mem_info.py:89-95 | the lists of every heap after all zones; every element moved covers the zone it records |
| MemInfo.SweepConserves | spdk/scripts/dpdk_mem_info.py:92-95 | a sweep loses and duplicates nothing, and takes out covering elements only |
| MemInfo.AssociationConserves | spdk/scripts/dpdk_mem_info.py:89-95 | over all zones, a heap's elements as a multiset and their total size are conserved |
| MemInfo.MissesNothingIff | spdk/scripts/dpdk_mem_info.py:92-95 | a sweep takes out every covering element exactly if no two of them are neighbours |
| MemInfo.SecondIsSkipped | spdk/scripts/dpdk_mem_info.py:92-95 | of two neighbours that cover a zone the second stays behind |
| MemInfo.MovesExactlyHolders | spdk/scripts/dpdk_mem_info.py:89-95 | with non-overlapping elements and no empty zone, exactly the elements covering some zone are moved |
| MemInfo.ContainsIff | spdk/scripts/dpdk_mem_info.py:100-100 | a zone's name contains a pool's exactly if something before and behind completes it |
| MemInfo.Memory.FillPools | spdk/scripts/dpdk_mem_info.py:98-101 | each pool lists the zones whose names contain its own, in order |
| MemInfo.Memory.EmptyIntoPools | spdk/scripts/dpdk_mem_info.py:103-106 | the zones left are those that match no pool |
| MemInfo.Memory.AssociateMempools | spdk/scripts/dpdk_mem_info.py:97-106 | both together, for every list of pools and zones |
| MemInfo.RemovePool | spdk/scripts/dpdk_mem_info.py:103-106 | removing one more pool's zones from those left, repeated zones included, leaves those matching none of the pools so far |
| MemInfo.SizeAccount | spdk/scripts/dpdk_mem_info.py:97-106 | pools and zones left hold the size of all zones plus the size counted more than once |
| MemInfo.SizeConservedIff | spdk/scripts/dpdk_mem_info.py:97-106 | the total size is conserved exactly if no zone with a size matches two pools |
| MemInfo.CountedTwice | spdk/scripts/dpdk_mem_info.py:97-101 | a zone whose name contains two pools' names is counted in both |

## Left out

- RpmbHost.AuthDataRead: stated for a host that is alone on the link; on a shared link a response may state more sectors than the buffer has room for (`NeverOverrunsIff`), and one that states none lets the loop go round without progress (`CounterRequestStalls`), so that it need not end. The last sector number plus the count is an `int`; from 2^31 on the loop goes on with a request whose size overflows (`NextAgreesIff`).
- RpmbHost.AuthDataWrite: the message's size plus the chunk size is an `int`, as the loop's comparison needs, and the sectors end at 2^32 or before; what is on the target in the end is stated for a host that is alone on the link, and on a shared one per chunk (`WriteChunk`).
- RpmbHost.Link.constructor: at the start the outcome that the target keeps of its last write is taken to state its counter.
- RpmbHost.Submit: the allocation of the frame that asks for the result is not checked in the source; that it fails is not modelled, since C leaves the write through NULL undefined.
- Uint128.Uint128ToString: requires the text to fit the 60-byte buffer, which the source assumes; `FitsIff` says for which separators it always does.
- Suffix.SuffixSiParse: the decimal point is one character; the locale lookup and points of several bytes are not modelled.
- Suffix.SuffixBinaryGet: values whose absolute value or rounding sum is not a `long long` are excluded, since C leaves them undefined.
- Base64.Base64Encode: lengths beyond the range of `int` are not modelled, nor for decoding.
- DhchapKey.CheckText: starts behind the `sscanf` of the header, which is taken to have matched; a text that goes past the 128-byte buffer is excluded, since C leaves that undefined.
- Discovery.Host.Discover: log contents and connect results are arbitrary at each call, but name controllers of a finite universe; the host's own address and interface and libnvme's wildcard matching are not part of a controller's key.
- Discovery.Host.CreateCtrl: `nvmf_add_ctrl` is taken to fail for a controller that is connected already.
- Histogram.Report: bounds are in ticks; the conversion to microseconds, the percentages and the printing are not modelled.
- Histogram.BucketsCount: with more than 2^32 buckets the slot number of the source wraps or its shift is undefined (`SlotFitsIff`); the counts are those of slots that do not wrap.
- RPMB key programming, the device configuration block, and the messages of `check_rpmb_response`, which affect no result.
- HMAC-SHA256 and secret generation themselves: HMAC is an arbitrary function, the transformed secret a parameter.
- The text parsing half and the printers of the memory script; the other SPDK scripts.
- Floating-point helpers of the suffix and 128-bit code.
- nvme-cli/nbft.c, which repeats the shape of the discovery walk over tables parsed elsewhere.
- Option parsing, plugins and output formatting of nvme-cli, which would add easy members only.
