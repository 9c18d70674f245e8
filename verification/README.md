# SmartPay and its web server: a verified model

SmartPay is a small payment-terminal service on top of a copy of libmicrohttpd. This
project models the parts of both in which the program has to get bookkeeping right, and
proves what they are for.

**HTTP Digest authentication** (`digestauth.c`)

* `NonceWindow.dfy`: the table of nonce counters. A slot is specified by a maximum and the
  *set* of values accepted late; the 64-bit mask refines that set over every run.
  `NonceHash.dfy`: which slot a nonce has, what the hash tells apart, several clients.
* `AuthHeader.dfy`, `AuthHeaderLaws.dfy`: the scanner of the Authorization header. It refines
  a scan that does not depend on the key; lookups land on disjoint fields; scanning undoes
  printing.
* `DigestFormulas.dfy`: the hash formulas of RFC 2617 and the server's nonce, also by the parts
  of the texts that are hashed.
* `RequestArguments.dfy`, `DigestAuth.dfy`, `DigestAuthLaws.dfy`: the complete check, who is
  accepted by it, and the exchange from challenge to acceptance.
* `QueryReadings.dfy`, `QueryCuts.dfy`, `DigestUri.dfy`: the server reads a query once and the
  check reads it twice; which requests the check recognises by their URI.

**MD5** (`md5.c`): `Md5Block.dfy` is the unrolled block function against the table of
RFC 1321, `Md5.dfy` the streaming context against one-shot MD5, and `Md5Answer.dfy` a known
answer of RFC 1321, computed from the definitions.

**Query arguments** (`internal.c`): `UrlArguments.dfy` is the in-place parser and
percent-decoder against a pure parser, `UrlPrinting.dfy` its inverse, a printer, and the
escapes of a text.

**Lists of connections** (`internal.h`, `daemon.c`, `connection.c`): `ConnectionLists.dfy` is
the intrusive doubly linked lists on the heap, `DaemonLinks.dfy` the six lists of a daemon
that share their links, `DaemonViews.dfy` which lists a connection is on and deadlines, on the
contents of the lists, and `DaemonLists.dfy` the daemon's operations and the order of the
timeouts.

**The equipment manager** (`src/equipmentMgr.c`): `TerminalService.dfy` is what clients may
rely on over every interleaving of the HTTP handlers with the manager's thread,
`EquipmentManager.dfy` the queue, the store and the manager's loop on the heap.

**Base64** (`base64.c`, `tlsauthentication.c`): `Base64.dfy`, encoder and decoder,
and `Base64Bits.dfy`, the bits that the encoder combines.

`CStrings.dfy` holds the C string functions that the others use.

## Where the program differs from what it says

These are results: the code is modelled as it is, and the exact condition is proved.

* A counter value may be accepted twice. A forward jump does not set the bit of the maximum
  it replaces (`digestauth.c:449-453`), so a superseded maximum is accepted once more as a
  late value: between two registrations `ReplayExactly` says exactly when, `AtMostTwice` that
  it is never more often, and `SupersededMaximumIsAcceptedAgain` gives a run.
* The late branch does not compare the nonce (`digestauth.c:425-434`). So a nonce whose slot
  another nonce has taken is still accepted, with the values at most 64 below the maximum of
  its successor that have not come late: `EvictedNonceExactly`. `EvictedNonceIsAcceptedAgain` is
  a run in which a counter of the old nonce is accepted a second time that way.
* A client can register its nonce itself: the check hands its counter to the function that
  takes the counter 0 as a registration (`digestauth.c:413-422`, `digestauth.c:842-849`). An
  answer with the counter 0 is accepted every time and empties the window, so that earlier
  counters are accepted again, any number of times: `ZeroCounterRestartsWindow`,
  `AnswerRepeatsAfterZero`. `ReplayInAnyRun` and `ReplayOnTable` say exactly when a value is
  accepted again in runs in which the counter 0 may come at any time, and
  `HonestAnswerExactly` what an honest answer gets for every window that its slot may hold.
* `MHD_http_unescape` says that it returns `strlen (val)`. That holds exactly if the text has
  no `%00`: `ReturnedLengthIsStrlen`, `ReturnedLength`. For `%00` it returns 1:
  `NulEscapeIsCounted`.
* The server splits a request target at its first question mark and reads each part once.
  The check unescapes the URI of the header as a whole, splits the result, and reads the
  query once more (`digestauth.c:888-923`). `UriNamesRequestExactly` says for every target
  what the check compares. Where no escape of the path stands for a question mark or a
  terminator, both readings agree exactly if the query is `Alike` (`AlikeExactly`). Without an
  escaped terminator that means `Stable`: no escape stands for an ampersand or a plus, none in
  a key for an equals sign, and the decoded query has no escape. With one, what precedes the
  first `%00` has to be stable and not end in an empty argument, the `%00` must not separate a
  key from an equals sign, and no argument may follow. Such requests are recognised
  (`AlikeQueryNamesRequest`), and only such if the arguments that the check reads are distinct
  (`DistinctQueryNamesRequestExactly`); `RepeatedArgumentHidesInstability` is a request in which
  they are not. The other cases: `EscapedQuestionMarkStartsQuery`, `EscapedNulDropsQuery`.
  `EscapedDelimiterIsNotRecognised` and `EscapedQuestionMarkIsNotRecognised` are requests that
  clients may well send.
* The URI of the header only has to start with the URL of the request (`digestauth.c:892-894`):
  if the URI of a request is recognised, so is every one that continues its path without
  escapes (`UriBeyondUrlPasses`).
* `check_argument_match` compares sets and counts, not multisets: a match means a permutation
  if and only if the parsed pairs are distinct (`MatchIsPermutationExactly`). `a&a` in the
  header matches a request with the arguments a and b (`RepeatedArgumentIsAccepted`).
* The list of normal timeouts is documented as sorted, and `MHD_get_timeout` and the idle
  scan rely on it (`internal.h:1299-1320`, `daemon.c:3176-3185`). Setting the default timeout
  on a connection puts it at the head without changing the time of its last activity
  (`connection.c:3876-3912`). `SetTimeout` gives the exact condition under which the order
  survives, `ExpiredConnectionIsOverslept` a run in which it does not. A new connection is
  stamped before the critical section that puts it at the head (`daemon.c:2347`,
  `daemon.c:2407-2440`), so that threads which add connections can swap them: `AddConnection`
  has the exact condition, `OlderStampIsOverslept` the run. `GetTimeout` and `ScanExpired` say
  exactly when the wait and the scan are right all the same. The comment also says that an
  active connection moves to the tail; it moves to the head.
* The listing of all terminals starts with two spaces more than the other answers
  (`equipmentMgr.c:55-66`): `Listing` has them.
* The encoded text of a message fits the buffer of twice its length exactly for three
  characters and for five or more: `EncodedFitsExactly`.
* The same encoder converts a `char` to `unsigned long`. Where `char` is signed, a byte from
  128 on covers the bytes of its group that come before it (`tlsauthentication.c:43-45`). The
  round trip through the decoder gives a message back exactly if all covered bytes are 255:
  `RoundTripExactly`; `AccentIsGarbled` is a message that is lost.

## Model

| member | source | states |
|---|---|---|
| `NonceWindow.NonceTable.CheckNonceNc` | libmicrohttpd/src/microhttpd/digestauth.c:378-456 | One atomic call on the table: the slot that the hash of the nonce selects answers and advances as the set-based window says, every other slot is as before; without a table or with a nonce that is too long nothing happens and the answer is no. `NonceHash` says what the hash tells apart. |
| `NonceWindow.TestFindsLate` | libmicrohttpd/src/microhttpd/digestauth.c:425-428 | The mask test succeeds if and only if the value has not arrived late. |
| `NonceWindow.LateKeepsTracking` | libmicrohttpd/src/microhttpd/digestauth.c:430-433 | Setting one bit adds one value to the set that the mask stands for. |
| `NonceWindow.JumpKeepsTracking` | libmicrohttpd/src/microhttpd/digestauth.c:449-453 | Shifting by a jump below 64 keeps every bit on its own counter value. |
| `NonceWindow.LeapKeepsTracking` | libmicrohttpd/src/microhttpd/digestauth.c:451-453 | After a jump of 64 or more no late value is within reach of the mask, so clearing it loses nothing. |
| `NonceWindow.StaysSound` | libmicrohttpd/src/microhttpd/digestauth.c:413-455 | In every run, late values lie below the maximum. |
| `NonceWindow.WindowGrows` | libmicrohttpd/src/microhttpd/digestauth.c:425-455 | Between registrations the maximum only grows, no late value is forgotten and the nonce stays. |
| `NonceWindow.RegistrationRestarts` | libmicrohttpd/src/microhttpd/digestauth.c:413-422 | A zero counter restarts the slot, whatever it held. |
| `NonceWindow.LateIsHistory` | libmicrohttpd/src/microhttpd/digestauth.c:425-434 | A value is in the window's set if and only if it was there before or the late branch accepted it since. |
| `NonceWindow.MaskIsHistory` | libmicrohttpd/src/microhttpd/digestauth.c:425-455 | Over every run since a registration: bit k is set if and only if the value k+1 below the maximum was accepted late. |
| `NonceWindow.ReplayExactly` | libmicrohttpd/src/microhttpd/digestauth.c:425-455 | A value accepted before is accepted again if and only if it was a maximum then, is at most 64 below the maximum now, and was not accepted late in between. |
| `NonceWindow.AtMostTwice` | libmicrohttpd/src/microhttpd/digestauth.c:425-455 | Between registrations no value is accepted three times. |
| `NonceWindow.SupersededMaximumIsAcceptedAgain` | libmicrohttpd/src/microhttpd/digestauth.c:449-453 | From any state: register, 1, 2, 1, 1 is accepted, accepted, accepted, refused. |
| `NonceWindow.RegistrationForgets` | libmicrohttpd/src/microhttpd/digestauth.c:413-422 | After a zero counter the slot is what the later requests make of an empty window. |
| `NonceWindow.AcceptedBehindRegistration` | libmicrohttpd/src/microhttpd/digestauth.c:413-455 | In every run, behind the last zero counter: a value is accepted if and only if it is at most 64 below the maximum and was not accepted late since, or it is above the maximum and comes with the nonce of that registration. |
| `NonceWindow.EvictedNonceExactly` | libmicrohttpd/src/microhttpd/digestauth.c:425-434 | A nonce that its slot no longer holds is accepted exactly with the values that are at most 64 below the maximum and were not accepted late since. |
| `NonceWindow.EvictedNonceIsAcceptedAgain` | libmicrohttpd/src/microhttpd/digestauth.c:425-434 | From any state: a counter accepted as the maximum of one nonce is accepted again after another nonce has taken the slot. |
| `NonceWindow.ReachEnds` | libmicrohttpd/src/microhttpd/digestauth.c:425-428 | From every window: behind the maximum 65 the counter 1 is accepted and behind 66 it is not; at the end of the 64-bit range only values to which 64 can be added are. |
| `NonceWindow.ReplayInAnyRun` | libmicrohttpd/src/microhttpd/digestauth.c:413-455 | In every run, a value presented again: 0 is accepted; with no 0 in between, it is accepted again exactly as for runs without one; behind a 0 exactly if it is at most 64 below the maximum and not late since, or above the maximum with the registered nonce. |
| `NonceWindow.AcceptedAfterZero` | libmicrohttpd/src/microhttpd/digestauth.c:413-455 | Directly behind a zero counter every counter of its nonce is accepted. |
| `NonceWindow.CallsProject` | libmicrohttpd/src/microhttpd/digestauth.c:378-456 | What a run of calls on the table does to one slot is what the calls that reach it do. |
| `NonceWindow.VerdictInSlot` | libmicrohttpd/src/microhttpd/digestauth.c:378-456 | What the table answers to a call is what its slot answers in the run of the calls that reach it. |
| `NonceWindow.ReplayOnTable` | libmicrohttpd/src/microhttpd/digestauth.c:378-456 | The same law, with its conditions on the calls that reached the slot, for calls on the whole table with any other calls in between. |
| `NonceWindow.SlotKeepsRoom` | libmicrohttpd/src/microhttpd/digestauth.c:378-456 | A slot still holds its nonce with a maximum below n after any calls of which none registers in the slot and none presents the nonce with n or more. |
| `NonceHash.OctetExactly` | libmicrohttpd/src/microhttpd/digestauth.c:403-406 | The byte that is hashed is the character modulo 256. |
| `NonceHash.WidenExactly` | libmicrohttpd/src/microhttpd/digestauth.c:403-406 | A character from 128 on enters the hash as a negative number, with all upper bits set. |
| `NonceHash.HashIsColumns` | libmicrohttpd/src/microhttpd/digestauth.c:401-407 | For every ASCII text byte k of the hash is the xor of every fourth character counted back from the k-th last one. |
| `NonceHash.HighCharacterCovers` | libmicrohttpd/src/microhttpd/digestauth.c:405 | A character from 128 on sets the upper three bytes and keeps of what came before only its highest byte. |
| `NonceHash.LastCharacterTells` | libmicrohttpd/src/microhttpd/digestauth.c:401-407 | Two texts of bytes that differ at most in the last character have the same hash if and only if they are equal. |
| `NonceHash.FourSlots` | libmicrohttpd/src/microhttpd/daemon.c:5401 | In the default table of four slots such texts share a slot if and only if their last characters are equal modulo four. |
| `NonceHash.OthersLeaveSlot` | libmicrohttpd/src/microhttpd/digestauth.c:378-456 | Calls that reach other slots leave a slot as it is. |
| `NonceHash.FirstOfTwoClients` | libmicrohttpd/src/microhttpd/digestauth.c:378-456 | Two clients are challenged in turn with nonces that differ in the last character: the answer of the first one is accepted if and only if the nonces have different slots of the default table. |
| `AuthHeader.EqualCaselessN` | libmicrohttpd/src/microhttpd/mhd_str.c:358-376 | Compares the first characters without case; the end of the data equals no key character. |
| `AuthHeader.NextField` | libmicrohttpd/src/microhttpd/digestauth.c:303-325 | The pointer arithmetic of one turn finds the first field of what is left, and fails exactly if there is none. |
| `AuthHeader.CopyValue` | libmicrohttpd/src/microhttpd/digestauth.c:331-353 | The value is cut to the buffer, terminated inside it, and the returned length is what was copied. |
| `AuthHeader.LookupSubValue` | libmicrohttpd/src/microhttpd/digestauth.c:285-366 | On every header: terminates and returns the value of the first field of the key-independent scan whose key is equal without case, cut to size-1 and terminated; otherwise the buffer is untouched. |
| `AuthHeaderLaws.FieldsFit` | libmicrohttpd/src/microhttpd/digestauth.c:299-363 | The keys, equals signs and values of all scanned fields take no more than the header. |
| `AuthHeaderLaws.UsedIsKept` | libmicrohttpd/src/microhttpd/digestauth.c:285-366 | Keys that differ beyond case are found in different fields of the scan. |
| `AuthHeaderLaws.LookupsAreDisjoint` | libmicrohttpd/src/microhttpd/digestauth.c:285-366 | So what lookups of such keys find fits into the header together. |
| `AuthHeaderLaws.LeftHoldsTheUri` | libmicrohttpd/src/microhttpd/digestauth.c:707-742 | On every header `left` never underflows and a buffer of left+1 bytes holds the whole URI, however the first three values were cut. |
| `AuthHeaderLaws.ScanInvertsPrint` | libmicrohttpd/src/microhttpd/digestauth.c:299-363 | Scanning a printed list of fields, quoted or not, with any spacing, gives the list back; quoted values may hold commas and equals signs. |
| `AuthHeaderLaws.LookupInvertsPrint` | libmicrohttpd/src/microhttpd/digestauth.c:285-366 | A lookup in a printed header yields the value of the first item whose key is equal without case. |
| `Md5Block.LoadAfterStore` | libmicrohttpd/src/microhttpd/md5.c:33-37 | A word stored with the lowest byte first is loaded back. |
| `Md5Block.StoreAfterLoad` | libmicrohttpd/src/microhttpd/md5.c:175-182 | Four bytes loaded as a word are stored back. |
| `Md5Block.RotationsOfRound1` | libmicrohttpd/src/microhttpd/md5.c:158-160 | For the four shift amounts s of round 1: the upper s bits of the word come to lie at the bottom, in order, and the others move up over them. |
| `Md5Block.RotationsOfRound2` | libmicrohttpd/src/microhttpd/md5.c:158-160 | The same for round 2. |
| `Md5Block.RotationsOfRound3` | libmicrohttpd/src/microhttpd/md5.c:158-160 | The same for round 3. |
| `Md5Block.RotationsOfRound4` | libmicrohttpd/src/microhttpd/md5.c:158-160 | The same for round 4. |
| `Md5Block.F1IsF` | libmicrohttpd/src/microhttpd/md5.c:152-153 | The optimised F1 is F of RFC 1321. |
| `Md5Block.F2IsG` | libmicrohttpd/src/microhttpd/md5.c:154 | F2, which is F1 with its arguments rotated, is G. |
| `Md5Block.OptimisedAgrees` | libmicrohttpd/src/microhttpd/md5.c:150-156 | In each of the 64 steps the macro used is the auxiliary function of the standard. |
| `Md5Block.StepAgrees` | libmicrohttpd/src/microhttpd/md5.c:158-160 | One macro step with rotated register names is one step of the table-driven algorithm. |
| `Md5Block.Round1a` | libmicrohttpd/src/microhttpd/md5.c:190-197 | Steps 1 to 8 as unrolled are those of the table. |
| `Md5Block.Round1b` | libmicrohttpd/src/microhttpd/md5.c:198-205 | Steps 9 to 16. |
| `Md5Block.Round2a` | libmicrohttpd/src/microhttpd/md5.c:207-214 | Steps 17 to 24. |
| `Md5Block.Round2b` | libmicrohttpd/src/microhttpd/md5.c:215-222 | Steps 25 to 32. |
| `Md5Block.Round3a` | libmicrohttpd/src/microhttpd/md5.c:224-231 | Steps 33 to 40. |
| `Md5Block.Round3b` | libmicrohttpd/src/microhttpd/md5.c:232-239 | Steps 41 to 48. |
| `Md5Block.Round4a` | libmicrohttpd/src/microhttpd/md5.c:241-248 | Steps 49 to 56. |
| `Md5Block.Round4b` | libmicrohttpd/src/microhttpd/md5.c:249-256 | Steps 57 to 64. |
| `Md5Block.MD5Transform` | libmicrohttpd/src/microhttpd/md5.c:167-262 | For every state and block the unrolled transform is the block function of section 3.4 of RFC 1321, whose rotations and known answer are proved separately. |
| `Md5Block.MemcpyLoadsTheSame` | libmicrohttpd/src/microhttpd/md5.c:172-183 | Sixteen words are those loaded byte by byte if and only if their little-endian image is the block, so both ways of loading agree. |
| `Md5.ZeroFill` | libmicrohttpd/src/microhttpd/md5.c:122-127 | The zeros that bring a message and one byte to 56 modulo 64. |
| `Md5.PaddingIsInjective` | libmicrohttpd/src/microhttpd/md5.c:110-129 | Different messages shorter than 2^61 bytes are padded differently. |
| `Md5.CountGivesOffset` | libmicrohttpd/src/microhttpd/md5.c:74-76 | The offset in the block survives the wrap of the bit count at 2^64. |
| `Md5.CountAdds` | libmicrohttpd/src/microhttpd/md5.c:78-79 | Adding the bits of a piece to the wrapped count is wrapping the sum. |
| `Md5.PieceFits` | libmicrohttpd/src/microhttpd/md5.c:81-103 | A piece too short to fill the buffer only extends the unprocessed tail. |
| `Md5.PieceCompletes` | libmicrohttpd/src/microhttpd/md5.c:83-90 | The bytes that complete the buffered block advance the chain by that block. |
| `Md5.PieceLeaves` | libmicrohttpd/src/microhttpd/md5.c:92-103 | What is left behind the whole blocks is the new tail. |
| `Md5.Context.MD5Init` | libmicrohttpd/src/microhttpd/md5.c:49-60 | The context stands for the empty message. |
| `Md5.Context.MD5Update` | libmicrohttpd/src/microhttpd/md5.c:66-104 | The context stands for the old message followed by the piece: registers are the chain over its whole blocks, buffer its tail, count its bits modulo 2^64. |
| `Md5.Context.MD5Pad` | libmicrohttpd/src/microhttpd/md5.c:110-129 | The context absorbs the padding of sections 3.1 and 3.2 of RFC 1321; between 1 and 64 bytes before the length. |
| `Md5.PaddedInTwoPieces` | libmicrohttpd/src/microhttpd/md5.c:120-128 | The computed padding length and the length bytes are the standard's padding. |
| `Md5.LittleEndianShifts` | libmicrohttpd/src/microhttpd/md5.c:23-31 | Eight shifted bytes are the little-endian form of the bit count. |
| `Md5.LittleEndianAt` | libmicrohttpd/src/microhttpd/md5.c:23-31 | Byte i of the bit count is its quotient by 256 to the power i, modulo 256. |
| `Md5.PutWord` | libmicrohttpd/src/microhttpd/md5.c:33-37 | Writes one word and nothing else. |
| `Md5.Context.MD5Final` | libmicrohttpd/src/microhttpd/md5.c:134-147 | The digest is one-shot MD5 of everything absorbed, and the context is wiped. |
| `Md5.HashPieces` | libmicrohttpd/src/microhttpd/md5.c:49-147 | Every way of cutting a message into updates gives the digest of the message. |
| `Md5Answer.WordsOfAbc` | libmicrohttpd/src/microhttpd/md5.c:172-183 | The padded message "abc" is loaded as the words 0x80636261, thirteen zeros, 24 and 0. |
| `Md5Answer.After64` | libmicrohttpd/src/microhttpd/md5.c:190-256 | The registers after the 64 steps on this block, computed step by step from the definitions. |
| `Md5Answer.DigestOfAbc` | libmicrohttpd/src/microhttpd/md5.c:49-147 | The digest of "abc" is the one given in section A.5 of RFC 1321. |
| `Md5Answer.HashOfAbc` | libmicrohttpd/src/microhttpd/digestauth.c:76-92 | Its hash as text is 900150983cd24fb0d6963f7d28e17f72. |
| `CStrings.StrxToUintN` | libmicrohttpd/src/microhttpd/mhd_str.c:580-692 | The number of leading hexadecimal digits and their value, or nothing exactly if the value exceeds the maximum; `HexValueExactly` says which characters are digits. |
| `CStrings.HexNumberGrows` | libmicrohttpd/src/microhttpd/mhd_str.c:593-602 | More digits never make a smaller number, so the overflow test may stop at the first digit that is too many. |
| `CStrings.HexValueExactly` | libmicrohttpd/src/microhttpd/mhd_str.c:312-316 | For every character: its value is v if and only if it is the v-th of "0123456789ABCDEF" or of "0123456789abcdef", and -1 if and only if it is in neither. |
| `CStrings.DigitsAreRead` | libmicrohttpd/src/microhttpd/mhd_str.c:580-692 | Digits followed by the end, the limit or another character are read as a whole, or not at all if their number is too large. |
| `CStrings.DigitsAreBelow` | libmicrohttpd/src/microhttpd/mhd_str.c:580-602 | n digits write a number below 16 to the power n. |
| `CStrings.LimitsOfWords` | libmicrohttpd/src/microhttpd/mhd_str.c:580-692 | The limits are those of words of 32 and 64 bits. |
| `CStrings.ToLowerExactly` | libmicrohttpd/src/microhttpd/mhd_str.c:283 | The i-th capital letter becomes the i-th small one, and nothing else changes. |
| `UrlArguments.UnescapePlus` | libmicrohttpd/src/microhttpd/internal.c:116-123 | Every plus of the string becomes a space, nothing else in the buffer changes. |
| `UrlArguments.EscapeIsSeen` | libmicrohttpd/src/microhttpd/internal.c:146-155 | The conversion of two digits behind a percent sign succeeds exactly on an escape inside the string. |
| `UrlArguments.ReadOne` | libmicrohttpd/src/microhttpd/internal.c:144-162 | One turn of the switch yields the first decoded character and where the rest starts. |
| `UrlArguments.HttpUnescape` | libmicrohttpd/src/microhttpd/internal.c:135-166 | In place: the buffer holds the pure decoding of the old string and a terminator, never longer than before; the write position never passes the read position. `UrlPrinting.EscapeExactly` says what is decoded. |
| `UrlArguments.UnescapeArgument` | libmicrohttpd/src/microhttpd/internal.c:221-228 | Plus and percent decoding of one delimited text leave the rest of the buffer alone. |
| `UrlArguments.KeyOnly` | libmicrohttpd/src/microhttpd/internal.c:203-209 | A segment without an equals sign is a key without a value. |
| `UrlArguments.KeyAndValue` | libmicrohttpd/src/microhttpd/internal.c:218-228 | A segment is split at its first equals sign and both sides are decoded. |
| `UrlArguments.FirstSegment` | libmicrohttpd/src/microhttpd/internal.c:198-200 | The two searches of one turn find the first segment and its first equals sign. |
| `UrlArguments.OneArgument` | libmicrohttpd/src/microhttpd/internal.c:195-277 | One turn of the loop delivers the first argument of what is left and goes on behind its delimiter. |
| `UrlArguments.ParseArgumentsStep` | libmicrohttpd/src/microhttpd/internal.c:195-278 | The pure parser, which splits everything first, can be read one segment at a time. |
| `UrlArguments.ParseArgumentsInPlace` | libmicrohttpd/src/microhttpd/internal.c:184-279 | On every string: the callback gets the arguments of the pure parser in order, up to and including the first it refuses, and the number of headers is their count modulo 2^32. |
| `UrlPrinting.EscapeExactly` | libmicrohttpd/src/microhttpd/internal.c:144-158 | For every text and character: the decoder sees an escape for the character at the start if and only if there are a percent sign and two digits, in either case, that write its code. |
| `UrlPrinting.DecodeInvertsPercentEncoding` | libmicrohttpd/src/microhttpd/internal.c:135-166 | Decoding any percent-encoding of section 2.1 of RFC 3986 gives the bytes back. |
| `UrlPrinting.DecodeInvertsFormEncoding` | libmicrohttpd/src/microhttpd/internal.c:116-166 | So does decoding any form-urlencoding, with spaces written as a plus. |
| `UrlPrinting.EncodeEncodes` | libmicrohttpd/src/microhttpd/internal.c:135-166 | Every string of bytes has such an encoding. |
| `UrlPrinting.ParseInvertsPrint` | libmicrohttpd/src/microhttpd/internal.c:184-279 | Parsing a printed list of NUL-free pairs gives the list back if and only if it does not end in an empty key without a value, which is dropped. |
| `UrlPrinting.EscapesStep` | libmicrohttpd/src/microhttpd/internal.c:144-162 | The escapes of a text are the one at its start and those of the rest behind it; none lies inside another. |
| `UrlPrinting.DecodesTo` | libmicrohttpd/src/microhttpd/internal.c:144-162 | A character that does not occur in a text occurs in its decoding if and only if an escape stands for it. |
| `UrlPrinting.ReturnedLengthIsStrlen` | libmicrohttpd/src/microhttpd/internal.c:131-165 | The length of the decoding is the length of the resulting C string if and only if the text has no `%00`. |
| `UrlPrinting.ReturnedLength` | libmicrohttpd/src/microhttpd/internal.c:131-166 | On the buffer: the returned length is that of the string left there if and only if the old string had no `%00`. |
| `UrlPrinting.NulEscapeIsCounted` | libmicrohttpd/src/microhttpd/internal.c:131-165 | For `%00` the function returns 1 and leaves the empty string. |
| `DigestFormulas.OctetsExactly` | libmicrohttpd/src/microhttpd/digestauth.c:120-122 | The bytes hashed for a text are its characters. |
| `DigestFormulas.Cvthex` | libmicrohttpd/src/microhttpd/digestauth.c:76-92 | Writes two lower-case digits a byte and a terminator. |
| `DigestFormulas.HexAt` | libmicrohttpd/src/microhttpd/digestauth.c:84-91 | Byte i is written at 2i and 2i+1 as its high and low digit of "0123456789abcdef". |
| `DigestFormulas.HexReadsBack` | libmicrohttpd/src/microhttpd/digestauth.c:76-92 | The digits read back as the big-endian number of the bytes. |
| `DigestFormulas.HashA1` | libmicrohttpd/src/microhttpd/digestauth.c:119-136 | Hashing five pieces is hashing A1 of section 3.2.2.2 of RFC 2617, whose parts `A1Parts` gives. |
| `DigestFormulas.A1Parts` | libmicrohttpd/src/microhttpd/digestauth.c:119-133 | For names without a ':' the text split at its first two colons is username, realm, password. |
| `DigestFormulas.HashSession` | libmicrohttpd/src/microhttpd/digestauth.c:137-158 | The second hash of the session variant, over the sixteen bytes of the first and both nonces. |
| `DigestFormulas.HA1Hashes` | libmicrohttpd/src/microhttpd/digestauth.c:107-162 | For names and a nonce without a ':', stated on the parts of the texts hashed: H(A1) hashes username, realm, password; for "md5-sess" it hashes the sixteen bytes of such a hash followed by the parts "", nonce, cnonce. |
| `DigestFormulas.DigestCalcHa1` | libmicrohttpd/src/microhttpd/digestauth.c:107-162 | H(A1) as text, for both algorithms; its contract also names the parts of the text that is hashed. |
| `DigestFormulas.HashA2` | libmicrohttpd/src/microhttpd/digestauth.c:195-224 | H(A2) over method and URI. |
| `DigestFormulas.HashRequest` | libmicrohttpd/src/microhttpd/digestauth.c:225-264 | Hashing the pieces one by one, with the optional ones, is hashing the text of the request-digest. |
| `DigestFormulas.ResponseHashes` | libmicrohttpd/src/microhttpd/digestauth.c:178-268 | For values without a ':': the request-digest is a hash of the parts H(A1), nonce, counter, client nonce, qop, H(A2), or of H(A1), nonce, H(A2) without a qop, where H(A2) is a hash of the parts method and URI. |
| `DigestFormulas.DigestCalcResponse` | libmicrohttpd/src/microhttpd/digestauth.c:178-268 | The request-digest of section 3.2.2.1, with and without a quality of protection; its contract also names the parts of the texts that are hashed. |
| `DigestFormulas.CalculateNonce` | libmicrohttpd/src/microhttpd/digestauth.c:507-565 | The server's nonce: the hash over time, method, random seed, URL and realm, then the time; its contract also names the parts of the text that is hashed. |
| `DigestFormulas.NonceHashes` | libmicrohttpd/src/microhttpd/digestauth.c:507-565 | Method, seed, URL and realm can be read back from the text that is hashed, if the first three have no ':'. |
| `DigestFormulas.TimeReadsBack` | libmicrohttpd/src/microhttpd/digestauth.c:754-765 | The last eight digits of an issued nonce read back as its time. |
| `DigestFormulas.NonceTellsTime` | libmicrohttpd/src/microhttpd/digestauth.c:507-565 | Nonces of different times differ. |
| `DigestFormulas.NonceIsText` | libmicrohttpd/src/microhttpd/digestauth.c:507-565 | An issued nonce has no quote and no terminator, so a quoted field can carry it. |
| `DigestFormulas.InTimeExactly` | libmicrohttpd/src/microhttpd/digestauth.c:766-776 | The 32-bit expiry test holds if and only if issue time plus timeout does not wrap and is not over. |
| `DigestFormulas.VettedExactly` | libmicrohttpd/src/microhttpd/digestauth.c:754-798 | A nonce passes both vettings if and only if it was issued for this method, seed, URL and realm at a time whose timeout does not wrap and has not passed. |
| `RequestArguments.TestHeader` | libmicrohttpd/src/microhttpd/digestauth.c:579-605 | Finds out whether a header of this kind, key and value, or absent value, was received. |
| `RequestArguments.ReceivedHas` | libmicrohttpd/src/microhttpd/digestauth.c:579-605 | That is membership in the received GET arguments. |
| `RequestArguments.CountDown` | libmicrohttpd/src/microhttpd/digestauth.c:641-656 | The wrapping counter ends at zero if and only if the counts agree modulo 2^32. |
| `RequestArguments.CheckArgumentMatch` | libmicrohttpd/src/microhttpd/digestauth.c:618-657 | Accepts if and only if every parsed pair was received and the counts agree. |
| `RequestArguments.DistinctMatchIsPermutation` | libmicrohttpd/src/microhttpd/digestauth.c:618-657 | For pairwise distinct parsed pairs, a match means exactly that the received ones are a permutation of them. |
| `RequestArguments.OverwrittenMatches` | libmicrohttpd/src/microhttpd/digestauth.c:618-657 | If one of two equal parsed pairs is overwritten with a new one, the result still matches, and is no permutation. |
| `RequestArguments.MatchIsPermutationExactly` | libmicrohttpd/src/microhttpd/digestauth.c:618-657 | For all parsed pairs: every match is a permutation if and only if they are pairwise distinct. |
| `RequestArguments.RepeatedArgumentIsAccepted` | libmicrohttpd/src/microhttpd/digestauth.c:618-657 | The arguments `a&a` are accepted for a request with the arguments a and b. |
| `QueryReadings.SecondIsLighter` | libmicrohttpd/src/microhttpd/digestauth.c:888-923 | The second reading of a query has less text than the first, unless no escape stands for an ampersand or a plus and the decoded query has no escape. |
| `QueryReadings.SegmentKeys` | libmicrohttpd/src/microhttpd/internal.c:203-228 | Both readings of one argument agree unless an escape of its key stands for an equals sign; then the key becomes shorter. |
| `QueryReadings.ReadTheSameExactly` | libmicrohttpd/src/microhttpd/digestauth.c:888-923 | Both readings of a query without terminators give the same arguments, in order or up to order, if and only if it is stable. |
| `QueryReadings.PlainEscapesAreStable` | libmicrohttpd/src/microhttpd/digestauth.c:888-923 | A query is stable if every percent sign starts an escape and none stands for an ampersand, an equals sign, a plus or a percent sign. |
| `QueryReadings.NulCuts` | libmicrohttpd/src/microhttpd/internal.c:135-166 | The C string that is left of a decoded text is the decoding of what precedes the first `%00`. |
| `QueryReadings.AtMostOneAPlace` | libmicrohttpd/src/microhttpd/internal.c:184-279 | A query has no more arguments than characters. |
| `QueryCuts.UnescapeEnds` | libmicrohttpd/src/microhttpd/internal.c:221-228 | A key or a value ends at its first `%00`, as far as the callback sees it. |
| `QueryCuts.ArgumentEnds` | libmicrohttpd/src/microhttpd/internal.c:203-228 | An argument with a `%00` is that of the text before it, unless the `%00` separates the key from an equals sign: then it has a value all the same. |
| `QueryCuts.FirstReadingOfCut` | libmicrohttpd/src/microhttpd/internal.c:184-279 | The server goes on behind the next ampersand: its arguments of a query with a `%00` are those before it, the one that it ends, and those that follow. |
| `QueryCuts.CutCompares` | libmicrohttpd/src/microhttpd/internal.c:184-279 | These have as much text as the arguments of what precedes the `%00`, or more; equally much and equally many exactly if the `%00` is harmless, and then they are the same. |
| `QueryCuts.CutReadsTheSameExactly` | libmicrohttpd/src/microhttpd/digestauth.c:888-923 | Both readings of a query with a `%00` give the same arguments, in order or up to order, if and only if it is harmless and what precedes it is stable. |
| `QueryCuts.AlikeExactly` | libmicrohttpd/src/microhttpd/digestauth.c:888-923 | For every query: both readings give the same arguments if and only if its text meets the condition for queries with or without a `%00`. |
| `DigestAuth.Fetch` | libmicrohttpd/src/microhttpd/digestauth.c:707-736 | What a lookup leaves in a buffer of the given size. |
| `DigestAuth.VetRequest` | libmicrohttpd/src/microhttpd/digestauth.c:696-753 | The checks of prefix, user, realm, nonce and header length, in order, give the verdict of the specification. |
| `DigestAuth.LeftIsNatural` | libmicrohttpd/src/microhttpd/digestauth.c:707-742 | The space left for the URI is never negative. |
| `DigestAuth.VetTheNonce` | libmicrohttpd/src/microhttpd/digestauth.c:754-798 | Malformed times are refused, expired or foreign nonces are answered as invalid. |
| `DigestAuth.VetTheCounter` | libmicrohttpd/src/microhttpd/digestauth.c:799-835 | The remaining fields must be there, the quality of protection be auth, and the counter a hexadecimal number of 64 bits. |
| `DigestAuth.CompareUri` | libmicrohttpd/src/microhttpd/digestauth.c:888-923 | Succeeds if and only if the unescaped URI starts with the URL of the request and its arguments match. |
| `DigestAuth.Answer` | libmicrohttpd/src/microhttpd/digestauth.c:850-929 | Yes if and only if there is a URI, it names the request, and the response is the expected digest over the URI as sent. |
| `DigestAuth.Admit` | libmicrohttpd/src/microhttpd/digestauth.c:836-929 | Yes if and only if the nonce table accepts the counter and the last stage agrees; one slot advances. |
| `DigestAuth.DigestAuthCheck` | libmicrohttpd/src/microhttpd/digestauth.c:673-930 | The whole check: the table is asked exactly if the vetting succeeds, only the slot of that nonce changes, and the result is determined by vetting, window and answer. |
| `DigestAuth.ClaimIsSound` | libmicrohttpd/src/microhttpd/digestauth.c:696-835 | A claim that survives vetting has a nonce of standard length. |
| `DigestAuth.IssueNonce` | libmicrohttpd/src/microhttpd/digestauth.c:958-976 | Issues the nonce of this request and starts an empty window in its slot, or fails exactly without a table. |
| `DigestUri.UnescapedUri` | libmicrohttpd/src/microhttpd/digestauth.c:888-893 | For every target: the unescaped URI is the URL that the server made of the path, followed by the query decoded as a whole, or by nothing if an escaped terminator in the path ends it. |
| `DigestUri.UriNamesRequestExactly` | libmicrohttpd/src/microhttpd/digestauth.c:888-923 | For every target: the URI of a request is recognised if and only if the arguments that the server parsed match those of the query that the check reads. |
| `DigestUri.PlainPathReadsQuery` | libmicrohttpd/src/microhttpd/digestauth.c:903-911 | If no escape of the path stands for a question mark or a terminator, the check reads the query of the request, decoded once. |
| `DigestUri.AlikeQueryNamesRequest` | libmicrohttpd/src/microhttpd/digestauth.c:888-923 | Behind such a path every query is recognised that both readings take alike. |
| `DigestUri.StableQueryNamesRequest` | libmicrohttpd/src/microhttpd/digestauth.c:888-923 | In particular every stable query without a `%00`. |
| `DigestUri.PlainEscapesNameRequest` | libmicrohttpd/src/microhttpd/digestauth.c:888-923 | And every one whose escapes all stand for ordinary characters. |
| `DigestUri.DistinctQueryNamesRequestExactly` | libmicrohttpd/src/microhttpd/digestauth.c:888-923 | If the arguments that the check reads are distinct, a request behind such a path is recognised if and only if both readings take its query alike, whether or not it has a `%00`. |
| `DigestUri.RepeatedArgumentHidesInstability` | libmicrohttpd/src/microhttpd/digestauth.c:618-657 | Without that it need not be: `/?a=%2B&a=+` is recognised. |
| `DigestUri.EscapedNulCutsQuery` | libmicrohttpd/src/microhttpd/digestauth.c:888-911 | A `%00` in the query ends what the check reads of it. |
| `DigestUri.HarmlessNulIsRecognised` | libmicrohttpd/src/microhttpd/digestauth.c:888-923 | The request for `/?a=b%00c` is recognised. |
| `DigestUri.EscapedQuestionMarkStartsQuery` | libmicrohttpd/src/microhttpd/digestauth.c:903-911 | A target without a query is recognised if and only if its URL has nothing behind its first question mark. |
| `DigestUri.EscapedNulDropsQuery` | libmicrohttpd/src/microhttpd/digestauth.c:888-911 | With a `%00` in the path a request is recognised if and only if its query is empty. |
| `DigestUri.EscapedQuestionMarkIsNotRecognised` | libmicrohttpd/src/microhttpd/connection.c:2228-2262 | The request for `/%3Fb` has the URL `/?b` and no arguments, and is not recognised. |
| `DigestUri.EscapedDelimiterIsNotRecognised` | libmicrohttpd/src/microhttpd/digestauth.c:888-923 | The request for `/?a=%26` has the one argument a with the value `&`, and is not recognised. |
| `DigestUri.OtherUriIsRefused` | libmicrohttpd/src/microhttpd/digestauth.c:892-899 | A URI without escapes that does not start with the URL of the request is refused. |
| `DigestUri.UriBeyondUrlPasses` | libmicrohttpd/src/microhttpd/digestauth.c:892-894 | A URI whose path continues that of the request, without an escape, a question mark or a terminator, is recognised if and only if the URI of the request is. |
| `DigestUri.LongerPathPasses` | libmicrohttpd/src/microhttpd/digestauth.c:888-923 | So a longer path is recognised for every query that both readings take alike. |
| `DigestAuthLaws.VettingReadsTheClaim` | libmicrohttpd/src/microhttpd/digestauth.c:696-835 | A well-formed header passes the vetting exactly if its nonce is vetted, and the claim is what the client wrote; otherwise the result is MHD_INVALID_NONCE if the nonce ends in a time and MHD_NO if not. |
| `DigestAuthLaws.OtherAccountIsRefused` | libmicrohttpd/src/microhttpd/digestauth.c:707-734 | A header that states another username or realm gets MHD_NO. |
| `DigestAuthLaws.ClientHashes` | libmicrohttpd/src/microhttpd/digestauth.c:866-886 | The digest a client has to compute, by the parts of the three texts hashed: username, realm, password; method, URI; and both hashes around nonce, counter, client nonce and auth. |
| `DigestAuthLaws.AnsweredExactly` | libmicrohttpd/src/microhttpd/digestauth.c:850-929 | Such a client is then accepted if and only if its URI names the request and it computed the digest of section 3.2.2.1 of RFC 2617. |
| `DigestAuthLaws.AcceptedIsAuthentic` | libmicrohttpd/src/microhttpd/digestauth.c:673-930 | For every header: whoever is accepted presented a nonce of the form the server issues that has not expired, the account's names, a URI that, unescaped, starts with the URL of the request and has matching arguments, and the digest made with the password over that URI. |
| `DigestAuthLaws.PendingIsVetted` | libmicrohttpd/src/microhttpd/digestauth.c:754-798 | Every claim that reaches the table holds a vetted nonce. |
| `DigestAuthLaws.PendingIsCounted` | libmicrohttpd/src/microhttpd/digestauth.c:799-849 | Every such claim has a counter of hexadecimal digits, and the table is asked about the number they write; its qop is auth and no field is empty. |
| `DigestAuthLaws.LongNamesAreRefused` | libmicrohttpd/src/microhttpd/digestauth.c:707-734 | Usernames of 128 characters and realms of 256 do not fit the buffers and are never accepted. |
| `DigestAuthLaws.WholeUriIsRead` | libmicrohttpd/src/microhttpd/digestauth.c:853-865 | For every header the URI is read without being cut. |
| `DigestAuthLaws.HonestNonce` | libmicrohttpd/src/microhttpd/digestauth.c:754-798 | An issued nonce is vetted if and only if it has not expired. |
| `DigestAuthLaws.HonestClientPasses` | libmicrohttpd/src/microhttpd/digestauth.c:673-930 | An honest client in time passes every stage; out of time it gets MHD_INVALID_NONCE. |
| `DigestAuthLaws.StandardHeaderStates` | libmicrohttpd/src/microhttpd/digestauth.c:696-835 | The header of eight quoted fields can be written and states the values of its fields, for all values without quotes that fit the buffers. |
| `DigestAuthLaws.StandardHeaderIs` | libmicrohttpd/src/microhttpd/digestauth.c:696-835 | That header as a text: "Digest " and the eight assignments key="value", separated by a comma and a space. |
| `DigestAuthLaws.StandardHeaderIsShort` | libmicrohttpd/src/microhttpd/digestauth.c:707-742 | The space it leaves for the URI is exactly the length of URI, client nonce, counter and response and 64 more, so no more than 400 beyond the URI. |
| `DigestAuthLaws.LongUriIsRefused` | libmicrohttpd/src/microhttpd/digestauth.c:743-753 | With more than 32 kB left such a header gets MHD_NO. |
| `DigestAuthLaws.StandardHeaderIsHonest` | libmicrohttpd/src/microhttpd/digestauth.c:673-930 | So a client that puts the issued nonce and the digest into that header is honest. |
| `DigestAuthLaws.HonestAnswerExactly` | libmicrohttpd/src/microhttpd/digestauth.c:836-929 | On the table, for every window of the slot: the answer of an honest client in time is MHD_YES if its counter is 0, or at most 64 below the maximum and not late, whatever nonce the slot holds, or above the maximum with the nonce of the slot, and otherwise MHD_NO; the window advances accordingly and no other slot changes. |
| `DigestAuthLaws.AnswerIsAccepted` | libmicrohttpd/src/microhttpd/digestauth.c:836-929 | In particular it is MHD_YES whenever the slot of the nonce holds it with a maximum below the counter, which then is the maximum. |
| `DigestAuthLaws.LaterAnswerIsAccepted` | libmicrohttpd/src/microhttpd/digestauth.c:673-976 | End to end: after a nonce was issued and any other calls on the table, of which none registers a nonce in its slot and none presents it with as great a counter, the answer is MHD_YES. |
| `DigestAuthLaws.FirstAnswerIsAccepted` | libmicrohttpd/src/microhttpd/digestauth.c:673-976 | In particular the first answer after the challenge. |
| `DigestAuthLaws.ZeroCounterRestartsWindow` | libmicrohttpd/src/microhttpd/digestauth.c:836-849 | A correct answer with the counter 0 is always accepted and empties the window of its nonce. |
| `DigestAuthLaws.AnswerRepeatsAfterZero` | libmicrohttpd/src/microhttpd/digestauth.c:836-849 | An answer is accepted again behind one with the counter 0. |
| `ConnectionLists.DllInsert` | libmicrohttpd/src/microhttpd/internal.h:1710-1719 | The list is well linked again and is the element before the old list; only the links named change. |
| `ConnectionLists.DllRemove` | libmicrohttpd/src/microhttpd/internal.h:1731-1744 | The list is well linked again without the element, in the old order; the element has no links; the asserted conditions hold. |
| `ConnectionLists.XdllInsert` | libmicrohttpd/src/microhttpd/internal.h:1755-1764 | The same for the X links. |
| `ConnectionLists.XdllRemove` | libmicrohttpd/src/microhttpd/internal.h:1776-1789 | The same for the X links. |
| `ConnectionLists.EdllInsert` | libmicrohttpd/src/microhttpd/internal.h:1799-1806 | The same for the E links. |
| `ConnectionLists.EdllRemove` | libmicrohttpd/src/microhttpd/internal.h:1818-1829 | The same for the E links. |
| `ConnectionLists.NeighboursWithout` | libmicrohttpd/src/microhttpd/internal.h:1731-1744 | Removing a position changes only the neighbours on its two sides. |
| `ConnectionLists.WithoutMembers` | libmicrohttpd/src/microhttpd/internal.h:1731-1744 | Removing deletes exactly that element and leaves no duplicate. |
| `ConnectionLists.DllTraversalsAgree` | libmicrohttpd/src/microhttpd/internal.h:1702-1744 | Walking along `next` from the head and along `prev` from the tail meets the same elements in opposite order, and head is null if and only if tail is. |
| `ConnectionLists.XdllTraversalsAgree` | libmicrohttpd/src/microhttpd/internal.h:1747-1789 | The same along `nextX` and `prevX`. |
| `ConnectionLists.EdllTraversalsAgree` | libmicrohttpd/src/microhttpd/internal.h:1792-1829 | The same along `nextE` and `prevE`. |
| `ConnectionLists.MoveToHead` | libmicrohttpd/src/microhttpd/connection.c:2801-2809 | A connection on a list of each kind moves to the head of its timeout list while the other two lists stay as they are. |
| `DaemonLinks.Links.Transfer` | libmicrohttpd/src/microhttpd/daemon.c:2582-2588 | A connection moves between two lists with the same links: both are well linked again, in the old order, a third list with these links is as it was, and all three stay disjoint. |
| `DaemonLinks.Links.Suspend` | libmicrohttpd/src/microhttpd/daemon.c:2582-2588 | From the open to the suspended list; all six lists stay well linked and disjoint. |
| `DaemonLinks.Links.Resume` | libmicrohttpd/src/microhttpd/daemon.c:2747-2755 | And back. |
| `DaemonLinks.Links.Cleanup` | libmicrohttpd/src/microhttpd/connection.c:3182-3208 | From either of these to the cleanup list. |
| `DaemonLinks.Links.RemoveCleanup` | libmicrohttpd/src/microhttpd/daemon.c:3031-3033 | Off the cleanup list. |
| `DaemonLinks.Links.InsertOpen` | libmicrohttpd/src/microhttpd/daemon.c:2436-2438 | A new connection heads the open list. |
| `DaemonLinks.Links.InsertTimeout` | libmicrohttpd/src/microhttpd/connection.c:3902-3910 | A connection heads the timeout list that its timeout selects; the other one stays well linked. |
| `DaemonLinks.Links.RemoveTimeout` | libmicrohttpd/src/microhttpd/connection.c:3886-3894 | It leaves that list. |
| `DaemonLinks.Links.InsertReady` | libmicrohttpd/src/microhttpd/daemon.c:4218-4220 | It heads the ready list. |
| `DaemonLinks.Links.RemoveReady` | libmicrohttpd/src/microhttpd/daemon.c:4278-4280 | It leaves the ready list. |
| `DaemonLists.Daemon.AddConnection` | libmicrohttpd/src/microhttpd/daemon.c:2347-2440 | A new connection heads the open and the normal list with the daemon's timeout; flags and lists agree; the order survives if and only if its stamp is not older than the head's, or there is no default timeout. |
| `DaemonLists.Daemon.UpdateLastActivity` | libmicrohttpd/src/microhttpd/connection.c:2783-2810 | Activity restarts the timer and, for the default timeout, moves the connection to the head, where the order survives if the clock does not go back; without a timeout, or suspended, nothing changes. |
| `DaemonLists.Daemon.Suspend` | libmicrohttpd/src/microhttpd/daemon.c:2558-2610 | A suspended connection leaves the open, the timeout and the ready list; a pending resumption is only cancelled. |
| `DaemonLists.Daemon.RequestResume` | libmicrohttpd/src/microhttpd/daemon.c:2671-2690 | The request is noted on the connection and on the daemon; no list changes. |
| `DaemonLists.Daemon.Resume` | libmicrohttpd/src/microhttpd/daemon.c:2745-2798 | A connection to be resumed goes to the lists that its timeout and the polling mode select, with its timer restarted; it is never on the ready list already, so the panic cannot happen; the order survives. |
| `DaemonLists.Daemon.ResumeSuspended` | libmicrohttpd/src/microhttpd/daemon.c:2708-2800 | The walk along `prev`, from which connections leave on the way, resumes exactly the suspended connections for which it was asked, keeps their order and that of the others, and leaves no request behind. |
| `DaemonLists.Daemon.SetTimeout` | libmicrohttpd/src/microhttpd/connection.c:3867-3914 | The connection changes lists as its timeouts say; the order of the normal list survives if and only if no other connection on it was active later (or the list is not concerned). |
| `DaemonLists.Daemon.Cleanup` | libmicrohttpd/src/microhttpd/connection.c:3170-3211 | The connection leaves every list but the ready one and waits for its disposal, once. |
| `DaemonLists.Daemon.MarkReady` | libmicrohttpd/src/microhttpd/daemon.c:4211-4224 | An event puts a connection on the ready list exactly once. |
| `DaemonLists.Daemon.AddReadyConnection` | libmicrohttpd/src/microhttpd/daemon.c:2428-2498 | In turbo mode a new connection is on the ready list as well; the order survives under the same condition. |
| `DaemonLists.Daemon.LeaveReady` | libmicrohttpd/src/microhttpd/daemon.c:4268-4283 | A handled connection that has nothing left to do leaves the ready list if it is marked as being on it, and then it is on it. |
| `DaemonLists.Daemon.Dispose` | libmicrohttpd/src/microhttpd/daemon.c:3029-3067 | The longest waiting connection is taken off the last lists that hold it. |
| `DaemonViews.PlacedMoves` | libmicrohttpd/src/microhttpd/daemon.c:2428-2610 | An operation that moves one connection keeps every other where its flags say. |
| `DaemonViews.OpenedIsPlaced` | libmicrohttpd/src/microhttpd/daemon.c:2428-2438 | Opening keeps flags and lists in agreement. |
| `DaemonViews.SuspendedIsPlaced` | libmicrohttpd/src/microhttpd/daemon.c:2571-2601 | So does suspending. |
| `DaemonViews.ResumedIsPlaced` | libmicrohttpd/src/microhttpd/daemon.c:2746-2784 | So does resuming. |
| `DaemonViews.RescheduledIsPlaced` | libmicrohttpd/src/microhttpd/connection.c:3883-3911 | So does changing the timeout. |
| `DaemonViews.ClosedIsPlaced` | libmicrohttpd/src/microhttpd/connection.c:3181-3208 | So does closing. |
| `DaemonViews.DisposedIsPlaced` | libmicrohttpd/src/microhttpd/daemon.c:3029-3067 | A disposed connection is on no list. |
| `DaemonViews.UnmarkedIsPlaced` | libmicrohttpd/src/microhttpd/daemon.c:4268-4283 | So does leaving the ready list. |
| `DaemonViews.SelectStep` | libmicrohttpd/src/microhttpd/daemon.c:2734-2755 | Taking one element out of the middle of a list is one step of splitting the list by a condition. |
| `DaemonLists.Daemon.TimeoutListsCoverConnections` | libmicrohttpd/src/microhttpd/internal.h:1299-1330 | The two timeout lists together hold exactly the open connections, told apart by their timeout. |
| `DaemonLists.Daemon.ClockBoundsNormal` | libmicrohttpd/src/microhttpd/internal.h:1299-1313 | While no activity of any connection lies in the future, none of the normal list does. |
| `DaemonViews.PrependedIsSorted` | libmicrohttpd/src/microhttpd/internal.h:1299-1313 | A connection put at the head keeps the order if and only if the old head was not active later. |
| `DaemonViews.TailIsEarliest` | libmicrohttpd/src/microhttpd/daemon.c:3176-3185 | In a sorted list with one timeout the tail expires first. |
| `DaemonViews.OrderHidesNone` | libmicrohttpd/src/microhttpd/daemon.c:4300-4312 | In a list in order no expired connection is nearer the head than one that stays open. |
| `DaemonViews.StoppedExactly` | libmicrohttpd/src/microhttpd/daemon.c:4300-4312 | A scan that has stopped has closed all that have expired if and only if none of them is nearer the head than one that stays open. |
| `DaemonViews.VisitedSufficeExactly` | libmicrohttpd/src/microhttpd/daemon.c:3164-3185 | The earliest deadline of the connections looked at is that of all if and only if none of the normal list was active before its tail, unless one with its own timeout expires no later. |
| `DaemonViews.VisitedWaitExactly` | libmicrohttpd/src/microhttpd/daemon.c:3164-3201 | The same of the time to wait, which does not tell deadlines that have passed. |
| `DaemonViews.OrderSuffices` | libmicrohttpd/src/microhttpd/daemon.c:3176-3185 | Both conditions hold for a list in order. |
| `DaemonViews.WaitIs` | libmicrohttpd/src/microhttpd/daemon.c:3190-3200 | The comparisons before the product give 1000 milliseconds a second, or the largest number where that is less, and 0 for a deadline that has passed. |
| `DaemonViews.ExpiredIsNotWaitedFor` | libmicrohttpd/src/microhttpd/daemon.c:3190-3200 | For a connection that the idle scan would close there is no wait. |
| `DaemonLists.Daemon.EarliestOn` | libmicrohttpd/src/microhttpd/daemon.c:3164-3175 | The walk along `prevX` finds the earliest deadline of the list, if there is one. |
| `DaemonLists.Daemon.EarliestDeadline` | libmicrohttpd/src/microhttpd/daemon.c:3164-3185 | The result is the earliest deadline of the manual list and the tail of the normal one; it is that of all open connections if and only if the tail suffices, as it does in a list in order. |
| `DaemonLists.Daemon.GetTimeout` | libmicrohttpd/src/microhttpd/daemon.c:3126-3202 | The wait is that of the earliest deadline of the connections looked at, capped, and there is none exactly if none of them has a timeout; it is right for all open connections if and only if the tail of the normal list suffices, as it does in a list in order; pending work means no wait. |
| `DaemonLists.Daemon.HandleIdle` | libmicrohttpd/src/microhttpd/connection.c:3695-3721 | A connection that is closed already is moved away; another one is closed if and only if it has a timeout and its deadline, last activity plus timeout, has passed. |
| `DaemonLists.Daemon.ScanManual` | libmicrohttpd/src/microhttpd/daemon.c:4293-4299 | The walk over the manual list, from which connections leave on the way, moves away exactly those that were closed already and closes exactly the others that have expired. |
| `DaemonLists.Daemon.WalkNormal` | libmicrohttpd/src/microhttpd/daemon.c:4300-4312 | The walk over the normal list, from which connections leave on the way, stops at the first connection that stays open and has closed exactly those behind it that have expired. |
| `DaemonLists.Daemon.ScanNormal` | libmicrohttpd/src/microhttpd/daemon.c:4300-4312 | These are all that have expired if and only if none is nearer the head than one that stays open, as in a list in order. |
| `DaemonLists.Daemon.ScanExpired` | libmicrohttpd/src/microhttpd/daemon.c:4286-4312 | The idle scan closes only open connections that have expired and were not closed already, and all of these if and only if none on the normal list is nearer the head than one that stays open, as in a list in order; whoever was open is open still or waits for its disposal; the lists keep their order. |
| `DaemonLists.ExpiredConnectionIsOverslept` | libmicrohttpd/src/microhttpd/connection.c:3876-3912 | A run in which an expired connection is hidden and the event loop would sleep for three more seconds. |
| `DaemonLists.OlderStampIsOverslept` | libmicrohttpd/src/microhttpd/daemon.c:2347-2440 | A run in which a connection stamped earlier is added later: it has expired and the event loop would sleep for one more second. |
| `TerminalService.DecimalReadsBack` | src/equipmentMgr.c:16-18 | An id is read back from its digits. |
| `TerminalService.EntryDetermines` | src/equipmentMgr.c:13-17 | Equal entries have equal ids and equal bodies. |
| `TerminalService.AnswerDetermines` | src/equipmentMgr.c:42-54 | Equal answers about one terminal have equal ids and bodies, whatever the bodies are. |
| `TerminalService.ListingReports` | src/equipmentMgr.c:55-65 | The listing holds, for every terminal, its id and its body between the brackets of the transactions; nothing but the frame is before the first and behind the last. |
| `TerminalService.ListingDetermines` | src/equipmentMgr.c:55-65 | Equal listings mean equal stores, for bodies without a ']'. |
| `TerminalService.AnswerText` | src/equipmentMgr.c:13-20 | The answers to a GET of one terminal and to a POST, character by character. |
| `TerminalService.EnqueueKeepsOrder` | src/equipmentMgr.c:245-255 | A handler that adds a request keeps the service in order. |
| `TerminalService.TakeKeepsOrder` | src/equipmentMgr.c:259-275 | So does the manager when it takes one. |
| `TerminalService.ServeKeepsOrder` | src/equipmentMgr.c:311-330 | So does serving it, with requests added in the meantime. |
| `TerminalService.EveryRunIsInOrder` | src/equipmentMgr.c:215-330 | In every state of every interleaving each answer is the one of a service that handles the requests one at a time in the order they were enqueued, and the store is what that service would hold. |
| `TerminalService.NothingIsLost` | src/equipmentMgr.c:215-330 | What was enqueued is what was served, then what is held, then what is queued: in order, each once. |
| `TerminalService.StoreGrows` | src/equipmentMgr.c:112-129 | The store is only appended to. |
| `TerminalService.GetReportsPost` | src/equipmentMgr.c:131-194 | A GET served after the POST whose answer gave an id reports the body of that POST, between "[ " and " ]" behind that id. |
| `TerminalService.PostIsCounted` | src/equipmentMgr.c:156-172 | A POST is answered with one more than the number of POST requests served before. |
| `TerminalService.NewIdIsId` | src/equipmentMgr.c:156-172 | Equal answers to POST requests mean equal ids. |
| `TerminalService.RefusedExactly` | src/equipmentMgr.c:175-194 | A GET of one terminal is refused if and only if no POST served before was answered with its id. |
| `EquipmentManager.Sprintf` | src/equipmentMgr.c:50-65 | Formatting at a position writes the text and a terminator behind what is kept. |
| `EquipmentManager.SeparatedIsEntries` | src/equipmentMgr.c:59-65 | The entries each with a separator are the joined entries and one separator to back up over. |
| `EquipmentManager.ListingIsFramed` | src/equipmentMgr.c:55-65 | The frame up to three before its end, the entries and the closing brackets make the listing. |
| `EquipmentManager.Manager.WriteEntries` | src/equipmentMgr.c:59-65 | The loop over the linked list appends one entry and one separator a terminal, inside the buffer. |
| `EquipmentManager.Manager.CreateJsonFromList` | src/equipmentMgr.c:42-69 | The buffer holds the answer about one terminal, or for a store that is not empty exactly the frame, the entries joined by commas, and the closing brackets. |
| `EquipmentManager.Manager.CreateNode` | src/equipmentMgr.c:95-110 | A new node gets the next id. |
| `EquipmentManager.Manager.CreateTerminalFromJson` | src/equipmentMgr.c:28-39 | The node holds the body of the request. |
| `EquipmentManager.Manager.AddNodeToList` | src/equipmentMgr.c:112-129 | The list stays linked with the ids 1 to n in order and ends in the new node. |
| `EquipmentManager.Manager.GetTerminalById` | src/equipmentMgr.c:131-147 | Finds the i-th terminal for 1 <= i <= n and nothing for any other id. |
| `EquipmentManager.Manager.WriteToDb` | src/equipmentMgr.c:156-172 | Appends the body and answers its id. |
| `EquipmentManager.Manager.ReadFromDb` | src/equipmentMgr.c:175-194 | Succeeds exactly if there is such a terminal, or any for all, with the specified answer, which tells the terminal and its body (`TerminalService.AnswerDetermines`); otherwise the error text. |
| `EquipmentManager.Manager.AddRequestToQueue` | src/equipmentMgr.c:215-255 | On the linked queue, also when it is empty: the Enqueue step of the service. |
| `EquipmentManager.Manager.CheckQueueAndGetRequest` | src/equipmentMgr.c:259-275 | On the linked queue, also for the last request: the Take step; head and tail stay consistent. |
| `EquipmentManager.Manager.HandleRequest` | src/equipmentMgr.c:311-330 | The Serve step: the request holds its answer when it is marked ready, and the queue is untouched. |
| `EquipmentManager.Manager.MgrRound` | src/equipmentMgr.c:297-331 | One round of the loop serves the first request of the queue, or changes nothing if there is none. |
| `EquipmentManager.Manager.constructor` | src/equipmentMgr.c:198-211 | The initial state of the service. |
| `Base64.LetterExactly` | libmicrohttpd/doc/examples/tlsauthentication.c:29-30 | The digits are those of the alphabet A-Z, a-z, 0-9, +, /, in its order. |
| `Base64.OtherCharactersAreZero` | libmicrohttpd/src/microhttpd/base64.c:11-26 | A character outside the alphabet has the value 0 in the decoder's table, only the pad has -1. |
| `Base64.DigitOfLetter` | libmicrohttpd/src/microhttpd/base64.c:11-26 | The decoder's table inverts the encoder's alphabet. |
| `Base64.SextetsOfBytes` | libmicrohttpd/doc/examples/tlsauthentication.c:43-54 | The sextets of a group of 24 bits, as numbers, cut its three bytes at the bits 6, 4 and 2. |
| `Base64Bits.SixBitsOfBytes` | libmicrohttpd/doc/examples/tlsauthentication.c:43-54 | With the sign extension of `char`, the shifts and `|` of the group and the masks give the bits of three bytes, in which one from 128 on has covered those before it. |
| `Base64Bits.SixBitsAre` | libmicrohttpd/doc/examples/tlsauthentication.c:43-54 | As numbers, these are the quotients and remainders of the bytes, covered ones counting as 255. |
| `Base64.SixBitsAreSextets` | libmicrohttpd/doc/examples/tlsauthentication.c:43-54 | So for every group of a message they are the sextets of the message with its covered bytes set to 255. |
| `Base64.GroupComesBack` | libmicrohttpd/src/microhttpd/base64.c:42-52 | The decoder's bit operations on a group give its bytes back. |
| `Base64.QuadDecodes` | libmicrohttpd/src/microhttpd/base64.c:41-53 | A group of one, two or three bytes is decoded from its padded quad. |
| `Base64.DecodeInvertsEncode` | libmicrohttpd/src/microhttpd/base64.c:28-56 | For every string of bytes, decoding the encoding gives it back. |
| `Base64.TestVectors` | libmicrohttpd/doc/examples/tlsauthentication.c:26-62 | The test vectors of section 10 of RFC 4648. |
| `Base64.EncodedIsAccepted` | libmicrohttpd/src/microhttpd/base64.c:42-45 | What the encoder writes stays inside the decoder's table. |
| `Base64.WriteGroup` | libmicrohttpd/src/microhttpd/base64.c:41-53 | The loop body writes one to three bytes, fewer than three exactly at a pad. |
| `Base64.DecodeGroups` | libmicrohttpd/src/microhttpd/base64.c:41-54 | The loop and the terminator stay in the buffer and write the decoding. |
| `Base64.BASE64Decode` | libmicrohttpd/src/microhttpd/base64.c:28-56 | Null exactly if the length is no multiple of four; otherwise the decoding and its terminator in a buffer of three bytes a group and one. |
| `Base64.EncodeGroup` | libmicrohttpd/doc/examples/tlsauthentication.c:41-56 | The loop body appends the characters of one group, in which bytes from 128 on cover those before them. |
| `Base64.StringToBase64` | libmicrohttpd/doc/examples/tlsauthentication.c:26-62 | The buffer of twice the length holds, as a C string, the padded encoding of the message with its covered bytes set to 255. |
| `Base64.RoundTripExactly` | libmicrohttpd/doc/examples/tlsauthentication.c:43-45 | The decoder gives the message back if and only if every covered byte is 255. |
| `Base64.SevenBitComesBack` | libmicrohttpd/doc/examples/tlsauthentication.c:43-45 | So text of seven-bit characters comes back. |
| `Base64.AccentIsGarbled` | libmicrohttpd/doc/examples/tlsauthentication.c:43-45 | And an accented letter in UTF-8 does not. |
| `Base64.EncodedFitsExactly` | libmicrohttpd/doc/examples/tlsauthentication.c:33-38 | The encoding and its terminator fit if and only if the message has three characters or at least five. |

## Left out

- Sockets, TLS, the event loop, logging, command lines and the examples' `main` functions: input and output.
- Allocation failure: every allocation succeeds.
- Mutexes: a critical section is one atomic call or step.
- The slots of the nonce table before their first registration come from `malloc`; they are `Unknown`, and nothing is promised about their answers.
- A nonce of fewer than eight characters: the program reads in front of the buffer; `Vet` calls this `Undefined` and `DigestAuthCheck` asks callers to exclude it.
- The search for the Authorization header in the list of headers: the check gets its value.
- `DigestAuth.Fetch`: for each field one buffer is modelled, not their layout on the stack.
- Integrity protection (`auth-int`) is dead code and not modelled; the check refuses it, as the program does.
- The text of the challenge that `MHD_queue_auth_fail_response` sends, and `MHD_digest_auth_get_username`.
- Whether MD5 resists attacks: digests are compared, nothing is said about collisions.
- `UrlArguments.ParseArgumentsInPlace`: the callback is a pure predicate, and `calls` records what it was called with; the pluggable unescaping of a daemon is the default one.
- `DigestUri.UriNamesRequestExactly`: where a path with an escaped question mark is followed by a query, the condition stays the comparison of the two lists of arguments.
- `DigestUri.DistinctQueryNamesRequestExactly`: where the check reads an argument twice, the condition on the text is sufficient, not necessary.
- `DaemonLists.Daemon.AddConnection`: the mode with a thread for each connection, in which the timeout lists are not used, is not modelled, nor are upgraded connections and their lists.
- The move in `close_connection` (`daemon.c:4385-4403`), which the daemon makes while it shuts down: it puts connections on the cleanup list without marking them.
- `ConnectionLists.DllInsert`: does not ask for the null links that the macro asserts, as the result does not depend on them; removal and construction leave null links.
- `DaemonLists.Daemon.ScanExpired`: which connections are closed already, or whose epoll registration fails, is a parameter; callbacks of the application that change other connections during the scan are not modelled.
- `DaemonLists.Daemon.GetTimeout`: the clock and the deadlines are unbounded numbers.
- `EquipmentManager.Manager.HandleRequest`: answers are required to fit the 1024 bytes of their buffer, as the program does not check; ids do not overflow an `int`.
- The life of a request after it is marked ready, which the manager frees at once; its answer is the text at that moment.
- Shutting the manager down, and requests enqueued before `mgrInit`.
- What `runHttpServer.c` does with URLs and responses beyond enqueuing one request.
- `Base64.StringToBase64`: messages whose code fits, as the program writes beyond its buffer for others (`EncodedFitsExactly`).
- `Base64.BASE64Decode`: no character 255, for which the table of 255 entries has none.
