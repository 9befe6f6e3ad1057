# uotp-go in Dafny

A model of the client side of a one-time-password (OTP) service:
- the wire packet codec;
- the SEED-CBC envelope that protects packet bodies;
- the payloads of the six operations;
- the device state (`uotp`) with its token generator and requests.

Each part is proved against its own specification.

The model is organised by source file:

| module | file | models |
|---|---|---|
| `Wrappers` | wrappers.dfy | `Option` and `Result` |
| `Text` | text.dfy | the standard-library text and number services the core calls: big-endian integers, `strconv` parsing and formatting, `fmt` padding, `encoding/hex`, `strings.TrimSpace`/`TrimRight`/`Split`/`Join` |
| `Base64` | base64.dfy | `encoding/base64.StdEncoding` as `New` and `GetAccount` use it |
| `Crypto` | seed.dfy | `populateKeyAndIV`, `encrypt`, `decrypt` (CBC chaining, padding and unpadding) |
| `Utils` | utils.dfy | `otpNow`, `humanize` |
| `Protocol` | payload.dfy | status and opcode constants, the error set, library text services |
| `PayloadTime`, `PayloadIssue`, `PayloadInformation`, `PayloadHistory`, `PayloadHelp`, `PayloadResetErrorCount` | payload_*.dfy | one payload variant each: opcode, header flag, request body, reply decoder |
| `Payloads` | registry.dfy | the payload interface as a datatype of variants, and `newPacket`'s choice of variant |
| `Packets` | packet.dfy | `packet`: `newPacket`, `setEncryptionInfo`, `getCryptoKey`, `appendCommonHeader`, `encodePacket`, `decodePacket` |
| `Session` | uotp.dfy | `uotp`: `New`, `GetAccount`, `GetSerialNumber`, `generateToken`, `GenerateToken`, `SyncTime`, `Issue`, `ResetError`, `GetHistory`, `ResetErrorCount` |

Bytes are the newtype `byte` (0..255). Go `string` and `[]byte` are both `Bytes`, so `b2s` and `s2b` are identities.

The following are parameters:
- SHA-1 (`sha1: Bytes -> Digest`, with 20-byte digests) and the SEED block cipher, bundled in `Crypto.Primitives`. Their only assumed property is `Crypto.Inverts`: decrypting an encrypted block gives the block back.
- EUC-KR decoding and `time.ParseInLocation`, bundled in `Protocol.TextLib`.
- The clock reading of `otpNow` (`clock: uint32`).
- The random handset choice of `appendCommonHeader` (`r < 3`).
- The key `newSharedKey` makes for an issue request (`issueKey`).

A Go run-time panic that a server reply can trigger is the error `Crash`. Examples:
- a nil payload for an unknown opcode;
- an out-of-range slice of a short history reply;
- `CryptBlocks` on an empty or partial block;
- a failed type assertion on a reply of the wrong kind.

The request methods of `Session.Uotp` do not talk to a network. Each one:
- returns the packet it builds;
- takes as a parameter what `packet.Send` returned: the decoded reply payload or its error.

Behaviour of the code that the model keeps as written:
- **Key derivation:** `populateKeyAndIV` hashes the shared key five times, not four.
- **IV:** the IV is SHA-1 of the last four bytes of that digest.
- **Token display:** `GenerateToken` shows a seven-digit token as `DDD-DDDD`, because `humanize(…, 3, 2)` inserts one dash after the third digit.
- **Aligned plaintext:** `decrypt` never removes a pad of 16. So a plaintext whose length is a multiple of 16 comes back from `encrypt` then `decrypt` with sixteen bytes of value 16 attached. `Crypto.EncryptDecryptRoundTrip` and `Packets.SealedRoundTrip` state this case.
- **Keyed asymmetry:** `encodePacket` encrypts an issue request under the 64 ASCII hex characters of its shared key, since `getCryptoKey` returns the shared key as it is when there is no token. `decodePacket` decrypts a reply under the hex decoding of the reply's key field, which is 32 bytes. A keyed reply to such a request is therefore decrypted under a different key than the request was encrypted under. `Packets.FullKeyDecodedAsBytes` states this.
- **Short reply key:** a reply key field holding fewer than 64 hex digits is left-padded with spaces. Trimming only the right end leaves those spaces, so hex decoding refuses it. `Packets.ShortKeyRefused` states this.

## Model

| member | source | states |
|---|---|---|
| Text.BigEndianRoundTrip | payload_time.go:22-28 | reading n big-endian bytes back gives every value below 256^n that was written |
| Text.BigEndianLeadingZeros | uotp.go:88-94 | an n-byte big-endian block of a value below 256^m starts with n - m zero bytes |
| Text.DigitsRoundTrip | uotp.go:69-77 | the decimal digits `strconv.FormatUint` writes read back as the same number |
| Text.ZeroPadValue | uotp.go:141 | `%0Nd` writes only digits that spell n, exactly N of them when n < 10^N |
| Text.ParseUint64OfZeroPad | payload_issue.go:34-37 | `strconv.ParseUint` reads a zero-padded number back |
| Text.AtoiOfZeroPad | payload_history.go:37-39 | `strconv.Atoi` reads a zero-padded number back |
| Text.ParseIntOfDigits | payload_infomation.go:30-33 | `strconv.ParseInt` of a digit string in range is its value |
| Text.ParseInt | payload_infomation.go:30-33 | a 32-bit parse yields only values in the signed 32-bit range, and never from empty text |
| Text.ParseIntOfSigned | payload_infomation.go:30-33 | a minus sign before digits gives the negated value up to 2^(bitSize-1); a plus sign or no sign gives the value below 2^(bitSize-1); otherwise the parse fails |
| Text.ParseIntForms | payload_infomation.go:30-33 | only digits, optionally after one sign, parse |
| Text.PadLeft | packet.go:106-108 | right-justified padding: the width, the fill in front, the text at the end |
| Text.PadRight | packet.go:131-158 | left-justified padding: the width, the text in front, the fill after |
| Text.HexDecode | packet.go:207-210 | `hex.DecodeString` succeeds exactly on even-length hex text, giving half as many bytes |
| Text.HexRoundTrip | payload_issue.go:39-43 | decoding the hex encoding of any bytes gives them back |
| Text.HexDecodeLenientAgrees | packet.go:111-129 | on valid hex, the lenient decoder agrees with the strict one |
| Text.TrimRightShape | packet.go:207 | `strings.TrimRight` keeps a prefix, drops only cut bytes, and ends in a byte that is not cut |
| Text.TrimSpace | payload_issue.go:45-49 | `strings.TrimSpace` returns text no longer than its input with no ASCII space at either end |
| Text.TrimSpaceShape | payload_issue.go:45-49 | the result is one contiguous slice of the input, and every byte dropped before or after it is white space |
| Text.TrimSpaceOfPadRight | payload_issue.go:45-49 | trimming a space-padded field gives back any already-trimmed text |
| Text.Split | payload_help.go:28 | `strings.Split` gives one more piece than there are separators, none holding a separator |
| Text.JoinSplit | payload_help.go:28 | joining the pieces of a split with the separator gives back the text |
| Base64.Encode | uotp.go:69-77 | `StdEncoding` output is four characters per three bytes rounded up, with no line breaks |
| Base64.RoundTrip | uotp.go:45-77 | decoding the base64 encoding of any bytes gives them back |
| Crypto.DerivationIsFiveHashes | seed.go:10-29 | the key is the first 16 bytes of SHA-1 applied five times; the IV is the first 16 bytes of SHA-1 of that digest's last four bytes |
| Crypto.PopulateKeyAndIV | seed.go:10-29 | the first 16 bytes of the key and IV arrays receive the derived key and IV, and nothing else changes |
| Crypto.Padded | seed.go:40-45 | the padding is 1 to 16 bytes, each holding the pad length, and makes the length a multiple of 16 |
| Crypto.CbcEncryptBlocks | seed.go:47-50 | CBC encryption in place, block by block, equals the chained definition |
| Crypto.CbcDecryptBlocks | seed.go:64-67 | CBC decryption in place, block by block, equals the chained definition |
| Crypto.CbcRoundTrip | seed.go:31-85 | CBC decryption undoes CBC encryption under the same key and IV |
| Crypto.Encrypted | seed.go:31-53 | the ciphertext is a whole number of blocks and strictly longer than the plaintext |
| Crypto.Encrypt | seed.go:31-53 | `encrypt` derives the key and IV, pads and CBC-encrypts |
| Crypto.UnpaddedIsShortPrefix | seed.go:69-81 | the lenient unpadding keeps a prefix and removes at most 15 bytes |
| Crypto.UnpadPadded | seed.go:31-85 | unpadding removes the padding of an unaligned plaintext; an aligned one keeps its block of 16s |
| Crypto.Decrypted | seed.go:55-85 | `decrypt`'s output is at most 15 bytes shorter than the ciphertext |
| Crypto.Decrypt | seed.go:55-85 | `decrypt` derives the key and IV, CBC-decrypts in place and unpads |
| Crypto.EncryptDecryptRoundTrip | seed.go:31-85 | `decrypt` inverts `encrypt` for every unaligned plaintext; an aligned one gains sixteen bytes of 16 |
| Utils.OtpNowEpoch | utils.go:12-23 | the clock is 0 at the start of the year 2000 |
| Utils.OtpNowNextSecond | utils.go:12-23 | one more second is one more unit, modulo 2^32 |
| Utils.OtpNowNotMonotone | utils.go:12-23 | months count as 30 days, so the 31st of a month runs past the start of the next one |
| Utils.Humanize | utils.go:26-50 | the in-place grouping loop equals the grouping function |
| Utils.HumanizedIsGrouped | utils.go:26-50 | the result is the text with a separator after every `each` bytes, at most maxgroup - 1 times |
| Utils.HumanizedNoGroups | utils.go:26-50 | a non-positive group size leaves the text unchanged |
| Utils.HumanizedEdgeCases | utils.go:26-50 | empty text stays empty; with maxgroup -1 the text's last byte stays last; with maxgroup 2 exactly one separator follows the first group |
| Utils.UngroupHumanized | utils.go:26-50 | removing the separators gives back the text |
| Utils.HumanizedSeparators | utils.go:26-50 | at most one separator fewer than the group limit is inserted |
| Utils.SerialGrouping | uotp.go:173 | a 16-character serial number becomes its bytes 0-4, a dash, 4-8, a dash, 8-12, a dash, 12-16 |
| Protocol.StatusOKFillsField | payload.go:10-12 | statusOK is four digits reading as 0 |
| Protocol.ThreeDigits | packet.go:192 | an opcode prints as three digits that read back |
| Protocol.WireOpcodes | payload.go:16-24 | the six payload opcodes are distinct three-digit numbers, none of them opCodeError |
| PayloadTime.Decode | payload_time.go:22-28 | a time reply fails exactly when shorter than 4 bytes, and otherwise yields a 32-bit time |
| PayloadTime.DecodeRoundTrip | payload_time.go:22-28 | any 32-bit time written big-endian is read back |
| PayloadIssue.Decode | payload_issue.go:29-52 | fails exactly on short input, a bad oid or bad seed hex. Yields a 20-byte seed, a 64-byte user hash and trimmed serial and info fields |
| PayloadIssue.DecodeRoundTrip | payload_issue.go:29-52 | every well-formed issue reply laid out at the field widths is read back exactly |
| PayloadInformation.Decode | payload_infomation.go:25-40 | fails exactly on short input or an oid that is not a 32-bit number; the text fields come back trimmed |
| PayloadInformation.DecodeRoundTrip | payload_infomation.go:25-40 | every information reply with a non-negative 32-bit oid is read back exactly |
| PayloadHistory.EncodeFields | payload_history.go:37-39 | the request body is the page in four digits and the period in one, both readable back |
| PayloadHistory.DecodeEntry | payload_history.go:72-87 | an entry decodes exactly when its 18-byte timestamp parses; type and name come back trimmed |
| PayloadHistory.Entries | payload_history.go:71-89 | when all entries decode, there are exactly `count` of them |
| PayloadHistory.EntriesAreRecords | payload_history.go:71-89 | the entries decode iff every 98-byte record parses, and entry i is record i |
| PayloadHistory.Decoded | payload_history.go:40-92 | short input panics; the errors are InvalidPacket or a panic; success keeps the request fields and holds the announced number of entries |
| PayloadHistory.DecodedHead | payload_history.go:40-59 | a decoded history's period start and end are the dates in bytes 0-10 and 10-20, its page total and current page the numbers in bytes 20-24 and 24-28 |
| PayloadHistory.HeadRefused | payload_history.go:41-64 | with 30 bytes present, a date or number in the header that does not parse makes the reply InvalidPacket |
| PayloadHistory.ShortForCount | payload_history.go:65-67 | a head that parses but announces more 98-byte entries than the reply holds makes the reply InvalidPacket |
| PayloadHistory.DecodedEntries | payload_history.go:40-92 | every entry of a decoded history is the decoding of its record |
| PayloadHistory.DecodedIgnoresTail | payload_history.go:40-92 | bytes after the last record do not change a successful decode |
| PayloadHistory.DecodeEntries | payload_history.go:69-89 | the record loop computes the entries function |
| PayloadHistory.DecodeHistory | payload_history.go:40-92 | `decode` computes the history decoding function |
| PayloadHelp.Decode | payload_help.go:22-31 | fails exactly when shorter than the 8-byte trailer. Otherwise: one message more than there are `|`, none holding `|`, rejoining to the decoded text |
| PayloadHelp.TrailerOnly | payload_help.go:22-31 | a reply of only the trailer is one empty message |
| PayloadResetErrorCount.Decode | payload_reset_error_count.go:18-20 | any reply decodes |
| Payloads.Payload.Opcode | payload.go:26-32 | every payload has one of the six wire opcodes |
| Payloads.ForOpcode | packet.go:26-50 | `newPacket` finds a payload exactly for the six wire opcodes, of that opcode |
| Payloads.HeaderAndBody | packet.go:26-50 | every payload but time needs the common header, and only a history request has a body |
| Payloads.Decode | packet.go:238-243 | a decoded reply keeps the variant of its request; failures are InvalidPacket or a panic |
| Payloads.DecodePayload | packet.go:238-243 | the dispatch computes the payload decoding function |
| Packets.TokenField | packet.go:102-109 | the extra token is at least seven wide, every byte before the token is a zero, the token follows, and a space ends it |
| Packets.CommonHeaderLayout | packet.go:131-158 | the header is 42 bytes: the carrier, then the oid (or eleven spaces for oid 0), then the 16-byte model and the trailer |
| Packets.OidFieldReadsBack | packet.go:142-146 | a non-zero oid below 10^11 is written in eleven bytes and read back |
| Packets.WireBody | packet.go:168-176 | without a key or a body the wire body is the body; otherwise it is a longer whole number of blocks |
| Packets.KeyField | packet.go:178-184 | the key field is 64 bytes, the key right-justified after spaces |
| Packets.FrameHead | packet.go:160-196 | a frame is 'S', its length in five digits that reads back, then the rest |
| Packets.RestLayout | packet.go:160-196 | after the length: the key field, the status, the opcode in three readable digits, the wire body |
| Packets.DecryptionKey | packet.go:223-232 | a key carried by the reply wins over the request's crypto key |
| Packets.Decoded | packet.go:198-244 | short replies are invalid; success means status OK and a known opcode; a server error carries the reply's status |
| Packets.Opened | packet.go:221-243 | an opened reply carries the frame's opcode, and a server error carries its status |
| Packets.ParsedHead | packet.go:198-221 | once the key and opcode parse, decoding continues with the status, key and body fields |
| Packets.PlainRoundTrip | packet.go:160-244 | an unkeyed frame decodes to its own body's payload |
| Packets.SealedRoundTrip | packet.go:160-244 | a frame with an EMPTY key field whose body is sealed under a crypto key decodes under that key to its body's payload, an aligned body with its block of 16s |
| Packets.FullKeyDecodedAsBytes | packet.go:207-225 | a 64-hex-digit key field survives the right trim and decodes to 32 bytes; a reply carrying it is decrypted under those 32 bytes, which differ from the 64 characters an issue request is encrypted under |
| Packets.OpcodeRefused | packet.go:212-217 | behind a valid key field, a non-numeric opcode is InvalidPacket and a numeric opcode that is not a wire opcode panics |
| Packets.UnkeyedFrame | packet.go:198-244 | a frame with an empty key field decodes the body, decrypted when a crypto key is given |
| Packets.ShortKeyRefused | packet.go:207-210 | a reply key shorter than 64 hex digits makes the reply invalid |
| Packets.BadKeyFieldRefused | packet.go:207-210 | a key field that is not hex after trimming makes the reply invalid |
| Packets.ReplyKeyWins | packet.go:223-232 | when the reply carries a key, the caller's crypto key plays no part |
| Packets.KeyedReply | packet.go:207-244 | a reply whose key field decodes to non-empty bytes is decrypted under them: a partial block panics, a status other than "0000" is a server error with the decrypted text, otherwise the payload is decoded from the decrypted body and the reply keeps the key |
| Packets.Packet.constructor | packet.go:26-50 | a new packet has status OK, the opcode's payload, oid 0, the issue key only for an issue request, and no token |
| Packets.Packet.SetEncryptionInfo | packet.go:102-109 | a non-nil key replaces the shared key and a non-empty token sets the token field; nothing else changes |
| Packets.Packet.CryptoKey | packet.go:111-129 | the crypto key is empty exactly when the shared key is; it is the shared key without a token, a 20-byte digest with one |
| Packets.Packet.CryptoKeyOfHexKey | packet.go:113-120 | with a shared key that is hex in either case and a token field, the crypto key is SHA-1 of the decoded key bytes followed by the token field |
| Packets.Packet.AppendCommonHeader | packet.go:131-158 | appends exactly the common header |
| Packets.Packet.WriteBody | packet.go:161-168 | the body is the common header when needed, then the payload's own bytes, then the extra token |
| Packets.Seal | packet.go:168-176 | the body is encrypted exactly when both the crypto key and the body are non-empty |
| Packets.FillKeyField | packet.go:178-184 | the space-filled array with the key copied to its end is the key field |
| Packets.EncodePacket | packet.go:160-196 | the encoder writes exactly the frame of the packet's status, opcode, key and sealed body |
| Packets.DecodePacket | packet.go:198-244 | the decoder fails exactly as the decoding function does, and otherwise returns a fresh packet with its fields |
| Session.FromAccount | uotp.go:45-64 | no account gives the blank device; an account is refused exactly when its oid or seed is unreadable |
| Session.AccountRoundTrip | uotp.go:45-77 | reading back what `GetAccount` writes gives the same device |
| Session.New | uotp.go:45-64 | the new uotp holds the account's device, or the account is invalid |
| Session.Uotp.constructor | uotp.go:45-64 | the zero uotp |
| Session.Uotp.GetSerialNumber | uotp.go:66-68 | the serial number |
| Session.Uotp.GetAccount | uotp.go:69-77 | the account holds the id, serial and offset, the oid in decimal digits and the seed in standard base64, which read back as the device's |
| Session.KeyBlock | uotp.go:100-103 | the HMAC key block is the 20-byte key followed by 44 zero bytes |
| Session.XorAll | uotp.go:105-112 | every byte exclusive-or'd with the pad byte |
| Session.Truncate | uotp.go:124-132 | the truncated value is a 32-bit number |
| Session.TruncateUnfolded | uotp.go:124-132 | shift-and-or of four bytes from the offset is their big-endian value |
| Session.RawTokenDigits | uotp.go:124-141 | the token is always seven digits spelling the flagged value modulo 10^7 |
| Session.WindowBits | uotp.go:134-139 | bit 2 is set exactly in the middle and bit 5 in the last ten seconds of each 30-second window; the other bits are the masked value, below 2^24 |
| Session.WindowOfStep | uotp.go:134-139 | the window a clock lies in is fixed by its 10-second step |
| Session.TokenPerStep | uotp.go:79-141 | two clocks in the same 10-second step give the same token |
| Session.ElevenBytes | uotp.go:88-94 | the oid block has three leading zero bytes and reads back as the oid; the step block has seven |
| Session.BigEndianBlocks | uotp.go:88-94 | the byte-by-byte loop fills both 11-byte big-endian blocks |
| Session.KeyBlocks | uotp.go:105-112 | the in-place exclusive-or loop over two copies of the 64-byte key block gives the inner and outer HMAC pads |
| Session.Uotp.GenerateRawToken | uotp.go:79-142 | `generateToken` computes the HMAC-SHA1 token of section 2 of RFC 2104 over the 10-second step, truncated, masked and flagged, in seven digits |
| Session.TokenDisplay | uotp.go:144-146 | a seven-digit token is shown as three digits, a dash, four digits |
| Session.Uotp.GenerateToken | uotp.go:144-146 | the displayed token is the raw token with a dash after the third digit |
| Session.Uotp.SyncTime | uotp.go:148-159 | an unkeyed time request; a time reply sets the offset to the server time minus the local clock, and an error leaves the device unchanged |
| Session.Uotp.Issue | uotp.go:161-177 | an issue request under the fresh key; its reply replaces the whole device with a dash-grouped serial and offset 0 |
| Session.Uotp.TokenRequest | uotp.go:179-186 | the authenticated request carries the oid, the id as key and the current token followed by a space |
| Session.Uotp.ResetError | uotp.go:179-186 | an authenticated error-count reset; its outcome is the exchange's |
| Session.Uotp.ResetErrorCount | uotp.go:209-216 | the same request and outcome as ResetError |
| Session.Uotp.GetHistory | uotp.go:188-207 | a page below 1 is refused before any request. Otherwise it builds an authenticated request for that page over period 3 and returns the reply's history |

## Left out

- `packet.Send`: the TCP exchange, its context and deadlines, and reading the frame off the connection are not modelled. The request methods return their packet and take the decoded reply or error as a parameter, and `Transport` stands for every failure of the exchange.
- `newSharedKey` is not modelled: it reads the clock and hashes with SHA-256, and its output is the parameter `issueKey`.
- SHA-1, SHA-256 and the SEED cipher's rounds are not modelled. SHA-1 and SEED are parameters, assumed only to be functions, and SEED block decryption is assumed to invert encryption where a round trip is stated.
- EUC-KR decoding and `time.ParseInLocation` are parameters, so the time zone and calendar validation are not modelled.
- `otpNow` reads `time.Now()`; the model takes the calendar fields (`Utils.OtpNow`) or the resulting clock value as parameters.
- `appendCommonHeader`'s `rand.Intn(3)` is the parameter `r < 3`.
- Text.TrimSpace: only ASCII white space is trimmed. Go's `strings.TrimSpace` also removes UTF-8 encoded Unicode spaces (such as C2 A0 and E3 80 80) from the raw reply bytes; the model does not, so such a byte pair at the end of a reply field stays in the result.
- Go slices are modelled as values, so capacity is not. A history reply slice read past its length always panics here (`Crash`), as it does when its capacity equals its length.
- Utils.Humanize: Go counts runes (`utf8.RuneCountInString`, `DecodeRuneInString`, `WriteRune`, with invalid UTF-8 written as U+FFFD); the model counts bytes, which agree for the ASCII serial numbers and tokens it is applied to. The separator is a single byte, as every caller passes; `each > 0` is required when `maxgroup` is -1, where Go divides by `each`; the `math.Ceil` on floats is the exact integer ceiling.
- Error texts are not modelled: the errors are the constructors of `Protocol.Error`.
- The command-line tool and the example program are not part of this model.
- Session.Uotp.SyncTime: the offset is an unbounded integer, so a Go `int` overflow of `time - now` is not modelled; it cannot happen with 32-bit operands.
- PayloadHistory.History: the requested page and period are natural numbers; `GetHistory` only ever sets a page of at least 1 and period 3.
- Packets.EncodePacket requires a shared key of at most 64 bytes; a longer one makes Go's `copy` panic. The issue request passes a 64-character hex key, but ResetError, ResetErrorCount and GetHistory pass the account's id, which after `New` is whatever the account held (uotp.go:45-64); an id longer than 64 bytes would panic in Go, and the model does not encode such a packet.
- Packets.Packet.constructor requires one of the six wire opcodes; `newPacket` with another opcode builds a packet with a nil payload that every later use panics on.
- Session.Uotp.ResetError: ResetError and ResetErrorCount build the same request; the model states both but shares one builder.
