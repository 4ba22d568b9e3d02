# Protocol client: codec, checksum and session model

A Dafny model of the core of a small C++ TCP client. The client logs in to a server, submits a record, and logs out. It speaks a fixed-layout binary protocol:

- Every frame is a 13-byte header followed by a body. The header holds:
  - the message type (a char);
  - the frame length (little-endian u16);
  - a timestamp (little-endian u64);
  - a one's-complement checksum (little-endian u16, at offset 11).
- The six message bodies are views over a caller-owned buffer:
  - login request: 'L', 96 bytes;
  - login response: 'E', 33 bytes;
  - submission request: 'S', 192 bytes;
  - submission response: 'R', 32 bytes;
  - logout request: 'O', 0 bytes;
  - logout response: 'G', 32 bytes.
- Their fields are single bytes and zero-padded text slots.

The model has three layers.

- **Codec.** Modules `Wire`, `MsgHeader`, `LoginRequest`, `LoginResponse`, `SubmissionRequest`, `SubmissionResponse`, `LogoutRequest` and `LogoutResponse`.
  - Bytes are `seq<byte>`, with `byte` a subset of `int`.
  - Each view is a pair of functions over `(buf, off)`, plus `Open`, the constructor's bounds check.
  - Setters return the new buffer.
  - Every field has a round trip: the header's four fields, and each text field through both the client's getter and the slot-bounded reader.
  - Every setter is proved to change no byte outside its own field.
  - The login request, login response and submission request modules also prove that their setters commute and together lay down exactly the body's encoding. The header module proves that its four fields are the whole header.
  - `LogoutRequest` has an empty body, so it proves only its bounds check.
- **Checksum.** Module `Checksum` models the compute-and-verify routine in two forms:
  - a pure function;
  - a method with the 16-bit word loop, the odd trailing byte, the 32-bit accumulator and the two carry folds.

  The proofs cover four properties: the stored value is the one's-complement checksum; verifying a computed frame leaves the field at zero; the accumulator never wraps for frames of up to 1024 bytes; and any single-byte change is detected.
- **Session.** Three modules cover the session:
  - `ProtoClient` follows the client as written, except that a rejected login's reason is read within its slot (see Left out). A 1024-byte scratch buffer is threaded through every step, so it is never cleared between messages or attempts. Each attempt runs login, submission and logout, and the run walks the resolved addresses.
  - `SessionSpec` is an independent message-level reference. It is stated on the peer's bytes alone. `RunOneMatchesExpected` proves the buffered client equal to it.
  - `FrameFacts`, `Endings` and `RunSpec` state what the client promises. This covers what each request frame carries, when an attempt succeeds and how it ends otherwise, where the token comes from, which bytes go out, and that the run stops at the first address whose attempt succeeds.

The transport is a parameter: a `Peer` says whether the connection opens, which bytes the peer sends, and how many bytes it accepts before a write fails. The clock readings stamped on the three requests are parameters (`Stamps`). The strings the client sends are a `Credentials` parameter, with the literal values the client uses in `ProtoClient.BuiltIn`.

The client behaves as follows:

- A checksum mismatch throws at once. There is no bounded read retry.
- A login rejection throws inside the attempt and is caught by the loop over addresses, so the next address is tried. It does not abort the whole run.
- A body is read with the length of the type the client expects. The header's length field is never consulted.
- The final logout response is read as a fixed 45 bytes, verified, and not type-checked.
- Text writers copy `min(|s|, width)` bytes and zero-fill the rest of the slot. A string that fills the slot leaves no terminator.
- Text getters return the C string that starts at the field, so a slot with no NUL is read on into the bytes after it. The session token is read that way from the scratch buffer. When the peer's token fills its slot, the token runs on into what is left of the submission request and, past byte 205, into bytes no attempt writes.

## Model

| member | source | states |
|---|---|---|
| MsgHeader.Open | msg_header.hpp:19-21 | the view can be built exactly when `offset + 13 <= bufferLength`, so a buffer of exactly `offset + 13` bytes is accepted |
| MsgHeader.SetMsgType | msg_header.hpp:54-57 | the type byte lands at header offset 0 and every other buffer byte is unchanged |
| MsgHeader.SetMsgLen | msg_header.hpp:75-80 | bytes 1 and 2 hold the low and then the high byte of the value, and nothing else changes |
| MsgHeader.SetTimestamp | msg_header.hpp:98-103 | bytes 3..10 hold the 8 little-endian bytes of the value, and nothing else changes |
| MsgHeader.SetChecksum | msg_header.hpp:121-126 | bytes 11 and 12 hold the low and then the high byte of the value, and nothing else changes |
| MsgHeader.MsgLen | msg_header.hpp:68-73 | the getter reads bytes 1 and 2 as a little-endian 16-bit value |
| MsgHeader.Timestamp | msg_header.hpp:91-96 | the getter returns the 64-bit value whose 8-byte little-endian encoding is exactly bytes 3..10, so it inverts the setter's encoding |
| MsgHeader.MsgTypeRoundTrip | msg_header.hpp:50-57 | the type getter returns the byte last set |
| MsgHeader.MsgLenRoundTrip | msg_header.hpp:68-80 | the length getter returns the 16-bit value last set |
| MsgHeader.TimestampRoundTrip | msg_header.hpp:91-103 | the timestamp getter returns the 64-bit value last set |
| MsgHeader.ChecksumRoundTrip | msg_header.hpp:114-126 | the checksum getter returns the 16-bit value last set |
| MsgHeader.ReadWrite | msg_header.hpp:50-126 | after all four setters run in a chain, each getter returns its own value, so the setters do not interfere |
| MsgHeader.WriteRead | msg_header.hpp:50-126 | writing back the four fields just read leaves the buffer unchanged, so the four fields are the whole header |
| MsgHeader.WriteOverwritesHeader | msg_header.hpp:50-126 | the 13 header bytes after the four setters do not depend on what the buffer held before |
| Wire.DecodeEncode | msg_header.hpp:68-80 | decoding the little-endian encoding of a value that fits in `n` bytes gives the value back |
| Wire.EncodeDecode | msg_header.hpp:68-80 | re-encoding the value decoded from `n` bytes gives the same bytes, so the two are inverse |
| Wire.TextSlot | msg_login_request.hpp:55-58 | the slot holds the first `min(|s|, width)` bytes of `s` followed by zeros up to its width |
| Wire.WriteText | msg_login_request.hpp:53-61 | a text setter puts that slot image at the field's offset and changes no byte outside the slot |
| Wire.ReadText | msg_login_request.hpp:48-51 | the slot-bounded getter returns the longest NUL-free prefix of the slot: it stops at the first zero byte or at the slot's end |
| Wire.ReadTextWriteText | msg_login_request.hpp:48-61 | when the truncation of `s` to the slot has no NUL, reading back a written slot returns that truncation, so `s` itself when it is shorter than the slot |
| Wire.CStringAt | msg_login_request.hpp:48-51 | the getter as written returns the bytes from the field's start up to the first zero byte anywhere in the buffer |
| Wire.CStringOverrunsFullSlot | msg_login_request.hpp:48-51 | when a slot and the byte after it hold no zero, the getter as written returns more bytes than the slot holds |
| Wire.CStringAtSlot | msg_login_request.hpp:48-51 | the getter as written agrees with the slot-bounded reader when the slot holds a NUL; otherwise it returns the whole slot followed by the C string that starts right after the slot |
| Wire.CStringAtWithinSlot | msg_login_request.hpp:48-51 | a C string that ends inside its slot depends on that slot's bytes alone, so two buffers with the same slot give the same string |
| Wire.CStringAtWriteText | msg_login_request.hpp:48-61 | the getter as written reads back a NUL-free string shorter than its slot exactly, because the setter leaves a zero right after it |
| LoginRequest.Open | msg_login_request.hpp:17-19 | the view can be built exactly when `offset + 96 <= bufferLength` |
| LoginRequest.SetUser | msg_login_request.hpp:53-61 | the 64-byte user slot at body offset 0 holds the slot image of the string, and nothing else changes |
| LoginRequest.SetPassword | msg_login_request.hpp:77-85 | the 32-byte password slot at body offset 64 holds the slot image of the string, and nothing else changes |
| LoginRequest.UserRoundTrip | msg_login_request.hpp:48-61 | the user getter returns a NUL-free user of fewer than 64 bytes exactly as the setter stored it |
| LoginRequest.PasswordRoundTrip | msg_login_request.hpp:72-85 | the password getter returns a NUL-free password of fewer than 32 bytes exactly as the setter stored it |
| LoginRequest.SettersCommute | msg_login_request.hpp:53-85 | writing the user leaves the password bytes alone and the other way round, so the two setters commute |
| LoginRequest.WriteStoresEncoding | msg_login_request.hpp:39-85 | the two setters lay down exactly the 96-byte body encoding and touch nothing outside the body |
| LoginRequest.ReadWrite | msg_login_request.hpp:48-85 | when each field's truncation has no NUL, the slot-bounded readers return the user and password cut to 64 and 32 bytes |
| LoginRequest.UserGetterOverrunsIntoPassword | msg_login_request.hpp:48-61 | a 64-byte user with no NUL and a non-empty password make the getter as written return more than 64 bytes, running into the password slot; the slot-bounded reader returns the 64 user bytes |
| LoginRequest.GettersReadBack | msg_login_request.hpp:48-85 | after the chained `User(..).Password(..)` write, both getters as written return their strings when each is NUL-free and shorter than its slot: writing the password does not disturb the user's terminator |
| LoginResponse.Open | msg_login_response.hpp:18-20 | the view can be built exactly when `offset + 33 <= bufferLength` |
| LoginResponse.SetCode | msg_login_response.hpp:53-56 | the code byte lands at body offset 0 and nothing else changes |
| LoginResponse.SetReason | msg_login_response.hpp:72-80 | bytes 1..32 of the body hold the slot image of the reason, and nothing else changes, including the code byte |
| LoginResponse.CodeRoundTrip | msg_login_response.hpp:49-56 | the code getter returns the byte last set |
| LoginResponse.ReasonRoundTrip | msg_login_response.hpp:67-80 | the reason getter returns a NUL-free reason of fewer than 32 bytes exactly as the setter stored it |
| LoginResponse.SettersCommute | msg_login_response.hpp:53-80 | setting the code leaves the reason bytes alone and the other way round |
| LoginResponse.WriteStoresEncoding | msg_login_response.hpp:40-80 | the two setters lay down exactly the 33-byte body encoding |
| LoginResponse.ReadWrite | msg_login_response.hpp:49-80 | the code reads back, and the slot-bounded reader returns the reason cut to 32 bytes when that cut has no NUL |
| SubmissionRequest.Open | msg_submission_request.hpp:17-19 | the view can be built exactly when `offset + 192 <= bufferLength` |
| SubmissionRequest.SetName | msg_submission_request.hpp:55-63 | the name slot [0,64) holds the slot image of the string, and nothing else changes |
| SubmissionRequest.SetEmail | msg_submission_request.hpp:79-87 | the email slot [64,128) holds the slot image of the string, and nothing else changes |
| SubmissionRequest.SetRepo | msg_submission_request.hpp:103-111 | the repository slot [128,192) holds the slot image of the string, and nothing else changes |
| SubmissionRequest.NameRoundTrip | msg_submission_request.hpp:50-63 | the name getter returns a NUL-free name of fewer than 64 bytes exactly as the setter stored it |
| SubmissionRequest.EmailRoundTrip | msg_submission_request.hpp:74-87 | the email getter returns a NUL-free email of fewer than 64 bytes exactly as the setter stored it |
| SubmissionRequest.RepoRoundTrip | msg_submission_request.hpp:98-111 | the repository getter returns a NUL-free repository of fewer than 64 bytes exactly as the setter stored it |
| SubmissionRequest.SettersKeepOtherFields | msg_submission_request.hpp:55-111 | writing one of the three fields leaves the bytes of the other two as they were |
| SubmissionRequest.WriteStoresEncoding | msg_submission_request.hpp:41-111 | the three setters lay down exactly the 192-byte body encoding |
| SubmissionRequest.ReadWrite | msg_submission_request.hpp:50-111 | the slot-bounded readers return each string last written, cut to 64 bytes, when that cut has no NUL |
| SubmissionResponse.Open | msg_submission_response.hpp:17-19 | the view can be built exactly when `offset + 32 <= bufferLength` |
| SubmissionResponse.SetToken | msg_submission_response.hpp:53-61 | the 32-byte token slot holds the slot image of the string, and nothing else changes |
| SubmissionResponse.TokenRoundTrip | msg_submission_response.hpp:48-61 | the token getter returns a NUL-free token of fewer than 32 bytes exactly as the setter stored it |
| SubmissionResponse.TokenTextRoundTrip | msg_submission_response.hpp:53-61 | the slot-bounded reader returns the token last set, cut to 32 bytes, when that cut has no NUL |
| SubmissionResponse.LongTokenFillsSlot | msg_submission_response.hpp:55-58 | a token of 32 bytes or more fills all 32 bytes with its first 32, leaving no terminator |
| LogoutResponse.Open | msg_logout_response.hpp:17-19 | the view can be built exactly when `offset + 32 <= bufferLength` |
| LogoutResponse.SetReason | msg_logout_response.hpp:53-61 | the reason slot [0,32) holds the slot image of the string, and no byte outside it changes |
| LogoutResponse.ReasonRoundTrip | msg_logout_response.hpp:48-61 | the reason getter returns a NUL-free reason of fewer than 32 bytes exactly as the setter stored it |
| LogoutResponse.ReasonTextRoundTrip | msg_logout_response.hpp:53-61 | the slot-bounded reader returns the reason last set, cut to 32 bytes, when that cut has no NUL |
| LogoutRequest.Open | msg_logout_request.hpp:16-18 | the empty body fits exactly when `offset <= bufferLength` |
| Checksum.Checksum | checksum.hpp:8-25 | the routine changes no byte of the buffer other than the checksum field at 11..12 |
| Checksum.SumWords | checksum.hpp:12-19 | the word loop adds each little-endian 16-bit word and then a trailing odd byte unshifted; the result is the seed plus the word sum of the first `len` bytes, modulo 2^32 |
| Checksum.ComputeOrVerify | checksum.hpp:8-25 | the loop-based routine produces exactly the buffer the functional model describes |
| Checksum.NoOverflow | checksum.hpp:12-19 | with a 16-bit seed and at most 1024 bytes, the 32-bit accumulator never wraps |
| Checksum.FoldTwice | checksum.hpp:21-22 | two carry folds of a 32-bit sum give at most 0xFFFF, stay congruent to the sum modulo 0xFFFF, and are zero only for a zero sum |
| Checksum.OnlyFieldChanges | checksum.hpp:10-24 | bytes before offset 11 and after offset 12 are untouched |
| Checksum.ChecksumPrefix | checksum.hpp:12-19 | the routine reads nothing past `len`: the verdict on a frame does not depend on what follows it in the buffer |
| Checksum.ChecksumShape | checksum.hpp:9-24 | the field ends as the complement of the twice-folded sum of the remembered value and the frame summed with its field zeroed |
| Checksum.ComputeStoresComplement | checksum.hpp:9-24 | on a zeroed field the stored value is 0xFFFF minus the folded word sum, so stored value plus word sum is a multiple of 0xFFFF |
| Checksum.VerifyAfterCompute | checksum.hpp:9-24 | running the routine again on a computed frame leaves the field at 0 and restores the bytes as they were before the computation |
| Checksum.SingleByteChangeDetected | checksum.hpp:12-24 | changing any one of the first `len` bytes of a computed frame makes verification leave a non-zero field |
| ProtoClient.Transmit | proto_client.cpp:68 | a write succeeds exactly when the peer accepts the whole frame; otherwise it throws after the accepted prefix went out |
| ProtoClient.Receive | proto_client.cpp:75 | a read of `n` bytes succeeds exactly when the peer has `n` bytes left; otherwise it consumes what is left and throws |
| ProtoClient.ReadExact | proto_client.cpp:83 | the bytes read land at the given offset of the scratch buffer and no other byte changes |
| ProtoClient.WriteExact | proto_client.cpp:68 | the first `n` bytes of the buffer go out; the write goes on exactly when the peer accepts all of them, and the buffer and token are untouched |
| ProtoClient.VerifyFrame | proto_client.cpp:87-91 | the reply continues exactly when its checksum verifies over the expected length; otherwise the attempt throws |
| ProtoClient.WriteLoginRequest | proto_client.cpp:56-71 | building and writing the login request keeps the token and leaves the buffer past byte 205 as it was; `SessionSpec.WriteLoginMatches` pins down the bytes it sends |
| ProtoClient.WriteSubmissionRequest | proto_client.cpp:122-137 | building and writing the submission request keeps the token and leaves the buffer past byte 205 as it was; `SessionSpec.WriteSubmissionMatches` pins down the bytes it sends |
| ProtoClient.WriteLogoutRequest | proto_client.cpp:188-200 | building and writing the logout request keeps the token and leaves the buffer past byte 205 as it was; `SessionSpec.WriteLogoutMatches` pins down the bytes it sends |
| ProtoClient.ReadLoginResponse | proto_client.cpp:73-120 | reading the login reply keeps the token and leaves the buffer past byte 205 as it was; `SessionSpec.ReadLoginMatches` pins down its verdict |
| ProtoClient.ReadSubmissionResponse | proto_client.cpp:139-186 | reading the submission reply leaves the buffer past byte 205 as it was and changes the token only when it continues; `SessionSpec.ReadSubmissionMatches` pins down the token and verdict |
| ProtoClient.ReadLogoutResponse | proto_client.cpp:202-219 | reading the final reply keeps the token and leaves the buffer past byte 205 as it was; `SessionSpec.ReadLogoutMatches` pins down its verdict |
| ProtoClient.RunOne | proto_client.cpp:223-244 | an attempt leaves the buffer past byte 205 as it found it; `SessionSpec.RunOneMatchesExpected` pins down its outcome, token and traffic |
| ProtoClient.RunAll | proto_client.cpp:40-54 | at most one attempt per address; a successful run has made at least one attempt, and a failed run has tried every address |
| ProtoClient.Run | proto_client.cpp:18-37 | true only after a resolution with at least one address and at most one attempt per address; false after trying every resolved address, or none when resolution fails; with no attempt the client is untouched; the buffer past byte 205 is never changed |
| SessionSpec.PreparedLoginFrame | proto_client.cpp:59-66 | after the header, body and checksum are written, the first 109 bytes of the scratch buffer are the login frame, whatever the buffer held before |
| SessionSpec.PreparedSubmissionFrame | proto_client.cpp:123-132 | the first 205 bytes of the prepared scratch buffer are the submission frame, whatever the buffer held before |
| SessionSpec.PreparedLogoutFrame | proto_client.cpp:189-195 | the first 13 bytes of the prepared scratch buffer are the logout frame, whatever the buffer held before |
| SessionSpec.PreparedSubmissionTrail | proto_client.cpp:123-132 | past byte 45 the prepared buffer holds the rest of the submission frame and then the bytes past byte 205 as they were: what the token getter reads on into |
| SessionSpec.LoginBodyMatches | proto_client.cpp:79-99 | after a login response header, reading the 33-byte body, verifying and checking the code agrees with the message-level answer on the peer's bytes |
| SessionSpec.SubmissionBodyMatches | proto_client.cpp:145-162 | after a submission response header, the 32-byte body is read and verified over 45 bytes, and the token kept is the C string that starts at the token slot and runs on through the buffer after byte 45 |
| SessionSpec.PeerLogoutMatches | proto_client.cpp:100-114 | after a logout response header in place of the expected reply, the 32-byte body is read and verified, and the attempt stops without a token change |
| SessionSpec.WriteLoginMatches | proto_client.cpp:56-71 | writing the login request sends exactly the login frame built from the credentials and the clock reading, whatever the scratch buffer held |
| SessionSpec.WriteSubmissionMatches | proto_client.cpp:122-137 | writing the submission request sends exactly the submission frame |
| SessionSpec.WriteLogoutMatches | proto_client.cpp:188-200 | writing the logout request sends exactly the 13-byte logout frame |
| SessionSpec.ReadLoginMatches | proto_client.cpp:73-120 | reading the login reply consumes and decides exactly what the message-level reply says: a verified 'E' with code 'Y' continues, a verified 'G' stops without error, and anything else throws |
| SessionSpec.ReadSubmissionMatches | proto_client.cpp:139-186 | reading the submission reply agrees with the message-level reply; when it continues, the token is the C string from the response's token slot on into the buffer after it |
| SessionSpec.ReadLogoutMatches | proto_client.cpp:202-219 | the final reply is a fixed 45 bytes, verified, and not type-checked |
| SessionSpec.ReadBodyMatches | proto_client.cpp:80-91 | the body read has the length of the expected type, and the verdict depends on the checksum alone |
| SessionSpec.ReadBodyKeepsTail | proto_client.cpp:80-91 | reading and verifying an `n`-byte frame leaves every buffer byte from `n` on as it was |
| SessionSpec.TokenFromBuffer | proto_client.cpp:162 | the token getter over the buffer reads the token slot as it came from the peer and then, with no NUL in the slot, on into the buffer after byte 45 |
| SessionSpec.TokenOfSlot | msg_submission_response.hpp:48-51 | that token is the slot's text when the slot holds a NUL, and otherwise the whole slot followed by the C string at the start of the bytes after it |
| SessionSpec.RunOneMatchesExpected | proto_client.cpp:223-244 | an attempt of the buffered client comes to the message-level expectation for the bytes its buffer holds past byte 205: the same outcome, the same token, the same bytes written and the same bytes consumed |
| SessionSpec.LoginReplyContinues | proto_client.cpp:79-99 | the login reply lets the attempt go on exactly when a verified 46-byte 'E' frame with code 'Y' arrives |
| SessionSpec.SubmissionReplyContinues | proto_client.cpp:145-162 | the submission reply lets the attempt go on exactly when a verified 45-byte 'R' frame arrives |
| SessionSpec.LogoutStageSuccess | proto_client.cpp:240-243 | the logout stage succeeds exactly when the 13-byte request goes out and 45 verified bytes follow; the token is kept |
| SessionSpec.SubmissionStageSuccess | proto_client.cpp:237-243 | the rest of an attempt after the login succeeds exactly when both requests go out, a verified 'R' frame arrives and 45 verified bytes follow it |
| SessionSpec.SubmissionStageEffects | proto_client.cpp:145-162 | a successful submission stage leaves the token the getter reads from the response bytes on into the buffer trail, and has written the submission and logout frames in order |
| SessionSpec.LoginStageSuccess | proto_client.cpp:234-243 | an attempt on an open connection succeeds exactly when the peer accepts all three requests and sends, in order, a verified 'Y' login response, a verified submission response and 45 verified bytes |
| SessionSpec.LoginStageContinues | proto_client.cpp:234-238 | after a verified login response with code 'Y' the attempt is the submission stage on the bytes after the 46-byte reply |
| SessionSpec.LoginStageNoToken | proto_client.cpp:224-235 | without an accepted login the attempt does not succeed and leaves an empty token |
| SessionSpec.LoginStageEffects | proto_client.cpp:234-243 | a successful attempt leaves the token the getter reads from the submission response on into the buffer trail, and has written the three frames in order |
| SessionSpec.ExpectedSuccess | proto_client.cpp:223-244 | an attempt succeeds exactly when the peer completes the script; then its token is the C string from bytes 59..90 of the peer's replies on into the rest of the submission frame and the bytes past byte 205, and it has sent the three frames |
| SessionSpec.SessionTokenIsSlotText | proto_client.cpp:162 | when the token slot holds a NUL or the name has at most 32 bytes, the token is exactly the text of the token slot, whatever the buffer held |
| SessionSpec.BuiltInSessionToken | proto_client.cpp:162 | with the client's own 12-byte name the token is always the text of the token slot |
| SessionSpec.LongNameReachesToken | proto_client.cpp:162 | with a token that fills its slot and a name whose byte 32 is not NUL, the token is longer than the slot and its byte 32 is that name byte |
| SessionSpec.StaleBytesReachToken | proto_client.cpp:162 | with a token, name, email and repository that all fill their slots, the token runs through the name's second half, the email and the repository and on into the bytes the buffer held past byte 205 before the attempt |
| FrameFacts.RequestFrameShape | proto_client.cpp:64-66 | a header with a zero checksum and its body, once checksummed over the frame length, keep the type, length and timestamp, verify, and keep the body bytes |
| FrameFacts.LoginFrameWellFormed | proto_client.cpp:59-68 | the login frame carries type 'L', length 109 and the clock reading, verifies, and its body reads back as the credentials cut to their slots |
| FrameFacts.SubmissionFrameWellFormed | proto_client.cpp:123-134 | the submission frame carries type 'S', length 205 and the clock reading, verifies, and its body reads back |
| FrameFacts.LogoutFrameWellFormed | proto_client.cpp:189-197 | the logout frame is a bare 13-byte header of type 'O' with length 13 that verifies |
| Endings.LogoutInsteadOfLogin | proto_client.cpp:100-114 | a 'G' frame in place of the login response ends the attempt without error when it verifies and with an error otherwise; only the login request has been written and there is no token |
| Endings.LogoutInsteadOfSubmission | proto_client.cpp:163-180 | a 'G' frame in place of the submission response ends the attempt the same way; login and submission requests have been written, no logout request, and there is no token |
| Endings.RejectedLogin | proto_client.cpp:93-99 | a verified login response whose code is not 'Y' throws with the text of the response's reason slot after only the login request was written |
| Endings.CorruptLogin | proto_client.cpp:87-91 | a login response that fails its checksum throws at once, with no retry |
| Endings.UnexpectedLoginReply | proto_client.cpp:115-117 | a reply whose type is neither 'E' nor 'G' ends the attempt with the unexpected-response error |
| Endings.ShortLoginWrite | proto_client.cpp:68 | a peer that cannot take the whole login request ends the attempt at the write, after the accepted prefix |
| Endings.TokenOrigin | proto_client.cpp:224 | the token an attempt leaves is the session token read from the verified submission response after an accepted login, and empty otherwise, whatever the logout exchange does |
| Endings.StaleBufferIrrelevant | proto_client.cpp:223-244 | what the scratch buffer held before an attempt does not change its outcome or traffic; the token is the same when the bytes past byte 205 agree or the name has at most 32 bytes |
| Endings.ResidueReachesTokenOnly | proto_client.cpp:223-244 | the bytes past byte 205 change nothing about an attempt but its token |
| Endings.AcceptedLoginContinues | proto_client.cpp:234-238 | after an accepted login the attempt is the submission stage on the bytes after the 46-byte reply |
| Endings.UnacceptedLoginNoToken | proto_client.cpp:224-235 | an attempt without an accepted login ends with an empty token |
| Endings.SentIsScriptPrefix | proto_client.cpp:234-243 | whatever the outcome, the bytes written are a prefix of login, submission and logout frame in that order |
| RunSpec.AttemptSucceeds | proto_client.cpp:223-244 | an attempt on the buffered client succeeds exactly when the peer completes the script, and then leaves the session token: the C string from bytes 59..90 of the peer's replies on into the client's buffer |
| RunSpec.RunAllStopsAtFirst | proto_client.cpp:41-53 | the loop stops right after the first address whose attempt succeeds, keeping that attempt's session token, and fails when none succeeds |
| RunSpec.RunAllFirstSuccess | proto_client.cpp:40-54 | the run succeeds exactly when some address's attempt succeeds; then every earlier address failed, later ones were not tried, and the token is that address's session token over the buffer the run began with; otherwise every address was tried |
| RunSpec.RunAllFirstComplete | proto_client.cpp:40-54 | the same, stated on which peers complete the script: a rejected login or a bad checksum at one address moves on to the next |
| RunSpec.RunSucceeds | proto_client.cpp:18-37 | the client's verdict is true exactly when resolution yields an address whose attempt succeeds |
| RunSpec.ShortNameRunToken | proto_client.cpp:40-54 | with a name of at most 32 bytes, a successful run leaves exactly the text of the token slot of the address it stopped at |
| RunSpec.BuiltInRunToken | proto_client.cpp:40-54 | with the client's own credentials, a successful run leaves exactly the text of the token slot of the address it stopped at |
| RunSpec.FirstIndexIsFirst | proto_client.cpp:41-47 | the first matching index finds a match exactly when there is one, and every element before it fails |

## Left out

- Sockets, connect timeouts and non-blocking connect are not modelled. A `Peer` stands in for them: whether the connection opens, the bytes the peer sends, and how many bytes it accepts. A failed read or write becomes a thrown error. A read that ends short is the one error `ReadFailed`, whether the peer shut down or the read failed after the receive timeout; the client throws different exceptions for the two, and the loop over addresses treats them alike.
- Resolution is not modelled. The resolver's result is a parameter: either a failure or an address list.
- The clock reading is not modelled. Each request's timestamp is an arbitrary u64 parameter.
- Logging and the `operator<<` printers are diagnostics and are left out. So is the program's entry point.
- Host byte-order selection is left out. Multi-byte fields are stated directly as little-endian bytes.
- Copy and move constructors of the views are left out. A view is modelled as `(buf, off)`.
- The client's hard-coded strings are not baked into the model. They are the `Credentials` parameter; `ProtoClient.BuiltIn` holds their values.
- Checksum.Checksum: modelled only for a header at offset 0 of the summed buffer. Every call in the client uses that layout.
- Checksum.Checksum: requires `len >= 1`. At 0 the source's unsigned `len - 1` wraps and the loop reads out of bounds; the client always passes at least 13.
- Checksum.NoOverflow: proved only for frames up to 1024 bytes, the scratch buffer's size. Longer frames are never built or read.
- MsgHeader.Open: the source adds `offset + EncodedLength` in `size_t`. The model uses unbounded integers, so that sum cannot wrap.
- MsgHeader.SetMsgLen: the source narrows the frame length to 16 bits. Every frame length the client uses is below 2^16.
- Wire.CStringAt: stops at the end of the 1024-byte buffer. The client's `std::string{b}` would read past the array there, which is undefined behaviour. This matters only for a string whose NUL-free run reaches byte 1024, such as a token in `SessionSpec.StaleBytesReachToken` whose residue holds no NUL.
- Each text field has two readers. The client's getter (`User`, `Token`, ...) is `Wire.CStringAt`, and the session uses it for the token. The slot-bounded reader (`UserText`, `TokenText`, ...) is `Wire.ReadText`, the corrected reader of the Findings row. The `Read` functions of the body modules use it.
- ProtoClient.ReadLoginBody: reads a rejected login's reason within its slot, where the client's getter may run on past the slot. The reason only becomes the text of the thrown exception, which the loop over addresses discards.
- Endings.RejectedLogin: states the rejection reason as the slot's text, for the same reason.
- SubmissionRequest.ReadWrite: the read-back of a chained three-field write is stated for the slot-bounded readers only. The client's getters are covered field by field by `NameRoundTrip`, `EmailRoundTrip` and `RepoRoundTrip`, and the chained write by `SettersKeepOtherFields`.
- RunSpec.RunAllFirstSuccess: stated for any predicate that decides attempts from the peer alone. `RunSpec.CompletesDecides` supplies `Completes` as that predicate, and `RunAllFirstComplete` is the instance.

## Findings

| source | as written | input that shows it | evidently intended | confidence | as-written member | corrected member |
|---|---|---|---|---|---|---|
| msg_login_request.hpp:48-51 | every text getter returns `std::string{b}`, which reads up to the first zero byte anywhere after the field's start, while every text setter leaves no terminator when the string fills its slot | a login request whose user is 64 non-NUL bytes and whose password is non-empty: the user getter returns the 64 user bytes followed by the password (`LoginRequest.UserGetterOverrunsIntoPassword`); in the session, a peer token of 32 non-NUL bytes with a name of 64 non-NUL bytes makes the kept token run on into the request (`SessionSpec.LongNameReachesToken`, `SessionSpec.StaleBytesReachToken`) | a getter returns at most its slot's width of bytes, stopping at the first zero inside the slot | not executed | Wire.CStringAt | Wire.ReadText |
