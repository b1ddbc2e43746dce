# Trivia game server: wire format and game state, in Dafny

This project models the core of a small multiplayer trivia game written in C.
A server admits up to ten players during a lobby window. It authenticates each
player with a one-time four-digit code. It then broadcasts six multiple-choice
questions and scores the answers that come back on each player's own
connection. A background sweep drops players whose keepalives stop.

Three modules, verified together:

- `Protocol` (`protocol.dfy`) models `protocol.h`:
  - the nine `TRV_*` type codes;
  - the packed 4-byte header plus a 512-byte payload;
  - the `TriviaQuestion` record;
  - `build_message`, as the method `TrvMessage.Build`. It fills a message buffer in place, with `strncpy` semantics.
  - A pure `Encode`/`Decode` pair describes the bytes on the wire.
  - `TrvMessage.Wire` gives the first `4 + payload_len` bytes of the struct. It is proved to decode back to the buffer's fields.
- `CStrings` (`cstrings.dfy`) models the two C library conversions the server uses:
  - `atoi`, which reads the code in an authentication reply and the choice in an answer;
  - `snprintf("%d")`, which writes the code into the challenge.
  - The key law is `Atoi(Decimal(n) + rest) == n` when `rest` does not start with a digit.
- `TriviaServer` (`server.dfy`) models `server_RON.c`:
  - the `questions` catalogue;
  - the pure decisions: the auth check, answer correctness, one message's effect on an entry, staleness, and question formatting;
  - `start_game`'s broadcast loop;
  - the class `Server`. It holds the global `clients[10]` table, `client_count` and `game_started`. Its methods are one accept-loop turn, the steps of `handle_client`, one keepalive sweep, and the lobby close.

Modelling choices:

- A C `char` is `CChar`, a Dafny character below 256. Header bytes are `uint8` integers.
- The C code writes `payload_len` in host byte order. This model fixes it as little-endian (low byte first).
- Time is whole seconds. The staleness test is `now - last_keepalive > 10` on integers, where the C code uses `difftime`.
- `rand()` is an input. `IssueCode` takes its non-negative value `r` and computes `r % 9000 + 1000`.
- A received message is a whole `Message` value: type, question id and the `payload_len` payload bytes.
- Each handler step, sweep and lobby flip is one atomic method.

The code departs from the game's documented behaviour in places; the model follows the code:

- No AUTH_FAIL is sent when admission is refused; the socket is only closed (server_RON.c:72-76).
- The auth reply is checked only by `atoi(payload) == auth_code`. There is no nickname check and no second look at `game_started` (server_RON.c:105).
- Only a KEEPALIVE refreshes `last_keepalive`; an ANSWER or ACK does not (server_RON.c:125-126).
- A refused client's entry stays in the table, unverified, and `client_count` is not lowered.
- `auth_code` is not reset when an entry is admitted.
- There is no winner resolution in the server code.

## Model

| member | source | states |
|---|---|---|
| `Protocol.Code` | protocol.h:8-16 | every message kind has a type code between 1 and 9 |
| `Protocol.KindOf` | protocol.h:8-16 | a type byte names a kind exactly when it is 1 to 9, and that kind's code is the byte |
| `Protocol.CodesDistinct` | protocol.h:8-16 | the nine codes are pairwise distinct, and each kind is recovered from its code |
| `Protocol.Encode` | protocol.h:29-34 | a message goes on the wire as exactly `4 + payload_len` bytes: header, then payload, no padding |
| `Protocol.ReadLe16` | protocol.h:32 | reading the 2-byte length field inverts writing it |
| `Protocol.Decode` | protocol.h:29-34 | a buffer decodes only if the whole header is there, the length is at most 512 and the payload bytes are all present |
| `Protocol.DecodeEncode` | protocol.h:29-43 | decoding an encoded message recovers type, question id and payload, whatever bytes follow it |
| `Protocol.EncodeDecode` | protocol.h:29-34 | a buffer that decodes starts with the encoding of the decoded message |
| `Protocol.TrvMessage.constructor` | protocol.h:29-34 | a fresh message buffer has a 512-byte payload and an empty, valid header |
| `Protocol.TrvMessage.Read` | protocol.h:29-34 | the fields of a buffer form a message that keeps `payload_len <= 512` |
| `Protocol.TrvMessage.Wire` | protocol.h:29-34 | the first `4 + payload_len` bytes of the struct decode to the buffer's own fields |
| `Protocol.TrvMessage.Build` | protocol.h:37-43 | sets type and question id to the arguments and `payload_len` to the string's length; the payload starts with the string and is zero-filled after it; returns `4 + payload_len`; the wire bytes are the encoding of the message |
| `CStrings.SkipSpaces` | server_RON.c:105 | `atoi` drops exactly the leading whitespace |
| `CStrings.LeadingDigits` | server_RON.c:132 | `atoi` reads the longest run of digits and stops at the first non-digit |
| `CStrings.Decimal` | server_RON.c:97 | `%d` of a non-negative number is a non-empty digit string with no leading zero |
| `CStrings.DigitsValueDecimal` | server_RON.c:97 | the digits `%d` writes have the value of the number |
| `CStrings.LeadingDigitsStop` | server_RON.c:105 | a digit string followed by a non-digit is read up to the non-digit |
| `CStrings.AtoiDecimal` | server_RON.c:95-105 | `atoi` reads back the number `%d` wrote, whatever non-digit text follows |
| `CStrings.FourDigits` | server_RON.c:95-97 | a code from 1000 to 9999 is sent as exactly four characters |
| `TriviaServer.CatalogueWellFormed` | server_RON.c:34-41 | six questions, each fitting the record's buffers, each with a correct index in 0..3 |
| `TriviaServer.AuthCodeOf` | server_RON.c:95 | the generated code lies in [1000, 9999] and prints as four digits |
| `TriviaServer.CodeReplyAccepted` | server_RON.c:105-114 | an AUTH_REPLY that starts with the issued code, then anything but a digit, is accepted |
| `TriviaServer.OtherReplyRefused` | server_RON.c:105-110 | a reply with another number or another type is refused |
| `TriviaServer.EmptyReplyRefused` | server_RON.c:105-110 | an empty reply reads as 0 and is refused for every generated code |
| `TriviaServer.AuthExample` | server_RON.c:105-114 | code 4821 answered with the payload 4821, a bar and the name Alice, is accepted |
| `TriviaServer.ChoiceScores` | server_RON.c:130-138 | typing option number k scores exactly when k is the correct index plus one |
| `TriviaServer.TimeoutSentinelNeverScores` | server_RON.c:133 | only answers 1 to 4 ever score, so the timeout answer "0" never does |
| `TriviaServer.Received` | server_RON.c:125-139 | one message changes only the score and the keepalive time: the score rises by one exactly on a correct ANSWER, the time is set exactly on a KEEPALIVE |
| `TriviaServer.ScoreCountsCorrectAnswers` | server_RON.c:120-140 | after any run of messages the score has risen by exactly the number of correct answers, and no other field but the keepalive time has changed |
| `TriviaServer.RepeatedAnswerScoresTwice` | server_RON.c:130-138 | with no per-question deduplication, the same correct answer sent twice scores twice |
| `TriviaServer.HandledOutcome` | server_RON.c:91-143 | a handler stores the generated code, verifies its client exactly when the reply carries that code, and then adds one point per correct answer; a refused client gains nothing |
| `TriviaServer.SweepEvictsExactlyStale` | server_RON.c:194-201 | a sweep unverifies exactly the verified entries below `client_count` quiet for more than 10 seconds, and changes nothing else, scores included |
| `TriviaServer.SweepBoundary` | server_RON.c:195 | an entry quiet for exactly 10 seconds stays verified; one quiet for 11 does not |
| `TriviaServer.SweepIdempotent` | server_RON.c:194-201 | a second sweep at the same time changes nothing |
| `TriviaServer.Truncated` | server_RON.c:170-171 | `snprintf` into a 512-byte buffer keeps a prefix of at most 511 characters, and all of the text when it fits |
| `TriviaServer.QuestionTextListsOptions` | server_RON.c:171-176 | a formatted question is its text followed by one line per option, under the numbers 1 to 4 |
| `TriviaServer.QuestionPayload` | server_RON.c:169-176 | the broadcast payload is a NUL-free prefix of the formatted question, shorter than 512 |
| `TriviaServer.CatalogueNotTruncated` | server_RON.c:169-178 | no catalogue question is cut by the 512-byte buffer |
| `TriviaServer.QuestionMessage` | server_RON.c:178 | the message for question i is a well-formed, NUL-free QUESTION |
| `TriviaServer.StartGame` | server_RON.c:169-185 | six datagrams are sent in order; datagram i is the encoding of the QUESTION message with id i and question i's payload, and decodes back to it |
| `TriviaServer.Server.constructor` | server_RON.c:30-32 | the table starts empty with every entry zeroed and the lobby open |
| `TriviaServer.Server.Admit` | server_RON.c:72-86 | a connection is refused, leaving everything unchanged, exactly when the game has started or 10 entries are taken; otherwise entry `client_count` gets the socket, is unverified with score 0 and keepalive `now`, and the count rises by one; `client_count` stays at most 10 |
| `TriviaServer.Server.IssueCode` | server_RON.c:95-99 | the entry stores a code in [1000, 9999], which is sent in decimal in an AUTH_CODE message |
| `TriviaServer.Server.CheckReply` | server_RON.c:101-114 | the entry becomes verified, and AUTH_OK is sent, exactly when the reply is an AUTH_REPLY whose `atoi` equals the stored code; otherwise AUTH_FAIL and nothing changes |
| `TriviaServer.Server.Receive` | server_RON.c:120-139 | one received message updates only its sender's entry, as `Received` says |
| `TriviaServer.Server.Serve` | server_RON.c:120-140 | the receive loop leaves only entry i changed, to its state after every message in order |
| `TriviaServer.Server.HandleClient` | server_RON.c:91-143 | the whole handler leaves only entry i changed, to the outcome `HandledOutcome` describes |
| `TriviaServer.Server.Sweep` | server_RON.c:194-201 | the loop over the first `client_count` entries yields the table `SweepEvictsExactlyStale` describes |
| `TriviaServer.Server.LobbyTimer` | server_RON.c:145-151 | the lobby closes for good, leaving the table unchanged, and the six questions are broadcast |

## Left out

- Sockets are not modelled: `socket`, `bind`, `listen`, `accept`, `send`, `recv`, `sendto`, the multicast `setsockopt` and `close`. Messages are whole values; partial or coalesced reads are not modelled.
- `printf`, `perror`, `inet_ntoa` and `ntohs` only log. `print_message` in protocol.h is debug output.
- Threads are not modelled: `pthread_create`, `pthread_exit` and `sleep`, with the lobby time (120 s), the answer window (30 s) and the sweep period (5 s). The unsynchronised sharing of `clients[]` between handler threads and the sweep is not modelled either; each step is atomic.
- `rand`, `srand` and `time` are inputs to the methods.
- The client program (client_base.c) is not part of this model. Its "0" timeout answer appears only as an input to `TimeoutSentinelNeverScores`.
- The peer address is an opaque integer.
- The C code stores `payload_len` in host byte order. The model fixes little-endian.
- Protocol.TrvMessage.Build: requires the string to be at most 512 characters. A longer one would make `payload_len` exceed 512 while `strncpy` copies only 512 bytes. No caller in the server passes one.
- Protocol.TrvMessage.constructor: zeroes the buffer. In C it is an uninitialised stack variable; every use overwrites the fields read.
- TriviaServer.Server.CheckReply: requires the reply payload to be shorter than 512. The terminator write `payload[payload_len] = '\0'` is out of bounds at 512 and above; raw memory is not modelled.
- TriviaServer.Server.Receive: `atoi` reads only the `payload_len` payload bytes. In C the receive buffer is not terminated, so `atoi` could read stale bytes after the payload.
- CStrings.Atoi: integers are unbounded, so there is no overflow on very long digit strings (undefined behaviour in C). `Decimal` covers only non-negative numbers, the only ones printed.
- TriviaServer.Client: `score` is unbounded; a C `int` could overflow after 2^31 correct answers.
