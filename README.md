# Git-over-SSH handler of ferris.land, modelled in Dafny

The server lets a client reach Git repositories over SSH. The model covers the
per-connection handler in `git/src/ssh.rs`:

- **Authentication gate** (`auth_none`). The user `git` is accepted with no
  credentials. Everyone else is rejected with `proceed_with_methods: None`;
  which methods the client may try next is left to the SSH library.
- **Exec router** (`exec_request`). The payload must be UTF-8; otherwise the
  handler panics. It is split on single spaces. Only exactly two tokens whose
  first is `git-upload-pack` do anything: they start
  `git-upload-pack ./repos/rust.git`. The second token is ignored. Any other
  payload sends nothing and starts nothing.
- **Relay**. The child's standard output is sent to the channel one byte per
  data frame. Two variables (`leading_zeros`, `encountered_non_zero`) watch
  each line. The relay stops right after the byte that completes four `'0'`
  characters at the start of a line. This is a heuristic for the flush-pkt
  `0000` of Git's pkt-line framing. The model keeps the heuristic exactly: it
  does not parse the four-hex-digit length headers.
- **`data` and `extended_data`**. They drop the client's bytes and return the
  session unchanged.

Modelling choices:

- A russh `Session` is moved into each callback and returned in its result. It
  is therefore a value, `Transport.Session`, holding the list of data frames
  queued so far. `session.data(..)` adds one frame.
- Starting the child is an input of `ExecRequest` (`Spawn`). It either fails or
  gives the child's output bytes, together with whether the read after the
  last byte fails instead of hitting end of file. `exec_request` has four
  `unwrap`/`expect` calls. Three of them (UTF-8 decoding at line 62, spawning
  at line 76, reading at line 82) become the outcome `Panicked`. The fourth,
  `child.stdout.take().unwrap()` at line 77, cannot fail: standard output is
  set to `Stdio::piped()` at line 74, so the handle is always there.
- The payload is kept as bytes. Splitting on byte `0x20` matches splitting
  the decoded string on `' '`, because in UTF-8 that byte only ever encodes
  U+0020. For the same reason, comparing with the ASCII bytes of
  `git-upload-pack` matches the string comparison. `from_utf8`'s acceptance
  test is written out from Table 3-7 of the Unicode Standard. It is proved
  equal to "is the UTF-8 encoding of a string of Unicode scalar values".
- The relay's stop rule is stated against a separate definition. `FlushEnd`
  is a plain search for the first line that starts with `0000`. The loop's
  invariants connect it to the two variables of the source.

## Model

| member | source | states |
|---|---|---|
| SshHandler.AuthNone | git/src/ssh.rs:34-43 | Accept exactly when the user is `git`; every other user is rejected with `proceed_with_methods: None`, leaving the methods the client may try next to the SSH library |
| SshHandler.Data | git/src/ssh.rs:45-48 | client data is discarded: no frame is written, the session's frames are unchanged |
| SshHandler.ExtendedData | git/src/ssh.rs:50-59 | extended client data of any type code is discarded: the session's frames are unchanged |
| SshHandler.ExecRequest | git/src/ssh.rs:61-109 | invalid UTF-8 panics; a payload that is not `git-upload-pack <one token>` returns the session unchanged and starts nothing; otherwise the started command is always `git-upload-pack ./repos/rust.git`, whatever the second token; a failed spawn panics; the frames added are one per byte of the child's output up to StopPoint; a read error panics only when the relay reached the end of the output without stopping |
| SshHandler.IsUploadPack | git/src/ssh.rs:63-68 | a payload routed to upload-pack contains exactly one space and begins with `git-upload-pack` followed by that space |
| SshHandler.TwoTokensIffOneSpace | git/src/ssh.rs:63-66 | the payload splits into exactly two tokens iff it contains exactly one space |
| SshHandler.UploadPackRequestRouted | git/src/ssh.rs:62-68 | every `git-upload-pack <repo>` with a space-free `repo` is routed to upload-pack with `repo` as the second token, and is valid UTF-8 when `repo` is |
| SshHandler.UploadPackRequestsOnly | git/src/ssh.rs:63-67 | conversely, every payload routed to upload-pack is `git-upload-pack`, one space, and a space-free token |
| SshHandler.DoubleSpaceIgnored | git/src/ssh.rs:63-66 | `git-upload-pack  <repo>` (two spaces) splits into three tokens and is not routed |
| Relay.Relay | git/src/ssh.rs:79-98 | the loop appends one frame of one byte per forwarded byte, which is the output up to StopPoint, and reports whether it broke on a line-start `0000`; its invariants keep `leading_zeros` below 4 between bytes (so the `u8` never overflows) and, while `encountered_non_zero` is false, equal to the number of `'0'` bytes since the line start |
| Relay.FlushEndIsFirst | git/src/ssh.rs:84-98 | the stop rule: FlushEnd is the end of the first line starting with `0000`, with no such line before it, and None exactly when no line starts with `0000` |
| Relay.FlushEndUnique | git/src/ssh.rs:95-97 | a line-start `0000` ending at `e` with none before it is where the relay stops |
| Relay.RelayedIsPrefix | git/src/ssh.rs:82-93 | the relayed frames read back as the output's prefix up to the stop point, unchanged and in order; everything is forwarded exactly when no line-start `0000` ends before the last byte |
| Relay.StopExamples | git/src/ssh.rs:84-98 | `0000` forwards 4 bytes, `x\n0000` forwards 6, `0000\n0000` forwards 4; `a0000`, `0008` and `000` never stop |
| Relay.PktLineExamples | git/src/ssh.rs:84-98 | a pkt-line payload starting `0000` does not stop the relay, a `0000` after a newline inside a payload stops the 12-byte pkt-line `000cab\n0000\n` after 11 bytes, one short of its end, and a flush-pkt after a pkt-line without a trailing newline is missed |
| Transport.ByteFramesPayload | git/src/ssh.rs:93 | one frame per byte: each frame is on the request's channel, has length 1, and the frames read back as the bytes |
| Tokens.Split | git/src/ssh.rs:63 | `split(' ')` always yields at least one token, even for an empty payload, and a payload without a space is a single token, itself |
| Tokens.JoinSplit | git/src/ssh.rs:63 | splitting on a separator loses nothing: joining the tokens with it gives the input back |
| Tokens.SplitJoin | git/src/ssh.rs:63 | splitting undoes joining when no token contains the separator |
| Tokens.SplitCount | git/src/ssh.rs:63 | splitting gives one more token than there are separators |
| Tokens.SplitPiecesFree | git/src/ssh.rs:63 | no token contains the separator |
| Utf8.Valid | git/src/ssh.rs:62 | the test `from_utf8` applies: accepted text never starts with a continuation byte, `0xC0`, `0xC1` or `0xF5`..`0xFF`, and never ends on a lead byte (`0xC0`..`0xFF`); that the whole text is a sequence of complete encodings is Utf8.DecodeAllEncodeAll |
| Utf8.EncodeAllValid | git/src/ssh.rs:62 | the decoder accepts the UTF-8 encoding of every string of scalar values |
| Utf8.DecodeAllEncodeAll | git/src/ssh.rs:62 | everything the decoder accepts is the encoding of the values it decodes to |
| Utf8.DecodeAllScalar | git/src/ssh.rs:62 | the values decoded from accepted bytes are all Unicode scalar values |
| Utf8.EncodeDecode | git/src/ssh.rs:62 | the encoding of one scalar value is one well-formed sequence that decodes back to it |
| Utf8.DecodeEncode | git/src/ssh.rs:62 | every well-formed sequence decodes to a scalar value that encodes back to it |
| Utf8.ValidConcat | git/src/ssh.rs:62 | appending valid UTF-8 to valid UTF-8 gives valid UTF-8 |
| Utf8.RejectedExamples | git/src/ssh.rs:62 | overlong forms, surrogates, values above U+10FFFF, stray continuation bytes and truncated sequences are rejected |

## Left out

- `launch` (git/src/ssh.rs:7-13): host-key generation, server configuration, binding port 2222 and running the server are I/O.
- `Server::new_client` (git/src/ssh.rs:20-23): it only logs and returns the stateless handler.
- `finished`, `finished_auth`, `finished_bool` (git/src/ssh.rs:111-122): they only wrap a result in a ready future. The callbacks return their results directly.
- SshHandler.AuthNone: which authentication methods the client is told it may try after a rejection. `proceed_with_methods: None` leaves that to the SSH library and its configuration, so the model does not say.
- All `println!` and `eprintln!` logging.
- Process creation and pipe reads: the child is an input (`Spawn`), and its output is a given byte sequence. Its standard input is piped but never written, so it is not modelled.
- SshHandler.ExecRequest: a panic is modelled as `Panicked` with no session. Which frames queued before a read error still reach the client depends on the SSH library, so the model does not say.
- The channel id is carried into every frame. Channel opening and closing, flow-control windows, and encryption of each frame belong to the SSH library and are not modelled.
- The model takes the child's output as a finite byte sequence ending in end of file or a read error. Standard input is piped (git/src/ssh.rs:73) and never written or closed. So if the child waits for input before printing a line-start `0000`, the loop at git/src/ssh.rs:82 blocks forever; that non-termination is not modelled.
- Exit-status reporting, repository path resolution, `git-receive-pack` and hex pkt-line length parsing do not exist in the source, so they are not modelled.
