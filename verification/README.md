# Verified models of the btls write and read engine

This project models, in Dafny, the parts of btls and tokio-btls whose logic is their own rather than
BoringSSL's, and proves what they promise:

- **The buffered TLS stream of `tokio-btls/src/lib.rs`.** `SslStream.dfy` holds the write, read, flush and
  shutdown paths; `WriteBuffer.dfy`, `ReadBuffer.dfy`, `Packer.dfy` and `StreamWrapper.dfy` the structures it
  works on, as classes whose fields change in place. Two adversaries stand for the outside. `Transport.dfy`
  answers every poll as it likes: it takes any prefix, returns `Pending`, or fails. `RecordLayer.dfy` is the TLS
  library: it seals records of at most `fragment` bytes (RFC 8446, section 5.1), each `overhead` bytes longer
  than its plaintext, behind any pending handshake bytes; it may decline, fail, and on reads, handshakes and
  shutdowns do any transport I/O. Ghost histories record what each was asked and answered.
- **The seal budget.** `SealBudget.dfy` proves the closed form equal to record-by-record sealing.
- **Arithmetic and bookkeeping of a write.** `FallbackTally.dfy` and `WriteLedger.dfy` state, on snapshots of the
  write side, what the `SSL_write` loop keeps and what a write leaves behind. `Runs.dfy` lifts this to every run
  of writes, flushes, reads, handshakes and shutdowns, and drives the stream through such runs.
- **ECH GREASE sizes** (`EchGrease.dfy`) against a serializer of the encoded inner hello (RFC 9849, section 5.1).
- **Client session reuse** (`ClientSessions.dfy`) over chains of resumed connections of any length.
- **Futures stored with a connection** (`ExDataFutures.dfy`) as an automaton over the history of one slot.

Findings:

- A comment on `retry` takes buffered records as proof that the transport returned `Pending` and registered the
  waker. A transport that fails with the error kind `WouldBlock` is treated the same, in a drain and in a flush
  poll. `RetryWithoutPending` and `FlushWithoutPending` are calls in which it happens. The contracts of `Retry` and
  `Flush` give the exact condition: the backpressure they find rests on a `Pending` of the same call if and only if
  no answer in it was an error of that kind.
- ECH GREASE padding hides a host name, for every ClientHello a TLS 1.3 client can send, if and only if the name
  is no longer than `max_name_len` (`NameHiddenIffShort`); the ClientHello that tells a longer one is a resumption.
  In full handshakes the lengths have one parity, so for one of the two roundings they also hide a name one byte
  longer, at the default `max_name_len` of 100 that of `Nss3127` (`NameHiddenInFullHandshakes`). `NameHiddenIff`
  says when a single ClientHello hides a name.
- As the source notes of NSS, the host length is cut to one byte for the padding. With an SNI above 255 bytes, which
  BoringSSL does not send, the payload would show 256 bytes more in full (`LongHostWraps`). Without SNI the padding
  is all that depends on the host: two hosts are indistinguishable if and only if their lengths, cut to one byte and
  to `max_name_len`, are equal (`BareHostsAlike`).

`dafny verify dfyconfig.toml` checks the project.

## Model

| member | source | states |
|---|---|---|
| SealBudgets.SealBudgetIsRecordLoop | tokio-btls/src/lib.rs:123-143 | the saturating closed form equals the plaintext of sealing a flat buffer record by record, for every fragment, overhead, pending flight, backlog and total |
| SealBudgets.SaturationIsExact | tokio-btls/src/lib.rs:130-142 | saturating arithmetic never changes the budget on any word size that holds the total |
| SealBudgets.LoopFrom | tokio-btls/src/lib.rs:1927-1944 | from any full record on, the loop takes all, if at most one default record is left over, or the first count of records that fills the buffer |
| SealBudgets.BudgetInRange | tokio-btls/src/lib.rs:123-143 | a budget is never zero and never exceeds the write |
| SealBudgets.NoFragmentSealsNothing | tokio-btls/src/lib.rs:123-143 | with fragment 0 a write longer than one default record would be given no budget at all |
| SealBudgets.SealedLenWithinBound | btls/src/ssl/mod.rs:4940-4947 | the backlog plus the room asked for a budget stays within `BacklogBound`, whatever the slices, and overflows only if that bound does |
| SealBudgets.SealedLenIsRecords | btls/src/ssl/mod.rs:4940-4947 | the room asked for is exactly the pending bytes and the bytes of the records, fragment by fragment, or none if that overflows |
| Transports.Transport.PollWrite | tokio-btls/src/lib.rs:819-840 | a write poll takes a prefix of what is offered, refuses, or fails; refusals take nothing |
| Transports.DrainFounded | tokio-btls/src/lib.rs:798-801 | backpressure of a drain rests on a `Pending` in it exactly if no write poll of it failed with `WouldBlock` |
| Transports.FlushFounded | tokio-btls/src/lib.rs:601-608 | so for a flush, over its write polls and its flush poll |
| WriteBuffers.RetryWithoutPending | tokio-btls/src/lib.rs:792-801 | a retry that leaves its record buffered and `blocked` set though its only poll failed |
| StreamWrappers.FlushWithoutPending | tokio-btls/src/lib.rs:601-608 | a flush with nothing buffered that reports backpressure though its only poll failed |
| WriteBuffers.WriteBuffer.Grow | tokio-btls/src/lib.rs:731 | the vector reallocates only with the written prefix dropped, and its capacity stays within twice the peak of live and requested bytes |
| WriteBuffers.WriteBuffer.MakeRoom | tokio-btls/src/lib.rs:720-732 | making room keeps the buffered bytes and the memory bound, and drops the written prefix exactly if it is no shorter than the rest or the append would reallocate |
| WriteBuffers.WriteBuffer.Push | tokio-btls/src/lib.rs:698-702 | a record is appended to the buffered bytes whole |
| WriteBuffers.WriteBuffer.Reserve | tokio-btls/src/lib.rs:774-782 | reserving keeps the bytes and makes room for exactly the default records of up to `WRITE_BUF_CAPACITY` of plaintext, if there are several |
| WriteBuffers.WriteBuffer.Retry | tokio-btls/src/lib.rs:784-802 | `blocked` is set exactly if the transport refused in this retry; every error is what the last poll explains, and backpressure is an error only with a full buffer; backpressure is founded on a `Pending` exactly without a `WouldBlock` failure |
| WriteBuffers.WriteBuffer.DrainUnlessBlocked | tokio-btls/src/lib.rs:804-817 | a blocked buffer is not polled; an unblocked one ends empty or held back by the last poll |
| WriteBuffers.WriteBuffer.Drain | tokio-btls/src/lib.rs:819-840 | wire followed by backlog never changes, the loop terminates, success is exactly an empty backlog, a refusal is the last poll and explains the error, and a transport that takes all is polled once |
| WriteBuffers.WriteBuffer.WriteLast | tokio-btls/src/lib.rs:842-875 | at every split point of the vectored write, what was taken followed by what is kept is the backlog followed by the record; at most one poll; `blocked` is set exactly by a refusal |
| WriteBuffers.WriteBuffer.Keep | tokio-btls/src/lib.rs:866-874 | the bytes left after `n` taken ones stay buffered in order, within the memory bound |
| Packers.Packer.NextRecord | tokio-btls/src/lib.rs:893-915 | a nonempty prefix of the rest within the limit, `None` only at the end, never sharing a limit with the record before, and of the length that follows from the slice lengths by `ByTheRule` |
| Packers.Packer.Pack | tokio-btls/src/lib.rs:935-967 | grouping is greedy; the next slice is cut exactly when the record has room, the slice is at most half the limit, and slices are grouped already or input follows it |
| Packers.Packer.Gather | tokio-btls/src/lib.rs:917-933 | the gathered record is the head, the grouped slices and the cut, in order |
| Packers.Packer.Advance | tokio-btls/src/lib.rs:969-981 | advancing by `n` removes exactly the first `n` bytes of the flattened rest |
| Packers.PackedIsPrefix | tokio-btls/src/lib.rs:909-932 | whatever the grouping and the cut, the record is a prefix of the flattened rest |
| Packers.RecordCount | tokio-btls/src/lib.rs:945-964 | records of which any two in a row exceed the limit number at most `2 * (total / (limit + 1)) + 1` |
| Packers.NextLenAtCursor | tokio-btls/src/lib.rs:898-915 | the next record's length depends on the slices, the bytes sealed and the limit alone, wherever the cursor rests |
| Packers.NextLenByTheRule | tokio-btls/src/lib.rs:938-967 | as many whole slices as fit, filled up just from a slice of at most half the limit with several slices before or one after it; a record ends inside a later slice only if that is at most half the limit |
| Packers.IsolatedPair | tokio-btls/src/lib.rs:954-961 | of two last slices that do not fit together the first goes alone |
| Packers.ShortSlicesFill | tokio-btls/src/lib.rs:945-964 | with no slice over half the limit every record is full or takes all that is left |
| Packers.PackAll | tokio-btls/src/lib.rs:1049-1066 | packing a whole write at any limit is lossless, terminates, makes every record by the rule and no more records than that; exactly the fewest possible if no slice exceeds half the limit |
| ReadBuffers.ReadBuffer.Read | tokio-btls/src/lib.rs:645-667 | hands on as much as is waiting, or was just taken, and fits, so nothing with room to spare means the transport ended; fails exactly as its one transport read does; conserves ciphertext; a drained buffer holds no memory |
| ReadBuffers.ReadBuffer.Fill | tokio-btls/src/lib.rs:669-693 | exactly one transport read, offered the buffer's capacity, whose answer it gives; without data the buffer stays empty and released |
| StreamWrappers.StreamWrapper.Write | tokio-btls/src/lib.rs:591-599 | a record is taken whole; only an unblocked last record reaches the transport, with one poll, and a refusal blocks |
| StreamWrappers.StreamWrapper.Flush | tokio-btls/src/lib.rs:601-608 | the result is the drain's account of the write polls, or the answer to one flush poll made with nothing buffered, error for error; success means every byte is accepted and flushed; backpressure is founded on a `Pending` exactly without a `WouldBlock` failure |
| RecordLayers.RecordLayer.SealAppData | btls/src/ssl/mod.rs:4468-4520 | consumes at least one byte and writes within the room, or declines or fails and seals nothing |
| RecordLayers.RecordLayer.SslWrite | tokio-btls/src/lib.rs:404-417 | seals one fragment behind the pending bytes and hands both to the stream at once, or fails and changes nothing |
| FallbackTallies.TallyStep | tokio-btls/src/lib.rs:402-425 | every record of the `SSL_write` loop keeps its invariant and the backlog bound, unless the loop ends there |
| FallbackTallies.ShortStepInTail | tokio-btls/src/lib.rs:414-418 | a short record in the tail can only be its first, since one default record takes the tail whole |
| FallbackTallies.TailBound | tokio-btls/src/lib.rs:395-425 | however the slices lie, the records of the final tail keep the backlog within `FallbackBound` |
| FallbackTallies.CourseStep | tokio-btls/src/lib.rs:402-425 | for any slices the loop stays on course for `SliceLoop` of the whole write, or ends there |
| FallbackTallies.SliceLoopOnOne | tokio-btls/src/lib.rs:1927-1944 | on one slice `SliceLoop` is the record-by-record rule, even past a record cut too long |
| FallbackTallies.SliceLoopTakesTail | tokio-btls/src/lib.rs:422-424 | a tail of at most one default record is sealed whole, however it is sliced |
| WriteLedgers.RecordSettles | tokio-btls/src/lib.rs:402-425 | a sealed record leaves the loop midway or, full and with more than a default record left, finished |
| WriteLedgers.ShortOnce | tokio-btls/src/lib.rs:414-418 | a call sealed short only while none was, or sealed whole, keeps the short ones to one at most |
| WriteLedgers.FallbackOutcome | tokio-btls/src/lib.rs:427-440 | from the settled loop and its final drain: exactly-once reporting, the bounds, how far sealing goes, exactly `SliceLoop`, and the seal budget on one slice |
| WriteLedgers.TwoSteps | tokio-btls/src/lib.rs:300-311 | a write sealed partly on the stack and partly after it reports the sum, even if the second part fails |
| SslStreams.SslStream.FinalDrain | tokio-btls/src/lib.rs:427-434 | a write ends with nothing buffered or a transport that held bytes back, and never polls after a refusal |
| SslStreams.SslStream.SealNext | tokio-btls/src/lib.rs:403-413 | one turn packs a prefix of the rest and seals part of it, or seals nothing; a last record with nothing held up or buffered makes exactly one poll |
| SslStreams.SslStream.SslWriteRecords | tokio-btls/src/lib.rs:391-441 | exactly-once reporting, at most one short seal, bounded backlog, refusals final, nothing kept back from a transport that takes all; unless a call fails it seals exactly `SliceLoop` of the slices, whatever the transport accepts, which is all or a full buffer with more than a default record left, and `SealBudget` on one slice |
| SslStreams.SslStream.Turn | tokio-btls/src/lib.rs:402-425 | a turn keeps the loop invariant with more plaintext written, or ends the loop settled; the last record goes straight out if nothing is held up or buffered |
| SslStreams.SslStream.SealBuffered | tokio-btls/src/lib.rs:734-767 | the TLS library is offered exactly the budget and the room its records and the pending bytes take; what it seals goes behind the backlog, which stays within `BacklogBound`; a decline or error seals nothing |
| SslStreams.SslStream.WriteBuffered | tokio-btls/src/lib.rs:318-342 | both sealing paths report exactly what they sealed, keep the bounds, and drain unless refused; the budget is offered unless the TLS library declines or the room overflows, and `SSL_write` is used only then or after a decline |
| SslStreams.SslStream.SealOnStack | tokio-btls/src/lib.rs:344-382 | the whole write is offered with the stack's room; sealed whole it is polled exactly once, sealed in part it is only buffered; a decline or error seals nothing |
| SslStreams.SslStream.WriteRecords | tokio-btls/src/lib.rs:277-316 | every write reports exactly what it sealed, `Ok(0)` only for empty input; errors come from sealing or from the retry's last poll; no poll follows a refusal; backlog and memory are bounded; ciphertext stays behind only if sealing failed or the last poll left some; a transport that takes all is polled once for the records, once more after a short seal, and once for a backlog; with no backlog, writes up to a default record are offered on the stack, longer ones their budget |
| WriteLedgers.AfterRetry | tokio-btls/src/lib.rs:290-315 | retrying the backlog first takes nothing away from what the rest of a write promises |
| SslStreams.SslStream.WriteNew | tokio-btls/src/lib.rs:298-315 | after the retry, a write is offered on the stack exactly if it is short and nothing is buffered, and its budget otherwise |
| WriteLedgers.PendingIff | tokio-btls/src/lib.rs:286-290 | a write is `Pending` exactly if it sealed nothing and the transport refused a full buffer, or sealing failed with `WouldBlock` |
| SslStreams.SslStream.WriteShort | tokio-btls/src/lib.rs:298-315 | sealing on the stack and after it add up to one write: one report, one bound, one transport write for both |
| SslStreams.SslStream.PollWriteVectored | tokio-btls/src/lib.rs:495-508 | the same as the caller sees it; `Pending` exactly for the two causes of `PendingIff` |
| SslStreams.SslStream.PollFlush | tokio-btls/src/lib.rs:515-518 | success is full delivery; the result is what the write polls and the flush poll of the call amount to, and `Pending` is founded on theirs exactly without a `WouldBlock` failure |
| SslStreams.SslStream.PollShutdown | tokio-btls/src/lib.rs:520-551 | at every shutdown poll the transport has received, everything sealed by then was accepted and flushed; a call makes at most one and gives its answer, or that of the `SSL_shutdown` or the flush that stopped it; `SSL_shutdown` is not called again once it succeeded |
| SslStreams.SslStream.SendClose | tokio-btls/src/lib.rs:521-546 | `Pending` exactly if `SSL_shutdown` wants I/O, an error exactly if it fails with that; otherwise the close latch is set |
| SslStreams.SslStream.PollRead | tokio-btls/src/lib.rs:448-487 | plaintext and ends reach the caller in order and once; an end met after data is held for the next read with room; `Pending` delivers nothing |
| SslStreams.SslStream.ReadRecords | tokio-btls/src/lib.rs:463-481 | reads go on exactly while room and buffered ciphertext last, and terminate |
| Runs.ExactlyOnce | tokio-btls/src/lib.rs:277-441 | over every run the plaintext sealed is the concatenation of the prefixes the writes reported |
| Runs.FlushDelivers | tokio-btls/src/lib.rs:51-55 | after a run that ends in a successful flush the transport has the records of exactly that plaintext |
| Runs.WriteDelivers | tokio-btls/src/lib.rs:278-285 | so it has after a successful write in which sealing did not fail and the last poll left nothing behind |
| Runs.BoundedBuffers | tokio-btls/src/lib.rs:38-40 | over every run the backlog, the peak of live and requested bytes and the buffer's capacity stay below constants plus the ciphertext that reads, handshakes and shutdowns handed over |
| Runs.Drive | tokio-btls/src/lib.rs:443-552 | any sequence of stream operations is such a run; what its reads returned, with an end still held, is what `SSL_read` produced; the shutdown latch and the clean close are kept |
| EchGrease.GreaseValues | btls/src/ssl/mod.rs:713-718 | GREASE types are the sixteen values of RFC 8701, section 2 |
| EchGrease.PayloadIsRoundedEncoding | btls/src/ssl/ech_grease.rs:220-268 | for any inner hello of the sizes seen, the payload is its encoded length plus name padding, rounded up to the least length that is 31 or 0 modulo 32 |
| EchGrease.RoundedIsLeast | btls/src/ssl/ech_grease.rs:262-266 | both roundings give the least admissible length |
| EchGrease.PayloadHidesOrder | btls/src/ssl/ech_grease.rs:231-253 | permuting the extensions does not change the length |
| EchGrease.PayloadHidesShortNames | btls/src/ssl/ech_grease.rs:228-261 | host names that fit the padding all give the same length |
| EchGrease.NameHiddenIff | btls/src/ssl/ech_grease.rs:260-267 | in a given ClientHello a name gives the payload of an empty one exactly if what it takes beyond the padding stays within the rounded length |
| EchGrease.NameHiddenIffShort | btls/src/ssl/ech_grease.rs:228-267 | in every ClientHello a client can send a name gives the payload of an empty one exactly if it fits the padding; otherwise a resumption shows it |
| EchGrease.NameHiddenInFullHandshakes | btls/src/ssl/ech_grease.rs:228-267 | in every full handshake exactly if it exceeds the padding by no more than the slack parity leaves, a byte or none |
| EchGrease.LongHostWraps | btls/src/ssl/ech_grease.rs:260-261 | with the SNI growing along, 256 host bytes more get the same padding and lengthen the payload by 256 |
| EchGrease.BareHiddenIff | btls/src/ssl/ech_grease.rs:260-267 | in a given ClientHello without SNI two hosts give one payload exactly if the longer padding stays within the rounded length of the shorter |
| EchGrease.BareHostsAlike | btls/src/ssl/ech_grease.rs:260-267 | in every ClientHello without SNI exactly if their lengths, cut to a byte and to `max_name_len`, are equal |
| EchGrease.OuterTypesStep | btls/src/ssl/ech_grease.rs:239-252 | an extension is referred to exactly if its type is none of the seven kept or dropped |
| EchGrease.ScanExtensions | btls/src/ssl/ech_grease.rs:231-253 | the scan counts the types the inner hello refers to and finds GREASE |
| EchGrease.NssPayloadLength | btls/src/ssl/ech_grease.rs:220-268 | the running sum is the length of the encoded inner hello, padded, rounded and expanded |
| EchGrease.BoringSslParameters | btls/src/ssl/ech_grease.rs:186-198 | the random byte chooses one of four sizes, which is sent with the tag if it fits the budget; it fails otherwise, or without randomness |
| EchGrease.DrawsAreFair | btls/src/ssl/ech_grease.rs:190-192 | each of the four sizes takes 64 of the 256 random bytes, each of the two AEADs 128 |
| EchGrease.NssParameters | btls/src/ssl/ech_grease.rs:296-323 | fails exactly when the NSS length exceeds the budget or 16 bits, or without randomness; the coin chooses the AEAD |
| ClientSessions.EarliestNotAfter | btls/src/ssl/connector.rs:317-332 | the minimum expiry of the certificates that have one |
| ClientSessions.Issuers.NewToken | btls/src/ssl/connector.rs:177-184 | every callback installed gets a token none had before |
| ClientSessions.ConnectConfiguration.IntoSsl | btls/src/ssl/connector.rs:401-435 | the connection records its peer exactly if its context reports sessions, and offers the session exactly if it matches; it fails exactly if the TLS library rejects a setting |
| ClientSessions.OfferedIff | btls/src/ssl/connector.rs:273-298 | a reported session is offered exactly for the same domain up to ASCII case and the same SNI use, in the same scope, to a connection that verifies no more, and unexpired if that verifies; all in the connections' own settings |
| ClientSessions.VerifiesPeerIff | btls/src/ssl/connector.rs:341-346 | the lowest bit of a nonnegative mode |
| ClientSessions.TrustsNoMoreIff | btls/src/ssl/connector.rs:277-289 | what trusting no more means, character by character and bit by bit |
| ClientSessions.ResumptionTrustsNoMore | btls/src/ssl/connector.rs:277-289 | a resumed connection verifies no more than the one its session is from, for the same domain, SNI use and scope, and with no expired chain if it verifies |
| ClientSessions.ChainsNeverGainTrust | btls/src/ssl/connector.rs:256-289 | so does the last connection of any chain of resumptions, against the full handshake at its start; the domains agree character by character, or differ in ASCII case alone |
| ClientSessions.VerifiedChainsHaveNotExpired | btls/src/ssl/connector.rs:281-298 | if each resumption keeps the certificates of the connection before it, a verifying connection at the end of a chain was set up before any certificate of the first handshake expired |
| ExDataFutures.NeverPolledAfterReady | btls/src/ssl/async_callbacks.rs:453-471 | no future is polled after its first ready result |
| ExDataFutures.CreatedOneAtATime | btls/src/ssl/async_callbacks.rs:459-461 | a future is created only after every earlier one was polled ready |
| ExDataFutures.FinishedOnce | btls/src/ssl/async_callbacks.rs:430-432 | no finish closure runs twice |
| ExDataFutures.FinishedAtReady | btls/src/ssl/async_callbacks.rs:425-432 | a finish closure runs right after its future's ready result |
| ExDataFutures.FinishedRightAway | btls/src/ssl/async_callbacks.rs:425-432 | and nothing happens between the two |
| ExDataFutures.Slot.WithExDataFuture | btls/src/ssl/async_callbacks.rs:439-473 | one poll per call, of the stored future or one just created, whose answer it gives; the slot holds a future exactly while it is pending |
| ExDataFutures.Slot.WithPrivateKeyMethod | btls/src/ssl/async_callbacks.rs:409-433 | RETRY exactly while a future is stored; one that resolves to a closure has it run in that call and its result returned; failures otherwise; the "BUG" branch runs exactly when `complete` finds none |
| ExDataFutures.RunKeyOperations | btls/src/ssl/async_callbacks.rs:322-363 | over every run in which `complete` follows only RETRY the "BUG" branch is not reached |

## Left out

- The handshake, certificate checks, alerts, cryptography and all FFI wrappers: BoringSSL is not part of this model beyond the record-layer adversary.
- Flushes that BoringSSL makes by itself within `SSL_write`, after a handshake or an alert; the source puts them outside the rule that a refusal is final.
- RecordLayers.RecordLayer.SslWrite: requires a fragment of 1 to `MAX_RECORD` bytes, never succeeds with zero bytes, and hands pending bytes and record over in one BIO write.
- RecordLayers.RecordLayer.SealAppData: how many records a success makes is not modelled, only that it fits the room asked for.
- SslStreams.SslStream.SealBuffered: the write buffer is sealed into in place, where the source moves it out of the stream and back for the borrow checker.
- Runs.BoundedBuffers: how much ciphertext of its own BoringSSL hands over, or queues, in reads, handshakes and shutdowns is a parameter, not bounded.
- Transports.Transport.PollWrite: a transport that claims to have taken more than it was offered is not modelled.
- Time spent copying: `make_room` drops a prefix also when capacity runs out, so copying is not amortised linear; the memory bound is proved instead.
- The growth rule of byte vectors is doubling with a minimum of eight, as Rust's standard library does; capacities as large as `usize` are not modelled.
- Wakers, pinning, the raw context address and uninitialised memory: each poll is a plain call.
- EchGrease.PayloadIsRoundedEncoding: sums do not overflow a `usize`, and length prefixes are written modulo their width, so more than 127 referenced types are sized but not decodable.
- Randomness: the random byte, or its absence, is a parameter of `BoringSslParameters` and `NssParameters`.
- ClientSessions.ChainsNeverGainTrust: per-connection changes made after `into_ssl`, which the source documents as untracked, and switching contexts between session and connection.
- ClientSessions.VerifiedChainsHaveNotExpired: that resumption keeps the peer's certificates is BoringSSL's doing and an assumption.
- ClientSessions.Issuers.NewToken: wrap-around of the 64-bit counter.
- Reading the clock and converting certificate times: an expiry that cannot be read is absent.
- ExDataFutures.Slot.WithExDataFuture: a missing task waker, on which the source panics, is a precondition; a future is not created from within another's poll.
- ExDataFutures.Slot.WithPrivateKeyMethod: debug builds panic in the "BUG" branch; the model follows release builds and fails.
- Slots other than the private key one (certificate selection, sessions, verification): they drive the same function.
