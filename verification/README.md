# A verified model of quic_vibe

quic_vibe is a freestanding QUIC and HTTP/3 stack in C with its own cryptography. This
project models its hardest parts in Dafny and proves what they compute:

- **Multi-precision arithmetic** (`P256*.dfy`, `Bignum.dfy`, `Modexp.dfy`, `Ed25519Scalar.dfy`,
  `X25519*.dfy`, `Poly1305*.dfy`). Limb arrays are overwritten in place as in the source; each
  routine is proved against the integer its limbs stand for, with every carry, borrow and
  64/128-bit intermediate shown to fit. `X25519Curve.dfy` goes on to the curve: the ladder walks the
  multiples of its point by the chord and tangent laws. `Arith.dfy`, `Limbs.dfy`, `Bits.dfy` and
  `PseudoMersenne.dfy` hold the shared mathematics.
- **The TLS handshake driver** (`HsOrder.dfy`, `KeySchedule.dfy`, `CertMessages.dfy`,
  `FullHandshake*.dfy`, `Handshake*.dfy`). `FullHandshake` gives each call as a step of one state and
  proves what every run of calls keeps; `HandshakeAuth` says what a completed run has checked, in terms
  of the cryptographic functions and the calls alone; the class `FullHs` is the driver with its buffer, and each of its
  methods is proved to be its step. Hashing, key derivation, signature checks, X.509 policy checks
  and trust stores are parameters. The only facts assumed of them are that no signature verifies
  under an empty certificate and that verify_data is 32 bytes long.
- **QPACK and request headers** (`Qpack*.dfy`, `Huffman*.dfy`, `H3*.dfy`). The ring-buffer
  dynamic table against a plain history of accepted entries, the canonical Huffman decoder against
  the code it decodes, and the request encoder and decoder against each other. `QpackWire`,
  `QpackLineForms` and `H3Octets` tell the octets apart from both, `QpackAppendixA` and `HuffmanCode`
  the tables of the two RFCs.
- **Streaming SHA-256 and the transcript** (`Sha256.dfy`) and **calendar arithmetic** (`Clock.dfy`).

Conventions. `byte`, `u32`, `u64` and `u128` are integer ranges, so every assignment to one is a
proof that the value fits; where the source relies on wrap-around it is written out with `%`.
A method that writes an array states the new contents through `old`, so an output may alias an
input wherever the source allows it. ORs of disjoint bit fields are written as sums, masks and
shifts as `%`, `/` and `*`. `Times` is multiplication by repeated addition, proved to be `*`. Large
constant tables are functions that halve their index range.

Where the code and its own documentation differ, the model follows the code and says exactly when
the documented claim holds:

- `p256_field.h:51` allows any operands below 2^256 for `quic_fp_mul`; the division starts at shift
  255, so the product is right exactly when a*b < m*2^256 (`FpMulCorrectIff`,
  `FpMulUnreducedOperands`); `FpMulValue` says what comes out otherwise.
- `poly1305.c` masks the top limb before the sign test, so the final subtraction of p is never
  selected; the tag is right exactly when the carried accumulator is below p (`TagCorrectIff`,
  `WrongTag`).
- `dyntable.h:34-36` promises refusal only for entries too large; the table also refuses at 64 live
  entries, before any eviction, and the promise holds over all runs exactly for capacities under
  2048 (`RefusalsAsPromisedIff`).
- `pseudo_encode.c` compares values as C strings, so a short value holding a NUL can go out as a
  different one (`RequestRoundTripIff`, `TruncatedMethod`).
- `fullhs.c:277-279` says the application secrets run through the server's Finished, the last message
  buffered. They run through the first Finished appended, own or the peer's. They cover the Finished
  that completes the handshake exactly when it fit the transcript buffer and no Finished was appended
  before it (`KeysCoverFirstFinished`, `CoversCompletingIff`). A server that sends its Finished first
  and a transcript with no room left are the two ways to miss it (`OwnFinishedFirst`,
  `NoRoomForFinished`). Two ends that accept the same Certificate and take each other's Finished in
  turn derive the same keys all the same (`ExchangeAgrees`).
- `tlsdriver.c:142-151` keeps the shared secret of a later hello message even when the key schedule
  refuses it; `FirstHelloKeys` says which message each part of a ready driver comes from,
  `SecondHelloMixes` gives two that mix, and `HandoverKeepsInv` shows that the theorems about runs from
  any state with the invariant apply to whatever is handed over.
- `insertcount.c` adds on 64 bits without a check, so near 2^64 a Required Insert Count of the RFC 9204
  window can decode to another one; `RicWindowIff` says exactly which survive, `RicLost` gives one
  that does not.
- `prefix.c:27` reads the byte after the insert count even when there is none; decoding then fails
  whatever it reads, and the model fails without reading.

## Model

| member | source | states |
|---|---|---|
| `FullHandshake.CompleteIffAuthentic` | src/tls/handshake/core/fullhs/fullhs.c:201-254 | Over every run of calls: complete holds if and only if some call accepted and stored a Certificate, a later one verified a CertificateVerify under exactly that stored leaf, and a still later one verified a Finished, each in its turn. |
| `HandshakeAuth.CompletionChecked` | src/tls/handshake/core/fullhs/fullhs.c:107-254 | Every run from the start that completes holds calls i < j < k where: the leaf in message i met the time and host set before i, and its chain the store set before i; message j carries a signature that holds under that leaf's bytes over the hash of the hello transcript and the messages appended before j; message k carries the verify_data of the peer's traffic secret over that hash before k. |
| `HandshakeAuth.TranscriptIsLog` | src/tls/handshake/core/fullhs/fullhs.c:19-26 | After any calls the transcript is the one started with and then the messages appended, one after another. |
| `HandshakeAuth.CertificateExact` | src/tls/handshake/core/fullhs/fullhs.c:107-209 | A well-formed Certificate in its turn that fits is stored exactly when it has one to four entries, its leaf meets the set time and host and the chain the set store; the stored leaf is its first certificate. |
| `HandshakeAuth.CertVerifyExact` | src/tls/handshake/core/fullhs/fullhs.c:216-237 | A well-formed CertificateVerify opens the gate exactly at its position with a signature that holds under the stored leaf over the transcript hash. |
| `HandshakeAuth.FinishedExact` | src/tls/handshake/core/fullhs/fullhs.c:242-254 | A Finished completes the handshake exactly at its position behind the open gate, 36 octets long, with the peer's verify_data over the transcript hash. |
| `HandshakeAuth.SendsOwnFinished` | src/tls/handshake/core/fullhs/fullhs.c:256-267 | Over any run, the own Finished is the header 20, 0, 0, 32 and the verify_data of the own traffic secret over the hash of the hello transcript and all appended messages. |
| `HandshakeAuth.HandshakeKeysUntilConfirmed` | src/tls/handshake/core/fullhs/fullhs.c:287-294 | At every point of every run: both Handshake keys are those of the shared secret and the hello message, the client's are the installed ones, and they are discarded exactly once confirmed. |
| `HandshakeAuth.SignatureExactly` | src/tls/handshake/core/tls/cert.c:95-106 | Over all byte strings: what parses to a signature is a CertificateVerify message that carries exactly it. |
| `HandshakeAuth.LengthsBigEndian` | src/tls/handshake/core/tls/cert.c:13-20 | Lengths are read most significant byte first. |
| `FullHandshake.RejectedNeverCompletes` | src/tls/handshake/core/fullhs/fullhs.c:199-214 | A Certificate taken in its turn and not accepted leaves a state from which no sequence of calls completes the handshake. |
| `FullHandshake.KeysFollowHandshake` | src/tls/handshake/core/fullhs/fullhs.c:270-294 | At every point of every run from the start: 1-RTT keys are installed only when complete, Handshake keys are gone only when confirmed, and the installed 1-RTT keys are the own-direction application keys of the master secret over the transcript up to the recorded length. |
| `FullHandshake.SetOnce` | src/tls/handshake/core/fullhs/fullhs.c:102-106 | Between any two points of a run: a recorded application-secret length never changes, nor does the transcript up to it, nor the stored leaf certificate. |
| `HandshakeKeys.KeysCoverFirstFinished` | src/tls/handshake/core/fullhs/fullhs.c:99-106 | At every point of every run from the start: the installed 1-RTT keys are the own-direction application keys of the transcript through the first Finished appended, own or the peer's, and of the empty transcript exactly when none was appended. |
| `HandshakeKeys.CoversCompletingIff` | src/tls/handshake/core/fullhs/fullhs.c:250-285 | From completion on, the covered transcript is the one through the Finished that completed if and only if that Finished fit the 8192-byte buffer and no Finished was appended before it. |
| `HandshakeKeys.MasterMarksFirst` | src/tls/handshake/core/fullhs/fullhs.c:102-106 | The recorded length ends the first Finished appended, and is 0 exactly while there is none. |
| `HandshakeWitness.OwnFinishedFirst` | src/tls/handshake/core/fullhs/fullhs.c:256-285 | A run from the start, for either role, every shared secret and every short enough hello transcript: the own Finished goes out first, the peer's fits and completes, and the installed keys end at the own one. |
| `HandshakeWitness.NoRoomForFinished` | src/tls/handshake/core/fullhs/fullhs.c:250-285 | A run from the start, for either role, every shared secret and every hello transcript of a length that leaves no room: the Finished completes the handshake and the installed keys cover the empty transcript. |
| `HandshakeExchange.ExchangeAgrees` | src/tls/handshake/core/fullhs/fullhs.c:199-294 | Two ends in opposite roles run against each other, over every exchange in which they accept or reject each Certificate alike and each Finished finds the other end waiting: transcripts, recorded lengths and certificates are equal at every point, whenever both have 1-RTT keys they are the same keys, and whenever both wait, exchanging Finished messages completes both with the same keys. |
| `HandshakeExchange.ExchangeTwin` | src/tls/handshake/core/fullhs/fullhs.c:199-294 | The same from any two matching states: every such exchange keeps both invariants and the match. |
| `HandshakeExchange.EndsAreRuns` | src/tls/handshake/core/fullhs/fullhs.c:199-294 | Each end of an exchange is a run of its own calls, so when the other end acts in between does not matter. |
| `HandshakePair.BothEndsAgree` | src/tls/handshake/core/fullhs/fullhs.c:242-285 | From any two runs over one shared secret and hello transcript, in opposite roles, that reach equal transcripts and recorded lengths with both ends waiting: exchanging Finished messages completes both, both hold the same application keys for both directions, and each installs the one the other holds for it. |
| `HandshakePair.FinishedAgrees` | src/tls/handshake/core/fullhs/fullhs.c:242-267 | The Finished one end sends is accepted by the other and completes it, and transcripts and recorded lengths agree again, whether or not it fit. |
| `HandshakePair.KeysAgree` | src/tls/handshake/core/fullhs/fullhs.c:270-285 | Ends whose recorded transcripts are equal hold equal application keys once both have derived them. |
| `FullHandshake.StepKeeps` | src/tls/handshake/core/fullhs/fullhs.c:88-294 | Every call keeps the invariant tying order position, key installation, schedule stage and transcript lengths together, and only extends the transcript. |
| `FullHandshake.StoredLeaf` | src/tls/handshake/core/fullhs/fullhs.c:184-209 | Whatever leaf is stored came in one accepted Certificate, byte for byte, and has not changed since. |
| `FullHandshake.VerifiedLeaf` | src/tls/handshake/core/fullhs/fullhs.c:218-237 | An open authentication gate means some call verified a signature under the leaf an earlier call stored. |
| `FullHandshake.StartInv` | src/tls/handshake/core/fullhs/fullhs.c:47-86 | The state the driver starts from satisfies the invariant. |
| `CertMessages.ParsesExactly` | src/tls/handshake/core/tls/cert.c:13-93 | Over all byte strings: the chain parser accepts exactly the well-formed Certificate messages of at most four entries. |
| `CertMessages.ChainReadsBack` | src/tls/handshake/core/tls/cert.c:13-93 | On every well-formed Certificate message of up to four entries the parser finds each certificate, byte for byte and in order; a longer list it refuses. |
| `FullHandshakeDriver.Init` | src/tls/handshake/core/fullhs/fullhs.c:70-86 | Refuses a driver that is not ready and changes nothing; otherwise the state begun is secrets seeded for both directions, transcript loaded if it fits and the order machine walked to EncryptedExtensions, over whatever the driver holds. |
| `FullHandshakeDriver.FullHs.constructor` | src/tls/handshake/core/fullhs/fullhs.c:47-86 | The state begun from any order machine, schedule and key set. |
| `FullHandshakeDriver.HandoverIsStart` | src/tls/handshake/core/fullhs/fullhs.c:70-86 | Over any sequence of hello messages: a driver is ready exactly when some message gave a 32-byte secret that is not all zero, and if its last key share gave the secret of the first such message it hands over exactly the start of a run. |
| `FullHandshakeDriver.HandoverKeepsInv` | src/tls/handshake/core/fullhs/fullhs.c:70-86 | Whatever the hello messages, a ready driver hands over a state that satisfies the run invariant with the order machine primed and nothing recorded; only its two traffic secrets can differ from the start of a run over the first usable message. |
| `FullHandshakeDriver.SecondHelloMixes` | src/tls/handshake/core/tlsdriver/tlsdriver.c:142-161 | Any two hello messages with different secrets, the first usable: the schedule is the first's, the traffic secrets are the second's, and the state handed over is the start of no run. |
| `FullHandshakeDriver.ReadyIff` | src/tls/handshake/core/tlsdriver/tlsdriver.c:140-161 | A new driver is ready exactly once a hello message brought a key share whose shared secret is 32 bytes with one not zero. |
| `FullHandshakeDriver.FirstHelloKeys` | src/tls/handshake/core/tlsdriver/tlsdriver.c:143-161 | Over any sequence of hello messages: schedule, keys and order are those of the first message that can make the driver ready, while the shared secret is that of the last message with a key share. |
| `FullHandshakeDriver.TlsDriver.constructor` | src/tls/handshake/core/tlsdriver/tlsdriver.c:12-31 | A driver with nothing derived, nothing installed and the order machine at its start. |
| `FullHandshakeDriver.FullHs.TrAdd` | src/tls/handshake/core/fullhs/fullhs.c:21-26 | The message is appended if it fits and nothing changes if it does not. |
| `FullHandshakeDriver.FullHs.SetPolicy` | src/tls/handshake/core/fullhs/fullhs.c:88-93 | Changes the acceptance policy and nothing else, as the policy step of the transition system. |
| `FullHandshakeDriver.FullHs.SetStore` | src/tls/handshake/core/fullhs/fullhs.c:95-97 | Changes the trust store and nothing else, as the store step of the transition system. |
| `FullHandshakeDriver.FullHs.ChainAccept` | src/tls/handshake/core/fullhs/fullhs.c:114-179 | Accepts exactly the messages whose chain parses, whose leaf meets the policy and whose certificates the store validates. |
| `FullHandshakeDriver.FullHs.CertTake` | src/tls/handshake/core/fullhs/fullhs.c:184-209 | Rejecting changes nothing; accepting appends the message and records every certificate at its place in the transcript copy. |
| `FullHandshakeDriver.FullHs.RecvCert` | src/tls/handshake/core/fullhs/fullhs.c:211-214 | The call is its step, and succeeds exactly when the Certificate is in turn, accepted and fits. |
| `FullHandshakeDriver.FullHs.CvVerify` | src/tls/handshake/core/fullhs/fullhs.c:218-229 | Answers whether the signature verifies under the stored leaf over the hash of the transcript so far. |
| `FullHandshakeDriver.FullHs.RecvCertVerify` | src/tls/handshake/core/fullhs/fullhs.c:231-237 | The call is its step; its result also reports whether the message fit, although the gate opens either way. |
| `FullHandshakeDriver.FullHs.FoldFinished` | src/tls/handshake/core/fullhs/fullhs.c:102-106 | Appends a Finished that fits and records the length at the first one. |
| `FullHandshakeDriver.FullHs.RecvFinished` | src/tls/handshake/core/fullhs/fullhs.c:242-254 | The call is its step; a wrong length or verify_data changes nothing. |
| `FullHandshakeDriver.FullHs.SendFinished` | src/tls/handshake/core/fullhs/fullhs.c:256-267 | The call is its step, and the bytes sent are the header and verify_data over the transcript before them. |
| `FullHandshakeDriver.FullHs.AdvanceApplication` | src/tls/handshake/core/fullhs/fullhs.c:270-285 | The call is its step, and succeeds exactly when complete. |
| `FullHandshakeDriver.FullHs.Confirmed` | src/tls/handshake/core/fullhs/fullhs.c:287-294 | The call is its step, and succeeds exactly when HANDSHAKE_DONE is in turn. |
| `FullHandshakeDriver.TlsDriver.DeriveHandshake` | src/tls/handshake/core/tlsdriver/tlsdriver.c:134-161 | Succeeds exactly when the message carries a key share whose shared secret is not all zero and the schedule is at its first stage, and then derives and installs the handshake keys; the state is that of the specification in every case. |
| `HsOrder.AcceptsTheFlight` | src/tls/handshake/core/tls/hsdriver.c:8-59 | For every sequence of inputs to a fresh machine, the accepted messages are exactly a prefix of types 1, 2, 8, 11, 15, 20, 30 at levels 0, 0, 1, 1, 1, 1, 2, and position, level, complete and confirmed agree. |
| `HsOrder.CompletesAuthenticated` | src/tls/handshake/core/tls/hsdriver.c:27-59 | A complete machine took its Finished after it was told the peer is verified. |
| `HsOrder.HsDriver.Recv` | src/tls/handshake/core/tls/hsdriver.c:30-59 | Accepts exactly the legal step, and the new state is that step of the specification. |
| `HsOrder.HsDriver.constructor` | src/tls/handshake/core/tls/hsdriver.c:18-25 | Starts at the beginning of the flight. |
| `HsOrder.HsDriver.CertVerified` | src/tls/handshake/core/tls/hsdriver.c:61 | Opens the authentication gate and nothing else. |
| `KeySchedule.StagesOnce` | src/tls/keys/schedule_drive/keyschedule.c:10-41 | Each stage is passed at most once and in order; advancing again changes nothing, and the master stage keeps the handshake keys and the master secret. |
| `KeySchedule.KeySched.AdvanceHandshake` | src/tls/keys/schedule_drive/keyschedule.c:14-30 | Succeeds exactly at stage 0 with a 32-byte secret, and then derives both handshake keys and the master secret. |
| `KeySchedule.KeySched.AdvanceMaster` | src/tls/keys/schedule_drive/keyschedule.c:32-41 | Succeeds exactly at stage 1, and then derives both application keys. |
| `KeySchedule.KeySched.Get` | src/tls/keys/schedule_drive/keyschedule.c:44-53 | The keys of that slot, exactly from the stage that derives them. |
| `KeySets.FoundUntilDiscarded` | src/crypto/kdf/keys/keyset.c:10-27 | Of levels 0 to 2, keys installed at one are found there until discarded, and nothing is found or lost at any other level. |
| `KeySets.KeySet.Install` | src/crypto/kdf/keys/keyset.c:13-19 | Installs at a valid level and refuses any other. |
| `KeySets.KeySet.Discard` | src/crypto/kdf/keys/discard_driver.c:13-17 | Clears a valid level and refuses any other. |
| `KeySets.KeySet.ForLevel` | src/crypto/kdf/keys/keyset.c:21-27 | The keys of that level, exactly while installed at a valid level. |
| `QpackDynTable.DynTable.Insert` | src/app/qpack/qpack/dyntable.c:68-79 | Taken exactly when name and value are at most 256 and 1024 octets, with 32 more fit the capacity, and fewer than 64 entries are live; afterwards the table holds the newest accepted entries, as many as fit. |
| `QpackDynTable.DynTable.EvictOldest` | src/app/qpack/qpack/dyntable.c:19-25 | Drops exactly the oldest live entry and keeps the ring, the size and the absolute indices right. |
| `QpackDynTable.DynTable.MakeRoom` | src/app/qpack/qpack/dyntable.c:32-39 | Drops the fewest oldest entries after which the new one fits. |
| `QpackDynTable.DynTable.StoreEntry` | src/app/qpack/qpack/dyntable.c:52-66 | Appends the entry in the next free slot without touching a live one. |
| `QpackDynTable.DynTable.constructor` | src/app/qpack/qpack/dyntable.c:8-14 | An empty table with the given capacity. |
| `QpackDynTable.DynTable.LiveCount` | src/app/qpack/qpack/dyntable.c:16 | count and size are those of the live entries: all octets of their names and values and 32 for each, within the capacity. |
| `QpackHistory.SizeCountsOctets` | src/app/qpack/qpack/dyntable.c:3-6 | The size of any entries is the octets of all names and all values laid end to end, and 32 for each entry. |
| `QpackHistory.DroppedLeast` | src/app/qpack/qpack/dyntable.c:36-39 | The live entries fit the capacity, and with any one more of the older ones they would not. |
| `QpackHistory.NewestSurvives` | src/app/qpack/qpack/dyntable.c:68-79 | An accepted entry is live at once, and the entries it displaces are the shortest sufficient prefix of those live before. |
| `QpackHistory.RefusalsAsPromisedIff` | src/app/qpack/qpack/dyntable.c:41-46 | Over every run of inserts, refusal only for the entry itself (as the header promises) holds if and only if the capacity is below 2048 bytes, 64 entries of the least size. |
| `QpackDynTable.DynTable.Get` | src/app/qpack/qpack/dynget.c:5-25 | Absolute index k answers the k-th entry ever accepted exactly while it is live. |
| `QpackDynTable.DynTable.Find` | src/app/qpack/qpack/dynfind.c:48-86 | The oldest live entry equal in name and value; else the oldest equal in name; else nothing, each with what that says about all live entries. |
| `QpackDynTable.DynTable.Classify` | src/app/qpack/qpack/dynfind.c:21-33 | 2, 1 or 0 for a full, a name-only or no match of the given live entry. |
| `QpackDynTable.BytesEqual` | src/app/qpack/qpack/dynfind.c:3-8 | The accumulated difference is zero exactly for equal byte strings. |
| `QpackFieldDecode.DecodeFieldExact` | src/app/qpack/qpackdyn/field_decode.c:28-59 | Over all octets: a line resolves to an entry exactly when it is an indexed line whose index names it, a static row or the live entry that far below base on 64 bits. |
| `QpackFieldDecode.ReferenceResolves` | src/app/qpack/qpackdyn/field_decode.c:28-59 | A dynamic line for absolute index k below base resolves to the k-th entry ever accepted exactly while it is live and the relative index is within the integer decoder's reach. |
| `QpackFieldDecode.DynamicIsLive` | src/app/qpack/qpackdyn/field_decode.c:28-59 | For any input bytes, a dynamic line that resolves names a live entry: the one its index counts down to from base, or for an index past base the one 2^64 above, which only a table with 2^63 - 63 inserts behind it reaches. |
| `QpackFieldDecode.IndexConversions` | src/app/qpack/qpack/relindex.c:4-9 | Relative and post-base conversion undo the encoding of an absolute index below and from base on. |
| `Huffman.DecodesExactly` | src/app/qpack/qpack/huffman.c:56-116 | Decoding answers s if and only if the input bits are the codes of s followed by fewer than eight one bits and s fits the destination. |
| `Huffman.UniquelyDecodable` | src/app/qpack/qpack/huffman.c:11-42 | No two octet strings share an encoding, whatever their padding. |
| `Huffman.OneMoreBit` | src/app/qpack/qpack/huffman.c:56-86 | From any waiting state one more bit is a complete code or waits on with at most 30 bits, and the 32-bit subtraction does not wrap: the over-length branch is unreachable. |
| `Huffman.PrefixFree` | src/app/qpack/qpack/huffman.c:31-42 | A code cut short lies past every code of that length: none is the beginning of another. |
| `HuffmanCode.LengthsOfAppendixB` | src/app/qpack/qpack/huffman.c:10-42 | Every symbol has the code length of Appendix B of RFC 7541, written out apart in symbol order. |
| `HuffmanCode.SymbolsAscend` | src/app/qpack/qpack/huffman.c:10-29 | Within a code length the codes go to the symbols in increasing order. |
| `HuffmanCode.StringBitsAt` | src/app/qpack/qpack/huffman.c:89-97 | Octets are read most significant bit first. |
| `HuffmanTables.Canonical` | src/app/qpack/qpack/huffman.c:31-42 | Codes of each length start where the shorter ones end, positions follow on, and the longest codes exhaust the code space. |
| `HuffmanTables.SymbolsPermuted` | src/app/qpack/qpack/huffman.c:11-30 | Every symbol including EOS stands at exactly one place. |
| `Huffman.Context.PutSym` | src/app/qpack/qpack/huffman.c:61-67 | Appends an octet or fails on EOS or a full destination. |
| `Huffman.Context.EmitCode` | src/app/qpack/qpack/huffman.c:70-74 | Emits the symbol of the completed code and starts over. |
| `Huffman.Context.StepBit` | src/app/qpack/qpack/huffman.c:78-86 | The state becomes that of one more bit fed. |
| `Huffman.Context.StepOctet` | src/app/qpack/qpack/huffman.c:89-91 | The state becomes that of eight more bits fed, also when an error stops the loop early. |
| `Huffman.DecodeInto` | src/app/qpack/qpack/huffman.c:95-116 | Success, length and octets are those of the specification, and nothing outside the destination changes. |
| `QpackWire.IntOnTheWire` | src/app/qpack/qpack/integer.c:5-48 | An encoded integer is its prefix alone below 2^N - 1, and else the full prefix and the rest in base 128, least digit first, all but the last flagged, with no digit to spare. |
| `QpackWire.IntDecodeExact` | src/app/qpack/qpack/integer.c:51-81 | Over all octets: the decoder answers exactly the number they spell that way in at most ten octets, over-long spellings included. |
| `QpackInteger.IntRoundTrip` | src/app/qpack/qpack/integer.c:5-81 | For prefixes of 1 to 8 bits, an encoded value reads back and uses exactly its own bytes if and only if what it holds beyond the prefix is below 2^63; otherwise the decoder refuses it. |
| `QpackInteger.IntDecodeBounded` | src/app/qpack/qpack/integer.c:51-81 | Any decoded value is below 2^63 plus the prefix maximum, from at most ten bytes of the input. |
| `QpackInteger.PutByte` | src/app/qpack/qpack/integer.c:8-12 | Writes one byte if there is room. |
| `QpackInteger.PutGroups` | src/app/qpack/qpack/integer.c:19-26 | Succeeds exactly if all groups fit, although each write overwrites the last result; the buffer holds as many as it has room for. |
| `QpackInteger.EncodeInt` | src/app/qpack/qpack/integer.c:29-48 | Returns the length, or 0 exactly when the bytes do not fit; the buffer is otherwise as before. |
| `QpackInteger.TakeGroup` | src/app/qpack/qpack/integer.c:51-59 | Folds one group in without leaving 64 bits. |
| `QpackInteger.DecodeInt` | src/app/qpack/qpack/integer.c:63-81 | Decodes as specified, with no 64-bit wrap-around on the way. |
| `QpackInsertCount.RicDecodeExact` | src/app/qpack/qpack/insertcount.c:11-44 | Every answer of the decoder over all 64-bit inputs: the value of the window with that encoding while the candidate stays below 2^64, and the wrapped candidate, if it lies in range, beyond. |
| `QpackInsertCount.RicPlace` | src/app/qpack/qpack/insertcount.c:4-7 | A nonzero count is sent as its place, from 1 on, in a range of twice the entries. |
| `QpackInsertCount.RicRoundTrip` | src/app/qpack/qpack/insertcount.c:4-44 | Over all 64-bit inputs with a nonzero range: a nonzero count comes back if and only if it lies in the range that ends at the largest value, and either in that value's own multiple of the range or a whole range below 2^64. |
| `QpackInsertCount.RicWindowIff` | src/app/qpack/qpack/insertcount.c:4-44 | For tables below 2^63 entries, a count of the RFC window survives if and only if the end of the window and the candidate both fit in 64 bits. |
| `QpackInsertCount.RicLost` | src/app/qpack/qpack/insertcount.c:11-44 | A count of the window that decodes to one outside it. |
| `QpackLineForms.StringForm` | src/app/qpack/qpack/string.c:10-15 | A string goes out raw: H = 0 and its length in 7 bits, then its octets. |
| `QpackLineForms.IndexedForm` | src/app/qpack/qpack/fieldline.c:10-16 | An indexed line is 1, T and the index in 6 bits. |
| `QpackLineForms.NamrefForm` | src/app/qpack/qpack/literal.c:36-53 | A name-reference line is 0, 1, N, T and the index in 4 bits, then the value string. |
| `QpackLineForms.PrefixForm` | src/app/qpack/qpack/prefix.c:10-22 | A section prefix is the insert count in 8 bits, then S and the delta base in 7. |
| `QpackLineForms.StringDecodeExact` | src/app/qpack/qpack/string.c:19-62 | Over all octets: exactly the strings of that form decode, raw or Huffman-coded as H says. |
| `QpackLineForms.IndexedDecodeExact` | src/app/qpack/qpack/fieldline.c:19-28 | Over all octets: exactly the indexed lines decode, to their index and T. |
| `QpackLineForms.NamrefDecodeExact` | src/app/qpack/qpack/literal.c:56-75 | Over all octets: exactly the name-reference lines decode, to their index, T, N and value. |
| `QpackLineForms.LitnameDecodeExact` | src/app/qpack/qpack/literal.c:102-158 | Over all octets: exactly the literal-name lines decode: 0, 0, 1, N, H, the name length in 3 bits, the name, the value string. |
| `QpackLineForms.PrefixDecodeExact` | src/app/qpack/qpack/prefix.c:24-30 | Over all octets: exactly the section prefixes decode. |
| `QpackFieldLines.StringRoundTrip` | src/app/qpack/qpack/string.c:10-62 | An encoded string decodes to itself and its length exactly when its length is within the integer decoder's reach and fits the destination, and fails otherwise. |
| `QpackFieldLines.IndexedRoundTrip` | src/app/qpack/qpack/fieldline.c:10-28 | Index and table flag of an indexed line survive exactly up to 2^63 + 63, and the line is refused beyond. |
| `QpackFieldLines.NamrefRoundTrip` | src/app/qpack/qpack/literal.c:36-75 | Index, both flags and the value of a name-reference line survive exactly when the index is below 2^63 + 15 and the value is in reach and fits; decoding fails otherwise. |
| `QpackFieldLines.PrefixRoundTrip` | src/app/qpack/qpack/prefix.c:10-30 | Insert count, sign and delta base survive exactly below 2^63 + 255 and 2^63 + 127, and decoding fails otherwise. |
| `QpackFieldLines.EncodeString` | src/app/qpack/qpack/string.c:10-15 | All bytes and their count, or 0 and nothing touched outside the window. |
| `QpackFieldLines.EncodeIndexed` | src/app/qpack/qpack/fieldline.c:14-16 | All bytes and their count, or 0 and nothing touched outside the window. |
| `QpackFieldLines.EncodeNamref` | src/app/qpack/qpack/literal.c:41-53 | All bytes and their count, or 0 and nothing touched outside the window. |
| `QpackFieldLines.EncodePrefix` | src/app/qpack/qpack/prefix.c:15-22 | All bytes and their count, or 0 and nothing touched outside the window. |
| `QpackFieldLines.PutBytes` | src/common/bytes/util/bytes.h:10-16 | Copies all the bytes or none. |
| `QpackFieldLines.TakeOctets` | src/app/qpack/qpack/string.c:32-53 | Raw or Huffman octets as specified, written only inside the destination. |
| `QpackFieldLines.DecodeString` | src/app/qpack/qpack/string.c:19-62 | Decodes as specified into the destination and touches nothing else. |
| `QpackFieldLines.DecodeLitnameName` | src/app/qpack/qpack/literal.c:108-140 | Decodes a literal name as specified into the destination and touches nothing else. |
| `QpackAppendixA.TableIsAppendixA` | src/app/qpack/qpack/static_table.c:9-110 | Every row of the table is that row of Appendix A of RFC 9204, written out apart from it. |
| `QpackStaticTable.StaticFind` | src/app/qpack/qpack/static_table.c:121-139 | The first entry whose name and value equal the given C strings, or -1 when there is none. |
| `QpackStaticTable.StrEq` | src/app/qpack/qpack/static_table.c:121-128 | Equality of the two C strings. |
| `H3Request.RequestRoundTripIff` | src/app/http3/request/h3reqdrive/request_drive.c:70-190 | For all four values, decoding the encoded section gives them back if and only if the literal ones fit the scratch together and no short value is cut at a NUL to a static value of its name. |
| `H3Request.ConnectRoundTripIff` | src/app/http3/request/h3reqenc/pseudo_encode.c:109-117 | The same for a CONNECT request, with scheme and path left empty. |
| `H3Request.LinesRoundTrip` | src/app/http3/request/h3reqdrive/request_drive.c:127-181 | Any number of encoded pseudo-header lines scans back to their values exactly when the literal ones fit the scratch. |
| `H3Request.LineRoundTrip` | src/app/http3/request/h3reqenc/pseudo_encode.c:46-52 | One line, indexed or by name reference, decodes to its name, its value and its own length, or fails when the value does not fit. |
| `H3Octets.OrdinaryRequest` | src/app/http3/request/h3reqenc/pseudo_encode.c:86-105 | GET of / over https at any authority v of 1 to 126 octets without a NUL is the octets 0, 0, 0xd1, 0xd7, 0x50, |v|, v, 0xc1. |
| `H3Octets.ConnectRequest` | src/app/http3/request/h3reqenc/pseudo_encode.c:109-117 | CONNECT to such an authority is the octets 0, 0, 0xcf, 0x50, |v|, v. |
| `H3Octets.NulAliasIff` | src/app/http3/request/h3reqenc/pseudo_encode.c:29-41 | A value goes out as another exactly when it is under 16 octets, holds a NUL, and up to it is in the static table under that name. |
| `H3Octets.DecodeLineExact` | src/app/http3/request/h3reqdrive/request_drive.c:80-133 | Over all octets: a line decodes exactly in one of the three forms, with a static index whatever T, and a literal name in half the scratch left. |
| `H3Request.TruncatedMethod` | src/app/http3/request/h3reqenc/pseudo_encode.c:29-41 | A five-octet method holding a NUL that arrives as GET. |
| `H3Request.IndexedIffInTable` | src/app/http3/request/h3reqenc/pseudo_encode.c:16-52 | For NUL-free values the 16-byte bound loses nothing: a pseudo-header goes out as an index exactly when its pair is in the static table. |
| `H3Request.StaticIndexOf` | src/app/http3/request/h3reqenc/pseudo_encode.c:29-41 | The static index of the name and the value up to its first NUL, for values under 16 bytes. |
| `H3Request.PutPseudo` | src/app/http3/request/h3reqenc/pseudo_encode.c:46-52 | All bytes of the line and their count, or 0 and nothing touched outside the window. |
| `H3Request.PutSection` | src/app/http3/request/h3reqenc/pseudo_encode.c:55-83 | Prefix and all lines, or 0 when they do not fit together. |
| `H3Request.EncodeRequest` | src/app/http3/request/h3reqenc/pseudo_encode.c:86-105 | Succeeds exactly when the whole section fits, and out then holds exactly it. |
| `H3Request.LineIndexedAt` | src/app/http3/request/h3reqdrive/request_drive.c:70-90 | An indexed line as specified, borrowing the static strings. |
| `H3Request.LineNamrefAt` | src/app/http3/request/h3reqdrive/request_drive.c:94-108 | A name-reference line as specified, its value in the scratch window. |
| `H3Request.LineLitnameAt` | src/app/http3/request/h3reqdrive/request_drive.c:112-124 | A literal-name line as specified, name and value in disjoint halves of the window. |
| `H3Request.DecodeLineAt` | src/app/http3/request/h3reqdrive/request_drive.c:127-133 | The first of the three forms that decodes, as specified. |
| `H3Request.Classify` | src/app/http3/core/h3/pseudoheader.c:4-40 | The kind of the first known name equal to the given one, unknown, or regular without a leading colon. |
| `H3Octets.KindsByName` | src/app/http3/core/h3/pseudoheader.c:18-42 | Kinds 1 to 5 are exactly the five known names, written out in octets, 6 any other name that starts with a colon, 0 the rest. |
| `H3Request.KindIsSlot` | src/app/http3/request/h3reqdrive/request_drive.c:137-152 | Kinds 1 to 4 are exactly the names with a request slot, in the order of the slots. |
| `H3Request.ScanLines` | src/app/http3/request/h3reqdrive/request_drive.c:156-181 | Succeeds as specified, and at the end every slot still shows its specified value: no line overwrote what an earlier one stored. |
| `H3Request.DecodeRequest` | src/app/http3/request/h3reqdrive/request_drive.c:185-190 | Section prefix and lines decoded as specified. |
| `P256Field.FpAdd` | src/crypto/asymmetric/ecc/p256/p256_field.c:76-85 | (a + b) mod m for reduced operands, r may alias them. |
| `P256Field.FpSub` | src/crypto/asymmetric/ecc/p256/p256_field.c:87-95 | (a - b) mod m for reduced operands, r may alias them. |
| `P256Field.CurveConstants` | src/crypto/asymmetric/ecc/p256/p256_field.c:4-9 | p is 2^256 - 2^224 + 2^192 + 2^96 - 1, and n is the group order in decimal. |
| `P256Field.FeGe` | src/crypto/asymmetric/ecc/p256/p256_field.c:47-51 | Compares the 256-bit values. |
| `P256Field.FeSubRaw` | src/crypto/asymmetric/ecc/p256/p256_field.c:56-63 | The exact difference, or its value plus 2^256 when negative. |
| `P256Field.FeAddRaw` | src/crypto/asymmetric/ecc/p256/p256_field.c:66-74 | The exact sum with its carry. |
| `P256Field.FeMulRow` | src/crypto/asymmetric/ecc/p256/p256_field.c:98-106 | One row added in, and no limb above it changed. |
| `P256Field.FeMulWide` | src/crypto/asymmetric/ecc/p256/p256_field.c:109-112 | The exact 512-bit product. |
| `P256LongDivision.FpMul` | src/crypto/asymmetric/ecc/p256/p256_field.c:125-166 | The result of 256 shift-subtract steps; a*b mod m whenever a*b < m*2^256. |
| `P256LongDivision.FpMulCorrectIff` | src/crypto/asymmetric/ecc/p256/p256_field.c:120-166 | For odd m of 256 bits, the result is a*b mod m if and only if a*b < m*2^256. |
| `P256LongDivision.FpMulValue` | src/crypto/asymmetric/ecc/p256/p256_field.c:120-166 | What comes out for every modulus and all operands: a*b mod m while a*b < m*2^256, and otherwise the low 256 bits of a*b + m. |
| `P256LongDivision.OneOperandBelow` | src/crypto/asymmetric/ecc/p256/p256_field.c:162-166 | One operand below m is enough for the product to be right. |
| `P256LongDivision.FpMulUnreducedOperands` | src/crypto/asymmetric/ecc/p256/p256_field.c:162-166 | Two all-ones operands give a wrong product modulo the group order. |
| `P256LongDivision.FeReduceWide` | src/crypto/asymmetric/ecc/p256/p256_field.c:120-128 | The low 256 bits of what the shift-subtract steps leave, and the remainder when the dividend is below m*2^256. |
| `P256LongDivision.WideGeShifted` | src/crypto/asymmetric/ecc/p256/p256_field.c:131-148 | Compares with m << sh bit by bit. |
| `P256LongDivision.WideSubShifted` | src/crypto/asymmetric/ecc/p256/p256_field.c:150-160 | Subtracts m << sh exactly. |
| `P256LongDivision.FpReduce` | src/crypto/asymmetric/ecc/p256/p256_field.c:271-278 | a mod m for every a and every nonzero m. |
| `P256Solinas.FpMulP` | src/crypto/asymmetric/ecc/p256/p256_field.c:263-267 | a*b mod p for all 256-bit a and b, reduced or not. |
| `P256Solinas.FpReduceP256` | src/crypto/asymmetric/ecc/p256/p256_field.c:258-261 | The 512-bit value mod p. |
| `P256Solinas.SolinasCongruence` | src/crypto/asymmetric/ecc/p256/p256_field.c:190-203 | The nine-term signed sum of rearranged words is congruent to the 512-bit value mod p. |
| `P256Solinas.BuildTerm` | src/crypto/asymmetric/ecc/p256/p256_field.c:213-219 | The t-th term reduced mod p. |
| `P256Solinas.ReduceAddHalf` | src/crypto/asymmetric/ecc/p256/p256_field.c:232-245 | The five added terms with their weights, mod p. |
| `P256Solinas.ReduceSubHalf` | src/crypto/asymmetric/ecc/p256/p256_field.c:248-254 | The four subtracted terms, mod p. |
| `P256Montgomery.MontMul` | src/crypto/asymmetric/ecc/p256/p256_field.c:352-360 | r below m with r*2^256 congruent to a*b; only b need be reduced and no intermediate overflows. |
| `P256Montgomery.CiosMulRow` | src/crypto/asymmetric/ecc/p256/p256_field.c:311-321 | The row product added exactly. |
| `P256Montgomery.CiosReduceRow` | src/crypto/asymmetric/ecc/p256/p256_field.c:323-336 | Exact division by 2^64 after adding a multiple of m, leaving the accumulator below 2m. |
| `P256Montgomery.MontFinalize` | src/crypto/asymmetric/ecc/p256/p256_field.c:339-349 | One conditional subtraction gives the residue. |
| `P256Montgomery.MontP` | src/crypto/asymmetric/ecc/p256/p256_field.c:13-20 | The constants shipped for p satisfy the Montgomery context. |
| `P256Montgomery.MontN` | src/crypto/asymmetric/ecc/p256/p256_field.c:21-28 | The constants shipped for n satisfy the Montgomery context. |
| `P256Inverse.FpInv` | src/crypto/asymmetric/ecc/p256/p256_field.c:282-299 | a^(m-2) mod m for reduced a. |
| `P256Inverse.FpInvP` | src/crypto/asymmetric/ecc/p256/p256_field.c:384-394 | a^(p-2) mod p for every a. |
| `P256Inverse.MontInv` | src/crypto/asymmetric/ecc/p256/p256_field.c:363-379 | a^(m-2) mod m through Montgomery form and back. |
| `Modexp.BnModexp` | src/crypto/asymmetric/bignum/modexp.c:94-103 | base^exp mod m for every m above 1, every base below m and every exponent. |
| `Modexp.Modmul` | src/crypto/asymmetric/bignum/modexp.c:87-92 | a*b mod m for a below m and any b. |
| `Modexp.MulStep` | src/crypto/asymmetric/bignum/modexp.c:49-53 | Doubling and adding, each with one conditional subtraction, stays reduced even when the top limb overflows. |
| `Modexp.ReduceOnce` | src/crypto/asymmetric/bignum/modexp.c:38-46 | One subtraction reduces any value below 2m, overflow bit included. |
| `Modexp.BnBits` | src/crypto/asymmetric/bignum/modexp.c:61-84 | The exact bit length. |
| `Modexp.TopIs` | src/crypto/asymmetric/bignum/modexp.c:4-13 | The width is 4096 bits. |
| `Modexp.BnAdd` | src/crypto/asymmetric/bignum/modexp.c:4-13 | The exact sum with its carry. |
| `Modexp.BnSub` | src/crypto/asymmetric/bignum/modexp.c:16-24 | The exact difference, wrapping when negative. |
| `Modexp.BnShl1` | src/crypto/asymmetric/bignum/modexp.c:27-35 | The exact double with its carry. |
| `Bignum.BnFromBe` | src/crypto/asymmetric/bignum/bignum.c:7-14 | The big-endian value. |
| `Bignum.BnToBe` | src/crypto/asymmetric/bignum/bignum.c:16-22 | The value modulo the width, big-endian. |
| `Bignum.LoadThenStore` | src/crypto/asymmetric/bignum/bignum.c:7-22 | Loading and storing at the same width gives the bytes back. |
| `Bignum.BnCmp` | src/crypto/asymmetric/bignum/bignum.c:25-36 | The order of the two values. |
| `Ed25519Scalar.ScMulAdd` | src/crypto/asymmetric/ecc/ed25519/ed25519_sign.c:130-136 | (a*b + c) mod L, below L, for all 256-bit a, b and c. |
| `Ed25519Scalar.ScReduce64` | src/crypto/asymmetric/ecc/ed25519/ed25519_sign.c:55-58 | The 512-bit value mod L. |
| `Ed25519Scalar.ScMul512` | src/crypto/asymmetric/ecc/ed25519/ed25519_sign.c:108-117 | The exact 512-bit product; no column or carry overflows. |
| `Ed25519Scalar.ScMulRow` | src/crypto/asymmetric/ecc/ed25519/ed25519_sign.c:103-105 | One row of byte products added with the column bound kept. |
| `Ed25519Scalar.ScAdd32` | src/crypto/asymmetric/ecc/ed25519/ed25519_sign.c:120-127 | The exact sum, with no carry lost. |
| `Ed25519Scalar.ScDblAddBit` | src/crypto/asymmetric/ecc/ed25519/ed25519_sign.c:47-51 | Doubling and adding a bit stays reduced mod L. |
| `Ed25519Scalar.ScShl1` | src/crypto/asymmetric/ecc/ed25519/ed25519_sign.c:36-44 | The exact shift with its carry. |
| `Ed25519Scalar.ScSubL` | src/crypto/asymmetric/ecc/ed25519/ed25519_sign.c:26-33 | Subtracts L exactly. |
| `Ed25519Scalar.OrderValue` | src/crypto/asymmetric/ecc/ed25519/ed25519_sign.c:11-15 | The byte table is the group order L = 2^252 + 27742317777372353535851937790883648493. |
| `X25519Curve.X25519IsMultiple` | src/tls/handshake/core/tls/x25519.c:211-251 | For a point on y^2 = x^3 + 486662x^2 + x and a clamped scalar k whose ladder meets no point at infinity, the last z is invertible, and where its (p-2)-th power is the inverse the function is the x-coordinate of k times the point. |
| `X25519Curve.LadderWalksMultiples` | src/tls/handshake/core/tls/x25519.c:211-228 | After the scalar bits from 254 down to t, the two points stand for the multiples of the point by the number those bits make and by the next number. |
| `X25519Curve.AddsPoints` | src/tls/handshake/core/tls/x25519.c:181-193 | The addition half takes points that stand for p and q to one that stands for their sum by the chord law, when x1 is the x-coordinate of their difference. |
| `X25519Curve.DoublesPoint` | src/tls/handshake/core/tls/x25519.c:194-200 | The doubling half takes a point that stands for p to one that stands for twice p by the tangent law. |
| `X25519Curve.SumTimesDifference` | src/tls/handshake/core/tls/x25519.c:181-193 | For points on the curve the x-coordinates of q + p and q - p multiply to ((xx' - 1)/(x' - x))^2. |
| `X25519Curve.DoubledX` | src/tls/handshake/core/tls/x25519.c:194-200 | Twice a point of the curve has x-coordinate (x^2 - 1)^2 / 4(x^3 + 486662x^2 + x). |
| `X25519Curve.AddHalfLaw` | src/tls/handshake/core/tls/x25519.c:183-193 | For all coordinates: the new x3 and z3 are 4(x2 x3 - z2 z3)^2 and 4 x1 (x2 z3 - x3 z2)^2 mod p. |
| `X25519Curve.DoubleHalfLaw` | src/tls/handshake/core/tls/x25519.c:194-200 | For all coordinates: the new x2 and z2 are (x2^2 - z2^2)^2 and 4 x2 z2 (x2^2 + 486662 x2 z2 + z2^2) mod p. |
| `X25519Ladder.QuicX25519` | src/tls/handshake/core/tls/x25519.c:238-251 | The 32 bytes are the RFC 7748 function of the clamped scalar and the point with its top bit dropped, and the result is accepted exactly when nonzero. |
| `X25519Ladder.Ladder` | src/tls/handshake/core/tls/x25519.c:211-228 | The limbs after all 255 steps represent the reference ladder on the same scalar bits, every limb within bounds throughout. |
| `X25519Ladder.LadderStep` | src/tls/handshake/core/tls/x25519.c:181-201 | One step on limbs is one step of the reference formulas mod 2^255-19, tight limbs in and out. |
| `X25519Ladder.ClampShape` | src/tls/handshake/core/tls/x25519.c:204-208 | A clamped scalar is 2^254 plus bits 3 to 253 of the scalar, so a multiple of 8 in [2^254, 2^255). |
| `X25519Ladder.Nonzero` | src/tls/handshake/core/tls/x25519.c:232-236 | True exactly for a nonzero value. |
| `X25519Field.FeMul` | src/tls/handshake/core/tls/x25519.c:57-61 | The product mod 2^255-19 with tight limbs from loose ones, no 128-bit column overflowing. |
| `X25519Field.FeReduce` | src/tls/handshake/core/tls/x25519.c:44-54 | Tight limbs congruent to the columns. |
| `X25519Field.MulCol` | src/tls/handshake/core/tls/x25519.c:34-41 | One column exactly, within its bound. |
| `X25519Field.FeSub` | src/tls/handshake/core/tls/x25519.c:25-30 | The difference plus 2p, every limb subtraction non-negative. |
| `X25519Field.FeAdd` | src/tls/handshake/core/tls/x25519.c:20-22 | The exact sum. |
| `X25519Field.FeMul121666` | src/tls/handshake/core/tls/x25519.c:66-70 | 121666 times the element, mod 2^255-19. |
| `X25519Field.FeInvert` | src/tls/handshake/core/tls/x25519.c:90-114 | z^(2^255-21) mod 2^255-19. |
| `X25519Field.FeCswap` | src/tls/handshake/core/tls/x25519.c:73-80 | Swaps or keeps the two elements. |
| `X25519Bytes.FeToBytes` | src/tls/handshake/core/tls/x25519.c:167-178 | The bytes are the unique representative below 2^255-19 of any element with limbs below 2^52. |
| `X25519Bytes.FeFromBytes` | src/tls/handshake/core/tls/x25519.c:117-128 | The value of the bytes modulo 2^255, in limbs below 2^51. |
| `X25519Bytes.CarryPass` | src/tls/handshake/core/tls/x25519.c:142-150 | One folding pass, exactly. |
| `X25519Bytes.FeCanonical` | src/tls/handshake/core/tls/x25519.c:142-178 | The limbs of the residue. |
| `X25519Bytes.StoreReduced` | src/tls/handshake/core/tls/x25519.c:131-139 | The bytes of a reduced element. |
| `Poly1305.CarriedIsPolynomial` | src/crypto/symmetric/aead/chacha/poly1305.c:86-106 | For every key and message the carried accumulator has limbs below 2^26 and is congruent to the RFC 8439 polynomial. |
| `Poly1305.AbsorbIsPolynomial` | src/crypto/symmetric/aead/chacha/poly1305.c:29-94 | Block by block, partial last block included, the accumulator stays within bounds and congruent to the polynomial. |
| `Poly1305.TagCorrectIff` | src/crypto/symmetric/aead/chacha/poly1305.c:109-149 | The tag is the RFC 8439 tag if and only if the carried accumulator is below 2^130-5. |
| `Poly1305.WrongTag` | src/crypto/symmetric/aead/chacha/poly1305.c:109-123 | A key and a 48-byte message whose carried accumulator is 2^130-5 and whose tag therefore differs. |
| `Poly1305.QuicPoly1305` | src/crypto/symmetric/aead/chacha/poly1305.c:151-160 | The tag is the carried accumulator plus the pad mod 2^128. |
| `Poly1305.MulReduceStep` | src/crypto/symmetric/aead/chacha/poly1305.c:40-69 | One multiply-and-carry keeps the bounds and the product mod p. |
| `Poly1305.FullCarryDigits` | src/crypto/symmetric/aead/chacha/poly1305.c:97-106 | One more carry pass leaves every limb below 2^26. |
| `Poly1305.PlusFive` | src/crypto/symmetric/aead/chacha/poly1305.c:109-117 | h + 5 mod 2^130, with a top limb whose sign bit is always set. |
| `Poly1305.SelectMod` | src/crypto/symmetric/aead/chacha/poly1305.c:120-123 | Keeps h exactly when the sign bit of g is set. |
| `Poly1305.PackedValue` | src/crypto/symmetric/aead/chacha/poly1305.c:126-131 | The four words are the value mod 2^128. |
| `Poly1305.StoreTag` | src/crypto/symmetric/aead/chacha/poly1305.c:134-149 | Words plus pad mod 2^128, stored little-endian. |
| `Poly1305.Poly.constructor` | src/crypto/symmetric/aead/chacha/poly1305.c:16-26 | Clamped key limbs, zero accumulator and pad words from the key. |
| `Poly1305.Poly.Add` | src/crypto/symmetric/aead/chacha/poly1305.c:29-37 | Adds a block and its high bit with no 32-bit overflow. |
| `Poly1305.Poly.CarryColumns` | src/crypto/symmetric/aead/chacha/poly1305.c:40-50 | The carry pass with no 64-bit overflow. |
| `Poly1305.Poly.MulMod` | src/crypto/symmetric/aead/chacha/poly1305.c:53-69 | The multiply step with no 64-bit overflow. |
| `Poly1305.Poly.Blocks` | src/crypto/symmetric/aead/chacha/poly1305.c:72-94 | All full blocks and the padded rest absorbed. |
| `Poly1305.Poly.CarryUp` | src/crypto/symmetric/aead/chacha/poly1305.c:97-101 | The carry chain from limb to limb, within 32 bits. |
| `Poly1305.Poly.FullCarry` | src/crypto/symmetric/aead/chacha/poly1305.c:97-106 | The final carry. |
| `Poly1305.Poly.Finish` | src/crypto/symmetric/aead/chacha/poly1305.c:134-149 | The tag from the accumulator and the pad. |
| `Poly1305Input.KeyValue` | src/crypto/symmetric/aead/chacha/poly1305.c:16-26 | The key limbs are the clamped key as a number, within the bounds the multiply needs. |
| `Poly1305Input.MaskingClamps` | src/crypto/symmetric/aead/chacha/poly1305.c:16-26 | Masking the overlapping words limb by limb is clamping the key bytes. |
| `Sha256.SplitIndependent` | src/crypto/symmetric/hash/hash/sha256.c:67-106 | However a message is split into updates, the state is the same. |
| `Sha256.UpdateAppends` | src/crypto/symmetric/hash/hash/sha256.c:84-106 | Updating the state of m by d gives the state of m followed by d. |
| `Sha256.Context.Absorb` | src/crypto/symmetric/hash/hash/sha256.c:101-106 | The method computes that update. |
| `Sha256.Context.AbsorbBlocks` | src/crypto/symmetric/hash/hash/sha256.c:67-74 | Compresses every whole block. |
| `Sha256.Context.FillPending` | src/crypto/symmetric/hash/hash/sha256.c:91-99 | Completes a pending block exactly when the data suffices. |
| `Sha256.Context.PadMessage` | src/crypto/symmetric/hash/hash/sha256.c:118-123 | Ends with the message, the marker and just the zeros that leave room for the length. |
| `Sha256.Context.Final` | src/crypto/symmetric/hash/hash/sha256.c:125-132 | The digest is the serialised compression fold over the FIPS 180-4 padded message. |
| `Sha256.PadCount` | src/crypto/symmetric/hash/hash/sha256.c:118-123 | The padding loop stops exactly at the specified number of zeros. |
| `Sha256.PaddedShape` | src/crypto/symmetric/hash/hash/sha256.c:116-132 | A padded message is the message, 0x80, the fewest zeros that leave eight octets to a whole block, and there the bit length modulo 2^64, most significant octet first. |
| `Sha256.LengthValue` | src/crypto/symmetric/hash/hash/sha256.c:125-132 | The length field, read big-endian, is the bit length modulo 2^64. |
| `Sha256.BlocksOneByOne` | src/crypto/symmetric/hash/hash/sha256.c:67-74 | Blocks go through the compression function one at a time, in order. |
| `Sha256.LengthWraps` | src/crypto/symmetric/hash/hash/sha256.c:125-132 | The length field does not change when the byte count has wrapped at 2^64. |
| `Transcript.Transcript.Add` | src/tls/handshake/core/tls/transcript.c:7-9 | Appends to the messages hashed. |
| `Transcript.Transcript.Hash` | src/tls/handshake/core/tls/transcript.c:11-15 | The digest of all messages so far, leaving the running hash as it was. |
| `Clock.CivilIsCounting` | src/common/platform/clock/clock.c:6-14 | For every day count, the closed form gives the date reached by counting Gregorian days one at a time from 1970-01-01. |
| `Clock.StrictlyIncreasingIff` | src/common/platform/clock/clock.c:16-21 | The packed time is strictly increasing over all seconds up to a last one if and only if that one is in year 1844674407 or before, where 64 bits still hold it. |
| `Clock.StepsDown` | src/common/platform/clock/clock.c:16-21 | The last 64-bit second lies past that year, so two seconds exist whose packed times are not in order. |
| `Clock.WindowOrdersTimes` | src/crypto/pki/encoding/x509/validity.c:126 | Comparing packed times decides whether a time lies in the validity window. |
| `Clock.PackedFields` | src/common/platform/clock/clock.c:16-21 | Read two decimal digits at a time the packed time is second, minute, hour, day, month and, in what is left, the year, of the date counted day by day. |
| `Clock.PackedIncreases` | src/common/platform/clock/clock.c:16-21 | Unwrapped, a later second always packs to a larger number. |

## Left out

- SHA-256's compression function, and AES, ChaCha20, GCM, SHA-384/512, HMAC and HKDF: definitional bit mixing; the compression function is a parameter of `Sha256`.
- Elliptic-curve point formulas, ECDSA and EdDSA signing and verification, and that a^(m-2) is the inverse of a: they need group laws and the primality of p, n and 2^255-19, which the code does not establish.
- Ed25519's field arithmetic and its own byte encoder: it repeats the X25519 argument, with a weaker last step.
- X.509, DER and the trust-store loop: they appear in the handshake only as accept or reject.
- tlsdriver: CRYPTO reassembly and ClientHello building; parsing a key share out of a hello message and the key agreement are parameters.
- FullHandshakeDriver.FullHs.RecvCert: requires the 4-byte header of a Certificate in its turn, because the source subtracts its length unchecked and would read past a shorter message; out of turn any message is refused unread.
- FullHandshakeDriver.FullHs.RecvCertVerify: requires the 4-byte header, because the source parses before anything else, subtracts its length unchecked and would read past a shorter message.
- Packet protection, loss recovery, frame parsing, the server loops and HTTP/3 framing around the field section: not part of this model.
- System calls, sockets, clocks and random numbers: not part of this model; the clock is modelled from the seconds on.
- Encoder and decoder stream instructions, the literal-name encoder and response headers: they would only repeat the field-line arguments.
- 64-bit overflow of the dynamic table's counters and of `size + need`: counters are unbounded, which takes more than 2^63 inserts or a capacity near 2^64 to notice.
- Bytes left in a dynamic-table slot or scratch past a stored length: entries are modelled by the bytes their lengths cover.
- Constant-time behaviour.
- FpMulCorrectIff: stated for odd moduli of 256 bits, as p and n are; for every other modulus `FpMulValue` gives the result, which can be the right residue by coincidence.
- X25519IsMultiple: the multiples on the way are given as chord and tangent sums that avoid the point at infinity, and that z^(p-2) inverts z is a condition, because the group law and the primality of p are not established; `QuicX25519` itself is for every scalar and point.
