# A verified model of proxyot

This project models proxyot, a Go program in which a sender publishes encrypted messages, a receiver picks one by
oblivious transfer, and a storage node re-encrypts it for the receiver. It proves what the program's parts promise.

| file | models |
|---|---|
| `Bytes.dfy`, `Buffers.dfy`, `NumberTheory.dfy` | bytes and word widths; in-place writes; congruences, extended Euclid, inverses modulo a prime |
| `Varint.dfy`, `Wire.dfy` | base-128 varints; unknown fields, as a grammar and as the skipper |
| `Messages.dfy`, `Codec.dfy` | decoding and encoding of any message whose fields are numbered 1, 2, ...; single-field reads and writes in a buffer |
| `PreReEncryptRequest.dfy`, `StorUploadRequest.dfy` | two message classes, with the loops of their methods |
| `MessagePool.dfy` | the rendezvous of responses with the calls that wait for them |
| `Curve.dfy`, `ObliviousTransfer.dfy`, `ProxyReEncryption.dfy`, `Ciphering.dfy`, `ShareMessages.dfy` | points, the transfer, re-encryption, the cipher closures, and the whole run |
| `Merkle.dfy`, `Chameleon.dfy`, `BlockStore.dfy`, `Storage.dfy` | the tree, the trapdoor hash, the in-memory file, and updatable storage over the three |

How the model is stated:

- The message specification is written over a schema, the list of the kinds of fields 1, 2, .... Its theorems hold for
  every schema of up to 15 fields, so for all eight messages of `msg.proto`; the two classes with the most kinds of
  fields are modelled method by method and proved to implement it.
- A buffer is assumed to end at least 8 below the largest int (`Wire.MAX_BUFFER`), because `skipMsg` adds 8 without a
  check. Every other addition is wrapped to 64 bits and tested for a negative result as in the source; the methods
  prove that those tests catch exactly the sums that wrapped.
- `acc |= (b & 0x7f) << 7k` is written as an addition: the methods prove that `acc` is below 2^(7k) at that point.
- A point is its exponent modulo the group order q, and a pairing multiplies exponents. q is a parameter, assumed prime
  where the result needs it. SHA-256, SHA-512, HMAC, AES and the marshalling of points are function parameters. The
  two directions of AES are assumed to undo each other; no hash is assumed injective.
- Random numbers (field elements, IVs, file contents) are parameters.
- `MessagePool` is a step relation over any number of `Wait` and `Push` calls: one step per lock operation, map access,
  channel operation and select (the test for a key and its insertion, both under the lock, are one). A call that arrives
  late is one whose first step comes late.

Where a promise does not hold of the code, the model keeps the code and proves when it does hold:

- Merkle roots bind a leaf list only among lists of one height. Across heights, equal roots mean, short of a hash
  collision, that the lower list is a layer of the higher one (`Merkle.RootAcrossHeights`, with an example in
  `Merkle.RootNotBindingAcrossHeights`).
- `Push` panics when two calls find one registration. A run that can go no further has panicked if and only if that
  happened (`MessagePool.PanicsIff`, with an example in `MessagePool.TwoPushesPanic`), and has finished every call if
  and only if it did not (`MessagePool.CompletesIff`). Both suppose that the context of every `Wait` ends in time: a
  select can always take its timeout.
- The decryption closure looks at the last padding byte only; an accepted text is one the encryption closure writes if
  and only if all its padding is well formed (`Ciphering.SealOpen`, with an accepted text of padding byte 0 under every
  key and IV in `Ciphering.AcceptedUnsealed`).
- A block written to the file reads back as written if and only if its part past the end of the file was zero
  (`BlockStore.ReadsBack`, with an example in `BlockStore.DoesNotReadBack`). Short of a SHA-256 collision - of two blocks
  modulo q, or of two marshalled points - that is also exactly when the file's block verifies under its moved hash
  (`Storage.FileUpdateVerifies`).
- The index test of the file refuses the block numbers from the block count on, and no negative one. A negative one
  panics if and only if its 64-bit offset falls outside the file; otherwise it reads and writes there
  (`BlockStore.MemFileObj.GetBlock` and `SetBlock`, with an example in `BlockStore.NegativeBlockAliases`).
- Decoding `a ++ b` is exactly decoding `b` alone into the message `a` left, unless `b` stops at a field whose announced
  end fits where the field stands in `b` and passes the int64 maximum behind `a`; then only the error differs
  (`Messages.ConcatExact`, with an example in `Messages.LengthErrorsMove`).

The benchmark computes collisions for new blocks but writes none to its file and keeps no updated randomness. Where
`Storage` follows blocks and hashes through updates (`ApplyChanges`, `UpdateBlock`), it composes the repository's own
`ComputeCollision`, `Verify`, `GetBlock` and `SetBlock`.

## Model

| member | source | states |
|---|---|---|
| Varint.ReadVarintLoop | node/protocol/pb/msg.pb.go:1424-1438 | the inlined reader loops, at 64 and at 32 bits, return the value of the varint at the index, or the error and the bits gathered before it, and never index past the slice |
| Varint.Sov | node/protocol/pb/msg.pb.go:1113-1122 | the size loop returns the number of bytes of the encoding |
| Varint.WriteVarint | node/protocol/pb/msg.pb.go:908-916 | writes exactly the encoding at the offset, returns the offset after it, and changes no other byte |
| Varint.VarintRoundTrip | node/protocol/pb/msg.pb.go:908-916 | every uint64 is read back from its encoding, whatever bytes follow |
| Varint.RawErrors | node/protocol/pb/msg.pb.go:1425-1438 | a read fails if and only if every byte it may look at asks for another: with an overflow if there were ten, with an unexpected end otherwise |
| Varint.EncodeSize | node/protocol/pb/msg.pb.go:1113-1122 | a value takes at most k bytes exactly when it is below 2^(7k) |
| Varint.EncodeLength | node/protocol/pb/msg.pb.go:908-916 | a uint64 takes 1 to 10 bytes |
| Varint.EncodeShortest | node/protocol/pb/msg.pb.go:908-916 | no varint the reader accepts for a value, also one truncated to 32 bits, is shorter than the writer's |
| Varint.EncodeDigits | node/protocol/pb/msg.pb.go:908-916 | byte k of an encoding carries the k-th group of seven bits, and all bytes but the last ask for another |
| Varint.ReadDigits | node/protocol/pb/msg.pb.go:1425-1438 | a read ends at the first byte below 128, and the k-th group of seven bits of its value are the low bits of byte k |
| Varint.BrokenDigits | node/protocol/pb/msg.pb.go:1425-1438 | a read that fails has gathered the low seven bits of every byte it looked at, and no others |
| Varint.ReadWraps | node/protocol/pb/msg.pb.go:1425-1438 | a read value is below 2^64 and agrees with the value of all its bits modulo 2^64 |
| Bytes.Int32Exact | node/protocol/pb/msg.pb.go:1439 | a field number below 2^31 is kept by the conversion to int32; any other becomes the int32 that agrees with it modulo 2^32 |
| Bytes.NegativeIffWrapped | node/protocol/pb/msg.pb.go:2380-2386 | a sum of two non-negative ints tests negative exactly when it passed the int64 maximum |
| Wire.ReadExtentLoop | node/protocol/pb/msg.pb.go:1484-1508 | reads a length and adds it to the index; the two sign tests reject exactly the lengths and sums of 2^63 and more |
| Wire.SkipGroup | node/protocol/pb/msg.pb.go:2388-2419 | skipping a group terminates, goes past its start and never past the end of the buffer |
| Wire.SkipMsg | node/protocol/pb/msg.pb.go:2326-2430 | skipMsg terminates on every slice without an index out of range, reaches its final panic on the empty slice only, and otherwise has the length or error of the skipper function |
| Wire.SkipGroupLoop | node/protocol/pb/msg.pb.go:2388-2419 | the group loop with its recursive call and wrap test computes the skipper function and terminates |
| Wire.SkipExact | node/protocol/pb/msg.pb.go:2326-2430 | the skipper takes n bytes if and only if the first n bytes are one complete field of the wire grammar, groups nested to any depth included |
| Wire.SkipComplete | node/protocol/pb/msg.pb.go:2326-2430 | a complete field in front of any bytes is skipped exactly |
| Wire.SkipLocal | node/protocol/pb/msg.pb.go:2326-2430 | what a field takes does not depend on the bytes after it |
| Wire.SkipTruncated | node/protocol/pb/msg.pb.go:2326-2430 | a complete field cut short, at any depth of nesting, makes the skipper report an unexpected end or point past the cut |
| Wire.FixedWidths | node/protocol/pb/msg.pb.go:2361-2427 | behind a one-byte tag a fixed64 field takes 8 bytes and a fixed32 field 4; wire types 6 and 7 are illegal |
| Messages.DecodeExact | node/protocol/pb/msg.pb.go:1419-1602 | Unmarshal accepts exactly the runs of complete fields with positive numbers and the right wire types, and leaves the message those fields mean one after another; unknown fields are kept byte for byte in order |
| Messages.DecodeMeaning | node/protocol/pb/msg.pb.go:1419-1602 | an accepted buffer is a run of fields, and of those a bytes or string field holds the payload of the last with its number, a number field the last value modulo its width, a repeated field gains all payloads in order, and the unknown bytes gain the fields above the schema in order; what does not occur stays as it was |
| Messages.DataLastWins | node/protocol/pb/msg.pb.go:1509-1513 | a bytes field in front of any bytes, whatever the message holds for it, leaves exactly its payload; for a repeated field the payload joins at the end |
| Messages.NumberLastWins | node/protocol/pb/msg.pb.go:1805-1823 | a number field in front of any bytes, whatever the message holds for it, leaves exactly its value |
| Messages.SecondStringStays | node/protocol/pb/msg.pb.go:1452-1479 | of two strings for one field in one concrete buffer the second stays |
| Messages.TagErrors | node/protocol/pb/msg.pb.go:1439-1451 | the errors for an end-group tag, a number that is not positive and a wrong wire type are each reported exactly for such a tag, with the number and type found |
| Messages.FailedScalar | node/protocol/pb/msg.pb.go:1805-1823 | varint bytes that never end fail a number field, with an overflow from ten bytes on and an unexpected end before, and leave in it the bits of the first ten modulo its width |
| Messages.DataErrors | node/protocol/pb/msg.pb.go:1484-1508 | a bytes field is refused for its length if and only if that or its end is beyond the int64 maximum, for the end of the input if and only if it is longer than what is left, and is accepted otherwise |
| Messages.StopLeaves | node/protocol/pb/msg.pb.go:1419-1602 | no error but that of a number field's own varint changes the message |
| Messages.EncodingInOrder | node/protocol/pb/msg.pb.go:675-710 | Marshal writes the fields in the order of their numbers and the unrecognised bytes after the last |
| Messages.DecodeConcat | node/protocol/pb/msg.pb.go:1419-1602 | if `a` decodes, decoding `a ++ b` is decoding `b`, where it stands, into the message `a` left, errors and partial results included |
| Messages.ConcatExact | node/protocol/pb/msg.pb.go:1419-1602 | the same with `b` decoded as a buffer of its own: equal in message and error if and only if `b` does not stop at a field whose announced end passes the int64 maximum only behind `a` |
| Messages.LengthErrorsMove | node/protocol/pb/msg.pb.go:1467-1477 | a concrete field whose error is one kind alone and the other after two more bytes |
| Messages.DecodeKeepsUnknown | node/protocol/pb/msg.pb.go:1578-1595 | whatever the input, what decoding collects as unrecognised is a run of complete fields with unknown numbers |
| Messages.RoundTrip | node/protocol/pb/msg.pb.go:665-710 | Unmarshal of Marshal gives the message back, for every message whose unrecognised bytes are complete unknown fields |
| Messages.ItemsRoundTrip | node/protocol/pb/msg.pb.go:692-699 | a repeated field is read back item by item, empty items included, after what was there |
| Messages.DecodeShrinks | node/protocol/pb/msg.pb.go:964-992 | decoding never makes the message's encoding grow by more than the bytes decoded |
| Messages.Truncation | node/protocol/pb/msg.pb.go:1419-1602 | an accepted buffer cut at any byte is accepted or fails with an unexpected end, never with another error |
| Messages.Canonicalises | node/protocol/pb/msg.pb.go:1419-1602 | any accepted buffer - long varints, duplicates, any order, unknown fields, groups - re-marshals to no more bytes, and those decode to the same message |
| Codec.WriteData | node/protocol/pb/msg.pb.go:680-685 | writes tag, length and payload at the index and nothing else |
| Codec.WriteItems | node/protocol/pb/msg.pb.go:692-699 | the loop over a repeated field writes every item in order |
| Codec.SkipUnknown | node/protocol/pb/msg.pb.go:1578-1595 | the default branch takes the skipped bytes, or fails with the decoder's error |
| PreReEncrypt.PreReEncryptRequest.Size | node/protocol/pb/msg.pb.go:964-992 | Size is the length of the encoding |
| PreReEncrypt.PreReEncryptRequest.MarshalTo | node/protocol/pb/msg.pb.go:675-710 | fills a buffer of at least Size bytes with the encoding, returns Size and changes no other byte |
| PreReEncrypt.PreReEncryptRequest.Marshal | node/protocol/pb/msg.pb.go:665-673 | a new buffer that holds exactly the encoding |
| PreReEncrypt.PreReEncryptRequest.Unmarshal | node/protocol/pb/msg.pb.go:1419-1602 | the parsing loop leaves the message and error of the decoder, from any message and for any buffer |
| StorUpload.StorUploadRequest.Size | node/protocol/pb/msg.pb.go:1013-1041 | Size is the length of the encoding |
| StorUpload.StorUploadRequest.MarshalTo | node/protocol/pb/msg.pb.go:754-791 | fills a buffer of at least Size bytes with the encoding, returns Size and changes no other byte |
| StorUpload.StorUploadRequest.Marshal | node/protocol/pb/msg.pb.go:744-752 | a new buffer that holds exactly the encoding |
| StorUpload.StorUploadRequest.UnmarshalKnown | node/protocol/pb/msg.pb.go:1736-1874 | each case of the switch has the decoder's effect; a uint32 gathered in 32 bits is the varint's value modulo 2^32, and a failed scalar leaves the bits gathered so far |
| StorUpload.StorUploadRequest.Unmarshal | node/protocol/pb/msg.pb.go:1708-1899 | the parsing loop leaves the message and error of the decoder, from any message and for any buffer |
| MessagePool.InvOverRun | node/protocol/protocol.go:82-118 | lock exclusion, channel ownership, delivery and closing invariants hold after every interleaving of steps |
| MessagePool.Registration | node/protocol/protocol.go:82-98 | in every reachable state the map holds a key if and only if a Wait for it is between registering and its delete, there is only one, and the channel held is the one it made |
| MessagePool.OnlyOwnDelete | node/protocol/protocol.go:84-98 | a key leaves the map only by the delete of the Wait that made its channel; a rejected duplicate removes nothing |
| MessagePool.RegistersIff | node/protocol/protocol.go:83-90 | a Wait registers if and only if no Wait holds its key, and is rejected otherwise |
| MessagePool.FindsIff | node/protocol/protocol.go:111-114 | a Push fails to find its key if and only if no Wait holds it, and otherwise goes on to send on that Wait's channel |
| MessagePool.SelectReceives | node/protocol/protocol.go:100-104 | in every reachable state a Wait at its select whose channel holds a message can step without its context expiring, and then has received that message |
| MessagePool.TimeoutNeedsExpiry | node/protocol/protocol.go:100-102 | a Wait times out only if its context expires |
| MessagePool.Delivered | node/protocol/protocol.go:82-118 | when no context expires and no call can step, and no two Push calls found one registration, every Push has finished, every Push that found a channel has its message returned by that channel's Wait, for the same key, and every Wait has received a message, was rejected, or stands at its select with an empty channel |
| MessagePool.OwnWindow | node/protocol/protocol.go:100-118 | a message a Wait returns was sent by a Push for its key on its own channel, and is never a closed channel's zero value |
| MessagePool.PushNeverBlocks | node/protocol/protocol.go:107-118 | while no two Push calls have found one registration, nothing has panicked and every Push that holds the read lock can step |
| MessagePool.PanicsIff | node/protocol/protocol.go:107-118 | every run that can go no further has panicked if and only if two Push calls found one registration |
| MessagePool.TwoPushesPanic | node/protocol/protocol.go:115-116 | a witness for it: one Wait, two Push calls with any payloads, and a schedule that panics |
| MessagePool.CompletesIff | node/protocol/protocol.go:82-118 | given that contexts end in time, a run that can go no further has finished every call if and only if no two Push calls found one registration |
| MessagePool.RunsAreShort | node/protocol/protocol.go:82-118 | n calls take at most 7n + 1 steps, so every run gets to a state where no call can step |
| MessagePool.Conservation | node/protocol/protocol.go:100-118 | messages sent are messages received by a Wait plus messages still in a channel |
| NumberTheory.ExtendedGcdCorrect | pre/pre.go:24 | the gcd divides both numbers and is a combination of them |
| NumberTheory.InverseExists | pre/pre.go:24 | ModInverse succeeds modulo a prime exactly for non-multiples of it |
| NumberTheory.NoZeroDivisors | ot/ot.go:66-72 | a product that is zero modulo a prime has a zero factor |
| Curve.Point.ScalarMult | curve/points.go:69-72 | overwrites the receiver with the multiple, also when the argument is the receiver |
| Curve.Point.Add | curve/points.go:74-77 | overwrites the receiver with the sum, also when an argument is the receiver |
| Curve.Point.Neg | curve/points.go:79-82 | overwrites the receiver with the negation, also when the argument is the receiver |
| Curve.Bilinear | curve/points.go:134-137 | multiples of the two points come out of the pairing as a multiple of it |
| Curve.DeriveFieldElement | curve/curve.go:64-76 | the loop returns the first non-zero field element of the hash chain |
| Curve.DerivedKey | curve/curve.go:64-76 | a derived key depends on the starting digest alone, lies in 1..q-1 and is not zero modulo q |
| Curve.DerivesStep | curve/curve.go:67-74 | a digest that is not zero modulo q yields its residue, and any other yields what its own SHA-256 yields |
| Curve.FromBytesFront | curve/curve.go:68 | SetBytes reads the first byte as the most significant |
| ObliviousTransfer.SealChoice | ot/ot.go:26-39 | new points Y and L with the exponents of the protocol |
| ObliviousTransfer.CalculateKeyPoint | ot/ot.go:66-72 | the key point, with its aliased in-place operations |
| ObliviousTransfer.CalculateKeyPoints | ot/ot.go:49-64 | the loop yields one key point per index 1..count, and LPrime |
| ObliviousTransfer.KeyPointForm | ot/ot.go:26-72 | Y has the exponent beta a + l b, and key point i made from it t l b + t a (beta - i), modulo q |
| ObliviousTransfer.OpensExactly | ot/ot.go:26-84 | for prime q and non-zero skA and t, the revealed point is key point i if and only if i is the choice modulo q |
| ObliviousTransfer.KeyPointsDistinct | ot/ot.go:49-72 | key points with indices below q are equal only for equal indices |
| ObliviousTransfer.OpensOne | ot/ot.go:26-84 | a choice in 1..q-1 opens the key point with its own index and no other below q |
| ProxyReEncryption.Encrypt | pre/pre.go:10-20 | A is r times the public key, and the closure's output gains the text sealed under the GT point r |
| ProxyReEncryption.GenerateReKey | pre/pre.go:22-28 | the re-key b/a, computed in place |
| ProxyReEncryption.DecryptByReceiver | pre/pre.go:35-40 | runs the closure under the re-encrypted point divided by b |
| ProxyReEncryption.DecryptByOwner | pre/pre.go:42-48 | runs the closure under the pairing of A divided by a with the G2 base |
| ProxyReEncryption.ReceiverRecovers | pre/pre.go:10-40 | the receiver recovers the session point if and only if its secret is, modulo q, the one the re-key was made for |
| ProxyReEncryption.OwnerRecovers | pre/pre.go:42-48 | the owner recovers the session point |
| ProxyReEncryption.BothDecrypt | pre/pre.go:10-48 | what was encrypted opens to its plaintext for the receiver and for the owner |
| Ciphering.EncryptClosure.Run | pre/ciphering.go:33-77 | the text assembled in place is IV, CBC of the padded plaintext, and the MAC of both |
| Ciphering.DecryptClosure.Run | pre/ciphering.go:79-135 | the checks in their order, each with its error, and the plaintext only on success |
| Ciphering.CbcRoundTrip | pre/ciphering.go:61-62 | CBC decryption undoes CBC encryption over any permutation, for any number of blocks |
| Ciphering.XorBlockDifferences | pre/ciphering.go:63-64 | the exclusive or has a bit set exactly where the bits of its operands differ, for every bit of the block |
| Ciphering.CbcEncryptChains | pre/ciphering.go:63-64 | for every k, ciphertext block k is the cipher of a block that is, bit by bit, plaintext block k xor ciphertext block k-1, the IV for the first |
| Ciphering.CbcDecryptChains | pre/ciphering.go:124-126 | for every k, decrypted block k is, bit by bit, the deciphered block k xor ciphertext block k-1, the IV for the first |
| Ciphering.PadForm | pre/ciphering.go:140-144 | the padded text is the text and then n bytes n, with n in 1..16 and a length that is a multiple of 16 |
| Ciphering.PadUnpad | pre/ciphering.go:140-155 | padding what was unpadded gives the text back if and only if its padding is well formed |
| Ciphering.OpenSeal | pre/ciphering.go:33-135 | for every key, IV and plaintext the decryption closure accepts the encryption closure's text, of length 16 + 16(n/16 + 1) + 32, and returns the plaintext |
| Ciphering.SealForm | pre/ciphering.go:33-77 | the text is the IV, the CBC encryption of the padded plaintext under the first half of SHA-512 of the key, and the HMAC of both under the second half |
| Ciphering.OpenVerdicts | pre/ciphering.go:79-135 | a text is too short exactly below 64 bytes; one of 64 or more has bad padding if its length is no multiple of 16, a bad MAC exactly if its length is one and its last 32 bytes are not the HMAC, and is accepted exactly if the last decrypted byte is then at most 16, which is how many bytes are cut off |
| Ciphering.OtherMacRefused | pre/ciphering.go:101-114 | the text of the encryption closure with any other MAC is refused for its MAC |
| Ciphering.AcceptedUnsealed | pre/ciphering.go:147-155 | under every key and IV, a text with padding byte 0 that the decryption closure accepts and the encryption closure does not write |
| Ciphering.SealOpen | pre/ciphering.go:33-155 | an accepted text is the one the encryption closure writes for its plaintext and IV if and only if its padding is well formed |
| ShareMessages.DeriveKeysFromPoints | bench/proxyot.go:220-226 | one key per point, each derived from its own point |
| ShareMessages.DecryptMessage | bench/proxyot.go:272-281 | decrypts under the key derived from the revealed point |
| ShareMessages.Transfer | bench/proxyot.go:301-331 | for all non-zero secrets and randomness, every count and every target in 1..count, the receiver decrypts exactly the message encrypted at position target |
| ShareMessages.OpensNoOther | bench/proxyot.go:301-331 | with the key of the revealed point the session point of position i comes back if and only if i is the choice, or two distinct points derived one key |
| ShareMessages.ShareOne | bench/proxyot.go:164-183 | the same from key generation and encryption on |
| Merkle.ComputePair | merkle/merkle.go:62-67 | the hash of the left node followed by the right one |
| Merkle.ComputeLayer | merkle/merkle.go:51-60 | the loop and its odd-node case compute the next layer |
| Merkle.NewTree | merkle/merkle.go:36-49 | nil for no leaves; otherwise the root, after a number of passes that is the tree's height |
| Merkle.NodeChildren | merkle/merkle.go:51-67 | a node above more leaves than one subtree holds is the hash of its left child followed by its right child |
| Merkle.SmallRoots | merkle/merkle.go:36-67 | the roots of one, two and three leaves, written out |
| Merkle.HeightLeast | merkle/merkle.go:42-44 | the height is the least h with 2^h >= n |
| Merkle.RootTopDown | merkle/merkle.go:36-60 | the bottom-up loop computes the hash of the top-down node: one subtree hashed alone, or two split after the first 2^(h-1) leaves |
| Merkle.RootBinds | merkle/merkle.go:36-67 | equal roots of different leaf lists of one height, of any lengths, yield two distinct inputs with one hash |
| Merkle.RootAcrossHeights | merkle/merkle.go:36-67 | with different heights the roots are equal if and only if the lower list is the other's layer at that height, or a collision is at hand |
| Merkle.RootNotBindingAcrossHeights | merkle/merkle.go:36-67 | a two-leaf tree and a one-leaf tree with the same root |
| Chameleon.ComputeHash | chash/chameleon.go:24-29 | the digest of m times the base plus the pairing of Y and R |
| Chameleon.ComputeCollision | chash/chameleon.go:38-47 | the new randomness, its point, and the hash of the new message under it |
| Chameleon.HashPointForm | chash/chameleon.go:24-29 | the hashed point has the exponent m + y r modulo q |
| Chameleon.CollisionValue | chash/chameleon.go:38-44 | the new randomness is the residue of x r + m - m' times the inverse of x, and that product is not reduced |
| Chameleon.CollisionUnreduced | chash/chameleon.go:38-44 | a concrete collision modulo 5 whose randomness is 16 |
| Chameleon.CollisionKeepsPoint | chash/chameleon.go:38-47 | with Y = xG1 and x invertible the collision has the old hashed point, for all messages |
| Chameleon.CollisionNeedsTrapdoor | chash/chameleon.go:38-47 | under another public key it has it if and only if the keys, or the messages, agree modulo q |
| Chameleon.ChainKeepsHash | chash/chameleon.go:38-47 | any chain of collisions on unreduced randomness keeps the hash, with randomness at most (q-1)^2 |
| BlockStore.MemFileObj.GetBlock | fileobj/file_mem.go:63-70 | the block, padded with zeros, or the index error; for a negative number the panic, or the bytes at the wrapped offset |
| BlockStore.MemFileObj.SetBlock | fileobj/file_mem.go:72-84 | replaces one block by its in-file prefix and no other, keeps file size and block count, and fails without effect; for a negative number the panic, or a write at the wrapped offset |
| BlockStore.BlockCountExact | fileobj/file_mem.go:55-61 | a block number is below the block count if and only if the block starts inside the file |
| BlockStore.BlockByte | fileobj/file_mem.go:63-70 | byte i of a block is that byte of the file, or zero past its end |
| BlockStore.ObjectCovered | fileobj/file_mem.go:55-70 | every byte of the file is in a block below the block count, at its place |
| BlockStore.BlocksJoin | fileobj/file_mem.go:55-70 | the blocks one after the other, cut at the file size, are the file |
| BlockStore.NegativeBlockAliases | fileobj/file_mem.go:63-70 | a negative block number whose offset wraps to block 0, and one whose offset is negative |
| BlockStore.SetBlocks | fileobj/file_mem.go:72-84 | any run of SetBlock calls on one file leaves, in the same array, the list of blocks with each write's kept part put in turn |
| BlockStore.LastWriteWins | fileobj/file_mem.go:63-84 | in the blocks such a run leaves, a block written is the kept part of the last write to it |
| BlockStore.UnwrittenStays | fileobj/file_mem.go:63-84 | ... and a block not written is the one from before |
| BlockStore.ReadsBack | fileobj/file_mem.go:63-84 | a block reads back as written if and only if whatever reaches past the file was zero |
| BlockStore.DoesNotReadBack | fileobj/file_mem.go:63-84 | a block of two bytes that a one-byte file does not give back |
| Storage.UpdatesKeepRoot | bench/bench_cs.go:97-133 | after any finite run of updates every leaf still verifies and the root is unchanged |
| Storage.ApplyChanges | chash/chameleon.go:32-47 | a run of ComputeCollision calls, each on the randomness the last one left, passes Verify against the original leaf every time, and leaves the messages and randomness of the update function |
| Storage.LastChangeStays | chash/chameleon.go:38-47 | in what such a run leaves, each block has the last message it was moved to |
| Storage.UnchangedStays | chash/chameleon.go:38-47 | ... and a block that was not moved keeps its message and randomness |
| Storage.MessageExact | bench/bench_cs.go:105-107 | a block's message is the number its digest spells, reduced modulo q |
| Storage.OtherBlockVerifies | chash/chameleon.go:32-47 | a block verifies by digest under a hash moved to another if and only if it is that block, or the two blocks collide modulo q, or two points collide under SHA-256 |
| Storage.FileUpdateVerifies | fileobj/file_mem.go:72-84 | the block the file keeps of a write verifies by digest under the hash moved to that write if and only if the part past the file was zero, or there is one of those two collisions |
| Storage.FullBlockVerifies | fileobj/file_mem.go:72-84 | in a file of whole blocks it always does |
| Storage.UpdateBlock | fileobj/file_mem.go:63-84 | GetBlock, ComputeCollision, SetBlock, GetBlock and Verify in turn: the file's new blocks, the new randomness, and a verdict that is true whenever the part past the file was zero |
| Storage.RunCSFigure1 | bench/bench_cs.go:68-135 | hashes every block, builds the tree over the hashes, and never reports an invalid collision |
| Storage.RunCSFigure2 | bench/bench_cs.go:195-238 | never reports an invalid collision, and the i-th cost is i times 128 plus the block size |

## Left out

- Curve.DeriveFieldElement: the loop has no bound of its own, so that the hash chain meets a non-zero digest is a hypothesis (a ghost bound); the result does not depend on the bound.
- ShareMessages.Transfer: takes the same hypothesis for every marshalled G1 point.
- Wire.SkipMsg: buffers within 8 bytes of the int64 maximum are excluded, because `iNdEx += 8` there is unchecked.
- Messages.RoundTrip: nil and empty byte slices are one value, as they are on the wire.
- The reuse of a bytes field's old buffer by `append(m.Lpp[:0], ...)`, and so what another holder of that slice would see.
- The other six message classes: their methods repeat the shapes of the two modelled; the theorems about schemas cover their formats.
- MessagePool.CompletesIff: writer preference and fairness of `sync.RWMutex` are not modelled; a waiting writer does not hold up new readers. The safety results cover every schedule; progress rests on this alone: whoever holds the lock can step, and when nobody does, every call that waits for it can.
- The MessagePool object is modelled as a state machine on values, not as a class, because its calls interleave within their bodies.
- Responses that arrive before their Wait registers: Push then fails, as in the source, and no delivery is claimed for them.
- BlockStore.MemFileObj.constructor: a block size of 0 and negative sizes are excluded; the source panics on them. Files end below the int64 maximum.
- Chameleon.ComputeCollision: messages and randomness are not negative, as every caller's are, and x has an inverse; without one the source multiplies by a nil number. The re-keys of ProxyReEncryption exclude the same.
- Secrecy: nothing is said about what a party cannot learn, and no hash is assumed collision-free.
- The marshalled form of points, and the group law itself: points are exponents, so the curve arithmetic of bn256 is not part of this model.
- RandomFieldElement, crypto/rand and math/rand: their results are parameters.
- Full PKCS#7 validation, which removePKCSPadding does not do either.
- Network streams, handlers and the node itself (`node/node.go`, `node/protocol/ot.go`, `pre.go`, `storage.go`), and the stream helpers of `protocol.go`.
- The file on disk (`fileobj/file.go`), the other benchmarks, clocks, averages and JSON output.
- Errors of readers, writers and the random source inside the closures.
