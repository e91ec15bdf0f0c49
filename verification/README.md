# The data plane of go-vnet, in Dafny

This project models the part of the VPN that touches packets: how a transport frames, batches,
compresses and encrypts them in two shared buffers, how the router finds a destination, how route
tables are kept equal between client and server, how long messages are cut into datagrams and put
together again, how the hub splits a device read among destinations, and how tokens, quotas and
addresses are handed out.

Code that works in place is modelled in place: `Transport` owns two 65535-byte arrays and works on
slices of them, `Trie` is a heap of nodes with child pointers, `Reassembler`, `Router` and
`IpAllocator` are objects whose methods change their fields. Each method is proved equal to a
function on values, and the theorems are about those functions. The lock-free parts (`Limiter`,
`Quota`, `ConcurrentRegister`) are state machines over single atomic operations; their theorems hold
for every number of threads and every schedule. Compressor, cipher and random source are
parameters, constrained only by inverse laws and size laws (`Codec.LawsAreSatisfiable` shows that the
laws can be met).

`dafny verify dfyconfig.toml` checks everything.

| file | what it holds |
|---|---|
| `Bytes`, `Codec` | bytes and big-endian integers; the laws of compressor and cipher |
| `Wire`, `Batch` | what goes over the wire, as functions on values; all round trips and length bounds |
| `Slices`, `Transport`, `Link` | the same in place; two transports joined end to end |
| `Prefixes`, `Cidr`, `Tables`, `RouteHash`, `FamilyHash` | bits, addresses and their texts; longest match, enumeration and hash input of a table and of a router |
| `Trie`, `Router`, `Sync` | the heap trie, the router object, and the exchange that makes two routers agree |
| `ConcurrentRegister`, `ConcurrentLookup`, `LookupRaces`, `Linearizability`, `Progress` | any number of registrations and lookups on one trie at once |
| `Fragments`, `Reassembly` | fragment headers, the table of partial messages, and whole runs of sender and receiver |
| `Int64`, `Limiter`, `Quota`, `QuotaOverrun` | wrap-around arithmetic, the token bucket, the usage counter |
| `HubTx`, `IpPool` | the transmit loop and the address allocator |

## What turned out to be false, and exactly when it holds

- **Length guards.** The code accepts bodies of up to 65530 bytes, but only 65528 fit behind the
  header; 65529 and 65530 run off the buffer, and zstd refuses payloads over 65508 bytes
  (`Wire.WriteDomain`; `Wire.PlainRunsOff` is the example).
- **Batch budget.** The splitter reserves 16 bytes for encryption where 43 are needed, and the second
  compression target of a batch is always too small. `Batch.ChunkDomain` gives the exact lengths that
  go out, `Batch.RefusedPacket` a packet that is accepted and then refused.
- **Short bodies.** ParseBatch never looks at the length of its input, only at its capacity. Bytes behind a
  complete body do not matter (`Batch.ParsePrefix`), but a short body is completed from them
  (`Batch.StaleByte`).
- **Dead branches.** The pointer comparison that skips encryption is never true, so an encrypting
  transport never emits a plain batch frame (`Batch.BatchIsWrapped`); the full-batch branch of the hub
  is never reached (`HubTx.AppendHop`).
- **Lookups during registrations.** A lookup that ends at a missing child checks its last node once more, and
  may then return a route that was the longest match at no moment. On any trie, every lookup of every run
  answers as the table of one moment if and only if there is no race: two registrations with different
  targets, one prefix properly inside the other, both on the way to an address looked up, where the trie
  ends at or above the shorter one and its target is not what is found in any case
  (`Linearizability.LinearizableIff`). On an empty trie every such pair is a race
  (`Linearizability.EmptyTrieIff`, with `Linearizability.ClashExample` as the example).
- **Hash of a table.** Prefixes are hashed without separators. Within one family, equal hash inputs mean equal
  tables if and only if all prefixes have one common length between 1 and 127
  (`RouteHash.IdentifiesIffUniform`); `RouteHash.Collision` builds two tables that collide for any two
  lengths. The router hashes IPv4 and IPv6 into one stream, again without a separator. That
  identifies the two tables if and only if, besides, no bit string is increasing both in words of the IPv4
  length and in words of the IPv6 length (`FamilyHash.BothFamiliesIff`). Any short IPv4 table looks like
  one IPv6 route (`FamilyHash.AcrossFamilies`).
- **The client's own route.** It is recognised by a text prefix, so a client at 10.0.0.1 takes 10.0.0.10 for
  itself and never reaches it (`Sync.NeighbourLost`). `Sync.NilIff` says exactly which host routes get nil.
- **Single-destination fast path.** It hands on packets that have no route. It is right if and only if
  every packet has one (`HubTx.FastPathFaithful`, `HubTx.TxRound`).
- **Draining a queue.** A first event with more packets than a batch write holds is an index error. Otherwise
  nothing is lost if and only if the whole queue fits one batch write or some number of its events fills one
  exactly (`HubTx.Drain`, with `HubTx.LosesPacket` as the example).
- **Long messages.** The fragment count is 16 bits wide. A message survives `Send` and `Receive` if and
  only if it is short and does not look like a fragment, or needs at most 65535 fragments
  (`Reassembly.SendRoundTrip`).
- **Repeated fragments.** A message is returned at least once if and only if all its fragments have arrived
  (`Reassembly.ReturnedIff`), but repetition after completion starts it again: it is returned as often as
  stretches with all its fragments can be cut from the run (`Reassembly.ReturnedAsOften`). Without such
  repetition it is returned exactly once (`Reassembly.ExactlyOnce`).
- **Address range.** The allocator keeps to the inside of its network if and only if the prefix is at most 24
  bits (`IpPool.StaysInsideIff`), offsets that wrap aside; an offset stays in the range if and only if
  the 32-bit sum does not wrap (`IpPool.OffsetInRangeIff`), and every network has an offset that does
  (`IpPool.OffsetsEscape`, with `IpPool.WrappedOffset` as the example).
- **Mapped texts.** IPv6 text in ::ffff:0:0/96 is taken for IPv4. Registering such a prefix of 96 bits or more
  runs off the IPv4 address (`Router.Router.Register`). The allocator marks texts, not addresses: a mapped
  text marks an address a second time (`IpPool.AssignTwice`), and without such texts no address is held
  twice (`IpPool.IpAllocator.OnceWithoutAliases`).
- **Token counts.** Requests and returns are multiplied by a million in 64 bits. A request is charged in full
  if and only if it does not wrap, or wraps to more than the burst (`Limiter.ChargeableIff`); any other
  one breaks the rate bound when it is the very first (`Limiter.UnchargeableBreaks`). A return keeps the
  bucket between empty and full if and only if it does not overflow a full bucket
  (`Limiter.ReturnableIff`); any other one leaves it negative in a run of its own
  (`Limiter.UnreturnableBreaks`, with `Limiter.OversizedPutBack` as the example).
- **Burst.** Two threads can return the same grant. The bucket stays between empty and full in all runs if and
  only if twice the burst fits 64 bits (`Limiter.ContainedIff`).
- **Quota.** The comments promise that a commit closes the quota; the code does not close it and never
  reads the used amount again. Between commits the limit holds up to one value per thread
  (`Quota.OverrunIsBounded`), if and only if the quota is exceeded from the start, or the sum in the check
  cannot wrap, or the counter cannot get that far (`QuotaOverrun.OverrunIff`, with
  `QuotaOverrun.LargeQuotaWraps` as the example). Across commits acceptance is unbounded if and only if
  the quota is open at the start, and nothing at all is accepted otherwise (`Quota.UnboundedIffOpen`, with
  `Quota.TenAcceptsEleven` as the example).

## Model

| member | source | states |
|---|---|---|
| `Codec.EncryptRoundTrip` | common/protocol/encryptor.go:75-133 | Given room for nonce and tag, Encrypt succeeds, yields exactly 40 bytes more than its input, and Decrypt gives the input back |
| `Codec.CompressRoundTrip` | common/protocol/compressor.go:81-149 | Whatever Compress accepts, Decompress restores |
| `Codec.CapacityIff` | common/protocol/compressor.go:81-113 | Encryption fails if and only if the target has fewer than 40 bytes more than the input, compression if and only if fewer than 17 |
| `Codec.DecodeIff` | common/protocol/encryptor.go:103-133 | Decrypt and Decompress return a plaintext if and only if nonce, code and capacity are right for it |
| `Wire.OpenInnerRoundTrip` | common/protocol/protocol.go:473-486 | Taking type, length and data apart undoes putting them together |
| `Wire.InflateUndoesShrink` | common/protocol/protocol.go:488-522 | The decompression stage undoes the compression stage, whether or not the compressed form was chosen |
| `Wire.UnsealUndoesSeal` | common/protocol/protocol.go:456-486 | The decryption stage undoes the encryption stage; sealing costs 43 bytes |
| `Wire.UnwrapUndoesWrap` | common/protocol/protocol.go:540-655 | Both layers together are undone by the reader, for every setting of the writer's switches |
| `Wire.ReadFrameOfFrame` | common/protocol/protocol.go:430-452 | One read consumes exactly one frame, whatever follows it |
| `Wire.MessageRoundTrip` | common/protocol/protocol.go:430-531 | After a successful WriteMessage of any type but the two reserved ones, ReadMessage with the same layers returns the same type and bytes and leaves the rest of the stream alone |
| `Wire.DeflateDomain` | common/protocol/protocol.go:540-587 | Compression fails if and only if it is on for the type and the payload is at or over the threshold and over 65508 bytes |
| `Wire.WriteDomain` | common/protocol/protocol.go:536-681 | For every message: capacity error, run-off, refusal or success, each if and only if the payload and the final body length lie in its interval |
| `Wire.PlainRunsOff` | common/protocol/protocol.go:662-681 | A plain payload of 65529 bytes passes the guard and does not fit |
| `Wire.FrameBytes` | common/protocol/protocol.go:662-681 | A frame byte by byte: magic, type, length with the high byte first, body |
| `Wire.DeflateIs` | common/protocol/protocol.go:540-587 | A message is sent compressed if and only if compression is on for its type, it is at or over the threshold and its compressed form is smaller |
| `Wire.FrameForm` | common/protocol/protocol.go:536-681 | Every frame sent, from options, message and nonce alone: with an encryptor on, types 0x00, 0x01 and 0x10 go out sealed under type 0x11; a frame has type 0x11 if and only if that is so or the caller asked for it |
| `Wire.ReadErrors` | common/protocol/protocol.go:430-452 | A wrong magic, a short header, a length over 65528 and a short body are refused, each with what is left of the stream |
| `Wire.OpenInnerIff` | common/protocol/protocol.go:473-486 | An opened layer yields an inner message if and only if the plaintext begins with it; a length of 65533 or more wraps past the check and runs off the buffer |
| `Wire.UnsealOdd` | common/protocol/protocol.go:463-486 | Plaintext that is no inner message is handed on as it is, under the type its first byte names |
| `Wire.BodyErrors` | common/protocol/protocol.go:454-522 | A body is opened only with the layers its type names, and refused when they are missing or reject it |
| `Batch.ParseSizesRoundTrip` | common/protocol/protocol.go:392-404 | The size table is read back as the packet lengths |
| `Batch.CutRoundTrip` | common/protocol/protocol.go:406-421 | Concatenated packets are cut back into themselves |
| `Batch.ParseRoundTrip` | common/protocol/protocol.go:390-423 | ParseBatch of a batch body gives the packets back |
| `Batch.ParsePrefix` | common/protocol/protocol.go:390-423 | Bytes behind a complete body do not change what is parsed |
| `Batch.ParseIff` | common/protocol/protocol.go:390-423 | For all bytes and packets: ParseBatch yields these packets if and only if the bytes begin with their body |
| `Batch.BodyBytes` | common/protocol/protocol.go:243-270 | A batch body byte by byte: the count, the sizes with the high byte first, the packets |
| `Batch.StaleByte` | common/protocol/protocol.go:390-423 | Every body that is one byte short fails by itself and is parsed with the byte that lies behind it |
| `Batch.InflateUndoesDeflateBatch` | common/protocol/protocol.go:272-325 | The batch compression stage is undone by the reader and never makes the body longer |
| `Batch.UnwrapChunk` | common/protocol/protocol.go:272-386 | A final body fits the buffers, unwraps to its batch, and is encrypted whenever an encryptor is on |
| `Batch.ChunkRoundTrip` | common/protocol/protocol.go:231-386 | A chunk's frame is read back as that chunk's batch message |
| `Batch.TakeIsMaximal` | common/protocol/protocol.go:205-220 | The splitter's chunk fits the budget and the packet limit, and one more packet would break one of them |
| `Batch.TakeIsUnique` | common/protocol/protocol.go:205-220 | Only one chunk length has that property |
| `Batch.ChunkBounds` | common/protocol/protocol.go:194-229 | At most 128 packets and 65528 body bytes per chunk, and every length fits its 16-bit field |
| `Batch.ChunkDomain` | common/protocol/protocol.go:231-336 | A chunk is emitted if and only if compression is off, below its threshold or given at most 32756 bytes, and, with encryption, the final body is at most 65485 |
| `Batch.RefusedPacket` | common/protocol/protocol.go:205-336 | A packet of 65496 bytes is accepted by the splitter and refused by encryption |
| `Batch.FirstChunk` | common/protocol/protocol.go:205-220 | A chunk takes as many packets as fit 65526 bytes, 65510 with an encryptor, up to 128; none if and only if the first alone does not fit |
| `Batch.OneChunk` | common/protocol/protocol.go:205-220 | Packets that fit one chunk are one chunk |
| `Batch.DeflateBatchIs` | common/protocol/protocol.go:272-325 | A batch is sent compressed if and only if compression is on, it is at or over the threshold and its compressed form is smaller |
| `Batch.ChunkForm` | common/protocol/protocol.go:231-386 | Every batch frame sent, from options, packets and nonce alone |
| `Batch.GoesIff` | common/protocol/protocol.go:231-386 | A chunk goes out if and only if its lengths, in numbers, allow it |
| `Batch.BatchDoneIff` | common/protocol/protocol.go:194-229 | BatchWrite succeeds if and only if no packet is too large for a chunk and every chunk goes out |
| `Batch.PlainBatchIff` | common/protocol/protocol.go:194-229 | Without layers: if and only if no packet has more than 65524 bytes |
| `Batch.SealedBatchIff` | common/protocol/protocol.go:194-336 | With an encryptor alone: if and only if no packet has more than 65508 bytes and no chunk a body of more than 65485 |
| `Batch.OneFrame` | common/protocol/protocol.go:194-229 | A batch that fits one chunk is sent as one frame, whose length is returned |
| `Batch.ErrorCounts` | common/protocol/protocol.go:203-227 | What a call that stops early returns: the last frame's length when a packet fits no chunk, 0 when a chunk fails |
| `Batch.BatchStep` | common/protocol/protocol.go:203-227 | One round of the loop relates what was sent before and what is still to come |
| `Batch.BatchFrames` | common/protocol/protocol.go:194-229 | A successful call sends exactly the frames of its chunks, in order |
| `Batch.ChunkIsWrapped` | common/protocol/protocol.go:327-386 | A frame is at most 65535 bytes, and of type 0x11 if an encryptor is on |
| `Batch.BatchIsWrapped` | common/protocol/protocol.go:194-386 | The same of every frame of a call, even one that fails later |
| `Batch.ChunksBounded` | common/protocol/protocol.go:194-229 | All chunks of a list keep the bounds and hold only packets of the list |
| `Batch.ChunksCover` | common/protocol/protocol.go:194-229 | The chunks of a successful call concatenate to the packet list |
| `Batch.BatchRoundTrip` | common/protocol/protocol.go:194-423 | Reading and parsing the frames of a successful BatchWrite gives the packets in order; the count returned is the number of bytes sent |
| `Batch.CallsDelimit` | common/protocol/protocol.go:187-229 | Every frame of any sequence of successful calls is self-delimiting |
| `Batch.StreamRoundTrip` | common/protocol/protocol.go:430-452 | Repeated ReadMessage recovers the frames of any mix of WriteMessage and BatchWrite calls, in order, with nothing left over |
| `Slices.Copy` | common/protocol/protocol.go:676-678 | memmove: the target holds what the source held before, nothing else changes, overlap or not |
| `Slices.StoreInner` | common/protocol/protocol.go:554-556 | Type, length and data are laid out without overwriting data still to be copied |
| `Slices.CompressInto` | common/protocol/compressor.go:81-113 | In-place form of Compress; source and target must not overlap |
| `Slices.EncryptInto` | common/protocol/encryptor.go:75-97 | In-place form of Encrypt; source and target must not overlap |
| `Slices.DecryptInto` | common/protocol/encryptor.go:103-133 | In-place form of Decrypt, with its capacity errors |
| `Slices.DecompressInto` | common/protocol/compressor.go:118-149 | In-place form of Decompress, with its capacity errors |
| `Transport.Transport.constructor` | common/protocol/protocol.go:139-152 | Two separate buffers of 65535 bytes |
| `Transport.Transport.SendFrame` | common/protocol/protocol.go:378-386 | Header and body go out as one frame, even when the body already lies in the buffer |
| `Transport.Transport.WriteRawMessage` | common/protocol/protocol.go:662-694 | Emits the frame, or fails exactly as the value form does |
| `Transport.Transport.DeflateInPlace` | common/protocol/protocol.go:540-587 | The compression stage on both buffer paths equals the value form |
| `Transport.Transport.SealInPlace` | common/protocol/protocol.go:589-655 | The encryption stage on both buffer paths equals the value form; the pointer test is never true |
| `Transport.Transport.WriteMessage` | common/protocol/protocol.go:536-659 | Sends exactly the value form's frame, or nothing and its error |
| `Transport.Transport.LayOut` | common/protocol/protocol.go:243-270 | The batch body is built in the buffer byte for byte |
| `Transport.Transport.DeflateBatchInPlace` | common/protocol/protocol.go:272-325 | The batch compression stage equals the value form; its second branch always fails for lack of capacity |
| `Transport.Transport.SealBatchInPlace` | common/protocol/protocol.go:327-376 | The batch encryption stage equals the value form, on both scratch buffers |
| `Transport.Transport.BatchWriteChunk` | common/protocol/protocol.go:231-386 | Sends exactly one chunk's frame, or nothing and its error |
| `Transport.Transport.ChunkEnd` | common/protocol/protocol.go:205-220 | The loop finds the unique maximal chunk |
| `Transport.Transport.BatchWrite` | common/protocol/protocol.go:194-229 | Frames, count and error of the whole call, including what is returned when a packet fits no chunk |
| `Transport.Transport.ParseBatch` | common/protocol/protocol.go:390-423 | From what the capacity of its input gives access to, copies the packets into distinct rows and reports their sizes, or fails when rows, sizes or data are too short |
| `Transport.Transport.ReadMessage` | common/protocol/protocol.go:430-531 | Type, length and data of the next frame, and what remains of the stream, for every input; only the target's first bytes change |
| `Link.Relay` | common/protocol/protocol.go:430-659 | Two transports, in place: what one writes the other reads, byte for byte, with an empty stream left; without layers it gets through if and only if it has at most 65528 bytes |
| `Link.RelayBatch` | common/protocol/protocol.go:194-531 | BatchWrite on one, ReadMessage and ParseBatch on the other until the stream is empty: the same packets in the same order; without layers if and only if no packet has more than 65524 bytes |
| `Prefixes.BinaryIsShift` | common/router/router.go:206-208 | The shift-and-mask of the walk reads bit i, most significant first |
| `Prefixes.BitsOfPack` | common/router/router.go:500-508 | Bits packed into bytes read back as those bits |
| `Prefixes.NetworkBits` | common/router/router.go:492-544 | The network address of a prefix starts with the prefix and has zero host bits |
| `Cidr.NumeralRoundTrip` | common/router/router.go:568-593 | Decimal and hexadecimal numerals parse back to their number |
| `Cidr.PrintNumeral` | common/router/router.go:568-593 | The digit loops print the numeral |
| `Cidr.NumeralDigits` | common/router/router.go:568-593 | Digit by digit, the digits are 0 to 9 and a to f |
| `Cidr.AddressRoundTrip` | common/router/router.go:547-565 | Printed IPv4 and IPv6 addresses parse back |
| `Cidr.DottedDecimal` | common/router/router.go:547-553 | IPv4 is printed as four decimal numbers with dots between |
| `Cidr.ColonHexadecimal` | common/router/router.go:554-565 | IPv6 is printed as eight hexadecimal groups with colons between |
| `Cidr.CidrRoundTrip` | common/router/router.go:492-544 | The CIDR text of every prefix of up to 32 or 128 bits parses back to it |
| `Cidr.CidrInjective` | common/router/router.go:492-544 | No two prefixes of either family share a text |
| `Cidr.HostBitsDropped` | common/router/router.go:99-120 | An address with host bits set names its network; a length the family does not have is refused |
| `Cidr.ShortForm` | common/router/router.go:77-120 | IPv6 text with "::" parses to the groups around it with zeros in between |
| `Cidr.DottedIsCanonical` | common/router/router.go:77-120 | A dotted text that parses is the text that is printed: no leading zeros |
| `Cidr.MappedRoundTrip` | common/router/router.go:77-94 | "::ffff:" before a dotted address is read as that IPv4 address |
| `Cidr.MappedIsLong` | common/router/router.go:99-143 | Only prefixes of 96 bits or more have a mapped network address |
| `Cidr.SetBits` | common/router/router.go:500-508 | The packing loop leaves the prefix followed by zeros in the array |
| `Cidr.ClearHostBits` | common/router/router.go:509-519 | Masking the host bits changes nothing |
| `Cidr.PrefixToCidr` | common/router/router.go:492-544 | prefixToCIDR prints exactly that text |
| `Tables.BestIsLongest` | common/router/router.go:189-237 | The match is the target of the longest live prefix |
| `Tables.EnumerateMembers` | common/router/router.go:468-489 | A subtree's enumeration holds a prefix if and only if it is live, below the node and within reach |
| `Tables.EnumerateSorted` | common/router/router.go:468-489 | Enumeration is in prefix order |
| `Tables.SortedUnique` | common/router/router.go:468-489 | An ordered list is determined by its members |
| `Tables.KeysComplete` | common/router/router.go:172-184 | Every live prefix shorter than 128 bits is listed exactly once, in order, and nothing else |
| `RouteHash.HashInputOfKeys` | common/router/router.go:440-460 | Keys and hash input depend only on the live prefixes shorter than 128 bits |
| `RouteHash.TextBelowIs` | common/router/router.go:440-460 | Writing branch by branch yields the concatenation of the enumerated prefixes |
| `RouteHash.UniformIdentifies` | common/router/router.go:440-460 | Within a family of one common prefix length, equal hash inputs mean equal tables |
| `RouteHash.Invisible` | common/router/router.go:440-460 | A default route, or one of 128 bits, leaves no trace in the hash input |
| `RouteHash.Collision` | common/router/router.go:440-460 | For any two lengths there are two different tables with one hash input |
| `RouteHash.IdentifiesIffUniform` | common/router/router.go:440-460 | The hash input of one family identifies its tables if and only if all prefixes have one length between 1 and 127 |
| `FamilyHash.OneFamilyIff` | common/router/router.go:146-151 | With one family empty, the hash input of the router identifies its tables under the same condition, if and only if |
| `FamilyHash.AcrossFamilies` | common/router/router.go:146-151 | An IPv4 table of fewer than 128 bits in all has the hash input of a single IPv6 route |
| `FamilyHash.SharedLength` | common/router/router.go:146-151 | A length used in both families spoils identification |
| `FamilyHash.DoubleLength` | common/router/router.go:146-151 | So do a length in IPv4 and its double in IPv6 |
| `FamilyHash.BothFamiliesIff` | common/router/router.go:146-151 | For any sets of lengths, the hash input of the router identifies its tables if and only if each family has one length between 1 and 127 and no bit string is increasing in words of both lengths |
| `FamilyHash.OneBitWords` | common/router/router.go:146-151 | One-bit prefixes next to prefixes of three bits or more have no such string |
| `Trie.Trie.constructor` | common/router/router.go:26-33 | An empty trie stands for the empty table |
| `Trie.Trie.Grow` | common/router/router.go:254-272 | Hanging a new node keeps the trie well formed and its table unchanged |
| `Trie.Trie.SetTarget` | common/router/router.go:277-278 | Storing or clearing a target changes the table at that prefix only |
| `Trie.Trie.Walk` | common/router/router.go:249-275 | The walk of insert creates nodes, changes no route and ends at the node of the prefix |
| `Trie.Trie.Insert` | common/router/router.go:240-279 | The table gains or replaces exactly the prefix |
| `Trie.Trie.Find` | common/router/router.go:287-307 | The walk of remove ends at the node of the prefix if and only if there is one |
| `Trie.Trie.Remove` | common/router/router.go:282-311 | The table loses exactly the prefix, present or not |
| `Trie.Trie.Lookup` | common/router/router.go:189-237 | The longest live prefix of the address decides; a miss if and only if none is live |
| `Trie.Trie.CollectRoutes` | common/router/router.go:468-489 | The traversal equals the enumeration of the table, dead nodes notwithstanding |
| `Trie.Trie.CollectMd5` | common/router/router.go:440-460 | The traversal that skips dead branches writes the same text as one that does not |
| `Trie.Trie.HashText` | common/router/router.go:440-460 | One family's hash input is that of its table, whatever the history |
| `Router.DestinationIff` | common/router/router.go:37-73 | A byte string has destination d if and only if it is header, d and rest of an IPv4 or IPv6 packet, with options counted by the header length |
| `Router.LookUpIs` | common/router/router.go:189-237 | An address of either family finds the target at the longest of its prefixes in its own family's table |
| `Router.LookUpNone` | common/router/router.go:189-237 | and nothing if and only if its width is wrong or none of its prefixes is there |
| `Router.RouteIs` | common/router/router.go:37-73 | A packet of either family is routed to the target at the longest prefix of its destination in that family's table |
| `Router.RoutedIff` | common/router/router.go:37-73 | A byte string has a route if and only if it is a packet and some prefix of its destination is in that family's table |
| `Router.TextRouted` | common/router/router.go:77-94 | The text of an address is routed as the address: IPv4 plain or mapped, IPv6 unless it lies in ::ffff:0:0/96, which counts as IPv4 |
| `Router.MatchedIs` | common/router/router.go:157-168 | The hit count is the number of packets that have a route |
| `Router.OverlongIff` | common/router/router.go:99-143 | The prefixes that panic are exactly the IPv6 ones inside ::ffff:0:0/96 |
| `Router.HashTextOfTwo` | common/router/router.go:146-151 | With one route in each family, the IPv4 bits are hashed before the IPv6 bits |
| `Router.Router.Route` | common/router/router.go:37-73 | The route that RouteIs and RoutedIff describe, for every byte string |
| `Router.Router.RouteBatch` | common/router/router.go:157-168 | Every slot gets its packet's target or nil, and the count is the one MatchedIs describes |
| `Router.Router.RouteString` | common/router/router.go:77-94 | Longest match of an address text, mapped IPv6 texts taken for IPv4 |
| `Router.Router.Register` | common/router/router.go:99-120 | Exactly the parsed prefix is set; a malformed text changes nothing; a mapped one of 96 bits or more panics without changing a route |
| `Router.Router.UnRegister` | common/router/router.go:124-143 | Exactly the parsed prefix is removed; a malformed text changes nothing; a mapped one of 96 bits or more changes nothing, and panics if and only if all nodes of its address exist |
| `Router.Router.Insert6` | common/router/router.go:366-403 | The IPv6 half of Register, which leaves IPv4 alone |
| `Router.Router.Remove` | common/router/router.go:406-435 | The removing half of UnRegister, in either family |
| `Router.Router.HashText` | common/router/router.go:146-151 | The hash input is that of the IPv4 table followed by that of the IPv6 table |
| `Router.Router.Keys` | common/router/router.go:178-184 | The CIDR texts of the enumerated prefixes, IPv4 first |
| `Sync.OwnAddressMatches` | vnet/client/sync_router.go:140-147 | A stale route is always found by the address in its own text, so it is removed |
| `Sync.RemoveStale` | vnet/client/sync_router.go:140-155 | In any order, exactly the routes the server does not have go away |
| `Sync.AddMissing` | vnet/client/sync_router.go:158-173 | In any order, exactly the missing routes are added, nil for those whose text begins like the client's own address |
| `Sync.NilIff` | vnet/client/sync_router.go:161-163 | A host route gets nil if and only if it shares three bytes with the client and its last number begins with the client's last number, in decimal |
| `Sync.NeighbourLost` | vnet/client/sync_router.go:161-163 | A client at 10.0.0.1 registers 10.0.0.10 with nil |
| `Sync.HostTarget` | vnet/client/sync_router.go:158-173 | A host route the client did not have gets nil in exactly those cases, and else a destination of its own |
| `Sync.HostRouted` | vnet/client/sync_router.go:158-173 | After a round, packets for a listed host go to its old target if it had one, and else to that |
| `Sync.RoundConverges` | vnet/client/sync_router.go:112-179 | After a round the key sets and the hash inputs are equal |
| `Sync.UpdateRouter` | vnet/client/sync_router.go:112-179 | The new table in full: the server's keys, with old targets kept and new ones dialled |
| `Sync.SyncRouter` | vnet/client/sync_router.go:28-39 | Updates if and only if the hash inputs differ, and leaves them equal |
| `Sync.SyncTwice` | vnet/client/sync_router.go:18-49 | Against an unchanged server the second synchronisation updates nothing |
| `Sync.HostRoutesAgree` | vnet/client/sync_router.go:28-39 | With /32 routes only, equal hash inputs mean equal key sets |
| `ConcurrentRegister.LinkKeeps` | common/router/router.go:254-272 | A successful compare-and-swap keeps the trie well formed and all routes unchanged |
| `ConcurrentRegister.StoreKeeps` | common/router/router.go:277-278 | The target store is the moment a registration takes effect, on its own prefix only |
| `ConcurrentRegister.WalkerMoves` | common/router/router.go:240-279 | A registration's step leaves it on the node of the bits it has read |
| `ConcurrentRegister.OtherWalker` | common/router/router.go:240-279 | and does not disturb any other registration, of the same prefix or another |
| `ConcurrentRegister.SearcherMoves` | common/router/router.go:189-237 | A lookup's step keeps what is known of the best target it has seen and of the moment it saw it |
| `ConcurrentRegister.OtherSearcher` | common/router/router.go:189-237 | and no registration disturbs that |
| `ConcurrentRegister.RunInv` | common/router/router.go:189-279 | The invariant holds in every reachable state, and named nodes keep their names |
| `ConcurrentRegister.WalkersOnPath` | common/router/router.go:366-403 | In every reachable state each registration's node is the one its bits lead to from the root |
| `ConcurrentRegister.LinksAreFinal` | common/router/router.go:254-272 | A child pointer, once set, never changes again |
| `ConcurrentRegister.RegistrationsLinearize` | common/router/router.go:240-279 | At every moment of every run the trie answers as the table in which the finished registrations were made in the order of their stores; of two for one prefix the later wins |
| `ConcurrentRegister.LogIsFinished` | common/router/router.go:277-278 | Those are the finished registrations, each as often as it was made, and all of them in the end |
| `ConcurrentRegister.OrderIsIrrelevant` | common/router/router.go:240-279 | With distinct prefixes any order gives the same table |
| `ConcurrentLookup.LookupAnswers` | common/router/router.go:189-237 | A lookup's answer is the longest match at the moment it was read, or was live when read with nothing longer live at an earlier moment of the lookup |
| `ConcurrentLookup.RunEnds` | common/router/router.go:206-224 | A lookup that leaves its loop early does so above a node that was not there at the start |
| `ConcurrentLookup.LateRace` | common/router/router.go:225-231 | An answer that was the longest match at no moment comes from a race |
| `ConcurrentLookup.LookupsLinearize` | common/router/router.go:189-279 | Without a race every lookup of every run, on any trie, answers as the table of one moment of the lookup |
| `Linearizability.RaceBreaks` | common/router/router.go:225-231 | With a race, on any trie, some schedule makes a lookup answer as the table of no moment |
| `Linearizability.LinearizableIff` | common/router/router.go:189-279 | On any trie all lookups of all runs are linearizable if and only if there is no race |
| `Linearizability.EmptyTrieIff` | common/router/router.go:189-279 | On an empty trie, if and only if no two registrations clash |
| `Linearizability.ClashExample` | common/router/router.go:189-279 | A default route, a longer one and a lookup under both clash |
| `Progress.WalkerAdvances` | common/router/router.go:249-279 | Every step of a registration, compare-and-swaps that lose included, brings it nearer to its end |
| `Progress.SearcherAdvances` | common/router/router.go:189-237 | So does every step of a lookup |
| `Progress.WaitFree` | common/router/router.go:189-279 | In every schedule a registration of n bits is finished after 3n + 2 steps of its own, and a lookup has answered after 3n + 3 |
| `Progress.FairRunEnds` | common/router/router.go:189-279 | A run that gives every thread its steps ends with exactly the registrations asked for in the log |
| `Progress.FairRunRegisters` | common/router/router.go:189-279 | and, if their prefixes are distinct, with a trie that answers as the table with all of them |
| `Fragments.DecodeEncode` | common/session/session_quic.go:44-78 | A header is read back if and only if its index is below its count |
| `Fragments.HeaderBytes` | common/session/session_quic.go:44-51 | A header byte by byte: D0 C0, then id, index and count with the high byte first |
| `Fragments.DecodeIff` | common/session/session_quic.go:53-78 | For all bytes: a datagram is read as this header and payload if and only if it is their concatenation and the index is below the count |
| `Fragments.AddIff` | common/session/session_quic.go:97-150 | A fragment hands out its message if and only if it was the only piece missing; the entry goes then and when the counts disagree, stays otherwise, and no other entry changes |
| `Fragments.AddKeepsTable` | common/session/session_quic.go:97-150 | Every entry keeps 1 <= received = filled slots < count under any valid header, mismatched counts and duplicates included |
| `Fragments.RunKeepsTable` | common/session/session_quic.go:97-150 | The same after every sequence of fragments |
| `Fragments.EntryExplained` | common/session/session_quic.go:97-150 | Every slot holds the first payload seen for it since the entry was created |
| `Fragments.DeliveryExplained` | common/session/session_quic.go:97-150 | A delivered message is the concatenation, in slot order, of those first payloads |
| `Reassembly.JoinPieces` | common/session/session_quic.go:183-203 | The pieces of a message join to the message |
| `Reassembly.Send` | common/session/session_quic.go:173-207 | The datagrams sent, with the 16-bit fragment count |
| `Reassembly.SentCount` | common/session/session_quic.go:173-181 | Up to 990 bytes go out as they are; more go out as one datagram for each 990 bytes, modulo 65536 |
| `Reassembly.SentForm` | common/session/session_quic.go:183-203 | Each is a header and its 990 bytes of the message, and never more than 1000 bytes |
| `Reassembly.TrackFrag` | common/session/session_quic.go:97-150 | One fragment's effect on the table and what it delivers, complete messages included |
| `Reassembly.AfterTracks` | common/session/session_quic.go:97-150 | In every reachable state the table holds exactly the messages with fragments since they were last complete, with exactly those pieces |
| `Reassembly.OutputIs` | common/session/session_quic.go:97-150 | An arrival returns its message if and only if it supplies the last fragment missing since the message was last complete |
| `Reassembly.ReturnedIff` | common/session/session_quic.go:97-150 | Over any sequence of arrivals a message is returned at least once if and only if each of its fragments has arrived |
| `Reassembly.ReturnedAsOften` | common/session/session_quic.go:97-150 | It is returned exactly as often as stretches with all its fragments can be cut, one after the other, from the sequence |
| `Reassembly.TableEmptyIff` | common/session/session_quic.go:97-150 | The table is empty if and only if no fragment has come since its message was last complete |
| `Reassembly.CompletionPoint` | common/session/session_quic.go:97-150 | A complete message was completed by one arrival, the first of its fragment |
| `Reassembly.ExactlyOnce` | common/session/session_quic.go:97-150 | With repetition only before completion, each message is returned once, by its last missing fragment, and by no other |
| `Reassembly.TableEmptied` | common/session/session_quic.go:97-150 | and the table is empty when all started messages are complete |
| `Reassembly.SentCovers` | common/session/session_quic.go:179-203 | Which part of a message the 16-bit count covers |
| `Reassembly.SendRoundTrip` | common/session/session_quic.go:173-246 | Exactly which messages survive Send followed by Receive |
| `Reassembly.Reassembler.AddFragment` | common/session/session_quic.go:97-150 | New table and result equal the value form |
| `Reassembly.Reassembler.Receive` | common/session/session_quic.go:209-246 | Returns the next message of the run, having used exactly the datagrams up to it |
| `Limiter.GeneratedBound` | common/rate/limiter.go:48-55 | The refill never exceeds rate times time, even when the product wraps |
| `Limiter.GeneratedExact` | common/rate/limiter.go:51-55 | Without wrap-around it is rate times time, rounded down to whole units |
| `Limiter.TokensExact` | common/rate/limiter.go:44-44 | A request's token count is exact if and only if it does not wrap |
| `Limiter.ClockStep` | common/rate/limiter.go:66-66 | Winning the clock pays for the refill about to be added |
| `Limiter.RefillStep` | common/rate/limiter.go:68-78 | Adding the refill keeps the account |
| `Limiter.ConsumeStep` | common/rate/limiter.go:85-92 | Taking tokens keeps the account |
| `Limiter.PutStep` | common/rate/limiter.go:133-143 | Putting tokens back keeps the account |
| `Limiter.StepInv` | common/rate/limiter.go:40-184 | Every atomic step of every thread keeps the invariant |
| `Limiter.RateIsBounded` | common/rate/limiter.go:40-163 | In every interleaving, 0 <= available <= burst, and granted + available + in flight <= burst + returned + rate * time / 1e9 |
| `Limiter.ChargeableIff` | common/rate/limiter.go:44-88 | A request is charged its true size at every level of the bucket if and only if it does not wrap to a grantable one |
| `Limiter.ReturnableIff` | common/rate/limiter.go:131-143 | A return keeps every level between empty and full if and only if it does not overflow a full bucket |
| `Limiter.UnchargeableBreaks` | common/rate/limiter.go:40-101 | Any request that is not chargeable breaks the bound in a run of its own |
| `Limiter.UnreturnableBreaks` | common/rate/limiter.go:126-163 | With a burst of whole tokens, any return that is not returnable leaves the bucket negative in a run of its own |
| `Limiter.OversizedPutBack` | common/rate/limiter.go:131-143 | A run in which a return leaves a bucket of one token negative |
| `Limiter.LargeBurstBreaks` | common/rate/limiter.go:126-184 | If twice the burst overflows, a run in which two threads return the same grant leaves the bucket negative |
| `Limiter.ContainedIff` | common/rate/limiter.go:22-184 | For whole-token bursts, every run of every number of threads keeps 0 <= available <= burst if and only if twice the burst fits int64 |
| `Limiter.SoloAllow` | common/rate/limiter.go:40-101 | A request that nobody interrupts is granted if and only if the bucket, refilled for the time that has passed and capped at the burst, holds its tokens; the whole new state either way |
| `Limiter.SoloPut` | common/rate/limiter.go:126-163 | A return that nobody interrupts fills the bucket up to the burst and reduces the last grant |
| `Limiter.SoloPutFromLast` | common/rate/limiter.go:167-184 | Returning all but `used` tokens of the last grant leaves `used` as the last grant |
| `Limiter.GrantAndReturn` | common/rate/limiter.go:40-184 | A grant returned in full leaves the bucket as full as if it had not been asked for |
| `Limiter.IdleCalls` | common/rate/limiter.go:40-184 | Calls for nothing, and returns of a grant that was used up, change nothing |
| `Limiter.RequestEnds` | common/rate/limiter.go:47-101 | In every reachable state, only taking its tokens or finding too few of them ends a request; a lost compare-and-swap does not |
| `Limiter.ReturnEnds` | common/rate/limiter.go:133-163 | A return goes on until it has landed |
| `Limiter.TokensAreConserved` | common/rate/limiter.go:40-184 | In every interleaving granted - returned + available + in flight grows by exactly the refills of the clock's winners, less what the cap cuts off |
| `HubTx.HopPacketsAreRouted` | vnet/client/hub/hub_tx.go:73-80 | The collected routes carry exactly the packets routed to each destination, in order |
| `HubTx.RoutedAt` | vnet/client/hub/hub_tx.go:73-80 | The packets owed to a destination are those whose route is that destination, each behind its predecessors, and no more |
| `HubTx.CountCoversHops` | common/router/router.go:157-168 | RouteBatch's count never cuts the collection short |
| `HubTx.CollectHops` | vnet/client/hub/hub_tx.go:73-80 | The loop that stops at the count collects every usable route |
| `HubTx.AppendHop` | vnet/client/hub/hub_tx.go:100-124 | A packet joins its destination's batch; the full-batch push is never reached |
| `HubTx.Aggregate` | vnet/client/hub/hub_tx.go:99-124 | Every destination's batch holds exactly its packets, in order |
| `HubTx.PushAll` | vnet/client/hub/hub_tx.go:129-136 | In any order, every destination is given exactly its batch |
| `HubTx.FastPathFaithful` | vnet/client/hub/hub_tx.go:82-97 | Pushing the whole event is right if and only if every packet has a route |
| `HubTx.Dispatch` | vnet/client/hub/hub_tx.go:82-137 | With one destination the event is pushed to it as it is, and to nobody else; with several each gets its own batch |
| `HubTx.TxRound` | vnet/client/hub/hub_tx.go:57-137 | A round delivers to every destination exactly the packets routed to it, in order, if and only if it is not a single-destination event with an unrouted packet; an event with a single destination goes to it whole and to nobody else; no pushed event is empty and no destination gets two |
| `HubTx.FitsIffDivides` | vnet/client/hub/hub_tx.go:385-415 | The events taken fit one batch write if and only if all events do or some number of them fills it exactly |
| `HubTx.AllPacketsIs` | vnet/client/hub/hub_tx.go:385-415 | The packets of a queue are the events' packets one after the other |
| `HubTx.Drain` | vnet/client/hub/hub_tx.go:385-415 | An index error if and only if the first event exceeds a batch write; otherwise the first packets of the queue, as many as there are or as the write holds, and nothing of the events taken is lost if and only if the queue divides that way |
| `HubTx.LosesPacket` | vnet/client/hub/hub_tx.go:385-415 | Two events of two packets and room for three: such a queue does not divide |
| `IpPool.RangeOfWideNetwork` | common/addresses/ip_pool.go:37-88 | For prefixes up to 24 bits the range is all addresses but network and broadcast |
| `IpPool.RangeOfNarrowNetwork` | common/addresses/ip_pool.go:37-88 | For longer prefixes it is 1 to 254 of the block of 256 addresses the network lies in |
| `IpPool.RangeInsideIff` | common/addresses/ip_pool.go:37-78 | The range lies strictly inside the network if and only if the prefix is at most 24 bits |
| `IpPool.RangeNotEmpty` | common/addresses/ip_pool.go:37-88 | The range is never empty and never leaves 32 bits |
| `IpPool.OffsetInRangeIff` | common/addresses/ip_pool.go:130-153 | An address assigned by offset is in range if and only if the sum does not wrap |
| `IpPool.WrappedOffset` | common/addresses/ip_pool.go:130-153 | An offset whose assignment succeeds with an address outside the network |
| `IpPool.OffsetsEscape` | common/addresses/ip_pool.go:130-153 | Every network has an offset that is assigned address 0, below the range |
| `IpPool.StaysInsideIff` | common/addresses/ip_pool.go:37-202 | Every run with offsets that do not wrap keeps strictly inside the network if and only if the prefix is at most 24 bits |
| `IpPool.ApplyKeepsIff` | common/addresses/ip_pool.go:102-202 | An operation takes the held addresses out of range if and only if it assigns by an offset that wraps; what it assigns was free |
| `IpPool.PoolIsSafe` | common/addresses/ip_pool.go:37-202 | In every run, held addresses lie strictly between network and broadcast and number at most 2^(32-p) - 2 |
| `IpPool.CandidateIff` | common/addresses/ip_pool.go:110-118 | The random draws reach every address of the range, each by one draw, and no other |
| `IpPool.PickIs` | common/addresses/ip_pool.go:115-126 | The first draw whose address is free decides; if there is none, nothing is assigned |
| `IpPool.PoolServes` | common/addresses/ip_pool.go:102-187 | A free address of the range can be had by its offset, by a draw, and, if it lies in the network, by name |
| `IpPool.WideAssigned` | common/addresses/ip_pool.go:130-187 | Up to 24 bits: by name or by offset an address is assigned if and only if it is free and strictly inside the network |
| `IpPool.CanHoldIff` | common/addresses/ip_pool.go:37-202 | A set of addresses can be held at the end of some run with offsets that do not wrap if and only if it lies in the range |
| `IpPool.LeaseAddress` | common/addresses/ip_pool.go:190-202 | A lease text names its address, with and without the prefix length |
| `IpPool.LeaseParses` | common/addresses/ip_pool.go:120-123 | and is the address with the network's prefix length, in CIDR notation |
| `IpPool.DottedIsPrinted` | common/addresses/ip_pool.go:156-165 | A text of an address without a colon is the printed one |
| `IpPool.ParseMapped` | common/addresses/ip_pool.go:156-165 | Every address has another text, the mapped one |
| `IpPool.IpAllocator.constructor` | common/addresses/ip_pool.go:37-78 | Nothing is held at first |
| `IpPool.IpAllocator.Sizes` | common/addresses/ip_pool.go:106-108 | The number of marked texts is the number of held addresses and of aliases |
| `IpPool.IpAllocator.OnceWithoutAliases` | common/addresses/ip_pool.go:156-187 | If only printed texts are marked, no address is held twice |
| `IpPool.AssignTwice` | common/addresses/ip_pool.go:156-187 | Any address in range can be assigned twice, under its printed and its mapped text |
| `IpPool.IpAllocator.AssignByOffset` | common/addresses/ip_pool.go:130-153 | Result and new state equal the value form |
| `IpPool.IpAllocator.AssignSpecific` | common/addresses/ip_pool.go:156-187 | The same, for an address given as text; a mapped text is marked on its own |
| `IpPool.IpAllocator.AssignRandom` | common/addresses/ip_pool.go:102-127 | The same, for any sequence of random picks, unless as many texts are marked as there are addresses |
| `IpPool.IpAllocator.ReleaseIP` | common/addresses/ip_pool.go:190-202 | Succeeds if and only if the text is marked, and frees exactly what is marked under it |
| `IpPool.WithoutIsRelease` | common/addresses/ip_pool.go:190-202 | which for a printed text is its address |
| `Quota.StepConserves` | common/quota/quota.go:76-134 | Every atomic step keeps the account |
| `Quota.UsageIsConserved` | common/quota/quota.go:76-111 | In every interleaving accepted = submitted + being submitted + counter, up to what Reset drops and multiples of 2^64 |
| `Quota.SoloAdd` | common/quota/quota.go:76-96 | An addition that nobody interrupts is refused if and only if used and counter exceed the limit, and then commits the counter; otherwise it adds its value |
| `Quota.SoloCommit` | common/quota/quota.go:104-111 | A commit that nobody interrupts submits the whole counter and leaves zero |
| `Quota.SoloRest` | common/quota/quota.go:76-134 | Adding zero changes nothing, and a reset drops the counter |
| `Quota.StepLimited` | common/quota/quota.go:76-96 | A check passed before the limit cannot overrun it by more than its own value, negative values included |
| `Quota.OverrunIsBounded` | common/quota/quota.go:76-111 | In every interleaving, with usage added and given back, the counter is 0 or used + counter exceeds the limit by at most one largest value per thread |
| `QuotaOverrun.OverrunIff` | common/quota/quota.go:76-111 | For every number of threads, largest value, used amount and limit, that bound holds in every run of non-negative values if and only if the quota is exceeded from the start, or limit plus one value per thread fits int64, or the counter cannot reach it |
| `QuotaOverrun.OverrunBreaks` | common/quota/quota.go:76-96 | Otherwise a run up to the limit, past it by all threads at once, and one further on |
| `QuotaOverrun.LargeQuotaWraps` | common/quota/quota.go:94-96 | A quota used up to 2^63 - 1 accepts 1 twice |
| `Quota.UnboundedIffOpen` | common/quota/quota.go:76-111 | For every configuration: some run accepts any given amount if and only if the quota is not exceeded at the start; otherwise every run accepts nothing |
| `Quota.TenAcceptsEleven` | common/quota/quota.go:104-111 | A quota of 10 accepts 11 any number of times |

## Left out

- Network and device input and output, and errors of the upstream: the upstream is a byte sequence, datagrams a sequence of byte strings, and writes to them do not fail.
- The insides of zstd, XChaCha20-Poly1305, MD5, JSON and base64. Hashes are compared as the text that is hashed, so a collision of MD5 itself is not modelled.
- Failure of the random source: Go's random reader does not fail, so Encrypt has no such error here.
- Panics for slices out of range are modelled as an error value; the state after a panic is not, except in the router.
- `Transport.Read`, `Close` and logging; `batchWrite` stores its header before the layers run, the model when it sends, with the same bytes at the time of sending.
- ConcurrentRegister: removals are not steps of that machine, so routes never disappear during a run.
- Trie: atomic operations of one thread at a time, so a node's leaf flag and target change together; their separate stores are steps in ConcurrentRegister.
- Router: IPv4 and IPv6 insertion run the same code in the source twice; one trie class of either width stands for both.
- Sync: closing and dialling destinations; a new destination is an identity that depends on its address only. The peer mapping is not part of this model.
- Fragments: the cleanup that forgets all partial messages, and the counter that makes message ids; ids are given, one per message.
- Limiter: the load in AllowN whose value is never used, the return values of PutBack, WaitN, Tokens and the smoothing limiter. Clock values are non-negative 64-bit numbers.
- Limiter.RateIsBounded: requires chargeable requests, returnable returns and a burst whose double fits int64, because it is false without each of them: see UnchargeableBreaks, ReturnableIff and ContainedIff.
- HubTx: pooled events are values, so reuse of an event after it is returned to the pool is not modelled; a destination's id and its pointer are one identity; a push to a destination does not fail.
- HubTx.Drain: events in the queue are not empty, as the transmit loop pushes none that are; with enough empty ones the code would run out of room for the events themselves.
- IpPool: only IPv4 networks; JSON storage and status reports.
- Quota: the adaptor that stores submitted amounts, and reading the used amount at creation.
- Quota.OverrunIsBounded: requires values, limits and run lengths for which no addition can wrap; QuotaOverrun.OverrunIff is exact for non-negative values.
- Session handshake, P2P upgrade, server session lifecycle, the manager, configuration and metrics: they would only add easy members or consist of input and output.
