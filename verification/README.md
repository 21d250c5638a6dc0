# zapret2: verified models of its data structures, codecs and packet handling

This project models, in Dafny 4.11, the parts of zapret2 that hold state or do arithmetic and
bit work, and proves what they promise. `dafny verify dfyconfig.toml` checks all of it.

- **CIDR sets.** The intrusive AVL tree of `nfq2/kavl.h`, on heap nodes with the source's fields,
  rotations, size counters and direction stacks (`Kavl.dfy`; its shapes on values are in
  `KavlTree.dfy`), the bitwise prefix comparator of `nfq2/pools.c` (`Prefix.dfy`), and the retry
  loop that keeps a set of prefixes minimal (`PrefixSet.dfy`). The comparator is no order, since
  equal means overlapping; the tree is therefore proved for any comparator that is monotone along
  the stored sequence, and the set keeps that true.
- **ip2net.** Its own quicksort with an explicit stack (`QuickSort.dfy`), the compaction, the
  grouping loops for IPv4 and IPv6 and their threshold arithmetic (`Ip2net.dfy`, `Ip2net6.dfy`),
  and what they share (`Grouping.dfy`).
- **Ciphers.** AES-GCM with the four-bit table multiplication (`Gf128.dfy`, `Gcm.dfy`) against
  NIST SP 800-38D (`GcmSpec.dfy`, and its tag once more as a polynomial in `GcmPolynomial.dfy`),
  and AES-CTR with its 128-bit counter (`AesCtr.dfy`). AES is any function on blocks.
- **QUIC.** Variable-length integers and CRYPTO frames (`Quic.dfy`), the defragmentation into a
  buffer (`QuicDefrag.dfy`), and a sender written from RFC 9000 to compare with
  (`QuicFrames.dfy`).
- **TLS.** The ClientHello parser and an encoder for the same messages (`Tls.dfy`), the rewriting
  of a fake hello as a function on bytes (`TlsMod.dfy`) and in place on its buffer
  (`TlsRewrite.dfy`), and what the rewriting means for the message (`TlsMeaning.dfy`,
  `TlsPadding.dfy`, `TlsHost.dfy`; all of it together in `TlsOutcome.dfy`) and for a receiver
  (`TlsReceiver.dfy`). What the readers make of a hello of which only a part has arrived is in
  `TlsPartial.dfy`.
- **Connections.** The reassembly buffer (`Reassembly.dfy`), the position tracker
  (`Conntrack.dfy`), the queue of delayed packets as a state machine (`DelayQueue.dfy`) and as
  statements on a track (`Play.dfy`), what every packet does to a track, up to the replay of a whole
  message (`DelayOutcome.dfy`), and the theorems that join them: for TCP with the tracker's own
  answers (`TcpReplay.dfy`), for QUIC with the defragmentation (`QuicReplay.dfy`).
- **Headers built and read.** TCP options (`TcpOptions.dfy`) and IPv6 extension headers
  (`Ip6Ext.dfy`), each a builder and several readers.

The other files hold what these share: words and shifts (`Words.dfy`), division (`Arith.dfy`),
orders (`Order.dfy`), bit strings (`BitStrings.dfy`), big-endian numbers (`Blocks.dfy`), buffers
(`Buffers.dfy`), and messages as lists of fields (`Pieces.dfy`).

Methods keep the source's own form, loops and stores included, and are proved equal to a function
or to a stated property; lemmas then say what that function is good for. `{:induction false}`
stands on every lemma so that each proof is the one that is written.

## Findings

Six places where the code does not do what it promises for all inputs. Each has an input on which
it fails and the exact condition under which it does not.

- **A record length that wraps (padencap).** When there is no padding extension, TLSMod adds one
  and stores the record length plus 4 in 16 bits before its overflow test. For a hello within four
  bytes of the longest record the sum wraps, the test sees the wrapped value, and the function
  reports success. `TlsPadding.PadencapIff` gives the condition under which the result is right;
  `TlsPadding.PadencapWraps` is a hello for which it is not.
- **A record length that wraps (sni).** A longer host name is stored without any overflow test.
  `TlsHost.RenameIff` says when the result is right; `TlsReceiver.RenameWraps` is a hello for
  which one more byte wraps the record length and TLSMod reports success. `TlsOutcome.TlsModIff`
  puts both conditions together, for every hello and every choice of modifications.
- **The threshold of ip2net.** Subnet size times multiplier is computed in 32 bits.
  `Ip2net.EnoughIff`: the threshold is the asked share exactly when that product is below 2^32.
  `Ip2net.ThresholdWraps` is an option that is accepted and a list of two addresses that is printed
  as a subnet of 1024, where 1023 were asked for.
- **The early skip of ip2net.** The test that skips a subnet because the first listed address is
  too high in it rounds the other way than the threshold does, so it can discard a subnet that
  has enough listed addresses. `Ip2net.SkipLosesIff` says for which sizes and options that can
  happen, wrapped products included, and `Ip2net.SkipLosesWithoutWrap` what that comes to when
  nothing wraps; `Ip2net.SkipLosesTwo` is a list that loses one. `Ip2net.OutdoneIff` says when a
  smaller subnet with as many addresses can be missed; `Ip2net.NotLaxer` shows that without a wrap
  it never is.
- **The length block of an initialization vector in GCM.** gcm_start stores the bit length in 32
  bits of a 64-bit field. `GcmSpec.LengthBlockIff`: it is the standard's block exactly for vectors
  below 2^29 bytes. `GcmSpec.StartBlockIff`: there is a key for which the start block is the
  standard's for these vectors and for no longer one.
- **proto_skip_ipv6.** Its comment says that the protocol is 0 when it cannot be told; the code
  leaves the type of the first header there. `Ip6Ext.ErrorIsZeroIff`: a success is never 0, and an
  error is 0 exactly when the first header is a hop-by-hop header; `Ip6Ext.PromiseKeptIff` says the
  same for all packets with one next field; `Ip6Ext.ErrorsReportedAsProtocols` are two packets
  whose errors look like protocols.

## Model

| member | source | states |
|---|---|---|
| KavlTree.AvlDepth | nfq2/kavl.h:69 | A balanced tree whose node count fits the 32-bit size field is at most 54 levels deep, so the fixed path arrays of 64 entries are never overrun. |
| Kavl.InsertTree | nfq2/kavl.h:142-187 | For every tree and every comparator that is monotone along it: links, balances and sizes stay right, the tree stays AVL, x stands exactly at the rank that is returned, or the stored equal element is returned and nothing changes. |
| Kavl.EraseTree | nfq2/kavl.h:188-269 | The element that compares equal leaves the sequence, the others keep their order, and the tree stays AVL with right sizes; when there is none, nothing changes. Covers the case where the successor takes the place. |
| Kavl.KavlRotate1 | nfq2/kavl.h:112-121 | A single rotation on the nodes is a single rotation of the tree, size fields included; the balances are left to the caller. |
| Kavl.KavlRotate2 | nfq2/kavl.h:123-140 | A double rotation on the nodes is a double rotation of the tree, size and balance fields included. |
| Kavl.Kavl.Find | nfq2/kavl.h:82-95 | A hit is a stored element that compares equal, and the count is its rank; a miss means that nothing stored compares equal, and the count splits the sequence into what is below and above. |
| Kavl.Kavl.Insert | nfq2/kavl.h:143-187 | InsertTree on the tree that the root points to; the invariant is kept. |
| Kavl.Kavl.Erase | nfq2/kavl.h:189-269 | EraseTree on the tree that the root points to; the invariant is kept. |
| Kavl.InsertedSorted | nfq2/kavl.h:142-187 | With a total order, insertion keeps the keys sorted. |
| Kavl.ErasedSorted | nfq2/kavl.h:188-269 | With a total order, erasure keeps the keys sorted and leaves nothing equal to x. |
| Kavl.SortedIsSearchable | nfq2/kavl.h:142-187 | Sorted keys under a total order are monotone along every search, so the results above cover ordinary use. |
| Prefix.CmpOrdersPrefixes | nfq2/pools.c:460-471 | The bytewise comparator is 0 exactly when one prefix contains the other, and otherwise says which comes first as a bit string. |
| PrefixSet.InOrderIsSearchable | nfq2/pools.c:460-471 | On disjoint prefixes in address order every query finds its way, although the comparator is no order. |
| PrefixSet.OverlapsBreakTheOrder | nfq2/pools.c:460-471 | Three prefixes on which the comparator is not transitive: disjointness is needed. |
| PrefixSet.KavlBitDelete | nfq2/pools.c:481-487 | Exactly one element that compares equal leaves the tree. |
| PrefixSet.KavlBitAdd | nfq2/pools.c:497-515 | The retry loop ends; what is stored afterwards is the old set with the new prefix added, longer ones inside it dropped, or unchanged when a shorter one contains it, and the result is the stored element that contains the prefix. |
| PrefixSet.KavlBitGet | nfq2/pools.c:516-522 | Finds an element exactly when some stored prefix overlaps the query. |
| PrefixSet.AddAllContains | nfq2/pools.c:497-515 | Over any sequence of additions, dropping and refusing prefixes never loses or adds an address. |
| PrefixSet.AddAllMinimal | nfq2/pools.c:497-515 | What is stored is exactly what was added and is contained in nothing else that was added. |
| PrefixSet.AddAllAntichain | nfq2/pools.c:497-515 | Whatever was added, in whatever order, no two stored prefixes overlap. |
| PrefixSet.AddAllOverlaps | nfq2/pools.c:544-580 | A query of any length hits the stored set exactly when it overlaps something that was added. |
| PrefixSet.Ipset.Add | nfq2/pools.c:524-541 | Adding an address with a prefix length to the tree appends it to the list of what was added, and the tree stays the minimal set for that list; a prefix length above the width is refused and changes nothing. |
| PrefixSet.Ipset.Check | nfq2/pools.c:544-575 | The tree answers as a scan over everything ever added: for a full address, whether one of the prefixes contains it. |
| QuickSort.GnuQuicksort | ip2net/qsort.c:90-251 | In place, for every length and every total preorder: the result is sorted and a permutation. |
| QuickSort.RoomToPush | ip2net/qsort.c:166-194 | Because the larger part is pushed, a push never finds the stack of 64 entries full. |
| QuickSort.Partition | ip2net/qsort.c:115-164 | Partition around the median of three: the walls cross, and the two parts lie below and above the pivot. |
| Ip2net.Unique | ip2net/ip2net.c:56-66 | In-place compaction keeps one of each run of equal elements. |
| Ip2net.DedupAscends | ip2net/ip2net.c:56-66 | After sorting nothing stays twice: the list is strictly ascending. |
| Ip2net.Group4 | ip2net/ip2net.c:469-510 | Each step of the IPv4 loop prints the smallest qualifying subnet with the largest coverage, or one address, and goes on behind it. |
| Ip2net.Ip2net4 | ip2net/ip2net.c:466-510 | Sort, compact, group: the lines are those chosen for exactly the listed addresses; they are disjoint, ascending, and cover every one of them. |
| Grouping.PrintedIsPartition | ip2net/ip2net.c:469-510 | The printed subnets are pairwise disjoint and ascending as sets of all their addresses, and every listed address is in one. |
| Grouping.EveryAddressOnce | ip2net/ip2net.c:469-510 | Every listed address lies in exactly one printed subnet. |
| Grouping.NoSwallow | ip2net/ip2net.c:469-510 | A later subnet, however large, never reaches back over what was printed before it. |
| Ip2net.PrintedIsFilled | ip2net/ip2net.c:485-491 | A printed subnet holds as many listed addresses as the computed threshold, which is the asked share of its size whenever the product fits 32 bits. |
| Ip2net.EnoughIff | ip2net/ip2net.c:485 | For all accepted options and sizes the computed threshold is the asked share exactly when the product does not wrap; it never asks for more. |
| Ip2net.ThresholdWraps | ip2net/ip2net.c:485 | An accepted option and two addresses that are printed as a subnet of 1024, where the share asked for is 1023. |
| Ip2net.SkipLosesIff | ip2net/ip2net.c:480-481 | For all accepted options: the early skip can discard a subnet with enough addresses exactly when behind the place where it begins there is room for them. |
| Ip2net.SkipLosesWithoutWrap | ip2net/ip2net.c:480-481 | When no product wraps, that is so exactly when the threshold is no whole number of addresses and is at least two. |
| Ip2net.SkipLosesTwo | ip2net/ip2net.c:480-481 | With two addresses in three asked for, the last two addresses of a subnet of 4 are enough, and the subnet is skipped. |
| Ip2net.ChosenIsSmallest | ip2net/ip2net.c:475-498 | For all accepted options: no smaller allowed subnet holds more, and one that holds as many was missed only because the larger size asks for less or skips later. |
| Ip2net.OutdoneIff | ip2net/ip2net.c:475-498 | A size can lose to a larger one with the same listed addresses, on some list, exactly when the larger one is laxer in that sense. |
| Ip2net.NotLaxer | ip2net/ip2net.c:475-498 | As long as no product wraps no size is laxer than a smaller one, so the chosen subnet is the smallest. |
| Ip2net6.Cmp6Orders | ip2net/ip2net.c:73-119 | The comparison of two byte-swapped words orders addresses as 128-bit numbers. |
| Ip2net6.Cmp6Fallback | ip2net/ip2net.c:73-119 | The byte-by-byte fallback agrees with the fast case. |
| Ip2net6.MaskFromBitcount6Make | ip2net/ip2net.c:132-143 | The mask bytes that the loop stores are those with the low bits clear. |
| Ip2net6.MaskedSame | ip2net/ip2net.c:163-190 | Two addresses are the same under a mask exactly when they are in the same subnet. |
| Ip2net6.Ip2netV6 | ip2net/ip2net.c:367-418 | The IPv6 half: the same as Ip2net4 for 128-bit addresses. |
| Ip2net6.PrintedIsFilled6 | ip2net/ip2net.c:385-410 | A printed IPv6 subnet holds the asked number of listed addresses, and no smaller allowed one holds as many. |
| Gf128.Last4IsReduction | nfq2/crypto/gcm.c:78-80 | The table last4 is, for all 16 entries and all bits, what four steps of the reduction by the field polynomial add. |
| Gf128.NextIsFourSteps | nfq2/crypto/gcm.c:127-163 | Shifting two 64-bit words by four and adding a last4 entry is four multiplications by the indeterminate. |
| Gf128.HalfIsStep | nfq2/crypto/gcm.c:207-213 | The shift with 0xe1000000 in the key setup is one multiplication by the indeterminate. |
| Gcm.SetTables | nfq2/crypto/gcm.c:193-222 | The key setup fills entry i of both tables with the product of the four bits of i and H. |
| Gcm.GcmMult | nfq2/crypto/gcm.c:127-163 | The table multiplication is multiplication by H in GF(2^128), also in place. |
| GcmSpec.Inc32Counts | nfq2/crypto/gcm.c:335 | Incrementing the last four bytes with carry is the standard's inc32: counting modulo 2^32. |
| GcmSpec.GctrTwice | nfq2/crypto/gcm.c:318-375 | GCTR is its own inverse, for every length. |
| GcmSpec.LengthBlockIff | nfq2/crypto/gcm.c:275-290 | The length block that is hashed for an initialization vector is the standard's exactly below 2^29 bytes. |
| GcmSpec.StartBlockIff | nfq2/crypto/gcm.c:275-290 | There is a key for which the start block of a vector is the standard's exactly when the vector is below 2^29 bytes. |
| GcmSpec.StartBlockIsJ0 | nfq2/crypto/gcm.c:248-305 | The start block is the standard's J0, for every 12-byte vector and every hashed one below 2^29 bytes. |
| GcmSpec.DecryptUndoesEncrypt | nfq2/crypto/gcm.c:431-506 | Decryption returns the plaintext, and both directions hash the same ciphertext. |
| GcmSpec.UpdateInParts | nfq2/crypto/gcm.c:318-375 | Whole blocks first and the rest later give the same output, counter and hash as everything at once. |
| GcmPolynomial.TagHashIsPolynomial | nfq2/crypto/gcm.c:385-411 | The hash in the tag is the sum of the zero-filled blocks of additional data and ciphertext, and of the number with the first bit length in its upper half and the second in its lower, each times its own power of H. |
| Gcm.GcmContext.GcmStart | nfq2/crypto/gcm.c:248-305 | Counter block, its encryption and the hash of the additional data are set up. |
| Gcm.GcmContext.GcmUpdate | nfq2/crypto/gcm.c:318-375 | The output is GCTR of the input, also when they are the same buffer; counter and hash are those after all its blocks. |
| Gcm.GcmContext.GcmFinish | nfq2/crypto/gcm.c:385-411 | The tag is the encrypted counter block added to the hash with the two bit lengths, cut to the asked length. |
| Gcm.GcmContext.GcmCryptAndTag | nfq2/crypto/gcm.c:431-454 | For every vector, ciphertext and tag are those of section 7.1 of NIST SP 800-38D from the start block on, in either direction; below 2^29 bytes that block is the standard's. A tag length above 16 is refused. |
| Gcm.GcmContext.GcmAuthDecrypt | nfq2/crypto/gcm.c:469-506 | For every vector, the plaintext comes out exactly when the tag is right; otherwise the output is zeroed. |
| AesCtr.NextBlock | nfq2/crypto/aes-ctr.c:33-36 | Incrementing 16 bytes with carry is counting modulo 2^128. |
| AesCtr.CtrAddCounts | nfq2/crypto/aes-ctr.c:11-30 | Adding k to two swapped 64-bit words equals k increments, across the carry and with wrap-around. |
| AesCtr.AesCtrXcryptBuffer | nfq2/crypto/aes-ctr.c:41-64 | Byte i of the output is byte i of the input added to the keystream block i / 16, also in place. |
| AesCtr.XcryptTwice | nfq2/crypto/aes-ctr.c:41-64 | Applied twice it gives the input back. |
| AesCtr.IsMTProto | nfq2/protocol.c:1478-1500 | One block at counter plus 3 decides what decrypting all 64 bytes would decide. |
| Quic.VarintRoundTrip | nfq2/protocol.c:971-995 | A variable-length integer written in 1, 2, 4 or 8 bytes is read back with its size. |
| Quic.VarintIsWritten | nfq2/protocol.c:971-995 | Every integer that is read stands in the bytes that a sender writes for it with that size. |
| QuicDefrag.QUICDefragCrypto | nfq2/protocol.c:1262-1356 | The frames are those of the payload, exact duplicates dropped; the buffer holds their bytes with zeros in the gaps, behind a frame header with the length; bFull says exactly whether every byte up to the greatest end is covered. |
| QuicDefrag.MergeRanges | nfq2/protocol.c:1329-1354 | After sorting, one merged range that starts at 0 is left exactly when there is no hole. |
| Quic.CompleteIsPrefix | nfq2/protocol.c:1262-1356 | A full result, whatever the order and the overlaps of the frames, is a prefix of the stream they were cut from. |
| QuicFrames.MessageComesBack | nfq2/protocol.c:1262-1356 | A message cut into CRYPTO frames in any way and order, with padding between them, comes back as it was and is reported full. |
| QuicFrames.AcceptedIff | nfq2/protocol.c:1262-1356 | For all payloads: the frames are accepted exactly when the payload is an encoding of PADDING, PING and CRYPTO frames with room for each, and they are then the distinct ones of that encoding. |
| QuicFrames.DefragIsHello | nfq2/protocol.c:997-1011 | The header that the defragmentation writes is read by IsQUICCryptoHello as its whole payload. |
| Tls.ScanExtensions | nfq2/protocol.c:524-645 | The loop over the extensions is the function that the theorems about lookups use. |
| Tls.FindExtOfEncode | nfq2/protocol.c:524-645 | In every well-formed hello, every extension is found where it was written, the first of its type and no other, by the strict reader and by the one that accepts partial messages. |
| TlsPartial.SeenAsHello | nfq2/protocol.c:510-517 | Of a hello of which n bytes have arrived, with anything behind it: it is recognised from the eleventh byte on, and strictly exactly when it is whole. |
| TlsPartial.FindExtOfArrived | nfq2/protocol.c:585-645 | The partial reader finds an extension of it at its place exactly when the first one of that type ends within the n bytes; the strict reader finds nothing before the hello is whole. |
| TlsHost.ExtractedHost | nfq2/protocol.c:646-679 | The host name that is read, strictly or from what may be partial, is the one the hello carries, in lower case, up to the size of the buffer; without one, none is read. |
| TlsPartial.HostOfArrived | nfq2/protocol.c:672-679 | The host name is read from it exactly when all of the SNI extension is there, and is then the one that the hello carries. |
| Tls.LowerIs | nfq2/protocol.c:655-671 | In the name that is read no capital letter is left, and nothing else is changed. |
| TlsRewrite.TLSMod | nfq2/protocol.c:773-964 | The statements on the buffer, with their order of stores and early returns, are the function Modify. |
| TlsHost.RenameIff | nfq2/protocol.c:807-836 | The sni modification gives the renamed hello, all six lengths right, exactly when that hello fits its fields. |
| TlsHost.ListStaysRight | nfq2/protocol.c:807-836 | The length of the name list inside the extension stays right when it was, as long as the new data can be counted in it. |
| TlsHost.RenamedList | nfq2/protocol.c:807-836 | So in every renamed hello that fits its fields the name list has its right length. |
| TlsHost.ModHostMeaning | nfq2/protocol.c:793-874 | What sni and rndsni do for every hello: refused without a host or without room; the renamed hello when that fits its fields; otherwise a message too long for its record length. |
| TlsHost.ModRandomMeaning | nfq2/protocol.c:875-880 | rnd replaces the random and the session id and nothing else. |
| TlsHost.ModSidMeaning | nfq2/protocol.c:883-913 | dupsid takes the session id of the payload when it has the same length, and otherwise changes nothing. |
| TlsPadding.PadencapIff | nfq2/protocol.c:914-960 | padencap is right exactly when the padding is absent or last, there is room for a new one, and the padded hello fits its length fields. |
| TlsPadding.PadencapWraps | nfq2/protocol.c:926-948 | A hello for which padencap reports success and leaves a wrapped record length. |
| TlsPadding.PaddingCarriesPayload | nfq2/protocol.c:914-960 | A reader of the result followed by the payload finds the payload at the end of the padding extension. |
| TlsPadding.OthersStay | nfq2/protocol.c:914-960 | Every other extension is found where it was. |
| TlsOutcome.TlsModIff | nfq2/protocol.c:773-964 | Every hello, all modifications together: TLSMod succeeds with a right record length exactly when everything that is asked for can be done, and then the result, followed by the payload when that is wrapped, is the hello with exactly the wanted changes. |
| TlsReceiver.NewNameIsRead | nfq2/protocol.c:672-679 | Whatever else is modified, whenever TLSMod succeeds with a right record length the host name read from what is sent is the one that was asked for, in lower case, up to the size of the buffer. |
| TlsReceiver.RandomNameIsRead | nfq2/protocol.c:837-872 | With rndsni a receiver reads a name of the old length that starts with the letter and, from 7 bytes on, ends in a dot and the top-level domain. |
| TlsReceiver.RenameWraps | nfq2/protocol.c:807-836 | A hello for which one more byte of host name wraps the record length while TLSMod reports success. |
| Reassembly.Reassemble.ReasmFeed | nfq2/conntrack.c:407-431 | On the buffer: bytes before the message are ignored, the others stored, or the segment is refused and nothing changes. |
| Reassembly.FeedSegment | nfq2/conntrack.c:407-431 | A segment of a stream is taken exactly when it leaves no gap, does not reach back too far and ends inside the message; what is present stays the beginning of the stream, across sequence wrap-around. |
| Reassembly.RunFollows | nfq2/conntrack.c:407-431 | Over any run of segments the buffer is the beginning of the stream, and how far it got depends on the places of the segments only. |
| Reassembly.FullMessage | nfq2/conntrack.c:407-431 | A full message is the first bytes of the stream, to the last one. |
| Conntrack.Tracker.FeedPacket | nfq2/conntrack.c:173-224 | The statements on a track are the function Fed, which the following rows are about. |
| Conntrack.StateByKinds | nfq2/conntrack.c:190-217 | After any packets, the state is told by the kinds of those since the last restart: FIN after a FIN or RST, else ESTABLISHED after any ordinary packet, else SYN. |
| Conntrack.RestartForgets | nfq2/conntrack.c:192-203 | After a restart nothing is left of what was tracked before. |
| Conntrack.ConnectionTracked | nfq2/conntrack.c:173-224 | From any client SYN on, whatever was tracked before: state by kinds, the initial sequence number of the SYN, and as uppos the greatest end of client data. |
| Conntrack.OtherSynAckStarts | nfq2/conntrack.c:195-203 | A SYN-ACK that does not answer that SYN starts the track again once the handshake is over. |
| Conntrack.ConnectionWindow | nfq2/conntrack.c:143-153 | Over any connection the server's window is the last one announced, shifted by the scale of the answer to the SYN; in that answer itself it is not shifted. |
| Conntrack.ConnectionLedger | nfq2/conntrack.c:173-187 | The counters of both sides count the packets, those with data and the data of each side, and the flag tells whether the client ever was 2^31 beyond its start. |
| Conntrack.UpposIsMaximum | nfq2/conntrack.c:132-171 | Over any run without a restart, uppos is the greatest client position seen, modulo 2^32. |
| Conntrack.TopIsGreatest | nfq2/conntrack.c:132-171 | Once the connection is set up that position is the maximum of the ends of the client's data packets. |
| Conntrack.RetransmissionIff | nfq2/desync.c:341-344 | A client data packet is seen as a retransmission exactly when it ends at or before the maximum so far. |
| Conntrack.ConnectionRetransmission | nfq2/desync.c:341-344 | After any client SYN and any packets of its connection, client data is seen as a retransmission exactly when it ends at or before the greatest end of client data so far. |
| Conntrack.SynStarts | nfq2/conntrack.c:173-224 | A client SYN sets the maximum to its own position, whatever was tracked before. |
| DelayQueue.RunKeepsOrder | nfq2/desync.c:1429-1617 | Over any run of TCP and UDP packets, what has left the queue followed by what waits is exactly what was queued, each once and in order, and packets wait exactly while a reassembly runs. |
| DelayQueue.RunInPlace | nfq2/desync.c:2195-2240 | Over any run of a TCP connection, every replayed message is one whole record of the client's stream with a ClientHello at its start, and every piece at or after the first has its payload at its offset in it. |
| DelayOutcome.TcpStepOutcome | nfq2/desync.c:1514-1616 | Every TCP packet on every track: which packets wait, which go out as they are, and that the packet which completes the message makes all waiting ones and itself be replayed, in order and at their offsets, against the whole message. A ClientHello is waited for exactly when it is incomplete, fits 16384 bytes and the server's window, and is no retransmission. |
| DelayOutcome.LeftFullIff | nfq2/desync.c:1593-1597 | A complete message is left unreplayed only when the connection is no longer taken for TLS or the reassembly was switched off under it. |
| DelayOutcome.HelloIsReplayed | nfq2/desync.c:1514-1606 | Over any run in which a ClientHello is sent in order in two or more segments: at the end each of its packets has been replayed, in order and at its place, and nothing waits. |
| DelayOutcome.OtherDatagram | nfq2/desync.c:1804-1946 | Any UDP packet that is no Initial packet to be reassembled sends what waits as it is. |
| DelayOutcome.FirstDatagram | nfq2/desync.c:1840-1910 | On an idle track a packet waits exactly when its CRYPTO data has a hole or an incomplete ClientHello. |
| DelayOutcome.NextDatagram | nfq2/desync.c:1830-1910 | While packets wait: a further one without room or CRYPTO data sends them as they are, one that makes the ClientHello whole has all of them replayed, any other one waits too. |
| DelayOutcome.RunJudged | nfq2/desync.c:2195-2240 | Over any run, every replayed packet has the verdict of the scripts on that packet, piece, count and offset. |
| TcpReplay.ConnectionInPlace | nfq2/desync.c:1514-1606 | The same with the tracker's own sequence numbers, windows and retransmission flags; besides, a reassembly is only started by data beyond all client data before it. |
| TcpReplay.ConnectionReplays | nfq2/desync.c:1514-1606 | From a client SYN on, with the tracker's own answers and any packets in between: a ClientHello sent in order in two or more segments ends with all of them replayed against it and nothing waiting. |
| QuicReplay.ProbeCrypto | nfq2/desync.c:1840-1849 | Defragmentation and recognisers together say whether there are CRYPTO frames, whether they have a hole, and whether they hold a ClientHello and all of it. |
| QuicReplay.SentIsWhole | nfq2/desync.c:1840-1849 | When every byte of a message was sent, cut into frames in any way, it is seen as whole exactly when it is a full ClientHello. |
| QuicReplay.UdpRunGathers | nfq2/desync.c:1784-1947 | Over any run of UDP packets: while packets wait, the buffer is their clean data in order and holds no whole ClientHello; every replayed packet is a piece of a group whose clean data is the message, with a whole ClientHello in it. |
| QuicReplay.WholeIsReplayed | nfq2/desync.c:1874-1877 | The packet with which the waiting ones hold a whole ClientHello has all of them replayed, in order and at the sums of the payloads before them, against their data. |
| QuicReplay.QuicHelloIsReplayed | nfq2/desync.c:1804-1910 | Over any run of Initial packets that hold a whole ClientHello with the last one and not before: at the end each has been replayed and nothing waits. |
| Play.Session.PlayTcp | nfq2/desync.c:1514-1616 | The statements on a track are the function TcpStep, which DelayOutcome.TcpStepOutcome determines for every packet. |
| Play.Session.PlayUdp | nfq2/desync.c:1804-1946 | The statements on a track are the function UdpStep, which DelayOutcome.OtherDatagram, FirstDatagram and NextDatagram determine for every packet. |
| Play.Session.ReplayQueue | nfq2/desync.c:2195-2240 | The loop with its running offset is the function ReplayQueue. |
| TcpOptions.ReconstructOptions | nfq2/lua.c:2119-2201 | Options are written in order up to the first END, padded to whole words; refused exactly when they do not fit the header or the buffer. |
| TcpOptions.PushOptions | nfq2/lua.c:1287-1326 | The reader's loop is the function that FieldReadsBack is about. |
| TcpOptions.FieldReadsBack | nfq2/lua.c:1287-1326 | The field that was built is read back as the options up to the first END and the padding, and the first option of every kind is found. |
| TcpOptions.ListedStandsThere | nfq2/lua.c:1287-1326 | Whatever the field holds, the bytes are those of the listed options, up to an END or to where a length is missing, too small or too large. |
| TcpOptions.TcpFindOption | nfq2/darkmagic.c:56-79 | The loop finds what the function FindOption finds, and nothing when there is no such option. |
| TcpOptions.FindOfEncode | nfq2/darkmagic.c:56-79 | It finds exactly the first option of a kind that was written before an END. |
| TcpOptions.FindsListed | nfq2/darkmagic.c:56-79 | Whatever the field holds, the first listed option of a kind is found, at its place, and no other. |
| Ip6Ext.ReconstructExts | nfq2/lua.c:1867-1944 | Headers are written behind the base header, each linked to the next unless the next fields are preserved; refused exactly when one of them cannot be built or the buffer is too small. |
| Ip6Ext.PushExts | nfq2/lua.c:1507-1577 | The reader's loop is the function ParseExts. |
| Ip6Ext.ProtoSkipIpv6 | nfq2/darkmagic.c:439-497 | The loop, with its fragment fields and early returns, is the function SkipFrom, which SkipsListed determines for every packet. |
| Ip6Ext.SkipsListed | nfq2/darkmagic.c:439-497 | For every packet: it stops behind the listed headers, names the type that follows when that is a transport header, and reports offset and fragment flag of the last fragment header, or none without one. |
| Ip6Ext.ErrorIsZeroIff | nfq2/darkmagic.c:437-497 | For every packet: when a transport header is reached the protocol is not 0; when none is reached it is the type of the first header, and so 0 exactly for a hop-by-hop header. |
| Ip6Ext.PromiseKeptIff | nfq2/darkmagic.c:437-497 | For one next field, 0 means an error and only that, whatever follows, exactly when that field is hop-by-hop. |
| Ip6Ext.ErrorsReportedAsProtocols | nfq2/darkmagic.c:437-497 | A packet without a payload and one cut inside a routing header, whose errors are reported as protocols. |
| Ip6Ext.ProtoFindIp6Exthdr | nfq2/darkmagic.c:499-549 | The loop is the function FindExt. |
| Ip6Ext.FindsListed | nfq2/darkmagic.c:499-549 | For every packet: the first listed header of a type is found, or what follows the last one when that has the type. |
| Ip6Ext.ParseOfEncode | nfq2/lua.c:1507-1577 | For every chain that can be built, reading gives the same headers, linked. |
| Ip6Ext.ListedStandsThere | nfq2/lua.c:1507-1577 | For every packet: the listed headers stand one behind the other, each of the type the one before it announces, up to a later fragment or to where no whole header is. |
| Ip6Ext.SkipOfEncode | nfq2/darkmagic.c:439-497 | Skipping lands on the payload and names its protocol, or after a later fragment on what follows it; with no payload the type of the first header is reported. |
| Ip6Ext.FindOfEncode | nfq2/darkmagic.c:499-549 | The first header of a type is found, and the payload by its protocol, and nothing else. |
| Ip6Ext.BuiltIsRead | nfq2/lua.c:1867-1944 | On the buffer that the builder left, with a payload or none behind it, and whether the next fields were rewritten or preserved ones agree with the chain: parsing gives the linked headers, skipping lands on the payload and reports the last fragment header, and every header is found by type. |

## Left out

- kavl_erase with no key (erase_first), kavl_interval and the iterators: they add easy members.
- The path, stack and direction arrays of kavl are bounded sequences, the bound being proved; the fake root of the erasure is a fresh node, and two pairs of independent stores in the successor case are grouped.
- Kavl.InsertTree: a tree has fewer than 2^32 nodes, as its 32-bit size field needs; Kavl.EraseTree, PrefixSet.KavlBitAdd and PrefixSet.Ipset.Add likewise.
- qsort of the C library, in the defragmentation, is the verified quicksort; elements are moved whole and not byte by byte.
- QuickSort.GnuQuicksort: arrays have fewer than 2^64 elements.
- Parsing of ip2net's input lines and options, and the printing of addresses.
- AES itself and its key schedule: any function on blocks. XOR of machine words is XOR of bit strings or bytes.
- The tables of GCM are sequences once the key setup has filled its arrays; gcm_zero_ctx is left out.
- GcmSpec.StartBlockIsJ0: for vectors below 2^29 bytes, since StartBlockIff shows that it fails for longer ones; Gcm.GcmContext.GcmCryptAndTag and Gcm.GcmContext.GcmAuthDecrypt: additional data and data below 2^61 bytes, where the 64-bit counts of bits hold.
- QUIC key derivation and decryption: the clean payload is an input, and a function of the payload where runs are described.
- QuicDefrag.QUICDefragCrypto: the frame header is stated for lengths below 2^62, which a buffer of any real size has.
- TlsOutcome.TlsModIff: for hellos that fit their length fields and host names below 2^16 bytes; what happens to other bytes is in TlsRewrite.TLSMod only, as bytes. Random generators are parameters.
- The parser of the modification list and the debug output of TLSMod.
- Reassembly: the bytes of the buffer that nothing was copied to are not represented. ReasmResize is never called.
- Conntrack: hash pools, host names, counters of retransmissions, timestamps and purging. In the theorems about positions a restart of a track ends a run. Shifting a window by 32 or more is undefined in C and wraps in the model.
- DelayQueue.RunInPlace: for client packets within half the sequence space of what is being reassembled, which the 32-bit comparisons need; TcpReplay.ConnectionInPlace and Conntrack.UpposIsMaximum likewise.
- Conntrack.ConnectionTracked: for client data within half the sequence space of what came before it, which the 32-bit comparison needs; Conntrack.ConnectionRetransmission, Conntrack.ConnectionWindow and Conntrack.ConnectionLedger likewise.
- TlsPartial: ClientHellos; a ServerHello is read, but there is no encoder for it.
- DelayQueue: profile search, the probes for other protocols than TLS and QUIC, host lists and the user's scripts are inputs or arbitrary functions; sending never fails, and memory never runs out.
- Play: what happens to a packet after the profile search, and the play of a packet that is being replayed.
- TcpOptions and Ip6Ext: Lua tables are sequences of records; the Lua stack, the base headers' other fields and checksums are left out.
- Ip6Ext.BuiltIsRead: for chains of known extension headers with no later fragment before the last one; a fragment header has its 6 bytes of data.
- HTTP, DNS, XMPP and the other recognisers, sockets, divert and netfilter queues, desynchronisation scripts and their Lua library.
