# OpenVPN data plane: a verified model

This project models the parts of OpenVPN where state, wire formats and arithmetic meet, and proves what they promise for all inputs and over whole runs. Every `.dfy` file is one component:

- `DataChannel.dfy`, `EpochKeys.dfy`, `KeySchedule.dfy`, `Hkdf.dfy`, `Aead.dfy`: data-channel packets under epoch keys. Two peers exchange packets over a network that may reorder, drop, repeat and inject. Each peer derives a key per epoch, keeps the current, the retiring and a window of future receive keys, and moves on when the other peer does. The system is a state machine over send and receive steps. The main results hold in every state of every run: packets are handed up intact and at most once, a sender never repeats a nonce within an epoch, epochs stay ordered between the peers, and key usage stays within one packet of its limit. `CryptoOptions.dfy` is the imperative form of the same operations on one mutable object, proved equal to the functions on values, with every assertion of the source shown to hold exactly under a stated condition.
- `Delivery.dfy`: what becomes of every packet of a session by what was sent and handed up before: late packets across a change of keys, the changes themselves, failed checks.
- `ReplayWindow.dfy`: the replay window, as a sequence and as the circular list the source updates in place.
- `FragmentHeader.dfy`, `Fragmentation.dfy`, `Reassembly.dfy`, `FragmentMaster.dfy`, `FragmentTransfer.dfy`: datagram fragmentation. The ring of 25 slots refines a map from unbounded sequence numbers to partial datagrams, over every run, and a datagram goes from sender to receiver intact in any order of its packets.
- `Dhcp.dfy`, `Checksum.dfy`: removal of router options from DHCP replies, and the Internet checksum, computed and updated.
- `Base64.dfy`, `AuthToken.dfy`: base64, and the tokens that are renewed by cutting base64 text.
- `StaticKey.dfy`: the static key file, its writer, the hex formatter and the six-state parser.
- `ClientNat.dfy`: address translation for clients.
- `DnsMerge.dfy`, `BufferList.dfy`: two linked lists relinked in place.
- `Bytes.dfy`, `Arithmetic.dfy`: byte strings, network order, circular indices, small facts about products and quotients.

`dafny verify dfyconfig.toml` checks the whole project.

## How the source is read

- The cipher, HMAC and hash primitives are parameters. A cipher is assumed to open what it sealed. In the two-party system a tag check passes only for packets the other peer sealed; everything else about the network is arbitrary.
- Clocks, random bytes and configuration values are parameters. Integer widths are written out where they matter: 16-bit epochs, the 8-bit counter of the expansion, 8-bit sequence numbers, 32-bit headers and 64-bit token times.
- Where an `ASSERT` or a fatal message ends the program, the model returns a failure, and the contract says exactly when.
- Object addresses in the two linked lists are values, and memory is a map from addresses to nodes; every pointer write of the source is one update of that map.

## What the proofs show about the code

- `epoch_lookup_decrypt_key` hands out the last future key, but the replacement it leads to trips its assertion for exactly that key (`EpochKeys.ReplaceFailsOnlyAtTheEdge`, `EpochKeys.EdgeWitness`), and a run leads there (`DataChannel.EdgeIsReached`).
- `ovpn_hkdf_expand` is correct up to 254*32 bytes; RFC 5869 allows 255*32.
- The size field of a last fragment carries only multiples of 4 below 64 KiB, which `optimal_fragment_size` provides.
- The check for spurious flags on a whole packet compares unshifted masks: a number in the header is refused exactly when the sequence number is not a multiple of 64 (`Fragmentation.SpuriousNumbersAreRefusedExactly`, `Fragmentation.SpuriousNumberWitness`).
- `crypto.h:298-300` and `crypto_epoch.h:98-101` describe the relation of send and receive epoch differently. The first is an invariant the code does not keep, from the first state on (`EpochKeys.SendKeyAgainstReceiveKey`, `EpochKeys.SendKeyStartsBehind`); the second, that the send epoch is at least that of the current receive key, is proved (`DataChannel.EpochsStayOrdered`).
- A packet id recorded while the clock shows one of the two reserved stamps is not refused later (`ReplayWindow.RecordedIsRejected`, `ReplayWindow.RecordedTwiceWitness`).
- Removing a router option can turn a cut-off message type option into type 0 (`Dhcp.TypeKeptExactly`); `dhcp_extract_router_msg` never gets there, since it rewrites only packets with a complete type option (`Dhcp.RewriteOptions`).
- `write_key_file` accepts any number of keys, but its buffer cuts eight or more, whose file is then refused, and the parser reads at most two (`StaticKey.WriteThenRead`).
- The blocks counted on the receive key are those the final call of the cipher gives out, not those of the update call, and they go to the current key whichever key opened the packet (`EpochKeys.CountIsRightExactly`, `DataChannel.UncountedWitness`); if the final call gives out nothing, the receive side of the usage limit counts packets only (`DataChannel.ReceiveLimitCountsPacketsOnly`).
- `fragment_outgoing` called while fragments are pending overwrites them, and one that it refuses as too long leaves its fragment size to those pending. These go on as before exactly if the sizes agree (`FragmentMasterModel.RefusalKeepsPendingExactly`); otherwise the next packet is not the next fragment (`FragmentMasterModel.RefusalSpoilsTheNextPacket`), and a fragment of another size makes the receiver give up what it had (`FragmentMasterModel.OtherSizeLosesTheDatagram`).
- Address translation by aligned rules is undone by the reply exactly when each address goes out and comes back by the same rule or is left alone both ways (`ClientNat.ReplyIsRestored`); overlapping foreign ranges can break that (`ClientNat.OverlapWitness`), disjoint ones cannot (`ClientNat.DisjointRulesComeBack`).

## Model

| member | source | states |
|---|---|---|
| `Modulo.Add` | Projects/VPN/Open VPN/OpenVPN_Guide/src/openvpn/integer.h:161-172 | the sum lies on the circle and differs from the plain sum by at most one turn |
| `Modulo.Subtract` | Projects/VPN/Open VPN/OpenVPN_Guide/src/openvpn/integer.h:146-155 | the difference equals the plain one up to one turn and is never longer than half the circle |
| `Bytes.BigEndianRoundTrip` | Projects/VPN/Open VPN/OpenVPN_Guide/src/openvpn/packet_id.c:677-713 | a number that fits comes back from its network-order bytes |
| `Bytes.FirstByte` | Projects/VPN/Open VPN/OpenVPN_Guide/src/openvpn/packet_id.c:677-713 | in network order the first byte is the most significant |
| `Hkdf.StreamPrefix` | Projects/VPN/Open VPN/OpenVPN_Guide/src/openvpn/crypto_epoch.c:42-75 | the first m blocks of T(1)\|T(2)\|... do not depend on how many follow (section 2.3 of RFC 5869) |
| `Hkdf.OutputKeyPrefix` | Projects/VPN/Open VPN/OpenVPN_Guide/src/openvpn/crypto_epoch.c:42-75 | a shorter output is a prefix of a longer one |
| `Hkdf.BlocksAreChained` | Projects/VPN/Open VPN/OpenVPN_Guide/src/openvpn/crypto_epoch.c:42-75 | each 32-byte block of the output is the HMAC of the block before it, the info and its own number; the first has none before it |
| `Hkdf.Expand` | Projects/VPN/Open VPN/OpenVPN_Guide/src/openvpn/crypto_epoch.c:42-75 | the array is filled with the output keying material of RFC 5869 if and only if it is at most 254*32 bytes long; beyond that the 8-bit counter wraps to zero and the source writes in front of the array |
| `Hkdf.HkdfLabelInjective` | Projects/VPN/Open VPN/OpenVPN_Guide/src/openvpn/crypto_epoch.c:77-120 | length, label and context are determined by the label encoding (section 7.1 of RFC 8446) |
| `Hkdf.LabelOnWire` | Projects/VPN/Open VPN/OpenVPN_Guide/src/openvpn/crypto_epoch.c:77-120 | the bytes of the encoded label of a 32-byte output without context, with the prefix of the protocol |
| `Hkdf.ExpandLabel` | Projects/VPN/Open VPN/OpenVPN_Guide/src/openvpn/crypto_epoch.c:77-120 | refuses exactly the inputs its assertions refuse, then leaves the output alone; otherwise fills it with the expansion of the encoded label |
| `KeySchedule.Expanded` | Projects/VPN/Open VPN/OpenVPN_Guide/src/openvpn/crypto_epoch.c:77-120 | an expansion with empty context of a 32-byte secret never fails and is a function of secret, label and length |
| `KeySchedule.IterateEpochKey` | Projects/VPN/Open VPN/OpenVPN_Guide/src/openvpn/crypto_epoch.c:127-142 | the next epoch key is the expansion of the previous one under the bytes of its label, one epoch higher |
| `KeySchedule.DeriveDataKey` | Projects/VPN/Open VPN/OpenVPN_Guide/src/openvpn/crypto_epoch.c:144-175 | cipher key and implicit IV are the two expansions of the epoch key under the bytes of their labels |
| `Aead.BuildNonce` | Projects/VPN/Open VPN/OpenVPN_Guide/src/openvpn/crypto.c:66-192 | the IV buffer filled and masked in place equals packet id, zeros, masked with the implicit IV |
| `Aead.NonceInjective` | Projects/VPN/Open VPN/OpenVPN_Guide/src/openvpn/crypto.c:66-192 | under one implicit IV different packet ids give different nonces |
| `Aead.NonceUncovered` | Projects/VPN/Open VPN/OpenVPN_Guide/src/openvpn/crypto.c:66-192 | masking the nonce once more uncovers packet id and zeros, for ids of any length |
| `Aead.LegacyNonceIsConcatenation` | Projects/VPN/Open VPN/OpenVPN_Guide/src/openvpn/crypto.c:982-1011 | in the legacy format masking amounts to packet id followed by the derived bytes |
| `Aead.OpenUndoesSeal` | Projects/VPN/Open VPN/OpenVPN_Guide/src/openvpn/crypto.c:441-619 | in both wire formats the receiver recovers nonce, additional data, ciphertext and tag, and the payload |
| `Aead.SealedParts` | Projects/VPN/Open VPN/OpenVPN_Guide/src/openvpn/crypto.c:66-192 | where packet id, ciphertext and tag stand on the wire, in both formats |
| `Aead.ChangedHeaderIsRefused` | Projects/VPN/Open VPN/OpenVPN_Guide/src/openvpn/crypto.c:441-619 | under a cipher bound to its additional data a packet with another header is refused |
| `ReplayWindow.AddKeepsValid` | Projects/VPN/Open VPN/OpenVPN_Guide/src/openvpn/packet_id.c:137-185 | recording an accepted id keeps the window well formed |
| `ReplayWindow.ReapKeepsValid` | Projects/VPN/Open VPN/OpenVPN_Guide/src/openvpn/packet_id.c:192-217 | expiry keeps the window well formed |
| `ReplayWindow.SpentIsRejected` | Projects/VPN/Open VPN/OpenVPN_Guide/src/openvpn/packet_id.c:223-315 | an id that is used up fails the test |
| `ReplayWindow.SpentForever` | Projects/VPN/Open VPN/OpenVPN_Guide/src/openvpn/packet_id.c:137-185 | recording any accepted packet never frees a used-up id |
| `ReplayWindow.ReapingSpendsMore` | Projects/VPN/Open VPN/OpenVPN_Guide/src/openvpn/packet_id.c:192-217 | expiry never frees a used-up id |
| `ReplayWindow.ReapingRejectsMore` | Projects/VPN/Open VPN/OpenVPN_Guide/src/openvpn/packet_id.c:192-217 | expiry never makes an id acceptable |
| `ReplayWindow.RecordedIsRejected` | Projects/VPN/Open VPN/OpenVPN_Guide/src/openvpn/packet_id.c:137-185 | the id just recorded is used up if and only if the clock is past the two reserved stamps or the window keeps no list |
| `ReplayWindow.RecordedTwiceWitness` | Projects/VPN/Open VPN/OpenVPN_Guide/src/openvpn/packet_id.c:137-185 | with the clock at one of the reserved stamps the same packet id is accepted twice |
| `ReplayWindow.CheckIsMonotone` | Projects/VPN/Open VPN/OpenVPN_Guide/src/openvpn/crypto.c:383-431 | reap, test and add keep what is used up and use up the packet they accept |
| `ReplayWindow.AcceptedAtMostOnce` | Projects/VPN/Open VPN/OpenVPN_Guide/src/openvpn/packet_id.c:137-315 | over every sequence of arrivals, with any clock past the reserved stamps, no packet id is accepted twice |
| `ReplayWindow.ReapExpiresExactly` | Projects/VPN/Open VPN/OpenVPN_Guide/src/openvpn/packet_id.c:192-217 | after reaping an entry is expired if this or a newer entry was recorded more than the time limit ago, and as it was otherwise |
| `ReplayWindow.RunRemembers` | Projects/VPN/Open VPN/OpenVPN_Guide/src/openvpn/packet_id.c:137-315 | over every run, with any timestamps, time limit and clock past the reserved stamps, the bounded list holds for each number in it what an unbounded memory of all accepted packets says: given up, accepted at that time, or open |
| `ReplayWindow.AcceptsExactlyTheFresh` | Projects/VPN/Open VPN/OpenVPN_Guide/src/openvpn/packet_id.c:223-315 | after every such run the next packet is accepted if and only if it is non-zero, was never accepted, is not of an earlier time, lies less than the backtrack behind everything accepted at its time, and was not given up: no packet with this or a higher number was accepted more than the time limit before a later reaping |
| `ReplayWindow.WithoutTimeLimit` | Projects/VPN/Open VPN/OpenVPN_Guide/src/openvpn/packet_id.c:223-315 | the same without a time limit, in terms of the list of accepted packets alone |
| `ReplayWindow.AcceptsExactlyTheNext` | Projects/VPN/Open VPN/OpenVPN_Guide/src/openvpn/packet_id.c:294-314 | without a list, after every run, the next packet is accepted if and only if it follows the last one, starts a later time at 1, or is the first of all |
| `ReplayWindow.PacketIdRec.constructor` | Projects/VPN/Open VPN/OpenVPN_Guide/src/openvpn/packet_id.c:80-94 | a cleared receive record is the empty window |
| `ReplayWindow.PacketIdRec.PushUnseenItem` | Projects/VPN/Open VPN/OpenVPN_Guide/src/openvpn/circ_list.h:40-46 | pushing on the circular list is pushing on the window as a sequence |
| `ReplayWindow.PacketIdRec.SetItem` | Projects/VPN/Open VPN/OpenVPN_Guide/src/openvpn/circ_list.h:50-56 | writing an item of the circular list writes that item of the window |
| `ReplayWindow.PacketIdRec.TestId` | Projects/VPN/Open VPN/OpenVPN_Guide/src/openvpn/packet_id.c:223-315 | the test on the circular list is the test on the window |
| `ReplayWindow.PacketIdRec.AddId` | Projects/VPN/Open VPN/OpenVPN_Guide/src/openvpn/packet_id.c:137-185 | adding on the circular list is adding on the window |
| `ReplayWindow.PacketIdRec.ReapIds` | Projects/VPN/Open VPN/OpenVPN_Guide/src/openvpn/packet_id.c:192-217 | the in-place expiry loop is the expiry of the window, and every entry afterwards by the times recorded |
| `EpochKeys.InitialInv` | Projects/VPN/Open VPN/OpenVPN_Guide/src/openvpn/crypto_epoch.c:352-372 | the state after set-up satisfies the key invariant: current, retiring and future slots hold the keys of their epochs, future epochs are consecutive, the send epoch is at least the receive epoch |
| `EpochKeys.LookupFindsTheEpochKey` | Projects/VPN/Open VPN/OpenVPN_Guide/src/openvpn/crypto_epoch.c:374-410 | a key that lookup returns is the key of exactly the epoch asked for, and lookup fails if and only if the epoch is neither current, retiring nor one of the future ones below the end of the epoch space |
| `EpochKeys.ReplaceFailsOnlyAtTheEdge` | Projects/VPN/Open VPN/OpenVPN_Guide/src/openvpn/crypto_epoch.c:283-335 | of the future keys lookup hands out, the replacement trips its assertion for exactly the last one |
| `EpochKeys.EdgeWitness` | Projects/VPN/Open VPN/OpenVPN_Guide/src/openvpn/crypto_epoch.c:283-335 | with 16 future keys a peer in its first epoch finds the key of epoch 17 and the replacement for it fails |
| `EpochKeys.ReplacedFuture` | Projects/VPN/Open VPN/OpenVPN_Guide/src/openvpn/crypto_epoch.c:212-272 | after the replacement slot i holds the key of the i-th epoch after the new one |
| `EpochKeys.ReplacedInv` | Projects/VPN/Open VPN/OpenVPN_Guide/src/openvpn/crypto_epoch.c:283-335 | a completed replacement keeps the key invariant |
| `EpochKeys.SwitchKeepsThePreviousKey` | Projects/VPN/Open VPN/OpenVPN_Guide/src/openvpn/crypto_epoch.c:283-335 | the move to a future epoch: its key is current with an empty window, the key that was current is found as the retiring one with the window it had, and the send key follows if it was behind and is untouched otherwise |
| `EpochKeys.SendSteppedInv` | Projects/VPN/Open VPN/OpenVPN_Guide/src/openvpn/crypto_epoch.c:274-281 | a step of the send key keeps the invariant and installs the unused key of the next epoch |
| `EpochKeys.CheckSendBounds` | Projects/VPN/Open VPN/OpenVPN_Guide/src/openvpn/crypto_epoch.c:413-463 | one check moves the send key by at most one epoch, resets the counter when it moves, and leaves a key below counter and usage limits unless it is the last |
| `EpochKeys.CheckSendStepsExactly` | Projects/VPN/Open VPN/OpenVPN_Guide/src/openvpn/crypto_epoch.c:413-463 | the check moves to the next epoch if and only if there is one and the ids are used up, the send key is over the usage limit, or both keys are of one epoch and the receive key is over the usage limit or the warning limit for failed checks |
| `EpochKeys.ReadEpochUndoesWrite` | Projects/VPN/Open VPN/OpenVPN_Guide/src/openvpn/packet_id.c:676-713 | epoch and counter come back from the eight bytes on the wire |
| `EpochKeys.EpochOnWire` | Projects/VPN/Open VPN/OpenVPN_Guide/src/openvpn/packet_id.c:676-713 | the eight bytes are two of epoch, then six of counter |
| `EpochKeys.BlocksBegun` | Projects/VPN/Open VPN/OpenVPN_Guide/src/openvpn/crypto.c:602-607 | the blocks counted are those of 16 bytes begun |
| `EpochKeys.PacketFits` | Projects/VPN/Open VPN/OpenVPN_Guide/src/openvpn/crypto.c:66-192 | a packet that is made fits the work buffer together with header and one more block |
| `EpochKeys.EmptyPacketIsDropped` | Projects/VPN/Open VPN/OpenVPN_Guide/src/openvpn/crypto.c:441-619 | a packet with no byte besides id and tag is dropped and changes nothing |
| `EpochKeys.CountGoesToCurrentKey` | Projects/VPN/Open VPN/OpenVPN_Guide/src/openvpn/crypto.c:602-607 | a delivered packet adds the blocks of the final call to the current receive key and leaves the retiring one as it was, also if that one opened it |
| `EpochKeys.CountIsRightExactly` | Projects/VPN/Open VPN/OpenVPN_Guide/src/openvpn/crypto.c:602-607 | a delivered packet with a payload adds the blocks of that payload to the key that opened it if and only if that was not the retiring one and the final call gives out as many blocks as the payload has |
| `EpochKeys.SendKeyAgainstReceiveKey` | Projects/VPN/Open VPN/OpenVPN_Guide/src/openvpn/crypto.h:298-300 | the epoch of the send key is at least that of the receive key material if and only if the send epoch is a whole window of future keys ahead of the current receive key |
| `EpochKeys.SendKeyStartsBehind` | Projects/VPN/Open VPN/OpenVPN_Guide/src/openvpn/crypto.h:298-300 | it is behind from the start |
| `EpochKeys.LegacyRoundTrip` | Projects/VPN/Open VPN/OpenVPN_Guide/src/openvpn/crypto.c:66-619 | in the legacy format, between peers with one key, given ids, room and credit for failed checks: what was encrypted is delivered with its payload if and only if the replay window takes the id, and otherwise dropped; the whole new state of the receiver |
| `CryptoOptionsModel.CryptoOptions.FreeOldKeys` | Projects/VPN/Open VPN/OpenVPN_Guide/src/openvpn/crypto_epoch.c:212-272 | exactly the future keys older than the current receive key are freed |
| `CryptoOptionsModel.CryptoOptions.RegenerateFrom` | Projects/VPN/Open VPN/OpenVPN_Guide/src/openvpn/crypto_epoch.c:212-272 | the slots from the given one on receive the keys of the following epochs, with 16-bit epoch numbers |
| `CryptoOptionsModel.CryptoOptions.MoveDown` | Projects/VPN/Open VPN/OpenVPN_Guide/src/openvpn/crypto_epoch.c:212-272 | the kept keys end up at the front, in order |
| `CryptoOptionsModel.CryptoOptions.PrepareFutureKeys` | Projects/VPN/Open VPN/OpenVPN_Guide/src/openvpn/crypto_epoch.c:212-272 | the first assertions hold exactly under the stated condition, and the number of keys to generate is the distance of the epochs |
| `CryptoOptionsModel.CryptoOptions.RefillFutureKeys` | Projects/VPN/Open VPN/OpenVPN_Guide/src/openvpn/crypto_epoch.c:212-272 | the last assertion holds if and only if no epoch number wrapped, and then the array is the kept keys followed by the next epochs |
| `CryptoOptionsModel.CryptoOptions.GenerateFutureReceiveKeys` | Projects/VPN/Open VPN/OpenVPN_Guide/src/openvpn/crypto_epoch.c:212-272 | all assertions hold if and only if some key was kept or this is the first call, and the last epoch fits 16 bits; the array afterwards |
| `CryptoOptionsModel.CryptoOptions.InitKeyCtx` | Projects/VPN/Open VPN/OpenVPN_Guide/src/openvpn/crypto_epoch.c:352-372 | set-up passes its assertions if and only if both keys are of epoch 1 and the number of future keys fits; the whole state afterwards |
| `CryptoOptionsModel.CryptoOptions.IterateSendKey` | Projects/VPN/Open VPN/OpenVPN_Guide/src/openvpn/crypto_epoch.c:274-281 | the next send epoch key, its data key and a counter of zero |
| `CryptoOptionsModel.CryptoOptions.CheckSendIterate` | Projects/VPN/Open VPN/OpenVPN_Guide/src/openvpn/crypto_epoch.c:413-463 | the in-place check equals the check on values, and it moves the epoch exactly under the stated condition |
| `CryptoOptionsModel.CryptoOptions.FindFuture` | Projects/VPN/Open VPN/OpenVPN_Guide/src/openvpn/crypto_epoch.c:283-335 | the first slot of the epoch, or none |
| `CryptoOptionsModel.CryptoOptions.DragSendKey` | Projects/VPN/Open VPN/OpenVPN_Guide/src/openvpn/crypto_epoch.c:283-335 | the send key ends at the new receive epoch if it was behind, and is untouched otherwise |
| `CryptoOptionsModel.CryptoOptions.PromoteKey` | Projects/VPN/Open VPN/OpenVPN_Guide/src/openvpn/crypto_epoch.c:283-335 | the current key retires with its replay window and the future key takes its place: the three fields literally, and the whole state |
| `CryptoOptionsModel.CryptoOptions.ReplaceUpdateRecvKey` | Projects/VPN/Open VPN/OpenVPN_Guide/src/openvpn/crypto_epoch.c:283-335 | for every 16-bit epoch the assertions hold if and only if the stated condition does, and then the old key and its window are the retiring ones and the whole new state is the closed form |
| `CryptoOptionsModel.CryptoOptions.CheckReplayId` | Projects/VPN/Open VPN/OpenVPN_Guide/src/openvpn/crypto.c:383-431 | the right window is checked, a future epoch triggers the replacement, and the whole new state |
| `CryptoOptionsModel.CryptoOptions.EncryptAead` | Projects/VPN/Open VPN/OpenVPN_Guide/src/openvpn/crypto.c:66-192 | the assertion on the work buffer fails if and only if ids are left and the id does not fit behind the header; otherwise packet and whole new state, with the blocks the update call gave out, equal those on values, in both formats |
| `CryptoOptionsModel.CryptoOptions.CountFailure` | Projects/VPN/Open VPN/OpenVPN_Guide/src/openvpn/crypto.c:441-619 | a failed tag check is counted on the key that was tried and on no other |
| `CryptoOptionsModel.CryptoOptions.Unseal` | Projects/VPN/Open VPN/OpenVPN_Guide/src/openvpn/crypto.c:441-619 | the fields cut from the packet and the cipher's answer, if the buffer is large enough |
| `CryptoOptionsModel.CryptoOptions.DecryptAead` | Projects/VPN/Open VPN/OpenVPN_Guide/src/openvpn/crypto.c:441-619 | result and whole new state, with the blocks of the final call counted on the current key, equal those of decryption on values, in both formats |
| `CryptoOptionsModel.CryptoOptions.FinishPacket` | Projects/VPN/Open VPN/OpenVPN_Guide/src/openvpn/crypto.c:597-612 | the replay check decides, and a delivered packet adds what the final call gave out to the current receive key |
| `CryptoOptionsModel.PromotedShape` | Projects/VPN/Open VPN/OpenVPN_Guide/src/openvpn/crypto_epoch.c:283-335 | after the promotion the slots have the shape the generator expects, and its assertions hold exactly when the replacement completes |
| `CryptoOptionsModel.KeysInitialised` | Projects/VPN/Open VPN/OpenVPN_Guide/src/openvpn/crypto_epoch.c:212-272 | regenerated keys all have a non-zero epoch if and only if their numbers did not wrap |
| `DataChannel.EncryptEffect` | Projects/VPN/Open VPN/OpenVPN_Guide/src/openvpn/crypto.c:66-192 | sending keeps the key invariant, moves epoch and counter strictly forward, and starts within the usage limit |
| `DataChannel.SendKeepsLog` | Projects/VPN/Open VPN/OpenVPN_Guide/src/openvpn/crypto.c:66-192 | after sending, the log of the sender is still a list of genuine packets in strictly increasing order |
| `DataChannel.OpensWithTheSealingKey` | Projects/VPN/Open VPN/OpenVPN_Guide/src/openvpn/crypto.c:441-619 | a receiver that finds a key for a genuine packet finds the sealing key and gets the payload |
| `DataChannel.ReplayMarks` | Projects/VPN/Open VPN/OpenVPN_Guide/src/openvpn/crypto.c:383-431 | nothing handed up before is fresh again, and a fresh packet is marked, also across a key replacement |
| `DataChannel.ReplayKeepsInv` | Projects/VPN/Open VPN/OpenVPN_Guide/src/openvpn/crypto.c:383-431 | the replay check with its key replacement keeps the key invariant and moves the receive epoch to that of the packet or not at all |
| `DataChannel.StepKeepsInv` | Projects/VPN/Open VPN/OpenVPN_Guide/src/openvpn/crypto_epoch.c:283-463 | every send and every receive, by either peer, of any bytes, keeps the invariant of the two-party system |
| `DataChannel.RunInv` | Projects/VPN/Open VPN/OpenVPN_Guide/src/openvpn/crypto_epoch.c:283-463 | the invariant holds in every state of every run |
| `DataChannel.EpochsStayOrdered` | Projects/VPN/Open VPN/OpenVPN_Guide/src/openvpn/crypto_epoch.h:98-112 | in every state of every run no receive epoch is ahead of the same peer's or of the other peer's send epoch |
| `DataChannel.DeliveredOnceAndIntact` | Projects/VPN/Open VPN/OpenVPN_Guide/src/openvpn/crypto.c:383-619 | in every run, with reordering, loss, duplication and injection by the network, everything handed up was sent by the other peer byte for byte, and no packet is handed up twice |
| `DataChannel.NoncesNeverRepeat` | Projects/VPN/Open VPN/OpenVPN_Guide/src/openvpn/crypto.c:66-192 | in every run, for each sender, epoch and counter strictly increase from packet to packet and no two packets of one epoch share a nonce |
| `DataChannel.SendKeepsBudget` | Projects/VPN/Open VPN/OpenVPN_Guide/src/openvpn/crypto_epoch.c:413-463 | after any send the packets and blocks of the send key exceed the limit by at most one packet |
| `DataChannel.UsageStaysWithinLimit` | Projects/VPN/Open VPN/OpenVPN_Guide/src/openvpn/crypto_epoch.c:413-463 | in every state of every run with a usage limit, for both peers and except under the last epoch: packets and blocks counted on the send key never exceed the limit by more than one packet and its blocks, and every packet ever sent was begun with its key within the limit |
| `DataChannel.GenuinePacketOutcome` | Projects/VPN/Open VPN/OpenVPN_Guide/src/openvpn/crypto.c:441-619 | for every packet ever sent and every reachable state of its receiver: dropped without a key, room or credit; aborting if and only if it lies one whole window of future keys ahead; else opened to the payload sent, and delivered if and only if the replay window says so |
| `DataChannel.ReceiveLimitCountsPacketsOnly` | Projects/VPN/Open VPN/OpenVPN_Guide/src/openvpn/crypto_epoch.c:413-463 | if the final call of the cipher gives out nothing, in every state of every run no block is counted on any receive key, and the test of the receive key against the usage limit is one of the packet counter alone, for both peers |
| `DataChannel.UncountedWitness` | Projects/VPN/Open VPN/OpenVPN_Guide/src/openvpn/crypto.c:602-607 | with a final call that gives out nothing of one byte, the first packet of a session, one byte long, is delivered and leaves the count of the receive key at zero |
| `DataChannel.SendingReachesEpoch` | Projects/VPN/Open VPN/OpenVPN_Guide/src/openvpn/crypto_epoch.c:413-463 | from every state of every run a peer that keeps sending under a usage limit reaches every epoch |
| `DataChannel.EdgeIsReached` | Projects/VPN/Open VPN/OpenVPN_Guide/src/openvpn/crypto_epoch.c:283-410 | there is a run, of sends by one peer only, after which the genuine packet that arrives first makes the receiver abort |
| `Delivery.PreviousEpochRetires` | Projects/VPN/Open VPN/OpenVPN_Guide/src/openvpn/crypto_epoch.c:283-335 | in every run, from the move to an epoch until the next one, the retiring key is that of the epoch before |
| `Delivery.LatePacketIsDelivered` | Projects/VPN/Open VPN/OpenVPN_Guide/src/openvpn/crypto_epoch.c:322-325 | in every run a packet of the old epoch that the window would take just before the receiver moves on is delivered with its payload just after |
| `Delivery.RunKeepsWindows` | Projects/VPN/Open VPN/OpenVPN_Guide/src/openvpn/crypto.c:383-431 | in every state of every run each of the two windows is what some sequence of arrivals makes of an empty one, and these had it accept exactly what was handed up of its epoch |
| `Delivery.FreshPacketsAreDelivered` | Projects/VPN/Open VPN/OpenVPN_Guide/src/openvpn/crypto.c:383-619 | in every state of every run, for every packet ever sent of the current or previous epoch with room and credit: it is delivered if and only if it is fresh after the arrivals that explain what was handed up, with any time limit, and without a list if and only if it is the next one |
| `Delivery.DeliveredExactly` | Projects/VPN/Open VPN/OpenVPN_Guide/src/openvpn/crypto.c:383-619 | without a time limit such a packet is delivered if and only if it was not handed up before and nothing of its epoch that was lies the backtrack or more ahead |
| `Delivery.SendChangesKeyExactly` | Projects/VPN/Open VPN/OpenVPN_Guide/src/openvpn/crypto_epoch.c:413-463 | in every run a send changes the key if and only if one of the stated limits is reached and an epoch is left, for both peers |
| `Delivery.ReceiverFollows` | Projects/VPN/Open VPN/OpenVPN_Guide/src/openvpn/crypto_epoch.c:283-335 | in every state of every run a delivered packet of a later epoch takes the receiver along: receive epoch of the packet, send epoch the larger of the two |
| `Delivery.FailuresStayWithinLimit` | Projects/VPN/Open VPN/OpenVPN_Guide/src/openvpn/crypto.c:441-619 | in every state of every run, whatever the network invents, no receive key has failed more than 2^36 + 1 checks |
| `Delivery.FailureIsCounted` | Projects/VPN/Open VPN/OpenVPN_Guide/src/openvpn/crypto.c:441-619 | a packet that fails its check counts against the key of its epoch while that may be tried, and changes nothing else |
| `FragmentHeader.UnpackUndoesPack` | Projects/VPN/Open VPN/OpenVPN_Guide/src/openvpn/fragment.c:260-294 | kind, sequence number and fragment number come back from the header, and the size of a last fragment comes back if and only if it is a multiple of 4 below 64 KiB |
| `FragmentHeader.HeaderOnWire` | Projects/VPN/Open VPN/OpenVPN_Guide/src/openvpn/fragment.c:260-294 | the four header bytes denote the packed value |
| `FragmentHeader.HeaderLayout` | Projects/VPN/Open VPN/OpenVPN_Guide/src/openvpn/fragment.c:260-294 | the four bytes of the header of a fragment, field by field |
| `FragmentHeader.OptimalSizeKeepsCount` | Projects/VPN/Open VPN/OpenVPN_Guide/src/openvpn/fragment.c:301-317 | the balanced size is aligned, not above the limit, and needs as many fragments as the largest allowed size |
| `FragmentHeader.LastIsSimilar` | Projects/VPN/Open VPN/OpenVPN_Guide/src/openvpn/fragment.c:296-317 | the last fragment is at least about three quarters of the others, or shorter by no more than the rounding of all of them |
| `Fragmentation.SpuriousNumbersAreRefusedExactly` | Projects/VPN/Open VPN/OpenVPN_Guide/src/openvpn/fragment.c:166-178 | a whole packet that carries a sequence or fragment number is refused if and only if its sequence number is not a multiple of 64, and is handed on otherwise |
| `Fragmentation.SpuriousNumberWitness` | Projects/VPN/Open VPN/OpenVPN_Guide/src/openvpn/fragment.c:166-178 | a whole packet with fragment number 1 is handed on |
| `Fragmentation.MalformedIsDropped` | Projects/VPN/Open VPN/OpenVPN_Guide/src/openvpn/fragment.c:135-257 | short packets, probes and fragments of odd size bring nothing out, and change nothing but the window |
| `Fragmentation.OverflowIsRefused` | Projects/VPN/Open VPN/OpenVPN_Guide/src/openvpn/fragment.c:186-230 | a fragment that would reach behind the buffer is not copied, not recorded and brings nothing out |
| `Fragmentation.FullMapMeansComplete` | Projects/VPN/Open VPN/OpenVPN_Guide/src/openvpn/fragment.c:135-257 | the bit map is full if and only if every fragment has arrived |
| `Fragmentation.InsertPiece` | Projects/VPN/Open VPN/OpenVPN_Guide/src/openvpn/fragment.c:135-257 | inserting one fragment records it and disturbs none of the others |
| `Fragmentation.CompleteIsPayload` | Projects/VPN/Open VPN/OpenVPN_Guide/src/openvpn/fragment.c:135-257 | when all fragments are there the buffer holds exactly the payload |
| `Fragmentation.InsertOutcome` | Projects/VPN/Open VPN/OpenVPN_Guide/src/openvpn/fragment.c:135-257 | the payload comes out exactly when the fragment completes the set; otherwise the slot holds one more and nothing comes out |
| `Fragmentation.GetBufSlides` | Projects/VPN/Open VPN/OpenVPN_Guide/src/openvpn/fragment.c:64-86 | the window keeps the slots that stay in it, gives up those that leave, and a jump outside gives up all; the slot returned is that of the requested datagram |
| `Reassembly.WireDistance` | Projects/VPN/Open VPN/OpenVPN_Guide/src/openvpn/fragment.c:64-86 | the window test on 8-bit wire numbers is the test on unbounded sequence numbers if and only if the wire bits are unambiguous |
| `Reassembly.ReadsFragment` | Projects/VPN/Open VPN/OpenVPN_Guide/src/openvpn/fragment.c:135-257 | a fragment on the wire is read back as what was sent |
| `Reassembly.FragmentRefines` | Projects/VPN/Open VPN/OpenVPN_Guide/src/openvpn/fragment.c:135-257 | one fragment: ring and map from sequence numbers to partial datagrams agree on the output and stay in step |
| `Reassembly.TickRefines` | Projects/VPN/Open VPN/OpenVPN_Guide/src/openvpn/fragment.c:412-425 | expiry on the ring is expiry in the map |
| `Reassembly.StepRefines` | Projects/VPN/Open VPN/OpenVPN_Guide/src/openvpn/fragment.c:135-257 | fragment, whole packet and tick: ring and map agree and stay in step |
| `Reassembly.RunRefines` | Projects/VPN/Open VPN/OpenVPN_Guide/src/openvpn/fragment.c:64-257 | over every run of events the ring of 25 slots behaves as the map from sequence numbers to partial datagrams |
| `Reassembly.OnlySentPayloadsComeOut` | Projects/VPN/Open VPN/OpenVPN_Guide/src/openvpn/fragment.c:135-257 | over every run, whatever a fragment brings out is the payload of its own datagram |
| `Reassembly.FreshRingRepresents` | Projects/VPN/Open VPN/OpenVPN_Guide/src/openvpn/fragment.c:40-48 | the list as set up stands for the empty map |
| `Reassembly.NothingUntilComplete` | Projects/VPN/Open VPN/OpenVPN_Guide/src/openvpn/fragment.c:135-257 | wherever the window stands when the first fragment comes, in any order, with any repetition, interleaving and timely ticks, nothing of a datagram comes out while a fragment is missing |
| `Reassembly.DeliveredWhenComplete` | Projects/VPN/Open VPN/OpenVPN_Guide/src/openvpn/fragment.c:135-257 | under the same conditions the last missing fragment brings out the payload |
| `Reassembly.AnyOrderDelivers` | Projects/VPN/Open VPN/OpenVPN_Guide/src/openvpn/fragment.c:64-257 | on the ring itself, wherever its window stands, also if it has to jump: fragments in any order, repeated and interleaved with other datagrams of one window and with ticks that do not expire them, yield nothing until the last missing one and then exactly the payload |
| `Reassembly.EveryRunArrives` | Projects/VPN/Open VPN/OpenVPN_Guide/src/openvpn/fragment.c:64-86 | the first fragment of a run brings the window to its datagrams, and there it stays |
| `Reassembly.FirstDatagramsAreDelivered` | Projects/VPN/Open VPN/OpenVPN_Guide/src/openvpn/fragment.c:88-110 | the receiver as set up delivers the first datagrams of a session for every one of the 256 numbers the sender may start with |
| `FragmentMasterModel.FragmentMaster.constructor` | Projects/VPN/Open VPN/OpenVPN_Guide/src/openvpn/fragment.c:88-127 | all slots undefined, with room for the frame, and nothing pending |
| `FragmentMasterModel.FragmentMaster.SlideBy` | Projects/VPN/Open VPN/OpenVPN_Guide/src/openvpn/fragment.c:64-86 | the loop advances number and index and gives up exactly the slots it passes |
| `FragmentMasterModel.FragmentMaster.GetBufSlot` | Projects/VPN/Open VPN/OpenVPN_Guide/src/openvpn/fragment.c:64-86 | the in-place search equals the one on values |
| `FragmentMasterModel.FragmentMaster.InsertInto` | Projects/VPN/Open VPN/OpenVPN_Guide/src/openvpn/fragment.c:135-257 | exactly one slot changes, as the insertion on values says |
| `FragmentMasterModel.FragmentMaster.FragmentIncoming` | Projects/VPN/Open VPN/OpenVPN_Guide/src/openvpn/fragment.c:135-257 | output and list equal those of the function on values |
| `FragmentMasterModel.FragmentMaster.TtlReap` | Projects/VPN/Open VPN/OpenVPN_Guide/src/openvpn/fragment.c:412-425 | exactly the expired slots are given up |
| `FragmentMasterModel.FragmentMaster.FragmentReadyToSend` | Projects/VPN/Open VPN/OpenVPN_Guide/src/openvpn/fragment.c:375-410 | whatever is left to send: the next packet and the state behind it, or nothing if nothing is left; no packet exceeds header and fragment limit |
| `FragmentMasterModel.FragmentMaster.FragmentOutgoing` | Projects/VPN/Open VPN/OpenVPN_Guide/src/openvpn/fragment.c:320-372 | pending fragments or not: a small datagram goes out whole, one that needs more than 32 fragments is dropped, any other is split under the next sequence number in place of what was pending; a dropped one leaves its fragment size behind and changes nothing else; no packet exceeds header and fragment limit |
| `FragmentMasterModel.PendingNext` | Projects/VPN/Open VPN/OpenVPN_Guide/src/openvpn/fragment.c:375-410 | while fragments i and up of a datagram are pending, the next packet is fragment i and then i + 1 and up are pending, up to the last |
| `FragmentMasterModel.RefusalKeepsPendingExactly` | Projects/VPN/Open VPN/OpenVPN_Guide/src/openvpn/fragment.c:332-346 | what is pending stays so over a refused datagram if and only if the size left behind is its own |
| `FragmentMasterModel.RefusalSpoilsTheNextPacket` | Projects/VPN/Open VPN/OpenVPN_Guide/src/openvpn/fragment.c:332-346 | if it is not, the next packet is not the next fragment |
| `FragmentMasterModel.RefusalWitness` | Projects/VPN/Open VPN/OpenVPN_Guide/src/openvpn/fragment.c:301-317 | sizes that differ: 1001 bytes go in fragments of 504 and 33000 bytes are refused at 1000 |
| `FragmentMasterModel.OtherSizeLosesTheDatagram` | Projects/VPN/Open VPN/OpenVPN_Guide/src/openvpn/fragment.c:186-230 | a fragment other than the first whose size is not that of the slot brings nothing out and removes the first fragment from the slot; while the first is missing, no other fragment brings anything out |
| `FragmentMasterModel.NextPiece` | Projects/VPN/Open VPN/OpenVPN_Guide/src/openvpn/fragment.c:375-410 | cutting the front off what is left of a payload gives the next fragment, and the last exactly at the end |
| `FragmentMasterModel.TooManyFragments` | Projects/VPN/Open VPN/OpenVPN_Guide/src/openvpn/fragment.c:320-372 | the size check refuses a datagram if and only if the largest allowed size needs more than 32 fragments |
| `FragmentTransfer.Send` | Projects/VPN/Open VPN/OpenVPN_Guide/src/openvpn/fragment.c:320-410 | one call of the first and repeated calls of the second operation give all fragments of the datagram, in order, under the next sequence number |
| `FragmentTransfer.Receive` | Projects/VPN/Open VPN/OpenVPN_Guide/src/openvpn/fragment.c:135-257 | feeding packets in any order is the run of the corresponding events |
| `FragmentTransfer.Transfer` | Projects/VPN/Open VPN/OpenVPN_Guide/src/openvpn/fragment.c:88-410 | from sender to a receiver in any state with nothing of the datagram pending and its number unambiguous: the packets in any order and with any repetitions yield nothing until the last missing one and then the datagram byte for byte |
| `FragmentTransfer.FirstTransfer` | Projects/VPN/Open VPN/OpenVPN_Guide/src/openvpn/fragment.c:88-410 | the same for a receiver as set up, whatever number the sender starts with |
| `Dhcp.DeletionShrinks` | Projects/VPN/Open VPN/OpenVPN_Guide/src/openvpn/dhcp.c:76-146 | deleting a router option leaves fewer bytes that are not padding, so the scan ends although it does not move on |
| `Dhcp.DoExtract` | Projects/VPN/Open VPN/OpenVPN_Guide/src/openvpn/dhcp.c:76-146 | the in-place loop terminates on every byte string and equals the extraction on values |
| `Dhcp.RemoveRouter` | Projects/VPN/Open VPN/OpenVPN_Guide/src/openvpn/dhcp.c:76-146 | the option is cut out, the rest moves down and the end is padded |
| `Dhcp.GetMessageType` | Projects/VPN/Open VPN/OpenVPN_Guide/src/openvpn/dhcp.c:36-74 | the loop finds the type of the first message type option, or -1 |
| `Dhcp.TypeAfterExtraction` | Projects/VPN/Open VPN/OpenVPN_Guide/src/openvpn/dhcp.c:36-146 | the message type after extraction, for every byte string and padding |
| `Dhcp.TypeKeptExactly` | Projects/VPN/Open VPN/OpenVPN_Guide/src/openvpn/dhcp.c:36-146 | extraction keeps the message type if and only if the options do not end in a cut-off type option |
| `Dhcp.CutOffWitness` | Projects/VPN/Open VPN/OpenVPN_Guide/src/openvpn/dhcp.c:36-146 | on four bytes extraction turns the message type from none into 0 |
| `Dhcp.ExtractionIsIdempotent` | Projects/VPN/Open VPN/OpenVPN_Guide/src/openvpn/dhcp.c:76-146 | on every byte string no complete router option is left |
| `Dhcp.ExtractWellFormed` | Projects/VPN/Open VPN/OpenVPN_Guide/src/openvpn/dhcp.c:76-146 | on well-formed options (sections 2 and 3.5 of RFC 2132) the result is the same list without router options, then the end option and what followed it, then padding; the address is that of the first router |
| `Dhcp.FirstRouterIsFirst` | Projects/VPN/Open VPN/OpenVPN_Guide/src/openvpn/dhcp.c:101-106 | the address found is that of the first router option that carries one other than 0.0.0.0, and 0 if none does |
| `Dhcp.TypeOfOptions` | Projects/VPN/Open VPN/OpenVPN_Guide/src/openvpn/dhcp.c:36-74 | on well-formed options the message type is that of the first message type option, if it has one byte, and there is none otherwise |
| `Dhcp.ReplyFields` | Projects/VPN/Open VPN/OpenVPN_Guide/src/openvpn/dhcp.c:148-158 | the header test by protocol, ports and operation of the packet |
| `Dhcp.RewriteOptions` | Projects/VPN/Open VPN/OpenVPN_Guide/src/openvpn/dhcp.c:159-182 | exactly acknowledgements and offers are rewritten, keep their type, and only an acknowledgement yields an address; the cut-off case never arises |
| `Dhcp.Recompute` | Projects/VPN/Open VPN/OpenVPN_Guide/src/openvpn/dhcp.c:166-171 | only the checksum field changes, and the UDP checksum is correct afterwards |
| `Dhcp.ExtractRouterMsg` | Projects/VPN/Open VPN/OpenVPN_Guide/src/openvpn/dhcp.c:148-188 | exactly the BOOTP replies from server to client port that offer or acknowledge are rewritten: router options gone, headers, message and type kept, UDP checksum correct; every other packet is untouched |
| `Base64.PosUndoesChar` | Projects/VPN/Open VPN/OpenVPN_Guide/src/openvpn/base64.c:44-45 | every six bits come back from their character |
| `Base64.CharUndoesPos` | Projects/VPN/Open VPN/OpenVPN_Guide/src/openvpn/base64.c:104-116 | every character of the alphabet comes back from its place |
| `Base64.AlphabetIs` | Projects/VPN/Open VPN/OpenVPN_Guide/src/openvpn/base64.c:44-45 | the alphabet of RFC 4648 |
| `Base64.Rfc4648Vectors` | Projects/VPN/Open VPN/OpenVPN_Guide/src/openvpn/base64.c:51-102 | three test vectors of section 10 of RFC 4648 |
| `Base64.BadPaddingIsRefused` | Projects/VPN/Open VPN/OpenVPN_Guide/src/openvpn/base64.c:120-151 | a token with a character after padding, or with more than two padding characters, is refused |
| `Base64.EncodeLength` | Projects/VPN/Open VPN/OpenVPN_Guide/src/openvpn/base64.c:51-102 | the text has four characters for every three bytes begun |
| `Base64.EncodedLength` | Projects/VPN/Open VPN/OpenVPN_Guide/src/openvpn/base64.h:37-43 | the buffer allocated by the encoder holds text and terminator, and the length macro gives the length of the text |
| `Base64.EncodeConcat` | Projects/VPN/Open VPN/OpenVPN_Guide/src/openvpn/base64.c:51-102 | encoding respects concatenation at multiples of three bytes |
| `Base64.EncodeText` | Projects/VPN/Open VPN/OpenVPN_Guide/src/openvpn/base64.c:51-102 | the encoding loop writes the encoding |
| `Base64.DecodeToken` | Projects/VPN/Open VPN/OpenVPN_Guide/src/openvpn/base64.c:120-151 | the token loop computes the 24 bits and the marker, in 32-bit arithmetic |
| `Base64.PutToken` | Projects/VPN/Open VPN/OpenVPN_Guide/src/openvpn/base64.c:157-200 | the bytes of a token are appended if and only if there is room |
| `Base64.DecodeText` | Projects/VPN/Open VPN/OpenVPN_Guide/src/openvpn/base64.c:157-200 | the decoding loop returns the number of bytes and the bytes, or -1 |
| `Base64.DecodeUndoesEncode` | Projects/VPN/Open VPN/OpenVPN_Guide/src/openvpn/base64.c:51-200 | decoding an encoding returns the input if it fits the output buffer and fails if and only if it does not |
| `Base64.DecodePrefix` | Projects/VPN/Open VPN/OpenVPN_Guide/src/openvpn/base64.c:157-200 | whole groups decode to themselves whatever text follows them |
| `Base64.DecodeFits` | Projects/VPN/Open VPN/OpenVPN_Guide/src/openvpn/base64.c:157-200 | for every text, what is decoded fits the output buffer |
| `Base64.DecodeShrinks` | Projects/VPN/Open VPN/OpenVPN_Guide/src/openvpn/base64.c:157-200 | for every text, four characters never give more than three bytes |
| `AuthToken.TextReadsBack` | Projects/VPN/Open VPN/OpenVPN_Guide/src/openvpn/auth_token.c:236-259 | the text of a token decodes to the whole token |
| `AuthToken.TextCuts` | Projects/VPN/Open VPN/OpenVPN_Guide/src/openvpn/auth_token.c:176-201 | cutting the text after 16 and after 28 characters cuts the token after 12 and after 21 bytes |
| `AuthToken.RecoveredFromText` | Projects/VPN/Open VPN/OpenVPN_Guide/src/openvpn/auth_token.c:176-201 | the session id and the first timestamp are read back from the text of any token |
| `AuthToken.ChainKeepsSession` | Projects/VPN/Open VPN/OpenVPN_Guide/src/openvpn/auth_token.c:163-274 | after any number of renewals, with any clock, users and random bytes: no renewal fails, the first token is kept, and the newest carries the session id and the first timestamp of the first |
| `AuthToken.IssuedTokenVerifies` | Projects/VPN/Open VPN/OpenVPN_Guide/src/openvpn/auth_token.c:293-398 | every token of a chain, presented by anyone at any time at any later point of the chain, earns exactly the flags and the user name that its signer and its times deserve |
| `AuthToken.TokenIsForItsUser` | Projects/VPN/Open VPN/OpenVPN_Guide/src/openvpn/auth_token.c:217-233 | whoever presents a token of a chain at any time: the user it was renewed for gets it accepted and keeps the name, one made without a name is accepted for all with flag and loss of the name, and any other user is refused, unless HMACs collide |
| `AuthToken.NewestTokenIsGood` | Projects/VPN/Open VPN/OpenVPN_Guide/src/openvpn/auth_token.c:293-398 | for the name it was renewed with the newest token of a chain with a non-decreasing clock verifies, and is expired if and only if the time is outside its renewal window or past the lifetime counted from the first token |
| `AuthToken.EmptyUserIsFlagged` | Projects/VPN/Open VPN/OpenVPN_Guide/src/openvpn/auth_token.c:293-344 | a token issued for the empty name earns another user the empty-user flag and the loss of the name |
| `AuthToken.EmptyUserSticks` | Projects/VPN/Open VPN/OpenVPN_Guide/src/openvpn/auth_token.c:217-230 | over any sequence of renegotiations, each renewal made with the name and flag that verifying the newest token left behind: once a token is signed for the empty name, every later one of the session is |
| `AuthToken.OnlyThisSession` | Projects/VPN/Open VPN/OpenVPN_Guide/src/openvpn/auth_token.c:385-397 | whatever text is presented, it is accepted only if it decodes to a token with the session id of the chain and a correct HMAC |
| `AuthToken.JudgeToken` | Projects/VPN/Open VPN/OpenVPN_Guide/src/openvpn/auth_token.c:277-383 | the flags accumulated from HMAC and times, and the user name left behind |
| `AuthToken.TlsMulti.GenerateAuthToken` | Projects/VPN/Open VPN/OpenVPN_Guide/src/openvpn/auth_token.c:163-274 | succeeds exactly when its assertions hold; newest and first token afterwards; the first is signed for the user |
| `AuthToken.TlsMulti.VerifyAuthToken` | Projects/VPN/Open VPN/OpenVPN_Guide/src/openvpn/auth_token.c:293-398 | flags and user name of the imperative form equal those on values |
| `StaticKey.FormatHex` | Projects/VPN/Open VPN/OpenVPN_Guide/src/openvpn/buffer.c:482-511 | the loop prints the hex text into the bounded buffer, and a full buffer has its end overwritten |
| `StaticKey.HexDigitsAre` | Projects/VPN/Open VPN/OpenVPN_Guide/src/openvpn/buffer.c:482-511 | the two digits of a byte, high one first, in both cases |
| `StaticKey.TruncationIsMarked` | Projects/VPN/Open VPN/OpenVPN_Guide/src/openvpn/buffer.c:482-511 | a text that fills the buffer or is cut by it ends in the note, if that fits; any other text is left alone |
| `StaticKey.HexRoom` | Projects/VPN/Open VPN/OpenVPN_Guide/src/openvpn/buffer.c:482-511 | the size formula leaves at least two places, for every block length and separator |
| `StaticKey.HexIsNeverTruncated` | Projects/VPN/Open VPN/OpenVPN_Guide/src/openvpn/buffer.c:482-511 | without a limit on the output the hex text is complete and never overwritten |
| `StaticKey.PrintedIsTaken` | Projects/VPN/Open VPN/OpenVPN_Guide/src/openvpn/buffer.c:239-264 | a buffer printed into piece by piece holds as much of the whole text as fits |
| `StaticKey.WriteKeyFile` | Projects/VPN/Open VPN/OpenVPN_Guide/src/openvpn/crypto.c:1576-1637 | the buffer holds the text of the key file, as far as it fits |
| `StaticKey.FileFits` | Projects/VPN/Open VPN/OpenVPN_Guide/src/openvpn/crypto.c:1576-1637 | the buffer of 2048 bytes holds the whole file if and only if there are at most seven keys |
| `StaticKey.ParserIsSafe` | Projects/VPN/Open VPN/OpenVPN_Guide/src/openvpn/crypto.c:1372-1574 | on every text the key array is never overrun, key bytes are never taken back and the parse states only advance |
| `StaticKey.ReadChar` | Projects/VPN/Open VPN/OpenVPN_Guide/src/openvpn/crypto.c:1429-1521 | the branches on one character equal the step of the state machine |
| `StaticKey.ReadKeyFile` | Projects/VPN/Open VPN/OpenVPN_Guide/src/openvpn/crypto.c:1372-1574 | the loop runs the state machine over the text, then applies the two success conditions |
| `StaticKey.CommentLine` | Projects/VPN/Open VPN/OpenVPN_Guide/src/openvpn/crypto.c:1429-1521 | a line that differs from the header in its first character leaves the parser where it started |
| `StaticKey.SpaceIsSkipped` | Projects/VPN/Open VPN/OpenVPN_Guide/src/openvpn/crypto.c:1504-1507 | white space between the digits changes nothing but the column |
| `StaticKey.BadCharacterIsFatal` | Projects/VPN/Open VPN/OpenVPN_Guide/src/openvpn/crypto.c:1508-1515 | any other character among the key lines ends the reading without a key, whatever follows |
| `StaticKey.DecimalDenotes` | Projects/VPN/Open VPN/OpenVPN_Guide/src/openvpn/crypto.c:1576-1637 | the decimal digits printed denote the number |
| `StaticKey.LinesAreRead` | Projects/VPN/Open VPN/OpenVPN_Guide/src/openvpn/crypto.c:1429-1521 | the hex lines of a key append its bytes, up to the size of the key array |
| `StaticKey.FinishedForGood` | Projects/VPN/Open VPN/OpenVPN_Guide/src/openvpn/crypto.c:1429-1521 | nothing after the footer changes the result |
| `StaticKey.WholeFileIsRead` | Projects/VPN/Open VPN/OpenVPN_Guide/src/openvpn/crypto.c:1372-1574 | the parser finishes on the whole text of a key file, with any text behind it, and holds at most the first 256 key bytes |
| `StaticKey.CutFileIsNotFinished` | Projects/VPN/Open VPN/OpenVPN_Guide/src/openvpn/crypto.c:1429-1521 | a file cut anywhere before its last line is never finished |
| `StaticKey.FittingFileIsRead` | Projects/VPN/Open VPN/OpenVPN_Guide/src/openvpn/crypto.c:1372-1637 | up to seven keys, with any text behind the file: one or two come back, of more the first two, and an empty file is refused |
| `StaticKey.WriteThenRead` | Projects/VPN/Open VPN/OpenVPN_Guide/src/openvpn/crypto.c:1372-1637 | what was written, cut by the buffer of the writer, gives when read: nothing for no key and for eight or more, all keys byte for byte for one or two, the first two for three to seven |
| `StaticKey.AcceptedTextHasMarks` | Projects/VPN/Open VPN/OpenVPN_Guide/src/openvpn/crypto.c:1372-1574 | a text is accepted only if one line starts with the header and one with the footer, and then one or two keys come out |
| `Checksum.AdjustChecksum` | Projects/VPN/Open VPN/OpenVPN_Guide/src/openvpn/proto.h:211-224 | the updated field is congruent to the old one plus the accumulated change, modulo 65535 |
| `Checksum.ChecksumStaysCorrect` | Projects/VPN/Open VPN/OpenVPN_Guide/src/openvpn/proto.h:203-234 | a header whose words summed to zero modulo 65535 still does after the update |
| `Checksum.FoldCarries` | Projects/VPN/Open VPN/OpenVPN_Guide/src/openvpn/proto.c:160-167 | the loop ends with 16 bits congruent to the sum, and zero only for zero |
| `Checksum.IpChecksum` | Projects/VPN/Open VPN/OpenVPN_Guide/src/openvpn/proto.c:122-171 | with the checksum added, the words of payload and pseudo header sum to zero modulo 65535 |
| `Checksum.WordSumIsValue` | Projects/VPN/Open VPN/OpenVPN_Guide/src/openvpn/proto.c:122-171 | the sum of the words of a byte string is, modulo 65535, the number it denotes |
| `Checksum.PseudoHeader` | Projects/VPN/Open VPN/OpenVPN_Guide/src/openvpn/proto.c:122-171 | payload and pseudo header sum to the number that the bytes of the pseudo header of RFC 768 and the payload denote, modulo 65535 |
| `ClientNat.IpPacket.Transform` | Projects/VPN/Open VPN/OpenVPN_Guide/src/openvpn/clinat.c:192-276 | each address is rewritten by the first rule that matches its original value, at most once, and with aligned rules keeps its host part and takes the network part of the other side; IP checksum and, where adjusted, transport checksum stay in balance with the address words; untouched packets keep their checksums |
| `ClientNat.IpPacket.RewriteAddresses` | Projects/VPN/Open VPN/OpenVPN_Guide/src/openvpn/clinat.c:210-251 | both addresses and the accumulated change of the address words after the loop over the rules |
| `ClientNat.TryRule` | Projects/VPN/Open VPN/OpenVPN_Guide/src/openvpn/clinat.c:211-250 | one rule on the address it is about, with the change of the address words |
| `ClientNat.FirstHit` | Projects/VPN/Open VPN/OpenVPN_Guide/src/openvpn/clinat.c:210-251 | the address is translated by the first rule that hits its original value, and stays if none does |
| `ClientNat.TranslationKeepsHost` | Projects/VPN/Open VPN/OpenVPN_Guide/src/openvpn/clinat.c:232-247 | an aligned rule, in both directions, replaces the network part by that of the other side and keeps the host part |
| `ClientNat.RewrittenLands` | Projects/VPN/Open VPN/OpenVPN_Guide/src/openvpn/clinat.c:210-251 | the same for the first rule of a list that hits the address; without one the address stays |
| `ClientNat.WordsAreTheAddress` | Projects/VPN/Open VPN/OpenVPN_Guide/src/openvpn/clinat.c:211-250 | the two words added to a checksum are, modulo 65535, the 32-bit address |
| `ClientNat.TranslationInverts` | Projects/VPN/Open VPN/OpenVPN_Guide/src/openvpn/clinat.c:232-247 | for an aligned rule the incoming translation undoes the outgoing one |
| `ClientNat.OutAndBack` | Projects/VPN/Open VPN/OpenVPN_Guide/src/openvpn/clinat.c:192-251 | with aligned rules, whatever their ranges, out and back restores an address if and only if the first rule that sends it out is also the first that takes its image in, or no rule sends it out and none takes it in |
| `ClientNat.ReplyIsRestored` | Projects/VPN/Open VPN/OpenVPN_Guide/src/openvpn/clinat.c:192-251 | the reply to a translated packet carries the original addresses swapped if and only if that condition holds for both addresses |
| `ClientNat.SendAndReply` | Projects/VPN/Open VPN/OpenVPN_Guide/src/openvpn/clinat.c:192-276 | the same on packets: one goes out and a reply with its addresses swapped comes in |
| `ClientNat.DisjointRulesComeBack` | Projects/VPN/Open VPN/OpenVPN_Guide/src/openvpn/clinat.c:192-251 | with disjoint foreign ranges the condition is that a rule sends the address out or no rule takes it in |
| `ClientNat.OverlapWitness` | Projects/VPN/Open VPN/OpenVPN_Guide/src/openvpn/clinat.c:192-251 | two aligned rules with the same foreign range send the reply to the wrong host |
| `DnsMerge.MergedIsExact` | Projects/VPN/Open VPN/OpenVPN_Guide/src/openvpn/dns.c:276-310 | the merge is strictly sorted and holds every pulled server and exactly those local ones whose priority was not pulled |
| `DnsMerge.SortedIsUnique` | Projects/VPN/Open VPN/OpenVPN_Guide/src/openvpn/dns.c:276-310 | sortedness and membership determine the list |
| `DnsMerge.DnsOptions.ServerGet` | Projects/VPN/Open VPN/OpenVPN_Guide/src/openvpn/dns.c:180-200 | the server of that priority is in the list afterwards, nothing else changed, a new one only if there was none, and the list stays linked and strictly sorted |
| `DnsMerge.DnsOptions.FindPlace` | Projects/VPN/Open VPN/OpenVPN_Guide/src/openvpn/dns.c:180-200 | the walk stops at the first server that does not come before |
| `DnsMerge.DnsOptions.PreprocessPull` | Projects/VPN/Open VPN/OpenVPN_Guide/src/openvpn/dns.c:269-274 | the list moves to the side and an empty one takes its place |
| `DnsMerge.DnsOptions.PostprocessPull` | Projects/VPN/Open VPN/OpenVPN_Guide/src/openvpn/dns.c:276-310 | relinking in place gives the merge of the two lists, one chain and nothing left aside |
| `DnsMerge.DnsOptions.MergeOne` | Projects/VPN/Open VPN/OpenVPN_Guide/src/openvpn/dns.c:283-303 | one round keeps nodes placed, rest and local rest apart, linked and in order, and makes progress |
| `BufferList.FittingIsLongest` | Projects/VPN/Open VPN/OpenVPN_Guide/src/openvpn/buffer.c:1251-1294 | a prefix of the queue fits with its separators if and only if it is no longer than the count at which the loop stops |
| `BufferList.AggregationKeepsStream` | Projects/VPN/Open VPN/OpenVPN_Guide/src/openvpn/buffer.c:1251-1300 | without separator aggregation leaves the byte stream unchanged |
| `BufferList.RunConserves` | Projects/VPN/Open VPN/OpenVPN_Guide/src/openvpn/buffer.c:1182-1332 | over any run of push, pop, advance and aggregate, what has left the queue followed by what is queued is what was there followed by what was pushed |
| `BufferList.AdvancedDropsEmpty` | Projects/VPN/Open VPN/OpenVPN_Guide/src/openvpn/buffer.c:1320-1332 | advancing is possible exactly within the first buffer, removes it exactly if all of it is dropped, and otherwise leaves its non-empty rest |
| `BufferList.List.PushData` | Projects/VPN/Open VPN/OpenVPN_Guide/src/openvpn/buffer.c:1211-1236 | the data is appended, and head, tail and size agree with the chain |
| `BufferList.List.Peek` | Projects/VPN/Open VPN/OpenVPN_Guide/src/openvpn/buffer.c:1238-1249 | the first buffer, if there is one |
| `BufferList.List.PopHead` | Projects/VPN/Open VPN/OpenVPN_Guide/src/openvpn/buffer.c:1303-1318 | the first buffer is gone, and head, tail and size agree with the chain |
| `BufferList.List.AdvanceHead` | Projects/VPN/Open VPN/OpenVPN_Guide/src/openvpn/buffer.c:1320-1332 | succeeds if and only if there is that much to drop; an emptied buffer leaves the queue |
| `BufferList.List.CountFitting` | Projects/VPN/Open VPN/OpenVPN_Guide/src/openvpn/buffer.c:1251-1269 | how many buffers fit, their total length, and the first that does not |
| `BufferList.List.CopyAndFree` | Projects/VPN/Open VPN/OpenVPN_Guide/src/openvpn/buffer.c:1278-1287 | the copies are never truncated and the result is the joined text |
| `BufferList.List.AggregateSeparator` | Projects/VPN/Open VPN/OpenVPN_Guide/src/openvpn/buffer.c:1251-1294 | the queue afterwards is the aggregated one, and head, tail and size agree with the chain |

## Left out

- Bytes, Arithmetic: helper lemmas on bytes, products, quotients and sequences have no row.
- Handshake, TLS control channel, options parsing, event loop, routing, management interface and platform code are not part of this model.
- `openvpn_encrypt_v1` and `openvpn_decrypt_v1` (CBC, CFB and OFB modes) and the selection of ciphers: only the AEAD path is modelled.
- The short and long packet id formats with timestamps on the wire, and the persistent replay file: only the counters used by AEAD packets are modelled on the wire.
- Log messages, statistics and the debug output of the replay window do not change state and are dropped, as are the line numbers the key file parser keeps for its messages.
- CryptoOptionsModel.CryptoOptions.CheckReplayId: the two replay records are values in this class; their in-place form is the class `ReplayWindow.PacketIdRec`.
- DataChannel.DeliveredOnceAndIntact: relies on unforgeability of the tag as an assumption about the network, since nothing else in the source prevents a forged packet from being accepted.
- DataChannel.NoncesNeverRepeat: is about each sender and epoch; that the two directions, or two epochs, derive different keys is a property of the key derivation and of the first secrets, which are parameters.
- ClientNat.OutAndBack: rules whose network or foreign range has bits outside the mask are not covered.
- ClientNat.TranslationKeepsHost: is stated for aligned rules too; with bits outside the mask the host part can change.
- ReplayWindow.AcceptsExactlyTheFresh: assumes a clock past the two reserved stamps; `ReplayWindow.RecordedIsRejected` says what happens before.
- Delivery.DeliveredExactly: is the case without a time limit; with one, whether a packet was given up depends on when others came, which `Delivery.FreshPacketsAreDelivered` states by the arrivals.
- AuthToken.TokenIsForItsUser: assumes that the HMACs of the names concerned do not collide on the claims of the token.
- Checksum.PseudoHeader: is stated for payloads of even length.
- DataChannel.RunInv: runs are those in which no assertion has ended a process; `DataChannel.GenuinePacketOutcome` says when one does.
- Reassembly.FirstDatagramsAreDelivered: assumes that the first fragment to arrive is not of a datagram so far ahead that its 8 wire bits put it just behind the window at 0.
- Reassembly.RunRefines: requires that the 8 wire bits are unambiguous for each fragment; `Reassembly.WireDistance` shows that the code's window test means nothing otherwise.
- Dhcp.ExtractRouterMsg: the options are copied out of the packet and back, where the source works through a pointer into it, and the UDP datagram is at most 65535 bytes long.
- Base64.DecodeText: texts with characters outside the alphabet inside a token are decoded as the code does, but no claim is made about the result beyond its length.
- AuthToken.TlsMulti.VerifyAuthToken: is called for passwords that start with the token prefix, as its caller checks; the message to the client about an expired token is dropped.
- AuthToken.EmptyUserSticks: assumes that no presented name collides with the empty one under the HMAC of the token it is presented with.
- AuthToken.NewestTokenIsGood: assumes clock values and intervals that fit the signed types they are stored in, so that no sum wraps; `AuthToken.IssuedTokenVerifies` makes no such assumption.
- StaticKey.ReadKeyFile: the file is given as text; reading it from disk is not modelled.
- StaticKey.FormatHex: a block length of 0, for which the source divides by zero, is excluded.
- ClientNat.IpPacket.Transform: a UDP checksum of zero, which means that there is none, is adjusted like any other, as the code does; parsing the packet is not modelled.
- DnsMerge.DnsOptions.ServerGet: servers are their address in memory and their priority; the other fields travel with the node.
- BufferList.List.AggregateSeparator: lengths are unbounded numbers, so overflow of the size computation is not modelled.
- `buffer_list_file`, `clone_dns_options`, `add_client_nat_to_option_list` and the environment of the token state would only add easy members.
