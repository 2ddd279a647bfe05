# Secure media transport: a verified model

This project models the part of the telephony stack that carries protected media: the SRTP
session of `libsrtp_decrypt`, the DTLS roles and key material of `libdtlssrtp`, the RTP
framing of the Crystal transport, and the STUN reply writer and attribute parser. It proves
what the pieces promise each other, over all inputs and over whole runs.

`dafny verify dfyconfig.toml` checks everything.

## How it is laid out

| file | what it holds |
|---|---|
| `Bits.dfy`, `ByteStrings.dfy`, `Wrappers.dfy` | unsigned words as naturals, octets, network order |
| `RollOverCounter.dfy` | `srtp_compute_roc` as nearest-index estimation |
| `ReplayWindow.dfy` | the 64-bit window against a plain set of accepted indices, over runs |
| `CounterMode.dfy` | `do_ctr_crypt` in place, with the truncated last block |
| `Srtp.dfy` | `srtp_crypt`, `srtp_send`, `srtp_recv` as functions on values |
| `SrtpObject.dfy` | the same as methods of a session object on a packet buffer |
| `WireFormat.dfy` | the octets of a packet written out, and which packets each call takes |
| `RoundTrip.dfy`, `HeaderLimit.dfy` | receiving undoes sending; the one header size where it does not |
| `Network.dfy` | a sender and a receiver over a lossy, reordering, duplicating network |
| `Authenticity.dfy` | a receiver fed with arbitrary octets |
| `KeystreamUse.dfy` | the counter blocks: their formula, and that none is used twice |
| `CounterCarry.dfy`, `CarryModes.dfy` | roll-over counter carrying: resynchronisation, what the modes protect, what carrying gives up |
| `Rejections.dfy` | what a refused packet leaves behind |
| `KeyDerivation.dfy` | `do_derive` and `srtp_setkey` |
| `RtpSender.dfy` | `form_rtp`, `handle_rtp` and the sequence counter |
| `Dtls.dfy`, `EndToEnd.dfy` | roles, key direction, both directions of a call, and what reaches the decoder |
| `StunAttributes.dfy`, `StunReply.dfy` | the attribute loop and the reply writer |
| `HexString.dfy` | keys given as hexadecimal text |

The block cipher, the keyed hash, the HMAC and the CRC are function parameters, so every
statement holds for all of them. Library calls are taken to succeed. Where C leaves a shift
undefined (a count outside 0..63 in the window update), its result is a parameter too: what
is proved holds whatever it yields. The memory that the last-block call reads past the text
is likewise a parameter. Crystal integers wrap around, as in the 0.23 series the project is
built with. `seq << 16` in `rtp_crypt` overflows a signed `int` for large sequence numbers;
it is read as two's complement.

## What was found

* `offset` in `srtp_crypt` is 16 bits wide. An extension long enough to wrap it makes the
  sender encrypt part of the header; such a packet is lost. `HeaderLimit.WrappedHeaderLost`
  gives, for every such packet, one cipher under which no receiver restores it, and
  `CounterCarry.RoundTripByIndex` is the round trip for every other packet. The extension
  length is added as octets, where section 5.3.1 of RFC 3550 counts words; both ends do the
  same, so the round trip holds.
* A jump ahead of 64 or more leaves the window at whatever the shift yields. With carrying
  off no index is accepted twice all the same (`NoIndexTwice`, `NoneAcceptedTwice`), but the
  window stays exact only if that value has no other bit than the lowest
  (`AdvanceAheadExact`), and stale bits refuse new packets (`StaleBitAfterLongJump`).
* The window decides at every distance but one: exactly 2^15 behind, the negation is lost and
  only the undefined shift decides (`WindowDecidesIff`), and after every run the same index
  can pass twice (`ReplayAtHalfRange`). The index estimate differs from Appendix A of
  RFC 3711 at one distance (`AgreesWithAppendixA`).
* With carrying on, the counter is taken over before the window is asked, and the window
  looks at 16 bits only. Any carrying packet, old or new, moves the receiver by a multiple of
  2^16 to where the packet was sent (`CarrierShifts`); it does so even when it is refused
  (`RefusedCarrierMoves`); and one that is more than 2^15 and less than 2^16 old is handed out
  again and rolls the receiver back to itself (`ReplayedCarrier`, `ReplayRun`).
* A tag of four octets is used up by the carried counter. `srtp_create` accepts that length,
  and then modes 1 and 2 leave their carrying packets without a tag, against what the
  description of the modes promises (`ModesProtect`): exactly there, and in mode 3, a
  receiver obeys every counter under every tag (`ForgedIffUntagged`), so any sixteen octets
  or more that look like RTP set it (`AnyoneSetsTheCounter`).
* A carrying packet that is late across a wrap cannot be decrypted (`LateCarrierGarbled`).
* `do_derive` places a non-zero index 16 bits too low (`DeriveIvIsRfcIv`); the index is zero
  at every keying of the RTP half.
* `handle_srtp` ignores the status and the length that `srtp_recv` returns. Every accepted
  payload reaches the decoder with its trailer behind it (`DecoderGets`, `TagReachesDecoder`),
  and every refused packet, a replay for one, reaches it as it came (`HandleSrtp`,
  `DuplicateReachesDecoder`).
* `send_audio` ignores the status that `srtp_send` returns, while the length has grown
  already. A packet that the window refuses, as it does after a long silence
  (`RefusedIffLongSilence`, `RefusedAfterSilence`), goes out in the clear with nul octets for
  a trailer (`SendAudio`).
* A DTLS session created HOLDCONN connects as a client and is handed the server's keys
  (`DirectionIffNotHeld`).
* A STUN software name is announced by characters and written by octets (`AnnouncedName`,
  `WholeWords`), so the reply reads back if and only if the two agree (`ReplyReadsBack`,
  `AccentedNameCut`).

## Model

| member | source | states |
|---|---|---|
| RollOverCounter.NearestIndex | libsrtp_decrypt/srtp.c:409-427 | for every index t and every i with -2^15 <= i-t < 2^15, the estimate for the low 16 bits of i is the counter of i, and the signed 16-bit distance is i-t |
| RollOverCounter.NearestIndexUnique | libsrtp_decrypt/srtp.c:409-427 | i is the only index in that range with its sequence number |
| RollOverCounter.AgreesWithAppendixA | libsrtp_decrypt/srtp.c:409-427 | the estimate equals the one of Appendix A of RFC 3711 if and only if the sequence number is not exactly 2^15 above the last |
| RollOverCounter.ResyncHitsCarried | libsrtp_decrypt/srtp.c:679-680 | after adding the difference between carried and estimated counter, the estimate is the carried counter, from any session |
| ReplayWindow.AdvanceIff | libsrtp_decrypt/srtp.c:494-509 | at every distance: a packet passes if and only if it is ahead, or less than 64 behind with its bit clear, and exactly 2^15 behind if and only if the undefined shift comes out even; the top becomes the larger index |
| ReplayWindow.WindowDecidesIff | libsrtp_decrypt/srtp.c:502-509 | the window alone decides, whatever undefined shifts yield, if and only if the packet is not exactly 2^15 behind |
| ReplayWindow.AdvanceKeepsSafe | libsrtp_decrypt/srtp.c:494-509 | a packet that passes is new, and every accepted index in reach keeps its bit, whatever undefined shifts yield |
| ReplayWindow.AdvanceAheadExact | libsrtp_decrypt/srtp.c:495-501 | after a step ahead the word is exactly the set if and only if the jump is below 64 or the undefined value adds no bit |
| ReplayWindow.NoIndexTwice | libsrtp_decrypt/srtp.c:488-509 | over every run of the window update, with nothing else moving the session (carrying off), no index is accepted twice and every accepted index in reach has its bit set |
| ReplayWindow.WindowIsTheSet | libsrtp_decrypt/srtp.c:488-509 | over every run with forward jumps below 64, bit k is set iff top-k was accepted, and the next packet passes iff it is new and less than 64 behind |
| ReplayWindow.StaleBitAfterLongJump | libsrtp_decrypt/srtp.c:498 | a jump of 64 with a masked shift count makes a packet never seen be refused |
| ReplayWindow.ReplayAtHalfRange | libsrtp_decrypt/srtp.c:505-508 | after every run, the index exactly 2^15 behind the top is accepted twice in a row when the undefined right shift comes out even |
| CounterMode.CtrXorCancels | libsrtp_decrypt/srtp.c:205-229 | encrypting twice from the same counter is the identity |
| CounterMode.CryptedStretch | libsrtp_decrypt/srtp.c:205-229 | a buffer whose octets were combined one by one with the keystream is the buffer with that stretch encrypted |
| CounterMode.CryptTail | libsrtp_decrypt/srtp.c:215-226 | the last partial block is encrypted octet by octet whatever octets follow it in or after the buffer |
| CounterMode.DoCtrCrypt | libsrtp_decrypt/srtp.c:205-229 | octet j of the text is combined with octet j mod 16 of block counter + j / 16, everything else stays |
| CounterMode.CryptedWritten | libsrtp_decrypt/srtp.c:205-229 | what that means for each octet, written out: exclusive or with octet j mod 16 of the keystream block counter + j / 16 modulo 2^128, and everything else unchanged |
| RoundTrip.OffsetFromHeader | libsrtp_decrypt/srtp.c:470-491 | two packets with the same header have the same offset, sequence number and source |
| WireFormat.PayloadAfterSources | libsrtp_decrypt/srtp.c:466-486 | for every header built of version 2, sources and no extension, encryption begins right after it, and a packet cut short before that is malformed |
| WireFormat.PayloadAfterExtension | libsrtp_decrypt/srtp.c:473-486 | the same with an extension, whose length field counts octets, while the header fits 16 bits |
| WireFormat.OtherVersions | libsrtp_decrypt/srtp.c:466-467 | any other version is malformed |
| WireFormat.WireInTheClear | libsrtp_decrypt/srtp.c:512-513 | with bit 0 of the flags set the packet goes out as it is |
| WireFormat.WireEncrypted | libsrtp_decrypt/srtp.c:488-517 | with bit 0 clear the header goes out as it is, and octet j of the payload combined with octet j mod 16 of the block j / 16 after the initial counter of section 4.1.1 of RFC 3711, written out for the salt, the SSRC in octets 8 to 11 and the packet index |
| WireFormat.TrailerByFlags | libsrtp_decrypt/srtp.c:550-576 | how many octets of counter and tag follow, by the bits of the flags and the remainder of the sequence number |
| WireFormat.WireTrailer | libsrtp_decrypt/srtp.c:586-597 | the trailer octet by octet: the counter of the session, then the first octets of the hash, in order, of what precedes and the packet's own counter |
| WireFormat.SendStatus | libsrtp_decrypt/srtp.c:539-607 | exactly which packets sending takes, and with which error it refuses the others |
| WireFormat.RecvStatus | libsrtp_decrypt/srtp.c:622-686 | exactly which packets an authenticated session takes: long enough, each tag octet the hash's, a well-formed header and a passing sequence number, with the error of the first check that fails |
| WireFormat.RecvStatusPlain | libsrtp_decrypt/srtp.c:622-686 | the same without authentication |
| RoundTrip.TagUsesEncryptionRoc | libsrtp_decrypt/srtp.c:589-597 | the counter under the tag is the one used for encryption, although it is computed after the session moved on |
| RoundTrip.RoundTripPlain | libsrtp_decrypt/srtp.c:539-686 | a receiver with the same configuration and estimate restores the exact octets of a packet without carried counter |
| CounterCarry.RoundTripByIndex | libsrtp_decrypt/srtp.c:539-686 | by packet index, in every mode, for packets that carry their own counter or none: restored if ahead by less than 2^15 or in reach and unmarked, refused with EACCES and no change otherwise |
| HeaderLimit.WrappedHeaderLost | libsrtp_decrypt/srtp.c:470-486 | in every mode, every packet whose header wraps is accepted by the sender, and there is one cipher under which no receiver restores it |
| Network.LossyNetworkSafe | libsrtp_decrypt/srtp.c:461-686 | in every mode, over every run with loss, duplication and reordering, outputs are octet for octet packets given to the sender, none twice, and no index is used twice |
| Network.NextDelivery | libsrtp_decrypt/srtp.c:622-686 | in every mode, after every such run a packet on the wire is accepted iff it is ahead, or in reach with its bit clear; a refusal changes nothing |
| Network.RunKeepsSender | libsrtp_decrypt/srtp.c:539-607 | in every mode the sender's packets have distinct indices and each is what a recorded call produced |
| Authenticity.TagIsOnMessage | libsrtp_decrypt/srtp.c:437-446 | in every mode, octet k of the tag on the wire is octet k of the hash of the encrypted packet followed by the counter of its true index |
| Authenticity.OnlySentIsAccepted | libsrtp_decrypt/srtp.c:649-685 | in every mode that authenticates: whatever arrives, if the octets and the counter that pass the tag check are ones the sender tagged, the output is that packet as given to the sender, decrypted under its own counters |
| Authenticity.AcceptedWereSent | libsrtp_decrypt/srtp.c:622-686 | the same over every run of arbitrary octets at any distance, in every mode that authenticates |
| Authenticity.AcceptedAtIndex | libsrtp_decrypt/srtp.c:622-686 | with carrying off, every output moreover comes from the sender's packet with the counters of the index it is logged at |
| Authenticity.NoneAcceptedTwice | libsrtp_decrypt/srtp.c:622-686 | with carrying off, authenticated or not, over every run of arbitrary octets none of which is exactly 2^15 behind, no index is accepted twice |
| Authenticity.AcceptedWereSentOnce | libsrtp_decrypt/srtp.c:622-686 | with carrying off, both together: no packet of the sender is handed out twice among indices spanning less than 2^48, if none arrives exactly 2^15 behind |
| KeystreamUse.CounterBlockIsRfcIv | libsrtp_decrypt/srtp.c:396-401 | the counter block is (k_s * 2^16) XOR (SSRC * 2^64) XOR (i * 2^16) of section 4.1.1 of RFC 3711 |
| KeystreamUse.CounterBlockInjective | libsrtp_decrypt/srtp.c:396-401 | equal counter blocks come from equal source, counter and sequence number |
| KeystreamUse.WireByBlocks | libsrtp_decrypt/srtp.c:511-517 | every payload octet on the wire is combined with the block its true index and position call for |
| KeystreamUse.NoBlockTwice | libsrtp_decrypt/srtp.c:392-405 | over every run, in every mode and whatever the headers, two packets less than 2^48 indices apart share no keystream block among their first 2^16 |
| CounterCarry.CarriedIsOwn | libsrtp_decrypt/srtp.c:592-596 | the carried counter is the packet's own if and only if the packet is not late across a wrap |
| CounterCarry.AssertionHolds | libsrtp_decrypt/srtp.c:676-681 | the in-code assertion after adopting a carried counter never fails |
| CounterCarry.ResyncRoundTrip | libsrtp_decrypt/srtp.c:554-571 | a carrying packet that passes the window is restored by a receiver with any counter; if ahead, the receiver then stands at the packet's index |
| CounterCarry.ResyncInOrder | libsrtp_decrypt/srtp.c:632-681 | in order at both ends, sender and receiver hold the same counter and sequence number afterwards |
| CarryModes.ModesProtect | libsrtp_decrypt/srtp.c:364-383 | exactly which packets have a tag: in mode 1 the carrying ones and in mode 2 all, except that a tag of four octets leaves carrying packets none; in mode 3 none; a tagged packet's trailer is as long as the tag |
| CarryModes.ForgedIffUntagged | libsrtp_decrypt/srtp.c:554-571 | a receiver obeys every carried counter under every tag of the right length if and only if the mode is 3 or the tag length four |
| CarryModes.AnyoneSetsTheCounter | libsrtp_decrypt/srtp.c:629-681 | in that case any sixteen octets or more with a carrying sequence number set the counter to their last four |
| CarryModes.CarrierAnywhere | libsrtp_decrypt/srtp.c:649-685 | what any receiver makes of a carrying packet: the counter is adopted, and it is handed out if and only if the window passes its sequence number |
| CarryModes.RefusedCarrierMoves | libsrtp_decrypt/srtp.c:676-685 | a refused carrying packet leaves the receiver estimating the carried counter, changed if and only if it had estimated another |
| CarryModes.CarrierShifts | libsrtp_decrypt/srtp.c:676-685 | by index: a receiver at any top is moved by the distance between the packet and the nearest index with its sequence number |
| CarryModes.ReplayedCarrier | libsrtp_decrypt/srtp.c:676-685 | a carrying packet more than 2^15 and less than 2^16 old is handed out again and the receiver falls back to it |
| CarryModes.NetworkReplay | libsrtp_decrypt/srtp.c:622-686 | from every state of the network invariant, delivering such a packet once more hands it out twice |
| CarryModes.ReplayRun | libsrtp_decrypt/srtp.c:622-686 | a whole run from two fresh sessions: a carrying packet and two packets ahead of it, and then the first is handed out again |
| CarryModes.RateOneModesAgree | libsrtp_decrypt/srtp.c:380 | at rate one, modes 1 and 2 send the same octets and make the same of every packet |
| CarryModes.LateCarrierGarbled | libsrtp_decrypt/srtp.c:592-596 | for every carrying packet late across a wrap there is one cipher under which no receiver hands it out |
| Rejections.RefusedSend | libsrtp_decrypt/srtp.c:546-584 | every failing path of sending leaves session and packet unchanged, in every mode |
| Rejections.RefusedRecv | libsrtp_decrypt/srtp.c:649-685 | a refused packet changes the session if and only if it carries another counter under a matching tag, and then only the counter |
| Rejections.RefusedAreInvisible | libsrtp_decrypt/srtp.c:622-686 | with carrying off, deleting every refused packet from any run leaves the same final session and outputs |
| SrtpObject.ComputeOffset | libsrtp_decrypt/srtp.c:466-486 | the offset computed in 16 bits step by step is the one of the value model |
| SrtpObject.SrtpSession.Create | libsrtp_decrypt/srtp.c:133-198 | a session exists iff flags, algorithms, tag length and mode are supported, and starts all zero |
| SrtpObject.SrtpSession.SetKey | libsrtp_decrypt/srtp.c:265-315 | the keys of both halves are the derived ones (`SessionKeyOctets`, `RtcpKeyOctets`), the unwritten ends of the salts stay nul and nothing else changes; wrong lengths are EINVAL and change nothing |
| SrtpObject.SrtpSession.Update | libsrtp_decrypt/srtp.c:494-509 | the fields move exactly as the window model says, or not at all |
| SrtpObject.SrtpSession.Crypt | libsrtp_decrypt/srtp.c:461-520 | status, session and packet are those of the value model (`WireEncrypted`, `WireInTheClear`); octets after the packet stay |
| SrtpObject.SrtpSession.Send | libsrtp_decrypt/srtp.c:539-607 | the buffer holds the wire packet (`WireEncrypted`, `WireTrailer`) and then its old octets; errors leave it alone, and the length left behind is that on the wire even then |
| SrtpObject.SrtpSession.Verify | libsrtp_decrypt/srtp.c:653-681 | the tag comparison and the adoption of a carried counter, on the buffer, are those of the value model |
| SrtpObject.SrtpSession.Authenticate | libsrtp_decrypt/srtp.c:629-683 | tag check, length and counter adoption are those of the value model |
| SrtpObject.SrtpSession.Recv | libsrtp_decrypt/srtp.c:622-686 | on success the buffer starts with the restored packet, on failure it is unchanged; the session is the model's |
| KeyDerivation.DoDerive | libsrtp_decrypt/srtp.c:235-252 | the output is the keystream from the derived block on; the rest of the buffer stays |
| KeyDerivation.DeriveKeys | libsrtp_decrypt/srtp.c:296-300 | three derivations into the key buffer and the salt give the keys of one half; the last two octets of the salt come from the buffer as it was |
| KeyDerivation.SessionKeyOctets | libsrtp_decrypt/srtp.c:295-300 | octet by octet: the cipher key is the keystream from salt * 2^16 on, the hash key from (2^48 XOR salt) * 2^16 and the salt from (2^49 XOR salt) * 2^16, followed by two nul octets |
| KeyDerivation.RtcpKeyOctets | libsrtp_decrypt/srtp.c:303-310 | the same for the RTCP half: labels 3, 4 and 5 with the index in the lowest octets |
| KeyDerivation.DeriveIvIsRfcIv | libsrtp_decrypt/srtp.c:240-248 | the block equals x * 2^16 of section 4.3 of RFC 3711 if and only if the index is zero |
| KeyDerivation.FirstKeyingIv | libsrtp_decrypt/srtp.c:295-300 | with a zero index it is (label * 2^48 XOR salt) * 2^16 |
| KeyDerivation.DerivationsApart | libsrtp_decrypt/srtp.c:295-310 | the six derivations of a first keying draw on pairwise different counter blocks |
| RtpSender.FramingRoundTrip | src/transport/generic.cr:15-60 | reading a formed packet gives the payload and the low 16 bits of the counter; SRTP finds the payload after twelve octets |
| RtpSender.PacketFields | src/transport/generic.cr:22-60 | every field of the packet: version, payload type and marker, sequence number, timestamp, source and payload |
| RtpSender.RtpTransport.FormRtp | src/transport/generic.cr:22-60 | the octets written one by one are the packet of the current counter, with all its fields |
| RtpSender.RtpTransport.SendAudio | src/transport/srtp.cr:42-52 | for every packet: what goes out is the protected packet if the window takes it, and otherwise the packet in the clear followed by nul octets; it takes every packet less than 2^15 counts after the last, and then its fields spell the count, and none more than 2^15 and at most 2^16 - 64 after |
| RtpSender.RefusedIffLongSilence | libsrtp_decrypt/srtp.c:502-509 | a frame less than 2^16 after the last packet is refused on every machine if and only if it is more than 2^15 after and, one round back, out of reach or marked |
| RtpSender.RefusedAfterSilence | src/transport/generic.cr:114-130 | after every spaced run, a packet that follows more than 2^15 and at most 2^16 - 64 counts of silence is refused |
| RtpSender.IndexIsTheCounter | src/transport/generic.cr:114-130 | over every run of packets and silences with packets less than 2^15 counts apart, no packet is refused and the session's index lags the counter by the silence since |
| RtpSender.FieldsSpellCounter | src/transport/generic.cr:114-130 | below 2^48 the session's two fields spell out the counter less that silence |
| Dtls.DtlsSess.constructor | libdtlssrtp/dtls_srtp.c:109-154 | a new session is the run of no calls: its SSL role follows its state and nothing is finished |
| Dtls.DtlsSess.PutPacket | libdtlssrtp/dtls_srtp.c:203-247 | the session stays one of the runs, with the SSL role accept iff the state is PASS and nothing finished in ACTPASS; only ACTPASS changes, to PASS; a finished handshake makes it existing unless the read failed |
| Dtls.DtlsSess.DoHandshake | libdtlssrtp/dtls_srtp.c:249-273 | the same invariants; only ACTPASS changes, to ACT, and only active sessions can finish |
| Dtls.DtlsSess.Setup | libdtlssrtp/dtls_srtp.c:291-304 | the same invariants; state and SSL role are what they were, and nothing is finished |
| Dtls.DtlsSess.Reset | libdtlssrtp/dtls_srtp.h:207-213 | the same invariants; only a finished session stops being existing |
| Dtls.DtlsSess.KeyMaterial | libdtlssrtp/dtls_srtp.c:306-324 | there are keys iff the handshake is finished, and over every history they are those of section 4.2 of RFC 5764 for the SSL role, exchanged iff the session was created HOLDCONN |
| Dtls.RoleFollowsState | libdtlssrtp/dtls_srtp.c:145-303 | over every run the role is accept iff the state is PASS, and nothing is finished in ACTPASS |
| Dtls.StateIsFinal | libdtlssrtp/dtls_srtp.c:225-268 | a session that has left ACTPASS never changes state again |
| Dtls.DirectionIffNotHeld | libdtlssrtp/dtls_srtp.h:300-314 | over every finished run the keys are the right way round by section 4.2 of RFC 5764 iff the session was not created HOLDCONN |
| Dtls.HeldCanFinish | libdtlssrtp/dtls_srtp.c:203-247 | a session created HOLDCONN can finish as a client |
| Dtls.KeysCross | libdtlssrtp/dtls_srtp.h:300-314 | client and server of one handshake get crosswise equal keys and salts that make up the whole material |
| EndToEnd.HandleDtls | src/transport/srtp.cr:66-125 | it raises iff the read failed otherwise than for want of data; else the two SRTP sessions exist iff a handshake is through, and the slices they are keyed with are the keys of the role the DTLS session then has |
| EndToEnd.BothEndsAgree | src/transport/srtp.cr:103-124 | the slices taken here and the keys extracted by a client peer give equal configurations both ways |
| EndToEnd.MediaArrivesExactly | src/transport/srtp.cr:100-125 | after any such handshake, in both directions and over every legal run, what `srtp_recv` hands out is exact and once only |
| EndToEnd.HandleSrtp | src/transport/srtp.cr:58-64 | sender reports are dropped; for anything else `handle_rtp` gets the whole datagram as `srtp_recv` left it, whatever the status: the restored packet with its trailer behind it, or what arrived |
| EndToEnd.DecoderGets | src/transport/srtp.cr:58-64 | the decoder gets the payload of an accepted packet followed by its trailer, so the payload that was sent if and only if there is no trailer |
| EndToEnd.TagReachesDecoder | src/transport/srtp.cr:58-64 | with the sessions created here ten octets of tag follow every payload |
| EndToEnd.DuplicateReachesDecoder | src/transport/srtp.cr:58-64 | after every legal run a packet that arrives again is refused, and goes to the decoder encrypted |
| StunAttributes.Parse | src/stun/conv.cr:31-55 | the loop returns the filled hash of the list the data stands for, or an index error; each turn advances and the 16-bit sum does not overflow |
| StunAttributes.ParseOfPrint | src/stun/conv.cr:35-53 | every printed list, with any padding octets and the last padding possibly cut short, is read back attribute for attribute |
| StunAttributes.PrintOfParse | src/stun/conv.cr:35-53 | whatever the loop accepts is such a printed list |
| StunAttributes.LastWins | src/stun/conv.cr:46 | the hash holds the value of the last attribute of each type |
| StunReply.HeaderRoundTrip | src/stun/header.cr:22-46 | a serialized header is read back iff it is a binding request with the cookie and the body's length, otherwise it is invalid |
| StunReply.MappedAddressOctets | src/stun/conv.cr:111-150 | the octets of the attribute: family 1, the port under 0x2112 and the address under 0x2112A442 in network order |
| StunReply.MappedAddressRoundTrip | src/stun/conv.cr:111-150 | undoing the cookie in network order recovers the sender's port and address |
| StunReply.PutLength | src/stun/conv.cr:122-127 | only the length field changes and the position comes back |
| StunReply.SetLengthTouches | src/stun/conv.cr:122-127 | octets other than 2 and 3 stay and those two hold the length cut to 16 bits |
| StunReply.WriteSoftware | src/stun/conv.cr:152-161 | appends the name announced by its characters, with the padding they call for |
| StunReply.WriteAddress | src/stun/conv.cr:135-150 | appends the mapped address attribute |
| StunReply.WriteIntegrity | src/stun/conv.cr:163-172 | appends the HMAC of everything so far, or nothing without a password |
| StunReply.WriteFingerprint | src/stun/conv.cr:174-183 | appends the CRC of everything so far combined with the constant |
| StunReply.Reply | src/stun/conv.cr:76-100 | the writer produces the staged reply, basic or extended |
| StunReply.HmacSeesLength | src/stun/conv.cr:91-92 | the length under the HMAC reaches through MESSAGE-INTEGRITY |
| StunReply.CrcSeesLength | src/stun/conv.cr:93-94 | the length under the CRC reaches through FINGERPRINT, with or without a password |
| StunReply.ReplyHasLength | src/stun/conv.cr:95 | the final length covers everything after the header |
| StunReply.ReplyHeaderOctets | src/stun/conv.cr:78-81 | every reply, basic or extended, has type 0x0101 and the cookie and transaction of the request |
| StunReply.NameInReply | src/stun/conv.cr:152-161 | the octets of the name attribute: type 0x8022, the length, the name and nul octets |
| StunReply.TestVector | src/stun/conv.cr:157 | the name that is announced one octet short |
| StunReply.AddressInReply | src/stun/conv.cr:135-150 | type 0x0020 and the mapped address follow the name, and in a basic reply the header |
| StunReply.IntegrityOfReply | src/stun/conv.cr:163-172 | with a password, type 0x0008 and the octets of the HMAC, in order, of the reply before it with a length that reaches through it |
| StunReply.FingerprintOfReply | src/stun/conv.cr:174-183 | the last attribute has type 0x8028 and holds the CRC of the whole reply before it, as it is in the end, combined with 0x5354554E |
| StunReply.BasicReplyReadsBack | src/stun/conv.cr:83-86 | the basic reply announces twelve octets and holds the mapped address |
| StunReply.WholeWords | src/stun/conv.cr:152-161 | the reply is a whole number of words iff characters and octets of the name agree modulo four |
| StunReply.ReplyReadsBack | src/stun/conv.cr:88-98 | for every name, address and optional password that fits, the attribute loop returns exactly what was written if and only if the name has as many octets as characters; the hard-wired test name loses its last octet |
| StunReply.AccentedNameCut | src/stun/conv.cr:152-161 | a name of one accented letter is read back as its first octet |
| StunReply.AnnouncedName | src/stun/conv.cr:152-161 | the first attribute holds as many octets of the name as it has characters, all of them iff the two agree |
| HexString.Hexstring | libsrtp_decrypt/srtp.c:327-342 | -1 iff the text is odd in length, too long or holds a character that is no digit; otherwise the octets that the text prints in either letter case, and nothing else changes |
| HexString.HexRoundTrip | libsrtp_decrypt/srtp.c:316-342 | the printed form of every octet sequence, in either case, is accepted and prints that sequence and no other |

## Left out

- The SRTCP path of `libsrtp_decrypt/srtp.c` (lines 689-836): receiving runs the RTP decryption there, so the two directions do not mirror each other, and the Crystal code never calls it.
- KeyDerivation.DerivationsApart: covers a first keying; rekeying with a non-zero SRTCP index is not modelled.
- SrtpObject.SrtpSession.Create: failures of memory or of the cipher library are not modelled.
- RtpSender.IndexIsTheCounter: puts `form_rtp` output straight into `srtp_send`, as the transport means to; the subclass hook that should connect the two is not overridden in the source. `SendAudio` joins the two methods of that name likewise.
- Network.LossyNetworkSafe: excludes headers of 2^16 octets and more, the distance of exactly 2^15 and carrying packets sent late across a wrap, where the code does not keep the property (`WrappedHeaderLost`, `ReplayAtHalfRange`, `LateCarrierGarbled`); arrivals further away than 2^15 are covered by `AcceptedWereSent`; that none is handed out twice holds there with carrying off (`AcceptedWereSentOnce`) and fails with carrying on (`NetworkReplay`).
- `srtp_setkeystring`: two calls of `hexstring` and one of `srtp_setkey`.
- The jitter buffer, the port allocator and the call tracker: a fixed-delay queue and set bookkeeping.
- The mu-law codec, Opus and the resampler: tables and foreign or floating-point code.
- SIP and SDP parsing and printing: no exact inverse in the code.
- Sockets, fibers, timers, mutexes, logging, and the renegotiation and timeout calls of the DTLS session.
