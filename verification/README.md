# HB_EPID_Revocation: the sigRL list proof and its data, in Dafny

HB_EPID_Revocation is a hash-based EPID-style group signature. A member signs with a secret key `sk_u`. The signature carries a zero-knowledge proof in the MPC-in-the-head style of Picnic. The proof shows two things:

- the member's masked key `sst` is the LowMC encryption of the session identifier `sid` under `sk_u`;
- for every entry `(first, second)` of the signature-based revocation list (sigRL), the published check value `A_j` is `LowMC(LowMC(sk_u, first), r)`.

A verifier who knows a revoked key recognises its own signatures through `A_j`.

This project models the bookkeeping of that list proof, `Hbgs_sigrl_list_test`:

- the layout of the random tapes: the sku mask, the `sst` gadget, and two LowMC gadgets per entry, with uint32 offsets;
- the sizes of the proof, as `Mpc_param` records;
- the aux pass, which moves the key mask into the MPC inputs;
- the signer's simulation, which re-masks every key slot with the masked key;
- the verifier's re-simulation and its accept rule;
- the storing and loading of aux bits;
- the transcripts that are hashed into commitments, the challenge and the salt.

It also models the plain-data code around the proof:

- the revocation lists and their text form;
- the hexadecimal text I/O of LowMC states;
- the string and hex helpers of `Io_utils`;
- the integer/byte-buffer conversions of `Mem_uint`;
- the `Revocation_signature` record;
- the working data's slot allocation.

Some things are left abstract. LowMC, the gadget internals (`Mpc_lowmc64`'s AND-gate simulation), reading masks from tapes and the hash are a bundle of functions, `Primitives.Primitives`. Some laws are stated about that bundle: `MaskFootprint`, `AuxLaws` and `HashLaws`. Everything proved about the list proof holds for every bundle that meets the laws it names. The tapes are threaded through the operations as values.

Modules follow the source files:

- `Params`: parameters and `Mpc_param`.
- `LowmcState`: states and XOR.
- `Primitives`: the abstract bundle.
- `Gadget`: `Mpc_lowmc64`.
- `SigrlEntry`: `Mpc_sigrl_entries`.
- `WorkingData`: `Mpc_working_data`.
- `SigrlLayout` and `SigrlListSpec`: the specification functions of the list proof.
- `SigrlList`: `Hbgs_sigrl_list_test` itself.
- `Transcripts`: the byte strings that are hashed.
- `RevocationLists`: `Hb_epid_revocation_lists`.
- `Lowmc32`, `IoUtils`, `MemUint` and `EpidSignature`: the files of the same names.

## Model

| member | source | states |
|---|---|---|
| Params.NumBytes | Hbgs_sigrl_list_test/Hbgs_sigrl_list_test.cpp:386-389 | the bytes that hold `bits` bits: the least number of bytes with at least that many bits |
| Params.OffsetAddAdd | Common/Mpc_sigrl_entries.cpp:73-87 | two wrapping uint32 offset additions are one wrapping addition of the sum |
| Params.OffsetConservation | Common/Mpc_sigrl_entries.cpp:73-87 | moving the cursor by a span below 2^32 and subtracting the start gives back the span, even across wrap-around |
| Params.AuxSizeBytes | Common/Mpc_working_data.cpp:51-80 | the aux buffer holds every aux bit, with fewer than 8 bits to spare |
| Params.ScaleIsRepeatedAdd | Hbgs_sigrl_list_test/Hbgs_sigrl_list_test.cpp:57-58 | scaling a sub-proof size by `n` equals adding `n` copies of it, for every `n` including 0 |
| Params.ScaleStep | Hbgs_sigrl_list_test/Hbgs_sigrl_list_test.cpp:57-58 | scaling by `n` is scaling by `n - 1` and adding one more copy |
| Params.IndicesFromIsAdd | Hbgs_sigrl_list_test/Hbgs_sigrl_list_test.h:85-86 | the indices built from a sub-proof are the start (all zero) advanced past it |
| Params.IndicesAddAdd | Hbgs_sigrl_list_test/Hbgs_sigrl_list_test.cpp:148 | advancing past two sub-proofs in turn is advancing once past their sum |
| Params.IndicesAddZero | Hbgs_sigrl_list_test/Hbgs_sigrl_list_test.cpp:148 | advancing past a sub-proof of size zero leaves the indices as they were |
| Params.IndicesAfterIsScaled | Hbgs_sigrl_list_test/Hbgs_sigrl_list_test.cpp:133-149 | advancing `k` times by one entry's size lands where one advance by `k` entries' size lands |
| LowmcState.Zero | Include/Hbgs_epid_signature.h:65-73 | the zero state has every byte zero |
| LowmcState.XorBytesAt | Common/Mpc_sigrl_entries.cpp:89-111 | byte `i` of the XOR of two byte strings is the XOR of their bytes `i` |
| LowmcState.XorAt | Common/Mpc_sigrl_entries.cpp:89-111 | state XOR is bytewise |
| LowmcState.XorZero | Hbgs_sigrl_list_test/Hbgs_sigrl_list_test.cpp:115-150 | XOR with the zero (null) mask changes nothing |
| LowmcState.XorSelf | Hbgs_sigrl_list_test/Hbgs_sigrl_list_test.cpp:212-283 | a mask XORed in twice cancels |
| LowmcState.XorComm | Hbgs_sigrl_list_test/Hbgs_sigrl_list_test.cpp:212-283 | XOR is commutative |
| LowmcState.XorAssoc | Hbgs_sigrl_list_test/Hbgs_sigrl_list_test.cpp:212-283 | XOR is associative |
| LowmcState.MaskCancels | Hbgs_sigrl_list_test/Hbgs_sigrl_list_test.cpp:218-233 | a value masked with `m`, re-masked with `s` masked with `m`, is the value XOR `s`: the shared mask drops out |
| Gadget.Footprint | Include/Mpc_lowmc64.h:50-54 | a gadget reads no mask of its own, has one aux bit per AND gate and owns twice that many tape bits |
| Gadget.MpcLowmc64.constructor | Include/Mpc_lowmc64.h:57 | a new gadget has the null offset |
| Gadget.MpcLowmc64.SetOffsets | Include/Mpc_lowmc64.h:36 | the gadget is placed at `of`, and the cursor moves by exactly its span, in uint32 arithmetic |
| Gadget.MpcLowmc64.GetAuxBits | Include/Mpc_lowmc64.h:46-47 | the gadget's aux bits go into the buffer at the cursor, the cursor moves by their number, and the rest of the buffer is unchanged |
| Gadget.MpcLowmc64.SetAuxBits | Include/Mpc_lowmc64.h:48-49 | the block of bits at the cursor is stored as the gadget's aux bits, and the cursor moves past it |
| SigrlEntry.CalculateEpidArlEntry | Common/Mpc_sigrl_entries.cpp:59-71 | the check value of a list entry is a single-state A-list entry |
| SigrlEntry.Layout | Common/Mpc_sigrl_entries.cpp:73-87 | gadget a follows the intermediate mask, gadget a_j follows gadget a, and the entry's span ends after a_j |
| SigrlEntry.AuxSpec | Common/Mpc_sigrl_entries.cpp:89-111 | gadget a's aux pass gives the key-mask adjustment; gadget a_j's adjustment XOR the intermediate mask gives the intermediate adjustment |
| SigrlEntry.AuxKeepsMask | Common/Mpc_sigrl_entries.cpp:89-111 | an entry's aux pass leaves every mask read below both its gadgets unchanged |
| SigrlEntry.SimSpec | Common/Mpc_sigrl_entries.cpp:113-158 | a failing gadget a stops the entry with no output; otherwise gadget a_j runs on a's output re-masked by the intermediate adjustment, and on `r` |
| SigrlEntry.MpcSigrlEntry.constructor | Include/Mpc_sigrl_entries.h:67-70 | a new entry has both gadgets and its intermediate mask at the null offset |
| SigrlEntry.MpcSigrlEntry.SetOffsets | Common/Mpc_sigrl_entries.cpp:73-87 | the intermediate mask goes at `of`, then gadget a, then gadget a_j; the cursor moves by the entry's whole span |
| SigrlEntry.MpcSigrlEntry.ComputeAuxTape | Common/Mpc_sigrl_entries.cpp:89-111 | the tapes and the adjustments are those of `AuxSpec`; an adjustment is written only when its buffer is given |
| SigrlEntry.MpcSigrlEntry.MpcSimulate | Common/Mpc_sigrl_entries.cpp:113-158 | the entry's simulation is `SimSpec` at the entry's own gadget offsets |
| SigrlEntry.MpcSigrlEntry.GetAuxBits | Common/Mpc_sigrl_entries.cpp:160-165 | gadget a's aux bits, then gadget a_j's, are written at the cursor; nothing else changes |
| SigrlEntry.MpcSigrlEntry.SetAuxBits | Common/Mpc_sigrl_entries.cpp:167-172 | the two blocks at the cursor are stored as gadget a's, then gadget a_j's, aux bits |
| WorkingData.BlocksDisjoint | Common/Mpc_working_data.cpp:30-49 | each repetition's state block in a slab lies after the pointer table, and no two overlap |
| WorkingData.AllocateInputs64 | Common/Mpc_working_data.cpp:30-49 | a slab is produced exactly when memory is available; it is zeroed, and pointer `i` points at repetition `i`'s block |
| WorkingData.ZeroColumn | Common/Mpc_working_data.cpp:30-49 | a fresh slot holds one state per repetition |
| WorkingData.AllocateSlots | Common/Mpc_working_data.cpp:51-80 | slot `i` is allocated with allocation number `base + i`, for `n` slots |
| WorkingData.WithColumnAt | Common/Mpc_working_data.cpp:51-80 | replacing repetition `t` of the slots writes each slot's state `t` and keeps every other repetition |
| WorkingData.SetSlotWithColumn | Common/Mpc_working_data.cpp:51-80 | writing one slot of a repetition is updating that repetition's column |
| WorkingData.WithOwnColumn | Common/Mpc_working_data.cpp:51-80 | writing back a repetition's own column changes nothing |
| WorkingData.MpcWorkingData.constructor | Common/Mpc_working_data.cpp:51-80 | the aux buffer size comes from the aux bits; when the aux buffer cannot be had, nothing is initialised; otherwise inputs, MPC inputs and outputs are allocated in that order, with a zeroed aux buffer and the message buffers of `InitialMsgs` |
| WorkingData.MpcWorkingData.Destroy | Common/Mpc_working_data.cpp:82-95 | the destructor marks the object uninitialised |
| SigrlLayout.ListParamShape | Hbgs_sigrl_list_test/Hbgs_sigrl_list_test.cpp:57-58 | a list of `n` entries needs `(2n+1)` gadgets' aux bits, 1 input, `2n+1` MPC inputs and `n+1` outputs |
| SigrlLayout.EntrySlots | Hbgs_sigrl_list_test/Hbgs_sigrl_list_test.cpp:133-149 | entry `e` uses MPC inputs `1+2e` and `2+2e` and output `1+e` |
| SigrlLayout.EntrySlotsInBounds | Hbgs_sigrl_list_test/Hbgs_sigrl_list_test.cpp:57-58 | every entry's slots lie inside the proof sized for the list: the sizes match what the loops use |
| SigrlLayout.EntryOffsets | Hbgs_sigrl_list_test/Hbgs_sigrl_list_test.cpp:90-98 | entry `e` starts at the entries' base plus `e` entry spans |
| SigrlLayout.TapeBitsMatchParam | Hbgs_sigrl_list_test/Hbgs_sigrl_list_test.cpp:69-99 | the tape bits the list occupies are its masks plus twice its aux bits |
| SigrlLayout.Spans | Include/Mpc_sigrl_entries.h:59-64 | the gadget owns 1032 bits and an entry spans 2193 bits, with 1032 aux bits |
| SigrlLayout.Layout | Hbgs_sigrl_list_test/Hbgs_sigrl_list_test.cpp:69-99 | on a list that fits below 2^32: the sku mask at `of`, the sst gadget after it, entry `e` at base + `e`·2193, and the end `of` plus the list's tape bits |
| SigrlLayout.EntryGadgetsAt | Hbgs_sigrl_list_test/Hbgs_sigrl_list_test.cpp:90-98 | entry `e`'s gadgets start at `of + 1290 + 2193e` and `of + 2322 + 2193e` |
| SigrlLayout.GadgetsDisjoint | Hbgs_sigrl_list_test/Hbgs_sigrl_list_test.cpp:69-99 | the gadgets of a placed list come after the sku mask and do not overlap |
| SigrlLayout.EmptyListStoreOutOfBounds | Hbgs_sigrl_list_test/Hbgs_sigrl_list_test.cpp:93 | on an empty list the offset store as written lands outside the offset vector |
| SigrlLayout.StoredSlotsAsWrittenInBounds | Hbgs_sigrl_list_test/Hbgs_sigrl_list_test.cpp:90-98 | the stores as written stay in bounds exactly when the list is non-empty, and then agree with the corrected ones |
| SigrlLayout.StoredSlotsInBounds | Hbgs_sigrl_list_test/Hbgs_sigrl_list_test.cpp:90-98 | the corrected stores write every slot of the vector once, in order |
| SigrlListSpec.AuxChainStep | Hbgs_sigrl_list_test/Hbgs_sigrl_list_test.cpp:133-149 | each entry's aux pass runs on the tapes the previous one left and adds that entry's two slots to the column |
| SigrlListSpec.AuxChainKeepsMask | Hbgs_sigrl_list_test/Hbgs_sigrl_list_test.cpp:115-150 | the entries' aux passes leave every mask below their gadgets unchanged |
| SigrlListSpec.AuxColumnAt | Hbgs_sigrl_list_test/Hbgs_sigrl_list_test.cpp:115-150 | slot 0 holds the sst adjustment XOR the sku mask; slot `1+2e` holds entry `e`'s key adjustment XOR the sku mask; slot `2+2e` holds its intermediate adjustment |
| SigrlListSpec.SlotsHoldColumn | Hbgs_sigrl_list_test/Hbgs_sigrl_list_test.cpp:115-150 | a column that holds every slot written by the aux pass is the aux column |
| SigrlListSpec.AuxSign | Hbgs_sigrl_list_test/Hbgs_sigrl_list_test.cpp:115-150 | the signer's aux pass fills one key slot and one intermediate slot per entry, after slot 0 |
| SigrlListSpec.AuxPassesAgree | Hbgs_sigrl_list_test/Hbgs_sigrl_list_test.cpp:152-168 | the verifier's aux pass leaves the same tapes as the signer's |
| SigrlListSpec.KeySlots | Hbgs_sigrl_list_test/Hbgs_sigrl_list_test.cpp:218-233 | an entry's first MPC input takes the key, its second does not |
| SigrlListSpec.RemaskUpToStep | Hbgs_sigrl_list_test/Hbgs_sigrl_list_test.cpp:218-233 | re-masking key slot `j` extends the re-masked prefix by that slot |
| SigrlListSpec.RemaskUpToAll | Hbgs_sigrl_list_test/Hbgs_sigrl_list_test.cpp:218-233 | once every slot is passed, the running re-mask is the whole re-masked column |
| SigrlListSpec.RemaskCancels | Hbgs_sigrl_list_test/Hbgs_sigrl_list_test.cpp:218-233 | re-masking with `sku XOR mask` turns every key slot into its adjustment XOR `sku`: the sku mask cancels |
| SigrlListSpec.SkuMaskSurvives | Hbgs_sigrl_list_test/Hbgs_sigrl_list_test.cpp:212-233 | the sku mask read after the aux passes is the one the aux pass used |
| SigrlListSpec.SkuMaskCancels | Hbgs_sigrl_list_test/Hbgs_sigrl_list_test.cpp:212-283 | the signer's simulated inputs hold the same `sku` in slot 0 and in every entry's key slot, each under its own adjustment only |
| SigrlListSpec.RunEntriesNext | Hbgs_sigrl_list_test/Hbgs_sigrl_list_test.cpp:249-281 | entry `e` is simulated on its two MPC inputs and on the messages left by the entries before it |
| SigrlListSpec.SignOutputs | Hbgs_sigrl_list_test/Hbgs_sigrl_list_test.cpp:249-281 | output 0 is sst's output; output `1+e` is entry `e`'s output when it wrote one, else the old value |
| SigrlListSpec.OutputsHoldDone | Hbgs_sigrl_list_test/Hbgs_sigrl_list_test.cpp:249-281 | an output column holding every simulation's output is the one the signer's pass specifies |
| SigrlListSpec.VerifyEntriesStops | Hbgs_sigrl_list_test/Hbgs_sigrl_list_test.cpp:322-372 | after an entry is rejected, later entries do not change the verdict |
| SigrlListSpec.VerifyEntriesAccept | Hbgs_sigrl_list_test/Hbgs_sigrl_list_test.cpp:322-372 | the entries are accepted exactly when every simulation succeeds and outputs its `A_j`; the messages are then those of the run |
| SigrlListSpec.AllReproduceSnoc | Hbgs_sigrl_list_test/Hbgs_sigrl_list_test.cpp:364-369 | one more entry keeps the run reproducing exactly when it succeeds with its own `A_j` |
| SigrlListSpec.VerifyAcceptRule | Hbgs_sigrl_list_test/Hbgs_sigrl_list_test.cpp:285-374 | the verifier accepts exactly when the sst simulation succeeds and every entry reproduces its `A_j` |
| SigrlListSpec.VerifyRejectsAlteredCheckValue | Hbgs_sigrl_list_test/Hbgs_sigrl_list_test.cpp:364-369 | changing one `A_j` away from what the simulation outputs makes the verifier reject |
| SigrlListSpec.HonestRepetitionAccepted | Hbgs_sigrl_list_test/Hbgs_sigrl_list_test.cpp:285-374 | on the signer's own inputs and outputs, the verifier accepts and reproduces the signer's messages |
| SigrlListSpec.ListGadgetsAt | Hbgs_sigrl_list_test/Hbgs_sigrl_list_test.cpp:170-188 | aux bits are visited for the sst gadget, then each entry's gadget a and gadget a_j |
| SigrlListSpec.ListGadgetsPlaced | Hbgs_sigrl_list_test/Hbgs_sigrl_list_test.cpp:170-188 | for a placed list, the gadgets visited are those of the tape layout |
| SigrlListSpec.AuxBitsOf | Hbgs_sigrl_list_test/Hbgs_sigrl_list_test.cpp:170-188 | the concatenated aux bits hold one block of `AndsBits` per gadget |
| SigrlListSpec.StoreAuxElsewhere | Hbgs_sigrl_list_test/Hbgs_sigrl_list_test.cpp:190-210 | storing aux bits leaves the aux bits of a gadget that overlaps none of them unchanged |
| SigrlListSpec.AuxRoundTrip | Hbgs_sigrl_list_test/Hbgs_sigrl_list_test.cpp:170-210 | reading back aux bits stored for disjoint gadgets gives the bits stored |
| SigrlListSpec.PlacedGadgetsDisjoint | Hbgs_sigrl_list_test/Hbgs_sigrl_list_test.cpp:69-99 | the gadgets of a list that fits on the tapes do not overlap |
| SigrlListSpec.PlacedAuxRoundTrip | Hbgs_sigrl_list_test/Hbgs_sigrl_list_test.cpp:170-210 | for a placed list, `set_aux_bits` followed by `get_aux_bits` gives back the bits |
| SigrlList.AuxSignEntries | Hbgs_sigrl_list_test/Hbgs_sigrl_list_test.cpp:133-149 | the entry loop leaves the tapes of the aux chain and writes each entry's two slots as the aux column says |
| SigrlList.SimulateSignColumn | Hbgs_sigrl_list_test/Hbgs_sigrl_list_test.cpp:212-283 | the signer's pass re-masks every key slot, writes the outputs and messages the simulation specifies, and returns the last simulation's status |
| SigrlList.VerifyEntriesLoop | Hbgs_sigrl_list_test/Hbgs_sigrl_list_test.cpp:322-372 | the verifier's entry loop returns the verdict and messages of `VerifyEntries` over the whole list |
| SigrlList.CopyColumn | Hbgs_sigrl_list_test/Hbgs_sigrl_list_test.cpp:431-447 | the copy holds repetition `t` of each of the first `n` slots |
| SigrlList.CheckAjAndBj | Hbgs_sigrl_list_test/Hbgs_sigrl_list_test.cpp:552-567 | accepts exactly when no list entry is linked to the signature's `A_j` |
| SigrlList.RevokedKeyRejected | Hbgs_sigrl_list_test/Hbgs_sigrl_list_test.cpp:640-646 | a signature whose `A_j` were computed from a revoked key fails the linking check |
| SigrlList.GatherCommitment | Hbgs_sigrl_list_test/Hbgs_sigrl_list_test.cpp:377-393 | the committed bytes are the first MPC input, then each party's written messages in party order |
| SigrlList.CalculateSid | Hbgs_sigrl_list_test/Hbgs_sigrl_list_test.cpp:458-472 | `sid` is the hash of the nonce and the digest, squeezed to a state, with the bits past the block size cleared |
| SigrlList.HonestCommitmentsAgree | Hbgs_sigrl_list_test/Hbgs_sigrl_list_test.cpp:377-410 | on the signer's own inputs, the verifier commits to the same view bytes as the signer |
| SigrlList.HbgsSigrlListTest.constructor | Hbgs_sigrl_list_test/Hbgs_sigrl_list_test.cpp:50-62 | keeps `sid`, `r` and the list; sizes the proof for the list; starts with a zero key, null offsets and one offset per entry |
| SigrlList.HbgsSigrlListTest.SetSku | Hbgs_sigrl_list_test/Hbgs_sigrl_list_test.cpp:63-67 | sets the secret key |
| SigrlList.HbgsSigrlListTest.SetOffsets | Hbgs_sigrl_list_test/Hbgs_sigrl_list_test.cpp:69-99 | places the sku mask, the sst gadget and every entry as the layout says, and returns the end of the list's tape region |
| SigrlList.HbgsSigrlListTest.ComputeAuxTapeSign | Hbgs_sigrl_list_test/Hbgs_sigrl_list_test.cpp:115-150 | the tapes and repetition `t` of the MPC inputs become those of `AuxSign`; other repetitions are unchanged |
| SigrlList.HbgsSigrlListTest.ComputeAuxTapeVerify | Hbgs_sigrl_list_test/Hbgs_sigrl_list_test.cpp:152-168 | the verifier's aux pass leaves the tapes the signer's does |
| SigrlList.HbgsSigrlListTest.GetAuxBits | Hbgs_sigrl_list_test/Hbgs_sigrl_list_test.cpp:170-188 | the buffer starts with the aux bits of every gadget of the list in order; the rest is unchanged |
| SigrlList.HbgsSigrlListTest.SetAuxBits | Hbgs_sigrl_list_test/Hbgs_sigrl_list_test.cpp:190-210 | consecutive blocks of the bits are stored as the aux bits of every gadget of the list, in order |
| SigrlList.HbgsSigrlListTest.MpcSimulateSign | Hbgs_sigrl_list_test/Hbgs_sigrl_list_test.cpp:212-283 | repetition `t`'s MPC inputs are re-masked with the masked key; its outputs and messages become those of the simulation on them |
| SigrlList.HbgsSigrlListTest.MpcSimulateAndVerify | Hbgs_sigrl_list_test/Hbgs_sigrl_list_test.cpp:285-374 | the verdict and messages are those of `Verify` on the proof's MPC inputs and the given `A_j` |
| SigrlList.HbgsSigrlListTest.SaveProofData | Hbgs_sigrl_list_test/Hbgs_sigrl_list_test.cpp:431-447 | the proof's inputs, MPC inputs and outputs become repetition `t` of the working data's, as many as the proof holds |
| SigrlList.HbgsSigrlListTest.CommitVSign | Hbgs_sigrl_list_test/Hbgs_sigrl_list_test.cpp:377-393 | the commitment is the hash of the view transcript of repetition `t` |
| SigrlList.HbgsSigrlListTest.CommitVVerify | Hbgs_sigrl_list_test/Hbgs_sigrl_list_test.cpp:395-410 | the verifier's commitment is the hash of the same transcript, built from the proof and the simulated messages |
| SigrlList.HbgsSigrlListTest.CalculateHcp | Hbgs_sigrl_list_test/Hbgs_sigrl_list_test.cpp:412-429 | the challenge is the hash of the challenge transcript |
| SigrlList.HbgsSigrlListTest.ComputeSaltAndRootSeed | Hbgs_sigrl_list_test/Hbgs_sigrl_list_test.cpp:101-113 | the salt and root seed are `len` bytes squeezed from the salt transcript |
| SigrlList.HbgsSigrlListTest.Reset | Hbgs_sigrl_list_test/Hbgs_sigrl_list_test.cpp:449-456 | the key is zeroed and the sku mask offset is null again |
| Transcripts.FlattenAt | Hbgs_sigrl_list_test/Hbgs_sigrl_list_test.cpp:377-393 | chunk `i` of equal-width chunks sits at `i·w` in their concatenation |
| Transcripts.CommitVTranscriptInjective | Hbgs_sigrl_list_test/Hbgs_sigrl_list_test.cpp:377-393 | views at the same message position with equal transcripts have the same first input and the same messages |
| Transcripts.HcpTranscriptInjective | Hbgs_sigrl_list_test/Hbgs_sigrl_list_test.cpp:412-429 | the challenge transcript determines every field it was built from |
| Transcripts.Le16RoundTrip | Hbgs_sigrl_list_test/Hbgs_sigrl_list_test.cpp:101-113 | a 16-bit integer written little-endian reads back as itself |
| Transcripts.SaltTranscriptLayout | Hbgs_sigrl_list_test/Hbgs_sigrl_list_test.cpp:101-113 | the salt transcript is `sid`, the nonce, then the block size 129 as two little-endian bytes |
| Transcripts.SidTranscript | Hbgs_sigrl_list_test/Hbgs_sigrl_list_test.cpp:458-472 | the sid is squeezed from the nonce followed by the digest |
| Transcripts.ZeroTrailingBitsSpec | Include/Hbgs_lowmc_hash.h:79 | clearing the bits past the 129-bit block keeps the first 16 bytes and the top bit of the last byte, clears the rest, and is idempotent |
| RevocationLists.ListNamesDistinct | Common/Hb_epid_revocation_lists.cpp:21-24 | the three list names are different single tokens |
| RevocationLists.DefaultEntry | Include/Hb_epid_revocation_lists.h:29-50 | a default entry is of its list's type |
| RevocationLists.PrintEntry | Include/Hb_epid_revocation_lists.h:75-146 | a pair entry (lines 75-82) prints as a line of 69 characters: 34 digits, a tab at position 34, 34 digits and a newline; a single-state entry (lines 141-146) prints as a line of 35 characters: 34 digits and a newline |
| RevocationLists.ReadEntrySpec | Include/Hb_epid_revocation_lists.h:84-92 | reading keeps the entry's type |
| RevocationLists.ReadEntry | Include/Hb_epid_revocation_lists.h:84-92 | `read_entry` is `ReadEntrySpec` |
| RevocationLists.ReadEntryFailures | Include/Hb_epid_revocation_lists.h:84-92 | a failed first state zeroes it and leaves the second; a failed second zeroes it; success needs the first read to succeed |
| RevocationLists.ReadEntryRoundTrip | Include/Hb_epid_revocation_lists.h:75-92 | a printed entry, after any whitespace, reads back as itself and the stream stops right after its line |
| RevocationLists.NatToStringRoundTrip | Include/Hb_epid_revocation_lists.h:204-208 | a count printed in decimal is all digits and has that value |
| RevocationLists.ReadCountRest | Include/Hb_epid_revocation_lists.h:188-190 | `>> n_entries` leaves the text as it was; where it stops and whether it fails are stated by `ReadSignedCountAt` and `ReadCountFailures` |
| RevocationLists.ReadCountStored | Include/Hb_epid_revocation_lists.h:188-190 | a value stored in `n_entries` fits a 64-bit `size_t`; when nothing is stored, the stream has failed |
| RevocationLists.ReadCountValue | Include/Hb_epid_revocation_lists.h:188-195 | the count passed to `resize` fits a 64-bit `size_t` |
| RevocationLists.SignedCountSpec | Include/Hb_epid_revocation_lists.h:190 | a count without a minus sign that fits is stored as written; one above `SIZE_MAX` stores `SIZE_MAX`; a minus sign stores 2^64 minus the magnitude, so "-1" stores `SIZE_MAX` and "-0" stores 0 |
| RevocationLists.ReadCountFailures | Include/Hb_epid_revocation_lists.h:190 | a failed count read stored nothing, 0 (no digit) or `SIZE_MAX` (overflow); when nothing was stored the count is 0 |
| RevocationLists.ReadSignedCountAt | Include/Hb_epid_revocation_lists.h:190 | after whitespace, an optional sign and a run of digits are consumed up to the first non-digit; the stream stays good exactly when the magnitude fits, and the signed value is stored |
| RevocationLists.PlusSignCount | Include/Hb_epid_revocation_lists.h:190-195 | "sigRL +2 entries" reads a count of 2 and gives a list of 2 entries |
| RevocationLists.MinusOneTerminates | Include/Hb_epid_revocation_lists.h:190-195 | "sigRL -1 entries" stores `SIZE_MAX`, so `resize` throws inside a `noexcept` function and the program ends |
| RevocationLists.OverflowTerminates | Include/Hb_epid_revocation_lists.h:190-195 | a count above `SIZE_MAX` is stored as `SIZE_MAX` with the failbit set, and the program ends |
| RevocationLists.CountUnsetOnBareName | Include/Hb_epid_revocation_lists.h:187-190 | as written: on "sigRL\n" or on empty input the sentry of `>> n_entries` fails and nothing is stored in `n_entries` |
| RevocationLists.ReadRlNoCount | Include/Hb_epid_revocation_lists.h:187-202 | with `n_entries` starting at 0, a header without a count reads as an empty list and leaves the stream failed |
| RevocationLists.ReadHeaderRoundTrip | Include/Hb_epid_revocation_lists.h:185-195 | a printed header whose count fits `size_t` reads back as its count, and leaves the stream on its newline |
| RevocationLists.ResizedSpec | Include/Hb_epid_revocation_lists.h:171 | resizing keeps the entries that fit, appends only default entries, and keeps every entry of the list's type |
| RevocationLists.ReadRlSpec | Include/Hb_epid_revocation_lists.h:185-202 | the program ends exactly when the count read is 2^63 or more, where `resize` always throws; otherwise the list read has the length of that count |
| RevocationLists.ReadEntriesRoundTrip | Include/Hb_epid_revocation_lists.h:196-201 | printed entries, read over entries of the same types, give back the printed entries |
| RevocationLists.ReadRlRoundTrip | Include/Hb_epid_revocation_lists.h:185-208 | for a list of fewer than 2^63 entries, `read_rl` of what `print_rl` wrote, whatever follows, does not end the program and gives back the list, whatever the list held before |
| RevocationLists.HbEpidRl.constructor | Include/Hb_epid_revocation_lists.h:159 | a new list is empty |
| RevocationLists.HbEpidRl.Copy | Include/Hb_epid_revocation_lists.h:160 | a copy has the same kind and entries |
| RevocationLists.HbEpidRl.Add | Include/Hb_epid_revocation_lists.h:180-183 | the entry is appended; earlier entries are unchanged |
| RevocationLists.HbEpidRl.Clear | Include/Hb_epid_revocation_lists.h:170 | the list becomes empty |
| RevocationLists.HbEpidRl.Resize | Include/Hb_epid_revocation_lists.h:171 | the list becomes its resized self |
| RevocationLists.HbEpidRl.Name | Include/Hb_epid_revocation_lists.h:174 | the list's name is one token, so `>> rl_name` reads it back whole |
| RevocationLists.HbEpidRl.PrintRl | Include/Hb_epid_revocation_lists.h:204-208 | what `print_rl` writes for a valid list of fewer than 2^63 entries, `read_rl` reads back into an empty list of the same kind as the same entries |
| RevocationLists.HbEpidRl.ReadRl | Include/Hb_epid_revocation_lists.h:185-202 | ends the program exactly when `ReadRlSpec` does, with the list untouched; otherwise reports success, and the entries and the stream become those of `ReadRlSpec` |
| Lowmc32.PrintLowmcStateBytes | Common/Lowmc32.cpp:26-30 | a state prints as 34 hexadecimal digits, two per byte |
| Lowmc32.ReadLoop | Common/Lowmc32.cpp:45-98 | the loop never changes the text, and a failed read leaves the state zero |
| Lowmc32.ReadLowmcStateBytes | Common/Lowmc32.cpp:45-98 | the method's status, state and stream are those of the specification |
| Lowmc32.ReadLoopDigit | Common/Lowmc32.cpp:45-98 | a non-space character is lower-cased and either held as the first digit or combined with the held one; a bad pair fails |
| Lowmc32.ReadLoopStop | Common/Lowmc32.cpp:45-98 | the loop stops at end of input, at whitespace or on a full state |
| Lowmc32.ReadLowmcStateBytesSound | Common/Lowmc32.cpp:45-98 | a successful read decodes the 34 digits after the skipped whitespace, byte by byte; a failed one leaves the state zero |
| Lowmc32.ReadLowmcStateBytesRoundTrip | Common/Lowmc32.cpp:26-98 | a printed state, after any whitespace, reads back as itself |
| Lowmc32.Hash1bChains | Common/Lowmc32.cpp:100-117 | `Hash1b(a, b, c)` is `Hash1a(Hash1a(a, b), c)`, as the commented-out call at line 114 would compute |
| Lowmc32.Hash1a | Common/Lowmc32.cpp:100-106 | the result is the encryption of `b` under key `a` with `b` fed forward: XORing `b` into it again gives the cipher output back |
| Lowmc32.Hash1b | Common/Lowmc32.cpp:108-117 | the result is the encryption of `c` under the key `Hash1a(a, b)` with `c` fed forward: XORing `c` into it again gives that cipher output back |
| IoUtils.StrToLowerSpec | Common/Io_utils.cpp:51-58 | `StrToLower` keeps the length, maps each character by `tolower`, leaves no capital, touches nothing else, idempotent |
| IoUtils.StrToLower | Common/Io_utils.cpp:51-58 | the lower-cased string has the length of the input; its characters are stated by `StrToLowerSpec` |
| IoUtils.StrToUpperSpec | Common/Io_utils.cpp:60-67 | `StrToUpper` keeps the length, maps each character by `toupper`, leaves no small letter, touches nothing else, idempotent |
| IoUtils.StrToUpper | Common/Io_utils.cpp:60-67 | the upper-cased string has the length of the input; its characters are stated by `StrToUpperSpec` |
| IoUtils.LowerOfUpper | Common/Io_utils.cpp:51-67 | lower-casing after upper-casing is lower-casing |
| IoUtils.Find | Common/Io_utils.cpp:22-31 | the first position at or after `from` holding the character, or none if there is none |
| IoUtils.MakeFilename | Common/Io_utils.cpp:22-31 | the file name is the base directory, the separator and the name, with every alternative separator replaced |
| IoUtils.MakeFilenameShape | Common/Io_utils.cpp:22-31 | the made name is the normalised directory, one separator and the normalised name, with no alternative separator |
| IoUtils.NormaliseFixes | Include/Io_utils.h:23-24 | normalising changes a name exactly when it holds an alternative separator, and is idempotent |
| IoUtils.HexByte | Common/Io_utils.cpp:102-109 | a byte prints as two lowercase hexadecimal digits |
| IoUtils.HexByteRoundTrip | Common/Io_utils.cpp:102-124 | the two printed digits of a byte read back as that byte |
| IoUtils.PrintBufferSpec | Common/Io_utils.cpp:69-84 | `PrintBuffer`: an empty buffer prints "buffer empty"; otherwise byte `i` prints as digits `2i` and `2i+1`, all lowercase hexadecimal |
| IoUtils.PrintBuffer | Common/Io_utils.cpp:69-84 | an empty buffer prints the 12 characters of "buffer empty", any other prints two characters per byte |
| IoUtils.PrintBufferAsCharsSpec | Common/Io_utils.cpp:86-100 | `PrintBufferAsChars` writes one character per byte; printable and whitespace bytes are kept, the others replaced |
| IoUtils.PrintBufferAsChars | Common/Io_utils.cpp:86-100 | one character is written per byte |
| IoUtils.Get | Common/Io_utils.cpp:111-124 | `get` yields the next character exactly when the stream is good and not at its end, and otherwise sets the failbit |
| IoUtils.SkipWs | Common/Lowmc32.cpp:45-98 | skipping whitespace keeps the text and the state flags and only moves forward, within the text |
| IoUtils.SkipWsSpec | Common/Lowmc32.cpp:45-98 | what is skipped is whitespace, and skipping stops at end of input or at a non-space |
| IoUtils.SkipWsAt | Common/Lowmc32.cpp:45-98 | a run of whitespace ended by a non-space or the end is skipped exactly |
| IoUtils.ReadHexByteSpec | Common/Io_utils.cpp:111-124 | `ReadHexByte`: a byte is read exactly when the next two characters are hexadecimal digits; it is their value and both are consumed |
| IoUtils.ReadHexBytesAsWritten | Common/Io_utils.cpp:126-142 | as written: at most `n` bytes are written, and success comes exactly with all `n` written, though not only from input that holds them |
| IoUtils.TruncatedInputAccepted | Common/Io_utils.cpp:126-142 | as written, reading two bytes from "ab" reports success and writes 0xab twice |
| IoUtils.HexBytesFromShape | Common/Io_utils.cpp:126-142 | success means all `n` pairs were there and were consumed; failure means fewer than `n` bytes were written |
| IoUtils.HexBytesFromValues | Common/Io_utils.cpp:126-142 | each byte written is the value of its pair of characters, in order |
| IoUtils.ReadHexBytesNeedsInput | Common/Io_utils.cpp:126-142 | the corrected reader never succeeds on fewer than `2n` characters |
| IoUtils.ReadHexBytesRoundTrip | Common/Io_utils.cpp:69-84 | the corrected `read_hex_bytes` inverts `print_buffer` |
| IoUtils.ReadHexBytes | Common/Io_utils.cpp:126-142 | the buffer receives the decoded bytes in order; cells past them are unchanged; status and stream are those of the corrected reader |
| MemUint.LeRoundTrip | Include/Mem_uint.h:26-58 | a value below `256^w` has its `w` little-endian bytes read back as itself |
| MemUint.BeValueReverse | Include/Mem_uint.h:44-58 | reading reversed bytes big-endian is reading them little-endian |
| MemUint.StoredAt | Include/Mem_uint.h:26-39 | byte `k` of the stored buffer is the value's byte in the chosen order below the width, and zero from there on |
| MemUint.StoreLoadRoundTrip | Include/Mem_uint.h:26-58 | storing a value in exactly its own width and loading it in the same byte order gives the value |
| MemUint.UintToMem | Include/Mem_uint.h:26-39 | fails and leaves the buffer alone when the integer is wider than `len`; otherwise the first `len` bytes hold the value's bytes then zeros, and the rest is untouched |
| MemUint.MemToUint | Include/Mem_uint.h:44-58 | fails and leaves the result alone when `len` exceeds the integer's width; otherwise returns the value of the bytes in the chosen order, which fits the integer |
| EpidSignature.RevocationSignature.Default | Include/Hbgs_epid_signature.h:44 | the default record references "unset", has every byte field zero, and holds no `A_j` and no proof bytes |
| EpidSignature.RevocationSignature.constructor | Common/Hbgs_epid_signature.cpp:16-26 | the record keeps the list reference and copies `str`, `sid`, `sst` and `r`; it starts with no `A_j` and no proof bytes |

## Left out

- LowMC itself, the gadgets' AND-gate simulation and aux computation (the bodies of `Mpc_lowmc64`), reading masks from tapes, and the hash (`HashInit`/`HashSqueeze`) are not modelled. They are function parameters; laws are stated only where a proof needs them.
- `Mpc_parameters.h` is not part of this model. Its values are fixed here at the Picnic3-L1 set: 129-bit states in 17 bytes, 516 AND bits, 250 repetitions, 16 parties, and 32-byte digests, salts and nonces.
- `Mpc_lowmc64::set_offsets` has no body in the source files shown. It is modelled as placing the gadget at `of` and returning `of` plus its tape bits, which is what `Mpc_sigrl_entry::set_offsets`'s span arithmetic relies on.
- The 64-bit-word state variants (`print_lowmc_state_words`, `read_lowmc_state_words`, `allocate_inputs64`'s word padding) are not modelled separately. States are 17-byte strings, and the word forms are read and printed through their byte forms.
- `pos` in `get_aux_bits`/`set_aux_bits`, and the tapes, are threaded as values. The in-place update of `randomTape_t` through a pointer, and any aliasing between tapes, are not modelled.
- `a_j` is held as a sequence of states rather than as an `Epid_a_rl` of list entries.
- The commitments and the challenge are modelled as hashes of byte transcripts. The Merkle trees, the seed tree, `Mpc_seeds_and_tapes`, and commit_c (which hashes the aux buffer in `Picnic_mpc_functions.c`) are not modelled.
- `Transcripts.ZeroTrailingBitsSpec` assumes Picnic's most-significant-bit-first order within a byte, because `zeroTrailingBits` is foreign code.
- `numBytes(static_cast<uint32_t>(msgs->pos))` is modelled without the cast, because message positions stay far below 2^32.
- `SigrlList.HbgsSigrlListTest.SetOffsets`: requires the list to have fewer than 2^32 entries, because the source casts the size to `uint32_t`.
- The verifier's comparisons of the simulated `sst` against the proof's output and against `Revocation_checking_data::sst_` (lines 309-319), and of each entry's output against the proof's (lines 356-362), only print a warning. The model follows the code, so they do not affect the verdict. Only the simulations' status and the comparison with `A_j` decide acceptance.
- `read_rl` prints a warning on a wrong list name but carries on and returns true. The model follows the code and ignores the name.
- `RevocationLists.ReadCountValue`: `is >> n_entries` follows libstdc++'s `num_get` on a 64-bit `size_t`: optional sign, saturation at `SIZE_MAX`, wrap-around of a negative count, 0 when no digit follows. When the sentry fails (a failed stream, or only whitespace left), nothing is stored and the source then reads the uninitialised `n_entries`. The model takes that value as 0, the corrected behaviour; see Findings.
- `RevocationLists.ReadRlSpec`: the program is modelled as ending only for counts of 2^63 or more, where `resize` must throw inside the `noexcept` `read_rl`. A smaller count above the vector's actual `max_size()`, or one whose allocation fails, also ends the program in the source; the model instead resizes to it.
- `RevocationLists.ReadRlRoundTrip`: requires fewer than 2^63 entries, because no list can hold more.
- `IoUtils.ReadHexByte` carries no contract of its own: what it reads and consumes is stated by the lemma `IoUtils.ReadHexByteSpec`.
- `RevocationLists.HbEpidRl.Size` carries no contract: it returns the number of entries, and the other members' contracts speak of `rl` directly.
- The end-of-file bit of the streams is folded into the read position. `Stream.good` stands for "no extraction has failed".
- `save_rl` (which opens a file), `operator[]`, `shrink_to_fit` and `empty` are not modelled. Files, `std::cout`/`std::cerr` output, timing (`Clock_utils`), the command line, `get_environment_variable` and `eat_white` are left out as I/O.
- The accessors of `Revocation_signature` (`str()`, `sid()`, `sst()`, `rv()`, `siglen()`, `rev_check()`, `sig_buf()`, `sig()`) carry no contracts. They return their fields, and the constructors' contracts are stated through them. `print_rs`/`read_rs` are not modelled.
- `MemUint.MemToUint`: requires `len >= 1`. With `len == 0` and little-endian order the source reads `mem_addr[len - 1]`, one byte before the buffer.
- `MemUint.UintToMem`: the integer type `U` is its byte width `width`, and its value a natural number below `256^width`.
- `SigrlList.HbgsSigrlListTest.constructor`: `mpc_param_` is a `static` member in the source, shared by every instance and overwritten by each constructor, and `sigrl_list_test` reads it through the class name. The model keeps a copy per object, so it does not capture a second instance changing the sizes the first one uses.
- `WorkingData.InitialMsgs`: `allocate_msgs` is declared in Include/Mpc_utils.h:73; its definition is not part of this model. The model assumes it gives each repetition one zero-filled buffer of `size` bytes per party, with the message position at 0.
- Repetitions are independent and may run in parallel in the source. The model treats one repetition at a time and leaves concurrency out.

## Findings

| source | as written | input that shows it | evidently intended | confidence | as-written member | corrected member |
|---|---|---|---|---|---|---|
| Hbgs_sigrl_list_test/Hbgs_sigrl_list_test.cpp:93 | `sigrl_entry_offsets_[0] = next_offset;` runs before the loop, whatever the list's size | an empty sigRL: the vector was resized to 0, so element 0 is written out of bounds | write entry `e`'s offset only for `e < srl_.size()`, starting the loop at 0 | not executed | SigrlLayout.EmptyListStoreOutOfBounds | SigrlList.HbgsSigrlListTest.SetOffsets |
| Common/Io_utils.cpp:126-142 | the two-character buffer `hstr` is declared once, outside the loop, and `is.get` failures are not checked | asking for 2 bytes from the text "ab": the second pair's `get` calls fail, `hstr` still holds "ab", and the call returns true with 0xab written twice | fail when fewer than `2n` characters remain (a fresh buffer per pair, or a check of the stream) | not executed | IoUtils.TruncatedInputAccepted | IoUtils.ReadHexBytesRoundTrip |
| Include/Hb_epid_revocation_lists.h:187-195 | `size_t n_entries;` has no initialiser, and `is >> n_entries` stores nothing when its sentry fails | the text "sigRL\n", or empty input: `rl_.resize(n_entries)` reads an uninitialised value | start `n_entries` at 0, so that a missing count gives an empty list | not executed | RevocationLists.CountUnsetOnBareName | RevocationLists.ReadRlNoCount |
