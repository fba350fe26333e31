# Marshaling and sessions of the TPM 2.0 software stack, modelled in Dafny

The project models two parts of the stack and proves what they promise.

**The wire codec** (`src/tss2-mu`, `src/tss2-esys/esys_mu.c`). Every macro family that prints and
parses TPM structures is one constructor of the datatype `MuFormat.Format`; a structure is a
constant of that type (`TpmFormats`). `Encode` and `Decode` say what the bytes are; `MuWire` and
`TpmWire` write them out down to the scalars, with every selector and width as a number.
`MuMarshal` and `MuUnmarshal` are the functions that write and read them: they carry a local
offset through a buffer, return early on errors, and run in the modes of the original (real run,
size query without a buffer, skip without a destination). `Printed` and `Parsed` are their
contracts. On top stand sized structures with a length that is patched in afterwards (`EsysMu`),
sessions and resources (`EsysResource`), their bytes written out field by field (`EsysWire`), and the
two passes of serialization (`EsysSerial`).

**The session machinery** (`esys_tr.c`, `esys_iutil.c`, `esys_crypto.c`). `EsysTr` is the linked list
of resource nodes on the heap, proved against the table of `EsysTable`, whose runs have the
invariant. `EsysCrypto` has the counter loops of KDFa and KDFe and XOR obfuscation over an abstract
crypto backend; the only facts asked of it are the lengths of its results and that CFB decryption
inverts CFB encryption (`EsysCrypto.Lawful`). `EsysSession`, `EsysParam`, `EsysAuth` and `EsysResponse`
follow a command: which sessions it may use, the table of three sessions, encryption of the first
parameter, one parameter hash per algorithm, the list of authorizations, and the check and
decryption of the response. `EsysExchange` and `EsysCommand` close the circle with a reference TPM. `EsysName`
computes names.

Code that works on buffers, nodes and arrays in place is a method on arrays and classes, with an
`ensures` that ties the new state to a function of the old one. The lemmas are about those functions.

Where the code does something its callers might not expect, it is kept and the exact condition is
proved:

- A size query for a sized structure believes the stored size field, the real run writes the true
  length: the passes agree if and only if the field is true (`EsysSerial.SizePassExactIff`).
- Reading a sized structure drops the return code of its member and ignores where the announced size
  ends: printing gives the consumed bytes back if and only if the member parsed to just that size
  (`EsysMu.SubCanonicalIff`, `EsysMu.SubAcceptsNothing`).
- A byte table is skipped without a look at the size of the input (`MuSkip.SkipFollowsRead`,
  `TpmFormats.HashSkipRunsOver`).
- A serialized session counts its session value with 16 bits, and as many bytes are copied into an
  array of 128: loading leaves the array if and only if the count is larger than that and the input
  has the bytes (`EsysResource.LoadFitsIff`). Behind the array are another field, padding, and the
  pointer to the next node; the model does not tell how far a write goes, `Broken` stands for any
  (`EsysTable.InvariantAlwaysIff`, `EsysTable.OverlongBreaks`).
- A serialized session brings the size of its HMAC key along. Computing its session value sets that
  size only for HMAC and policy sessions that are given the name of an object; after any other
  computation the key fits its array if and only if it did before, and is read past it otherwise
  (`EsysSession.HmacFitsAfterIff`, `EsysAuth.LooseKey`, `EsysAuth.GenOkIff`).
- Skipping an attestation passes selector 0 and stops short if and only if its type has a case
  (`TpmFormats.AttestSkip`).
- The handle counter wraps at 32 bits: the list invariant holds throughout a run of fitting loads if
  and only if it does not (`EsysTable.InvariantAlwaysIff`, `EsysTable.WrapCollides`).
- The AES key of a session is derived before its size is looked at: sizes that the array has no room
  for run over it, other unsupported sizes are refused (`EsysParam.KeyOverrunsIff`,
  `EsysParam.OddKeySizes`).
- The length of an encrypted response parameter is held against the whole response without its size
  field: the region may end two bytes past the response (`EsysResponse.RegionInsideIff`,
  `EsysResponse.DecryptReachesPast`).
- One session behind the first that both encrypts and decrypts puts its nonce into the first HMAC
  twice, where a TPM expects it once (`EsysCommand.MessageIff`, `EsysCommand.CommandAcceptedIff`).
- A response that fails the check has left its nonce and attributes in the session
  (`EsysResponse.CheckRpHmacs`).
- KDFe keeps its byte count in an INT16 and derives as many bytes as asked if and only if there are
  fewer than 32768 (`EsysCrypto.KdfeLengthIff`, `EsysCrypto.KdfeDerivesNothing`).
- A name that fills the name buffer is compared without the authorization value
  (`EsysSession.FullNameIgnoresAuth`).

Running past the end of an array is the outcome `OutOfBounds`. Contracts say when it happens and
promise nothing of the state after it.

## Model

| member | source | states |
|---|---|---|
| MuLaws.RoundTrip | src/tss2-mu/tpmt-types.c:392-487 | Parsing what was printed gives the value back and stops where its bytes end, for every structure and whatever follows |
| MuLaws.RoundTripFields | src/tss2-mu/tpms-types.c:346-418 | The same for the fields of a record, where a union is read under a selector that was read before |
| MuLaws.RoundTripCase | src/tss2-mu/tpmu-types.c:269-412 | The same for the members of a union |
| MuLaws.RoundTripAll | src/tss2-mu/tpml-types.c:21-151 | The same for the elements of a list |
| MuLaws.PrefixFree | src/tss2-mu/tpmu-types.c:269-412 | No encoding is the beginning of the encoding of another value |
| MuLaws.Canonical | src/tss2-mu/tpml-types.c:88-151 | Whatever is accepted prints back to exactly the bytes that were consumed |
| MuLaws.CanonicalFields | src/tss2-mu/tpms-types.c:247-278 | The same for records with unions, zero bytes standing for selectors without a case |
| MuLaws.CanonicalPcr | src/tss2-mu/tpms-types.c:82-144 | The same for PCR selections, whose size byte is checked on the way in |
| MuLaws.GradesNested | src/tss2-mu/tpml-types.c:88-151 | What the unmarshaler produces the marshaler accepts |
| MuAgreement.PrintThenParse | src/tss2-mu/base-types.c:17-143 | A marshal call followed by an unmarshal call at the same offset returns the value and the same end offset, whatever else the buffer holds |
| MuAgreement.ParseThenPrint | src/tss2-mu/base-types.c:17-143 | Marshaling a value where it was read changes nothing in the buffer and moves the offset equally far |
| MuMarshal.Marshal | src/tss2-mu/tpms-types.c:346-382 | Success exactly for printable values that fit; then only the bytes of the value change; on failure the offset stays |
| MuMarshal.MarshalBlock | src/tss2-mu/base-types.c:17-76 | Base integers: success exactly when the bytes fit or there is no buffer; then the offset moves past them and the buffer holds them there, and is the same before and behind |
| MuMarshal.MarshalSized | src/tss2-mu/tpm2b-types.c:18-76 | Size and content are checked together and written one after the other |
| MuMarshal.MarshalPcr | src/tss2-mu/tpms-types.c:21-80 | A selection of more than four bytes is refused before anything is written |
| MuMarshal.MarshalList | src/tss2-mu/tpml-types.c:21-86 | Count, then elements; too many elements are a bad value; the size query needs the room as well |
| MuMarshal.MarshalItems | src/tss2-mu/tpml-types.c:68-79 | The loop writes the concatenation of the encodings, or fails with the first element that fails |
| MuMarshal.MarshalFields | src/tss2-mu/tpmt-types.c:392-439 | Field after field through one local offset; the caller's offset moves at the end only |
| MuMarshal.MarshalCase | src/tss2-mu/tpmu-types.c:269-320 | The switch: the member of the selector, or nothing |
| MuMarshal.MarshalArray | src/tss2-esys/esys_mu.c:32-66 | A byte array is held against the size even when only measuring |
| MuMarshal.PrintedThen | src/tss2-mu/tpms-types.c:280-312 | Two calls in a row act as one call for both |
| MuUnmarshal.Unmarshal | src/tss2-mu/tpms-types.c:384-418 | The outcome is that of the decoder on the bytes between offset and size; on failure the offset stays |
| MuUnmarshal.UnmarshalBase | src/tss2-mu/base-types.c:79-143 | Big-endian integers: the outcome, the offset and the number as the bytes at the offset spell it |
| MuUnmarshal.UnmarshalSized | src/tss2-mu/tpm2b-types.c:78-142 | The size read must fit the rest and the buffer of the structure |
| MuUnmarshal.UnmarshalTab | src/tss2-mu/tpmu-types.c:69-104 | Reading checks the size of the buffer, skipping does not |
| MuUnmarshal.UnmarshalPcr | src/tss2-mu/tpms-types.c:82-144 | The byte loop reads as many bytes as the size byte says, at most four |
| MuUnmarshal.UnmarshalItems | src/tss2-mu/tpml-types.c:136-142 | The loop reads the elements in order and fails with the first that fails |
| MuUnmarshal.UnmarshalFields | src/tss2-mu/tpmt-types.c:441-487 | Fields in order, the selector of a union taken from what was read |
| MuUnmarshal.UnmarshalCase | src/tss2-mu/tpmu-types.c:361-412 | The switch on the way in |
| MuWire.BigEndian | src/tss2-mu/base-types.c:17-76 | The bytes of an integer of 1, 2, 4 or 8 bytes, each as a quotient and remainder, most significant first |
| MuWire.FromBigEndian | src/tss2-mu/base-types.c:79-143 | The number that one, two or four bytes spell |
| MuWire.LeafBytes | src/tss2-mu/tpm2b-types.c:18-76 | What each leaf prints: integers at their width, two bytes of size in front of sized and counted bytes, byte tables as they are, a size byte in PCR selections |
| MuWire.ListBytes | src/tss2-mu/tpml-types.c:21-86 | A list prints as a count of four bytes and its elements in order |
| MuWire.LeafRead | src/tss2-mu/base-types.c:79-143 | The outcome of reading integers, checked constants and byte tables, with each return code |
| MuWire.BytesRead | src/tss2-mu/tpm2b-types.c:78-142 | The outcome of reading sized and counted bytes over the two bytes of their size |
| MuWire.PcrRead | src/tss2-mu/tpms-types.c:82-144 | The outcome of reading a PCR selection over its size byte: malformed above four |
| MuWire.ListRead | src/tss2-mu/tpml-types.c:88-151 | The outcome of reading a list over the four bytes of its count: malformed above its capacity, else that of its elements |
| MuBounds.EncodeBounded | src/tss2-mu/tpm2b-types.c:262-273 | No encoding is longer than the bound computed from its structure |
| MuBounds.EncodingFitsStruct | src/tss2-mu/tpm2b-types.c:267 | The longest encoding never exceeds the size of the C structure, so what is marshaled passes the size check of the reader |
| MuSkip.SkipFollowsRead | src/tss2-mu/tpms-types.c:384-418 | What can be read can be skipped, over as many bytes. What can be skipped can be read if and only if the skip ends within the input and the read leaves no array; where no byte table is involved a skip also fails as the read does |
| MuSkip.ZeroSkipExact | src/tss2-mu/tpms-types.c:755-805 | A record whose skip passes selector 0 is skipped completely if and only if its selector has no case |
| TpmFormats.HashSkipRunsOver | src/tss2-mu/tpmu-types.c:69-104 | A SHA-1 digest that is missing cannot be read, and is skipped over past the end of the input |
| TpmFormats.PublicWire | src/tss2-mu/tpmt-types.c:573-586 | The bytes of a public area: type, name algorithm, attributes and sized policy in this order, and both unions under its type (see TpmWire.PublicUnionsBytes) |
| TpmWire.PublicUnionsBytes | src/tss2-mu/tpmu-types.c:594-614 | Both unions of a public area under each of its four types, by number; any other type has no bytes |
| TpmWire.RsaParmsWire | src/tss2-mu/tpms-types.c:1266-1270 | RSA parameters: symmetric definition, scheme, two bytes of key bits, four bytes of exponent |
| TpmWire.RsaDefaultBytes | src/tss2-mu/tpms-types.c:1266-1270 | The ten bytes of an RSA-2048 key with the default exponent and no schemes |
| TpmWire.EccParmsWire | src/tss2-mu/tpms-types.c:1196-1200 | ECC parameters: symmetric definition, scheme, curve, KDF scheme |
| TpmWire.OtherParmsWire | src/tss2-mu/tpms-types.c:1260-1281 | Keyed hash and cipher parameters, and a point as its two sized coordinates |
| TpmWire.SymDefWire | src/tss2-mu/tpmt-types.c:499-506 | A symmetric definition: algorithm, key bits and mode for ciphers, key bits for XOR, nothing more otherwise |
| TpmWire.AsymSchemeWire | src/tss2-mu/tpmt-types.c:533-538 | An asymmetric scheme: selector, a hash algorithm for the known ones, and a count for ECDAA |
| TpmWire.KeyedHashSchemeWire | src/tss2-mu/tpmt-types.c:515-520 | A keyed hash scheme: a hash algorithm for HMAC, hash algorithm and KDF for XOR |
| TpmWire.KdfSchemeWire | src/tss2-mu/tpmt-types.c:527-532 | A KDF scheme: a hash algorithm for MGF1 and both SP 800 schemes |
| TpmWire.NvPublicWire | src/tss2-mu/tpms-types.c:1136-1148 | An NV public area: index, name algorithm, attributes, sized policy, data size |
| TpmWire.SensitiveWire | src/tss2-mu/tpmt-types.c:563-571 | A sensitive area: type, sized authorization value, sized seed, and the sized secret of the four known types |
| TpmWire.AttestWire | src/tss2-mu/tpms-types.c:1208-1225 | An attestation: magic, type, signer, extra data, clock, firmware version, and the part under its type |
| TpmWire.AttestedWire | src/tss2-mu/tpmu-types.c:464-479 | Which structure stands under each of the seven types of attestation, by number |
| TpmWire.ClockWire | src/tss2-mu/tpms-types.c:976-987 | Clock, reset count, restart count and the safe flag |
| TpmWire.ObjectInfoWire | src/tss2-mu/tpms-types.c:1004-1010 | What is attested of an object: two sized buffers |
| TpmWire.QuoteInfoWire | src/tss2-mu/tpms-types.c:1170-1176 | What is attested of PCRs: the list of selections and a sized digest |
| TpmWire.CommandAuditWire | src/tss2-mu/tpms-types.c:1012-1022 | Command audit: counter, algorithm, two sized digests |
| TpmWire.SessionAuditWire | src/tss2-mu/tpms-types.c:1024-1030 | Session audit: one byte and a sized digest |
| TpmWire.TimeInfoWire | src/tss2-mu/tpms-types.c:988-1002 | Time: the time, the clock, the firmware version |
| TpmWire.NvCertifyWire | src/tss2-mu/tpms-types.c:1040-1049 | NV data: the sized name, the offset, the sized data |
| TpmWire.DigestWire | src/tss2-mu/tpmt-types.c:493-498 | A digest under its algorithm, without a size |
| TpmWire.Limits | include/tss2/tss2_tpm2_types.h:882-892 | The capacities of the sized buffers and lists, and the digest lengths of the hash union |
| TpmFormats.Kdf2HasNoDetails | src/tss2-mu/tpmu-types.c:518-525 | A KDF2 scheme prints as its selector alone, and is well formed only without details |
| TpmFormats.AttestSkip | src/tss2-mu/tpms-types.c:1208-1225 | An attestation is skipped completely if and only if its type is none of the known ones |
| TpmFormats.PublicLengths | src/tss2-mu/tpmt-types.c:573-586 | Public areas encode to at most 606 bytes, NV public areas to at most 78 |
| TpmFormats.PublicSizes | src/tss2-esys/esys_iutil.c:1485 | Their structures take 612 and 80 bytes |
| EsysMu.MarshalSub | src/tss2-mu/tpm2b-types.c:147-212 | The real run writes the true length in front of the structure by patching it in; the size query counts the stored one |
| EsysMu.UnmarshalSub | src/tss2-mu/tpm2b-types.c:214-290 | A destination that is in use is refused; the announced size is checked against the buffer and the structure, and then not used |
| EsysMu.SubRoundTrip | src/tss2-mu/tpm2b-types.c:147-290 | What was printed as a sized structure is read back with its true length |
| EsysMu.SubCanonicalIff | src/tss2-mu/tpm2b-types.c:262-284 | Accepted bytes print back if and only if the member parsed and was as long as announced |
| EsysMu.SubAcceptsNothing | src/tss2-mu/tpm2b-types.c:275 | A size of zero and no public area behind it is accepted |
| EsysResource.SessionHolds | src/tss2-esys/esys_mu.c:399-466 | A session whose constants are known prints and is well formed |
| EsysResource.MiscRoundTrip | src/tss2-esys/esys_mu.c:667-745 | The selected member of the resource union is read back, with true sizes |
| EsysResource.ResourceRoundTrip | src/tss2-esys/esys_mu.c:752-834 | A marshaled resource is read back settled, whatever follows it |
| EsysResource.RoundTripIdentityIff | src/tss2-esys/esys_mu.c:752-834 | The trip is the identity if and only if the nested sizes are true and a session hides nothing: zeros behind its counted bytes, no key bits and no mode that its algorithm does not select |
| EsysResource.LoadFitsIff | src/tss2-esys/esys_mu.c:553-561 | A resource is read without a write past an array if and only if it is no session, or its fields before the count cannot be read, or the count is at most 128 or more than what is left |
| EsysResource.LongLoadMisfits | src/tss2-esys/esys_mu.c:553-561 | Any session with 129 or more counted bytes behind a well-formed start leaves the array, whatever handle, name and fields come before |
| EsysResource.LoadedWellFormed | src/tss2-esys/esys_mu.c:796-834 | What is loaded can be serialized and loaded again, unless it is a sized structure whose member could not be parsed |
| EsysSerial.MarshalMisc | src/tss2-esys/esys_mu.c:667-698 | The member of the type, for a session the bytes of EsysWire.SessionWire; nothing for plain resources, a bad value for unknown types |
| EsysSerial.MarshalResource | src/tss2-esys/esys_mu.c:752-786 | Handle, name, type and member through one local offset; atomic for the caller |
| EsysSerial.UnmarshalResourceType | src/tss2-esys/esys_mu.c:605-630 | The one reader that has moved the caller's offset when it refuses a value |
| EsysSerial.UnmarshalMisc | src/tss2-esys/esys_mu.c:708-745 | Reading the member of the type into a cleared union, for a session as EsysWire.LoadSession has it; a write past an array exactly for a session with too large a count |
| EsysSerial.UnmarshalResource | src/tss2-esys/esys_mu.c:796-834 | The local offset absorbs that move: the call is atomic, for all input that fits |
| EsysSerial.SizePassExactIff | src/tss2-esys/esys_tr.c:53-63 | The size pass counts what the write pass writes if and only if the stored sizes are true |
| EsysSerial.SerializeResource | src/tss2-esys/esys_tr.c:53-66 | Both passes: success exactly when the type is known and the bytes fit the measured buffer, which then starts with them, and is them when sizes are true |
| EsysWire.SessionWire | src/tss2-esys/esys_mu.c:399-466 | The bytes of a session: its fifteen parts in order, each at its width |
| EsysWire.SessionLimits | src/tss2-esys/esys_mu.c:399-466 | How long the parts may be, and which constants can be read back |
| EsysWire.MiscWire | src/tss2-esys/esys_mu.c:667-698 | The bytes of the other members of the resource union, and what they count for without a buffer |
| EsysWire.ResourceWire | src/tss2-esys/esys_mu.c:752-786 | The bytes of a resource: handle, sized name, type number from 0 to 3, member |
| EsysWire.SerializedSession | src/tss2-esys/esys_tr.c:53-66 | The whole buffer of a serialized session, byte by byte of its fields |
| EsysWire.LoadSession | src/tss2-esys/esys_tr.c:85-106 | Loading those bytes, whatever follows them, gives the session field by field under the next handle, without an authorization value |
| EsysWire.LoadPublic | src/tss2-esys/esys_tr.c:85-106 | The same for a key and for an NV index, with the true length next to the area |
| EsysWire.SubRead | src/tss2-mu/tpm2b-types.c:214-290 | The outcome of reading a sized area over the two bytes of its size, with each return code |
| EsysTable.InitInv | src/tss2-esys/esys_context.c:77 | The initial table satisfies the invariant for every random number |
| EsysTable.StepInv | src/tss2-esys/esys_iutil.c:1028-1090 | Loading, looking up, closing and setting an authorization keep handles distinct, object handles below the counter, global nodes without metadata and authorization values within 64 bytes, except a load that wraps the counter or runs past an array |
| EsysTable.InvariantAlwaysIff | src/tss2-esys/esys_tr.c:85-106 | The invariant holds at every moment of a run if and only if the counter does not wrap and no load writes past the array of a session |
| EsysTable.RunSoundIff | src/tss2-esys/esys_mu.c:558-561 | A run ends with an intact context if and only if every load on the way fits |
| EsysTable.OverlongBreaks | src/tss2-esys/esys_mu.c:558-561 | One concrete serialized session, with 200 session value bytes, writes past the array in every context |
| EsysTable.WrapCollides | src/tss2-esys/esys_tr.c:95 | After a wrap two nodes have the same handle |
| EsysTable.LookupKeeps | src/tss2-esys/esys_iutil.c:1050-1090 | A lookup can be repeated without any change, and only ever puts one node in front |
| EsysTable.GlobalHandles | src/tss2-esys/esys_iutil.c:393-429 | Every handle that needs no initialization with its handle in the TPM, by number |
| EsysTable.LookupRcIs | src/tss2-esys/esys_iutil.c:1050-1090 | How a lookup ends, over the entries of the list and the numbers of handles |
| EsysTable.GlobalMade | src/tss2-esys/esys_iutil.c:1066-1090 | What a first lookup of a global handle puts in front: no metadata, no authorization value, the four bytes of its TPM handle as name |
| EsysTable.SetAuthExact | src/tss2-esys/esys_tr.c:383-406 | The entry of the handle has the value given, or the empty one, and all other entries stay; more than 64 bytes are refused |
| EsysTable.CloseExact | src/tss2-esys/esys_tr.c:344-364 | Closing removes the entry of the handle, no other, and keeps the order |
| EsysTable.ClosedForever | src/tss2-esys/esys_iutil.c:1062-1066 | An object handle that is gone is BAD_TR after any further run whose loads fit |
| EsysTable.CloseThenBadTr | src/tss2-esys/esys_tr.c:344-364 | Closing a present object makes its handle BAD_TR for the rest of any such run |
| EsysTable.LoadRestores | src/tss2-esys/esys_tr.c:85-106 | What one context serialized another loads under a fresh handle, settled, with an empty authorization and all else unchanged |
| EsysTr.EsysContext.CreateResourceObject | src/tss2-esys/esys_iutil.c:360-381 | The new cleared node becomes the head of the list |
| EsysTr.EsysContext.FindNode | src/tss2-esys/esys_iutil.c:1053-1059 | The loop finds the first node of a handle, or none |
| EsysTr.EsysContext.GetResourceObject | src/tss2-esys/esys_iutil.c:1028-1090 | A known handle gives its own node and changes nothing; a global one gets a node on first use; the error codes of all others |
| EsysTr.EsysContext.Close | src/tss2-esys/esys_tr.c:344-364 | The first node of the handle is unlinked from the list on the heap, and the handle becomes NONE |
| EsysTr.EsysContext.SetAuth | src/tss2-esys/esys_tr.c:383-405 | The authorization value of one node is replaced; a value that is too long is refused |
| EsysTr.EsysContext.Serialize | src/tss2-esys/esys_tr.c:34-67 | Lookup and both passes: the buffer starts with the bytes of the resource found, and is them when sizes are true; for a session it is handle, sized name, type 3 and the fifteen parts, written out |
| EsysTr.EsysContext.Deserialize | src/tss2-esys/esys_tr.c:85-106 | The handle is taken and the node linked in before the bytes are read; a failed read leaves both, the node with metadata of which nothing is said; a write past an array exactly for bytes that do not fit |
| EsysCrypto.DigestSizes | src/tss2-esys/esys_crypto.c:29-61 | The digest lengths of the five algorithms that have one |
| EsysCrypto.PHash | src/tss2-esys/esys_crypto.c:81-140 | The digest covers response code, command code, names without sizes, and parameters, in that order |
| EsysCrypto.AuthHmac | src/tss2-esys/esys_crypto.c:159-222 | The HMAC covers hash, newer nonce, older nonce, the nonces of other sessions, and the attributes |
| EsysCrypto.KDFaHmac | src/tss2-esys/esys_crypto.c:243-299 | One block of counter mode, section 5.1 of NIST SP 800-108: the HMAC of counter, label with its zero, contextU, contextV and bits |
| EsysCrypto.KDFeHash | src/tss2-esys/esys_crypto.c:424-447 | One block of KDFe: the hash of counter, Z, label with its zero, PartyUInfo and PartyVInfo |
| EsysCrypto.KDFa | src/tss2-esys/esys_crypto.c:324-374 | Exactly the blocks for the next counters, as many as cover the wanted bytes: each is the HMAC of counter, label with its zero, both contexts and bits, written out; the first byte masked; the last counter returned |
| EsysCrypto.KdfaWritten | src/tss2-esys/esys_crypto.c:353-370 | The output cut into blocks: each at its place with its counter, the first with its first byte masked |
| EsysCrypto.KDFe | src/tss2-esys/esys_crypto.c:391-461 | The same with blocks that hash counter, Z, label with its zero and the parties, with the byte count of an INT16 |
| EsysCrypto.KdfeWritten | src/tss2-esys/esys_crypto.c:424-456 | The same for KDFe, from counter 1 on |
| EsysCrypto.KdfRcs | src/tss2-esys/esys_crypto.c:349-365 | How both derivations end, over the numbers of algorithms |
| EsysCrypto.MaskIs | src/tss2-esys/esys_crypto.c:368-369 | The mask leaves the first byte modulo the power of two of the odd bits |
| EsysCrypto.BlocksIsCeil | src/tss2-esys/esys_crypto.c:353-366 | The loop runs as often as the quotient rounded up says |
| EsysCrypto.KdfStreamAt | src/tss2-esys/esys_crypto.c:353-366 | Byte j of block k is that of the HMAC for counter start + k + 1 |
| EsysCrypto.KdfStreamSplit | src/tss2-esys/esys_crypto.c:347-370 | Deriving on from the returned counter continues the stream |
| EsysCrypto.KdfaLengthIff | src/tss2-esys/esys_crypto.c:349 | The bits are rounded up to bytes unless the sum wraps 32 bits |
| EsysCrypto.KdfeLengthIff | src/tss2-esys/esys_crypto.c:401 | KDFe derives the wanted bytes if and only if there are fewer than 32768 |
| EsysCrypto.KdfeDerivesNothing | src/tss2-esys/esys_crypto.c:401-424 | The next length derives nothing and still succeeds |
| EsysCrypto.XorObfuscation | src/tss2-esys/esys_crypto.c:485-523 | Byte j of the data is combined with byte j modulo the digest length of its own block, an HMAC over counter, label and nonces, written out; nothing else is touched |
| EsysCrypto.XorStreamByte | src/tss2-esys/esys_crypto.c:497-511 | The same for the stream itself, for data of any length |
| EsysCrypto.XorIs | src/tss2-esys/esys_crypto.c:464-468 | The combination of two bytes, bit by bit |
| EsysCrypto.XorStreamIsKdfaIff | src/tss2-esys/esys_crypto.c:497-511 | That stream is what one KDFa call for all bits of the data derives, if and only if the bits fit 32 bits |
| EsysCrypto.XoredTwice | src/tss2-esys/esys_crypto.c:464-468 | Obfuscating twice restores the data |
| EsysCrypto.KeyAndIvTile | src/tss2-esys/esys_iutil.c:666-682 | AES key and vector together are exactly the bytes asked of KDFa |
| EsysCrypto.SymKeyRoomIff | src/tss2-esys/esys_iutil.c:644-647 | The array has room for the whole blocks if and only if it has room for key and vector |
| EsysCrypto.SymKeyRoom | src/tss2-esys/esys_iutil.c:644-647 | It has, for keys of up to 256 bits and every hash algorithm |
| EsysSession.CheckSessionFeasibility | src/tss2-esys/esys_iutil.c:1134-1161 | Accepted are exactly the triples without a gap in front of a session, with enough handles, that do not count below INT_MIN |
| EsysSession.FeasibleIs | src/tss2-esys/esys_iutil.c:1134-1161 | What it means for three handles, by number: no session behind a gap, and how many are used |
| EsysSession.InitSessionTab | src/tss2-esys/esys_iutil.c:140-156 | Real handles get their node, the others none; it ends with the first handle that is unknown |
| EsysSession.InitTableInv | src/tss2-esys/esys_iutil.c:140-156 | Filling the table keeps the invariant of the list |
| EsysSession.ComputeEncryptNonce | src/tss2-esys/esys_iutil.c:188-211 | Success exactly when at most one session encrypts; then its index and nonce; a global handle encrypts nothing |
| EsysSession.SetAttributes | src/tss2-esys/esys_tr.c:517-534 | The attributes of one session node are replaced under the mask |
| EsysSession.SetAttributesRcIs | src/tss2-esys/esys_tr.c:517-534 | How it ends: a handle that is unknown, none, or no session |
| EsysSession.MaskedBit | src/tss2-esys/esys_tr.c:530-532 | Bits under the mask come from the flags, the others stay |
| EsysSession.MaskedIs | src/tss2-esys/esys_tr.c:530-532 | The new attributes, bit by bit of a byte |
| EsysSession.ComputeBoundEntity | src/tss2-esys/esys_iutil.c:893-915 | Name, padded, and authorization value over its right end |
| EsysSession.BoundAt | src/tss2-esys/esys_iutil.c:893-915 | Byte i of a bound entity: that of the name or zero, combined with that of the value at the right end |
| EsysSession.BoundAgreeIff | src/tss2-esys/esys_iutil.c:926-937 | Two names and values make the same bound entity if and only if the names differ byte by byte by what the values differ by |
| EsysSession.BoundIff | src/tss2-esys/esys_iutil.c:926-937 | A bound session recognizes its object if and only if both authorization values agree up to leading zeros |
| EsysSession.FullNameIgnoresAuth | src/tss2-esys/esys_iutil.c:905-909 | A name that fills its buffer is compared alone |
| EsysSession.ComputeSessionValue | src/tss2-esys/esys_iutil.c:960-1008 | All early returns, that for a value longer than what the session value still takes included, and what each leaves in the session |
| EsysSession.WithSessionValueIs | src/tss2-esys/esys_iutil.c:960-1008 | The session value and both sizes for every combination of name, type and value; nothing else changes; without a name the session key alone stands in front of what was there |
| EsysSession.SessionValueIs | src/tss2-esys/esys_iutil.c:960-1008 | Encryption key is session key and authorization value; the HMAC key is the session key alone exactly for the bound object without POLICY_AUTH |
| EsysSession.AuthPassedOverIff | src/tss2-esys/esys_iutil.c:986-989 | An authorization value changes nothing if and only if it is empty or longer than what the session value still takes; none that fits its structure is that long |
| EsysSession.HmacFitsAfterIff | src/tss2-esys/esys_iutil.c:960-1008 | After its session value is computed the HMAC key lies within its array if and only if a name made the computation set its size, or it did before |
| EsysParam.DeriveAesKey | src/tss2-esys/esys_iutil.c:661-682 | Key and vector are consecutive pieces of one derived stream; the array is left exactly by keys it has no room for |
| EsysParam.KeyOverrunsIff | src/tss2-esys/esys_iutil.c:644-676 | The derivation runs over its array if and only if the hash algorithm starts and the blocks for key and vector are longer than the array |
| EsysParam.OddKeySizes | src/tss2-esys/esys_iutil.c:644-682 | 300 bits under SHA-256 fit and are refused by the cipher; 512 bits write three blocks into 64 bytes |
| EsysParam.CipherRegion | src/tss2-esys/esys_iutil.c:739-806 | AES-CFB or XOR over exactly one region of a buffer, all other algorithms refused; for AES the cipher called with slices of the derived blocks |
| EsysParam.CipherInverse | src/tss2-esys/esys_iutil.c:655-708 | Decrypting with the same key and nonces undoes encrypting |
| EsysParam.CipheredAes | src/tss2-esys/esys_iutil.c:655-708 | AES, over the blocks of the HMAC under the counted session value with the label CFB: the first bytes are the key, the next 16 the vector |
| EsysParam.CipheredXor | src/tss2-esys/esys_iutil.c:689-708 | XOR, byte by byte of such blocks with the label XOR |
| EsysParam.CipherRcIs | src/tss2-esys/esys_iutil.c:644-708 | How it ends, over the numbers of algorithms, mode, key sizes and the bytes of the array |
| EsysAuth.GenCallerNonces | src/tss2-esys/esys_iutil.c:571-590 | Every session gets a nonce of its digest length, and nothing else of it changes; a place of unknown algorithm, such as a global handle, is a bad value |
| EsysAuth.EncryptFirst | src/tss2-esys/esys_iutil.c:641-714 | The first parameter is replaced by its encryption, with every way this can fail |
| EsysAuth.EncryptParam | src/tss2-esys/esys_iutil.c:608-718 | The return code of every case, in the order of the places; on success the parameter encrypted and both sessions reported |
| EsysAuth.PassOkIff | src/tss2-esys/esys_iutil.c:608-718 | It succeeds if and only if neither role is claimed twice and the one decrypt session can encrypt |
| EsysAuth.PlaceRcIs | src/tss2-esys/esys_iutil.c:608-718 | What is wrong in one place: a role that an earlier place has, or the decrypt session |
| EsysAuth.FindAlg | src/tss2-esys/esys_iutil.c:260-267 | The search in a hash table |
| EsysAuth.ComputeHashtab | src/tss2-esys/esys_iutil.c:236-347 | Both hash tables: one entry for every algorithm in use, none twice, each the hash of response code, command code, names and parameters, written out |
| EsysAuth.ComputeHmac | src/tss2-esys/esys_iutil.c:1186-1235 | Handle, caller nonce, attributes and HMAC of one session; the return code when its algorithm is unknown or cannot be started, and the read past the array when the key is too long |
| EsysAuth.StorableReady | src/tss2-esys/esys_iutil.c:960-1008 | A session that fits its structure stays ready for encryption, whatever session value is computed |
| EsysAuth.LooseKey | src/tss2-esys/esys_iutil.c:972-973 | A serialized session with the largest key size loads, keeps that size where no object is authorized, and makes authorizing read past the array |
| EsysAuth.AuthStep | src/tss2-esys/esys_iutil.c:1291-1327 | One round: the entry at the count is filled, although the HMAC is written by place; or its key is read past the array |
| EsysAuth.AuthLoop | src/tss2-esys/esys_iutil.c:1291-1327 | The rounds give the list of one entry per used place, if and only if every key that is needed fits |
| EsysAuth.AuthListAt | src/tss2-esys/esys_iutil.c:1291-1327 | The entry of every used place is at its rank, and that of a session at its index |
| EsysAuth.AuthForIs | src/tss2-esys/esys_iutil.c:1291-1327 | The entry of a place, written out: a password for TPM_RS_PW, the plain value under a password policy, else handle, nonce, attributes and the HMAC over hash, both nonces, the nonces of others and attributes |
| EsysAuth.GenAuths | src/tss2-esys/esys_iutil.c:1251-1332 | The return code of every case; on success as many entries as places used, passwords with the value of their object at their rank, sessions at their index as EsysAuth.ShownByNode and EsysAuth.ShownHmac write them out; the encrypted command, and the encrypt session noted in the context |
| EsysAuth.ShownByNode | src/tss2-esys/esys_iutil.c:1291-1327 | The entry of a session over its node: handle, and nonce and attributes, or under a password policy the value of the object |
| EsysAuth.ShownHmac | src/tss2-esys/esys_iutil.c:1186-1235 | Its HMAC under the first sizeHmacValue bytes of the session value, over the hash of the message, both nonces, in the first place the nonces of the decrypt and encrypt sessions, and the attributes |
| EsysAuth.GenOkIff | src/tss2-esys/esys_iutil.c:1251-1332 | It succeeds if and only if all digests have a size, the encryption pass succeeds, every algorithm can be started and every key fits |
| EsysAuth.GlobalRefused | src/tss2-esys/esys_iutil.c:571-590 | A global handle in place of a session is a bad value |
| EsysResponse.CheckOne | src/tss2-esys/esys_iutil.c:834-879 | One session: success exactly on the HMAC over the hash of the message, the nonce of the TPM, the nonce of the caller and the attributes under the sliced key, or on none under a password policy; nonce and attributes are taken over; a key that is too long is read past its array |
| EsysResponse.CheckRpHmacs | src/tss2-esys/esys_iutil.c:823-883 | The outcome is that of the first place that fails; every node holds the nonce and attributes of the last response for it up to there, the failing one included |
| EsysResponse.RspsOkIff | src/tss2-esys/esys_iutil.c:823-883 | The check succeeds if and only if every response authorization is right and every key that is needed fits |
| EsysResponse.RspsRcIs | src/tss2-esys/esys_iutil.c:823-883 | The check of all responses succeeds if and only if every one is that HMAC, or none under a password policy |
| EsysResponse.ApartKeepsOwn | src/tss2-esys/esys_iutil.c:834-859 | When no session stands in two places, that is the response of its own place |
| EsysResponse.DecryptParam | src/tss2-esys/esys_iutil.c:726-806 | The first response parameter is decrypted in place, under the nonces in the order of the sender; nothing behind the response changes when size field and parameter fit it |
| EsysResponse.DecryptIs | src/tss2-esys/esys_iutil.c:726-806 | How decryption ends over the first two bytes, and what it puts in their place |
| EsysResponse.RegionInsideIff | src/tss2-esys/esys_iutil.c:744-751 | What is decrypted lies within the response if and only if size field and parameter fit it together; it never reaches further than two bytes past it |
| EsysResponse.DecryptReachesPast | src/tss2-esys/esys_iutil.c:744-751 | The check lets three bytes that announce three pass |
| EsysResponse.CheckResponse | src/tss2-esys/esys_iutil.c:1356-1406 | The return code for every response, and the sessions and the buffer it leaves, after a failed check too; with an object among the handles it succeeds only on the HMACs over four zero bytes, command code and parameters, and on those it does when nothing is to be decrypted |
| EsysExchange.ParameterRoundTrip | src/tss2-esys/esys_iutil.c:726-806 | Decrypting what a TPM with the same keys encrypted gives its parameters |
| EsysExchange.CommandRoundTrip | src/tss2-esys/esys_iutil.c:608-718 | A TPM with the same keys reads the command parameter as it was before encryption |
| EsysExchange.TpmAuthRight | src/tss2-esys/esys_iutil.c:834-879 | What a reference TPM computes on its own, an HMAC over hash, its nonce, the nonce of the caller and attributes, is what the check asks for |
| EsysExchange.ExchangeSucceeds | src/tss2-esys/esys_iutil.c:1356-1406 | The answer of a reference TPM is accepted if all keys that are needed fit, leaves the new nonces and attributes in the sessions and the plain parameter in the buffer, on values |
| EsysExchange.LiveIsObject | src/tss2-esys/esys_iutil.c:140-156 | A node in the table whose algorithm starts has the handle of an object: global nodes are no sessions |
| EsysExchange.ApartIff | src/tss2-esys/esys_iutil.c:1053-1059 | No session stands in two places if and only if no handle of one is given twice |
| EsysExchange.CheckAnswer | src/tss2-esys/esys_iutil.c:1356-1406 | The same over a context and its nodes: on the answer of the reference TPM the check succeeds if and only if all keys that are needed fit; then the nodes in the table hold the new nonces and attributes, and the buffer the plain parameters |
| EsysCommand.CommandAccepted | src/tss2-esys/esys_iutil.c:1291-1327 | A TPM that computes every entry on its own gets the list of iesys_gen_auths, unless one session behind a first HMAC session both encrypts and decrypts |
| EsysCommand.CommandAcceptedIff | src/tss2-esys/esys_iutil.c:1319-1325 | It does if and only if the first place computes no HMAC or gets the same HMAC with that nonce once and twice |
| EsysCommand.EsysListWritten | src/tss2-esys/esys_iutil.c:1291-1327 | The list of iesys_gen_auths, entry by entry, in the terms of the TPM |
| EsysCommand.MessageIff | src/tss2-esys/esys_iutil.c:1319-1325 | The messages under the first HMAC are the same on both sides if and only if no session behind the first has both roles or its nonce is empty |
| EsysCommand.KeysAndAuths | src/tss2-esys/api/Esys_GetRandom.c:167-177 | Session values and authorizations over a filled table: the return code, the list, and a context as the check of the answer needs it |
| EsysCommand.GetRandomAuths | src/tss2-esys/api/Esys_GetRandom.c:156-177 | From three handles to the list: the first step that fails decides, else the nodes of the handles have their session values and the list is made from them, over command code and parameters; it is the one of the TPM unless one session behind the first has both roles |
| EsysName.AreaFits | src/tss2-esys/esys_iutil.c:1485-1507 | Marshaling a public area into the local array always succeeds |
| EsysName.GetName | src/tss2-esys/esys_iutil.c:1423-1529 | The name is the two bytes of the algorithm and the hash of the encoding, empty without an algorithm; only an unsupported algorithm fails |
| EsysName.NvName | src/tss2-esys/esys_iutil.c:1423-1473 | The name of an NV index over the bytes of its public area |
| EsysName.PublicName | src/tss2-esys/esys_iutil.c:1483-1529 | The name of another object over the bytes of its public area |

## Left out

- NULL arguments, allocation failure, logging and freeing memory; a freed node is one that is no longer linked.
- Overflow of offsets: they are unbounded here, where the original uses size_t.
- The local array on the stack that a list size query writes to is only limited by the given size.
- TPMA attribute words and signed integers are base integers of their width; many structures that differ in names only are not instantiated.
- A TPM2B whose size field exceeds its array cannot be marshaled here (values are Storable by requirement); the original would read past the array.
- What memory looks like after a write past the end of an array, and what a read past it sees.
- Destinations of failed reads are left unspecified or cleared; the original leaves them filled in part. Union members that are not selected read as absent or zero.
- Skipping of whole resources, and the marshaling of IESYS_METADATA and IESYS_CONTEXT_DATA, which only put fixed fields around a resource.
- The sizes of C unions are computed from the members that have a case in the marshaling switch.
- Crypto backends, random numbers and salts: abstract functions with length contracts, and parameters. The AES key sizes a backend accepts are 128, 192 and 256.
- The SYS layer below parameter areas and authorizations: a parameter area is a prefix of a byte array, and setting the encrypted parameter always finds room.
- EsysResponse.DecryptParam: requires two bytes behind the response in its buffer. CheckResponse requires them only where Tss2_Sys_GetRspAuths has succeeded, which refuses responses with fewer (src/tss2-sys/api/Tss2_Sys_GetRspAuths.c:39-40).
- EsysTr.EsysContext.Serialize: requires a resource that fits its structure; a sized structure whose member could not be parsed is left filled in part by the original and absent here (EsysResource.LoadedWellFormed).
- EsysSession.ComputeSessionValue: excludes authorization values that are longer than their array of 64 bytes and still fit the session value; the original would read past that array. No entry of a table holds one (EsysTable.Inv).
- EsysExchange.ExchangeSucceeds: requires that no session stands in two places and that the encrypt session is no password policy, because the parameter is decrypted under the nonce its node holds last.
- EsysAuth.GenAuths: requires nodes that are sessions or those of global handles; the original does not look at the type, and would take the metadata of a key or an NV index for that of a session.
- Command wrappers but for the steps of EsysCommand.GetRandomAuths, reading public areas from the TPM, transmission, and resubmission.
