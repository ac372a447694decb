# Verified models of the atomic swap tool

The repository is a command-line and RPC tool for cross-chain atomic swaps, with the two JSON
libraries that it carries along. This project models its algorithms in Dafny and proves what they
are for: the swap itself, from the bytes of the contract up to safety over every run of the
two-chain protocol; the signature preimage; the codecs and fixed-width numbers; four stateful
containers; and the JSON reader, writers and tree builder.

Code that changes state step by step is a class or a method here, with the source's fields and
loops, and is proved equal to a function of its inputs or of its old state. The theorems are about
those functions. `dafny verify dfyconfig.toml` checks everything.

## The swap

- `Script`, `ScriptEval`: script bytes (pushes, fetching, deletion while parsing) and the stack
  machine that the chains run, for the opcodes of the contract. CHECKLOCKTIMEVERIFY follows the
  Detailed Specification of BIP 65, pay-to-script-hash the Specification of BIP 16. Hashes and
  signature checks are arbitrary functions.
- `AtomicSwap`: the contract, and `ContractMeaning`: for every stack and every spending
  transaction it accepts exactly the redeeming and the refunding stacks.
- `SwapData`, `Hex`: recognising a contract, taking it apart, and putting it together again. A lock
  time is stored through a conversion to `int`, so both round trips have an exact condition on it:
  a contract whose lock time is 2^31 or later can have a negative script number, and then no
  transaction refunds it (`SwapSpend.NegativeLockNeverRefunds`).
- `SwapSpend`, `ScriptText`: the scriptSigs of `Redeem` and `Refund`, and that the chain takes them
  exactly when secret, key, signature and lock time are right; and what `ExtractSecret` answers for
  any transaction that the chain takes, through the words of its scriptSig (`ExtractionExact`).
- `SwapProtocol`, `SwapRuns`: the two chains with a clock. What a party may do is what the scripts
  accept (`CanSpend` is stated with `VerifyP2SH`, not with the protocol's intentions). One party
  keeps its rules, the other does anything; its secret may have any length. The participant's rules
  include funding less than 86400 seconds after the initiator; `FundingDelayIsExact` proves that
  this bound cannot be raised by a second, by exhibiting the run in which the participant loses.

Two things find the secret on a chain. The step `ExtractSecret` is the program's, with the answer of
`SwapSpend.ExtractSecret`. The step `ReadChain` is not: it stands for any other reader of a
transaction that shows the secret. `ParticipantTakes` and `RulesCanBeKept` need it, because the
program can be kept from finding the secret: it demands one input, reads the third word and hashes
32 bytes, and the chain takes redemptions that are otherwise. `GivesSecretExactly` says of which
spends the program finds the secret, `ProgramTakes` when the program alone is enough, and
`ProgramLoses` gives the run in which it is not: the initiator redeems with one more push in front,
and as long as the participant has only the program, it never gets the initiator's output.

Assumed of the world, in `Sound`: hash values have 20 bytes; nobody finds a second preimage of the
secret's hash or a key with another party's key hash; and the secret is neither a key nor a
contract, which a refund would show. `SoundWorldsExist` shows that this can be met. Two more
assumptions are conjuncts of `CanSpend` and not of `Sound`: the script that is redeemed is the
contract, not another one with its hash, and a party's transaction has only its own signatures.

## Bytes, numbers and containers

- `Numerals`, `Bytes`, `BigNumber`: positional notation and `CBigNum`'s sign-magnitude form.
- `Base58`, `VarInt`, `Serialize`: codecs. VarInt is proved against the formula in
  `atomicswap/serialize.h:250`; two of the sample encodings listed below that formula (16511 and
  65535) match neither it nor the code (`VarInt.DocumentedExamples`).
- `Transaction`: the transaction bytes and the preimage that `SignatureHash` hashes, for every hash
  type, and what a signature commits to.
- `BaseUint`, `UintHex`: the limb loops compute integer arithmetic modulo 2^BITS.
- `DataStream`, `LockedPages`, `BatchAllocator`: each class refines a simple state. Where the
  machine's word would wrap, the contract says exactly when: `CDataStream.Read` overruns and
  `LockRange` never ends under the stated conditions and no others.

## JSON

- `JsonValue`: trees, and pointers into them as paths. Assigning through a pointer is `Put`.
- `JsonGrammar` says, position by position, what jsoncpp's `Reader` computes; `JsonReader` is the
  class, proved to compute it and to end on every byte string.
- `JsonStrict`: where this accepts what RFC 8259 does not. Any token but `]` separates array
  elements (the condition meant to reject one cannot hold), any token but `}` separates members if
  a comment comes before it, and an object may end after a separator if the name before it was
  empty: `DocumentsDiffer` compares the reader with one that insists on the commas, on every text.
  Strings end at a NUL (`StringsEndAtNul`), and an unpaired surrogate escape becomes bytes that are
  no UTF-8 (`JsonUtf8.CodePointRoundTrip`).
- `JsonText`, `JsonWriter`: `FastWriter` and `StyledWriter`. `JsonRoundTrip`: what they write is
  read back, with the exact set of trees that survive, and whatever was accepted once reprints
  stably.
- `SemanticActions`: the second library's tree builder, fed the events of any document.

## Model

| member | source | states |
|---|---|---|
| AtomicSwap.AtomicSwapContract | atomicswap/atomicswap.cpp:639-666 | appends exactly the contract's bytes to the script, for every 64-bit lock time and hash |
| AtomicSwap.ContractMeaning | atomicswap/atomicswap.cpp:639-666 | for every initial stack and transaction the contract succeeds if and only if the stack selects the hash branch with a preimage, the recipient's key and a good signature, or the other branch with the refund key, a good signature and a satisfied lock |
| AtomicSwap.RunLock | atomicswap/script.h:173-185 | the lock time push leaves the low 32 bits, as a signed number, whichever of its two encodings is used |
| SwapData.RecognisedShape | atomicswap/script.cpp:165-186 | a script is recognised if and only if its first 81 bytes are its own parts put together |
| SwapData.ThrowsOnBeginnings | atomicswap/script.cpp:165-186 | the recogniser throws on exactly the proper beginnings of recognised scripts; on every other short script it answers no |
| SwapData.ExtractAtomicSwapData | atomicswap/atomicswap.cpp:723-729 | the four parts are those slices of the script |
| SwapData.BuiltIsRecognised | atomicswap/script.cpp:165-186 | for 20-byte hashes and every lock time: a built contract is recognised exactly when the lock time's script number takes four bytes, and recognising a built contract never throws |
| SwapData.BuiltThenExtracted | atomicswap/atomicswap.cpp:723-729 | a recognised built contract gives back its hash, keys and lock bytes, and Refund computes the lock time it was built with exactly when that is not negative as an int |
| SwapData.ExtractedThenRebuilt | atomicswap/atomicswap.cpp:570-570 | for every recognised script: building from its parts gives it back if and only if it has 81 bytes and the lock time is in [2^23, 2^31) or is 0xc0000000 |
| Hex.HexStr | atomicswap/key.h:7-23 | writes two lower-case digits for each byte |
| Hex.ParseHex | atomicswap/script.cpp:202-221 | gives the bytes of the leading digit pairs, skipping space before a pair and stopping at anything else |
| Hex.ParsedText | atomicswap/script.cpp:202-221 | parsing undoes writing, for every byte string and every following text that starts with neither digit nor space |
| Hex.TextToNumber | atomicswap/atomicswap.cpp:570-570 | hexadecimal text, strtol and htonl together turn four bytes into their little-endian number |
| SwapSpend.FullRedeemSig | atomicswap/atomicswap.cpp:373-379 | builds the redeeming scriptSig |
| SwapSpend.FullRefundSig | atomicswap/atomicswap.cpp:601-606 | builds the refunding scriptSig |
| SwapSpend.RedeemSpends | atomicswap/atomicswap.cpp:373-379 | the chain takes a redeeming scriptSig if and only if the secret hashes to the contract's hash, the key to the recipient's and the signature is good, whatever the lock time |
| SwapSpend.RefundSpends | atomicswap/atomicswap.cpp:569-606 | the chain takes Refund's scriptSig, in the transaction Refund makes for a contract it recognises, if and only if key and signature are right and the lock time is not negative as an int |
| SwapSpend.PayToScriptHashShape | atomicswap/script.cpp:188-194 | the recogniser of pay-to-script-hash outputs accepts exactly the scripts made for 20-byte hashes |
| SwapSpend.FindContractOutput | atomicswap/atomicswap.cpp:297-322 | finds the first output that pays to the contract's address, or -1 if none does |
| SwapSpend.NegativeLockNeverRefunds | atomicswap/atomicswap.cpp:639-666 | if the lock time is negative as an int, every transaction that the chain takes for the contract's output, with whatever scriptSig, is a redemption and none a refund |
| SwapSpend.ExtractSecret | atomicswap/atomicswap.cpp:697-719 | on every transaction: refuses unless there is one input; then, of the words of its scriptSig, answers with the third if the first 32 bytes it parses to have the wanted hash, and reads past its data if they are not there |
| SwapSpend.ExtractionExact | atomicswap/atomicswap.cpp:697-719 | of any transaction whose first input the chain took, whatever that pushes: extraction succeeds if and only if it is the only input and the first 32 bytes of the third element it pushes hash to the wanted hash, and then the answer is that whole element |
| ScriptText.PushedElements | atomicswap/script.h:407-428 | the words of a script that only pushes are, one by one, those of the elements it leaves on the stack |
| ScriptText.ValueStringParsed | atomicswap/script.h:162-168 | read as hexadecimal, the word of an element of more than four bytes is the element, and that of a shorter one has fewer than 32 bytes |
| SwapProtocol.SpendMeaning | atomicswap/atomicswap.cpp:639-666 | any transaction that a chain takes for a contract's output is by the redeemer and shows the secret, or by the funder and after the lock |
| SwapProtocol.ParticipantSafety | atomicswap/atomicswap.cpp:155-187 | in every run with a participant that keeps its rules and any initiator, at every moment: the participant's output is lost only if the initiator's is taken by it, or is its to take |
| SwapProtocol.InitiatorSafety | atomicswap/atomicswap.cpp:45-88 | in every run whatsoever the participant has the initiator's output only if the initiator has the participant's |
| SwapProtocol.SpentAtMostOnce | atomicswap/atomicswap.cpp:639-666 | in every run each output is spent at most once, and its record says by whom |
| SwapRuns.RedeemIsEnabled | atomicswap/atomicswap.cpp:236-379 | whoever knows the secret can take the output meant for it with Redeem's transaction, at any time |
| SwapRuns.RefundIsEnabled | atomicswap/atomicswap.cpp:467-606 | once its lock has expired, the funder can take an unspent output back with Refund's transaction, which does not show the secret |
| SwapRuns.ParticipantTakes | atomicswap/atomicswap.cpp:236-379 | when the initiator's output is the participant's to take, the initiator has no transaction for it, and the participant takes it by reading the secret on the chain, by whatever means, and Redeem |
| SwapRuns.RulesCanBeKept | atomicswap/atomicswap.cpp:236-606 | whenever the participant's rules forbid time to pass, some steps, all of them its own (reading the chain, by whatever means, Redeem, Refund), keep the rules and make them allow it |
| SwapRuns.GivesSecretExactly | atomicswap/atomicswap.cpp:697-719 | ExtractSecret finds the secret in a transaction that takes an output if and only if that has no other input, the third element pushed is the secret, and the secret has 32 bytes |
| SwapRuns.RedeemGivesSecret | atomicswap/atomicswap.cpp:373-379 | in Redeem's own transaction it finds the secret if and only if that has 32 bytes |
| SwapRuns.ProgramTakes | atomicswap/atomicswap.cpp:668-721 | with the program alone the participant takes the initiator's output, by steps of its own, if and only if it has the secret or ExtractSecret finds it in some transaction on the chains |
| SwapRuns.JunkHidesSecret | atomicswap/atomicswap.cpp:703-706 | a redemption with one more push in front, of any data, is taken by the chain and shows the secret, and ExtractSecret does not find it |
| SwapRuns.ProgramLoses | atomicswap/atomicswap.cpp:668-721 | a run within the participant's rules after which the initiator's output is the participant's to take, and no continuation in which it has only the program takes it |
| SwapRuns.LosingRun | atomicswap/atomicswap.h:8-11 | if the participant may fund a full 86400 seconds after the initiator, there is a run in which the initiator takes both outputs |
| SwapRuns.FundingDelayIsExact | atomicswap/atomicswap.h:8-11 | the rules keep the participant safe in every run if and only if they bound its funding delay by 86400 seconds |
| Script.CScript.AppendUint160 | atomicswap/script.h:264-269 | appends a 20-byte push |
| Script.CScript.AppendPubKey | atomicswap/script.h:278-284 | appends a push of a key |
| Script.CScript.AppendVector | atomicswap/script.h:292-317 | appends a push with the shortest of the four length forms |
| Script.CScript.AppendInt64 | atomicswap/script.h:173-185 | appends a small-number opcode or a push of the number cut to an int |
| Script.FetchPush | atomicswap/script.h:354-405 | every push of fewer than 2^32 bytes is fetched as the data pushed, followed by anything |
| Script.CScript.GetOp2 | atomicswap/script.h:354-405 | fetches the instruction at a position, or fails, with its data and where it ends |
| Script.CScript.FindAndDelete | atomicswap/script.h:430-447 | ends, leaves exactly what deleting the pattern before each fetched instruction leaves, and counts the deletions |
| Script.ScriptIsItsInstructions | atomicswap/script.h:354-405 | a script is its instructions followed by a tail at which nothing can be fetched |
| Script.PurgeSeparators | atomicswap/transaction.h:266-266 | deleting code separators keeps exactly the other instructions and the tail, and counts the separators: bytes in push data stay |
| Script.PurgedInstructions | atomicswap/transaction.h:266-266 | what is left parses to the same instructions without the separators, and has none |
| Script.PurgeTwice | atomicswap/transaction.h:266-266 | a second deletion removes nothing |
| BigNumber.FromToVch | atomicswap/bignum.h:137-162 | the bytes of any integer denote it and are minimal |
| BigNumber.ToFromVch | atomicswap/bignum.h:137-162 | a byte string survives the trip through an integer if and only if it is minimal |
| BigNumber.BigNum.SetVch | atomicswap/bignum.h:137-150 | sets the number that the bytes denote, through the length-prefixed big-endian form |
| BigNumber.BigNum.GetVch | atomicswap/bignum.h:152-162 | gives the shortest byte string of the number |
| Base58.DecodeEncoded | atomicswap/base58.h:8-92 | every byte string, with any leading zeros, encodes to alphabet text that decodes to it |
| Base58.EncodeDecoded | atomicswap/base58.h:8-92 | every alphabet text decodes to bytes that encode to it |
| Base58.DecodableExactly | atomicswap/base58.h:48-92 | a text is accepted if and only if it is alphabet text between white space |
| Base58.EncodedFits | atomicswap/base58.h:25-41 | the text of n bytes has at most floor(138n/100)+1 characters |
| Base58.SizeRatio | atomicswap/base58.h:25-27 | 256^50 < 58^69, from which the bound follows |
| Base58.EncodeBase58 | atomicswap/base58.h:8-46 | the division loop computes the encoding, within the reserved size |
| Base58.DecodeBase58 | atomicswap/base58.h:48-92 | the multiplication loop computes the decoding, and rejects exactly the texts without one |
| VarInt.EncodeMeaning | atomicswap/serialize.h:244-250 | the written bytes are terminated and mean the number by the documented formula |
| VarInt.MeaningUnique | atomicswap/serialize.h:252-257 | every terminated byte string is the encoding of exactly one number |
| VarInt.EncodeFits | atomicswap/serialize.h:282-291 | a number of w bits takes at most ceil(w/7) bytes |
| VarInt.WriteVarInt | atomicswap/serialize.h:279-294 | writes the encoding, never leaving the buffer |
| VarInt.GetSizeOfVarInt | atomicswap/serialize.h:266-277 | counts the bytes of the encoding |
| VarInt.ReadVarInt | atomicswap/serialize.h:296-309 | reads the number of the bytes up to the first without the high bit, modulo 2^w, or fails when there is none |
| VarInt.WriteThenRead | atomicswap/serialize.h:279-309 | reading undoes writing and leaves the rest of the stream |
| VarInt.ReadExactly | atomicswap/serialize.h:296-309 | the number read is the one encoded if and only if that one fits the type |
| VarInt.IntermediatesAreSmaller | atomicswap/serialize.h:296-309 | no value on the way exceeds the result |
| VarInt.DocumentedExamples | atomicswap/serialize.h:259-264 | the listed encodings of 16511 and 65535 are not those of the formula or the code |
| Serialize.WriteCompactSize | atomicswap/serialize.h:173-203 | appends the size's shortest form |
| Serialize.ReadCompactSize | atomicswap/serialize.h:205-242 | reads a size, rejecting long forms, sizes over the maximum and short streams |
| Serialize.CompactSizeExact | atomicswap/serialize.h:173-242 | a stream reads as a size if and only if it starts with that size's written form and the size is at most MAX_SIZE |
| Serialize.CompactSizeUnique | atomicswap/serialize.h:173-203 | no written size begins another, over all 64-bit sizes |
| Serialize.GetSizeOfCompactSize | atomicswap/serialize.h:165-171 | is the number of bytes written |
| Serialize.VectorRoundTrips | atomicswap/serialize.h:515-562 | reading undoes writing for vectors of up to MAX_SIZE elements whose codec round-trips |
| Serialize.VectorUnique | atomicswap/serialize.h:515-521 | no written vector begins another |
| Serialize.VectorSize | atomicswap/serialize.h:491-498 | the computed size is that of the bytes written |
| Serialize.SerializeElements | atomicswap/serialize.h:515-521 | the loop writes the count and every element |
| Serialize.GetSerializeSizeElements | atomicswap/serialize.h:491-498 | the loop computes that size in 32 bits |
| Serialize.UnserializeElements | atomicswap/serialize.h:546-562 | the chunked loops read exactly count and elements, in order, and end for elements of up to 5000000 bytes |
| Serialize.RoundsProgress | atomicswap/serialize.h:553-558 | a round of the chunked loop makes no progress, so that the loop does not end, if and only if an element takes more than 5000000 bytes |
| Serialize.UnserializeRaw | atomicswap/serialize.h:530-544 | reading a fundamental vector in blocks is one whole read |
| Serialize.UnserializeString | atomicswap/serialize.h:471-478 | a string is its count and that many bytes |
| Serialize.RoundTripsUnique | atomicswap/serialize.h:515-562 | when reading undoes writing, no encoding begins another |
| Serialize.SerializeRaw | atomicswap/serialize.h:463-513 | writes the count and the memory of a string or fundamental vector |
| Serialize.RawRoundTrips | atomicswap/serialize.h:463-544 | strings and fundamental vectors round-trip |
| Serialize.PairRoundTrips | atomicswap/serialize.h:597-615 | pairs round-trip when their halves do |
| Serialize.UnserializeOrdered | atomicswap/serialize.h:704-752 | a map or set is what inserting the elements read, one by one, gives |
| Serialize.OrderedRoundTrips | atomicswap/serialize.h:687-752 | maps and sets of up to MAX_SIZE elements round-trip |
| Transaction.SignatureHash | atomicswap/transaction.h:255-314 | for every hash type, the step-by-step rewriting yields the specified preimage, or the number 1 when the input or its output is missing |
| Transaction.AllCommits | atomicswap/transaction.h:255-314 | under SIGHASH_ALL two typed transactions of one type have equal preimages if and only if they sign the same input with the same stripped, non-empty script code and agree on everything but scriptSigs |
| Transaction.ScriptSigsIgnored | atomicswap/transaction.h:268-271 | for every hash type the preimage ignores every scriptSig |
| Transaction.OthersMayUpdate | atomicswap/transaction.h:273-308 | for every hash type the preimage ignores what the type leaves open |
| Transaction.TypeCommits | atomicswap/transaction.h:255-314 | for every hash type and one input and script code: two typed transactions of one type have equal preimages if and only if they agree on what the type does not leave open |
| Transaction.IndexIsSaid | atomicswap/transaction.h:265-271 | under SIGHASH_ALL the preimage says which input is signed if and only if the script code is more than code separators or there is at most one input |
| Transaction.EmptyCodeLosesIndex | atomicswap/transaction.h:265-271 | with a script code of nothing but code separators, all inputs have one preimage |
| Transaction.TxUnique | atomicswap/transaction.h:222-231 | the bytes of a typed transaction determine it, but for a time that is not written |
| Transaction.TxInUnique | atomicswap/transaction.h:88-93 | no written input begins another |
| Transaction.TxOutUnique | atomicswap/transaction.h:142-148 | no written output of one type begins another |
| BaseUint.BaseUint.AddAssign | atomicswap/uint256.h:138-148 | adds modulo 2^BITS, also to itself |
| BaseUint.BaseUint.Negated | atomicswap/uint256.h:40-47 | negates modulo 2^BITS |
| BaseUint.BaseUint.SubtractAssign | atomicswap/uint256.h:150-154 | subtracts modulo 2^BITS |
| BaseUint.BaseUint.Increment | atomicswap/uint256.h:173-180 | adds one modulo 2^BITS |
| BaseUint.BaseUint.Decrement | atomicswap/uint256.h:190-197 | subtracts one modulo 2^BITS |
| BaseUint.BaseUint.ShiftLeftAssign | atomicswap/uint256.h:104-119 | multiplies by 2^shift modulo 2^BITS, for every shift count |
| BaseUint.BaseUint.ShiftRightAssign | atomicswap/uint256.h:121-136 | divides by 2^shift, for every shift count |
| BaseUint.BaseUint.Less | atomicswap/uint256.h:208-218 | is the integer order |
| BaseUint.BaseUint.LessOrEqual | atomicswap/uint256.h:220-230 | is the integer order |
| BaseUint.BaseUint.Greater | atomicswap/uint256.h:232-242 | is the integer order |
| BaseUint.BaseUint.GreaterOrEqual | atomicswap/uint256.h:244-254 | is the integer order |
| BaseUint.BaseUint.Equal | atomicswap/uint256.h:256-262 | is integer equality |
| BaseUint.AddedAll | atomicswap/uint256.h:138-148 | limbs added with carry are the sum modulo 2^BITS |
| BaseUint.Carried | atomicswap/uint256.h:173-197 | limbs that differ by a carry through the lowest ones are one more and one less, wrapping |
| BaseUint.LeftValue | atomicswap/uint256.h:104-119 | the limbs of the left shift, each the or of two shifted limbs, are the product modulo 2^BITS |
| BaseUint.RightValue | atomicswap/uint256.h:121-136 | the limbs of the right shift are the quotient |
| BaseUint.TopDecides | atomicswap/uint256.h:208-254 | the highest limb that differs decides the order |
| BaseUint.DisjointOr | atomicswap/uint256.h:104-136 | or is addition for numbers with no bit in common |
| BaseUint.ModulusIsPowerOfTwo | atomicswap/uint256.h:11-16 | limbs of 32 bits make a modulus of 2^BITS |
| UintHex.GetHex | atomicswap/uint256.h:288-294 | writes the memory, most significant byte first |
| UintHex.SetHex | atomicswap/uint256.h:296-326 | fills the memory from the last digit back: the number is the leading digits', modulo 2^BITS, for every text |
| UintHex.TextRoundTrip | atomicswap/uint256.h:288-326 | setting a number from its own text gives it back |
| UintHex.MemoryVal | atomicswap/uint256.h:11-16 | the memory's little-endian number is the limbs' number |
| DataStream.CDataStream.Read | atomicswap/serialize.h:1041-1061 | takes the bytes asked for; a longer read throws and changes no bytes, or clears when failures do not throw; and when the 32-bit cursor wraps it overruns, exactly then |
| DataStream.CDataStream.Ignore | atomicswap/serialize.h:1063-1078 | skips, with the same error cases, and goes back when the cursor wraps |
| DataStream.CDataStream.Write | atomicswap/serialize.h:1080-1085 | appends |
| DataStream.CDataStream.Insert | atomicswap/serialize.h:934-945 | inserts at any place, using the place of bytes already read when it can |
| DataStream.CDataStream.EraseOne | atomicswap/serialize.h:962-977 | erases a byte at any place |
| DataStream.CDataStream.Erase | atomicswap/serialize.h:979-997 | erases a range at any place |
| DataStream.CDataStream.Compact | atomicswap/serialize.h:999-1003 | drops the bytes already read |
| DataStream.CDataStream.Rewind | atomicswap/serialize.h:1005-1012 | gives back bytes already read if and only if that many are still there |
| DataStream.CDataStream.SetExceptions | atomicswap/serialize.h:1018-1030 | replaces the mask, and throws at once if a masked bit is already set |
| DataStream.CDataStream.GetAndClear | atomicswap/serialize.h:1118-1121 | appends the unread bytes to the data and clears |
| DataStream.RefinesQueue | atomicswap/serialize.h:920-1085 | after every sequence of operations the unread bytes are those of a plain queue |
| DataStream.RewindAfterRead | atomicswap/serialize.h:1005-1061 | rewinding undoes a read if and only if the read did not reach the end of the data |
| DataStream.RewindRestores | atomicswap/serialize.h:1005-1012 | after a read short of the end and any operations that keep the bytes read, rewinding brings exactly those bytes back |
| LockedPages.LockedPageManager.LockRange | atomicswap/allocators.h:57-78 | every page's count stays the number of live ranges on it, and the locker is called for exactly the pages that had none |
| LockedPages.LockedPageManager.UnlockRange | atomicswap/allocators.h:80-101 | likewise for unlocking a live range, with calls for exactly the pages that had one |
| LockedPages.LockedPageManager.GetLockedPageCount | atomicswap/allocators.h:103-108 | the histogram holds exactly the pages that some live range covers |
| LockedPages.PagesOfBytes | atomicswap/allocators.h:61-64 | the pages visited for a range are those of its bytes |
| LockedPages.MaskRoundsDown | atomicswap/allocators.h:48-54 | masking an address rounds it down to its page |
| LockedPages.ChangedMore | atomicswap/allocators.h:64-100 | one more page keeps counts, calls and locked pages in step, and no page is locked or unlocked twice in a row |
| LockedPages.LoopEnds | atomicswap/allocators.h:64-64 | in the address width the loop from the range's first page comes past its last one if and only if that is not the last page of the address space |
| BatchAllocator.BatchAllocator.Allocate | jsoncpp-src-0.5.0/src/lib_json/json_batchallocator.h:53-78 | hands out an object that is not live; live objects, released ones and unused tails stay a partition of all slots |
| BatchAllocator.BatchAllocator.Release | jsoncpp-src-0.5.0/src/lib_json/json_batchallocator.h:80-87 | takes a live object back into the list |
| BatchAllocator.BatchAllocator.NextBatch | jsoncpp-src-0.5.0/src/lib_json/json_batchallocator.h:63-65 | the search for a batch with room never finds one |
| BatchAllocator.BatchAllocator.AddBatch | jsoncpp-src-0.5.0/src/lib_json/json_batchallocator.h:67-72 | puts a new batch at the head of the chain |
| BatchAllocator.BatchAllocator.WriteObject | jsoncpp-src-0.5.0/src/lib_json/json_batchallocator.h:80-87 | the user's writes to live objects cannot break the list |
| BatchAllocator.FreeListKeeps | jsoncpp-src-0.5.0/src/lib_json/json_batchallocator.h:80-87 | the list threaded through released slots survives writes to any other slot |
| SemanticActions.Semantic_actions.AddToCurrent | atomicswap/jsoninclude/reader_template.h:335-351 | adds a value to the open container and returns a pointer to it |
| SemanticActions.Semantic_actions.BeginCompound | atomicswap/jsoninclude/reader_template.h:308-323 | opens a container |
| SemanticActions.Semantic_actions.EndCompound | atomicswap/jsoninclude/reader_template.h:325-333 | closes the open container, unless it is the root |
| SemanticActions.Semantic_actions.HandleAll | atomicswap/jsoninclude/reader_template.h:218-292 | the actions compute the run of the events |
| SemanticActions.StackIsOpenPath | atomicswap/jsoninclude/reader_template.h:308-356 | throughout every run the stack and the current pointer are the path of open containers from the root |
| SemanticActions.DocumentIsBuilt | atomicswap/jsoninclude/reader_template.h:212-358 | the events of any document trip no assertion, and leave the value built from it, the current pointer at the root and the stack empty |
| SemanticActions.TreeIsBuilt | atomicswap/jsoninclude/reader_template.h:212-358 | the events of a tree leave that tree |
| SemanticActions.ObjectHoldsLast | atomicswap/jsoninclude/value.h:388-391 | an object built from members in any order, with names that may repeat, is ordered and holds for each name its last member |
| JsonGrammar.ReadToken | jsoncpp-src-0.5.0/src/lib_json/json_reader.cpp:273-345 | every token but the end of the stream consumes input and stays inside it |
| JsonGrammar.ReadValue | jsoncpp-src-0.5.0/src/lib_json/json_reader.cpp:194-242 | reading a value goes forward, stays inside the document, and succeeds if and only if it records no error |
| JsonGrammar.ParseDocument | jsoncpp-src-0.5.0/src/lib_json/json_reader.cpp:150-191 | a parse, strict or not about its root, succeeds if and only if no error is recorded |
| JsonStrict.DocumentsDiffer | jsoncpp-src-0.5.0/src/lib_json/json_reader.cpp:479-578 | on every text: what the reader with commas accepts is accepted with the same value, and more is accepted exactly when some separator met is no comma or an object ends after a separator |
| JsonStrict.EndAfterEmptyName | jsoncpp-src-0.5.0/src/lib_json/json_reader.cpp:492-493 | the end of an object after a separator is accepted if and only if the name before it was empty |
| JsonStrict.ColonSeparatesElements | jsoncpp-src-0.5.0/src/lib_json/json_reader.cpp:566-568 | `[null:null]` is accepted, as an array of two elements |
| JsonStrict.CommaBeforeEnd | jsoncpp-src-0.5.0/src/lib_json/json_reader.cpp:492-493 | `{"":null,}` is accepted, as an object of one member |
| JsonStrict.StringsEndAtNul | jsoncpp-src-0.5.0/src/lib_json/json_reader.cpp:646-654 | the value of a string is its decoded text up to the first NUL, and all of it if and only if there is none |
| JsonStrict.NulString | jsoncpp-src-0.5.0/src/lib_json/json_reader.cpp:646-654 | a string of one NUL becomes the empty string |
| JsonReader.Reader.Parse | jsoncpp-src-0.5.0/src/lib_json/json_reader.cpp:150-191 | on every byte string and with every option parsing ends, gives the grammar's verdict, tree and errors, and leaves the node stack as deep as it began |
| JsonReader.Reader.ReadToken | jsoncpp-src-0.5.0/src/lib_json/json_reader.cpp:273-345 | reads the grammar's token |
| JsonReader.Reader.ReadValue | jsoncpp-src-0.5.0/src/lib_json/json_reader.cpp:194-242 | reads the grammar's value into the node on top, on success and on error, and nothing else changes |
| JsonReader.Reader.ReadArray | jsoncpp-src-0.5.0/src/lib_json/json_reader.cpp:538-578 | likewise for an array, with error recovery |
| JsonReader.Reader.ReadObject | jsoncpp-src-0.5.0/src/lib_json/json_reader.cpp:479-535 | likewise for an object, with error recovery |
| JsonReader.Reader.DecodeNumber | jsoncpp-src-0.5.0/src/lib_json/json_reader.cpp:581-616 | the digit loop gives the integer, or turns to the double reader, exactly as the grammar says |
| JsonReader.Reader.DecodeStringInto | jsoncpp-src-0.5.0/src/lib_json/json_reader.cpp:657-701 | decodes a string's escapes as the grammar says, or records its error |
| JsonReader.Reader.RecoverFromError | jsoncpp-src-0.5.0/src/lib_json/json_reader.cpp:773-787 | skips to the end of the container and drops the errors met on the way |
| JsonUtf8.CodePointRoundTrip | jsoncpp-src-0.5.0/src/lib_json/json_reader.cpp:69-103 | the bytes for a code point are well-formed UTF-8 (section 3 of RFC 3629) for it if and only if it is a scalar value |
| JsonUtf8.EscapedPair | jsoncpp-src-0.5.0/src/lib_json/json_reader.cpp:703-731 | a high surrogate escape takes the ten low bits of any second escape, and that is the pair's value exactly when the second is a low surrogate |
| JsonValue.PutLaws | jsoncpp-src-0.5.0/src/lib_json/json_reader.cpp:800-804 | assigning through a pointer changes what it points to and nothing else, and keeps the pointer valid |
| JsonWriter.UintToString | jsoncpp-src-0.5.0/src/lib_json/json_writer.cpp:30-40 | fills the buffer backwards with the decimal digits, never past its start |
| JsonWriter.IntToString | jsoncpp-src-0.5.0/src/lib_json/json_writer.cpp:42-64 | writes the decimal text of every 32-bit integer of either kind |
| JsonWriter.QuotedString | jsoncpp-src-0.5.0/src/lib_json/json_writer.cpp:111-172 | writes the escaped text, by the shortcut or the loop |
| JsonWriter.FastWriter.Write | jsoncpp-src-0.5.0/src/lib_json/json_writer.cpp:197-263 | writes the compact text and a newline |
| JsonWriter.StyledWriter.Write | jsoncpp-src-0.5.0/src/lib_json/json_writer.cpp:276-348 | writes the indented text and a newline |
| JsonWriter.StyledWriter.WriteArrayValue | jsoncpp-src-0.5.0/src/lib_json/json_writer.cpp:351-401 | writes an array on one line or many |
| JsonWriter.StyledWriter.IsMultilineArray | jsoncpp-src-0.5.0/src/lib_json/json_writer.cpp:404-432 | decides that by nesting and width, collecting the element texts |
| JsonRoundTrip.FastSpells | jsoncpp-src-0.5.0/src/lib_json/json_writer.cpp:207-263 | the compact text is the tree's lexemes with white space between |
| JsonRoundTrip.StyledSpells | jsoncpp-src-0.5.0/src/lib_json/json_writer.cpp:290-401 | so is the indented text |
| JsonRoundTrip.ReadsValue | jsoncpp-src-0.5.0/src/lib_json/json_reader.cpp:194-701 | reading a tree's lexemes, however spaced and whatever follows, gives the tree back without error |
| JsonRoundTrip.WriteThenParse | jsoncpp-src-0.5.0/src/lib_json/json_reader.cpp:150-701 | parsing the text of either writer gives back every readable tree, whatever the root held |
| JsonRoundTrip.ReadBackIsSame | jsoncpp-src-0.5.0/src/lib_json/json_reader.cpp:581-616 | the tree read back equals the tree written if and only if its integers are strictly between -2147483640 and 4294967290 and unsigned only above the largest int |
| JsonRoundTrip.ValueIsCanonical | jsoncpp-src-0.5.0/src/lib_json/json_reader.cpp:194-701 | every tree that the reader builds from any accepted text is ordered, NUL-free and within those bounds |
| JsonRoundTrip.ReprintIsStable | jsoncpp-src-0.5.0/src/lib_json/json_writer.cpp:197-348 | whatever text was accepted without a double, printing its tree and parsing again gives the same tree |

## Left out

- RPC, HTTP, sockets, logging, configuration and console output; amounts, fees and addresses; the cfos branches of Redeem and Refund. Time, keys, signatures, hash functions and replies of the coin daemons are parameters.
- Script opcodes that the contract, its output and its spends do not use, and the chains' limits on script and element size.
- SwapProtocol: blocks, reorganisations and unconfirmed transactions; a spend takes effect when it is made. Lock times are times, as Initiate and Participate choose them, not block heights. That the participant checks the initiator's contract before it funds is part of the run's shape.
- Hex.StrTol: leading space, sign and prefix, which HexStr never writes, and a long of 32 bits.
- SwapSpend.ExtractSecret: where the code reads past its data the answer is `Overrun`, and what it finds there is not modelled. The words are those of CScript::ToString; a daemon that adds the hash type's name to signatures gives other words for those.
- ScriptText.OpName: gives names of its own to the opcodes that no script that only pushes has.
- JsonStrict.DocumentsDiffer: is about separators alone. Like the reader, the strict one takes comments in names and separators whatever the options, text after the document, control characters in strings and number forms that RFC 8259 has not.
- Script.CScript.FindAndDelete: scripts of 2^32 bytes or more, whose sizes the code cuts to 32 bits; likewise GetOp2, SignatureHash, SetVch, EncodeBase58 and CDataStream buffers.
- The OpenSSL big number routines: BN_mpi2bn and BN_bn2mpi are their byte format, division and multiplication are those of the integers.
- Base58Check, addresses and their version bytes; base64 and netstrings.
- BaseUint: the operators with a 64-bit operand, which convert it and use the ones modelled; bitwise `^=`, `&=` and `|=`; conversion to double.
- Serialize: 3- and 4-tuples, which are nested pairs; the state of the stream after an exception (DataStream has it); CDataStream::Serialize, which writes the whole buffer.
- Serialize.GetSerializeSizeElements: is exact in 32 bits only, as in the code.
- LockedPages: the mutex, page counts of 2^31 or more (the code's int), and locking itself. The range must end below the last page, where LoopEnds shows that the loop does not end.
- BatchAllocator: more than one object per allocation, and the freeing of batches. What slots hold is a map from pointers to pointers instead of raw memory.
- SemanticActions: the grammar that calls the actions, and position information. Scalars are copied whatever they are; the tree type has no 64-bit integers.
- JSON real numbers: sscanf and sprintf are arbitrary functions, and trees with reals are outside the round trip. Comments are skipped, not attached to values. Sparse arrays, value comparison and jsoncpp's Path.
- JsonText.IntText: negating the least int, which wraps in the code and gives the same digits.
- JsonReader.Reader.Parse: error message texts and line numbers; errors are kinds with the offending token.
- StyledStreamWriter, which repeats StyledWriter on a stream, and the command-line and RPC entry points.
