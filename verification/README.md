# bitprim-core: verified models of its consensus core and codecs

This project models the parts of bitprim-core whose correctness is hardest to see by reading them, and
proves what they promise. `dafny verify dfyconfig.toml` checks everything.

| file | what it models |
|---|---|
| `Words.dfy`, `Sorting.dfy` | machine words, saturating arithmetic, powers and quotients; sorting under any order |
| `Compact.dfy`, `Work.dfy` | compact targets, the 256-bit work computation |
| `MedianTime.dfy`, `ChainState.dfy` | the validation state of a block: its windows, promotion, median time, required work |
| `Promotion.dfy` | a state promoted along any run of headers against the state read from the whole chain |
| `TargetSafety.dfy` | what holds of targets over every run of accepted headers, and what each adjustment computes |
| `Difficulty.dfy` | the median time and the required work of every rule, in terms of the blocks of the chain |
| `PrioritizedMutex.dfy` | the three-mutex priority lock as a transition system over any number of threads |
| `Base58.dfy` | radix conversion in fixed buffers, rewritten in place |
| `Binary.dfy` | packed bit strings with a partial last block, changed in place |
| `Streams.dfy` | the reader and writer, little-endian and variable integers, sized byte strings |
| `Script.dfy` | operations, the lazily cached script, find-and-delete |
| `Transaction.dfy`, `TransactionStream.dfy` | the wire form of transactions as functions, and the reader and writer steps against them |
| `Conservation.dfy` | subsidies, value rules of transactions and blocks, whole chains |
| `Merkle.dfy`, `Locator.dfy`, `BlockOrder.dfy` | Merkle roots, block locators, ordering and double-spend checks |
| `SipHash.dfy` | the SipHash-2-4 reference, the streaming hasher and the two unrolled forms |

Code that changes things step by step is a method with loops, or a class whose methods change its
fields; each is proved against a function of its inputs or of its old state, and the lemmas are about
that function. Expressions and folds are functions. A transaction appears in three views: its wire form,
its values, and its hash with the points it spends.

The model follows the build with neither `BITPRIM_CURRENCY_BCH` nor `BITPRIM_CURRENCY_LTC`; the Bitcoin
Cash difficulty rules are included, switched by `Config.cash`.

## Where the code does not do what one would expect

Each of these is a lemma or a contract below, with the exact condition under which the expected property holds.

- `header::proof` of a zero target wraps to zero work; the guard against a target of 2^256-1 is never needed for a
  target that comes from bits (`Work.TargetProofExact`, `Work.TargetBelowCeiling`).
- A promoted bits window may be shorter or longer than the one read from the chain; the work is still the same
  (`Promotion.BitsWindowAgrees`, `Promotion.WorkAgrees`).
- `binary::prepend` of a string to itself gives the string behind zeros, since the argument is shifted before it is
  read (`PackedBits.Binary.Prepend`, `PackedBits.SelfPrependAgrees`).
- `binary::substring` compares a sum of machine words that can wrap (`PackedBits.Binary.Substring`).
- `binary::is_prefix_of` a field shorter than the string holds of the field padded with zeros
  (`PackedBits.Binary.IsPrefixOf`).
- The Bitcoin Cash adjustment divides by the work of its period, which is zero when all of its targets are
  (`TargetSafety.CashDivides`, `TargetSafety.CashDividesByZero`), and a retarget can bring a small target to zero, which
  no header may have (`TargetSafety.RetargetStaysPositive`).
- The median of a Bitcoin Cash chain of height 136 to 146 is not of its last eleven blocks but of fewer, and at 136 of
  none (`Difficulty.MedianOfTip`, `Difficulty.MedianOfNothing`).
- A script built from operations caches them even when parsing its bytes would give others
  (`Scripts.RunIsCoherent`, `Scripts.BarePushIsNotCoherent`), and a script assigned to itself comes out empty
  (`Scripts.Script.AssignFrom`).
- Find-and-delete is announced as able to erase data beyond one operation. It is not: it removes exactly the operations
  equal to the push, in any order of endorsements (`Scripts.DeleteAllIsFilter`, `Scripts.DeletionOrder`).
- An endorsement of more than 520 bytes makes find-and-delete remove the single byte 0x86
  (`Operations.PushIsWellFormed`).
- A transaction with no inputs and one output is not read back from its own bytes (`WireTransaction.RoundTrip`), and bytes
  with padded counts or a needless marker are read but not written again (`WireTransaction.WriteRead`).
- Value is conserved only where it is checked: not under a checkpoint, and not when transactions are not asked for
  (`BlockValue.ConservationExact`).
- From the sixty-fourth halving on the subsidy is the initial one again, and the money limit no longer limits what is
  issued (`Money.SubsidyHalves`, `Money.IssueIsLimited`).
- A Merkle root does not determine its list: where a level is odd, a run at the end can be repeated, in lists of even
  length too, and a list of one hash stands for the pair it was made from. Apart from collisions between the two trees
  it determines the leaves with such runs filled in (`Merkle.RootsAgree`, `Merkle.RepeatedRunSameRoot`,
  `Merkle.PairSameRoot`).

## Model

| member | source | states |
|---|---|---|
| Compact.ExpansionExact | src/chain/compact.cpp:123-157 | For every sign-clear compact, expansion overflows exactly when mantissa*256^(exponent-3) reaches 2^256, and otherwise, beyond exponent three, gives that value. |
| Compact.ExpansionIsWholePart | src/chain/compact.cpp:123-157 | Whatever the exponent, a compact that does not overflow expands to the whole part of mantissa*256^(exponent-3), and to zero under a sign bit. |
| Compact.ExpandNormal | src/chain/compact.cpp:159-187 | Normalizing any 256-bit value and expanding it again gives the value with its low bytes cleared, never an overflow. |
| Compact.RoundingError | src/chain/compact.cpp:159-187 | What normalizing loses is never negative and, when anything is lost, less than the result divided by 2^15. |
| Compact.NormalizingKeepsValue | src/chain/compact.cpp:95-120 | Normalizing the expansion of any compact that does not overflow keeps its value. |
| Compact.LargestRepresentable | src/chain/compact.cpp:159-187 | The normal form has the largest expressible value not above the given one. |
| Compact.FromBigMonotone | src/chain/compact.cpp:159-187 | Normal forms, compared as integers, are ordered as the values are. |
| Compact.LogicalSizeLoop | src/chain/compact.cpp:82-90 | The shift loop counts the significant bytes. |
| Compact.FromBigWords | src/chain/compact.cpp:159-187 | The word-by-word normalization computes the normal form and never sets the sign bit. |
| Work.TargetProofExact | src/chain/header.cpp:434-446 | (~target/(target+1))+1 in 256 bits is floor(2^256/(target+1)) exactly for targets 1 to 2^256-2; the other two give zero. |
| Work.TargetBelowCeiling | src/chain/header.cpp:427-441 | No bits expand to 2^256-1, so the zero divisor is never met. |
| Work.ProofExact | src/chain/header.cpp:425-447 | The work of any bits, including overflowing and zero ones. |
| Work.LargerTargetLessWork | src/chain/header.cpp:425-447 | A larger positive target never gives more work. |
| MedianTime.MedianRank | src/chain/chain_state.cpp:589-599 | The median is one of the times, at most half of them are below it and more than half at or below it. |
| MedianTime.MedianUnique | src/chain/chain_state.cpp:589-599 | Nothing else has that rank. |
| ChainState.SelectIsMedian | src/chain/chain_state.cpp:608-632 | The three-way selection returns one of its arguments, whose time is the median of the three. |
| ChainState.EasyWorkScan | src/chain/chain_state.cpp:841-853 | The reverse loop with its decremented height computes the recursive scan. |
| ChainState.AccumulateWork | src/chain/chain_state.cpp:662-665 | The loop adds the work of the blocks of the period. |
| ChainState.RetargetHeightIsLatest | src/chain/chain_state.cpp:402-411 | The retarget time is requested from the latest retarget height below the given one. |
| Promotion.HeaderTracks | src/chain/chain_state.cpp:1083-1119 | One promotion keeps "windows are the latest values of the chain, long enough for every rule". |
| Promotion.PromoteTracks | src/chain/chain_state.cpp:951-1119 | So does every run of promotions. |
| Promotion.ScanFindsPoint | src/chain/chain_state.cpp:841-853 | On a long enough window the scan returns inside the loop, at the highest earlier height of the whole chain that is a retarget height or has other bits than the limit, and stays within the window. |
| Promotion.EasyWorkIsLastReal | src/chain/chain_state.cpp:824-884 | In every state that tracks a chain, easy work within the time limit is the bits of that height. |
| Promotion.CashSuffix | src/chain/chain_state.cpp:641-681 | The Bitcoin Cash adjustment depends only on the latest 147 bits of a longer window. |
| Promotion.WorkAgrees | src/chain/chain_state.cpp:691-750 | Two states that track the same chain at the same height require the same work. |
| Promotion.PromotionRefinesRebuild | src/chain/chain_state.cpp:890-924 | A state promoted along any headers agrees with the one read from the chain at the new height: height, times, versions, retarget time, median time past and required work. |
| Promotion.BitsWindowAgrees | src/chain/chain_state.cpp:370-380 | From any height to any other, the promoted bits are the ones read from the chain if and only if nothing was promoted, or there are no easy blocks or no retargeting, or the new height is not a retarget one and the start was not one within the last interval less the bits requested there. |
| Promotion.BitsWindowMayDiffer | src/chain/chain_state.cpp:370-380 | An instance where they differ: one step above a retarget height with easy blocks. |
| TargetSafety.SafeRun | src/chain/header.cpp:505-508 | From any safe state, the first one included, over every run of headers whose bits are the required work, all bits expand without overflow to a target within the limit, and the retarget product never wraps. |
| TargetSafety.WorkIsSafe | src/chain/chain_state.cpp:691-750 | Every branch of the work computation answers with such bits when its window has them. |
| TargetSafety.RunKeepsBits | src/chain/chain_state.cpp:691-750 | Along every run of accepted headers without a retarget height, outside easy blocks and Bitcoin Cash, the bits never change. |
| TargetSafety.RetargetIsLargest | src/chain/chain_state.cpp:765-822 | A retarget gives the largest expressible target within the limit and the old target scaled by the bounded time, at most four times the old one. |
| TargetSafety.RetargetStaysPositive | src/chain/header.cpp:468-480 | A retarget of safe bits gives a target of at least one, as headers need, if and only if the old target times the time taken reaches the target timespan. |
| TargetSafety.CashIsLargest | src/chain/chain_state.cpp:667-681 | The Bitcoin Cash adjustment gives the largest expressible target within the limit and 2^256/work-1. |
| TargetSafety.CashDivides | src/chain/chain_state.cpp:661-676 | For every full window the division by zero work happens if and only if the true work of the period times 600, in 256 bits, is below the bounded time. |
| TargetSafety.CashDividesByZero | src/chain/chain_state.cpp:661-676 | On safe bits whose scaled work fits 256 bits the division by zero work happens if and only if every block of the period has a target of zero. |
| Difficulty.RetargetMeaning | src/chain/chain_state.cpp:765-822 | In every state that tracks a chain, at a retarget height before the Bitcoin Cash adjustment, the required target is the largest expressible one within the limit and the parent's target times the time from block h-2016 to block h-1, kept within 302400 and 4838400, over 1209600; the product never wraps on safe bits. |
| Difficulty.LaterIsEasier | src/chain/chain_state.cpp:812-822 | A later last block never gives a smaller target. |
| Difficulty.MedianMeaning | src/chain/chain_state.cpp:555-599 | In every state that tracks a chain the median time past, of the tip and of the tip less six, is the one timestamp of the stated heights with at most half of them below it and more than half at or below it. |
| Difficulty.MedianOfTip | src/chain/chain_state.cpp:555-576 | For the tip those heights are the last eleven, or all when fewer, if and only if it is not a Bitcoin Cash chain of height 136 to 146. |
| Difficulty.MedianOfNothing | src/chain/chain_state.cpp:555-599 | At the first of these heights the median is zero. |
| Difficulty.WindowsMeaning | src/chain/chain_state.cpp:382-400 | How many of the latest versions and timestamps of the chain a state holds. |
| Difficulty.EasyMeaning | src/chain/chain_state.cpp:824-878 | With easy blocks, a block more than 1200 seconds after its parent needs the minimum, and any other the bits of the highest earlier block at a retarget height or with other bits than the limit. |
| Difficulty.LateMeaning | src/chain/chain_state.cpp:824-829 | So does such a late block under the Bitcoin Cash adjustment. |
| Difficulty.PoolMeaning | src/chain/chain_state.cpp:951-1007 | The pool state above an easy block needs the minimum, unless the parent's time is within 1200 seconds of the largest. |
| Difficulty.PlainMeaning | src/chain/chain_state.cpp:691-750 | Without retargeting, and between retargets on the main network up to height 478558 of Bitcoin Cash, a block needs its parent's bits. |
| Difficulty.EmergencyMeaning | src/chain/chain_state.cpp:733-760 | From there up to height 504031, when the median moved more than 43200 seconds in six blocks, it needs the largest expressible target within the limit and five quarters of its parent's. |
| Difficulty.CashMeaning | src/chain/chain_state.cpp:641-681 | Beyond, the largest expressible target whose expected work is at least the work per block from the middle of blocks h-147 to h-145 to the middle of the last three, over the time between those two kept within 43200 and 172800; it fails exactly when that work is zero. |
| PrioritizedMutex.RunKeepsInv | src/utility/prioritized_mutex.cpp:28-64 | Every run of steps of any threads keeps the invariant that ties each mutex to the program points of its holder. |
| PrioritizedMutex.Safety | src/utility/prioritized_mutex.cpp:28-64 | In every reachable state at most one thread is in its critical section, and with priorities at most one low thread is past the wait mutex. |
| PrioritizedMutex.HandOffFavorsHigh | src/utility/prioritized_mutex.cpp:39-59 | While a low thread is leaving, only a high thread can take the next mutex. |
| PrioritizedMutex.CallsKeepTheirPath | src/utility/prioritized_mutex.cpp:28-64 | Over every run a thread is idle or at a point of its latest call; a high-priority caller never holds or waits for the wait mutex, and while it waits for the next mutex at most one low-priority thread is past the wait mutex. |
| PrioritizedMutex.SomeThreadCanStep | src/utility/prioritized_mutex.cpp:28-64 | Whenever some thread is not idle, some thread can step: no deadlock. |
| PrioritizedMutex.EveryScheduleDrains | src/utility/prioritized_mutex.cpp:28-64 | Without new arrivals every schedule has the same number of steps left and ends with all threads idle. |
| Base58.EncodeSize | src/formats/base_58.cpp:88-92 | The encoding buffer of n*138/100+1 digits holds every n-byte number. |
| Base58.DecodeSize | src/formats/base_58.cpp:153-157 | The decoding buffer of n*733/1000+1 bytes holds every n-digit number. |
| Base58.MultiplyAdd | src/formats/base_58.cpp:70-81 | One pass over a buffer in place multiplies the number it holds and adds, keeping every digit in range; nothing is lost but the returned carry. |
| Base58.PackValue | src/formats/base_58.cpp:70-81 | With room for the result, a byte is appended to the number and the carry is used up. |
| Base58.UnpackChar | src/formats/base_58.cpp:136-146 | The same for a base 58 digit. |
| Base58.SearchFirstNonzero | src/formats/base_58.cpp:46-53 | Finds the number of leading zeros. |
| Base58.EncodeBase58 | src/formats/base_58.cpp:83-119 | The in-place encoder computes the encoding function for all byte strings. |
| Base58.DecodeBase58 | src/formats/base_58.cpp:148-181 | Decoding succeeds exactly on texts over the alphabet, and then computes the decoding function. |
| Base58.DecodeEncode | src/formats/base_58.cpp:83-181 | Every byte string comes back from its encoding, and its leading zeros are exactly the leading ones of the text. |
| Base58.EncodeDecode | src/formats/base_58.cpp:83-181 | Every text over the alphabet comes back from its decoding. |
| PackedBits.Binary.FromBlocks | src/utility/binary.cpp:66-82 | The first bits of the blocks, padded with zeros; empty without blocks whatever the size. |
| PackedBits.Binary.Resize | src/utility/binary.cpp:84-98 | Establishes the minimal block count with zero trailing bits, over the first bits of whatever was there. |
| PackedBits.Binary.At | src/utility/binary.cpp:100-108 | The indexed bit. |
| PackedBits.Binary.Append | src/utility/binary.cpp:129-143 | Concatenation, also of a string to itself. |
| PackedBits.Binary.Prepend | src/utility/binary.cpp:145-152 | Concatenation in front, except of a string to itself, which gives zeros in front. |
| PackedBits.SelfPrependAgrees | src/utility/binary.cpp:145-152 | What prepending a string to itself gives is concatenation if and only if the string is all zeros. |
| PackedBits.Binary.ShiftLeft | src/utility/binary.cpp:154-183 | Drops the first bits. |
| PackedBits.Binary.ShiftRight | src/utility/binary.cpp:185-211 | Puts zero bits in front. |
| PackedBits.Binary.Substring | src/utility/binary.cpp:213-227 | A slice if and only if the length is the largest word or the end does not wrap; otherwise the tail filled with zeros. |
| PackedBits.Binary.IsPrefixOf | src/utility/binary.cpp:239-243 | The prefix test on the bits of the field, if and only if the field is long enough or has no blocks or the string is not the field padded with zeros; that padded string passes too. |
| PackedBits.Binary.Equals | src/utility/binary.cpp:250-262 | Equality of the bit strings. |
| PackedBits.Binary.Encoded | src/utility/binary.cpp:320-326 | The text form. |
| PackedBits.Binary.Decode | src/utility/binary.cpp:276-318 | Reads the text form from the first word of a text; any other character in it leaves an empty string. |
| PackedBits.TextRoundTrip | src/utility/binary.cpp:276-326 | Bits come back from their text, which is one word, and a text comes back exactly when it is all zeros and ones. |
| LittleEndian.DecodeEncode | include/bitcoin/bitcoin/impl/utility/endian.ipp:99-112 | A value that fits its width is read back. |
| LittleEndian.EncodedByte | include/bitcoin/bitcoin/impl/utility/endian.ipp:99-112 | Byte i of an encoding is the value over 256^i, modulo 256. |
| VariableInteger.ReadWrite | src/utility/ostream_writer.cpp:135-156 | A variable integer is read back, leaving what follows it. |
| VariableInteger.WriteRead | src/utility/istream_reader.cpp:145-160 | A value that was read writes the bytes it was read from if and only if they were minimal; it never writes more. |
| VariableInteger.ReadSize | src/utility/istream_reader.cpp:145-173 | The reader fails exactly when the bytes run out, and else returns the value and moves behind it. |
| VariableInteger.Write | src/message/messages.cpp:27-37 | The bytes written are as many as the size function says. |
| VariableInteger.Layout | src/utility/ostream_writer.cpp:135-156 | The first byte, the length and every further byte of a variable integer. |
| Operations.FromData | src/machine/operation.cpp:77-96 | Reading an operation fails exactly when the bytes run out or the size exceeds a block, and then leaves the invalid operation. |
| Operations.ParseSerialized | src/machine/operation.cpp:257-279 | A well-formed operation is read back from its bytes before any others, at its serialized size. |
| Operations.SerializeParsed | src/machine/operation.cpp:77-96 | What is read is well formed and serializes to exactly the bytes consumed. |
| Operations.PushIsWellFormed | include/bitcoin/bitcoin/impl/machine/operation.ipp:70-84 | A push of raw data is well formed exactly up to 520 bytes; beyond it serializes to 0x86. |
| Operations.PushBytes | include/bitcoin/bitcoin/impl/machine/operation.ipp:207-220 | The bytes of a push for every size of data: the size in the opcode up to 75, behind 76 up to 255, behind 77 in two bytes up to 520, else 0x86. |
| Operations.PushIsShortest | include/bitcoin/bitcoin/impl/machine/operation.ipp:207-220 | Of all well-formed operations with its data a push is the shortest, and no other is as short. |
| Scripts.OnlyLastInvalid | src/chain/script.cpp:447-454 | All parsed operations but the last are well formed, and the last is or is the invalid one. |
| Scripts.ParseSerializeAll | src/chain/script.cpp:256-270 | Operations come back from their bytes if and only if each is well formed. |
| Scripts.SerializeParse | src/chain/script.cpp:450-454 | Bytes come back from their operations if and only if the last one is valid. |
| Scripts.ParseOperations | src/chain/script.cpp:429-457 | The reading loop computes the parse, keeping a failed operation at its end. |
| Scripts.OperationsToData | src/chain/script.cpp:256-270 | The writing loop computes the serialization. |
| Scripts.RunIsCoherent | src/chain/script.cpp:70-137 | Over every run of constructors and mutators the cached operations are the parse of the bytes and an uncached script holds none, except exactly while ill-formed operations are stored. |
| Scripts.BarePushIsNotCoherent | src/chain/script.cpp:246-253 | An example of that exception. |
| Scripts.Script.AssignFrom | src/chain/script.cpp:130-137 | Takes the bytes and validity of the other script with no cache; of itself, becomes empty. |
| Scripts.Script.FromData | src/chain/script.cpp:189-214 | Reads all bytes or a sized string, or resets when the reader fails. |
| Scripts.Script.FromOperations | src/chain/script.cpp:246-253 | Bytes and cache are set together. |
| Scripts.Script.ListOperations | src/chain/script.cpp:416-463 | Fills the cache once. |
| Scripts.Script.FindAndDelete | src/chain/script.cpp:1330-1339 | Deletes each endorsement in turn, as the one-pass specification does, and drops the cache. |
| Scripts.DeleteIsFilter | src/chain/script.cpp:1288-1327 | Deleting the bytes of a well-formed operation where operations start removes exactly the operations equal to it, and keeps the others and the tail that does not parse. |
| Scripts.EndorsementIsFilter | src/chain/script.cpp:1293-1327 | So does deleting an endorsement: it removes the operations of that data with the size in the opcode up to 75 bytes, 76 up to 255 and 77 up to 520, or the operation 0x86 beyond. |
| Scripts.DeleteAllIsFilter | src/chain/script.cpp:1330-1339 | A list of endorsements removes, as one filter, the operations any of them stands for, and keeps the rest and the tail that does not parse. |
| Scripts.DeletionOrder | src/chain/script.cpp:1330-1339 | Lists with the same non-empty endorsements, in any order and number, leave the same bytes. |
| Scripts.FindMatches | src/chain/script.cpp:1304-1322 | The scan records matches that do not overlap, and leaving them out is the one-pass specification; iterator and reader agree while the reader is valid. |
| Scripts.EraseMatches | src/chain/script.cpp:1324-1327 | Erasing from the last match to the first leaves out exactly the matches. |
| WireList.ReadWritten | src/chain/transaction.cpp:57-101 | A list is read back, leaving what follows it, when each element is. |
| WireList.ListFaithful | src/chain/transaction.cpp:57-101 | Reading a list takes at least the bytes that writing it does, and exactly those if and only if each element was minimal. |
| WireTransaction.RoundTrip | src/chain/transaction.cpp:286-356 | Wire bytes followed by anything are read back to an equal (or stripped) transaction leaving exactly the rest, in both forms, if and only if sizes are within the read guards and it does not have no inputs and one output. |
| WireTransaction.WriteRead | src/chain/transaction.cpp:422-469 | A transaction that was read writes the bytes it was read from if and only if every count and size is minimal and a form with marker and flag has a non-empty stack and witnesses are asked for. |
| WireTransaction.PartsWritten | src/chain/transaction.cpp:422-469 | The same of the inputs, outputs and witnesses between version and lock time. |
| WireTransaction.AmbiguousNotRead | src/chain/transaction.cpp:300-313 | With no inputs and one output no reading gives the transaction back. |
| WireTransaction.ReadWithinLimits | src/chain/transaction.cpp:66-70 | Whatever is read is within the guards. |
| WireTransaction.MarkerMeansSegregated | src/chain/transaction.cpp:422-450 | The marker and flag follow the version exactly in the segregated form and in the one of no inputs and one output; version and lock time are at the ends. |
| WireTransaction.PointLayout | src/chain/point.cpp:216-229 | The 36 bytes of a point. |
| WireTransaction.InputLayout | src/chain/input.cpp:264-281 | Where the point, the sized script and the sequence of an input are. |
| WireTransaction.OutputLayout | src/chain/output.cpp:210-220 | Where the value and the sized script of an output are. |
| WireTransaction.SizeExact | src/chain/transaction.cpp:474-504 | The size computed in advance is the number of bytes written, with and without witnesses. |
| TransactionStream.StackFromData | src/chain/witness.cpp:156-196 | The witness loop reads a stack, or fails with the reader and leaves it empty. |
| TransactionStream.InputFromData | src/chain/input.cpp:194-220 | Reads an input, or fails with the reader and resets it. |
| TransactionStream.OutputFromData | src/chain/output.cpp:160-174 | Reads an output, or fails with the reader and resets it. |
| TransactionStream.PointFromData | src/chain/point.cpp:157-180 | Reads a point, or fails with the reader and resets it. |
| TransactionStream.InputsFromData | src/chain/transaction.cpp:59-84 | The guarded loop reads a list of inputs; when it fails the list holds those read and then reset ones, or nothing beyond the guard. |
| TransactionStream.OutputsFromData | src/chain/transaction.cpp:59-84 | The same for outputs. |
| TransactionStream.WitnessesFromData | src/chain/transaction.cpp:104-112 | One stack an input is read and put into place; from a failure on the stacks are empty. |
| TransactionStream.TransactionFromData | src/chain/transaction.cpp:286-356 | The steps, with the marker look-ahead, compute the reading function; a failure resets the transaction. |
| TransactionStream.TransactionToData | src/chain/transaction.cpp:422-469 | The steps append the written form to the sink. |
| Money.SubsidyHalves | src/chain/block.cpp:611-618 | The subsidy is the initial one divided by two to the number of halvings if and only if the height is below 64 intervals. |
| Money.IssueIsLimited | include/bitcoin/bitcoin/constants.hpp:562-569 | All subsidies below a height sum to at most the money limit if and only if the height is at most 64 intervals. |
| BlockValue.CeilingSumIsCut | include/bitcoin/bitcoin/math/limits.hpp:53-65 | A saturating sum is the true sum cut at the largest word. |
| BlockValue.FeesAreLeftOver | src/chain/transaction.cpp:840-919 | In a checked transaction output totals are exact, and outputs plus fees stay within inputs unless overspent. |
| BlockValue.Conservation | src/chain/block.cpp:1038-1115 | A block that passes check and accept, not under a checkpoint, has true outputs of at most its true populated inputs plus the subsidy. |
| BlockValue.AcceptedExactly | src/chain/block.cpp:1038-1115 | A checked block outside checkpoints, whose coinbase spends nothing and whose inputs do not saturate, is accepted if and only if its other rules hold, its transactions are accepted and its outputs are at most its inputs plus the subsidy: every fee may be claimed. |
| BlockValue.CheckedExactly | src/chain/block.cpp:977-1029 | Which blocks pass the check, as an if and only if. |
| BlockValue.TransactionExactly | src/chain/transaction.cpp:1122-1233 | Which transactions are checked and accepted in a block, by their true sums, as if and only if. |
| BlockValue.CheckedShape | src/chain/block.cpp:990-997 | Every transaction of a checked block has inputs and outputs and pays at most the money limit, without bound, and exactly the first has a null input. |
| BlockValue.AcceptedSpendsFound | src/chain/transaction.cpp:960-972 | In an accepted block every output spent after the coinbase was found. |
| BlockValue.PoolIsStricter | src/chain/transaction.cpp:1122-1233 | What is checked and accepted for the pool is no coinbase and is checked and accepted in a block. |
| BlockValue.CheckpointSkipsValue | src/chain/block.cpp:1067-1068 | Under a checkpoint, at any height, a coinbase may claim any amount up to the money limit. |
| BlockValue.SkippedTransactionsCreate | src/chain/block.cpp:1110-1114 | Without asking for transactions a block may create any such amount. |
| BlockValue.ConservationExact | src/chain/block.cpp:1038-1115 | Accepting conserves value for every block if and only if transactions are asked for and the state is not under a checkpoint. |
| BlockValue.ChainConservation | src/chain/block.cpp:843-871 | Over every stretch of such blocks, from any height, value created is at most value spent plus the subsidies of those heights, and with what was issued before at most value spent plus the money limit, up to 64 intervals. |
| BlockValue.CheckTransactions | src/chain/block.cpp:940-949 | The loop returns the first failure. |
| BlockValue.AcceptTransactions | src/chain/block.cpp:951-960 | The loop returns the first failure. |
| Merkle.RootIsTreeHash | src/chain/block.cpp:733-762 | The root is the hash at the top of the tree by height and position, of width ceil(n/2^height). |
| Merkle.RootCommits | src/chain/block.cpp:733-762 | Lists of equal length and equal root are equal, or the two trees themselves hash two different pairs to one value at nodes of one height. |
| Merkle.RootsAgree | src/chain/block.cpp:745-761 | For any pair hash and any two non-empty lists: one root if the full leaves of the lower tree, with missing right halves repeated, are those of the level of the other tree at its height, and only if, unless the two trees hash different pairs to one value. |
| Merkle.NodesAgree | src/chain/block.cpp:748-757 | Nodes of one height over the same full leaves hash alike; nodes that hash alike cover the same full leaves, or the trees clash below them. |
| Merkle.RepeatedRunSameRoot | src/chain/block.cpp:750-752 | A list of an odd number, beyond one, of runs of 2^k elements has the root of that list with its last run repeated. |
| Merkle.PairSameRoot | src/chain/block.cpp:754-755 | Lists of different heights can agree. |
| Merkle.GenerateMerkleRoot | src/chain/block.cpp:733-762 | The loop with two lists computes the root, and the null hash without transactions. |
| Locator.LocatorHeights | src/chain/block.cpp:556-579 | For every 64-bit top: starts at top, strictly decreases, ends at zero, each entry at its exact depth, exactly min(10,top)+floor(log2(r+1))+1 entries and within the reservation; the doubled word never wraps. |
| Locator.CountWithinSize | src/chain/block.cpp:542-553 | The exact count is within ten, a logarithm rounded up, and one, and at most one below it. |
| BlockOrder.PointOrder | src/chain/point.cpp:101-111 | Exactly one of less, equal and greater holds of two points. |
| BlockOrder.PointDecide | src/chain/point.cpp:101-106 | The index decides, and between equal indexes the first differing byte of the hashes. |
| BlockOrder.PointTransitive | src/chain/point.cpp:101-106 | The order is transitive. |
| BlockOrder.NeighboursDecide | src/chain/block.cpp:831-834 | A sorted list has a repeated point exactly when two neighbours are equal. |
| BlockOrder.IsInternalDoubleSpend | src/chain/block.cpp:815-835 | Reported exactly when two inputs after the coinbase name the same point. |
| BlockOrder.IsForwardReference | src/chain/block.cpp:784-801 | False exactly when every input that names a transaction of the block names only strictly earlier ones. |
| SipHash.SipHasher.WriteWord | src/math/sip_hash.cpp:52-73 | An aligned word write is a write of its eight little-endian bytes. |
| SipHash.SipHasher.Write | src/math/sip_hash.cpp:75-104 | Byte writes append to what was written. |
| SipHash.SipHasher.Finalize | src/math/sip_hash.cpp:106-124 | The digest is the reference digest of the key and of everything written, however split. |
| SipHash.SipHashUint256 | src/math/sip_hash.cpp:126-163 | The unrolled form is the reference digest of the 32 bytes. |
| SipHash.SipHashUint256Extra | src/math/sip_hash.cpp:165-203 | The unrolled form is the reference digest of the 32 bytes and four little-endian extra bytes. |
| SipHash.OneMoreByte | src/math/sip_hash.cpp:84-94 | The reference after one more byte: a full word is compressed, else the byte joins the tail. |
| SipHash.PublishedVector | src/math/sip_hash.cpp:21-39 | The reference gives the digest published in Appendix A of the SipHash paper, which pins its constants and rotations. |

## Left out

- Litecoin rules, and the Bitcoin Cash block and transaction rules other than its difficulty adjustments: they would only add branches.
- Fork activation, checkpoint hashes and block hashes in the chain state: the promotion results are about windows, retarget time, median time and work.
- The signalled version of a pool state is a parameter of the configuration.
- The store form of transactions, their hash caches and sizes; only the wire form is modelled.
- Caches of totals and of segregation, and the locks around them; moved-from scripts.
- Script mnemonics, patterns, signature hashing, sigop counting and evaluation.
- Hashes are byte strings or any type; the pair hash of the Merkle tree is any function.
- Rules of blocks and transactions that do not concern value (sizes, sigops, locks, maturity, duplicates) are facts of the value model.
- std::sort is a sort by insertion, in the median and in the double-spend check.
- The failure of an allocation, in `binary::substring` and elsewhere.
- The text order of `binary::operator<`.
- Locator.LocatorHeights: the reservation uses the exact logarithm rounded up, not the floating-point one.
- SipHash.SipHasher.Write: counts beyond the range of `int` are excluded, where the source has undefined behaviour.
- SipHash.SipHasher.WriteWord: requires an aligned count, which the source asserts.
