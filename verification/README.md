# Verification of the Hedera JavaScript SDK's core logic

A Dafny 4.11 model of five parts of the SDK, with proofs. `dafny verify dfyconfig.toml` checks all of it.

| file | models |
|---|---|
| `Core.dfy`, `Text.dfy` | option and result types, powers and remainders; decimal and hex text, 64-bit integers of the `long` package |
| `Checksum.dfy` | `_checksum` (HIP-15), its loops and what it detects |
| `EntityId.dfy` | the ID pattern, parser, printer with checksum, client-side validation |
| `MistypedIds.dfy` | mistyped IDs with leading zeros, which the parser drops |
| `SolidityAddress.dfy` | the 20-byte address codec |
| `ManagedNode.dfy` | back-off and readmit time of a node |
| `Execution.dfy` | the retry loop, cut at its `await`s into three pieces, and the loop itself as a method |
| `Runs.dfy` | what every run of the loop keeps |
| `Interleaving.dfy`, `SharedNodes.dfy` | any number of requests sharing nodes, every schedule |
| `Schedules.dfy` | iterations and whole runs of the loop as schedules of that system |
| `Rlp.dfy`, `EthereumData.dfy`, `EthereumFlow.dfy` | RLP (Ethereum Yellow Paper, Appendix B), the three transaction codecs, the file detour for large call data |
| `Hbar.dfy` | units, decimal text, amounts |
| `Keys.dfy` | key trees and their protobuf form, the mutable key list |
| `Timestamp.dfy` | timestamp arithmetic, text, and the generator |

## Form

Code that updates variables in loops or fields in place is a method or a class: the checksum's loops, the address
buffer, `ManagedNode`, `Executable` with its round-robin list, the flow and its files, the key list, the timestamp
generator. Each method is proved equal to a function of its inputs or of the old state, and the lemmas are about that
function. Codecs and parsers, which are expressions in the source, are functions. A thrown error is an `Err` value.

What the outside world contributes is a parameter: clock readings, random draws, the node chosen among an account's
addresses, and the network's answers. JavaScript numbers are integers or reals; every product in `_checksum` stays
below 2^53, so its integers are exact, and its print loop, which divides without rounding, is modelled over reals.
NaN is modelled in `_checksum`. Doubles are rounded explicitly in the address codec.

Assumed of libraries: `Long.fromString` reads eight digits at a time and wraps to 64 bits; `BigNumber` is exact
decimal arithmetic, divides to 20 places rounding half up, and prints with an exponent below 10^-6 and from 10^21 on;
`Buffer.from(text, "hex")` stops at the first pair that is not hex; RLP decoding is as in the Yellow Paper.

## Findings

Where code and comments or tests disagree, the model follows the code.

- A swap of two different symbols of an address goes unnoticed exactly at distances that are multiples of 676. An ID
  has at most 59 symbols, so for IDs every swap that yields an ID's own text is caught.
- A mistyped ID may have leading zeros. The parser drops them, and validation compares with the checksum of the shorter
  text. A replaced symbol is still always caught; the other errors are, exactly unless a multiple of five zeros is dropped.
  With five, a swap can go unnoticed on every ledger: 6.27.500000 typed as 6.27.000005 is read as 6.27.5 and accepted.
- An account ID with an EVM address gets five NUL characters as its checksum as soon as its hex form holds a letter,
  on every ledger, and the printed text does not parse.
- `createFile` cuts at 4096 hex characters but appends only for more than 4096 bytes. Call data of 2049 to 4096 bytes is
  cut short. It reaches the file branch only when the other fields encode to more than 1017 bytes (1018 in a legacy
  transaction), and beyond that there is always call data it loses; one such transaction is run through the flow.
- `EthereumFlow.execute` empties the caller's data object. Executing the flow again still submits the caller's
  transaction exactly when that was small enough to go out whole or had no call data.
- An access list with real entries, which are lists, is never decoded.
- A later failure can bring a node's readmit time forward, after successes in between; an earlier failure's back-off is
  then cut short. It cannot happen while no node has more than three requests in flight; with four it can, even on a node
  just built.
- A run can raise "All nodes are unhealthy" without having looked at some other node exactly when it does not start at the
  head of its list, and the end of the list is permitted and within its attempts. A request keeps its position from one
  execution to the next.
- A contract key with an EVM address loses it in the protobuf form; an empty leaf key becomes null.
- `setMaxBackoff` and cloning break the order of a node's back-off bounds except in the stated cases.
- `toDate` and the protobuf form of a timestamp are exact exactly while the seconds fit in 32 bits.

## Model

| member | source | states |
|---|---|---|
| Checksum.AddressSums | src/EntityIdHelper.js:337-348 | The one-pass loop with reductions at every step ends with exactly the three plain positional sums of HIP-15 modulo 26^3, 11 and 11; any non-digit, non-dot makes the result NaN |
| Checksum.HashLedger | src/EntityIdHelper.js:334-351 | The ledger loop ends with the base-31 sum of the ledger bytes and six zeros, modulo 26^5 |
| Checksum.DivideUnrounded | src/EntityIdHelper.js:355-358 | Dividing by 26 without flooring still yields, in whole parts, the integer quotient and the integer base-26 digit |
| Checksum.PrintLetters | src/EntityIdHelper.js:355-358 | The print loop emits exactly the five base-26 digits, most significant first, or five NULs for NaN |
| Checksum.Compute | src/EntityIdHelper.js:320-361 | All loops together compute the HIP-15 definition |
| Checksum.LettersDecoded | src/EntityIdHelper.js:320-361 | Read in base 26 with the multiplication undone, the five letters are length mod 5, even and odd position sums mod 11, base-31 sum mod 26^3, packed, plus the ledger's sum, mod 26^5 |
| Checksum.Base26RoundTrip | src/EntityIdHelper.js:355-358 | Reading the letters back in base 26 recovers the number, for any number of digits |
| Checksum.MultiplierUndone | src/EntityIdHelper.js:331-353 | The multiplication by 1000003 modulo 26^5 is undone by an explicit inverse |
| Checksum.PackInjective | src/EntityIdHelper.js:352 | The packed fingerprint stays below 26^5 and determines its four parts |
| Checksum.SameChecksumIff | src/EntityIdHelper.js:320-361 | On one ledger two addresses of any length share a checksum if and only if length mod 5, both parity sums mod 11 and the base-31 sum mod 26^3 agree |
| Checksum.NotAnAddressIff | src/EntityIdHelper.js:337-360 | The checksum is five NULs if and only if some character is neither digit nor dot |
| Checksum.LoneEditDetected | src/EntityIdHelper.js:341-353 | Changing one symbol among the even positions, or one among the odd, changes the checksum, whatever happens at the other parity: covers one substitution and two of opposite parity, any length |
| Checksum.LengthChangeDetected | src/EntityIdHelper.js:352 | Adding or dropping symbols is detected unless their number is a multiple of five |
| Checksum.OrderOfWeight | src/EntityIdHelper.js:328-342 | 31^d is 1 modulo 13^3 if and only if 676 divides d |
| Checksum.SwapUndetectedIff | src/EntityIdHelper.js:341-353 | Swapping two different symbols keeps the checksum if and only if their distance is a multiple of 676, any length |
| Checksum.SameLedgerIff | src/EntityIdHelper.js:334-353 | For one address two ledgers give the same checksum if and only if their hashes agree |
| Checksum.LedgerByteDetected | src/EntityIdHelper.js:334-353 | Ledger IDs differing in exactly one byte never give an address the same checksum |
| Checksum.DocumentedExamples | test/unit/ChecksumValidation.js:8-48 | The three checksums of 0.0.123 the project's tests expect |
| EntityId.MatchIff | src/EntityIdHelper.js:74 | The matcher returns captures g if and only if g has the shape of the pattern and renders to the text: captures exist and are unique |
| EntityId.ParseNumbers | src/EntityIdHelper.js:171-216 | Three digit runs are shard, realm and num, each wrapped to 64 bits, with or without a checksum |
| EntityId.ParseBareNumber | src/EntityIdHelper.js:178-184 | A number without dots is the num, with shard and realm zero |
| EntityId.ParseIdText | src/EntityIdHelper.js:171-216 | Every printed ID with non-negative 64-bit parts, with or without a five-letter suffix, parses to itself and that suffix |
| EntityId.RoundTrip | src/EntityIdHelper.js:372-414 | What toStringWithChecksum prints parses to the same ID, with a checksum that validateChecksum accepts on that ledger |
| EntityId.PrintedIff | src/EntityIdHelper.js:400-414 | The text with checksum is produced exactly by clients that know their ledger; a missing client is its own error |
| EntityId.ValidIff | src/EntityIdHelper.js:372-391 | Validation fails if and only if the ledger is known, a checksum is there, and it differs from the ID's own |
| EntityId.MistypedIdRejected | src/EntityIdHelper.js:372-391 | An ID one substitution, one opposite-parity double substitution or one swap away, carrying the intended ID's checksum, parses and is always rejected |
| MistypedIds.EveryTextIsPadded | src/EntityIdHelper.js:206-216 | Every dotted text of three numbers within 63 bits is some ID's text with zeros in front of its numbers |
| MistypedIds.ParsePadded | src/EntityIdHelper.js:171-216 | Such a text, with or without a checksum, parses to that ID |
| MistypedIds.SubstitutionRejected | src/EntityIdHelper.js:372-391 | One symbol replaced, with any leading zeros that leaves: parses, and is always rejected with the intended ID's checksum |
| MistypedIds.MistypedTextRejected | src/EntityIdHelper.js:372-391 | So for every other typing error, swaps included, unless the dropped zeros are a positive multiple of five |
| MistypedIds.AlwaysCaughtIff | src/EntityIdHelper.js:372-391 | Typing errors that drop r zeros modulo five, at least one, are all rejected on every ledger if and only if r is not 0 |
| MistypedIds.UnnoticedSwap | src/EntityIdHelper.js:372-391 | A swap with five dropped zeros that every ledger accepts |
| EntityId.WrongLedgerRejected | src/EntityIdHelper.js:372-391 | An ID with its checksum is rejected by every ledger whose ID differs in one byte |
| EntityId.EvmAddressChecksum | src/account/AccountId.js:357-381 | For an account ID with an EVM address, the text with checksum matches the pattern if and only if the hex form has no letter |
| Text.LongFromDigits | src/EntityIdHelper.js:211-213 | Reading digits eight at a time gives the decimal value, wrapped to signed 64 bits |
| Text.HexRoundTrip | src/encoding/hex.js:25-36 | Decoding undoes encoding, with or without 0x |
| Text.HexText | src/encoding/hex.js:25-27 | Two lower-case digits a byte, in order, the high half first |
| Text.HexDigitIff | src/encoding/hex.js:33-36 | Digits are read in either case, and nothing else is a digit |
| SolidityAddress.SetUint32 | src/EntityIdHelper.js:258-260 | Writes four big-endian bytes of the value modulo 2^32 and nothing else |
| SolidityAddress.ToSolidityAddress | src/EntityIdHelper.js:253-263 | The three writes into the zeroed buffer give the 20 bytes of the layout |
| SolidityAddress.Layout | src/EntityIdHelper.js:218-263 | Four bytes read back as shard, eight as realm, eight as num, each modulo 2^32 after conversion to a double |
| SolidityAddress.StoredWord | src/EntityIdHelper.js:258-260 | What is stored of a component is, modulo 2^32, itself below 2^53 and otherwise the nearest number of 53 bits, ties to even |
| SolidityAddress.OtherLength | src/EntityIdHelper.js:233-236 | Hex text of any other number of bytes than 20 is an error |
| SolidityAddress.TripleRoundTripIff | src/EntityIdHelper.js:228-263 | A triple survives writing and reading if and only if all three components are in [0, 2^32) |
| SolidityAddress.AddressRoundTripIff | src/EntityIdHelper.js:228-263 | A 20-byte address survives reading and writing if and only if bytes 4-7 and 12-15 are zero |
| Nodes.SetMinBoundedIff | src/ManagedNode.js:161-168 | A new minimum keeps min <= current <= max if and only if it is between 0 and the maximum |
| Nodes.SetMaxBoundedIff | src/ManagedNode.js:181-188 | A new maximum keeps the bounds if and only if the current back-off is not above it |
| Nodes.CloneBoundedIff | src/ManagedNode.js:91-110 | A clone has ordered bounds if and only if the original was at its minimum |
| Nodes.HistoryBounded | src/ManagedNode.js:161-230 | Any history of failures, successes and admissible minima keeps the bounds |
| Nodes.BackoffAfterFailures | src/ManagedNode.js:217-223 | After k failures and no success the back-off is min(b * 2^k, max) and the readmit time is the last failure plus that |
| Nodes.BackoffAfterSuccesses | src/ManagedNode.js:225-230 | After k successes and no failure the back-off is b / 2^k, not below the minimum, and nothing else has changed |
| Nodes.NewNodeBackoff | src/ManagedNode.js:74-76 | On a node just built k failures give min(8000 * 2^k, 3600000) milliseconds |
| Nodes.NewMinimum | src/ManagedNode.js:161-168 | A new minimum raises a lower or equal back-off to itself and changes nothing else |
| Nodes.NewMaximum | src/ManagedNode.js:181-188 | A new maximum raises a lower or equal back-off to itself, and does not lower a higher one |
| Nodes.SuccessUndoesFailureIff | src/ManagedNode.js:217-230 | A success right after a failure restores the back-off if and only if doubling was not cut or the back-off was at its minimum |
| Nodes.ManagedNode.IncreaseBackoff | src/ManagedNode.js:217-223 | The object's new state is the specified one; bounds are kept and the back-off never shrinks |
| Nodes.ManagedNode.DecreaseBackoff | src/ManagedNode.js:225-230 | The object's new state is the specified one; bounds are kept and the back-off never grows |
| Execution.Executable.Execute | src/Executable.js:565-799 | The loop, with its mutable list, index, last error and node objects, does exactly the run the specification defines: same outcome, same events, same final nodes |
| Execution.Executable.HandleReply | src/Executable.js:706-787 | Retry decision, back-off change, last error and outcome for each answer |
| Execution.NoValidNodesIff | src/Executable.js:565-589 | A run is refused at the start if and only if the transaction names nodes and none of them is on the list |
| Execution.RetryableErrors | src/Executable.js:454-469 | Retried are HTTP errors, the gRPC codes 8, 14, 17 and 18, and 13 with a stream reset |
| Execution.AfterReply | src/Executable.js:706-787 | A run goes on after a wait exactly after an answer to be retried, and without one exactly after a retryable error |
| Execution.DelayLocal | src/Executable.js:844-846 | A local node is waited for the minimum, whatever the attempt |
| Execution.DelayFloor | src/Executable.js:849-852 | Otherwise the wait is the minimum doubled once per attempt, in whole milliseconds, cut at the maximum |
| Execution.DelayDoubles | src/Executable.js:843-853 | For a whole number of milliseconds, before retry number k it is exactly min(minBackoff * 2^k, maxBackoff) |
| Execution.DelayGrows | src/Executable.js:843-853 | The wait before a retry never shrinks with the attempt number and never exceeds the maximum |
| Runs.OutcomeExplained | src/Executable.js:590-798 | At most maxAttempts iterations; outputs, status errors and thrown errors come from the last answer, judged so |
| Runs.OutcomeDecided | src/Executable.js:590-798 | Each outcome if and only if the trace and the clock call for it: an answer that ends the run; attempts used up, with the latest problem; a passed deadline; no node to start with; otherwise a node that was out |
| Runs.TraceIsOfWorld | src/Executable.js:604-736 | Event k names the node, the times and the answer of iteration k |
| Runs.EmptyListFilled | src/Executable.js:607-611 | An empty list is filled with the node the network gives, and the run is that of the filled list |
| Runs.DeadlineKept | src/Executable.js:592-602 | No iteration starts at or after the deadline, and a time-out is raised only then |
| Runs.OnlyPermittedNodes | src/Executable.js:622-635 | A position is skipped as not allowed if and only if its account is not among the transaction's node IDs |
| Runs.GateExplained | src/Executable.js:650-736 | Each node tried was sent to if and only if the run's earlier events left it healthy at that time, and each failure's back-off is min(2b, max) of the back-off they left |
| Runs.Positions | src/transaction/List.js:154-158 | Iteration k works on position (start + k) mod n, and giving up happens at position n-1 |
| Runs.EveryPositionOnce | src/Executable.js:604-671 | Any n consecutive iterations on n nodes work on each exactly once |
| Runs.UnhealthyFromHead | src/Executable.js:650-659 | From list index 0 every other position was always worked on first |
| Runs.UnhealthyTooEarly | src/Executable.js:650-659 | With every node out, a run from any position that can reach the end of the list gives up there without having worked on any position before its start |
| Runs.UnhealthyTooEarlyIff | src/Executable.js:590-659 | For given settings, list, start and attempt: the error can be raised with another position not worked on if and only if the start is not the head, and the list's end is permitted and within the attempts |
| Runs.FailedNodesRest | src/Executable.js:650-736 | In a run with its nodes to itself every send respects the readmit times it began with, and no failed node is sent to before its recorded back-off has passed |
| Runs.FailureKeepsNodeOut | src/Executable.js:650-736 | After a retryable failure at time t with back-off b the next send to that node is at t + min(2b, max) or later |
| Runs.TraceExplainsNodes | src/Executable.js:735-751 | Every node ends the run in the state its failures and successes on the trace lead to |
| Runs.BackoffAfterRun | src/Executable.js:735 | k retryable failures and no answer leave min(b * 2^k, max) |
| Interleaving.GatedInEveryInterleaving | src/Executable.js:645-751 | In every schedule of any number of executions, each send is at or after its node's readmit time, as everyone's earlier failures and successes left it; nodes are what the history says; bounds hold |
| Interleaving.SendsBoundedFromStart | src/Executable.js:590 | In every schedule each execution sends at most maxAttempts times |
| Interleaving.KeepsReadmitIff | src/ManagedNode.js:217-223 | A step brings a readmit time forward if and only if it is a retryable failure whose new back-off ends before the present readmit time |
| Interleaving.SteadyRunsRespectEveryFailure | src/ManagedNode.js:213-230 | If no step does, nothing is sent to a node before the time set by any earlier failure, whoever saw it |
| Interleaving.ThreeInFlightRespectEveryFailure | src/Executable.js:650-736 | So it is in every run in which no node ever has more than three requests in flight |
| SharedNodes.BackoffInEveryInterleaving | src/ManagedNode.js:217-223 | In every schedule k failures by anyone and no success leave min(b * 2^k, max) |
| SharedNodes.EarlierFailureForgotten | src/ManagedNode.js:217-230 | A run of four executions on a node just built, which a failure keeps out until 48000 and which is sent to at 32000 |
| SharedNodes.EveryFailureRespectedIff | src/ManagedNode.js:213-230 | With at most k requests to a node in flight every failure is respected in every run if and only if k <= 3 |
| Schedules.IterationIsSchedule | src/Executable.js:590-788 | Each iteration of the loop is a schedule of the interleaved system with the same nodes, request, outcome and sends, in which no other execution moves |
| Schedules.RunIsSchedule | src/Executable.js:565-799 | So is a whole run of the loop, from any state of the system |
| Rlp.RoundTrip | src/EthereumTransactionDataEip1559.js:65-99 | Every item whose encoding is shorter than 2^64 bytes decodes to itself |
| Rlp.BytesForm | src/EthereumTransactionDataEip1559.js:98-114 | A string's encoding, case by case as in the Yellow Paper, with the shortest big-endian length |
| Rlp.ListForm | src/EthereumTransactionDataEip1559.js:98-114 | A list's encoding, case by case |
| Rlp.EncodeAllConcat | src/EthereumTransactionDataEip1559.js:98-114 | The items of a list are encoded one after the other, in order |
| Rlp.FirstByte | src/EthereumTransactionData.js:27-34 | An encoding starts at 0xc0 or above if and only if it is a list |
| EthereumData.LegacyNeverTyped | src/EthereumTransactionData.js:27-34 | A legacy encoding's first byte is never taken for a type byte |
| EthereumData.WireOrder | src/EthereumTransactionDataEip1559.js:98-114 | The bytes hold the fields of each kind in the order of the Ethereum proposals, after the type byte |
| EthereumData.RoundTrip | src/EthereumTransactionData.js:22-35 | fromBytes of toBytes gives the same kind with the same fields, for every legacy, EIP-2930 and EIP-1559 transaction with a flat access list |
| EthereumData.FromBytesIff | src/EthereumTransactionData.js:22-35 | Any bytes are read as a given transaction if and only if behind its type byte they are RLP of its fields in order |
| EthereumData.AcceptedIff | src/EthereumTransactionDataEip2930.js:56-89 | An RLP list is accepted under its type if and only if it has that type's field count, strings everywhere and a flat access list |
| EthereumFlow.AppendToFile | src/file/FileAppendTransaction.js:430-471 | All contents are appended, chunk after chunk, or none, with an error that names the limit |
| EthereumFlow.CreateFile | src/EthereumFlow.js:229-259 | What a new file holds after success and after failure |
| EthereumFlow.CreateFileIff | src/EthereumFlow.js:247-256 | A file can be written if and only if the call data has at most 43008 bytes, or fits the flow's own limit of k chunks after the first, which zero switches off |
| EthereumFlow.Flow.SetEthereumDataBytes | src/EthereumFlow.js:122-128 | A fresh data object holds the decoded transaction, or nothing changes |
| EthereumFlow.Flow.Execute | src/EthereumFlow.js:177-218 | Small transactions go out whole; large ones without call data, which is in a new file, and the data object is emptied; on error nothing is submitted |
| EthereumFlow.FileMeansLongCallData | src/EthereumFlow.js:201-215 | With other fields of at most 1017 encoded bytes, 1018 in a legacy transaction, only call data over 4096 bytes goes to a file |
| EthereumFlow.StoredIff | src/EthereumFlow.js:230-256 | The file decodes to the call data if and only if it has at most 2048 or more than 4096 bytes |
| EthereumFlow.StoredHalf | src/EthereumFlow.js:230-256 | In between, the file decodes to the first 2048 bytes |
| EthereumFlow.FileBranchLosslessIff | src/EthereumFlow.js:204-214 | Submitted bytes and file together give the transaction back if and only if the call data has at most 2048 or more than 4096 bytes |
| EthereumFlow.FileBranchLossless | src/EthereumFlow.js:177-259 | With other fields of at most that many bytes the file branch always loses nothing |
| EthereumFlow.DefaultFlowDelivers | src/EthereumFlow.js:177-259 | With other fields of that size and the default limit, a flow succeeds and delivers the transaction whole if and only if the call data has at most 43008 bytes |
| EthereumFlow.CallDataAtRiskIff | src/EthereumFlow.js:201-256 | For given other fields some call data is lost if and only if they take more bytes than that |
| EthereumFlow.CutShort | src/EthereumFlow.js:122-256 | A transaction set from its own bytes and executed, after which submission and file no longer stand for it |
| EthereumFlow.ExecuteTwice | src/EthereumFlow.js:177-218 | Both executions succeed, exactly when the transaction is small or its call data fits a file, or neither; the first submission stands for the caller's transaction if and only if that is small or its call data is stored whole, the second if and only if it is small or has no call data |
| HbarAmounts.UnitValues | src/HbarUnit.js:84-108 | What one of each unit is in tinybars |
| HbarAmounts.SymbolIff | src/HbarUnit.js:62-81 | A symbol is read as a unit if and only if it is that unit's symbol |
| HbarAmounts.NewIff | src/Hbar.js:40-67 | An amount is admitted if and only if it is a whole number of tinybars, and then it is that number |
| HbarAmounts.UnitRoundTrip | src/Hbar.js:40-113 | Converting to any of the seven units and constructing from the result gives the amount back |
| HbarAmounts.MatchComplete | src/Hbar.js:95 | Every text of the pattern is matched with its own captures |
| HbarAmounts.MatchIff | src/Hbar.js:95 | and captures are found only so: they exist exactly for texts of the pattern and are unique |
| HbarAmounts.InvalidIff | src/Hbar.js:94-104 | A text is an invalid argument if and only if it is not of the pattern |
| HbarAmounts.FromStringIff | src/Hbar.js:94-104 | A text is read as v tinybars if and only if its signed digits, of the unit it names or else of the caller's, are exactly that |
| HbarAmounts.DefaultUnit | src/Hbar.js:154-163 | Without a unit, exactly amounts between -10000 and 10000 tinybars are printed in tinybars, others in hbar |
| HbarAmounts.PlainCanonical | src/Hbar.js:147-164 | Plain text has no leading zeros before the point and no trailing ones after it |
| HbarAmounts.ExponentTextIs | src/Hbar.js:147-164 | The scientific notation of any number, from its digits without leading and trailing zeros |
| HbarAmounts.UnitTextRoundTripIff | src/Hbar.js:147-152 | Printed in a chosen unit an amount parses back if and only if it is zero or the quotient is in [10^-6, 10^21) |
| HbarAmounts.TextRoundTripIff | src/Hbar.js:94-164 | The default text parses back, whatever the default unit, if and only if the amount is below 10^29 tinybars |
| HbarAmounts.LongTextRoundTrip | src/Hbar.js:94-164 | In particular for every signed 64-bit amount |
| HbarAmounts.ToTinybarsIff | src/Hbar.js:125-127 | toTinybars is exact if and only if the amount fits in signed 64 bits |
| HbarAmounts.NegatedTwice | src/Hbar.js:132-134 | Negation negates and undoes itself |
| Keys.RoundTripIff | src/Key.js:44-70 | A key tree of any depth comes back unchanged if and only if no leaf is empty and no contract leaf has an EVM address |
| Keys.ShapeKept | src/KeyList.js:156-193 | Depth, number of keys and threshold (none or a number) are kept whatever becomes of the leaves |
| Keys.WireForm | src/KeyList.js:156-170 | Exactly the field of the key's kind is set, with its bytes, its ID or its threshold and keys, and lists keep their order |
| Keys.DecodedKind | src/Key.js:44-70 | Which key any message is read as, whatever fields it has, in order of priority |
| Keys.DecodedParts | src/contract/ContractId.js:109-117 | Missing parts of a contract ID are zero, its EVM address is dropped, and lists are read in order |
| Keys.SpliceConserves | src/KeyList.js:112-117 | A splice neither loses nor invents keys and is undone by splicing the removed keys back |
| Keys.SplicePlace | src/KeyList.js:112-117 | Where a splice is made and how much it takes, for negative, excessive and ordinary arguments |
| Keys.KeyListObject.Splice | src/KeyList.js:112-117 | The list keeps and the returned fresh list holds what the splice specifies, negative and excessive positions and counts included, with the threshold of the original |
| Keys.FromProtobufThresholdKey | src/KeyList.js:187-193 | The fresh list, its threshold set afterwards, is the key the dispatcher returns |
| Timestamps.PlusNanosTotalIff | src/Timestamp.js:123-127 | The exact total is kept if and only if neither 64-bit addition wraps |
| Timestamps.PlusNanosNormalisedIff | src/Timestamp.js:123-127 | The result is normalised if and only if the wrapped nanosecond sum is non-negative or a whole number of seconds |
| Timestamps.PlusNanosAdditive | src/Timestamp.js:123-127 | Adding in two steps or in one is the same, forwards and within 64 bits |
| Timestamps.CompareIsByTotal | src/Timestamp.js:169-177 | On normalised timestamps compare is -1, 1 or 0 as the total is smaller, greater or equal |
| Timestamps.TextFormat | src/Timestamp.js:160-163 | Seconds, a dot, and exactly nine digits of nanoseconds |
| Timestamps.ToStringInjective | src/Timestamp.js:160-163 | Different timestamps have different texts |
| Timestamps.ProtobufRoundTripIff | src/Timestamp.js:133-155 | The protobuf form is exact if and only if the seconds fit in 32 bits |
| Timestamps.ToIntIs | src/Timestamp.js:133-155 | Otherwise what comes back is the signed 32-bit number that agrees modulo 2^32 |
| Timestamps.DateTotals | src/Timestamp.js:91-117 | A date's total is its milliseconds in nanoseconds, and a timestamp's date is its whole milliseconds, rounded down |
| Timestamps.DateRoundTripIff | src/Timestamp.js:91-117 | A date within 64-bit nanoseconds comes back if and only if its seconds fit in 32 bits |
| Timestamps.Generator.Generate | src/Timestamp.js:65-85 | Returns the first drawn timestamp that was never issued, and records it; in nanoseconds it is the clock less the jitter, plus the random part and the drift |
| Timestamps.FirstNewIsDrawn | src/Timestamp.js:65-85 | It is that of some draw, and those of all earlier draws had been issued; without jitter only the first draw is |
| Timestamps.NeverRepeats | src/Timestamp.js:65-85 | Over any sequence of calls, whatever the time drift at each, no timestamp and no text is returned twice |

## Left out

- gRPC and HTTP channels, promise racing, logging, signing and request serialisation: an answer is a parameter.
- Timers: `Delay` says how long a retry waits, but the clock of a run is only required not to go backwards.
- `ManagedNetwork`: choosing among addresses and the list of healthy nodes; a run may be given any node for its account.
- No attempts at all on an empty list, where the message of the error fails with a TypeError.
- A network without nodes, where `getNode` fails with a TypeError.
- Rejection of `_makeRequestAsync`, which ends a run with that error.
- `setMaxBackoff` and cloning inside interleaved runs, because they break the bounds (see `Nodes.SetMaxBoundedIff`).
- `_parseAddress`: its pattern starts with a quotation mark before `^` and never matches.
- The `_callDataFileId` branch of `EthereumFlow.execute`: nothing sets the field.
- The pattern that finds a stream reset in a gRPC error's message: whether it matches is part of the error.
- Receipts and failures of the file and Ethereum transactions themselves.
- Aliasing of arrays: key lists and byte arrays handed in are values here; only the flow's data object is shared.
- Fractional `timeDrift`, clocks before 1970, and a generator that draws forever: a call is given finitely many draws.
- Number inputs to `Hbar` and rounding of floats.
- Which of the mistyped texts that drop five, ten or more zeros are caught, beyond the four fingerprints deciding it.
- Mistyped texts with hex letters or with numbers beyond 63 bits.
- Base32 and public-key aliases, cryptography, field-by-field copies and finite tables elsewhere in the repository.
