# Verification of the Base Protocol System

A Dafny 4.11 model of four parts of the repository, with proofs of what they promise.

1. **Wire codec** (`x/bps/types/*.pb.go`). Varints, tags, length-delimited windows, unknown fields and
   nested groups, backward marshalling into a buffer, and `Unmarshal` of every message.
   - `Machine.dfy`: Go's 64-bit and 32-bit integers with their wrap-around.
   - `Results.dfy`: options, results and the parser's errors.
   - `Varint.dfy`: what a varint is, the reading loop, the writer.
   - `Grammar.dfy`: derivation trees of the wire format (Protocol Buffers Encoding guide, "Message
     Structure" and "Groups"), defined without any parser.
   - `Skip.dfy`: the loop with the depth counter, and the proof that it recognises exactly those trees.
   - `SkipErrors.dfy`: every failure of that loop, by the groups left open and the turn that fails.
   - `Decoder.dfy`: `Unmarshal` as a function over a schema, with every error and the state it leaves
     behind, and the proof that it accepts exactly the admissible trees and stores what they mean.
   - `Messages.dfy`: the message classes; each method is proved equal to the functions above.
   - `CodecLaws.dfy`: unambiguity, concatenation, unknown fields, schema evolution, round trips.
   - `MessageFormats.dfy`: the messages by literal field number: what each accepts and stores, which
     records it rejects and why, and the one reading of the bytes it writes.
2. **Hard-cap minting** (`app/mint_hardcap.go`), `HardCap.dfy`: the clamp, the per-block step over a
   ledger, and all runs of blocks, transfers, burns and changes of the minted denomination.
3. **Dashboard controller** (`dashboard_controller.dart`), `Dashboard.dfy`: overlapping refreshes whose
   answers arrive in any order, the timer and disposal, with the history as a ghost field.
4. **Validator set and printers** (`validator_set_parser.dart`, `bps_rpc_snapshot.dart`, the formatters),
   `Validators.dfy` and `Formatters.dfy`. `Permutations.dfy` is shared with part 2.

How the sources are rendered: a Go slice that is only read is a sequence of at most 2^63 - 1 bytes; a
buffer that is written is an array. `a | b << n` on disjoint bits is a sum, and the disjointness is a
precondition that is proved (`Machine.OrDisjoint`). The generator repeats the varint loop, the window
checks and the skip call in every message; here each is one method. Where a method has a specification
function, the method is proved to return it for all inputs, errors included, and the lemmas are about the
function.

What the proofs found where code and expectation part:

- The parser takes a group whose end tag has another field number than its start tag; the encoding guide
  asks for the same number. `CodecLaws.StrictlyAcceptsIff` and `CodecLaws.LaxIff` say exactly which accepted
  inputs keep that rule, `CodecLaws.GroupNumbersIgnored` shows one that does not.
- `sov` is the shortest length, but a number from 2^63 on has more than one shortest encoding that the
  parser accepts (`Varint.ShortestIsUnique`).
- The source comment promises that the supply never exceeds the cap. That holds from a state exactly when
  the cap is positive and the supply does not start above it (`HardCap.CapHoldsIff`): a cap of zero or less
  switches the clamp off (`HardCap.CapBindsIff`), and a supply above the cap is not brought down. For the
  configured cap and the genesis supply of `TOKENOMICS.md` the promise holds (`HardCap.PublicNetworkCap`).
- A controller that is started only after its disposal keeps a timer (`Dashboard.StartAfterDisposeLeaks`,
  exact condition in `Dashboard.TimerRunsIff`).
- With two entries for one address, the rank can belong to another entry than the one that is found;
  `Validators.RankFitsFoundIff` says when it fits, `Validators.DuplicateMisranks` shows when not.
- Shares add up to 100 exactly when the total power fits in 64 bits (`Validators.SharesAreWholeIff`; two
  powers of 2^62 in `Validators.OverflowingShares`), and the shown share can leave 0 to 100 when the node is
  not in the set (`Validators.ShownShareInRangeIff`, `Validators.OutsiderShare`).
- `formatInt` groups the minus sign with the digits: -100 prints as "-,100" (`Formatters.MinusHundred`,
  exact condition in `Formatters.NegativeGrouping`).
- Numerals of one value trim alike but for a zero with a minus sign (`Formatters.NegativeZero`,
  `Formatters.EqualValuesTrimAlike`).

## Model

| member | source | states |
|---|---|---|
| Machine.WrapIsExact | x/bps/types/tx.pb.go:370-403 | conversions and sums keep the low 32 or 64 bits and land in the signed range, which leaves one result |
| Varint.Read | x/bps/types/tx.pb.go:356-369 | the loop returns the varint that starts at the index, with the index after it, or exactly the overflow or end-of-input error, on every input |
| Varint.ReadIff | x/bps/types/tx.pb.go:356-369 | reading succeeds on exactly the strings of 1 to 10 bytes whose last byte alone has a clear top bit, with their base 128 value modulo 2^64 |
| Varint.ReadErrorIff | x/bps/types/tx.pb.go:356-369 | overflow is reported exactly for ten continuation bytes, end of input exactly when fewer run up to the end |
| Varint.EncodeInto | x/bps/types/tx.pb.go:309-319 | writes the varint so that it ends at the offset, returns where it begins, and leaves every other byte as it was |
| Varint.EncodeIsVarint | x/bps/types/tx.pb.go:309-319 | every 64-bit number is written in 1 to 10 bytes that are a varint and read back as that number |
| Varint.SovIsLength | x/bps/types/tx.pb.go:344-346 | the bit-length formula is the number of bytes written |
| Varint.EncodeIsShortest | x/bps/types/tx.pb.go:344-346 | no accepted varint with the same value is shorter |
| Varint.ShortestIsUnique | x/bps/types/tx.pb.go:356-369 | the shortest accepted encoding is unique exactly for numbers below 2^63 |
| Varint.ThreeHundred | x/bps/types/tx.pb.go:309-319 | 300 is written as ac 02, the example of the encoding guide |
| Skip.ReadToken | x/bps/types/tx.pb.go:520-583 | one turn of the loop: where it ends, with wrap-around, how it changes the depth, or its error |
| Skip.Skip | x/bps/types/tx.pb.go:515-592 | the whole loop equals its specification on every input, errors and ends beyond the buffer included |
| Skip.SkipIff | x/bps/types/tx.pb.go:515-592 | the depth counter ends at n inside the buffer if and only if the first n bytes are one complete field, groups nested to any depth |
| Skip.SkipBeyondIff | x/bps/types/tx.pb.go:550-590 | an end beyond the buffer is returned exactly when the input breaks off in the payload of a top-level fixed-size or length-delimited field of that length |
| Skip.PrefixFree | x/bps/types/tx.pb.go:515-592 | no complete field is a proper prefix of another |
| SkipErrors.SkipErrorIff | x/bps/types/tx.pb.go:515-592 | the loop fails with an error exactly when, after some groups were opened and complete fields read in them, the next turn fails with it: unreadable tag or payload, an end tag without a group, an unknown wire type, or nothing left |
| SkipErrors.FirstByteDecides | x/bps/types/tx.pb.go:515-592 | a first byte below 128 decides by itself the end of a fixed-size field, the stray end of a group and the two unknown wire types |
| Decoder.DecodeIff | x/bps/types/tx.pb.go:350-464 | for every schema, parsing ends without error and with a given authority if and only if the input is the printing of admissible fields that mean that authority |
| Decoder.DecodeErrorIff | x/bps/types/tx.pb.go:350-464 | parsing fails with an error and leaves an authority if and only if some record after a run of admissible fields fails with it and the authority is the meaning of that run |
| Decoder.DecodeLater | x/bps/types/tx.pb.go:350-464 | the same rest at a later index of another buffer leaves the same message and verdict, and the same error but that an index overflow may take the place of the end of input |
| Decoder.DecodeComplete | x/bps/types/tx.pb.go:350-464 | on an admissible run of fields the parser goes from its start to its end and applies its meaning, whatever follows |
| Messages.ReadWindow | x/bps/types/tx.pb.go:384-408 | the length, negative-length, wrap-around and end-of-input checks of a length-delimited field |
| Decoder.WindowErrorIff | x/bps/types/tx.pb.go:398-408 | the negativity checks on wrapped sums reject exactly the lengths and ends that do not fit in 63 bits, the end check exactly those beyond the input |
| Decoder.SkipAtErrorIff | x/bps/types/tx.pb.go:450-456 | the checks on a skipped length reject exactly the ends that do not fit in 63 bits and those beyond the input |
| Messages.SkipUnknown | x/bps/types/tx.pb.go:445-456 | the skip of an unknown field with the caller's checks on its result |
| Messages.MsgUpdateParams.SizeIsExact | x/bps/types/tx.pb.go:320-333 | Size is the length of the encoding |
| Messages.MsgUpdateParams.MarshalToSizedBuffer | x/bps/types/tx.pb.go:261-284 | the end of the buffer becomes the encoding, the rest and the message are unchanged, the count is Size |
| Messages.MsgUpdateParams.Marshal | x/bps/types/tx.pb.go:246-254 | returns exactly the encoding |
| Messages.MsgUpdateParams.Unmarshal | x/bps/types/tx.pb.go:350-464 | the new authority and the error are those of the specification, for every input, also when parsing stops half-way |
| Messages.UnmarshalEmpty | x/bps/types/params.pb.go:155-204 | the same for Params; MsgUpdateParamsResponse and QueryParamsRequest are this code too |
| Messages.Module.SizeIsExact | x/bps/types/module.pb.go:136-147 | Size is the length of the encoding |
| Messages.Module.MarshalToSizedBuffer | x/bps/types/module.pb.go:110-123 | the end of the buffer becomes the encoding and the rest is unchanged |
| Messages.Module.Marshal | x/bps/types/module.pb.go:95-103 | returns exactly the encoding |
| Messages.Module.Unmarshal | x/bps/types/module.pb.go:155-236 | the new authority and the error are those of the specification |
| Messages.GenesisState.MarshalToSizedBuffer | x/bps/types/genesis.pb.go:111-127 | the end of the buffer becomes the encoding and the rest is unchanged; QueryParamsResponse is this code too |
| Messages.GenesisState.Marshal | x/bps/types/genesis.pb.go:96-104 | returns exactly the encoding |
| Messages.GenesisState.Unmarshal | x/bps/types/genesis.pb.go:157-239 | the error is that of the specification, with the nested Params parsed in its window |
| MessageFormats.TagIff | x/bps/types/tx.pb.go:370-371 | field number and wire type of a tag are the signed 32 bits above, and the three bits below, bit 3 of its value |
| MessageFormats.MsgIff | x/bps/types/tx.pb.go:350-464 | MsgUpdateParams accepts exactly the runs of complete fields with positive numbers in which fields 1 are length-delimited and fields 2 length-delimited Params, and stores the payload of the last field 1, or what was there |
| MessageFormats.ModuleIff | x/bps/types/module.pb.go:155-236 | Module: the same with field 1 alone declared |
| MessageFormats.HolderIff | x/bps/types/genesis.pb.go:157-239 | GenesisState: every field 1 is a length-delimited Params, every other positive number is skipped |
| MessageFormats.EmptyIff | x/bps/types/params.pb.go:155-204 | Params: every run of complete fields with positive numbers is accepted and changes nothing |
| MessageFormats.OtherNumbers | x/bps/types/tx.pb.go:444-457 | a complete field with a positive number other than 1 and 2 is transparent to MsgUpdateParams, other than 1 to Module and GenesisState, and any one to Params |
| MessageFormats.RecordErrorIff | x/bps/types/tx.pb.go:370-457 | a record is rejected with an error exactly for the stated reason: unreadable tag, end tag, number not positive, wrong wire type of a declared number, bad window, bad nested Params, or an unknown field that cannot be skipped |
| MessageFormats.TagDecides | x/bps/types/tx.pb.go:372-383 | an end tag, a number that is not positive and a declared number with the wrong wire type are rejected as such, whatever follows the tag |
| MessageFormats.MsgWritten | x/bps/types/tx.pb.go:261-284 | the bytes of MsgUpdateParams have one reading: field 1 with the authority unless that is empty, then field 2 with an empty payload, with one-byte tags and shortest lengths |
| MessageFormats.ModuleWritten | x/bps/types/module.pb.go:110-123 | the bytes of Module have one reading: field 1 with the authority, or no field when it is empty |
| MessageFormats.HolderWritten | x/bps/types/genesis.pb.go:111-127 | the bytes of GenesisState have one reading: field 1 with an empty payload, always present |
| MessageFormats.WrittenBytes | x/bps/types/tx.pb.go:266-282 | authority "a" is written as 0a 01 61 12 00, the empty one as 12 00 |
| CodecLaws.Unambiguous | x/bps/types/tx.pb.go:515-592 | different runs of fields never print the same bytes |
| CodecLaws.AcceptsTree | x/bps/types/tx.pb.go:350-464 | on a run of complete fields, acceptance and result are read off the fields |
| CodecLaws.Concatenation | x/bps/types/tx.pb.go:350-464 | once a is accepted, a + b leaves the message that b leaves on top of what a left, failing or not, with the same verdict and the same error up to an index overflow |
| CodecLaws.UnknownField | x/bps/types/tx.pb.go:444-457 | a complete undeclared field with a positive number can be inserted after any accepted prefix without changing verdict or message, failures included |
| CodecLaws.Forgetting | x/bps/types/module.pb.go:155-236 | a schema that declares less accepts whatever the wider one accepts, and keeps the authority if it still declares it |
| CodecLaws.ModuleToMsg | x/bps/types/tx.pb.go:411-443 | on any input, MsgUpdateParams accepts what Module accepts exactly when every record numbered 2 is a length-delimited well-formed Params, and stores the same authority |
| CodecLaws.MsgRoundTrip | x/bps/types/tx.pb.go:261-284 | the written message reads back into any target, is read by Module with the same authority and skipped by Params |
| CodecLaws.Transmit | x/bps/types/tx.pb.go:246-284 | marshalling one message and parsing it into another object never fails and sets the authority unless it is empty |
| CodecLaws.ModuleRoundTrip | x/bps/types/module.pb.go:110-123 | Module's bytes read back in Module and in MsgUpdateParams, and are skipped by Params |
| CodecLaws.HolderRoundTrip | x/bps/types/genesis.pb.go:111-127 | a written nested Params is accepted by its reader |
| CodecLaws.LastOneWins | x/bps/types/tx.pb.go:409-410 | two encodings in a row read as their merge, the last written authority winning |
| CodecLaws.GroupsCloseIff | x/bps/types/tx.pb.go:572-578 | bytes can be read with every group closed by its own number exactly when their one reading is so |
| CodecLaws.StrictlyAcceptsIff | x/bps/types/tx.pb.go:572-578 | a parser that also keeps the rule on end tags accepts exactly the accepted inputs whose groups, at any depth and inside nested messages, close with their own number |
| CodecLaws.LaxIff | x/bps/types/tx.pb.go:572-578 | an accepted input breaks the rule exactly when it has a reading that does |
| CodecLaws.GroupNumbersIgnored | x/bps/types/tx.pb.go:572-578 | a witness: a group that starts as field 3 and ends as field 4 is accepted and breaks the rule |
| HardCap.ClampIsGreatest | app/mint_hardcap.go:110-129 | the clamp grants exactly the largest amount within the request that keeps a capped supply under the cap or where it is |
| HardCap.Chain.MintFn | app/mint_hardcap.go:45-108 | minter, ledger and error after the step, for every provision and every failing keeper call |
| HardCap.StepIsExact | app/mint_hardcap.go:45-129 | for every step, faults included, and from configuration, supply and provision alone: when it fails, which minter stays, and that the supply of the provision's denomination and its receiver gain the provision, or when capped the room if that is less and never below 0, and nothing else changes |
| HardCap.MintIsExact | app/mint_hardcap.go:76-90 | a successful step raises supply and fee collector by the granted amount in one denomination and changes nothing else |
| HardCap.FailureIsExact | app/mint_hardcap.go:46-90 | what each failing keeper call leaves behind in minter, supply and balances |
| HardCap.SupplyAccounting | app/mint_hardcap.go:76-90 | over every run supply changes by what is minted less what is burned |
| HardCap.SupplyNeverExceedsCap | app/mint_hardcap.go:43-108 | over every run the capped supply stays at or below the larger of the cap and the initial supply |
| HardCap.MintedFitsTheRoom | app/mint_hardcap.go:43-108 | total minting is bounded by the initial room and what was burned |
| HardCap.CapBindsIff | app/mint_hardcap.go:114-116 | a configured denomination is bounded over all runs exactly when the cap amount is positive |
| HardCap.CapHoldsIff | app/mint_hardcap.go:43-44 | from a state no run exceeds the cap exactly when the cap is positive and the supply does not start above it |
| HardCap.PublicNetworkCap | TOKENOMICS.md:22-28 | with the configured cap 100,000,000 BPS are never exceeded exactly from states at or below them, and from genesis at most 25,000,000 BPS and what was burned are minted |
| HardCap.RunKeepsBalanced | app/mint_hardcap.go:80-90 | supply equals the sum of balances in every denomination after every run |
| HardCap.ClampOnceIsEnough | app/mint_hardcap.go:110-129 | clamping block by block yields the supply that clamping the summed provisions once yields, and the fee collector gets it all |
| HardCap.OrderDoesNotMatter | app/mint_hardcap.go:110-129 | the final supply does not depend on the order of the provisions |
| HardCap.CapIsAbsorbing | app/mint_hardcap.go:120-122 | at the cap the supply stands still in every run that burns none of it |
| Dashboard.DashboardController.BeginRefresh | apps/bps_validator_terminal/lib/features/dashboard/logic/controllers/dashboard_controller.dart:40-53 | a refresh up to its await: nothing after disposal, loading unless the last answer was a success |
| Dashboard.DashboardController.SetState | apps/bps_validator_terminal/lib/features/dashboard/logic/controllers/dashboard_controller.dart:87-93 | replaces the state and notifies, except after disposal |
| Dashboard.DashboardController.StartController | apps/bps_validator_terminal/lib/features/dashboard/logic/controllers/dashboard_controller.dart:31-38 | begins one refresh and arms the timer at the first call, nothing later |
| Dashboard.DashboardController.OnFetched | apps/bps_validator_terminal/lib/features/dashboard/logic/controllers/dashboard_controller.dart:56-63 | the effect of a successful answer in any state |
| Dashboard.DashboardController.OnError | apps/bps_validator_terminal/lib/features/dashboard/logic/controllers/dashboard_controller.dart:64-76 | the effect of a failed answer in any state, with its fallback view |
| Dashboard.DashboardController.Select | apps/bps_validator_terminal/lib/features/dashboard/logic/controllers/dashboard_controller.dart:79-85 | changes the menu and notifies only for another menu and before disposal |
| Dashboard.DashboardController.Close | apps/bps_validator_terminal/lib/features/dashboard/logic/controllers/dashboard_controller.dart:96-101 | marks the controller disposed and cancels the timer |
| Dashboard.HistoryDecidesView | apps/bps_validator_terminal/lib/features/dashboard/logic/controllers/dashboard_controller.dart:40-77 | before disposal the page shows the last success while at most one failure followed it, else the latest failure's offline view, else the connecting view; status, error message and time are decided by the answers and by whether a refresh has begun since |
| Dashboard.MenuIsLastChosen | apps/bps_validator_terminal/lib/features/dashboard/logic/controllers/dashboard_controller.dart:79-85 | over every run the active menu is the last one chosen before the first disposal, or "dashboard", and the controller is disposed exactly when dispose was called |
| Dashboard.NotifiesExactly | apps/bps_validator_terminal/lib/features/dashboard/logic/controllers/dashboard_controller.dart:40-93 | listeners are told once of every answer, choice of another menu and refresh that shows loading, and of nothing else, the active menu chosen again and everything after disposal included |
| Dashboard.UnderWay | apps/bps_validator_terminal/lib/features/dashboard/logic/controllers/dashboard_controller.dart:40-77 | over every run the refreshes under way are those begun and not yet answered, after disposal too |
| Dashboard.ChangesAreNotified | apps/bps_validator_terminal/lib/features/dashboard/logic/controllers/dashboard_controller.dart:79-93 | every change of page or menu notifies the listeners exactly once |
| Dashboard.ErrorMessageIff | apps/bps_validator_terminal/lib/features/dashboard/logic/controllers/dashboard_controller.dart:45-76 | in every reachable state a message is set exactly in the error status |
| Dashboard.SuccessNeverLoads | apps/bps_validator_terminal/lib/features/dashboard/logic/controllers/dashboard_controller.dart:45-53 | no step leads from success to loading, and only an answer changes the page then |
| Dashboard.DisposedIsFrozen | apps/bps_validator_terminal/lib/features/dashboard/logic/controllers/dashboard_controller.dart:87-101 | after disposal no sequence of answers, calls or menu selections changes page or menu, notifies or begins a refresh |
| Dashboard.AtMostOneTimer | apps/bps_validator_terminal/lib/features/dashboard/logic/controllers/dashboard_controller.dart:31-38 | over every run at most one timer is armed, and one exactly if start was called |
| Dashboard.TimerRunsIff | apps/bps_validator_terminal/lib/features/dashboard/logic/controllers/dashboard_controller.dart:31-38 | the timer runs exactly when the first start has no disposal after it |
| Dashboard.StartAfterDisposeLeaks | apps/bps_validator_terminal/lib/features/dashboard/logic/controllers/dashboard_controller.dart:96-101 | disposal followed by a first start leaves a live timer on a disposed controller |
| Validators.Find | apps/bps_validator_terminal/lib/features/dashboard/domain/validator_set_parser.dart:22-35 | returns the first validator whose address matches up to case |
| Validators.FoundIff | apps/bps_validator_terminal/lib/features/dashboard/domain/validator_set_parser.dart:22-35 | a validator is found exactly when it is the first whose address, lower-cased, is the lower-cased address asked for |
| Validators.RankIff | apps/bps_validator_terminal/lib/features/dashboard/domain/validator_set_parser.dart:37-47 | the rank is the place, counted from one, of the first such entry of the sorted list |
| Validators.OneRankPerAddress | apps/bps_validator_terminal/lib/features/dashboard/domain/validator_set_parser.dart:22-47 | result and rank depend on the address up to case, and two ranked addresses share a rank only if they agree up to case |
| Validators.RankedIffFound | apps/bps_validator_terminal/lib/features/dashboard/domain/validator_set_parser.dart:37-47 | there is a rank exactly when the validator is found, for any descending sort |
| Validators.RankBounds | apps/bps_validator_terminal/lib/features/dashboard/domain/validator_set_parser.dart:37-47 | the entry at the rank has the address up to case, and the rank lies above the number of strictly stronger validators and at most at the number of equally strong or stronger ones |
| Validators.RankFitsFoundIff | apps/bps_validator_terminal/lib/features/dashboard/domain/validator_set_parser.dart:22-47 | the rank fits the found validator's power exactly when it is a strongest match |
| Validators.DistinctIsStrongest | apps/bps_validator_terminal/lib/features/dashboard/domain/validator_set_parser.dart:22-47 | with one entry per address the found validator is a strongest match |
| Validators.DuplicateMisranks | apps/bps_validator_terminal/lib/features/dashboard/domain/validator_set_parser.dart:22-47 | a witness: with powers 1 and 2 for one address the rank is 1 and the found power 1 |
| Validators.TotalIsTrueIff | apps/bps_validator_terminal/lib/features/dashboard/domain/bps_rpc_snapshot.dart:91-94 | the 64-bit fold is the true total exactly when the true total fits |
| Validators.SharesAreWholeIff | apps/bps_validator_terminal/lib/features/dashboard/domain/validator_set_parser.dart:60-65 | the shares of all validators add up to 100 exactly when the total fits in 64 bits |
| Validators.OverflowingShares | apps/bps_validator_terminal/lib/features/dashboard/domain/bps_rpc_snapshot.dart:91-94 | a witness: two powers of 2^62 wrap to -2^63 and the shares add up to -100 |
| Validators.ShownShareInRangeIff | apps/bps_validator_terminal/lib/features/dashboard/domain/bps_rpc_snapshot.dart:95-131 | on any set a share is shown exactly for a known power and a non-zero total, and lies in 0 to 100 exactly when the power lies between 0 and the total |
| Validators.FoundShareInRange | apps/bps_validator_terminal/lib/features/dashboard/domain/bps_rpc_snapshot.dart:87-131 | a found validator's share lies in 0 to 100 if no power is negative and the total fits in 64 bits |
| Validators.OwnShare | apps/bps_validator_terminal/lib/features/dashboard/domain/bps_rpc_snapshot.dart:87-131 | with one entry per address the share shown is that entry's own power over the total, and without an entry the reported power's |
| Validators.OutsiderShare | apps/bps_validator_terminal/lib/features/dashboard/domain/bps_rpc_snapshot.dart:95-97 | a witness: a node outside the set that reports twice the total is shown 200 |
| Formatters.FormatInt | apps/bps_validator_terminal/lib/core/utils/dashboard_formatters.dart:4-19 | the loop returns the grouping of the rounded number's numeral, or N/A |
| Formatters.RoundIff | apps/bps_validator_terminal/lib/core/utils/dashboard_formatters.dart:9 | rounding gives the closest integer, away from zero at the middle |
| Formatters.ToStringIff | apps/bps_validator_terminal/lib/core/utils/dashboard_formatters.dart:9 | the numeral printed is exactly the one without redundant leading zeros, with a minus sign exactly when the number is negative, that reads as the number |
| Formatters.PrintedIff | apps/bps_validator_terminal/lib/core/utils/dashboard_formatters.dart:4-19 | a text is what is printed for a number exactly when its commas stand at every third place and without them it is the canonical numeral of the rounded number |
| Formatters.GroupIff | apps/bps_validator_terminal/lib/core/utils/dashboard_formatters.dart:9-18 | a text is the grouping of a numeral exactly when commas stand at every fourth place from the right, none in front, and removing them gives the numeral |
| Formatters.FormatIntInverse | apps/bps_validator_terminal/lib/core/utils/dashboard_formatters.dart:4-19 | for every number, the rounded number is recovered from its printed form by dropping the commas |
| Formatters.NegativeGrouping | apps/bps_validator_terminal/lib/core/utils/dashboard_formatters.dart:9-18 | a negative number prints as sign and grouped digits exactly when its digits are not a multiple of three |
| Formatters.MinusHundred | apps/bps_validator_terminal/lib/core/utils/dashboard_formatters.dart:9-18 | a witness: -100 prints as "-,100" |
| Formatters.TrimMeaning | apps/bps_validator_terminal/lib/core/utils/coin_formatters.dart:52-57 | the pattern takes off the trailing zeros of the fraction, and the point if nothing is left |
| Formatters.TrimCutsTail | apps/bps_validator_terminal/lib/core/utils/coin_formatters.dart:52-57 | on any text: without a point it stays, and otherwise exactly the longest end that the pattern covers is cut off |
| Formatters.TrimKeepsValue | apps/bps_validator_terminal/lib/core/utils/coin_formatters.dart:52-57 | on any fixed-point numeral, with or without a sign or a point, trimming keeps the value and is idempotent |
| Formatters.TrimIsCanonical | apps/bps_validator_terminal/lib/core/utils/coin_formatters.dart:52-57 | numerals without redundant leading zeros, with or without a sign or a point, trim to the same text exactly when sign and value agree |
| Formatters.EqualValuesTrimAlike | apps/bps_validator_terminal/lib/core/utils/coin_formatters.dart:52-57 | numerals of equal value trim alike exactly when their signs agree, which can only fail for zero |
| Formatters.NegativeZero | apps/bps_validator_terminal/lib/core/utils/coin_formatters.dart:52-57 | a witness: "-0.00" trims to "-0" and "0.00" to "0" |

## Left out

- Error texts: errors carry their kind and their numbers, not the message name and wording.
- `QueryParamsResponse`, `MsgUpdateParamsResponse` and `QueryParamsRequest` have no class of their own; their code is that of GenesisState and Params.
- `MarshalTo`, `XXX_*`, `soz*`, descriptors, registration, gRPC stubs and the REST gateway: transport, or unused by these messages.
- The inflation formula, staking supply and bonded ratio: the recalculated minter and its provision are inputs of the step. Telemetry and the mint event are not modelled.
- The bank keeper: minting, sending and burning are ledger operations with the usual refusals; permissions and vesting are not modelled.
- HardCap.Burn: account permissions to burn are not modelled, so runs may burn from any account, which only widens the runs.
- The in-place testnet command mints outside this step and is not part of the runs.
- Exceptions thrown by listeners, and a second call of `ChangeNotifier.dispose`: the framework's code.
- Validators.RankIn: the platform's sort is any descending permutation, `toLowerCase` any function; JSON parsing of the validator set is not modelled.
- Floating point: shares are reals, `formatInt` takes a real and `_trim` a text; `toStringAsFixed`, and the infinite and not-a-number inputs on which `round()` throws, are not modelled.
- The other formatters, view factories, widgets, RPC and CLI clients, app wiring and export code.
