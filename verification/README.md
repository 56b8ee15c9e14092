# Lisk Migrator: the computation of the genesis assets

The migrator turns a Lisk Core v3 database into the assets of a new genesis block. This
project models the part that computes those assets, and the small machines around it, and
proves what they keep.

- **Keys and the paged scan** (`KeyEncoding`, `BigEndian`, `Increment`, `Store`, `PagedScan`,
  `BlockIndex`). A database key is a prefix followed by bytes that were read as Latin-1 text
  and written as UTF-8 (section 3 of RFC 3629), so keys of 32-byte identifiers have different
  lengths. The scan resumes each page at `incrementOne` of the last key. It is complete for
  every page size if and only if no record lies in the gap before such a successor, and the
  encoding rules such records out.
- **Collecting a stream** (`EventLoop`). Event handlers that go on after an `await`, and the
  awaiting function itself, are jobs of a FIFO queue (sections 9.5 and 27.7.5.3 of ECMA-262,
  2023 edition). Every interleaving is covered.
- **The assets** (`Accounts`, `Auth`, `Token`, `Legacy`, `ValidatorKeys`, `Pos`,
  `CreateAsset`, `GenesisProperties`, `GenesisContents`). The fold over the accounts, as a
  class with the module variables it updates, proved equal to a function of the decoded state
  (`Build`, `InitSpec`); supply, agreement between stores, shape and canonicity are proved of
  that function. `GenesisContents` says when `init` succeeds and what every field of every
  entry holds, without the functions that build the entries: database keys are read by a
  strict UTF-8 decoder, texts by the decimal and hex readers, and constants are written out.
- **Small machines** (`StartFlags`, `StartFlagInputs`, `Chain`). The start-flag validator
  against its grammar and its patterns against the texts they stand for, the duration printer
  against a reader, and the height poller over all event sequences.
- **Library behaviour** (`ByteStrings`, `Sequences`, `Decimal`): `Buffer.compare`, the stable
  `Array.prototype.sort`, `String(bigint)` and `BigInt(text)`.

## What the proofs say about the code

Where a property one would expect fails, the model keeps the code as it is, an input shows the
failure, and the condition under which the property does hold is proved to be exact.

- `totalLSKSupply` is never reset. The emitted supply equals what the user substore holds if
  and only if the variable was 0 when `init` was called (`SupplyConserved`). A second call
  enters with what the first one added (`InitTwice`, `SecondCallInflates`).
- The reserve account's balance is counted in its available balance and again in the legacy
  reserve amount, so supply exceeds the v3 total by exactly that balance (`SupplyConserved`,
  `ReserveCountedTwice`).
- `accountBannedMap` is looked up by buffer identity, and the delegates' buffers are decoded
  separately, so no delegate is filtered. The validators are the ones a lookup by value would
  give if and only if no banned delegate is among the first 101 (`IdentityMeetsIntentIff`,
  `BannedDelegateGetsThrough`).
- The validator keys depend on the iteration order of the key sets if and only if some slot
  has two competing keys: transaction keys no block carries or, if the slot has none of those,
  block keys (`OrderIrrelevantIffNoRivals`). The assets depend on some order of enumeration if
  and only if an unregistered address has two balances, or a delegate has competing keys that
  are emitted differently (`AssetsCanonicalIff`, `EntriesCanonicalIff`).
- A public key that is empty or all 0xFF reads like a missing one. A real generator key is one
  that some stored record carries for the validator's address, and there is one if and only if
  the key filed last for the address is neither empty nor all 0xFF (`GeneratorKeyIsCarried`,
  `FiledLastStays`, `EmptyKeyReadsAsMissing`). It is real in every order if and only if some
  key competes for the slot and all that do are usable (`RealInEveryOrderIff`).
- The start-flag validator finds flags by substring in the lines of the help text, wants a
  placeholder at the very end of a line, and sees flags by patterns without digits, one of
  which takes every name that begins with `-n` or `--network` for the network flag. It follows
  what the lines declare, for every input, if and only if it classifies every token as
  declared, or no flag takes a value (`ValidatorFollowsDeclarationsIff`); `KindIsDeclaredIff`
  says what that asks of the lines. Ordinary help text does not meet it, since `--c` occurs in
  the line of `--config` (`ContainedFlagMisleads`), so the condition for a single input is the useful one: an input that
  either reading accepts is accepted by both if and only if all its tokens are classified as
  declared, provided the patterns see the declared names it uses; without that proviso, pairs
  of flags can be misread as a flag and its value (`InputFollowsDeclarationsIff`,
  `LogDepthIsAccepted`).
- It fails for `--api-host 0.0.0.0` when the line ends in a blank
  (`ApiHostWithValueIsRejected`) and for `--p2p-port 5000` because of the digit
  (`P2pPortWithValueIsRejected`, `UnseenFlagWithValueIsRejected`), and counts `--api` as known
  because of `--api-ws` (`UndeclaredFlagCountsAsKnown`).
- A command in the declared flags whose names the patterns see is accepted if and only if every
  token is classified as declared and the last one is a value (`ValidIffCommandEndsInValue`);
  so one that ends in a flag is rejected (`ApiWsAloneIsRejected`). An accepted command has an
  empty value if and only if the input ends in a separator, as `--config=` does
  (`ValuesPresentIffNoTrailingSeparator`, `ConfigWithoutValueIsAccepted`).
- The retry loop never raises its error: after three invalid answers it asks a fourth time,
  ignores the answer and uses the base command, without `--config` (`AskForFlags`,
  `AskInVain`).
- After a failed poll the interval goes on firing until some reply reaches the target
  (`RejectionKeepsPolling`, `FailedPollGoesOn`).
- Collection is complete in every schedule if and only if the handler continues in the first
  job after its `await`, which holds because `codec.decode` returns a plain value
  (`CompleteIffDecodeIsSynchronous`, `LateDecoderLosesThePage`).
- The paged scan is complete for every page size if and only if the range has no gaps
  (`CompleteIffGapFree`, `ExtensionIsSkipped`).

## Model

| member | source | states |
|---|---|---|
| KeyEncoding.DbKeyOrder | src/utils/transaction.ts:20 | keys below one prefix: order is preserved and reflected, encoding is injective, a key extends another exactly when its payload does, so fixed-length payloads give prefix-free keys |
| KeyEncoding.SpellOrder | src/utils/transaction.ts:20 | any code whose words separate bytes in order preserves and reflects order and prefixes, for byte strings of any lengths |
| KeyEncoding.Utf8IsOrderedCode | src/utils/transaction.ts:20 | UTF-8 of Latin-1 text, as `BufferFromIsUtf8` pins it down, is such a code |
| KeyEncoding.BufferFromIsUtf8 | src/utils/block.ts:46 | the encoding of a text is the one byte string from which a strict decoder of section 3 of RFC 3629 reads the text |
| KeyEncoding.DbKeyReads | src/utils/block.ts:46-52 | a key is the one byte string that reads as prefix, colon and payload |
| KeyEncoding.DbKeyLastByte | src/utils/transaction.ts:43 | no key ends in 0xFF, so incrementing a key never carries |
| KeyEncoding.HexOrder | src/assets/auth.ts:24 | hex text sorts as the bytes do and is injective |
| KeyEncoding.HexRoundTrip | src/assets/pos.ts:72 | decoding the hex text of bytes gives the bytes back |
| KeyEncoding.HexLetters | src/assets/auth.ts:24 | hex text has two small letters a byte, the upper half first |
| KeyEncoding.FromHexReads | src/assets/token.ts:60 | decoding reads pairs of letters of either case, up to the first that are not a pair |
| KeyEncoding.FormatInt | src/utils/number.ts:14-30 | the formatted text, or the error for negative and for too large numbers |
| KeyEncoding.FormatRange | src/utils/number.ts:14-30 | formatting succeeds exactly for 32-bit numbers and 64-bit bigints that are not negative |
| KeyEncoding.NumberKeyOrder | src/utils/number.ts:14-30 | keys of formatted numbers sort as the numbers do and are distinct |
| KeyEncoding.NumberKeyReads | src/utils/block.ts:84-85 | a number key is the one byte string that reads as the prefix and the number in four (or eight) big-endian bytes |
| BigEndian.WriteBigEndian | src/utils/number.ts:21-28 | the buffer holds the big-endian digits of the number |
| BigEndian.DigitsValue | src/utils/number.ts:21-28 | reading the digits back gives the number |
| BigEndian.OrderIsNumeric | src/utils/number.ts:21-28 | among byte strings of one length, byte order is numeric order |
| Increment.IncrementOne | src/utils/transaction.ts:22-36 | a fresh successor or the error; the input is unchanged |
| Increment.IncrementFails | src/utils/transaction.ts:35 | the error arises exactly when every byte is 0xFF |
| Increment.IncrementIsSuccessor | src/utils/transaction.ts:22-36 | same length, big-endian value one larger, later in byte order |
| Increment.GapBeforeSuccessor | src/utils/transaction.ts:22-36 | what lies strictly between a string and its successor: exactly its proper extensions and the later proper prefixes of the successor |
| Increment.GapWithoutCarry | src/utils/transaction.ts:22-36 | without a carry only proper extensions lie between |
| Store.RangeSuffix | src/utils/transaction.ts:47-51 | raising the lower bound of a range read leaves a suffix of it |
| Store.RangeMember | src/createAsset.ts:95-98 | a range read returns exactly the records between the bounds |
| EventLoop.EveryScheduleCollectsThePage | src/utils/block.ts:57-75 | in every interleaving the resumed function sees all records stored in stream order, the last key, and whether there were any |
| EventLoop.StepKeepsInv | src/utils/block.ts:23-39 | every event and job keeps the invariant: nothing lost or reordered, continuation after all handlers |
| EventLoop.NeverStuck | src/utils/block.ts:57-75 | until the function resumes an event or a job is due |
| EventLoop.CompleteIffDecodeIsSynchronous | src/utils/block.ts:27-29 | a page is complete on resumption in every schedule if and only if the await takes one job |
| EventLoop.LateDecoderLosesThePage | src/utils/block.ts:61 | with a later decoder some schedule resumes with nothing stored, for every page |
| EventLoop.PageCollector.Await | src/utils/transaction.ts:54-68 | for any schedule the collected output is the fold of the handlers over the page |
| EventLoop.PageCollector.OnData | src/utils/transaction.ts:56-57 | the synchronous part of the data handler as a state step |
| EventLoop.PageCollector.RunNextJob | src/utils/transaction.ts:58-60 | the rest of the handler, or the continuation, as a job |
| PagedScan.CompleteIffGapFree | src/utils/block.ts:48-76 | the scan visits the whole range for every page size if and only if no record lies in the gap after its predecessor |
| PagedScan.GapFreeScan | src/utils/block.ts:48-76 | on a gap-free range the scan visits exactly the range, in order, without key overflow |
| PagedScan.WellKeyedIsGapFree | src/utils/block.ts:46 | prefix and UTF-8 of fixed-length identifiers leave no gaps |
| PagedScan.ScanIsExact | src/utils/transaction.ts:45-73 | on identifier keys: every record under the prefix once, in ceil(n / pageSize) + 1 reads |
| PagedScan.RangeIsPrefix | src/utils/transaction.ts:48-49 | the range from 32 zero bytes to 32 bytes 0xFF holds exactly the records under the prefix |
| PagedScan.ExtensionIsSkipped | src/utils/transaction.ts:72 | two records, one key extending the other: the second is skipped |
| PagedScan.ScanPublicKeys | src/utils/block.ts:41-78 | for any database, page size and schedule: the keys of the records the scan visits, or the overflow error |
| PagedScan.GetBlockPublicKeySet | src/utils/block.ts:41-78 | whatever the page size: exactly the generator keys, each once and in hex, of the records whose key reads as `blocks:id:` and 32 bytes |
| PagedScan.GetTransactionPublicKeySet | src/utils/transaction.ts:38-75 | whatever the page size: exactly the sender keys of the records whose key reads as `transactions:id:` and 32 bytes |
| PagedScan.PublicKeysMember | src/utils/block.ts:62 | the set holds exactly the keys some record carries, each once |
| PagedScan.PublicKeysInOrder | src/utils/block.ts:45-62 | the set iterates in the order in which its keys first occur |
| PagedScan.StoredKeysAre | src/utils/block.ts:41-78 | in terms of what keys spell: a text is collected exactly if some record under the prefix and a 32-byte identifier carries its key |
| BlockIndex.GetBlockHeaderByHeight | src/utils/block.ts:80-89 | the two lookups with their errors |
| BlockIndex.HeaderAtIsExact | src/utils/block.ts:80-89 | on consistent indexes the header and id of that height, not-found for every other height, an error outside 32 bits |
| BlockIndex.HeaderAtReads | src/utils/block.ts:80-89 | on any database, in terms of what keys spell: the header and id found, not-found exactly if there are none, the errors exactly outside 32 bits |
| BlockIndex.AccountScanIsExact | src/createAsset.ts:95-107 | range and length filter select exactly the 20-byte-address accounts |
| Auth.GetAuthModuleEntryBuffer | src/assets/auth.ts:27-39 | the entry, and the account's own key arrays sorted in place |
| Auth.KeyTexts | src/assets/auth.ts:30-31 | stored texts decode to a permutation of the keys and ascend as strings |
| Sequences.SortSorts | src/assets/auth.ts:30-31 | the sort yields a sorted permutation |
| Sequences.SortStable | src/assets/pos.ts:136 | the sort keeps the order of members that compare equal |
| Sequences.SortIsCanonical | src/createAsset.ts:170-178 | sorting forgets the order of collection when the comparator tells members apart |
| Decimal.PrintParse | src/createAsset.ts:147 | decimal text parses back to the amount |
| Decimal.PrintIs | src/createAsset.ts:183 | a number is printed as its one numeral: parsed back it is the number, and no zero stands in front |
| Token.GetLockedBalances | src/assets/token.ts:37-53 | the two loops sum votes and unlocks; one entry if positive, none otherwise |
| Token.LockedBalancesValue | src/assets/token.ts:37-53 | reading the locked balances back gives votes plus unlocks |
| Token.CreateLegacyReserveAccount | src/assets/token.ts:55-79 | the reserve entry |
| Token.ReserveLocks | src/assets/token.ts:62-68 | its locked balances: legacy first, then pos if any |
| Token.ReserveEntryTotal | src/assets/token.ts:55-79 | what the reserve entry holds: balance, own locks and the reserve amount |
| Token.CreateUserSubstoreArrayEntry | src/assets/token.ts:81-97 | the entry of every account but the reserve |
| Legacy.LegacyModule.GetLegacyModuleEntry | src/assets/legacy.ts:29-61 | the total is reset and counted up; entries in hex ascend by address, read back as the unregistered addresses, and those of one address keep their order |
| Legacy.EntriesAre | src/assets/legacy.ts:40-55 | the same of the entries: ascending by the text of the address, the multiset of address and balance, stable, small-letter hex and plain numerals |
| Legacy.ReserveIsBacked | src/assets/legacy.ts:33-47 | the reserve amount is the legacy store read back plus the reserve account's balance |
| Legacy.EntriesCanonicalIff | src/assets/legacy.ts:33-61 | the legacy store is the same for every order of the unregistered addresses if and only if equal addresses have equal balances |
| ValidatorKeys.GetValidatorKeys | src/assets/pos.ts:55-88 | the record of keys as filed from all stored blocks and transactions |
| ValidatorKeys.FileKeys | src/assets/pos.ts:70-87 | the two filing loops, with their skips |
| ValidatorKeys.AllKeysHold | src/assets/pos.ts:70-87 | a slot is filled exactly when a usable key hashes to it, and with such a key |
| ValidatorKeys.AllKeysCanonical | src/assets/pos.ts:70-87 | without rival keys the record does not depend on iteration order |
| ValidatorKeys.OrderIrrelevantIffNoRivals | src/assets/pos.ts:70-87 | all iteration orders give the same record if and only if every slot has at most one competing key |
| ValidatorKeys.InjectiveHasNoRivals | src/assets/pos.ts:70-87 | keys that hash to different addresses are never rivals |
| ValidatorKeys.CollidingKeysDependOnOrder | src/assets/pos.ts:71-85 | for any two keys that compete for a slot, two orders of the same sets give different records |
| ValidatorKeys.CompetitorTakesSlot | src/assets/pos.ts:70-87 | a slot is filled exactly when a key competes for it, and by such a key |
| ValidatorKeys.FiledLastStays | src/assets/pos.ts:70-87 | a slot holds exactly the key filed last: the last transaction key no block carries, or else the last block key |
| ValidatorKeys.GeneratorKeyIsCarried | src/assets/pos.ts:104 | a real generator key is a usable key some stored block or transaction carries for that address; there is one exactly when the key filed last for the address is usable, and, unless the address has usable and unusable keys, exactly when some carried key of it is |
| ValidatorKeys.RealInEveryOrderIff | src/assets/pos.ts:70-104 | for any keys: real in every iteration order exactly when a key competes and all competing keys are usable |
| ValidatorKeys.EmptyKeyReadsAsMissing | src/assets/pos.ts:104 | a database whose one block carries the empty key: carried, hashing to the address, and read as missing |
| Pos.StakesAreVotes | src/assets/pos.ts:124-143 | stakes ascend by validator; read back they are the votes, and for each validator in the order of the votes; each shares nothing of the token |
| Pos.StakerTotalIsLocked | src/assets/pos.ts:145-164 | a staker entry holds what the token store has locked for the account |
| Pos.CreateGenesisDataObj | src/assets/pos.ts:166-203 | genesis data exactly if the first vote weights of round ceil(height / 103) - 2 exist and name a delegate, with 587 rounds; otherwise the error with that round |
| Pos.FindRoundIs | src/assets/pos.ts:173-175 | the vote weights found are the first of the round, and none exactly if there are none |
| Pos.CeilingIsRound | src/assets/pos.ts:50-53 | the round a height belongs to |
| Pos.InitValidatorsSorted | src/assets/pos.ts:195 | sorted permutation of the first min(101, m) delegates not marked banned |
| Pos.ByValueSelectsUnbanned | src/assets/pos.ts:182-193 | lookup by value selects exactly the delegates that are not banned |
| Pos.IdentityLookupIgnoresBans | src/assets/pos.ts:182-193 | lookup by identity filters nobody: the first 101 delegates, sorted |
| Pos.IdentityMeetsIntentIff | src/assets/pos.ts:182-195 | lookup by identity gives the validators of the lookup by value exactly when no banned delegate is among the first 101 |
| Pos.BannedDelegateGetsThrough | src/assets/pos.ts:182-193 | one banned delegate: in by identity, out by value |
| CreateAsset.Init | src/createAsset.ts:78-248 | result and supply counter for every page size and schedule: the result is `InitSpec`, of which `GenesisContents.InitOutcome` and `CreatedContents` say what it is |
| CreateAsset.AddAccounts | src/createAsset.ts:133-164 | the fold over the accounts fills the stores, with entries that `GenesisContents.ValidatorIs`, `AuthIs`, `UserIs` and `StakerIs` fix field by field, and adds every holding to the supply |
| CreateAsset.GenesisIgnoresAccounts | src/createAsset.ts:209-213 | the genesis data is the same whatever the accounts |
| GenesisProperties.SupplyConserved | src/createAsset.ts:144-184 | supply equals what the substore holds exactly if the counter entered at 0, and exceeds the v3 total by the reserve balance |
| GenesisProperties.InitTwice | src/createAsset.ts:65 | two calls: same substore, and the second supply too large by all holdings |
| GenesisProperties.SecondCallInflates | src/createAsset.ts:65 | one account of 5: supply 5, then 10 |
| GenesisProperties.ReserveCountedTwice | src/assets/token.ts:72-74 | a reserve of 5: supply 10 out of a v3 total of 5 |
| GenesisProperties.LockedIsStaked | src/createAsset.ts:140-163 | per account the token store's pos lock equals the staker entry |
| GenesisProperties.TotalLockedIsStaked | src/createAsset.ts:140-163 | over all accounts the two stores agree |
| GenesisProperties.UserSubstoreShape | src/createAsset.ts:166-178 | strictly ascending; one entry per non-reserve account and one for the reserve, existing or not |
| GenesisProperties.StoresAscend | src/createAsset.ts:186-198 | auth, staker and validator stores ascend strictly and hold exactly the entries of the accounts that have one |
| GenesisProperties.AssetsAreCanonical | src/createAsset.ts:133-220 | any order of accounts, unregistered addresses and key sets gives the same assets, if no unregistered address has two balances and no delegate has competing keys that are emitted differently |
| GenesisProperties.AssetsCanonicalIff | src/createAsset.ts:133-220 | every order gives the same assets if and only if both of those hold |
| GenesisProperties.SnapshotAccountsExact | src/createAsset.ts:95-107 | the accounts are the stored ones with 20-byte addresses, each address once |
| GenesisProperties.CreatedAssetsAreSound | src/createAsset.ts:78-248 | from the database: supply, ascending substore and agreement of stores for whatever is created |
| GenesisProperties.CreatedStoresAreExact | src/createAsset.ts:95-220 | from the database: one user entry per stored 20-byte account but the reserve, one for the reserve, and the other stores exactly the stored accounts' entries, all strictly ascending |
| GenesisProperties.CreatedValidatorKeys | src/createAsset.ts:125-153 | from the database: who is a validator, where a real generator key comes from, and that there is one exactly when the key filed last for the address is usable |
| GenesisProperties.CreatedInitValidators | src/createAsset.ts:209-213 | from the database: the sorted first 101 delegates, the intended ones exactly when none of those is banned |
| GenesisContents.InitOutcome | src/createAsset.ts:91-213 | the error of `init` in each case and, if it succeeds, 587 rounds and the sorted first 101 delegates: both chain-state records and the first vote weights of round ceil(height / 103) - 2, with a delegate, must exist |
| GenesisContents.InitSucceedsIff | src/assets/pos.ts:171-179 | `init` creates the assets if and only if they do |
| GenesisContents.CreatedContents | src/createAsset.ts:78-248 | from any v3 database: every store holds one entry for every stored account that should have one, all fields as in the account or the constants, ascending, and nothing else; the supply is a plain numeral |
| GenesisContents.ValidatorIs | src/assets/pos.ts:90-122 | an entry exactly for accounts with a delegate name, each field equal to the account's, the snapshot height or the constant |
| GenesisContents.AuthIs | src/assets/auth.ts:27-39 | each field of the auth entry: both key lists sorted and in hex, the number of signatures, the nonce as numeral |
| GenesisContents.UserIs | src/assets/token.ts:81-97 | each field of the user entry: address, token id bytes, balance as numeral, one pos lock if anything is locked |
| GenesisContents.ReserveIs | src/assets/token.ts:55-79 | each field of the reserve entry |
| GenesisContents.StakerIs | src/assets/pos.ts:145-164 | an entry exactly for accounts with votes or unlocks; stakes are the votes and pending unlocks the unlocks, field by field |
| GenesisContents.GeneratorKeyIs | src/assets/pos.ts:60-104 | from any v3 database: of the transaction keys of the address no block carries the one that first occurs last, or else of the block keys; 64 letters f if that is unusable |
| StartFlags.ValidateStartCommandFlags | src/utils/node.ts:106-142 | the token loop computes acceptance by the automaton |
| StartFlags.ValidIffInLanguage | src/utils/node.ts:106-142 | accepted exactly the token sequences (B* V x)+, over the kinds assigned and, where they agree, the kinds declared |
| StartFlags.ValidIffCommandEndsInValue | src/utils/node.ts:106-142 | accepted exactly the well-formed commands, in the kinds assigned, whose last token is a value; a command in the declared flags is accepted exactly when its kinds agree, but for pairs read as flag and value, and its last token is read as a value; if the patterns see its names, exactly when every token is classified as declared and the last is a value |
| StartFlags.InputFollowsDeclarationsIff | src/utils/node.ts:106-142 | for one input, exactly when acceptance and the declared flags agree: if either accepts it, its kinds agree and it ends in a value; if the patterns see its names, every token is classified as declared |
| StartFlags.ValidatorFollowsDeclarationsIff | src/utils/node.ts:120-136 | for given lines: every input is judged by the declared flags if and only if every token is classified as declared or none takes a value |
| StartFlags.ContainedFlagMisleads | src/utils/node.ts:121 | an undeclared flag that occurs in some line, beside a flag declared to take a value: some input is not judged by the declared flags |
| StartFlags.KindIsDeclaredIff | src/utils/node.ts:116-130 | a declared token is classified as declared exactly when the patterns see a flag in it and the first line it occurs in ends in a placeholder just when the first declaring line has one; an undeclared one exactly when the patterns see no flag in it or it occurs in no line |
| StartFlags.FirstLineDeclares | src/utils/node.ts:121-130 | if the first line containing a flag declares it, only a blank after a placeholder misleads |
| StartFlagInputs.ApiHostWithValueIsRejected | src/utils/node.ts:128 | `--api-host 0.0.0.0` against a line with a trailing blank: declared, ends in a value, rejected |
| StartFlagInputs.BlankedFlagWithValueIsRejected | src/utils/node.ts:128 | the same for every flag and value |
| StartFlagInputs.P2pPortWithValueIsRejected | src/utils/node.ts:45 | `--p2p-port 5000` with its line: declared, ends in a value, rejected because of the digit |
| StartFlagInputs.UnseenFlagWithValueIsRejected | src/utils/node.ts:45-46 | the same for every declared name the flag pattern does not see or the network pattern sees |
| StartFlagInputs.LogDepthIsAccepted | src/utils/node.ts:118-136 | `--log --3d`, two declared flags without values, is accepted as a flag and its value |
| StartFlagInputs.UndeclaredFlagCountsAsKnown | src/utils/node.ts:121 | `--api` counts as a known flag because `--api-ws` contains it |
| StartFlagInputs.ApiWsAloneIsRejected | src/utils/node.ts:124 | `--api-ws` alone: a declared command, rejected |
| StartFlagInputs.ConfigWithoutValueIsAccepted | src/utils/node.ts:113-133 | `--config=` is accepted with an empty value |
| StartFlagInputs.AskInVain | src/utils/node.ts:172-192 | with empty answers: four prompts, the base command, no error |
| StartFlags.LonePlainFlagIsRejected | src/utils/node.ts:124 | a known flag without a value, alone, is rejected |
| StartFlagInputs.FlagWithValueIsAcceptedIff | src/utils/node.ts:118-133 | a flag with a value is accepted exactly if the first line that contains the flag is some text followed by a placeholder |
| StartFlagInputs.ListedFlagIsAccepted | src/utils/node.ts:118-133 | with a line of a short name, a long name and either placeholder both names are accepted with a value, as declared |
| StartFlagInputs.LogOptionIsAccepted | src/utils/node.ts:47 | `--log debug` and `-l debug` with the line `-l, --log=<option>` |
| StartFlags.ValuesPresentIffNoTrailingSeparator | src/utils/node.ts:113-136 | in accepted input no value is empty exactly when the input does not end in a separator |
| StartFlags.SplitTokens | src/utils/node.ts:113 | tokens hold no separators; only the first and last can be empty, and when |
| StartFlags.SplitRejoins | src/utils/node.ts:113 | with runs of separators in between the tokens are the input again |
| StartFlags.FlagIs | src/utils/node.ts:45 | the flag pattern as texts: a hyphen, a small letter and anything, or two hyphens and a name of small letters and single hyphens |
| StartFlags.IncludesIs | src/utils/node.ts:121 | containment as texts: something, the flag, something |
| StartFlags.FindFlagIs | src/utils/node.ts:121 | the line found is the first that contains the flag |
| StartFlags.WantsValueIs | src/utils/node.ts:47 | a line wants a value exactly if it is some text followed by `=<option>` or `=<value>` |
| StartFlags.AskForFlags | src/utils/node.ts:172-192 | the command is the base with the first valid of three answers, or the base alone after a fourth prompt; the error is never raised |
| StartFlags.StartCommand.Resolve | src/utils/node.ts:144-196 | the command used and remembered, and the number of prompts |
| StartFlags.FirstPassingIs | src/utils/node.ts:172-192 | the answer used is valid and the ones before it are not |
| Chain.SecondsToHumanString | src/utils/chain.ts:51-85 | the text of a duration |
| Chain.GetRemainingTime | src/utils/chain.ts:87-88 | the text for ten seconds a block |
| Chain.HumanStringReadsBack | src/utils/chain.ts:51-85 | the text reads back as the duration; the fields read from it are in range, not zero and descending; '0' exactly for what is not positive |
| Chain.HumanStringIsFields | src/utils/chain.ts:84 | split at blanks the text is the numerals of its fields with their units |
| Chain.ObserveChainHeight | src/utils/chain.ts:90-147 | the outcome of the first query, failed or not, and of any sequence of ticks, replies and failures |
| Chain.StartedRunIff | src/utils/chain.ts:119-141 | which event sequences are covered: ticks until a reply reaches the target, and every answer after an unanswered tick |
| Chain.FirstSettles | src/utils/chain.ts:119-139 | the first reply at the target or failure decides, whatever else is in flight |
| Chain.NormalReturnMeansReached | src/utils/chain.ts:96-146 | normal return exactly when the node had reached the target before any failure, and then the larger of start and target; an error exactly when a query failed first |
| Chain.GrowthSettles | src/utils/chain.ts:119-141 | growth by one over every k replies settles the wait within k * (target - start) replies, whatever fails meanwhile; it ends normally exactly when every failure comes after a reply at the target |
| Chain.RejectionKeepsPolling | src/utils/chain.ts:125-141 | after a failure the interval stays active exactly until a reply reaches the target |
| Chain.FailedPollGoesOn | src/utils/chain.ts:125-127 | a tick and a failure: rejected, and the next tick still possible |

## Left out

- StartFlags.DeclaredKind: what the help text declares is read as names beginning with '-', an optional placeholder and blanks; only undeclared tokens are told apart by the patterns of the source.
- Rendering of addresses as Lisk32 text after the stores are sorted (src/createAsset.ts:170): entries keep the address bytes.
- The libraries: decoding (`codec.decode`), hashing of public keys and the database engine are parameters or the ordered store of `Store`; a stream's `limit` is taken literally, so page size 0 reads nothing, and negative page sizes are not modelled.
- Stream `error` events, failures of decoding and of `getAddressFromPublicKey`: the results describe runs in which they do not occur.
- KeyEncoding.BufferFrom: UTF-8 is modelled for Latin-1 text, the only text keys are built from.
- KeyEncoding.Integer: numbers with a fraction, which `writeUInt32BE` would truncate.
- Pos.Ceiling: division by zero, since the only divisor is the round length 103.
- StartFlags.StartCommand.Resolve: confirmation prompts and the shell command that lists the flags are parameters.
- Chain.ObserveChainHeight: the progress bar and its rounding; the order of events is a parameter instead of a clock.
- The engine's sorting algorithm: `Array.prototype.sort` is a stable insertion sort here.
- Module order of the finished assets, the interoperability entry, empty escrow and supported-token stores, and schemas: fixed values.
- Downloading, file handling, child processes, configuration migration and the command line itself.
