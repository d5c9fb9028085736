# Verified model of the fulfillment service

This project models the parts of the fulfillment service where a mistake would be silent: the compiler from CEL filters
to SQL, the object store with its two-phase deletion and its event log, the algorithms over message trees, the fan-out of
events to watchers, the reconciliation of clusters, the defaulting of templates and the JSON encoder. Each part is a set
of Dafny modules; the properties hold for every input, every run and every reachable state, and `dafny verify
dfyconfig.toml` checks all of them.

Where the service changes state step by step the model does too: loops over buffers, transactions, tasks and request
objects are methods and classes, each proved equal to a specification on values, and the theorems are about that
specification. Clocks, identifiers, random choices and the failure of every call are parameters, so that a theorem holds
for whatever they turn out to be.

## Structure

| files | subject |
|---|---|
| `SqlText` | string literals and `like` patterns: the escaper, a scanner for PostgreSQL string tokens, a pattern matcher |
| `SqlGrammar`, `SqlMeaning` | SQL expressions as tokens, a precedence parser (section 4.1.6 of the PostgreSQL documentation), their three-valued meaning |
| `FilterTranslator`, `FilterAdequacy`, `FilterMeaning`, `FilterFragment` | the translator, which filters get all the parentheses they need, what CEL filters mean, and filters that fail |
| `Names`, `ObjectStore`, `Transactions`, `StoreProperties`, `StoreAnswers`, `TenancyFilter` | the generic data access object and its transactions: what every run keeps, and what each operation answers |
| `Messages`, `Mapper`, `MapperFields`, `MapperLaws`, `MergeLaws` | copying and merging messages between two types |
| `Masks`, `MaskLaws`, `PathCompiler` | field masks: paths, the masked update, and the compiler of paths |
| `EventFanout` | the event servers as a state machine over lock and channels |
| `Clusters`, `Reconciler`, `ReconcilerLaws`, `Templates` | clusters, their reconciliation, validation and defaulting |
| `Json`, `JsonEncoder` | JSON texts (RFC 8259) with a parser, and the encoder |
| `Wrappers` | results and options |

## Main results

- A filter is read back by PostgreSQL as it was written if and only if it is adequate (`TextReadsBack`): a condition on
  the CEL expression and the kinds of its fields alone, which says for each operator what its operands may show at
  their ends (`Adequate`). An adequate filter has on every row the value of the CEL expression (`TextMeansFilter`). A
  readable class of conditions is always adequate (`ConditionReadsBack`, `ConditionMeaning`). The strings inside survive
  exactly when `LiteralSafe` and `PatternSafe` hold (`LiteralRoundTrip`, `PatternExact`).
- Transactions are all or nothing (`RequestAtomicity`); in every reachable state the event log rebuilds the table
  (`EventLogDeterminesTable`) and deletion has two phases (`TwoPhaseDeletion`); tenancy refines a plain restriction of
  the table (`TenancyRefines`, `ServerUpdateRefines`); skipped updates would have changed nothing (`SkipIsSound`); pages
  partition a listing (`PagesPartition`).
- What the store answers and leaves is also said field by field, without its specification: who can see a row
  (`HiddenFromStrangers`, `FoundByItsTenants`), and what a creation, an update, a deletion and a list do
  (`CreateAnswers`, `UpdateAnswers`, `DeleteAnswers`, `ListAnswers`).
- Merge is associative and agrees with copy on empty targets (`MergeAssociative`, `MergeIntoEmpty`); public to private
  to public prunes exactly the ignored fields (`PublicRoundTrip`). What both leave in a destination that already has
  content is said for each kind of field (`ScalarWins`, `ListsReplaceOrAppend`, `CopiedEntries`, `MergedEntries`).
- The masked update is exact and does not depend on the order of the mask (`MaskedPathsExact`, `OtherPathsUnchanged`,
  `MaskOrderIrrelevant`); a second one is the identity (`UpdateTwice`).
- No interleaving sends on a closed channel, and deliveries are sound, for the private server also complete
  (`ChannelsAreSafe`, `DeliveryIsSound`, `PrivateDelivery`). The public server delivers an event to all who see and
  accept it, in every order of the visits, exactly under a condition on the subscribers (`NextReachesAllIff`), and
  its loop can always come to an end while the subscribers receive (`LoopCanEnd`).
- No history of reconciliations makes two orders of one cluster on one hub (`HistoryKeepsAtMostOne`), and the
  order that a successful run leaves asks for what the cluster says (`OrderAsksForCluster`).
- Validated and transformed clusters are fixed points, and validate again under an exact condition (`TransformIsFixed`,
  `RevalidatesIff`).
- The JSON output of any message is one text, which reads as the message without its ignored fields if and only if no
  enumeration in it is zero (`Marshal`).

The methods of `ManagedTx` other than `FetchPage` follow the specification of the object store branch by branch. They
show that the step by step code is that specification; the results are the lemmas about it.

## Where the code does less than one may expect

The model follows the code. The lemma with the failing input is named in parentheses; the main results above state the
condition under which the expected property does hold.

- A right operand of the same precedence gets no parentheses: `x - (y - z)` becomes `(x - y) - z`
  (`SubtractionReassociates`). `is` ranks above comparisons in the code and below them in PostgreSQL
  (`NullTestCaptures`). A membership keeps the null kind, so that comparing it writes `is` before something other than
  null (`ComparedMembershipIsUnreadable`); likewise `x in []` is written as `in ()`, which PostgreSQL refuses.
- A backslash is doubled without the `e` prefix (`BackslashIsDoubled`); with the prefix, the escapes of `%`, `_` and the
  backslash lose one level (`RawPatternMisleads`).
- `has(this.metadata.creators)` and `has(this.metadata.tenants)` are the bare columns (`PresenceIsTheColumn`).
- `Update` of the data access object ignores tenancy; the generic server guards it with `Get` (`DirectUpdateRefines`).
  An update that is skipped as equivalent returns no object.
- The hub of a cluster is saved after its order is created. When that save fails, two hubs can hold an order
  (`FailedSaveSplits`), and a deletion can leave one behind (`FailedSaveOrphans`).
- The result of the template transformation may not validate (`TransformedMayBeInvalid`). A required parameter must be
  provided even when it has a default, because the requirement is checked before defaults are set.
- The path compiler looks up what follows a scalar in the type of the scalar's own message
  (`SiblingOfScalarCompiles`), and the text of a compiled path is always empty, though its documentation says that it
  is the string from which the path was made (`Compile`).
- The strict flag of the mapper is accepted by its builder and never handed over, so fields that the target lacks are
  skipped.
- The public event server gives up an event at the first subscriber that cannot see it. A subscriber that sees and
  accepts the event then never gets it (`EventIsLost`).
- The number zero of an enumeration is written as null, which a reader of JSON messages drops from a field and refuses
  in a list or a map (`ZeroIsLost`).

## Model

| member | source | states |
|---|---|---|
| `SqlText.TranslateString` | internal/database/dao/filter_translator.go:463-491 | The rune loop with its buffer and flag: the escaped text of the value, and the flag exactly when some rune needs the `e` prefix |
| `SqlText.EscapeTextIsAscii` | internal/database/dao/filter_translator.go:474-486 | Whatever the value, only printable ASCII characters are written |
| `SqlText.Hex` | internal/database/dao/filter_translator.go:477-484 | The fixed width of the `%04x` and `%08x` fragments |
| `SqlText.HexRoundTrip` | internal/database/dao/filter_translator.go:477-484 | Reading the fixed-width hexadecimal digits gives the number back, for every width |
| `SqlText.LiteralIsOneToken` | internal/database/dao/filter_translator.go:448-456 | For every string: the emitted literal is one complete string token that ends at its own closing quote exactly when the string has no zero rune, and what it decodes to (sections 4.1.2.1 and 4.1.2.2 of the PostgreSQL documentation) |
| `SqlText.LiteralRoundTrip` | internal/database/dao/filter_translator.go:433-491 | The literal decodes to the original string if and only if there is no zero rune and no backslash without the prefix |
| `SqlText.BackslashIsDoubled` | internal/database/dao/filter_translator.go:467-469 | A lone backslash is read back as two: the flag is not set where the backslash is doubled |
| `SqlText.QuotedMatchesItself` | internal/database/dao/filter_translator.go:463-491 | Text with `%`, `_` and the backslash escaped matches itself and nothing else as a `like` pattern, and never ends in the middle of an escape (section 9.7.1) |
| `SqlText.QuotedPatternExact` | internal/database/dao/filter_translator.go:563-602 | With the right wildcards around it, escaped text is exactly `contains`, `startsWith` or `endsWith`, on every subject |
| `SqlText.PatternIsOneToken` | internal/database/dao/filter_translator.go:563-602 | The whole pattern literal is one string token, and the pattern that PostgreSQL sees, including the level of escaping that the `e` prefix removes |
| `SqlText.PatternExact` | internal/database/dao/filter_translator.go:563-602 | The emitted pattern decides like the CEL function on every subject if and only if there is no zero rune and the prefix does not meet one of `%`, `_` and the backslash |
| `SqlText.RawPatternMisleads` | internal/database/dao/filter_translator.go:585-599 | For every value with special characters that loses its escaping, a subject on which the pattern decides wrongly |
| `SqlText.DanglingNeverMatches` | internal/database/dao/filter_translator.go:585-599 | A pattern that ends in the middle of an escape matches no subject |
| `SqlGrammar.ParseExact` | internal/database/dao/filter_translator.go:108-119 | Against a parser with the precedences of section 4.1.6: a tree is read back from its text if and only if each operand without parentheses binds tightly enough |
| `SqlGrammar.ParseInverse` | internal/database/dao/filter_translator.go:108-119 | Every text that is read has one reading, and printing that reading gives the text |
| `SqlGrammar.ReadsBackExactly` | internal/database/dao/filter_translator.go:384-394 | Up to the association of `and` and `or`, the text is read back as the written tree if and only if the left-associated tree lacks no parentheses |
| `SqlGrammar.LeftAssociatedText` | internal/database/dao/filter_translator.go:384-394 | Re-associating chains of `and` and `or` does not change a single token |
| `SqlMeaning.LeftAssociatedMeaning` | internal/database/dao/filter_translator.go:354-394 | Re-associating `and` and `or` does not change the three-valued meaning, on any row, even with errors and nulls |
| `SqlMeaning.ReadsBackMeaning` | internal/database/dao/filter_translator.go:354-394 | Text that lacks no parentheses means what the written tree means |
| `FilterTranslator.TranslateInList` | internal/database/dao/filter_translator.go:508-542 | The two loops around the buffer write the tokens of the membership test that the translation specifies, and fail when it does |
| `FilterTranslator.TranslateLiterals` | internal/database/dao/filter_translator.go:515-528 | The loop over the list elements yields their translations in order, or fails when one element is no literal that can be translated |
| `FilterTranslator.WriteItems` | internal/database/dao/filter_translator.go:531-540 | The loop that writes the list yields exactly the comma separated items, however many there are |
| `FilterMeaning.TranslateFaithful` | internal/database/dao/filter_translator.go:202-754 | By induction over every CEL expression: the written tree has on every row the value that the expression has, when its strings survive and nothing is missing; what each operator means is said without the table of the translator |
| `FilterAdequacy.Written` | internal/database/dao/filter_translator.go:202-754 | By induction over every CEL expression: which ones are translated, with what kind and precedence, and what the written tree shows at its two ends, all from the expression |
| `FilterAdequacy.JoinEdges` | internal/database/dao/filter_translator.go:354-394 | A chain of `and` or of `or` lacks no parentheses if and only if its two parts lack none and fit the operator |
| `FilterAdequacy.AdequateExactly` | internal/database/dao/filter_translator.go:202-754 | The written text lacks no parentheses if and only if the filter is adequate, for every expression that is translated |
| `FilterMeaning.TextReadsBack` | internal/database/dao/filter_translator.go:202-415 | For every filter that is translated: PostgreSQL reads the text as the written tree up to the association of `and` and `or`, if and only if the filter is adequate, a condition on the CEL expression |
| `FilterMeaning.TextMeansFilter` | internal/database/dao/filter_translator.go:186-200 | The text of an adequate filter whose strings survive, as PostgreSQL reads it, has on every row the three-valued value of the CEL expression |
| `FilterFragment.ConditionReadsBack` | internal/database/dao/filter_translator.go:282-415 | Boolean operators over comparisons, null tests, memberships, patterns and presence tests, where comparisons also take patterns, JSON presence tests and enclosed logic: always translated, adequate and read back |
| `FilterFragment.ConditionMeaning` | internal/database/dao/filter_translator.go:282-602 | The filters of that class are always translated, and mean on every row what they say |
| `FilterFragment.SubtractionReassociates` | internal/database/dao/filter_translator.go:384-394 | For all integers: `x - (y - z)` loses its parentheses and is read as `(x - y) - z` |
| `FilterFragment.NullTestCaptures` | internal/database/dao/filter_translator.go:108-119 | `true == (this.metadata.creation_timestamp == null)` is read as a null test of a comparison, because `is` ranks above the comparisons in the code |
| `FilterFragment.ComparedMembershipIsUnreadable` | internal/database/dao/filter_translator.go:282-345 | For every text: `(text in this.metadata.tenants) == true` is written with the membership after `is`, and PostgreSQL cannot read it at all |
| `FilterFragment.PresenceIsTheColumn` | internal/database/dao/filter_translator.go:692-695 | `has(this.metadata.tenants)` is written as the bare column, which differs from the truth value of the presence test on every row |
| `Names.GetFinalizers` | internal/database/dao/generic_dao.go:1009-1027 | The set, the loop and the sort yield the canonical list of the submitted finalizers |
| `Names.CanonicalLists` | internal/database/dao/generic_dao.go:1009-1027 | That list is strictly ascending and has exactly the submitted names |
| `Names.ListsUnique` | internal/database/dao/generic_dao.go:1009-1027 | It is a function of the set: two ascending lists of the same names are equal |
| `Names.CanonicalFixed` | internal/database/dao/generic_dao.go:1009-1027 | What is already a canonical list is not changed |
| `Names.Sort` | internal/database/dao/generic_dao.go:1024-1025 | Sorting yields the ascending list of exactly the given names |
| `Names.BeforeExactly` | internal/database/dao/generic_dao.go:1024-1025 | The order of the sort: a name comes before those it is the beginning of, and otherwise the first place where two names differ decides |
| `Transactions.ManagedTx.EnsureReal` | internal/database/database_tx_manager.go:183-194 | Follows its specification: the first statement begins the real transaction on the committed tables; when that fails nothing changes |
| `Transactions.ManagedTx.ReportError` | internal/database/database_tx_manager.go:176-181 | Follows its specification: errors are collected, and nothing else changes |
| `Transactions.ManagedTx.End` | internal/database/database_tx_manager.go:115-140 | Follows its specification: the effects are committed when the transaction started, no error was reported and the commit works, and otherwise the tables stay as they were |
| `Transactions.ManagedTx.Handle` | internal/database/dao/generic_dao.go:617-624 | Follows its specification: each operation on the transaction: the reply and the new session of the specification, including the errors reported before any statement |
| `Transactions.ManagedTx.Perform` | internal/database/dao/generic_dao.go:309-915 | Follows its specification: each operation on a started transaction changes the tables and answers as specified, for every combination of failing calls |
| `Transactions.ManagedTx.Insert` | internal/database/dao/generic_dao.go:627-705 | Follows its specification: creation step by step: the inserted row, the event, and what stays when a step fails; `CreateAnswers` says what the specification stores |
| `Transactions.ManagedTx.Change` | internal/database/dao/generic_dao.go:719-800 | Follows its specification: update step by step: the comparison that skips it, the written row, the event and the move to the archive |
| `Transactions.ManagedTx.Remove` | internal/database/dao/generic_dao.go:815-915 | Follows its specification: deletion step by step: the mark, the event, and the move to the archive when nobody holds the row |
| `Transactions.ManagedTx.FireEvent` | internal/database/dao/generic_dao.go:948-957 | Follows its specification: the event is appended, unless the callback fails |
| `Transactions.ManagedTx.Archive` | internal/database/dao/generic_dao.go:917-946 | Follows its specification: the archived row is inserted before the live one is deleted, with what is left when either fails |
| `Transactions.ManagedTx.FetchPage` | internal/database/dao/generic_dao.go:339-461 | The count and the loop over the rows yield the page of matching objects in the order of the identifiers, and the total |
| `Transactions.InOrder` | internal/database/dao/generic_dao.go:398-402 | The rows are visited in the ascending order of the identifiers, each once |
| `StoreProperties.RequestAtomicity` | internal/database/database_tx_manager.go:115-191 | For every sequence of operations in one transaction: if any failed then live rows, archive and event log stay as before, and otherwise all effects are committed; the real transaction begins at most once |
| `StoreProperties.ExecuteKeeps` | internal/database/dao/generic_dao.go:627-946 | Every successful operation keeps the invariant of the tables, whatever the environment does |
| `StoreProperties.HistoryValid` | internal/database/dao/generic_dao.go:627-946 | The invariant holds after every history of transactions with failures anywhere |
| `StoreProperties.EventLogDeterminesTable` | internal/database/dao/generic_dao.go:627-957 | In every reachable state, folding the committed events rebuilds the live rows exactly |
| `StoreProperties.TwoPhaseDeletion` | internal/database/dao/generic_dao.go:719-946 | In every reachable state: a live row with a deletion timestamp has a finalizer, archived rows have one, and committed creations are live rows plus archived rows |
| `StoreProperties.RowsAdvance` | internal/database/dao/generic_dao.go:719-946 | No operation unsets a deletion timestamp or changes creation time, creators or tenants; archive and log only grow; a row leaves only into the archive |
| `StoreProperties.WriteIsIdentity` | internal/database/dao/generic_dao.go:731-796 | The full write path leaves live and archived rows identical if and only if the submitted content is the stored content |
| `StoreProperties.SkipIsSound` | internal/database/dao/generic_dao.go:731-796 | An update skipped as equivalent is one whose full write path would have changed neither table |
| `StoreProperties.TenancyRefines` | internal/database/dao/generic_dao.go:1086-1111 | Get, Exists, List and Delete answer as on the table restricted to the visible rows, and leave every other row unchanged |
| `StoreProperties.ServerUpdateRefines` | internal/servers/generic_server.go:388-431 | So does Update through the generic server, which fetches the object first |
| `StoreProperties.DirectUpdateRefines` | internal/database/dao/generic_dao.go:719-800 | Without the server in front, Update respects the restriction if and only if the identifier is not that of a hidden row |
| `StoreProperties.PagesPartition` | internal/database/dao/generic_dao.go:339-461 | Over an unchanged table, following the pages with any positive limit terminates and lists each matching row exactly once in the order of the identifiers, as many as the total says |
| `StoreAnswers.SeesExactly` | internal/database/dao/generic_dao.go:1086-1111 | A row is visible if and only if no visible tenants are given or it shares a tenant with them |
| `StoreAnswers.HiddenFromStrangers` | internal/database/dao/generic_dao.go:476-615 | A row that shares no tenant with the visible ones is not read, not found, not deleted and on no page of any list |
| `StoreAnswers.AbsentIsNotFound` | internal/database/dao/generic_dao.go:476-615 | An identifier without a row is answered with nothing and with false |
| `StoreAnswers.FoundByItsTenants` | internal/database/dao/generic_dao.go:476-615 | A row that shares a tenant with the visible ones, and every row when none are given, is read field by field, found, and listed by any filter that it passes when the page has room |
| `StoreAnswers.ListAnswers` | internal/database/dao/generic_dao.go:339-461 | A page shows the selected rows from the offset on: 100 by default, as many as asked for up to 1000, 1000 above, none for a negative limit; with the total |
| `StoreAnswers.CreateAnswers` | internal/database/dao/generic_dao.go:627-705 | A creation succeeds if and only if the identifier is free, and then there is one new row with the time, creators, tenants, data and finalizers that it should have, which is published and returned |
| `StoreAnswers.UpdateAnswers` | internal/database/dao/generic_dao.go:719-800 | An update without a row fails; one that says nothing new does nothing; any other replaces data and finalizers and nothing else, publishes and returns the object, and archives it when it is deleted and unheld |
| `StoreAnswers.DeleteAnswers` | internal/database/dao/generic_dao.go:815-915 | A deletion of a row that is missing or hidden fails; otherwise it marks a held row with the time and archives one that nobody holds, with all columns |
| `StoreAnswers.ServerUpdateAnswers` | internal/servers/generic_server.go:388-431 | The update through the server fails for hidden and missing rows, and otherwise updates the object that was read |
| `StoreAnswers.SuccessHidesNoFailure` | internal/database/dao/generic_dao.go:309-957 | An operation that answers without an error made no call that failed |
| `StoreAnswers.RefusedAtOnce` | internal/database/dao/generic_dao.go:476-846 | Without failures a request is refused before any statement if and only if it needs an identifier and has none |
| `TenancyFilter.WhereClause.AddTenancyFilter` | internal/database/dao/generic_dao.go:1086-1111 | The text and the arguments are extended in place; the new text means the previous condition and the overlap of tenants, on every row |
| `TenancyFilter.Restricts` | internal/database/dao/generic_dao.go:1104-1109 | Whatever was there, even with `or` at the top, is read as one operand of the conjunction |
| `TenancyFilter.RestrictionMeans` | internal/database/dao/generic_dao.go:1100-1109 | The extended clause has on every row the value of the conjunction |
| `TenancyFilter.ClauseSelectsOwned` | internal/database/dao/generic_dao.go:1086-1111 | The clause is true exactly for the rows that meet the previous condition and that the user may see |
| `Mapper.CopyMessage` | internal/servers/generic_mapper.go:128-184 | The loop over the fields of the source type, in any order, leaves in the destination what the specification says |
| `Mapper.CopyValue` | internal/servers/generic_mapper.go:140-181 | Follows its specification for one field: list, map, message or scalar; the laws in `MapperFields` say what that leaves |
| `Mapper.CopyElement` | internal/servers/generic_mapper.go:186-225 | A new element of a list or a map |
| `Mapper.CopyList` | internal/servers/generic_mapper.go:186-205 | The list is replaced by the copies of the items, in order |
| `Mapper.CopyMap` | internal/servers/generic_mapper.go:207-226 | Keys of the source are overridden, and no key is removed |
| `Mapper.MergeMessage` | internal/servers/generic_mapper.go:237-293 | The loop over the fields leaves in the destination what the specification says |
| `Mapper.MergeValue` | internal/servers/generic_mapper.go:249-290 | Follows its specification for one field: items appended, keys merged, messages merged, scalars replaced; the laws in `MapperFields` say what that leaves |
| `Mapper.MergeElement` | internal/servers/generic_mapper.go:315-341 | A value of a map is merged into the message of the same key, or is new |
| `Mapper.MergeMap` | internal/servers/generic_mapper.go:315-341 | Each key gets the merged value, in any order |
| `MapperLaws.MergeIntoEmpty` | internal/servers/generic_mapper.go:128-341 | Merging into an empty message is copying into an empty message, over all trees and ignored fields |
| `MapperLaws.CopyIdempotent` | internal/servers/generic_mapper.go:128-225 | Copying onto the result of the same copy changes nothing, for any target |
| `MapperLaws.CopyFrame` | internal/servers/generic_mapper.go:128-184 | At any depth that is reached through messages present in the source, a field that only the target has, or that is ignored, is unchanged |
| `MapperLaws.CopyIsShared` | internal/servers/generic_mapper.go:128-225 | A copy into an empty message is the part of the message that both types have and that is not ignored |
| `MapperLaws.SharedConforms` | internal/servers/generic_mapper.go:128-225 | The copy belongs to the other type |
| `MapperLaws.CopyRoundTrip` | internal/servers/generic_mapper.go:128-225 | To the other type and back gives the shared part |
| `MapperLaws.RoundTripIdentity` | internal/servers/generic_mapper.go:128-225 | The round trip is the identity if and only if no field of the message is dropped on the way |
| `MapperLaws.PublicRoundTrip` | internal/servers/generic_mapper.go:128-225 | When the private type has every public field, public to private to public gives the original with exactly the ignored fields pruned |
| `MapperFields.TakenExactly` | internal/servers/generic_mapper.go:140-155 | A field is copied or merged if and only if both types have it and neither ignores it |
| `MapperFields.NotTakenStays` | internal/servers/generic_mapper.go:128-293 | A field that is not taken stays; one that the source lacks stays in a merge and is absent after a copy |
| `MapperFields.ScalarWins` | internal/servers/generic_mapper.go:140-290 | For any destination: a scalar that the source has is what the destination has, after a copy and after a merge |
| `MapperFields.MessageGoesInside` | internal/servers/generic_mapper.go:140-290 | For any destination: a message of the source is copied or merged into the one that is there, or into an empty one |
| `MapperFields.ListsReplaceOrAppend` | internal/servers/generic_mapper.go:186-313 | For any destination: a copied list is exactly the shared items in order, and a merged list is what was there followed by them |
| `MapperFields.CopiedEntries` | internal/servers/generic_mapper.go:207-226 | For any destination: the keys are the union, those of the source have its shared values, and all others keep theirs |
| `MapperFields.MergedEntries` | internal/servers/generic_mapper.go:315-341 | For any destination: the keys are the union, scalars and new keys are those of the source, messages of the same key are merged, and all others keep theirs |
| `MergeLaws.MergeNothing` | internal/servers/generic_mapper.go:237-293 | Merging an empty message changes nothing |
| `MergeLaws.CopyTwice` | internal/servers/generic_mapper.go:128-225 | Copying a copy within one type changes nothing |
| `MergeLaws.MergeCopy` | internal/servers/generic_mapper.go:128-341 | Merging a copy is merging the original |
| `MergeLaws.MergeAssociative` | internal/servers/generic_mapper.go:237-341 | Merge is associative over one type with any ignored fields, by mutual induction over messages, lists and maps |
| `PathCompiler.Split` | internal/masks/mask_path_compiler.go:135-147 | The two loops yield the trimmed chunks between the dots that are not empty |
| `PathCompiler.SegmentsAreProper` | internal/masks/mask_path_compiler.go:135-147 | Whatever the text: segments are not empty, have no dots and no blanks around them |
| `PathCompiler.SegmentsOfJoin` | internal/masks/mask_path_compiler.go:135-147 | Joining such segments with dots and splitting gives them back |
| `PathCompiler.Compile` | internal/masks/mask_path_compiler.go:70-133 | The loop that consumes the segments yields the specified steps or the error of the first bad segment, and a normalized text that is always empty |
| `PathCompiler.TextCompiles` | internal/masks/mask_path_compiler.go:70-133 | The text of every mask path of a type compiles to the steps of that path |
| `PathCompiler.CompiledIsPathIff` | internal/masks/mask_path_compiler.go:77-122 | What the compiler accepts is a path of the type if and only if only message fields are followed by more segments, except for a final key |
| `PathCompiler.SiblingOfScalarCompiles` | internal/masks/mask_path_compiler.go:115-119 | `id.spec` compiles though `id` is a scalar: the next segment is looked up in the same type |
| `PathCompiler.TrimPadded` | internal/masks/mask_path_compiler.go:137-139 | All white space of Unicode around a segment is removed, and nothing of the segment |
| `PathCompiler.IndexOfText` | internal/masks/mask_path_compiler.go:86-92 | The index of a list is the number that its decimal text says, with or without a sign, if it fits in 64 bits |
| `Masks.Get` | internal/masks/mask_path.go:100-131 | The descending loop yields the value at the end of the path, if all of it is present |
| `Masks.Set` | internal/masks/mask_path.go:133-175 | The loop creates the missing messages and leaves the value at the end of the path |
| `Masks.PutBack` | internal/masks/mask_path.go:133-175 | The changed inner message is seen through every message on the way |
| `Masks.Clear` | internal/masks/mask_path.go:177-214 | The loop stops at the first missing message, and otherwise clears the end of the path |
| `Masks.StoredObject.UpdateMasked` | internal/servers/generic_server.go:411-428 | The loop over the mask leaves in the stored object the specified content |
| `MaskLaws.GetAfterSet` | internal/masks/mask_path.go:100-175 | What was set is what is read |
| `MaskLaws.GetAfterClear` | internal/masks/mask_path.go:100-214 | After clearing, the path is absent |
| `MaskLaws.ApplyTyped` | internal/servers/generic_server.go:411-428 | The object keeps its type |
| `MaskLaws.ApplyExact` | internal/servers/generic_server.go:420-427 | One iteration leaves at its path exactly what the input has there, present or absent |
| `MaskLaws.ApplyFrame` | internal/servers/generic_server.go:420-427 | One iteration does not change what is at any unrelated path |
| `MaskLaws.ApplyCommutes` | internal/servers/generic_server.go:420-427 | Two iterations can be exchanged, also when one path leads into the value of the other |
| `MaskLaws.MaskOrderIrrelevant` | internal/servers/generic_server.go:411-428 | Any permutation of the mask, overlapping prefixes included, gives the same object |
| `MaskLaws.MaskedPathsExact` | internal/servers/generic_server.go:411-428 | After the whole mask the object equals the input on every masked path |
| `MaskLaws.OtherPathsUnchanged` | internal/servers/generic_server.go:411-428 | and is unchanged on every path unrelated to the mask |
| `MaskLaws.WriteBack` | internal/masks/mask_path.go:100-214 | Writing back what is at a path, or clearing what is absent, changes nothing |
| `MaskLaws.UpdateAgreed` | internal/servers/generic_server.go:411-428 | An input that agrees with the object on the mask changes nothing |
| `MaskLaws.UpdateTwice` | internal/servers/generic_server.go:411-428 | The same masked update again changes nothing |
| `EventFanout.ReachesInvariant` | internal/servers/private_events_server.go:209-241 | By induction over every interleaving of watchers and listener: lock, subscriptions, channels and deliveries agree |
| `EventFanout.ChannelsAreSafe` | internal/servers/private_events_server.go:209-241 | Under every interleaving nobody sends on a closed channel, and no channel is closed twice |
| `EventFanout.DeliveryIsSound` | internal/servers/events_server.go:416-465 | Every subscriber receives events in processing order, each at most once, and only visible and accepted ones from after its registration |
| `EventFanout.DeliveryIsComplete` | internal/servers/events_server.go:416-465 | Every watcher, registered or gone, has received each event of its time that it sees and accepts and that all who were subscribed when it was taken can see |
| `EventFanout.NextReachesAllIff` | internal/servers/events_server.go:436-462 | In every reachable state before an event: all subscribers that see and accept it get it in every order of the visits, if and only if all subscribers see it or none both sees and accepts it |
| `EventFanout.EventIsLost` | internal/servers/events_server.go:438-440 | A run after which a registered subscriber that sees and accepts an event has not got it, because another one was visited first |
| `EventFanout.PrivateDelivery` | internal/servers/private_events_server.go:287-317 | The private server delivers every event exactly once to precisely the registered subscribers that accept it, up to their departure |
| `EventFanout.ReceiverCanBeServed` | internal/servers/events_server.go:416-465 | In every reachable state the event being sent can be delivered to a receiving subscriber, after those it has |
| `EventFanout.LoopCanEnd` | internal/servers/events_server.go:416-465 | From every reachable state whose subscribers are receiving, the loop over the next event can come to its end; when all see it, whoever accepts it then has it |
| `Reconciler.Hubs.List` | internal/controllers/cluster/cluster_reconciler_function.go:333-345 | The names of exactly the orders with the label of the cluster, each once, in any order |
| `Reconciler.VisitsCount` | internal/controllers/cluster/cluster_reconciler_function.go:346-347 | The number of listed items is the number of labelled orders |
| `Reconciler.Task.SetDefaults` | internal/controllers/cluster/cluster_reconciler_function.go:210-222 | Status, state and the missing condition types are filled in, visiting the types in any order |
| `Reconciler.Task.SetConditionDefaults` | internal/controllers/cluster/cluster_reconciler_function.go:224-240 | The searching loop and the append: the condition is added if and only if its type is missing |
| `Reconciler.Task.SelectHub` | internal/controllers/cluster/cluster_reconciler_function.go:296-320 | The hub of the snapshot, otherwise a random one of the listed, with the errors in the order of the calls |
| `Reconciler.Task.GetHub` | internal/controllers/cluster/cluster_reconciler_function.go:322-331 | The hub of the snapshot, or an error |
| `Reconciler.Task.GetKubeObject` | internal/controllers/cluster/cluster_reconciler_function.go:333-359 | No order, the only one, or an error when there are more |
| `Reconciler.Task.PrepareNodeRequests` | internal/controllers/cluster/cluster_reconciler_function.go:242-256 | One node request per node set, in the order of the visit |
| `Reconciler.Task.UpdateCluster` | internal/controllers/cluster/cluster_reconciler_function.go:130-208 | The new state of all hubs, the cluster and the error, for every behaviour of the environment |
| `Reconciler.Task.DeleteOrder` | internal/controllers/cluster/cluster_reconciler_function.go:258-294 | The same for deletions |
| `Reconciler.Reconcile` | internal/controllers/cluster/cluster_reconciler_function.go:110-128 | One run: update or delete, and then the save |
| `Reconciler.Start` | internal/controllers/reconciler.go:284-310 | The loop reconciles one object after the other, whatever becomes of each: its effect is that of the history |
| `ReconcilerLaws.HistoryKeepsAtMostOne` | internal/controllers/cluster/cluster_reconciler_function.go:130-359 | After every history of reconciliations with arbitrary stale snapshots, failures at any call, writes that take effect but report an error, removals by others and new hubs: at most one order per cluster on each hub |
| `ReconcilerLaws.NeverTooMany` | internal/controllers/cluster/cluster_reconciler_function.go:348-354 | So the check for more than one order never fires in such a history |
| `ReconcilerLaws.OverlappingRunsDuplicate` | internal/controllers/reconciler.go:284-310 | Why the loop is sequential: of two updates that both look at the hub before either writes, and both create, the second leaves two orders of one cluster there |
| `ReconcilerLaws.RunFrame` | internal/controllers/cluster/cluster_reconciler_function.go:130-294 | A run changes one hub only, and there no order of another cluster except those that other actors remove |
| `ReconcilerLaws.NamedHubIsKept` | internal/controllers/cluster/cluster_reconciler_function.go:296-307 | A run whose snapshot names a hub never changes it, and touches no other hub |
| `ReconcilerLaws.SplitsIff` | internal/controllers/cluster/cluster_reconciler_function.go:139-182 | A run spreads a cluster over two hubs if and only if it creates an order on one hub while another holds one |
| `ReconcilerLaws.NamedHistoryKeepsOneOrder` | internal/controllers/cluster/cluster_reconciler_function.go:130-359 | While every snapshot of a cluster names its hub, it has at most one order in the whole fleet, after every history |
| `ReconcilerLaws.FailedSaveSplits` | internal/controllers/cluster/cluster_reconciler_function.go:121-147 | The hub is saved after the order is created: when that save fails, the next run can create a second order on another hub |
| `ReconcilerLaws.FailedSaveOrphans` | internal/controllers/cluster/cluster_reconciler_function.go:258-263 | For the same reason a deletion can succeed and leave the order behind |
| `ReconcilerLaws.DeletionIff` | internal/controllers/cluster/cluster_reconciler_function.go:258-294 | After a successful deletion no hub holds an order of the cluster if and only if the snapshot named the hub of all of them and the order does not linger |
| `ReconcilerLaws.RunEstablishes` | internal/controllers/cluster/cluster_reconciler_function.go:130-208 | A successful run of a progressing cluster leaves exactly one order on its hub, which is the wanted one; `OrderAsksForCluster` says what that contains |
| `ReconcilerLaws.OrderAsksForCluster` | internal/controllers/cluster/cluster_reconciler_function.go:130-208 | After such a run the hub is the one of the snapshot or a listed one, and the only order there has the template and the parameters of the cluster and one request per node set, with its class and size |
| `ReconcilerLaws.AnyListedHubCanBeChosen` | internal/controllers/cluster/cluster_reconciler_function.go:296-307 | A cluster without a hub can be given any listed hub, and no other |
| `ReconcilerLaws.SuccessHidesNoFailure` | internal/controllers/cluster/cluster_reconciler_function.go:110-294 | A run that ends without an error made no call that failed |
| `ReconcilerLaws.SettledClusterIsLeftAlone` | internal/controllers/cluster/cluster_reconciler_function.go:130-137 | A cluster that is ready or failed only gets its defaults, and no hub changes |
| `ReconcilerLaws.RunKeepsCluster` | internal/controllers/cluster/cluster_reconciler_function.go:130-240 | A run changes nothing of the cluster but a missing state, the hub and missing conditions, which are false |
| `ReconcilerLaws.ReconciledIsFixed` | internal/controllers/cluster/cluster_reconciler_function.go:110-240 | Reconciling again what was saved, when nothing fails or interferes, changes neither hubs nor cluster |
| `ReconcilerLaws.DefaultsIdempotent` | internal/controllers/cluster/cluster_reconciler_function.go:210-240 | Setting the defaults again changes nothing, in whatever order the types are visited |
| `ReconcilerLaws.ConditionsCovered` | internal/controllers/cluster/cluster_reconciler_function.go:210-240 | Existing conditions stay first and unchanged, and afterwards exactly the known types are there too |
| `ReconcilerLaws.DefaultsKeepUnique` | internal/controllers/cluster/cluster_reconciler_function.go:210-240 | The defaults never make the server reject the cluster for duplicated conditions |
| `Templates.ValidateTemplateParameters` | internal/utils/template_parameters.go:37-129 | Accepts if and only if all provided names are defined, all required ones provided and all types as defined; an error names a fault that is there, after the earlier checks found none |
| `Templates.CollectUnknown` | internal/utils/template_parameters.go:43-56 | The nested loops collect exactly the provided names that no definition has |
| `Templates.ProcessTemplateParametersWithDefaults` | internal/utils/template_parameters.go:135-157 | Each defined name has its provided value, otherwise its last default, otherwise none; there are no other names |
| `Templates.CheckKeys` | internal/servers/private_clusters_server.go:212-229 | Accepts if and only if every node set of the cluster is in the template |
| `Templates.CheckHostClasses` | internal/servers/private_clusters_server.go:231-248 | Accepts if and only if every given host class is empty or that of the template |
| `Templates.CheckSizes` | internal/servers/private_clusters_server.go:250-260 | Accepts if and only if every given size is positive |
| `Templates.ReplaceNodeSets` | internal/servers/private_clusters_server.go:262-276 | The loop builds the node sets of the template with the sizes of the cluster |
| `Templates.ClusterSpec.ValidateAndTransform` | internal/servers/private_clusters_server.go:186-293 | Succeeds if and only if the template is usable and all checks hold; on success the specification is transformed in place; the error is that of the first check that fails, and then only the node sets may have changed already |
| `Templates.ValidateNoDuplicateConditions` | internal/servers/private_clusters_server.go:166-184 | Accepts if and only if no condition type occurs twice, and otherwise names the first repeated one |
| `Templates.TransformedMeans` | internal/servers/private_clusters_server.go:262-291 | After success: keys and host classes of the template, sizes of the cluster where given, provided parameters kept, and otherwise exactly the last default of each name |
| `Templates.TransformIsFixed` | internal/servers/private_clusters_server.go:262-291 | Transforming again changes nothing |
| `Templates.RevalidatesIff` | internal/servers/private_clusters_server.go:186-293 | The transformed cluster validates again if and only if the sizes that the template filled in are positive and the defaults used have the types of the definitions |
| `Templates.TransformedMayBeInvalid` | internal/servers/private_clusters_server.go:262-291 | A template with an empty node set or a default of another type makes a cluster that does not validate |
| `Json.ParseExact` | internal/json/json_encoder.go:149-314 | Against the grammar of sections 2 to 5 of RFC 8259: a token stream is a text if and only if it is the print of what it parses to |
| `JsonEncoder.Encoder.Marshal` | internal/json/json_encoder.go:130-147 | For every message: the output is one well-formed JSON text; reading it gives the message without its ignored fields if and only if no enumeration in it is zero, and otherwise what is recovered |
| `JsonEncoder.Encoder.MarshalMessage` | internal/json/json_encoder.go:149-193 | The loop over the fields in any order, with its `first` flag, writes one object that reads as what is recovered of the pruned message |
| `JsonEncoder.Encoder.MarshalValue` | internal/json/json_encoder.go:195-204 | A field of any kind reads as what is recovered of its pruned value, and is null exactly for a zero enumeration |
| `JsonEncoder.Encoder.MarshalSingle` | internal/json/json_encoder.go:206-256 | A single value reads as what is recovered of it, and is null exactly for a zero enumeration |
| `JsonEncoder.Encoder.MarshalScalar` | internal/json/json_encoder.go:212-249 | Every scalar of every kind reads as itself, except for the number zero of an enumeration, which is null |
| `JsonEncoder.Encoder.MarshalList` | internal/json/json_encoder.go:258-279 | The items are written in order with commas between them |
| `JsonEncoder.Encoder.MarshalMap` | internal/json/json_encoder.go:281-314 | The entries are written in any order, each key once |
| `JsonEncoder.PrunedMeans` | internal/json/json_encoder.go:161-164 | What is left has no ignored field at any depth, and a message changes if and only if it has one |
| `JsonEncoder.PrunedKeeps` | internal/json/json_encoder.go:149-193 | Exactly the fields that are not ignored are left, with the same scalars, lengths and keys, and so on inside of every message |
| `JsonEncoder.RecoveredExactly` | internal/json/json_encoder.go:241-249 | What comes back of a value is the value if and only if no enumeration in it is zero, at any depth |
| `JsonEncoder.ZeroIsLost` | internal/json/json_encoder.go:241-249 | A zero enumeration in a field is lost, and one in a list makes the message unreadable |

## Left out

- FilterTranslator.Translate: the CEL checker is not modelled, and what is read back is proved for ill-typed filters too; a field that the message type lacks is an error here.
- SqlGrammar.ParseExact: the parser works on tokens; only string literals are modelled character by character, a negative number is one token, and `not` directly after a tighter operator is refused.
- SqlText.LiteralRoundTrip: octal and `\x` escapes, which the translator never writes, are refused by the scanner; text that is not valid UTF-8 is not modelled.
- SqlMeaning.ReadsBackMeaning: columns, arithmetic, casts, JSON and array operators are arbitrary functions of a row; overflow and the difference between a missing field and a null are not compared.
- FilterMeaning.TextMeansFilter: sufficient, not necessary: a text that is read as another tree could still have the same value on some rows.
- ObjectStore.Execute: concurrent transactions, the encoding of rows as JSON and the text of the SQL statements other than the filter are not modelled; data that is not metadata is opaque.
- Transactions.ManagedTx.Handle: the query objects of the driver; a failing call is a choice of the environment.
- StoreProperties.ServerUpdateRefines: the masked update stands as an arbitrary function that keeps the identifier.
- Mapper.CopyMessage: messages are values, so the update in place of the destination and aliasing between the two messages are not captured; oneof fields and the strict mode are not modelled.
- Masks.Set: messages are values here too, and the changed inner messages are put back by a second loop; list indexes and keys in the middle of a path are not modelled.
- PathCompiler.Compile: the chunks of a text are given by a function, as the standard library gives them.
- EventFanout.NextReachesAllIff: about loops that end. That a loop does end is only shown to be possible (LoopCanEnd), since a subscriber that never receives blocks the send, and the read lock with it. Goroutines are steps of a state machine and not methods.
- Reconciler.Reconcile: one namespace per hub, and listings that see all earlier writes; the JSON text of parameters is represented by the parameters.
- Reconciler.Start: the channel that feeds the loop is the queue of its objects; watching, syncing and sleeping are left out.
- Templates.ClusterSpec.ValidateAndTransform: maps hold no nil entries, as after decoding; the wording of the messages is not modelled.
- JsonEncoder.Encoder.Marshal: any and timestamp values, which another library writes, invalid values, numbers without a name in their enumeration and errors of the stream are left out; base 64, decimal and character level encoding belong to libraries.
- Host, host pool and virtual machine reconcilers, and the other pairs of public and private servers: near copies.
- gRPC, the HTTP gateway, commands, network clients, logging, migrations and the caches of paths, queries and hubs: no hard property.
