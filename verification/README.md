# Anolis provider SDK: verified model

A Dafny model of the parts of the Anolis provider SDK where a mistake is easy to
make and hard to see, with proofs of what the SDK promises about them:

- **The declare-once config toolkit.** One declaration tree (`ConfigSpec`, built by
  `ConfigBuilder`, checked by `ConfigChecker`) is compiled to a JSON Schema document
  (`ConfigEmit`, `ConfigEmitter`) and interpreted by a YAML validator
  (`ConfigValidate`, `Validator`). `JsonSchema` evaluates draft 2020-12 over the
  emitted JSON tree, looking keywords up in it; `ConfigMeaning` says what a
  declaration means; `SchemaMeaning`/`SchemaTree` and `ValidatorMeaning` tie each
  side to that meaning, `ReportFacts` says what a report holds, `FloatFacts` what a scalar
  resolves to, `ConfigReach` what the construction checks achieve. `NoDrift` joins the
  sides, `PrintedSchema` carries the result to the
  text a client parses, `SchemaValidity` asks whether that text is a schema at all, and
  `DriftWitnesses` exhibits where the promises fail.
- **Printed text.** The pretty-printer against an independent strict RFC 8259 parser
  (`JsonText`, `JsonFacts`, `JsonWriter`), the two UTF-8 recognisers against the
  encoding of RFC 3629 (`Utf8`), host text repair and the bounded echo (`HostText`),
  and the config-schema envelope (`EmittedDocument`, `EmittedTexts`, `Envelope`,
  `ConfigSchema`).
- **The protocol spine.** Framing (`Transport`), argument validation
  (`CallValidation`, `ArgumentFacts`), the call and read paths (`Handlers`, `CallPath`,
  `CallDecision`, `ReplyFacts`) and the serving loop (`Runtime`, `ServingFacts`,
  `RunCalls`, `Conservation`). Every question to the provider, the clock or a hook is an
  event; the provider and the clock are arbitrary functions of the events so far.
- **The I2C bus.** Retry and poll loops with their counters (`I2cBus`) and the fault
  decorator (`FaultInjection`, `FaultSchedule`).

Code that changes state is modelled as classes and methods with loops, each proved
against a function or predicate; the theorems are about those.

What is taken as given, always as an explicit hypothesis: that the one regular
expression the toolkit writes itself means what its text says (`Lawful`); that a
formatted double is some RFC 8259 number (`FormatsNumbers`); that a client reads the
numbers of one printed schema as what they are (`Restores`); that the codec reads back
what it writes, never writes nothing, and fits the short fallback in a frame
(`CodecSound`, met by `SoundCodecExists`); and, only where stated, that a provider's
failed result carries a non-OK code (`FailsHonestly`). All other library calls,
the ioctl, the clocks and the ways stream operations fail are arbitrary.

Texts are strings of chars 0 to 255, one per byte. Doubles are reals with infinities
and NaN; a float of a document is taken after its rounding to a double, on the schema's
side too, so the texts just below -2^63 count as -2^63 for both (docs/config-schema.md
lists them among the known deviations). Bit masks and shifts are quotients and
remainders by powers of two. Maps of a YAML or JSON document are sequences of pairs, so
that repeated keys can be expressed.

## What the promises turn out to mean

The source says that schema and validation cannot drift. They agree on documents where
(1) integers at Number fields are doubles, since the validator compares after a cast;
(2) whole floats at Integer fields fit int64; (3) map keys are scalars without
repetition, which JSON cannot express otherwise; (4) no deprecated key occurs in an Open
object, since deprecation is not emitted; and (5) the item counts of the arrays met fit
int64, since the emitter casts them from size_t and nothing refuses larger ones. (1),
(2) and both halves of (5) are shown to be exact, `DeprecatedPassesSchema` exhibits (4),
and `DriftExactly` states without (3), (4) and (5) what the two verdicts have to do with
each other; `PublishedDriftExactly` says the same of a client that holds the printed
text. Passing validation implies acceptance by the schema under (1) and the maximum half
of (5): an array maximum past int64 is emitted as a negative number, which every array
exceeds.

`When::forbid` accepts a repeated key, which makes the emitted document repeat a key:
distinctness is proved to hold exactly when no branch does so. `When::require` accepts
a repeated key as well, and then, or when a count is cast to a negative number, the
emitted document is not a valid schema; in all other cases it is. A combined I2C read
passes its length to the driver in 16 bits, so what it reports is what it stored exactly
below 65536 bytes. A 32-bit wrap of `drop_after + drop_for` silently disables dropouts.
A whole frame can be on the wire although the loop exits 5: exactly when the last payload
write breaks having taken all its bytes, or only the last flush fails. A failed provider
result that carries the OK code yields an OK status without a payload, for calls and for
reads.

The construction checks refuse every empty range, but accept a string field whose pattern
nothing matches, a branch on a value that its member forbids, and a branch that forbids
its own discriminator. A float literal out of range and without exponent counts as
infinite unless it starts with `0.`, so `.00...01` with enough zeros does.

## Model

| member | source | states |
|---|---|---|
| `NoDrift.DriftExactly` | src/anolis/provider_sdk/config_validate.cpp:500-615 | The difference, exactly: for every constructed tree and every document whose scalars are in their fields' domains, the validator reports nothing and every array maximum met survives the int64 cast, iff the emitted schema accepts, every array met its declared minimum, every map has clean keys and no Open map holds a deprecated key, at any depth |
| `NoDrift.ValidatorAndSchemaAgree` | src/anolis/provider_sdk/config_validate.cpp:500-615 | Hence: where the counts of the arrays met survive the cast and the maps are well kept, `validate` reports nothing iff the emitted JSON Schema tree accepts the document under draft 2020-12, `x-anolis-unique` meaning parsed-value uniqueness |
| `NoDrift.ValidatorNeverLaxer` | src/anolis/provider_sdk/config_validate.cpp:403-468 | A document that passes `validate` is accepted by the emitted schema, also by a reader that ignores every `x-anolis-*` keyword, provided integers at Number fields are exact and the maxima of the arrays met fit int64; duplicate keys, deprecated keys, minima and huge whole floats need no condition |
| `NoDrift.NumberFieldsNeedExactIntegers` | src/anolis/provider_sdk/config_validate.cpp:347-368 | An int64 gets the same verdict from validator and schema at every declarable Number field iff it is a double: a significand of at most 2^53 times a power of two |
| `NoDrift.FirstInexactInteger` | src/anolis/provider_sdk/config_validate.cpp:347-368 | Up to 2^53 the verdicts agree; 2^53 + 1 passes the Number field whose maximum is 2^53 and the emitted schema rejects it |
| `NoDrift.IntegerFieldsNeedInt64` | src/anolis/provider_sdk/config_validate.cpp:223-238 | A finite float gets the same verdict at every declarable Integer field iff it is not a whole number outside int64 |
| `NoDrift.DeprecatedKeysExact` | src/anolis/provider_sdk/config_validate.cpp:500-560 | On otherwise agreeing documents the validator reports nothing iff the schema accepts and no Open map at any depth holds a deprecated key |
| `NoDrift.MinCountsNeedInt64` | src/anolis/provider_sdk/config.cpp:633-635 | Every declarable array with minimum n gets the same verdict from the validator and the emitted schema on every document of the domain iff n fits int64 |
| `NoDrift.MaxCountsNeedInt64` | src/anolis/provider_sdk/config.cpp:636-638 | The same for the maximum |
| `DriftWitnesses.LaxMaximum` | src/anolis/provider_sdk/config.cpp:633-638 | For every maximum beyond int64: a tree the checks accept and the document `a: []`, which the validator passes and no reader of the emitted schema accepts |
| `DriftWitnesses.DeprecatedPassesSchema` | src/anolis/provider_sdk/config_validate.cpp:531-546 | An Open root with a deprecated key and the document `old: "1"`: constructed, in the domain, keys clean; the validator reports an error and every reader of the emitted schema accepts |
| `DriftWitnesses.UniquenessByKind` | src/anolis/provider_sdk/config_validate.cpp:403-438 | Parsed-value uniqueness and JSON uniqueness give the same verdict on every list of valid items iff the kind is not an I2C address |
| `DriftWitnesses.PlainReaderMissesAddress` | src/anolis/provider_sdk/config.cpp:639-645 | A unique address array holding 8 and "0x08": the validator rejects it, a plain reader of the emitted schema accepts it |
| `DriftWitnesses.TwiceForbiddingRepeats` | src/anolis/provider_sdk/config.cpp:426-436 | A tree that passes every check, with a branch that forbids one key twice: each envelope printed for it parses to a document that repeats a key |
| `DriftWitnesses.EmittedNotValid` | src/anolis/provider_sdk/config.cpp:419-425 | Two trees that pass every check and whose emitted document is not a valid schema: a branch that requires one key twice, and an array maximum beyond int64 |
| `PrintedSchema.PublishedDriftExactly` | src/anolis/provider_sdk/config.cpp:1128-1153 | The exact difference again, now between `validate` and a client that parses the printed envelope, takes its `schema` member and evaluates that, if the client reads each printed number as the number it is |
| `PrintedSchema.PublishedVerdict` | src/anolis/provider_sdk/config.cpp:1128-1153 | For every schema, envelope option, dialect and instance: the schema found in the printed envelope gives the verdict of the emitted tree |
| `PrintedSchema.PrintedVerdict` | src/anolis/provider_sdk/config.cpp:87-141 | Printing any tree and reading it back as a schema keeps every verdict on every instance |
| `PrintedSchema.CanonAgrees` | src/anolis/provider_sdk/config.cpp:87-141 | No verdict of any schema tree depends on whether a whole number in it is spelt as an integer or as a double |
| `SchemaValidity.RootValid` | src/anolis/provider_sdk/config.cpp:744-760 | For every tree the checks accept: every keyword of the emitted root document, at every depth, has a value draft 2020-12 allows iff no branch requires a key twice and every item count fits int64 |
| `SchemaValidity.ObjectValid` | src/anolis/provider_sdk/config.cpp:649-742 | The same for every emitted object |
| `ConfigMeaning.ObjectCounts` | src/anolis/provider_sdk/config.cpp:633-638 | Reading item counts in full and reading them after the cast: the exact relation between the two meanings of a declaration, at every depth |
| `SchemaTree.RootAgrees` | src/anolis/provider_sdk/config.cpp:744-760 | The whole emitted root document, keyword by keyword, accepts exactly the instances the declaration means, item counts read after their cast; no condition on the counts |
| `SchemaTree.ObjectAgrees` | src/anolis/provider_sdk/config.cpp:649-742 | The emitted object schema (properties, required, additionalProperties, dependentRequired, if/then branches) accepts exactly the instances the object declaration means, at every depth |
| `SchemaTree.ArrayAgrees` | src/anolis/provider_sdk/config.cpp:619-647 | The same for arrays: items, counts as cast, `uniqueItems` and `x-anolis-unique`, scalar and object items |
| `SchemaMeaning.FieldAgrees` | src/anolis/provider_sdk/config.cpp:479-617 | The same for each of the five field kinds, including titled enums as `oneOf`, where the builder's distinctness makes exactly one option match |
| `ValidatorMeaning.ObjectSide` | src/anolis/provider_sdk/config_validate.cpp:500-607 | The validator's error list for an object is empty iff (on the strict scalar domain) the document's JSON reading is what the declaration means and its maps are well kept at every depth |
| `SchemaTree.ParsedDistinctIsDistinct` | src/anolis/provider_sdk/config_validate.cpp:403-438 | Items with distinct canonical values are distinct as JSON values, so parsed-value uniqueness implies `uniqueItems` |
| `Validator.ValidateDocument` | src/anolis/provider_sdk/config_validate.cpp:611-615 | The recursive walk over one shared error vector reports exactly the errors of the specification, whose contents `ReportExact` and whose order `ReportOrder` state of the document itself |
| `Validator.ValidateObject` | src/anolis/provider_sdk/config_validate.cpp:500-607 | Appends exactly the specified errors: keys, deprecated and unknown keys, members, conditionals, dependents |
| `Validator.ValidateArray` | src/anolis/provider_sdk/config_validate.cpp:440-498 | Appends exactly the specified errors: counts, items in order, duplicates found with the `seen` sets |
| `Validator.ValidateField` | src/anolis/provider_sdk/config_validate.cpp:321-401 | Appends exactly the errors of a scalar field of any kind |
| `Validator.CollectKeys` | src/anolis/provider_sdk/config_validate.cpp:511-528 | The present keys are collected once each, and every repeated or non-scalar key is reported |
| `ReportFacts.ReportExact` | src/anolis/provider_sdk/config_validate.cpp:265-615 | An error stands in a report iff following its path down the document leads to that violation: every kind of violation, at every depth |
| `ReportFacts.ReportOrder` | src/anolis/provider_sdk/config_validate.cpp:500-607 | In every object the errors of keys come first, then deprecated and unknown keys, members in declared order, branches, dependencies |
| `ReportFacts.ArrayOrder` | src/anolis/provider_sdk/config_validate.cpp:440-498 | In every array the errors of its size come first, then the items by index |
| `ReportFacts.FieldExact` | src/anolis/provider_sdk/config_validate.cpp:284-401 | The errors of a scalar field all stand at its path and are exactly the violations of its resolved value |
| `Yaml.GetIsFirst` | src/anolis/provider_sdk/config_validate.cpp:547-550 | Looking a key up finds its first occurrence |
| `ScalarFacts.DecimalTextResolves` | src/anolis/provider_sdk/config_validate.cpp:71-123 | A text of the form [-+]?[0-9]+ resolves to an integer iff its decimal value fits int64, and then to that value |
| `ScalarFacts.PrintedIntegerResolves` | src/anolis/provider_sdk/config_validate.cpp:71-123 | Printing any int64, INT64_MIN included, and resolving the text is the identity |
| `ScalarFacts.HexTextResolves` | src/anolis/provider_sdk/config_validate.cpp:71-123 | A `0x` text resolves to an integer iff the value its digits denote fits int64, and then to that value |
| `ScalarFacts.OctTextResolves` | src/anolis/provider_sdk/config_validate.cpp:71-123 | The same for `0o` texts |
| `FloatFacts.FloatTextResolves` | src/anolis/provider_sdk/config_validate.cpp:138-174 | A signed float text that is no int64, decimal integers beyond int64 included, resolves to the value the library reads from its magnitude, negated after a minus; out of range, to a zero or an infinity of that sign; to itself if the library cannot read it |
| `FloatFacts.FloatTextIsPattern` | src/anolis/provider_sdk/config_validate.cpp:61-64 | The float texts are exactly a sign or none, digits with at most one point, and an optional signed exponent |
| `FloatFacts.InfinityResolves` | src/anolis/provider_sdk/config_validate.cpp:124-137 | `.inf`, `.Inf` and `.INF` resolve to the infinity of their sign |
| `FloatFacts.NanResolves` | src/anolis/provider_sdk/config_validate.cpp:124-137 | `.nan`, `.NaN` and `.NAN` resolve to NaN |
| `FloatFacts.WordsResolve` | src/anolis/provider_sdk/config_validate.cpp:32-45 | Exactly the five null words, three true words and three false words resolve to null, true and false |
| `FloatFacts.StringOtherwise` | src/anolis/provider_sdk/config_validate.cpp:90-180 | A plain scalar is a string, itself, iff it is no word, no int64 in any notation, no special float and no float text the library reads |
| `FloatFacts.PlainExtraction` | src/anolis/provider_sdk/config_validate.cpp:632-661 | What the string, boolean and integer helpers extract from a plain scalar, by its text |
| `FloatFacts.FloatExtraction` | src/anolis/provider_sdk/config_validate.cpp:642-651 | The number helper extracts a float text with its sign |
| `FloatFacts.QuotedIsText` | src/anolis/provider_sdk/config_validate.cpp:181-203 | A quoted scalar is its text whatever it looks like, and nothing else |
| `ScalarFacts.HexFormIsRange` | src/anolis/provider_sdk/config_internal.hpp:12-16 | The built-in address pattern matches exactly 0x/0X plus two hex digits whose value is in 0x08..0x77 |
| `ScalarFacts.HexTextParses` | src/anolis/provider_sdk/config_validate.cpp:240-263 | Every text of that form is parsed to the address its digits denote |
| `ScalarFacts.ExactIffDouble` | src/anolis/provider_sdk/config_validate.cpp:347-352 | The int64-to-double conversion leaves an integer alone iff it is a 53-bit significand times a power of two |
| `ScalarFacts.ConversionIsDouble` | src/anolis/provider_sdk/config_validate.cpp:347-352 | What the conversion yields always has that form |
| `ScalarFacts.ConversionIsNearest` | src/anolis/provider_sdk/config_validate.cpp:347-352 | No integer of that form is nearer to the one converted |
| `ScalarFacts.SmallIntegersExact` | src/anolis/provider_sdk/config_validate.cpp:347-352 | Integers up to 2^53 are doubles, and 2^53 + 1 is not |
| `ConfigFacts.AdvertisedTextsPass` | src/anolis/provider_sdk/config.cpp:286-317 | Whatever const, enum option or string default a checked field advertises passes that field's own validation |
| `ConfigFacts.AdvertisedIntegerPasses` | src/anolis/provider_sdk/config.cpp:318-325 | An advertised integer default, printed and resolved again, passes validation |
| `ConfigFacts.AdvertisedValuesPass` | src/anolis/provider_sdk/config.cpp:326-332 | A boolean default spelt as its word, and a number default spelt by any text that resolves to it, pass validation |
| `ConfigFacts.ExtractionTotal` | src/anolis/provider_sdk/config_validate.cpp:632-661 | After an empty report every required member is there and every declared scalar at any depth is extracted by its helper, inside its bounds |
| `ConfigChecker.CheckObject` | src/anolis/provider_sdk/config.cpp:335-472 | The loops over key sets accept exactly the trees `ObjectOk` describes, whose conditions `FieldOkExact`, `ArrayRefusedIffEmpty`, `BranchMeetable`, `OneBranchApplies` and `DependencyMeetable` state by what they achieve |
| `ConfigChecker.CheckField` | src/anolis/provider_sdk/config.cpp:235-333 | Accepts exactly the fields `FieldOk` describes, which `FieldOkExact` states of the values the validator passes |
| `ConfigChecker.CheckConditional` | src/anolis/provider_sdk/config.cpp:402-437 | A branch is accepted iff its discriminator is a String member that can take the value and its keys are declared, not required elsewhere, not both required and forbidden |
| `ConfigReach.FieldOkExact` | src/anolis/provider_sdk/config.cpp:235-333 | A built field is accepted iff its texts are UTF-8, `unique` stands in array items, its pattern compiles, const and enum are not both given, every value it advertises passes its own validation, and some integer or real passes its range |
| `ConfigReach.EveryFieldTakesAValue` | src/anolis/provider_sdk/config.cpp:235-333 | Every field that passes the checks has a value that passes its validation, unless it is a string limited by a pattern alone |
| `ConfigReach.DeadPattern` | src/anolis/provider_sdk/config.cpp:279-285 | A string field whose only limit is a pattern nothing matches passes the checks and takes no value |
| `ConfigReach.RefusedIffEmpty` | src/anolis/provider_sdk/config.cpp:263-278 | A field that declares ranges only is refused iff no value passes it |
| `ConfigReach.ArrayRefusedIffEmpty` | src/anolis/provider_sdk/config.cpp:378-400 | With sound texts and items an array is refused iff no length meets both counts |
| `ConfigReach.ListedBranchReachable` | src/anolis/provider_sdk/config.cpp:402-416 | Where a discriminator lists its values, a branch value is one of a valid discriminator iff it is listed |
| `ConfigReach.BranchMeetable` | src/anolis/provider_sdk/config.cpp:402-437 | A branch on declared keys is accepted and does not forbid its own discriminator iff some set of declared keys keeps every rule of presence with it |
| `ConfigReach.MetIsQuiet` | src/anolis/provider_sdk/config_validate.cpp:568-588 | Keeping those rules is having no error from the branch and no missing required member |
| `ConfigReach.DeadBranch` | src/anolis/provider_sdk/config.cpp:402-437 | The checks accept a branch that forbids its own discriminator, and one on a value its member forbids |
| `ConfigReach.OneBranchApplies` | src/anolis/provider_sdk/config.cpp:416-418 | No two branches share discriminator and value iff at most one branch per discriminator applies to any document |
| `ConfigReach.DependencyMeetable` | src/anolis/provider_sdk/config.cpp:439-460 | A dependency is accepted iff it names each key once, not its own, and some declared keys meet it |
| `ConfigReach.CheckedObject` | src/anolis/provider_sdk/config.cpp:335-472 | What a checked object secures: branches on declared keys that can be met unless they forbid their own discriminator, at most one branch per discriminator taken, dependencies that can be met, no declared key deprecated |
| `ConfigReach.CheckedMarksCount` | src/anolis/provider_sdk/config.cpp:257-259 | In a checked tree, at any depth, `unique` stands only on scalar members of array items, and scalar items carry neither `unique` nor `required` |
| `ConfigReach.DeclaredNeverDeprecated` | src/anolis/provider_sdk/config.cpp:462-471 | In a checked object a declared key is never reported as deprecated or unknown |
| `ConfigBuilder.Field.EnumOption` | src/anolis/provider_sdk/config.cpp:816-827 | Refused exactly for a non-String field or a value already listed, so enum values stay distinct |
| `ConfigBuilder.Field.ForbidValue` | src/anolis/provider_sdk/config.cpp:837-848 | Refused exactly for a non-String field or a value already forbidden |
| `ConfigBuilder.Field.MinNumber` | src/anolis/provider_sdk/config.cpp:866-878 | Refused exactly for a non-Number field, a non-finite bound, or a conflicting exclusive bound; keeps every builder invariant |
| `ConfigBuilder.Object.InsertMember` | src/anolis/provider_sdk/config.cpp:1030-1037 | Refused exactly for a declared key; member keys stay distinct |
| `ConfigBuilder.Object.AddWhen` | src/anolis/provider_sdk/config.cpp:1069-1076 | Refused exactly for a branch that requires and forbids nothing |
| `ConfigSchema.MakeSchema` | src/anolis/provider_sdk/config.cpp:1100-1100 | A schema object exists iff the tree checks pass, and then satisfies what the no-drift and document theorems assume of a declaration |
| `ConfigEmitter.FieldTree` | src/anolis/provider_sdk/config.cpp:479-617 | Pushing the entries one by one yields the specified schema of the field |
| `ConfigEmitter.ArrayTree` | src/anolis/provider_sdk/config.cpp:619-647 | The same for arrays |
| `ConfigEmitter.ObjectEntries` | src/anolis/provider_sdk/config.cpp:649-742 | The same for objects, with `properties` and `required` growing side by side |
| `ConfigEmitter.SchemaTree` | src/anolis/provider_sdk/config.cpp:744-760 | The same for the root document, whose overrides replace the root's own texts |
| `EmittedDocument.ObjectWellFormed` | src/anolis/provider_sdk/config.cpp:649-742 | At every depth of an emitted object all texts are UTF-8, and no object repeats a key iff no `When` branch repeats a forbidden key |
| `EmittedDocument.SchemaWellFormed` | src/anolis/provider_sdk/config.cpp:744-760 | The same for the whole root document with its `$schema`, `$id` and overriding texts |
| `EmittedDocument.KeywordsInOrder` | src/anolis/provider_sdk/config.cpp:479-760 | Keywords stand in one fixed order, in the root document and in every schema below it |
| `EmittedTexts.FieldTexts` | src/anolis/provider_sdk/config.cpp:479-617 | Title, description, placeholder and the default of its kind are found in a field's schema with the declared values, and only if declared |
| `EmittedTexts.ArrayTexts` | src/anolis/provider_sdk/config.cpp:619-647 | The same for arrays, which carry no default |
| `EmittedTexts.RootTexts` | src/anolis/provider_sdk/config.cpp:744-760 | The root document names the draft and its id, and carries the schema's own texts where it has them, else the root object's |
| `EmittedTexts.EnvelopeMembers` | src/anolis/provider_sdk/config.cpp:1128-1153 | The envelope holds version 1, the provider's name if it has one, every extra and the schema, and nothing else |
| `Envelope.ConfigSchemaEnvelope` | src/anolis/provider_sdk/config.cpp:1128-1153 | Refuses exactly non-UTF-8, reserved or repeated extra entries, and otherwise prints the envelope tree |
| `Envelope.EnvelopeReadsBack` | src/anolis/provider_sdk/config.cpp:1128-1153 | Any envelope produced is UTF-8, is strict JSON that reads back as its tree, and repeats no key at any depth iff no `When` branch does |
| `Envelope.PrintValid` | src/anolis/provider_sdk/config.cpp:47-141 | A tree of UTF-8 texts prints as UTF-8 at any depth |
| `JsonFacts.SerializeRoundTrip` | src/anolis/provider_sdk/config.cpp:137-141 | A strict RFC 8259 parser, written independently of the printer, inverts it on every tree |
| `JsonFacts.PrintParses` | src/anolis/provider_sdk/config.cpp:87-135 | The same at any nesting depth and whatever text follows |
| `JsonFacts.EscapeParses` | src/anolis/provider_sdk/config.cpp:47-85 | An escaped string, control characters included, parses back to its bytes (section 7 of RFC 8259) |
| `JsonFacts.ArrayLayout` | src/anolis/provider_sdk/config.cpp:118-135 | The layout of an array by an example: two spaces a level, one item a line, empty containers on one line |
| `JsonFacts.ObjectLayout` | src/anolis/provider_sdk/config.cpp:100-117 | The layout of a member by an example |
| `JsonFacts.EscapesExactly` | src/anolis/provider_sdk/config.cpp:47-85 | Which bytes are escaped, and how |
| `JsonWriter.WriteJson` | src/anolis/provider_sdk/config.cpp:87-135 | The string-appending writer appends exactly the printed form |
| `JsonWriter.EscapeJson` | src/anolis/provider_sdk/config.cpp:47-85 | The character loop produces exactly the escaped form |
| `Utf8.ValidIffEncoded` | src/anolis/provider_sdk/config.cpp:160-208 | The table-driven walk accepts a byte string iff it is the concatenated encoding of some sequence of Unicode scalar values |
| `Utf8.EncodeThenDecode` | src/anolis/provider_sdk/config.cpp:160-208 | Encoding any sequence of scalar values is accepted and decodes to that sequence |
| `Utf8.DecodeThenEncode` | src/anolis/provider_sdk/config.cpp:160-208 | Decoding an accepted text and encoding again is the identity |
| `Utf8.CheckUtf8` | src/anolis/provider_sdk/config.cpp:160-208 | The index walk decides well-formedness |
| `Utf8.SequenceLength` | src/anolis/provider_sdk/host_check.cpp:12-46 | The shift-and-mask recogniser returns, at every non-ASCII lead, the length the table-driven walk accepts, or 0 where it rejects |
| `Utf8.RangeChecks` | src/anolis/provider_sdk/host_check.cpp:36-45 | Minimum, maximum and surrogate checks on the code point coincide with the table's second-byte ranges |
| `HostText.JsonString` | src/anolis/provider_sdk/host_check.cpp:51-95 | The loop builds the quoted literal of the specification |
| `HostText.HostStringParses` | src/anolis/provider_sdk/host_check.cpp:51-95 | For every byte string the literal is one RFC 8259 string that denotes the text with each byte starting no valid sequence replaced by U+FFFD |
| `HostText.HostBodyValid` | src/anolis/provider_sdk/host_check.cpp:51-95 | The literal is always valid UTF-8 |
| `HostText.RepairKeepsValidOnly` | src/anolis/provider_sdk/host_check.cpp:51-95 | The repaired text is the input iff the input is valid UTF-8 |
| `HostText.Echo` | src/anolis/provider_sdk/echo_internal.hpp:19-28 | At most 67 bytes, unchanged up to 64, otherwise cut before a continuation run |
| `HostText.EchoOfValidText` | src/anolis/provider_sdk/echo_internal.hpp:19-28 | On valid UTF-8 longer than 64 bytes the cut lies in 61..64 on a character boundary and the echo is valid UTF-8 |
| `Transport.Truncation` | src/anolis/provider_sdk/transport.cpp:22-113 | Any framed payloads cut after any byte: reading yields exactly the payloads wholly before the cut, then a clean end iff the cut is on a frame boundary, else the fault of the part that was cut |
| `Transport.CutExists` | src/anolis/provider_sdk/transport.cpp:22-73 | Every cut has such a count of whole payloads |
| `Transport.ReadAllExact` | src/anolis/provider_sdk/transport.cpp:38-73 | The reader accepts only what the writer writes: every stream starts with the wire form of what it yields, and ends cleanly iff it is that wire form |
| `Transport.ReadExact` | src/anolis/provider_sdk/transport.cpp:22-36 | Fills the caller's buffer segment and nothing else, however the reads are split; fails iff the stream is too short |
| `Transport.ReadFrame` | src/anolis/provider_sdk/transport.cpp:38-73 | Returns the frame p iff the pending bytes are a little-endian |p| within the cap and then p, and moves the stream past it |
| `Transport.WriteFrame` | src/anolis/provider_sdk/transport.cpp:75-113 | The output and result after header, payload and flush, stopping at the first failure; a success adds the little-endian length and the payload |
| `Transport.FrameIffFronts` | src/anolis/provider_sdk/transport.cpp:38-73 | Every outcome of reading a frame, by the little-endian value of the first four bytes, read recursively |
| `Transport.LengthIsLittleEndian` | src/anolis/provider_sdk/transport.cpp:13-18 | The four length bytes have the length as their little-endian value |
| `Transport.PushedWhole` | src/anolis/provider_sdk/transport.cpp:75-113 | Success means one whole frame was added; refusal means nothing was; a stream failure leaves a prefix of the frame |
| `Transport.FatesDecide` | src/anolis/provider_sdk/transport.cpp:95-111 | From a good stream: success iff all three operations are good; a failure with the whole frame already written iff the payload write broke having taken everything, or only the flush failed |
| `Transport.LengthRoundTrip` | src/anolis/provider_sdk/transport.cpp:8-18 | Decoding an encoded little-endian length gives it back |
| `Transport.BytesRoundTrip` | src/anolis/provider_sdk/transport.cpp:8-18 | Encoding a decoded length gives the four bytes back |
| `CallValidation.ValidateCallArgs` | src/anolis/provider_sdk/call_validation.cpp:123-159 | No error iff the arguments conform; otherwise the breach `Reports` singles out, whatever order the map is walked in |
| `CallValidation.ReportUnique` | src/anolis/provider_sdk/call_validation.cpp:123-159 | That breach is unique: the least undeclared name, else the lowest rule broken by the first bad argument in declared order |
| `CallValidation.ReportsIffNot` | src/anolis/provider_sdk/call_validation.cpp:123-159 | There is a breach to report iff the arguments do not conform |
| `CallValidation.CheckBounds` | src/anolis/provider_sdk/call_validation.cpp:71-101 | Rule 4 before rule 5; bounds inclusive; NaN bounds exclude nothing |
| `ArgumentFacts.LetThroughExactly` | src/anolis/provider_sdk/call_validation.cpp:17-120 | Type by type, exactly which values rules 3 to 6 let through |
| `ArgumentFacts.ConformsExactly` | src/anolis/provider_sdk/call_validation.cpp:123-159 | Arguments conform iff each is declared, each required one is there, and each there is let through |
| `ArgumentFacts.CodeTells` | src/anolis/provider_sdk/call_validation.cpp:123-159 | A breach is OUT_OF_RANGE only for a value of the right type, finite, outside its bounds; else INVALID_ARGUMENT |
| `CallValidation.GetterNeedsTag` | src/anolis/provider_sdk/values.hpp:33-67 | A validated argument is readable through its typed getter iff its type has one (bytes do not) and it carries a type tag |
| `CallValidation.UntaggedPasses` | src/anolis/provider_sdk/call_validation.cpp:53-68 | For every checkable type an untagged value passes validation and no getter reads it; with its tag a getter reads it iff the type has one |
| `Handlers.CompareIsOrder` | src/anolis/provider_sdk/handlers.cpp:41-53 | The two-step comparison is the order on total nanoseconds, before the epoch too |
| `Handlers.HandleCall` | src/anolis/provider_sdk/handlers.cpp:317-406 | Events and reply of the whole call path, which `CallDecided` states of the provider and the clock |
| `Handlers.HandleReadSignals` | src/anolis/provider_sdk/handlers.cpp:271-315 | Events and reply of the whole read path |
| `Handlers.HandleHello` | src/anolis/provider_sdk/handlers.cpp:173-196 | One metadata question, then the reply |
| `Handlers.ApplyMinTimestamp` | src/anolis/provider_sdk/handlers.cpp:253-269 | Every value in the response is aged in place |
| `Handlers.AgingOnlyMarksStale` | src/anolis/provider_sdk/handlers.cpp:253-269 | Only an OK value strictly older than the minimum changes, only in its quality, only to STALE |
| `CallPath.CallGated` | src/anolis/provider_sdk/handlers.cpp:317-380 | In every history the provider's call is reached at most once per request, and only with a known device, a resolved function, arguments conforming to the first spec with that id, and a valid deadline strictly after the reading just taken |
| `CallDecision.CallDecided` | src/anolis/provider_sdk/handlers.cpp:317-396 | The provider is called iff the device is named and known, a function named and resolved, the arguments conform to the first function declared with its id, and the deadline is absent or valid and later than the reading; then its answer decides the reply; else the first gate that fails decides the code and nothing is asked after it |
| `CallDecision.ArgumentsDecided` | src/anolis/provider_sdk/handlers.cpp:347-357 | The check of the arguments is that of the first function declared with the id, and its code that of the reported breach |
| `CallPath.CallReplies` | src/anolis/provider_sdk/handlers.cpp:380-406 | A call payload iff the provider succeeded in time; `side_effects=possible` iff it succeeded and the second reading is past the deadline; status OK without a payload iff a failed result carried the OK code |
| `CallPath.PayloadIffOk` | src/anolis/provider_sdk/handlers.cpp:380-406 | If failures never carry the OK code: a call payload iff the status is OK |
| `CallPath.ReadGated` | src/anolis/provider_sdk/handlers.cpp:271-315 | The provider's read is reached at most once, last, only for a known device that declares every requested signal |
| `CallPath.ReadReplies` | src/anolis/provider_sdk/handlers.cpp:271-315 | For every provider: signal values iff read was reached and succeeded, and then all of them, aged; the status OK without values iff a failed result carried the OK code |
| `ReplyFacts.ReadDecided` | src/anolis/provider_sdk/handlers.cpp:271-315 | The provider is read iff the device is named and known and declares every signal asked for; then its answer decides the reply, each value fresh or stale; else the first failure decides the code |
| `CallPath.SignalsIffOk` | src/anolis/provider_sdk/handlers.cpp:300-315 | If failures never carry the OK code: signal values are returned iff the status is OK |
| `CallPath.LiesPassAsOk` | src/anolis/provider_sdk/handlers.cpp:296-396 | A provider whose failures carry the OK code: both paths answer OK without a payload, from any history |
| `CallPath.HelloAccepted` | src/anolis/provider_sdk/handlers.cpp:173-196 | Hello is accepted iff the versions are equal; the provider's extra metadata wins over the fixed keys |
| `ReplyFacts.HelloAnswers` | src/anolis/provider_sdk/handlers.cpp:173-196 | An accepted Hello carries the provider's name and versions, the transport, the cap 1048576, deadline support, and its extras over them; nothing else |
| `ReplyFacts.RepliesSuit` | src/anolis/provider_sdk/runtime.cpp:69-97 | Every reply has its request's id and a payload of its request's kind or none, a payload only with the status OK |
| `ReplyFacts.PlainReplies` | src/anolis/provider_sdk/runtime.cpp:69-97 | Codes, payloads and questions of refused, empty, listing, health and WaitReady requests |
| `ReplyFacts.DescribeDecided` | src/anolis/provider_sdk/handlers.cpp:237-251 | A description succeeds iff the device is named and known |
| `ReplyFacts.ValidYears` | src/anolis/provider_sdk/handlers.cpp:31-40 | A timestamp is valid iff it lies in the years 1 to 9999 of the Gregorian calendar |
| `Runtime.RunLoop` | src/anolis/provider_sdk/runtime.cpp:40-123 | The loop over streams, flags and hooks is the specified run, with shutdown on every exit |
| `Runtime.ServeOne` | src/anolis/provider_sdk/runtime.cpp:60-120 | One pass: start-up if due, dispatch, fallback, write |
| `Runtime.Dispatch` | src/anolis/provider_sdk/runtime.cpp:73-97 | The Hello gate and the dispatch on the request's body |
| `ServingFacts.Lifecycle` | src/anolis/provider_sdk/runtime.cpp:17-97 | Every run: each turn has its shape (only metadata before an accepted Hello; start-up, with its budget, exactly before the first handled request); start-up at most once; the WaitReady hook once per handled WaitReady; shutdown exactly once and last |
| `ServingFacts.HelloFirst` | src/anolis/provider_sdk/runtime.cpp:69-97 | In every run the provider is asked only its metadata until a Hello is accepted, and the first request handled after that starts it up, with its budget, before anything else |
| `RunCalls.EveryTurnKept` | src/anolis/provider_sdk/handlers.cpp:271-380 | Over every whole run, every call and every read the provider receives lies in the turn of a request for it, for its device and arguments or signals, at most once per turn, and from a history in which every gate of that turn was passed; what goes out is the handler's reply wherever it can be framed |
| `ServingFacts.ServeLifecycle` | src/anolis/provider_sdk/runtime.cpp:50-123 | The inductive form, from any point of any run |
| `ServingFacts.HookCounts` | src/anolis/provider_sdk/runtime.cpp:17-97 | Hook counts after any number of turns |
| `Conservation.RequestsAnswered` | src/anolis/provider_sdk/runtime.cpp:51-123 | In every run the frames written decode, in order, to one framable response per parsed request with its id, the handler's own reply wherever that fits a frame; only the last request may lack one, when its write failed, and it lacks one iff that write did not fail after its whole frame; the exit code is 0, 2, 3 or 5 exactly as the input ended or the output broke |
| `Conservation.ServeWhole` | src/anolis/provider_sdk/runtime.cpp:119-122 | At exit 5 the output still holds every turn's frame iff the fates of the last three stream operations say so |
| `Conservation.ServeFollowsInput` | src/anolis/provider_sdk/runtime.cpp:51-123 | Turns follow the frames of the input, for any codec |
| `Conservation.ServeOutput` | src/anolis/provider_sdk/runtime.cpp:100-123 | Whole frames are added to the output, plus at most part of one after a failed write |
| `Conservation.SentFits` | src/anolis/provider_sdk/runtime.cpp:100-118 | Whatever the handler replied, what goes out fits a frame and answers the same request; a reply of over a mebibyte becomes RESOURCE_EXHAUSTED, an unserialisable one INTERNAL, without a payload |
| `Conservation.HealthyOutput` | src/anolis/provider_sdk/runtime.cpp:119-122 | With an output that never fails the loop never exits 5 |
| `Conservation.SoundCodecExists` | src/anolis/provider_sdk/runtime.cpp:100-118 | The assumptions on the codec can be met |
| `I2cBus.LinuxI2cBus.Transact` | src/anolis/provider_sdk/i2c/linux_i2c_bus.cpp:92-108 | At most retry_count + 1 attempts, stopping at the first success or first errno other than EINTR/EAGAIN; attempts stay conserved in the counters |
| `I2cBus.LinuxI2cBus.Write` | src/anolis/provider_sdk/i2c/linux_i2c_bus.cpp:78-115 | Refusals make no attempt; otherwise the retry rule decides status and counters |
| `I2cBus.LinuxI2cBus.WriteThenRead` | src/anolis/provider_sdk/i2c/linux_i2c_bus.cpp:167-219 | The same, with the received bytes and count set only on success |
| `I2cBus.ReportedIsStored` | src/anolis/provider_sdk/i2c/linux_i2c_bus.cpp:186-215 | The count reported by a successful combined read is the number of bytes stored, for every device that sends enough, iff it is below 65536; at 65536 nothing is stored |
| `I2cBus.LinuxI2cBus.Read` | src/anolis/provider_sdk/i2c/linux_i2c_bus.cpp:117-165 | The poll stops at the first success or the first answer at or past the deadline, by the clock after each attempt; within ceil(timeout/200) + 1 attempts |
| `I2cBus.LinuxI2cBus.Poll` | src/anolis/provider_sdk/i2c/linux_i2c_bus.cpp:139-158 | The polling loop follows the rule, and its attempts stay conserved in the counters |
| `I2cBus.PollBounded` | src/anolis/provider_sdk/i2c/linux_i2c_bus.cpp:139-158 | The rule ends the poll within ceil(timeout/200) + 1 attempts, and fails only after the whole window |
| `I2cBus.PollUnique` | src/anolis/provider_sdk/i2c/linux_i2c_bus.cpp:139-158 | The poll rule, the first success or the first answer at or past the deadline, fixes the number of attempts |
| `I2cBus.RetriesUnique` | src/anolis/provider_sdk/i2c/linux_i2c_bus.cpp:92-108 | The retry rule fixes the number of attempts |
| `I2cBus.BookingConserves` | src/anolis/provider_sdk/i2c/io_stats.hpp:49-59 | Booking an operation keeps ok + failed + retried equal to the attempts issued, for every address |
| `I2cBus.CountersCount` | src/anolis/provider_sdk/i2c/io_stats.hpp:49-59 | After any run of operations `ok` and `failed` number those that ended well and those that did not, for every address |
| `I2cBus.IoStatsMap.Record` | src/anolis/provider_sdk/i2c/io_stats.hpp:49-59 | One address changes as specified, the others not at all |
| `FaultInjection.FaultInjectingI2cBus.PreOp` | src/anolis/provider_sdk/i2c/fault_injecting_i2c_bus.cpp:103-135 | The k-th operation's fate depends on k and the phase counts alone, which advance on faulted operations too; faults are booked |
| `FaultSchedule.ScheduleExact` | src/anolis/provider_sdk/i2c/fault_injecting_i2c_bus.cpp:103-135 | The fate and status of every operation of every run, by its own number and by how many operations with a write or a read phase there have been; a pure read is never NAKed, a pure write never fails to read |
| `FaultSchedule.NakClosedForm` | src/anolis/provider_sdk/i2c/fault_injecting_i2c_bus.cpp:122-123 | Without window and timeouts, every run has one NAK in `nak_every` of its write phases |
| `FaultSchedule.ReadFailureClosedForm` | src/anolis/provider_sdk/i2c/fault_injecting_i2c_bus.cpp:124-126 | Without window, timeouts and NAKs, every run has one read failure in `read_fail_every` of its read phases |
| `FaultSchedule.PureRuns` | src/anolis/provider_sdk/i2c/fault_injecting_i2c_bus.cpp:103-135 | Of n writes in a row n / nak_every are NAKed, of n reads n / read_fail_every fail |
| `FaultSchedule.CorruptionFlips` | src/anolis/provider_sdk/i2c/fault_injecting_i2c_bus.cpp:137-145 | Corruption turns over every bit of the first byte and leaves the others |
| `FaultInjection.FaultInjectingI2cBus.Write` | src/anolis/provider_sdk/i2c/fault_injecting_i2c_bus.cpp:161-167 | A faulted write never reaches the inner bus; any other has the inner bus's status, refusals included; the inner bus has received exactly the operations without a fault |
| `FaultInjection.FaultInjectingI2cBus.Read` | src/anolis/provider_sdk/i2c/fault_injecting_i2c_bus.cpp:169-180 | The same for reads, mutated only on success; a call the inner bus refuses keeps its status |
| `FaultInjection.FaultInjectingI2cBus.WriteThenRead` | src/anolis/provider_sdk/i2c/fault_injecting_i2c_bus.cpp:182-193 | The same for combined operations, which count in both phases; refusals keep their status |
| `FaultInjection.FaultInjectingI2cBus.IoStatsFor` | src/anolis/provider_sdk/i2c/fault_injecting_i2c_bus.cpp:96-101 | ok + failed + retried equals the real attempts plus the injected faults, per address |
| `FaultInjection.FaultInjectingI2cBus.MutateRead` | src/anolis/provider_sdk/i2c/fault_injecting_i2c_bus.cpp:137-159 | The in-place edits leave the specified buffer and count |
| `FaultInjection.MutationBounds` | src/anolis/provider_sdk/i2c/fault_injecting_i2c_bus.cpp:137-159 | The count becomes min(received - short + pad, rx_len); nothing past rx_len and no kept byte but the first changes; what is added is the pad byte |
| `FaultInjection.DropoutClosedForm` | src/anolis/provider_sdk/i2c/fault_injecting_i2c_bus.cpp:116-120 | After n operations of any run the dropouts number min(n, A+L) - min(n, A), where L is the configured length, or 0 when A+F wraps in 32 bits |
| `FaultInjection.DropoutExact` | src/anolis/provider_sdk/i2c/fault_injecting_i2c_bus.cpp:116-120 | Every run drops out as configured, min(n, A+F) - min(n, A), iff the window is empty or A+F does not wrap in 32 bits |
| `FaultInjection.WrappedNeverDrops` | src/anolis/provider_sdk/i2c/fault_injecting_i2c_bus.cpp:116-120 | When A+F wraps, no operation is ever dropped |
| `FaultInjection.TimeoutClosedForm` | src/anolis/provider_sdk/i2c/fault_injecting_i2c_bus.cpp:120-122 | In any run the timeouts are the multiples of the period up to n, less those inside the window as it really is |
| `FaultInjection.TimeoutsUnwindowed` | src/anolis/provider_sdk/i2c/fault_injecting_i2c_bus.cpp:120-122 | Without a window, or with one whose end wraps, they number n / period |
| `FaultInjection.FaultsPartition` | src/anolis/provider_sdk/i2c/fault_injecting_i2c_bus.cpp:103-135 | Every operation reaches the inner bus or is one of the four kinds of fault, never both |

## Left out

- Protobuf, yaml-cpp, `std::regex`, `std::format` of doubles and `std::from_chars`: libraries, present as arbitrary functions.
- Error message wording and path strings: an error is its path and the kind of violation, its rule and argument name, or its status code.
- The canonical strings used for uniqueness: kept as a tag with the value, which is what their prefixes distinguish.
- `FaultSpec::parse`, `split_bus_query`, `claims.cpp`, `host_checks.cpp`, logging, version, quality and signal helpers: thin or operating-system effects.
- Health and readiness projections of `handle_wait_ready`, `handle_list_devices` and `handle_get_health`: one event each, payload contents not modelled.
- Mutexes: each counter operation is atomic here. 64-bit counters do not wrap, and `retry_count + 1` does not overflow.
- `max_attempts` on platforms other than Linux, sleeping and injected latency.
- Message texts of replies: the codec may depend on the whole history instead, so it can produce any text.
- The protocol's rule that request ids fit 64 bits is a type; widths of the other integer fields are not modelled, as no arithmetic is done on them.
- AdvertisedValuesPass: that the formatted text of a number default resolves to the same number is not proved, because formatting and parsing doubles are library calls here.
- FieldOkExact: that a Number range is not empty is stated of the reals; whether a double lies between two neighbouring doubles both excluded is not modelled.
- `LinuxI2cBus` is the one inner bus of the decorator; its device is arbitrary, so its operations return any outcome.
