# FlexGet configuration validators

A model of FlexGet's configuration validator library, `flexget/validator.py`. Plugins
describe the configuration they accept as a tree of validators:
- `root` holds alternatives.
- `choice`, `any`, `equals`, `number`, `integer`, `decimal`, `boolean`, `text`, `regexp`,
  `regexp_match`, `interval` and `url` are scalar checks.
- `list` holds alternatives for its elements.
- `dict` holds:
  - rules per explicit key;
  - rejected keys;
  - required keys;
  - key rules, pairing a validator for keys with one for their values;
  - catch-all rules.

Validating a document walks the tree:
- It appends human-readable messages, each anchored to a `/`-separated path such as
  `[/dict:series/list:0] value 3 is not valid text`, to one shared error collector.
- It returns whether the document passed.

`validate_item` tries the alternatives in order. The first one that applies and passes wins,
and the messages of the alternatives that failed are backed out. Each tree also exports a
JSON Schema document.

## Structure

- `values.dfy`: configuration data (`Value`).
  - Python 2's notions: `int` versus `long`, and `bool` as an `int`.
  - Text rendering, ASCII lower-casing, sorting.
  - `string.Template.safe_substitute` for the `$key` placeholder.
  - Regular-expression matching and compiling, and `str()` of lists and mappings, come in
    as an `Oracle` parameter.
- `diagnostics.dfy`: the `Errors` collector, as a class with its `messages`, `path` and
  `path_level` fields.
- `rules.dfy`:
  - The validator tree as a datatype (`Rule`, `Kind`).
  - `factory`.
  - The operations that configure a node (`accept`, `reject`, `reject_key`, `require_key`,
    `accept_any_key`, `accept_valid_keys`, ...), as functions returning the updated node or
    the error the source raises.
- `semantics.dfy`: `Eval`, the messages and verdict of `validate` on any node, as a pure
  function.
- `engine.dfy`: `validate` and `validate_item` as imperative methods over one `Errors`
  collector. Each is proved to append exactly `Eval`'s messages, return `Eval`'s verdict and
  restore the path.
- `properties.dfy`, `scalars.dfy`, `precedence.dfy`: what `Eval` promises.
  - Selection among alternatives.
  - When a list or mapping passes.
  - What each scalar check accepts and logs.
  - Which rules govern a mapping key.
- `schema.dfy`:
  - `schema()`, `any_schema`, and a reading of the JSON Schema keywords they emit.
  - For trees of `root`, `list`, `text`, `boolean` and `any` nodes, the schema holds
    exactly for the documents validation passes.
  - The schema as written, which raises on dict nodes with accepted keys, and corrected (see Findings).

## Model

| member | source | states |
|---|---|---|
| Diagnostics.Errors.constructor | flexget/validator.py:11-14 | a new collector has no messages, an empty path and no open level |
| Diagnostics.Errors.Count | flexget/validator.py:16-18 | the number of messages logged so far |
| Diagnostics.Errors.Add | flexget/validator.py:20-24 | appends exactly one message, `[/<path joined by '/'>] msg`, and changes nothing else |
| Diagnostics.Errors.BackOutErrors | flexget/validator.py:26-29 | removes the last `num` messages (all of them when fewer exist), and nothing when `num <= 0` |
| Diagnostics.Errors.PathAddLevel | flexget/validator.py:31-34 | pushes a path segment, points the level marker at it and restores the collector invariant |
| Diagnostics.Errors.PathRemoveLevel | flexget/validator.py:36-41 | raises when no level was ever opened, and IndexError on an empty path; otherwise drops the last segment, steps the level marker back by one (to `-1` after the last level) and keeps the invariant |
| Diagnostics.Errors.PathUpdateValue | flexget/validator.py:43-47 | raises when no level was ever opened, and IndexError on an empty path; otherwise replaces the last segment only |
| Diagnostics.PyIndex | flexget/validator.py:39-47 | Python's indexing: a position is valid iff it is in `-n .. n-1`; a negative position `i` names element `i + n`, any other names element `i` |
| Rules.Factory | flexget/validator.py:53-58 | an unknown name raises "Asked unknown validator"; a known name gives a node of that kind carrying the message, fresh (`Rules.Fresh`): no alternatives, choices, patterns, rejections, keys, key rules or catch-all rules; url with the default protocols; equals comparing with `[]`; `interval` with its one pattern and its own message |
| Rules.UrlNode | flexget/validator.py:515-520 | a url node has the given protocols, or the default four when none are given |
| Rules.IndexOfKey | flexget/validator.py:653-654 | finds the first occurrence of a key, and none iff the key is absent |
| Rules.IndexOfKeyIsFirst | flexget/validator.py:653-654 | the first position holding the key is the one found |
| Rules.AcceptAlternative | flexget/validator.py:188-191 | `accept` on a root or list node appends exactly one alternative |
| Rules.AcceptChoice | flexget/validator.py:210-220 | non-scalar values raise; a text accepted ignoring case is stored lower-cased among the case-insensitive choices; anything else is stored as is |
| Rules.AcceptChoices | flexget/validator.py:222-225 | succeeds iff every value is scalar; then appends, in order, the values stored as they are to the choices and, when case is ignored, the lower-cased texts to the case-insensitive choices (all values to the choices otherwise) |
| Rules.AcceptEquals | flexget/validator.py:263-264 | the node now compares with the given value |
| Rules.AcceptPattern | flexget/validator.py:404-413 | an uncompilable pattern raises ValueError; otherwise the pattern is appended, and a non-empty message replaces the node's |
| Rules.RejectPattern | flexget/validator.py:415-416 | an uncompilable pattern raises ValueError; otherwise it is appended to the reject patterns |
| Rules.AddKeyRule | flexget/validator.py:587 | `valid.setdefault(key, []).append(v)`: the key's rules gain `v` at the end, other keys keep theirs, keys stay unique |
| Rules.RequireKey | flexget/validator.py:601-604 | adds the key once; an already required key leaves the list unchanged and no duplicates arise |
| Rules.AcceptKey | flexget/validator.py:575-589 | a missing or empty key raises ValueError; otherwise the key's rules gain the validator and, when asked, the key becomes required; every other key keeps its rules, and the set of explicit keys grows by this key only |
| Rules.SetRejection | flexget/validator.py:592-593 | after `reject[key] = message` the key is rejected with that message and every other key keeps its rejection |
| Rules.RejectKey | flexget/validator.py:592-593 | only the rejections change |
| Rules.RejectKeys | flexget/validator.py:596-599 | every listed key becomes rejected with the given message, no other key becomes rejected, earlier rejections of unlisted keys are kept, and explicit keys, key rules, catch-all rules and required keys are unchanged |
| Rules.RequireDictKey | flexget/validator.py:601-604 | only the required keys change |
| Rules.AcceptAnyKey | flexget/validator.py:606-609 | appends one catch-all rule |
| Rules.FactoryAll | flexget/validator.py:627-630 | builds one node per name, in order, each exactly the node `factory(name)` builds, and fails iff some name cannot be built |
| Rules.RootOfNames | flexget/validator.py:625-630 | the root made from `key_type` has no message and holds, in order, exactly the nodes `factory` builds for the names |
| Rules.AcceptValidKeys | flexget/validator.py:612-637 | both selectors, or neither, raise ValueError; a key validator alone always succeeds; key types alone succeed iff every name can be built; on success one key-rule pair is appended, with the given key validator or exactly the root built from the key types, and nothing else changes |
| Values.NatToString | flexget/validator.py:554 | decimal digits without a leading zero |
| Values.NatToStringValue | flexget/validator.py:554 | the digits written denote the number (`Values.DigitsValue`) |
| Values.JoinSnoc | flexget/validator.py:169 | `sep.join` of one more string appends the separator and that string |
| Values.ShowAll | flexget/validator.py:236 | `unicode(value)` of every choice, in order |
| Values.Lower | flexget/validator.py:218 | lower-casing keeps the length and maps every character |
| Values.LowerIdempotent | flexget/validator.py:233 | lower-casing twice is lower-casing once, so a stored lower-cased choice matches its own spelling |
| Values.SortStrings | flexget/validator.py:236 | `sorted(...)`: a sorted permutation of its input |
| Values.IdentLength | flexget/validator.py:659 | the length of the identifier at the head of a text |
| Values.SafeSubstitutePlain | flexget/validator.py:658-659 | text without `$` passes through `safe_substitute` unchanged |
| Values.SafeSubstituteBraced | flexget/validator.py:658-659 | `${key}` is replaced by the key |
| Values.SafeSubstituteNamed | flexget/validator.py:658-659 | `$key` not followed by an identifier character is replaced by the key |
| Semantics.AnyMatch | flexget/validator.py:428-434 | some pattern of the list matches the text |
| Semantics.LeafCheck | flexget/validator.py:230-442 | a passing scalar check has no complaint; a failing one other than `equals` has one |
| Semantics.FirstIndex | flexget/validator.py:554 | `data.index(item)`: the first position holding an element equal to the item |
| Semantics.CustomMsgs | flexget/validator.py:160-162 | no custom message iff no candidate carries a non-empty message |
| Semantics.Mismatch | flexget/validator.py:164-176 | the generic mismatch is always exactly two messages |
| Semantics.Fallback | flexget/validator.py:158-177 | a selection where no candidate applied logs at least one message |
| Semantics.RequiredMsgs | flexget/validator.py:691-693 | no "required" message iff every required key is present |
| Semantics.Eval | flexget/validator.py:138-140 | a node that passes leaves no message behind |
| Semantics.SelectItem | flexget/validator.py:146-177 | `validate_item` leaves no message when it passes and at least one when it fails |
| Semantics.ChooseRules | flexget/validator.py:663-681 | the rules chosen for a key are smaller than the node, and a key that found rules keeps no key-rule message |
| Semantics.KeySearch | flexget/validator.py:669-675 | the key rule found is among those looked at |
| Semantics.TryAllStable | flexget/validator.py:151-154 | once a candidate accepted, later candidates are not looked at |
| Semantics.KeySearchStable | flexget/validator.py:670-675 | once a key rule accepted the key, the loop stops |
| Engine.Validate | flexget/validator.py:138-140 | appends exactly `Eval`'s messages, returns its verdict and restores the path and level invariant |
| Engine.ValidateLeaf | flexget/validator.py:230-442 | the scalar checks log their one complaint, or nothing |
| Engine.ValidateItem | flexget/validator.py:146-177 | `validate_item` appends exactly `SelectItem`'s messages and returns its verdict |
| Engine.TryCandidate | flexget/validator.py:154-158 | one candidate: skipped when it does not apply, else validated; the log and verdict advance by exactly one step of `TryAll` |
| Engine.TryCandidates | flexget/validator.py:149-156 | on success the log is back to its count before the loop; on failure it holds the failed candidates' messages |
| Engine.ReportNoMatch | flexget/validator.py:158-177 | appends the fallback messages |
| Engine.AddCustomMessages | flexget/validator.py:160-162 | appends one message per candidate with a message |
| Engine.AddMismatch | flexget/validator.py:163-176 | appends the two generic mismatch messages |
| Engine.ValidateList | flexget/validator.py:547-557 | appends exactly `Eval`'s messages for a list node, returns true iff none was added, and restores the path |
| Engine.ValidateElements | flexget/validator.py:550-555 | the element loop appends the messages of every element in order |
| Engine.ValidateElement | flexget/validator.py:552-554 | one element is validated under the label of its first equal element |
| Engine.ValidateDict | flexget/validator.py:643-694 | appends exactly `Eval`'s messages for a dict node, returns true iff none was added, and restores the path |
| Engine.ValidateMapping | flexget/validator.py:648-694 | entry messages, then missing-key messages; passes iff there are none |
| Engine.ValidateEntries | flexget/validator.py:649-690 | the entry loop appends the messages of every entry in order |
| Engine.ValidateEntryAt | flexget/validator.py:650-689 | one entry is validated under its `dict:<key>` label |
| Engine.ReportMissingKeys | flexget/validator.py:691-693 | appends one "key '<k>' required" per missing required key |
| Engine.ValidateEntry | flexget/validator.py:651-689 | a rejected key gets its rejection message; other keys go through rule selection |
| Engine.ValidateAcceptedEntry | flexget/validator.py:663-689 | a non-rejected key is validated by its chosen rules or reported not recognized |
| Engine.ChooseKeyRules | flexget/validator.py:663-681 | the rules chosen by precedence, and the key-rule messages left behind |
| Engine.TryKeyRule | flexget/validator.py:670-675 | one key rule: skipped when it does not apply to the key, else validated against the key; the log and result advance by one step of `KeySearch` |
| Engine.SearchKeyRules | flexget/validator.py:669-675 | the first key rule accepting the key, with the messages of those that rejected it |
| Properties.TryAllPasses | flexget/validator.py:149-156 | the candidate loop succeeds iff some candidate looked at applies and passes |
| Properties.SelectItemPasses | flexget/validator.py:146-177 | `validate_item` is true iff some candidate applies and passes, with failed candidates' messages fully rolled back |
| Properties.TryAllSkips | flexget/validator.py:152-155 | candidates that do not apply, or apply but fail without logging (`equals`), leave no trace |
| Properties.SelectItemNoneApplicable | flexget/validator.py:158-176 | when nothing applies, or what applies fails silently: the candidates' custom messages if any, else the generic pair |
| Properties.EnglishListForm | flexget/validator.py:167-169 | the acceptable kinds as an English list: the names separated by commas, with "or" before the last |
| Properties.CustomMsgsFromCandidates | flexget/validator.py:160-162 | each custom message comes from a candidate that has one, at most one per candidate |
| Properties.CustomMsgsExact | flexget/validator.py:160-162 | the custom messages are exactly one per candidate with a non-empty message, in candidate order |
| Properties.RootAcceptMonotone | flexget/validator.py:188-197 | adding an alternative to a root never rejects data it accepted |
| Properties.ListMsgsStep | flexget/validator.py:552-554 | one more element keeps the log empty iff it was empty and the element passes |
| Properties.PrefixPassesAll | flexget/validator.py:551-554 | the elements so far pass one by one iff each passes |
| Properties.ListMsgsEmpty | flexget/validator.py:550-557 | the element loop logs nothing iff every element so far passes |
| Properties.ListPasses | flexget/validator.py:547-557 | a list node passes exactly the lists whose every element passes one of its alternatives |
| Properties.TextListExample | flexget/validator.py:547-557 | `['a', 2, 'b']` against a list of text fails with two messages, both at `list:1` |
| Properties.TextListMessages | flexget/validator.py:550-555 | for `['a', 2, 'b']` only the element `2` logs, under `list:1` |
| Properties.SecondLabel | flexget/validator.py:554 | an element differing from the first one is labelled `list:1` |
| Properties.TextPassesText | flexget/validator.py:146-156 | a text passes a lone `text` candidate with no message |
| Properties.ListLabelSharedByEqualItems | flexget/validator.py:554 | equal elements share one path label |
| Properties.ListLabelOfFirstOccurrence | flexget/validator.py:554 | an element with no equal element before it is labelled by its own position |
| Properties.EntriesMsgsEmpty | flexget/validator.py:649-689 | the entry loop logs nothing iff every entry leaves no message |
| Properties.DictPasses | flexget/validator.py:643-694 | a dict node passes exactly the mappings whose every entry leaves no message and which hold every required key |
| Properties.KeysOfSameEntries | flexget/validator.py:691-692 | the same entries in any order hold the same keys |
| Properties.DictOrderIrrelevant | flexget/validator.py:649-694 | whether a mapping passes does not depend on the iteration order of its entries |
| Scalars.PassIffSilent | flexget/validator.py:138-140 | every node except `equals` passes iff it logs nothing |
| Scalars.LeafMessages | flexget/validator.py:230-442 | a failing scalar check logs exactly one message at the current path; `equals` logs nothing |
| Scalars.PassImpliesValidateable | flexget/validator.py:227-442 | a scalar check passes only data it declares itself applicable to |
| Scalars.EqualsPasses | flexget/validator.py:263-270 | after `accept(v)` an equals node passes exactly the data equal to `v` and logs nothing |
| Scalars.EqualsDefaultPassesInapplicable | flexget/validator.py:84-85 | an `equals` node nobody called `accept` on passes `[]`, which it declares inapplicable |
| Scalars.TypeCheckPasses | flexget/validator.py:282-366 | number, integer, decimal, boolean and text pass exactly what they apply to, else log "value <data> is not valid <type>" |
| Scalars.RegexpPasses | flexget/validator.py:381-390 | `regexp` passes exactly the texts that compile, with its two messages |
| Scalars.UrlPasses | flexget/validator.py:522-530 | `url` passes exactly the texts its pattern matches, with its two messages |
| Scalars.ChoicePasses | flexget/validator.py:230-238 | a choice passes iff the data is a choice, or a text whose lower-case form is a case-insensitive one; else one complaint |
| Scalars.AcceptChoiceThenValidate | flexget/validator.py:210-238 | an accepted value then passes, as do its other spellings when accepted ignoring case; nothing that passed is lost |
| Scalars.AcceptFooIgnoringCase | flexget/validator.py:217-218 | accepting `Foo` ignoring case stores `foo` |
| Scalars.ChoiceIgnoreCasePasses | flexget/validator.py:230-234 | that node passes `foo` and `FOO` |
| Scalars.ChoiceIgnoreCaseRejects | flexget/validator.py:235-238 | that node rejects `Foo ` with one complaint listing `foo` |
| Scalars.RegexpMatchPasses | flexget/validator.py:421-436 | passes iff text, no reject pattern matches and some accept pattern matches: a reject wins |
| Scalars.RegexpMatchMessage | flexget/validator.py:421-436 | a failure logs exactly one message: "Value should be text", the node's message, or "<text> does not match regexp" |
| Scalars.AcceptRejectPattern | flexget/validator.py:410-436 | after `accept(p)` a text `p` matches passes unless rejected; after `reject(p)` it fails |
| Scalars.IntervalFactory | flexget/validator.py:445-451 | `interval` passes exactly what its one pattern matches, and logs its fixed message otherwise |
| Precedence.KeySearchFinds | flexget/validator.py:669-675 | the key-rule loop stops at the first key rule accepting the key, and finds none only when none accepts |
| Precedence.RejectedEntry | flexget/validator.py:653-662 | a rejected key gets one message, the same for every value |
| Precedence.ExplicitEntry | flexget/validator.py:665-667 | a key with rules of its own is judged by them alone; key rules and catch-all rules do not matter |
| Precedence.KeyRuleEntry | flexget/validator.py:668-681 | otherwise the first accepting key rule's value rule judges it, rejecting key rules' messages are backed out, and catch-all rules do not matter |
| Precedence.KeySearchSameWithoutCatchAll | flexget/validator.py:670-675 | the key-rule loop does not look at the catch-all rules |
| Precedence.CatchAllEntry | flexget/validator.py:676-681 | otherwise the catch-all rules judge the key, and key-rule messages are backed out |
| Precedence.UnrecognizedEntry | flexget/validator.py:682-688 | otherwise the key is "not recognized", after the key rules' messages |
| Precedence.ForbiddenKeyFails | flexget/validator.py:653-662 | a mapping holding a rejected key fails |
| Precedence.MissingRequiredFails | flexget/validator.py:691-694 | a mapping lacking a required key fails |
| Precedence.AcceptKeyGoverns | flexget/validator.py:575-589 | after `accept(v, key=k)` the key is judged by its rules including `v`; with `required` a mapping without it fails |
| Precedence.RejectKeyForbids | flexget/validator.py:592-593 | after `reject_key(k, m)` the key gets exactly the message built from `m` |
| Precedence.KeyTypeGoverns | flexget/validator.py:628-637 | after `accept_valid_keys(v, key_type=names)` the key predicate is a root of the `factory(name)` nodes in order, and it passes exactly the keys that one of them applies to and passes |
| Precedence.AcceptAnyKeyGoverns | flexget/validator.py:606-609 | after `accept_any_key(v)` a key nothing more specific covers is judged by the catch-all rules including `v` |
| Precedence.RejectTemplate | flexget/validator.py:658-659 | in a rejection message `${key}` stands for the key |
| Schema.AnySchemaMeaning | flexget/validator.py:60-68 | `any_schema` holds exactly where one of the given schemas holds |
| Schema.Schema | flexget/validator.py:199-200 | every validator's schema is a JSON object |
| Schema.Schemas | flexget/validator.py:199 | one schema per validator, each a JSON object |
| Schema.SchemasElem | flexget/validator.py:199 | the i-th schema is the i-th validator's |
| Schema.PropertiesAsWritten | flexget/validator.py:698-702 | as written, the properties loop never yields a property |
| Schema.PropertiesAsWrittenRaises | flexget/validator.py:698-702 | as written, the loop raises iff some key has validators |
| Schema.SchemaAsWrittenRaises | flexget/validator.py:199-200 | as written, `schema()` raises iff it reaches, through root and list alternatives and catch-all rules, a dict node with a key that has validators; otherwise it equals the corrected schema |
| Schema.SchemasAsWrittenRaises | flexget/validator.py:706 | as written, `[v.schema() for v in ...]` raises iff one of the validators' schemas does, and otherwise gives the corrected schemas |
| Schema.DictSchemaAsWrittenExample | flexget/validator.py:702 | `factory('dict')`, then `accept('text', key='a')`: `schema()` raises |
| Schema.NestedSchemaAsWrittenExample | flexget/validator.py:706 | that node as the catch-all rule of an empty dict node: the outer `schema()` raises too |
| Schema.PropertiesOfKeys | flexget/validator.py:698-702 | corrected: each key with validators has the property `any_schema` of their schemas, and there are no others |
| Schema.DictSchemaDemands | flexget/validator.py:696-712 | a document satisfying a dict schema is an object with every required key, and only keys with rules when there is no catch-all |
| Schema.DictSchemaHolds | flexget/validator.py:703-709 | the same, for the schema built from properties, extra-key schema and required keys |
| Schema.RequiredHolds | flexget/validator.py:703-704 | the `required` keyword demands every listed key |
| Schema.ClosedObjectHolds | flexget/validator.py:708-709 | `additionalProperties: false` admits only declared properties |
| Schema.DeclaredOnlyProperties | flexget/validator.py:697-709 | a dict schema declares exactly its `properties` |
| Schema.NothingDeclared | flexget/validator.py:703-709 | fields other than `properties` declare nothing |
| Schema.PatternSchemaMeaning | flexget/validator.py:438-442 | a `regexp_match` schema holds exactly for the texts some accept pattern occurs in and no reject pattern occurs in |
| Schema.AcceptPartMeaning | flexget/validator.py:439 | the accept part holds for the texts some accept pattern occurs in |
| Schema.RejectPartMeaning | flexget/validator.py:441 | the reject part holds for a text iff some reject pattern occurs in it |
| Schema.TypeSchemaMeaning | flexget/validator.py:349-369 | a `type` schema holds exactly for documents of that type |
| Schema.SchemaAgrees | flexget/validator.py:146-200 | for trees of root, list, text, boolean and any nodes, the schema holds exactly for the data validation passes |
| Schema.LeafAgrees | flexget/validator.py:244-369 | the same for text, boolean and any nodes |
| Schema.RootAgrees | flexget/validator.py:193-200 | the same for root nodes |
| Schema.ArraySchemaMeaning | flexget/validator.py:559-560 | an array schema holds exactly for arrays whose every item the item schema holds for |
| Schema.ListAgrees | flexget/validator.py:547-560 | the same for list nodes |
| Schema.AlternativesAgree | flexget/validator.py:146-177 | `validate_item` over such alternatives passes exactly what their `any_schema` holds for |
| Schema.PlainPassImpliesValidateable | flexget/validator.py:193-366 | such nodes pass only data they apply to |
| Schema.NumberSchemaRejectsBooleans | flexget/validator.py:282-292 | a `number` node passes booleans, but its schema does not hold for JSON booleans |
| Schema.ChoiceSchemaIsCaseSensitive | flexget/validator.py:230-241 | a choice accepted ignoring case passes `FOO`, but its `enum` schema does not |

## Left out

- The `file`, `path`, `quality` and `quality_requirements` validators depend on the filesystem and on the quality parser. `factory` reports them as not modelled.
- The base `validator` kind is not modelled either: its `accept`, `validateable`, `validate` and `schema` only raise NotImplementedError (flexget/validator.py:131-144). `factory` reports it as not modelled, as it does for the four kinds above (`Rules.Unmodelled`).
- `LazyValidator` and the callable branch of `get_validator` are not modelled. Children are node values built beforehand, so self-referential trees cannot be expressed.
- The metaclass registry is a fixed table of names (`Rules.Registry`).
- The `parent` back-references and the `errors` property that climbs them are not modelled. So are `add_parent` and `add_root_parent`. The one shared collector is passed explicitly to every method.
- `accept` on `any`, `number`, `integer`, `decimal`, `boolean`, `text`, `regexp` and `url` changes nothing that `validate` or `schema` reads, so it has no member.
- Node operations work on values. Configuring a node that is already a child of another does not affect the parent, whereas in the source both share the object. For the same reason `accept_choices` that stops at a non-scalar value discards the values it accepted before it, whereas the source has already appended them to the node when the exception is raised (flexget/validator.py:222-225).
- Regular-expression compiling and matching, and `unicode()`/`str()` of lists and mappings, are parameters (`Oracle`). The JSON Schema checks `pattern` (an unanchored search) and `format` are parameters (`Checker`). The model states nothing about how these relate.
- Floats are kept as their text. Python's equality across types (`1 == 1.0`, `True == 1`) is not modelled: `choice` and `equals` compare values structurally, and so does the search for a list element's label (`data.index`). For `[1, True]` Python labels the second element `list:0`; the model labels it `list:1`. Mappings inside data are compared as ordered entry lists, whereas Python's dict equality ignores order: `{'a': 1, 'b': 2}` and `{'b': 2, 'a': 1}` are different in the model. So an `equals` node whose value is a mapping rejects the same mapping with its entries reordered, and in a list holding both mappings the model labels the second `list:1` where Python labels it `list:0`.
- Lower-casing covers ASCII letters only.
- Mapping keys in validated data are text, and a mapping's entries come in a given order. `Properties.DictOrderIrrelevant` shows the verdict does not depend on that order.
- The dict schema leaves out rejected keys and key rules, as the source's own TODO says.
- `__str__` is not modelled.
- Diagnostics.Errors.PathRemoveLevel: specified only in states where the level marker names the last path segment. No call sequence of the validators leaves any other state.
- Diagnostics.Errors.PathUpdateValue: specified under the same precondition.
- Schema.SchemaAgrees: covers root, list, text, boolean and any nodes only. For the other kinds the schema and validation differ, as `Schema.NumberSchemaRejectsBooleans` and `Schema.ChoiceSchemaIsCaseSensitive` show. They also differ on integers beyond 64 bits, and on `regexp_match`, which validates with an anchored match but exports an unanchored `pattern`.

Behaviours of the code worth knowing:
- A fresh `equals` node compares with the `[]` its base class starts with. It passes `[]` although it declares itself inapplicable to lists (`Scalars.EqualsDefaultPassesInapplicable`). So "validate true implies validateable" does not hold for it.
- Validating `['a', 2, 'b']` against a list of text gives two messages, both at `list:1` (`Properties.TextListExample`).
- A dict node's `schema()` fails once a key has been accepted, and so does the schema of every tree that reaches such a node (see Findings).

## Findings

| source | as written | input that shows it | evidently intended | confidence | as-written member | corrected member |
|---|---|---|---|---|---|---|
| flexget/validator.py:702 | `properties[key] = any_schema(v for v in validators)` hands `any_schema` a generator, whose `len()` raises `TypeError`; every tree whose `schema()` reaches such a dict node raises with it (`Schema.SchemaAsWrittenRaises`) | `factory('dict')`, then `accept('text', key='a')`, then `schema()` | `any_schema([v.schema() for v in validators])`: the property is the `any_schema` of the key's validators' schemas | high (not executed) | Schema.DictSchemaAsWrittenExample | Schema.PropertiesOfKeys |
