# cim-subject in Dafny

A model of the core of `cim-subject`, a Rust crate for NATS-style
subjects of the form `context.aggregate.event_type.version`. The model covers:

- Subjects. Parsing, printing, derived copies and the subject builder (`Subjects`).
- Patterns. `*` (one token) and `>` (the rest, at least one token), with pattern
  matching and the specificity order between patterns (`Patterns`).
- The subject algebra. Sequence, parallel, choice, transform, project and
  inject composition, pattern search and the specificity lattice (`Algebra`).
- Permissions. The most-specific-rule decision, filtering, merging, intersection
  and the permissions builder (`Permissions`).
- Translators. Rule-based translation in both directions, bidirectional
  translators and the translator builder (`Translators`).
- The custom subject parser. Per-context parse rules, validators, the standard
  rules, the flexible context rule and the parser builder (`Parser`).
- Message identities. Message, correlation and causation ids, the message
  factories and the correlation validator (`Correlation`).
- Correlation chains. Adding messages, walking to the root, cycle detection,
  depth, merging, common ancestors and distance (`MessageAlgebra`).

Supporting modules:

- `Results` holds `Option`, `Result` and the variants of `SubjectError` and
  `CorrelationError`.
- `Text` holds Rust's `split`, `join` and the token character class.
- `Seqs` holds filtering, reversal and last-wins map building.

Each Rust closure (composers, transformations, translation and parser
functions, validators) becomes a function-typed field. Each hash-map
iteration the result depends on takes an explicit `order` parameter. A
`Enumerates(order, keys)` precondition requires `order` to list those keys
without repeats. Every claim is proved for every order, unless a lemma is
about one order in particular.

Where the crate's documentation and its code disagree, the model follows the
code:

- A deny rule does not override an allow rule. The most specific matching rule
  decides, and among equally specific rules the earliest one decides.
- Parallel composition is not commutative: `a+b` differs from `b+a`
  (`Algebra.ParallelOrderSensitive`).
- `SubjectLattice::join` is not a least upper bound. It is the first common
  strict ancestor in list order, so `join(a, a)` is never `a`
  (`Algebra.LatticeJoinNotIdempotent`). The ordering it uses is not
  antisymmetric either (`Algebra.OrderingNotAntisymmetric`).
- `Translator::reverse_translate` consults a `reverse_cache` that nothing
  ever writes to. The cache branch is dead and is not modelled.
- `SubjectParser::parse` checks for an empty list of pieces, but `split`
  never returns one, so that branch is dead too.
- `add_message` reports a missing parent as `InvalidIdentity`, not as
  `MissingCausation`.
- `merge_chains` depends on the iteration order of the second chain's map. A
  grandchild met before its parent is refused (`MessageAlgebra.MergeOrderMatters`).

## Model

| member | source | states |
|---|---|---|
| Text.SplitAtSep | src/subject.rs:175 | splitting two texts joined by a '.' gives the pieces of the first followed by the pieces of the second |
| Text.Split | src/subject.rs:175 | `str::split('.')` always yields at least one piece, no piece contains the separator, and joining the pieces with it gives back the input |
| Subjects.ParseParts | src/subject.rs:174-201 | a successful parse yields four valid tokens that print back to exactly the input; every failure is `InvalidFormat` |
| Subjects.ParsePartsSucceedsIff | src/subject.rs:174-201 | parsing succeeds exactly when the text splits into four pieces that are all non-empty runs of token characters |
| Subjects.ParseToSubject | src/subject.rs:174-206 | for valid parts, parsing the printed subject gives back the same parts (parse after print is the identity) |
| Subjects.ParsePrintedOnlyValid | src/subject.rs:174-206 | if a printed subject parses, its parts were valid tokens: parsing never accepts text from invalid parts |
| Subjects.ParsePartsAcceptsPrinted | src/subject.rs:174-206 | the accepted strings are exactly the printings of valid parts |
| Subjects.ToSubjectIsJoin | src/subject.rs:204-206 | printing parts joins the four fields with dots |
| Subjects.ToSubject | src/subject.rs:204-206 | `to_subject` prints the four fields joined by dots; `Subjects.ToSubjectIsJoin`, `Subjects.PrintedPiecesExact` and `Subjects.ParseToSubject` state that splitting the printing on dots gives back the fields and that parsing it gives back valid parts |
| Subjects.NewSubject | src/subject.rs:35-39 | `Subject::new` succeeds exactly when the parts parse; it keeps the text verbatim and its fields are the dot-separated pieces |
| Subjects.FromParts | src/subject.rs:42-45 | `from_parts` keeps the parts, and its printed text re-parses exactly when the parts are valid |
| Subjects.NewSubjectIsFromParts | src/subject.rs:35-45 | a parsed subject equals the subject rebuilt from its own parts |
| Subjects.FromPartsReparses | src/subject.rs:35-45 | a subject built from valid parts is exactly what parsing its text returns |
| Subjects.AccessorsReadPieces | src/subject.rs:62-80 | the accessors `context`, `aggregate`, `event_type` and `version` (`Subjects.Subject.Context` and the other three) of a parsed subject return its first, second, third and fourth dot-separated pieces |
| Subjects.WithEventType | src/subject.rs:84-89 | only the event type changes; with a valid subject and token the result is a parseable subject |
| Subjects.WithVersion | src/subject.rs:92-97 | only the version changes; with a valid subject and token the result is a parseable subject |
| Subjects.Build | src/subject.rs:271-290 | the builder fails with `ValidationError` exactly when a component is missing; otherwise it assembles the four components without validating them |
| Subjects.BuildComplete | src/subject.rs:329-340 | setting all four components builds the subject whose text is their dotted concatenation |
| Patterns.CompileTokenOk | src/pattern.rs:56-82 | a piece compiles exactly when it is `*`, a trailing `>` or a non-empty literal of token characters, and the token prints back as the piece |
| Patterns.CompilePieces | src/pattern.rs:53-84 | the piece loop succeeds exactly when every piece compiles at its position; it yields one token per piece, and failures are `InvalidPattern` |
| Patterns.ParseTokens | src/pattern.rs:46-85 | parsed tokens are well formed (`>` only last), one per piece, and render back to the input |
| Patterns.ParseTokensSucceedsIff | src/pattern.rs:46-85 | token parsing succeeds exactly for non-empty patterns whose every piece compiles at its position |
| Patterns.ParseRender | src/pattern.rs:46-85 | parsing the rendering of well-formed tokens gives back the tokens |
| Patterns.NewPattern | src/pattern.rs:39-43 | a compiled pattern keeps its text and holds well-formed tokens that render back to it; failures are `InvalidPattern` |
| Patterns.MatchFrom | src/pattern.rs:98-125 | the token-by-token matching loop agrees with the declarative match (token-wise agreement up to a `>` that has at least one piece to absorb, or equal lengths without one) |
| Patterns.MatchesParts | src/pattern.rs:97-125 | a piece sequence matches exactly when the declarative match holds (`Patterns.MatchSpec`: token-wise agreement up to a `>` with at least one piece left, or equal lengths without one) |
| Patterns.MatchesStr | src/pattern.rs:91-94 | a text matches exactly when the declarative match holds for its dot-separated pieces |
| Patterns.Matches | src/pattern.rs:86-89 | a subject matches exactly when the declarative match holds for the pieces of its raw text |
| Patterns.LiteralMatchesExactly | src/pattern.rs:98-125 | an all-literal pattern matches exactly the subject whose pieces are its literals |
| Patterns.NoMultiMatches | src/pattern.rs:98-125 | without `>`, a match needs equal length and a token-wise match |
| Patterns.SingleWildcardAnyPiece | src/pattern.rs:98-125 | the piece under a `*` can be replaced by any text without changing the outcome |
| Patterns.TrailingMultiMatches | src/pattern.rs:98-125 | a trailing `>` matches exactly the subjects with at least one more piece whose prefix matches |
| Patterns.MultiNeedsOnePiece | src/pattern.rs:98-125 | `a.>` does not match `a`: `>` needs at least one piece |
| Patterns.FirstWildcard | src/pattern.rs:162-169 | the position of the first wildcard, or none exactly when all tokens are literals |
| Patterns.SpecificityIsLexicographic | src/pattern.rs:136-179 | specificity compares patterns lexicographically: no `>` first, then fewer `*`, then a later first wildcard |
| Patterns.IsMoreSpecificThan | src/pattern.rs:136-179 | the comparison is a strict order: `Patterns.SpecificityIsLexicographic` states it is the lexicographic order on (has `>`, number of `*`, first wildcard), and `Patterns.SpecificityIrreflexive`, `Patterns.SpecificityAsymmetric` and `Patterns.SpecificityTransitive` state its order laws |
| Patterns.SpecificityIrreflexive | src/pattern.rs:136-179 | no pattern is more specific than itself |
| Patterns.SpecificityAsymmetric | src/pattern.rs:136-179 | two patterns are never each more specific than the other |
| Patterns.SpecificityTransitive | src/pattern.rs:136-179 | specificity is transitive |
| Patterns.EquallySpecificTransitive | src/pattern.rs:136-179 | being equally specific is transitive |
| Patterns.NotMoreSpecificTransitive | src/pattern.rs:136-179 | "not more specific" is transitive, so specificity is a strict weak order, as a stable sort needs |
| Algebra.RegisterRule | src/algebra.rs:41-44 | registering a composition rule binds that name and leaves the other rules and the transformations alone |
| Algebra.RegisterTransformation | src/algebra.rs:46-49 | registering a transformation binds that name and leaves the other transformations and the rules alone |
| Algebra.Apply | src/algebra.rs:252-257 | a transformation refuses a subject its input pattern does not match (`ValidationError`) and otherwise returns its function's result |
| Algebra.TransformOp | src/algebra.rs:129-136 | an unknown transformation name is `NotFound`; a known one is applied |
| Algebra.Compose | src/algebra.rs:58-175 | the transform operator applies the named transformation; the others use the rule registered under their key, if any, and otherwise their default subject, which is always produced |
| Algebra.TransformIgnoresRight | src/algebra.rs:58-136 | the transform operator ignores the right operand |
| Algebra.ProjectInjectIgnoreRight | src/algebra.rs:139-175 | project and inject ignore the right operand; a rule receives the left operand twice |
| Algebra.SequenceDefaultReparses | src/algebra.rs:75-90 | the default sequence of two valid subjects is itself a valid, parseable subject |
| Algebra.ParallelChoiceDefaultsDoNotReparse | src/algebra.rs:93-126 | the default parallel and choice results are never parseable subjects, because `+` and `\|` are not token characters |
| Algebra.InjectDefaultReparses | src/algebra.rs:158-174 | a default injection into a valid subject re-parses exactly when the new context is a token |
| Algebra.ProjectDefaultReparses | src/algebra.rs:139-155 | a default projection re-parses exactly when the underscore-joined field names are token characters |
| Algebra.ParallelOrderSensitive | src/algebra.rs:93-108 | default parallel composition gives `a+b` and `b+a` as contexts, which agree only when the contexts are equal |
| Algebra.FindMatching | src/algebra.rs:177-183 | exactly the subjects matching the pattern are kept |
| Algebra.FindMatchingConcat | src/algebra.rs:177-183 | searching a concatenation is searching each part, in order |
| Algebra.ComputeOrdering | src/algebra.rs:281-308 | the computed ordering holds exactly the pairs of distinct indices where the first subject is less specific (same context; `*` below anything, `changed` below created/updated/deleted) |
| Algebra.NewLattice | src/algebra.rs:271-279 | a new lattice keeps its subjects and holds exactly the less-specific pairs |
| Algebra.LatticeJoin | src/algebra.rs:310-323 | a join exists only for members; it is the first subject in list order recorded above both, and there is none when no subject is recorded above both |
| Algebra.LatticeJoinCommutative | src/algebra.rs:310-329 | the join is symmetric in its arguments |
| Algebra.LatticeJoinAbove | src/algebra.rs:293-329 | a join is strictly above both arguments and shares their context |
| Algebra.LatticeJoinNotIdempotent | src/algebra.rs:281-329 | in a lattice of distinct subjects, no subject is its own join |
| Algebra.OrderingTransitive | src/algebra.rs:281-308 | the ordering is transitive on distinct ends |
| Algebra.OrderingNotAntisymmetric | src/algebra.rs:293-308 | two `*` subjects of one context are each below the other |
| Algebra.IsLessSpecific | src/algebra.rs:292-307 | one subject is below another when the contexts agree and the event type is `*`, or `changed` against created/updated/deleted; `Algebra.ComputeOrdering` states that the ordering holds exactly these pairs of distinct indices, and `Algebra.OrderingTransitive` and `Algebra.OrderingNotAntisymmetric` state its order laws |
| Permissions.AllIsNotExpanded | src/permissions.rs:182-184 | a rule listing only `All` never matches a concrete operation |
| Permissions.RuleMatches | src/permissions.rs:181-184 | a rule matches when its pattern matches the subject and the operation is listed; `Permissions.AllIsNotExpanded` states that `All` is not a wildcard for operations, and `Permissions.Applicable` that exactly the matching rules take part in a decision |
| Permissions.Applicable | src/permissions.rs:41-44 | exactly the rules matching the subject and operation are collected |
| Permissions.SortBySpecificity | src/permissions.rs:47-55 | sorting permutes the matching rules |
| Permissions.SortSorted | src/permissions.rs:47-55 | the sorted rules never put a less specific rule before a more specific one |
| Permissions.SortHead | src/permissions.rs:47-59 | the first sorted rule is the earliest of the most specific rules, as the stable sort guarantees |
| Permissions.IsAllowed | src/permissions.rs:39-64 | with no matching rule the default policy decides; otherwise the earliest most specific matching rule decides |
| Permissions.DecisiveRuleExists | src/permissions.rs:39-64 | whenever some rule matches, a deciding rule exists |
| Permissions.StrictlyMostSpecificDecides | src/permissions.rs:39-64 | a matching rule more specific than every other matching rule decides, wherever it sits in the list |
| Permissions.SingleRuleDecision | src/permissions.rs:39-64 | with one rule, the rule decides when it matches and the default decides otherwise |
| Permissions.DefaultDeniesAll | src/permissions.rs:18-22 | the default permission set denies every operation on every subject |
| Permissions.FilterAllowed | src/permissions.rs:82-88 | exactly the subjects allowed for the operation are kept |
| Permissions.FilterAllowedConcat | src/permissions.rs:82-88 | filtering a concatenation is filtering each part, in order |
| Permissions.Merge | src/permissions.rs:91-93 | merging appends the other set's rules after this set's and keeps this set's default policy |
| Permissions.MergeApplicable | src/permissions.rs:39-93 | the matching rules of a merge are this set's followed by the other's |
| Permissions.MergeKeepsDecision | src/permissions.rs:39-93 | where the other set has no matching rule, merging changes no decision |
| Permissions.MergeTakesOtherDecision | src/permissions.rs:39-93 | where only the other set has matching rules, the merge decides as the other set does |
| Permissions.IntersectAsWritten | src/permissions.rs:96-137 | intersection as written: default deny, and one allow rule for each pair of allow rules with shared operations, using the more specific pattern or else the other set's |
| Permissions.IntersectLeaksOtherPattern | src/permissions.rs:117-129 | the intersection as written allows a subject that the first set denies |
| Permissions.LeakExampleRules | src/permissions.rs:96-137 | in the leak example, the intersection as written equals the second set |
| Permissions.PairRuleFixed | src/permissions.rs:106-129 | a corrected intersection rule allows only the shared operations, and only on subjects both original patterns match |
| Permissions.Intersect | src/permissions.rs:96-137 | the corrected intersection is default deny and holds only allow rules |
| Permissions.IntersectRestricts | src/permissions.rs:96-137 | whatever the corrected intersection allows, each set has an allow rule that matches it |
| Permissions.IntersectAllowOnly | src/permissions.rs:96-137 | for allow-only, default-deny sets, the corrected intersection allows only what both sets allow |
| Permissions.IntersectNoLeak | src/permissions.rs:117-129 | the corrected intersection denies the subject the version as written leaked |
| Permissions.WithRule | src/permissions.rs:244-266 | adding an allow or deny rule fails exactly when the pattern is invalid (`InvalidPattern`), and otherwise appends the rule with its operation set |
| Permissions.WithAllowAll | src/permissions.rs:268-270 | `allow_all` appends an allow rule for publish, subscribe and request, not for `All` |
| Permissions.WithDenyAll | src/permissions.rs:277-279 | `deny_all` appends a deny rule for publish, subscribe and request, not for `All` |
| Permissions.BuildPermissions | src/permissions.rs:282-287 | building keeps the rules in order and defaults the policy to deny |
| Permissions.EmptyBuilderIsDefault | src/permissions.rs:282-287 | an empty builder builds the default permission set |
| Permissions.MoreSpecificDenyWins | src/permissions.rs:326-340 | under "allow `users.>`" then "deny `users.admin.>`", admin subjects are denied and other user subjects allowed |
| Permissions.UsersSubjectsMatch | src/permissions.rs:326-340 | the example subjects match the example patterns as the ordering test expects |
| Translators.RuleTranslate | src/translator.rs:149-163 | a rule's translation passes on the function's error; a result that misses the target pattern becomes `TranslationError`; any result returned matches the target pattern |
| Translators.RuleReverseTranslate | src/translator.rs:166-175 | reverse translation without a reverse function is `TranslationError`; otherwise it applies that function |
| Translators.MatchesSource | src/translator.rs:135-138 | a rule matches a source subject exactly when its source pattern matches; `Translators.Translate` states that only such rules translate and that without one the subject is returned unchanged |
| Translators.MatchesTarget | src/translator.rs:140-146 | a rule without a target pattern matches no target subject; `Translators.RuleTranslate` states that every translation it returns matches the target pattern, and `Translators.ReverseTranslate` that only rules matching the target reverse-translate |
| Translators.RuleRoundTrip | src/translator.rs:149-175 | if the reverse function undoes the forward one, reverse translation returns the original subject |
| Translators.RegisterRule | src/translator.rs:35-37 | registering binds that name and leaves the other rules alone |
| Translators.Translate | src/translator.rs:40-50 | with no matching source pattern the subject is returned unchanged; otherwise the result is some matching rule's translation |
| Translators.ReverseTranslate | src/translator.rs:53-68 | with no matching target pattern the subject is returned unchanged; otherwise the result is some matching rule's reverse translation |
| Translators.TranslateUniqueMatch | src/translator.rs:40-50 | when exactly one rule matches, that rule translates, whatever the iteration order |
| Translators.NoMatchingRuleIsIdentity | src/translator.rs:40-50 | without a matching rule, translation is the identity |
| Translators.IndexedNameInjective | src/translator.rs:76-82 | the names `forward_i` (and `reverse_i`) of distinct indices are distinct, so no rule overwrites another |
| Translators.RegisterIndexedAt | src/translator.rs:76-82 | after the registration loop, each rule sits under the name carrying its own index |
| Translators.RegisterIndexedKey | src/translator.rs:76-82 | the registration loop adds exactly the indexed names to the keys already present |
| Translators.RegisterIndexedKeeps | src/translator.rs:76-82 | a key already present that no indexed name equals keeps its rule |
| Translators.Bidirectional | src/translator.rs:71-88 | a bidirectional translator holds exactly the forward rules under `forward_i` and the reverse rules under `reverse_i` |
| Translators.BidirectionalRoundTrip | src/translator.rs:71-88 | with one forward rule whose reverse function undoes it, translating and then reverse-translating returns the original subject |
| Translators.TranslateContext | src/translator.rs:229-253 | `translate_context` fails exactly when `from.>` is not a valid pattern; otherwise it appends one rule named `context_from_to` with source pattern `from.>` |
| Translators.ContextPatternCompiles | src/translator.rs:235 | for a token `from`, `from.>` compiles to a literal followed by `>` |
| Translators.ContextRuleBehaviour | src/translator.rs:229-253 | the context rule matches exactly the subjects of context `from` and replaces the context by `to`, keeping the other fields |
| Translators.BuildTranslator | src/translator.rs:262-270 | the built translator has exactly the builder's names, the last rule under a name winning |
| Parser.Validate | src/parser.rs:83-89 | validation succeeds exactly when every validator accepts; a failure is some validator's own error |
| Parser.Parse | src/parser.rs:56-80 | a context with a parse rule goes through that rule and the validators; any other text must parse as a standard subject and pass the validators, and then equals `Subject::new` of it |
| Parser.PlainParserIsStandard | src/parser.rs:56-80 | a parser with no rules and no validators agrees with `Subject::new` |
| Parser.VersionFormat | src/parser.rs:96-109 | the version rule accepts exactly versions starting with `v`; failures are `ValidationError` |
| Parser.ContextLength | src/parser.rs:111-124 | the context rule accepts exactly contexts of at most 32 UTF-8 bytes; failures are `ValidationError` |
| Parser.WithStandardRules | src/parser.rs:92-127 | the standard parser has no parse rules and exactly the two validators `version_format` and `context_length` |
| Parser.StandardParserAccepts | src/parser.rs:92-127 | the standard parser accepts exactly the four-token subjects with a `v` version and a context of at most 32 characters |
| Parser.FlexibleParts | src/parser.rs:229-243 | the flexible rule needs at least three pieces (`InvalidFormat` otherwise) and takes the first, second-to-last and last pieces as context, event type and version |
| Parser.FlexiblePrintsBack | src/parser.rs:229-243 | with four or more pieces, the middle pieces joined by dots form the aggregate and the parts print back to the input |
| Parser.FlexibleThreePieces | src/parser.rs:229-243 | with three pieces the aggregate is empty and the printed subject gains a dot |
| Parser.FlexibleParserAccepts | src/parser.rs:225-250 | a flexible parser accepts any subject of its context with four or more pieces and keeps the text; with five or more pieces `Subject::new` would refuse that text |
| Parser.WithFlexibleContext | src/parser.rs:225-250 | the builder appends one rule for the context and leaves the validators alone |
| Parser.FlexibleRule | src/parser.rs:226-247 | the rule is named `<ctx>_flexible` and parses with `Parser.FlexibleParts`; `Parser.FlexibleParserAccepts` states what a parser holding only this rule accepts |
| Parser.BuildParser | src/parser.rs:253-265 | the built parser has exactly the builder's contexts and validator names, the last entry under a name winning |
| Parser.FlexibleBuilderParser | src/parser.rs:225-265 | a builder given only a flexible context builds the parser with just that rule |
| Correlation.Root | src/correlation.rs:197-209 | a root's correlation and causation are its own id |
| Correlation.CausedBy | src/correlation.rs:216-229 | a caused message inherits the correlation and names the parent as cause |
| Correlation.IsRoot | src/correlation.rs:233-243 | `is_root` holds exactly for identities equal to the root identity of their message id (a triple mixing UUIDs and CIDs is never a root) |
| Correlation.RootAndCaused | src/correlation.rs:197-243 | roots are roots, and a child with an id different from its parent's is not |
| Correlation.ToNatsHeaders | src/correlation.rs:247-253 | the headers are the message, correlation and causation ids, in that order |
| Correlation.RootHeaders | src/correlation.rs:247-253 | the three header names are distinct, and a root's correlation and causation headers repeat its message id |
| Correlation.RootCommand | src/correlation.rs:265-273 | root commands and queries are roots with the given UUID |
| Correlation.RootEvent | src/correlation.rs:277-279 | root events are roots with the given content id |
| Correlation.CommandOrQueryFrom | src/correlation.rs:283-357 | a derived command or query keeps the parent's correlation, names the parent as cause, and is not a root when its id is fresh |
| Correlation.EventFrom | src/correlation.rs:361-396 | a derived event keeps the parent's correlation, names the parent as cause, and is not a root when its id is fresh |
| Correlation.DescendantsShareCorrelation | src/correlation.rs:216-229 | every descendant of a root, however deep, carries the root's id as its correlation |
| Correlation.DefaultValidator | src/correlation.rs:405-411 | the default validator allows chains of 100 messages |
| Correlation.ValidateIdentity | src/correlation.rs:420-442 | validation accepts exactly the roots and the messages not naming themselves as cause; failures are `InvalidIdentity` |
| Correlation.FactoriesValidate | src/correlation.rs:420-442 | every factory-made identity with a fresh id passes validation |
| Correlation.CheckCycles | src/correlation.rs:451-466 | a chain passes exactly when it is within the depth limit and no message id repeats; failures are `CyclicCausation` |
| MessageAlgebra.NewChain | src/message_algebra.rs:31-47 | only a root can start a chain (`InvalidIdentity` otherwise), which then holds just the root and no edges |
| MessageAlgebra.NewChainConsistent | src/message_algebra.rs:31-47 | a new chain's edges point between stored messages and are recorded both ways |
| MessageAlgebra.AddMessage | src/message_algebra.rs:56-87 | a message is accepted exactly when it has the chain's correlation and is a root or has a stored parent; it is stored, overwriting any entry with its id, and for a non-root both edge maps gain the parent link |
| MessageAlgebra.AddMessageKeepsConsistent | src/message_algebra.rs:56-87 | adding a message keeps the edges consistent |
| MessageAlgebra.GetParent | src/message_algebra.rs:102-108 | the parent is found exactly when the child has a recorded cause that is stored; `MessageAlgebra.GetParentIsCause` states what it returns on chains built from fresh ids |
| MessageAlgebra.GetCausedBy | src/message_algebra.rs:91-100 | the children returned are the stored messages among the recorded children ids |
| MessageAlgebra.GetParentIsCause | src/message_algebra.rs:102-108 | on a chain built from fresh ids, a parent exists exactly for a stored message that is not a root, and it is the stored message its causation id names |
| MessageAlgebra.GetCausedByIsCaused | src/message_algebra.rs:89-100 | on a chain built from fresh ids, the children returned are exactly the stored non-root messages whose causation id is the given id |
| MessageAlgebra.WalkBack | src/message_algebra.rs:117-141 | walking from a message follows causation links to a root, failing with `InvalidIdentity` on a missing message |
| MessageAlgebra.ReversedWalkIsPath | src/message_algebra.rs:143-144 | reversing a walk to the root gives a path from the root |
| MessageAlgebra.GetPathTo | src/message_algebra.rs:117-145 | an unknown id is `InvalidIdentity`; a path found starts at a root, follows causation links and ends at the requested message |
| MessageAlgebra.NewChainRanked | src/message_algebra.rs:31-47 | a new chain satisfies the generation invariant |
| MessageAlgebra.AddFreshKeepsRanked | src/message_algebra.rs:56-87 | adding a message with a fresh id to a chain satisfying the generation invariant keeps it, one generation below the parent |
| MessageAlgebra.RankedPath | src/message_algebra.rs:117-145 | under the generation invariant the path to any message exists, starts at the chain's root, has one entry per generation and follows child links |
| MessageAlgebra.PathsOfRankedChains | src/message_algebra.rs:117-145 | on chains built from fresh ids, every path exists, starts at the root, repeats no id and is no longer than the chain |
| MessageAlgebra.DfsNodeNoCycle | src/message_algebra.rs:163-190 | depth-first search from a node never reports a cycle when the children lie at deeper generations than the nodes on the recursion stack |
| MessageAlgebra.RankedChainsHaveNoCycles | src/message_algebra.rs:149-190 | `has_cycles` is false on every chain built from fresh ids, for every iteration order |
| MessageAlgebra.NewChainHasNoCycles | src/message_algebra.rs:377-389 | a new chain has no cycles |
| MessageAlgebra.HasCycles | src/message_algebra.rs:147-161 | the search runs from every key in the given order; `MessageAlgebra.RankedChainsHaveNoCycles` states it is false on chains built from fresh ids, and `MessageAlgebra.LoopsAreDetected` that it is true whenever some stored message reaches itself through recorded children |
| MessageAlgebra.DfsNode | src/message_algebra.rs:163-191 | the visited set only grows; `MessageAlgebra.SearchNodeFinishes` states that a search reporting no cycle leaves the node finished, with everything below it visited and no loop through it |
| MessageAlgebra.DfsKids | src/message_algebra.rs:179-185 | the visited set only grows; `MessageAlgebra.SearchKidsFinish` states that a search of the children reporting no cycle leaves every child finished |
| MessageAlgebra.SearchNodeFinishes | src/message_algebra.rs:163-191 | when every recorded child is stored and the fuel exceeds the messages not on the descent, a search from a node that reports no cycle keeps the finished nodes closed under children and free of loops, and finishes the node |
| MessageAlgebra.SearchKidsFinish | src/message_algebra.rs:179-185 | under the same conditions, a search of a list of children that reports no cycle finishes every child |
| MessageAlgebra.LoopsAreDetected | src/message_algebra.rs:147-191 | on a chain whose recorded children are all stored, `has_cycles` is true for every iteration order whenever some message reaches itself through recorded children |
| MessageAlgebra.AddMessageKeepsChildrenStored | src/message_algebra.rs:56-87 | adding a message keeps every recorded child id stored |
| MessageAlgebra.NewChainChildrenStored | src/message_algebra.rs:31-47 | a new chain records no child that is not stored |
| MessageAlgebra.DepthIsLongestPath | src/message_algebra.rs:194-210 | the depth is the length of the longest root path: every message's path is at most that long and some message's path is exactly that long |
| MessageAlgebra.Depth | src/message_algebra.rs:192-212 | the depth is the greatest generation reached from the root; `MessageAlgebra.DepthIsLongestPath` states that on chains built from fresh ids it is the length of the longest root path |
| MessageAlgebra.DepthFrom | src/message_algebra.rs:199-209 | the greatest generation below a message, over its recorded children; `MessageAlgebra.DepthIsLongestPath` states the value it gives from the root |
| MessageAlgebra.NewChainDepth | src/message_algebra.rs:356-363 | a new chain has depth 0 |
| MessageAlgebra.MergeFrom | src/message_algebra.rs:234-241 | merging keeps every message already present and ends holding every id visited; a refused message is `InvalidIdentity` |
| MessageAlgebra.MergeChains | src/message_algebra.rs:219-245 | chains of different correlations are refused; a merge keeps the first chain's root and messages, and its ids are exactly the first chain's ids plus the message ids of the second |
| MessageAlgebra.MergeAddsChain2Messages | src/message_algebra.rs:219-245 | when the second chain stores every message under its own id, each id the merge adds holds the second chain's message |
| MessageAlgebra.NewChainKeyedById | src/message_algebra.rs:31-47 | a new chain stores its root under the root's own id |
| MessageAlgebra.AddMessageKeepsKeyedById | src/message_algebra.rs:56-87 | adding a message keeps every message stored under its own id, so `MessageAlgebra.MergeAddsChain2Messages` applies to every chain the crate builds |
| MessageAlgebra.MergeKeepsRanked | src/message_algebra.rs:222-244 | merging into a chain built from fresh ids yields such a chain |
| MessageAlgebra.MergeOrderMatters | src/message_algebra.rs:234-241 | merging a three-generation chain succeeds when the parents come first and is refused when the grandchild comes first |
| MessageAlgebra.FindCommonAncestors | src/message_algebra.rs:251-267 | the result exists exactly when both paths do, and holds the stored messages whose ids lie on both paths |
| MessageAlgebra.CommonAncestorsSymmetric | src/message_algebra.rs:251-267 | common ancestors do not depend on argument order |
| MessageAlgebra.CommonAncestorsOnBothPaths | src/message_algebra.rs:251-267 | on chains built from fresh ids, the common ancestors are exactly the messages on both paths, the root among them |
| MessageAlgebra.CommonPrefix | src/message_algebra.rs:283-290 | the length of the longest common prefix of two paths, by message id |
| MessageAlgebra.Distance | src/message_algebra.rs:271-297 | a distance exists exactly when both paths do, and is at most the sum of their lengths less two; `MessageAlgebra.DistanceThroughCommonAncestors` states its exact value |
| MessageAlgebra.DistanceThroughCommonAncestors | src/message_algebra.rs:247-297 | on a chain built from fresh ids, the distance between two stored messages is the sum of their path lengths less twice the number of their common ancestors |
| MessageAlgebra.DistanceToSelf | src/message_algebra.rs:274-297 | a message is at distance 0 from itself |
| MessageAlgebra.DistanceSymmetric | src/message_algebra.rs:274-297 | distance is symmetric |
| MessageAlgebra.DistanceFromRoot | src/message_algebra.rs:274-297 | on chains built from fresh ids, the distance from the root is the message's generation |
| MessageAlgebra.TwoGenerationsBuilt | src/message_algebra.rs:316-330 | a chain started from a root command accepts a command caused by that root |
| MessageAlgebra.ThreeGenerationsBuilt | src/message_algebra.rs:334-354 | the two-generation chain accepts a command caused by the child |
| MessageAlgebra.ThreeGenerationsPath | src/message_algebra.rs:334-354 | in root, child, grandchild, the path to the grandchild is those three in order |
| MessageAlgebra.ThreeGenerationsLinks | src/message_algebra.rs:318-331 | the root's children are the child, and the child's parent is the root |
| MessageAlgebra.ThreeGenerationsDepth | src/message_algebra.rs:356-375 | the three-generation chain has depth 2 |
| MessageAlgebra.ThreeGenerationsDistance | src/message_algebra.rs:274-297 | root and grandchild are at distance 2 |
| MessageAlgebra.LoopedChain | src/message_algebra.rs:56-87 | re-adding the child's id with itself as cause is accepted and makes the child its own parent |
| MessageAlgebra.ReAddedIdMakesLoop | src/message_algebra.rs:56-87 | after that re-add `has_cycles` reports a cycle and the walk to the child never reaches the root |
| MessageAlgebra.LoopedStaleChild | src/message_algebra.rs:56-100 | after that re-add, `get_caused_by` of the root still lists the re-added message although its cause is now itself |
| MessageAlgebra.AddFresh | src/message_algebra.rs:56-87 | the corrected add refuses an id already stored and otherwise behaves as `add_message` |
| MessageAlgebra.AddFreshKeepsAcyclic | src/message_algebra.rs:56-100 | adding through the corrected add keeps every chain free of cycles and every path defined, and every child `get_caused_by` lists names the given id as its cause |
| MessageAlgebra.AddFreshRefusesReAdd | src/message_algebra.rs:56-87 | the corrected add refuses the re-add that made the loop |

## Left out

- Text.IsTokenChar: Rust's `char::is_alphanumeric` accepts every Unicode letter and digit. The model accepts ASCII letters and digits only, so the model refuses subjects with non-ASCII letters that the crate accepts.
- Unicode in general: strings are sequences of characters with no normalisation. `str::len` is modelled as the UTF-8 byte count (`Text.Utf8Len`).
- Error messages: each `SubjectError` and `CorrelationError` variant carries a text in the crate. The model keeps only the variant.
- `Display`, `FromStr`, serde and the `PatternMatcher` trait: these are conversions and trait plumbing around the modelled functions.
- The `Arc`, `DashMap` and `RwLock` wrappers: registries are plain maps, and mutation returns a new value. Concurrent access is not modelled.
- Hash-map iteration order is not known. Where it decides a result (`has_cycles`, `merge_chains`, rule lookup in the translator), it becomes an `order` parameter and properties are proved for every order. `find_common_ancestors` is modelled as a set, see the next line.
- MessageAlgebra.FindCommonAncestors: it returns the common ancestors as a set. The crate returns a `Vec` in the iteration order of a `HashSet`, so the model says which messages it holds but not in which order.
- `TranslatorBuilder::map`: it only wraps a caller closure into a rule, like `custom`. `SchemaMapping` and `FieldMapping` are plain data with no behaviour.
- `Translator::reverse_cache`: nothing ever writes to it, so its lookup branch is dead.
- The actual UUID and CID values and their generation: ids are natural numbers, and only equality matters. The header text of an id is a parameter (`show`) of `Correlation.ToNatsHeaders`.
- Correlation.ToNatsHeaders: it states the header names and the message-id value. The prefixes of the other two values are stated only for roots (`Correlation.RootHeaders`).
- MessageAlgebra.WalkBack: the source loops forever on a causation cycle. The model walks with fuel equal to the number of messages and reports `CyclicCausation` when the fuel runs out. `MessageAlgebra.RankedPath` shows that the fuel suffices on every chain built from fresh ids.
- MessageAlgebra.HasCycles: the depth-first search is bounded by the number of messages plus one. On chains built from fresh ids the bound is never reached.
- MessageAlgebra.Depth: the source's breadth-first search never ends on a cyclic chain. The model recurses with fuel equal to the number of messages, so its value on a cyclic chain is a cut-off, not the source's behaviour (which never ends).
- MessageAlgebra.MergeChains: it states the messages kept and the ids added, not the edge maps of the result. The edges follow from `MessageAlgebra.AddMessage`, message by message.
- Algebra: the subject algebra's registered rules are looked up by the printed key (`sequence:e1:e2` and so on). Arbitrary composer and transformation closures are parameters, and nothing is claimed about what they return.
- `usize` arithmetic: depths and distances are unbounded naturals. The subtractions in `distance` cannot underflow, because the common-prefix index is below both path lengths.

## Findings

| source | as written | input that shows it | evidently intended | confidence | as-written member | corrected member |
|---|---|---|---|---|---|---|
| src/permissions.rs:117-129 | when neither allow rule is more specific than the other, the intersection takes the other set's pattern with the shared operations | self allows `users.>` for subscribe, other allows `inventory.>` for subscribe: the intersection allows subscribing to `inventory.item.added.v1`, which self denies | the intersection allows only what both sets allow ("more restrictive") | high, not executed | Permissions.IntersectLeaksOtherPattern | Permissions.IntersectAllowOnly |
| src/message_algebra.rs:56-87 | `add_message` accepts a message whose id is already in the chain and overwrites it, and leaves the old cause's child list as it was | root `U0`, child `U1` caused by `U0`, then `command_from_command(U1, child)`, a message `U1` caused by `U1`: accepted, so `U1` becomes its own parent, `has_cycles` is true and `get_path_to(U1)` never returns; `get_caused_by(U0)` still returns the new `U1`, whose cause is `U1` (`MessageAlgebra.LoopedStaleChild`) | a message id is added once, so the chain stays acyclic and every path reaches the root | medium, not executed | MessageAlgebra.ReAddedIdMakesLoop | MessageAlgebra.AddFreshKeepsAcyclic |
