# Mensor, modelled in Dafny

Mensor checks contracts between the parts of a web project without running it: which modules may import which, and
whether an HTML form submits what the action behind it declares. A small reference runtime then decodes those forms,
and a set of tools measures how agents repair broken projects. This project models the algorithms behind that and
proves what they are for. Every `.dfy` file holds one part; `dafny verify dfyconfig.toml` checks them all.

Texts are sequences of UTF-16 code units, because every string comparison in the program is by code unit. Nodes of
trees are identified by their place, the child indices that lead to them. Promises are values that succeed or fail.

Several properties turned out to be false of the code as it stands. For each there is a theorem that says exactly when
it holds, and a lemma at a concrete input where it does not.

**Import boundaries** (`ModuleImports`, `SourceFacts`, `ModuleLoading`, `ImportBoundary`, `ImportReachability`,
`BoundaryChecks`). The breadth-first check, with its caches, batched reads and deduplication at the front of the queue,
returns what the texts alone determine. An import of a module is what its text holds and the project resolves. A report
names each import resolved to a denied role, and each unsupported dynamic import, of the modules reachable from a root
through targets that are not denied, and nothing else; no import twice, and every printed chain is a shortest one.

**Forms, from the HTML tree to the decoded input** (`HtmlTree`, `HtmlTraversal`, `HtmlOwnership`, `HtmlForms`,
`HtmlFormEvidence`, `FormIndexModel`, `FormFacts`, `FormReading`, `FormRule`, `FormRuleExact`, `FormAgreement`,
`FormAcceptance`, `FormGuarantee`, `FormWitnesses`, `Contracts`, `RuntimeForm`, `DecodedValues`, `DecodeConformance`,
`DecodeWitnesses`, `Numerals`, `RuntimeManifest`, `RuntimeDispatch`, `ManifestBehaviour`, `ManifestOrder`). The stack
traversal agrees with the recursive rules of the HTML Living Standard for form owners (section 4.10.17.3) and disabled
controls (section 4.10.18.5). From there the proofs cross the packages: to the evidence extracted for each form, to its
interpretation, to the agreement of form and action that an empty report stands for, and to the entry lists a form can
submit (section 4.10.21.4). An empty report of the static check does not promise that the runtime takes every one of
them:

- two hidden inputs of one ignored name pass the check, and the runtime refuses every submission of the form;
- an image button without a name adds its coordinates under `x` and `y`, which the check does not count;
- a control named `constructor`, `prototype` or `__proto__` passes the check, and the runtime refuses every field so
  named.

Two theorems say exactly what it does promise. Of one submission of a clean form: it is accepted exactly if it is
within the configured limits, no name in it is reserved and every merely ignored name carries one value (and, if a
nameless image button sent it, the coordinates fit as fields). Of the form, before any submission: all that stay
within the limits are accepted exactly if no submitted name is reserved, the controls of each merely ignored name send
one value at most, and the coordinates of a nameless image button would fit.

Decoding under a contract that the validator finds sound does not always yield what the contract declares:

- a field that was not submitted, but is named like a member of `Object.prototype`, is taken for submitted: a required
  text field `toString` decodes to the empty text, and a repeated one ends in a server error;
- a property named `constructor`, `prototype` or `__proto__` can be declared and bound, and then every submission ends
  in a server error unless it is refused first;
- which of several failures comes first depends on the order of the bindings, which canonicalising a manifest changes.

It is proved what each decoder takes a text for, and, for each binding and for the whole input, exactly when the
outcome is the promised one, exactly which failure a request meets, exactly which answer each request gets, and exactly
when a manifest and its canonical form answer it alike. A manifest without reserved properties, and without inherited
names for repeated fields, never answers with a server error or unlike its canonical form.

**JSONC** (`JsoncDepth`, `JsoncTree`, `JsoncMaterialize`, `JsoncDuplicates`). The lexical depth scanner is right on
every text that prints a JSON value (sections 4, 5 and 7 of RFC 8259) with comments and white space between tokens.
The two-visit stack evaluates every node tree to its recursive meaning, and when no duplicate key is reported nothing
is overwritten on the way.

**Positions** (`Positions`, `LocatorCache`). Line table, binary search, accepted positions and embedded templates. The
translation of positions into the host text turns out not to depend on where the embedded text begins: it is right
exactly unless the position is the end of an embedded text that ends between the halves of a CR LF.

**Import extraction** (`SyntaxScopes`, `RuntimeCalls`, `LexicalScopes`, `ScopeWitnesses`). `import()` is always
recorded, and a `require` call exactly if no scope around it counts as declaring `require`, as recursive descent would
have it. What a declaration means is defined apart from the program, by places in the tree: a `var` belongs to the
body of its nearest function, static block or namespace, or to the file. The two rules differ, and it is proved when
and how:

- in `(p = require("./a")) => { var require = 1; }` the body's `var` does not reach the parameters, but silences the
  call there;
- in `(p = require("./a")) => () => { var require = 1; }` the inner function's `var` silences the call in the outer
  one's parameters, because the walk enters a body that is itself a function;
- `class A { static { var require = 1; } } require("./a")` loses the call, because a static block is no function to
  the walk;
- in a namespace that declares the function `require`, a call is recorded although it means the local function.

A file has exactly its lexical imports recorded if and only if none of its `require` calls is wrongly shadowed or
wrongly free in this sense.

**Form index** (`FormIndexCanonical`, `FormIndexPermutation`, `FormIndexText`). The two canonicalisers, one working on
sets of printed keys and one on sorted neighbours, accept the same indices and give the same result. Two indices get
the same one exactly if they differ only in the order of documents, forms and controls.

**Workspaces and artifacts** (`ArtifactPaths`, `SnapshotWalk`, `SnapshotOrder`, `SnapshotDigest`, `SnapshotContents`,
`SnapshotCompare`). One fact about strings matters twice: below a directory `a`, the path `a/x` sorts after a sibling
such as `a.txt` or `a-b`, whose next unit is below the separator.

- A snapshot taken by the walk has a digest exactly if no such sibling bears files (and files named like array indices
  come first in text order, since objects list such keys first). `a/x` beside `a.txt` has none.
- The walk loses no file but one named `__proto__` in the root directory, which assigning to an object ignores.
- A comparison of two snapshots is empty exactly if they are equal. As a patch it is right exactly if no removed file
  is named like a member of `Object.prototype`: the digest after the removal of `constructor` reads as a function, not
  as absent.
- The scan of an artifact's sorted paths finds every collision, but a path that is both file and directory only if no
  such sibling hides it. `a`, `a-b` and `a/x` pass.

**Evaluator state** (`CompilerTiming`, `SandboxRun`, `SandboxCli`, `SandboxOutcomes`, `AgentTrials`,
`AgentReports`). At every moment of nested measurements the phases hold what the finished ones took and what was
measured inside open ones. A sandboxed run removes what it created exactly once whatever the port does, and over the
Docker port leaves the owned containers as they were exactly if the created one was not among them. A failed cleanup
names the failure before it exactly unless the port threw instead of returning a promise. What a run comes to is
determined stage by stage. Trial reports count what the trials say, and merge independently of order and grouping.

## Model

| member | source | states |
|---|---|---|
| SourceFacts.SourceFactIndex.constructor | packages/compiler/src/source-fact-index.ts:11-20 | an empty cache for a read concurrency of 1 to 8 |
| SourceFacts.SourceFactIndex.Source | packages/compiler/src/source-fact-index.ts:21-30 | returns what a direct read gives, failures included, and reads a file only the first time |
| SourceFacts.SourceFactIndex.Get | packages/compiler/src/source-fact-index.ts:50-57 | returns what reading and extracting afresh would give, with at most one read of the file ever |
| SourceFacts.SourceFactIndex.Missing | packages/compiler/src/source-fact-index.ts:32-40 | the requested files that were not read yet |
| SourceFacts.SourceFactIndex.ReadBatch | packages/compiler/src/source-fact-index.ts:40-49 | one batch of distinct new files is read, each once |
| SourceFacts.SourceFactIndex.Prefetch | packages/compiler/src/source-fact-index.ts:32-49 | reads exactly the missing files, each once, and nothing at concurrency 1; cached results stay what a direct read gives |
| SourceFacts.SourceFactIndex.MissingDistinct | packages/compiler/src/source-fact-index.ts:32-40 | no file is requested twice by one prefetch |
| ModuleImports.CollectUniqueImports | packages/compiler/src/typescript-source.ts:425-437 | the map by printed key and the sort give the imports of the specification |
| ModuleImports.UniqueExact | packages/compiler/src/typescript-source.ts:425-437 | no two imports of a module share kind, specifier and start, of those that did the last is kept, and they are in order |
| ModuleLoading.ResolvedExact | packages/compiler/src/module-boundary-rule.ts:139-150 | an edge is kept exactly if an entry of the file's imports has its kind, specifier and range and its specifier resolves to its target |
| ModuleLoading.LoadFailsExactly | packages/compiler/src/module-boundary-rule.ts:120-157 | a load fails exactly as reading does, with the first syntax error, or as the first import in order that does not resolve |
| ModuleLoading.EdgesExact | packages/compiler/src/module-boundary-rule.ts:120-157 | the edges of a module that loads are exactly the imports of its text that resolve to a file, each once, in order; its unsupported imports are those of its text |
| ImportBoundary.Roots | packages/compiler/src/module-boundary-rule.ts:48-118 | the roots of a boundary are exactly the files of its `from` role |
| ImportBoundary.ProjectModuleGraph.Load | packages/compiler/src/module-boundary-rule.ts:120-157 | the cached load of a module is the uncached one, in any state of the caches |
| ImportBoundary.ProjectModuleGraph.Prefetch | packages/compiler/src/module-boundary-rule.ts:120-157 | exactly the requested files that were not read are read, each once, and at concurrency 1 none; the extracted facts stay as they were and every cached result right |
| ImportBoundary.ImportChain | packages/compiler/src/module-boundary-rule.ts:257-266 | the chain is the parent links from root to node, then the target |
| ImportBoundary.CheckDirectBoundary | packages/compiler/src/module-boundary-rule.ts:159-190 | a direct check reports the denied edges and unsupported imports of one root, or its load failure |
| ImportBoundary.CheckDirectBoundaries | packages/compiler/src/module-boundary-rule.ts:48-118 | the direct reports of all roots in order, stopping at the first failure |
| ImportBoundary.DirectFailure | packages/compiler/src/module-boundary-rule.ts:48-118 | a failing root decides the whole direct check |
| ImportBoundary.PushesMeaning | packages/compiler/src/module-boundary-rule.ts:192-255 | a visit queues exactly the unvisited targets of its edges that are not denied, with itself as parent |
| ImportBoundary.VisitModule | packages/compiler/src/module-boundary-rule.ts:219-254 | the edge loop reports and queues what the visit of a module should |
| ImportBoundary.Dequeue | packages/compiler/src/module-boundary-rule.ts:202-254 | one queue step, including the load and the prefetch window, continues the cache-free traversal |
| ImportBoundary.CheckTransitiveBoundary | packages/compiler/src/module-boundary-rule.ts:192-255 | whatever the caches hold and however reads are batched, the result is the one the project determines; the queue loop terminates |
| ImportBoundary.CheckImportBoundaries | packages/compiler/src/module-boundary-rule.ts:48-118 | all boundaries in order, sharing the caches, give the reports the project determines |
| ImportBoundary.AllFailure | packages/compiler/src/module-boundary-rule.ts:48-118 | a failing boundary decides the whole check |
| ImportReachability.InvInit | packages/compiler/src/module-boundary-rule.ts:192-201 | the initial queue satisfies the traversal invariant |
| ImportReachability.InvSkip | packages/compiler/src/module-boundary-rule.ts:202-210 | skipping an already visited entry keeps the invariant: its successors were queued before |
| ImportReachability.InvVisit | packages/compiler/src/module-boundary-rule.ts:211-254 | visiting an entry and queueing its open targets keeps the invariant, queue depths non-decreasing included |
| ImportReachability.Near | packages/compiler/src/module-boundary-rule.ts:202-254 | every walk no longer than the current depth ends at a file already queued, no deeper |
| ImportReachability.ShortestAtDequeue | packages/compiler/src/module-boundary-rule.ts:202-254 | although duplicates are dropped at dequeue, the first dequeued path of a file is a shortest walk to it |
| ImportReachability.ReachableDequeued | packages/compiler/src/module-boundary-rule.ts:202-254 | when the queue is used up, every reachable module was visited |
| ImportReachability.ExploreCorrect | packages/compiler/src/module-boundary-rule.ts:192-255 | from any reachable state: fails only with the failure of a reachable module, otherwise visits each reachable module once, along a shortest walk |
| ImportReachability.TransitiveExact | packages/compiler/src/module-boundary-rule.ts:192-255 | the check fails exactly if a reachable module does not load, with the failure of one; otherwise each import of a reachable module's text that resolves to a denied role is reported once, each unsupported one as often as it occurs, and nothing else |
| ImportReachability.VisitedExactly | packages/compiler/src/module-boundary-rule.ts:192-255 | if the traversal succeeds, the visited modules are exactly the reachable ones, and each of them loads |
| ImportReachability.EdgesOnce | packages/compiler/src/module-boundary-rule.ts:120-157 | a module has each edge that its text imports once, and no other |
| ImportReachability.TransitiveChains | packages/compiler/src/module-boundary-rule.ts:192-266 | every reported chain is a shortest walk from a root through modules that are not denied, then the edge's target |
| ImportReachability.DirectWithinTransitive | packages/compiler/src/module-boundary-rule.ts:159-255 | every diagnostic of the direct mode is also one of the transitive mode |
| ImportReachability.ReportsBoundary | packages/compiler/src/module-boundary-rule.ts:192-255 | every diagnostic of a check carries the id of its boundary |
| BoundaryChecks.RootsAscend | packages/compiler/src/module-boundary-rule.ts:48-118 | the roots of a boundary are in code-unit order, each once |
| BoundaryChecks.DirectExact | packages/compiler/src/module-boundary-rule.ts:159-190 | the direct check fails exactly if a root does not load; otherwise each root's imports of denied roles are reported once, its unsupported ones as often as they occur, and nothing else |
| BoundaryChecks.DirectChains | packages/compiler/src/module-boundary-rule.ts:159-190 | a direct report names a root, a forbidden import of it, the chain of the two, and the roles of both |
| BoundaryChecks.BoundaryExact | packages/compiler/src/module-boundary-rule.ts:48-118 | a boundary's mode decides which modules are covered: its roots, or all that are reachable; of those it reports exactly the forbidden and the unsupported imports |
| BoundaryChecks.CheckFails | packages/compiler/src/module-boundary-rule.ts:48-118 | the whole check succeeds exactly if every covered module of every boundary loads, and otherwise fails as one of them does |
| BoundaryChecks.CheckExact | packages/compiler/src/module-boundary-rule.ts:48-118 | the whole check names an import under an id exactly if a boundary of that id covers the module and forbids the import, and likewise for unsupported imports |
| HtmlTraversal.FirstLegend | packages/compiler/src/html-forms.ts:340-398 | the legend child that escapes a disabled fieldset is the first one |
| HtmlTraversal.PushChildren | packages/compiler/src/html-forms.ts:340-398 | pushing children in reverse makes the stack visit them in order before the rest |
| HtmlTraversal.CollectElementIndex | packages/compiler/src/html-forms.ts:340-398 | the explicit stack collects what the recursive walk of the tree records |
| HtmlOwnership.VisitsCorrect | packages/compiler/src/html-forms.ts:340-398 | every element of every tree is visited once, in tree order, with its disabled state and nearest form as the recursive rules have them |
| HtmlOwnership.IndexLists | packages/compiler/src/html-forms.ts:340-398 | the collected controls and forms are those visited, in order |
| HtmlOwnership.IndexMaps | packages/compiler/src/html-forms.ts:340-398 | the disabled and nearest-form maps hold what each visit knew |
| HtmlOwnership.IndexIds | packages/compiler/src/html-forms.ts:340-398 | the id map holds the first visited carrier of an id |
| HtmlForms.ControlsExact | packages/compiler/src/html-forms.ts:340-404 | exactly the form controls of the tree, each once, in tree order |
| HtmlForms.FormsExact | packages/compiler/src/html-forms.ts:340-398 | exactly the forms of the tree, each once, in tree order |
| HtmlForms.FirstElementByIdCorrect | packages/compiler/src/html-forms.ts:340-398 | an id resolves to its first element in tree order, and to none exactly if no element has it |
| HtmlForms.OwnerCorrect | packages/compiler/src/html-forms.ts:340-430 | the form owner follows the standard's rule and a control counts as disabled exactly by its own attribute or under a disabled fieldset outside its first legend |
| HtmlForms.GroupControls | packages/compiler/src/html-forms.ts:121-169 | the loop over controls builds, per form, the owned controls and the name groups of the rules |
| HtmlForms.IndexedFormFact | packages/compiler/src/html-forms.ts:171-227 | a form's fact from the collected maps is the one its owned controls and name groups determine, attribute ranges included |
| HtmlForms.ExtractStaticHtmlFormDocument | packages/compiler/src/html-forms.ts:121-169 | the whole extraction gives the document's path, digest and complete inspection and, for each form in tree order, the fact the rules determine |
| HtmlFormEvidence.MultiplicityExact | packages/compiler/src/html-forms.ts:283-309 | a named control that may send is mutually exclusive if all of its name in the form are radio buttons, else repeated if it selects several or shares its name, else scalar |
| HtmlFormEvidence.ExtractedExactly | packages/compiler/src/html-forms.ts:121-338 | the extraction gives, for each form of the page in tree order, the evidence that its element and its own controls carry, attribute by attribute, and nothing else |
| FormFacts.InterpretForm | packages/compiler/src/form-index-semantics.ts:67-124 | the appending and replacing loop gives the interpretation of a form, failing closed on unresolved evidence |
| FormFacts.CollectFailure | packages/compiler/src/form-index-semantics.ts:67-124 | the first control that cannot be interpreted decides the result |
| FormFacts.InterpretGroups | packages/compiler/src/form-index-semantics.ts:67-124 | the fields are exactly the groups of successful controls by name, each complete and not empty |
| FormReading.InterpretExact | packages/compiler/src/form-index-semantics.ts:67-269 | a form is interpreted exactly if its evidence can be read; its method is GET if there is none and else in upper case, and its fields and unsupported controls are those of its controls |
| FormRule.FirstMultiple | packages/compiler/src/form-rule.ts:213-243 | a control that may send several values is found exactly if there is one |
| FormRule.FirstBinding | packages/compiler/src/form-rule.ts:130-141 | the first binding to a property, none exactly if no binding has it |
| FormRule.FieldOf | packages/compiler/src/form-rule.ts:180-184 | the field of a name, none exactly if no field has it |
| FormRule.CheckRequired | packages/compiler/src/form-rule.ts:121-156 | the loop over required fields reports each that no field submits, or the configuration failure |
| FormRule.CheckUnexpected | packages/compiler/src/form-rule.ts:158-178 | exactly the fields that are neither bound nor ignored are reported |
| FormRule.CheckCodecs | packages/compiler/src/form-rule.ts:180-207 | a bound field is reported when its controls do not suit the decoder |
| FormRule.CheckAction | packages/compiler/src/form-rule.ts:66-208 | one action's reports in their order, or its configuration failure |
| FormRule.FormFactsForLinkedForm | packages/compiler/src/form-index-semantics.ts:19-65 | the interpreted forms of a page with an id, failing on a missing document or incomplete inspection |
| FormRule.CheckFeatureForms | packages/compiler/src/form-rule.ts:32-211 | the nested loops give the reports of all actions, or the first failure |
| FormRuleExact.SuitedExactly | packages/compiler/src/form-rule.ts:213-243 | no control is incompatible exactly if the controls suit the decoder: any for a repeated one, a lone checkbox for a checkbox, else at most one value |
| FormRuleExact.MissingExact | packages/compiler/src/form-rule.ts:121-156 | a required field is reported exactly if no form field carries its binding's name; the check fails exactly if a required property is undeclared or unbound |
| FormRuleExact.UnexpectedExact | packages/compiler/src/form-rule.ts:158-178 | a field is reported exactly if its name is neither bound nor ignored |
| FormRuleExact.CodecExact | packages/compiler/src/form-rule.ts:180-207 | a binding is reported exactly if its field's controls do not suit its decoder, with the second of several that may not share a name, else the first that may send several values or the only one |
| FormRuleExact.CleanExactly | packages/compiler/src/form-rule.ts:71-207 | an action's report is empty exactly if the form is a POST to the action's path, has no unsupported control, submits what is required, nothing unknown, and suits every decoder |
| FormAgreement.DocumentExact | packages/compiler/src/form-index-semantics.ts:19-31 | the page of an action is the first document of its path, and missing exactly if no document has it |
| FormAgreement.LinkedExact | packages/compiler/src/form-index-semantics.ts:19-65 | an action is linked to a form exactly if its page, completely inspected, has the one form of its id and the form can be interpreted |
| FormAgreement.AgreesExactly | packages/compiler/src/form-rule.ts:66-243 | a form can be interpreted and agrees with its action exactly if its indexed evidence does: method, target, every control settled, every name that is sent |
| FormAgreement.FeatureCleanExactly | packages/compiler/src/form-rule.ts:32-211 | a feature's report is empty exactly if the page of every action, the first document of its path, has the one form of its id, and form and action agree |
| FormAcceptance.SubmittingIsGroup | packages/compiler/src/form-index-semantics.ts:67-124 | a field of the interpreted form is the extractor's name group |
| FormAcceptance.CleanNames | packages/compiler/src/form-rule.ts:121-243 | in a clean form every submitted name is bound or ignored, and a name with a single-value decoder has controls that send one value |
| FormAcceptance.SingleNamedOnce | packages/compiler/src/form-rule.ts:213-243 | a name bound to a single-value decoder occurs at most once in any submission of a clean form |
| FormAcceptance.CleanFormAccepted | packages/reference-runtime/src/form.ts:37-85 | a submission of a clean form without coordinates is accepted exactly if it is within the limits, no name in it is reserved and every merely ignored name carries one value |
| FormAcceptance.CoordinatesAccepted | packages/reference-runtime/src/form.ts:37-85 | a clean form sent by a nameless image button is accepted exactly if the same holds and its coordinates fit as fields of the action too |
| FormAcceptance.CleanFeatureAccepted | packages/compiler/src/form-rule.ts:32-211 | an empty report for a feature links each action to the one form of its id in the first document of its path, whose submissions the runtime accepts under exactly those conditions |
| FormGuarantee.AlwaysAcceptedExactly | packages/reference-runtime/src/form.ts:37-85 | every submission of a clean form that stays within the limits is accepted exactly if no submitted name is reserved, each merely ignored name is sent once at most, and the coordinates of any nameless image button would fit |
| FormWitnesses.RepeatedIgnoredName | packages/compiler/src/form-rule.ts:158-178 | for a sound contract with a bound text field, a form with one ignored name twice has a clean report and a submission the runtime refuses under any limits |
| FormWitnesses.ImageButtonRefused | packages/compiler/src/html-forms.ts:240-281 | likewise a form with a nameless image button |
| FormWitnesses.ReservedNameRefused | packages/reference-runtime/src/form.ts:42-54 | likewise a form whose one bound text field is named `constructor` |
| Contracts.BindingOf | packages/reference-runtime/src/form.ts:62-85 | looking a name up among the bindings finds a binding of that name, and none exactly if there is none |
| ContractValidation.RequiredIssues | packages/contract/src/validate.ts:96-216 | exactly the issues of required properties that are not declared |
| ContractValidation.BoundsIssues | packages/contract/src/validate.ts:96-216 | exactly the issues of properties whose bounds are out of order, in the order of the properties |
| ContractValidation.BindingIssues | packages/contract/src/validate.ts:96-216 | exactly the issues of bindings that own no property, do not match its schema, or repeat a name or path |
| ContractValidation.UnboundIssues | packages/contract/src/validate.ts:96-216 | exactly the issues of properties that no binding owns, in their order |
| ContractValidation.IgnoredIssues | packages/contract/src/validate.ts:96-216 | exactly the issues of ignored names that are repeated or bound |
| ContractValidation.ActionSemanticIssues | packages/contract/src/validate.ts:96-238 | the issues are exactly those that hold of the contract, and there is none exactly for the sound contracts the runtime relies on |
| ContractValidation.SoundExactly | packages/contract/src/validate.ts:96-238 | a contract is sound exactly if none of the issues holds of it |
| RuntimeForm.ReadFields | packages/reference-runtime/src/form.ts:37-59 | fails exactly with too many entries or an entry whose name is empty or reserved or which is too long, and otherwise lists each name with its values in order |
| RuntimeForm.ValidateRawFields | packages/reference-runtime/src/form.ts:62-85 | accepts exactly if every field is bound with a fitting number of values or ignored with one |
| RuntimeForm.TakeFields | packages/reference-runtime/src/runtime.ts:88-89 | reading and validation together take exactly the entry lists that are within the limits, name nothing reserved and fit the contract |
| RuntimeForm.DecodeActionInput | packages/reference-runtime/src/form.ts:87-138 | the decoding loop gives the decoded map or the first failure, names inherited from `Object.prototype` included |
| DecodedValues.LengthsExact | packages/reference-runtime/src/form.ts:183-250 | the length of a text counts its characters, surrogate pairs as one, and its size the bytes of its UTF-8 form |
| DecodedValues.ScalarExact | packages/reference-runtime/src/form.ts:140-181 | what a decoder yields, with each case written out: the text, trimmed and refused if empty as declared; a listed choice; true exactly for a listed true value; the integer of its numeral; the host's decimal |
| DecodedValues.ConformsExact | packages/reference-runtime/src/form.ts:183-250 | a value passes the schema test exactly if it has the declared kind and lies within the declared bounds, both written out |
| DecodeConformance.KindAlwaysFits | packages/reference-runtime/src/form.ts:140-250 | a decoder that matches its schema never produces a value of another kind |
| DecodeConformance.ValueDecodes | packages/reference-runtime/src/form.ts:87-181 | a decoder yields the value the submitted texts stand for, and nothing exactly if there is none |
| DecodeConformance.DecodesToUnique | packages/reference-runtime/src/form.ts:140-181 | submitted texts stand for at most one value |
| DecodeConformance.DecodedInputConforms | packages/reference-runtime/src/form.ts:87-250 | if no property is reserved and no absent field misread, decoding fails exactly if a binding refuses, as a bad request, and else yields only declared properties, all required ones, in kind and bounds, no submitted value dropped |
| DecodeConformance.BindingOutcome | packages/reference-runtime/src/form.ts:106-123 | a binding does what was promised exactly unless its property is reserved, or its field is absent, inherited by every object, and it matters that an empty text is taken for it |
| DecodeConformance.FailsExactly | packages/reference-runtime/src/form.ts:87-138 | for accepted fields, decoding fails with an error exactly if the first binding with any trouble has that one: a reserved property, an inherited member read for a repeated field, or texts that stand for nothing its property allows |
| DecodeConformance.StatedExactly | packages/reference-runtime/src/form.ts:87-250 | the whole outcome is the promised one exactly if no property is reserved and no absent field misread or, where a binding does not accept, a refusal comes before any other trouble |
| DecodeConformance.UndeclaredFails | packages/reference-runtime/src/form.ts:94-123 | a binding to an undeclared property ends in a configuration error, unless its name is inherited: then in a type error for a text and a refusal for anything else |
| DecodeConformance.RequiredDecoded | packages/reference-runtime/src/form.ts:125-138 | the decoder's final test for required properties cannot fail for a sound contract |
| DecodeWitnesses.RequiredTextMissing | packages/reference-runtime/src/form.ts:106-123 | a sound contract with a required text field `toString`: without the field, decoding gives the empty text |
| DecodeWitnesses.RepeatedFieldMissing | packages/reference-runtime/src/form.ts:106-123 | a sound contract with a repeated field `toString`: without the field, decoding ends in a type error |
| DecodeWitnesses.ReservedPropertyBound | packages/reference-runtime/src/form.ts:94-104 | a sound contract with a property `constructor`: whatever is submitted, decoding ends in a configuration error |
| DecodeWitnesses.OrderObservable | packages/contract/src/runtime-manifest.ts:72-104 | a sound contract that ends in a type error and whose canonical form ends in a refusal |
| Numerals.DecodeIntegerExact | packages/reference-runtime/src/form.ts:140-181 | integers decode from exactly their canonical numeral within the safe range, and zero also from "-0" |
| RuntimeManifest.CollectUnique | packages/contract/src/runtime-manifest.ts:141-152 | counts nothing exactly if the keys are distinct and new |
| RuntimeManifest.ManifestSemanticIssues | packages/contract/src/runtime-manifest.ts:124-152 | no issue exactly if no id, path or handler is used twice |
| RuntimeManifest.BuildRoutes | packages/reference-runtime/src/runtime.ts:34-41 | the path maps answer as the lists do, and a sound manifest loses no entry |
| RuntimeDispatch.ServedExactly | packages/reference-runtime/src/runtime.ts:50-78 | a page is served exactly to GET at the path of a page with that text |
| RuntimeDispatch.HandledExactly | packages/reference-runtime/src/runtime.ts:80-126 | a handler is called exactly by POST at the path of an action with that id and handler, for fields its contract accepts and the input they decode to |
| RuntimeDispatch.HandlerInput | packages/reference-runtime/src/runtime.ts:80-126 | what the handler of a plain contract gets: the declared properties, all required ones, in kind and bounds, nothing submitted dropped; and it is called exactly if every binding accepts |
| RuntimeDispatch.RefusedExactly | packages/reference-runtime/src/runtime.ts:80-126 | a request is refused exactly if it posts to an action whose contract does not accept its fields, or whose decoding comes to a refusal first |
| RuntimeDispatch.MethodNotAllowedExactly | packages/reference-runtime/src/runtime.ts:50-78 | another method is not allowed exactly where the path has a page or an action, but not for this method; the answer names GET for a page and POST for an action |
| RuntimeDispatch.NotFoundExactly | packages/reference-runtime/src/runtime.ts:50-78 | nothing is found exactly where no page and no action has the path |
| ManifestBehaviour.OrdersTotal | packages/contract/src/runtime-manifest.ts:154-168 | the four comparators are total preorders |
| ManifestBehaviour.CanonicalInputSound | packages/contract/src/runtime-manifest.ts:72-104 | the canonical input of a sound contract is sound |
| ManifestBehaviour.CanonicalAccepts | packages/contract/src/runtime-manifest.ts:72-104 | the same raw fields are accepted after canonicalisation |
| ManifestBehaviour.InputDecodedUnique | packages/reference-runtime/src/form.ts:87-138 | the contract and the fields determine the decoded input |
| ManifestBehaviour.CanonicalDecodes | packages/contract/src/runtime-manifest.ts:72-104 | the same fields decode alike in either order of the bindings exactly if both orders come to the same trouble first |
| ManifestBehaviour.CanonicalPageAt | packages/contract/src/runtime-manifest.ts:51-70 | each path leads to the same page |
| ManifestBehaviour.CanonicalActionAt | packages/contract/src/runtime-manifest.ts:51-104 | each path leads to the same action, in canonical form |
| ManifestBehaviour.CanonicalHandles | packages/contract/src/runtime-manifest.ts:51-122 | any request is answered alike before and after canonicalisation exactly unless it is for an action of which one order of the bindings comes to a refusal first and the other to a server error |
| ManifestBehaviour.CanonicalIdempotent | packages/contract/src/runtime-manifest.ts:51-122 | canonicalising twice is canonicalising once |
| ManifestBehaviour.ServerErrorExactly | packages/reference-runtime/src/runtime.ts:80-126 | a sound manifest answers with a server error exactly where a binding to a reserved property, or a repeated one that reads an inherited member, comes before any that refuses |
| ManifestBehaviour.PlainHandles | packages/reference-runtime/src/runtime.ts:80-126 | if no property is reserved and no repeated binding named like an inherited member, no request meets a server error or a difference after canonicalisation |
| ManifestBehaviour.RegistryExact | packages/reference-runtime/src/runtime.ts:182-198 | the registry test passes exactly if the handlers are those of the manifest |
| ManifestOrder.CanonicalOrdered | packages/contract/src/runtime-manifest.ts:51-104 | the canonical form of a sound manifest has the same pages and actions in order of their paths, each action with the same required, bound and ignored names in order |
| JsoncDepth.JsonStructuralDepthExceeds | packages/contract/src/jsonc.ts:76-126 | the flag-driven character loop is the lexical automaton |
| JsoncDepth.ScanToken | packages/contract/src/jsonc.ts:76-126 | reading one token leaves the scanner between tokens, at the depth the token leads to |
| JsoncDepth.ScanTokens | packages/contract/src/jsonc.ts:76-126 | of a text the scanner counts exactly the brackets that are tokens, none in strings or comments |
| JsoncDepth.DeepTokens | packages/contract/src/jsonc.ts:76-126 | the tokens of a value exceed a limit exactly if its nesting does, and end where they began |
| JsoncDepth.ScannerExact | packages/contract/src/jsonc.ts:76-126 | over any text that prints a JSON value, the scanner answers whether the value is nested deeper than the limit |
| JsoncMaterialize.ValueFound | packages/contract/src/jsonc.ts:128-176 | giving the top frame its value keeps every promise of a value below |
| JsoncMaterialize.FirstVisit | packages/contract/src/jsonc.ts:144-157 | the first visit of a composite node keeps the invariant: each child will be ready before its parent |
| JsoncMaterialize.ChildReady | packages/contract/src/jsonc.ts:158-175 | on the second visit every child has its value |
| JsoncMaterialize.PushChildren | packages/contract/src/jsonc.ts:146-156 | the children are pushed from last to first, absent values left out |
| JsoncMaterialize.AssembleArray | packages/contract/src/jsonc.ts:158-161 | an array is assembled from its items' values |
| JsoncMaterialize.AssembleObject | packages/contract/src/jsonc.ts:162-174 | an object is assembled property by property, later ones overwriting earlier ones |
| JsoncMaterialize.MaterializeJsonValue | packages/contract/src/jsonc.ts:128-176 | the two-visit loop terminates with the recursive meaning of every tree |
| JsoncDuplicates.VisitProperties | packages/contract/src/jsonc.ts:233-254 | the set of seen keys reports exactly the properties whose key was used before |
| JsoncDuplicates.FindDuplicateKeyIssues | packages/contract/src/jsonc.ts:220-273 | the stack loop reports in document order what recursive descent reports |
| JsoncDuplicates.IssuesExact | packages/contract/src/jsonc.ts:220-273 | an issue is reported exactly where some object, at any depth, repeats a key |
| JsoncDuplicates.ReportedExactly | packages/contract/src/jsonc.ts:220-273 | there is no issue exactly if no object repeats a key |
| JsoncDuplicates.NothingOverwritten | packages/contract/src/jsonc.ts:158-176 | without issues every object has as many entries as complete properties, each with its own value |
| Positions.LineStartsFor | packages/compiler/src/locations.ts:205-219 | the loop finds exactly the offsets after CR LF, LF and CR |
| Positions.LineStartsIncrease | packages/compiler/src/locations.ts:205-219 | the line table is strictly increasing |
| Positions.PositionAt | packages/compiler/src/locations.ts:186-203 | the binary search finds the last line starting at or before the offset |
| Positions.PositionOfOffset | packages/compiler/src/locations.ts:186-219 | table and search together count the breaks before an offset |
| Positions.PositionsIncrease | packages/compiler/src/locations.ts:186-203 | later offsets have later positions |
| Positions.LinesFollowStarts | packages/compiler/src/form-index.ts:126-133 | splitting gives one line per line start, each the text up to the next break |
| Positions.OffsetAccepted | packages/compiler/src/form-index.ts:178-191 | the position of an offset is accepted exactly if the offset is not inside a CR LF |
| Positions.AcceptedExactly | packages/compiler/src/form-index.ts:178-191 | the accepted positions are exactly those of such offsets |
| Positions.PositionsTranslate | packages/cli/src/typescript-template-form-index.ts:229-246 | a position in an embedded text translates to its position in the host exactly unless it is the end of a text that ends inside a CR LF |
| Positions.CutLineBreak | packages/cli/src/typescript-template-form-index.ts:229-246 | the end of the text CR, embedded in CR LF, translates to a line that does not start there |
| LocatorCache.YoungestStep | packages/compiler/src/locations.ts:20-43 | keeping the most recent keys needs only the most recent keys |
| LocatorCache.ContractLocators.constructor | packages/compiler/src/locations.ts:20-21 | an empty cache |
| LocatorCache.ContractLocators.ContractLocatorFor | packages/compiler/src/locations.ts:23-43 | always a fresh locator's value; afterwards the cache holds the at most 16 most recently requested texts |
| SyntaxScopes.BindingNameContainsRequire | packages/compiler/src/typescript-source.ts:388-409 | the stack over nested patterns finds a bound `require` exactly if there is one |
| SyntaxScopes.ContainsFunctionScopedRequire | packages/compiler/src/typescript-source.ts:363-386 | the stack loop agrees with recursive descent that stops at nested functions |
| SyntaxScopes.HoistsExact | packages/compiler/src/typescript-source.ts:363-380 | it finds a `var require` exactly if one lies at or below the node and no function strictly below the node contains it; the node itself may be one |
| LexicalScopes.StatementMeans | packages/compiler/src/typescript-source.ts:334-361 | a statement of a file, block or case declares `require` exactly if it is, or lists, a declaration that is visible in the scope that owns the statement |
| RuntimeCalls.ScopeDeclaresRequire | packages/compiler/src/typescript-source.ts:275-313 | each kind of scope declares `require` by its own rule, hoisted `var` included |
| RuntimeCalls.VisitBindingScopes | packages/compiler/src/typescript-source.ts:242-273 | the table says of every scope of the tree, and of nothing else, whether it declares `require` |
| RuntimeCalls.PoppedCalls | packages/compiler/src/typescript-source.ts:180-217 | replacing the top of the stack by its children leaves its own calls as the next ones |
| RuntimeCalls.CollectRuntimeCalls | packages/compiler/src/typescript-source.ts:180-240 | with the table, the stack loop records what recursive descent records, literals as imports and the rest as unsupported |
| RuntimeCalls.CollectFileCalls | packages/compiler/src/typescript-source.ts:60-84 | the same for a source file with its table built first |
| RuntimeCalls.CallsExact | packages/compiler/src/typescript-source.ts:180-313 | a call is recorded exactly if it is `import()`, or `require()` or `require.resolve()`, written out, inside no scope that the program counts as declaring `require` |
| RuntimeCalls.FileCallsExact | packages/compiler/src/typescript-source.ts:180-240 | of a file, such a call with a literal argument is an import, and any other an unsupported one; nothing else is either |
| LexicalScopes.ScopeExact | packages/compiler/src/typescript-source.ts:275-313 | a scope counts as declaring `require` exactly if some declaration, by its place and kind, feeds it |
| LexicalScopes.FunctionScope | packages/compiler/src/typescript-source.ts:275-313 | a function counts exactly if it declares the name itself, owns a `var` of it, has a function for its body that hoists one, or is searched past a static block or namespace |
| LexicalScopes.SilencesExact | packages/compiler/src/typescript-source.ts:242-380 | a declaration silences a call exactly if it is visible at the call and not overlooked, or leaks out of the scope it belongs to |
| LexicalScopes.ShadowedMeans | packages/compiler/src/typescript-source.ts:242-380 | a call is silenced exactly if `require` is a local name there by a declaration the program counts, or by one that leaks |
| LexicalScopes.LeakReason | packages/compiler/src/typescript-source.ts:363-386 | a `var` leaks only into the parameters of its own function, out of a function that is another's body, or out of a static block or namespace |
| LexicalScopes.RecordedExactly | packages/compiler/src/typescript-source.ts:180-386 | a file has exactly its `import()` calls and its lexical `require` calls recorded if and only if none of the latter is wrongly shadowed and none wrongly free |
| ScopeWitnesses.ParameterDefault | packages/compiler/src/typescript-source.ts:363-386 | `(p = require("./a")) => { var require = 1; }` loses its call |
| ScopeWitnesses.NestedArrow | packages/compiler/src/typescript-source.ts:363-386 | `(p = require("./a")) => () => { var require = 1; }` loses its call |
| ScopeWitnesses.StaticBlock | packages/compiler/src/typescript-source.ts:363-386 | `class A { static { var require = 1; } } require("./a")` loses its call |
| ScopeWitnesses.NamespaceFunction | packages/compiler/src/typescript-source.ts:275-313 | a call of a namespace's own function `require` is recorded |
| RuntimeCalls.CallsInOrder | packages/compiler/src/typescript-source.ts:180-217 | calls are recorded in source order, none twice |
| FormIndexCanonical.OrdersTotal | packages/contract/src/form-index.ts:256-266 | the orders on documents, forms and controls are total preorders |
| FormIndexCanonical.CanonicalTwice | packages/contract/src/form-index.ts:60-118 | canonicalising twice is canonicalising once |
| FormIndexCanonical.SortMap | packages/compiler/src/form-index-validation.ts:91-93 | converting then sorting, as the compiler does, equals sorting then converting, as the contract package does |
| FormIndexCanonical.ControlsPermuted | packages/contract/src/form-index.ts:98-106 | permuting the controls of a form changes nothing |
| FormIndexCanonical.FormsPermuted | packages/contract/src/form-index.ts:73-81 | permuting the forms of a document changes nothing |
| FormIndexCanonical.DocumentsPermuted | packages/contract/src/form-index.ts:60-71 | permuting the documents changes nothing |
| FormIndexCanonical.PartsReplaced | packages/contract/src/form-index.ts:60-71 | a document may be replaced by one with the same canonical form |
| FormIndexCanonical.FormReplaced | packages/contract/src/form-index.ts:73-81 | a form may be replaced by one with the same canonical form |
| FormIndexPermutation.CanonicalExactly | packages/contract/src/form-index.ts:60-118 | an index without duplicates and any other have one canonical form exactly if documents, forms and controls, permuted at all levels at once, make the one from the other |
| FormIndexPermutation.CanonicalAscends | packages/contract/src/form-index.ts:60-118 | the canonical form of an index without duplicates is the index itself but for its order, and ascends at every level |
| FormIndexCanonical.RangeKeysDiffer | packages/contract/src/form-index.ts:268-270 | the printed key of a range identifies the range |
| FormIndexCanonical.RepeatedRanges | packages/contract/src/form-index.ts:179-203 | the set of keys finds exactly the ranges that occurred before |
| FormIndexCanonical.DuplicateIssues | packages/contract/src/form-index.ts:159-216 | no duplicate is reported exactly if folded paths, form ranges and control ranges are distinct |
| FormIndexCanonical.RejectDuplicateRanges | packages/compiler/src/form-index-validation.ts:543-563 | comparing neighbours of sorted ranges rejects exactly the lists with a duplicate |
| FormIndexCanonical.RejectDuplicateDocuments | packages/compiler/src/form-index-validation.ts:526-541 | rejects exactly the documents with colliding paths |
| FormIndexCanonical.FormValue | packages/compiler/src/form-index-validation.ts:133-166 | a form is accepted exactly with distinct control ranges, and made canonical |
| FormIndexCanonical.DocumentValue | packages/compiler/src/form-index-validation.ts:65-103 | a document is accepted exactly with distinct ranges throughout, and made canonical |
| FormIndexCanonical.CanonicalizeFormIndex | packages/compiler/src/form-index-validation.ts:37-63 | the compiler accepts exactly what the contract package finds free of duplicates, with the same result |
| FormIndexText.CanonicalClean | packages/contract/src/form-index.ts:42-54 | the canonical index is free of duplicates again |
| FormIndexText.RoundTrip | packages/compiler/src/form-index.ts:34-60 | parsing what was serialised gives the canonical index |
| FormIndexText.ParsesExactly | packages/contract/src/form-index.ts:20-54 | a text parses exactly if some index serialises to it, and to that index's canonical form |
| FormIndexText.SameText | packages/contract/src/form-index.ts:42-58 | two indices have one text exactly if they have one canonical form |
| ArtifactPaths.EqualNeighbours | internal/agent-runner/src/agent-authored-artifact.ts:165-172 | in sorted paths, duplicates are exactly equal neighbours |
| ArtifactPaths.NestedNeighbours | internal/agent-runner/src/agent-authored-artifact.ts:173-180 | in sorted paths, a nested neighbour exists exactly if some path with files below it is shadowed by none |
| ArtifactPaths.ValidatePathSet | internal/agent-runner/src/agent-authored-artifact.ts:165-181 | the scan passes exactly if folded paths are distinct and no file that is also a directory is unshadowed |
| ArtifactPaths.HiddenConflict | internal/agent-runner/src/agent-authored-artifact.ts:173-180 | `a`, `a-b`, `a/x`: a conflict the scan cannot see |
| SnapshotWalk.AdmitsStep | internal/fixture-kit/src/workspace-snapshot.ts:77-112 | the budget suffices for a further entry exactly if it suffices for the ones before and what is left suffices for it |
| SnapshotWalk.WalkableExact | internal/fixture-kit/src/workspace-snapshot.ts:63-113 | the walk meets no obstacle but size exactly if there are only files and directories and no directory is too deep |
| SnapshotWalk.Walker.Walk | internal/fixture-kit/src/workspace-snapshot.ts:63-113 | succeeds exactly if everything is a file or directory, no directory is too deep and the files fit the budget; then captures all files in order that an object takes as keys, and spends what all take; a failure names an obstacle that is there |
| SnapshotWalk.Walker.WalkEntry | internal/fixture-kit/src/workspace-snapshot.ts:77-112 | the same for one entry |
| SnapshotWalk.CaptureWorkspaceSnapshot | internal/fixture-kit/src/workspace-snapshot.ts:30-39 | the snapshot of a workspace with each directory in name order, without what an object does not take as a key, or a failure, exactly if it exceeds the limits, that names an obstacle that is there |
| SnapshotOrder.SiblingOrder | internal/fixture-kit/src/workspace-snapshot.ts:74-112 | files below two names of a directory compare as the names do, unless the second shadows the directory of the first |
| SnapshotOrder.WalkInPathOrder | internal/fixture-kit/src/workspace-snapshot.ts:63-113 | the walk lists joined paths in code-unit order exactly if no file-bearing directory is shadowed by a file-bearing sibling, at any depth |
| SnapshotOrder.ClashDisorders | internal/fixture-kit/src/workspace-snapshot.ts:63-113 | any such sibling puts two files in the wrong order |
| SnapshotDigest.IndexKeyExact | internal/fixture-kit/src/workspace-snapshot.ts:53-61 | the keys an object lists first are the printed numerals below 2^32 - 1 |
| SnapshotDigest.AcceptsExactly | internal/fixture-kit/src/workspace-snapshot.ts:53-61 | keys are in canonical order exactly if plain paths ascend and index-like paths lead |
| SnapshotDigest.DigestOfWalk | internal/fixture-kit/src/workspace-snapshot.ts:53-113 | a walked snapshot has a digest exactly if its tree has no shadowed directory and the index-like paths among its keys lead |
| SnapshotDigest.ArrangedWellNamed | internal/fixture-kit/src/workspace-snapshot.ts:74-76 | sorting directories of distinct proper names gives strictly increasing names throughout |
| SnapshotDigest.DirectoryBesideExtension | internal/fixture-kit/src/workspace-snapshot.ts:53-61 | `a/x` beside `a.txt` has no digest |
| SnapshotContents.FilesExact | internal/fixture-kit/src/workspace-snapshot.ts:63-113 | the walk captures exactly the files of the tree, each under the path its names join to, with its size and digest |
| SnapshotContents.PathsDistinct | internal/fixture-kit/src/workspace-snapshot.ts:63-113 | no path is captured twice |
| SnapshotContents.ArrangedLeads | internal/fixture-kit/src/workspace-snapshot.ts:74-76 | sorting directories neither adds nor loses a file |
| SnapshotContents.SnapshotExact | internal/fixture-kit/src/workspace-snapshot.ts:30-113 | a snapshot names no path twice, and holds exactly the files of the workspace if and only if no file of the root directory is named `__proto__` |
| SnapshotContents.ProtoFileLost | internal/fixture-kit/src/workspace-snapshot.ts:111 | of a workspace whose one file is `__proto__` the snapshot holds nothing |
| SnapshotCompare.ComparisonIsPatch | internal/fixture-kit/src/workspace-snapshot.ts:41-51 | carrying the comparison out on the first snapshot gives the second exactly if no removed file has an inherited name; it is empty exactly if they are equal |
| SnapshotCompare.EveryDifferenceOnce | internal/fixture-kit/src/workspace-snapshot.ts:41-51 | a file is reported exactly if its digests differ, with what the lookups find, once, in path order |
| SnapshotCompare.RemovedInherited | internal/fixture-kit/src/workspace-snapshot.ts:47-49 | for a removed file with an inherited name, such as `constructor`, the comparison carries the inherited member in place of an absent digest |
| CompilerTiming.AddedExact | packages/compiler/src/compiler-timing.ts:28-43 | time added for one phase is added to that phase and no other |
| CompilerTiming.ExclusiveAddsUp | packages/compiler/src/compiler-timing.ts:96-111 | over all phases, exclusive times add up to the elapsed time of a measurement |
| CompilerTiming.ExclusiveNotNegative | packages/compiler/src/compiler-timing.ts:96-111 | no phase has a negative exclusive time, so the clamp never acts |
| CompilerTiming.CompilerTiming.constructor | packages/compiler/src/compiler-timing.ts:28-43 | all durations zero, no open frame, and time conserved |
| CompilerTiming.CompilerTiming.FinishMeasurement | packages/compiler/src/compiler-timing.ts:96-111 | charges the phase its time less its children's and the parent the whole, conserving time unless it clamps, or fails exactly if another frame is on top |
| CompilerTiming.CompilerTiming.Measure | packages/compiler/src/compiler-timing.ts:44-67 | serially nested work charges every phase its exclusive time and the enclosing frame its elapsed time, without clamping; time stays conserved |
| CompilerTiming.CompilerTiming.Perform | packages/compiler/src/compiler-timing.ts:44-67 | after each of the measurements made inside an open frame the phases still hold what was finished and what was measured inside the open frames |
| CompilerTiming.CompilerTiming.Snapshot | packages/compiler/src/compiler-timing.ts:74-94 | phases and `other` make up the total, if the total covers the phases |
| CompilerTiming.MeasureRun | packages/compiler/src/compiler-timing.ts:44-111 | over a run of measurements the phases hold exactly the time measured, and with `other` the whole interval |
| SandboxRun.ExecutionTaken | internal/agent-runner/src/docker-sandbox-runner.ts:240-303 | an execution result is taken exactly if it exited with zero, with bytes, within the output limit |
| SandboxRun.RunStages | internal/agent-runner/src/docker-sandbox-runner.ts:126-176 | inspection before start, start only after an accepted inspection, success only with a good execution, nothing removed |
| SandboxRun.FailuresHaveDetails | internal/agent-runner/src/docker-sandbox-runner.ts:94-100 | a failure before the cleanup has stage and code exactly unless the port threw synchronously |
| SandboxRun.RunDockerSandbox | internal/agent-runner/src/docker-sandbox-runner.ts:102-185 | over every port: one removal, last, exactly if a handle was delivered; the run ends as its stages did, or as a failed cleanup that names the earlier failure |
| SandboxOutcomes.FaultExact | internal/agent-runner/src/docker-sandbox-runner.ts:240-303 | what a delivered execution is refused for: a timeout, else too much output, else an exit code, and nothing else |
| SandboxOutcomes.StagesExactly | internal/agent-runner/src/docker-sandbox-runner.ts:126-176 | the stages fail at a stage with a code exactly if the port does so there and went well before; they succeed exactly with the output of a good execution |
| SandboxCli.StagesKeepOwned | internal/agent-runner/src/docker-cli-execution-port.ts:145-207 | inspecting and starting leave the set of owned containers alone |
| SandboxCli.RunRestoresOwned | internal/agent-runner/src/docker-cli-execution-port.ts:71-227 | a run over this port whose removal succeeds leaves the owned containers as it found them exactly if the created one was not among them |
| SandboxCli.NeverThrowsSynchronously | internal/agent-runner/src/docker-cli-execution-port.ts:71-227 | this port never throws synchronously, so failed cleanups keep the earlier failure |
| SandboxCli.LateExactly | internal/agent-runner/src/docker-cli-execution-port.ts:71-227 | each operation is rejected as aborted exactly if it lost the race |
| SandboxCli.StartsInspected | internal/agent-runner/src/docker-cli-execution-port.ts:167-180 | after any sequence of port calls, the start command is issued for a container exactly if an inspection since its creation accepted it and it is still in the created state |
| SandboxOutcomes.RunSucceedsExactly | internal/agent-runner/src/docker-cli-execution-port.ts:71-227 | a run over this port gives an output exactly if create, inspect, start and remove each answer as they must, in that order |
| SandboxOutcomes.RunOverCli | internal/agent-runner/src/docker-cli-execution-port.ts:71-227 | a whole run over this port gives an output exactly so, restores the owned containers exactly if the removal is of a container not owned before, and otherwise names any failure before a failed removal |
| AgentTrials.RepairedMeans | internal/fixture-kit/src/agent-trial.ts:281-300 | a valid trial is repaired exactly if every check of it holds |
| AgentReports.CategoryMeans | internal/fixture-kit/src/agent-trial.ts:281-300 | each failure category is given exactly when it is the first that applies, in the program's order |
| AgentTrials.GroupTrials | internal/fixture-kit/src/agent-trial.ts:197-203 | the grouping loop collects each key's trials, keys in order of first occurrence |
| AgentTrials.RejectDuplicateIds | internal/fixture-kit/src/agent-trial.ts:188-195 | rejects exactly the trials with a repeated id |
| AgentTrials.BuildAgentTrialReport | internal/fixture-kit/src/agent-trial.ts:179-238 | the loops give the report of the trials, summary included, none exactly if an id is repeated |
| AgentReports.GroupsExact | internal/fixture-kit/src/agent-trial.ts:197-219 | there is one group for each baseline and mutation of the trials, in order of mutations, with the number of its trials and of the repaired ones, and whether some and whether all are |
| AgentReports.ReportExact | internal/fixture-kit/src/agent-trial.ts:179-238 | a report is made exactly if no trial id is repeated; it has the trials in order of ids, their groups, and the counts of each outcome |
| AgentTrials.ReportOfPermutation | internal/fixture-kit/src/agent-trial.ts:179-238 | the order of the trials does not matter |
| AgentTrials.ReportOfItself | internal/fixture-kit/src/agent-trial.ts:255-271 | a created report is the one its own trials give, so it validates |
| AgentTrials.GroupsAddUp | internal/fixture-kit/src/agent-trial.ts:204-219 | group counts add up to all trials, and repaired counts to all repaired ones |
| AgentTrials.SummaryAddsUp | internal/fixture-kit/src/agent-trial.ts:220-237 | on valid trials, the failure counts add up to the failed count, and failed and repaired count to the number of trials |
| AgentTrials.MergedValid | internal/agent-runner/src/execution-descriptor.ts:160-192 | merged evidence is valid evidence |
| AgentTrials.MergeOrderIndependent | internal/agent-runner/src/execution-descriptor.ts:160-192 | merging does not depend on the order of the evidence |
| AgentTrials.MergeAssociative | internal/agent-runner/src/execution-descriptor.ts:160-192 | merging two merged halves gives, or refuses, what merging the whole does |
| AgentReports.MergeExact | internal/agent-runner/src/execution-descriptor.ts:160-192 | evidence is merged exactly if all of it is right and of one execution and producer, with no trial twice; the merged report is that of all its trials |

## Left out

- ImportBoundary.CheckImportBoundaries: roles, resolved edges and load results are given by the project; path classification, import candidates, specifier resolution and boundary validation are not modelled.
- ModuleImports.CollectUniqueImports: the key stands for its printed text, whose parts are separated by NUL.
- HtmlForms.ExtractStaticHtmlFormDocument: tag names and attribute values come as the HTML parser leaves them, with input types already lower-cased; parser and digest are parameters.
- FormRule.CheckFeatureForms: diagnostics carry what they are about, not their message, hint and repair text; actions of forms are resolved paths.
- FormAcceptance.CleanFormAccepted: entry lists have no `dirname` entries, data lists, object elements or form-associated custom elements.
- RuntimeForm.ReadFields: content type, body size and character decoding of `readUrlEncodedFields` and `readBoundedBody` are left out; their refusals are not among the ones modelled.
- RuntimeForm.DecodeActionInput: decimal numbers and trimming are parameters; decoded objects are maps, so property order is not observable. Every member of `Object.prototype` is taken to be the one the language defines.
- ManifestBehaviour.CanonicalHandles: the action guard, handlers, response headers and redirects are left out.
- JsoncDepth.ScannerExact: texts that print no JSON value are covered only by the agreement of loop and automaton.
- JsoncMaterialize.MaterializeJsonValue: objects are maps, so the order of keys is left out.
- Positions.PositionsTranslate: positions are those the line table counts; the TypeScript and HTML parsers have line maps of their own, and TypeScript's also breaks at U+2028 and U+2029.
- RuntimeCalls.CollectFileCalls: static imports and the collection of exports are left out; nodes carry the names and literals that the TypeScript parser gives them.
- LexicalScopes.RecordedExactly: parameter decorators are taken to see the parameters, and functions declared in blocks to belong to the block, as in modules; `with` and direct `eval` are left out.
- FormIndexCanonical.CanonicalizeFormIndex: the element-by-element shape, path and range tests of both packages are left out; they look at one value each.
- FormIndexText.RoundTrip: printing and parsing JSON are parameters assumed inverse.
- ArtifactPaths.ValidatePathSet: case folding is a parameter; the tests of single paths and contents are left out.
- SnapshotWalk.Walker.Walk: files do not change while they are read; identity checks are left out. Each directory is sorted before the walk rather than on the way.
- SandboxRun.RunDockerSandbox: the validation of plan, workspace, input and timeout before the first port call is left out, and so are the timers: losing a race is an outcome of the port. A container that `create` delivers after the abort won the race is never seen by the runner.
- SandboxCli.RunRestoresOwned: command lines, text parsing and the best-effort removal after a failed `create` are left out.
- AgentTrials.MergeAssociative: the execution descriptor stands for its serialised text; descriptor and attestation validators are left out.
- Hashing, JSON Schema validation, SARIF and command-line output, file-system access, the HonoX and JSX extraction and the benchmark and release scripts are left out.
