# gomatic, modelled in Dafny

gomatic edits the `cruise-config.xml` of a GoCD server from Python. A configurator holds the
parsed XML tree. Every operation finds, creates, replaces or removes elements in that tree
through a few find-or-create primitives. Before the tree is written out, the children of the
root, of each pipeline, stage and job are reordered into the order the GoCD schema expects.

This project models that in-memory engine as pure functions over an immutable tree:

- `Xml` (`xml.dfy`): an element is `Element(tag, attrs, text, children)`. The module holds
  `Ensurance` (find-or-create by tag, by tag and text, by tag and attribute, by tag and
  descendant), `PossiblyMissingElement` (reads that never raise on an absent node),
  `move_all_to_end` and `ignore_patterns_in`. A find-or-create that the source does in place
  gives back a handle `Ensured(parent, index)`. Writing the changed child back through the
  handle gives the new parent.
- `Wrappers`, `Seqs`, `Strings`: `Result` for the exceptions the source raises, and the
  sequence and string facts the proofs share.
- `Mixins`: `CommonEqualityMixin` equality, inequality and hash over a class hierarchy.
- The codecs: `Materials`, `Tasks`, `Artifacts`, `ArtifactsNew`, `ArtifactsLegacy`. Each
  decodes an element into a tagged value, encodes a value into a new element, and has a
  round-trip lemma.
- The aggregates: `Generic` (resources and the three-way environment-variable partition),
  `Jobs`, `Stages`, `Pipelines`, `Groups`.
- The keyed managers: `Authorization`, `Plugins`, `Security`, `Elastic`, `ArtifactStores`,
  `ConfigRepos`, `Repositories`, `Agents`.
- `Configurator`: the root-level ensure, replace and remove operations, `pipelines`,
  `templates`, `git_urls` and the root reorder.

Conventions the model keeps throughout:

- A Python exception (`KeyError` on a missing attribute, `IndexError` on an empty `findall`,
  an `AttributeError`) is an `Err` result. A contract clause `r.Ok? <==> …` gives exactly the
  inputs on which the source raises. The find-or-create, ensure and set operations carry
  such a clause, and so do `ensure_parameters`, `ensure_job`,
  `ensure_environment_variables` and `remove_environment_variable`. The readers that decode
  a list of children (tasks, artifacts, tabs, materials, properties, config repos) state
  some of their error cases, or only what they return when they succeed.
- The source builds new elements with `ET.fromstring('<tag>%s</tag>' % text)`. Text parsed that
  way is `ParsedText(text)`: the empty string parses to an element with no text at all. Several
  findings below come from this.
- A fresh id (`uuid4()` in `ensure_repository`, `uuid1()` in the repository and package
  wrappers), `urllib.quote` and a serialiser are parameters of the functions that use them.
- The order of a Python dict passed in by the caller is a sequence argument with distinct keys.
  Where the source sorts, the model sorts too.
- Equality of node views is equality of element values. The source's `CommonEqualityMixin`
  compares the views' `__dict__`s, whose one entry is the ElementTree element, and elements
  compare by identity. The two differ on distinct elements with equal content, such as two
  identical sibling `<agent hostname="h"/>` elements: the source calls their views unequal,
  and the model calls them equal.

## Model

| member | source | states |
|---|---|---|
| Xml.ParsedText | gomatic/xml_operations.py:22 | the element parsed from `<t>s</t>` has text exactly when `s` is non-empty, and then the text is `s` |
| Xml.Parsed | gomatic/xml_operations.py:13 | an element parsed from markup has the tag, no attributes, no children and the parsed text |
| Xml.Append | gomatic/xml_operations.py:62-64 | `append` keeps every old child in place and adds the new one last |
| Xml.FindAllAppend | gomatic/xml_operations.py:62-64 | after `append`, `findall(tag)` is the old list plus the new child when its tag matches |
| Xml.EnsureChild | gomatic/xml_operations.py:10-17 | `ensure_child` gives the first child with the tag and leaves the parent alone when there is one; otherwise it appends exactly one empty child at the end |
| Xml.EnsureChildIdempotent | gomatic/xml_operations.py:10-17 | a second `ensure_child` finds the same child and changes nothing |
| Xml.EnsureFound | gomatic/xml_operations.py:10-17 | after `ensure_child` there is exactly one more child of the tag when none existed and the same number otherwise; children of other tags are untouched |
| Xml.EnsureFoundIdempotent | gomatic/xml_operations.py:10-17 | the (parent, child) pair is a fixed point of a second `ensure_child` |
| Xml.EnsureEmptyChild | gomatic/go_cd_configurator.py:213-216 | `ensure_*` followed by `make_empty`: the child is there, first of its tag, without children, keeping its attributes; other tags untouched |
| Xml.EnsureEmptyChildIdempotent | gomatic/go_cd_configurator.py:213-216 | replacing twice gives what replacing once gives |
| Xml.EnsureChildPutFinds | gomatic/xml_operations.py:10-17 | a change made through the handle `ensure_child` returns is what `find(tag)` reads afterwards |
| Xml.EnsureChildPutKeepsOthers | gomatic/xml_operations.py:10-17 | a change through the handle leaves the children of every other tag as they were |
| Xml.EnsureChildWithTextAsWritten | gomatic/xml_operations.py:19-26 | the code as written: the first child with tag and text, or a new one parsed from `<tag>text</tag>` |
| Xml.EnsureChildWithTextAsWrittenDuplicatesEmpty | gomatic/xml_operations.py:19-26 | with the empty text two calls add two children (see Findings) |
| Xml.EnsureChildWithText | gomatic/xml_operations.py:19-26 | find-or-create keyed by tag and text: the first match, the parent unchanged, or one new child with that text appended |
| Xml.EnsureChildWithTextAgrees | gomatic/xml_operations.py:19-26 | for every non-empty text the corrected and the written versions are the same |
| Xml.EnsureChildWithTextIdempotent | gomatic/xml_operations.py:19-26 | a second call finds the child the first one found or created and changes nothing |
| Xml.EnsureChildWithAttribute | gomatic/xml_operations.py:28-35 | raises exactly when a same-tag child lacks the attribute; otherwise the first match, or a new child carrying only that attribute appended last |
| Xml.EnsureChildWithAttributeIdempotent | gomatic/xml_operations.py:28-35 | a second call gives the same handle and changes nothing |
| Xml.EnsureChildWithAttributePutFinds | gomatic/xml_operations.py:28-35 | when the first child of the tag is the match (or there is none), `find(tag)` reads the child as changed through the handle |
| Xml.EnsureChildWithAttributeNoDuplicate | gomatic/xml_operations.py:28-35 | the number of same-tag children with that value becomes one if it was zero and stays as it was otherwise |
| Xml.EnsureKeyedIn | gomatic/xml_operations.py:10-35 | `ensure_child(container).ensure_child_with_attribute(...)` succeeds exactly when the container's same-tag children all carry the attribute, and gives a child with that value |
| Xml.EnsureKeyedInFinds | gomatic/xml_operations.py:10-35 | afterwards the container exists and holds a child with that key |
| Xml.EnsureKeyedInIdempotent | gomatic/xml_operations.py:10-35 | a second keyed ensure inside the container changes nothing |
| Xml.EnsureKeyedInNoDuplicate | gomatic/xml_operations.py:10-35 | the container never holds two children with the same key because of the call |
| Xml.RemoveKeyed | gomatic/go_cd_configurator.py:147-151 | the comprehension-then-remove idiom raises exactly when a same-tag child lacks the attribute, and otherwise keeps the element's own tag, attributes and text |
| Xml.RemoveKeyedReads | gomatic/go_cd_configurator.py:147-151 | no child with the value is left, the other same-tag children keep their order, other tags are untouched, and without a match nothing changes |
| Xml.EnsureChildWithDescendantAsWritten | gomatic/xml_operations.py:37-50 | the code as written: the first same-tag child whose named descendant has the value, or a new child parsed from markup appended last |
| Xml.EnsureChildWithDescendantAsWrittenRepeatsEmpty | gomatic/xml_operations.py:37-50 | with the empty value two calls add two children (see Findings) |
| Xml.EnsureChildWithDescendant | gomatic/xml_operations.py:37-50 | find-or-create keyed by the descendant's text: the first match with the parent unchanged, or one new child whose descendant holds the value appended last |
| Xml.EnsureChildWithDescendantAgrees | gomatic/xml_operations.py:37-50 | for every non-empty value the corrected and the written versions are the same |
| Xml.EnsureChildWithDescendantIdempotent | gomatic/xml_operations.py:37-50 | for every value a second call finds the child the first one found or created and changes nothing |
| Xml.PossiblyMissingChild | gomatic/xml_operations.py:74-78 | an absent node gives an absent child; a present one gives its first child of the tag |
| Xml.PossiblyMissingFindAll | gomatic/xml_operations.py:80-84 | an absent node gives the empty list; a present one its children of the tag |
| Xml.PossiblyMissingIterator | gomatic/xml_operations.py:86-91 | an absent node iterates as empty; a present one as its children |
| Xml.PossiblyMissingAttribute | gomatic/xml_operations.py:93-94 | the attribute is read exactly when the node and the attribute are both present, and None otherwise |
| Xml.PossiblyMissingText | gomatic/xml_operations.py:96-98 | an absent node has no text; a present one its own |
| Xml.AbsentReadsNothing | gomatic/xml_operations.py:70-104 | over an absent node no read raises: every list is empty, every attribute and text absent, `has_attribute` false |
| Xml.RemoveAllChildren | gomatic/xml_operations.py:106-116 | drops all children when no tag is given and exactly the children with the tag otherwise; an absent node stays absent |
| Xml.RemoveAllChildrenKeepsOthers | gomatic/xml_operations.py:106-116 | the survivors are exactly the other-tag children, and survivors plus removed are the old children as a multiset |
| Xml.RemoveAllChildrenKeepsTag | gomatic/xml_operations.py:106-116 | the children of every other tag stay as they were, in order |
| Xml.RemoveAttribute | gomatic/xml_operations.py:118-123 | deletes only the named attribute; without the node or the attribute nothing changes |
| Xml.ModifyChild | gomatic/xml_operations.py:74-78 | a change applied through `possibly_missing_child` reaches only the first child of the tag and does nothing when there is none |
| Xml.ModifyChildIsPut | gomatic/xml_operations.py:74-78 | when the child exists, reaching it through `possibly_missing_child` is the same as through `ensure_child` |
| Xml.MoveAllToEnd | gomatic/xml_operations.py:126-130 | `move_all_to_end` keeps the multiset of children, the order of the matching and of the other children, and puts every matching child after every other one |
| Xml.MoveAllToEndIdempotent | gomatic/xml_operations.py:126-130 | moving a tag to the end twice is moving it once |
| Xml.MoveTagsToEndGroups | gomatic/xml_operations.py:126-130 | moving the tags of a list of distinct tags in turn leaves the other children first, then one group per tag in list order |
| Xml.MoveTagsToEndIdempotent | gomatic/xml_operations.py:126-130 | a second round of the same moves changes nothing |
| Xml.MoveTagsToEndPermutes | gomatic/xml_operations.py:126-130 | a round of moves neither loses nor duplicates a child |
| Xml.MoveTagsToEndMap | gomatic/xml_operations.py:126-130 | the moves commute with any change to the children that keeps their tags |
| Xml.MoveTagsToEndModifyFirst | gomatic/xml_operations.py:126-130 | the moves commute with changing the first child of a tag when the change keeps the tag |
| Xml.IgnorePatternsIn | gomatic/xml_operations.py:133-135 | the set of `pattern` attributes of the `ignore` children of the first `filter`; raises exactly when one lacks the attribute |
| Seqs.MoveToEndLoop | gomatic/xml_operations.py:126-130 | the remove-then-append loop over the matches, in document order, ends with the non-matches in order followed by the matches in order |
| Seqs.MoveToEndFilters | gomatic/xml_operations.py:126-130 | moving the matches to the end keeps both the matches and the others in their order |
| Seqs.MoveToEndIdempotent | gomatic/xml_operations.py:126-130 | moving the matches to the end twice is moving them once |
| Mixins.MixinNe | gomatic/mixins.py:5-6 | `!=` is exactly the negation of the mixin's `__eq__` |
| Mixins.PyEqIsSameClassAndFields | gomatic/mixins.py:2-3 | under a well-formed class hierarchy, `==` (with Python's reflected call for a subclass operand) holds exactly for objects of one class with equal field dictionaries |
| Mixins.MixinEqNotSymmetric | gomatic/mixins.py:2-3 | the method alone is not symmetric: a base object "equals" a subclass object with the same fields but not the other way round |
| Mixins.HashFollowsStr | gomatic/mixins.py:8-9 | objects with the same string form hash alike |
| Mixins.NodeView | gomatic/gocd/agents.py:5-7 | a node view's field dictionary holds just its element |
| Mixins.NodeViewEq | gomatic/mixins.py:2-3 | two node views of one class are equal exactly when their elements are equal as values (weaker: see Left out) |
| Agents.Hostname | gomatic/gocd/agents.py:9-11 | the hostname attribute, and KeyError exactly when it is missing |
| Agents.AgentResources | gomatic/gocd/agents.py:5 | as written: an agent without `resources` has none; ensuring a name creates the element holding its parsed text; a new parsed text grows the set by one; the hostname is kept; for a non-empty name it is the corrected ensure |
| Agents.AgentEquality | gomatic/mixins.py:2-3 | two agents are equal exactly when their elements are equal as values (weaker: see Left out) |
| Materials.Branch | gomatic/gocd/materials.py:80-85 | `branch` is "master" exactly when the material is on master, and otherwise the stored branch |
| Materials.GitAttrs | gomatic/gocd/materials.py:100-117 | the git element carries `url` always, and `branch`, `materialName`, `autoUpdate`, `dest` exactly when that option is not at its default |
| Materials.Encode | gomatic/gocd/materials.py:100-169 | the element each material writes: tag by kind, each default-valued option omitted, a `filter` child exactly when there are ignore patterns |
| Materials.AppendTo | gomatic/gocd/materials.py:127 | `append_to` adds the encoded element as the last child |
| Materials.Decode | gomatic/gocd/materials.py:6-26 | decoding dispatches on `git`/`pipeline`/`package` and fails exactly on another tag or a missing required attribute; `autoUpdate` absent or "true" means polling |
| Materials.IgnorePatternsOfEncode | gomatic/gocd/materials.py:119-125 | the patterns written into the filter read back as the same set |
| Materials.GitAttrsRead | gomatic/gocd/materials.py:8-11 | reading the written attributes back gives each option in its normal form |
| Materials.DecodeEncodeGit | gomatic/gocd/materials.py:7-17 | decoding an encoded git material gives its normal form |
| Materials.DecodeEncode | gomatic/gocd/materials.py:6-26 | decoding an encoded material of any kind succeeds and gives its normal form |
| Materials.DecodeEncodeRoundTrip | gomatic/gocd/materials.py:6-26 | the round trip is exact when the branch is not literally "master", the destination is not "" and a package has a ref |
| Materials.MasterBranchIsForgotten | gomatic/gocd/materials.py:101-103 | a branch spelled "master" comes back as no branch |
| Materials.EncodeNormalize | gomatic/gocd/materials.py:100-127 | the normal form writes the same element as the material itself |
| Materials.SetGitUrlSuffices | gomatic/gocd/materials.py:56-68 | code generation chooses `set_git_url` exactly when the material writes the same element as `GitMaterial(url)` |
| Materials.SortKeyMatchesComparator | gomatic/gocd/pipelines.py:559-572 | the string key the model sorts by orders materials exactly as `cmp_materials` does: git first by url, the rest by their repr |
| Materials.SortMaterials | gomatic/gocd/pipelines.py:557-574 | the sorted materials are a permutation of the input, ordered by `cmp_materials`, and materials of one sort key keep their original order (a stable sort) |
| Materials.TiesAreEqualKeys | gomatic/gocd/pipelines.py:558-572 | `cmp_materials` ties two materials exactly when their sort keys are equal, so stability per key is stability per comparator tie |
| Seqs.SortByStable | gomatic/gocd/pipelines.py:574 | the sort keeps the order of the elements of each key, as `sorted` does |
| Strings.SortedList | gomatic/gocd/materials.py:122-124 | `sorted` of a set lists every member once, in strictly increasing order |
| Tasks.Checked | gomatic/gocd/tasks.py:27-32 | a task is built exactly when its runif is passed, failed or any; otherwise it raises with a message holding the bad value |
| Tasks.Statuses | gomatic/gocd/tasks.py:172 | the `status` of each `runif` child in order; KeyError exactly when one lacks it |
| Tasks.RunIfFrom | gomatic/gocd/tasks.py:171-179 | no `runif` gives passed, one gives its status, exactly the pair passed and failed (either order) gives any, anything else raises |
| Tasks.PairIsPassedAndFailed | gomatic/gocd/tasks.py:177 | for two statuses, holding both passed and failed is the same as being that pair as a multiset |
| Tasks.ArgElements | gomatic/gocd/tasks.py:142-143 | one `arg` child per argument, in order, each holding the text its markup parses to |
| Tasks.Encode | gomatic/gocd/tasks.py:90-168 | the element each task kind writes, with `workingdir` and `dest` only when set, never `origin`, and a `runif` child except for rake; only an exec task without a command raises |
| Tasks.ArgTextsAsWritten | gomatic/gocd/tasks.py:12 | the code as written reads each `arg` child's text, None for an empty one |
| Tasks.ArgTexts | gomatic/gocd/tasks.py:12 | the corrected read gives the empty string for an `arg` child without text |
| Tasks.ArgTextsAsWrittenOfEncoded | gomatic/gocd/tasks.py:12 | as written, the arguments of an encoded exec task read back as their parsed texts, None for each empty one |
| Tasks.ArgTextsAgree | gomatic/gocd/tasks.py:12 | where every `arg` child has text, the corrected and as-written reads agree |
| Tasks.EmptyArgumentReadsAsNone | gomatic/gocd/tasks.py:12 | `ExecTask(["echo", ""])` reads back with None in place of the empty argument (see Findings) |
| Tasks.Decode | gomatic/gocd/tasks.py:9-24 | dispatches on `exec`/`fetchartifact`/`rake` after reading runif; an unknown tag, a missing attribute or a bad runif raises; rake ignores its element's runif |
| Tasks.RunIfOfEncoded | gomatic/gocd/tasks.py:103 | the runif written for an exec or fetch task reads back as the same value |
| Tasks.ArgTextsOfEncoded | gomatic/gocd/tasks.py:142-143 | the written arguments read back as the same strings |
| Tasks.ExecTaskRoundTrip | gomatic/gocd/tasks.py:136-148 | an exec task with a command comes back with its command, arguments, working directory and runif |
| Tasks.FetchArtifactTaskRoundTrip | gomatic/gocd/tasks.py:90-106 | a fetch-artifact task comes back equal apart from its origin, which is never on the task element |
| Tasks.RakeTaskRoundTrip | gomatic/gocd/tasks.py:165-168 | a rake task keeps only its target and always comes back with runif passed |
| Tasks.AppendTo | gomatic/gocd/tasks.py:100-106 | `append_to` fails exactly when encoding or decoding does; an origin goes on the job element itself; the task is appended inside the ensured `tasks` child and its decoded view is returned |
| Tasks.AppendToPutsTaskLast | gomatic/gocd/tasks.py:147-148 | `tasks` is created only when missing and the new task is its last child |
| Artifacts.FetchArtifactSrcFrom | gomatic/gocd/artifacts.py:5-10 | `srcfile` wins over `srcdir`; with neither attribute decoding raises |
| Artifacts.FetchSrcRoundTrip | gomatic/gocd/artifacts.py:20-34 | the attribute pair a fetch source writes (`srcfile` or `srcdir`) reads back as the same source |
| Artifacts.BuildArtifact | gomatic/gocd/artifacts.py:86-88 | the build factory gives type build with the given src and dest |
| Artifacts.TestArtifact | gomatic/gocd/artifacts.py:90-92 | the test factory gives type test with the given src and dest |
| Artifacts.Constructor | gomatic/gocd/artifacts.py:49-55 | the factory name is BuildArtifact for build and TestArtifact for test; any other type raises |
| Artifacts.Encode | gomatic/gocd/artifacts.py:57-74 | 18.3+ writes tag `artifact` with a `type`; older writes `artifact` for build and `test` otherwise without `type`; `dest` only when set |
| Artifacts.AppendTo | gomatic/gocd/artifacts.py:57-61 | `append_to` adds the encoded element last |
| Artifacts.GetArtifactFor | gomatic/gocd/artifacts.py:76-84 | `type` decides when present, else tag `artifact` means build and any other tag test; a missing `dest` is None; a missing `src` raises |
| Artifacts.ArtifactRoundTrip | gomatic/gocd/artifacts.py:57-84 | a build or test artifact comes back equal from either schema |
| Artifacts.ArtifactTypeKeptOnlyByNewSchema | gomatic/gocd/artifacts.py:63-74 | the 18.3+ schema keeps any type; the older one reads every non-build type back as test |
| ArtifactsNew.BuildArtifact | gomatic/gocd/artifacts_new.py:37-39 | the build factory gives type build |
| ArtifactsNew.TestArtifact | gomatic/gocd/artifacts_new.py:41-43 | the test factory gives type test |
| ArtifactsNew.Constructor | gomatic/gocd/artifacts_new.py:23-29 | names the factory for build and test and raises for any other type |
| ArtifactsNew.Encode | gomatic/gocd/artifacts_new.py:17-21 | tag `artifact`, always a `type`, `dest` only when set |
| ArtifactsNew.GetArtifactFor | gomatic/gocd/artifacts_new.py:31-35 | the type defaults to build when the attribute is absent; a missing `src` raises |
| ArtifactsNew.ArtifactNewRoundTrip | gomatic/gocd/artifacts_new.py:17-35 | every artifact comes back equal, whatever its type |
| ArtifactsLegacy.BuildArtifact | gomatic/gocd/artifacts_legacy.py:36-38 | the build factory uses tag `artifact` |
| ArtifactsLegacy.TestArtifact | gomatic/gocd/artifacts_legacy.py:40-42 | the test factory uses tag `test` |
| ArtifactsLegacy.Constructor | gomatic/gocd/artifacts_legacy.py:23-29 | names the factory for tags `artifact` and `test` and raises for any other |
| ArtifactsLegacy.Encode | gomatic/gocd/artifacts_legacy.py:17-21 | the stored tag with `src`, and `dest` only when set |
| ArtifactsLegacy.GetArtifactFor | gomatic/gocd/artifacts_legacy.py:31-34 | the tag is kept verbatim; a missing `src` raises |
| ArtifactsLegacy.ArtifactLegacyRoundTrip | gomatic/gocd/artifacts_legacy.py:17-34 | encoding then decoding is the identity for any tag |
| Generic.Resources | gomatic/gocd/generic.py:8-11 | an element without a `resources` child has no resources |
| Generic.EnsureResourceAsWritten | gomatic/gocd/generic.py:13-17 | a name already present changes nothing; a new name is appended as a `resource` parsed from markup, so the empty name gives a text-less element |
| Generic.EnsureResourceAsWrittenRepeatsEmpty | gomatic/gocd/generic.py:13-17 | ensuring the empty resource adds a resource that reads back as no text, so a second call adds it again |
| Generic.EnsureResource | gomatic/gocd/generic.py:13-17 | the resources afterwards are those before plus the name; a name already present leaves the element unchanged |
| Generic.EnsureResourceAgrees | gomatic/gocd/generic.py:13-17 | for every non-empty name the as-written and corrected versions give the same element |
| Generic.EnsureResourceIdempotent | gomatic/gocd/generic.py:13-17 | ensuring the same resource twice is ensuring it once |
| Generic.PartitionsDisjoint | gomatic/gocd/generic.py:24-41 | a variable is in at most one of the plain, encrypted-secure and unencrypted-secure readings; a non-secure variable with an `encryptedValue` child is in none |
| Generic.ReadPartition | gomatic/gocd/generic.py:32-42 | the read raises exactly when some variable of the partition lacks a name or its value child |
| Generic.ReadPartitionKeys | gomatic/gocd/generic.py:32-42 | the dict's keys are exactly the names of the variables in the partition |
| Generic.ReadPartitionValues | gomatic/gocd/generic.py:36-41 | each name maps to the value text of the last variable of the partition with that name |
| Generic.ReadWellFormed | gomatic/gocd/generic.py:32-42 | on named variables with unique names and value children, every partition reads, and each of its variables contributes its own name and value |
| Generic.NamesIdentify | gomatic/gocd/generic.py:47 | among well-formed variables the name identifies the variable, as `ensure_child_with_attribute` by name relies on |
| Generic.PartitionMapsDisjoint | gomatic/gocd/generic.py:78-88 | on well-formed variables the three dict properties share no name |
| Generic.UpdateVariableAsWritten | gomatic/gocd/generic.py:48-53 | the updated variable keeps its tag and name, is secure exactly when asked, and its value child of the requested kind holds the value |
| Generic.UpdateVariable | gomatic/gocd/generic.py:48-53 | the corrected update keeps tag and name and puts the variable in the requested partition with the value |
| Generic.UpdateVariableAsWrittenLosesEncrypted | gomatic/gocd/generic.py:48-53 | writing a plain value over an encrypted secure variable as written leaves it in no partition, while the corrected update puts it in the plain one |
| Generic.EnsureVariable | gomatic/gocd/generic.py:47 | finding or creating the variable by name raises exactly when some `variable` child lacks a name |
| Generic.EnsureVariableStep | gomatic/gocd/generic.py:46-53 | one corrected loop step on well-formed variables succeeds, keeps them well formed, leaves exactly one variable with the name, in the partition with its value, and keeps every other variable |
| Generic.EnsureEach | gomatic/gocd/generic.py:46-53 | the loop over the names raises exactly when there is a name and some `variable` lacks one; it keeps the tag, and when every variable has a name so does every variable afterwards |
| Generic.EnsureVars | gomatic/gocd/generic.py:44-55 | the ensure raises exactly when some variable of the ensured `environmentvariables` child lacks a name |
| Generic.EnsureVarsNamed | gomatic/gocd/generic.py:44-64 | the ensure raises exactly when some variable lacks a name, and when it succeeds every variable has one |
| Generic.EnsureEachFacts | gomatic/gocd/generic.py:46-53 | the corrected loop over distinct names does every step's work at once: each name present with its value, other variables kept, none added |
| Generic.SortVariables | gomatic/gocd/generic.py:60-64 | sorting raises exactly when some variable lacks a name; otherwise the variables are those before, stably sorted by name |
| Generic.PutBackSorted | gomatic/gocd/generic.py:61-64 | removing the `variable` children and appending them sorted leaves exactly the sorted sequence as the variables |
| Generic.EnsureEnvironmentVariablesAsWritten | gomatic/gocd/generic.py:44-100 | it raises exactly when some variable lacks a name; when it succeeds the variables all have names and are sorted by name |
| Generic.EnsureEnvironmentVariables | gomatic/gocd/generic.py:44-100 | it raises exactly when some variable lacks a name; when it succeeds the variables all have names and are sorted by name |
| Generic.EnsureVarsSorted | gomatic/gocd/generic.py:55 | both versions of the ensure leave the variables sorted by name |
| Generic.ReadWrittenName | gomatic/gocd/generic.py:32-53 | after the loop a written name reads in the written partition with its new value and in no other |
| Generic.ReadAfterStepsWritten | gomatic/gocd/generic.py:32-53 | the written partition reads as before overridden by the given map |
| Generic.ReadAfterStepsOther | gomatic/gocd/generic.py:32-53 | the other partitions read as before minus the given names |
| Generic.UpdateVariableAgrees | gomatic/gocd/generic.py:44-55 | the as-written and corrected updates agree unless a value that is not encrypted is written over a variable with an `encryptedValue` child; the corrected one then leaves none |
| Generic.EnsureVariableAgrees | gomatic/gocd/generic.py:44-55 | one loop step agrees under the same condition, and afterwards every variable is the updated one or was there before |
| Generic.EnsureEachAgrees | gomatic/gocd/generic.py:44-55 | the whole loop agrees when the partition is the encrypted one or no variable named in the loop has an `encryptedValue` child |
| Generic.EnsureEnvironmentVariablesAgrees | gomatic/gocd/generic.py:44-100 | the ensure as written is the corrected ensure for the encrypted partition, or when no variable named in the map has an `encryptedValue` child |
| Generic.EnsureThenReadAsWritten | gomatic/gocd/generic.py:44-100 | under that condition the ensure as written raises nothing on well-formed variables, keeps them sorted, makes the partition read as before overridden by the map, and removes the names from the other two |
| Generic.EnsureThenRead | gomatic/gocd/generic.py:44-100 | ensuring a map in a partition on well-formed variables raises nothing, keeps them well formed and sorted, makes that partition read as before overridden by the map, and removes the names from the other two |
| Generic.EnsureIntoEmptyPartition | gomatic/gocd/generic.py:90-100 | ensuring into an empty partition makes it read as exactly the given map |
| Generic.EnsurePlainOverEncryptedAsWritten | gomatic/gocd/generic.py:44-55 | as written, ensuring a plain value for an encrypted variable makes the variable vanish from all three dicts |
| Generic.EnsurePlainOverEncrypted | gomatic/gocd/generic.py:44-55 | corrected, the variable reads in the plain dict with its new value and no longer in the encrypted one |
| Generic.RemoveAllVariables | gomatic/gocd/generic.py:75-104 | no variables remain, the `environmentvariables` child exists afterwards exactly when it did before, and every other kind of child is unchanged |
| Generic.RemoveAllReadsEmpty | gomatic/gocd/generic.py:75-104 | after removing all, each of the three dicts is empty |
| Generic.RemoveVariableAsWritten | gomatic/gocd/generic.py:66-108 | as written, through the as-written ensure: the removal raises exactly when the plain or the encrypted read raises |
| Generic.RemoveVariableAsWrittenReads | gomatic/gocd/generic.py:66-73 | on well-formed variables the removal as written succeeds, drops the name from the plain dict, keeps the encrypted dict and empties the unencrypted secure dict |
| Generic.RemoveVariableAsWrittenDropsSecure | gomatic/gocd/generic.py:66-73 | on a job with one unencrypted secure variable, removing any name loses it |
| Generic.RemoveVariable | gomatic/gocd/generic.py:66-108 | the removal raises exactly when the read of one of the three partitions raises |
| Generic.RemoveVariableReads | gomatic/gocd/generic.py:66-73 | on well-formed variables the corrected removal drops the name from the plain dict and keeps the other two |
| Generic.RemoveVariableKeepsSecure | gomatic/gocd/generic.py:66-73 | the corrected removal keeps the unencrypted secure variable |
| Jobs.Name | gomatic/gocd/pipelines.py:34-36 | the job's name is its `name` attribute; a missing one raises |
| Jobs.Optional | gomatic/gocd/pipelines.py:38-46 | `timeout` and `elastic_profile_id` read the attribute when present and raise exactly when `has_…` is false |
| Jobs.SetOptional | gomatic/gocd/pipelines.py:48-54 | setting the timeout or elastic profile id leaves the tag and the children alone |
| Jobs.SetOptionalReads | gomatic/gocd/pipelines.py:38-84 | a value set reads back, and every other optional attribute reads as before |
| Jobs.SetRunsOnAllAgents | gomatic/gocd/pipelines.py:56-66 | the attribute written is "true" or "false", and `runs_on_all_agents` then reads the flag given |
| Jobs.ArtifactsOf | gomatic/gocd/pipelines.py:86-89 | every artifact in the set is a build or test artifact |
| Jobs.ArtifactsOfReads | gomatic/gocd/pipelines.py:86-89 | the set exists exactly when every child decodes to a build or test artifact, and holds exactly the decoded children |
| Jobs.EnsureArtifacts | gomatic/gocd/pipelines.py:91-97 | an empty set changes nothing; otherwise the job's other children are kept and the artifacts child is ensured |
| Jobs.ArtifactsOfEncoded | gomatic/gocd/pipelines.py:91-97 | build and test artifacts written in the pre-18.3 encoding decode back to themselves |
| Jobs.ArtifactsOfAppend | gomatic/gocd/pipelines.py:94-96 | appending encoded artifacts adds exactly them to the decoded set |
| Jobs.EnsureArtifactsReads | gomatic/gocd/pipelines.py:86-97 | afterwards the job's artifacts are the old ones plus the given ones |
| Jobs.EnsureArtifactsIdempotent | gomatic/gocd/pipelines.py:91-97 | a second `ensure_artifacts` with the same set changes nothing |
| Jobs.EnsureArtifactsPresent | gomatic/gocd/pipelines.py:94 | ensuring artifacts the job already has leaves it unchanged |
| Jobs.EncodeTab | gomatic/gocd/pipelines.py:23-24 | a tab is written as an empty `tab` element |
| Jobs.DecodeTab | gomatic/gocd/pipelines.py:101 | reading a tab raises exactly when `name` or `path` is missing |
| Jobs.TabRoundTrip | gomatic/gocd/pipelines.py:15-101 | a written tab reads back as the same tab |
| Jobs.EnsureTab | gomatic/gocd/pipelines.py:103-107 | it raises exactly when the existing tabs cannot be read, and keeps the job's tag and attributes |
| Jobs.EnsureTabReads | gomatic/gocd/pipelines.py:99-107 | the tab list grows by the tab at the end when it was missing and is otherwise unchanged |
| Jobs.EnsureTabIdempotent | gomatic/gocd/pipelines.py:103-107 | ensuring the same tab twice is ensuring it once |
| Jobs.AddTask | gomatic/gocd/pipelines.py:113-114 | adding succeeds exactly when the task can be written and its element read back |
| Jobs.AddTaskReads | gomatic/gocd/pipelines.py:109-114 | the decoded new task lands last in the task list, whatever is there already, so duplicates are kept |
| Jobs.EnsureTask | gomatic/gocd/pipelines.py:116-120 | a task already present returns the job unchanged and the task given; a missing one is added; unreadable tasks raise |
| Jobs.EnsureTaskIdempotent | gomatic/gocd/pipelines.py:116-120 | for a task that reads back as itself, ensuring it twice is ensuring it once |
| Jobs.WithoutAnyTasks | gomatic/gocd/pipelines.py:122-124 | the task list is empty afterwards, the `tasks` child exists exactly when it did, and tag and attributes are kept |
| Jobs.Reorder | gomatic/gocd/pipelines.py:126-132 | the children are a permutation of the old ones, grouped with the named kinds moved last in the order written |
| Jobs.ReorderIdempotent | gomatic/gocd/pipelines.py:126-132 | reordering twice is reordering once |
| Stages.Name | gomatic/gocd/pipelines.py:177-179 | the stage's name is its `name` attribute; a missing one raises |
| Stages.JobsOf | gomatic/gocd/pipelines.py:181-184 | every job listed is a `job` element of the first `jobs` child |
| Stages.EnsureJob | gomatic/gocd/pipelines.py:186-188 | it raises exactly when some `job` of the ensured `jobs` child lacks a name; the job returned is a `job` with the name asked for, and the stage keeps its attributes |
| Stages.EnsureJobFindsAndIsIdempotent | gomatic/gocd/pipelines.py:181-188 | the job is among the stage's jobs afterwards, and ensuring it again changes nothing |
| Stages.EnsureJobNoDuplicate | gomatic/gocd/pipelines.py:186-188 | the number of jobs with the name becomes one when there were none and is otherwise unchanged |
| Stages.SetCleanWorkingDir | gomatic/gocd/pipelines.py:190-196 | `clean_working_dir` then holds, children are kept and every other attribute keeps its value |
| Stages.SetFetchMaterials | gomatic/gocd/pipelines.py:202-227 | `fetch_materials` then reads the value set; true removes the attribute and false writes it; everything else is kept |
| Stages.SetFetchMaterialsLastWins | gomatic/gocd/pipelines.py:218-227 | setting the flag twice leaves the attributes the last setting gives |
| Stages.AuthorizedUsers | gomatic/gocd/pipelines.py:206-212 | without `approval/authorization` there are no authorised users |
| Stages.AuthorizedRoles | gomatic/gocd/pipelines.py:206-216 | without `approval/authorization` there are no authorised roles |
| Stages.SetHasManualApproval | gomatic/gocd/pipelines.py:229-239 | it raises exactly when finding or creating the manual `approval` child raises, and keeps the stage's attributes |
| Stages.SetHasManualApprovalReads | gomatic/gocd/pipelines.py:198-239 | afterwards the stage has manual approval, and when users or roles are given the authorised users and roles are exactly their parsed texts, in the order given |
| Stages.ReorderJobs | gomatic/gocd/pipelines.py:245-246 | reordering the jobs keeps the `jobs` tag |
| Stages.ReorderJobsIdempotent | gomatic/gocd/pipelines.py:245-246 | reordering the jobs twice is reordering them once |
| Stages.ReorderJobsGroups | gomatic/gocd/pipelines.py:245-246 | every job afterwards has its children in the order a job needs |
| Stages.Reorder | gomatic/gocd/pipelines.py:241-246 | the stage keeps its tag, attributes and text |
| Stages.ReorderGroupsOthers | gomatic/gocd/pipelines.py:241-243 | the stage's children other than `jobs` end up grouped with environment variables then jobs last |
| Stages.ReorderGroupsJobs | gomatic/gocd/pipelines.py:241-246 | every job of the reordered stage has its children in the order a job needs |
| Stages.ReorderIdempotent | gomatic/gocd/pipelines.py:241-246 | reordering a stage twice is reordering it once |
| Pipelines.Name | gomatic/gocd/pipelines.py:273-275 | the pipeline's name is its `name` attribute; a missing one raises |
| Pipelines.LabelTemplate | gomatic/gocd/pipelines.py:337-354 | the label template reads exactly when `has_label_template` holds, and raises otherwise |
| Pipelines.SetLabelTemplate | gomatic/gocd/pipelines.py:356-362 | the template set reads back, children and tag are kept and every other attribute keeps its value |
| Pipelines.SetDefaultLabelTemplate | gomatic/gocd/pipelines.py:364-366 | the label template then reads "0.${COUNT}" |
| Pipelines.SetAutomaticPipelineLocking | gomatic/gocd/pipelines.py:341-347 | automatic locking then holds and the children are kept |
| Pipelines.SetTemplateName | gomatic/gocd/pipelines.py:368-378 | the template name then reads back and the pipeline is based on a template |
| Pipelines.AddMaterial | gomatic/gocd/pipelines.py:385-386 | the encoding of the material is appended after the existing material elements |
| Pipelines.AddMaterialKeepsOthers | gomatic/gocd/pipelines.py:385-386 | children of every other tag are untouched |
| Pipelines.AddMaterialReads | gomatic/gocd/pipelines.py:380-386 | the materials read back as before followed by the new one in the form it reads back in |
| Pipelines.EnsureMaterialAsWritten | gomatic/gocd/pipelines.py:388-391 | it raises exactly when the existing materials cannot be read |
| Pipelines.EnsureMaterialAsWrittenRepeatsMaster | gomatic/gocd/pipelines.py:388-391 | ensuring a git material on branch "master" twice, as written, leaves two copies |
| Pipelines.EnsureMaterial | gomatic/gocd/pipelines.py:388-391 | the corrected version raises exactly when the existing materials cannot be read |
| Pipelines.EnsureMaterialAgrees | gomatic/gocd/pipelines.py:388-391 | for a material that reads back as itself, both versions agree |
| Pipelines.EnsureMaterialReads | gomatic/gocd/pipelines.py:380-391 | the material is present afterwards and was added only when missing |
| Pipelines.EnsureMaterialIdempotent | gomatic/gocd/pipelines.py:388-391 | a second `ensure_material` of the same material changes nothing |
| Pipelines.EnsureMaterialOnceForMaster | gomatic/gocd/pipelines.py:388-391 | with the comparison on the read-back form the master git material is added once |
| Pipelines.GitMaterials | gomatic/gocd/pipelines.py:393-395 | the git materials are exactly the git ones among the materials, in order |
| Pipelines.GitMaterial | gomatic/gocd/pipelines.py:401-411 | it raises unless there is exactly one git material, and then gives it |
| Pipelines.HasSingleGitMaterial | gomatic/gocd/pipelines.py:413-415 | true exactly when `git_material` would not raise |
| Pipelines.PackageMaterialsAsWritten | gomatic/gocd/pipelines.py:397-399 | as written it reads only when there are no materials at all |
| Pipelines.PackageMaterials | gomatic/gocd/pipelines.py:397-399 | corrected, the package materials are exactly the package ones among the materials |
| Pipelines.PackageMaterialsAsWrittenFailsOnGit | gomatic/gocd/pipelines.py:397-399 | a pipeline with one git material makes the as-written read raise; the corrected read gives no package material |
| Pipelines.PackageMaterialAsWritten | gomatic/gocd/pipelines.py:421-431 | as written it always raises: with a material `package_materials` raises, without one there is no package |
| Pipelines.PackageMaterial | gomatic/gocd/pipelines.py:421-431 | corrected, it raises unless there is exactly one package material, and then gives it |
| Pipelines.HasSinglePackageMaterialAsWritten | gomatic/gocd/pipelines.py:417-419 | as written it reads only for a pipeline without materials, and then is false |
| Pipelines.HasSinglePackageMaterial | gomatic/gocd/pipelines.py:417-419 | corrected, true exactly when `package_material` would not raise |
| Pipelines.GitUrl | gomatic/gocd/pipelines.py:443-445 | the git url reads exactly when `git_material` does |
| Pipelines.GitBranch | gomatic/gocd/pipelines.py:447-449 | the git branch reads exactly when `git_material` does |
| Pipelines.WithoutMaterialsTagged | gomatic/gocd/pipelines.py:439-457 | exactly the material elements of the tag are dropped, the rest keep their order, and nothing else changes |
| Pipelines.ReplaceKind | gomatic/gocd/pipelines.py:436-459 | the replacement raises exactly when reading the kind raises or finds more than one |
| Pipelines.SetGitMaterial | gomatic/gocd/pipelines.py:454-459 | it raises exactly when there is more than one git material |
| Pipelines.SetGitMaterialReads | gomatic/gocd/pipelines.py:393-459 | afterwards the only git material is the one set, in its read-back form, and the other materials are kept in order |
| Pipelines.SetGitUrl | gomatic/gocd/pipelines.py:451-452 | it raises exactly when there is more than one git material |
| Pipelines.SetGitUrlReads | gomatic/gocd/pipelines.py:443-459 | afterwards `git_url` is the url, `git_branch` is master and the other materials are kept |
| Pipelines.SetPackageMaterialAsWritten | gomatic/gocd/pipelines.py:436-441 | as written it succeeds only when there are no materials |
| Pipelines.SetPackageMaterial | gomatic/gocd/pipelines.py:436-441 | corrected, it raises exactly when there is more than one package material |
| Pipelines.SetPackageMaterialReads | gomatic/gocd/pipelines.py:397-441 | afterwards the only package material is the one set and the other materials are kept in order |
| Pipelines.SetPackageRefAsWritten | gomatic/gocd/pipelines.py:433-441 | as written it succeeds only for a pipeline without materials |
| Pipelines.SetPackageRef | gomatic/gocd/pipelines.py:433-434 | corrected, it raises exactly when there is more than one package material |
| Pipelines.PackageReadsAgree | gomatic/gocd/pipelines.py:397-441 | on a pipeline without materials, the only input the as-written reads accept, they agree with the corrected ones |
| Pipelines.SetPackageRefAsWrittenNeverReads | gomatic/gocd/pipelines.py:397-441 | as written, `package_material` after `set_package_ref` always raises, while the corrected read gives the ref |
| Pipelines.SetPackageRefReads | gomatic/gocd/pipelines.py:421-441 | corrected, afterwards `package_material` is the package with that ref |
| Pipelines.DecodedKind | gomatic/gocd/materials.py:6-26 | a decoded material is git exactly when its tag is `git`, and a package exactly when its tag is `package` |
| Pipelines.WithoutMaterialsReads | gomatic/gocd/pipelines.py:439-457 | dropping the elements of a tag drops exactly the decoded materials of that kind |
| Pipelines.RemoveMaterials | gomatic/gocd/pipelines.py:554-555 | no `materials` child and no material remain, and every other tag is untouched |
| Pipelines.ParamsOf | gomatic/gocd/pipelines.py:469-475 | reading the parameters raises exactly when some `param` lacks a name |
| Pipelines.ParamsOfReads | gomatic/gocd/pipelines.py:469-475 | each name maps to the text of the last `param` with that name |
| Pipelines.EnsureParam | gomatic/gocd/pipelines.py:480 | one item raises exactly when some `param` lacks a name |
| Pipelines.EnsureParamReads | gomatic/gocd/pipelines.py:480 | on distinct names one item sets that entry of the dictionary and keeps names distinct |
| Pipelines.EnsureParamsInReads | gomatic/gocd/pipelines.py:479-480 | the items in turn set their entries, later ones last |
| Pipelines.EnsureParamsIn | gomatic/gocd/pipelines.py:479-480 | the loop raises exactly when there is an item and some `param` lacks a name |
| Pipelines.EnsureParameters | gomatic/gocd/pipelines.py:477-481 | it raises exactly when the dictionary is non-empty and some `param` of the ensured `params` child lacks a name; the pipeline keeps its tag and attributes |
| Pipelines.EnsureParametersReads | gomatic/gocd/pipelines.py:469-481 | afterwards the parameters are the old ones with every given pair set |
| Pipelines.WithoutAnyParameters | gomatic/gocd/pipelines.py:483-485 | the parameters read empty afterwards and the `params` child exists exactly when it did |
| Pipelines.EnsureStage | gomatic/gocd/pipelines.py:491-493 | it raises exactly when some stage lacks a name; otherwise the stage given has the name and is a child of the pipeline |
| Pipelines.EnsureStageIdempotent | gomatic/gocd/pipelines.py:491-493 | ensuring the same stage twice is ensuring it once |
| Pipelines.StageCount | gomatic/gocd/pipelines.py:491-493 | the stage count grows by one exactly when no stage had the name |
| Pipelines.EnsuredStageIsFirst | gomatic/gocd/pipelines.py:491-493 | the stage given is the first one with the name |
| Pipelines.EnsureRemovalOfStage | gomatic/gocd/pipelines.py:495-499 | it raises exactly when some stage lacks a name, and keeps the pipeline's attributes |
| Pipelines.EnsureInitialStage | gomatic/gocd/pipelines.py:501-507 | it raises exactly when some stage lacks a name |
| Pipelines.EnsureInitialStageReads | gomatic/gocd/pipelines.py:501-507 | afterwards the stages are the named ones then the others, each in order; the stage given is the first; the count grows only when the stage was new |
| Pipelines.StagesAfterMove | gomatic/gocd/pipelines.py:503-506 | moving the other stages to the end lists the named stages first, then the others |
| Pipelines.Timer | gomatic/gocd/pipelines.py:524-533 | the timer reads exactly when `has_timer` holds |
| Pipelines.TimerTriggersOnlyOnChanges | gomatic/gocd/pipelines.py:549-552 | it raises without a timer and is true exactly when the first timer has `onlyOnChanges="true"` |
| Pipelines.SetTimer | gomatic/gocd/pipelines.py:535-540 | without the flag it always succeeds; with it, it raises exactly when some timer lacks the attribute; attributes are kept |
| Pipelines.SetTimerReads | gomatic/gocd/pipelines.py:524-552 | the timer reads back; with the flag it reads back too; without it the first timer's flag is kept |
| Pipelines.RemoveTimer | gomatic/gocd/pipelines.py:542-544 | no timer remains, reading it raises, and every other tag is untouched |
| Pipelines.MakeEmpty | gomatic/gocd/pipelines.py:546-547 | no children and no label template remain; every other attribute is kept |
| Pipelines.MakeEmptyIdempotent | gomatic/gocd/pipelines.py:546-547 | emptying twice is emptying once |
| Pipelines.AddMaterialsFresh | gomatic/gocd/pipelines.py:512-513 | adding materials in turn to a pipeline with no `materials` child appends one child holding them all |
| Pipelines.ReorderPipeline | gomatic/gocd/pipelines.py:509-522 | it raises exactly when the materials cannot be read; tag, attributes and text are kept |
| Pipelines.ReorderPipelineShape | gomatic/gocd/pipelines.py:509-522 | the children are the other tags in order, then params, timer, environment variables, one `materials` child holding the sorted materials, and the reordered stages |
| Pipelines.ReorderPipelineMaterials | gomatic/gocd/pipelines.py:509-574 | afterwards the materials read back sorted by the git-first comparator |
| Pipelines.ReadBackEncoded | gomatic/gocd/pipelines.py:380-386 | encoded materials read back in their normal forms |
| Pipelines.SortedStaysSorted | gomatic/gocd/pipelines.py:557-574 | sorting materials that were sorted and read back changes nothing |
| Pipelines.ReorderPipelineIdempotent | gomatic/gocd/pipelines.py:509-522 | reordering a reordered pipeline changes nothing |
| Groups.Name | gomatic/gocd/pipelines.py:585-587 | the group's name is its `group` attribute; a missing one raises |
| Groups.AuthorizationOf | gomatic/gocd/pipelines.py:593-595 | the authorization is present exactly when the group has an `authorization` child, and is then such a child |
| Groups.Matching | gomatic/gocd/pipelines.py:601-602 | it raises exactly when some pipeline lacks a name; otherwise it holds exactly the group's pipelines with that name |
| Groups.MatchingIsFilter | gomatic/gocd/pipelines.py:597-602 | the matching pipelines are the pipeline children with that name, in document order |
| Groups.HasPipeline | gomatic/gocd/pipelines.py:604-605 | true exactly when some pipeline of the group has the name |
| Groups.FindPipeline | gomatic/gocd/pipelines.py:607-611 | it gives the first pipeline with the name; when there is none the error message carries the name asked for |
| Groups.EnsureAuthorization | gomatic/gocd/pipelines.py:613-615 | the authorization given is the group's afterwards, and the pipelines, tag and attributes are untouched |
| Groups.EnsureReplacementOfAuthorization | gomatic/gocd/pipelines.py:617-620 | the authorization is there and empty, so none of its sections can be read, and the pipelines are untouched |
| Groups.EnsurePipeline | gomatic/gocd/pipelines.py:622-624 | it raises exactly when some pipeline lacks a name; the pipeline given is a `pipeline` with that name |
| Groups.EnsurePipelineFinds | gomatic/gocd/pipelines.py:607-624 | `find_pipeline` then gives the pipeline given, and the count of pipelines with the name becomes one when there were none and is otherwise unchanged |
| Groups.EnsurePipelineIdempotent | gomatic/gocd/pipelines.py:622-624 | a second `ensure_pipeline` changes nothing |
| Groups.EnsureRemovalOfPipeline | gomatic/gocd/pipelines.py:626-629 | it raises exactly when some pipeline lacks a name, and keeps tag and attributes |
| Groups.EnsureRemovalOfPipelineReads | gomatic/gocd/pipelines.py:597-629 | afterwards no pipeline has the name, the others are there in order and the authorization is unchanged |
| Groups.EnsureReplacementOfPipeline | gomatic/gocd/pipelines.py:631-634 | the pipeline given keeps its name and has no children and no label template |
| Groups.EnsureReplacementOfPipelineFinds | gomatic/gocd/pipelines.py:607-634 | the emptied pipeline is the one `find_pipeline` gives afterwards, and the authorization is untouched |
| Groups.EnsureReplacementOfPipelineIdempotent | gomatic/gocd/pipelines.py:631-634 | a second replacement changes nothing |
| Authorization.Section | gomatic/gocd/authorization.py:47-57 | `view`, `operate` and `admins` are present exactly when the authorization has a child of that tag |
| Authorization.Members | gomatic/gocd/authorization.py:26-32 | users and roles of a section read exactly when the section is present, one text per member child |
| Authorization.AddMember | gomatic/gocd/authorization.py:34-57 | adding a user or role raises exactly when the section is absent (`Ensurance(None)` fails its assertion); otherwise it keeps the section's tag and attributes |
| Authorization.AddMemberReads | gomatic/gocd/authorization.py:26-40 | a member already present changes nothing; a new one is listed last, read back as its parsed text (none for the empty name) |
| Authorization.MemberPresentIffFound | gomatic/gocd/authorization.py:34-40 | a name is among the member texts exactly when some member child carries it, which is what the find-by-text looks for |
| Authorization.AddMemberIdempotent | gomatic/gocd/authorization.py:34-40 | adding the same user or role twice is adding it once exactly when the name is non-empty or a member already holds the empty text |
| Authorization.AddMembersInOrder | gomatic/gocd/authorization.py:34-40 | two different names added to an empty section are listed in the order added, each as its parsed text |
| Authorization.EnsureSection | gomatic/gocd/authorization.py:59-69 | the section given has the tag and is the authorization's section of that tag afterwards; tag and attributes are kept |
| Authorization.EnsureSectionNoDuplicate | gomatic/gocd/authorization.py:59-69 | there is one section of the tag afterwards when there was none and as many as before otherwise; a second call changes nothing |
| Authorization.PutSection | gomatic/gocd/authorization.py:59-69 | a section changed through the handle reads back, and children of other tags are untouched |
| Authorization.MakeEmpty | gomatic/gocd/authorization.py:71-72 | every child goes, so no section is present and reading users of any section raises |
| Plugins.PropertyElement | gomatic/gocd/security.py:62-64 | a property is written as a `property` with a `key` child then a `value` child, each holding the text its markup parses to |
| Plugins.PropertiesOf | gomatic/gocd/security.py:32-37 | the properties read exactly when every `property` has a `key` and a `value` child |
| Plugins.PropertiesRoundTrip | gomatic/gocd/security.py:32-37 | properties written from a dict read back as the dict's map |
| Plugins.PropsMapReads | gomatic/gocd/security.py:32-37 | with distinct keys every written property reads back with its own value |
| Plugins.PropsMapKeys | gomatic/gocd/security.py:32-37 | no key is read back that was not written |
| Plugins.EntryReads | gomatic/gocd/security.py:92-98 | a written auth config or profile reads back its id, plugin id and properties |
| Plugins.AppendEntry | gomatic/gocd/security.py:112-118 | the entry is always appended last, with no deduplication, and other tags are untouched |
| Plugins.ReplaceFirstEntry | gomatic/gocd/security.py:120-124 | the new entry ends up last, and the container keeps its tag and attributes |
| Plugins.ReplaceFirstEntryReads | gomatic/gocd/security.py:120-124 | entries with other ids stay in order, and the number with the id is as before, or one when there were none |
| Plugins.At | gomatic/gocd/security.py:129-135 | indexing succeeds exactly for an integer within the Python range of the entries, giving one of them |
| Security.Users | gomatic/gocd/security.py:15-17 | a role's users read exactly when it has a `users` child, one text per `user` |
| Security.EnsureRole | gomatic/gocd/security.py:55-60 | a new role is always appended after the existing roles, and plugin roles are untouched |
| Security.EnsureRoleReads | gomatic/gocd/security.py:11-60 | the appended role reads back its name and its users in the order given, and the role count grows by one |
| Security.EnsurePluginRole | gomatic/gocd/security.py:62-69 | a new plugin role is always appended, and plain roles are untouched |
| Security.EnsurePluginRoleReads | gomatic/gocd/security.py:20-78 | the plugin role reads back its name, auth config id and properties, and neither `len` nor indexing of the roles sees it |
| Security.RoleAt | gomatic/gocd/security.py:72-75 | indexing gives a plain role, and a non-integer index raises |
| Security.MakeEmpty | gomatic/gocd/security.py:52-53 | every child goes and the attributes stay |
| Security.AuthConfigEqualsAsWritten | gomatic/gocd/security.py:100-101 | comparing two auth configs always raises, since the attribute compared is never defined |
| Security.EnsureAuthConfig | gomatic/gocd/security.py:112-118 | the auth config is always appended and the count grows by one |
| Security.EnsureReplacementOfAuthConfig | gomatic/gocd/security.py:120-124 | the last auth config afterwards has the given id and plugin id |
| Security.AuthConfigAt | gomatic/gocd/security.py:129-132 | indexing gives an auth config, and a non-integer index raises |
| Security.EnsureRoles | gomatic/gocd/security.py:150-152 | the roles are present afterwards and the auth configs are untouched |
| Security.EnsureAuthConfigs | gomatic/gocd/security.py:154-156 | the auth configs are present afterwards and the roles are untouched |
| Security.EnsureReplacementOfRoles | gomatic/gocd/security.py:163-166 | the roles are there and empty, and the auth configs are untouched |
| Security.EnsureReplacementOfAuthConfigs | gomatic/gocd/security.py:158-161 | the auth configs are there and empty, and the roles are untouched |
| Security.EnsureReplacementIdempotent | gomatic/gocd/security.py:158-166 | replacing twice is replacing once, for the roles and for the auth configs |
| Elastic.ProfileEqualsById | gomatic/gocd/elastic.py:26-27 | two profiles with the same id are equal whatever their plugin and properties, and profiles with different ids are not |
| Elastic.EnsureProfile | gomatic/gocd/elastic.py:38-44 | a profile is always appended and given; its id, plugin id and properties read back as given |
| Elastic.EnsureReplacementOfProfile | gomatic/gocd/elastic.py:46-50 | the new profile is the last one and carries the given id and plugin id |
| Elastic.ProfileAt | gomatic/gocd/elastic.py:55-61 | indexing succeeds exactly for an integer within the Python range of the profiles |
| Elastic.MakeEmpty | gomatic/gocd/elastic.py:52-53 | every child goes, attributes stay, and no profile is left |
| Elastic.EnsureProfiles | gomatic/gocd/elastic.py:72-74 | the profiles are present afterwards, and an existing `profiles` child is returned unchanged |
| Elastic.EnsureReplacementOfProfiles | gomatic/gocd/elastic.py:76-79 | the profiles are there and empty, and no second `profiles` child is created |
| ArtifactStores.StoreId | gomatic/gocd/artifact_stores.py:11-13 | the id reads exactly when the attribute is present |
| ArtifactStores.StorePluginId | gomatic/gocd/artifact_stores.py:15-17 | the plugin id reads exactly when the attribute is present |
| ArtifactStores.StoreEquals | gomatic/gocd/artifact_stores.py:26-27 | equality reads both ids and holds exactly when they are the same |
| ArtifactStores.Stores | gomatic/gocd/artifact_stores.py:34-36 | an absent container has no stores |
| ArtifactStores.EnsureArtifactStore | gomatic/gocd/artifact_stores.py:38-42 | it raises exactly when the container is absent; otherwise the store is appended last and given |
| ArtifactStores.StoreReads | gomatic/gocd/artifact_stores.py:19-42 | a written store reads back its id, plugin id and properties; a missing or empty value reads back as no text |
| ArtifactStores.EnsureReplacementOfArtifactStore | gomatic/gocd/artifact_stores.py:44-48 | it raises exactly when the container is absent or a store lacks an id, or a store with the id lacks a plugin id |
| ArtifactStores.EnsureReplacementOfArtifactStoreReads | gomatic/gocd/artifact_stores.py:44-48 | afterwards the new store is the only one with that id and plugin id, and the other stores are there in order |
| ArtifactStores.StoreAt | gomatic/gocd/artifact_stores.py:53-59 | indexing succeeds exactly for an integer within the Python range of the stores |
| ArtifactStores.MakeEmpty | gomatic/gocd/artifact_stores.py:50-51 | a present container is cleared and an absent one stays absent |
| ConfigRepos.VersionLessTransitive | gomatic/gocd/config_repos.py:9-18 | the version order used for the two thresholds is transitive |
| ConfigRepos.VersionLessIrreflexive | gomatic/gocd/config_repos.py:9-18 | no version is below itself |
| ConfigRepos.NewAttrNameHasId | gomatic/gocd/config_repos.py:9-18 | a server at or above 17.9.0 also has ids, and 17.8.5 has ids but the old `plugin` attribute name |
| ConfigRepos.Cvs | gomatic/gocd/config_repos.py:32-36 | the kind is the tag of the first child whose tag is git, svn, hg, p4 or tfs, and None when there is none |
| ConfigRepos.Url | gomatic/gocd/config_repos.py:28-30 | the url reads exactly when the repo has a version-control child |
| ConfigRepos.Configuration | gomatic/gocd/config_repos.py:38-43 | without a `configuration` child reading it raises |
| ConfigRepos.RepoId | gomatic/gocd/config_repos.py:50-55 | before 17.8.0 the repo id is None |
| ConfigRepos.RepoEquals | gomatic/gocd/config_repos.py:64-65 | equality raises exactly when a url cannot be read, and holds exactly for equal urls and equal plugins |
| ConfigRepos.Contains | gomatic/gocd/config_repos.py:99 | membership is true only when some repo is equal, and false exactly when every repo reads as different |
| ConfigRepos.DefaultId | gomatic/gocd/config_repos.py:87-89 | the default id is the url's characters other than `:`, in order, with each `/` turned into `-`; it is shorter than the url by the number of `:`; a url with neither is its own default id |
| ConfigRepos.RepoElement | gomatic/gocd/config_repos.py:81-95 | the built repo starts with the version-control child carrying the url, carries the plugin under the version's attribute name, and with ids carries the id given or else the default id |
| ConfigRepos.RepoElementReads | gomatic/gocd/config_repos.py:28-95 | a written repo reads back its kind, url and configuration; without a configuration reading it raises |
| ConfigRepos.EnsureConfigRepo | gomatic/gocd/config_repos.py:81-101 | it raises exactly when comparing with the existing repos raises; the built repo is appended exactly when no equal repo is there, and the container is otherwise unchanged |
| ConfigRepos.EnsureConfigRepoIdempotent | gomatic/gocd/config_repos.py:81-101 | a second identical call finds the repo and changes nothing |
| ConfigRepos.ContainsAppendSelf | gomatic/gocd/config_repos.py:99-100 | once appended, the repo is found |
| ConfigRepos.EnsureYamlConfigRepo | gomatic/gocd/config_repos.py:110-111 | the repo carries plugin `yaml.config.plugin` and kind git |
| ConfigRepos.EnsureJsonConfigRepo | gomatic/gocd/config_repos.py:113-114 | the repo carries plugin `json.config.plugin` and kind git |
| ConfigRepos.EnsureReplacementOfConfigRepo | gomatic/gocd/config_repos.py:103-108 | when it succeeds every repo had a readable url |
| ConfigRepos.EnsureReplacementOfConfigRepoReads | gomatic/gocd/config_repos.py:103-108 | when every url reads it succeeds, leaves the other repos in order and the new repo last |
| ConfigRepos.RemainingReposDiffer | gomatic/gocd/config_repos.py:103-108 | once the repos with the url are gone, none of the rest equals a repo with that url |
| ConfigRepos.MakeEmpty | gomatic/gocd/config_repos.py:57-79 | every child goes and the attributes stay |
| ConfigRepos.MakeEmptyRepo | gomatic/gocd/config_repos.py:28-58 | an emptied repo has no version-control child, so its url and configuration raise, while its plugin and id stay |
| Repositories.Wrap | gomatic/gocd/repositories.py:9-13 | the wrapped element has an id; one it already had is kept unchanged, otherwise the fresh id is the only change |
| Repositories.Name | gomatic/gocd/repositories.py:18-20 | the name is the `name` attribute; a missing one raises |
| Repositories.MakeEmpty | gomatic/gocd/repositories.py:22-23 | every child goes; the attributes, the id among them, stay |
| Repositories.PropertyOf | gomatic/gocd/repositories.py:88-91 | a property holds a `key` child then a `value` child, or an `encryptedValue` child when encrypted, each holding the text its markup parses to |
| Repositories.PropertyOfHasKey | gomatic/gocd/repositories.py:39 | the written property matches its own key exactly when the key is not empty |
| Repositories.AppendProperty | gomatic/gocd/repositories.py:32-35 | the configuration is found or created and the property goes last in it; nothing else changes |
| Repositories.RemoveProperty | gomatic/gocd/repositories.py:37-42 | it raises exactly when some property has no `key` child |
| Repositories.RemovePropertyReads | gomatic/gocd/repositories.py:37-42 | afterwards the properties are the old ones without those with the key, in order, and nothing outside the configuration changes |
| Repositories.SetPackageProperty | gomatic/gocd/repositories.py:44-57 | it raises exactly when a key is unreadable; otherwise the properties are the old ones without the key, then the new one |
| Repositories.SetPackagePropertyReads | gomatic/gocd/repositories.py:44-57 | with a non-empty key exactly one property carries it afterwards, the new one, last; the others stay in order |
| Repositories.SetRepoProperty | gomatic/gocd/repositories.py:84-95 | it raises exactly when some plugin configuration lacks an `id`; otherwise the property is appended to the configuration |
| Repositories.SetRepoPropertyPluginConfiguration | gomatic/gocd/repositories.py:84-85 | afterwards there is one generic-artifactory plugin configuration when there was none, as many as before otherwise, and the first has `version="1"` |
| Repositories.SetRepositoryUrl | gomatic/gocd/repositories.py:104-107 | afterwards the properties are the old ones without `REPO_URL`, then the new `REPO_URL` |
| Repositories.SetCredentials | gomatic/gocd/repositories.py:109-114 | afterwards no old `USERNAME` or `PASSWORD` is left, and the quoted user name in plain then the encrypted password come last |
| Repositories.SetCredentialsSteps | gomatic/gocd/repositories.py:109-114 | each of the four steps of `set_credentials` succeeds in turn on readable keys and carried ids |
| Repositories.PutNamed | gomatic/gocd/repositories.py:120-124 | find-or-create by name in the container raises exactly when some child of the tag lacks a name |
| Repositories.PutNamedFinds | gomatic/gocd/repositories.py:120-124 | the child ends up the first with that name in the container, with an id |
| Repositories.PutNamedIdempotent | gomatic/gocd/repositories.py:120-124 | a second call with any fresh id changes nothing, so the id is assigned once |
| Repositories.StampIds | gomatic/gocd/repositories.py:9-13 | after wrapping every package of the container, each has an id; a container whose packages all have ids is unchanged; names stay |
| Repositories.Packages | gomatic/gocd/repositories.py:116-118 | the packages read exactly when there is a `packages` child; each is a wrapped `package` with an id; when all had ids the document is unchanged and they are its `package` children |
| Repositories.PackagesStampOnce | gomatic/gocd/repositories.py:116-118 | a second read, with any fresh ids, changes nothing and yields the same packages; the read changes nothing outside `packages` |
| Repositories.EnsurePackage | gomatic/gocd/repositories.py:120-124 | the package given has the name and an id |
| Repositories.EnsureReplacementOfPackage | gomatic/gocd/repositories.py:132-135 | the package given keeps its name and id and has no children |
| Repositories.EnsurePackageIdempotent | gomatic/gocd/repositories.py:120-135 | ensuring or replacing a package again, with any fresh id, changes nothing |
| Repositories.EnsureRemovalOfPackage | gomatic/gocd/repositories.py:116-130 | it raises exactly when there is no `packages` child or some package lacks a name |
| Repositories.EnsureRemovalOfPackageReads | gomatic/gocd/repositories.py:116-130 | the packages left are the packages as read (given ids where they had none) without the named ones, in order; reading again changes nothing; when every package had an id the others stay exactly; nothing outside `packages` changes |
| Configurator.FlattenMembers | gomatic/go_cd_configurator.py:178-184 | a pipeline is listed exactly when it is a pipeline of one of the groups |
| Configurator.AllPipelinesMembers | gomatic/go_cd_configurator.py:178-184 | `pipelines` lists every pipeline of every group and nothing else; a group added at the end adds its pipelines at the end |
| Configurator.Reorder | gomatic/go_cd_configurator.py:58-67 | the reorder succeeds exactly when the materials of every pipeline and template can be read; the root itself keeps its tag, attributes and text |
| Configurator.ReorderedGroups | gomatic/go_cd_configurator.py:59-65 | each group after the reorder is the old group with its pipelines reordered, groups in their old order |
| Configurator.ReorderedOthers | gomatic/go_cd_configurator.py:58-62 | children of tags other than the four moved ones keep their order and are unchanged |
| Configurator.ReorderedOther | gomatic/go_cd_configurator.py:58-62 | children of any tag but `pipelines` and `templates`, environments and agents among them, are unchanged and in their order |
| Configurator.ReorderedTemplates | gomatic/go_cd_configurator.py:60-67 | only the first templates container has its pipelines reordered; later ones are moved but untouched |
| Configurator.ReorderReads | gomatic/go_cd_configurator.py:58-67 | the reordered root read tag by tag: others unchanged, groups with pipelines reordered, the first templates container reordered |
| Configurator.FlattenReordered | gomatic/go_cd_configurator.py:64-65 | the pipelines of the reordered groups are the old pipelines, each reordered |
| Configurator.PipelinesAfterReorder | gomatic/go_cd_configurator.py:64-67 | `pipelines` and `templates` of the reordered root are the old ones, each reordered, in the same order |
| Configurator.ReorderKeepsReadable | gomatic/go_cd_configurator.py:64-67 | every pipeline and template of the reordered root can be read again |
| Configurator.ReorderedChildrenIdempotent | gomatic/go_cd_configurator.py:58-67 | reordering the root children twice is reordering them once, whether or not the pipelines read |
| Configurator.ReorderIdempotent | gomatic/go_cd_configurator.py:58-67 | reordering a reordered config changes nothing |
| Configurator.ReorderShape | gomatic/go_cd_configurator.py:58-67 | the reordered children are the other tags, then the groups, the templates containers, the environments and the agents |
| Configurator.MovedShape | gomatic/go_cd_configurator.py:59-62 | the four moves leave the other children first, then each moved tag's children in the order moved |
| Configurator.Config | gomatic/go_cd_configurator.py:69-72 | the config text exists exactly when the reorder succeeds |
| Configurator.ConfigStable | gomatic/go_cd_configurator.py:69-72 | the config of an already reordered root is the config of the root |
| Configurator.EnsurePipelineGroup | gomatic/go_cd_configurator.py:134-136 | it raises exactly when some group has no name; the group given has the name and is one of the root's groups |
| Configurator.EnsurePipelineGroupReads | gomatic/go_cd_configurator.py:134-136 | with a group of that name the root is unchanged; without, exactly one new group is appended and the others stay |
| Configurator.EnsurePipelineGroupIdempotent | gomatic/go_cd_configurator.py:134-136 | a second call finds the same group and changes nothing |
| Configurator.EnsurePipelineGroupNoDuplicate | gomatic/go_cd_configurator.py:134-136 | the number of groups of that name becomes one when there were none and stays as it was otherwise |
| Configurator.EnsureRemovalOfPipelineGroup | gomatic/go_cd_configurator.py:147-151 | it raises exactly when some group has no name |
| Configurator.EnsureRemovalOfPipelineGroupReads | gomatic/go_cd_configurator.py:147-151 | the groups are the old ones without that name, in order; other root children are untouched; with none of that name nothing changes |
| Configurator.RemoveAllPipelineGroups | gomatic/go_cd_configurator.py:153-156 | no group is left and the root keeps its tag, attributes and text |
| Configurator.RemoveAllPipelineGroupsKeepsOthers | gomatic/go_cd_configurator.py:153-156 | children of every other tag are untouched |
| Configurator.TemplatesOfContainer | gomatic/go_cd_configurator.py:186-191 | the templates read are those of the container `ensure_child('templates')` gives |
| Configurator.EnsureTemplate | gomatic/go_cd_configurator.py:190-192 | it raises exactly when some template has no name; the template given has the name and is among the templates |
| Configurator.EnsureTemplateIdempotent | gomatic/go_cd_configurator.py:190-192 | a second call finds the same template and changes nothing |
| Configurator.EnsureTemplateNoDuplicate | gomatic/go_cd_configurator.py:190-192 | the number of templates of that name becomes one when there were none and stays as it was otherwise |
| Configurator.EnsureReplacementOfTemplate | gomatic/go_cd_configurator.py:194-197 | it raises exactly when ensuring does; the template given has no children and no label template, and keeps its name |
| Configurator.EnsureReplacementOfTemplateReads | gomatic/go_cd_configurator.py:194-197 | the emptied template is the first of that name among the templates |
| Configurator.EnsureReplacementOfTemplateIdempotent | gomatic/go_cd_configurator.py:194-197 | a second replacement finds the emptied template and changes nothing |
| Configurator.RemoveChildAt | gomatic/go_cd_configurator.py:206 | removing one child leaves one fewer and keeps the root's tag, attributes and text |
| Configurator.EnsureRemovalOfTemplate | gomatic/go_cd_configurator.py:199-207 | it raises exactly when some template has no name |
| Configurator.EnsureRemovalOfTemplateKeeps | gomatic/go_cd_configurator.py:199-204 | while another template is left, the templates are the old ones without that name, in order, and the container stays |
| Configurator.EnsureRemovalOfTemplateDrops | gomatic/go_cd_configurator.py:205-206 | when no other template is left the container goes, even with other children in it; without a container the root is unchanged |
| Configurator.EnsureRemovalOfTemplateKeepsOthers | gomatic/go_cd_configurator.py:199-207 | children of every other tag are untouched |
| Configurator.EnsureRepository | gomatic/go_cd_configurator.py:162-166 | it raises exactly when some repository has no name; the repository given has the name and an id and is among the repositories |
| Configurator.EnsureRepositoryIdempotent | gomatic/go_cd_configurator.py:162-166 | a second call, with any fresh id, changes nothing |
| Configurator.EnsureRepositoryKeepsExisting | gomatic/go_cd_configurator.py:163-165 | a repository of that name that already has an id is found and nothing changes |
| Configurator.EnsureRemovalOfAgent | gomatic/go_cd_configurator.py:172-176 | it raises exactly when some agent has no host name |
| Configurator.EnsureRemovalOfAgentReads | gomatic/go_cd_configurator.py:172-176 | the agents are the old ones without that host, in order; nothing else changes; with no agent at that host nothing changes |
| Configurator.ServerAttribute | gomatic/go_cd_configurator.py:74-92 | the getter reads a value exactly when there is a `server` child carrying the attribute |
| Configurator.SetServerAttribute | gomatic/go_cd_configurator.py:78-96 | the setter leaves a `server` child and keeps the root's tag, attributes and text |
| Configurator.ServerAttributeReadsBack | gomatic/go_cd_configurator.py:74-96 | reading back gives the value set, other attributes read as before, other children are untouched, and no second `server` appears |
| Configurator.EnsureConfigRepos | gomatic/go_cd_configurator.py:138-140 | the container given is the one `config_repos` then reads; an existing one is found and nothing changes |
| Configurator.EnsureConfigReposIdempotent | gomatic/go_cd_configurator.py:138-140 | a second call changes nothing and no other child is touched |
| Configurator.EnsureReplacementOfConfigRepos | gomatic/go_cd_configurator.py:142-145 | the container read afterwards is the one given and holds no config repo; an existing one keeps its attributes |
| Configurator.EnsureReplacementOfConfigReposIdempotent | gomatic/go_cd_configurator.py:142-145 | replacing again changes nothing and no other child is touched |
| Configurator.EnsureSecurity | gomatic/go_cd_configurator.py:209-211 | the element given is the first `security` of the `server` child, both there afterwards |
| Configurator.SecurityOf | gomatic/go_cd_configurator.py:218-220 | the getter ensures `server` and reads its first `security`, which may be absent; with a `server` the root is unchanged |
| Configurator.EnsureSecurityReads | gomatic/go_cd_configurator.py:209-220 | after `ensure_security()` the getter finds that element, and a second call changes nothing |
| Configurator.EnsureReplacementOfSecurity | gomatic/go_cd_configurator.py:213-216 | the security element given is the one the server holds and has no children |
| Configurator.EnsureReplacementOfSecurityReads | gomatic/go_cd_configurator.py:213-220 | the getter then finds the emptied element, and replacing again changes nothing |
| Configurator.GitUrlOf | gomatic/go_cd_configurator.py:224 | one pipeline gives its url exactly when it has a single git material, and raises when its materials cannot be read |
| Configurator.GitUrlsOf | gomatic/go_cd_configurator.py:224 | the urls read exactly when every pipeline's materials read |
| Configurator.GitUrlsOfMembers | gomatic/go_cd_configurator.py:222-224 | a url is listed exactly when some pipeline's single git material has it |
| Configurator.GitUrls | gomatic/go_cd_configurator.py:222-224 | `git_urls` reads exactly when every pipeline of every group reads |
| Configurator.GitUrlsAppendGroup | gomatic/go_cd_configurator.py:222-224 | a new group's pipelines add their urls after the existing ones |

## Left out

- HTTP transport, the load and save cycle, `main`, `gomatic/utils.py` and `gomatic/gocd/encryption.py`: these are network and process I/O.
- `prettify` and `has_changes`: they wrap the minidom pretty-printer. `Configurator.Config` takes the serialiser as a parameter.
- Python code generation (`as_python*`, `__repr__`, `then`): it emits source text and carries no behaviour of the tree. `Materials.Repr` keeps only the `str` form that the material comparator sorts by.
- `uuid4()` and `uuid1()`: a `freshId` argument, or `newId` (a fresh id per child position) where every package read is wrapped. The lemmas hold for every fresh id offered.
- `gomatic/go_cd_configurator.py` imports `Repository`, which `gomatic/gocd/repositories.py` does not define, so as written that import fails. `Configurator.EnsureRepository` and `Configurator.RepositoriesOf` model the `repository` elements that `ensure_repository` and `repositories` evidently meant to wrap.
- `urllib.quote` in `set_credentials`: a `quote` argument.
- `LooseVersion`: only dotted numeric versions, as sequences of naturals. Alphabetic version parts are not modelled.
- The `server_version` that `ConfigRepos` reads from the configurator is not defined in `gomatic/go_cd_configurator.py`. It is a `Version` parameter.
- The `Decimal` server settings `purge_start` and `purge_upto`: decimal arithmetic and `str` formatting of decimals are not modelled. The string attributes of `server` are modelled.
- String-built XML: attribute values and text are taken as markup-safe. Escaping is not modelled, apart from the empty-text effect of parsing.
- Mixins.NodeViewEq: equality of views is stated on element values, because the model has no object identity. Two distinct elements with equal content, such as two identical sibling `<agent hostname="h"/>` elements, give views the source calls unequal and the model calls equal.
- Agents.AgentEquality: the same gap as `Mixins.NodeViewEq`. Two identical sibling `agent` elements give agents the source calls unequal and the model calls equal.
- Pipelines.PackageMaterials: states the corrected read, the package materials among the decoded materials. As written it raises on every material, since no material class defines `is_package` (`Pipelines.PackageMaterialsAsWritten`).
- Pipelines.SetPackageMaterial: states the corrected setter. As written it reads `package_materials` first, so it raises whenever the pipeline has a material (`Pipelines.SetPackageMaterialAsWritten`).
- Pipelines.SetPackageMaterialReads: states the corrected round trip. As written the setter raises on a pipeline with a material, and the read after it raises too (`Pipelines.SetPackageMaterialAsWritten`, `Pipelines.PackageMaterialsAsWritten`).
- Pipelines.PackageMaterial: states the corrected read, with `is_package` true exactly for package materials. As written it always raises (`Pipelines.PackageMaterialAsWritten`).
- Pipelines.HasSinglePackageMaterial: states the corrected read. As written it raises whenever the pipeline has a material (`Pipelines.HasSinglePackageMaterialAsWritten`).
- Pipelines.SetPackageRef: states the corrected setter. As written it raises whenever the pipeline has a material (`Pipelines.SetPackageRefAsWritten`).
- Pipelines.SetPackageRefReads: states the corrected round trip. As written the read after the set always raises (`Pipelines.SetPackageRefAsWrittenNeverReads`).
- Tasks.Decode: reads arguments with the corrected `Tasks.ArgTexts`, so an `arg` child without text is the empty argument. As written it is None; `Tasks.ArgTextsAgree` shows the two reads agree whenever every `arg` child has text.
- Tasks.ExecTaskRoundTrip: holds for the corrected read. As written an exec task comes back equal only when it has no empty argument (`Tasks.ArgTextsAsWrittenOfEncoded`).
- Jobs.EnsureTask: compares against tasks decoded with the corrected argument read. As written an exec task with an empty argument never equals its read-back, so it is appended again on every call.
- Jobs.EnsureTaskIdempotent: holds for the corrected read. As written it holds only for tasks without an empty argument, for the reason given under `Jobs.EnsureTask`.
- Partial mutation before an exception: an `Err` result leaves the whole tree unchanged. The source may already have changed part of the tree when it raises.
- Error messages: only the fact of an exception is modelled, not its text or class.
- `Pipeline.__eq__`, `Pipeline.template` and `Pipeline.is_template`: equality compares serialised text together with the parent view, and `template` reaches the templates through the parent group's configurator. Both are object-graph lookups outside the tree.
- `PipelineGroup.templates` simply passes through to the configurator and has no row of its own.
- `ensure_elastic` is not defined in `gomatic/go_cd_configurator.py`. `Elastic.EnsureProfiles` models the `Elastic` side on its element.
- `__init__.py` imports `MavenTask` and `ScriptExecutorTask`, which `gomatic/gocd/tasks.py` does not define. They are not part of this model.
- Security.AuthConfigEqualsAsWritten: `AuthConfig.__eq__` reads an attribute that is never set, so every comparison raises. Only the as-written form is modelled; no intended comparison is evident.
- `FetchArtifactTask.append_to` writes `origin` onto the job element rather than the task element. `Tasks` models it as written, and the task round trip drops the origin.
- Repositories.SetPackagePropertyReads: requires a non-empty key. An empty key parses to a `key` child with no text, so no property matches it afterwards (`Repositories.PropertyOfHasKey`).
- Stages.SetHasManualApprovalReads: requires that the first `approval` child be absent or manual. `has_manual_approval` reads only the first `approval` child, so an earlier approval of another type hides the manual one the setter finds or adds.
- Pipelines.EnsureParametersReads: requires the existing parameters to have distinct names. With duplicates, the source updates only the first of each name.
- Pipelines.SetTimerReads: with `only_on_changes`, requires the first timer to carry the flag, or no timer at all. `timer` and `timer_triggers_only_on_changes` read the first `timer` child, while the setter may find or add a later one.

## Findings

| source | as written | input that shows it | evidently intended | confidence | as-written member | corrected member |
|---|---|---|---|---|---|---|
| gomatic/xml_operations.py:19-26 | a new child is parsed from `<tag>text</tag>`, and later calls look for a child whose text equals `text` | `ensure_child_with_text("x", "")` twice: the child reads back with no text, so the second call appends another | find-or-create keyed by tag and text, idempotent for every text | not executed | Xml.EnsureChildWithTextAsWrittenDuplicatesEmpty | Xml.EnsureChildWithTextIdempotent |
| gomatic/xml_operations.py:37-50 | a new child is parsed from `<tag><name>value</name></tag>`, and later calls look for a child whose `name` descendant has text `value` | `ensure_child_with_descendant("materials", "git", "")` twice: the descendant reads back with no text, so the second call appends another | find-or-create keyed by the descendant's text, idempotent for every value | not executed | Xml.EnsureChildWithDescendantAsWrittenRepeatsEmpty | Xml.EnsureChildWithDescendantIdempotent |
| gomatic/gocd/tasks.py:12 | each argument is read as `e.text` | `ExecTask(["echo", ""])` appended and read back gives `["echo", None]` | the arguments read back as written, the empty one as `""` | not executed | Tasks.EmptyArgumentReadsAsNone | Tasks.ArgTexts |
| gomatic/gocd/generic.py:13-17 | a resource is added unless one with that text is present, and is parsed from markup | `ensure_resource("")` twice appends two text-less `resource` children | ensuring a resource that is already there changes nothing | not executed | Generic.EnsureResourceAsWrittenRepeatsEmpty | Generic.EnsureResourceIdempotent |
| gomatic/gocd/generic.py:44-55 | ensuring a plain value removes `secure` but keeps an existing `encryptedValue` child | `ensure_environment_variables({"X": "v"})` on a job whose `X` is encrypted: `X` is then in none of the three dicts | `X` reads in the plain dict with value `v` | not executed | Generic.EnsurePlainOverEncryptedAsWritten | Generic.EnsurePlainOverEncrypted |
| gomatic/gocd/generic.py:66-73 | removal rebuilds the variables from the plain and encrypted dicts only | `remove_environment_variable("Y")` on a job with one unencrypted secure variable `X` loses `X` | every variable but the named one is kept | not executed | Generic.RemoveVariableAsWrittenDropsSecure | Generic.RemoveVariableKeepsSecure |
| gomatic/gocd/pipelines.py:388-391 | a material is added unless an equal one is among the decoded materials | a git material with `branch="master"` ensured twice: it is decoded with no branch, never compares equal, and is added again | ensuring a material twice adds it once | not executed | Pipelines.EnsureMaterialAsWrittenRepeatsMaster | Pipelines.EnsureMaterialOnceForMaster |
| gomatic/gocd/pipelines.py:397-399 | `package_materials` asks each material for `is_package`, which no material class defines | a pipeline with one git material: `package_materials` raises | the package materials among the materials | not executed | Pipelines.PackageMaterialsAsWrittenFailsOnGit | Pipelines.PackageMaterials |
