# XamlCombine merge engine in Dafny

XamlCombine merges many WPF/XAML resource dictionaries into one. Its engine,
`Combiner.Combine`, reads a list of dictionary files and creates an empty
result `ResourceDictionary` root. For each source root it then does three things:

- It reconciles the namespace declarations with those already on the result
  root. A prefix already bound to another URI gets the alias `<prefix>_0`. A
  URI already bound under another prefix is reused. In both cases every
  descendant of the source root is renamed with `ChangeNamespacePrefix`.
- It collects every keyed child as a `ResourceElement`. The key comes from
  `Key`, else `x:Key`, else `TargetType`. The first occurrence of a key wins,
  and unkeyed children and `ResourceDictionary.MergedDictionaries` are
  skipped. Each kept element also records the keys it uses, read from the
  `{DynamicResource …}` and `{StaticResource …}` values of its own attributes
  and of all its descendants (`FillKeys`).

Once every source is processed, the kept resources are ordered so that each
one comes after the kept resources it uses. Resources that use nothing come
first. Repeated passes then move every resource whose used keys are all
external or already placed. Finally the ordered elements are appended to
the result root and the document is written.

The model has one module per concern:

| module | file | models |
|---|---|---|
| `Text` | text.dfy | `StartsWith`, `Contains`, `String.Replace`, `String.Trim` |
| `Xml` | xml.dfy | elements, attributes, `HasAttribute`, `Attributes[name]`, `SetAttribute` |
| `NamespacePrefix` | prefixes.dfy | `ChangeNamespacePrefix` |
| `Resources` | resources.dfy | `ResourceElement` (the datatype `Resources.ResourceElement`, Source/XamlCombine/ResourceElement.cs:8-31: key, element and used keys, with equality over all three), the `keys` list and the `resourceElements` dictionary |
| `References` | references.dfy | `FillKeys` |
| `Collection` | collection.dfy | the loop over a source root's children |
| `Namespaces` | namespaces.dfy | the loop over a source root's attributes, as functions |
| `Ordering` | ordering.dfy | the dependency ordering |
| `Combiner` | combiner.dfy | the result root (a class), `Combine`, and `WriteResultFile`'s decision |

Each loop of the source that iterates over a collection is a method with a
`while` loop. The method's contract ties its result to a recursive
specification function, and the lemmas prove the source's promises about
those functions. `ChangeNamespacePrefix` (with its attribute loop
`RenameEachAttribute`), `FillKeys`, the collection loop, the two ordering
loops, the namespace loop (`ResultRoot.MergeNamespaces`, its body
`ResultRoot.MergeAttribute` and the search `SearchValue`) and `Combine` are
all written this way. The one exception is the alias `do`/`while` loop
(src/Combiner.cs:74-77). Its index is the constant 0, so every iteration
computes the same name and repeats the same test. The model evaluates that
test once, in `Namespaces.MergeStep` and `ResultRoot.MergeAttribute`: when
the test fails the loop has run once, and when it holds the loop never ends,
which the model reports as `AliasLoop`.

How the code behaves as written, which the model keeps:

- **The alias index never changes.** The alias loop (src/Combiner.cs:72-77)
  uses a constant index 0. If the result root already declares
  `xmlns:<prefix>_0`, the loop never ends. The model returns
  `AliasLoop(alias)` there (`Namespaces.AliasLoopExample`).
- **An existing `_0` declaration is overwritten.** The alias is written onto
  the source root with `SetAttribute` (line 79). If the source already
  declares `xmlns:<prefix>_0`, that declaration loses its URI
  (`Namespaces.AliasOverwritesExample`).
- **The default namespace can be reused as a prefix.** URI reuse (lines
  90-98) compares against every result-root attribute, including a default
  `xmlns` declaration. The copy branch (lines 105-107) puts the first
  source's default declaration on the result root, so this is the usual
  state. A prefixed declaration of the default namespace in a later source
  then renames descendants to the prefix `xmlns`. Elements accept that
  prefix (`Namespaces.DefaultNamespaceReuse`). An attribute is different:
  the `XmlAttribute.Prefix` setter throws an `ArgumentException` when the
  prefix `xmlns` is given to an attribute that is not a namespace
  declaration. So a descendant attribute carrying the declared prefix, such
  as `p:Tag`, makes line 226 throw. The `catch` in `Combine` logs the
  exception and nothing is written. The model returns
  `ExceptionLogged(PrefixThrown("xmlns"))`
  (`Namespaces.DefaultNamespaceReuseThrows`,
  `Combiner.DefaultPrefixAttributeLogged`).
- **The ordering loop has no progress check.** The loop at lines 152-166
  never ends when a pass moves nothing, for example on a reference cycle or
  a resource that uses its own key. The model returns `NeverTerminates`.
  It proves that this state repeats itself (`Ordering.StuckIsFixpoint`) and
  that the stuck resources use each other's keys
  (`Ordering.StuckEntriesReferToStuck`).
- **Bare reference values throw.** A value equal to `{DynamicResource ` or
  `{StaticResource ` makes `Substring` throw. The exception reaches the
  `catch` in `Combine`, which logs it and writes nothing. The model returns
  `ExceptionLogged(SubstringThrown(value))`.
- **Descendant keys are not deduplicated.** `FillKeys` removes duplicates
  only among an element's own attributes. Keys from descendants are
  appended as they are (`References.DescendantKeysNotDeduplicated`).
- **Blank lines are not skipped.** Every line of the list file is loaded,
  including blank ones. A blank line does not name a file, so loading fails.
  File access is outside the model (see Left out).

## Model

| member | source | states |
|---|---|---|
| Text.StartsWith | src/Combiner.cs:251 | definition, no contract: ordinal `String.StartsWith`: the pattern is a prefix of the value |
| Text.Contains | src/Combiner.cs:228 | definition, no contract: ordinal `String.Contains`: the pattern occurs at some position of the value |
| Text.IsWhiteSpace | src/Combiner.cs:253 | definition, no contract: the characters `Char.IsWhiteSpace` accepts, which `Trim` removes |
| Text.ReplaceAll | src/Combiner.cs:228-233 | `String.Replace`: a value without the pattern is unchanged; a value starting with the pattern starts with the replacement |
| Text.ReplaceAllSelf | src/Combiner.cs:228-233 | replacing a pattern by itself changes nothing (a rename to the same prefix leaves values alone) |
| Text.SkipStart | src/Combiner.cs:253 | the index reached from `i` is the first character that is not white space, or the end; everything skipped is white space |
| Text.SkipEnd | src/Combiner.cs:253 | the end reached from `j` leaves a last character that is not white space, or nothing; everything dropped is white space |
| Text.Trim | src/Combiner.cs:253 | `String.Trim`: the result is a slice of the input, only white space lies outside it, and it neither starts nor ends with white space |
| Xml.QualifiedName | src/Combiner.cs:67 | definition, no contract: `Name`: `prefix:localName`, or the local name alone without a prefix |
| Xml.AttrName | src/Combiner.cs:67 | definition, no contract: an attribute's `Name` |
| Xml.ElementName | src/Combiner.cs:113 | definition, no contract: an element's `Name`, compared with `ResourceDictionary.MergedDictionaries` |
| Xml.HasAttribute | src/Combiner.cs:67 | definition, no contract: `HasAttribute(name)`: the lookup by name finds an attribute |
| Xml.AttributeValue | src/Combiner.cs:69 | definition, no contract: `Attributes[name].Value`: the value of the first attribute with that name |
| Xml.FindAttribute | src/Combiner.cs:67-69 | the index found is the first attribute with that qualified name; none is found exactly when no attribute has it |
| Xml.SetAttribute | src/Combiner.cs:79 | overwrites the value of the first attribute with that name and changes nothing else, or appends a new attribute when there is none |
| Xml.SetThenLookup | src/Combiner.cs:79 | after `SetAttribute`, looking up the name it set finds an attribute holding the value it set |
| Xml.FindIsFirst | src/Combiner.cs:67-69 | the first attribute with a name is the one the lookup finds |
| Xml.AppendKeepsLookup | src/Combiner.cs:83 | appending attributes to the result root does not change what an existing name looks up |
| Xml.AppendFreshLookup | src/Combiner.cs:107 | an appended attribute with a new name is what that name then looks up |
| NamespacePrefix.RenameInExtension | src/Combiner.cs:228-229 | definition, no contract: a `{x:Type`/`{x:Static` value mentioning ` old:` gets every ` old:` replaced by ` new:` |
| NamespacePrefix.IsDeclaration | src/Combiner.cs:225-226 | definition, no contract: an attribute in the reserved `xmlns` namespace: `xmlns:p` or the unprefixed `xmlns` |
| NamespacePrefix.SetterRejects | src/Combiner.cs:225-226 | definition, no contract: `attr.Prefix = p` throws when the new name says namespace declaration and the attribute's namespace does not, or the reverse |
| NamespacePrefix.AttributeThrows | src/Combiner.cs:225-226 | definition, no contract: the setter runs on the attribute, which carries `old`, and throws |
| NamespacePrefix.NodesThrow | src/Combiner.cs:213-237 | definition, no contract: some attribute of some element among or below the nodes throws |
| NamespacePrefix.NodeThrows | src/Combiner.cs:215-235 | definition, no contract: the same for one child node |
| NamespacePrefix.SetterRules | src/Combiner.cs:225-226 | the setter refuses `xmlns` to every non-declaration and the empty prefix to a non-declaration called `xmlns`; it refuses every prefix but `xmlns` to a prefixed declaration; it never refuses an attribute's own prefix |
| NamespacePrefix.OrdinaryRenameAccepted | src/Combiner.cs:213-237 | a rename between two prefixes that are neither empty nor `xmlns` never throws |
| NamespacePrefix.AttributePrefixes | src/Combiner.cs:223-226 | definition, no contract: the attribute prefixes below the nodes, in document order |
| NamespacePrefix.RenameToXmlnsThrows | src/Combiner.cs:213-237 | renaming an ordinary prefix to `xmlns` throws exactly when some attribute below carries that prefix |
| NamespacePrefix.RenameAttribute | src/Combiner.cs:225-232 | definition, no contract: one attribute whose setter accepts the new prefix: its prefix, then an extension value, then a `Property` value read after the prefix change |
| NamespacePrefix.RenameAttributes | src/Combiner.cs:223-234 | every attribute keeps its position and local name, carries `new` wherever it carried `old`, and keeps every other prefix (so an attribute already prefixed `new` stays so) |
| NamespacePrefix.RenameElement | src/Combiner.cs:220-236 | definition, no contract: a descendant element with its prefix, its attributes and all its own descendants renamed |
| NamespacePrefix.RenameNode | src/Combiner.cs:215-218 | definition, no contract: a child node: an element is renamed, any other node is skipped |
| NamespacePrefix.RenameDescendants | src/Combiner.cs:205-238 | definition, no contract: when nothing throws, the start element with its own prefix and attributes kept and every descendant renamed |
| NamespacePrefix.RenameNodes | src/Combiner.cs:213-237 | every child node is renamed in place, in order; non-element nodes stay as they are |
| NamespacePrefix.ChangeNamespacePrefix | src/Combiner.cs:205-238 | the loops throw exactly when some descendant attribute's prefix setter refuses `new`; otherwise they produce exactly the renamed descendants, and the start element's own prefix, name and attributes and its number of children are unchanged |
| NamespacePrefix.RenameEachAttribute | src/Combiner.cs:223-234 | the inner attribute loop throws exactly when some attribute refuses `new`; otherwise it returns exactly the renamed attributes: prefix first, then a `{x:Type`/`{x:Static` value, then a `Property` value |
| NamespacePrefix.RenamePrefixes | src/Combiner.cs:220-236 | the element prefixes of the renamed tree, in document order, are the old ones with `old` replaced by `new` |
| NamespacePrefix.RenameElementPrefixes | src/Combiner.cs:220-236 | the same for one element and its subtree |
| NamespacePrefix.RenameRemovesPrefix | src/Combiner.cs:220-236 | after a rename to a different prefix, no descendant element has the old prefix |
| NamespacePrefix.RenameKeepsSkeleton | src/Combiner.cs:213-237 | the rename keeps the tree's shape and the local names of elements and attributes |
| NamespacePrefix.RenameToSelf | src/Combiner.cs:205-238 | renaming a prefix to itself changes nothing |
| Resources.HasNoDependencies | src/Combiner.cs:144 | definition, no contract: `UsedKeys.Length == 0` |
| Resources.Keys | src/Combiner.cs:129-132 | the `keys` list contains a key exactly when some kept entry has it, and repeats no key exactly when the kept entries have distinct keys |
| Resources.KeysAppend | src/Combiner.cs:132-136 | registering an entry appends exactly its key to the `keys` list |
| Resources.IndexOf | src/Combiner.cs:135 | definition, no contract: the `resourceElements` dictionary, each entry added under its key in list order |
| Resources.IndexOfMatches | src/Combiner.cs:132-136 | with distinct keys, `resourceElements` maps each kept key to its own entry and holds no other key |
| Resources.EqualityIsKeyIdentity | Source/XamlCombine/ResourceElement.cs:8-31 | among kept entries, `ResourceElement` equality is equality of keys |
| Resources.ContainsIsKeyMembership | src/Combiner.cs:156 | `finalOrderList.Contains(resourceElements[k])` holds exactly when an entry with key `k` is already in the output |
| References.Cut | src/Combiner.cs:253 | definition, no contract: `Substring(start, Length - start - 1).Trim()`, which throws when the length is negative |
| References.ReferenceIn | src/Combiner.cs:251-264 | definition, no contract: the key one attribute value refers to, by the `DynamicResource` test first and the `StaticResource` test second |
| References.OwnKeys | src/Combiner.cs:249-265 | definition, no contract: the loop over the element's own attributes, adding each key found unless already present |
| References.UsedKeys | src/Combiner.cs:245-275 | definition, no contract: what `FillKeys` returns or throws: the own keys, then the keys of each child element |
| References.NodeKeys | src/Combiner.cs:269-271 | definition, no contract: the keys of one child node: those of an element, none for any other node |
| References.ChildKeys | src/Combiner.cs:267-272 | definition, no contract: the keys of the child elements, concatenated in document order |
| References.PrefixesExclusive | src/Combiner.cs:251-258 | a value never starts with both reference prefixes |
| References.ReferenceInCases | src/Combiner.cs:251-264 | reading a value throws exactly when the value is a bare reference prefix; it finds nothing exactly when the value starts with neither prefix |
| References.ReferenceBetween | src/Combiner.cs:253-260 | the key read from `prefix + inner + last` is `inner`, trimmed |
| References.FillKeys | src/Combiner.cs:245-275 | the loops return exactly `UsedKeys(element)`: the element's own keys, then each child element's keys, or the value whose `Substring` throws |
| References.OwnKeysThrows | src/Combiner.cs:249-265 | the attribute loop throws exactly when some attribute value is a bare reference prefix |
| References.OwnKeysCollects | src/Combiner.cs:249-265 | the attribute loop only appends, and the keys it holds at the end are the keys it started with plus every key referenced by an attribute |
| References.OwnKeysDistinct | src/Combiner.cs:255-263 | the attribute loop never adds a key twice |
| References.UsedKeysSpec | src/Combiner.cs:245-275 | `FillKeys` throws exactly when some attribute in the subtree is a bare reference prefix; otherwise the keys it returns are the keys referenced anywhere in the subtree |
| References.ChildKeysSpec | src/Combiner.cs:267-272 | the same for the child elements |
| References.OwnKeysFirst | src/Combiner.cs:245-275 | the result is the element's own keys, distinct, followed by the children's keys |
| References.StaticBaseReference | src/Combiner.cs:258-260 | `{StaticResource Base}` yields the key `Base` |
| References.SingleReference | src/Combiner.cs:249-265 | one attribute with `{StaticResource Base}` gives the own keys `["Base"]` |
| References.DescendantKeysNotDeduplicated | src/Combiner.cs:267-272 | a `Style` and a child `Setter` that both use `Base` give `["Base", "Base"]` |
| Collection.ResourceKey | src/Combiner.cs:118-124 | definition, no contract: the value of `Key`, else of `x:Key`, else of `TargetType`, else the empty string |
| Collection.Eligible | src/Combiner.cs:113-114 | definition, no contract: a child the loop looks at: an element other than `ResourceDictionary.MergedDictionaries` |
| Collection.CollectOne | src/Combiner.cs:113-136 | definition, no contract: one child: skipped, or registered as an entry with the keys `FillKeys` finds, or the exception `FillKeys` throws |
| Collection.CollectFrom | src/Combiner.cs:111-137 | definition, no contract: the loop over the children of one source root, continuing the entries of earlier sources |
| Collection.KeyChoice | src/Combiner.cs:118-124 | the key is the first `Key` value, else the first `x:Key` value, else the first `TargetType` value, else empty |
| Collection.CollectResources | src/Combiner.cs:111-137 | the loop computes `CollectFrom`, and keeps `keys` and `resourceElements` in step with the entries it collects |
| Collection.CollectOneExtends | src/Combiner.cs:113-136 | one child only appends to the list, appends at most an entry built from it, and keeps keys distinct |
| Collection.CollectExtends | src/Combiner.cs:111-137 | the loop only appends; each appended entry comes from an eligible child with a non-empty key and the keys `FillKeys` returns; keys stay distinct |
| Collection.CollectCovers | src/Combiner.cs:126-132 | every eligible child with a non-empty key has its key among the kept keys |
| Collection.CollectFirstWins | src/Combiner.cs:129-136 | the first eligible child with a new key is the entry kept for that key |
| Collection.CollectOneOtherKey | src/Combiner.cs:129-132 | a child with another key does not add the key in question |
| Collection.CollectFails | src/Combiner.cs:126-134 | when collection throws, some eligible keyed child has a bare reference value in its subtree |
| Ordering.Ready | src/Combiner.cs:156 | definition, no contract: the `containsAll` test: every used key is external or belongs to an entry already in the output |
| Ordering.Independent | src/Combiner.cs:142-150 | every entry of the first pass's output has no used keys |
| Ordering.Dependent | src/Combiner.cs:142-150 | every entry left after the first pass has used keys |
| Ordering.SplitIsPermutation | src/Combiner.cs:142-150 | the first pass splits the list without losing or adding entries |
| Ordering.IndependentIsSound | src/Combiner.cs:142-150 | the first pass's output is a valid order |
| Ordering.MoveIndependent | src/Combiner.cs:142-150 | the `RemoveAt`/`i--` loop produces exactly the entries without dependencies, in order, and leaves the others, in order |
| Ordering.Pass | src/Combiner.cs:154-165 | a pass only appends to the output and conserves the entries; a pass that moves nothing changes nothing, and then no remaining entry is ready |
| Ordering.PassKeepsSound | src/Combiner.cs:154-165 | a pass keeps the output a valid order |
| Ordering.OrderPass | src/Combiner.cs:154-165 | the inner loop with `RemoveAt`/`i--` computes exactly one pass |
| Ordering.PassFromMove | src/Combiner.cs:159-164 | moving a ready entry to the output and removing it from the list, without advancing the index, leaves the outcome of the pass unchanged |
| Ordering.PassFromKeep | src/Combiner.cs:156-160 | stepping over an entry that is not ready leaves the outcome of the pass unchanged |
| Ordering.Passes | src/Combiner.cs:152-166 | the passes conserve the entries; when they never end, the stuck entries are non-empty and none of them is ready |
| Ordering.Order | src/Combiner.cs:140-166 | definition, no contract: the first pass, then the passes of the `while` loop |
| Ordering.OrderResources | src/Combiner.cs:140-166 | the two loops compute exactly `Order`, including when the `while` loop never ends |
| Ordering.OrderIsPermutation | src/Combiner.cs:140-166 | the output is a permutation of the kept entries, or, when stuck, output and stuck entries together are |
| Ordering.OrderIsSound | src/Combiner.cs:140-166 | every output entry comes after every kept entry it uses |
| Ordering.IndependentFirst | src/Combiner.cs:142-150 | entries without used keys come first, in their original order |
| Ordering.StuckEntriesReferToStuck | src/Combiner.cs:152-166 | when the loop never ends, every stuck entry uses the key of a stuck entry |
| Ordering.StuckIsFixpoint | src/Combiner.cs:152-166 | when stuck, a further pass changes nothing, so the `while` loop repeats forever |
| Ordering.NothingReadyMovesNothing | src/Combiner.cs:154-165 | a pass in which no entry is ready changes nothing |
| Ordering.OrderComplete | src/Combiner.cs:140-166 | if some valid order of the kept entries exists, the loop ends |
| Ordering.SoundOrderFreesAStuckEntry | src/Combiner.cs:152-166 | if the output and the remaining entries together admit a valid order, some remaining entry is ready, so a pass moves it |
| Ordering.SamePassUnblocks | src/Combiner.cs:156-164 | an entry moved earlier in a pass unblocks a later entry in the same pass |
| Namespaces.Alias | src/Combiner.cs:72-76 | the only alias the code tries: the local name followed by `_0` |
| Namespaces.MergeAll | src/Combiner.cs:64-109 | definition, no contract: the attribute loop over a whole source root |
| Namespaces.FindValue | src/Combiner.cs:90-98 | the first result-root attribute with the value, or none exactly when no attribute has it |
| Namespaces.MergeStep | src/Combiner.cs:66-108 | one attribute step only appends to the result root, by at most one attribute |
| Namespaces.SkipBranch | src/Combiner.cs:67-70 | an attribute whose name the result root holds is skipped when its value is the same or it is not an `xmlns` declaration: nothing changes |
| Namespaces.AliasBranch | src/Combiner.cs:72-83 | a clashing declaration loops forever exactly when `xmlns:<local>_0` is on the result root; otherwise the rename throws exactly when a descendant attribute refuses the alias, never for an ordinary prefix; otherwise that alias is appended to the result root with the declaration's URI, set on the source root with that URI, and every descendant prefix `<local>` becomes the alias, none being left |
| Namespaces.ReuseBranch | src/Combiner.cs:87-103 | a new declaration whose URI a result-root attribute holds either throws, exactly when some descendant attribute refuses that attribute's local name, or leaves the result root unchanged, keeps the declaration on the source root, and renames every descendant prefix to that local name. When the match is the default `xmlns` declaration it throws exactly when some descendant attribute carries the declared prefix; when the match is another ordinary prefix it never throws |
| Namespaces.CopyBranch | src/Combiner.cs:105-107 | any other attribute with a new name is appended to the result root, where its name then finds its value; the source root is unchanged |
| Namespaces.MergeFrom | src/Combiner.cs:64-109 | the attribute loop only appends to the result root |
| Namespaces.AliasStep | src/Combiner.cs:72-83 | the alias step keeps the current attribute and grows the source by at most one attribute |
| Namespaces.ReuseStep | src/Combiner.cs:95 | `SetAttribute` with the attribute's own name and value keeps the source's length and the current attribute |
| Namespaces.StepProgress | src/Combiner.cs:64-109 | every step that continues decreases the measure, although `SetAttribute` may extend the loop |
| Namespaces.MergeFromStep | src/Combiner.cs:64-109 | one iteration either enters the endless alias loop or throws in the rename, which is then the loop's outcome, or continues with a smaller measure and the same final outcome |
| Namespaces.StepKeepsNamesUnique | src/Combiner.cs:67-107 | a step never adds a name the result root already has |
| Namespaces.MergeKeepsNamesUnique | src/Combiner.cs:64-109 | the loop keeps the result root's attribute names distinct |
| Namespaces.StepBinds | src/Combiner.cs:66-108 | after a step, each `xmlns:` declaration handled so far, and each value written into the source, is a value the result root holds |
| Namespaces.MergeBindsDeclarations | src/Combiner.cs:64-109 | the same for the whole loop |
| Namespaces.MergeAllSpec | src/Combiner.cs:64-109 | a completed merge keeps the result root's earlier attributes and keeps its names distinct; every `xmlns:` declaration left on the source root has its URI among the result root's attribute values |
| Namespaces.CollisionExample | src/Combiner.cs:72-83 | `ns` bound to another URI becomes `ns_0` on both roots, and the source's `ns:Button` becomes `ns_0:Button` |
| Namespaces.AliasLoopExample | src/Combiner.cs:72-77 | with `xmlns:ns_0` already on the result root, a clashing `xmlns:ns` never gets an alias |
| Namespaces.AliasOverwritesExample | src/Combiner.cs:79 | a source declaring both `ns` and `ns_0` loses the URI of `ns_0` |
| Namespaces.DefaultNamespaceReuse | src/Combiner.cs:90-98 | a prefix bound to the result root's default namespace is renamed to `xmlns` on a descendant element |
| Namespaces.DefaultNamespaceReuseThrows | src/Combiner.cs:90-98 | the same with a descendant attribute `p:Tag`: the rename to `xmlns` throws |
| Combiner.ElementNodes | src/Combiner.cs:168-169 | definition, no contract: one element node per ordered entry, in order (its ensures only reads back that definition; `ResultRoot.AppendElements` states the append) |
| Combiner.ResultRoot.constructor | src/Combiner.cs:46-49 | the result root starts with no attributes and no children |
| Combiner.ResultRoot.AppendChild | src/Combiner.cs:168-169 | appends one child and leaves the attributes alone |
| Combiner.ResultRoot.AppendElements | src/Combiner.cs:168-169 | the result root's children grow by one element node per ordered entry, in order; its attributes are unchanged |
| Combiner.ResultRoot.MergeNamespaces | src/Combiner.cs:64-109 | the loop over the source root's attributes computes `MergeAll` of the result root's old attributes, and leaves the result root's attributes as that result states |
| Combiner.ResultRoot.MergeAttribute | src/Combiner.cs:66-108 | the body of the attribute loop computes `MergeStep` on the result root's old attributes; when it continues, the result root holds the step's attributes; the children are untouched |
| Combiner.SearchValue | src/Combiner.cs:90-99 | the search over the result root's attributes stops at the first one with the value, or finds none exactly when no attribute has it |
| Combiner.Combine | src/Combiner.cs:39-177 | the whole engine computes `CombineAll(sources)`; on success the result root holds the merged attributes and the ordered elements as its children |
| Combiner.AddSourceTo | src/Combiner.cs:55-137 | one iteration of the loop over the sources computes `AddSource`; when it continues, the result root, `keys` and `resourceElements` match the new state |
| Combiner.AddSourceSpec | src/Combiner.cs:55-137 | one source only appends to the result root's attributes and to the kept entries, and keeps the attribute names and the keys distinct |
| Combiner.AddSource | src/Combiner.cs:57-137 | definition, no contract: one source: skipped without a root element, else its declarations merged and its children collected, or the outcome that ends the merge |
| Combiner.Finish | src/Combiner.cs:140-169 | definition, no contract: the ordering of the kept entries once every source is in |
| Combiner.CombineFrom | src/Combiner.cs:55-169 | definition, no contract: the remaining sources folded onto the result root and the kept entries, then the ordering |
| Combiner.CombineAll | src/Combiner.cs:39-177 | definition, no contract: the whole merge from an empty result root |
| Combiner.CombineFromSpec | src/Combiner.cs:54-166 | across sources, the result root's attribute names and the kept keys stay distinct; a completed merge emits each kept entry exactly once, after every kept entry it uses; an endless ordering is stuck on entries that use each other's keys |
| Combiner.CombineAllSpec | src/Combiner.cs:39-177 | the same from an empty result root |
| Combiner.DefaultPrefixAttributeLogged | src/Combiner.cs:54-176 | a first source with `xmlns="urn:p"`, then one with `xmlns:p="urn:p"` and a `p:Tag` attribute below, ends with the prefix setter's exception logged |
| Combiner.WriteResultFile | src/Combiner.cs:277-296 | the result file ends up holding the produced text, and it is copied exactly when the file is absent or differs |
| Combiner.WriteTwiceCopiesOnce | src/Combiner.cs:283-286 | writing the same text again does not copy the file |

## Left out

- File access: the following are not modelled:
  - `GetFilePath`, `File.Exists`, `File.ReadAllLines` and `XmlDocument.Load`;
  - the `.tmp` file in `WriteResultFile`, `Save`, and the copy and delete;
  - the lazy application path from `Assembly.GetEntryAssembly`.
  
  Sources arrive already parsed, as `Option<Element>`; `None` is a document
  without a root element. The write rule receives the existing file's text
  and the serialised text as parameters.
- Failing I/O: missing files, parse errors and write errors, and the
  messages they log, are not modelled. So is the blank-line failure
  described above.
- Logging: the two exceptions inside the core are the outcome
  `ExceptionLogged`. They are `Substring` on a bare reference prefix, and the
  prefix setter refusing a renamed attribute's new prefix.
  `LogErrorFromException` itself is not modelled.
- Endless loops: the two loops that never end are outcomes (`AliasLoop`,
  `NeverTerminates`), not divergence.
- XML namespace URIs: the model ignores `NamespaceURI`. `CreateAttribute` and
  `Attributes.Append` replace an existing attribute with the same local name
  and URI; the model appends. The prefix setter's check needs one fact about
  the URI: whether it is the reserved `xmlns` namespace. The model reads that
  from the name (`NamespacePrefix.IsDeclaration`), which is exact for a
  document that parsed, since such a document binds no other prefix to that
  namespace.
- Object identity: `ImportNode` is the identity on element values. Trees are
  values, so `ResourceElement` equality is value equality, not the reference
  equality of its `Element` and `UsedKeys` fields. Rewriting a source tree
  in place is modelled by returning the rewritten tree.
- String comparison: `StartsWith` is ordinal; the culture-sensitive
  comparison that `String.StartsWith(string)` performs is not modelled.
- Element names: the `ResourceDictionary` name and namespace of the result
  root, and all other element and attribute names, are plain prefix and
  local-name strings.
- The build-task wrappers (`Source/XamlCombine/Combine.cs`,
  `Source/XamlCombine/CombineTask.cs`) are not part of this model. They only
  forward their arguments and report whether errors were logged.
- References.Cut: .NET strings are UTF-16 code units, and
  `Substring(start, Length - start - 1)` drops the last code unit. The
  model's strings are sequences of Unicode scalar values, so it drops the
  last whole character. For a value ending in a character outside the Basic
  Multilingual Plane, such as `{StaticResource Key😀`, the program keeps a
  lone high surrogate at the end of the key, and the model keeps no part of
  that character. Surrogate pairs are not modelled. `StartsWith`, `Contains`,
  `Replace` and `Trim` give the same answers under both encodings.
- Text.ReplaceAll: its contract states only the two facts the renaming
  needs, not the full replacement. It requires a non-empty pattern, which
  every call site supplies.
