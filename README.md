# Walgelijk core, modelled in Dafny

This project models six pieces of the Walgelijk game engine and proves what
they promise.

- **Asset packages** (`Walgelijk.AssetManager/AssetPackage.cs`). Opening a package reads
  three line-oriented tables from its archive:
  - the guid table, with alternating id and path lines;
  - `hierarchy.txt`, with blocks of a folder path, a count and that many ids;
  - `tag_table.txt`, with blocks of a tag, a count and that many ids.

  From these it builds the folder tree, `All` and the tag map. The opened package then answers:
  - path and folder queries: `GetAssetPath`, `HasAsset`, `TryGetAssetFolder`, `EnumerateFolder`, `QueryTags`;
  - asset reads: `GetAsset`, and `GetAssetMetadata`, which is memoised;
  - a typed object cache: `Load<T>`, `LoadNoCache<T>`, `DisposeOf`, `IsCached`, `TryGetCached` and `Dispose`.

  Modules:
  - `AssetTree`: the folder tree and its path handling.
  - `AssetIndex`: the construction-time tables.
  - `AssetPackages`: the cache. The class `AssetPackage` holds the mutable fields, and each of its methods is proved equal to a specification function on a `PackageState` value.
  - `IndexLayout`: a reference writer for the block format.
- **`PackageId`** (`Walgelijk.AssetManager/PackageId.cs`): construction, parsing, equality and `None`. Module `PackageIds`.
- **`RenderQueue`** (`Walgelijk/Graphics/RenderQueue.cs`): a command list kept sorted by `Order`, using stable insertion from the back. Module `RenderQueues`.
  - A command whose order is below every queued order finds no slot and is dropped, as the code does. `Added` and `DroppedIffAllLarger` state this.
- **`Pool`** (`Walgelijk/Pool.cs`): a free stack, an in-use list and a creation counter capped by `MaximumCapacity`. Module `Pools`.
- **`BasicComponentCollection`** (`Walgelijk/Entities/BasicComponentCollection.cs`): four indexes over component–entity attachments, and the invariant `Coherent` that ties them together. Module `Components`.
- **`BmFontReader`** (`Walgelijk/Text/BmFont/BmFontReader.cs`):
  - reading `key=value` fields;
  - line selection;
  - the font header and page table;
  - the single-page check;
  - the kerning table.

  Module `BmFontReader`.

`Numbers` models .NET's `int.TryParse` and `int.Parse` on 32-bit integers. `Common` holds `Option` and `Result`.

Modelling conventions:
- Exceptions are `Failure` values of a `Result`, one error constructor per cause.
- Runtime types are tags, and the subtype relation is a parameter.
- The deserialiser, the package's path check and the `IdUtil` helpers are parameters.

## Model

| member | source | states |
|---|---|---|
| PackageIds.FromNumber | Walgelijk.AssetManager/PackageId.cs:26-29 | the numeric constructor stores its argument as `External`; the id is `None` exactly when the number is 0 |
| PackageIds.FromName | Walgelijk.AssetManager/PackageId.cs:16-24 | the name constructors store `IdUtil.Hash` of the name |
| PackageIds.TryParse | Walgelijk.AssetManager/PackageId.cs:53-63 | succeeds exactly when `TryConvert` does, wrapping the converted int; on failure the out value is `None`, with `External == 0` |
| PackageIds.Parse | Walgelijk.AssetManager/PackageId.cs:34-48 | succeeds exactly when `TryParse` does, with the same value; otherwise throws |
| PackageIds.Equals | Walgelijk.AssetManager/PackageId.cs:72-75 | true iff the `External` values are equal, which is value equality |
| PackageIds.Eq | Walgelijk.AssetManager/PackageId.cs:84-87 | `==` agrees with `Equals` |
| PackageIds.Neq | Walgelijk.AssetManager/PackageId.cs:89-92 | `!=` is the negation of `Equals` |
| PackageIds.EqualsObject | Walgelijk.AssetManager/PackageId.cs:67-70 | can be true only for a boxed `AssetId`, and then is the `AssetId` comparison |
| PackageIds.EqualityLaws | Walgelijk.AssetManager/PackageId.cs:72-92 | `==` is reflexive, symmetric and transitive; `!=` is its negation; equal ids have equal hash codes |
| PackageIds.BoxedPackageIdNeverEqual | Walgelijk.AssetManager/PackageId.cs:67-70 | a boxed `PackageId`, even the id itself, is never equal through `Equals(object)` |
| PackageIds.ParseToString | Walgelijk.AssetManager/PackageId.cs:65 | parsing `ToString` of an id gives the id back, given that `TryConvert` inverts `Convert` |
| Numbers.ParseInt32 | Walgelijk/Text/BmFont/BmFontReader.cs:165 | a parsed value is always within the 32-bit range |
| Numbers.TrimEnd | Walgelijk/Text/BmFont/BmFontReader.cs:165 | the text `int.TryParse` reads has no trailing white space and is no longer than its input |
| Numbers.FormatInt32 | Walgelijk/Text/BmFont/BmFontReader.cs:165 | the decimal text of an int is non-empty and starts with `-` exactly for negatives |
| Numbers.DigitsRoundTrip | Walgelijk/Text/BmFont/BmFontReader.cs:165 | the value of the decimal digits of `n` is `n` |
| Numbers.ParseFormatRoundTrip | Walgelijk/Text/BmFont/BmFontReader.cs:165 | `int.TryParse` of an int's decimal text gives that int back |
| Numbers.ParseNegative | Walgelijk/Text/BmFont/BmFontReader.cs:165 | `-digits` parses to the negated value when that fits 32 bits, and fails otherwise |
| Numbers.ParseDigitsOnly | Walgelijk/Text/BmFont/BmFontReader.cs:165 | plain digits parse to their value when it is at most `int.MaxValue`, and fail otherwise |
| Numbers.TrimNul | Walgelijk/Text/BmFont/BmFontReader.cs:165 | the text `int.TryParse` reads has no trailing NUL and is a prefix of its input |
| Numbers.TrimNulCutsOnlyNul | Walgelijk/Text/BmFont/BmFontReader.cs:165 | the characters `int.TryParse` drops from the end are all NUL |
| Numbers.TrailingWhiteAndNul | Walgelijk/Text/BmFont/BmFontReader.cs:165 | digits followed by white space and then NUL characters parse as the digits alone |
| Numbers.NulBeforeWhite | Walgelijk/Text/BmFont/BmFontReader.cs:165 | a NUL before trailing white space makes the text unparseable, while `12 \0` parses to 12 |
| Numbers.TrimNoWhite | Walgelijk/Text/BmFont/BmFontReader.cs:165 | trimming changes no text without white space |
| RenderQueues.LastAtMost | Walgelijk/Graphics/RenderQueue.cs:47-51 | the backwards scan finds the last command whose order is at most the new one; every later command has a larger order |
| RenderQueues.Added | Walgelijk/Graphics/RenderQueue.cs:31-55 | appends when the queue is empty or the last order is at most the new one; drops the command (queue unchanged) when every order is larger; otherwise inserts right after the last command of order at most the new one; the length grows by one unless dropped |
| RenderQueues.AddKeepsSorted | Walgelijk/Graphics/RenderQueue.cs:31-55 | a queue sorted by order stays sorted after `Add` |
| RenderQueues.AddIsStable | Walgelijk/Graphics/RenderQueue.cs:47-51 | on a sorted queue the new command lands after every command of equal or smaller order and before every larger one, and the old commands keep their relative order |
| RenderQueues.SortedUpTo | Walgelijk/Graphics/RenderQueue.cs:47-51 | in a sorted queue, every command up to the insertion point has order at most the new one |
| RenderQueues.DroppedIffAllLarger | Walgelijk/Graphics/RenderQueue.cs:45-55 | `Add` leaves the queue unchanged exactly when the queue is non-empty and every queued order is larger than the new one |
| RenderQueues.RenderQueue.constructor | Walgelijk/Graphics/RenderQueue.cs:13 | a new queue is empty |
| RenderQueues.RenderQueue.Add | Walgelijk/Graphics/RenderQueue.cs:31-43 | the commands become `Added` of the old commands, and `Length` grows by one unless the command is dropped |
| RenderQueues.RenderQueue.ReverseSortAdd | Walgelijk/Graphics/RenderQueue.cs:45-55 | the backwards loop inserts after the last command of order at most the new one, and inserts nothing when there is none |
| RenderQueues.RenderQueue.RenderAndReset | Walgelijk/Graphics/RenderQueue.cs:19-26 | executes every task in index order, then the queue is empty and `Length` is 0 |
| Pools.FirstIndex | Walgelijk/Pool.cs:63 | the first position holding the object |
| Pools.RemoveFirst | Walgelijk/Pool.cs:63 | `List.Remove` drops the first occurrence, and changes nothing when the object is absent |
| Pools.RemoveFirstCount | Walgelijk/Pool.cs:63 | removing a present object shortens the list by one and removes exactly one copy of it |
| Pools.Pool.constructor | Walgelijk/Pool.cs:28-34 | a new pool has the given capacity, `CreatedAmount == 0`, and empty free and in-use collections |
| Pools.Pool.RequestObject | Walgelijk/Pool.cs:39-55 | with a free object: the most recently pushed one moves to in-use and the count is unchanged. With none and room under the cap: exactly one new object is created and handed out. Otherwise: the fallback, with nothing changed. Runs on any balanced pool, including one `Prefill` took past its cap; keeps the balance, and keeps the cap when it held |
| Pools.Pool.ReturnToPool | Walgelijk/Pool.cs:61-67 | an in-use object moves to the top of the free stack; any other object changes nothing. Runs on any balanced pool; keeps the balance, and keeps the cap when it held |
| Pools.Pool.Prefill | Walgelijk/Pool.cs:72-77 | one more object is created and pushed as free, regardless of the cap; every created object stays free or in use |
| Pools.Pool.GetExistingFromPool | Walgelijk/Pool.cs:84-92 | pops the top free object into use; on an empty stack returns null and changes nothing |
| Components.BasicComponentCollection.constructor | Walgelijk/Entities/BasicComponentCollection.cs:15-19 | all four indexes start empty and coherent |
| Components.BasicComponentCollection.Add | Walgelijk/Entities/BasicComponentCollection.cs:36-69 | fails exactly when the entity already holds that exact type, after the set and entity list were updated. On success: the attachment joins the set, the entity's list and exact map, and every existing per-type list of a supertype. Coherence is kept |
| Components.BasicComponentCollection.TryCreateNewTypeList | Walgelijk/Entities/BasicComponentCollection.cs:247-263 | creates a list exactly when the type has none, holding every attachment assignable to the type in attachment order; coherence is kept |
| Components.BasicComponentCollection.ComponentsOfType | Walgelijk/Entities/BasicComponentCollection.cs:75-111 | the attachments assignable to the type, through the per-type list it creates on demand; nothing else changes |
| Components.BasicComponentCollection.GetComponentFrom | Walgelijk/Entities/BasicComponentCollection.cs:117-120 | the component of the exact type, or a thrown key error when the entity or type is absent |
| Components.BasicComponentCollection.TryGetComponentFrom | Walgelijk/Entities/BasicComponentCollection.cs:126-135 | found exactly when `GetComponentFrom` would succeed, with the same component |
| Components.BasicComponentCollection.GetAllComponentsFrom | Walgelijk/Entities/BasicComponentCollection.cs:141-146 | the entity's components in attachment order (empty for an unknown entity); a component is listed iff it is attached to the entity |
| Components.BasicComponentCollection.GetEntityFromComponent | Walgelijk/Entities/BasicComponentCollection.cs:152-163 | true with the owning entity iff the component is attached; otherwise false with entity 0 |
| Components.BasicComponentCollection.DeleteEntity | Walgelijk/Entities/BasicComponentCollection.cs:169-190 | every record of the entity leaves all four indexes. The result is true iff the set, the exact maps and the entity lists each held the entity. Coherence is kept |
| Components.BasicComponentCollection.RemoveComponentOfType | Walgelijk/Entities/BasicComponentCollection.cs:206-243 | the new state is `AfterRemoveAsWritten`: the set loses the entity's instances of the type, only the type's own list is pruned, and the entity list is filtered by supertypes of the type. Succeeds iff every index had something to remove. Where `RemovalAgrees`, coherence is kept and the state is the corrected `AfterRemove` |
| Components.RemoveEntityBackwards | Walgelijk/Entities/BasicComponentCollection.cs:178-183 | the reverse `RemoveAt` loop leaves the list without the entity's attachments, in order |
| Components.DeleteFromTypeLists | Walgelijk/Entities/BasicComponentCollection.cs:175-184 | every per-type list loses the entity's attachments |
| Components.AppendToTypeLists | Walgelijk/Entities/BasicComponentCollection.cs:62-68 | the attachment is appended to exactly the lists whose type it is assignable to |
| Components.PruneEntityLists | Walgelijk/Entities/BasicComponentCollection.cs:223-229 | the entity's list loses the components whose type the removed type is assignable to, and is dropped once empty; reports whether anything was removed |
| Components.WithoutMatchingNone | Walgelijk/Entities/BasicComponentCollection.cs:214 | `RemoveWhere` with nothing to remove leaves the collection as it is |
| Components.KeepFiltersAgree | Walgelijk/Entities/BasicComponentCollection.cs:225 | when every instance or supertype of the type on the entity has exactly that type, the filter as written and the instance filter agree |
| Components.RemoveAsWrittenAgrees | Walgelijk/Entities/BasicComponentCollection.cs:206-243 | where `RemovalAgrees`, the removal as written yields the corrected state and reports the same outcome |
| Components.RemoveAsWrittenKeepsCoherent | Walgelijk/Entities/BasicComponentCollection.cs:206-243 | where `RemovalAgrees`, the removal as written keeps the indexes coherent |
| Components.PruneExactMaps | Walgelijk/Entities/BasicComponentCollection.cs:231-237 | the exact type leaves the entity's dictionary, which is dropped once empty; reports whether it was there |
| Components.WithoutEntityShrinks | Walgelijk/Entities/BasicComponentCollection.cs:173 | removing an entity's attachments removes something iff the entity had one |
| Components.WithoutEntityMembers | Walgelijk/Entities/BasicComponentCollection.cs:173 | what is left is exactly the attachments of other entities |
| Components.WithoutMatchingMembers | Walgelijk/Entities/BasicComponentCollection.cs:214 | `RemoveWhere(ShouldRemove)` keeps exactly the attachments `ShouldRemove` rejects |
| Components.ComponentsOfMembers | Walgelijk/Entities/BasicComponentCollection.cs:141-146 | a component is in the entity's list iff it is attached to that entity |
| Components.TypeMapMembers | Walgelijk/Entities/BasicComponentCollection.cs:53-60 | the exact map's keys are the exact types of the entity's components, each mapped to a component of that type |
| Components.ExactLookup | Walgelijk/Entities/BasicComponentCollection.cs:117-135 | in coherent indexes, an exact-type lookup finds the entity's component of that exact type, and fails iff there is none |
| Components.EntityListLookup | Walgelijk/Entities/BasicComponentCollection.cs:141-146 | in coherent indexes, the entity list is the entity's attachments in order |
| Components.AddKeepsCoherent | Walgelijk/Entities/BasicComponentCollection.cs:36-69 | an `Add` of a new exact type keeps all four indexes coherent |
| Components.AddKeepsTypeLists | Walgelijk/Entities/BasicComponentCollection.cs:62-68 | after `Add` every per-type list is again the attachments assignable to its type |
| Components.AddKeepsEntityLists | Walgelijk/Entities/BasicComponentCollection.cs:42-51 | after `Add` every entity list is again that entity's components |
| Components.AddKeepsExactMaps | Walgelijk/Entities/BasicComponentCollection.cs:53-60 | after `Add` of a new exact type the exact maps again match the entity lists |
| Components.DeleteKeepsCoherent | Walgelijk/Entities/BasicComponentCollection.cs:169-190 | `DeleteEntity` keeps the indexes coherent |
| Components.OfTypeWithoutEntity | Walgelijk/Entities/BasicComponentCollection.cs:173-184 | removing an entity from the set, then filtering by type, equals removing it from the type's list |
| Components.ComponentsOfWithoutEntity | Walgelijk/Entities/BasicComponentCollection.cs:173-187 | after deleting an entity it has no components, and other entities keep theirs |
| Components.OfTypeWithoutMatching | Walgelijk/Entities/BasicComponentCollection.cs:214-221 | removing the matching attachments commutes with filtering by any type |
| Components.ComponentsOfWithoutMatching | Walgelijk/Entities/BasicComponentCollection.cs:214-229 | after the removal, the entity's components are its old ones that are not instances of the type, and other entities keep theirs |
| Components.KeepTypeMap | Walgelijk/Entities/BasicComponentCollection.cs:231-237 | when the type's only instances on the entity are of that exact type, filtering them out removes exactly that key from the exact map |
| Components.RemoveKeepsTypeLists | Walgelijk/Entities/BasicComponentCollection.cs:216-221 | with every per-type list pruned, each list is again the attachments assignable to its type |
| Components.RemoveKeepsEntityLists | Walgelijk/Entities/BasicComponentCollection.cs:223-229 | with the entity list filtered by instances of the type, every entity list again matches the set |
| Components.RemoveKeepsExactMaps | Walgelijk/Entities/BasicComponentCollection.cs:231-237 | with no strict subtype on the entity, the exact maps again match the entity lists |
| Components.RemoveKeepsCoherent | Walgelijk/Entities/BasicComponentCollection.cs:206-243 | `RemoveComponentOfType` keeps the indexes coherent when the entity has no strict subtype of the type |
| Components.SupertypeFilterLosesBase | Walgelijk/Entities/BasicComponentCollection.cs:225 | as written, removing `Derived` from an entity that also holds `Base` empties the entity's list while `Base` stays attached |
| Components.UnprunedBaseListKeepsDerived | Walgelijk/Entities/BasicComponentCollection.cs:216-221 | as written, the `Base` list keeps a detached `Derived` attachment; pruning every list leaves it empty |
| BmFontReader.IndexOfFrom | Walgelijk/Text/BmFont/BmFontReader.cs:140 | a found position holds the searched text |
| BmFontReader.IndexOfFromFirst | Walgelijk/Text/BmFont/BmFontReader.cs:140 | the position found is the first occurrence, and -1 means none |
| BmFontReader.IndexOfCharFirst | Walgelijk/Text/BmFont/BmFontReader.cs:155 | the position found is the first occurrence of the delimiter at or after the start, and -1 means none |
| BmFontReader.GetStringFrom | Walgelijk/Text/BmFont/BmFontReader.cs:136-161 | null exactly when `name=` does not occur; an index-out-of-range error exactly when the key ends the line |
| BmFontReader.FieldValueUpTo | Walgelijk/Text/BmFont/BmFontReader.cs:148-160 | the value runs from after an optional opening quote to the first delimiter, or to the end of the line |
| BmFontReader.GetStringFromPlain | Walgelijk/Text/BmFont/BmFontReader.cs:148-160 | an unquoted value is read up to the next space |
| BmFontReader.GetStringFromQuoted | Walgelijk/Text/BmFont/BmFontReader.cs:148-160 | a quoted value is read between the quotes, spaces included |
| BmFontReader.GetIntFrom | Walgelijk/Text/BmFont/BmFontReader.cs:163-170 | fails only where `GetStringFrom` does; a missing key reads as 0; the value is a 32-bit int |
| BmFontReader.GetIntFromValue | Walgelijk/Text/BmFont/BmFontReader.cs:163-170 | a field value that `int.TryParse` rejects reads as 0, and any other value as what `int.TryParse` makes of it |
| BmFontReader.GetIntFromPlain | Walgelijk/Text/BmFont/BmFontReader.cs:163-170 | a plain field value that is not an integer reads as 0; one that parses reads as its value |
| BmFontReader.GetIntFromWritten | Walgelijk/Text/BmFont/BmFontReader.cs:163-170 | a field holding an int's decimal text reads as that int |
| BmFontReader.GetBoolFrom | Walgelijk/Text/BmFont/BmFontReader.cs:172 | true iff the field reads as the integer 1 |
| BmFontReader.GetLines | Walgelijk/Text/BmFont/BmFontReader.cs:131-134 | exactly the lines starting with the prefix are kept |
| BmFontReader.GetLinesAppend | Walgelijk/Text/BmFont/BmFontReader.cs:131-134 | selection keeps file order: it distributes over concatenation |
| BmFontReader.GetLine | Walgelijk/Text/BmFont/BmFontReader.cs:217-226 | the first line of the text with the prefix, and `" "` when no line has it |
| BmFontReader.NoFieldsWithoutEquals | Walgelijk/Text/BmFont/BmFontReader.cs:136-170 | a line without `=` has no fields: strings read as null and ints as 0 |
| BmFontReader.BlankHasNoFields | Walgelijk/Text/BmFont/BmFontReader.cs:217-226 | the stand-in `" "` for a missing block has no fields |
| BmFontReader.MissingInfo | Walgelijk/Text/BmFont/BmFontReader.cs:180-184 | without an `info` line the face is `"Untitled"`, the size 0 and every flag false |
| BmFontReader.MissingCommon | Walgelijk/Text/BmFont/BmFontReader.cs:186-190 | without a `common` line every common field is 0 |
| BmFontReader.MissingKernings | Walgelijk/Text/BmFont/BmFontReader.cs:193-197 | without a `kernings` line `KerningCount` is 0 |
| BmFontReader.ReadPageEntry | Walgelijk/Text/BmFont/BmFontReader.cs:205-207 | the loop reads the i-th page line as the page table specification does |
| BmFontReader.PlacePage | Walgelijk/Text/BmFont/BmFontReader.cs:205-212 | succeeds exactly when the page line exists, reads, and has an id inside the table; then only that slot changes, to the line's file. Its only failure is the one `ArgumentException` |
| BmFontReader.GetInfo | Walgelijk/Text/BmFont/BmFontReader.cs:174-227 | the header fields in reading order, then the page table |
| BmFontReader.ReadPagePaths | Walgelijk/Text/BmFont/BmFontReader.cs:199-213 | the page loop builds the page table, or throws the one `ArgumentException` |
| BmFontReader.PlaceFailsMalformed | Walgelijk/Text/BmFont/BmFontReader.cs:210-212 | every failure of the page loop is the one `ArgumentException` |
| BmFontReader.PlaceFailureSticks | Walgelijk/Text/BmFont/BmFontReader.cs:199-213 | once a page fails, the whole page loop fails |
| BmFontReader.TooFewPageLines | Walgelijk/Text/BmFont/BmFontReader.cs:203-205 | fewer page lines than `PageCount` fails |
| BmFontReader.PlacedSlotsFilled | Walgelijk/Text/BmFont/BmFontReader.cs:203-208 | after a successful loop every page line read has an id inside the table; a slot holds a path exactly when some line names it, and then the file of the last line that does |
| BmFontReader.SinglePageIsPlaced | Walgelijk/Text/BmFont/BmFontReader.cs:72-75 | a font with one page has one page path, the file of its first page line, whose id is 0; `ParsePages` returns that file |
| BmFontReader.ParsePages | Walgelijk/Text/BmFont/BmFontReader.cs:67-79 | any page count other than 1 throws; success yields the path at index 0 |
| BmFontReader.ReadKerning | Walgelijk/Text/BmFont/BmFontReader.cs:88-93 | one kerning line's `first`, `second` and `amount` |
| BmFontReader.ParseKernings | Walgelijk/Text/BmFont/BmFontReader.cs:81-97 | the table of the first `KerningCount` kerning lines |
| BmFontReader.KerningsFromLines | Walgelijk/Text/BmFont/BmFontReader.cs:84-95 | a successful table is empty for a count that is not positive; otherwise it has one entry for each of the first `count` kerning lines, keyed by the line's pair and holding what the line reads as, and no pair repeats |
| BmFontReader.AddKernings | Walgelijk/Text/BmFont/BmFontReader.cs:86-96 | the loop builds the kerning table of its lines |
| BmFontReader.AddKerning | Walgelijk/Text/BmFont/BmFontReader.cs:88-95 | one more kerning line; a failure ends the whole loop with that failure |
| BmFontReader.KerningFailureSticks | Walgelijk/Text/BmFont/BmFontReader.cs:86-96 | once a kerning line fails, the table fails with that error |
| BmFontReader.KerningTableEntries | Walgelijk/Text/BmFont/BmFontReader.cs:95 | a successful table has one entry per line, keyed by its (first, second) pair, and no pair repeats |
| BmFontReader.TooFewKerningLines | Walgelijk/Text/BmFont/BmFontReader.cs:86-88 | fewer kerning lines than `KerningCount` throws |
| AssetTree.EatFolder | Walgelijk.AssetManager/AssetPackage.cs:329-340 | splits off the first segment at the first `/`; without a `/` the whole input is the segment and nothing is left |
| AssetTree.ChildNamed | Walgelijk.AssetManager/AssetPackage.cs:383-398 | a child of the folder with that name, and none exactly when no child has that name |
| AssetTree.TryGetFolder | Walgelijk.AssetManager/AssetPackage.cs:383-398 | the `foreach` over the children finds the first child of that name |
| AssetTree.Resolve | Walgelijk.AssetManager/AssetPackage.cs:302-327 | on a path built at run time, `""` is the root and every other path is walked from the root; a `"/"` names the root's child called `""` |
| AssetTree.ResolveSpan | Walgelijk.AssetManager/AssetPackage.cs:304-308 | the literal `"/"` is the root; any other span resolves as `Resolve` says |
| AssetTree.TryGetAssetFolder | Walgelijk.AssetManager/AssetPackage.cs:302-341 | the walking loop resolves a span as `ResolveSpan` does |
| AssetTree.StripSlash | Walgelijk.AssetManager/AssetPackage.cs:345-346 | the path is the result, or the result plus `/`; a character is dropped exactly when the path ends in `/` |
| AssetTree.Ensure | Walgelijk.AssetManager/AssetPackage.cs:343-366 | returns a folder of a tree that only grew: no folder is lost and no child list is reordered; `byContent == false` is the source's span comparison, `true` the corrected one |
| AssetTree.DoubleSlashCreatesNamelessFolder | Walgelijk.AssetManager/AssetPackage.cs:304 | a hierarchy line `//` does not name the root: when the root has no child called `""`, a new folder of that name is appended to the root |
| AssetTree.DoubleSlashByContentIsRoot | Walgelijk.AssetManager/AssetPackage.cs:343-349 | with spans compared with `"/"` by content, ensuring the hierarchy line `//` returns the root and leaves every tree unchanged |
| AssetTree.CreateNested | Walgelijk.AssetManager/AssetPackage.cs:351-365 | creating a nested path ensures its parent path, left alone by `StripSlash`, and appends the last segment there |
| AssetTree.CreateFolder | Walgelijk.AssetManager/AssetPackage.cs:351-365 | the created folder is the newest one and has no children |
| AssetTree.AddChild | Walgelijk.AssetManager/AssetPackage.cs:360-364 | exactly one new empty child is appended to the parent's children, which keep their order |
| AssetTree.SetAssets | Walgelijk.AssetManager/AssetPackage.cs:83 | only the one folder's asset list changes, to the given ids |
| AssetTree.EnsureHierarchyFolder | Walgelijk.AssetManager/AssetPackage.cs:343-366 | the recursive method returns what `Ensure` specifies, walking every path since none is the literal `"/"` |
| AssetTree.EnsureResolves | Walgelijk.AssetManager/AssetPackage.cs:343-366 | afterwards the path, without its trailing slash, resolves to the returned folder |
| AssetTree.CreateResolves | Walgelijk.AssetManager/AssetPackage.cs:351-365 | a created folder is what its path then resolves to |
| AssetTree.CreateNestedResolves | Walgelijk.AssetManager/AssetPackage.cs:351-365 | a nested path resolves, once created, through its ensured parent to the appended child |
| AssetTree.AppendedResolves | Walgelijk.AssetManager/AssetPackage.cs:360-364 | appending the last segment to the parent's folder makes the path resolve to it |
| AssetTree.EnsuredChildless | Walgelijk.AssetManager/AssetPackage.cs:348-362 | the ensured parent has no child with the new name yet, so exactly one child is created |
| AssetTree.EnsureIdempotent | Walgelijk.AssetManager/AssetPackage.cs:348-349 | a second `EnsureHierarchyFolder` of the same path returns the same folder and creates nothing |
| AssetTree.ResolveKept | Walgelijk.AssetManager/AssetPackage.cs:360-364 | growing the tree keeps every path that resolved resolving to the same folder |
| AssetTree.ResolveSnoc | Walgelijk.AssetManager/AssetPackage.cs:313-324 | a path resolves to the child named by its last segment of what its parent path resolves to |
| AssetTree.Enumerate | Walgelijk.AssetManager/AssetPackage.cs:124-134 | yields the folder's own ids first, in stored order; top-only yields exactly those |
| AssetTree.SubfolderEnumerated | Walgelijk.AssetManager/AssetPackage.cs:130-133 | a recursive enumeration includes each child folder's recursive enumeration |
| AssetTree.EnumerateWithin | Walgelijk.AssetManager/AssetPackage.cs:124-134 | every id an enumeration yields is held by some folder |
| AssetIndex.ReadGuidTableLines | Walgelijk.AssetManager/AssetPackage.cs:48-64 | the guid table loop computes `ReadGuidTable`: a non-integer id line, an id without a path line, an invalid path or a repeated id each abort |
| AssetIndex.GuidTableSucceeds | Walgelijk.AssetManager/AssetPackage.cs:48-62 | reading succeeds iff the lines are whole pairs of integer ids, none repeated, and valid paths |
| AssetIndex.GuidTableSize | Walgelijk.AssetManager/AssetPackage.cs:48-62 | on success there is one new entry per pair of lines |
| AssetIndex.GuidTableHasPair | Walgelijk.AssetManager/AssetPackage.cs:54-61 | on success every (id, path) pair read is in the table |
| AssetIndex.ReadCount | Walgelijk.AssetManager/AssetPackage.cs:82-83 | a count line reads iff it exists, is an integer and is not negative (a negative array size throws) |
| AssetIndex.ReadIds | Walgelijk.AssetManager/AssetPackage.cs:84-89 | a block yields exactly `count` ids after those already read |
| AssetIndex.IdsParsed | Walgelijk.AssetManager/AssetPackage.cs:86-87 | each id read is the integer value of its line |
| AssetIndex.ReadIdLines | Walgelijk.AssetManager/AssetPackage.cs:83-89 | the array loop reads the same ids as `ReadIds` |
| AssetIndex.ReadBlock | Walgelijk.AssetManager/AssetPackage.cs:76-89 | a block's key is its first line, followed by a count line and that many id lines |
| AssetIndex.ReadBlockLines | Walgelijk.AssetManager/AssetPackage.cs:76-89 | the count and id reading of one block, as `ReadBlock` |
| AssetIndex.ReadBlocksKeeps | Walgelijk.AssetManager/AssetPackage.cs:72-90 | reading further blocks never drops the blocks already read |
| AssetIndex.ApplyBlock | Walgelijk.AssetManager/AssetPackage.cs:81-89 | applying a block only grows the tree: no folder is lost and no child list reordered |
| AssetIndex.ApplyBlockAssets | Walgelijk.AssetManager/AssetPackage.cs:81-88 | a block adds exactly its ids to `All`, and `All` keeps holding every id any folder holds |
| AssetIndex.BlockSetsFolder | Walgelijk.AssetManager/AssetPackage.cs:81-83 | after a block, its folder path resolves to a folder holding exactly the block's ids in file order, replacing any earlier list |
| AssetIndex.BuildTreeAll | Walgelijk.AssetManager/AssetPackage.cs:72-93 | `All` is exactly the ids named in any hierarchy block |
| AssetIndex.BuildTreeAssetsIn | Walgelijk.AssetManager/AssetPackage.cs:72-93 | every id any folder holds is in `All` |
| AssetIndex.StoreBlock | Walgelijk.AssetManager/AssetPackage.cs:81-89 | one block's folder is ensured and given its ids, as the next step of `BuildTree` |
| AssetIndex.HierarchyBlock | Walgelijk.AssetManager/AssetPackage.cs:76-89 | one pass of the hierarchy loop advances past one block or fails as reading the whole file fails |
| AssetIndex.ReadHierarchyLines | Walgelijk.AssetManager/AssetPackage.cs:72-91 | the hierarchy loop builds the tree and `All` from the blocks in file order |
| AssetIndex.TagBlockWins | Walgelijk.AssetManager/AssetPackage.cs:109-111 | a tag maps to the ids of the last block naming it (`AddOrSet`) |
| AssetIndex.TagKeys | Walgelijk.AssetManager/AssetPackage.cs:104-111 | exactly the tags some block names are in the tag table |
| AssetIndex.ReadTagLines | Walgelijk.AssetManager/AssetPackage.cs:100-118 | the tag loop builds the tag map from the blocks in file order |
| AssetIndex.ReadIndex | Walgelijk.AssetManager/AssetPackage.cs:28-122 | construction succeeds iff all four entries exist and each table reads; the folder tree is well formed |
| AssetIndex.ReadIndexEntries | Walgelijk.AssetManager/AssetPackage.cs:28-122 | the constructor's body computes `ReadIndex` |
| AssetIndex.GetAssetPath | Walgelijk.AssetManager/AssetPackage.cs:167-173 | the guid table's path, and a failure exactly for an id that `HasAsset` rejects |
| AssetIndex.HasAssetIdLine | Walgelijk.AssetManager/AssetPackage.cs:175 | on an opened package, the id of every id line of the guid table is an asset, and its path is the next line |
| AssetIndex.HasAssetOnlyIdLines | Walgelijk.AssetManager/AssetPackage.cs:175 | on an opened package, `HasAsset` holds only for the id of some id line of the guid table |
| AssetIndex.GuidTableKeys | Walgelijk.AssetManager/AssetPackage.cs:48-62 | every key of the table read was there before or is the id of an id line read |
| AssetIndex.EnumerateFolder | Walgelijk.AssetManager/AssetPackage.cs:136-141 | a span that does not resolve, as `ResolveSpan` says, yields nothing; otherwise the folder's own ids come first, and top-only yields exactly those |
| AssetIndex.RuntimeSlashEnumeratesNothing | Walgelijk.AssetManager/AssetPackage.cs:136-141 | a `"/"` built at run time enumerates nothing when the root has no child called `""`, while the literal `"/"` enumerates the root |
| AssetIndex.QueryTagsLastBlock | Walgelijk.AssetManager/AssetPackage.cs:143-148 | a tag query on an opened package returns the ids of the last block of that tag |
| AssetIndex.QueryTagsUnknown | Walgelijk.AssetManager/AssetPackage.cs:143-148 | a tag that no block names queries as empty |
| AssetIndex.EnumerateInAll | Walgelijk.AssetManager/AssetPackage.cs:124-141 | every id an opened package enumerates is in `All` |
| AssetIndex.LastFolderBlockEnumerates | Walgelijk.AssetManager/AssetPackage.cs:76-91 | top-only enumeration of the last hierarchy block's folder yields exactly that block's ids |
| IndexLayout.BlocksRead | Walgelijk.AssetManager/AssetPackage.cs:72-91 | reading back the written blocks gives the same blocks |
| IndexLayout.BlockRoundTrip | Walgelijk.AssetManager/AssetPackage.cs:76-89 | a written block reads back as itself |
| IndexLayout.IdsRoundTrip | Walgelijk.AssetManager/AssetPackage.cs:84-89 | written id lines read back as the same ids |
| AssetPackages.MetadataOf | Walgelijk.AssetManager/AssetPackage.cs:284-300 | succeeds iff the record is memoised or the id is known and its metadata entry exists. A record read from the archive is then memoised. The object cache never changes |
| AssetPackages.AssetOf | Walgelijk.AssetManager/AssetPackage.cs:151-165 | fails for the None id, for an unknown id, for a missing `assets/` entry and for a missing metadata entry; otherwise the asset is its metadata and entry |
| AssetPackages.Decided | Walgelijk.AssetManager/AssetPackage.cs:181-198 | deserialises exactly for a known, uncached id on an undisposed package, outside deserialisation, with metadata. The None id fails first. A cached object is returned exactly when it is of the requested type, and is otherwise a type mismatch. An uncached id during deserialisation is the reentrancy failure |
| AssetPackages.Loaded | Walgelijk.AssetManager/AssetPackage.cs:179-218 | the None id fails with nothing changed; a cached object of the requested type is returned. A load never removes or replaces a cached object and caches nothing but the id; while another asset is deserialising the cache does not change; on success the object is cached under the id and its metadata memoised; the failed `TryAdd` exception never surfaces |
| AssetPackages.Deserialised | Walgelijk.AssetManager/AssetPackage.cs:199-212 | a successful run caches its result under the id and adds no other key; for an uncached id the `TryAdd` never fails |
| AssetPackages.DeserialiserRun | Walgelijk.AssetManager/AssetPackage.cs:203 | running the deserialiser keeps every cached object and the flags; while deserialising, its nested loads leave the cache unchanged |
| AssetPackages.DependenciesLoaded | Walgelijk.AssetManager/AssetPackage.cs:203 | nested loads yield one object per dependency, keep every cached object, and change nothing in the cache while deserialising |
| AssetPackages.RunOutcome | Walgelijk.AssetManager/AssetPackage.cs:203 | once the nested loads succeed, the run returns the produced object, fails with `NullResult` for null and with `DeserialiserFailed` for an exception |
| AssetPackages.LoadDeserialises | Walgelijk.AssetManager/AssetPackage.cs:199-212 | a deserialising load returns the produced object and caches it under the id; a null result fails with `NullResult` and an exception with `DeserialiserFailed`, leaving the cache as it was; `isDeserialising` is cleared either way |
| AssetPackages.LoadNoCacheDeserialises | Walgelijk.AssetManager/AssetPackage.cs:220-237 | the produced object is returned and not cached; a null result fails with `NullResult` and an exception with `DeserialiserFailed` |
| AssetPackages.LoadedNoCache | Walgelijk.AssetManager/AssetPackage.cs:220-237 | succeeds only for a non-None id on an undisposed package; keeps every cached object and the flags |
| AssetPackages.AfterDisposeOf | Walgelijk.AssetManager/AssetPackage.cs:239-253 | fails exactly on a disposed package; otherwise only that id leaves the cache and only its object may be released, and an absent id changes nothing |
| AssetPackages.AfterDispose | Walgelijk.AssetManager/AssetPackage.cs:259-276 | marks the package disposed and keeps the metadata cache; the first call releases every disposable cached object and empties the cache; a later call changes nothing |
| AssetPackages.ReleaseAsWritten | Walgelijk.AssetManager/AssetPackage.cs:264-270 | the loop as written can only fail by running an already started task |
| AssetPackages.ReleaseStopsAt | Walgelijk.AssetManager/AssetPackage.cs:264-270 | the loop as written stops at the first object that is only `IAsyncDisposable`, having disposed the disposable objects before it and queued that object's `DisposeAsync` |
| AssetPackages.AfterDisposeAsWritten | Walgelijk.AssetManager/AssetPackage.cs:259-276 | when the loop throws, the cache is not cleared and the package is not marked disposed |
| AssetPackages.AssetPackage.constructor | Walgelijk.AssetManager/AssetPackage.cs:12-26 | a package starts with empty caches and both flags false |
| AssetPackages.AssetPackage.Open | Walgelijk.AssetManager/AssetPackage.cs:28-122 | opening fails exactly when reading the index fails, with its error; otherwise a fresh package over the index |
| AssetPackages.AssetPackage.GetAssetMetadata | Walgelijk.AssetManager/AssetPackage.cs:284-300 | result and new state are `MetadataOf` |
| AssetPackages.AssetPackage.GetAsset | Walgelijk.AssetManager/AssetPackage.cs:151-165 | result and new state are `AssetOf` |
| AssetPackages.AssetPackage.Load | Walgelijk.AssetManager/AssetPackage.cs:179-218 | result and new state are `Loaded` |
| AssetPackages.AssetPackage.DeserialiseAndCache | Walgelijk.AssetManager/AssetPackage.cs:199-212 | result and new state are `Deserialised` |
| AssetPackages.AssetPackage.RunDeserialiser | Walgelijk.AssetManager/AssetPackage.cs:203 | result and new state are `DeserialiserRun` |
| AssetPackages.AssetPackage.LoadDependencies | Walgelijk.AssetManager/AssetPackage.cs:203 | the loop of nested loads computes `DependenciesLoaded` |
| AssetPackages.AssetPackage.LoadNoCache | Walgelijk.AssetManager/AssetPackage.cs:220-237 | result and new state are `LoadedNoCache` |
| AssetPackages.AssetPackage.DisposeOf | Walgelijk.AssetManager/AssetPackage.cs:239-253 | result and new state are `AfterDisposeOf` |
| AssetPackages.AssetPackage.IsCached | Walgelijk.AssetManager/AssetPackage.cs:255 | true iff the id has a cached object |
| AssetPackages.AssetPackage.TryGetCached | Walgelijk.AssetManager/AssetPackage.cs:257 | the cached object exactly when `IsCached` holds |
| AssetPackages.AssetPackage.Dispose | Walgelijk.AssetManager/AssetPackage.cs:259-276 | the loop over the cache gives the state `AfterDispose` |
| AssetPackages.DependencyFailureSticks | Walgelijk.AssetManager/AssetPackage.cs:203 | once a nested load fails, the later ones do not run |
| AssetPackages.DependenciesCached | Walgelijk.AssetManager/AssetPackage.cs:203-206 | every object handed to a deserialiser is cached under the id it was loaded by |
| AssetPackages.MetadataMemoised | Walgelijk.AssetManager/AssetPackage.cs:286-287 | a second `GetAssetMetadata` returns the same record and changes nothing |
| AssetPackages.LoadAgain | Walgelijk.AssetManager/AssetPackage.cs:190-193 | after a successful load of a `T`, loading again returns the cached object, changes nothing and does not deserialise |
| AssetPackages.ReentrantLoad | Walgelijk.AssetManager/AssetPackage.cs:197-198 | while deserialising, loading an uncached id fails and leaves the cache as it is |
| AssetPackages.LoadNoCacheIgnoresCache | Walgelijk.AssetManager/AssetPackage.cs:220-237 | with a deserialiser that loads nothing, `LoadNoCache` neither changes the cache nor depends on it |
| AssetPackages.DisposeTwice | Walgelijk.AssetManager/AssetPackage.cs:261-262 | a second `Dispose` changes nothing |
| AssetPackages.ReleaseFailsAt | Walgelijk.AssetManager/AssetPackage.cs:268-269 | the loop as written throws once it meets an object that is only `IAsyncDisposable` |
| AssetPackages.AsyncOnlyObjectAbortsDispose | Walgelijk.AssetManager/AssetPackage.cs:259-276 | as written, such an object makes `Dispose` throw with the cache full and the package not disposed; the corrected `Dispose` empties the cache |
| AssetPackages.DisposeAgreesWithoutAsyncOnly | Walgelijk.AssetManager/AssetPackage.cs:259-276 | without such objects, `Dispose` as written and the corrected `Dispose` agree |

## Left out

- Locking and concurrency: the reader–writer lock, `ConcurrentDictionary` semantics and thread interleavings. The package runs on one thread, and a disposed lock is the `disposed` flag.
- JSON: `package.json` and the metadata records are kept as raw lines, without `JsonConvert`.
- Archive I/O: `TarReadArchive` and `StreamReader` become a map from entry name to lines, and `Archive.Dispose` is not modelled.
- `AssetPackage.Load(string)` and `Load<T>(string)`: opening a file stream and hashing a path into an `AssetId`. The `AssetId` type is not part of this model.
- `IdUtil.Hash`, `Convert` and `TryConvert`, `AssetPackageUtils.AssertPathValidity` and `AssetDeserialisers.Load<T>`: their code is not part of this model. They are parameters.
- The deserialiser is a `Script`: the nested loads it makes, then an outcome. An exception from a nested load ends the run, since the deserialiser is taken not to catch it.
- AssetPackages.LoadNoCacheIgnoresCache: stated only for deserialisers without nested loads, because the nested loads of `LoadNoCache` are ordinary loads that read and fill the cache.
- AssetPackages.AfterDispose: the disposed objects are recorded as a set. How often and in which order `Dispose` is called on them is not modelled, and the loop's enumeration order does not matter.
- AssetPackages.AssetPackage.Dispose: `metadataCache` is left as it is, as in the code.
- AssetTree: folders live in an array indexed by position, not as heap objects; a parent's children are positions. Aliasing between folder objects does not arise in the source, since each folder has one parent.
- AssetIndex.ReadIndex: a hierarchy block for an existing folder replaces its asset list, as the code does. The path check runs only in the guid table. A `null` from `ReadLine` in a hierarchy or tag block is a `MissingLine` failure rather than the `ArgumentNullException` that `int.Parse(null)` throws.
- IndexLayout: the writer is a reference definition of the block layout. The package builder that writes archives is not part of this model.
- Numbers.FormatInt32: defined on the 32-bit range only. `int.TryParse` is modelled for ASCII digits, an optional sign, surrounding white space and trailing NUL characters, under the invariant culture; group separators and other number styles are not.
- Components: `allComponents` is a `HashSet`, modelled as a sequence in attachment order. Where the source's order is the set's own enumeration order (a per-type list built by `TryCreateNewTypeList`, or `GetAllComponentsOfType`'s listing), the model uses attachment order instead. As in the source, where `Add` wraps the pair in a new `EntityWithAnything` that the set compares by reference, a second `Add` of the same pair keeps a second attachment, even when it then fails on the exact-type check.
- Components.BasicComponentCollection.ComponentsOfType: the typed `EntityWith<T>` view cache of `GetAllComponentsOfType` is left out. It depends on runtime generic casts, and the model returns the untyped attachments.
- Components: the `DisposeOf` hook is not modelled.
- Components.BasicComponentCollection.RemoveComponentOfType: coherence is proved only where `RemovalAgrees`. That means every component of the entity that is an instance or a supertype of the type has exactly that type, and no other per-type list holds a removed attachment. Outside that case the code as written leaves the indexes incoherent (see Findings).
- Components.BasicComponentCollection.constructor: requires the subtype relation to be reflexive, as `IsAssignableTo` is.
- BmFontReader: line selection and key search compare characters one by one. The source's `StartsWith(string)` and `IndexOf(string)` compare culture-sensitively under the current culture, which is not modelled.
- BmFontReader: `Texture.Load`, `ParseGlyphs`, the floating-point texture coordinates, `Logger` output and `currentlyLoadingPath` are left out.
- BmFontReader.ParsePages: the path comes from the page table; `Path.Combine` and texture loading are left out.
- BmFontReader.GetInfo: the `kerningsLine == null` branch is dead, because `GetLine` never returns null. The model reads `count` from the stand-in line, which gives the same 0.
- Pools.Pool.constructor: requires a non-negative capacity. A negative one makes the `Stack` and `List` constructors throw, and that path is not modelled.
- Pools: `CreateFresh`, `ResetObjectForNextUse` and `GetOverCapacityFallback` are parameters. `Logger.Warn` is dropped.
- RenderQueues: `IRenderTask.Execute` is recorded as the sequence of executed tasks, and the render target is left out.
- PackageIds.EqualsObject: the comparison with an `AssetId` is a parameter, since the `AssetId` type is not part of this model.
- PackageIds.HashCode: `HashCode.Combine` is a parameter, because it is seeded per process.

## Findings

| source | as written | input that shows it | evidently intended | confidence | as-written member | corrected member |
|---|---|---|---|---|---|---|
| Walgelijk/Entities/BasicComponentCollection.cs:225 | the entity list drops components whose type the removed type is assignable to, i.e. its supertypes | an entity holding a `Base` component and a `Derived` one; remove `Derived` | drop the instances of the removed type, as `ShouldRemove` does for `allComponents` | not executed | Components.SupertypeFilterLosesBase | Components.RemoveKeepsEntityLists |
| Walgelijk/Entities/BasicComponentCollection.cs:216-221 | only the list of the removed type is pruned; lists of its supertypes keep the detached component | an entity holding one `Derived` component, with a `Base` list; remove `Derived` | every per-type list loses the detached components | not executed | Components.UnprunedBaseListKeepsDerived | Components.RemoveKeepsTypeLists |
| Walgelijk.AssetManager/AssetPackage.cs:304 | `path == "/"` on a `ReadOnlySpan<char>` compares where the characters lie, so only the literal `"/"` is the root; any other `"/"` is walked and looks for a child named `""` | a hierarchy line `//`, or `EnumerateFolder` of a `"/"` read at run time | any `"/"` names the root, compared by content | not executed | AssetTree.DoubleSlashCreatesNamelessFolder | AssetTree.DoubleSlashByContentIsRoot |
| Walgelijk.AssetManager/AssetPackage.cs:268-269 | `Task.Run(...)` queues `DisposeAsync` and starts its `Task`, so `RunSynchronously` on it throws; `Dispose` aborts before disposing the remaining objects, clearing the cache and setting `disposed` | a cached object that is `IAsyncDisposable` but not `IDisposable`, then `Dispose()` | dispose that object and go on with the rest | not executed | AssetPackages.AsyncOnlyObjectAbortsDispose | AssetPackages.DisposeAgreesWithoutAsyncOnly |
