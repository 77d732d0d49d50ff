# CoffeeScript index query layer, modelled in Dafny

This project models the query façade of the CoffeeScript NetBeans plugin's
index (`CoffeeScriptIndex`). The façade sits over a persistent, multi-key
index. The index stores, per source file, the serialized definitions found in
it under nine fixed keys (`CLASS_KEY`, `FIELD_KEY`, `METHOD_KEY`,
`CLASS_FIELD_KEY`, `CLASS_METHOD_KEY`, `METHOD_PARAM_KEY`, `ROOT_METHOD_KEY`,
`ROOT_CLASS_KEY`, `ROOT_FIELD_KEY`).

Each of the eight query methods works the same way. For each key it reads, it:

- runs an empty-prefix query on the store;
- drops the results whose file no longer resolves (`filterDeletedFiles`);
- keeps the results of the asked file (`get…InFile`) or of every other file
  (`get…FromOtherFiles`);
- appends one definition per stored value to a result list.

If a store query fails with an I/O error, the whole query returns an empty
list. `returnAsFiles` lists the files of the live results that have the
CoffeeScript MIME type, `text/coffeescript`.

Files:

- `IndexStore.dfy`: the nine keys, files, index results and an abstract
  `QuerySupport`. Its prefix query can fail with an I/O error (a set of
  unreadable keys).
- `IndexQueries.dfy`: what each query answers, as pure functions of the
  store, and the lemmas about those answers.
- `CoffeeScriptIndex.dfy`: the class `CoffeeScriptIndex`. Its query methods
  build their result lists in loops. Each method is proved equal to its
  specification function and states its file property.

Despite its name, `getAllRootMethodsFromOtherFiles`
(src/coffeescript/nb/indexing/CoffeeScriptIndex.java:164-186) also reads
`METHOD_KEY`, not only `ROOT_METHOD_KEY`. The model follows the code, and
`RootMethodsFromOtherFilesIncludeMemberMethods` states it.

## Model

| member | source | states |
|---|---|---|
| IndexStore.NamesAreDistinct | src/coffeescript/nb/indexing/CoffeeScriptIndex.java:31-39 | the nine key constants are pairwise distinct strings, so no two keys share stored values |
| IndexStore.QuerySupport.Query | src/coffeescript/nb/indexing/CoffeeScriptIndex.java:63 | a prefix query fails with an I/O error exactly for an unreadable key; otherwise it returns exactly the documents that carry the key under the prefix |
| IndexStore.Matching | src/coffeescript/nb/indexing/CoffeeScriptIndex.java:63 | the matching documents are exactly the store's documents that carry the key under the prefix |
| IndexQueries.FilterDeleted | src/coffeescript/nb/indexing/CoffeeScriptIndex.java:233-241 | the kept results are exactly the input results whose file is non-null, and there are never more of them than inputs |
| IndexQueries.FilterDeletedAppend | src/coffeescript/nb/indexing/CoffeeScriptIndex.java:233-241 | filtering distributes over concatenation, so kept results stay in input order |
| IndexQueries.FilterDeletedCounts | src/coffeescript/nb/indexing/CoffeeScriptIndex.java:233-241 | each live result is kept exactly as many times as it occurs, and a deleted result is never kept |
| IndexQueries.FilterDeletedIdempotent | src/coffeescript/nb/indexing/CoffeeScriptIndex.java:233-241 | filtering an already filtered list changes nothing |
| IndexQueries.DefsOf | src/coffeescript/nb/indexing/CoffeeScriptIndex.java:65-66 | one definition per stored value |
| IndexQueries.DefsOfAt | src/coffeescript/nb/indexing/CoffeeScriptIndex.java:65-66 | the i-th definition pairs the i-th stored value with the result's file |
| IndexQueries.DefsOfMembership | src/coffeescript/nb/indexing/CoffeeScriptIndex.java:65-66 | a definition is built exactly when its value is stored and its file is the result's file |
| IndexQueries.GatherMembership | src/coffeescript/nb/indexing/CoffeeScriptIndex.java:63-68 | a key's loop yields a definition if and only if some live result selected by the file test stores that value under the key with that file |
| IndexQueries.GatherPartition | src/coffeescript/nb/indexing/CoffeeScriptIndex.java:167-171 | the `equals(fo)` and `!equals(fo)` loops over a key together yield every live value exactly once (multiset equality) |
| IndexQueries.KeyAnswerMembership | src/coffeescript/nb/indexing/CoffeeScriptIndex.java:63-68 | an empty-prefix query plus filtering plus a key's loop yields exactly the values some live, selected document of the store holds under the key |
| IndexQueries.JoinedMembership | src/coffeescript/nb/indexing/CoffeeScriptIndex.java:60-81 | when every store query succeeds, the concatenated loops over several keys yield exactly the values stored under one of those keys in a live, selected document |
| IndexQueries.SelectMembership | src/coffeescript/nb/indexing/CoffeeScriptIndex.java:60-87 | a query over several keys returns a definition if and only if every store query succeeds and a live, selected document stores the value under one of the keys |
| IndexQueries.SelectFails | src/coffeescript/nb/indexing/CoffeeScriptIndex.java:83-86 | one failing store query empties the whole answer |
| IndexQueries.SelectOne | src/coffeescript/nb/indexing/CoffeeScriptIndex.java:89-104 | a one-key query answers that key's loop, and answers nothing when the store query fails |
| IndexQueries.SelectSameFile | src/coffeescript/nb/indexing/CoffeeScriptIndex.java:64 | every definition kept by the `equals(fo)` test carries `fo` |
| IndexQueries.SelectOtherFiles | src/coffeescript/nb/indexing/CoffeeScriptIndex.java:168 | every definition kept by the `!equals(fo)` test carries a file other than `fo`, and that file belongs to a live document |
| IndexQueries.InFileQueriesStayInFile | src/coffeescript/nb/indexing/CoffeeScriptIndex.java:60-162 | every definition returned by the five in-file queries carries a file equal to `fo` |
| IndexQueries.OtherFileQueriesAvoidFile | src/coffeescript/nb/indexing/CoffeeScriptIndex.java:164-221 | every definition returned by the three other-file queries carries a file different from `fo` that still resolves |
| IndexQueries.RootMethodsFromOtherFilesIncludeMemberMethods | src/coffeescript/nb/indexing/CoffeeScriptIndex.java:167-172 | a class-member method (METHOD_KEY) of another live file is returned by the "root methods from other files" query |
| IndexQueries.FieldsInFileLayout | src/coffeescript/nb/indexing/CoffeeScriptIndex.java:60-86 | fields in a file are its FIELD_KEY values, then its ROOT_FIELD_KEY values, then its METHOD_PARAM_KEY values, and the length is the sum of the three; the answer is empty if a store query fails |
| IndexQueries.JoinedOfTwo | src/coffeescript/nb/indexing/CoffeeScriptIndex.java:140-156 | joining two keys puts the first key's values before the second's |
| IndexQueries.MethodsLayout | src/coffeescript/nb/indexing/CoffeeScriptIndex.java:140-186 | both method queries list METHOD_KEY values before ROOT_METHOD_KEY values, and are empty if a store query fails |
| IndexQueries.JoinedPartition | src/coffeescript/nb/indexing/CoffeeScriptIndex.java:140-186 | the in-file and other-file loops over the same keys together yield every live value of those keys exactly once |
| IndexQueries.ClassPartition | src/coffeescript/nb/indexing/CoffeeScriptIndex.java:206-221 | classes in `fo` plus classes from other files hold every live ROOT_CLASS_KEY value exactly once |
| IndexQueries.MethodPartition | src/coffeescript/nb/indexing/CoffeeScriptIndex.java:140-186 | methods in `fo` plus "root" methods from other files hold every live METHOD_KEY and ROOT_METHOD_KEY value exactly once |
| IndexQueries.QueriesFailOpen | src/coffeescript/nb/indexing/CoffeeScriptIndex.java:217-220 | a failing store query for a key empties every query method that reads that key, instead of propagating the error |
| IndexQueries.CoffeeFilesMembership | src/coffeescript/nb/indexing/CoffeeScriptIndex.java:223-231 | a file is listed if and only if it has the CoffeeScript MIME type and is the file of some live result |
| IndexQueries.CoffeeFilesAppend | src/coffeescript/nb/indexing/CoffeeScriptIndex.java:223-231 | listing distributes over concatenation: one file per qualifying result, in result order |
| IndexQueries.CoffeeFilesBound | src/coffeescript/nb/indexing/CoffeeScriptIndex.java:223-231 | no more files are listed than there are live results |
| CoffeeScriptIndexing.CoffeeScriptIndex.constructor | src/coffeescript/nb/indexing/CoffeeScriptIndex.java:51-57 | the façade queries the store it is given |
| CoffeeScriptIndexing.CoffeeScriptIndex.FilterDeletedFiles | src/coffeescript/nb/indexing/CoffeeScriptIndex.java:233-241 | the loop returns exactly the filtered results, in input order |
| CoffeeScriptIndexing.CoffeeScriptIndex.AddDefinitions | src/coffeescript/nb/indexing/CoffeeScriptIndex.java:65-66 | the inner loop appends one definition per stored value, in order |
| CoffeeScriptIndexing.CoffeeScriptIndex.AddValues | src/coffeescript/nb/indexing/CoffeeScriptIndex.java:63-68 | the nested loops over live results and their values yield exactly the key's selected values |
| CoffeeScriptIndexing.CoffeeScriptIndex.AppendKey | src/coffeescript/nb/indexing/CoffeeScriptIndex.java:63-68 | a key's block succeeds exactly when its store query does, and then appends that key's live selected values |
| CoffeeScriptIndexing.CoffeeScriptIndex.GetAllFieldsInFile | src/coffeescript/nb/indexing/CoffeeScriptIndex.java:60-87 | the result is the specified FIELD, ROOT_FIELD, METHOD_PARAM answer for `fo`, and every definition in it carries `fo` |
| CoffeeScriptIndexing.CoffeeScriptIndex.GetAllClassesInFile | src/coffeescript/nb/indexing/CoffeeScriptIndex.java:89-104 | the result is the specified ROOT_CLASS answer for `fo`, and every definition in it carries `fo` |
| CoffeeScriptIndexing.CoffeeScriptIndex.GetClassFieldsInFile | src/coffeescript/nb/indexing/CoffeeScriptIndex.java:106-121 | the result is the specified CLASS_FIELD answer for `fo`, and every definition in it carries `fo` |
| CoffeeScriptIndexing.CoffeeScriptIndex.GetClassMethodsInFile | src/coffeescript/nb/indexing/CoffeeScriptIndex.java:123-138 | the result is the specified CLASS_METHOD answer for `fo`, and every definition in it carries `fo` |
| CoffeeScriptIndexing.CoffeeScriptIndex.GetAllMethodsInFile | src/coffeescript/nb/indexing/CoffeeScriptIndex.java:140-162 | the result is the specified METHOD, ROOT_METHOD answer for `fo`, and every definition in it carries `fo` |
| CoffeeScriptIndexing.CoffeeScriptIndex.GetAllRootMethodsFromOtherFiles | src/coffeescript/nb/indexing/CoffeeScriptIndex.java:164-186 | the result is the specified METHOD, ROOT_METHOD answer for files other than `fo`, and no definition in it carries `fo` |
| CoffeeScriptIndexing.CoffeeScriptIndex.GetAllRootFieldsFromOtherFiles | src/coffeescript/nb/indexing/CoffeeScriptIndex.java:188-204 | the result is the specified ROOT_FIELD answer for files other than `fo`, and no definition in it carries `fo` |
| CoffeeScriptIndexing.CoffeeScriptIndex.GetAllClassesFromOtherFiles | src/coffeescript/nb/indexing/CoffeeScriptIndex.java:206-221 | the result is the specified ROOT_CLASS answer for files other than `fo`, and no definition in it carries `fo` |
| CoffeeScriptIndexing.CoffeeScriptIndex.ReturnAsFiles | src/coffeescript/nb/indexing/CoffeeScriptIndex.java:223-231 | the files of the live results with MIME type `text/coffeescript`, in order and once per such result; a file is listed if and only if it qualifies |

## Left out

- `CoffeeScriptIndex.create` and the private constructor's lookup of the project's source roots: project and file-system plumbing. The constructor takes the store as given.
- The store's persistence, prefix matching beyond what the empty prefix needs, and schema versioning: foreign library code. The store is an abstract value. I/O failures are modelled as a fixed set of keys whose queries fail.
- `IndexedDefinitionFactory.create` is not part of this model. A definition is the stored value paired with its file, so a decoding failure is not modelled.
- `Exceptions.printStackTrace` logging: a side effect with no observable result.
- A `null` argument `fo`: the model's file is never null. (In the source, a null `fo` would make every in-file query empty and every other-file query return every live result.)
- `getFile()` is assumed to return the same file each time it is called on one result. A file deleted between the filter and the `equals` test is not modelled.
- Element order inside `returnAsFiles`'s caller-supplied collection is taken as the sequence order. The `Collection` interface itself promises no order.
- Each key is a separate store query (src/coffeescript/nb/indexing/CoffeeScriptIndex.java:63, 69, 75, 143, 150, 167 and 174), so an index update between two of them is visible to the later one. The model answers every query from one fixed `QuerySupport`, a snapshot. `FieldsInFileLayout`, `MethodsLayout`, `ClassPartition` and `MethodPartition` therefore assume the store does not change within one query or between the compared queries.
- On success a query returns a fresh mutable `LinkedList` (src/coffeescript/nb/indexing/CoffeeScriptIndex.java:62 and each query method's first line). On an I/O failure it returns the immutable `Collections.emptyList()` (src/coffeescript/nb/indexing/CoffeeScriptIndex.java:85 and the like), so a caller that adds to the list fails only after an I/O failure. A sequence value cannot express that difference.
- Each key's block first collects its values and then appends them to the result list. The source adds them to that list one by one. The final list is the same.
- The parser hand-off (`ParseTask`), the token-id wrapper and the resource-path constants: glue with no logic to verify. Only `MIME_TYPE` is used.
- The indexer that writes entries and the tokenizer and definition extractor: they are not part of this model.
