# lightblue-mongo: hidden fields, document versions and small cores, in Dafny

This project models the parts of the lightblue MongoDB back end that are
deterministic computations over documents, strings and lists, and proves what
they promise.

**Hidden fields.** An index key can be case-insensitive. For each such key the
back end stores an upper-cased copy of the key's value in a sibling
sub-document named `@mongoHidden`. A key path may contain `*`, which means
"every element of the array here". The repository has three implementations,
and each is modelled as written. For `Translator.PopulateHiddenArrayField`
the model also has a corrected version, which the rest of the model uses
(see Findings):

- `DocTranslator.populateCaseInsensitiveField` recurses over the path
  (module `DocTranslator`).
- `Translator.populateDocHiddenFields` and `populateHiddenArrayField` split
  the key text at its wildcards (module `Translator`).
- The server-side script `populate-hidden-fields.js` uses JavaScript's flat
  bracket property access (module `HiddenFieldsScript`).

The three disagree on what a missing or null source value does:

- Translator drops the parent's whole `@mongoHidden`.
- DocTranslator drops only the one key.
- The script raises a TypeError for a missing key and skips a null one.

The lemmas `Translator.SimpleLeafNull`, `DocTranslator.LeafAbsent` and
`HiddenFieldsScript.MissingKeyFails` with `ProcessKeyNull` state each
behaviour. Documents are values (`Values.Value`: null, booleans, numbers, big
numbers, strings, object ids, lists and insertion-ordered documents). An
in-place update of a DBObject becomes a function from the document before to
the document after. Paths are sequences of segments: a field name, an index or
the wildcard (module `Paths`).

**The other cores:**

- `DocVerUtil` keeps the list of document versions in `@mongoHidden`: it
  prepends, overwrites and prunes by age. It is a `Document` class whose
  fields the methods update.
- `DocIdVersion` is the `id:version` codec.
- `MongoSequenceGenerator` is the pooled sequence allocator. Its `SequenceInfo`
  pool and the database, a map from sequence name to its stored value and
  increment, are classes.
- The index validation and matching of both `MongoCRUDController` versions
  (modules `MongoController` and `CrudController`).
- The managed/unmanaged rule of `IndexManagementCfg`.
- The pagination window of both `BasicDocFinder` versions.
- The read-preference parser of `MongoReadPreference`.
- The JavaScript code-generation classes `Name`, `Context`, `Function`,
  `Block` and `GlobalVar` (module `JsAst`).
- `ExpressionTranslator`'s query, sort, projection and value-list helpers.

Modules `Text` and `ObjectIds` model the Java library operations these use:
`toUpperCase`, `trim`, `split`, `indexOf`, `Integer.toString`,
`ObjectId.isValid` and `ObjectId.toString`.

`Translator.java` repeats `getDBObject` (292-311), `getHiddenForField` (728-733),
`getFieldForHidden` (743-745), `createIdFrom` (1412-1420) and `size`
(1422-1440) line for line from `DocTranslator.java`. The members that model
the `DocTranslator` copies model these too. `ExpressionTranslator.translatePath`
(167-180) repeats `Translator.translatePath` in the same way.
The older `crud/.../MongoCRUDController.java` repeats `translateIndexPath`
(415-428), `validateIndexFields` (430-454) and `ensureIdIndex` (501-529) from
the newer controller with plain `SortKey`s, and `isIdIndex` (609-613) and
`indexOptionsMatch` (641-654) line for line; the `MongoController` members
model both copies.
The older `crud/.../MongoSequenceGenerator.java` (`getNextSequenceValue`,
51-83) has no pools; it is `SequenceGenerator.Next` with an empty pool and a
pool size of 1.

## Model

| member | source | states |
|---|---|---|
| Values.Lookup | mongo/src/main/java/com/redhat/lightblue/mongo/crud/DocTranslator.java:228 | `DBObject.get` of a key that is not there is null |
| Values.Put | mongo/src/main/java/com/redhat/lightblue/mongo/crud/DocTranslator.java:244 | after `put` the key is present with the new value; putting a key that already exists keeps the key order |
| Values.PutOther | mongo/src/main/java/com/redhat/lightblue/mongo/crud/DocTranslator.java:252 | `put` of one key leaves the value and presence of every other key unchanged |
| Values.PutNew | mongo/src/main/java/com/redhat/lightblue/mongo/crud/DocTranslator.java:250 | a new key goes to the end of the document (insertion order) |
| Values.PutPut | mongo/src/main/java/com/redhat/lightblue/mongo/crud/DocVerUtil.java:79 | a second `put` of the same key overwrites the first |
| Values.Remove | mongo/src/main/java/com/redhat/lightblue/mongo/crud/DocTranslator.java:232 | after `removeField` the key is absent, every other key keeps its value and presence, and removing an absent key changes nothing |
| Values.DbGet | mongo/src/main/java/com/redhat/lightblue/mongo/crud/DocTranslator.java:260-261 | `((DBObject) v).get(k)`: a document looks the key up, null raises NullPointerException, a scalar raises ClassCastException, and a list accepts exactly the numeric keys |
| Values.SetChild | mongo/src/main/java/com/redhat/lightblue/mongo/crud/DocTranslator.java:261 | updating a nested DBObject in place shows in the enclosing document at the same key, and in a list at the same position with the length unchanged |
| Values.ToText | mongo/src/main/java/com/redhat/lightblue/mongo/crud/DocTranslator.java:250 | `toString` of a string value is the string itself |
| Values.AsText | mongo/src/main/java/com/redhat/lightblue/mongo/crud/IndexManagementCfg.java:106-108 | `asText` of a string is the string; of an object or array it is the empty text |
| Values.StripPutHidden | mongo/src/main/java/com/redhat/lightblue/mongo/crud/DocTranslator.java:242 | writing `@mongoHidden` leaves the document's source data (the document with every `@mongoHidden` removed) unchanged |
| Values.StripRemoveHidden | mongo/src/main/java/com/redhat/lightblue/mongo/crud/Translator.java:804 | removing `@mongoHidden` leaves the source data unchanged |
| Values.StripPutSame | mongo/src/main/java/com/redhat/lightblue/mongo/crud/DocTranslator.java:261 | replacing a present child by one with the same source data leaves the document's source data unchanged |
| Values.StripSetChild | mongo/src/main/java/com/redhat/lightblue/mongo/crud/DocTranslator.java:258-261 | the same holds for the in-place update of a child document or list element |
| Paths.SegText | mongo/src/main/java/com/redhat/lightblue/mongo/crud/Translator.java:769-770 | a well-formed segment prints as non-empty text, and a field prints as its name |
| Paths.ParseSegment | mongo/src/main/java/com/redhat/lightblue/mongo/crud/Translator.java:789 | the piece `*` parses as the wildcard and a well-formed field name as that field |
| Paths.ParsePath | mongo/src/main/java/com/redhat/lightblue/mongo/crud/Translator.java:789 | `new Path(text)` has one segment per dot-separated piece |
| Paths.ParsePathText | mongo/src/main/java/com/redhat/lightblue/mongo/crud/Translator.java:769-770 | printing a well-formed path and parsing the text back gives the same path |
| Paths.SegmentRoundTrip | mongo/src/main/java/com/redhat/lightblue/mongo/crud/Translator.java:789 | a well-formed segment parses back from its text: "*" is the wildcard, digits are an index, anything else is a field |
| ObjectIds.ToHex | mongo/src/main/java/com/redhat/lightblue/mongo/crud/DocIdVersion.java:59 | `ObjectId.toString` writes two hexadecimal digits per byte |
| ObjectIds.FromHex | mongo/src/main/java/com/redhat/lightblue/mongo/crud/DocTranslator.java:566 | `new ObjectId(s)` of a valid text is a 12-byte identifier |
| ObjectIds.FromHexToHex | mongo/src/main/java/com/redhat/lightblue/mongo/crud/DocTranslator.java:565-566 | the text of an identifier is valid and reads back as the same identifier |
| ObjectIds.TimestampSeconds | mongo/src/main/java/com/redhat/lightblue/mongo/crud/DocVerUtil.java:101-105 | the creation time read from an identifier is a signed 32-bit number of seconds |
| Text.UpperChar | mongo/src/main/java/com/redhat/lightblue/mongo/crud/DocTranslator.java:250 | a lower-case ASCII letter becomes its capital; any other character is kept |
| Text.Upper | mongo/src/main/java/com/redhat/lightblue/mongo/crud/DocTranslator.java:250 | `toUpperCase` keeps the length and maps each character |
| Text.UpperIsUpper | mongo/src/main/java/com/redhat/lightblue/mongo/crud/DocTranslator.java:250 | the result of `toUpperCase` has no lower-case letter |
| Text.UpperIdempotent | mongo/src/main/java/com/redhat/lightblue/mongo/crud/DocTranslator.java:250 | upper-casing twice is upper-casing once, so populating the same value again writes the same copy |
| Text.UpperAppend | mongo/src/main/java/com/redhat/lightblue/mongo/crud/DocTranslator.java:250 | upper-casing distributes over concatenation |
| Text.NatToString | mongo/src/main/java/com/redhat/lightblue/mongo/crud/js/Context.java:73 | the decimal text of a number is a non-empty string of digits |
| Text.ParseNatToString | mongo/src/main/java/com/redhat/lightblue/mongo/crud/js/Context.java:73 | reading the decimal text of a number gives the number back, so different counters give different texts |
| Text.IndexOf | mongo/src/main/java/com/redhat/lightblue/mongo/crud/DocIdVersion.java:63 | `indexOf` finds the first occurrence: the character is at that index and not before it, and -1 means it is absent |
| Text.LastIndexOf | mongo/src/main/resources/js/populate-hidden-fields.js:11 | `lastIndexOf` finds the last occurrence, or -1 when absent |
| Text.TrimStart | mongo/src/main/java/com/redhat/lightblue/mongo/config/MongoReadPreference.java:105 | the leading blanks of the text, and only those, are removed |
| Text.TrimEnd | mongo/src/main/java/com/redhat/lightblue/mongo/config/MongoReadPreference.java:105 | the trailing blanks of the text, and only those, are removed, the rest kept in place |
| Text.Trim | mongo/src/main/java/com/redhat/lightblue/mongo/config/MongoReadPreference.java:105 | the result of `trim` neither starts nor ends with white space (a character at or below the space) |
| Text.TrimPadded | mongo/src/main/java/com/redhat/lightblue/mongo/config/MongoReadPreference.java:105 | a word with white space around it trims to the word |
| Text.TrimStartIdempotent | mongo/src/main/java/com/redhat/lightblue/mongo/config/MongoReadPreference.java:111 | trimming the start twice is trimming it once |
| Text.Split | mongo/src/main/java/com/redhat/lightblue/mongo/crud/Translator.java:890 | `split` gives at least one piece, and no piece contains the separator |
| Text.SplitJoin | mongo/src/main/java/com/redhat/lightblue/mongo/crud/Translator.java:890-893 | splitting a join of separator-free pieces gives the pieces back |
| Text.JoinSplit | mongo/src/main/java/com/redhat/lightblue/mongo/crud/Translator.java:893 | joining the split pieces with the separator gives the text back |
| Text.CountJoin | mongo/src/main/java/com/redhat/lightblue/mongo/crud/Translator.java:893 | a character other than the separator occurs in a join as often as in all the pieces together |
| DocTranslator.DbPut | mongo/src/main/java/com/redhat/lightblue/mongo/crud/DocTranslator.java:244 | `((DBObject) v).put(k, x)`: on a document it is `Map.put`, and when it succeeds on a list the result is still a container |
| DocTranslator.DbRemove | mongo/src/main/java/com/redhat/lightblue/mongo/crud/DocTranslator.java:232 | `removeField` on a document is `Map.remove`, and a list stays a list |
| DocTranslator.UpperList | mongo/src/main/java/com/redhat/lightblue/mongo/crud/DocTranslator.java:237-239 | the upper-cased copy of a list succeeds exactly when every element is a string; it then has the same length, and element i is the upper case of element i |
| DocTranslator.Step | mongo/src/main/java/com/redhat/lightblue/mongo/crud/DocTranslator.java:178-185 | one step of `getDBObject`: the wildcard is ERR_TRANSLATION_ERROR naming the whole path, and a null value stays null |
| DocTranslator.GetDBObject | mongo/src/main/java/com/redhat/lightblue/mongo/crud/DocTranslator.java:174-193 | the loop computes the walk `GetFrom` along the path |
| DocTranslator.GetFromFields | mongo/src/main/java/com/redhat/lightblue/mongo/crud/DocTranslator.java:183-190 | walking a document along a field name reads that key; a missing key before the last segment ends the walk with null |
| DocTranslator.GetFromAny | mongo/src/main/java/com/redhat/lightblue/mongo/crud/DocTranslator.java:179-180 | a wildcard reached on the walk raises ERR_TRANSLATION_ERROR with the whole path's text |
| DocTranslator.GetFromNull | mongo/src/main/java/com/redhat/lightblue/mongo/crud/DocTranslator.java:186-192 | from a null value the walk yields null, unless the next segment is a wildcard |
| DocTranslator.HiddenForField | mongo/src/main/java/com/redhat/lightblue/mongo/crud/DocTranslator.java:203-208 | `@mongoHidden` is inserted before the last segment, or before the last two when the last is `*`; the path grows by one |
| DocTranslator.FieldForHidden | mongo/src/main/java/com/redhat/lightblue/mongo/crud/DocTranslator.java:218-220 | the result is one segment shorter and ends with the hidden path's last segment |
| DocTranslator.FieldForHiddenForField | mongo/src/main/java/com/redhat/lightblue/mongo/crud/DocTranslator.java:203-220 | `getFieldForHidden(getHiddenForField(p)) == p` for every path whose last segment is not `*` |
| DocTranslator.FieldForHiddenOfArray | mongo/src/main/java/com/redhat/lightblue/mongo/crud/DocTranslator.java:203-220 | for a path ending in `*` the round trip does not give the path back: the array name is lost and `*` takes its place |
| DocTranslator.HiddenValue | mongo/src/main/java/com/redhat/lightblue/mongo/crud/DocTranslator.java:235-253 | the hidden copy of a present value: a list gives a list of the same length, and any other value gives the upper case of its text |
| DocTranslator.PopulateLeaf | mongo/src/main/java/com/redhat/lightblue/mongo/crud/DocTranslator.java:226-254 | the one-segment case succeeds only on a document and leaves a document |
| DocTranslator.PopulateEach | mongo/src/main/java/com/redhat/lightblue/mongo/crud/DocTranslator.java:255-258 | the rest of the path applied to each list element keeps the list's length, and an empty list stays empty |
| DocTranslator.PopulateDocHiddenFields | mongo/src/main/java/com/redhat/lightblue/mongo/crud/DocTranslator.java:270-272 | the loop applies `populateCaseInsensitiveField` for each field in list order, on the document the previous fields left |
| DocTranslator.PopulateNull | mongo/src/main/java/com/redhat/lightblue/mongo/crud/DocTranslator.java:224-225 | a null document is left alone, whatever the path |
| DocTranslator.LeafScalar | mongo/src/main/java/com/redhat/lightblue/mongo/crud/DocTranslator.java:246-254 | a present value that is not a list: `@mongoHidden` exists afterwards and holds the upper case of the value's text under the same key; its other keys and every other key of the document are unchanged |
| DocTranslator.LeafList | mongo/src/main/java/com/redhat/lightblue/mongo/crud/DocTranslator.java:235-245 | a list of strings: the hidden entry is a list of the same length whose element i is the upper case of element i; nothing else changes |
| DocTranslator.LeafListFails | mongo/src/main/java/com/redhat/lightblue/mongo/crud/DocTranslator.java:237-239 | a list holding a non-string element makes the population fail |
| DocTranslator.LeafAbsent | mongo/src/main/java/com/redhat/lightblue/mongo/crud/DocTranslator.java:227-234 | a missing or null value removes only that key's hidden copy, creates no `@mongoHidden`, and changes nothing else |
| DocTranslator.PopulateEachAt | mongo/src/main/java/com/redhat/lightblue/mongo/crud/DocTranslator.java:255-258 | applying the rest of the path to the elements succeeds exactly when it succeeds on each element, and element i of the result is the result for element i |
| DocTranslator.PopulateAnyList | mongo/src/main/java/com/redhat/lightblue/mongo/crud/DocTranslator.java:255-258 | a leading `*` on a list applies the rest of the path to every element in order and keeps the length; an empty list is unchanged |
| DocTranslator.PopulatePreservesSource | mongo/src/main/java/com/redhat/lightblue/mongo/crud/DocTranslator.java:223-263 | population never changes source data: with every `@mongoHidden` removed, the document is what it was |
| DocTranslator.EachPreservesSource | mongo/src/main/java/com/redhat/lightblue/mongo/crud/DocTranslator.java:255-258 | the same for every element of a list |
| DocTranslator.LeafPreservesSource | mongo/src/main/java/com/redhat/lightblue/mongo/crud/DocTranslator.java:226-254 | the same for the one-segment case |
| DocTranslator.CreateIdFrom | mongo/src/main/java/com/redhat/lightblue/mongo/crud/DocTranslator.java:562-570 | null stays null; a value whose text is a valid object id becomes that object id; anything else is returned unchanged |
| DocTranslator.CreateIdFromOid | mongo/src/main/java/com/redhat/lightblue/mongo/crud/DocTranslator.java:562-570 | an object id, or its hexadecimal text, converts to that same object id |
| DocTranslator.CreateIdFromIdempotent | mongo/src/main/java/com/redhat/lightblue/mongo/crud/DocTranslator.java:562-570 | converting twice is converting once |
| DocTranslator.FilterBigNumbers | mongo/src/main/java/com/redhat/lightblue/mongo/crud/DocTranslator.java:435-442 | no big number comes out: a big number becomes a string with the same text, and any other value is unchanged |
| DocTranslator.GetDocVer | mongo/src/main/java/com/redhat/lightblue/mongo/crud/DocTranslator.java:307-309 | the text is the `_id` text, ':' and the version's 24 hexadecimal digits |
| DocTranslator.ListSizeAppend | mongo/src/main/java/com/redhat/lightblue/mongo/crud/DocTranslator.java:574-577 | the size of a list is the sum of the sizes of its elements, so it adds up over concatenation |
| DocTranslator.EntriesSizeAppend | mongo/src/main/java/com/redhat/lightblue/mongo/crud/DocTranslator.java:578-583 | the same for the fields of a document |
| DocTranslator.Size | mongo/src/main/java/com/redhat/lightblue/mongo/crud/DocTranslator.java:572-590 | the loops compute `JsonSize`: 4 per number, the text length of every other scalar, and the length of every field name |
| Translator.TranslatePath | mongo/src/main/java/com/redhat/lightblue/mongo/crud/Translator.java:176-189 | the loop computes `MongoPath`: wildcards are skipped, and a dot goes before every other segment that is not the path's first |
| Translator.RemoveAny | mongo/src/main/java/com/redhat/lightblue/mongo/crud/Translator.java:181 | the path without its wildcards holds no wildcard and is no longer than the path |
| Translator.MongoPathDropsAny | mongo/src/main/java/com/redhat/lightblue/mongo/crud/ExpressionTranslator.java:165-180 | for a path not starting with `*`, the Mongo path is the dot-joined text of the path without wildcards, so names and indexes keep their order |
| Translator.MongoPathSnoc | mongo/src/main/java/com/redhat/lightblue/mongo/crud/Translator.java:179-187 | one more segment adds nothing for `*`, otherwise its text, after a dot unless it is the first segment |
| Translator.RemoveAnySnoc | mongo/src/main/java/com/redhat/lightblue/mongo/crud/Translator.java:181 | dropping wildcards commutes with appending a segment |
| Translator.MongoPathLeadingAny | mongo/src/main/java/com/redhat/lightblue/mongo/crud/Translator.java:182-184 | as written, `*.x` renders as ".x" although its wildcard-free text is "x" |
| Translator.MongoPathFixedDropsAny | mongo/src/main/java/com/redhat/lightblue/mongo/crud/Translator.java:176-189 | with the dot written only after non-empty output, the rendering is the dot-joined wildcard-free path for every well-formed path, and it is empty exactly when no segment is left |
| Translator.TranslateJsPath | mongo/src/main/java/com/redhat/lightblue/mongo/crud/Translator.java:196-213 | the loop computes `JsPath`: a path holding `*` raises ERR_TRANSLATION_ERROR naming the whole path; otherwise index segments are written `[n]` with no dot and the others are dot-joined |
| Translator.AnyFrom | mongo/src/main/java/com/redhat/lightblue/mongo/crud/Translator.java:201-202 | the position where `translateJsPath` stops: a wildcard, or the end of the path |
| Translator.AnyFromFirst | mongo/src/main/java/com/redhat/lightblue/mongo/crud/Translator.java:201-202 | no segment before that position is a wildcard |
| Translator.AnyFromIff | mongo/src/main/java/com/redhat/lightblue/mongo/crud/Translator.java:201-202 | the path holds a wildcard exactly when the loop stops before its end |
| Translator.JsTextSnoc | mongo/src/main/java/com/redhat/lightblue/mongo/crud/Translator.java:203-210 | one more segment appends `[n]` for an index, else its name after a dot unless it comes first |
| Translator.JsPathOfNames | mongo/src/main/java/com/redhat/lightblue/mongo/crud/Translator.java:196-213 | for a path of field names only, the JavaScript path is the dotted path |
| Translator.SplitArrayPathShape | mongo/src/main/java/com/redhat/lightblue/mongo/crud/Translator.java:889-903 | the split succeeds exactly when the first `*` is not the first character; the prefix is the text before the character before the first `*`, and the suffix is the rejoined pieces after it |
| Translator.SplitArrayPathCount | mongo/src/main/java/com/redhat/lightblue/mongo/crud/Translator.java:889-903 | the prefix holds no `*` and the suffix holds fewer than the key, which bounds the recursion over nested arrays |
| Translator.SplitArrayPathRejoins | mongo/src/main/java/com/redhat/lightblue/mongo/crud/Translator.java:889-903 | for a key whose first `*` follows a dot, which does not end in '.' and does not end in two `*`s, `pre + ".*" + post` gives the key back |
| Translator.RestorePostRest | mongo/src/main/java/com/redhat/lightblue/mongo/crud/Translator.java:893-901 | the suffix rebuilt from the split pieces, with a lost trailing `*` restored, is the text after the `*` |
| Translator.SetPath | mongo/src/main/java/com/redhat/lightblue/mongo/crud/Translator.java:870 | storing a value at a non-empty path leaves a document or list at the top |
| Translator.Fill | mongo/src/main/java/com/redhat/lightblue/mongo/crud/Translator.java:870 | setting one slot (creating the document or padding the list when needed) leaves a container holding the value in that slot |
| Translator.GetAfterSet | mongo/src/main/java/com/redhat/lightblue/mongo/crud/Translator.java:870 | after setting a value at a well-formed path, reading the path gives that value |
| Translator.SimpleLeaf | mongo/src/main/java/com/redhat/lightblue/mongo/crud/Translator.java:795-805 | the wildcard-free case at the key's parent succeeds only on a document and leaves a document |
| Translator.SimpleLeafString | mongo/src/main/java/com/redhat/lightblue/mongo/crud/Translator.java:795-802 | a string value: the parent's `@mongoHidden` holds its upper case under the same key and is created when missing; its other keys and the parent's other keys are unchanged |
| Translator.SimpleLeafNull | mongo/src/main/java/com/redhat/lightblue/mongo/crud/Translator.java:803-805 | a null or missing value with `@mongoHidden` present removes the parent's whole `@mongoHidden`, not just the key |
| Translator.SimpleLeafLosesOtherCopies | mongo/src/main/java/com/redhat/lightblue/mongo/crud/Translator.java:803-805 | the upper-cased copy of another key b is lost when key a is missing |
| Translator.SimpleLeafPreservesSource | mongo/src/main/java/com/redhat/lightblue/mongo/crud/Translator.java:795-805 | neither case changes source data |
| Translator.SimpleFieldPreservesSource | mongo/src/main/java/com/redhat/lightblue/mongo/crud/Translator.java:788-805 | walking down to the parent and populating there changes only `@mongoHidden` sub-documents |
| Translator.FullPathCount | mongo/src/main/java/com/redhat/lightblue/mongo/crud/Translator.java:843 | the element key `pre.i post` holds as many `*`s as the suffix |
| Translator.PopulateHiddenArrayField | mongo/src/main/java/com/redhat/lightblue/mongo/crud/Translator.java:820-880 | the method computes `ArrayField`: split both keys, find the list before the first `*`, then populate its elements |
| Translator.PopulateElements | mongo/src/main/java/com/redhat/lightblue/mongo/crud/Translator.java:838-879 | the element loop computes `ArrayLoop` from element 0, descending while the suffix still holds `*` |
| Translator.PopulateElement | mongo/src/main/java/com/redhat/lightblue/mongo/crud/Translator.java:841-872 | one pass of the element loop computes `ArrayStep` for element i: a descent into the nested list when the suffix holds `*`, otherwise the corrected store of the element's upper-cased text |
| Translator.ArrayAbsent | mongo/src/main/java/com/redhat/lightblue/mongo/crud/Translator.java:829-838 | when the list before the first `*` is absent, the document is unchanged |
| Translator.ArrayAbsentField | mongo/src/main/java/com/redhat/lightblue/mongo/crud/Translator.java:831 | a document without the prefix's first field has no such list |
| Translator.ArrayStepStores | mongo/src/main/java/com/redhat/lightblue/mongo/crud/Translator.java:865-871 | corrected: a scalar element i: reading the hidden path with index i afterwards gives the upper case of the element's text, even where an older copy was stored there |
| Translator.MergeInto | mongo/src/main/java/com/redhat/lightblue/mongo/crud/Translator.java:905-927 | as written: an update that is not a document has no fields and changes nothing; a merged document keeps every field it had and holds every field of the update |
| Translator.MergeFields | mongo/src/main/java/com/redhat/lightblue/mongo/crud/Translator.java:906-925 | the fields of the update from position j on: the main document keeps every field it had and gains each of those fields |
| Translator.MergeList | mongo/src/main/java/com/redhat/lightblue/mongo/crud/Translator.java:910-918 | a list merged element by element keeps its length or grows to the update's length, and a scalar met by a list raises ClassCastException |
| Translator.ArrayFieldMerged | mongo/src/main/java/com/redhat/lightblue/mongo/crud/Translator.java:820-878 | as written: the array population with its merge never drops a field of the document |
| Translator.ArrayLoopMerged | mongo/src/main/java/com/redhat/lightblue/mongo/crud/Translator.java:838-878 | as written: the element loop with the shared collection of copies never drops a field of the document |
| Translator.ArrayStepMerged | mongo/src/main/java/com/redhat/lightblue/mongo/crud/Translator.java:841-877 | as written: one iteration, the store into the shared collection and the merge into the document, never drops a field of the document |
| Translator.MergeKeepsNonDocument | mongo/src/main/java/com/redhat/lightblue/mongo/crud/Translator.java:905-927 | merging into anything that is not a document changes nothing, since only a document's fields are replaced |
| Translator.MergeNewField | mongo/src/main/java/com/redhat/lightblue/mongo/crud/Translator.java:905-927 | a field the main document lacks is added with the update's value; every other field keeps its value |
| Translator.StaleHiddenCopyKept | mongo/src/main/java/com/redhat/lightblue/mongo/crud/Translator.java:866-877 | as written: for the key `arr.*` on {arr: ["c"], @mongoHidden: {arr: ["B"]}} the merge keeps "B", while the corrected `ArrayStep` stores "C" |
| Translator.ArrayStepStoresField | mongo/src/main/java/com/redhat/lightblue/mongo/crud/Translator.java:852-871 | a document element: the upper case of its value at the suffix path is stored at the hidden path with index i, and a missing value stores nothing |
| Translator.ArrayStepNullElement | mongo/src/main/java/com/redhat/lightblue/mongo/crud/Translator.java:866 | a null element raises NullPointerException |
| Translator.PopulateDocHiddenFields | mongo/src/main/java/com/redhat/lightblue/mongo/crud/Translator.java:781-808 | the loop computes `PopulateMap`: each key in the map's iteration order, a key with `*` to the array case and any other to the simple case |
| Translator.PopulateMapStep | mongo/src/main/java/com/redhat/lightblue/mongo/crud/Translator.java:782-807 | one iteration handles key i and continues with the rest on the resulting document, stopping at an error |
| Translator.PopulateMapAppend | mongo/src/main/java/com/redhat/lightblue/mongo/crud/Translator.java:782-807 | the keys are handled one after the other, each on the document the previous ones left |
| Translator.FieldMap | mongo/src/main/java/com/redhat/lightblue/mongo/crud/Translator.java:765-773 | the field map has one entry per case-insensitive index field |
| Translator.FieldMapParses | mongo/src/main/java/com/redhat/lightblue/mongo/crud/Translator.java:765-773 | the map's texts parse back to the field and to its hidden twin, and for a field not ending in `*` the twin maps back to the field |
| Translator.HiddenMappingNested | mongo/src/test/java/com/redhat/lightblue/mongo/crud/TranslatorTest.java:93-105 | "objField.strField" has the hidden twin "objField.@mongoHidden.strField", and that twin maps back |
| Translator.HiddenMappingTop | mongo/src/test/java/com/redhat/lightblue/mongo/crud/TranslatorTest.java:93-105 | "strField" has the hidden twin "@mongoHidden.strField", and that twin maps back |
| HiddenFieldsScript.Prop | mongo/src/main/resources/js/populate-hidden-fields.js:16 | `doc[k]` is defined exactly when the document has a property named k, dots included, and then it is that property's value |
| HiddenFieldsScript.ToUpperCase | mongo/src/main/resources/js/populate-hidden-fields.js:18 | `x.toUpperCase()` succeeds exactly on a string and gives its upper case; undefined, null and other values raise a TypeError |
| HiddenFieldsScript.JsLength | mongo/src/main/resources/js/populate-hidden-fields.js:40 | `x.length` raises a TypeError exactly on undefined and null |
| HiddenFieldsScript.Substring | mongo/src/main/resources/js/populate-hidden-fields.js:30-34 | `substring(start, end)` within bounds is the slice, and it is never longer than the string |
| HiddenFieldsScript.PostHasNoStar | mongo/src/main/resources/js/populate-hidden-fields.js:42-45 | the text after the last `*` and the character after it holds no `*`, so the nested-descent branch of `doArrayMap` is never taken |
| HiddenFieldsScript.DoArrayMap | mongo/src/main/resources/js/populate-hidden-fields.js:26-54 | the method computes `ArrayMap`: both keys are cut at the same offsets, and the loop writes element keys `pre + i + post` |
| HiddenFieldsScript.PopulateHiddenFields | mongo/src/main/resources/js/populate-hidden-fields.js:5-24 | each document is saved once, in cursor order, after all keys of the map were processed on it; an error stops the cursor and the documents before it stay saved |
| HiddenFieldsScript.ProcessDocument | mongo/src/main/resources/js/populate-hidden-fields.js:9-21 | the loop over the field map computes `ProcessDoc`, stopping at the first error |
| HiddenFieldsScript.DoProcessKey | mongo/src/main/resources/js/populate-hidden-fields.js:11-20 | one key: a key with `*` goes to `doArrayMap` at its last `*`, any other key is copied when `doc[k] !== null` |
| HiddenFieldsScript.ProcessDocStep | mongo/src/main/resources/js/populate-hidden-fields.js:9-21 | one iteration handles key j and continues with the rest on the resulting document |
| HiddenFieldsScript.ProcessKeyString | mongo/src/main/resources/js/populate-hidden-fields.js:14-20 | a string property is copied, upper-cased, to the property named by the hidden key, and no other property changes |
| HiddenFieldsScript.ProcessKeyNull | mongo/src/main/resources/js/populate-hidden-fields.js:16 | a null property writes nothing |
| HiddenFieldsScript.ArrayMapNull | mongo/src/main/resources/js/populate-hidden-fields.js:36-39 | a null list before the wildcard writes nothing |
| HiddenFieldsScript.ProcessDocAppend | mongo/src/main/resources/js/populate-hidden-fields.js:9-21 | keys are processed one after the other, each on the document the previous ones left |
| HiddenFieldsScript.MissingKeyFails | mongo/src/main/resources/js/populate-hidden-fields.js:16-18 | a document without the key passes the `!== null` test and raises a TypeError |
| HiddenFieldsScript.FlatHiddenWrite | mongo/src/main/resources/js/populate-hidden-fields.js:18 | the copy is written as one top-level property named "@mongoHidden.name", not inside the `@mongoHidden` sub-document |
| HiddenFieldsScript.ElementKeyLosesDot | mongo/src/main/resources/js/populate-hidden-fields.js:48-50 | for "tags.*" the element keys are "tags0", "tags1", …: the dot is lost, so a non-empty list makes the script fail |
| HiddenFieldsScript.HiddenCutAtFieldOffset | mongo/src/main/resources/js/populate-hidden-fields.js:30-34 | the hidden key is cut at the field key's offsets: for "tags.*" the hidden prefix is "@mon" |
| HiddenFieldsScript.CountAnyAppend | mongo/src/main/resources/js/populate-hidden-fields.js:42-45 | the wildcard count of a path adds up over concatenation |
| HiddenFieldsScript.FirstAny | mongo/src/main/resources/js/populate-hidden-fields.js:11 | the position of the first wildcard: a wildcard with none before it |
| HiddenFieldsScript.FillFirstAny | mongo/src/main/resources/js/populate-hidden-fields.js:40-45 | expanding the first wildcard to index i keeps the length and removes one wildcard |
| HiddenFieldsScript.FillPrefix | mongo/src/main/resources/js/populate-hidden-fields.js:30 | a wildcard-free prefix is kept as it is |
| HiddenFieldsScript.FillFirstAnyAt | mongo/src/main/resources/js/populate-hidden-fields.js:40-45 | the expansion replaces exactly the first wildcard by index i |
| HiddenFieldsScript.FixedMissing | mongo/src/main/resources/js/populate-hidden-fields.js:16-18 | corrected: a document without the key is left unchanged |
| HiddenFieldsScript.FixedStores | mongo/src/main/resources/js/populate-hidden-fields.js:18 | corrected: a string is stored at the nested hidden path, where reading that path finds its upper case |
| HiddenFieldsScript.FixedElementPath | mongo/src/main/resources/js/populate-hidden-fields.js:48-50 | corrected: expansion i of a wildcard reads element i of the list actually present |
| HiddenFieldsScript.GetFromIndex | mongo/src/main/resources/js/populate-hidden-fields.js:48 | reading one index further into a list that a path reaches gives that element |
| HiddenFieldsScript.GetFromWhole | mongo/src/main/resources/js/populate-hidden-fields.js:48 | which path an error would name does not change a walk that succeeds |
| HiddenFieldsScript.FixedHiddenAligned | mongo/src/main/resources/js/populate-hidden-fields.js:30-34 | corrected: for a field not ending in `*`, expanding the first wildcard of its hidden twin gives the hidden twin of the expanded field |
| HiddenFieldsScript.AlignedShape | mongo/src/main/resources/js/populate-hidden-fields.js:30-34 | filling the wildcard and then inserting `@mongoHidden` before the last segment is the same as inserting first and then filling |
| DocVerUtil.Document.constructor | mongo/src/main/java/com/redhat/lightblue/mongo/crud/DocVerUtil.java:42 | a document holds the given top-level pairs |
| DocVerUtil.Hidden | mongo/src/main/java/com/redhat/lightblue/mongo/crud/DocVerUtil.java:43 | `(DBObject) doc.get("@mongoHidden")`: null when absent, and a ClassCastException exactly when the value is neither null nor a container |
| DocVerUtil.GetHidden | mongo/src/main/java/com/redhat/lightblue/mongo/crud/DocVerUtil.java:42-48 | without `addIfNotFound` the document is unchanged; with it the result is a container and the document's `@mongoHidden` is that container, a new empty one when it was missing |
| DocVerUtil.ListIn | mongo/src/main/java/com/redhat/lightblue/mongo/crud/DocVerUtil.java:56 | `hidden.get("docver")` is null or a list when it succeeds, null when the key is absent, and fails on a list |
| DocVerUtil.VersionList | mongo/src/main/java/com/redhat/lightblue/mongo/crud/DocVerUtil.java:53-59 | `getVersionList` is null when the document has no `@mongoHidden` |
| DocVerUtil.SetDocVer | mongo/src/main/java/com/redhat/lightblue/mongo/crud/DocVerUtil.java:72-80 | the new document is `SetDocVerFields` of the old one, and on a fault it is unchanged |
| DocVerUtil.SetDocVerPrepends | mongo/src/main/java/com/redhat/lightblue/mongo/crud/DocVerUtil.java:72-80 | `setDocVer` prepends: the new list is the version followed by the old list (empty when absent); it fails exactly when the hidden object or the list has the wrong type |
| DocVerUtil.SetDocVerFrame | mongo/src/main/java/com/redhat/lightblue/mongo/crud/DocVerUtil.java:72-80 | every other top-level key and every other hidden key keeps its value |
| DocVerUtil.OverwriteDocVer | mongo/src/main/java/com/redhat/lightblue/mongo/crud/DocVerUtil.java:64-67 | the new document is `OverwriteDocVerFields` of the old one |
| DocVerUtil.OverwriteLeavesOne | mongo/src/main/java/com/redhat/lightblue/mongo/crud/DocVerUtil.java:64-67 | after `overwriteDocVer` the list is exactly the one version |
| DocVerUtil.CopyDocVerFields | mongo/src/main/java/com/redhat/lightblue/mongo/crud/DocVerUtil.java:85-90 | a source without hidden data leaves the destination unchanged |
| DocVerUtil.CopyDocVer | mongo/src/main/java/com/redhat/lightblue/mongo/crud/DocVerUtil.java:85-90 | the new destination is `CopyDocVerFields` of the old one and the source |
| DocVerUtil.CopyDocVerShares | mongo/src/main/java/com/redhat/lightblue/mongo/crud/DocVerUtil.java:85-90 | afterwards the destination reads the source's version list, and its other keys are unchanged |
| DocVerUtil.Recent | mongo/src/main/java/com/redhat/lightblue/mongo/crud/DocVerUtil.java:100-111 | the kept versions succeed exactly when every entry is an object id, are no more than the list, and each kept one is the current version or younger than 60000 ms |
| DocVerUtil.RecentFilters | mongo/src/main/java/com/redhat/lightblue/mongo/crud/DocVerUtil.java:100-111 | pruning keeps relative order, keeps every version it should, and keeps the current version when listed |
| DocVerUtil.RecentIdempotent | mongo/src/main/java/com/redhat/lightblue/mongo/crud/DocVerUtil.java:100-111 | pruning a pruned list changes nothing |
| DocVerUtil.RecentAllKept | mongo/src/main/java/com/redhat/lightblue/mongo/crud/DocVerUtil.java:100-111 | a list whose every version is kept is its own pruning |
| DocVerUtil.RecentSameSize | mongo/src/main/java/com/redhat/lightblue/mongo/crud/DocVerUtil.java:112 | pruning that removes nothing returns the list itself, so comparing sizes is comparing lists |
| DocVerUtil.CleanupOldDocVer | mongo/src/main/java/com/redhat/lightblue/mongo/crud/DocVerUtil.java:95-117 | the new document is `CleanupFields` of the old one: the list is replaced by its pruning only when something was removed, and a document without hidden data or a list is unchanged |
| DocVerUtil.Prune | mongo/src/main/java/com/redhat/lightblue/mongo/crud/DocVerUtil.java:100-111 | the filtering loop computes `Recent` |
| DocVerUtil.CleanupIdempotent | mongo/src/main/java/com/redhat/lightblue/mongo/crud/DocVerUtil.java:95-117 | cleaning up twice is cleaning up once |
| DocIdVersions.EqualsIsIdentity | mongo/src/main/java/com/redhat/lightblue/mongo/crud/DocIdVersion.java:48-55 | two pairs are equal exactly when both id and version are equal |
| DocIdVersions.HashCode | mongo/src/main/java/com/redhat/lightblue/mongo/crud/DocIdVersion.java:43-46 | a null id and a null version each hash as 0, leaving the other part's hash |
| DocIdVersions.HashConsistent | mongo/src/main/java/com/redhat/lightblue/mongo/crud/DocIdVersion.java:43-55 | equal pairs have equal hash codes |
| DocIdVersions.VersionText | mongo/src/main/java/com/redhat/lightblue/mongo/crud/DocIdVersion.java:59 | a missing version is written "null", a present one as its 24 hexadecimal digits |
| DocIdVersions.ToString | mongo/src/main/java/com/redhat/lightblue/mongo/crud/DocIdVersion.java:57-60 | the text is the id, ':' and the version; a null id raises NullPointerException |
| DocIdVersions.ValueOf | mongo/src/main/java/com/redhat/lightblue/mongo/crud/DocIdVersion.java:62-69 | no ':' raises IllegalArgumentException; a cast of the id text that fails raises its fault; after a successful cast, parsing fails (IllegalArgumentException) exactly when the text after the first ':' is not a valid object id; a parsed pair always has a version |
| DocIdVersions.ValueOfToString | mongo/src/main/java/com/redhat/lightblue/mongo/crud/DocIdVersion.java:57-69 | printing a pair and reading it back gives the pair when the id text has no ':' and the cast gives the id back |
| DocIdVersions.ValueOfToStringNoVersion | mongo/src/main/java/com/redhat/lightblue/mongo/crud/DocIdVersion.java:57-69 | a pair without a version prints as `id:null`, which reading back refuses |
| DocIdVersions.GetDocumentVersion | mongo/src/main/java/com/redhat/lightblue/mongo/crud/DocIdVersion.java:71-77 | null when the version list is missing or empty; otherwise the `_id` (through createIdFrom) paired with the list's head: no version for a null head, the object id for an object id, ClassCastException for anything else; a fault reading the list is passed on |
| DocIdVersions.DocumentVersionAfterSet | mongo/src/main/java/com/redhat/lightblue/mongo/crud/DocIdVersion.java:71-77 | after `setDocVer(doc, v)` the document's version is v, paired with its own `_id` |
| DocIdVersions.NewestFirst | mongo/src/main/java/com/redhat/lightblue/mongo/crud/DocIdVersion.java:73-74 | the version of a document is the head of its list |
| DocIdVersions.GetDocVerIsToString | mongo/src/main/java/com/redhat/lightblue/mongo/crud/DocTranslator.java:307-309 | `getDocVer` writes the same text as `toString` of the pair |
| ExpressionTranslator.AppendObjectType | mongo/src/main/java/com/redhat/lightblue/mongo/crud/ExpressionTranslator.java:185-197 | a null query gives exactly the comparison `objectType = e`; any other query gives an AND whose last operand is that comparison |
| ExpressionTranslator.AppendKeepsConjuncts | mongo/src/main/java/com/redhat/lightblue/mongo/crud/ExpressionTranslator.java:189-196 | the conjuncts of the result are the query's conjuncts (the operands of an AND, else the query itself) in order, followed by the objectType test |
| ExpressionTranslator.AppendObjectTypeHolds | mongo/src/main/java/com/redhat/lightblue/mongo/crud/ExpressionTranslator.java:189-196 | the result holds on a document exactly when the query holds and the document has the entity's objectType |
| ExpressionTranslator.PutAllDistinct | mongo/src/main/java/com/redhat/lightblue/mongo/crud/ExpressionTranslator.java:348-351 | appending pairs with distinct keys to a BasicDBObject keeps every pair, in order |
| ExpressionTranslator.PutAllOther | mongo/src/main/java/com/redhat/lightblue/mongo/crud/ExpressionTranslator.java:348-351 | a key that no appended pair names keeps its value |
| ExpressionTranslator.PutAllSame | mongo/src/main/java/com/redhat/lightblue/mongo/crud/ExpressionTranslator.java:348-351 | when every appended pair carries the same value, every key appended holds it |
| ExpressionTranslator.PutAllKeeps | mongo/src/main/java/com/redhat/lightblue/mongo/crud/ExpressionTranslator.java:348-351 | a key holding v keeps v when the later pairs put either v again or another key |
| ExpressionTranslator.Direction | mongo/src/main/java/com/redhat/lightblue/mongo/crud/ExpressionTranslator.java:476 | the stored direction is 1 or -1, negative exactly for a descending key |
| ExpressionTranslator.TranslateSortKey | mongo/src/main/java/com/redhat/lightblue/mongo/crud/ExpressionTranslator.java:475-477 | the one-field document maps the translated path to -1 exactly when descending and to 1 exactly when ascending |
| ExpressionTranslator.SortEntries | mongo/src/main/java/com/redhat/lightblue/mongo/crud/ExpressionTranslator.java:481-487 | one translated pair per sort key, in order |
| ExpressionTranslator.TranslateCompositeSortKey | mongo/src/main/java/com/redhat/lightblue/mongo/crud/ExpressionTranslator.java:479-489 | no key gives null; otherwise the result is the pairs of all keys put one after the other |
| ExpressionTranslator.CompositeSortKeyOrder | mongo/src/main/java/com/redhat/lightblue/mongo/crud/ExpressionTranslator.java:479-489 | with distinct translated fields the sort document lists the keys in the given order, each negative exactly when the key is descending |
| ExpressionTranslator.TranslateProjection | mongo/src/main/java/com/redhat/lightblue/mongo/crud/ExpressionTranslator.java:342-354 | the loop puts 1 for every required field and then for the hidden sub-document |
| ExpressionTranslator.PutAllStep | mongo/src/main/java/com/redhat/lightblue/mongo/crud/ExpressionTranslator.java:348-351 | the puts from pair i on are pair i's put followed by the rest |
| ExpressionTranslator.ProjectionEntries | mongo/src/main/java/com/redhat/lightblue/mongo/crud/ExpressionTranslator.java:348-351 | one pair with 1 per required field, in order, and a last pair for the hidden sub-document |
| ExpressionTranslator.ProjectionIncludesHidden | mongo/src/main/java/com/redhat/lightblue/mongo/crud/ExpressionTranslator.java:346-353 | the projection always contains `@mongoHidden: 1`, and every required field with 1 |
| ExpressionTranslator.HiddenPathText | mongo/src/main/java/com/redhat/lightblue/mongo/crud/ExpressionTranslator.java:351 | the hidden sub-document's path renders as its bare name |
| ExpressionTranslator.TranslateValue | mongo/src/main/java/com/redhat/lightblue/mongo/crud/ExpressionTranslator.java:617-622 | a null entry stays null; the translation fails exactly when the type's cast of a non-null value fails, with the cast's fault; no big number comes out, and outside an id list a value is the cast value with big numbers as text |
| ExpressionTranslator.TranslateValueList | mongo/src/main/java/com/redhat/lightblue/mongo/crud/ExpressionTranslator.java:613-627 | a null list gives an empty one; a successful result has the same length and entry i is the translation of entry i; a failure carries the fault of the first entry whose translation fails |
| ExpressionTranslator.IdListConverts | mongo/src/main/java/com/redhat/lightblue/mongo/crud/ExpressionTranslator.java:620-621 | in an id list, a cast that yields valid object-id text translates to exactly the object id that text spells |
| DocFinder.SkipTo | mongo/src/main/java/com/redhat/lightblue/mongo/crud/BasicDocFinder.java:117 | a skip within the result lands there, and a skip past the end lands at the end |
| DocFinder.Cursor | mongo/src/main/java/com/redhat/lightblue/mongo/crud/BasicDocFinder.java:117-127 | skip then limit: the contiguous documents after the skip, all of them for limit 0, and at most the limit's size otherwise |
| DocFinder.Limits | mongo/src/main/java/com/redhat/lightblue/mongo/crud/BasicDocFinder.java:108-131 | a negative or missing `from` becomes 0; the result is empty exactly when `to` is below it; without counting and without `to` nothing is planned |
| DocFinder.Find | mongo/src/main/java/com/redhat/lightblue/mongo/crud/BasicDocFinder.java:100-152 | a failure is ERR_TOO_MANY_RESULTS; the returned count is the number of matches when counting and 0 otherwise |
| DocFinder.FindWindow | mongo/src/main/java/com/redhat/lightblue/mongo/crud/BasicDocFinder.java:108-131 | the documents retrieved are those from max(from, 0) to `to`, inclusive, or to the end without `to`; `to` below `from` retrieves nothing; the count does not depend on the window |
| DocFinder.TooManyResults | mongo/src/main/java/com/redhat/lightblue/mongo/crud/BasicDocFinder.java:132-137 | a request is refused exactly when it is not empty, counting, a limit is configured and the planned number exceeds it |
| DocFinder.NoLimitNoRefusal | mongo/src/main/java/com/redhat/lightblue/mongo/crud/BasicDocFinder.java:133 | without counting, or without a limit, nothing is refused |
| DocFinder.ExactFitRefused | mongo/src/main/java/com/redhat/lightblue/mongo/crud/BasicDocFinder.java:128-130 | as written, with the limit at 10 and 10 matches, a request for all of them is refused; with the corrected count it returns all 10 |
| DocFinder.RefusedIffTooMany | mongo/src/main/java/com/redhat/lightblue/mongo/crud/BasicDocFinder.java:119-137 | corrected: a counted request with a limit is refused exactly when the documents it would retrieve outnumber the limit |
| DocFinder.OldLimits | crud/src/main/java/com/redhat/lightblue/crud/mongo/BasicDocFinder.java:71-91 | a negative `to` skips everything with realn 0; `from` above `to` skips everything; a non-negative `to` limits to `to - from + 1` with a null `from` read as 0 |
| DocFinder.OldFind | crud/src/main/java/com/redhat/lightblue/crud/mongo/BasicDocFinder.java:67-108 | it fails with ERR_TOO_MANY_RESULTS exactly when realn exceeds 10000, and otherwise returns the full result size |
| DocFinder.OldFindWindow | crud/src/main/java/com/redhat/lightblue/crud/mongo/BasicDocFinder.java:71-91 | the documents retrieved are `from..to` inclusive, nothing when `from` is above `to` or `to` is negative, and everything from `from` on without `to` |
| DocFinder.OldCapOnRequest | crud/src/main/java/com/redhat/lightblue/crud/mongo/BasicDocFinder.java:80-95 | the cap is on the window asked for, not on the result: an empty collection refuses 0..10000, and 10001 documents refuse a request without limits but not one from 1 |
| MongoController.EntityIndexes.constructor | mongo/src/main/java/com/redhat/lightblue/mongo/crud/MongoCRUDController.java:539 | the index list of an entity starts as the given list |
| MongoController.TranslateIndexPath | mongo/src/main/java/com/redhat/lightblue/mongo/crud/MongoCRUDController.java:426-439 | the stored path is the key path without its wildcards; a path with an array index fails with ERR_INVALID_INDEX_FIELD, and only such a path fails |
| MongoController.RemoveAnyFrom | mongo/src/main/java/com/redhat/lightblue/mongo/crud/MongoCRUDController.java:429-437 | every segment of the stored path is a segment of the key path |
| MongoController.RemoveAnyNoAny | mongo/src/main/java/com/redhat/lightblue/mongo/crud/MongoCRUDController.java:431-435 | a key path without wildcards is stored as it is |
| MongoController.IndexPathIdempotent | mongo/src/main/java/com/redhat/lightblue/mongo/crud/MongoCRUDController.java:426-439 | a stored path has neither wildcards nor indexes, so translating it again gives it back |
| MongoController.EndsInHiddenText | mongo/src/main/java/com/redhat/lightblue/mongo/crud/MongoCRUDController.java:444 | comparing the text of the last segment with `@mongoHidden` is the same as asking whether the last segment is the field `@mongoHidden` |
| MongoController.ValidateNoHiddenInMetaData | mongo/src/main/java/com/redhat/lightblue/mongo/crud/MongoCRUDController.java:441-448 | the metadata passes exactly when no field path ends in `@mongoHidden`; otherwise the error is ERR_RESERVED_FIELD |
| MongoController.SameSortKeys | mongo/src/main/java/com/redhat/lightblue/mongo/crud/MongoCRUDController.java:466-478 | true exactly when both key lists have the same length and pairwise the same field and direction |
| MongoController.ValidateSaneIndexSet | mongo/src/main/java/com/redhat/lightblue/mongo/crud/MongoCRUDController.java:453-464 | the index set passes exactly when no two indexes share a key signature; otherwise the error is ERR_DUPLICATE_INDEX |
| MongoController.RewriteKeys | mongo/src/main/java/com/redhat/lightblue/mongo/crud/MongoCRUDController.java:486-498 | the rewritten key list of an index has as many keys as the original |
| MongoController.ValidateFrom | mongo/src/main/java/com/redhat/lightblue/mongo/crud/MongoCRUDController.java:481-503 | validateIndexFields keeps the number of indexes, also when it stops at an error |
| MongoController.RewriteIndexKeys | mongo/src/main/java/com/redhat/lightblue/mongo/crud/MongoCRUDController.java:482-498 | the inner loop yields the key list the rewrite function gives, or the error of the first key with an array index |
| MongoController.ValidateIndexFields | mongo/src/main/java/com/redhat/lightblue/mongo/crud/MongoCRUDController.java:480-504 | the entity's indexes become those the rewrite function gives, and the error is the one it reports |
| MongoController.NothingToRewrite | mongo/src/main/java/com/redhat/lightblue/mongo/crud/MongoCRUDController.java:489 | an index whose key paths have no wildcards and no indexes is left exactly as it is |
| MongoController.RewriteLandsAtSlotZero | mongo/src/main/java/com/redhat/lightblue/mongo/crud/MongoCRUDController.java:485-496 | as written: for keys `a` and `x.*.y` the stored path `x.y` overwrites the first key and the second keeps its wildcard |
| MongoController.RewriteFixedInPlace | mongo/src/main/java/com/redhat/lightblue/mongo/crud/MongoCRUDController.java:480-504 | corrected: every key is replaced in place by its stored path with its direction kept, and the rewrite fails exactly when some key has an array index |
| MongoController.IdIndex | mongo/src/main/java/com/redhat/lightblue/mongo/crud/MongoCRUDController.java:552-556 | the index that is added is unique and has the one ascending key `_id` |
| MongoController.EnsureIdIndex | mongo/src/main/java/com/redhat/lightblue/mongo/crud/MongoCRUDController.java:536-564 | the entity's indexes become the list with a unique `_id` index appended when none was there |
| MongoController.WithIdIndexAddsAtMostOne | mongo/src/main/java/com/redhat/lightblue/mongo/crud/MongoCRUDController.java:541-559 | afterwards there is a unique `_id` index; the existing indexes keep their places; one index is added exactly when none was there; a second call changes nothing |
| MongoController.CaseInsensitiveKeyName | mongo/src/main/java/com/redhat/lightblue/mongo/crud/MongoCRUDController.java:743-755 | a case-insensitive key matches the database key named by its hidden twin, in the right direction, and never the key named by its own path |
| MongoController.Direction | mongo/src/main/java/com/redhat/lightblue/mongo/crud/MongoCRUDController.java:751 | a stored direction is read exactly when it is a number; null raises NullPointerException and any other value ClassCastException |
| MongoController.CompareSortKeys | mongo/src/main/java/com/redhat/lightblue/mongo/crud/MongoCRUDController.java:743-755 | the comparison raises exactly when the stored name agrees and the direction is not a number; it holds exactly when the name agrees and the direction is negative for a descending key |
| MongoController.ScanKeys | mongo/src/main/java/com/redhat/lightblue/mongo/crud/MongoCRUDController.java:763-769 | the pairwise walk gives true exactly when every pair matches, and a fault only from the first pair that raises, every earlier pair matching |
| MongoController.IndexFieldsMatch | mongo/src/main/java/com/redhat/lightblue/mongo/crud/MongoCRUDController.java:757-773 | false for a missing key document or a different key count; otherwise the pairwise walk in order, so true exactly when the keys match pairwise and a non-numeric direction met before any mismatch raises |
| MongoController.TextKeyRaises | mongo/src/main/java/com/redhat/lightblue/mongo/crud/MongoCRUDController.java:750-751 | a text index key, whose direction is a string, raises ClassCastException |
| MongoController.KeyOrderMatters | mongo/src/main/java/com/redhat/lightblue/mongo/crud/MongoCRUDController.java:762-768 | an index on (x, y) matches the database key {x: 1, y: 1}; one on (y, x) does not |
| MongoController.IdIndexMatchesIdKey | mongo/src/main/java/com/redhat/lightblue/mongo/crud/MongoCRUDController.java:729-741 | a database index that matches an `_id` index is itself recognised as an `_id` index |
| MongoController.IndexOptionsMatch | mongo/src/main/java/com/redhat/lightblue/mongo/crud/MongoCRUDController.java:775-788 | the options match exactly when the unique flags agree, a missing database flag counting as false |
| MongoController.EntitySchema.constructor | mongo/src/main/java/com/redhat/lightblue/mongo/crud/MongoCRUDController.java:524 | the schema starts with the given top-level fields |
| MongoController.FindField | mongo/src/main/java/com/redhat/lightblue/mongo/crud/MongoCRUDController.java:516-520 | the position found holds a field of that name and no earlier one does; nothing is found exactly when no field has the name |
| MongoController.FindFieldAppended | mongo/src/main/java/com/redhat/lightblue/mongo/crud/MongoCRUDController.java:524 | a name that was missing is found at the end once a field of that name is appended |
| MongoController.WithIdField | mongo/src/main/java/com/redhat/lightblue/mongo/crud/MongoCRUDController.java:510-534 | afterwards `_id` resolves to a simple field, and the fields that were there are kept in place |
| MongoController.EnsureIdField | mongo/src/main/java/com/redhat/lightblue/mongo/crud/MongoCRUDController.java:510-534 | the schema becomes the one the specification function gives; on ERR_INVALID_ID it is left unchanged |
| MongoController.WithIdFieldIdempotent | mongo/src/main/java/com/redhat/lightblue/mongo/crud/MongoCRUDController.java:510-534 | a second ensureIdField changes nothing |
| CrudController.CrudCompareSortKeys | crud/src/main/java/com/redhat/lightblue/crud/mongo/MongoCRUDController.java:615-621 | the older comparison raises exactly when the key's own name agrees and the direction is not a number; it holds exactly when the name agrees and the direction is negative for a descending key |
| CrudController.CompareVersionsAgree | crud/src/main/java/com/redhat/lightblue/crud/mongo/MongoCRUDController.java:615-621 | for a case-sensitive key the older compareSortKeys and the newer one give the same result, faults included |
| CrudController.CrudScanKeys | crud/src/main/java/com/redhat/lightblue/crud/mongo/MongoCRUDController.java:629-635 | the older pairwise walk gives true exactly when every pair matches under the older comparison |
| CrudController.CrudIndexFieldsMatch | crud/src/main/java/com/redhat/lightblue/crud/mongo/MongoCRUDController.java:623-639 | the loop gives the older match: the pairwise walk in order (a non-numeric direction raising) when the key counts agree, and true otherwise |
| CrudController.CrudMatchIgnoresKeyCount | crud/src/main/java/com/redhat/lightblue/crud/mongo/MongoCRUDController.java:625-638 | as written: an index on (a, b) matches a database index on c alone, and any index matches one with no key document |
| CrudController.CorrectedMatchIsStricter | crud/src/main/java/com/redhat/lightblue/crud/mongo/MongoCRUDController.java:623-639 | whatever the newer match accepts for case-sensitive keys, the older one accepts too |
| CrudController.WithIdentityIdField | crud/src/main/java/com/redhat/lightblue/crud/mongo/MongoCRUDController.java:460-499 | as the newer ensureIdField, and afterwards the `_id` field carries an identity constraint |
| CrudController.FindFieldSameNames | crud/src/main/java/com/redhat/lightblue/crud/mongo/MongoCRUDController.java:467 | two field lists with the same names find a name at the same place |
| CrudController.EnsureIdFieldWithIdentity | crud/src/main/java/com/redhat/lightblue/crud/mongo/MongoCRUDController.java:460-499 | the schema becomes the one the specification function gives; on ERR_INVALID_ID it is left unchanged |
| CrudController.IdentityAddedOnce | crud/src/main/java/com/redhat/lightblue/crud/mongo/MongoCRUDController.java:484-496 | an `_id` without the constraint gets exactly one, at the end of its constraints; one that has it is left alone; a second call changes nothing |
| CrudController.UpdatePredefinedFields | crud/src/main/java/com/redhat/lightblue/crud/mongo/MongoCRUDController.java:371-378 | a missing or null `_id` becomes the text of the new ObjectId; any other document is left unchanged |
| CrudController.PredefinedIdSet | crud/src/main/java/com/redhat/lightblue/crud/mongo/MongoCRUDController.java:371-378 | afterwards `_id` is not null, an `_id` that was there is kept, and every other key is unchanged |
| IndexManagement.IsManaged | mongo/src/main/java/com/redhat/lightblue/mongo/crud/IndexManagementCfg.java:74-86 | an entity is managed exactly when a managed set, if there is one, holds its name and an unmanaged set, if there is one, does not |
| IndexManagement.ManagementRules | mongo/src/main/java/com/redhat/lightblue/mongo/crud/IndexManagementCfg.java:74-86 | with no sets everything is managed; the unmanaged set overrides the managed one; an empty managed set manages nothing; an empty unmanaged set alone manages everything |
| IndexManagement.TextSet | mongo/src/main/java/com/redhat/lightblue/mongo/crud/IndexManagementCfg.java:104-110 | the set holds exactly the texts of the non-null elements |
| IndexManagement.StringSetOption | mongo/src/main/java/com/redhat/lightblue/mongo/crud/IndexManagementCfg.java:88-114 | the only failure is the NullPointerException of the code as written |
| IndexManagement.GetStringSetOption | mongo/src/main/java/com/redhat/lightblue/mongo/crud/IndexManagementCfg.java:88-114 | the loop collects the set the specification function gives: none for a null node or a non-array value, else the texts of the non-null elements |
| IndexManagement.TextSetStep | mongo/src/main/java/com/redhat/lightblue/mongo/crud/IndexManagementCfg.java:104-110 | one more element adds its text to the set when it is not null |
| IndexManagement.FromOptions | mongo/src/main/java/com/redhat/lightblue/mongo/crud/IndexManagementCfg.java:42-63 | reading the configuration fails only in the code as written |
| IndexManagement.Strs | mongo/src/main/java/com/redhat/lightblue/mongo/crud/IndexManagementCfg.java:32-37 | the configuration's name lists become JSON string arrays, one string per name |
| IndexManagement.TextSetStrs | mongo/src/main/java/com/redhat/lightblue/mongo/crud/IndexManagementCfg.java:104-110 | the texts of a string array are exactly its names |
| IndexManagement.MissingOptionFails | mongo/src/main/java/com/redhat/lightblue/mongo/crud/IndexManagementCfg.java:93-95 | as written: an `indexManagement` object naming only unmanaged entities raises NullPointerException |
| IndexManagement.JsonConfigAgrees | mongo/src/main/java/com/redhat/lightblue/mongo/crud/IndexManagementCfg.java:42-72 | corrected: the configuration read from JSON equals the one built from the two sets directly, whichever of them are given; as written this holds when both are given |
| IndexManagement.ManagedOption | mongo/src/main/java/com/redhat/lightblue/mongo/crud/IndexManagementCfg.java:53 | the managed set read back from the options is the one written, and a missing one fails only as written |
| IndexManagement.UnmanagedOption | mongo/src/main/java/com/redhat/lightblue/mongo/crud/IndexManagementCfg.java:54 | the unmanaged set read back from the options is the one written, and a missing one fails only as written |
| ReadPreferences.ModeName | mongo/src/main/java/com/redhat/lightblue/mongo/config/MongoReadPreference.java:51-55 | each mode name is non-empty, has no blank at either end and no `(` |
| ReadPreferences.ModeOf | mongo/src/main/java/com/redhat/lightblue/mongo/config/MongoReadPreference.java:119-143 | a name selects a mode exactly when it is that mode's name; otherwise no mode has it |
| ReadPreferences.ModeOfName | mongo/src/main/java/com/redhat/lightblue/mongo/config/MongoReadPreference.java:119-141 | every one of the five names selects its own mode |
| ReadPreferences.TagSetOfKeys | mongo/src/main/java/com/redhat/lightblue/mongo/config/MongoReadPreference.java:175-182 | the tag set has exactly the member names of the object, each with a string value |
| ReadPreferences.ParseArg | mongo/src/main/java/com/redhat/lightblue/mongo/config/MongoReadPreference.java:175-182 | the loop builds the tag set the specification function gives |
| ReadPreferences.TagSetOfDistinct | mongo/src/main/java/com/redhat/lightblue/mongo/config/MongoReadPreference.java:175-182 | with no repeated member names the tag set holds every member in order with the text of its value |
| ReadPreferences.TagSetOfSnoc | mongo/src/main/java/com/redhat/lightblue/mongo/config/MongoReadPreference.java:179 | a member with a new name is appended to the tag set |
| ReadPreferences.TagsOf | mongo/src/main/java/com/redhat/lightblue/mongo/config/MongoReadPreference.java:161-173 | an object gives one tag set; an array of objects gives one per element, in order; anything else, including an empty array or one with a non-object element, is refused |
| ReadPreferences.ParseArgsNode | mongo/src/main/java/com/redhat/lightblue/mongo/config/MongoReadPreference.java:161-173 | parseArgs of a JSON node gives the tag sets of the specification function |
| ReadPreferences.ParseArgList | mongo/src/main/java/com/redhat/lightblue/mongo/config/MongoReadPreference.java:164-170 | the array loop gives one tag set per element, in order, and is refused at the first element that is not an object |
| ReadPreferences.AllTagSets | mongo/src/main/java/com/redhat/lightblue/mongo/config/MongoReadPreference.java:164-170 | tag sets gathered for every element are the array's tag sets |
| ReadPreferences.ParseArgs | mongo/src/main/java/com/redhat/lightblue/mongo/config/MongoReadPreference.java:148-159 | blank arguments give no tags; every failure is InvalidReadPreferenceArgs with the trimmed text; tags that are given are never empty |
| ReadPreferences.Preference | mongo/src/main/java/com/redhat/lightblue/mongo/config/MongoReadPreference.java:119-141 | the preference has the selected mode; primary and a mode without tags have no tag sets; any other mode keeps the tag sets given |
| ReadPreferences.Parse | mongo/src/main/java/com/redhat/lightblue/mongo/config/MongoReadPreference.java:104-145 | failures are InvalidReadPreference with the trimmed text or InvalidReadPreferenceArgs; primary never has tags; a text without `(` succeeds exactly when it is a mode name, untagged |
| ReadPreferences.ParseTrimmed | mongo/src/main/java/com/redhat/lightblue/mongo/config/MongoReadPreference.java:106-144 | the same for a text already trimmed |
| ReadPreferences.WithArgs | mongo/src/main/java/com/redhat/lightblue/mongo/config/MongoReadPreference.java:110-114 | with an argument list the failures are of the same two kinds, and primary still has no tags |
| ReadPreferences.Select | mongo/src/main/java/com/redhat/lightblue/mongo/config/MongoReadPreference.java:119-144 | the switch fails exactly when the name is none of the five, with InvalidReadPreference of the whole text |
| ReadPreferences.PaddedName | mongo/src/main/java/com/redhat/lightblue/mongo/config/MongoReadPreference.java:104-118 | a name alone with blanks around it is selected without tags, or refused |
| ReadPreferences.NameParses | mongo/src/main/java/com/redhat/lightblue/mongo/config/MongoReadPreference.java:104-141 | each of the five names with blanks around it parses to its untagged preference |
| ReadPreferences.TrimCloseParen | mongo/src/main/java/com/redhat/lightblue/mongo/config/MongoReadPreference.java:111 | trimming a text that ends in `)` trims only its start |
| ReadPreferences.ParseArgsTrimStart | mongo/src/main/java/com/redhat/lightblue/mongo/config/MongoReadPreference.java:149 | the arguments are trimmed again, so trimming their start beforehand changes nothing |
| ReadPreferences.ParseSplit | mongo/src/main/java/com/redhat/lightblue/mongo/config/MongoReadPreference.java:106-144 | once the name and the arguments are found, the arguments are parsed first and their error wins, then the name is switched on |
| ReadPreferences.NameWithArgs | mongo/src/main/java/com/redhat/lightblue/mongo/config/MongoReadPreference.java:106-144 | a name, blanks and an argument list: the argument errors come first, then the name is looked up |
| ReadPreferences.PaddedWithArgs | mongo/src/main/java/com/redhat/lightblue/mongo/config/MongoReadPreference.java:104-144 | the same with blanks around the whole text |
| ReadPreferences.ParseWithArgs | mongo/src/main/java/com/redhat/lightblue/mongo/config/MongoReadPreference.java:104-144 | each mode's name with an argument list gets the tags of the arguments, and argument errors come first |
| ReadPreferences.NameArgs | mongo/src/main/java/com/redhat/lightblue/mongo/config/MongoReadPreference.java:104-144 | the same without blanks |
| ReadPreferences.EmptyParens | mongo/src/main/java/com/redhat/lightblue/mongo/config/MongoReadPreference.java:150-151 | empty parentheses are the same as none |
| ReadPreferences.PrimaryIgnoresTags | mongo/src/main/java/com/redhat/lightblue/mongo/config/MongoReadPreference.java:125-126 | primary ignores the tags its arguments give, but not their errors |
| ReadPreferences.TaggedParse | mongo/src/main/java/com/redhat/lightblue/mongo/config/MongoReadPreference.java:104-182 | any other mode takes the tag sets of its JSON argument; blank arguments give none; text that is not JSON, or JSON of another shape, is refused with the trimmed argument text |
| ReadPreferences.UnclosedArgs | mongo/src/main/java/com/redhat/lightblue/mongo/config/MongoReadPreference.java:112-113 | a parenthesis that is never closed is refused with the whole trimmed text, whatever the name |
| ReadPreferences.ParseUnclosed | mongo/src/main/java/com/redhat/lightblue/mongo/config/MongoReadPreference.java:112-113 | parse refuses a text whose arguments do not end in `)` |
| ReadPreferences.TagValueAsText | mongo/src/main/java/com/redhat/lightblue/mongo/config/MongoReadPreference.java:179 | tag values are kept as text: {"x":1} gives the tag x = "1" |
| SequenceGenerator.StoredInc | mongo/src/main/java/com/redhat/lightblue/mongo/crud/MongoSequenceGenerator.java:159-161 | an increment of 0 is stored as 1; any other is stored as given |
| SequenceGenerator.Next | mongo/src/main/java/com/redhat/lightblue/mongo/crud/MongoSequenceGenerator.java:122-203 | a non-empty pool serves the call and the collection is untouched; otherwise the value returned is the stored value of the sequence, created if missing; other sequences are unchanged |
| SequenceGenerator.SequenceInfo.constructor | mongo/src/main/java/com/redhat/lightblue/mongo/crud/MongoSequenceGenerator.java:67-69 | a new pool is empty with all counters 0 |
| SequenceGenerator.SequenceInfo.NextId | mongo/src/main/java/com/redhat/lightblue/mongo/crud/MongoSequenceGenerator.java:71-80 | a non-empty pool returns its next value, shrinks by one and moves on by its increment; an empty pool returns null and is unchanged |
| SequenceGenerator.SequenceStore.constructor | mongo/src/main/java/com/redhat/lightblue/mongo/crud/MongoSequenceGenerator.java:83-84 | the collection starts with the given sequence documents |
| SequenceGenerator.MongoSequenceGenerator.constructor | mongo/src/main/java/com/redhat/lightblue/mongo/crud/MongoSequenceGenerator.java:83-92 | the generator starts on the given collection with no pools |
| SequenceGenerator.MongoSequenceGenerator.GetNextSequenceValue | mongo/src/main/java/com/redhat/lightblue/mongo/crud/MongoSequenceGenerator.java:122-203 | the pool of the name is found or created, and the call then behaves as the specification function on that pool and the collection |
| SequenceGenerator.MongoSequenceGenerator.Refill | mongo/src/main/java/com/redhat/lightblue/mongo/crud/MongoSequenceGenerator.java:151-196 | with an empty pool the value, the collection and the pool afterwards are those of the specification function |
| SequenceGenerator.FirstCallReturnsInit | mongo/src/main/java/com/redhat/lightblue/mongo/crud/MongoSequenceGenerator.java:156-195 | the first call on a new sequence returns init and stores the value one increment on, or poolSize increments on with the rest in the pool |
| SequenceGenerator.ExistingIgnoresArguments | mongo/src/main/java/com/redhat/lightblue/mongo/crud/MongoSequenceGenerator.java:117-118 | for an existing sequence the init and inc arguments are ignored |
| SequenceGenerator.PoolSizeZeroIsOne | mongo/src/test/java/com/redhat/lightblue/mongo/crud/MongoSequenceGeneratorTest.java:43-79 | a pool size of 0 behaves exactly like a pool size of 1 |
| SequenceGenerator.NextAdvancesByInc | mongo/src/main/java/com/redhat/lightblue/mongo/crud/MongoSequenceGenerator.java:180-195 | each call returns the upcoming value and moves it on by exactly the stored increment, whatever the pool size |
| SequenceGenerator.Run | mongo/src/test/java/com/redhat/lightblue/mongo/crud/MongoSequenceGeneratorTest.java:83-118 | a run of calls returns one value per call |
| SequenceGenerator.RunCountsUp | mongo/src/test/java/com/redhat/lightblue/mongo/crud/MongoSequenceGeneratorTest.java:83-118 | one process counts up from the upcoming value in steps of the stored increment |
| SequenceGenerator.FreshRunIsArithmetic | mongo/src/test/java/com/redhat/lightblue/mongo/crud/MongoSequenceGeneratorTest.java:83-118 | one process on a new sequence gets init, init+inc, init+2*inc, and so on (inc 0 counting as 1), whatever pool sizes it asks for |
| SequenceGenerator.DisjointSymmetric | mongo/src/main/java/com/redhat/lightblue/mongo/crud/MongoSequenceGenerator.java:182-195 | the invariant between two processes sharing a sequence, whose stored increment may be negative or positive but not 0, does not depend on which is which |
| SequenceGenerator.DrawIsNew | mongo/src/main/java/com/redhat/lightblue/mongo/crud/MongoSequenceGenerator.java:144-195 | for any increment argument, and a stored increment that is negative or positive, a call by either process returns a value not handed out before and keeps the two pools disjoint |
| SequenceGenerator.DrawFromPool | mongo/src/main/java/com/redhat/lightblue/mongo/crud/MongoSequenceGenerator.java:144-150 | a call served from the pool returns a value outside every value handed out before and outside the other pool, and the rest of the pool keeps its end |
| SequenceGenerator.DrawFromStore | mongo/src/main/java/com/redhat/lightblue/mongo/crud/MongoSequenceGenerator.java:153-178 | a call with an empty pool on a missing sequence creates it with a non-zero increment and then behaves as on an existing one |
| SequenceGenerator.DrawFromExisting | mongo/src/main/java/com/redhat/lightblue/mongo/crud/MongoSequenceGenerator.java:180-195 | on an existing sequence the stored value is new, and the stored value moves on past the refilled pool |
| SequenceGenerator.StoreStep | mongo/src/main/java/com/redhat/lightblue/mongo/crud/MongoSequenceGenerator.java:180-195 | handing out the stored value and moving it on past the refilled pool keeps the pools apart and every handed-out value before the new stored value |
| SequenceGenerator.Interleave | mongo/src/test/java/com/redhat/lightblue/mongo/crud/MongoSequenceGeneratorTest.java:122-176 | interleaved calls return one value per call |
| SequenceGenerator.InterleaveNeverRepeats | mongo/src/test/java/com/redhat/lightblue/mongo/crud/MongoSequenceGeneratorTest.java:122-176 | however two processes interleave their calls, with the stored increment negative or positive, no value is handed out twice and none that was handed out before |
| SequenceGenerator.FreshProcessesNeverRepeat | mongo/src/main/java/com/redhat/lightblue/mongo/crud/MongoSequenceGenerator.java:108-111 | two processes starting with empty pools never get the same value, on a new sequence or on a stored one with a non-zero increment, negative increments included |
| JsAst.RenderFields | mongo/src/main/java/com/redhat/lightblue/mongo/crud/js/Name.java:86-101 | a name without index parts and empty names renders as its parts joined with dots |
| JsAst.RenderIndexBetween | mongo/src/main/java/com/redhat/lightblue/mongo/crud/js/Name.java:91-97 | an index part between two fields renders as `x[n].y` |
| JsAst.RenderPathFields | mongo/src/main/java/com/redhat/lightblue/mongo/crud/js/Name.java:46-52 | a name built from a path without array indexes renders as the path's own text |
| JsAst.PathParts | mongo/src/main/java/com/redhat/lightblue/mongo/crud/js/Name.java:46-52 | one part per path segment, with the segment's text, flagged as an index exactly for an index segment |
| JsAst.Name.constructor | mongo/src/main/java/com/redhat/lightblue/mongo/crud/js/Name.java:40 | a new name has no parts |
| JsAst.Name.Copy | mongo/src/main/java/com/redhat/lightblue/mongo/crud/js/Name.java:42-44 | the copy has the argument's parts |
| JsAst.Name.FromPath | mongo/src/main/java/com/redhat/lightblue/mongo/crud/js/Name.java:46-52 | the loop builds the parts of the path |
| JsAst.Name.Add | mongo/src/main/java/com/redhat/lightblue/mongo/crud/js/Name.java:54-57 | one part more, at the end, and the name itself is returned |
| JsAst.Name.AddName | mongo/src/main/java/com/redhat/lightblue/mongo/crud/js/Name.java:59-62 | the argument's parts are appended in order, also when the argument is the name itself |
| JsAst.Name.AddPart | mongo/src/main/java/com/redhat/lightblue/mongo/crud/js/Name.java:64-67 | the part is appended and the name itself is returned |
| JsAst.Name.RemoveLast | mongo/src/main/java/com/redhat/lightblue/mongo/crud/js/Name.java:81-84 | the last part is dropped and the rest is kept |
| JsAst.Name.ToString | mongo/src/main/java/com/redhat/lightblue/mongo/crud/js/Name.java:86-101 | the builder loop gives the rendering of the parts |
| JsAst.CopyThenAdd | mongo/src/main/java/com/redhat/lightblue/mongo/crud/js/Name.java:42-44 | a copy is independent: adding to it leaves the original as it was |
| JsAst.GlobalVar.AppendToStr | mongo/src/main/java/com/redhat/lightblue/mongo/crud/js/GlobalVar.java:37-43 | the builder keeps what it held and gets the declaration after it |
| JsAst.GlobalVar.ToString | mongo/src/main/java/com/redhat/lightblue/mongo/crud/js/GlobalVar.java:45-48 | toString is appendToStr on an empty builder |
| JsAst.ParseDeclRoundTrip | mongo/src/main/java/com/redhat/lightblue/mongo/crud/js/GlobalVar.java:37-43 | a declaration names its variable and initial value unambiguously when the name holds no `=` |
| JsAst.ConcatAppend | mongo/src/main/java/com/redhat/lightblue/mongo/crud/js/Block.java:53-55 | appending texts one list after another gives the texts of both lists in order |
| JsAst.Statement.constructor | mongo/src/main/java/com/redhat/lightblue/mongo/crud/js/Block.java:47 | a new statement has its code and no parent block |
| JsAst.CodesAppend | mongo/src/main/java/com/redhat/lightblue/mongo/crud/js/Block.java:53-55 | rendering a list of statements is rendering its two halves one after the other |
| JsAst.Block.constructor | mongo/src/main/java/com/redhat/lightblue/mongo/crud/js/Block.java:27-43 | the block has the result variable given and the statements in argument order, each with this block as its parent |
| JsAst.Block.Add | mongo/src/main/java/com/redhat/lightblue/mongo/crud/js/Block.java:45-48 | the statement goes last, the result variable is kept and the block becomes the statement's parent |
| JsAst.Block.AppendToStr | mongo/src/main/java/com/redhat/lightblue/mongo/crud/js/Block.java:50-57 | the builder gets the block's statements, in order, between braces |
| JsAst.AddRendersLast | mongo/src/main/java/com/redhat/lightblue/mongo/crud/js/Block.java:45-57 | an added statement renders right before the closing brace |
| JsAst.DeclTexts | mongo/src/main/java/com/redhat/lightblue/mongo/crud/js/Function.java:60-62 | one declaration text per global, in order |
| JsAst.DeclsAppend | mongo/src/main/java/com/redhat/lightblue/mongo/crud/js/Function.java:60-62 | the globals of two lists are declared one list after the other |
| JsAst.NamesDistinct | mongo/src/main/java/com/redhat/lightblue/mongo/crud/js/Context.java:73 | distinct counter values give distinct names |
| JsAst.FreshGlobalName | mongo/src/main/java/com/redhat/lightblue/mongo/crud/js/Function.java:39-43 | the next counter value names a global none of the earlier ones has, and the globals stay numbered below the counter |
| JsAst.Function.constructor | mongo/src/main/java/com/redhat/lightblue/mongo/crud/js/Function.java:28-33 | a function has the block given and no globals |
| JsAst.Function.Global | mongo/src/main/java/com/redhat/lightblue/mongo/crud/js/Function.java:35-37 | one declaration more, last, and the block is kept |
| JsAst.Function.NewGlobal | mongo/src/main/java/com/redhat/lightblue/mongo/crud/js/Function.java:39-43 | the global gets the name "r" and the root counter, which moves on by one; that name differs from every global drawn before from the same counter |
| JsAst.Function.NewGlobalBoolean | mongo/src/main/java/com/redhat/lightblue/mongo/crud/js/Function.java:45-49 | a new global with a fresh name, initialised to false |
| JsAst.Function.NewGlobalInt | mongo/src/main/java/com/redhat/lightblue/mongo/crud/js/Function.java:51-55 | a new global with a fresh name, initialised to 0 |
| JsAst.Function.AppendToStr | mongo/src/main/java/com/redhat/lightblue/mongo/crud/js/Function.java:57-67 | the header, the globals in insertion order, the block and the return of its result variable, appended to the builder; nothing when there is no block |
| JsAst.Function.AppendGlobals | mongo/src/main/java/com/redhat/lightblue/mongo/crud/js/Function.java:60-62 | the loop appends the declarations of all globals in order |
| JsAst.Context.Root | mongo/src/main/java/com/redhat/lightblue/mongo/crud/js/Context.java:69-74 | the top of the parent chain is a context without parent |
| JsAst.Context.constructor | mongo/src/main/java/com/redhat/lightblue/mongo/crud/js/Context.java:32-35 | a new context has the node and block given, no function, no parent and the counter at zero |
| JsAst.Context.Linked | mongo/src/main/java/com/redhat/lightblue/mongo/crud/js/Context.java:37-48 | a context built with its function and parent as enter and copy build it |
| JsAst.Context.Enter | mongo/src/main/java/com/redhat/lightblue/mongo/crud/js/Context.java:37-42 | the child has the node and block given, the same function, this context as parent, and the same root |
| JsAst.Context.Copy | mongo/src/main/java/com/redhat/lightblue/mongo/crud/js/Context.java:44-49 | the copy has the same node, block, function and parent; a copy of a non-root shares the root, a copy of a root is a new root at zero |
| JsAst.Context.NewName | mongo/src/main/java/com/redhat/lightblue/mongo/crud/js/Context.java:69-74 | the name is the prefix and the root's counter, which moves on by one |
| JsAst.Context.VarName | mongo/src/main/java/com/redhat/lightblue/mongo/crud/js/Context.java:51-67 | the loop resolves the local name against the block's loop variable as the specification function does, or fails where no part is left to drop |
| JsAst.VarFromStep | mongo/src/main/java/com/redhat/lightblue/mongo/crud/js/Context.java:56-65 | "$parent" drops the last part and fails on an empty name, "$this" is skipped, any other part is appended |
| JsAst.VarFromPlain | mongo/src/main/java/com/redhat/lightblue/mongo/crud/js/Context.java:62-64 | without "$parent" and "$this" the local name is appended as it is |
| JsAst.VarFromThis | mongo/src/main/java/com/redhat/lightblue/mongo/crud/js/Context.java:60-61 | a "$this" part anywhere changes nothing |
| JsAst.VarFromParent | mongo/src/main/java/com/redhat/lightblue/mongo/crud/js/Context.java:58-59 | a "$parent" part cancels the plain part right before it |
| JsAst.VarNameUnchanged | mongo/src/main/java/com/redhat/lightblue/mongo/crud/js/Context.java:51-67 | a plain local name resolved outside any block is the name itself |
| JsAst.TwoNames | mongo/src/main/java/com/redhat/lightblue/mongo/crud/js/Context.java:69-74 | two names drawn from contexts of one tree differ |

## Left out

- Database access, cursors and locks: `findOne`, `insert`, `findAndModify`, `DBCursor` skip/limit/count, the read-write lock and the per-pool locks of `MongoSequenceGenerator`. The collection is a map, a cursor is the list of matching documents, and interleavings of two processes are modelled as an explicit sequence of calls.
- The static pool map of `MongoSequenceGenerator` is a field of one generator object, keyed by the sequence name instead of `collection.name`; `initIndex` and the set of initialised collections are left out.
- SequenceGenerator.Next: Java's 64-bit `long` arithmetic is modelled with unbounded integers, so wrap-around of the stored value is not captured.
- JsAst.Context.NewName: the Java `int` counter is a `nat`, so its wrap-around after 2^31 names is not captured.
- DocFinder.Find: the `int` arithmetic on `from`, `to` and the planned count is unbounded.
- Exceptions become a `Fault` value that names their kind (NullPointer, ClassCast, TypeError, an error code); messages and stack unwinding are left out.
- The JSON parser used by `MongoReadPreference.parseArgs` is a parameter that gives the parsed value or nothing; Jackson itself is not part of this model.
- `MongoMetadataConstants.ERR_INVALID_ID` is not part of this model; its text is a placeholder.
- IndexSortKey is not part of this model; its two-argument constructor, used by `validateIndexFields`, is taken to make a case-sensitive key.
- `EntitySchema.resolve` is modelled as a lookup of the top-level field by name (`MongoController.FindField`); nested schema resolution is left out.
- `ObjectId.get()` in `updatePredefinedFields` is the parameter `newId`: the generator's clock, counter and machine id are left out.
- Translator.PopulateHiddenArrayField: the merge of mongo/src/main/java/com/redhat/lightblue/mongo/crud/Translator.java:905-927 is modelled as written (`Translator.MergeInto`, used by `Translator.ArrayFieldMerged`), and the rest of the model uses the corrected store (`Translator.ArrayField`); the round trip of the merged document through its text (Translator.java:874-877) is left out.
- Translator.ArrayStepStores: states the corrected store; the merge as written keeps a text value already at the hidden index (see Findings and `Translator.StaleHiddenCopyKept`).
- DocTranslator.Size: counts the characters of field names and of scalar texts, where Java's `String.length()` counts UTF-16 code units (a character outside the Basic Multilingual Plane counts 2 in Java and 1 here), and the sum is unbounded, where Java adds in a 32-bit `int` that wraps around.
- DocIdVersions.HashCode: the sum of the two hashes is unbounded; Java adds two `int`s, so the 32-bit wrap-around of that sum is not captured. The id and version hashes are parameters.
- `HashMap` iteration order (the field map of `populateDocHiddenFields`, the key map of the script) is a sequence in the order given.
- ExpressionTranslator.TranslateProjection: the `Set<Path>` of required fields is a sequence in the order given, so the order of the projection's keys follows that sequence rather than the set's iteration order.
- DocTranslator.PopulateDocHiddenFields and Translator.PopulateDocHiddenFields: a field that fails ends the call with the fault alone; the hidden values Java had already written into the caller's document before the failure are not part of the result.
- Values.ToText: the `toString` of a document or list (Mongo's JSON rendering) is a fixed marker text. Floating point is not modelled: `Num` and `BigNum` hold integers only, so an integral `Double` is written as an integer (`1` where Java writes `1.0`) and a fractional `Double` such as 1.5 cannot be represented; strings, booleans, null, integers and object ids are rendered faithfully.
- MongoController.Direction: `intValue()` is read as the number itself; its narrowing to 32 bits and the truncation of a fractional direction (-0.5 reads as 0, hence ascending) are not captured, as fractional numbers are not values of the model (see Values.ToText).
- MongoController.CompareSortKeys: a fractional stored direction is not representable (see MongoController.Direction); null, numeric and non-numeric directions, such as the strings of text and hashed indexes, are modelled.
- MongoController.IndexFieldsMatch: a fractional stored direction is not representable (see MongoController.Direction); null, numeric and non-numeric directions, such as the strings of text and hashed indexes, are modelled.
- CrudController.CrudCompareSortKeys: a fractional stored direction is not representable (see MongoController.Direction); null, numeric and non-numeric directions, such as the strings of text and hashed indexes, are modelled.
- CrudController.CrudIndexFieldsMatch: a fractional stored direction is not representable (see MongoController.Direction); null, numeric and non-numeric directions, such as the strings of text and hashed indexes, are modelled.
- Text.Upper: `toUpperCase` is ASCII-only; locale and Unicode case mapping are left out.
- ObjectIds: an ObjectId is its twelve bytes; only the creation time is read from them, and the machine and counter fields are not interpreted.
- HiddenFieldsScript: the cursor loop and `db.collection.save` are left out; `populateHiddenFields` is modelled per document and per key. The script's `int i` (not valid JavaScript) is read as a counter.
- DocVerUtil.CopyDocVer: the Java method shares one hidden list between two documents; the model copies the value, so later aliasing through that list is not captured.
- DocVerUtil.CopyDocVer: requires two distinct documents; copying a document's versions onto itself, which changes nothing in Java, is not covered.
- JsAst: `JSQueryTranslator`, `ForLoop`, `ArrForLoop`, `IfStatement` and `Statement` are not part of this model; a statement with a fixed code text stands in for them.
- JsAst.Context.VarName: `Block.getDocumentLoopVarAsPrefix` is not part of this model, so the block's loop variable is a parameter; where Java throws on removing a part from an empty name the model returns None.
- JsAst.Name.RemoveLast: requires a non-empty name (Java throws an IndexOutOfBoundsException otherwise).
- JsAst: `FieldTreeNode` is modelled by its path, and `Path.PARENT`/`Path.THIS` are the texts `$parent` and `$this` of lightblue's Path class, which is not part of this model. `Name.get` and `Name.getPart` are plain sequence indexing.
- JsAst.Context.Copy: a copy of a root context starts a new counter at zero, as the Java copy does (the counter is not copied).
- ExpressionTranslator: query translation beyond the helpers listed (the full query, update and projection trees) depends on metadata and query classes that are not part of this model.
- Metadata persistence, the concurrency protocols, BSON/JSON merging and the configuration readers are not part of this model.

## Findings

| source | as written | input that shows it | evidently intended | confidence | as-written member | corrected member |
|---|---|---|---|---|---|---|
| mongo/src/main/java/com/redhat/lightblue/mongo/crud/Translator.java:182 | the dot goes before every kept segment after position 0 | the path `*.x` renders as `.x` | the wildcards dropped and the rest joined by dots, `x` | not executed | Translator.MongoPathLeadingAny | Translator.MongoPathFixedDropsAny |
| mongo/src/main/resources/js/populate-hidden-fields.js:16-18 | `doc[k] !== null` lets a missing key through | a document without `name`: `undefined.toUpperCase()` raises TypeError | skip a missing key as a null one | not executed | HiddenFieldsScript.MissingKeyFails | HiddenFieldsScript.FixedMissing |
| mongo/src/main/resources/js/populate-hidden-fields.js:18 | `doc["@mongoHidden.name"]` writes one top-level property whose name holds a dot | {name: "ab"} gains the property `@mongoHidden.name` = "AB" | the value stored at `@mongoHidden` then `name` | not executed | HiddenFieldsScript.FlatHiddenWrite | HiddenFieldsScript.FixedStores |
| mongo/src/main/resources/js/populate-hidden-fields.js:48-50 | element keys are `fieldPre + i + fieldPost`, without the dot | `tags.*` over {tags: ["a"]} reads `tags0`, which is undefined, and fails | element i of the list | not executed | HiddenFieldsScript.ElementKeyLosesDot | HiddenFieldsScript.FixedElementPath |
| mongo/src/main/resources/js/populate-hidden-fields.js:30-34 | the hidden key is cut at the field key's offsets | `tags.*` with `@mongoHidden.tags.*` gives the hidden prefix `@mon` | the hidden twin of each expanded field | not executed | HiddenFieldsScript.HiddenCutAtFieldOffset | HiddenFieldsScript.FixedHiddenAligned |
| mongo/src/main/java/com/redhat/lightblue/mongo/crud/MongoCRUDController.java:485-496 | the position `i` is never advanced, so every rewritten key goes to slot 0 | keys `a` and `x.*.y` become `x.y` and `x.*.y` | each key replaced in place by its stored path | not executed | MongoController.RewriteLandsAtSlotZero | MongoController.RewriteFixedInPlace |
| crud/src/main/java/com/redhat/lightblue/crud/mongo/MongoCRUDController.java:625-638 | a missing key document or a different key count returns true | an index on (a, b) matches a database index on c alone | no match, as the newer controller returns false | not executed | CrudController.CrudMatchIgnoresKeyCount | MongoController.IndexFieldsMatch |
| mongo/src/main/java/com/redhat/lightblue/mongo/crud/IndexManagementCfg.java:93-95 | `node.get` of a missing option is null and `isArray` raises NullPointerException | an `indexManagement` object with only `unmanagedEntities` | a missing option read as a null set | not executed | IndexManagement.MissingOptionFails | IndexManagement.JsonConfigAgrees |
| mongo/src/main/java/com/redhat/lightblue/mongo/crud/BasicDocFinder.java:127-136 | the planned count is `numMatched - f + 1`, one past the end | limit 10 and 10 matching documents: a request for all of them is refused | refuse only when more documents than the limit would be retrieved | not executed | DocFinder.ExactFitRefused | DocFinder.RefusedIffTooMany |
| mongo/src/main/java/com/redhat/lightblue/mongo/crud/Translator.java:910-918 | an element of the update list is merged into the existing element, and merging into a text node writes nothing | the key `arr.*` on {arr: ["c"], @mongoHidden: {arr: ["B"]}} keeps "B" | the hidden copy at index i replaced by the new upper-cased text, "C" | not executed | Translator.StaleHiddenCopyKept | Translator.ArrayStepStores |
| mongo/src/main/java/com/redhat/lightblue/mongo/crud/Translator.java:803-804 | a null or missing value removes the parent's whole `@mongoHidden` | keys `b` then `a` on {b: "x"}, `a` missing: `b` writes its copy and `a` then removes it with the whole `@mongoHidden` (key `a` alone on {b: "x", @mongoHidden: {b: "X"}} in the lemma) | remove only the key's own hidden copy, as DocTranslator.java:227-234 does | not executed | Translator.SimpleLeafLosesOtherCopies | DocTranslator.LeafAbsent |
