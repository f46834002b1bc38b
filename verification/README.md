# Name Recall: a verified model of the people list

Name Recall is a single-page app for remembering the people one meets. It keeps
a list of person records (`id`, `name`, `tags`, `memo`, `avatar`,
`colorVariant`, `updatedAt`), newest first, in the browser's `localStorage`.
This project models the deterministic logic around that list in `app.js` as
pure Dafny functions over `seq<Person>`, and it proves what that logic
guarantees:

- `Utils.parseTags` turns the comma-separated tag field into a tag list
  (`TagParse`).
- `Utils.getInitials` gives the placeholder avatar text (`Initials`).
- `Utils.getAllUniqueTags` and the per-tag count on the tags screen give the
  tag index (`TagIndex`).
- The home list is an exact tag filter followed by a case-insensitive search
  (`Query`).
- `UI.savePerson` adds or edits a record, and `UI.deletePerson` removes one
  (`Registry`).
- `Utils.getRandomGradient` is modelled as a map from a draw index to a
  gradient class (`People`).

The supporting modules are:

- `Text`: the JavaScript string built-ins the app calls (`trim`, `split(',')`,
  `split(/\s+/)`, `join`, `includes`, `toLowerCase`, `toUpperCase`). `split`
  has `join` as its inverse, `split(/\s+/)` agrees with an independent
  definition of tokens, and `includes` agrees with a positional definition of
  substrings. `trim` is described as the middle of its input, and the two
  case mappings by the letters they change.
- `Order`: the default order of `Array.prototype.sort()` for strings, and
  insertion into a strictly ascending list.
- `Seqs`: `Array.prototype.filter` and the order-preserving subsequence
  relation.

The app takes three values from the outside world, which the model takes as
parameters instead:

- the random id from `generateId`;
- the random gradient draw, as an index `0..5`;
- the save timestamp, as an opaque string.

Whitespace and letter case are ASCII only. Whitespace is space, tab, LF, VT,
FF and CR.

Editing an id that is not in the list is not excluded by a precondition in
this model. `app.js:283` throws a TypeError there before anything is changed or
saved. The model returns `SaveResult.UnknownId` for that case, so every input
has a defined outcome.

## Model

| member | source | states |
|---|---|---|
| `TagParse.ParseTags` | app.js:58-63 | Empty or whitespace-only input gives no tags. Every tag returned is non-empty, trimmed and free of commas. |
| `TagParse.GuardRedundant` | app.js:59-62 | The early return for blank input agrees with the general split–trim–filter pipeline. |
| `TagParse.ParseTagsConcat` | app.js:60-62 | Text on each side of a comma is parsed independently, left part first. So pieces keep their input order and duplicates are kept. |
| `TagParse.ParseTagsLeadingSpace` | app.js:61 | A leading space in the tag field does not change the parsed tags. |
| `TagParse.ParseTagsJoin` | app.js:60-62 | Parsing a list of tags joined with ", " gives back exactly that list. |
| `TagParse.ReparseEditForm` | app.js:238 | Saving the edit form's tag field unchanged, which is `tags.join(', ')`, parses back to the same tags. |
| `TagParse.MathPioneer` | app.js:58-63 | "math, pioneer" parses to the tags "math" and "pioneer". |
| `Initials.GetInitials` | app.js:44-51 | An empty name gives "?". Any other name gives at most two characters. |
| `Initials.FirstChar` | app.js:48-50 | `charAt(0)` gives a prefix of the text of length at most one. Its length is one exactly when the text is non-empty. |
| `Initials.Pick` | app.js:47-50 | With one piece or none, the result is exactly one character. |
| `Initials.InitialsSpec` | app.js:44-51 | The trimmed name may have two or more whitespace-separated tokens. Then the result is the upper-cased first characters of the first two tokens. Otherwise it is the upper-cased first character of the untrimmed name. |
| `Initials.TokensAreWords` | app.js:46 | `split(/\s+/)` on a trimmed name gives exactly its tokens. For a blank name it gives a single empty piece. |
| `Initials.LeadingSpaceInitial` | app.js:50 | A one-word name with a leading space gets the space as its initial, because that branch reads the untrimmed name. |
| `Initials.TwoWordInitials` | app.js:46-48 | Two space-separated words give the upper-cased first characters of both words. |
| `TagIndex.UniqueTags` | app.js:65-71 | The tag index is strictly ascending. A string is listed exactly when some person carries it. |
| `TagIndex.UniqueTagsCanonical` | app.js:66-70 | Any strictly ascending list of exactly the occurring tags equals the index. So the source's sorted array of the tag Set is the same list. |
| `TagIndex.UniqueTagsDistinct` | app.js:66-70 | No tag is listed twice. |
| `TagIndex.UniqueTagsOrderFree` | app.js:65-71 | The index depends only on which tags occur, not on the order of people or on repeated tags. |
| `TagIndex.UniqueTagsIdempotent` | app.js:65-71 | Indexing a person whose tags are an index gives that index back. |
| `TagIndex.TagCount` | app.js:334 | The count is at most the number of people. It is positive exactly when the tag occurs. |
| `TagIndex.TagCountBounds` | app.js:315-334 | Every listed tag has a count between 1 and the number of people. |
| `TagIndex.TagCountIsFilterSize` | app.js:334 | The count shown beside a tag equals the length of the home list filtered by that tag. |
| `TagIndex.MathArtExample` | app.js:65-71 | People tagged "math" and "math, art" give the index "art", "math", and the count for "math" is 2. |
| `Query.FilterByTag` | app.js:104-108 | With no tag, or the tag "", the filter is the identity. Otherwise it keeps exactly the people whose tags include the tag, exactly and case-sensitively. Each kept record appears as many times as in the input, as a subsequence in list order. |
| `Query.Search` | app.js:116-123 | An empty query is the identity. Any other query keeps exactly the people matching its lower-cased form, each as many times as in the input, in list order. A person matches on the lower-cased name, any lower-cased tag, or a non-empty lower-cased memo. |
| `Query.Visible` | app.js:103-123 | A person is on the home list exactly when they are in the people list and pass both the tag filter and the search. |
| `Query.VisibleIsOneFilter` | app.js:103-123 | The two stages together are one filter by the conjunction of their tests. |
| `Query.BothStages` | app.js:107-122 | With both a tag and a query set, filtering by tag and then searching is the same as one filter by both tests. |
| `Query.VisiblePeople` | app.js:103-123 | The shown list is an order-preserving subsequence of the people list. It holds exactly the people that pass both stages, each as many times as in the people list. |
| `Query.SearchIgnoresQueryCase` | app.js:117 | Queries that differ only in letter case give the same list. |
| `Query.BlankQueryFilters` | app.js:116 | A one-space query is not treated as empty. It hides a person whose name, tags and memo contain no space. |
| `Query.NoSpaceNoMatch` | app.js:119-121 | A text without spaces never contains the query " ". |
| `Query.UpperCaseQueryFindsName` | app.js:117-119 | The query "ADA" finds the person named "Ada Lovelace". |
| `People.GradientAt` | app.js:13-17 | A draw picks one of the six gradients, and different draws pick different gradients. |
| `People.EveryGradientDrawable` | app.js:53-55 | Each of the six gradients is the pick of some draw. |
| `People.FindIndex` | app.js:289 | The result is the first position holding the id, or -1 exactly when no record has it. |
| `Registry.SavePerson` | app.js:269-296 | Without a form id, one new record with the supplied id and a gradient colour is prepended, and the old list follows unchanged. With a known id, the length is kept and only the first record with that id is replaced, by one keeping its id and colour. With an unknown id, nothing is saved. |
| `Registry.Record` | app.js:277-285 | The record a save writes has well-formed tags, and they come back unchanged after the edit form shows them joined with ", " (app.js:238) and parses them again. |
| `Registry.SaveKeepsColors` | app.js:283 | Every record already in the list keeps its id and colour through a save. An add shifts each one down by one place; an edit leaves each where it was. |
| `Registry.EditIdempotent` | app.js:287-290 | Saving the same edit twice at the same timestamp gives the same list as saving it once. |
| `Registry.SaveKeepsUniqueIds` | app.js:277-293 | A save keeps ids pairwise distinct when an added id is fresh. |
| `Registry.DeletePerson` | app.js:303-309 | Exactly the records with other ids remain, each as many times as before, in order. No record keeps the id. An absent id leaves the list as it was, and a present one makes it shorter. |
| `Registry.DeleteShrinks` | app.js:305 | Deleting a present id removes at least one record. |
| `Registry.DeleteUndoesAdd` | app.js:293-305 | Deleting the record just added with a fresh id gives back the old list. |
| `Registry.DeleteKeepsUniqueIds` | app.js:305 | Deletion keeps ids pairwise distinct. |
| `Registry.AddToEmptyExample` | app.js:277-293 | Adding "Ada Lovelace" with tags "math, pioneer" to an empty list gives one record with both tags and a gradient colour. |
| `Text.Trim` | app.js:46 | The trimmed text is a middle slice of the input, and everything cut off on either side is whitespace. It has no leading or trailing whitespace. It is empty exactly when the input is all whitespace. A trimmed input is left unchanged, and no new characters appear. |
| `Text.TrimDropsSpace` | app.js:46 | Dropping one leading whitespace character does not change the trimmed text. |
| `Text.Split` | app.js:60 | `split(',')` gives at least one piece, and no piece contains the separator. |
| `Text.JoinSplit` | app.js:60 | Joining the pieces of a split with the separator gives back the input. |
| `Text.Join` | app.js:238 | `join` starts with the first piece, and every character of the result comes from a piece or from the separator. `Text.JoinSplit` makes it the inverse of `split`. |
| `Text.SplitConcat` | app.js:60 | Splitting around one separator occurrence splits the two sides independently. |
| `Text.SplitWhitespace` | app.js:46 | `split(/\s+/)` gives at least one piece. `Text.SplitWhitespaceWords` states its pieces. |
| `Text.SplitWhitespaceWords` | app.js:46 | On a non-empty trimmed text, `split(/\s+/)` gives exactly its maximal non-whitespace runs. |
| `Text.ContainsAt` | app.js:119-121 | `includes` holds exactly when the query is a prefix of some suffix of the text. |
| `Text.ToLower` | app.js:117-121 | No upper-case letter is left. Every character that was not an upper-case letter stays where it was. |
| `Text.ToLowerIdempotent` | app.js:117-121 | Lower-casing a lower-cased text changes nothing. |
| `Text.ToLowerForgetsCase` | app.js:117-121 | Upper-casing first does not change the lower-cased text. |
| `Text.ToUpper` | app.js:48-50 | No lower-case letter is left. Every character that was not a lower-case letter stays where it was. |
| `Order.AscendingUnique` | app.js:70 | Two strictly ascending lists with the same members are equal. |
| `Order.BelowTransitive` | app.js:70 | The default sort order is transitive. |
| `Order.BelowTotal` | app.js:70 | Any two different strings are ordered one way or the other. |
| `Order.Insert` | app.js:68-70 | Inserting into a strictly ascending list keeps it strictly ascending and adds exactly the new element. |
| `Seqs.Filter` | app.js:305 | An element is in the result exactly when it is in the input and passes the test. The result is no longer than the input, and it is the whole input when everything passes. |
| `Seqs.FilterMultiset` | app.js:305 | A filter keeps every passing element as many times as it occurs, and no failing one. |
| `Seqs.FilterIsSubseq` | app.js:108 | A filter's result is an order-preserving subsequence of its input. |
| `Seqs.FilterFilter` | app.js:108-118 | Filtering twice is filtering once by the conjunction of the tests. |
| `Seqs.FilterConcat` | app.js:305 | Filtering distributes over concatenation. |

## Left out

- `Storage.load` and `Storage.save` (app.js:21-36) are `localStorage` plus JSON. A save is a whole-list write and is not modelled, so a persistence round trip is not stated.
- `Utils.generateId` (app.js:40-42) is random. The id is a parameter of `Registry.SavePerson`, and freshness is an explicit assumption of the lemmas that need it.
- The `Math.random` draw in `Utils.getRandomGradient` (app.js:54) is floating point. The draw is a parameter, an index in `0..5`.
- `new Date().toISOString()` (app.js:284) comes from the clock. The timestamp is an opaque string parameter.
- All DOM work is left out, because it has no list logic: navigation, rendering, empty-state text, `confirm()` (app.js:304), the `FileReader` avatar read (app.js:378-393) and event wiring. A cancelled delete leaves the list alone and is not modelled.
- `sw.js` is cache and network plumbing with no logic to verify.
- Unicode is covered only in part. `toLowerCase`, `toUpperCase`, `trim` and `\s` are modelled on ASCII only.
- Strings are sequences of code points, while JavaScript strings are sequences of UTF-16 code units. So `charAt(0)` (app.js:48, app.js:50) on a name starting with a character outside the Basic Multilingual Plane returns a lone high surrogate in the app, but `Initials.FirstChar` returns the whole character.
- The sort order (app.js:70) is code-point order. JavaScript compares UTF-16 code units instead. The two agree on the Basic Multilingual Plane. They disagree when a character outside it is compared with one in U+E000–U+FFFF: code-point order puts the outside character last, code-unit order puts it first.
- `Seqs.Filter`: its own contract states membership but not multiplicity. The multiplicity is stated by `Seqs.FilterMultiset`, and the members built on the filter carry it in their own contracts. Stating it on `Seqs.Filter` itself would put it in front of every proof that unfolds a filter, and those proofs then run out of resources.
- `Initials.GetInitials`: the non-empty case states only the length bound `|r| <= 2`. The exact value is stated by `Initials.InitialsSpec`.
- `Registry.SavePerson`: editing an unknown id is modelled as the outcome `UnknownId` rather than as the source's thrown TypeError.
- Search treats a memo that is `null` or missing the same as "". The model's `memo` is always a string.
