# Lethe: page reconciliation and markdown styling, in Dafny

Lethe is an Android reader for tldr pages. This project models two parts of it.

**The page store** (`PageStore.kt`). `updatePages` makes the page table match a downloaded list of pages, in one transaction:
- it snapshots every existing row id;
- for each incoming page it runs an update keyed by `(name, platform)`;
- if the update matched a row, that row's id is struck from the snapshot; otherwise the page is inserted;
- finally, it deletes the ids left in the snapshot, at most 999 per statement.

`queryPage` reads one row and records the view in the history table. `count` counts the rows.

**The markdown styler** (`MarkdownParser.kt`). `StyleVisitor` walks a parsed commonmark tree and appends styled runs of text to an `AnnotatedString.Builder`. `MarkdownParser.parse` drives the visitor and returns everything its builder holds. The builder is created once and never cleared, and a failed visit makes `parse` return `null`.

The project has these modules:
- `Wrappers`: `Option`.
- `KotlinText`: the Kotlin string functions the styler uses. These are `startsWith`, `endsWith`, `contains`, `indexOf`, `substringBefore`, `substringAfter`, `split(" ")`, `replace` of one character, and `replaceFirstChar` with ASCII titlecase.
- `Usecases`: the visitor, as functions (`VisitNode`, `VisitFrom`, `Render`) and as classes (`Builder`, `StyleVisitor`, `MarkdownParser`). The methods are proved equal to the functions.
- `UsecasesProperties`: what the styler promises.
- `PageModel`: the page table as a map from id to page, and the end state `Synced` that `updatePages` must reach, with its properties.
- `Store`: the generated query classes as `PageTable` and `HistoryTable`, and `PageStore` driving them. `PageStore.UpdatePages` is proved to establish `Synced`.

Assumptions, stated once:
- **The query semantics.** The SQL schema and queries are not part of this model. The model assumes:
  - `updatePage` replaces the markdown of the rows with the given key;
  - `changes()` counts the rows the last statement matched (SQLite counts a matched row even when the new markdown equals the old);
  - `insertPage` assigns an id larger than every id handed out before;
  - `(name, platform)` is unique in the table. `findPageId(...).executeAsOne()` relies on this.
- **The commonmark traversal.** `AbstractVisitor.visitChildren` is not part of this model. The model assumes it visits children in order and reads a child's `next` before visiting the child.
  - When a "More info" text unlinks its next sibling, the loop still goes on to that sibling.
  - The unlink has cleared that sibling's own `next`, so the traversal of the parent ends after it.
  - `VisitFrom` models this with an `end` bound, which becomes `i + 2` after an unlink.
  - So the unlinked sibling is still visited and the siblings after it are not. On the usual last line of a tldr page, "More information: <link>.", the link and the final "." both disappear (`MoreInformationLine`).
- **The ':' rule keeps the colon.** Text ending in ':' is written as `removeSymbols(literal)` plus a newline. `removeSymbols` removes only '[' and ']', so the colon stays (`LabelLine`, `RemoveSymbolsKeepsColon`).

## Model

| member | source | states |
|---|---|---|
| KotlinText.IndexOf | app/src/main/java/io/ubyte/tldr/usecases/MarkdownParser.kt:59-62 | a found index leaves room for the whole delimiter |
| KotlinText.IndexFrom | app/src/main/java/io/ubyte/tldr/usecases/MarkdownParser.kt:59-62 | the search from position k: a found index is at or after k and leaves room for the delimiter; `IndexFromSpec` proves it is the first occurrence |
| KotlinText.StartsWith | app/src/main/java/io/ubyte/tldr/usecases/MarkdownParser.kt:45-46 | `startsWith`: the text begins with the prefix |
| KotlinText.EndsWith | app/src/main/java/io/ubyte/tldr/usecases/MarkdownParser.kt:47-48 | `endsWith`: the text ends with the suffix |
| KotlinText.Contains | app/src/main/java/io/ubyte/tldr/usecases/MarkdownParser.kt:59 | `contains`: `indexOf` finds the delimiter |
| KotlinText.SubstringBefore | app/src/main/java/io/ubyte/tldr/usecases/MarkdownParser.kt:60-61 | `substringBefore`: the text before the first delimiter, or the whole text when there is none; `SubstringAround` is its partner |
| KotlinText.SubstringAfter | app/src/main/java/io/ubyte/tldr/usecases/MarkdownParser.kt:61-62 | `substringAfter`: the text after the first delimiter, or the whole text when there is none; `SubstringAround` is its partner |
| KotlinText.IndexFromSpec | app/src/main/java/io/ubyte/tldr/usecases/MarkdownParser.kt:59-62 | the search from k finds the first occurrence at or after k, or reports that there is none |
| KotlinText.IndexOfSpec | app/src/main/java/io/ubyte/tldr/usecases/MarkdownParser.kt:59-62 | `indexOf` returns the first occurrence of the delimiter, and `None` exactly when it does not occur |
| KotlinText.IndexOfFirst | app/src/main/java/io/ubyte/tldr/usecases/MarkdownParser.kt:59-62 | an occurrence with none before it is what `indexOf` finds |
| KotlinText.IndexOfFrom | app/src/main/java/io/ubyte/tldr/usecases/MarkdownParser.kt:61 | searching a suffix finds the first occurrence inside it, shifted |
| KotlinText.FirstOccurrence | app/src/main/java/io/ubyte/tldr/usecases/MarkdownParser.kt:59-62 | an occurrence before which the delimiter's first character never appears is the first one |
| KotlinText.MissingFirst | app/src/main/java/io/ubyte/tldr/usecases/MarkdownParser.kt:59 | a string without the delimiter's first character does not contain the delimiter |
| KotlinText.SubstringAround | app/src/main/java/io/ubyte/tldr/usecases/MarkdownParser.kt:60-62 | the string is the part before the first delimiter, the delimiter, and the part after; the part before has no delimiter |
| KotlinText.Split | app/src/main/java/io/ubyte/tldr/usecases/MarkdownParser.kt:55 | `split(" ")` yields at least one piece |
| KotlinText.SplitPieces | app/src/main/java/io/ubyte/tldr/usecases/MarkdownParser.kt:55 | no piece contains a space |
| KotlinText.JoinSplit | app/src/main/java/io/ubyte/tldr/usecases/MarkdownParser.kt:55 | joining the pieces with single spaces gives back the literal |
| KotlinText.SplitJoin | app/src/main/java/io/ubyte/tldr/usecases/MarkdownParser.kt:55 | splitting pieces without spaces, once joined, gives back those pieces, empty ones included |
| KotlinText.SplitLength | app/src/main/java/io/ubyte/tldr/usecases/MarkdownParser.kt:55 | the number of pieces is the number of spaces plus one |
| KotlinText.SplitSingle | app/src/main/java/io/ubyte/tldr/usecases/MarkdownParser.kt:55 | there is exactly one piece if and only if the literal has no space |
| KotlinText.SplitNoSpace | app/src/main/java/io/ubyte/tldr/usecases/MarkdownParser.kt:55 | a literal without spaces is its own single piece |
| KotlinText.SplitAfterPiece | app/src/main/java/io/ubyte/tldr/usecases/MarkdownParser.kt:55 | a space-free piece followed by a space splits off first |
| KotlinText.Join | app/src/main/java/io/ubyte/tldr/usecases/MarkdownParser.kt:66 | the pieces with one space between neighbours; `JoinSplit` and `SplitJoin` make it the inverse of `Split` |
| KotlinText.CountZero | app/src/main/java/io/ubyte/tldr/usecases/MarkdownParser.kt:55 | proof step: a character occurs zero times exactly when it is absent |
| KotlinText.Remove | app/src/main/java/io/ubyte/tldr/usecases/MarkdownParser.kt:83-84 | `replace(c, "")`: every `c` deleted, the other characters kept in order; proved by `RemoveDeletes`, `RemoveAppend` and `RemoveAbsent` |
| KotlinText.RemoveDeletes | app/src/main/java/io/ubyte/tldr/usecases/MarkdownParser.kt:83-84 | `replace(c, "")` leaves no `c`, and shortens the text by the number of `c`s |
| KotlinText.RemoveAppend | app/src/main/java/io/ubyte/tldr/usecases/MarkdownParser.kt:83-84 | `replace(c, "")` works piece by piece over a concatenation |
| KotlinText.RemoveAbsent | app/src/main/java/io/ubyte/tldr/usecases/MarkdownParser.kt:83-84 | `replace(c, "")` on a text without `c` changes nothing |
| KotlinText.TitlecaseAscii | app/src/main/java/io/ubyte/tldr/usecases/MarkdownParser.kt:85 | a lower-case ASCII letter becomes its upper-case letter; every other character is kept |
| KotlinText.CapitalizeFirst | app/src/main/java/io/ubyte/tldr/usecases/MarkdownParser.kt:85 | only the first character changes, to its titlecase; the length is kept |
| Usecases.TextOfAppend | app/src/main/java/io/ubyte/tldr/usecases/MarkdownParser.kt:91-93 | proof step: the text of appended spans is the texts concatenated |
| Usecases.RemoveSymbols | app/src/main/java/io/ubyte/tldr/usecases/MarkdownParser.kt:82-85 | every '[' then every ']' deleted, then the first character titlecased; proved by the `RemoveSymbols...` lemmas |
| Usecases.TextRule | app/src/main/java/io/ubyte/tldr/usecases/MarkdownParser.kt:46-49 | the spans of the when-chain after the "More info" rule, first rule wins; proved by `SeeAlsoWins`, `SentenceLine`, `LabelLine` and `PlainText` |
| Usecases.TokenSpans | app/src/main/java/io/ubyte/tldr/usecases/MarkdownParser.kt:59-65 | one piece: three spans around its first "{{" and first "}}" when it holds both, else one Red span; proved by `PlaceholderSpans`, `UnbracedPiece` and `MisorderedBraces` |
| Usecases.CodeLine | app/src/main/java/io/ubyte/tldr/usecases/MarkdownParser.kt:57-67 | the pieces' spans with an unstyled space between neighbours; proved by `CodeLineText` and `CodeLineEndsRed`, and built by `BuildCodeLine` |
| Usecases.CodeSpans | app/src/main/java/io/ubyte/tldr/usecases/MarkdownParser.kt:55-70 | the code line of `split(" ")`, followed by an unstyled newline when there are several pieces; proved by `CodeLineBreak` and `PlainCodeText` |
| Usecases.VisitNode | app/src/main/java/io/ubyte/tldr/usecases/MarkdownParser.kt:42-80 | only a "More info" text with a next sibling reports that it unlinked that sibling |
| Usecases.VisitFrom | app/src/main/java/io/ubyte/tldr/usecases/MarkdownParser.kt:45 | the traversal of a parent's children never reports an unlink to its own caller |
| Usecases.VisitFromStep | app/src/main/java/io/ubyte/tldr/usecases/MarkdownParser.kt:45 | proof step, one unfolding of `VisitFrom`: one traversal step: visit child i, stop only if it threw, and narrow the end to i + 2 after an unlink |
| Usecases.Render | app/src/main/java/io/ubyte/tldr/usecases/MarkdownParser.kt:32 | visiting the document root, which has no siblings, never reports an unlink |
| Usecases.Builder.Append | app/src/main/java/io/ubyte/tldr/usecases/MarkdownParser.kt:91-93 | one styled span is appended and the earlier spans are kept |
| Usecases.Builder.AppendAll | app/src/main/java/io/ubyte/tldr/usecases/MarkdownParser.kt:69 | an annotated string's spans are appended in order |
| Usecases.Builder.AppendLine | app/src/main/java/io/ubyte/tldr/usecases/MarkdownParser.kt:113 | the text plus a newline is appended as one span |
| Usecases.Builder.AppendLineAll | app/src/main/java/io/ubyte/tldr/usecases/MarkdownParser.kt:114-115 | the spans are appended, then an unstyled newline |
| Usecases.BuildCodeLine | app/src/main/java/io/ubyte/tldr/usecases/MarkdownParser.kt:57-67 | the indexed loop builds exactly `CodeLine`: each piece's spans, with unstyled spaces between pieces and none after the last |
| Usecases.StyleVisitor.Append | app/src/main/java/io/ubyte/tldr/usecases/MarkdownParser.kt:91-93 | the text is appended in the given style |
| Usecases.StyleVisitor.AppendLine | app/src/main/java/io/ubyte/tldr/usecases/MarkdownParser.kt:87-89 | the text plus a newline is appended in the given style |
| Usecases.StyleVisitor.Accept | app/src/main/java/io/ubyte/tldr/usecases/MarkdownParser.kt:41-80 | the dispatch on the node type appends exactly the spans of `VisitNode` and ends as it does |
| Usecases.StyleVisitor.VisitText | app/src/main/java/io/ubyte/tldr/usecases/MarkdownParser.kt:42-52 | the when-chain appends the spans of `VisitNode` for the text and ends as it does |
| Usecases.StyleVisitor.VisitCode | app/src/main/java/io/ubyte/tldr/usecases/MarkdownParser.kt:54-71 | appends `CodeSpans(literal)`: inline for one piece, followed by a newline for more |
| Usecases.StyleVisitor.VisitBulletList | app/src/main/java/io/ubyte/tldr/usecases/MarkdownParser.kt:73-76 | a newline, then the children's traversal, as `VisitNode` states |
| Usecases.StyleVisitor.VisitChildren | app/src/main/java/io/ubyte/tldr/usecases/MarkdownParser.kt:75 | the `next`-following loop, with its shrinking end after an unlink, appends exactly `VisitFrom`'s spans and ends as it does |
| Usecases.MarkdownParser.constructor | app/src/main/java/io/ubyte/tldr/usecases/MarkdownParser.kt:27-28 | one fresh, empty builder, shared with the visitor |
| Usecases.MarkdownParser.Parse | app/src/main/java/io/ubyte/tldr/usecases/MarkdownParser.kt:30-38 | the document's spans are appended to the shared builder even when the visit throws. The result is `None` exactly when the visit threw, and otherwise the whole builder, which extends what it held before |
| UsecasesProperties.RemoveSymbolsDeletesBrackets | app/src/main/java/io/ubyte/tldr/usecases/MarkdownParser.kt:82-85 | no '[' or ']' is left, and the length drops by exactly the number of brackets |
| UsecasesProperties.RemoveKeepsAbsent | app/src/main/java/io/ubyte/tldr/usecases/MarkdownParser.kt:83-84 | deleting one character cannot introduce another |
| UsecasesProperties.RemoveKeepsCount | app/src/main/java/io/ubyte/tldr/usecases/MarkdownParser.kt:83-84 | proof step: deleting one character keeps the number of another |
| UsecasesProperties.CountAppend | app/src/main/java/io/ubyte/tldr/usecases/MarkdownParser.kt:83-84 | proof step: counting distributes over concatenation |
| UsecasesProperties.RemoveSymbolsWithoutBrackets | app/src/main/java/io/ubyte/tldr/usecases/MarkdownParser.kt:82-85 | without brackets, only the first letter is capitalized |
| UsecasesProperties.RemoveSymbolsKeepsColon | app/src/main/java/io/ubyte/tldr/usecases/MarkdownParser.kt:82-85 | a text ending in ':' still ends in ':' |
| UsecasesProperties.RemoveSymbolsIdempotent | app/src/main/java/io/ubyte/tldr/usecases/MarkdownParser.kt:82-85 | applying it twice equals applying it once |
| UsecasesProperties.SeeAlsoWins | app/src/main/java/io/ubyte/tldr/usecases/MarkdownParser.kt:46 | a "See also" text is one inline Yellow span, whatever it ends with and whether or not a sibling follows |
| UsecasesProperties.SeeAlsoExample | app/src/main/java/io/ubyte/tldr/usecases/MarkdownParser.kt:44-47 | "See also: x." is inline Yellow with no newline: the "See also" rule comes before the "." rule |
| UsecasesProperties.SentenceLine | app/src/main/java/io/ubyte/tldr/usecases/MarkdownParser.kt:47 | a text ending in '.' that no earlier rule takes is appended with a newline, in Yellow, whether or not a sibling follows it |
| UsecasesProperties.LabelLine | app/src/main/java/io/ubyte/tldr/usecases/MarkdownParser.kt:48 | a text ending in ':' that no earlier rule takes becomes `removeSymbols(literal)` plus a newline, in Green, whether or not a sibling follows it, and keeps its colon |
| UsecasesProperties.PlainText | app/src/main/java/io/ubyte/tldr/usecases/MarkdownParser.kt:49 | any other text is appended unchanged and inline, in Green |
| UsecasesProperties.PlaceholderSpans | app/src/main/java/io/ubyte/tldr/usecases/MarkdownParser.kt:59-62 | with the first "{{" before the first "}}", a piece becomes three spans: Red before the first "{{", Yellow between it and the first "}}", Red after it |
| UsecasesProperties.CloseAfterOpen | app/src/main/java/io/ubyte/tldr/usecases/MarkdownParser.kt:61 | the "}}" found after the first "{{" is the piece's first "}}" |
| UsecasesProperties.BracesApart | app/src/main/java/io/ubyte/tldr/usecases/MarkdownParser.kt:59-62 | an opening "{{" before a closing "}}" does not overlap it |
| UsecasesProperties.MisorderedBraces | app/src/main/java/io/ubyte/tldr/usecases/MarkdownParser.kt:59-62 | for a piece of the shape `a}}b{{c`, where `a` and `b` hold no braces and `c` has no '}', the two Red spans are `a}}b` and `b{{c`, so `b` is shown twice |
| UsecasesProperties.MisorderedIndices | app/src/main/java/io/ubyte/tldr/usecases/MarkdownParser.kt:59-62 | where the first "{{" and the first "}}" lie in `a}}b{{c` |
| UsecasesProperties.UnbracedPiece | app/src/main/java/io/ubyte/tldr/usecases/MarkdownParser.kt:63-65 | a piece without '{' is one Red span |
| UsecasesProperties.PlaceholderPiece | app/src/main/java/io/ubyte/tldr/usecases/MarkdownParser.kt:59-62 | `{{name}}` becomes an empty Red span, the name in Yellow, and an empty Red span |
| UsecasesProperties.TwoPieces | app/src/main/java/io/ubyte/tldr/usecases/MarkdownParser.kt:55-70 | code of two pieces: the first piece's spans, an unstyled space, the second's, then a newline |
| UsecasesProperties.CommandAndPlaceholder | app/src/main/java/io/ubyte/tldr/usecases/MarkdownParser.kt:55-70 | a command, then one placeholder: the command's spans, a space, the placeholder's spans, a newline |
| UsecasesProperties.CommandWithPlaceholder | app/src/main/java/io/ubyte/tldr/usecases/MarkdownParser.kt:55-70 | the exact six spans of `command {{name}}` |
| UsecasesProperties.CodeLineText | app/src/main/java/io/ubyte/tldr/usecases/MarkdownParser.kt:57-67 | the text of a code line is its pieces' texts joined by single spaces |
| UsecasesProperties.PlainPieceTexts | app/src/main/java/io/ubyte/tldr/usecases/MarkdownParser.kt:59-65 | pieces without a complete placeholder each show their own text, one Red span (proof step for `PlainCodeText`) |
| UsecasesProperties.PlainCodeText | app/src/main/java/io/ubyte/tldr/usecases/MarkdownParser.kt:55-67 | for code without complete placeholders, the code line's text is its literal. `CodeSpans` adds a newline after it when there are several pieces |
| UsecasesProperties.CodeLineEndsRed | app/src/main/java/io/ubyte/tldr/usecases/MarkdownParser.kt:57-67 | a code line ends with a Red span, so no space follows the last piece |
| UsecasesProperties.CodeLineBreak | app/src/main/java/io/ubyte/tldr/usecases/MarkdownParser.kt:69 | code ends with an unstyled newline if and only if its literal contains a space |
| UsecasesProperties.PruneNode | app/src/main/java/io/ubyte/tldr/usecases/MarkdownParser.kt:78-80 | removing the children of every Heading and Link changes no visit: they are never descended into |
| UsecasesProperties.PruneFrom | app/src/main/java/io/ubyte/tldr/usecases/MarkdownParser.kt:78-80 | the same, for a traversal of children |
| UsecasesProperties.MoreInfoSkipsRest | app/src/main/java/io/ubyte/tldr/usecases/MarkdownParser.kt:45 | after a "More info" text with a next sibling, the traversal emits nothing for the text, visits only that sibling (now without a next one), and stops |
| UsecasesProperties.MoreInfoLastThrows | app/src/main/java/io/ubyte/tldr/usecases/MarkdownParser.kt:45 | a "More info" text with no next sibling throws and emits nothing. This covers the last child, and a sibling that an earlier "More info" text just unlinked |
| UsecasesProperties.MoreInfoEndsThrows | app/src/main/java/io/ubyte/tldr/usecases/MarkdownParser.kt:45 | a paragraph that ends in a "More info" text throws, provided every earlier child returns normally without unlinking anything |
| UsecasesProperties.MoreInfoEndsParagraphThrows | app/src/main/java/io/ubyte/tldr/usecases/MarkdownParser.kt:30-45 | a document whose first paragraph ends in a "More info" text, with every earlier child of that paragraph returning normally, renders to a throw whatever follows, so `parse` returns null |
| UsecasesProperties.MoreInformationLine | app/src/main/java/io/ubyte/tldr/usecases/MarkdownParser.kt:45-80 | the line "More information: <link>." renders to nothing |
| UsecasesProperties.MoreInfoAloneThrows | app/src/main/java/io/ubyte/tldr/usecases/MarkdownParser.kt:30-45 | the one document made of a single paragraph holding only the text "More info" renders to a throw, so `parse` returns null |
| UsecasesProperties.BulletListStartsLine | app/src/main/java/io/ubyte/tldr/usecases/MarkdownParser.kt:73-76 | a bullet list's output is an unstyled newline followed by exactly the traversal of its items, and it ends as that traversal does |
| UsecasesProperties.ParseTwice | app/src/main/java/io/ubyte/tldr/usecases/MarkdownParser.kt:27-38 | two parses on one instance: the second result is the first document's spans followed by the second's, so the first output is a prefix of the second |
| PageModel.LatestPage | app/src/main/java/io/ubyte/lethe/store/PageStore.kt:25-32 | the latest page for a key has that key |
| PageModel.Matching | app/src/main/java/io/ubyte/lethe/store/PageStore.kt:27 | the ids of the rows with a key: what `changes()` counts after the update; `MatchingCount` proves it has one or no element |
| PageModel.Updated | app/src/main/java/io/ubyte/lethe/store/PageStore.kt:26 | the table with the markdown of every row with the page's key replaced; `UpdatedKeys` and `UpdateOne` state what it keeps |
| PageModel.Without | app/src/main/java/io/ubyte/lethe/store/PageStore.kt:28 | `ids -= id`; `WithoutMembers` states its members |
| PageModel.Minus | app/src/main/java/io/ubyte/lethe/store/PageStore.kt:35 | the table without the rows whose ids are listed; `MinusTwice` composes two deletions |
| PageModel.Chunked | app/src/main/java/io/ubyte/lethe/store/PageStore.kt:34 | `chunked(999)`; `ChunksBounded` and `FlattenChunked` state its bounds and its contents |
| PageModel.Synced | app/src/main/java/io/ubyte/lethe/store/PageStore.kt:21-38 | the end state of `updatePages`: the table's keys are exactly the pages' keys, and each row is its key's last page. An old row survives exactly when its key is wanted, and then keeps its id and key. Every other row got a fresh id and a new key. Established by `UpdatePages` |
| PageModel.PageKeysSnoc | app/src/main/java/io/ubyte/lethe/store/PageStore.kt:25 | proof step, one unfolding of `PageKeys`: handling one more page adds its key |
| PageModel.LatestSnoc | app/src/main/java/io/ubyte/lethe/store/PageStore.kt:25-32 | proof step, one unfolding of `LatestPage`: after one more page, that page is the latest for its key and every other key's latest page is unchanged |
| PageModel.PageKeysMembers | app/src/main/java/io/ubyte/lethe/store/PageStore.kt:25 | a key is among the pages' keys if and only if some page has it |
| PageModel.LatestAt | app/src/main/java/io/ubyte/lethe/store/PageStore.kt:25-32 | a page that no later page overrides is the latest page for its key |
| PageModel.WithoutMembers | app/src/main/java/io/ubyte/lethe/store/PageStore.kt:28 | `ids -= id` removes exactly `id` and keeps the ids distinct |
| PageModel.MatchingCount | app/src/main/java/io/ubyte/lethe/store/PageStore.kt:27 | with unique keys, `changes()` after the update is 1 if the key is in the table and 0 if not |
| PageModel.UpdatedKeys | app/src/main/java/io/ubyte/lethe/store/PageStore.kt:26 | the update keeps every id and key, and changes nothing when the key is absent |
| PageModel.ProgressStart | app/src/main/java/io/ubyte/lethe/store/PageStore.kt:23 | the snapshot of all ids starts the loop invariant |
| PageModel.UpdateOne | app/src/main/java/io/ubyte/lethe/store/PageStore.kt:26 | the update rewrites only the one row with the key, and only its markdown |
| PageModel.UpdateRows | app/src/main/java/io/ubyte/lethe/store/PageStore.kt:26 | after the update, every row with a handled key holds that key's latest page |
| PageModel.UpdateUnclaimed | app/src/main/java/io/ubyte/lethe/store/PageStore.kt:28 | striking the updated row's id leaves exactly the old ids whose keys are still unhandled |
| PageModel.ProgressUpdate | app/src/main/java/io/ubyte/lethe/store/PageStore.kt:26-28 | an update plus striking the id keeps the loop invariant |
| PageModel.InsertOne | app/src/main/java/io/ubyte/lethe/store/PageStore.kt:30 | inserting a new key under the next id keeps keys unique and ids below the counter |
| PageModel.InsertClaimed | app/src/main/java/io/ubyte/lethe/store/PageStore.kt:30 | after the insert, every handled key is in the table |
| PageModel.MissingKey | app/src/main/java/io/ubyte/lethe/store/PageStore.kt:27-30 | a key the update did not match is neither an old key nor one already handled |
| PageModel.InsertRows | app/src/main/java/io/ubyte/lethe/store/PageStore.kt:30 | the inserted row is its key's latest page, and every other row is as before |
| PageModel.InsertUnclaimed | app/src/main/java/io/ubyte/lethe/store/PageStore.kt:30 | an insert leaves the snapshot's meaning unchanged |
| PageModel.InsertKept | app/src/main/java/io/ubyte/lethe/store/PageStore.kt:30 | the inserted row takes a fresh id and a key that no old row had |
| PageModel.ProgressInsert | app/src/main/java/io/ubyte/lethe/store/PageStore.kt:29-31 | an insert keeps the loop invariant |
| PageModel.ProgressSynced | app/src/main/java/io/ubyte/lethe/store/PageStore.kt:34-36 | deleting the ids left in the snapshot reaches `Synced` |
| PageModel.SurvivorsWanted | app/src/main/java/io/ubyte/lethe/store/PageStore.kt:34-36 | every row that survives the deletion has the key of some page |
| PageModel.KeyCount | app/src/main/java/io/ubyte/lethe/store/PageStore.kt:28 | with unique keys there are as many keys as rows |
| PageModel.KeyCountStep | app/src/main/java/io/ubyte/lethe/store/PageStore.kt:28 | removing one row removes exactly its key |
| PageModel.SyncedCount | app/src/main/java/io/ubyte/lethe/store/PageStore.kt:22-37 | after `updatePages`, the table has one row per distinct key of the pages |
| PageModel.SyncedStoresLast | app/src/main/java/io/ubyte/lethe/store/PageStore.kt:25-32 | every page that no later page overrides is stored as a row, markdown included |
| PageModel.SyncIdempotent | app/src/main/java/io/ubyte/lethe/store/PageStore.kt:22-37 | running `updatePages` again with the same pages leaves the table and the id counter as they are, ids included |
| PageModel.ChunksBounded | app/src/main/java/io/ubyte/lethe/store/PageStore.kt:34 | every chunk is non-empty and holds at most 999 ids |
| PageModel.FlattenChunked | app/src/main/java/io/ubyte/lethe/store/PageStore.kt:34-36 | the chunks put back together are the id list, so each leftover id is in exactly one chunk |
| PageModel.FlattenSnoc | app/src/main/java/io/ubyte/lethe/store/PageStore.kt:34-36 | the chunks deleted so far, plus the next one |
| PageModel.FlattenAppend | app/src/main/java/io/ubyte/lethe/store/PageStore.kt:34-36 | flattening distributes over concatenation |
| PageModel.MinusTwice | app/src/main/java/io/ubyte/lethe/store/PageStore.kt:34-36 | deleting two batches one after the other deletes their concatenation |
| Store.PageTable.constructor | app/src/main/java/io/ubyte/lethe/store/PageStore.kt:17 | an empty table with unique keys |
| Store.PageTable.FindAllPageIds | app/src/main/java/io/ubyte/lethe/store/PageStore.kt:23 | every row id, each once |
| Store.PageTable.UpdatePage | app/src/main/java/io/ubyte/lethe/store/PageStore.kt:26 | the markdown of the rows with the key is replaced, and `changes` is the number of those rows |
| Store.PageTable.FindPageId | app/src/main/java/io/ubyte/lethe/store/PageStore.kt:28 | the id of the row with the key |
| Store.PageTable.InsertPage | app/src/main/java/io/ubyte/lethe/store/PageStore.kt:30 | the page is stored under the next id, the counter advances and keys stay unique |
| Store.PageTable.DeletePageIds | app/src/main/java/io/ubyte/lethe/store/PageStore.kt:35 | the listed rows are removed; at most 999 ids per statement |
| Store.PageTable.FindPageById | app/src/main/java/io/ubyte/lethe/store/PageStore.kt:41 | the row with the id, or `None` exactly when there is none |
| Store.PageTable.Count | app/src/main/java/io/ubyte/lethe/store/PageStore.kt:56 | the number of rows |
| Store.HistoryTable.Insert | app/src/main/java/io/ubyte/lethe/store/PageStore.kt:42 | the id is appended to the history |
| Store.PageStore.UpdatePages | app/src/main/java/io/ubyte/lethe/store/PageStore.kt:21-38 | from any table with unique keys, `Synced`: the keys are exactly the pages' keys and each row is its key's last page. An old row survives exactly when its key is still wanted, and then keeps its id. Every other row is a fresh insert that survives the call |
| Store.PageStore.PutPage | app/src/main/java/io/ubyte/lethe/store/PageStore.kt:25-32 | one loop turn (update and strike the id, or insert) keeps the loop invariant |
| Store.PageStore.DeleteChunked | app/src/main/java/io/ubyte/lethe/store/PageStore.kt:34-36 | deleting in chunks of at most 999 removes exactly the listed ids |
| Store.PageStore.QueryPage | app/src/main/java/io/ubyte/lethe/store/PageStore.kt:40-44 | the row with the id, its id appended to the history when found, and the page table unchanged |
| Store.PageStore.Count | app/src/main/java/io/ubyte/lethe/store/PageStore.kt:55-57 | the number of rows in the table |

## Left out

- `ZipFileDownloader.kt`: an HTTP download into a file, pure I/O with no logic of its own.
- The commonmark `Parser.parse` (MarkdownParser.kt line 32): a library. `Parse` takes the already-built tree.
- The commonmark `AbstractVisitor` traversal: a library. It is modelled by `VisitFrom` under the assumption stated above. Node types other than those the visitor overrides are reduced to one `Container` node.
- Tree mutation: `next.unlink()` is modelled by its effect on the traversal, not as an update of a linked tree.
- `queryPages`, `queryMostRecent`, `queryMostFrequent`: their ranking lives in SQL the model does not have, and their point is live change notification.
- Coroutine dispatching, the transaction's isolation against concurrent callers, and logging. `UpdatePages` treats the whole transaction as one step, and storage failures and rollback are not modelled.
- Colours and font weights of `Style`: reduced to the tags `Yellow`, `Green` and `Red`, plus `Unstyled` for text appended outside any style.
- KotlinText.TitlecaseAscii: models `titlecase(Locale.ROOT)` on ASCII only. Unicode case mapping is not modelled.
- Store.PageTable.InsertPage: requires the key to be absent, in place of the table's uniqueness constraint, which the SQL schema would enforce.
- Store.PageTable.DeletePageIds: the 999-parameter limit of one statement is a precondition, not a failure mode.
- Store.PageTable.FindPageById: the exception `executeAsOne` throws on a missing id is modelled as `None`. So `QueryPage` returns `None` and appends no history entry, where the app would throw.
- Store.PageStore.PutPage: states only the loop invariant, not which branch ran. The branch follows from `MatchingCount`.
- Integer widths: ids and `changes()` are `Long` in the app and unbounded here. No id comes near the 64-bit limit.
- The number of fresh inserts, one per key of `pages` missing from the old table, is not stated as a cardinality. `Synced` states it per id instead.
