# Task Genius roadmap parser and roadmap migration, in Dafny

This project models the roadmap checkbox-markdown parser of the Task Genius website
(`lib/roadmap-parser.ts`) and the text-generating half of the migration script that produced the
roadmap file it reads (`scripts/migrate-roadmap.ts`), and proves properties of both.

**The parser** reads a markdown file line by line:

- `- [ ] …` / `- [x] …` lines become tasks; other `- …` list items become categories.
- Lines indented deeper than the latest node continue that node's description.
- The indentation of a node (two columns per level) decides its parent: the latest earlier node
  with a smaller level.
- Every sibling list is then re-ordered into categories, incomplete tasks and completed tasks.
- `getTaskStats` counts the non-category nodes and the completed ones.

**The migration script** groups old roadmap items by status and writes each one as a checkbox line:
- a `[completion:: …]` or `[start:: …]` field for the date;
- a `[version:: …]` field;
- an indented description line.

The sections are then assembled under a fixed frontmatter.

**How the parts are modelled.**

- **Line recognition.** The regular expressions are written out as explicit matchers, and each is
  proved to pick the same parse as the pattern it replaces (greedy runs with backtracking, the
  negative lookahead of the category pattern, the `g`-flag `exec` loop over `[key:: value]` fields).
- **`parseTaskLine`.** It is a specification function plus a method that follows the source's
  steps.
- **`buildTaskTree`.** It is a method with the source's loop and ancestor stack, proved equal to a
  declarative forest. That forest is built from the nodes of the lines and a parent function: the
  nearest earlier node with a smaller level.
- **`sortTasks`, `flattenTasks` and `getTaskStats`.** These are recursive functions, with
  `flattenTasks` also as the source's accumulating traversal.
- **The migration generators.** These are functions.

**What is proved across the two halves.**

- The parser reads every readable generated item, parsed on its own, back as the task it
  describes.
- For a whole generated file, the parser's statistics equal the group sizes.
- The generated file is, line by line, the frontmatter followed by the working-on, backlog and
  shipped sections in that order.
- Field keys are read without regard to letter case: `[START:: v]` sets `start`.

Modules, one file each:

| module | contents |
|---|---|
| `JsText` | JavaScript whitespace, `trim`, `split` and `join`, `toLowerCase` on ASCII |
| `RoadmapTypes` | the node record |
| `RoadmapLines` | the checkbox and category patterns |
| `RoadmapContent` | the link and title step, the inline fields, their removal |
| `RoadmapTaskLine` | `parseTaskLine` |
| `RoadmapForest` | parents, children and the assembled forest |
| `RoadmapTree` | `buildTaskTree` |
| `RoadmapSort` | `sortTasks` |
| `RoadmapStats` | `flattenTasks` and `getTaskStats` |
| `RoadmapParser` | `parseRoadmapContent` and line-based statistics |
| `MigrateRoadmap` | `groupByStatus`, `generateCheckboxLine`, `generateRoadmapContent` |
| `MigrateRoundTrip` | generated item → parsed task |
| `MigrateStats` | generated file → task statistics |
| `MigrateLayout` | generated file → its lines, section by section |

**Two plausible readings of the format that the code does not follow.** The model follows the code.

- **A checkbox holding a character other than space, `x` or `X`.** One might read such a line as
  an incomplete task. In the code, the pattern's class `[ xX]` rejects it: the line is no task at
  all (`RoadmapTaskLine.OtherMarkIsNoTask`).
- **A list item whose text starts with `[`.** One might expect it always to be dropped. In the code,
  the lookahead `(?!\[)` follows `\s+`, which backtracks. `- [a` (one space) is dropped, but
  `-  [a` (two spaces) is a category titled `[a`
  (`RoadmapLines.OneSpaceBracketIsNoCategory`, `RoadmapLines.TwoSpacesBracketIsCategory`).

## Model

| member | source | states |
|---|---|---|
| JsText.Trim | lib/roadmap-parser.ts:82 | `trim` leaves no JavaScript white space at either end, is empty exactly for all-space text, and otherwise is the slice from the first to the last non-space character |
| JsText.TrimIgnoresPadding | lib/roadmap-parser.ts:82 | white space added on either side does not change the trimmed text |
| JsText.TrimOfTrimmed | lib/roadmap-parser.ts:82 | trimming is idempotent: trimmed text is its own trim |
| JsText.Split | lib/roadmap-parser.ts:231 | `split('\n')` yields at least one piece and no piece holds the separator |
| JsText.JoinSplit | lib/roadmap-parser.ts:231 | joining the pieces of `split` with the separator gives the text back |
| JsText.SplitJoin | lib/roadmap-parser.ts:231 | splitting pieces joined by a separator they do not contain gives the pieces back |
| JsText.SplitAround | lib/roadmap-parser.ts:231 | the lines of `a + "\n" + b` are the lines of `a` followed by the lines of `b` |
| JsText.LowerAsciiChars | lib/roadmap-parser.ts:109 | the lower-cased text spells the original up to letter case and holds no capital letter, and it is the only text of that length that does both |
| JsText.LowerAsciiEqual | lib/roadmap-parser.ts:109 | two texts lower-case to the same text exactly when they have the same length and agree letter by letter up to ASCII case |
| RoadmapLines.MatchCheckboxIsRegexMatch | lib/roadmap-parser.ts:73 | the checkbox matcher succeeds exactly when `^(\s*)-\s*\[([ xX])\]\s*(.*)$` has a parse; its indent is the whole leading white space, its mark is the bracketed character of every parse, its content is the line's tail after the greedy white-space run and holds no line terminator |
| RoadmapLines.CheckboxGreedy | lib/roadmap-parser.ts:73 | any parse of the checkbox pattern determines the match: same indent and mark, content starting after all white space that follows `]` |
| RoadmapLines.MatchCategoryIsRegexMatch | lib/roadmap-parser.ts:47 | the category matcher succeeds exactly when `^(\s*)-\s+(?!\[)(.+)$` has a parse, and returns the parse with the longest white-space run the lookahead allows |
| RoadmapLines.ParseCategoryLine | lib/roadmap-parser.ts:44-62 | `parseCategoryLine` returns a node exactly for lines the category pattern matches: a category with id `category-<line>`, not completed, level = half the indent rounded down, a trimmed title and no other fields |
| RoadmapLines.CategoryTitle | lib/roadmap-parser.ts:52-57 | the title is the trimmed text after the longest white-space run after `-` that leaves a valid tail |
| RoadmapLines.OneSpaceBracketIsNoCategory | lib/roadmap-parser.ts:47 | `- [` with a single space never makes a category |
| RoadmapLines.TwoSpacesBracketIsCategory | lib/roadmap-parser.ts:47 | `-  [` with two spaces is a category whose title starts with `[`, through backtracking of `\s+` |
| RoadmapContent.MatchLeadingLinkSound | lib/roadmap-parser.ts:90 | a link match is `[text](url)` at the start of the content with non-empty text free of `]` and non-empty url free of `)`, and its length is what `slice` drops |
| RoadmapContent.MatchLeadingLinkComplete | lib/roadmap-parser.ts:90 | every content that starts with such a `[text](url)` is matched, with that text and url |
| RoadmapContent.SplitTitleWithLink | lib/roadmap-parser.ts:90-94 | after a leading link, the title is the link text, the link is the url, and the remainder is the trimmed rest |
| RoadmapContent.SplitTitleWithoutLink | lib/roadmap-parser.ts:96-101 | without a leading link, the title is the trimmed text before the first `[`, holds no `[`, has no link, and the remainder is the trimmed text from that `[` on (all of it when the content starts with `[`) |
| RoadmapContent.BeforeBracketIsIndexOf | lib/roadmap-parser.ts:97 | `^([^\[]+)` takes exactly the text before the first `[` |
| RoadmapContent.FieldPrefixIsRegexMatch | lib/roadmap-parser.ts:105 | a field is matched at a position exactly when `\[(\w+)::\s*([^\]]+)\]` has a parse there; the key is the word run, the match ends at the first `]`, and the value is the suffix the greedy `\s*` leaves (at least one character) |
| RoadmapContent.FieldPrefixOfField | lib/roadmap-parser.ts:105-117 | `[key:: value]` with a word key and a value free of `]` is matched with that key and a value that trims to the trimmed value |
| RoadmapContent.BlankFieldValue | lib/roadmap-parser.ts:105 | `[key::   ]` still matches (backtracking gives one space to the value) and stores an empty trimmed value |
| RoadmapContent.EmptyFieldIsNoMatch | lib/roadmap-parser.ts:105 | `[key::]` is not a field: the value needs a character |
| RoadmapContent.Exec | lib/roadmap-parser.ts:107 | `exec` from `lastIndex` returns the first position at or after it where a field matches, with that match; when it returns nothing, no position from `lastIndex` on matches |
| RoadmapContent.ExecSomeIsScanNext | lib/roadmap-parser.ts:107 | one successful `exec` contributes the next field of the left-to-right scan and resumes after the match |
| RoadmapContent.ExecNoneIsScanEnd | lib/roadmap-parser.ts:107 | a failing `exec` ends the scan: no fields remain and nothing more is removed |
| RoadmapContent.StripLength | lib/roadmap-parser.ts:121-123 | `replace(…, '')` removes exactly the matched text: remaining length plus matched lengths is the original length |
| RoadmapContent.StripPlainPrefix | lib/roadmap-parser.ts:121-123 | text without `[` before the fields is kept by `replace` and yields no field |
| RoadmapContent.ApplyFieldsIgnoresKeyCase | lib/roadmap-parser.ts:107-118 | keys are compared without regard to case: field matches that differ only in the letter case of their keys store the same `start`, `completion` and `version` |
| RoadmapContent.ApplyFieldsIsLastValue | lib/roadmap-parser.ts:107-118 | after the loop, `start`, `completion` and `version` each hold the trimmed value of the last field whose lower-cased key names it, and keep their old value if there is none |
| RoadmapTaskLine.ParseTaskLine | lib/roadmap-parser.ts:71-137 | the step-by-step procedure (checkbox match, link or title, `exec` loop, `replace` and `trim`) returns the task the specification function describes |
| RoadmapTaskLine.ReadFields | lib/roadmap-parser.ts:104-118 | the `exec` loop leaves `start`, `completion` and `version` as the fold of the scanned fields |
| RoadmapTaskLine.TaskLineHeader | lib/roadmap-parser.ts:73-80 | every checkbox parse yields a task: id `task-<line>`, not a category, no children, level = half the indent rounded down, completed exactly when the mark is `x` or `X` |
| RoadmapTaskLine.NotCheckboxIsNoTask | lib/roadmap-parser.ts:73-76 | a line the checkbox pattern does not match is no task |
| RoadmapTaskLine.OtherMarkIsNoTask | lib/roadmap-parser.ts:73 | a box holding any character other than space, `x`, `X` is no task |
| RoadmapTaskLine.CarriageReturnLine | lib/roadmap-parser.ts:73 | a line ending in `\r` is never a category, and as a task it has an empty title and no link, fields or description |
| RoadmapTaskLine.TaskLineLink | lib/roadmap-parser.ts:90-93 | content starting with `[text](url)` gives the task title `text` and link `url` |
| RoadmapTaskLine.TaskLinePlainTitle | lib/roadmap-parser.ts:96-101 | without a leading link the title is the trimmed text before the first `[`, contains no `[`, and there is no link |
| RoadmapTaskLine.TaskLineFields | lib/roadmap-parser.ts:104-118 | the task's `start`, `completion`, `version` are the last matching field values of the remainder |
| RoadmapTree.LineNode | lib/roadmap-parser.ts:150-156 | a line is read as a task first and only otherwise as a category; the node carries the line number and no children |
| RoadmapTree.ParseNode | lib/roadmap-parser.ts:150-156 | the two parse calls return the node of the line |
| RoadmapTree.AppendDescription | lib/roadmap-parser.ts:167-171 | appending a continuation changes only the description, which is then present |
| RoadmapTree.ContinuationLine | lib/roadmap-parser.ts:158-175 | a line that is no node changes the nodes exactly when there is a latest node and the line continues it; then only that node changes, only its description, by one more line holding the trimmed text |
| RoadmapTree.ContinueDescription | lib/roadmap-parser.ts:158-175 | the continuation branch of the loop body performs exactly the specified step |
| RoadmapTree.PopAncestors | lib/roadmap-parser.ts:181-183 | popping while the top's level is not smaller leaves the stack as the chain of ancestors ending at the new node's parent |
| RoadmapTree.Attach | lib/roadmap-parser.ts:185-191 | pushing the new node onto the root list (empty stack) or onto the children of the top of the stack leaves every children list equal to the nodes whose parent it is, in order, and the root list equal to the parentless nodes |
| RoadmapTree.LinkOk | lib/roadmap-parser.ts:185-194 | linking a node under its parent (or as a root) keeps every children list equal to the nodes whose parent it is, in order |
| RoadmapTree.Link | lib/roadmap-parser.ts:177-194 | handling a node appends it, keeps the children table right, and leaves the stack as the new node and its ancestors |
| RoadmapTree.BuildTaskTree | lib/roadmap-parser.ts:144-198 | the loop with its ancestor stack returns the forest assembled from the nodes of all lines and the nearest-smaller-level parent relation |
| RoadmapTree.NodesFromLines | lib/roadmap-parser.ts:149-195 | there is one node per task or category line, in line order |
| RoadmapTree.IdsUnique | lib/roadmap-parser.ts:149-156 | in the pre-order list of the result, line numbers strictly increase, so ids are unique |
| RoadmapForest.ParentIsNearestSmaller | lib/roadmap-parser.ts:181-191 | a node's parent is the nearest earlier node with a strictly smaller level, or none (a root) when no earlier node is smaller |
| RoadmapForest.ForestPreorder | lib/roadmap-parser.ts:144-198 | the pre-order list of the built forest is the node sequence in line order, each node with its assembled children |
| RoadmapForest.ForestChildren | lib/roadmap-parser.ts:185-191 | the children of each node are exactly the later nodes whose parent it is, in line order, each with a greater level |
| RoadmapForest.ForestRoots | lib/roadmap-parser.ts:185-188 | the roots are exactly the nodes with no earlier smaller-level node, in line order |
| RoadmapSort.SortPermutes | lib/roadmap-parser.ts:205-222 | `sortTasks` returns a permutation of the list after sorting each node's children, changing nothing else in the nodes |
| RoadmapSort.SortRanked | lib/roadmap-parser.ts:213-222 | in the sorted list categories come first, then incomplete tasks, then completed tasks |
| RoadmapSort.SortStable | lib/roadmap-parser.ts:213-222 | within each of the three groups the original order is kept |
| RoadmapSort.GroupsPermute | lib/roadmap-parser.ts:213-222 | the three filters together keep every node exactly once |
| RoadmapSort.SortIdempotent | lib/roadmap-parser.ts:205-223 | sorting a sorted forest changes nothing |
| RoadmapSort.SortKeepsStats | lib/roadmap-parser.ts:205-223 | sorting changes neither the statistics nor the number of nodes |
| RoadmapStats.Traverse | lib/roadmap-parser.ts:244-251 | `traverse` appends to `result` each node followed by the traversal of its children, in order |
| RoadmapStats.FlattenTasks | lib/roadmap-parser.ts:241-255 | `flattenTasks` returns the pre-order list, which has one entry per node of the forest |
| RoadmapStats.FlattenConcat | lib/roadmap-parser.ts:241-255 | flattening two forests one after the other is concatenating their flattenings |
| RoadmapStats.GetTaskStats | lib/roadmap-parser.ts:262-277 | `total` counts non-category nodes in the whole forest, `completed` the completed ones among them, and `incomplete` is the non-negative difference |
| RoadmapStats.FilterFilter | lib/roadmap-parser.ts:269-270 | filtering completed nodes out of the non-categories equals selecting completed non-categories |
| RoadmapStats.StatsConcat | lib/roadmap-parser.ts:262-277 | the counts of two forests side by side add up |
| RoadmapParser.ParseRoadmapContent | lib/roadmap-parser.ts:230-234 | `parseRoadmapContent` returns the sorted forest of the file's lines, and its statistics are those read off the lines |
| RoadmapParser.ParsedStats | lib/roadmap-parser.ts:230-234 | the statistics of the parsed file are: total = the number of lines the checkbox pattern matches, completed = those checked with `x` or `X` |
| RoadmapParser.ParsedNodes | lib/roadmap-parser.ts:230-234 | the parsed forest has exactly one node per task or category line |
| RoadmapParser.LineNodeKind | lib/roadmap-parser.ts:150-156 | a line's node is a task exactly when the checkbox pattern matches it, and a completed task exactly when it is checked |
| RoadmapParser.NodesCount | lib/roadmap-parser.ts:149-195 | the tasks and completed tasks among the nodes of the first `n` lines are counted by those lines |
| RoadmapParser.ForestCount | lib/roadmap-parser.ts:144-198 | building the forest neither loses nor duplicates tasks or completed tasks |
| RoadmapParser.CountCheckedTaskLines | lib/roadmap-parser.ts:270-275 | there are never more checked lines than task lines, so `incomplete` is not negative |
| MigrateRoadmap.GroupByStatus | scripts/migrate-roadmap.ts:55-69 | the result has exactly the three groups, each holding the items of that status in input order; items of any other status are dropped |
| MigrateRoadmap.WithStatusMembers | scripts/migrate-roadmap.ts:62-66 | an item is in a group exactly when it is an input item with that status |
| MigrateRoadmap.GroupSizes | scripts/migrate-roadmap.ts:62-66 | the three group sizes plus the number of items of other statuses is the number of items |
| MigrateRoadmap.NoneUnknown | scripts/migrate-roadmap.ts:62-66 | no item is dropped exactly when every status is one of the three |
| MigrateRoadmap.GroupByStatusAsWritten | scripts/migrate-roadmap.ts:62-66 | the loop as written either throws or returns exactly the three groups |
| MigrateRoadmap.AsWrittenAgrees | scripts/migrate-roadmap.ts:62-66 | with no status naming an inherited object member, the loop as written returns the intended groups |
| MigrateRoadmap.ConstructorStatusThrows | scripts/migrate-roadmap.ts:63-64 | an item with status `constructor` makes the loop throw, where the intended result is three empty groups |
| MigrateRoadmap.MetaStr | scripts/migrate-roadmap.ts:86-102 | the field text is empty exactly when neither date nor version is set, and otherwise is a space followed by bracketed fields |
| MigrateRoadmap.MetaPartsContents | scripts/migrate-roadmap.ts:88-100 | one part per set date and version, the date first as `completion` for shipped items and `start` otherwise, the version last |
| MigrateRoadmap.GenerateCheckboxLine | scripts/migrate-roadmap.ts:74-110 | each line starts `- [x] ` for shipped items and `- [ ] ` otherwise |
| MigrateRoadmap.ItemsTextCons | scripts/migrate-roadmap.ts:131 | items in a section are separated by exactly one blank line |
| MigrateRoadmap.Section | scripts/migrate-roadmap.ts:128-134 | a section is empty exactly when its group is empty |
| MigrateRoadmap.GenerateRoadmapContent | scripts/migrate-roadmap.ts:115-161 | the generated file starts with the fixed frontmatter |
| MigrateRoundTrip.FieldNameIgnoresCase | lib/roadmap-parser.ts:107-118 | a field whose key spells `start`, `completion` or `version` in any letter case sets that field to its trimmed value, just as the small-letter key does |
| MigrateRoundTrip.TaskFieldKeyCase | lib/roadmap-parser.ts:73-133 | a task line with a plain title and one field `[START:: v]`, `[Version:: v]` or any other spelling of a kept key stores the trimmed value in that field of the task, with no link and no description |
| MigrateRoundTrip.HeadMatch | scripts/migrate-roadmap.ts:109 | the parser's checkbox pattern matches the generated head line at indent 0, with the item's mark and content |
| MigrateRoundTrip.HeadSplit | scripts/migrate-roadmap.ts:78-83 | the parser's title step gives back the item's title and docs URL and leaves exactly the generated fields |
| MigrateRoundTrip.MetaFields | scripts/migrate-roadmap.ts:88-102 | the parser's field loop reads back the date into `completion` for shipped items and `start` otherwise, reads the version, and leaves no description text |
| MigrateRoundTrip.TwoFieldScan | scripts/migrate-roadmap.ts:91-102 | a date field and a version field joined by a space are scanned as those two fields, in order, and only the space remains |
| MigrateRoundTrip.HeadTask | scripts/migrate-roadmap.ts:74-109 | the head line parses as a level-0 task with the item's title, link, completion state, date field and version |
| MigrateRoundTrip.ItemSplit | scripts/migrate-roadmap.ts:104-109 | a generated item is one line, or two when it has a description: the head and the description indented by two spaces |
| MigrateRoundTrip.DescriptionLine | scripts/migrate-roadmap.ts:105-107 | the indented description line is no node, and it continues any level-0 node with its trimmed text |
| MigrateRoundTrip.ItemNodes | scripts/migrate-roadmap.ts:74-110 | the lines of a generated item make exactly one node: the item's task |
| MigrateRoundTrip.ItemRoundTrip | scripts/migrate-roadmap.ts:74-110 | parsing a generated item gives exactly one task, which holds the item's title, link, completion state, date, version and description |
| MigrateStats.ItemCounts | scripts/migrate-roadmap.ts:74-110 | a generated item holds one task line, checked exactly for shipped items |
| MigrateStats.ItemsCounts | scripts/migrate-roadmap.ts:131 | the items of a section give one task line each and one checked line per shipped item |
| MigrateStats.SectionCounts | scripts/migrate-roadmap.ts:128-134 | a section holds as many task lines as items and as many checked ones as shipped items |
| MigrateStats.FrontCounts | scripts/migrate-roadmap.ts:116-125 | the frontmatter holds no task line |
| MigrateStats.DocumentCounts | scripts/migrate-roadmap.ts:115-161 | the task and checked lines of the file are those of its three sections |
| MigrateStats.GroupSection | scripts/migrate-roadmap.ts:128-158 | the section of a group, in any order, holds one task per item of that status, checked exactly for the shipped section |
| MigrateLayout.DocumentLines | scripts/migrate-roadmap.ts:115-161 | the lines of the generated file are the frontmatter lines, then the working-on, backlog and shipped sections in that order, each present only for a non-empty group, and a final empty line when the shipped group is empty |
| MigrateLayout.MiddleSectionLines | scripts/migrate-roadmap.ts:128-145 | the working-on or backlog section contributes no lines for an empty group, and otherwise its header, an empty line, the lines of its items and an empty line |
| MigrateLayout.LastSectionLines | scripts/migrate-roadmap.ts:147-158 | the shipped section contributes its header, an empty line and the lines of its items, and ends the file with one line break |
| MigrateLayout.ItemsLines | scripts/migrate-roadmap.ts:131 | within a section, the lines of the items are the first item's lines, one empty line, and the lines of the rest |
| MigrateStats.DocumentStats | scripts/migrate-roadmap.ts:115-161 | parsing the generated file gives total = the number of grouped items, completed = the shipped items, incomplete = working-on plus backlog items |

## Left out

- `loadRoadmapItems` and `main` (scripts/migrate-roadmap.ts:27-50, 166-200):
  - they do file-system reads and writes, gray-matter frontmatter parsing, and console output,
    including the completion percentage;
  - items enter the model as values;
  - frontmatter values are taken to be text or absent, so numbers, dates and lists that YAML can
    produce are not modelled;
  - the defaults `未命名任务` and `backlog` are applied before the model begins.
- The date sort of the shipped section (scripts/migrate-roadmap.ts:149-154):
  - `new Date(…)` parsing is not modelled, nor is the comparator, which is not a consistent
    ordering when some dates are missing;
  - `MigrateRoadmap.GenerateRoadmapContent` takes the shipped items in any order of the group, and
    every property about the file holds for every such order.
- Node ids: `id` keeps the kind and the line number (`TaskId`) instead of the text `task-<n>` or
  `category-<n>`. Distinct pairs give distinct texts.
- Text is sequences of Unicode scalar values. JavaScript counts UTF-16 code units, so indentation
  lengths can differ only where the indent holds a character outside the Basic Multilingual Plane;
  none of JavaScript's white-space characters is one.
- `toLowerCase` is modelled on ASCII letters only. It is applied to the checkbox mark (space, `x`,
  `X`) and to `\w` keys, which are ASCII, so nothing is lost.
- Object identity in `buildTaskTree`:
  - the source links node objects by reference and later mutates the latest one's description
    through `lastTask`;
  - the method keeps the nodes in an arena with index lists for children, roots, the stack and
    `lastTask`, and assembles the returned forest from the arena at the end;
  - sharing between the returned objects is not modelled.
- RoadmapStats.FlattenTasks: the inner `traverse` closure appends to a shared `result` array. The
  model passes and returns the list instead (`RoadmapStats.Traverse`).
- MigrateRoundTrip.ItemRoundTrip: holds for readable items only. The other items are:
  - titles that are empty, untrimmed, or contain a bracket or a line break;
  - docs URLs containing `)` or a line break (`\n`, `\r`, U+2028 or U+2029);
  - dates or versions containing `]` or a line break (`\n`, `\r`, U+2028 or U+2029);
  - descriptions that span lines, that are blank (white space only, so the indented line is blank
    and continues nothing), or whose first visible character is `-`.

  The side condition is kept simple, not exact. Some excluded items are read back differently:
  a title that is empty or holds a bracket, combined with a docs URL; a description starting with
  `- ` or `-[`. Others still read back as the task they describe, for example a title `a]b`
  without a docs URL, an empty title without one, or the description `-foo`; the model does not
  state the trip for them.
- MigrateStats.DocumentStats: requires every item of status `working-on`, `backlog` or `shipped`
  to be readable, for the same reason. Items of any other status are dropped before anything is
  written, so they may hold any text.
- MigrateRoadmap.GenerateCheckboxLine: its own contract states only the head of the line. The full
  text is stated by `MigrateRoadmap.MetaPartsContents` and read back by
  `MigrateRoundTrip.ItemRoundTrip`.
- MigrateRoadmap.GenerateRoadmapContent: its own contract states only the frontmatter prefix. The
  order and shape of its sections are stated line by line by `MigrateLayout.DocumentLines`, and the
  counts they give by `MigrateStats.DocumentStats`.

## Findings

| source | as written | input that shows it | evidently intended | confidence | as-written member | corrected member |
|---|---|---|---|---|---|---|
| scripts/migrate-roadmap.ts:63-64 | `if (groups[item.status])` tests whether a property lookup on a plain object literal is truthy, which also holds for names inherited from `Object.prototype`; `.push` on that value then throws a `TypeError` | one item whose frontmatter says `status: constructor` (or `toString`, `valueOf`, …) | items whose status is not one of the three groups are skipped, as for any other unknown status | medium, not executed | MigrateRoadmap.ConstructorStatusThrows | MigrateRoadmap.GroupByStatus |
