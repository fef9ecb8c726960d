# mdc-support post-processor, modelled in Dafny

The Obsidian plugin in `main.ts` registers a Markdown post-processor that turns
MDC-style blocks written in a note into embed containers:

```
::note
---
title: "Hello World"
---
**bold** text
::
```

For every paragraph whose text starts with `::`, the processor:

1. reads that paragraph and its following siblings until a later sibling holds `::`,
   joining the texts with line breaks and trimming the result (`getFullBlockText`);
2. matches `^::(\w+)\s*\n([\s\S]*?)\n::$` (multi-line flag) against that text;
3. on a match, builds a `div.mdc-embed` from the block body (`createMdcElement`).
   An optional front-matter header between two `---` lines fills a string map. Its
   `title` entry, with double quotes removed, becomes the title child. The rest of the
   body, rendered by a four-rule Markdown renderer (`parseMarkdown`), becomes the
   content child;
4. inserts the container before the paragraph and removes a run of siblings, at most
   one per line of the block text (`replaceBlockElements`).

The model has six modules, one file each:

| file | module | models |
|---|---|---|
| `wrappers.dfy` | `Wrappers` | `Option` |
| `js_text.dfy` | `JsText` | the JavaScript string operations the code uses: `\s`, `\w`, line terminators, `trim`, `split`/`join` on one character, `includes("::")`, `replace(/"/g, '')` |
| `block_pattern.dfy` | `BlockPattern` | the block regular expression as an explicit matcher that returns exactly the match a backtracking engine reports |
| `markdown.dfy` | `Markdown` | `parseMarkdown` as a left-to-right scanner for each global `replace` |
| `mdc_element.dfy` | `MdcElement` | `createMdcElement`: the header loop as an imperative method proved against a functional specification, the body and the container |
| `locator.dfy` | `Locator` | the hook's test, `processMdcBlock`, `getFullBlockText` and `replaceBlockElements` as methods of a `Fragment` class whose field is the sibling sequence, each proved against a function on sequences |

Regular-expression semantics follow ECMAScript:

- `^` and `$` under the `m` flag anchor at the four line terminators.
- `.` refuses them.
- `\s` and `trim` use the WhiteSpace and LineTerminator sets.
- `\w` is ASCII letters, digits and `_`.

The match that `String.prototype.match` reports is characterised in `BlockPattern`:

- the leftmost line start;
- the maximal tag;
- the longest `\s*` that still leaves a closing line;
- the nearest closing line.

`MatchBlock` is proved to return that match, or `None` when no positions fit the
pattern.

## Model

| member | source | states |
|---|---|---|
| Locator.TriggersOnPrefix | main.ts:9 | the hook's test `startsWith('::') && includes('::')` holds exactly when the text starts with `::`: the second half adds nothing |
| Locator.Fragment.Visit | main.ts:7-11 | a paragraph that fails the test, or whose block text does not match, leaves the siblings unchanged; otherwise they become the spliced sequence `ProcessWith` for the container built from the match |
| Locator.Fragment.ProcessMdcBlock | main.ts:16-25 | no match leaves the siblings unchanged; a match replaces them by `ProcessWith(old, s, Embed(content of the match))` |
| Locator.ScanEnd | main.ts:31-35 | the scan ends at the first later sibling containing `::` or at the last sibling; no sibling strictly between the start and the end contains `::`; the start never ends the scan |
| Locator.Fragment.GetFullBlockText | main.ts:27-38 | the loop's result equals `BlockText`, the trimmed accumulation of every scanned text followed by a line break |
| Locator.TextsStep | main.ts:32 | one more iteration appends the sibling's text and a line break to the accumulator |
| Locator.AccumulateJoin | main.ts:32 | the accumulator equals the texts joined by line breaks, plus one final break |
| Locator.BlockTextJoin | main.ts:32-37 | the block text equals the trimmed join of the scanned texts by line breaks: the last appended break is trimmed away |
| Locator.AccumulateCount | main.ts:32 | the accumulator holds at least one line break per text read |
| Locator.AccumulateHead | main.ts:32 | the accumulator starts with the first text's first character |
| Locator.AccumulateTrimEnd | main.ts:32-37 | when the last text is not all white space, trimming the end keeps a line break for every earlier text |
| Locator.AccumulateLines | main.ts:37-41 | when the first text starts with a non-space and the last is not all white space, the trimmed accumulator has at least one line per text |
| Locator.LinesCoverRun | main.ts:27-41 | under the same conditions, splitting the block text gives at least as many lines as siblings were scanned |
| Locator.MarkerNotSpace | main.ts:33 | a text containing `::` is not all white space |
| Locator.RunLength | main.ts:46-51 | the walk pushes the scanned run cut short at the line count: no more than either bound, and equal to one of them |
| Locator.Fragment.ReplaceBlockElements | main.ts:40-55 | the new siblings are the old ones with the container inserted at the start and `RunLength` siblings from the start removed; the walk's loop is proved to push exactly `nodes[s..s + RunLength]` |
| Locator.Removed | main.ts:41-51 | the number of siblings removed is at least one, the start itself, and at most the scanned run |
| Locator.SpliceShape | main.ts:53-54 | the splice keeps the siblings before the start, puts the container at the start and keeps the siblings after the removed run, in order |
| Locator.ProcessSplices | main.ts:53-54 | on a match, the result has `Removed - 1` fewer siblings than before, the prefix before the start unchanged, the container at the start and the siblings after the removed run unchanged |
| Locator.NoMatchNoChange | main.ts:18-24 | when the start is a paragraph, the siblings are unchanged if and only if the block text does not match |
| Locator.SpliceRemovesScanRun | main.ts:31-51 | when a later sibling containing `::` ends the scan and the start begins with `::`, the walk removes exactly the scanned siblings |
| Locator.PairScan | main.ts:31-35 | for a paragraph opening with `::` and a following paragraph without `::`, the scan reads both and the accumulator starts with the first text unchanged |
| Locator.PairBlockText | main.ts:27-38 | the block text of such a pair is the first text, a line break, and the second text with its trailing white space trimmed |
| Locator.OneParagraphBlock | main.ts:18-38 | a paragraph of the lines `::w`, `y`, `::` followed by a plain paragraph gives a matching block text whose match ends inside the first paragraph |
| Locator.AfterSiblingRemoved | main.ts:46-54 | as written, when the whole block lies in one paragraph and the next paragraph has no `::`, both paragraphs are removed |
| Locator.CoverFrom | main.ts:46-51 | the corrected walk length: the fewest texts, at least `r`, whose accumulation reaches position `x` |
| Locator.CoverRun | main.ts:46-51 | the corrected run: at least one sibling and no more than the scanned run; its texts reach the end of the match, and one sibling fewer would not |
| Locator.MatchEnd | main.ts:18-37 | the end of the match's closing line, shifted back past the white space `trim` removed, lies within the accumulator |
| Locator.AfterSiblingKept | main.ts:46-54 | with the walk bounded by the match, the same input removes only the block's paragraph and keeps the next one |
| Locator.BlockThenParagraph | main.ts:40-55 | for every paragraph `::w`, `y`, `::` followed by a plain paragraph, the code as written leaves only the container, and the corrected walk leaves the container followed by the paragraph |
| Locator.SingleParagraph | main.ts:9-38 | a lone paragraph opening with `::` triggers the hook, its block text is its own text, and when that text matches the splice leaves only the container |
| Locator.WholeBlockReplaced | main.ts:9-25 | a lone paragraph `::w`, `src`, `::` triggers, matches, is replaced by the container built from `src`, and the siblings become that container alone |
| Locator.VisitWholeBlock | main.ts:7-55 | visiting that paragraph in place leaves the sibling sequence holding only the container built from `src` |
| Locator.TitledSourceShape | main.ts:18 | the source `---`, `title: "name"`, `---`, `**x**y` opens with a non-space and has no line starting with `::`, so it can sit inside a block |
| Locator.HelloWorldBlock | main.ts:7-112 | the paragraph `::note`, `---`, `title: "Hello World"`, `---`, `**bold** text`, `::` is replaced by the one container titled `Hello World` with the content `<strong>bold</strong> text` |
| BlockPattern.MatchBlock | main.ts:18 | a reported match satisfies the pattern and precedes every other match in the engine's preference order; `None` means no positions satisfy the pattern |
| BlockPattern.MatchFrom | main.ts:18 | the leftmost match starting at or after a position, preferred over every match starting there or later |
| BlockPattern.MatchAt | main.ts:18 | the match the engine reports at one start position: maximal tag, longest white-space run that still closes, nearest closing line |
| BlockPattern.TryNewline | main.ts:18 | backtracking through `\s*`: the largest line-break position that has a closing line after it, and the nearest such closing line |
| BlockPattern.FindClose | main.ts:18 | the lazy body `[\s\S]*?` stops at the nearest line that is exactly `::` |
| BlockPattern.WordEnd | main.ts:18 | the greedy `\w+` ends at the first non-word character |
| BlockPattern.SpaceEnd | main.ts:18 | the greedy `\s*` ends at the first non-space character |
| BlockPattern.MatchShape | main.ts:18 | in any match the tag is the whole word run after `::` and the line break lies in the white-space run after it |
| BlockPattern.Tag | main.ts:21 | the captured tag is non-empty and made of word characters |
| BlockPattern.MatchNeedsBothLines | main.ts:18 | a match starts on a line opening with `::` and a word character and ends at a later line that is exactly `::` |
| BlockPattern.WholeMatch | main.ts:18 | a text that is the line `::` plus word characters, a body opening with a non-space and holding no `::` line, and a final line `::` is matched from its first character to its end, the body captured whole |
| BlockPattern.CapturesSource | main.ts:18-21 | the block `::w`, `src`, `::` matches at its start and its second capture is exactly `src` |
| MdcElement.CreateMdcElement | main.ts:57-104 | the container built equals `Embed(source)` |
| MdcElement.ReadFrontmatter | main.ts:59-75 | the header loop's map equals `Props(lines)` and its `frontmatterEnd` equals `FrontmatterEnd(lines)` |
| MdcElement.ReadHeaderLine | main.ts:69-73 | one header line puts its entry into the map, and `__proto__` is ignored |
| MdcElement.Put | main.ts:72 | `props[key] = value` adds or overwrites the entry's key with its value and keeps every other key; a missing entry or the key `__proto__` leaves the map unchanged |
| MdcElement.HeaderEntry | main.ts:70-72 | a trimmed line yields an entry exactly when it is non-empty and contains a colon |
| MdcElement.HeaderEntryAtFirstColon | main.ts:71-72 | the key is the trimmed text before the first colon, and the value is the trimmed text after it, later colons included |
| MdcElement.FoldKeys | main.ts:72 | the map's keys are exactly the keys of the entries, except `__proto__` |
| MdcElement.FoldLastWins | main.ts:72 | a later line with the same key overwrites an earlier one: the last entry for a key gives its value |
| MdcElement.HeaderPropsStep | main.ts:64-73 | reading one more header line puts its entry into the map built so far |
| MdcElement.HeaderClose | main.ts:64-68 | the first `---` line at or after a position; no earlier line from there is one |
| MdcElement.FrontmatterEnd | main.ts:59-68 | `frontmatterEnd` is -1 or the first `---` line after an opening `---` on line 0; -1 when line 0 is not `---` or no later line is |
| MdcElement.HeaderClosedAt | main.ts:65-67 | the loop stops at the closing `---`: `frontmatterEnd` is that line and the map holds the lines before it |
| MdcElement.HeaderUnclosed | main.ts:64-74 | an unterminated header leaves `frontmatterEnd` at -1, yet every line after the opening `---` is read into the map |
| MdcElement.HeaderCloseAppend | main.ts:64-68 | lines after the closing `---` do not move it |
| MdcElement.PropsIgnoreBody | main.ts:63-75 | with a closed header, lines after it change neither the map nor `frontmatterEnd` |
| MdcElement.BodyWithoutHeader | main.ts:78-81 | without a closed header the body is the whole source trimmed, and an unterminated header's lines still fill the map |
| MdcElement.BodyAfterHeader | main.ts:78-81 | with a closed header the body is the trimmed text after the closing line's break, and empty when that line is the last |
| MdcElement.Title | main.ts:88-91 | a title is present exactly when `props.title` is a non-empty string; it then holds no `"`, is shorter than `props.title` by the number of quotes in it, and keeps every other character as often as `props.title` has it |
| MdcElement.ContainerShape | main.ts:84-103 | the container has a title child exactly when `props.title` is non-empty, holding no `"`; it has a content child exactly when the trimmed body is non-empty, holding its rendering, which has no line feed |
| MdcElement.OneEntryHeader | main.ts:58-81 | a source with one header line between `---` lines: the map holds that line's entry and the body is the rest, trimmed |
| MdcElement.KeyValueLine | main.ts:69-72 | a line `key: value` with a colon-free key and already-trimmed halves yields exactly that entry |
| MdcElement.TitleLine | main.ts:69-72 | the line `title: "name"` is not a rule and yields the entry `title` with the quoted value |
| MdcElement.Unquote | main.ts:91 | removing double quotes undoes the quoting of a quote-free name |
| MdcElement.BoldBody | main.ts:106-112 | the body `**x**y` is its own trim and renders as `<strong>x</strong>y` |
| MdcElement.TitledEmbed | main.ts:57-112 | the source `---`, `title: "name"`, `---`, `**x**y` gives the container titled `name` whose content is `<strong>x</strong>y` |
| MdcElement.HelloWorldEmbed | main.ts:57-112 | the Hello World block source, the lines between `::note` and `::`, gives the title `Hello World` and the content `<strong>bold</strong> text` |
| Markdown.ParseMarkdown | main.ts:106-112 | the rendering holds no line feed |
| Markdown.Breaks | main.ts:111 | every line feed is replaced: the result has none |
| Markdown.SpanEnd | main.ts:108-110 | the closing delimiter found lies within the text after the opening one |
| Markdown.SpanEndNearest | main.ts:108-110 | the lazy `(.*?)`: the closing delimiter is the nearest one and lies on the same line; when none is found, none occurs before the line ends |
| Markdown.NextBreak | main.ts:108-110 | the first line terminator at or after a position, or the end: `.` stops there |
| Markdown.SpanEndAt | main.ts:108-110 | the search finds the closing delimiter at `e` when it is the first one and no line terminator comes before it |
| Markdown.SpanEndNoneAt | main.ts:108-110 | the search finds nothing when no closing delimiter occurs up to the line's end |
| Markdown.ScanWrapsSpan | main.ts:108-110 | one step of a global replace: at an opening delimiter whose nearest closing one lies on the same line, the span is wrapped in the open and close tags and the scan resumes after it |
| Markdown.ScanCopies | main.ts:108-110 | the other step: a character that opens no span on its line is copied unchanged and the scan moves on by one |
| Markdown.SubstituteIdentity | main.ts:108-110 | text without the delimiter's first character is left unchanged by that rule |
| Markdown.BreaksIdentity | main.ts:111 | text without a line feed is left unchanged by the last rule |
| Markdown.BreaksAppend | main.ts:111 | the line-feed rule works piece by piece |
| Markdown.PlainTextUnchanged | main.ts:106-112 | text without `*`, backtick or line feed renders as itself |
| Markdown.SubstituteSplit | main.ts:108-110 | text cut where no span can cross is substituted piece by piece |
| Markdown.SubstituteLineLocal | main.ts:108-110 | no span crosses a line terminator, so text cut before one is substituted piece by piece |
| Markdown.StageLineLocal | main.ts:108-110 | each of the three span rules works line by line |
| Markdown.RenderLineByLine | main.ts:106-112 | rendering `a\nb` gives the rendering of `a`, `<br>`, and the rendering of `b` |
| Markdown.WholeSpan | main.ts:108-110 | a text that is one span from its first to its last character is wrapped whole |
| Markdown.StrongSpan | main.ts:108 | `**x**` with `x` free of `*` and line terminators becomes one strong element |
| Markdown.CodeInsideStrong | main.ts:110 | the code rule works inside a strong element and leaves its tags alone |
| Markdown.StrongThenEm | main.ts:108-109 | the italic rule does not touch the strong element made from `**x**`, nor a star-free `x` |
| Markdown.StrongBeforeEm | main.ts:108-112 | bold comes first: `**x**` renders as a strong element around the rendering of `x` |
| Markdown.EmSpan | main.ts:109 | `*x*` between star-free runs becomes one emphasis element |
| Markdown.NestedStrongSpan | main.ts:108 | the bold rule takes `**a*b*c**` whole: its lazy body stops at the final `**` |
| Markdown.NestedEmphasis | main.ts:106-112 | `**a*b*c**` renders as `<strong>a<em>b</em>c</strong>` |
| Markdown.StrongThenPlain | main.ts:106-112 | `**x**` followed by plain `y` renders as `<strong>x</strong>y` |
| JsText.TrimShape | main.ts:37 | `trim` keeps the slice between the leading and trailing white space; the slice neither starts nor ends with white space, and all that is cut off is white |
| JsText.TrimStartShape | main.ts:37 | the leading white space is dropped, and what is kept starts with a non-space |
| JsText.TrimEndShape | main.ts:37 | the trailing white space is dropped, and what is kept ends with a non-space |
| JsText.TrimKeeps | main.ts:37 | a string whose ends are not white space is its own trim |
| JsText.TrimNewline | main.ts:32-37 | a trailing line break makes no difference to `trim` |
| JsText.Split | main.ts:41 | `split` on one character gives one more part than there are separators, and no part contains the separator |
| JsText.JoinSplit | main.ts:78-80 | joining the parts of a split on the same separator gives back the string |
| JsText.SplitJoin | main.ts:78-80 | splitting a join of separator-free parts gives back the parts |
| JsText.SplitLine | main.ts:58 | a separator-free line followed by the separator splits off as the first part |
| JsText.JoinAt | main.ts:78-80 | a join cut after one part is the two joins around a separator |
| JsText.RemoveAll | main.ts:91 | `replace(/"/g, '')` leaves no `"`, shortens by the number removed and keeps every other character's count |
| JsText.RemoveAllAppend | main.ts:91 | removing a character works piece by piece |
| JsText.RemoveAllAbsent | main.ts:91 | removing a character that does not occur changes nothing |
| JsText.IndexOf | main.ts:71 | the first occurrence of a character: it is there and not before |

## Left out

- The plugin plumbing is not modelled: `onload`, `registerMarkdownPostProcessor` and the DOM query `querySelectorAll('p')` with its `forEach` (main.ts:4-6,12-13). The model handles one paragraph through `Locator.Fragment.Visit`. The outer loop over all paragraphs, with each replacement changing the siblings the next visit sees, is not modelled.
- The DOM is a sequence of sibling nodes. `Locator.TextContent` approximates an element's `textContent`. A container inserted earlier has as its text its title followed by its content string, because the browser's HTML parse of `innerHTML` is not modelled. Element identity (`current !== startEl`) is modelled as position identity.
- `Locator.Fragment.ReplaceBlockElements` keeps the `toRemove` array as the slice of siblings it pushed. Removal is one splice, not one `remove()` per element.
- `createMdcElement` builds DOM nodes. `MdcElement.Container` holds their contents: the title text and the content HTML string. Class names and element creation are left out.
- The `tag` capture is passed to `createMdcElement` and never read there (main.ts:57). The model does the same.
- `props` is a plain object, so `__proto__` as a key goes to the prototype setter and is ignored. The model does this. Other `Object.prototype` names (`constructor`, `toString`) become ordinary own keys in the model, which matches assignment. The model does not read `props.title` through the prototype chain: a header without `title` gives no title.
- Strings are sequences of characters, not UTF-16 code units. Every separator, delimiter and white-space character involved lies in the Basic Multilingual Plane. Surrogate pairs in user text are not modelled separately.
- An unterminated front-matter header still fills `props` from every line after the opening `---` (`MdcElement.HeaderUnclosed`, `MdcElement.BodyWithoutHeader`); the body is then the whole trimmed source.
- A block can match entirely inside the start paragraph, with no closing sibling (`Locator.OneParagraphBlock`).

## Findings

| source | as written | input that shows it | evidently intended | confidence | as-written member | corrected member |
|---|---|---|---|---|---|---|
| main.ts:31-51 | The scan stops only at a later sibling containing `::`, and the walk removes siblings until it has one per line of the block text. When the whole block sits in the start paragraph, neither stops at the block's end: later paragraphs are removed with it. | sibling paragraphs `::note\nbody\n::` and `after`: the block text `::note\nbody\n::\nafter` matches within the first paragraph, has four lines, and both paragraphs are removed | remove only the siblings that hold the matched block, so `after` stays after the container | high; not executed | Locator.AfterSiblingRemoved | Locator.AfterSiblingKept |
