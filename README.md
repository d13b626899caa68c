# Text transforms of the StarC documentation build

`docs/build-docs.js` builds one static page from one Markdown document.
It fetches the document, cleans it and converts it to HTML. It then wraps
the marked code blocks in collapsible widgets, rewrites image sources and
builds a table of contents. Last, it pours the page into a template. This
project models the text transforms of that pipeline and proves what they
do:

- `cleanMarkdown` (module `Cleaner`): seven regular-expression replaces
  that delete the frontmatter, the style block, the layout widget, the
  article opening, the header block and the `---` dividers around part
  headers.
- `processCollapsibleCodeBlocks` (module `Collapsible`): the global,
  case-insensitive replace that puts each `<!-- COLLAPSIBLE -->` code
  block into the widget markup.
- `fixImageUrls` (module `Images`): the part-header logo rule and the
  image-host rule.
- `generateTOC` (modules `Toc` and `Slug`): the `exec` loop, the id made
  from a heading's text, the id written back into the page, and the
  `<li>` list. It is an imperative method proved against a specification
  function.
- The template step of `build` (module `Assembler`): two string
  replaces.

Three shared modules support them:

- `Text`: characters, first occurrence, JavaScript's `String.replace`
  with a string pattern, including its `$` replacement patterns.
- `Scanner`: a regular expression without the `g` flag replaces its
  leftmost match; with it, every match left to right.
- `Regex`: a backtracking engine for the regex fragment the collapsible
  and image patterns use. It has literals, classes, greedy and lazy runs,
  and the `i` flag. It returns the end of each element, which gives the
  capture groups.

A regular expression is a matcher. It is tried at the start of a suffix
of the text, and it returns the match length and the text that replaces
the match.

Facts about the code that the model states and proves:

- `cleanMarkdown` is not idempotent: `------\n------\n` loses one empty
  frontmatter block per run (`Cleaner.CleanNotIdempotent`).
- The lazy body of the collapsible pattern runs to the first
  `</code></pre>` that the closing marker follows, not to the first
  `</code></pre>` (`Collapsible.FirstClosingTag`). An earlier code block
  without a closing marker is swallowed into the match.
- `generateTOC` as written does not stop on the page `<h1>x$&</h1>`,
  because the id is written back with a `replace` whose replacement
  text expands `$` patterns (Findings). The modules `Toc` and `TocOrder`
  state their properties about the literal write-back, the evidently
  intended one; `Toc.InjectAsWritten` is the code's version, and the two
  agree on every page without `$` (`Toc.AsWrittenAgreesWithoutDollar`).
- The template step replaces the first `<!-- TOC -->` of the page after
  the content is in. A `<!-- TOC -->` inside the content therefore takes
  the list in place of the template's token. `Assembler.AssembleSlots`
  states the result under the condition that excludes this, and with the
  content and the list inserted literally, which is what the code does
  when neither holds `$` (`Assembler.AssembleWithoutDollar`).

## Model

| member | source | states |
|---|---|---|
| Text.LowerChar | docs/build-docs.js:83 | the lower-cased character is never an upper-case letter, and characters other than upper-case letters are kept |
| Text.LowerCharClasses | docs/build-docs.js:83-85 | lower-casing keeps a character inside or outside `\w` and inside or outside `\s` |
| Text.ToLower | docs/build-docs.js:83 | `toLowerCase` keeps the length and lower-cases each character in place |
| Text.Span | docs/build-docs.js:32 | a greedy `\s*` runs over the longest prefix of white space: every character in it qualifies, and the next one does not |
| Text.FindChar | docs/build-docs.js:81 | `[^c]*c` stops at the first `c` at or after the start, and fails only when there is none |
| Text.LastFindChar | docs/build-docs.js:32 | the last line feed of a run is found, and none comes after it |
| Text.IndexOf | docs/build-docs.js:92 | a string pattern is found at its first occurrence at or after the start, and is missing only if it occurs nowhere |
| Text.SubstitutionWithoutDollar | docs/build-docs.js:92 | a replacement text without `$` is inserted as it is |
| Text.SubstitutionPrefix | docs/build-docs.js:91-92 | the `$`-free head of a replacement is inserted literally before what follows is expanded |
| Text.SubstitutionMatched | docs/build-docs.js:92 | `$&` in a replacement stands for the matched text |
| Text.ReplaceStringJsAt | docs/build-docs.js:92 | a replace with a string pattern keeps the text around the pattern's first occurrence and puts the expanded replacement in its place |
| Text.ReplaceStringJsLiteral | docs/build-docs.js:130-131 | without `$` in the replacement, the replace inserts it literally |
| Text.SubsequenceLength | docs/build-docs.js:17-36 | a text obtained by deleting characters is no longer than the original |
| Text.SubsequenceTrans | docs/build-docs.js:17-36 | deleting characters twice is deleting characters, so rules in a row delete characters |
| Text.DeletionIsSubsequence | docs/build-docs.js:21 | cutting one region out of a text only deletes characters |
| Scanner.LeftmostSpec | docs/build-docs.js:74 | the search finds the first position at or after the start where the pattern matches, and finds none only when no position there matches |
| Scanner.LeftmostInRange | docs/build-docs.js:74 | a position the search returns lies at or after the start, inside the text, and the pattern matches there |
| Scanner.LeftmostSkips | docs/build-docs.js:74 | starting the search earlier, over positions where the pattern fails, finds the same thing |
| Scanner.LeftmostOnSameSuffix | docs/build-docs.js:74 | two texts that end alike are searched alike from where their common end starts: both find nothing, or both find the same place of the common end |
| Scanner.ReplaceFirstAt | docs/build-docs.js:24 | a replace without `g` changes only the leftmost match and keeps the text before and after it |
| Scanner.ReplaceFirstNoMatch | docs/build-docs.js:28 | a replace without `g` and without a match changes nothing |
| Scanner.ReplaceAllNoMatch | docs/build-docs.js:42 | a global replace without a match changes nothing |
| Scanner.ReplaceAllSkip | docs/build-docs.js:42 | a global replace copies the text before its first match unchanged |
| Scanner.ReplaceAllUnmatched | docs/build-docs.js:42 | a position where the pattern fails is copied, and the scan goes on from the next one |
| Scanner.ReplaceAllAtFirstMatch | docs/build-docs.js:42 | a global replace keeps the text before the first match, puts the replacement in place of the match, and resumes after the match |
| Scanner.ReplaceAllAtMatch | docs/build-docs.js:63 | the same decomposition, stated for a match whose length and replacement are given |
| Scanner.ReplaceAllMatchHere | docs/build-docs.js:32 | a match at the front is replaced and the scan resumes right after it |
| Scanner.ReplaceAllDeletes | docs/build-docs.js:32-33 | a global replace whose replacements keep only part of each match only deletes characters |
| Scanner.ReplaceFirstDeletes | docs/build-docs.js:24-29 | the same for a replace of the first match only |
| Scanner.SplicePreservesSubsequence | docs/build-docs.js:32 | putting part of a region back in place of the region only deletes characters |
| Scanner.ReplaceAllNotLonger | docs/build-docs.js:84-87 | a global replace whose replacements are never longer than their matches never lengthens the text |
| Scanner.ReplaceAllKeeps | docs/build-docs.js:85-87 | when every replacement and every unmatched character has a property, every character of the result has it |
| Regex.ClassRun | docs/build-docs.js:40 | the run of a class from a position ends inside the text and no earlier than the start |
| Regex.ClassRunSpec | docs/build-docs.js:63 | the run is made of characters of the class, and no run from the same start is longer |
| Regex.TryDownSpec | docs/build-docs.js:63 | a greedy repetition ends at the longest run after which the rest of the pattern matches, and fails only when it matches after none |
| Regex.TryUpSpec | docs/build-docs.js:40 | a lazy repetition ends at the shortest run after which the rest of the pattern matches, and fails only when it matches after none |
| Regex.MatchesCons | docs/build-docs.js:40 | a match of a pattern is a match of its first element followed by a match of the rest |
| Regex.RunSound | docs/build-docs.js:40 | what the engine returns is a match of the pattern: each element matches the text between its start and its end |
| Regex.MatchesAppend | docs/build-docs.js:40 | a match of two patterns in a row splits into a match of each, and two such matches join into one |
| Regex.RunComplete | docs/build-docs.js:40 | the engine fails only where the pattern has no match at all |
| Regex.RunHead | docs/build-docs.js:40 | the engine's match is its first element's end followed by the engine's match of the rest from there |
| Regex.RunSuffix | docs/build-docs.js:40 | from any element on, the match found is the engine's match of the remaining elements |
| Regex.RunLength | docs/build-docs.js:40 | a match records one end per element |
| Regex.LazyShortest | docs/build-docs.js:40 | a lazy element takes the shortest run: from no earlier end does the rest of the pattern match |
| Regex.GreedyLongest | docs/build-docs.js:63 | a greedy element takes the longest run: after no longer run of its class does the rest of the pattern match |
| Regex.MatchesOrdered | docs/build-docs.js:40 | the ends of a match grow from the start of the match to the end of the text |
| Regex.InClassFold | docs/build-docs.js:40 | with the `i` flag, class membership does not depend on ASCII case |
| Regex.ClassRunFold | docs/build-docs.js:40 | with the `i` flag, runs end at the same place in texts that differ only in case |
| Regex.LitAtFold | docs/build-docs.js:40 | with the `i` flag, a literal occurs in one text exactly where it occurs in a text that differs only in case |
| Regex.RunFold | docs/build-docs.js:40 | with the `i` flag, the engine matches two texts that differ only in case at the same positions |
| Regex.TryDownFold | docs/build-docs.js:40 | with the `i` flag, a greedy repetition stops at the same place in texts that differ only in case |
| Regex.TryUpFold | docs/build-docs.js:40 | with the `i` flag, a lazy repetition stops at the same place in texts that differ only in case |
| Cleaner.FrontmatterRemovedExactly | docs/build-docs.js:21 | a text that starts with `---` loses everything through the first `---\n` after those three characters, and nothing more |
| Cleaner.FrontmatterKeptOtherwise | docs/build-docs.js:21 | a text that does not start with `---`, or has no `---\n` after it, is kept whole |
| Cleaner.DelimitedAtSpec | docs/build-docs.js:24 | a lazy block is found exactly when the opening literal is followed by the closing one, and it ends at the first closing literal |
| Cleaner.LiteralAt | docs/build-docs.js:28 | a literal rule matches exactly where the text starts with the literal, and deletes it |
| Cleaner.DividerBeforeSound | docs/build-docs.js:32 | a divider match is `---`, white space through a line feed, white space and the part header; the kept group is the text after the run's last line feed |
| Cleaner.DividerBeforeComplete | docs/build-docs.js:32 | every match of the divider-before pattern is found, with its full length |
| Cleaner.DividerAfterSpec | docs/build-docs.js:33 | the divider-after rule matches exactly `</div>`, white space ending in a line feed, then `---`, and otherwise not at all |
| Cleaner.DeletingRule | docs/build-docs.js:21-29 | a rule whose matches are nonempty and replaced by nothing consumes characters and only deletes |
| Cleaner.NoTagNoMatch | docs/build-docs.js:24-33 | a rule that needs a `<` matches nowhere in a text without one |
| Cleaner.FirstRuleStep | docs/build-docs.js:24-29 | a deleting rule without `g` only deletes characters, and leaves text without `<` alone |
| Cleaner.AllRuleStep | docs/build-docs.js:32-33 | the same for a deleting rule with `g` |
| Cleaner.DelimitedRule | docs/build-docs.js:24 | a block rule whose opening starts with `<` deletes a nonempty block and never matches text without `<` |
| Cleaner.StyleRule | docs/build-docs.js:24 | the style rule consumes, only deletes, and needs a `<` |
| Cleaner.LayoutRule | docs/build-docs.js:27 | the layout rule consumes, only deletes, and needs a `<` |
| Cleaner.ArticleRule | docs/build-docs.js:28 | the article rule consumes, only deletes, and needs a `<` |
| Cleaner.HeaderRule | docs/build-docs.js:29 | the header rule consumes, only deletes, and needs a `<` |
| Cleaner.DividerBeforeRule | docs/build-docs.js:32 | the divider-before rule consumes, only deletes, and needs a `<` |
| Cleaner.DividerBeforeDeletes | docs/build-docs.js:32 | the divider-before replacement keeps part of the match |
| Cleaner.DividerBeforeNeedsTag | docs/build-docs.js:32 | without a `<` the divider-before rule does not match |
| Cleaner.DividerAfterRule | docs/build-docs.js:33 | the divider-after rule consumes, keeps only `</div>`, and needs a `<` |
| Cleaner.StripStyle | docs/build-docs.js:24 | removing the style block only deletes characters, and leaves text without `<` alone |
| Cleaner.StripLayout | docs/build-docs.js:27 | removing the layout widget only deletes characters, and leaves text without `<` alone |
| Cleaner.StripArticle | docs/build-docs.js:28 | removing the article line only deletes characters, and leaves text without `<` alone |
| Cleaner.StripHeader | docs/build-docs.js:29 | removing the header block only deletes characters, and leaves text without `<` alone |
| Cleaner.DropDividersBefore | docs/build-docs.js:32 | dropping dividers before part headers only deletes characters, and leaves text without `<` alone |
| Cleaner.DropDividersAfter | docs/build-docs.js:33 | dropping dividers after `</div>` only deletes characters, and leaves text without `<` alone |
| Cleaner.FrontmatterDeletes | docs/build-docs.js:21 | the frontmatter rule only deletes characters and brings in no `<` |
| Cleaner.CleanDeletes | docs/build-docs.js:17-36 | `cleanMarkdown` only deletes characters, so its result is never longer than its input |
| Cleaner.CleanWithoutTags | docs/build-docs.js:17-36 | text without `<` loses only its frontmatter; without frontmatter too, it comes back unchanged |
| Cleaner.CleanNotIdempotent | docs/build-docs.js:21 | cleaning `------\n------\n` gives `------\n`, and cleaning that again gives the empty text |
| Cleaner.EmptyFrontmatter | docs/build-docs.js:21 | `------\n` at the head of a text is an empty frontmatter block, and only it is removed |
| Cleaner.StyleRuleRemovesOneBlock | docs/build-docs.js:24 | the style rule removes the leftmost style block only, and keeps the text around it, later blocks included |
| Cleaner.DelimitedUnique | docs/build-docs.js:24 | a lazy block has at most one length from a given start |
| Collapsible.MatchShape | docs/build-docs.js:40 | a match has one end per element, its opening `<!--` is four characters, and the group lies inside the match |
| Collapsible.CollapsibleConsumes | docs/build-docs.js:40 | every match is nonempty and lies inside the text |
| Collapsible.MatchParts | docs/build-docs.js:40 | a match is an opening marker, then a `<pre><code…>…</code></pre>` block, which is the captured group, then a closing marker |
| Collapsible.FirstClosingTag | docs/build-docs.js:40 | the code body stops at the first `</code></pre>` that the closing marker follows |
| Collapsible.MarkersIgnoreCase | docs/build-docs.js:40 | texts that differ only in ASCII case are matched at the same positions |
| Collapsible.ProcessAtFirstBlock | docs/build-docs.js:42-54 | the text before the first match is kept, the match becomes the widget holding the captured block unchanged, and the rest is processed after the closing marker |
| Collapsible.ProcessAtMatch | docs/build-docs.js:42 | the global replace splits at its first match into the kept text, the widget and the processed rest |
| Collapsible.CollapsibleAtSuffix | docs/build-docs.js:43-53 | the widget for a match inside a longer text holds that text's code block |
| Collapsible.LowerCharOther | docs/build-docs.js:40 | under the `i` flag a character other than a letter matches only itself |
| Collapsible.MatchOpensAt | docs/build-docs.js:40 | a match starts with `<!--` exactly as written |
| Collapsible.NoMarkerUnchanged | docs/build-docs.js:39-55 | a page without `<!--` comes back unchanged |
| Images.LogoShape | docs/build-docs.js:60 | a logo match starts with the part header, the image's `src="` comes after it, and the source is not empty |
| Images.LogoConsumes | docs/build-docs.js:60 | every logo match is nonempty and lies inside the text |
| Images.LogoReplacesSource | docs/build-docs.js:60 | the match runs from the part header to the closing quote of the image's source, the source holds no quote, and only the source is replaced by `/img/logo2.svg` |
| Images.LogoFirstImage | docs/build-docs.js:60 | the lazy part stops at the first image tag with a quoted source after the part header |
| Images.HostShape | docs/build-docs.js:63 | a host match is `<img`, the attributes, and `src="/images/` |
| Images.HostConsumes | docs/build-docs.js:63 | every host match is nonempty and lies inside the text |
| Images.HostInserted | docs/build-docs.js:63 | a host match is an image tag up to `src="/images/` with no `>` in between, and the replacement is that text with the host put before `/images/` |
| Images.HostLastSource | docs/build-docs.js:63 | the greedy attributes run to the last `src="/images/` before the tag's `>` |
| Images.FixLogosAtFirstMatch | docs/build-docs.js:60 | the first logo match keeps everything up to `src="`, gets the local logo and the closing quote, and the rest is processed after it |
| Images.FixLogosAtMatch | docs/build-docs.js:60 | the logo replace splits at its first match into the kept text, the replacement and the processed rest |
| Images.FixHostsAtFirstMatch | docs/build-docs.js:63 | at the first host match the host goes in before `/images/`, nothing else in the match changes, and the rest is processed after it |
| Images.HostAtSuffix | docs/build-docs.js:63 | the replacement for a host match inside a longer text is built from that text's characters |
| Images.FixHostsAtMatch | docs/build-docs.js:63 | the host replace splits at its first match into the kept text, the replacement and the processed rest |
| Images.MatchesNeedImage | docs/build-docs.js:60-63 | both image rules need an `<img` where they match |
| Images.NoImageUnchanged | docs/build-docs.js:58-66 | a page without `<img` comes back unchanged from `fixImageUrls` |
| Slug.TagAt | docs/build-docs.js:84 | `<[^>]+>` matches a `<`, at least one other character and the first `>`, and deletes them; it fails on a `<` followed by another character only when no `>` comes later |
| Slug.NonIdCharAt | docs/build-docs.js:85 | `[^\w\s-]` matches exactly one character outside word characters, white space and `-`, and deletes it |
| Slug.SpaceRunAt | docs/build-docs.js:86 | `\s+` matches exactly where white space starts, takes the whole run and gives `-` |
| Slug.HyphenRunAt | docs/build-docs.js:87 | `--+` matches exactly where two hyphens start, takes the whole run and gives `-` |
| Slug.MatchersConsume | docs/build-docs.js:84-87 | each of the four identifier patterns matches nonempty text inside the text |
| Slug.StripTags | docs/build-docs.js:84 | removing tags only deletes characters |
| Slug.StripTagsLeavesNoTag | docs/build-docs.js:84 | after tags are removed no tag is left: a surviving `<` cannot start a new one |
| Slug.SurvivingOpen | docs/build-docs.js:84 | a `<` that starts no tag still starts none once the text after it has its tags removed |
| Slug.Slug | docs/build-docs.js:82-87 | a made id uses only `[a-z0-9_-]`, has no two hyphens in a row, and is no longer than the heading text |
| Slug.SlugStages | docs/build-docs.js:83-87 | what each stage of the chain leaves: lower case, then identifier characters only, then no white space, then no double hyphen |
| Slug.KeptChars | docs/build-docs.js:85 | dropping non-identifier characters from lower-case text leaves lower-case identifier characters |
| Slug.DashedChars | docs/build-docs.js:86 | replacing white-space runs by `-` leaves only lower-case word characters and hyphens |
| Slug.CollapsedChars | docs/build-docs.js:87 | collapsing hyphen runs leaves only id characters |
| Slug.SubsequenceChars | docs/build-docs.js:84 | deleting characters brings in no new character |
| Slug.CollapsedHasNoDoubleHyphen | docs/build-docs.js:87 | after `--+` is replaced everywhere, no two hyphens are adjacent |
| Slug.StripTagsWithoutTag | docs/build-docs.js:84 | text without `<` has no tag to strip |
| Slug.KeepIdCharsWithIdChars | docs/build-docs.js:85 | text of identifier characters only is kept whole |
| Slug.DashSpacesWithoutSpace | docs/build-docs.js:86 | text without white space is kept whole |
| Slug.CollapseWithoutDoubleHyphen | docs/build-docs.js:87 | text without a double hyphen is kept whole |
| Slug.SlugFixedPoint | docs/build-docs.js:82-87 | the chain gives back its input exactly when the input is already an identifier |
| Slug.SlugIdempotent | docs/build-docs.js:82-87 | making an id from an id gives the same id |
| Slug.DashTwoWords | docs/build-docs.js:86 | two words separated by one space are joined by one hyphen |
| Slug.SlugTwoWords | docs/build-docs.js:82-87 | a heading of two id words separated by a space gets the id of the two words joined by `-` |
| Slug.SlugHelloWorld | docs/build-docs.js:82-87 | the heading `Hello World` gets the id `hello-world` |
| Slug.SlugDropsPunctuation | docs/build-docs.js:85 | the heading `x$&` gets the id `x` |
| Toc.TextEnd | docs/build-docs.js:70 | `(.*?)<\/h\1>` stops at the first closing tag of the heading's level, with no line terminator before it |
| Toc.TextEndFinds | docs/build-docs.js:70 | the lazy text ends at the first such closing tag, whichever it is |
| Toc.HeadingAtSound | docs/build-docs.js:70 | what is read at a position is a heading: `<h`, a level of 1 to 3, attributes without `>`, a one-line text and the matching closing tag |
| Toc.HeadingAtComplete | docs/build-docs.js:70 | every heading the pattern matches at a position is read there, with the same groups |
| Toc.FindHeadingSpec | docs/build-docs.js:74 | `exec` returns the leftmost heading at or after the cursor, with its groups, and `null` only when none starts there or later |
| Toc.Markup | docs/build-docs.js:91 | the markup of a heading is nine characters longer than its attributes and text |
| Toc.MarkupMatches | docs/build-docs.js:70 | markup built from valid groups is read back with the same groups, whatever follows it |
| Toc.MatchIsMarkup | docs/build-docs.js:70 | the text the pattern matched is the markup built from its groups, and no closing tag starts inside its text |
| Toc.IdAt | docs/build-docs.js:81 | `id="([^"]+)"` read at a position is an `id` attribute with a nonempty value without `"` |
| Toc.IdAtComplete | docs/build-docs.js:81 | every such attribute is found, with its whole value |
| Toc.ExistingIdSpec | docs/build-docs.js:81 | the id found is the value of the leftmost `id` attribute, and none is found only when there is none |
| Toc.SlugAvoids | docs/build-docs.js:82-91 | a made id holds no `"`, `>` or `$` |
| Toc.NotInMarkup | docs/build-docs.js:70 | a character outside the tag syntax is in the markup only if the attributes or text hold it |
| Toc.InjectLength | docs/build-docs.js:90-93 | writing an id back lengthens the page by at most six more than the heading text |
| Toc.ScanStep | docs/build-docs.js:74-96 | one turn pushes the entry of the heading found and continues on the updated page from the end of the match, and the text left to scan shrinks |
| Toc.GenerateToc | docs/build-docs.js:69-105 | the loop returns the page and the list the scan specifies, with one `<li>` line per heading |
| Toc.HandleHeading | docs/build-docs.js:75-95 | one turn gives the page with the id written back when the heading had none, and the entry with the id and the tag-free text |
| Toc.BuildTocHtml | docs/build-docs.js:99-102 | the `forEach` gives one line per heading, in order |
| Toc.LinesSnoc | docs/build-docs.js:101 | appending one heading appends its line |
| Toc.LinesAppend | docs/build-docs.js:99-102 | joining lines distributes over concatenating lists of headings |
| Toc.LinesFromEitherEnd | docs/build-docs.js:99-102 | joining the lines from the end, as the `forEach` does, equals joining them from the front |
| Toc.TocListLines | docs/build-docs.js:99-102 | the list is empty for no headings and is the first heading's line followed by the others' lines |
| Toc.EntryWellFormed | docs/build-docs.js:95 | every entry has a level of 1 to 3, an id that cannot close `href`, and a one-line text without tags |
| Toc.ScanEntriesWellFormed | docs/build-docs.js:74-96 | every entry the loop pushes is well formed |
| Toc.EntriesCons | docs/build-docs.js:95 | the entries of a list of matches start with the first match's entry |
| Toc.ScanWithIds | docs/build-docs.js:74-96 | when every heading has an `id`, the page comes back unchanged with one entry per heading in document order |
| Toc.ScanWithIdsKeepsIds | docs/build-docs.js:81-82 | then each entry's id is the value of its heading's `id` attribute |
| Toc.InjectShape | docs/build-docs.js:92 | a heading without an id is replaced at the first occurrence of its markup, which is no later than the heading itself |
| Toc.InjectAtScannedHeading | docs/build-docs.js:92 | when no copy of the markup comes earlier, the heading found receives the id and the rest of the page is kept |
| Toc.InjectMissesScannedHeading | docs/build-docs.js:92 | when a copy of the heading's markup comes earlier in the page, that copy receives the id and the heading found keeps its markup, shifted right |
| Toc.SplicedCopy | docs/build-docs.js:92 | a later copy of the pattern survives a replacement before it, shifted by the length difference |
| Toc.NoCloseInAttributes | docs/build-docs.js:91 | the new attribute list holds no `>` |
| Toc.NewHeadingReparses | docs/build-docs.js:91 | the markup written back is read again with the same level and text and ` id="…"` before the original attributes |
| Toc.MatchGroups | docs/build-docs.js:70 | the groups of every match have a level, attributes without `>`, and a one-line text holding no closing tag |
| Toc.InjectedIdIsFound | docs/build-docs.js:81-91 | the injected attribute is the one `attrs.match(/id="([^"]+)"/)` finds first |
| Toc.InjectedHeadingKeepsEntry | docs/build-docs.js:90-95 | a heading that received a nonempty id gives the same entry when scanned again |
| Toc.InjectAsWrittenWithoutDollar | docs/build-docs.js:92 | without `$` in the heading, the code as written and the literal replacement agree |
| Toc.AsWrittenAgreesWithoutDollar | docs/build-docs.js:74-96 | on a page without `$`, the loop as written takes one turn per entry of the scan, reaches the scan's page, pushes exactly the scan's entries in the scan's order, and then stops |
| Toc.NoDollarInGroups | docs/build-docs.js:70 | the groups of a match hold no `$` when the page holds none |
| Toc.NoDollarAfterInject | docs/build-docs.js:90-92 | writing an id back into a page without `$` brings in no `$` |
| Toc.LoopingFirstAt | docs/build-docs.js:92 | on the page after `k` turns, `<h1>x$&</h1>` first occurs right after the `k` opened headings |
| Toc.LoopingFound | docs/build-docs.js:74 | `exec` from the cursor finds that copy again |
| Toc.LoopingParsed | docs/build-docs.js:70 | `<h1>x$&</h1>` is a level-1 heading without attributes and with the text `x$&` |
| Toc.FoundAtCursor | docs/build-docs.js:74 | a heading that starts at the cursor is the one `exec` finds |
| Toc.LoopingInject | docs/build-docs.js:92 | writing the id back as the code does turns the page after `k` turns into the page after `k + 1` turns |
| Toc.LoopingCopied | docs/build-docs.js:92 | wherever `<h1>x$&</h1>` first occurs, the replace as written puts it back inside the new heading |
| Toc.AsWrittenReplaces | docs/build-docs.js:92 | for a heading without an id, the step as written is JavaScript's replace of the markup by the new heading |
| Toc.LoopingSubstitution | docs/build-docs.js:92 | `$&` in the new markup expands to the heading just matched |
| Toc.LoopingStep | docs/build-docs.js:74-93 | each turn on that page re-inserts the copy at the cursor and moves the cursor past the new opened heading only |
| Toc.AsWrittenNeverStops | docs/build-docs.js:74-93 | on the page `<h1>x$&</h1>` the loop as written finds a heading after any number of turns |
| Toc.RunAlongSteps | docs/build-docs.js:74 | if each state steps to the next, `n` turns from state `k` reach state `k + n` |
| Toc.ScanStopsOnLooping | docs/build-docs.js:69-105 | with the literal replacement, the page `<h1>x$&</h1>` gives `<h1 id="x">x$&</h1>` and one entry with id `x` and text `x$&` |
| Toc.LoopingInjectLiteral | docs/build-docs.js:92 | the literal replacement on that page writes the id in once |
| Toc.LoopingParts | docs/build-docs.js:81-91 | for that heading there is no id attribute, the made id is `x`, and the new markup is `<h1 id="x">x$&</h1>` |
| Toc.LoopingEntry | docs/build-docs.js:95 | that heading's entry has level 1, id `x` and text `x$&` |
| Toc.NoHeadingAfterCursor | docs/build-docs.js:74 | once the id is in, `exec` finds no further heading and the loop ends |
| TocOrder.HeadingsInOrder | docs/build-docs.js:74-96 | when no heading opens a heading tag in its attributes or text and every heading without an id gets a nonempty id, the list has one entry per heading of the original page, in document order, although the page grows under the scan; repeated headings are included |
| TocOrder.AsWrittenInOrder | docs/build-docs.js:74-96 | on such a page without `$`, the loop as written pushes one entry per heading of the page, in document order, and stops after the last one |
| TocOrder.ScanFollowsPage | docs/build-docs.js:74-96 | a scan whose page reads as the original from some place on, with no heading in the gap, pushes the entries of the original's headings from there, in order |
| TocOrder.TurnScan | docs/build-docs.js:74-95 | one turn of such a scan pushes the entry of the original's next heading and goes on from the end of that heading in the updated page |
| TocOrder.TurnNext | docs/build-docs.js:74-93 | after one turn the updated page still reads as the original past that heading, with no heading in the gap |
| TocOrder.TurnHolds | docs/build-docs.js:74-81 | the heading `exec` finds is the original's next heading, moved by the growth so far, and meets the conditions the rewrite needs |
| TocOrder.MatchFirst | docs/build-docs.js:74 | `exec` on the updated page finds the original's next heading, moved by the growth so far, and the pages read alike after it |
| TocOrder.FindShifted | docs/build-docs.js:74 | the search of the updated page finds a heading exactly when the search of the original does, at the place moved by the growth |
| TocOrder.FindSame | docs/build-docs.js:70-74 | where two pages read alike, `exec` finds the same heading at places the growth apart |
| TocOrder.NextFollows | docs/build-docs.js:81-93 | a heading with an id leaves the page as it is, and one without an id is rewritten in place, after which the page again reads as the original past it |
| TocOrder.RewriteStep | docs/build-docs.js:88-93 | rewriting a heading without an id keeps the page reading as the original past it, and no heading ahead without an id has a copy before the new markup ends |
| TocOrder.RewriteShape | docs/build-docs.js:91-92 | the rewritten page is the new markup at the heading's place followed by the original's tail, and no heading starts in what the rewrite added |
| TocOrder.InjectHere | docs/build-docs.js:92 | when no copy of the markup comes before the heading the scan found, that heading is the one rewritten |
| TocOrder.AheadAfterRewrite | docs/build-docs.js:92 | after a rewrite, no heading still ahead without an id has a copy of its markup before the end of the new markup |
| TocOrder.NoNewCopy | docs/build-docs.js:92 | a rewrite at a place before which a markup had no copy makes no copy of it before the end of the new markup: a copy overlapping the rewrite would open a heading tag inside one of the two |
| TocOrder.RewrittenIsNoOtherHeading | docs/build-docs.js:81-92 | where a heading was rewritten, no heading without an id starts, because the rewritten attributes begin with the new id |
| TocOrder.KeepHolds | docs/build-docs.js:81-82 | a heading with an id is kept, and no heading ahead without an id has a copy of its markup before the kept heading ends |
| TocOrder.KeepStep | docs/build-docs.js:81-82 | the same, from the kept markup at its place and the headings ahead |
| TocOrder.KeptHeadingNoCopy | docs/build-docs.js:81-92 | a markup with other attributes has no copy at the place of a heading's markup nor inside it |
| TocOrder.ExtendCopies | docs/build-docs.js:74-92 | a heading ahead without a copy before the rewritten part has none before the next heading `exec` finds either |
| TocOrder.NoCopyBefore | docs/build-docs.js:74-92 | where the page reads as the original, no copy of a heading's markup starts before the next heading the original has there |
| TocOrder.CopyIsHeading | docs/build-docs.js:70 | a copy of a match's markup, in any page, is a place where the pattern reads a heading |
| Assembler.AssembleWithoutDollar | docs/build-docs.js:129-131 | when neither the HTML nor the list holds `$`, the replaces as written insert both literally |
| Assembler.AssembleSlots | docs/build-docs.js:129-131 | when each token is first found at its own place, the page is the template with the HTML in the content token's place and the list in the TOC token's place |
| Assembler.TwoSlots | docs/build-docs.js:129-131 | two first-occurrence replaces in a row fill two slots of a text |
| Assembler.MissingContentToken | docs/build-docs.js:130 | a template without the content token drops the HTML and is left unchanged by that replace |
| Assembler.MissingTocToken | docs/build-docs.js:131 | a page without the TOC token drops the list and is left unchanged by that replace, as written and literally |
| Assembler.AsWrittenExpandsDollar | docs/build-docs.js:130 | as written, the HTML `$&` on the template `<!-- CONTENT -->` gives the token back; the literal replacement gives `$&` |
| Assembler.WholeMatch | docs/build-docs.js:130 | on a text that is exactly the pattern, `$&` gives the pattern back and a literal replace gives the replacement |
| Assembler.NoTocInContent | docs/build-docs.js:131 | the content token does not contain the TOC token |

## Left out

- `fetchMarkdown`, the HTTPS request and its error handling: network I/O. The fetched document is the input of `Cleaner.Clean`.
- `marked.parse`: a foreign library. The HTML is the input of `Collapsible.Process`.
- Reading the template, writing `docs/index.html`, the console messages and the error exit of `build`: file and console I/O. The template is a parameter of `Assembler.Assemble`.
- The async sequencing of `build`: the transforms are composed as pure functions, and nothing runs concurrently.
- Text.LowerChar: lower-cases ASCII letters only. JavaScript's `toLowerCase` also maps other Unicode letters, so made ids of non-ASCII headings are not modelled. The `i` flag without `u` folds case the same way on ASCII; its folding of other letters is not modelled either.
- The regex engine covers only the fragment the collapsible and image patterns use (literals, one class character, greedy and lazy class runs). The cleaner, slug and heading patterns are modelled by hand-written matchers, each proved against a declarative statement of its pattern.
- Strings are sequences of characters. UTF-16 surrogate pairs are not told apart from other code units, as in JavaScript's non-`u` patterns.
- Toc.GenerateToc: models the literal write-back of the id, the corrected behaviour of the first Finding. The code's write-back is `Toc.InjectAsWritten`; the two agree on a heading without `$` (`Toc.InjectAsWrittenWithoutDollar`) and over a whole page without `$`, page and pushed entries both (`Toc.AsWrittenAgreesWithoutDollar`, `TocOrder.AsWrittenInOrder`).
- Toc.GenerateToc: one entry per heading in document order is proved only under the conditions of `TocOrder.HeadingsInOrder`, given on the next line.
- TocOrder.HeadingsInOrder: requires that no heading opens `<h` or `<H` in its attributes or text, and that each heading without an id gets a nonempty id. Without the first, the cursor, which is not moved past a written-in id, can land inside a rewritten heading's text, and `exec` then lists a heading nested there that a scan of the unchanged page skips. The second keeps a rewritten heading, whose ` id=""` the id pattern does not read as an id, from matching the markup of a later heading; pages that break it are outside the proof, though the code may still list them in order. Repeated headings are covered: by the time the scan reaches a later copy, an earlier identical heading without an id has been rewritten, and one with an id is left unchanged and needs no write-back.
- Toc.HandleHeading: models the literal write-back; the code's version is `Toc.InjectAsWritten`, which agrees without `$` (`Toc.InjectAsWrittenWithoutDollar`, `Toc.AsWrittenAgreesWithoutDollar`).
- Toc.ScanStep: states the turn with the literal write-back; with the code's `$` expansion the turn is `Toc.InjectAsWritten`, which agrees without `$` (`Toc.InjectAsWrittenWithoutDollar`, `Toc.AsWrittenAgreesWithoutDollar`).
- Toc.InjectShape: states the literal write-back; the code's version is `Toc.InjectAsWritten`, which agrees without `$` (`Toc.InjectAsWrittenWithoutDollar`, `Toc.AsWrittenAgreesWithoutDollar`).
- Toc.InjectAtScannedHeading: states the literal write-back; the code's version is `Toc.InjectAsWritten`, which agrees without `$` (`Toc.InjectAsWrittenWithoutDollar`, `Toc.AsWrittenAgreesWithoutDollar`).
- Toc.InjectMissesScannedHeading: states the literal write-back; the code's version is `Toc.InjectAsWritten`, which agrees without `$` (`Toc.InjectAsWrittenWithoutDollar`, `Toc.AsWrittenAgreesWithoutDollar`).
- Toc.InjectLength: bounds the growth of the literal write-back; the code's `$` expansion can grow the page by more (`Toc.LoopingInject`), and agrees with it without `$` (`Toc.InjectAsWrittenWithoutDollar`).
- Toc.GenerateToc: its contract does not say that each listed id appears on its own heading. The id is written into the first occurrence of the heading's markup. An earlier heading that `exec` found has been rewritten by then, so only a copy that `exec` skipped can take the id, namely one inside another heading's text: `<h1>x <h2>A</h2></h1><h2>A</h2>` gives the nested copy `id="a"` and leaves the real `<h2>` without one (`Toc.InjectMissesScannedHeading` states the step).
- Assembler.AssembleSlots: states the page with the HTML and the list inserted literally, the corrected behaviour of the second Finding; the code's `$` expansion agrees with it when neither holds `$` (`Assembler.AssembleWithoutDollar`). It also states the page only when the HTML holds no `<!-- TOC -->` before the template's own. Otherwise the list replaces the copy in the HTML, which `Assembler.Assemble` models but no lemma states.

## Findings

| source | as written | input that shows it | evidently intended | confidence | as-written member | corrected member |
|---|---|---|---|---|---|---|
| docs/build-docs.js:92 | `html.replace(match[0], newHeading)` reads `$&`, `` $` `` and `$'` in the heading as replacement patterns; `$&` puts the matched heading back inside the new one, where the next `exec` finds it again | the page `<h1>x$&</h1>`: after every turn the page holds a fresh copy of `<h1>x$&</h1>` at the cursor, so the loop never ends | the heading text is written back literally, the loop ends, and the page becomes `<h1 id="x">x$&</h1>` | high, not executed | Toc.AsWrittenNeverStops | Toc.ScanStopsOnLooping |
| docs/build-docs.js:129-131 | `template.replace('<!-- CONTENT -->', finalHtml)` expands `$` patterns in the page's HTML and in the list | the template `<!-- CONTENT -->` with the HTML `$&` gives `<!-- CONTENT -->` instead of `$&` | the HTML and the list are inserted literally | high, not executed | Assembler.AsWrittenExpandsDollar | Assembler.AssembleSlots |
