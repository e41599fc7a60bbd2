# Doorstep site scripts, modelled in Dafny

This project models three small pieces of the Doorstep static site and
proves what they do.

- **The slider title animator** (`assets/js/tidytouch.js`, lines 5-94). It
  rewrites the HTML of every main-slider title. Each visible character is
  wrapped in a `<span>` whose `animation-delay` grows by 0.05 s per
  character. Each word is wrapped in an inline-block `<span>`, unless the
  word sits inside a `div` written into the title by hand. Tags are copied
  unchanged. A `div` stack decides whether such a manual container is open.
- **The projects carousel's centre rule** (`updateCenterActive`, lines
  97-106 of the same file). It clears every `center-active` mark. Then, when
  an odd number of items greater than one is visible, it marks the middle
  visible item.
- **The sitemap generator** (`generate_sitemap.py`). It walks the
  repository and skips every directory whose path contains `.git` (this
  also covers `.github`, and also any other name with `.git` in it). It
  maps each `.html` file to a URL under the base URL, writes one `<url>`
  block per page into `sitemap.xml`, and writes a `robots.txt` that points
  at the sitemap.

## Modules

- `Markup` (`markup.dfy`) holds the shared vocabulary:
  - the output pieces and their HTML text;
  - JavaScript whitespace, and the `split(/(\s+)/)` rule;
  - the two-decimal delay text;
  - the lexeme view of an input: text characters and complete tags;
  - the tag-name rule, `/^<\/?(\w+)/` lowercased.
- `Animator` (`animator.dfy`) holds the specification and the methods:
  - the specification is `Transform`, a fold of one step per input
    character that lists the pieces the source appends;
  - the methods are `WrapChar`, `WrapWord`, `FlushRun`, `FlushRuns`,
    `FlushBuffer` and `Animate`, which build the output string with loops and are proved equal to the
    rendering of that specification.
- `AnimatorProofs` (`animator_proofs.dfy`) proves the properties of
  `Transform`:
  - removing the added spans gives back the lexemes of the input;
  - on well-formed input, that spells the input back;
  - the tags are copied unchanged;
  - the animated characters are the visible characters, with delays
    0.05 s, 0.10 s, ...;
  - a word wrapper is open exactly where no `div` is.
- `Carousel` (`carousel.dfy`) holds the centre rule. The visible items are
  a sequence of flags.
- `Sitemap` (`sitemap.dfy`) holds the sitemap and robots generators:
  - `GenerateSitemap` is the outer loop of the script and
    `DirectoryBlocks` its inner loop, proved equal to a document built from
    `Pages` and `Blocks`;
  - the URL mapping lemmas cover the root index, subdirectory indexes and
    other pages.
- `AnimatorExamples` and `SitemapExamples` hold worked inputs.

The animator treats a `>` as the end of a tag wherever it appears, even
inside a quoted attribute value. A `<` inside a tag throws away the partial
tag and starts a new one. Both behaviours are kept, and
`AnimatorExamples.ExampleRestartedTag` shows the second. A closing `</div>`
with no open `div` leaves the stack empty, as `Array.prototype.pop` does on
an empty array.

## Model

| member | source | states |
|---|---|---|
| Markup.LeadingRun | assets/js/tidytouch.js:37 | the longest prefix made only of whitespace, or only of non-whitespace; the next character is of the other kind |
| Markup.SplitRuns | assets/js/tidytouch.js:37 | `split(/(\s+)/)` gives runs that alternate word, non-empty whitespace gap, word; the gaps are maximal (every word between two gaps is non-empty, and the first word is non-empty when the buffer starts with a non-whitespace character); joining them gives the buffer back |
| Markup.Decimal | assets/js/tidytouch.js:19 | the decimal text of a number is non-empty, made only of digits, and has no leading zero (it starts with `0` exactly for 0, which is `"0"`) |
| Markup.DecimalRoundTrip | assets/js/tidytouch.js:19 | reading the decimal text back gives the number |
| Markup.SecondsRoundTrip | assets/js/tidytouch.js:19 | `toFixed(2)` of a delay of d hundredths is digits with no leading zero in the integer part, a point and exactly two digits, and reading it back gives d |
| Markup.LowerAll | assets/js/tidytouch.js:58 | `toLowerCase` keeps the length, leaves no upper-case ASCII letter, and changes only upper-case letters, each to its lower-case partner |
| Markup.LowerAllIdempotent | assets/js/tidytouch.js:58 | lowering twice is lowering once, and a name with no upper-case letter, such as `div`, is left alone |
| Markup.LeadingWordChars | assets/js/tidytouch.js:57 | the `\w+` group is the longest prefix of word characters |
| Markup.NonSpaceCountAppend | assets/js/tidytouch.js:18-20 | the number of animated characters adds up over concatenation |
| Markup.NoTextCountsZero | assets/js/tidytouch.js:36 | a buffer that `trim()` empties has no animated character |
| Markup.TrackAllAppend | assets/js/tidytouch.js:60-67 | tracking open divs and wrappers over two stretches of output composes |
| Markup.IsClosing | assets/js/tidytouch.js:56 | definition, no contract: `/^<\//.test(tagBuffer)`; `AnimatorExamples.ExampleDivName` exercises it |
| Markup.TagName | assets/js/tidytouch.js:57-58 | definition, no contract: the lowercased `\w+` group after `<` or `</`, or the empty name; its parts are specified by `Markup.LeadingWordChars` and `Markup.LowerAll` |
| Markup.NextStack | assets/js/tidytouch.js:60-67 | definition, no contract: a `div` opening tag pushes, a `div` closing tag pops (nothing on an empty stack), other tags leave the stack alone; `AnimatorProofs.ManualIffDivOpen` proves what it keeps |
| Markup.Seconds | assets/js/tidytouch.js:19 | definition, no contract: `toFixed(2)` of d hundredths; specified by `Markup.SecondsRoundTrip` |
| Markup.Render | assets/js/tidytouch.js:15-25 | definition, no contract: the HTML text of one appended piece (wrapper opening `<span style="display:inline-block;">`, delay span, copied text, `</span>`); used by `Animator.WordPiecesRender` and the methods' ensures |
| Animator.WrapWord | assets/js/tidytouch.js:14-27 | `wrapWord` returns the rendering of the word's pieces (wrapper unless manual, one delayed span per non-whitespace character, whitespace copied) and advances the delay by 0.05 s per non-whitespace character |
| Animator.WrapChar | assets/js/tidytouch.js:17-23 | one character appends its delay span and moves the counter on by 0.05 s, or is appended as it is and leaves the counter alone, as the character piece renders |
| Animator.WordPiecesRender | assets/js/tidytouch.js:15-25 | the word's text is the inline-block opening tag (unless manual), then the characters, then `</span>` (unless manual) |
| Animator.FlushBuffer | assets/js/tidytouch.js:36-47 | flushing the text buffer appends exactly the rendering of `FlushPieces` and advances the delay by 0.05 s per non-whitespace character |
| Animator.FlushRuns | assets/js/tidytouch.js:37-44 | the loop over the split runs appends wrapped words and copied gaps, and counts the delay over all their characters |
| Animator.FlushRun | assets/js/tidytouch.js:38-43 | one run of the split buffer appends `wrapWord`'s text when it has text and is copied otherwise; the counter moves on by 0.05 s per non-whitespace character |
| Animator.Animate | assets/js/tidytouch.js:6-93 | the title's new HTML is exactly the rendering of `Transform` of its original HTML |
| Animator.Step | assets/js/tidytouch.js:33-76 | definition, no contract: one iteration of the `while` loop, the specification the method `Animate` is proved against; `AnimatorProofs.ScanSimulatesLex` and `AnimatorProofs.WrapRuleScanned` state what it keeps |
| Animator.Transform | assets/js/tidytouch.js:32-91 | definition, no contract: the pieces appended by the loop and the final flush; its properties are `AnimatorProofs.EraseTransform`, `RoundTrip`, `TagsPreserved`, `GlyphsAreVisibleText`, `DelaysIncrease` and `WrappedIffNoDiv` |
| AnimatorProofs.ScanSimulatesLex | assets/js/tidytouch.js:32-78 | the animator's scan state follows a plain HTML lexer: the output pieces, erased, followed by the text buffer are the lexer's completed lexemes; both agree on the open tag; the text buffer is empty while a tag is open |
| AnimatorProofs.EraseTransform | assets/js/tidytouch.js:32-91 | removing the added wrappers and delay spans from the output gives the input's text characters and complete tags, in order |
| AnimatorProofs.LexShape | assets/js/tidytouch.js:35-75 | a tag in progress is the tail of the input from its `<` and holds no `>`; outside a tag nothing is pending |
| AnimatorProofs.NoOpenTagBeforeLt | assets/js/tidytouch.js:35-51 | in a well-formed title, no `<` arrives while a tag is still open |
| AnimatorProofs.OpenTagAtEndIllFormed | assets/js/tidytouch.js:49-53 | a tag still open at the end of the input means some `<` was never closed |
| AnimatorProofs.UnlexPrefix | assets/js/tidytouch.js:32-78 | on well-formed input, the lexemes so far plus the pending buffer spell the prefix read so far |
| AnimatorProofs.LexemesSpellInput | assets/js/tidytouch.js:32-91 | on well-formed input, the lexemes spell the input |
| AnimatorProofs.RoundTrip | assets/js/tidytouch.js:5-94 | on well-formed input, stripping the animation markup from the output gives back the original HTML |
| AnimatorProofs.TagsOfErased | assets/js/tidytouch.js:70 | the tags among the output pieces are the tags among their erasure |
| AnimatorProofs.TagsPreserved | assets/js/tidytouch.js:51-72 | the tags copied to the output are exactly the input's complete tags, unchanged and in order |
| AnimatorProofs.ShapedTransform | assets/js/tidytouch.js:18-23 | every copied gap is whitespace and every animated character is not |
| AnimatorProofs.GlyphsErased | assets/js/tidytouch.js:18-23 | the animated characters of shaped pieces are the visible characters of their erasure |
| AnimatorProofs.GlyphsAreVisibleText | assets/js/tidytouch.js:14-27 | the animated characters are exactly the non-whitespace text characters of the input, in order |
| AnimatorProofs.RampAppend | assets/js/tidytouch.js:19-20 | n delays 0.05 s apart from a, followed by m delays continuing from where they stop, are n + m delays 0.05 s apart from a |
| AnimatorProofs.DelaysOfFlush | assets/js/tidytouch.js:36-47 | one flush puts out consecutive delays, one per non-whitespace character of the buffer |
| AnimatorProofs.DelaysOfScanned | assets/js/tidytouch.js:9-20 | the delays put out so far run 0.05 s, 0.10 s, ... and the counter holds the next one |
| AnimatorProofs.DelaysIncrease | assets/js/tidytouch.js:9-20 | the k-th animated character gets the delay 0.05 * (k + 1) s, and there is one delay per visible character |
| AnimatorProofs.ManualIffDivOpen | assets/js/tidytouch.js:60-67 | the stack holds only `div`, and the manual flag is set exactly when the stack is non-empty |
| AnimatorProofs.FramedFlush | assets/js/tidytouch.js:36-47 | a flush opens and closes its own wrappers when not manual, and opens none when manual |
| AnimatorProofs.WrapRuleScanned | assets/js/tidytouch.js:32-78 | during the scan every animated character is wrapped exactly when no div is open, and no wrapper is left open |
| AnimatorProofs.WrappedIffNoDiv | assets/js/tidytouch.js:14-27 | in the final output each animated character sits in an inline-block wrapper exactly when no `div` is open around it, and no wrapper is left open |
| AnimatorExamples.ExampleWords | assets/js/tidytouch.js:80-91 | `a b` becomes two wrapped words with delays 0.05 s and 0.10 s around a copied space |
| AnimatorExamples.ExampleGlyph | assets/js/tidytouch.js:19 | the first character's span reads `animation-delay:0.05s` |
| AnimatorExamples.ExampleUnclosed | assets/js/tidytouch.js:49-52 | an unclosed `<b` at the end is dropped: the output of `a<b`, with the animation markup removed, is just `a` |
| AnimatorExamples.ExampleDivName | assets/js/tidytouch.js:56-58 | `<div>` and `</DIV>` both have tag name `div`; only the second is closing |
| AnimatorExamples.ExampleDivNoWrapper | assets/js/tidytouch.js:60-63 | text after a hand-written `<div>` is animated without a word wrapper |
| AnimatorExamples.ExampleRestartedTag | assets/js/tidytouch.js:35-50 | a `<` inside a tag drops the partial tag and starts a new one |
| Carousel.CenterIndex | assets/js/tidytouch.js:102-103 | a middle index exists exactly for an odd count above one, and it has as many items before it as after |
| Carousel.MarkNth | assets/js/tidytouch.js:104 | definition (its ensures only list the entries): `.eq(k)` on the visible items; specified by `Carousel.MarkNthCount` (one mark when k is below the visible count, none otherwise) and `Carousel.CenterActive` |
| Carousel.CenterActive | assets/js/tidytouch.js:97-106 | after the update an item is marked exactly when it is visible, more than one item is visible, and as many visible items precede it as follow it |
| Carousel.CountAppend | assets/js/tidytouch.js:100 | visible counts add up over concatenation |
| Carousel.CountAround | assets/js/tidytouch.js:100 | an item splits the visible count into before, itself and after |
| Carousel.MarkNthCount | assets/js/tidytouch.js:104 | `.eq(k)` marks one item when k is below the visible count and none otherwise |
| Carousel.CenterActiveCount | assets/js/tidytouch.js:101-105 | exactly one item is marked for an odd visible count above one, none otherwise |
| Carousel.MiddleByCount | assets/js/tidytouch.js:102-104 | with 2k + 1 visible items, the visible item with k visible items before it is exactly the one with as many before it as after it |
| Carousel.NoMiddle | assets/js/tidytouch.js:102 | with an even number of visible items, no visible item has as many visible items before it as after it |
| Carousel.CenterIsMiddle | assets/js/tidytouch.js:103-104 | a marked item is the `Math.floor(n / 2)`-th visible item |
| Sitemap.StripLeft | generate_sitemap.py:69 | removes exactly the leading whitespace |
| Sitemap.StripRight | generate_sitemap.py:69 | removes exactly the trailing whitespace |
| Sitemap.StripKeeps | generate_sitemap.py:69 | text with no whitespace at either end is not changed by `strip()` |
| Sitemap.ForwardSlashes | generate_sitemap.py:32 | after `replace('\\', '/')` no backslash remains, the length is kept, and the only characters that change are backslashes, each into `/`; `Sitemap.SlashesKept` shows a path with no backslash is unchanged |
| Sitemap.AfterLastSlash | generate_sitemap.py:48 | the position after the last slash, with no slash after it |
| Sitemap.TrimSlashes | generate_sitemap.py:48 | drops exactly the trailing slashes |
| Sitemap.NormalizeBase | generate_sitemap.py:19-21 | the base URL ends with `/`, and at most one slash is appended |
| Sitemap.NormalizeIdempotent | generate_sitemap.py:19-21 | a base already ending in `/` is unchanged, and normalising twice is normalising once |
| Sitemap.SkippedIffGit | generate_sitemap.py:26-27 | a directory is skipped exactly when its path contains `.git` (the `.github` test adds nothing) |
| Sitemap.Skipped | generate_sitemap.py:26 | definition, no contract: the `.git` / `.github` test on the walked path; specified by `Sitemap.SkippedIffGit` |
| Sitemap.Join | generate_sitemap.py:32 | definition, no contract: POSIX `os.path.join` of two parts |
| Sitemap.Dirname | generate_sitemap.py:48 | definition, no contract: POSIX `os.path.dirname`; specified by `Sitemap.DirnameOfChild` |
| Sitemap.RelativePath | generate_sitemap.py:32-36 | the relative path holds no backslash |
| Sitemap.Loc | generate_sitemap.py:38-51 | every URL starts with the base; the root index maps to the base itself; a subdirectory index maps to a URL ending in `/`; the exact URL of each other kind of page is given by `Sitemap.SubdirIndexLoc`, `Sitemap.SubdirPageLoc` and `Sitemap.TopLevelPageLoc` |
| Sitemap.Blocks | generate_sitemap.py:53-60 | definition (its ensures only list the entries): one `<url>` element per page, in order; specified by `Sitemap.GenerateSitemap`, `Sitemap.DirectoryBlocks`, `Sitemap.BlocksAppend`, `Sitemap.PagesMembers` and `Sitemap.UrlBlockInjective` |
| Sitemap.UrlBlock | generate_sitemap.py:54-60 | definition, no contract: the `<url>` element text with `loc`, `lastmod`, weekly change frequency and priority 0.8; specified by `Sitemap.UrlBlockInjective` |
| Sitemap.SitemapText | generate_sitemap.py:63-69 | definition, no contract: XML declaration, `<urlset>` opening, the joined blocks, `</urlset>`, stripped; specified by `Sitemap.SitemapTextUnstripped` |
| Sitemap.HtmlFiles | generate_sitemap.py:29-30 | definition, no contract: the `.html` files of one directory, in order; specified by `Sitemap.HtmlFilesMembers` |
| Sitemap.Pages | generate_sitemap.py:24-30 | definition, no contract: the pages of every directory not skipped, in walk order; specified by `Sitemap.PagesMembers` |
| Sitemap.GenerateSitemap | generate_sitemap.py:9-69 | the returned document is the header, one block per `.html` file of every directory not skipped, in walk order, and the footer, with the base normalised and `lastmod` the time plus `+00:00` |
| Sitemap.DirectoryBlocks | generate_sitemap.py:29-61 | the inner loop appends one element per `.html` file of the directory, in file order |
| Sitemap.BlocksAppend | generate_sitemap.py:24-30 | the elements for two runs of pages, such as two walked directories, are those of the first run followed by those of the second |
| Sitemap.PageUrl | generate_sitemap.py:32-51 | the URL computed for a file is the page's `<loc>` as the mapping defines it |
| Sitemap.HtmlFilesMembers | generate_sitemap.py:29-30 | a file is listed for a directory exactly when it is among its files and ends in `.html` |
| Sitemap.PagesMembers | generate_sitemap.py:24-30 | a page is listed exactly when its directory is walked and not skipped, and the file ends in `.html` |
| Sitemap.SlashesKept | generate_sitemap.py:32 | a path without backslashes is unchanged |
| Sitemap.TopLevelPath | generate_sitemap.py:32-36 | a file of the start directory keeps its own name as relative path |
| Sitemap.SubdirPath | generate_sitemap.py:32-36 | a file of `./d` gets the relative path `d/file` |
| Sitemap.DirnameOfChild | generate_sitemap.py:48 | `dirname` of `d/file` is `d` |
| Sitemap.AfterLastSlashAt | generate_sitemap.py:48 | the last slash is found where it is |
| Sitemap.RootIndexLoc | generate_sitemap.py:39-41 | the root `index.html` maps to the base URL |
| Sitemap.SubdirIndexLoc | generate_sitemap.py:46-49 | `d/index.html` maps to `base + d + "/"` |
| Sitemap.SubdirPageLoc | generate_sitemap.py:50-51 | any other page `d/file` maps to `base + d + "/" + file` |
| Sitemap.TopLevelPageLoc | generate_sitemap.py:45-51 | any other page of the start directory, such as `terms.html`, maps to `base + "terms.html"` |
| Sitemap.UrlBlockInjective | generate_sitemap.py:53-60 | different URLs give different blocks |
| Sitemap.SitemapTextUnstripped | generate_sitemap.py:63-69 | `strip()` removes nothing from the document |
| Sitemap.RobotsStrip | generate_sitemap.py:75-81 | `strip()` removes only the template's first and last line breaks |
| Sitemap.RobotsTxt | generate_sitemap.py:71-81 | definition, no contract: `create_robots_txt`, the robots template around `BASE_URL + "sitemap.xml"`, stripped; specified by `Sitemap.RobotsTxtNamesBase` and `Sitemap.RobotsMissesSitemap` |
| Sitemap.RobotsTxtNamesBase | generate_sitemap.py:71-81 | the robots text names the configured base, not normalised, followed by `sitemap.xml` |
| Sitemap.RobotsMissesSitemap | generate_sitemap.py:79 | for a base without a trailing slash the robots text names a URL other than the published sitemap's |
| Sitemap.RobotsMissesSitemapExample | generate_sitemap.py:79 | base `https://example.com` gives `Sitemap: https://example.comsitemap.xml` while the sitemap is at `https://example.com/sitemap.xml` |
| Sitemap.RobotsTxtNormalizedNamesSitemap | generate_sitemap.py:71-81 | the corrected robots text always names the published sitemap, and equals the original when the base ends in `/` |
| SitemapExamples.NoGit | generate_sitemap.py:26 | a path with no `.g` pair is not skipped |
| SitemapExamples.ExampleTopDir | generate_sitemap.py:29-30 | of `index.html` and `style.css` only the first is a page |
| SitemapExamples.ExamplePages | generate_sitemap.py:24-30 | the `.git` directory is skipped, and pages come in walk order |
| SitemapExamples.ExampleSubdirIndex | generate_sitemap.py:46-49 | `./about/index.html` maps to `base + "about/"` |
| SitemapExamples.ExampleSubdirPage | generate_sitemap.py:50-51 | `./blog/post.html` maps to `base + "blog/post.html"` |

## Left out

- The jQuery wiring is not modelled: selecting the slider titles, reading and writing `.html()`, selecting carousel items and toggling classes, and the carousel event handlers (lines 108-110). The title's HTML is a parameter, and the carousel's visible items are a sequence of flags.
- JavaScript strings are UTF-16 code units; the model indexes Dafny characters, so a character outside the Basic Multilingual Plane, which the source splits into two halves, is one character here.
- The delay is a floating-point number in the source; the model counts integer hundredths. The accumulated rounding error of adding 0.05 is far below the 0.005 that `toFixed(2)` would need to show it, so the printed delays agree.
- `trim()` and `\s` are modelled as a fixed set of whitespace characters (the ASCII ones, no-break space, the Unicode space separators, line and paragraph separators, and the byte-order mark); `\w` and `toLowerCase` as their ASCII behaviour, which is all the tag-name rule needs.
- `os.walk` is a parameter: a sequence of directories, each with its path and its files, in the order the walk yields them. The subdirectory lists are not needed and are not modelled, and neither is the order in which the file system lists entries.
- `datetime.now().isoformat()` is a parameter (`now`); `os.environ` for `BASE_URL` (line 7) is the `baseUrl` parameter.
- The `print` progress messages and the writing of `sitemap.xml` and `robots.txt` (lines 16-17, 61, 83-94) are not modelled.
- `os.path.join` and `os.path.dirname` are modelled with POSIX separators; Windows drive letters and backslash joins are not modelled.
- Sitemap.RobotsStrip: requires a non-empty URL whose last character is not whitespace, because `strip()` would otherwise also remove the URL's trailing whitespace; `Sitemap.RobotsTxtNamesBase` covers every URL.

## Findings

| source | as written | input that shows it | evidently intended | confidence | as-written member | corrected member |
|---|---|---|---|---|---|---|
| generate_sitemap.py:79 | `create_robots_txt` uses the configured `BASE_URL` as is, while `generate_sitemap` adds the missing trailing slash (lines 19-21) | `SITE_BASE_URL=https://example.com` gives `Sitemap: https://example.comsitemap.xml`, but the sitemap is published at `https://example.com/sitemap.xml` | the robots text names `sitemap.xml` under the normalised base | medium, not executed | Sitemap.RobotsMissesSitemap | Sitemap.RobotsTxtNormalizedNamesSitemap |
