# Pop static site generator — a Dafny model of its core

Pop builds a static web site from a directory. A file map lists the site's
files and classifies each by path (`post md`, `layout jade`, `file jade`,
`file`, ...). The site builder then renders posts and Jade pages, compiles
Stylus sheets and copies static files into the output directory. This project
models the deterministic core of that pipeline and proves what it promises:

- **Paginator** (`Pagination`, class `Paginator`): sorts the posts newest
  first in the caller's own array, pages through them, and reports a page
  count of `Math.round(n / perPage) + 1`.
- **File map** (`FileMaps`): the file-type classification, the exclusion
  rule with the `/_site` pattern the constructor adds to the caller's list,
  and `addFile`.
- **Site builder**:
  - `PostNames`: `parseFileName`, with the `(\d+)-(\d+)-(\d+)-(.*)` match
    modelled exactly.
  - `FrontMatter`: `parseMeta`, with `fix` and `clean`.
  - `Dispatch`: the three file buckets and the single-file dispatch of
    `buildChange`.
  - `Plugins`: plugin merging into the user maps, `applyHelpers`, and the
    filter chains.
  - `Outputs`: output names in `copyStatic`, `renderFile` and `write`.
  - `Build`: the completion counters of `build`, and the render passes of a
    paginated page.
- **Command-line helpers** (`CliTools`): `datePad`, `getPostFileName` and
  the argument choice of `makeSite`.
- **Highlight filter** (`Filters`) and **configuration defaults** (`Config`).

Support modules:

- `Strings` holds the JavaScript string operations the source relies on:
  `indexOf`, `replace` with a string pattern (first occurrence only),
  `split` and `join`, `trim`, number formatting and parsing.
- `Paths` models node's `path.basename`, `dirname`, `extname` and `join`.
  `join` is compared by its path segments.
- `Values` models JSON-like values with JavaScript truthiness, and an object
  whose properties are updated in place.
- `Wrappers` holds `Option`. `None` models `undefined`, `null` or a throw,
  as each member's comment says.

The source changes state in the paginator, the file map, the plugin
registries, `applyHelpers`, `clean`, `applyDefaults` and the build counters.
These are classes whose methods update their fields. Each method is specified
by a pure function of the old state, and the properties are proved about
those functions. Callbacks run one at a time in JavaScript, so the build is
modelled as a sequential state machine driven by completion events.

## Model

| member | source | states |
|---|---|---|
| Pagination.Paginator.constructor | lib/paginator.js:14-22 | sorts the caller's array in place, newest first, as a permutation, and keeps that array as `allItems`; page 1, previous page 0, next page 2; the window is the first `min(perPage, n)` posts; `pages` is the page-count formula |
| Pagination.Paginator.AdvancePage | lib/paginator.js:28-36 | the page goes up by exactly one and its neighbours follow; the window becomes the slice `(page-1)*perPage .. page*perPage`, cut at the end; posts, `perPage` and `pages` are unchanged; the invariant holds |
| Pagination.Paginator.Sort | lib/paginator.js:44-54 | the array ends non-increasing by date and is a permutation of what it was |
| Pagination.PageCount | lib/paginator.js:21 | `Math.round(n / perPage) + 1` for a positive `perPage`, halves rounded up; what it means is stated by `PageCountRounds` and `PageCountVersusFullPages` |
| Pagination.PageCountRounds | lib/paginator.js:21 | `pages - 1` is `n / perPage` rounded to the nearest integer, halves upwards |
| Pagination.PageCountVersusFullPages | lib/paginator.js:21 | `pages` is at least the number of pages that hold posts and at most one more; exactly one more when `perPage` divides `n` |
| Pagination.FullPagesBounds | lib/paginator.js:33-35 | the pages that hold posts are the fewest that hold them all |
| Pagination.Window | lib/paginator.js:33-35 | `slice((page - 1) * perPage, page * perPage)` with JavaScript's clamping to the list; what it holds is stated by `WindowSpec` |
| Pagination.WindowSpec | lib/paginator.js:33-35 | a page's window is empty exactly when the earlier pages hold every post; otherwise it is the next `min(perPage, rest)` posts in order |
| Pagination.PagesTile | lib/paginator.js:33-35 | the windows of pages `1..m` one after another are the first `m*perPage` posts, so each post is on exactly one page |
| Pagination.TwentyPostsAtFive | test/helpers.test.js:45-48 | 20 posts at 5 per page give 5 pages; after four advances the window is empty |
| FileMaps.ExtensionSpec | lib/file_map.js:39 | the extension is the part of the basename after its last dot, with no dot or slash in it |
| FileMaps.FileType | lib/file_map.js:38-52 | the type of a path: its directory marker tried in the order posts, layouts, includes, else `file` with a rendered extension, else `file`; stated by `FileTypeKinds` |
| FileMaps.FileTypeKinds | lib/file_map.js:38-52 | a type starts with `post ` exactly when the path has `/_posts/`; with `layout ` exactly when it has `/_layouts/` and not `/_posts/`; with `include ` exactly when it has `/_includes/` and neither of the others; with `file ` exactly when it has no marker and a `jade`, `ejs` or `styl` extension; it is bare `file` otherwise; every other type ends in a space and the extension |
| FileMaps.AnyPatternMatches | lib/file_map.js:102-104 | true exactly when some pattern occurs in the path |
| FileMaps.Excluded | lib/file_map.js:98-105 | a path containing `/.` is excluded whenever dot files are ignored; a path is excluded exactly when the dot rule fires or some pattern occurs in it as a substring |
| FileMaps.ExcludedAppend | lib/file_map.js:23 | adding a pattern excludes exactly the paths it matches, on top of those already excluded |
| FileMaps.FileMap.constructor | lib/file_map.js:20-30 | appends `/_site` to the caller's exclude list, so every path containing `/_site` is excluded; dot files are ignored; no files; counters at 0 and 1 |
| FileMaps.FileMap.AddFile | lib/file_map.js:113-120 | appends exactly one `{name, type}` entry when the path is not excluded and leaves the list unchanged otherwise; the list never gains an excluded path |
| Dispatch.Select | lib/site_builder.js:283-310 | a bucket is never longer than the file list |
| Dispatch.SelectMembers | lib/site_builder.js:283-310 | a bucket holds exactly the entries of its kind: an entry is in it if and only if it is in the file list and its type belongs to the bucket |
| Dispatch.SelectAppend | lib/site_builder.js:283-310 | a bucket of two lists is the bucket of the first followed by that of the second, so the buckets keep the file map's order |
| Dispatch.KindInOneBucket | lib/site_builder.js:251-253 | no file type is in two of the post, rendered and static buckets |
| Dispatch.BucketsDisjoint | lib/site_builder.js:283-310 | an entry found in two buckets was found in the same bucket twice |
| Dispatch.BucketSizes | lib/site_builder.js:166 | the three buckets together hold at most as many entries as the file map |
| Dispatch.RouteAgreesWithBuckets | lib/site_builder.js:269-275 | a changed file goes to `renderPost`, `renderFile` or `copyStatic` exactly when a full build puts it in that bucket, and nowhere exactly when it is in no bucket |
| Dispatch.BuildChange | lib/site_builder.js:261-276 | `buildChange(file)`: nothing for an excluded path, else the path with its type routed to one step; stated by `BuildChangeByPath` |
| Dispatch.BuildChangeByPath | lib/site_builder.js:261-276 | from the path alone: excluded does nothing; `/_posts/` is rendered as a post; a layout or include is a post exactly when its extension contains `post`, and otherwise does nothing; elsewhere `jade` and `styl` are rendered, `ejs` does nothing, and anything else is copied |
| Dispatch.PostMarker | lib/file_map.js:41-42 | every type built under `/_posts/` contains `post` |
| Dispatch.MarkerThenExtension | lib/file_map.js:43-46 | a layout or include type contains `post` exactly when its extension does, and is never rendered or copied |
| Dispatch.RenderedKind | lib/file_map.js:47-48 | `file jade` and `file styl` are rendered; `file ejs` is in no bucket |
| PostNames.DigitRun | lib/site_builder.js:604 | the longest run of digits at the front |
| PostNames.DigitsDash | lib/site_builder.js:604 | a non-empty digit run followed by `-`, and the rest after it |
| PostNames.MatchDateAt | lib/site_builder.js:604 | a match at the front has three non-empty digit groups and a rest without line terminators that stops at one |
| PostNames.MatchDateLeftmost | lib/site_builder.js:604 | no match at any position when the search fails; otherwise the match found is the one at the leftmost position that has one |
| PostNames.MatchDateAtOf | lib/site_builder.js:604 | `Y-M-D-rest` with digit groups and a one-line rest matches with exactly those groups |
| PostNames.MatchDateSkips | lib/site_builder.js:604 | a digit-free prefix does not change the match |
| PostNames.RemoveFormatOf | lib/site_builder.js:608 | the first `.md` or `.textile` is removed from the title |
| PostNames.ParseFileName | lib/site_builder.js:602-615 | `parseFileName` for a given permalink pattern, `None` where the source throws on a `null` match; stated by `ParseFileNameNone` and `ParseFileNameOf` |
| PostNames.ParseFileNameNone | lib/site_builder.js:604-606 | a name parses exactly when the date pattern matches at some position of it |
| PostNames.MatchDateSkipsDir | lib/site_builder.js:604 | a directory path ending in `/` in which the pattern matches nowhere does not change the match in the file name after it |
| PostNames.ParseFileNameOf | lib/site_builder.js:602-615 | a post file `dir/Y-M-D-rest`, for any directory path `dir` ending in `/` in which the pattern matches nowhere, gives the date of the three numbers, and the permalink with its first `:year`, `:month`, `:day` and `:title` replaced by the digits and the rest without its format |
| PostNames.PostFileNameRoundTrip | lib/site_builder.js:602-615 | the file that `getPostFileName` names for a date, title and format, under any such directory path, parses back to that date and to the URL `/Y/MM/DD/slug` |
| PostNames.AwesomePostUrl | lib/site_builder.js:602-615 | the 2011-11-01 "Awesome Post" file parses to `/2011/11/01/awesome-post` |
| CliTools.DatePad | lib/cli_tools.js:23-25 | a one-character decimal form gets a leading `0`; stated by `DatePadSpec` |
| CliTools.DatePadSpec | lib/cli_tools.js:23-25 | the result is at least two digits and reads back as the number; it starts with `0` exactly when the number is below 10; below 100 it has two digits |
| CliTools.DatePadExamples | test/cli_tools.test.js:20-23 | `datePad(1)` is `01` and `datePad(10)` is `10` |
| CliTools.LowerAll | lib/cli_tools.js:37 | each character is lowercased, and the length is kept |
| CliTools.SlugSpec | lib/cli_tools.js:37 | for a title of ASCII letters, digits and spaces the slug is lower-case letters, digits and single dashes, and without its dashes it is the lowercased title without its spaces |
| CliTools.DashSpacesUndashed | lib/cli_tools.js:37 | replacing whitespace runs by `-` and then removing the dashes removes exactly the spaces |
| CliTools.DashSpacesSingleDashes | lib/cli_tools.js:37 | no two dashes are adjacent after the whitespace runs are replaced |
| CliTools.GetPostFileName | lib/cli_tools.js:36-44 | the name always starts with `_posts/` |
| CliTools.PostFileNameOfDatedPattern | lib/cli_tools.js:38-43 | a pattern whose date tokens fill in to `/Y/M/D/:title` gives `_posts/Y-M-D-slug.format` |
| CliTools.DefaultPostFileName | lib/cli_tools.js:38-43 | the default pattern gives `_posts/YYYY-MM-DD-slug.format` |
| CliTools.AwesomePostFileName | test/cli_tools.test.js:25-28 | 2011-11-01, "Awesome Post" and `md` give `_posts/2011-11-01-awesome-post.md` |
| CliTools.MakeSiteArgs | lib/cli_tools.js:166-172 | one argument means the `default` generator and that path; two mean the generator then the path |
| Filters.NonSpaceRun | lib/filters.js:15 | the longest run without a space, stopped by a space |
| Filters.OpenDirectiveReplaced | lib/filters.js:15 | `{% highlight X %}` with a space-free `X` becomes the `<pre class="prettyprint lang-X">` tag, and scanning goes on after it |
| Filters.OpenScanNoDirective | lib/filters.js:15 | text without `{%` passes the first replacement unchanged |
| Filters.ReplaceAllAt | lib/filters.js:16 | each occurrence of the closing directive becomes `</pre>` |
| Filters.Highlight | lib/filters.js:14-18 | every `{% highlight lang %}` directive, scanned left to right, becomes a `<pre>` opening, then every `{% endhighlight %}` a closing; stated by `HighlightIdentity`, `HighlightBlock` and `HighlightJavascriptBlock` |
| Filters.HighlightIdentity | lib/filters.js:14-18 | text containing no `{%` is returned unchanged |
| Filters.HighlightBlock | lib/filters.js:14-18 | a highlight block around code without `{` becomes a `<pre>` element around the same code |
| Filters.HighlightJavascriptBlock | test/filters.test.js:4-16 | the JavaScript block of the filter test becomes the expected `<pre>` block |
| Config.StripTrailingSlash | lib/config.js:25 | a URL ending in `/` loses exactly that slash; any other URL is unchanged |
| Config.Applied | lib/config.js:20-28 | the object `applyDefaults` leaves, `None` where it throws; stated by `AppliedSpec` |
| Config.ApplyDefaults | lib/config.js:20-28 | updates the object in place as `Applied` says, and reports the throw of a truthy non-string URL, where the defaults are filled but the URL is left alone |
| Config.FillDefaultsSpec | lib/config.js:21-23 | `perPage`, `port` and `output` keep a truthy value and otherwise get 20, 4000 and `_site/`; other keys are untouched |
| Config.FillDefaultsIdempotent | lib/config.js:21-23 | filling defaults twice is filling them once |
| Config.AppliedSpec | lib/config.js:20-28 | it throws exactly when `url` is truthy and not a string; otherwise the defaults are filled, a string URL loses one trailing slash, and every other key is untouched |
| Config.FixtureConfig | test/config.test.js:7-11 | on an input reconstructed to agree with the expected object at test/config.test.js:8 (the fixture file `_config.json` is not part of this model): the configuration gets its defaults and loses the slash at the end of its URL |
| FrontMatter.FixLines | lib/site_builder.js:371-375 | one fixed line per input line, each with two spaces added when it starts with `- ` |
| FrontMatter.FixSpec | lib/site_builder.js:369-376 | the fixed text's lines are the input's lines, indented by two spaces where they start with `- ` |
| FrontMatter.FixNoListItems | lib/site_builder.js:369-376 | text with no line starting with `- ` comes back unchanged |
| FrontMatter.UnquoteSpec | lib/site_builder.js:360-362 | a quoted string without inner quotes loses its quotes; cleaning a cleaned value changes nothing |
| FrontMatter.CleanAllIdempotent | lib/site_builder.js:358-366 | cleaning twice is cleaning once |
| FrontMatter.Clean | lib/site_builder.js:358-366 | after the loop every value is unquoted and the keys are the same |
| FrontMatter.ParseMeta | lib/site_builder.js:378-388 | `parseMeta` with the YAML decoder as a parameter; stated by `ParseMetaNoMarker` and `ParseMetaOf` |
| FrontMatter.ParseMetaNoMarker | lib/site_builder.js:386-388 | a document without `---` has no front matter and is its own body |
| FrontMatter.ParseMetaOf | lib/site_builder.js:378-388 | for `---yaml---body`, the fixed block is what is decoded, its values are cleaned, and the body is the trimmed rest, whatever further `---` it contains; a decoder error yields nothing |
| Strings.SplitPiecesFree | lib/site_builder.js:378 | no piece of a `split` contains the separator |
| Strings.SplitJoin | lib/site_builder.js:371-375 | lines without `\n`, joined with `\n` and split again, come back as they were |
| Strings.TrimSpec | lib/site_builder.js:385 | `trim` keeps exactly the stretch from the first to the last non-white-space character: only white space is cut, and none is left at either end |
| FrontMatter.SplitFrontMatter | lib/site_builder.js:378 | splitting `---yaml---body` on `---` gives the empty chunk, the block, then the chunks of the body |
| Plugins.Lookup | lib/site_builder.js:89-92 | a key has a value exactly when it is among the keys |
| Plugins.Put | lib/site_builder.js:91 | the key gets the value and every other key keeps its value; a new key goes to the end and an old key keeps its place; unique keys stay unique |
| Plugins.PutAllLookup | lib/site_builder.js:89-102 | after a merge, a key of the plugin has the plugin's function (bound), and any other key is as before |
| Plugins.PutAllUnique | lib/site_builder.js:89-102 | merging keeps the keys unique |
| Plugins.PutAllStep | lib/site_builder.js:89-92 | merging one more plugin entry is one more assignment |
| Plugins.Registry.LoadPlugin | lib/site_builder.js:86-103 | a missing plugin changes nothing; otherwise the helpers, filters and post-filters are each merged with the plugin's |
| Plugins.CopyBound | lib/site_builder.js:89-92 | the loop's result is the merge |
| Plugins.LoadPluginOverrides | lib/site_builder.js:86-103 | a key the plugin defines gets the plugin's function; every other key keeps the user's value |
| Plugins.Helped | lib/site_builder.js:111-134 | the object `applyHelpers` leaves, `None` where it throws; stated by `HelpedLookup` and `HelpedWithoutPaginate` |
| Plugins.ApplyHelpers | lib/site_builder.js:111-134 | updates the object in place as `Helped` says; when a truthy `paginate` is not callable, the helpers and `include` are written before the throw |
| Plugins.WithHelpersLookup | lib/site_builder.js:115-125 | after the helper loops and `include`: `include` is the builder's own, and any other key holds the user's helper (bound), else the built-in one (bound), else the object's own value |
| Plugins.HelpedLookup | lib/site_builder.js:115-131 | `site` and `include` are the builder's own; other keys take the user's helper over the built-in, and otherwise the object's value |
| Plugins.HelpedWithoutPaginate | lib/site_builder.js:128-129 | with no `paginate` anywhere, `applyHelpers` does not throw |
| Plugins.ChainAppend | lib/site_builder.js:623-635 | running two filter lists one after the other is running the first, then the second on its output |
| Plugins.ChainStep | lib/site_builder.js:624-626 | one more filter is applied to the previous output |
| Plugins.RunChain | lib/site_builder.js:624-626 | the loop's result is the fold of the filters over the text |
| Plugins.ApplyFilters | lib/site_builder.js:623-635 | the built-in filters run first, then the user filters, each on the previous output |
| Plugins.ApplyPostFilters | lib/site_builder.js:641-647 | the user post-filters run in order, each on the previous output |
| Plugins.FilteredIsHighlight | lib/site_builder.js:624-626 | with no user filters, applying the filters is the highlight filter, so text without `{%` is unchanged |
| Outputs.OutFileNameSegments | lib/site_builder.js:428-430 | the output name's path segments are those of the output root, then the sub-directory, then the name |
| Outputs.CopyStaticTarget | lib/site_builder.js:318-324 | `copyStatic`'s destination, `None` for a basename starting with `_`; stated by `CopyStaticMirrors` |
| Outputs.CopyStaticMirrors | lib/site_builder.js:318-324 | a file whose basename starts with `_` is skipped; any other file is copied to the output root followed by its path below the site root |
| Outputs.StylTargetCss | lib/site_builder.js:526-530 | `dir/x.styl` is written as `dir/x.css` under the output root |
| Outputs.RenderTargetSpec | lib/site_builder.js:540-548 | the corrected name (two-extension test on the basename, see Findings): a page `dir/inner.jade` is written under the output root, its directory and its page directory, as `inner` when `inner` has a dot and as `inner.html` otherwise |
| Outputs.RenderTargetAsWritten | lib/site_builder.js:540-548 | the output name as the source computes it, with the two-extension test on the whole path; stated by `AsWrittenInnerExtension`, `RenderTargetsAgree`, `AsWrittenDropsHtml` and `AsWrittenDotted` |
| Outputs.AsWrittenInnerExtension | lib/site_builder.js:542 | as written, the two-extension test on the full path fires exactly when the root, the page's directory or `inner` has a dot |
| Outputs.RenderTargetsAgree | lib/site_builder.js:540-548 | when neither the root nor the page's directory has a dot, the name as written equals the corrected name |
| Outputs.AsWrittenDropsHtml | lib/site_builder.js:540-548 | when the root or the page's directory has a dot, the name as written is bare `inner`, with no `.html` |
| Outputs.AsWrittenDotted | lib/site_builder.js:542 | as written, a page directly under a root whose path has a dot loses `.html` |
| Outputs.CorrectedDotted | lib/site_builder.js:542-548 | with the test on the basename, a top-level `stem.jade` is written as `stem.html` whatever the root is |
| Outputs.DottedRootDropsHtml | lib/site_builder.js:542 | for a dotted root, the code as written and the corrected code disagree on every top-level page: `stem` against `stem.html` |
| Outputs.TestSiteIndex | test/site_builder.test.js:36-57 | under the root `fixtures/test.site`, as written `index.jade` becomes `index`, where the test reads `index.html`; corrected it becomes `index.html` |
| Outputs.Write | lib/site_builder.js:400-404 | `write(fileName, content)` as the file it writes, if any; stated by `WriteSpec` |
| Outputs.WriteSpec | lib/site_builder.js:400-404 | empty content writes nothing; otherwise the post-filtered content is written under the name; with no post-filters it is the content itself |
| Build.RenderPasses | lib/site_builder.js:571-590 | sorts the posts in place as the paginator does, and renders page 1 in place, then, for a page with a layout and `paginate`, one render per further page while the paginator still shows posts |
| Build.PageHasPosts | lib/paginator.js:33-35 | page `p` holds posts exactly when `p` is at most the number of pages that hold posts |
| Build.WindowHasPosts | lib/site_builder.js:586 | the loop goes on exactly while the page is one that holds posts |
| Build.FirstWindow | lib/paginator.js:17 | the first page's window is the first `perPage` posts; without pagination there is one pass |
| Build.PassesShowPages | lib/site_builder.js:583-589 | the first `m + 1` passes show pages `1..m + 1` in order |
| Build.PaginatedPassesCoverPosts | lib/site_builder.js:583-589 | a paginated page with posts is rendered once per page that holds posts plus once more; the renders before the last show every post once, in order, and the last page directory written shows none |
| Build.UnpaginatedPass | lib/site_builder.js:571-573 | without pagination the page is rendered once, in place, showing the first page of posts |
| Build.RenderCallbacksCases | lib/site_builder.js:526-561 | a Stylus sheet never calls back; a Jade page calls back more than once exactly when it is paginated under a layout and there are posts |
| Build.Step | lib/site_builder.js:170-188 | one completion callback: `filesLeft` goes down and `ready` is emitted when it lands on zero; a post's callback also counts `postsLeft` down and dispatches the auto-generated pages when that lands on zero; stated over whole runs by `RunSpec` |
| Build.Run | lib/site_builder.js:170-188 | the callbacks one after another; stated by `RunSpec` |
| Build.RunSpec | lib/site_builder.js:170-188 | after any callbacks, `filesLeft` and `postsLeft` have gone down once per callback of their kind; `ready` was emitted once if the callbacks reached the initial `filesLeft` and it was positive, never otherwise; the auto-generated pages were dispatched once on the same terms for posts |
| Build.BuildReady | lib/site_builder.js:166-174 | once every callback has come, `ready` was emitted once exactly when the callbacks reached the number of files and there was a file |
| Build.SilentJobStallsBuild | lib/site_builder.js:532-537 | a build with a Stylus sheet, or an auto-generated page that never calls back, and no paginated page never emits `ready` |
| Build.PaginationReadiesEarly | lib/site_builder.js:585-589 | a paginated page with posts makes `ready` fire while callbacks are still to come |
| Build.OneCallbackEachReadiesOnce | lib/site_builder.js:170-174 | when every job calls back once, `ready` is emitted once, after the last callback, if there was anything to build |
| Build.AutoGenDispatchedOnce | lib/site_builder.js:164-188 | the auto-generated pages are dispatched once, after the last post, when there are posts; with no posts the list is emptied |
| Build.Builder.constructor | lib/site_builder.js:158-168 | `filesLeft` starts at the sum of the three buckets and the kept auto-generated pages, which are emptied when there are no posts |
| Build.Builder.CheckFinished | lib/site_builder.js:170-174 | `ready` is emitted exactly when `filesLeft` is zero |
| Build.Builder.PostRendered | lib/site_builder.js:178-188 | a post's callback is one `PostDone` step |
| Build.Builder.FileFinished | lib/site_builder.js:192-205 | a rendered or copied file's callback is one `FileDone` step |
| Build.Builder.AutoGenFinished | lib/site_builder.js:183-186 | an auto-generated page's callback is one `AutoGenDone` step |
| Build.Builder.Replay | lib/site_builder.js:176-204 | callbacks arriving one at a time move the counters as `Run` says |

## Left out

- File-system I/O is not modelled. That covers the reads in `renderFile` and `renderPost`, the `mkdir_p` and write in `copyStatic` and `write`, `cacheIncludes` and `renderTemplate`. The events that I/O ends in are modelled: callbacks in `Build`, file names in `Outputs`.
- `lib/graceful.js` is not part of this model. It holds retry timers and directory creation.
- `FileMap.walk` is asynchronous traversal. The file map is modelled from `addFile` on.
- The template and markup engines are not modelled: Jade, Stylus, textile and markdown. Rendered content is opaque, and so the formatting, tags and summary steps of `renderPost` are left out.
- The YAML decoder is a parameter of `ParseMeta`, with `None` for a decoder error.
- Plugin functions are opaque names (`Fn`). The filter runner is a parameter. Binding is recorded as a `Bound` wrapper, not executed. Loading plugins by `require` from `_lib/` is left out.
- The `helpers` module (`paginate`, `atom` and others) is not part of this model. `Helped` records the call of `paginate` on the paginator as an opaque `Paginated` value.
- Regular expressions are modelled as what they mean. The `parseFileName` match and the highlight directives are modelled exactly. `$` patterns in replacement strings are not modelled.
- FileMaps.Excluded: an exclusion pattern is read as a literal substring, where the source reads it as a regular expression. So a pattern with a regex escape such as `\.` matches here only a path that holds the backslash itself. The strings `run\.js` and `\.swp` that the fixture configuration holds (test/config.test.js:8) therefore never exclude `run.js` or `.swp` files here, though the source excludes them. An unescaped `.`, as in the strings `run.js` and `.swp` that test/site_builder.test.js:12 writes (`'\.'` in a JavaScript string is `.`), matches only a dot here and any character in the source.
- `path.join` is modelled through its segments. `..` segments are not resolved.
- Dates are integer triples. `getPostFileName` takes the year, month and day directly, and `encodeURI` is left out, so titles are restricted to ASCII letters, digits and spaces.
- Numbers in configuration values are integers. Floating point is not modelled.
- JavaScript orders integer-like object keys before other keys. The ordered dictionaries in `Plugins` keep plain insertion order.
- Pagination.Paginator.constructor: `perPage` is taken to be a positive integer. `applyDefaults` (lib/config.js:20-28) guarantees that only when it runs, which is on the command-line path through `readConfigFile` (lib/config.js:32). `generateSite` (lib/pop.js:48-57) passes its configuration on as it is. There a missing `perPage` gives a first window of every post, a `NaN` page count and an empty window after one `advancePage`, and none of that is modelled. Negative and fractional values are not modelled either.
- Build.RenderPasses: takes `perPage` to be a positive integer, for the reason given for `Pagination.Paginator.constructor`.
- Build.Passes: takes `perPage` to be a positive integer, for the reason given for `Pagination.Paginator.constructor`.
- `Build.RenderPasses` takes the posts the paginator sees as a parameter. Which posts are pushed by the time a page renders depends on callback timing, which is not modelled.
- `Build.RunSpec` counts callbacks in any order. It does not check that auto-generated pages complete only after their dispatch; the counts it states hold either way.
- `lib/server.js`, `lib/pop.js`, `lib/log.js`, `lib/generators/default.js` and `makePost` in `lib/cli_tools.js` are not part of this model. They are process, network and console code.
- Aliasing is not modelled for the module-level plugin maps. Each map is a field of one `Registry` object.

## Findings

| source | as written | input that shows it | evidently intended | confidence | as-written member | corrected member |
|---|---|---|---|---|---|---|
| lib/site_builder.js:542 | the test for a two-extension name `x.y.jade` runs on the whole path, so a dot anywhere in the site root's path counts | root `fixtures/test.site` with `index.jade`: written as `index`, where test/site_builder.test.js:36-57 reads `index.html` | run the test on the basename, so only `x.y.jade` keeps `x.y` and other pages get `.html` | not executed | Outputs.AsWrittenDotted | Outputs.CorrectedDotted |
