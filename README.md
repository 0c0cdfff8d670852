# A verified model of a personal website and its helper scripts

The repository is a personal website plus a few command-line tools. This project models the logic they hold once their I/O is made into inputs:

- **app.py**: a Tornado development server, and a `generate` command that exports the site as static files.
  - The server renders Markdown pages from `src/`.
  - It builds a blog index sorted newest first.
  - It redirects directory requests and serves every other file as is.
  - `generate` fetches each page from the running server and writes it under `build/`.
- **tasks.py**: build tasks that collect the front matter of the blog posts and work out the year list and the per-year groups of the mkdocs navigation.
- **code/mdscript.py**: wraps the output of the `markdown` command in a complete XHTML page, reusing the title of an existing page.
- **code/arxivsum.py**: mails a digest of the arXiv feed items not yet seen, and keeps a history file of their ids.
- **code/orgmusic.py**: moves the MP3 files of a directory into one folder per artist, named after the sanitised ID3 artist tag.
- **code/randpass.py**: prints a random password of printable ASCII characters.

## Modules

The Dafny modules are:

| module | file | models |
|---|---|---|
| `Wrappers` | wrappers.dfy | `Option` and `Result` |
| `Text` | text.dfy | the Python string operations the scripts use: `find`, `replace`, `split`, `lstrip` with a character set, `strip`, decimal text |
| `Dates` | dates.dfy | `date.fromisoformat` for `YYYY-MM-DD`, and date order |
| `SiteContent` | site_content.dfy | the content root `src/`, its two directory scans, and the Markdown converter object whose `Meta` each conversion overwrites |
| `SitePaths` | site_paths.dfy | how `is_file()` under `src/` and Tornado's `StaticFileHandler` turn a request name into a file: components, `.` and `..`, directories |
| `SiteRouter` | site_router.dfy | the route table of `serve`, `MarkdownHandler`, `pre_title`, and the response to every request path |
| `BlogIndex` | blog_index.dfy | `BlogIndexHandler._get_entries`: the entry scan and the stable newest-first sort |
| `StaticExport` | static_export.dfy | `generate`: the export list, request names, output directories, fetch and write |
| `PageAssembler` | page_assembler.dfy | mdscript.py |
| `ArxivDigest` | arxiv_digest.dfy | arxivsum.py |
| `MusicOrganizer` | music_organizer.dfy | orgmusic.py |
| `BlogTasks` | blog_tasks.dfy | tasks.py: `JSONEncoder.default`, `blog_meta`, and the `years` and `entries` of `mkdocs_yml` |
| `PasswordGen` | password_gen.dfy | randpass.py |

## How code is modelled

Code that mutates state is modelled imperatively:

- The Markdown converter is a class. Its `meta` field is overwritten by each conversion.
- The output directory is a class with `dirs` and `files` fields. Removing, creating directories and writing change those fields.
- The server task is a class that `Cancel` stops.
- The music directory is a class whose `Organize` loop creates folders and renames files.

Loops in the source are methods with loops, each proved against a function that specifies it:

- the blog scan (`BlogIndex.ReadEntries`);
- the export loop (`StaticExport.ExportAll`);
- the options dictionary and the `body_string` appends (`PageAssembler.CollectOptions`, `PageAssembler.BodyAttributes`);
- the history strip loop and the feed/item loops (`ArxivDigest.StripEach`, `ArxivDigest.Digest`);
- the `meta` dictionary of `blog_meta` (`BlogTasks.BlogMeta`);
- the password loop (`PasswordGen.GenPass`).

Expressions stay functions, and the properties are lemmas about those functions.

### Outside inputs

Everything outside the code becomes a parameter:

- the Markdown converter: a function from text to HTML and metadata;
- the file system: maps from paths to contents;
- the order of directory scans: sequences;
- the HTTP client: a function from request path to response, namely the server's own `Respond`;
- the YAML parser: a function from text to an optional metadata map;
- the ID3 tag reader: a function from file name to an optional artist;
- the clock: an `Env.today` date;
- the random generator: a nondeterministic pick in its range.

## Model

| member | source | states |
|---|---|---|
| SiteContent.FileName | app.py:82 | the result is the last path component: a suffix of the path with no `/`, preceded by `/` when shorter |
| SiteContent.Renderer.Convert | app.py:53-54 | converting a text yields its HTML and replaces `meta` by that text's metadata |
| SiteRouter.Match | app.py:97-106 | a match of a group pattern yields one group, and the path is `/`, the group and, for the directory pattern, a trailing `/`. A `.html` pattern's group ends in `.html`. The `.+` group is non-empty. A group-free pattern matches character by character, `.` matching anything |
| SiteRouter.MatchComplete | app.py:104-106 | every path of the right shape is matched by the `.html`, directory and catch-all patterns, with the expected group |
| SiteRouter.RouteFrom | app.py:96-107 | the rule chosen is the first rule from `i` whose pattern matches, and no earlier one matches; `None` means no rule matches |
| SiteRouter.RouteTable | app.py:97-107 | the route of every path, in table order: blog index, `/`, `*.html`, `*/` redirect, any other non-empty path static; nothing else is routed |
| SiteRouter.EveryRootedPathRouted | app.py:97-107 | a path is routed if and only if it starts with `/` |
| SiteRouter.BlogIndexPatternDots | app.py:99 | the unescaped dots of `/blog/index.html` also match `/blog/index_html` |
| SiteRouter.HtmlNeverStatic | app.py:99-106 | a `.html` path always goes to the blog index or to a Markdown page, never to the static handler |
| SiteRouter.MarkdownSourceName | app.py:39-43 | with no group the source is `index.md`; a source name never starts with `/` |
| SiteRouter.SourceNameStripsSlashes | app.py:42-43 | leading `/` characters are dropped, then every `.html` becomes `.md` |
| SiteRouter.IndexHtmlSourceName | app.py:42-43 | `/index.html` maps to the source `index.md` |
| SiteRouter.MarkdownResponse | app.py:46-58 | 404 if and only if `is_file()` finds no source for the name; for a name whose components are all entries, if and only if the name is not a file. 200 if and only if the file found has a `title`, with that title and `pre_title` `"<title> - "`. Otherwise the render fails at `title[0]` (server error) |
| SiteRouter.RedirectLocationAsWritten | app.py:105 | the `Location` sent is exactly the group followed by `/index.html`; it starts with `/` only when the group does, and is `/index.html` for the empty group |
| SiteRouter.ResolvePath | app.py:105 | how a client resolves a `Location` that is a path reference without `.` or `..` components: an absolute one is kept; a relative one follows the request path up to and including its last `/` |
| SiteRouter.RedirectAsWrittenDoublesPath | app.py:105 | as written, for every directory name `g` not starting with `/`, without `.` or `..` components, `?` or `#`, and without `:` in its first component, `/g/` is redirected to `/g/g/index.html`, not to `/g/index.html` |
| SiteRouter.RedirectReference | app.py:105 | for such a `g`, the location as written is a path reference without dot components, so `ResolvePath` applies to it |
| SiteRouter.RedirectResolvesToIndex | app.py:105 | with the corrected location, `/g/` is redirected to `/g/index.html`, for every `g` without `.` or `..` components |
| SiteRouter.RouteRoot | app.py:103 | `/` goes to the Markdown handler without a group |
| SiteRouter.RouteIndexHtml | app.py:104 | `/index.html` goes to the Markdown handler with group `index.html` |
| SiteRouter.RootRendersIndex | app.py:39-44 | `/` renders `index.md`, and `/index.html` gets the same response as `/` |
| SiteRouter.PreTitles | app.py:54-69 | a Markdown page's `pre_title` is its title followed by ` - `; the blog index's is always `Articles - ` |
| SiteRouter.MissingSourceIsNotFound | app.py:48-51 | a `.html` request for which `is_file()` finds no mapped source gets a 404 |
| SiteRouter.BlogIndexResponse | app.py:66-70 | the blog index is a 200 if and only if every entry could be built; its entries are newest first |
| SiteRouter.MarkdownGet | app.py:34-44 | the handler's response is the one for its mapped source name |
| SiteRouter.BlogIndexGet | app.py:66-70 | the handler's response is the blog index response |
| SiteRouter.Handle | app.py:96-107 | the server's response to any path is the one its first matching route gives, with the redirect location as written |
| SiteRouter.StaticPathServed | app.py:106 | a path that no earlier route takes gets the static handler's answer: the bytes of the file that the normalised name reaches, a 403 for a directory or a name outside the root, a 404 otherwise. A name whose components are all entries is served if and only if it is a file, and refused with 403 if and only if it is a directory |
| SitePaths.Segments | app.py:48 | joining the components of a path with `/` gives the path back |
| SitePaths.SegmentsAppend | app.py:48 | the components of `a/b` are those of `a` followed by those of `b` |
| SitePaths.SplitAppend | app.py:48 | splitting at a character distributes over that character between two texts |
| SitePaths.SegmentsAround | app.py:48 | a component between two `/` is one component of its own |
| SitePaths.SegmentsAroundParent | app.py:48 | `a/x/../b` has the components of `a`, then `x` and `..`, then those of `b` |
| SitePaths.MarkdownFile | app.py:48-50 | the file `is_file()` finds is a key of the map; a name whose components are all entries is found if and only if it is a key, and then it is that key |
| SitePaths.StaticLookup | app.py:106 | the file served is a key of the map. A name whose components are all entries is served if and only if it is a key, as itself; when it is not a key it is refused with 403 if and only if it names a directory |
| SitePaths.PlainWalks | app.py:48-50 | a name whose components are all entries does not start with `/`, normalises to its own components, and the operating system's walk of it either fails or ends at them, and ends at them when the name is a file |
| SitePaths.LexicalEntries | app.py:106 | normalising components that are all entries appends them |
| SitePaths.PhysicalEntries | app.py:48-50 | the operating system's walk over entries either fails or appends them |
| SitePaths.PhysicalToFile | app.py:48-50 | the walk towards an existing file passes through directories only and reaches it |
| SitePaths.LexicalThen | app.py:106 | normalising `a` then `b` is normalising `b` from where `a` ended |
| SitePaths.PhysicalThen | app.py:48-50 | the operating system's walk of `a` then `b` is its walk of `b` from where `a` ended |
| SitePaths.ParentIsDir | app.py:48-50 | the parent of a directory is a directory |
| SitePaths.LexicalSkip | app.py:106 | an empty or `.` component does not change the normalised path |
| SitePaths.LexicalCancel | app.py:106 | a component followed by `..` does not change the normalised path, whatever the component names |
| SitePaths.PhysicalSkip | app.py:48-50 | an empty or `.` component does not change where the operating system's walk ends |
| SitePaths.PhysicalCancel | app.py:48-50 | a directory followed by `..` does not change where the operating system's walk ends |
| SitePaths.PhysicalStuck | app.py:48-50 | a component that is not a directory, followed by `..`, ends the operating system's walk |
| SitePaths.StaticSkips | app.py:106 | `a//b` and `a/./b` get the same static answer as `a/b` |
| SitePaths.StaticCancels | app.py:106 | `a/x/../b` gets the same static answer as `a/b`, whether or not `x` exists |
| SitePaths.MarkdownSkips | app.py:48-50 | `a//b` and `a/./b` find the same Markdown source as `a/b` |
| SitePaths.MarkdownCancels | app.py:48-50 | `a/x/../b` finds the same Markdown source as `a/b` when `x` is a directory |
| SitePaths.MarkdownNeedsDirectory | app.py:48-50 | `a/x/../b` finds no Markdown source when `x` is not a directory, unlike the static handler |
| SiteRouter.DirectoryRedirect | app.py:105 | a request for `/g/` is answered with a redirect to the location as written for `g` |
| Dates.ParseIsoDate | app.py:80 | a parsed date is a real calendar date, from text of the form `YYYY-MM-DD` |
| Dates.ParseFormatIsoDate | app.py:80 | parsing the ISO text of a valid date gives that date back |
| BlogIndex.FirstValue | app.py:80-81 | `metadata[key][0]`: succeeds if and only if the key has a value, and gives the first value; a missing key is `KeyError` |
| BlogIndex.WithHtmlSuffix | app.py:82 | the link ends in `.html`; a `name.md` becomes `name.html` |
| BlogIndex.EntryFor | app.py:76-84 | an entry exists if and only if the first `date` parses and a first `title` exists; it then has that date, that title and the file name with suffix `.html`. Otherwise the error is, in order: `KeyError` or `IndexError` on `date`, the invalid date text, `KeyError` or `IndexError` on `title` |
| BlogIndex.ScanSpec | app.py:75-84 | a scan succeeds if and only if every element succeeds, and then holds their results in scan order |
| BlogIndex.ScanPrefixFailure | app.py:75-84 | the first error ends the scan and is its result |
| BlogIndex.ScanEntriesSpec | app.py:75-84 | the list appended to holds one entry per scanned file, in scan order, exactly when every file gives one |
| BlogIndex.InsertNewestFirst | app.py:86 | inserting into a newest-first list keeps it newest first and adds exactly the one entry |
| BlogIndex.SortNewestFirst | app.py:86 | the sort result is newest first and a permutation of its input |
| BlogIndex.InsertKeepsOrderOfEqualDates | app.py:86 | insertion keeps the relative order of entries with the same date |
| BlogIndex.SortKeepsOrderOfEqualDates | app.py:86 | the sort is stable: entries with the same date keep their scan order |
| BlogIndex.EntriesSpec | app.py:72-86 | the entries succeed if and only if every scanned file gives an entry. They are newest first, a permutation of the scan, one per file, stable among equal dates |
| BlogIndex.MissingDateFailsIndex | app.py:80 | one post without a `date` makes the whole index fail |
| BlogIndex.ExampleOrder | app.py:86 | three entries dated 2024-01-01, 2024-06-15 and 2023-12-31 come out in the order 2024-06-15, 2024-01-01, 2023-12-31 |
| BlogIndex.ThreeEntriesSorted | app.py:86 | three entries whose dates are ordered y > x > z sort to y, x, z |
| BlogIndex.GetEntries | app.py:72-86 | the method's result is the specified entry list or its error |
| BlogIndex.ReadEntries | app.py:73-84 | the scan loop's result is the scan of its paths |
| BlogIndex.ReadEntry | app.py:76-84 | converting one file and reading `Meta` right after it gives that file's entry |
| StaticExport.EffectivePort | app.py:119 | `port or DEFAULT_PORT`: a missing or zero port becomes 4444; the port used is never 0 |
| StaticExport.ExportList | app.py:129 | the corrected list: the regular files of that scan, followed by `blog/index.html` |
| StaticExport.RequestNameAsWritten | app.py:134-135 | a name not ending in `.md` is used unchanged; a `.md` name has every earlier `.md` replaced and its suffix replaced by `.html` |
| Text.ReplaceAllBeforeSuffix | app.py:135 | replacing in a text that ends with the pattern replaces that final occurrence, after the replacements in the rest |
| StaticExport.SameRequestName | app.py:134-135 | the two request names agree on every name with no `.md` before its suffix |
| StaticExport.FilesOnlyAll | app.py:129 | keeping only regular files changes nothing when every scanned name is a file |
| StaticExport.RunSameNames | app.py:130-141 | two export runs whose naming functions agree on the list do the same thing |
| StaticExport.AsWrittenAgreesOnPlainSites | app.py:129-141 | on a site whose scan holds only files and no `.md` inside a name, the export as written equals the corrected one |
| StaticExport.RequestName | app.py:134-135 | a name not ending in `.md` is unchanged; a `.md` name has exactly its suffix replaced by `.html` |
| StaticExport.Parent | app.py:131 | the parent directory: the prefix before the last `/`, or empty |
| StaticExport.MakeDirsIn | app.py:131-132 | creating the directory succeeds if and only if no ancestor is a file, and adds the directory and all its ancestors |
| StaticExport.StepAs | app.py:130-141 | one export step writes exactly the fetched body under its name, or fails and writes nothing. It always fails on a non-200 response and never removes a directory |
| StaticExport.RunServed | app.py:137-141 | every file an export writes holds what the server sends for that name |
| StaticExport.ExportMatchesServer | app.py:137-141 | every file written, as written or corrected, holds the server's response for its own name |
| StaticExport.RunCovers | app.py:129-141 | an export run that succeeds writes exactly one file per listed name |
| StaticExport.RunFailsOnBadFetch | app.py:138 | a single non-200 response makes the run fail |
| StaticExport.ExportSpec | app.py:129-141 | a successful export writes exactly the request names of the list, every one of them served with 200, and always includes `blog/index.html` |
| StaticExport.ExportNeedsEveryPage | app.py:138 | the export succeeds only if every listed page is served with 200 |
| StaticExport.AsWrittenDottedDirectoryFails | app.py:129-140 | as written, a directory whose name contains a dot is listed and then fetched or opened as a file, so the run fails |
| StaticExport.MarkdownNameRoundTrip | app.py:134-135 | the request name of a `.md` source maps back to that source, and is routed to the Markdown handler |
| StaticExport.SourceOfHtmlName | app.py:43 | `p.html` maps back to the source `p.md` |
| StaticExport.RouteOfHtmlName | app.py:104 | a `.html` request name other than the blog index goes to the Markdown handler |
| StaticExport.AsWrittenName | app.py:135 | as written, `x.md/a.md` becomes `x.html/a.html`: the directory part is rewritten too |
| StaticExport.AsWrittenNameLeavesDirectory | app.py:131-135 | as written, such a file's output directory `x.md` differs from the directory of its name `x.html` |
| StaticExport.BlogIndexSourceName | app.py:134-135 | `blog/index.md` is exported as `blog/index.html` |
| StaticExport.AsWrittenExportFails | app.py:131-140 | as written, exporting `x.md/a.md` fails: the output file lies in a directory that was never created |
| StaticExport.ExportNameStaysInDirectory | app.py:131-135 | corrected, a request name keeps its source's directory |
| StaticExport.ServeTask.Cancel | app.py:142-143 | cancelling stops the server task |
| StaticExport.OutputDir.Remove | app.py:124 | `rmtree` leaves an empty output directory |
| StaticExport.OutputDir.MakeDirs | app.py:132 | the new contents are those `MakeDirsIn` gives, or unchanged on error |
| StaticExport.OutputDir.Write | app.py:140-141 | a write fails in a missing directory or onto a directory; otherwise it stores exactly the body under the name |
| StaticExport.ExportOne | app.py:130-141 | one pass of the loop, as written, changes the output directory as one export step with the as-written request name does |
| StaticExport.ExportAll | app.py:129-141 | the loop leaves the output directory and error of the as-written export run over its list |
| StaticExport.Generate | app.py:115-143 | `generate` leaves the contents and error of the whole export as written; the server task it started is cancelled, even on failure |
| Text.LStripChars | app.py:42 | `lstrip(chars)`: the result is a suffix, everything removed is in the set, and the result does not start with one of them |
| Text.Strip | code/arxivsum.py:38 | `strip()`: the result is the middle slice, everything around it is whitespace, and it neither starts nor ends with whitespace |
| Text.ReplaceAllAbsent | app.py:43 | `replace` on a text without the pattern leaves it unchanged |
| Text.JoinSplit | tasks.py:31 | joining the pieces of `split(sep)` with `sep` gives the text back |
| Text.SplitHead | tasks.py:50 | the first piece of a split is a prefix without the separator; there is one piece if and only if the separator does not occur |
| Text.ParseDecimalOfDecimal | tasks.py:14 | the decimal text of a number reads back as that number |
| PageAssembler.CollectOptions | code/mdscript.py:99-101 | the loop builds the options dictionary |
| PageAssembler.OptionsLastWins | code/mdscript.py:99-101 | an option is present if and only if it was given, and its value is the one given last |
| PageAssembler.BodyAttributes | code/mdscript.py:132-146 | the successive appends build the specified `body_string` |
| PageAssembler.NoColoursNoAttributes | code/mdscript.py:132-146 | with no colour option, `body_string` is empty |
| PageAssembler.AllColoursInOrder | code/mdscript.py:132-146 | with all four colours the attributes are `bgcolor`, `text`, `link`, `vlink`, in that order, each as ` attr="value"` |
| PageAssembler.GivenColourAppears | code/mdscript.py:132-146 | each colour given appears as its attribute |
| PageAssembler.BaseNameSpec | code/mdscript.py:155-161 | there is a base name if and only if the file name has a dot; it is the text before the first dot |
| PageAssembler.BaseNameOfDotPath | code/mdscript.py:155-158 | a file name starting with a dot has the empty base name |
| PageAssembler.AsciiLower | code/mdscript.py:212-213 | case folding of `re.IGNORECASE` on ASCII: upper-case letters map to lower case, and every other character is unchanged |
| PageAssembler.FindCI | code/mdscript.py:221-222 | `search` ignoring case: the first position where the tag matches, or none if it occurs nowhere |
| PageAssembler.ExtractTitle | code/mdscript.py:221-228 | the extracted title holds no `</title>`; it is empty when either tag is missing |
| PageAssembler.PreTextTagFree | code/mdscript.py:194-197 | the head written before the title holds no `<title>` or `</title>`, with or without DOCTYPE |
| PageAssembler.ExtractTitleOfPage | code/mdscript.py:206-232 | the title written into a page is read back from it, as long as it holds no `</title>` |
| PageAssembler.LongDateInjective | code/mdscript.py:202-204 | different dates give different `%d %B %Y` texts |
| PageAssembler.Optional | code/mdscript.py:177-191 | an enabled header or footer that exists contributes exactly its text; a disabled or missing one contributes nothing |
| PageAssembler.ProcessOptions | code/mdscript.py:103-152 | the option tests give the specified settings |
| PageAssembler.RunScript | code/mdscript.py:94-237 | the script's outcome is the specified one for its options, arguments and environment |
| PageAssembler.ScriptExits | code/mdscript.py:109-161 | `-h` gives usage, otherwise `-v` gives the version. Otherwise no file, or a file name with no dot, stops the script. Any page is written to the base name plus `.html` |
| PageAssembler.PageShape | code/mdscript.py:194-232 | the page always holds the `<html>` tag and META line, and ends with `</body>\n</html>` |
| PageAssembler.DocTypeUnlessNoDoctype | code/mdscript.py:126-197 | the page starts with the DOCTYPE if and only if `-n` was not given; the date is used if and only if `-d` was not given |
| PageAssembler.BodyContent | code/mdscript.py:177-204 | the body ends with header, converted text, footer, then the "Last updated" line only when the date is used. Header and footer are the files' texts when enabled and present, and empty otherwise |
| PageAssembler.TitleRule | code/mdscript.py:206-230 | a new page, or a non-empty `-t`, gets the given title; otherwise the old page's extracted title |
| PageAssembler.WrittenTitleReadsBack | code/mdscript.py:206-232 | the title chosen is the title a later extraction finds in the written page |
| PageAssembler.TitleSurvivesRerun | code/mdscript.py:206-237 | running again without `-t` on the written page keeps the title |
| ArxivDigest.LineClose | code/arxivsum.py:17 | the first `>` that comes before any newline, or none if a newline comes first |
| ArxivDigest.StripHTML | code/arxivsum.py:13-18 | the result is never longer than the input |
| ArxivDigest.StripHTMLSubsequence | code/arxivsum.py:17-18 | the kept characters appear in the input in the same order |
| ArxivDigest.StripHTMLNoTag | code/arxivsum.py:17-18 | a text without `<` is returned unchanged |
| ArxivDigest.StripHTMLTag | code/arxivsum.py:17-18 | a `<...>` span on one line is deleted whole |
| ArxivDigest.CleanUnchanged | code/arxivsum.py:17-18 | a text with no removable span is returned unchanged |
| ArxivDigest.StripHTMLClean | code/arxivsum.py:17-18 | the result holds no removable span |
| ArxivDigest.StripHTMLIdempotent | code/arxivsum.py:17-18 | stripping twice equals stripping once |
| ArxivDigest.ReplaceMarkerAbsent | code/arxivsum.py:22-25 | text without `<` holds no marker and is left unchanged |
| ArxivDigest.UnobfuscateAddress | code/arxivsum.py:20-25 | `user<ATATAT>host<DOTDOTDOT>tld` becomes `user@host.tld` |
| ArxivDigest.SenderAddress | code/arxivsum.py:53 | the sender address is `depalatis@gmail.com` |
| ArxivDigest.ReadLines | code/arxivsum.py:36 | `readlines`: the lines concatenate to the file; no line is empty; every line but the last ends in a newline, and a newline only ends a line |
| ArxivDigest.LoadHistory | code/arxivsum.py:31-39 | the history is `['']` without a file, or else the stripped lines of the file |
| ArxivDigest.StripEach | code/arxivsum.py:37-38 | the loop replaces each line by its stripped text |
| ArxivDigest.StripLineClean | code/arxivsum.py:38 | a stripped line has no newline and no surrounding whitespace |
| ArxivDigest.HistoryClean | code/arxivsum.py:32-39 | every loaded history entry is such a clean line |
| ArxivDigest.StripWrittenLine | code/arxivsum.py:38 | a clean id written with its newline strips back to itself |
| ArxivDigest.ReadWrittenLines | code/arxivsum.py:36 | the history text written reads back as one line per id |
| ArxivDigest.HistoryRoundTrip | code/arxivsum.py:32-39 | loading a history file written from clean ids gives those ids back |
| ArxivDigest.ItemIdIsLastSegment | code/arxivsum.py:71 | the item id is the text after the last `/` of the id field |
| ArxivDigest.LastPiece | code/arxivsum.py:71 | `split(c)[-1]` is the text after the last `c` |
| ArxivDigest.TakeNew | code/arxivsum.py:70-75 | the new items are a prefix of the feed, none in the history, ended by the first item whose id is in the history |
| ArxivDigest.Underline | code/arxivsum.py:69 | the underline has one `=` per character of the title |
| ArxivDigest.AddNewItems | code/arxivsum.py:70-86 | the item loop appends exactly the entries of the feed's new items and their ids, and counts them |
| ArxivDigest.Digest | code/arxivsum.py:63-88 | the feed loop builds the specified message and writes the ids of all new items. `new_count` equals both the number of ids written and the number of items listed |
| ArxivDigest.NewItemsUnseen | code/arxivsum.py:72-78 | no id written was in the history |
| ArxivDigest.NothingNew | code/arxivsum.py:72-75 | nothing is new if and only if every feed is empty or starts with an id in the history |
| ArxivDigest.RunScript | code/arxivsum.py:31-96 | a run as written: its history file and its mail; mail is sent if and only if `new_count` is not 0 |
| ArxivDigest.MailOnlyWhenNew | code/arxivsum.py:91-96 | mail goes out if and only if some feed starts with an unseen item, and it is the digest |
| ArxivDigest.NewItemsClean | code/arxivsum.py:71-77 | with clean ids in the feeds, the ids written are clean lines |
| ArxivDigest.HistoryGrows | code/arxivsum.py:40 | corrected, the next run loads the new ids followed by the old history |
| ArxivDigest.NoResend | code/arxivsum.py:72-77 | corrected, a later run never reports an id that was sent before or was already in the history |
| ArxivDigest.AsWrittenResends | code/arxivsum.py:40-77 | as written, a feed with one item is mailed on the first run, not on the second, and mailed again on the third |
| ArxivDigest.AsWrittenQuietRun | code/arxivsum.py:40 | as written, a run with nothing new leaves an empty history file |
| ArxivDigest.FirstRunLoadsBack | code/arxivsum.py:32-40 | the first run mails, and the next run loads exactly the item's id |
| ArxivDigest.SingleFeedRun | code/arxivsum.py:63-96 | a one-item feed is mailed and recorded if and only if its id is not in the history |
| ArxivDigest.SingleFeed | code/arxivsum.py:70-78 | a one-item feed's new items are that item, or none when its id was seen |
| MusicOrganizer.Extension | code/orgmusic.py:97 | the last three characters; for a two-character name the last character, because the slice start `-1` counts from the end; for a shorter name the whole name |
| MusicOrganizer.IsMp3Suffix | code/orgmusic.py:97-101 | a file is processed if and only if it ends in `mp3` with `m` and `p` in either case |
| MusicOrganizer.KeepAllowedAllowed | code/orgmusic.py:111-112 | after the substitution only letters, digits, `_`, `-` and `.` remain |
| MusicOrganizer.RemoveNulDeletesOnlyNul | code/orgmusic.py:107 | removing NULs deletes each NUL and keeps every other character, in order |
| MusicOrganizer.RemoveNulAppend | code/orgmusic.py:107 | removing NULs distributes over concatenation |
| MusicOrganizer.KeepAllowedDeletesOnlyDisallowed | code/orgmusic.py:111-112 | the substitution deletes each disallowed character and keeps every allowed one, in order |
| MusicOrganizer.KeepAllowedAppend | code/orgmusic.py:111-112 | the substitution distributes over concatenation |
| MusicOrganizer.SanitisedCharacters | code/orgmusic.py:107-112 | the sanitised artist holds only allowed characters and no NUL |
| MusicOrganizer.SanitiseFixed | code/orgmusic.py:107-112 | sanitising leaves a name unchanged if and only if all its characters are allowed |
| MusicOrganizer.SanitiseIdempotent | code/orgmusic.py:107-112 | sanitising twice equals sanitising once |
| MusicOrganizer.SkippedUnchanged | code/orgmusic.py:99-116 | a non-MP3 or untagged file leaves the directory unchanged |
| MusicOrganizer.MovedIntoArtistFolder | code/orgmusic.py:119-129 | a tagged MP3 moves under its own name into `artist/`. The folder is created if missing and keeps its other files. Nothing else changes |
| MusicOrganizer.NeverOverwrites | code/orgmusic.py:125-127 | an existing destination is never overwritten: the directory is unchanged |
| MusicOrganizer.FolderCreatedOnlyWhenMissing | code/orgmusic.py:123-124 | an existing artist folder is kept with all its files |
| MusicOrganizer.StepKeepsFiles | code/orgmusic.py:94-129 | one step never loses a file's data |
| MusicOrganizer.OrganizeKeepsFiles | code/orgmusic.py:87-129 | organising never loses a file's data |
| MusicOrganizer.StopAfterCrash | code/orgmusic.py:129 | once a rename has failed, the run stops |
| MusicOrganizer.DotDotArtistLeavesDirectory | code/orgmusic.py:119-129 | as written, an artist that sanitises to `..` moves the file into the parent directory |
| MusicOrganizer.DotDotFromTag | code/orgmusic.py:107-112 | the tag `?.?.` sanitises to `..` |
| MusicOrganizer.CorrectedStaysInside | code/orgmusic.py:119-129 | corrected, organising never changes the parent directory |
| MusicOrganizer.MusicDir.Organize | code/orgmusic.py:87-129 | the loop leaves the directory that the organisation of the listing specifies, and reports whether a rename failed |
| MusicOrganizer.MusicDir.OrganizeOne | code/orgmusic.py:96-129 | one pass changes the directory as one step does |
| MusicOrganizer.MusicDir.MoveToArtist | code/orgmusic.py:119-129 | creating the folder and renaming change the directory as the operating system resolves `path/artist/file` |
| BlogTasks.Default | tasks.py:12-15 | a date encodes to text that decodes back to it; any other object is refused |
| BlogTasks.DecodeEncodeDate | tasks.py:14 | decoding the encoding of a date gives the date |
| BlogTasks.DecodeEncodeAll | tasks.py:14 | the encoding is invertible on all dates |
| BlogTasks.EncodeDateNotPadded | tasks.py:14 | year, month and day are written without zero padding; a one-digit month or day takes one character |
| BlogTasks.FrontMatterBetween | tasks.py:31 | the front matter is the stripped text between the first and second `---\n` |
| BlogTasks.FrontMatterMissing | tasks.py:31 | without a `---\n` the post has no second piece: `IndexError` |
| BlogTasks.MarkdownFiles | tasks.py:21-22 | exactly the listed names ending in `.md` are read |
| BlogTasks.ThroughJson | tasks.py:34-40 | a JSON round trip of metadata JSON can encode keeps the keys, turns dates into text that decodes back to them, and keeps every other value |
| BlogTasks.Dumps | tasks.py:34 | `json.dumps` succeeds if and only if every post's metadata can be encoded, and otherwise raises `TypeError`. Its result has the same paths, each holding that post's metadata through JSON |
| BlogTasks.BlogMeta | tasks.py:18-34 | the loop gives the specified metadata map or error |
| BlogTasks.FailureStays | tasks.py:25-32 | the first failing post ends the loop |
| BlogTasks.CollectKeys | tasks.py:25-32 | the keys are exactly the posts' paths |
| BlogTasks.CollectValues | tasks.py:25-32 | each path maps to that post's metadata |
| BlogTasks.CollectFails | tasks.py:25-32 | the loop fails if and only if some post fails |
| BlogTasks.CollectError | tasks.py:25-32 | a failed loop reports the error of some post |
| BlogTasks.DumpedFails | tasks.py:25-34 | the loop followed by `json.dumps` fails if and only if some post fails or cannot be encoded; a failure of the loop itself carries some post's error |
| BlogTasks.ReadErrorFirst | tasks.py:25-34 | a post with no separator or rejected front matter fails `blog_meta` before `json.dumps` runs, so the error is not its `TypeError` |
| BlogTasks.BlogMetaFails | tasks.py:18-34 | `blog_meta` fails if and only if some Markdown post has no separator, front matter the parser rejects, or a value JSON cannot encode |
| BlogTasks.BlogMetaResult | tasks.py:18-34 | on success there is one entry per post, keyed by its path, holding its front matter passed through JSON |
| BlogTasks.PostMetaOfFrontMatter | tasks.py:26-32 | a post's metadata is what the parser makes of its stripped front matter |
| BlogTasks.YearOfPrefix | tasks.py:50 | the year is the text of the date before its first `-` |
| BlogTasks.LexTotal | tasks.py:51 | string order is total |
| BlogTasks.LexTransitive | tasks.py:51 | string order is transitive |
| BlogTasks.LexAsymmetric | tasks.py:51 | string order is asymmetric |
| BlogTasks.InsertDescending | tasks.py:51 | insertion adds exactly the one element |
| BlogTasks.SortDescending | tasks.py:51 | the sort is a permutation of its input |
| BlogTasks.InsertDescendingSorted | tasks.py:51 | insertion keeps a list descending |
| BlogTasks.SortDescendingSorted | tasks.py:51 | `sort_values(ascending=False)` gives a descending list |
| BlogTasks.Unique | tasks.py:52 | `unique` keeps exactly the same elements |
| BlogTasks.UniqueOfDescending | tasks.py:51-52 | the distinct values of a descending list are strictly descending |
| BlogTasks.YearsDistinctDescending | tasks.py:49-53 | `years` is strictly descending and holds exactly the years of the posts |
| BlogTasks.GroupHas | tasks.py:55-61 | a post whose date starts with the year is in that year's group |
| BlogTasks.GroupOnly | tasks.py:55-61 | a group holds only posts whose date starts with its year |
| BlogTasks.PostInItsYear | tasks.py:55-61 | every post appears, as (title, short path), in the group of its own year |
| BlogTasks.OnlyOwnYearOfSameLength | tasks.py:58 | among years of the same length, a date starts only with its own year |
| BlogTasks.PostsRows | tasks.py:43-47 | the data frame has one row per path, in order, with its title and date. Building it fails if and only if a path lacks a title or a text date; a missing title is reported as `KeyError: 'title'` before a missing date as `KeyError: 'date'` |
| BlogTasks.Column | tasks.py:45-46 | a column holds each path's value under the key, in order, and fails with the key's `KeyError` exactly when some path lacks it |
| BlogTasks.MkdocsNavListsEveryPost | tasks.py:40-61 | the navigation's years are strictly descending, and every path's post is listed under its year |
| BlogTasks.KeyOrderInMeta | tasks.py:32-41 | every path of the key order is a key of the dictionary `blog_meta` filled |
| BlogTasks.MkdocsYmlListsEveryPost | tasks.py:18-61 | when both tasks succeed, every Markdown file of the blog directory is listed under the year of its front matter's date, with its title and its path below `blog/` |
| Text.LStripRun | tasks.py:57 | `lstrip(chars)` removes exactly the leading run of characters from the set |
| BlogTasks.BlogPathShortened | tasks.py:57 | `content/blog/name` shortens to `blog/name` |
| BlogTasks.CharSetNotPrefix | tasks.py:57 | `lstrip("content/")` strips a character set, not a prefix: `content/note.md` shortens to `.md` |
| PasswordGen.GenPass | code/randpass.py:42-57 | the password has `num_chars - 1` characters (none when `num_chars` < 1), each from `!` to `z`; it starts empty and grows by one character per iteration |
| PasswordGen.ParseInt | code/randpass.py:31 | an accepted argument holds a digit, and is a literal (blanks, an optional sign, blanks, digits, blanks) read with that literal's value |
| PasswordGen.ParseIntLiteral | code/randpass.py:31 | every such literal is accepted with its value |
| PasswordGen.ParseIntText | code/randpass.py:31 | the decimal text of any integer is accepted as that integer |
| PasswordGen.Run | code/randpass.py:26-39 | the error message is printed, and no password, exactly when the argument is missing, is not an integer literal, or asks for a list that `range` cannot build (more than `Py_ssize_t` items, or more than memory holds); otherwise the password has `n - 1` characters for the argument's value `n`, each from `!` to `z` |

## Left out

- HTML rendering by Markdown, Tornado templates and HTTP headers: the converter is a function parameter, and a page is described by its title, `pre_title` and converted HTML.
- Server concurrency: the asyncio event loop, `listen`, and `await` on the client. The export fetches pages one at a time, through the server's response function.
- URL percent-decoding of route groups.
- SitePaths.StaticLookup: a name that leaves the root and comes back into it, such as `../src/a.css`, is refused with 403 here. Tornado serves it, because it compares only the final absolute path with the root.
- SitePaths.MarkdownFile: a `..` that climbs above `src/` finds nothing here. app.py would read a file outside `src/` (see "Errors the code raises"); the content map holds only files under `src/`.
- Symbolic links under `src/`: the content map holds regular files and their directories only.
- SiteRouter.ResolvePath: `remove_dot_segments` (section 5.2.4 of RFC 3986), and references with a scheme, an authority, a query or a fragment, are not modelled. The redirect lemmas therefore require a directory name without `.` or `..` components, `?`, `#`, or a `:` in its first component.
- PasswordGen.Run: `Py_ssize_t` is taken as 64 bits. The memory available to `range` is a parameter, and a list of more items than it holds raises `MemoryError`.
- BlogTasks.Dumps: the `TypeError` message does not name the type of the value that could not be encoded. The metadata maps are unordered, so which value `json.dumps` meets first is not modelled.
- Dates inside YAML lists or mappings: `JSONEncoder.default` turns them into text too, but `Field.JsonValue` stands only for values that JSON reads back unchanged. A list or mapping that holds a value the encoder refuses is modelled as one `Unserialisable` value.
- `serve` and `main` of app.py: argument parsing, logging setup and the blocking wait.
- Dates.ParseIsoDate: accepts only `YYYY-MM-DD`. Python 3.11's `fromisoformat` also accepts other ISO 8601 forms, such as `YYYYMMDD`.
- PageAssembler.LongDate: formats only years from 1900 on. Python 2's `strftime` raises for earlier years, and the clock is assumed to give such a date.
- The `markdown` subprocess, file reads and writes, `datetime.today()`, and the usage and version texts of mdscript.py: they are inputs or outcomes.
- feedparser, the SMTP session, and the `NameError` that the unqualified `SMTPConnectError` raises when the connection fails: only the message that would be mailed is modelled.
- The fixed category list of arxivsum.py, and its `strip_html` switch: the switch is the constant `True`, so only that branch exists.
- pyid3lib, `dircache`, the command-line options of orgmusic.py, and the `AttributeError` cases other than a missing tag.
- BlogTasks.PostMetaOfFrontMatter: YAML parsing is a function parameter. Empty front matter, for which `yaml.load` returns `None`, is not told apart from a parse error.
- pandas and jinja2 are not modelled as libraries: only the lists they compute are, and the template rendering is left out.
- BlogTasks.OnlyOwnYearOfSameLength: `startswith` puts a post into the group of every year that is a prefix of its date. The model states this, and proves that posts are grouped only by their own year among years of equal length.
- PasswordGen.GenPass: the seed from `time.time()` and the generator's distribution are not modelled. Each character is any pick in the range.
- The tracebacks printed after the error message of randpass.py.
- ArxivDigest.RunScript and MusicOrganizer.MusicDir.Organize: they replay the scripts as written. Their corrected counterparts are stated as functions with lemmas (see the findings).
- SiteRouter.Handle, StaticExport.ExportOne, StaticExport.ExportAll and StaticExport.Generate: they replay app.py as written. The corrected redirect and export are functions with lemmas (see the findings).
- The `GetoptError` that `getopt` raises at code/mdscript.py:95 on an unknown option or a missing option argument: `PageAssembler.RunScript` takes the options already parsed.
- A directory whose name ends in `.md` inside the blog directory: `glob("*.md")` lists it at tasks.py:22 and app.py:75, and reading it raises `IsADirectoryError`. The model's listings hold files only, and its reads always succeed.
- YAML front matter that is not a mapping: `metadata[key]["title"]` at tasks.py:45 then raises `TypeError`. The parser parameter returns a mapping or nothing.

## Findings

| source | as written | input that shows it | evidently intended | confidence | as-written member | corrected member |
|---|---|---|---|---|---|---|
| app.py:105 | The redirect location `{0}/index.html` is relative to the request path | `GET /foo/` redirects to `foo/index.html`, which resolves to `/foo/foo/index.html` | `/foo/` redirects to `/foo/index.html` | high; not executed | SiteRouter.RedirectAsWrittenDoublesPath | SiteRouter.RedirectResolvesToIndex |
| app.py:129 | `glob("**/*.*")` also lists directories whose name contains a dot | a directory `src/v1.2/` is fetched and opened as a file, and the export fails | only regular files are exported | high; not executed | StaticExport.AsWrittenDottedDirectoryFails | StaticExport.ExportSpec |
| app.py:134-135 | `name.replace(".md", ".html")` rewrites every occurrence, including in directory names | `notes.md/a.md` is written to `notes.html/a.html`, but only `notes.md/` was created, so `open` fails | only the suffix is replaced, so the file stays in its directory | high; not executed | StaticExport.AsWrittenExportFails | StaticExport.ExportNameStaysInDirectory |
| code/arxivsum.py:40 | The history file is truncated when opened, and line 77 then writes only this run's new ids | a feed unchanged over three runs: the first run mails, the second writes an empty history, and the third mails the same items again | the history keeps the ids already sent, so nothing is mailed twice | high; not executed | ArxivDigest.AsWrittenResends | ArxivDigest.NoResend |
| code/orgmusic.py:107-121 | The sanitised artist is joined into a path without checking for `.` or `..` | the artist tag `?.?.` sanitises to `..`, and the file moves into the parent directory | an artist that names no sub-directory is skipped | medium; not executed | MusicOrganizer.DotDotArtistLeavesDirectory | MusicOrganizer.CorrectedStaysInside |

### Which definition the model uses

- The methods replay the code as written:
  - `SiteRouter.Handle` and `SiteRouter.Respond` send the redirect location as written;
  - `StaticExport.Generate`, `StaticExport.ExportAll` and `StaticExport.ExportOne` use the export list and request names as written;
  - `ArxivDigest.RunScript` and `MusicOrganizer.MusicDir.Organize` replay their scripts.
- The corrected behaviour is defined next to them as functions, and the lemmas above are proved about those:
  - `SiteRouter.RedirectLocation`, with `SiteRouter.RedirectResolvesToIndex`;
  - `StaticExport.Export`, with `StaticExport.ExportSpec` and `StaticExport.ExportNameStaysInDirectory`; `StaticExport.AsWrittenAgreesOnPlainSites` shows the two exports agree on sites without a dotted directory or an inner `.md`;
  - `ArxivDigest.Run`, with `ArxivDigest.HistoryGrows` and `ArxivDigest.NoResend`;
  - `MusicOrganizer.OrganizeCorrected`, with `MusicOrganizer.CorrectedStaysInside`.

### Errors the code raises

- app.py:48 joins the requested name to `src/` without a check for `..`. `is_file()` walks through it as the operating system does (`SitePaths.MarkdownCancels`). A `..` that would leave `src/` finds nothing in the content map.
- app.py:80-81 raise `KeyError` or `IndexError` on a post without `date` or `title`, so one such post fails the whole blog index (`BlogIndex.MissingDateFailsIndex`).
