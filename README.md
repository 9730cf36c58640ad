# Sitemap generator, modelled in Dafny

This project models `scripts/generate-sitemap.ts`. That script writes `public/sitemap.xml`, a
sitemaps.org 0.9 `urlset` for the documentation site at `https://s.ee/docs`. The script is a
sequential pipeline in four stages:

1. **Discovery** (`getAllMdxFiles`). A recursive walk over `./content/docs` collects every
   non-directory entry whose name ends in `.mdx`, in `readdir` order. Each sub-directory's
   files are spliced in where the directory stands.
2. **URL derivation** (`mdxPathToUrl`). The `content/docs` prefix and the `.mdx` suffix are
   stripped, a trailing `/index` collapses to `/`, a missing trailing slash is added and the
   base URL is prepended.
3. **Records and ordering** (the loop and the sort in `generateSitemap`). The script builds
   one `{loc, lastmod}` record per file. `lastmod` is the date part of the file's modification
   time. The records are sorted by `loc`.
4. **Serialisation** (the template in `generateSitemap`). An XML declaration and a `urlset`
   element are written, with one `<url>` block per record, joined by newlines. The
   `priority` is `1.0` for the root URL and `0.8` for every other URL. Nothing is escaped.

The modules follow those stages:

- `Text` holds the shared string helpers: `endsWith`, `split(c)[0]`, `join`, and
  character-wise order.
- `Discovery` holds the directory tree and the walk.
- `Urls` holds `mdxPathToUrl`.
- `Entries` holds the record loop.
- `Ordering` holds the sort.
- `Xml` holds the text, together with a decoder that reads the text back.
- `Sitemap` holds the whole run.

The walk and the record loop are methods with loops. Each is proved equal to a function, and
the properties are lemmas about those functions. URL derivation, the order and the text are
functions.

Inputs and outputs:

- The file system is an input:
  - a tree of `Node`s stands for what `readdir` returns;
  - a map from path to ISO-8601 timestamp stands for what `stat(...).mtime.toISOString()`
    returns. A path missing from the map is a file whose `stat` fails.
- The run returns the text that would be written and the URL count that would be logged.

## Model

| member | source | states |
|---|---|---|
| Discovery.GetAllMdxFiles | scripts/generate-sitemap.ts:8-23 | the loop with its recursion and pushes returns exactly `MdxFiles(dir, entries)` |
| Discovery.MdxFilesAppend | scripts/generate-sitemap.ts:12-20 | the files of a concatenation of entry lists are the files of the first list, followed by those of the second |
| Discovery.MdxFilesIsPreorderSelection | scripts/generate-sitemap.ts:12-22 | the result is the pre-order listing of all entries at any depth (each directory before its contents, siblings in `readdir` order), filtered to the non-directory `.mdx` entries |
| Discovery.EntryFilesIsPreorderSelection | scripts/generate-sitemap.ts:13-19 | one entry contributes its own path only when it is a non-directory `.mdx` entry, and a directory contributes everything below it |
| Discovery.MdxFilesShape | scripts/generate-sitemap.ts:13-18 | every returned path ends in `.mdx` and lies strictly below the directory with its leading "./" dropped, followed by "/" (for `./content/docs`, below `content/docs/`) |
| Discovery.DirectoryNotReported | scripts/generate-sitemap.ts:14-17 | a directory is never itself returned, even when its name ends in `.mdx`: the `isDirectory()` test comes first |
| Discovery.MdxFilesNoDuplicates | scripts/generate-sitemap.ts:12-22 | when sibling names are distinct and contain no "/" (true of a real directory), every file appears exactly once |
| Discovery.Normalize | scripts/generate-sitemap.ts:13 | `join` changes the directory at most by dropping one leading "./", and leaves a directory that is already normal (not ".", no leading "./") as it is |
| Discovery.MdxFilesParts | scripts/generate-sitemap.ts:12-19 | for a directory whose form with one leading "./" dropped is neither "." nor starts with "./" again, in a tree of non-empty, "/"-free names, every returned path is that form of the directory, then a part that is empty or ends in a name, then "/", then a "/"-free name ending in `.mdx` |
| Discovery.EntryFilesParts | scripts/generate-sitemap.ts:13-18 | the same for the paths one entry contributes |
| Discovery.EntryFilesBelow | scripts/generate-sitemap.ts:13-18 | every path an entry contributes is the entry's own path or lies below it |
| Discovery.MdxFilesMember | scripts/generate-sitemap.ts:12-20 | every returned path comes from one entry of the listing |
| Discovery.PathJoinNormal | scripts/generate-sitemap.ts:13 | joining a name onto a normalised directory gives a normalised path |
| Urls.LeadInLength | scripts/generate-sitemap.ts:28 | the greedy `\.?\/?` lead-in takes at most two characters of the path |
| Urls.MdxPathToUrl | scripts/generate-sitemap.ts:25-47 | the `url === '/'` special case returns what the general case would, so the URL is always the base URL followed by the relative URL |
| Urls.RelativeUrl | scripts/generate-sitemap.ts:27-39 | the relative URL always ends in "/" |
| Urls.EnsureTrailingSlash | scripts/generate-sitemap.ts:37-39 | the result ends in "/" |
| Urls.MdxPathToUrlShape | scripts/generate-sitemap.ts:36-46 | every URL starts with `https://s.ee/docs`, ends in "/" and is longer than the base URL |
| Urls.StripDocsPrefixRemovesLeadIn | scripts/generate-sitemap.ts:28 | each of the lead-ins "", "/", ".", "./" before `content/docs` is removed together with it, and nothing after it is |
| Urls.StripDocsPrefixNoMatch | scripts/generate-sitemap.ts:28 | a path that starts in none of those four ways is left unchanged |
| Urls.StripMdxSuffixUndoesAppend | scripts/generate-sitemap.ts:29 | a final `.mdx` is removed |
| Urls.StripMdxSuffixKeepsOthers | scripts/generate-sitemap.ts:29 | a path that does not end in `.mdx` is unchanged |
| Urls.DotSlashIrrelevant | scripts/generate-sitemap.ts:27-29 | `./content/docs<rest>` and `content/docs<rest>` have the same URL |
| Urls.CollapseIndexOfIndex | scripts/generate-sitemap.ts:32-34 | a trailing `/index` becomes a trailing "/" |
| Urls.EnsureTrailingSlashKeeps | scripts/generate-sitemap.ts:37-39 | a URL that already ends in "/" is kept unchanged |
| Urls.RelativeUrlOfDocsPage | scripts/generate-sitemap.ts:27-39 | the relative URL of `content/docs<tail>.mdx` is the index collapse of `<tail>`, with a slash added when it is missing |
| Urls.PageRelativeUrl | scripts/generate-sitemap.ts:27-39 | for `rel` non-empty, not ending in "/" and not ending in the segment "index", the page `content/docs/<rel>.mdx` has the relative URL `/<rel>/` |
| Urls.PageUrl | scripts/generate-sitemap.ts:25-47 | under the same conditions on `rel`, that page's URL is `BASE_URL/<rel>/` |
| Urls.IndexRelativeUrl | scripts/generate-sitemap.ts:27-39 | `content/docs<dir>/index.mdx` has the relative URL `<dir>/` |
| Urls.IndexUrl | scripts/generate-sitemap.ts:25-47 | that file's URL is `BASE_URL<dir>/`; with `dir` empty this is the root `BASE_URL/` |
| Urls.CollidingRelativeUrls | scripts/generate-sitemap.ts:32-39 | for `rel` non-empty, not ending in "/" and not ending in the segment "index", `content/docs/<rel>.mdx` and `content/docs/<rel>/index.mdx` have the same relative URL |
| Urls.IndexCollapseCollides | scripts/generate-sitemap.ts:32-39 | under the same conditions on `rel`, the mapping is not injective: those two different paths have one URL |
| Urls.RelativeUrlAvoids | scripts/generate-sitemap.ts:27-39 | the rewrite adds no character except "/" |
| Urls.MdxPathToUrlAvoids | scripts/generate-sitemap.ts:25-47 | a character other than "/" occurs in the URL only when it occurs in the path or in the base URL |
| Urls.RootIndexExample | scripts/generate-sitemap.ts:25-47 | `content/docs/index.mdx` maps to `https://s.ee/docs/` |
| Urls.NestedIndexExample | scripts/generate-sitemap.ts:25-47 | `content/docs/api/index.mdx` maps to `https://s.ee/docs/api/` |
| Urls.PageExample | scripts/generate-sitemap.ts:25-47 | `content/docs/api/overview.mdx` maps to `https://s.ee/docs/api/overview/` |
| Urls.FooCollisionExample | scripts/generate-sitemap.ts:32-46 | `content/docs/foo.mdx` and `content/docs/foo/index.mdx` both map to `https://s.ee/docs/foo/` |
| Urls.TrailingSlashNotCollapsed | scripts/generate-sitemap.ts:37-39 | only a missing slash is added, and doubled slashes are kept: `content/docs//index.mdx` maps to `https://s.ee/docs//`; the walk never builds such a path |
| Urls.NotIndexTail | scripts/generate-sitemap.ts:32 | a path ending in "/" and then a "/"-free stem other than `index` does not end in `/index` |
| Urls.StemTail | scripts/generate-sitemap.ts:32-39 | after a directory part that is empty or ends in a name and a "/"-free stem, the index collapse and the slash step leave exactly one "/" at the end, for the stems "" and `index` as for any other |
| Urls.DiscoveredRelativeUrl | scripts/generate-sitemap.ts:27-39 | the relative URL of `content/docs<d>/<name>.mdx` (with `d` empty or ending in a name, `name` free of "/") ends in exactly one "/" |
| Urls.DiscoveredUrl | scripts/generate-sitemap.ts:25-47 | so does its absolute URL |
| Entries.LastModified | scripts/generate-sitemap.ts:49-52 | the date is a prefix of the timestamp and holds no "T" |
| Entries.LastModifiedOfTimestamp | scripts/generate-sitemap.ts:51 | for a timestamp `<date>T<time>` the result is exactly `<date>` |
| Entries.UrlEntriesOk | scripts/generate-sitemap.ts:57-63 | when every `stat` succeeds, the result has exactly one record per file, in discovery order, with `loc = mdxPathToUrl(file)` and the file's date |
| Entries.UrlEntriesErr | scripts/generate-sitemap.ts:59-63 | the first file whose `stat` fails aborts the loop with that file's error |
| Entries.UrlEntriesSnoc | scripts/generate-sitemap.ts:59-63 | one more iteration either appends that file's record or fails on that file |
| Entries.UrlEntriesPrefixErr | scripts/generate-sitemap.ts:59-63 | a failure among the first files is the failure of the whole loop |
| Entries.BuildUrls | scripts/generate-sitemap.ts:57-63 | the loop as written, with its pushes and the early exit on a failing `stat`, returns exactly `UrlEntries(files, stamps)` |
| Ordering.SortByLocPermutes | scripts/generate-sitemap.ts:66 | the sorted list holds the same records, each as many times as before |
| Ordering.SortByLocSorted | scripts/generate-sitemap.ts:66 | the sorted list ascends by `loc` |
| Ordering.SortByLocStable | scripts/generate-sitemap.ts:66 | records with equal `loc` (colliding files) keep their discovery order |
| Ordering.InsertPermutes | scripts/generate-sitemap.ts:66 | inserting one record adds exactly that record |
| Ordering.InsertSorted | scripts/generate-sitemap.ts:66 | inserting into a sorted list keeps it sorted |
| Ordering.InsertAgree | scripts/generate-sitemap.ts:66 | the comparison reads only `loc`: inserting records of one `loc` into lists that differ only in two records of one `loc` gives lists that differ the same way, position by position |
| Ordering.SortByLocAgree | scripts/generate-sitemap.ts:66 | sorting moves records by `loc` alone: lists that differ position by position only in two records of one `loc` sort into lists that differ in the same way |
| Ordering.InsertWithLoc | scripts/generate-sitemap.ts:66 | inserting keeps the relative order of the records that share a `loc` |
| Text.EndsWithIff | scripts/generate-sitemap.ts:17 | the character-by-character `endsWith` holds exactly when the string is at least as long as the suffix and its last characters are the suffix |
| Text.StartsWithIff | scripts/generate-sitemap.ts:28 | the character-by-character prefix test holds exactly when the prefix is a prefix of the string |
| Text.LessEqTotal | scripts/generate-sitemap.ts:66 | the comparison orders any two strings |
| Text.LessEqTransitive | scripts/generate-sitemap.ts:66 | the comparison is transitive |
| Text.LessEqReflexive | scripts/generate-sitemap.ts:66 | the comparison is reflexive |
| Text.LessEqAntisymmetric | scripts/generate-sitemap.ts:66 | strings that compare both ways are equal |
| Text.BeforeFirst | scripts/generate-sitemap.ts:51 | `split(c)[0]` is a prefix of the string and holds no `c` |
| Text.BeforeFirstStops | scripts/generate-sitemap.ts:51 | when that prefix stops before the end, it stops at a `c` |
| Text.BeforeFirstSplit | scripts/generate-sitemap.ts:51 | for `head + c + tail` with no `c` in `head`, the result is `head` |
| Xml.Priority | scripts/generate-sitemap.ts:74 | the priority is `1.0` exactly when `loc` is `BASE_URL + "/"`, and `0.8` otherwise |
| Xml.EmptySitemap | scripts/generate-sitemap.ts:68-77 | with no records, the `urlset` element holds only the empty line between its tags |
| Xml.ExpectOf | scripts/generate-sitemap.ts:70-75 | the fixed text of a block is read back and the text after it is returned unchanged |
| Xml.FieldOf | scripts/generate-sitemap.ts:71-72 | a field without "<" that is followed by a tag is read back exactly |
| Xml.DecodeBlockOf | scripts/generate-sitemap.ts:70-75 | a block reads back as its record: `loc`, `lastmod`, `changefreq` weekly and the priority rule, in that order |
| Xml.DecodeJoinedBlocks | scripts/generate-sitemap.ts:70-75 | newline-joined blocks read back as exactly their records, in order |
| Xml.SitemapRoundTrip | scripts/generate-sitemap.ts:68-77 | for records whose `loc` and `lastmod` hold no "<", the document reads back as exactly the records, in order: after the header, one `<url>` block per record, then the footer, and nothing else (with a "<" two different records can give one block, since nothing is escaped) |
| Sitemap.GenerateSitemap | scripts/generate-sitemap.ts:54-81 | the whole run (walk, loop, sort, template, count) returns exactly `Generate(tree, stamps)` |
| Sitemap.DocsDirJoin | scripts/generate-sitemap.ts:5-13 | joining a name onto `./content/docs` gives `content/docs/<name>` |
| Sitemap.DiscoveredUrlOneSlash | scripts/generate-sitemap.ts:8-47 | in a tree of non-empty, "/"-free names, the relative and the absolute URL of every discovered file end in exactly one "/" |
| Sitemap.DiscoveredShape | scripts/generate-sitemap.ts:5-23 | every discovered file is an `.mdx` path under `content/docs/` |
| Sitemap.SortedEntries | scripts/generate-sitemap.ts:57-66 | after a successful loop, the sorted list has one record per file, ascends by `loc`, is a permutation of the loop's records, and every `loc` has the URL shape |
| Sitemap.GenerateOk | scripts/generate-sitemap.ts:54-81 | when every `stat` succeeds, the run succeeds and reports one URL per discovered file; when no path or date holds a "<", the text reads back as a list that is sorted by `loc`, is a permutation of the discovered files' records, and whose every `loc` starts with the base URL and ends in "/" |
| Sitemap.GenerateErr | scripts/generate-sitemap.ts:55-63 | the first discovered file whose `stat` fails aborts the run with that file's error, and nothing is written |
| Sitemap.UrlEntriesRestamp | scripts/generate-sitemap.ts:59-63 | when a file gets a new timestamp, the records keep their number; the file's records become the record with the new timestamp, and every other record stays as it was, position by position |
| Sitemap.RestampedBlock | scripts/generate-sitemap.ts:59-75 | a discovered file's `<url>` block, with the timestamp it has, is one of the blocks of the sorted records |
| Sitemap.RestampOneFile | scripts/generate-sitemap.ts:54-77 | regenerating after one file's timestamp changes rewrites that file's `<url>` block and no other: the records sort into the same order, they and their blocks agree position by position except where the first run has the file's old record and the second run its new one, and a discovered file's old block is in the first text and its new block in the second |
| Sitemap.GenerateEmpty | scripts/generate-sitemap.ts:54-81 | a tree with no `.mdx` file gives a `urlset` with no `<url>` element and a count of 0 |

## Left out

- `readdir`, `stat`, `writeFile`, `console.log` and `async`/`await` are I/O and are left out.
  The tree, the timestamp map and the returned text and count stand for them.
- A failing `readdir` (an unreadable directory) is left out: the tree is given. Only a failing
  `stat` is modelled, as `Err(ReadError(file))`.
- `Date.prototype.toISOString` depends on the clock and the time zone. The timestamp text is an
  input, and only the `split('T')[0]` step is modelled.
- `localeCompare` is locale-dependent ICU collation. It is modelled as plain lexicographic
  order on characters.
- `Array.prototype.sort` sorts in place. It is modelled on values, as a stable insertion sort.
  Like the engine's sort, this one is stable. The in-place update of the array is not
  modelled.
- `path.join` is modelled only for the paths the walk builds. It drops one leading "./" from the
  directory and appends "/" and the entry's name. Collapsing of "..", of repeated "/" and of
  inner "." segments is not modelled.
- `path.join` is taken to be the POSIX one, with "/" as the separator. On Windows `join`
  uses `\`, the `content\/docs` pattern no longer matches, and the script would emit URLs
  such as `https://s.ee/docscontent\docs\foo/`; that platform is not modelled.
- The regular expressions are modelled as prefix and suffix checks on character sequences.
- JavaScript strings are UTF-16; the model works on characters. No encoding to UTF-8 is
  modelled.
- Sitemap.GenerateOk: read-back is stated only when no path and no date contains "<". The text
  is not escaped, so with a "<" in a field the fields cannot be recovered. This is what the
  script does.
- Some promises about this script are not what it does: a one-to-one mapping from files to
  URLs, XML escaping, and an atomic write. The model follows the code.
  `Urls.IndexCollapseCollides` and `Urls.FooCollisionExample` show two files with one URL.
  Exactly one trailing slash does hold for every file the walk finds in a tree of non-empty,
  "/"-free names (`Sitemap.DiscoveredUrlOneSlash`). `mdxPathToUrl` by itself does not ensure it:
  `Urls.TrailingSlashNotCollapsed` keeps the "//" of `content/docs//index.mdx`, a path that
  `join` never builds.
