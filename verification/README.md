# Content listings of a portfolio site, in Dafny

This project models the two pieces of string handling in the site's content-listing
endpoints and proves what they do on every input, malformed ones included.

- **Article listing** (`GET /api/getArticles`). The endpoint walks the entries of the
  articles folder. Every directory named `YYYY_MM_DD-title` becomes the tuple
  `[name, "DD/MM/YYYY", title]`. The name is taken apart with plain `split('-')` and
  `split('_')`, with no validation. So a missing `_`-segment is concatenated into the date
  as the text `undefined`, a name without `-` gets an undefined title, and the title is only
  the text between the first and the second `-`.
- **Guide listing** (`getPosts` behind `GET /api/guides`). The builder walks the glob result
  of compiled markdown modules. It derives a slug from each path: the last `/`-segment with
  the first `.md` removed. It skips modules without `metadata` and empty slugs, spreads the
  frontmatter into a `Guide` with the derived slug taking precedence, and keeps only
  published guides, in path order.

Modules:

- `Wrappers` (`wrappers.dfy`): `Option`. `None` stands for JavaScript's `undefined`, except in
  the `indexOf` search, where it stands for the `-1` returned when the pattern is absent.
- `JsString` (`js_string.dfy`): the JavaScript primitives the endpoints use, with their edge
  cases:
  - `split` with one separator character, and its inverse `Join`;
  - indexing past the end of an array, and `at` with a negative index;
  - concatenating `undefined` into a string;
  - `replace` with a string pattern, and the `indexOf` search it uses to find the first
    occurrence.
- `Listing` (`listing.dfy`): both loops append at most one output per input element, in
  order. `FilterMap` specifies that shape once. `Kept` names the input positions that
  produced an output.
- `Articles` (`articles.dfy`): directory entries, the name parser, and the endpoint loop as a
  method proved against `FilterMap`.
- `Guides` (`guides.dfy`): frontmatter, glob entries, the `Guide` record of
  `src/lib/types.ts`, slug derivation, and `getPosts` as a method proved against `FilterMap`.
  Nothing checks the frontmatter against the `Guide` type, so the model keeps every field
  other than `slug` optional: an absent field passes through as `undefined`.

The filesystem listing and the glob result are inputs: sequences of entries in the order the
loops visit them. For the glob result, that order is the key order of the object it returns.

Two consequences of the code are easy to miss:

- A well-formed article name does not always give its whole title. A title that itself
  contains `-` is cut at that `-` (`2024_03_10-my-post` gets the title `my`).
- The slug is not always the file name without its extension. The first `.md` anywhere in
  the last path segment is removed, so `a.md.md` gives `a.md` and `.md` gives the empty slug,
  which is skipped.

## Model

| member | source | states |
|---|---|---|
| `JsString.Split` | src/routes/api/getArticles/+server.ts:13-15 | `split` always returns at least one piece, so index 0 is never undefined; no piece contains the separator |
| `JsString.SplitSingle` | src/routes/api/getArticles/+server.ts:13-15 | there is exactly one piece iff the string has no separator, and then that piece is the whole string |
| `JsString.JoinSplit` | src/routes/api/getArticles/+server.ts:13-15 | joining the pieces of a split with the separator gives back the original string, so `split` loses no text |
| `JsString.SplitJoin` | src/routes/api/getArticles/+server.ts:13-15 | splitting separator-free pieces joined by the separator gives back exactly those pieces |
| `JsString.SplitConcat` | src/routes/api/getArticles/+server.ts:13-15 | splitting `x + sep + y` gives the pieces of `x` followed by the pieces of `y` |
| `JsString.JoinAvoids` | src/routes/api/getArticles/+server.ts:13-14 | joining pieces that avoid a character other than the separator gives a string that avoids it, so a `_`-joined head of `-`-free segments has no `-` |
| `JsString.Text` | src/routes/api/getArticles/+server.ts:14 | no contract of its own: string `+` turns `undefined` into the text "undefined"; `NameWithoutSeparators`, `MissingDateSegments` and `OneMissingSegment` state what that makes of a date |
| `JsString.IndexFrom` | src/routes/api/guides/+server.ts:11 | the search from `from` returns the first position at or after `from` where the pattern occurs, or `-1` (modelled as `None`) when it occurs at none of them |
| `JsString.IndexOf` | src/routes/api/guides/+server.ts:11 | the returned position holds the pattern and no earlier position does; `-1` (modelled as `None`) means the pattern occurs nowhere |
| `JsString.ReplaceAtFirstOccurrence` | src/routes/api/guides/+server.ts:11 | for every `a + pat + b` in which `pat` starts nowhere inside `a`, `replace` yields `a + rep + b`: exactly that occurrence is swapped, and later occurrences in `b` stay |
| `Listing.FilterMap` | src/routes/api/guides/+server.ts:9-20 | a listing built by appending at most one output per input is never longer than its input |
| `Listing.FilterMapKept` | src/routes/api/getArticles/+server.ts:11-16 | the k-th output is what the k-th producing input yields; the producing positions strictly increase; every input that produces an output is among them |
| `Listing.FilterMapMember` | src/routes/api/guides/+server.ts:9-20 | a value is in the listing iff some input element produces it |
| `Articles.ParseArticle` | src/routes/api/getArticles/+server.ts:13-15 | the first tuple element is the directory name unchanged; the title is undefined iff the name has no `-`; a defined title contains no `-` |
| `Articles.DateOf` | src/routes/api/getArticles/+server.ts:13-14 | no contract of its own: the date built from the head's `_`-segments; `SegmentedName` states it for every head followed by `-` and a title, `SegmentedNameNoTitle` for every name without `-`, `DateOfSegments` for every `_`-joined head, `WellFormedName` for three segments |
| `Articles.ArticleOf` | src/routes/api/getArticles/+server.ts:12-15 | no contract of its own: only a directory entry yields a tuple, that of its name; `ArticlesInOrder` and `ArticleListed` state it over a whole listing |
| `Articles.ListArticles` | src/routes/api/getArticles/+server.ts:8-17 | the loop builds exactly the in-order listing of the tuples of the directory entries; the result depends only on the directory listing |
| `Articles.ArticleCount` | src/routes/api/getArticles/+server.ts:8-17 | the number of tuples equals the number of directory entries, which is at most the number of entries |
| `Articles.ArticlesInOrder` | src/routes/api/getArticles/+server.ts:11-16 | an entry produces a tuple iff it is a directory; each directory yields the tuple of its own name; the tuples follow listing order |
| `Articles.ArticleListed` | src/routes/api/getArticles/+server.ts:11-15 | a tuple is listed iff some directory entry's name parses to it |
| `Articles.WellFormedName` | src/routes/api/getArticles/+server.ts:13-15 | a name `Y_M_D-T` gives the tuple `[name, "D/M/Y", T]`, e.g. `2024_03_10-launch` gives `10/03/2024` and `launch` |
| `Articles.SegmentedName` | src/routes/api/getArticles/+server.ts:13-15 | for any head of one or more `-`/`_`-free segments followed by `-T`, the date is the third, second and first segment joined with `/`, each missing one as the text `undefined`, any further segment ignored, and the title is `T` |
| `Articles.SegmentedNameNoTitle` | src/routes/api/getArticles/+server.ts:13-15 | a name of one or more `-`/`_`-free segments joined by `_`, with no `-`, gets the same date as in `SegmentedName` and an undefined title (`2024_03_10` gives `["2024_03_10", "10/03/2024", undefined]`) |
| `Articles.OneMissingSegment` | src/routes/api/getArticles/+server.ts:13-15 | `Y_M-T` gives date `undefined/M/Y` and title `T` (`2024_03-launch` gives `undefined/03/2024`) |
| `Articles.ExtraSegmentDropped` | src/routes/api/getArticles/+server.ts:13-15 | `Y_M_D_X-T` gives date `D/M/Y` and title `T`: the fourth segment is dropped |
| `Articles.TitleStopsAtSecondDash` | src/routes/api/getArticles/+server.ts:13-15 | for `H-T-rest` the title is `T`, the text after the second `-` is dropped, and the date comes from `H` alone |
| `Articles.DateOfSegments` | src/routes/api/getArticles/+server.ts:13-14 | the date of a head of `_`-joined segments free of `_` and `-` is segment 3, segment 2 and segment 1 joined by `/`, with "undefined" for a missing segment and any segment past the third ignored |
| `Articles.SegmentedNameDashedTitle` | src/routes/api/getArticles/+server.ts:13-15 | a name `<segments>-T-rest` gives the segmented date and the title `T`, e.g. `2024_03_10-my-post` gives `10/03/2024` and `my` |
| `Articles.NameWithoutSeparators` | src/routes/api/getArticles/+server.ts:13-15 | a name with neither `-` nor `_` parses without error to date `undefined/undefined/<name>` and an undefined title (`notes` gives `undefined/undefined/notes`) |
| `Articles.MissingDateSegments` | src/routes/api/getArticles/+server.ts:13-15 | for `Y-T` with no `_` in `Y`, the missing day and month are the text `undefined` and the title is `T` |
| `Guides.Slug` | src/routes/api/guides/+server.ts:11 | `at(-1)` on the split path is never undefined, so every path derives a slug, and the slug contains no `/` |
| `Guides.BuildGuide` | src/routes/api/guides/+server.ts:14-15 | no contract of its own: `{ ...metadata, slug }`; `SlugOverridesMetadata` states that the derived slug wins and the other fields are copied |
| `Guides.GuideOf` | src/routes/api/guides/+server.ts:11-16 | no contract of its own: the slug, the metadata-and-slug guard, the build and the published test for one entry; `GuidesInOrder`, `ListedGuide` and `UnpublishedOmitted` state it over a whole glob result |
| `Guides.ExtensionIsFirstOccurrence` | src/routes/api/guides/+server.ts:11 | in `base.md<rest>`, where `base` holds no `.md`, the first `.md` is the one right after `base` |
| `Guides.SlugOfPath` | src/routes/api/guides/+server.ts:11 | `dir/base.md` derives the slug `base` (`/src/guides/setup.md` gives `setup`); only the first `.md` goes, so `dir/base.md<rest>` derives `base<rest>` |
| `Guides.BareExtensionSkipped` | src/routes/api/guides/+server.ts:11-13 | a path ending in `/.md` derives the empty slug, and its entry contributes no guide |
| `Guides.GetPosts` | src/routes/api/guides/+server.ts:4-21 | the loop builds exactly the in-order listing of the guides of the glob entries; the result is a function of the glob result alone, so two runs on the same input give the same list |
| `Guides.GuidesInOrder` | src/routes/api/guides/+server.ts:9-20 | an entry contributes iff it has metadata, a non-empty slug and `published: true`; each contributes the guide built from its own metadata and slug; the output follows path order and is no longer than the input |
| `Guides.ListedGuide` | src/routes/api/guides/+server.ts:13-16 | a guide is listed iff some accepted, published entry builds it; every listed guide is published and has a non-empty slug without `/` |
| `Guides.UnpublishedOmitted` | src/routes/api/guides/+server.ts:16 | an entry whose frontmatter does not say `published: true` contributes nothing |
| `Guides.SlugOverridesMetadata` | src/routes/api/guides/+server.ts:14-15 | the built guide carries the derived slug whatever slug the frontmatter holds; title, description, language and published are copied unchanged |

## Left out

- Filesystem and framework I/O are not modelled: `readdirSync`, `resolve`/`join` of the folder paths, and the `json(...)` responses. The directory listing is an input sequence of (name, is-directory) entries. JSON encoding, which writes an undefined title inside an array as `null`, is not modelled.
- `import.meta.glob` is a bundler feature and is not modelled. Its result is an input sequence of (path, module) entries, taken in `for...in` key order. A module is `None` when the glob value is not an object.
- The legacy `/api/getGuides` endpoint is not modelled. It only reads a `description.txt` per directory and trims it.
- The markdown and syntax-highlighting configuration in `svelte.config.js` is not modelled: it configures third-party tools.
- `formatDate` in `src/lib/utils.ts` is not modelled: it depends on `Date` parsing and locale formatting.
- The icon tables and the site title are static display data, with nothing to model.
- The page loaders under `src/routes/guides/` are not modelled: they are an internal fetch and a dynamic import.
- `Guides.BuildGuide`: the frontmatter is modelled as the five fields `title`, `description`, `language`, `published` and `slug`. The spread `{ ...metadata, slug }` also carries any other frontmatter key (for instance `tags` or `date`) into the listed guide; those extra keys are not modelled. Nor are frontmatter values of other types in the modelled fields, such as a numeric `title` or a date-typed `description`: the spread passes them through unchecked.
- `Guides.GuideOf`: `published` is modelled as an optional boolean, and only `true` passes the filter. A frontmatter value of another type, such as a non-empty string, would be truthy in JavaScript; that case is not modelled.
- `JsString.Split`: only one-character separators are modelled, which is all the endpoints use.
