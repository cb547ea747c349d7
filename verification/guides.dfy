/**
 * The guide listing builder (`getPosts` behind `GET /api/guides`): for every compiled
 * markdown module found under the guides folder, derive a slug from the file path,
 * skip modules without metadata or with an empty slug, build a `Guide` from the
 * metadata with the derived slug taking precedence, and keep it only if it is published.
 */
module Guides {
  import opened Wrappers
  import opened JsString
  import opened Listing

  /**
   * The frontmatter of a guide. Nothing checks it against the `Guide` shape, so every
   * field may be absent (`None`), and it may carry a `slug` of its own.
   */
  datatype Metadata = Metadata(
    title: Option<string>,
    description: Option<string>,
    language: Option<string>,
    published: Option<bool>,
    slug: Option<string>)

  /** A compiled markdown module: `metadata` is `None` when the module has no such export. */
  datatype Module = Module(metadata: Option<Metadata>)

  /**
   * One entry of the glob result, a path and what it maps to; `file` is `None` when the
   * value is not an object (for instance `undefined`).
   */
  datatype GlobEntry = GlobEntry(path: string, file: Option<Module>)

  /** A listed guide. The frontmatter fields pass through unchecked, so they stay optional. */
  datatype Guide = Guide(
    title: Option<string>,
    slug: string,
    description: Option<string>,
    language: Option<string>,
    published: Option<bool>)

  const MarkdownExtension: string := ".md"

  /**
   * `path.split('/').at(-1)?.replace('.md', '')`: the last `/`-segment of the path with
   * the first `.md` in it removed. `split` never returns an empty array, so `at(-1)` is
   * never `undefined` and the slug is always a string without `/`.
   */
  function Slug(path: string): (slug: Option<string>)
    ensures slug.Some? && '/' !in slug.value
  {
    match At(Split(path, '/'), -1)
    case None => None
    case Some(last) => Some(ReplaceFirst(last, MarkdownExtension, ""))
  }

  /** `{ ...metadata, slug }`: every frontmatter field, with `slug` replaced by the derived one. */
  function BuildGuide(metadata: Metadata, slug: string): (g: Guide)
  {
    Guide(metadata.title, slug, metadata.description, metadata.language, metadata.published)
  }

  /** The guide one glob entry contributes to the listing, if any. */
  function GuideOf(entry: GlobEntry): Option<Guide>
  {
    var slug := Slug(entry.path);
    if entry.file.Some? && entry.file.value.metadata.Some? && slug.Some? && slug.value != "" then
      var guide := BuildGuide(entry.file.value.metadata.value, slug.value);
      if guide.published == Some(true) then Some(guide) else None
    else
      None
  }

  /** `getPosts`: the published guides, in the order the glob result lists their paths. */
  method GetPosts(paths: seq<GlobEntry>) returns (guides: seq<Guide>)
    ensures guides == FilterMap(GuideOf, paths)
  {
    guides := [];
    for i := 0 to |paths|
      invariant guides == FilterMap(GuideOf, paths[..i])
    {
      var path := paths[i].path;
      var file := paths[i].file;
      var slug := At(Split(path, '/'), -1);
      if slug.Some? {
        slug := Some(ReplaceFirst(slug.value, MarkdownExtension, ""));
      }
      assert paths[..i + 1][..i] == paths[..i];
      if file.Some? && file.value.metadata.Some? && slug.Some? && slug.value != "" {
        var metadata := file.value.metadata.value;
        var guide := Guide(metadata.title, slug.value, metadata.description, metadata.language, metadata.published);
        if guide.published == Some(true) {
          guides := guides + [guide];
        }
      }
    }
    assert paths[..|paths|] == paths;
  }

  /** Whether a glob entry passes the metadata-and-slug guard. */
  predicate Accepted(entry: GlobEntry)
  {
    entry.file.Some? && entry.file.value.metadata.Some? && Slug(entry.path).value != ""
  }

  /**
   * What the listing holds: exactly the guides built from accepted, published entries,
   * one per such entry, in path order, each carrying the path-derived slug and the
   * remaining frontmatter fields unchanged.
   */
  lemma GuidesInOrder(paths: seq<GlobEntry>)
    ensures var out, kept := FilterMap(GuideOf, paths), Kept(GuideOf, paths);
      && |kept| == |out| <= |paths|
      && (forall k, l :: 0 <= k < l < |kept| ==> kept[k] < kept[l])
      && (forall k :: 0 <= k < |kept| ==>
            kept[k] < |paths| && Accepted(paths[kept[k]]) &&
            out[k] == BuildGuide(paths[kept[k]].file.value.metadata.value, Slug(paths[kept[k]].path).value))
      && (forall i :: 0 <= i < |paths| ==>
            (i in kept <==> Accepted(paths[i]) && paths[i].file.value.metadata.value.published == Some(true)))
  {
    FilterMapKept(GuideOf, paths);
  }

  /** Every listed guide is published, has a non-empty slug without `/`, and comes from some entry. */
  lemma ListedGuide(paths: seq<GlobEntry>, g: Guide)
    ensures g in FilterMap(GuideOf, paths) <==>
      exists i :: 0 <= i < |paths| && Accepted(paths[i]) &&
        g == BuildGuide(paths[i].file.value.metadata.value, Slug(paths[i].path).value) &&
        g.published == Some(true)
    ensures g in FilterMap(GuideOf, paths) ==> g.published == Some(true) && g.slug != "" && '/' !in g.slug
  {
    FilterMapMember(GuideOf, paths, g);
    if g in FilterMap(GuideOf, paths) {
      var i :| 0 <= i < |paths| && GuideOf(paths[i]) == Some(g);
      assert Accepted(paths[i]);
    }
    if i :| (0 <= i < |paths| && Accepted(paths[i]) &&
             g == BuildGuide(paths[i].file.value.metadata.value, Slug(paths[i].path).value) &&
             g.published == Some(true)) {
      assert GuideOf(paths[i]) == Some(g);
    }
  }

  /** An entry whose frontmatter does not say `published: true` contributes nothing. */
  lemma UnpublishedOmitted(paths: seq<GlobEntry>, i: nat)
    requires i < |paths| && paths[i].file.Some? && paths[i].file.value.metadata.Some?
    requires paths[i].file.value.metadata.value.published != Some(true)
    ensures i !in Kept(GuideOf, paths)
  {
    FilterMapKept(GuideOf, paths);
  }

  /**
   * The derived slug wins over any `slug` in the frontmatter, and the other fields are
   * copied as they are: two frontmatters differing only in `slug` give the same guide.
   */
  lemma SlugOverridesMetadata(metadata: Metadata, slug: string)
    ensures BuildGuide(metadata, slug).slug == slug
    ensures BuildGuide(metadata, slug) == BuildGuide(metadata.(slug := None), slug)
    ensures var g := BuildGuide(metadata, slug);
      g.title == metadata.title && g.description == metadata.description &&
      g.language == metadata.language && g.published == metadata.published
  {
  }

  /** After a name without `.md`, the first `.md` is the one that follows the name. */
  lemma {:induction false} ExtensionIsFirstOccurrence(base: string, rest: string)
    requires IndexOf(base, MarkdownExtension).None?
    ensures IndexOf(base + MarkdownExtension + rest, MarkdownExtension) == Some(|base|)
  {
    var s := base + MarkdownExtension + rest;
    assert OccursAt(s, MarkdownExtension, |base|) by {
      assert s[|base|..|base| + 3] == MarkdownExtension;
    }
    forall j | 0 <= j < |base| ensures !OccursAt(s, MarkdownExtension, j) {
      if j + 3 <= |base| {
        assert !OccursAt(base, MarkdownExtension, j);
        assert s[j..j + 3] == base[j..j + 3];
      } else if j == |base| - 1 {
        assert s[j..j + 3][1] == '.' != MarkdownExtension[1];
      } else {
        assert s[j..j + 3][2] == '.' != MarkdownExtension[2];
      }
    }
  }

  /**
   * The file `dir/base.md` gets the slug `base` (`/src/guides/setup.md` lists as `setup`),
   * and only the first `.md` goes: `dir/base.md<rest>` gets `base<rest>`, so
   * `/src/guides/a.md.md` lists as `a.md`.
   */
  lemma SlugOfPath(dir: string, base: string, rest: string)
    requires '/' !in base && '/' !in rest && IndexOf(base, MarkdownExtension).None?
    ensures Slug(dir + "/" + base + MarkdownExtension + rest) == Some(base + rest)
  {
    var file := base + MarkdownExtension + rest;
    assert '/' !in file;
    assert dir + "/" + base + MarkdownExtension + rest == dir + ['/'] + file;
    SplitConcat(dir, file, '/');
    SplitSingle(file, '/');
    ExtensionIsFirstOccurrence(base, rest);
    var r := ReplaceFirst(file, MarkdownExtension, "");
    assert file[|base| + 3..] == rest;
    assert r[..|base|] == base && r[|base|..] == rest;
    assert r == r[..|base|] + r[|base|..];
    assert Split(dir + ['/'] + file, '/') == Split(dir, '/') + [file];
    assert At(Split(dir + ['/'] + file, '/'), -1) == Some(file);
  }

  /** A path ending in `/.md` derives the empty slug, so its entry is skipped. */
  lemma BareExtensionSkipped(dir: string, m: Module)
    ensures Slug(dir + "/" + MarkdownExtension) == Some("")
    ensures GuideOf(GlobEntry(dir + "/" + MarkdownExtension, Some(m))).None?
  {
    assert IndexOf([], MarkdownExtension).None?;
    SlugOfPath(dir, [], []);
    assert dir + "/" + [] + MarkdownExtension + [] == dir + "/" + MarkdownExtension;
  }
}
