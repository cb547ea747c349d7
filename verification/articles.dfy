/**
 * The article listing endpoint (`GET /api/getArticles`): every sub-directory of the
 * articles folder, named `YYYY_MM_DD-title`, becomes the tuple
 * `[name, "DD/MM/YYYY", title]`. The name is taken apart with plain `split` calls and
 * no validation, so malformed names yield "undefined" text or an undefined title
 * rather than an error.
 */
module Articles {
  import opened Wrappers
  import opened JsString
  import opened Listing

  /** One entry of the directory listing: its name and whether it is a directory. */
  datatype DirEntry = DirEntry(name: string, isDirectory: bool)

  /** The tuple `[name, date, title]`; `title` is `None` when the name has no `-`. */
  datatype Article = Article(name: string, date: string, title: Option<string>)

  /** The date text built from the part of the name before its first `-`. */
  function DateOf(head: string): string
  {
    Text(Index(Split(head, '_'), 2)) + "/" + Text(Index(Split(head, '_'), 1)) + "/" + Split(head, '_')[0]
  }

  /** The tuple one directory name becomes. */
  function ParseArticle(name: string): (a: Article)
    ensures a.name == name
    ensures a.title.None? <==> '-' !in name
    ensures a.title.Some? ==> '-' !in a.title.value
  {
    SplitSingle(name, '-');
    Article(name, DateOf(Split(name, '-')[0]), Index(Split(name, '-'), 1))
  }

  /** What one listing entry contributes: directories only. */
  function ArticleOf(entry: DirEntry): Option<Article>
  {
    if entry.isDirectory then Some(ParseArticle(entry.name)) else None
  }

  /** The endpoint's loop over the directory listing, in listing order. */
  method ListArticles(d: seq<DirEntry>) returns (articles: seq<Article>)
    ensures articles == FilterMap(ArticleOf, d)
  {
    articles := [];
    for i := 0 to |d|
      invariant articles == FilterMap(ArticleOf, d[..i])
    {
      var article := d[i];
      assert d[..i + 1][..i] == d[..i];
      if article.isDirectory {
        var date := Split(article.name, '-')[0];
        date := Text(Index(Split(date, '_'), 2)) + "/" + Text(Index(Split(date, '_'), 1)) + "/" + Split(date, '_')[0];
        articles := articles + [Article(article.name, date, Index(Split(article.name, '-'), 1))];
      }
    }
    assert d[..|d|] == d;
  }

  /** The number of directory entries in a listing. */
  function DirectoryCount(d: seq<DirEntry>): nat
  {
    if d == [] then 0 else DirectoryCount(d[..|d| - 1]) + if d[|d| - 1].isDirectory then 1 else 0
  }

  /** One tuple per directory entry: the output is exactly as long as the number of directories. */
  lemma {:induction false} ArticleCount(d: seq<DirEntry>)
    ensures |FilterMap(ArticleOf, d)| == DirectoryCount(d) <= |d|
  {
    if d != [] {
      var init := d[..|d| - 1];
      ArticleCount(init);
    }
  }

  /**
   * Only directories contribute, each contributes the tuple of its own name, and the
   * tuples appear in listing order.
   */
  lemma ArticlesInOrder(d: seq<DirEntry>)
    ensures var out, kept := FilterMap(ArticleOf, d), Kept(ArticleOf, d);
      && |kept| == |out|
      && (forall k :: 0 <= k < |kept| ==>
            kept[k] < |d| && d[kept[k]].isDirectory && out[k] == ParseArticle(d[kept[k]].name))
      && (forall k, l :: 0 <= k < l < |kept| ==> kept[k] < kept[l])
      && (forall i :: 0 <= i < |d| ==> (i in kept <==> d[i].isDirectory))
  {
    FilterMapKept(ArticleOf, d);
  }

  /** An article is listed exactly when a directory entry of that name exists. */
  lemma ArticleListed(d: seq<DirEntry>, a: Article)
    ensures a in FilterMap(ArticleOf, d) <==>
      exists i :: 0 <= i < |d| && d[i].isDirectory && a == ParseArticle(d[i].name)
  {
    FilterMapMember(ArticleOf, d, a);
  }

  /**
   * A well-formed name `Y_M_D-T` gives the date `D/M/Y` and the title `T`.
   */
  lemma WellFormedName(y: string, m: string, d: string, t: string)
    requires '_' !in y && '_' !in m && '_' !in d
    requires '-' !in y && '-' !in m && '-' !in d && '-' !in t
    ensures var name := y + "_" + m + "_" + d + "-" + t;
      ParseArticle(name) == Article(name, d + "/" + m + "/" + y, Some(t))
  {
    var head := y + "_" + m + "_" + d;
    SplitThree(y, m, d, '_');
    SplitTwo(head, t, '-');
  }

  /** The title is only the text between the first and the second `-`; the rest is dropped. */
  lemma TitleStopsAtSecondDash(head: string, t: string, rest: string)
    requires '-' !in head && '-' !in t
    ensures ParseArticle(head + "-" + t + "-" + rest).title == Some(t)
    ensures ParseArticle(head + "-" + t + "-" + rest).date == DateOf(head)
  {
    var name := head + "-" + t + "-" + rest;
    assert name == head + ['-'] + (t + ['-'] + rest);
    SplitConcat(head, t + "-" + rest, '-');
    SplitConcat(t, rest, '-');
    SplitSingle(head, '-');
    SplitSingle(t, '-');
    var parts := Split(name, '-');
    assert parts[0] == head && parts[1] == t;
  }

  /** The date of a head made of `_`-joined segments reads segments 3, 2 and 1, "undefined" for a missing one. */
  lemma DateOfSegments(segs: seq<string>)
    requires |segs| >= 1
    requires forall i :: 0 <= i < |segs| ==> '_' !in segs[i] && '-' !in segs[i]
    ensures DateOf(Join(segs, '_')) == Text(Index(segs, 2)) + "/" + Text(Index(segs, 1)) + "/" + segs[0]
  {
    SplitJoin(segs, '_');
  }

  /**
   * A segmented name whose title itself contains `-` keeps the segmented date but only the
   * title's first `-`-piece: `2024_03_10-my-post` gives `10/03/2024` and `my`.
   */
  lemma SegmentedNameDashedTitle(segs: seq<string>, t: string, rest: string)
    requires |segs| >= 1
    requires forall i :: 0 <= i < |segs| ==> '_' !in segs[i] && '-' !in segs[i]
    requires '-' !in t
    ensures var name := Join(segs, '_') + "-" + t + "-" + rest;
      ParseArticle(name) == Article(name, Text(Index(segs, 2)) + "/" + Text(Index(segs, 1)) + "/" + segs[0], Some(t))
  {
    JoinAvoids(segs, '_', '-');
    TitleStopsAtSecondDash(Join(segs, '_'), t, rest);
    DateOfSegments(segs);
  }

  /** A name without any separator parses without error into two "undefined" date fields and no title. */
  lemma NameWithoutSeparators(name: string)
    requires '-' !in name && '_' !in name
    ensures ParseArticle(name) == Article(name, "undefined/undefined/" + name, None)
  {
    SplitSingle(name, '-');
    SplitSingle(name, '_');
    assert Text(None) + "/" + Text(None) + "/" == "undefined/undefined/";
  }

  /**
   * The general case: a head of any number of `_`-segments followed by one `-` and a title.
   * The date reads the third, second and first segment, a missing one as "undefined", and
   * ignores any segment after the third.
   */
  lemma SegmentedName(segs: seq<string>, t: string)
    requires |segs| >= 1 && '-' !in t
    requires forall i :: 0 <= i < |segs| ==> '_' !in segs[i] && '-' !in segs[i]
    ensures var name := Join(segs, '_') + "-" + t;
      ParseArticle(name) ==
        Article(name, Text(Index(segs, 2)) + "/" + Text(Index(segs, 1)) + "/" + segs[0], Some(t))
  {
    var head := Join(segs, '_');
    SplitJoin(segs, '_');
    JoinAvoids(segs, '_', '-');
    SplitTwo(head, t, '-');
  }

  /** A head of `_`-segments with no `-` at all: the same date, and an undefined title (`2024_03_10` gives `10/03/2024`). */
  lemma SegmentedNameNoTitle(segs: seq<string>)
    requires |segs| >= 1
    requires forall i :: 0 <= i < |segs| ==> '_' !in segs[i] && '-' !in segs[i]
    ensures var name := Join(segs, '_');
      ParseArticle(name) ==
        Article(name, Text(Index(segs, 2)) + "/" + Text(Index(segs, 1)) + "/" + segs[0], None)
  {
    var head := Join(segs, '_');
    SplitJoin(segs, '_');
    JoinAvoids(segs, '_', '-');
    SplitSingle(head, '-');
  }

  /** `Y_M-T`: the one missing segment, the day, is the text "undefined" (`2024_03-launch` gives `undefined/03/2024`). */
  lemma OneMissingSegment(y: string, m: string, t: string)
    requires '_' !in y && '_' !in m && '-' !in y && '-' !in m && '-' !in t
    ensures ParseArticle(y + "_" + m + "-" + t) == Article(y + "_" + m + "-" + t, "undefined/" + m + "/" + y, Some(t))
  {
    var segs := [y, m];
    assert segs[1..] == [m];
    assert Join(segs, '_') == y + "_" + m;
    SegmentedName(segs, t);
    assert Text(Index(segs, 2)) + "/" == "undefined/";
    assert Text(Index(segs, 1)) == m;
  }

  /** `Y_M_D_X-T`: segments after the third are dropped from the date. */
  lemma ExtraSegmentDropped(y: string, m: string, d: string, x: string, t: string)
    requires '_' !in y && '_' !in m && '_' !in d && '_' !in x
    requires '-' !in y && '-' !in m && '-' !in d && '-' !in x && '-' !in t
    ensures var name := y + "_" + m + "_" + d + "_" + x + "-" + t;
      ParseArticle(name) == Article(name, d + "/" + m + "/" + y, Some(t))
  {
    var segs := [y, m, d, x];
    assert segs[1..][1..][1..] == [x];
    assert Join(segs[1..][1..], '_') == d + "_" + x;
    assert Join(segs[1..], '_') == m + "_" + d + "_" + x;
    assert Join(segs, '_') == y + "_" + m + "_" + d + "_" + x;
    SegmentedName(segs, t);
    assert Index(segs, 2) == Some(d) && Index(segs, 1) == Some(m);
  }

  /** A name with a `-` but missing `_`-segments: the missing day and month print as "undefined". */
  lemma MissingDateSegments(y: string, t: string)
    requires '_' !in y && '-' !in y && '-' !in t
    ensures ParseArticle(y + "-" + t) == Article(y + "-" + t, "undefined/undefined/" + y, Some(t))
  {
    SplitTwo(y, t, '-');
    SplitSingle(y, '_');
    assert Text(None) + "/" + Text(None) + "/" == "undefined/undefined/";
  }
}
