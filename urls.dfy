/** URL derivation: `mdxPathToUrl`, a straight-line rewrite of a content file's path into the
    page's absolute URL. The two regular-expression replacements become explicit prefix and
    suffix checks. */
module Urls {
  import opened Text
  import opened Discovery

  const BaseUrl := "https://s.ee/docs"
  const DocsPrefix := "content/docs"
  const IndexSuffix := "/index"

  /** The four ways a path can start that `^\.?\/?(content\/docs)` matches. */
  predicate HasDocsPrefix(p: string) {
    DocsPrefix <= p || "/" + DocsPrefix <= p || "." + DocsPrefix <= p || "./" + DocsPrefix <= p
  }

  /** How many characters `\.?\/?` takes at the start of `p`: an optional "." then an
      optional "/", both taken greedily (giving either up never lets the match succeed). */
  function LeadInLength(p: string): (k: nat)
    ensures k <= 2 && k <= |p|
  {
    var k0 := if |p| > 0 && p[0] == '.' then 1 else 0;
    if |p| > k0 && p[k0] == '/' then k0 + 1 else k0
  }

  /** `replace(/^\.?\/?(content\/docs)/, '')`: after the lead-in "content/docs" has to
      follow, and then it is removed with the lead-in; nothing is demanded after "docs".
      Without a match the path is unchanged. */
  function StripDocsPrefix(p: string): string {
    var k := LeadInLength(p);
    if StartsWith(p[k..], DocsPrefix) then p[k + |DocsPrefix|..] else p
  }

  /** `replace(/\.mdx$/, '')`: only a final ".mdx" goes. */
  function StripMdxSuffix(u: string): string {
    if EndsWith(u, MdxExtension) then u[..|u| - |MdxExtension|] else u
  }

  /** `if (url.endsWith('/index')) url = url.replace(/\/index$/, '/')` */
  function CollapseIndex(u: string): string {
    if EndsWith(u, IndexSuffix) then u[..|u| - |IndexSuffix|] + "/" else u
  }

  /** `if (!url.endsWith('/')) url = url + '/'` */
  function EnsureTrailingSlash(u: string): (r: string)
    ensures EndsWith(r, "/")
  {
    if EndsWith(u, "/") then u else (EndsWithConcat(u, "/"); u + "/")
  }

  /** The site-relative URL: every rewrite step before the base URL is prepended. */
  function RelativeUrl(filePath: string): (r: string)
    ensures EndsWith(r, "/")
  {
    EnsureTrailingSlash(CollapseIndex(StripMdxSuffix(StripDocsPrefix(filePath))))
  }

  /** `mdxPathToUrl`: its special case for the root "/" returns what the general case would,
      so the URL is always the base URL followed by the relative URL, and it always starts with
      the base URL and ends with "/". */
  function MdxPathToUrl(filePath: string): (r: string)
    ensures r == BaseUrl + RelativeUrl(filePath)
  {
    var url := RelativeUrl(filePath);
    if url == "/" then BaseUrl + "/" else BaseUrl + url
  }

  /** Every URL starts with the base URL and ends with "/", after at least one character. */
  lemma MdxPathToUrlShape(filePath: string)
    ensures BaseUrl <= MdxPathToUrl(filePath)
    ensures EndsWith(MdxPathToUrl(filePath), "/")
    ensures |MdxPathToUrl(filePath)| > |BaseUrl|
  {
    BaseUrlThen(RelativeUrl(filePath));
  }

  lemma BaseUrlThen(url: string)
    requires EndsWith(url, "/")
    ensures BaseUrl <= BaseUrl + url && EndsWith(BaseUrl + url, "/") && |BaseUrl + url| > |BaseUrl|
  {
    EndsWithExtend(BaseUrl, url, "/");
  }

  /** The rewrite adds no character except "/": a character other than "/" that the path does
      not hold is not in its URL either, unless the base URL holds it. */
  lemma RelativeUrlAvoids(filePath: string, c: char)
    requires c != '/' && c !in filePath
    ensures c !in RelativeUrl(filePath)
  {
    var p1 := StripDocsPrefix(filePath);
    var k := LeadInLength(filePath);
    if DocsPrefix <= filePath[k..] {
      NotInSlice(filePath, c, k + |DocsPrefix|, |filePath|);
      assert filePath[k + |DocsPrefix|..] == filePath[k + |DocsPrefix|..|filePath|];
    }
    var p2 := StripMdxSuffix(p1);
    if EndsWith(p1, MdxExtension) {
      NotInSlice(p1, c, 0, |p1| - |MdxExtension|);
      assert p1[..|p1| - |MdxExtension|] == p1[0..|p1| - |MdxExtension|];
    }
    var p3 := CollapseIndex(p2);
    if EndsWith(p2, IndexSuffix) {
      NotInSlice(p2, c, 0, |p2| - |IndexSuffix|);
      assert p2[..|p2| - |IndexSuffix|] == p2[0..|p2| - |IndexSuffix|];
    }
    assert c !in p3;
  }

  /** A URL holds a character other than "/" only when the path or the base URL does. */
  lemma MdxPathToUrlAvoids(filePath: string, c: char)
    requires c != '/' && c !in filePath && c !in BaseUrl
    ensures c !in MdxPathToUrl(filePath)
  {
    RelativeUrlAvoids(filePath, c);
  }

  // ----- Prefix and suffix steps -----

  /** Each of the four accepted lead-ins before "content/docs" is removed with it, and no more. */
  lemma StripDocsPrefixRemovesLeadIn(lead: string, rest: string)
    requires lead in {"", "/", ".", "./"}
    ensures StripDocsPrefix(lead + DocsPrefix + rest) == rest
  {
    var p := lead + DocsPrefix + rest;
    assert p[|lead|..] == DocsPrefix + rest;
    assert p[|lead|] == 'c';
    if lead == "" {
      assert p[0] == 'c';
    } else if lead == "/" {
      assert p[0] == '/';
    } else if lead == "." {
      assert p[0] == '.' && p[1] == 'c';
    } else {
      assert p[0] == '.' && p[1] == '/';
    }
    assert LeadInLength(p) == |lead|;
    StartsWithIff(p[|lead|..], DocsPrefix);
    assert p[|lead| + |DocsPrefix|..] == rest;
  }

  /** A path that does not start in one of those four ways is left unchanged. */
  lemma StripDocsPrefixNoMatch(p: string)
    ensures !HasDocsPrefix(p) ==> StripDocsPrefix(p) == p
  {
    var k := LeadInLength(p);
    StartsWithIff(p[k..], DocsPrefix);
    if DocsPrefix <= p[k..] {
      assert p[..k + |DocsPrefix|] == p[..k] + DocsPrefix;
      if k == 0 {
        assert DocsPrefix <= p;
      } else if k == 2 {
        assert p[..2] == "./";
        assert "./" + DocsPrefix <= p;
      } else if p[0] == '.' {
        assert p[..1] == ".";
        assert "." + DocsPrefix <= p;
      } else {
        assert p[..1] == "/";
        assert "/" + DocsPrefix <= p;
      }
    }
  }

  /** A final ".mdx" is removed and nothing else: stripping undoes appending it, and a
      ".mdx" earlier in the path stays. */
  lemma StripMdxSuffixUndoesAppend(u: string)
    ensures StripMdxSuffix(u + MdxExtension) == u
  {
    EndsWithConcat(u, MdxExtension);
  }

  lemma StripMdxSuffixKeepsOthers(u: string)
    requires !EndsWith(u, MdxExtension)
    ensures StripMdxSuffix(u) == u
  {
  }

  /** The walk produces "content/docs/..." (with `path.join` dropping the "./" of
      "./content/docs"); a leading "./" would not change the URL anyway. */
  lemma DotSlashIrrelevant(rest: string)
    ensures MdxPathToUrl("./" + DocsPrefix + rest) == MdxPathToUrl(DocsPrefix + rest)
  {
    StripDocsPrefixRemovesLeadIn("./", rest);
    StripDocsPrefixRemovesLeadIn("", rest);
    assert "" + DocsPrefix + rest == DocsPrefix + rest;
  }

  // ----- The shapes of the URLs of discovered pages -----

  lemma CollapseIndexOfIndex(d: string)
    ensures CollapseIndex(d + IndexSuffix) == d + "/"
  {
    EndsWithConcat(d, IndexSuffix);
    assert (d + IndexSuffix)[..|d|] == d;
  }

  lemma EnsureTrailingSlashKeeps(d: string)
    ensures EnsureTrailingSlash(d + "/") == d + "/"
  {
    EndsWithConcat(d, "/");
  }

  /** A URL that ends in "/" but not in "//". */
  predicate OneTrailingSlash(u: string) {
    EndsWith(u, "/") && !EndsWith(u, "//")
  }

  /** A slash after text that is empty or does not end in "/" is the only trailing one. */
  lemma SlashAfter(u: string)
    requires u == "" || u[|u| - 1] != '/'
    ensures OneTrailingSlash(u + "/")
  {
    EndsWithConcat(u, "/");
    EndsWithIff(u + "/", "//");
    if |u| > 0 {
      assert (u + "/")[|u| - 1] == u[|u| - 1];
    }
  }

  /** The base URL ends in "s", so prepending it keeps exactly one trailing slash. */
  lemma BaseUrlOneSlash(u: string)
    requires OneTrailingSlash(u)
    ensures OneTrailingSlash(BaseUrl + u)
  {
    EndsWithExtend(BaseUrl, u, "/");
    EndsWithIff(u, "//");
    EndsWithIff(u, "/");
    EndsWithIff(BaseUrl + u, "//");
    var r := BaseUrl + u;
    if |u| == 1 {
      assert r[|r| - 2] == BaseUrl[|BaseUrl| - 1] == 's';
    } else {
      assert r[|r| - 2] == u[|u| - 2];
      assert u[|u| - 2..] != "//";
      assert u[|u| - 2..] == [u[|u| - 2], u[|u| - 1]];
    }
  }

  /** `d + "/" + m` with `m` free of "/" and not "index" does not end in "/index". */
  lemma NotIndexTail(d: string, m: string)
    requires '/' !in m && m != "index"
    ensures !EndsWith(d + "/" + m, IndexSuffix)
  {
    var t := d + "/" + m;
    EndsWithIff(t, IndexSuffix);
    if |IndexSuffix| <= |t| {
      var j := |t| - |IndexSuffix|;
      var w := t[j..];
      if j > |d| {
        // the "/" of "/index" would fall inside `m`
        assert w[0] == m[j - |d| - 1] != IndexSuffix[0];
      } else if j == |d| {
        // the rest would be `m` itself
        assert w[1..] == m != IndexSuffix[1..];
      } else {
        // the "/" before `m` would fall inside "index"
        assert w[|d| - j] == '/' != IndexSuffix[|d| - j];
      }
    }
  }

  /** After the directory part `d` (empty or ending in a name) and a "/"-free stem `m`, the
      index collapse and the trailing-slash step leave exactly one "/" at the end: `<d>/`
      for the stems "" and "index", `<d>/<m>/` for any other stem. */
  lemma StemTail(d: string, m: string)
    requires d == "" || d[|d| - 1] != '/'
    requires '/' !in m
    ensures OneTrailingSlash(EnsureTrailingSlash(CollapseIndex(d + "/" + m)))
  {
    if m == "index" {
      IndexStemTail(d);
    } else if m == "" {
      NotIndexTail(d, m);
      EmptyStemTail(d);
    } else {
      NotIndexTail(d, m);
      PageStemTail(d, m);
    }
  }

  lemma IndexStemTail(d: string)
    requires d == "" || d[|d| - 1] != '/'
    ensures OneTrailingSlash(EnsureTrailingSlash(CollapseIndex(d + "/" + "index")))
  {
    assert d + "/" + "index" == d + IndexSuffix;
    CollapseIndexOfIndex(d);
    EnsureTrailingSlashKeeps(d);
    SlashAfter(d);
  }

  lemma EmptyStemTail(d: string)
    requires d == "" || d[|d| - 1] != '/'
    requires !EndsWith(d + "/" + "", IndexSuffix)
    ensures OneTrailingSlash(EnsureTrailingSlash(CollapseIndex(d + "/" + "")))
  {
    assert d + "/" + "" == d + "/";
    EnsureTrailingSlashKeeps(d);
    SlashAfter(d);
  }

  lemma PageStemTail(d: string, m: string)
    requires d == "" || d[|d| - 1] != '/'
    requires '/' !in m && m != ""
    requires !EndsWith(d + "/" + m, IndexSuffix)
    ensures OneTrailingSlash(EnsureTrailingSlash(CollapseIndex(d + "/" + m)))
  {
    var tail := d + "/" + m;
    assert tail[|tail| - 1] == m[|m| - 1] != '/';
    EndsWithIff(tail, "/");
    SlashAfter(tail);
  }

  /** A ".mdx" name is its stem followed by ".mdx", and the stem holds no "/" either. */
  lemma MdxStem(n: string) returns (m: string)
    requires '/' !in n && EndsWith(n, MdxExtension)
    ensures n == m + MdxExtension && '/' !in m
  {
    EndsWithSplit(n, MdxExtension);
    m := n[..|n| - |MdxExtension|];
    NotInSlice(n, '/', 0, |m|);
    assert n[0..|m|] == m;
  }

  lemma StemRegroup(d: string, m: string, n: string)
    requires n == m + MdxExtension
    ensures DocsPrefix + d + "/" + n == DocsPrefix + (d + "/" + m) + MdxExtension
  {
  }

  /** The files the walk finds are `content/docs<d>/<n>`: `d` is empty or ends in a name, and
      `n` is a name without "/" that ends in ".mdx". Each such file's relative URL ends in
      exactly one "/", whether it is `<d>/.mdx`, `<d>/index.mdx` or another page. */
  lemma DiscoveredRelativeUrl(d: string, n: string)
    requires d == "" || d[|d| - 1] != '/'
    requires '/' !in n && EndsWith(n, MdxExtension)
    ensures OneTrailingSlash(RelativeUrl(DocsPrefix + d + "/" + n))
  {
    var m := MdxStem(n);
    StemRegroup(d, m, n);
    RelativeUrlOfDocsPage(d + "/" + m);
    StemTail(d, m);
  }

  /** The same for the absolute URL. */
  lemma DiscoveredUrl(d: string, n: string)
    requires d == "" || d[|d| - 1] != '/'
    requires '/' !in n && EndsWith(n, MdxExtension)
    ensures OneTrailingSlash(RelativeUrl(DocsPrefix + d + "/" + n))
    ensures OneTrailingSlash(MdxPathToUrl(DocsPrefix + d + "/" + n))
  {
    DiscoveredRelativeUrl(d, n);
    BaseUrlOneSlash(RelativeUrl(DocsPrefix + d + "/" + n));
  }

  /** The relative URL of `content/docs<tail>.mdx` is the one of `<tail>`. */
  lemma RelativeUrlOfDocsPage(tail: string)
    ensures RelativeUrl(DocsPrefix + tail + MdxExtension)
         == EnsureTrailingSlash(CollapseIndex(tail))
  {
    var p := DocsPrefix + tail + MdxExtension;
    assert StripDocsPrefix(p) == tail + MdxExtension by {
      assert p == "" + DocsPrefix + (tail + MdxExtension);
      StripDocsPrefixRemovesLeadIn("", tail + MdxExtension);
    }
    StripMdxSuffixUndoesAppend(tail);
  }

  lemma PagePathRegroup(rel: string)
    ensures DocsPrefix + "/" + rel + MdxExtension == DocsPrefix + ("/" + rel) + MdxExtension
  {
  }

  /** A page file `content/docs/<rel>.mdx`, with `rel` non-empty and ending neither in "/" nor
      in the segment "index", has the relative URL `/<rel>/`. */
  lemma PageRelativeUrl(rel: string)
    requires rel != "" && !EndsWith(rel, "/") && !EndsWith("/" + rel, IndexSuffix)
    ensures RelativeUrl(DocsPrefix + "/" + rel + MdxExtension) == "/" + rel + "/"
  {
    var tail := "/" + rel;
    PagePathRegroup(rel);
    RelativeUrlOfDocsPage(tail);
    assert CollapseIndex(tail) == tail;
    assert !EndsWith(tail, "/") by {
      EndsWithIff(rel, "/");
      EndsWithIff(tail, "/");
      assert tail[|tail| - 1..] == rel[|rel| - 1..];
    }
  }

  lemma PageUrl(rel: string)
    requires rel != "" && !EndsWith(rel, "/") && !EndsWith("/" + rel, IndexSuffix)
    ensures MdxPathToUrl(DocsPrefix + "/" + rel + MdxExtension) == BaseUrl + "/" + rel + "/"
  {
    PageRelativeUrl(rel);
    UrlOfPageRelative(rel);
  }

  lemma UrlOfPageRelative(rel: string)
    requires RelativeUrl(DocsPrefix + "/" + rel + MdxExtension) == "/" + rel + "/"
    ensures MdxPathToUrl(DocsPrefix + "/" + rel + MdxExtension) == BaseUrl + "/" + rel + "/"
  {
    assert BaseUrl + ("/" + rel + "/") == BaseUrl + "/" + rel + "/";
  }

  /** An index file `content/docs<dir>/index.mdx` has its directory's relative URL `<dir>/`. */
  lemma IndexRelativeUrl(dir: string)
    ensures RelativeUrl(DocsPrefix + dir + IndexSuffix + MdxExtension) == dir + "/"
  {
    IndexPathRegroupTail(dir);
    RelativeUrlOfDocsPage(dir + IndexSuffix);
    CollapseIndexOfIndex(dir);
    EnsureTrailingSlashKeeps(dir);
  }

  lemma IndexPathRegroupTail(dir: string)
    ensures DocsPrefix + dir + IndexSuffix + MdxExtension == DocsPrefix + (dir + IndexSuffix) + MdxExtension
  {
  }

  /** An index file maps to its directory's URL `BASE_URL<dir>/`; with `dir` empty that is the
      root `BASE_URL/`. */
  lemma IndexUrl(dir: string)
    ensures MdxPathToUrl(DocsPrefix + dir + IndexSuffix + MdxExtension) == BaseUrl + dir + "/"
  {
    IndexRelativeUrl(dir);
    assert BaseUrl + (dir + "/") == BaseUrl + dir + "/";
  }

  lemma IndexPathRegroup(rel: string)
    ensures DocsPrefix + ("/" + rel) + IndexSuffix + MdxExtension
         == DocsPrefix + "/" + rel + IndexSuffix + MdxExtension
  {
  }

  lemma CollidingRelativeUrls(rel: string)
    requires rel != "" && !EndsWith(rel, "/") && !EndsWith("/" + rel, IndexSuffix)
    ensures RelativeUrl(DocsPrefix + "/" + rel + MdxExtension)
         == RelativeUrl(DocsPrefix + "/" + rel + IndexSuffix + MdxExtension)
  {
    PageRelativeUrl(rel);
    IndexRelativeUrl("/" + rel);
    IndexPathRegroup(rel);
  }

  /** The index collapse is not injective: `content/docs/<rel>.mdx` and
      `content/docs/<rel>/index.mdx` are two different files with one URL, and nothing in
      `mdxPathToUrl` tells them apart. */
  lemma IndexCollapseCollides(rel: string)
    requires rel != "" && !EndsWith(rel, "/") && !EndsWith("/" + rel, IndexSuffix)
    ensures DocsPrefix + "/" + rel + MdxExtension != DocsPrefix + "/" + rel + IndexSuffix + MdxExtension
    ensures MdxPathToUrl(DocsPrefix + "/" + rel + MdxExtension)
         == MdxPathToUrl(DocsPrefix + "/" + rel + IndexSuffix + MdxExtension)
  {
    CollidingRelativeUrls(rel);
    var a := DocsPrefix + "/" + rel + MdxExtension;
    var b := DocsPrefix + "/" + rel + IndexSuffix + MdxExtension;
    assert |a| < |b|;
  }

  // ----- Worked examples -----

  lemma ExamplePaths()
    ensures DocsPrefix + "" + IndexSuffix + MdxExtension == "content/docs/index.mdx"
    ensures DocsPrefix + "/api" + IndexSuffix + MdxExtension == "content/docs/api/index.mdx"
    ensures DocsPrefix + "/" + "api/overview" + MdxExtension == "content/docs/api/overview.mdx"
    ensures DocsPrefix + "/" + "foo" + MdxExtension == "content/docs/foo.mdx"
    ensures DocsPrefix + "/" + "foo" + IndexSuffix + MdxExtension == "content/docs/foo/index.mdx"
    ensures DocsPrefix + "/" + IndexSuffix + MdxExtension == "content/docs//index.mdx"
  {
  }

  lemma ExampleUrls()
    ensures BaseUrl + "" + "/" == "https://s.ee/docs/"
    ensures BaseUrl + "/api" + "/" == "https://s.ee/docs/api/"
    ensures BaseUrl + "/" + "api/overview" + "/" == "https://s.ee/docs/api/overview/"
    ensures BaseUrl + "/" + "foo" + "/" == "https://s.ee/docs/foo/"
    ensures BaseUrl + "/" + "/" == "https://s.ee/docs//"
  {
  }

  lemma ExampleNames()
    ensures !EndsWith("api/overview", "/") && !EndsWith("/" + "api/overview", IndexSuffix)
    ensures !EndsWith("foo", "/") && !EndsWith("/" + "foo", IndexSuffix)
  {
    assert ("/" + "api/overview")[7..] == "erview";
  }

  lemma RootIndexExample()
    ensures MdxPathToUrl("content/docs/index.mdx") == "https://s.ee/docs/"
  {
    IndexUrl("");
    ExamplePaths();
    ExampleUrls();
  }

  lemma NestedIndexExample()
    ensures MdxPathToUrl("content/docs/api/index.mdx") == "https://s.ee/docs/api/"
  {
    IndexUrl("/api");
    ExamplePaths();
    ExampleUrls();
  }

  lemma PageExample()
    ensures MdxPathToUrl("content/docs/api/overview.mdx") == "https://s.ee/docs/api/overview/"
  {
    ExampleNames();
    PageUrl("api/overview");
    ExamplePaths();
    ExampleUrls();
  }

  /** `content/docs/foo.mdx` and `content/docs/foo/index.mdx` share the URL `BASE_URL/foo/`. */
  lemma FooCollisionExample()
    ensures MdxPathToUrl("content/docs/foo.mdx") == "https://s.ee/docs/foo/"
    ensures MdxPathToUrl("content/docs/foo/index.mdx") == "https://s.ee/docs/foo/"
  {
    ExampleNames();
    PageUrl("foo");
    IndexCollapseCollides("foo");
    ExamplePaths();
    ExampleUrls();
  }

  /** Only a missing slash is added: a relative URL that already ends in "//" keeps both. */
  lemma TrailingSlashNotCollapsed()
    ensures MdxPathToUrl("content/docs//index.mdx") == "https://s.ee/docs//"
  {
    IndexUrl("/");
    ExamplePaths();
    ExampleUrls();
  }
}
