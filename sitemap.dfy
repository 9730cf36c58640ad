/** The whole run of `generateSitemap`: discover the content files under the docs directory,
    build one record per file, sort the records by `loc` and render the sitemap text. The
    directory tree and the file timestamps are inputs; the text that would be written to
    `./public/sitemap.xml` and the URL count that would be logged are the output. */
module Sitemap {
  import opened Text
  import opened Discovery
  import opened Urls
  import opened Entries
  import opened Ordering
  import opened Xml

  const DocsDir := "./content/docs"

  /** The text written to the output file, and the number of URLs reported. */
  datatype Output = Output(text: string, count: nat)

  /** What a run produces from the tree below `DocsDir` and the files' timestamps. */
  function Generate(tree: seq<Node>, stamps: map<string, string>): Result<Output> {
    match UrlEntries(MdxFiles(DocsDir, tree), stamps)
    case Err(e) => Err(e)
    case Ok(urls) =>
      var sorted := SortByLoc(urls);
      Ok(Output(Sitemap(sorted), |sorted|))
  }

  /** `generateSitemap` step by step: the walk, the loop that pushes the records, the sort and
      the template. A failing `stat` ends the run before anything is written. */
  method GenerateSitemap(tree: seq<Node>, stamps: map<string, string>) returns (r: Result<Output>)
    ensures r == Generate(tree, stamps)
  {
    var mdxFiles := GetAllMdxFiles(DocsDir, tree);
    var built := BuildUrls(mdxFiles, stamps);
    if built.Err? {
      return Err(built.error);
    }
    var urls := built.value;
    urls := SortByLoc(urls);
    var sitemap := Sitemap(urls);
    r := Ok(Output(sitemap, |urls|));
  }

  lemma DocsDirNormal()
    ensures Normalize(DocsDir) == DocsPrefix && Normal(Normalize(DocsDir))
  {
    assert "./" <= DocsDir;
    assert DocsDir[2..] == DocsPrefix;
    assert DocsPrefix[0] == 'c';
  }

  /** The walk joins names onto the docs directory without its "./". */
  lemma DocsDirJoin(n: string)
    ensures PathJoin(DocsDir, n) == DocsPrefix + "/" + n
  {
    DocsDirNormal();
  }

  /** Every discovered file is a ".mdx" file under "content/docs/". */
  lemma DiscoveredShape(tree: seq<Node>, p: string)
    requires p in MdxFiles(DocsDir, tree)
    ensures DocsPrefix + "/" <= p && EndsWith(p, MdxExtension)
  {
    DocsDirNormal();
    MdxFilesShape(DocsDir, tree, p);
  }

  /** In a tree of non-empty, "/"-free names, the URL of every discovered file ends in exactly
      one "/". */
  lemma DiscoveredUrlOneSlash(tree: seq<Node>, p: string)
    requires Named(tree) && p in MdxFiles(DocsDir, tree)
    ensures OneTrailingSlash(RelativeUrl(p)) && OneTrailingSlash(MdxPathToUrl(p))
  {
    DocsDirNormal();
    var d, n := MdxFilesParts(DocsDir, tree, p);
    assert p == DocsPrefix + d + "/" + n;
    DiscoveredUrl(d, n);
  }

  /** The record of a file whose path and timestamp hold no '<' holds none either. */
  lemma EntryForPlain(file: string, iso: string)
    requires '<' !in file && '<' !in iso
    ensures Plain(EntryFor(file, iso))
  {
    MdxPathToUrlAvoids(file, '<');
    var date := LastModified(iso);
    forall k | 0 <= k < |date| ensures date[k] != '<' {
      assert date[k] == iso[k];
    }
  }

  /** Each record of a successful loop is the record of one of the files. */
  lemma EntryOrigin(files: seq<string>, stamps: map<string, string>, e: UrlEntry) returns (i: nat)
    requires forall f :: f in files ==> f in stamps
    requires UrlEntries(files, stamps).Ok?
    requires e in multiset(UrlEntries(files, stamps).value)
    ensures i < |files| && files[i] in stamps && e == EntryFor(files[i], stamps[files[i]])
  {
    UrlEntriesOk(files, stamps);
    var urls := UrlEntries(files, stamps).value;
    assert e in urls;
    var j :| 0 <= j < |urls| && urls[j] == e;
    i := j;
  }

  /** The sorted records of a successful loop: as many as files, ascending by `loc`, the same
      records, and each with a URL of the expected shape and, when no path or timestamp holds
      a '<', no '<'. */
  lemma SortedEntries(files: seq<string>, stamps: map<string, string>)
    requires forall f :: f in files ==> f in stamps
    ensures UrlEntries(files, stamps).Ok?
    ensures |SortByLoc(UrlEntries(files, stamps).value)| == |files|
    ensures SortedByLoc(SortByLoc(UrlEntries(files, stamps).value))
    ensures multiset(SortByLoc(UrlEntries(files, stamps).value))
      == multiset(UrlEntries(files, stamps).value)
    ensures forall e :: e in SortByLoc(UrlEntries(files, stamps).value) ==>
      BaseUrl <= e.loc && EndsWith(e.loc, "/")
    ensures (forall f :: f in files ==> '<' !in f && '<' !in stamps[f]) ==>
      forall i :: 0 <= i < |files| ==> Plain(SortByLoc(UrlEntries(files, stamps).value)[i])
  {
    UrlEntriesOk(files, stamps);
    var urls := UrlEntries(files, stamps).value;
    var sorted := SortByLoc(urls);
    SortByLocPermutes(urls);
    SortByLocSorted(urls);
    assert |sorted| == |urls| by {
      assert |multiset(sorted)| == |multiset(urls)|;
    }
    forall e | e in sorted ensures BaseUrl <= e.loc && EndsWith(e.loc, "/") {
      assert e in multiset(sorted);
      var j := EntryOrigin(files, stamps, e);
      MdxPathToUrlShape(files[j]);
    }
    if forall f :: f in files ==> '<' !in f && '<' !in stamps[f] {
      forall i | 0 <= i < |files| ensures Plain(sorted[i]) {
        assert sorted[i] in multiset(sorted);
        var j := EntryOrigin(files, stamps, sorted[i]);
        assert files[j] in files;
        EntryForPlain(files[j], stamps[files[j]]);
      }
    }
  }

  /** When every discovered file has a timestamp, the run succeeds and reports one URL per
      discovered file. When no path or timestamp holds a '<', the text reads back as a list
      of records that is sorted by `loc` and holds exactly the records of the discovered
      files, each as often as its file was discovered; each `loc` starts with the base URL and
      ends with "/". */
  lemma GenerateOk(tree: seq<Node>, stamps: map<string, string>)
    requires forall f :: f in MdxFiles(DocsDir, tree) ==> f in stamps
    ensures Generate(tree, stamps).Ok?
    ensures Generate(tree, stamps).value.count == |MdxFiles(DocsDir, tree)|
    ensures (forall f :: f in MdxFiles(DocsDir, tree) ==> '<' !in f && '<' !in stamps[f]) ==>
      var d := Decode(Generate(tree, stamps).value.text);
      d.Some? &&
      SortedByLoc(d.value) &&
      multiset(d.value) == multiset(UrlEntries(MdxFiles(DocsDir, tree), stamps).value) &&
      (forall e :: e in d.value ==> BaseUrl <= e.loc && EndsWith(e.loc, "/"))
  {
    var files := MdxFiles(DocsDir, tree);
    SortedEntries(files, stamps);
    var sorted := SortByLoc(UrlEntries(files, stamps).value);
    assert Generate(tree, stamps) == Ok(Output(Sitemap(sorted), |sorted|));
    if forall f :: f in files ==> '<' !in f && '<' !in stamps[f] {
      SitemapRoundTrip(sorted);
    }
  }

  /** The first discovered file without a timestamp aborts the run with that file's error. */
  lemma GenerateErr(tree: seq<Node>, stamps: map<string, string>, k: nat)
    requires k < |MdxFiles(DocsDir, tree)|
    requires MdxFiles(DocsDir, tree)[k] !in stamps
    requires forall j :: 0 <= j < k ==> MdxFiles(DocsDir, tree)[j] in stamps
    ensures Generate(tree, stamps) == Err(ReadError(MdxFiles(DocsDir, tree)[k]))
  {
    UrlEntriesErr(MdxFiles(DocsDir, tree), stamps, k);
  }

  /** A tree with no ".mdx" file gives a `urlset` with no `<url>` element and a count of 0. */
  lemma GenerateEmpty(tree: seq<Node>, stamps: map<string, string>)
    requires MdxFiles(DocsDir, tree) == []
    ensures Generate(tree, stamps) == Ok(Output(XmlHeader + XmlFooter, 0))
  {
    EmptySitemap();
  }

  /** A new timestamp for `f` changes the records of `f` and no other. */
  lemma UrlEntriesRestamp(files: seq<string>, stamps: map<string, string>, f: string, t: string)
    requires forall g :: g in files ==> g in stamps
    requires f in stamps
    ensures UrlEntries(files, stamps).Ok? && UrlEntries(files, stamps[f := t]).Ok?
    ensures AgreeExcept(UrlEntries(files, stamps).value, UrlEntries(files, stamps[f := t]).value,
                        EntryFor(f, stamps[f]), EntryFor(f, t))
    ensures |UrlEntries(files, stamps[f := t]).value| == |files|
    ensures forall i :: 0 <= i < |files| ==>
      UrlEntries(files, stamps[f := t]).value[i] ==
        if files[i] == f then EntryFor(f, t) else UrlEntries(files, stamps).value[i]
  {
    var stamps' := stamps[f := t];
    UrlEntriesOk(files, stamps);
    UrlEntriesOk(files, stamps');
  }

  /** Regenerating after one file's timestamp changes rewrites that file's `<url>` block and no
      other: the two runs sort their records into the same order, and position by position the
      records and their blocks are the same, except where the first run has `f`'s old record
      and the second its new one. */
  lemma RestampOneFile(tree: seq<Node>, stamps: map<string, string>, f: string, t: string)
    requires forall g :: g in MdxFiles(DocsDir, tree) ==> g in stamps
    requires f in stamps
    ensures UrlEntries(MdxFiles(DocsDir, tree), stamps).Ok?
    ensures UrlEntries(MdxFiles(DocsDir, tree), stamps[f := t]).Ok?
    ensures
      var before := SortByLoc(UrlEntries(MdxFiles(DocsDir, tree), stamps).value);
      var after := SortByLoc(UrlEntries(MdxFiles(DocsDir, tree), stamps[f := t]).value);
      var a, b := EntryFor(f, stamps[f]), EntryFor(f, t);
      Generate(tree, stamps) == Ok(Output(Sitemap(before), |before|)) &&
      Generate(tree, stamps[f := t]) == Ok(Output(Sitemap(after), |after|)) &&
      AgreeExcept(before, after, a, b) &&
      (forall k :: 0 <= k < |before| ==>
        Blocks(before)[k] == Blocks(after)[k] ||
        (Blocks(before)[k] == Block(a) && Blocks(after)[k] == Block(b))) &&
      (f in MdxFiles(DocsDir, tree) ==> Block(a) in Blocks(before) && Block(b) in Blocks(after))
  {
    var files := MdxFiles(DocsDir, tree);
    UrlEntriesRestamp(files, stamps, f, t);
    var a, b := EntryFor(f, stamps[f]), EntryFor(f, t);
    var urls, urls' := UrlEntries(files, stamps).value, UrlEntries(files, stamps[f := t]).value;
    GenerateOf(tree, stamps);
    GenerateOf(tree, stamps[f := t]);
    SortByLocAgree(urls, urls', a, b);
    AgreeBlocks(SortByLoc(urls), SortByLoc(urls'), a, b);
    if f in files {
      RestampedBlock(files, stamps, f, stamps[f]);
      RestampedBlock(files, stamps[f := t], f, t);
    }
  }

  /** A successful loop's records, sorted, are what the text is made of and what is counted. */
  lemma GenerateOf(tree: seq<Node>, stamps: map<string, string>)
    requires UrlEntries(MdxFiles(DocsDir, tree), stamps).Ok?
    ensures
      var sorted := SortByLoc(UrlEntries(MdxFiles(DocsDir, tree), stamps).value);
      Generate(tree, stamps) == Ok(Output(Sitemap(sorted), |sorted|))
  {
  }

  /** Lists that differ only in `a` and `b` have blocks that differ only in theirs. */
  lemma AgreeBlocks(s: seq<UrlEntry>, t: seq<UrlEntry>, a: UrlEntry, b: UrlEntry)
    requires AgreeExcept(s, t, a, b)
    ensures forall k :: 0 <= k < |s| ==>
      Blocks(s)[k] == Blocks(t)[k] || (Blocks(s)[k] == Block(a) && Blocks(t)[k] == Block(b))
  {
    BlocksAt(s);
    BlocksAt(t);
  }

  /** A discovered file's block, with the timestamp `t` it has in `stamps`, is in the text. */
  lemma RestampedBlock(files: seq<string>, stamps: map<string, string>, f: string, t: string)
    requires forall g :: g in files ==> g in stamps
    requires f in files && f in stamps && stamps[f] == t
    ensures UrlEntries(files, stamps).Ok?
    ensures Block(EntryFor(f, t)) in Blocks(SortByLoc(UrlEntries(files, stamps).value))
  {
    UrlEntriesOk(files, stamps);
    var urls := UrlEntries(files, stamps).value;
    var i :| 0 <= i < |files| && files[i] == f;
    assert urls[i] == EntryFor(f, t);
    assert urls[i] in multiset(urls);
    SortByLocPermutes(urls);
    var sorted := SortByLoc(urls);
    assert EntryFor(f, t) in multiset(sorted);
    var k :| 0 <= k < |sorted| && sorted[k] == EntryFor(f, t);
    BlocksAt(sorted);
    assert Blocks(sorted)[k] == Block(EntryFor(f, t));
  }
}
