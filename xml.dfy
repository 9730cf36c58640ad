/** Serialisation: the sitemap text `generateSitemap` writes, a sitemaps.org 0.9 `urlset` with
    one `<url>` block per record, built by `map` and `join('\n')` inside a template. No XML
    escaping is applied to `loc` or `lastmod`.

    The decoder at the end reads that text back; it exists to state what the text holds: the
    round trip `Decode(Sitemap(us)) == Some(us)` says the text has exactly one block per record,
    in order, with the record's fields and the priority rule, and nothing else. */
module Xml {
  import opened Text
  import opened Urls
  import opened Entries

  datatype Option<T> = None | Some(value: T)

  const XmlDeclaration := "<?xml version=\"1.0\" encoding=\"UTF-8\"?>\n"
  const UrlsetOpen := "<urlset xmlns=\"http://www.sitemaps.org/schemas/sitemap/0.9\">\n"
  const XmlHeader := XmlDeclaration + UrlsetOpen
  const XmlFooter := "\n</urlset>\n"

  // The fixed text of a block around its three variable fields.
  const OpenLoc := "  <url>\n    <loc>"
  const LocToLastmod := "</loc>\n    <lastmod>"
  const LastmodToPriority := "</lastmod>\n" + "    <changefreq>weekly</changefreq>\n" + "    <priority>"
  const CloseBlock := "</priority>\n  </url>"

  const RootPriority := "1.0"
  const PagePriority := "0.8"

  /** `loc === BASE_URL + '/' ? '1.0' : '0.8'` */
  function Priority(loc: string): (p: string)
    ensures p == RootPriority <==> loc == BaseUrl + "/"
    ensures p == RootPriority || p == PagePriority
  {
    if loc == BaseUrl + "/" then RootPriority else PagePriority
  }

  /** One `<url>` block: `loc`, `lastmod`, `changefreq` and `priority`, in that order. */
  function Block(e: UrlEntry): string {
    OpenLoc + e.loc + LocToLastmod + e.lastmod + LastmodToPriority + Priority(e.loc) + CloseBlock
  }

  function Blocks(us: seq<UrlEntry>): (bs: seq<string>)
    ensures |bs| == |us|
  {
    if us == [] then [] else [Block(us[0])] + Blocks(us[1..])
  }

  /** The whole document. */
  function Sitemap(us: seq<UrlEntry>): string {
    XmlHeader + Join(Blocks(us), "\n") + XmlFooter
  }

  /** With no records the `urlset` element has no `<url>` child: only the empty line the
      template leaves between the opening and the closing tag. */
  lemma EmptySitemap()
    ensures Sitemap([]) == XmlHeader + XmlFooter
    ensures Sitemap([]) == XmlDeclaration + UrlsetOpen + "\n" + "</urlset>\n"
  {
    assert Join(Blocks([]), "\n") == "";
  }

  // ----- Reading the text back -----

  /** What follows `lit` in `s`, when `s` starts with `lit`. */
  function Expect(lit: string, s: string): (r: Option<string>)
    ensures r.Some? ==> |r.value| == |s| - |lit|
  {
    if lit == [] then Some(s)
    else if s == [] || s[0] != lit[0] then None
    else Expect(lit[1..], s[1..])
  }

  /** A field: the text up to the next '<', and the text from there on. */
  function Field(s: string): (r: (string, string))
    ensures |r.1| <= |s|
  {
    if s == [] || s[0] == '<' then ([], s)
    else
      var (f, rest) := Field(s[1..]);
      ([s[0]] + f, rest)
  }

  /** `lit`, then a field: the field and the text after it. */
  function LitField(lit: string, s: string): (r: Option<(string, string)>)
    ensures r.Some? ==> |r.value.1| <= |s| - |lit|
  {
    var t := Expect(lit, s);
    if t.None? then None else Some(Field(t.value))
  }

  /** One block at the start of `s`: the record it holds and the text after it. A block whose
      priority disagrees with the priority rule is rejected. */
  function DecodeBlock(s: string): (r: Option<(UrlEntry, string)>)
    ensures r.Some? ==> |r.value.1| < |s|
  {
    var a := LitField(OpenLoc, s);
    if a.None? then None
    else
      var (loc, s2) := a.value;
      var b := LitField(LocToLastmod, s2);
      if b.None? then None
      else
        var (lastmod, s4) := b.value;
        var c := LitField(LastmodToPriority, s4);
        if c.None? then None
        else
          var (priority, s6) := c.value;
          var rest := Expect(CloseBlock, s6);
          if rest.None? || priority != Priority(loc) then None
          else Some((UrlEntry(loc, lastmod), rest.value))
  }

  /** Blocks separated by single newlines, up to the end of `s`. */
  function DecodeBlocks(s: string): Option<seq<UrlEntry>>
    decreases |s|
  {
    if s == "" then Some([])
    else
      match DecodeBlock(s)
      case None => None
      case Some((u, rest)) =>
        if rest == "" then Some([u])
        else if rest[0] != '\n' then None
        else
          match DecodeBlocks(rest[1..])
          case None => None
          case Some(us) => Some([u] + us)
  }

  function Decode(doc: string): Option<seq<UrlEntry>> {
    if |XmlHeader| + |XmlFooter| <= |doc| && XmlHeader <= doc && EndsWith(doc, XmlFooter)
    then DecodeBlocks(doc[|XmlHeader|..|doc| - |XmlFooter|])
    else None
  }

  // ----- The round trip -----

  /** A record whose text fields hold no '<', so that the unescaped text stays readable. */
  predicate Plain(e: UrlEntry) {
    '<' !in e.loc && '<' !in e.lastmod
  }

  lemma Regroup(a: string, b: string, c: string, d: string, e: string, f: string, g: string, h: string)
    ensures a + b + c + d + e + f + g + h == a + (b + (c + (d + (e + (f + (g + h))))))
  {
  }

  lemma {:induction false} ExpectOf(lit: string, rest: string)
    ensures Expect(lit, lit + rest) == Some(rest)
  {
    if lit == [] {
      assert lit + rest == rest;
    } else {
      assert (lit + rest)[0] == lit[0] && (lit + rest)[1..] == lit[1..] + rest;
      ExpectOf(lit[1..], rest);
    }
  }

  /** A '<'-free field followed by text that starts with '<' is read back exactly. */
  lemma {:induction false} FieldOf(f: string, b: string)
    requires '<' !in f && |b| > 0 && b[0] == '<'
    ensures Field(f + b) == (f, b)
  {
    if f == [] {
      assert f + b == b;
    } else {
      assert (f + b)[1..] == f[1..] + b;
      FieldOf(f[1..], b);
      assert [f[0]] + f[1..] == f;
    }
  }

  /** A literal followed by a '<'-free field and then a '<' is read back exactly. */
  lemma LitFieldOf(lit: string, f: string, b: string)
    requires '<' !in f && |b| > 0 && b[0] == '<'
    ensures LitField(lit, lit + (f + b)) == Some((f, b))
  {
    ExpectOf(lit, f + b);
    FieldOf(f, b);
  }

  lemma DecodeBlockOf(u: UrlEntry, rest: string)
    requires Plain(u)
    ensures DecodeBlock(Block(u) + rest) == Some((u, rest))
  {
    var pr := Priority(u.loc);
    var t6 := CloseBlock + rest;
    var t4 := LastmodToPriority + (pr + t6);
    var t2 := LocToLastmod + (u.lastmod + t4);
    Regroup(OpenLoc, u.loc, LocToLastmod, u.lastmod, LastmodToPriority, pr, CloseBlock, rest);
    assert Block(u) + rest == OpenLoc + (u.loc + t2);
    assert t2[0] == '<' && t4[0] == '<' && t6[0] == '<';
    assert '<' !in pr;
    LitFieldOf(OpenLoc, u.loc, t2);
    LitFieldOf(LocToLastmod, u.lastmod, t4);
    LitFieldOf(LastmodToPriority, pr, t6);
    ExpectOf(CloseBlock, rest);
  }

  lemma {:induction false} BlocksAt(us: seq<UrlEntry>)
    ensures forall i :: 0 <= i < |us| ==> Blocks(us)[i] == Block(us[i])
  {
    if us != [] {
      BlocksAt(us[1..]);
      var bs := Blocks(us);
      var tail := Blocks(us[1..]);
      assert bs == [Block(us[0])] + tail;
      forall i | 0 <= i < |us| ensures bs[i] == Block(us[i]) {
        if i > 0 {
          assert bs[i] == tail[i - 1];
          assert us[1..][i - 1] == us[i];
        }
      }
    }
  }

  /** Decoding a block followed by a newline and more text. */
  lemma DecodeBlocksStep(b: string, u: UrlEntry, tail: string, vs: seq<UrlEntry>)
    requires DecodeBlock(b + ("\n" + tail)) == Some((u, "\n" + tail))
    requires DecodeBlocks(tail) == Some(vs)
    ensures DecodeBlocks(b + ("\n" + tail)) == Some([u] + vs)
  {
    assert ("\n" + tail)[1..] == tail;
  }

  lemma DecodeBlocksLast(b: string, u: UrlEntry)
    requires DecodeBlock(b) == Some((u, ""))
    ensures DecodeBlocks(b) == Some([u])
  {
  }

  /** A single block holds its record. */
  lemma BlockAlone(u: UrlEntry)
    requires Plain(u)
    ensures DecodeBlocks(Block(u)) == Some([u])
  {
    DecodeBlockOf(u, "");
    assert Block(u) + "" == Block(u);
    DecodeBlocksLast(Block(u), u);
  }

  lemma JoinedOne(bs: seq<string>, u: UrlEntry)
    requires |bs| == 1 && bs[0] == Block(u) && Plain(u)
    ensures DecodeBlocks(Join(bs, "\n")) == Some([u])
  {
    JoinCons(bs, "\n");
    BlockAlone(u);
  }

  /** A block, a newline and blocks that decode: the first record, then the others. */
  lemma BlockThen(s: string, b: string, u: UrlEntry, tail: string, vs: seq<UrlEntry>)
    requires s == b + ("\n" + tail) && b == Block(u) && Plain(u)
    requires DecodeBlocks(tail) == Some(vs)
    ensures DecodeBlocks(s) == Some([u] + vs)
  {
    DecodeBlockOf(u, "\n" + tail);
    DecodeBlocksStep(b, u, tail, vs);
  }

  /** The same for joined blocks. */
  lemma JoinedCons(bs: seq<string>, u: UrlEntry, vs: seq<UrlEntry>)
    requires |bs| > 1 && bs[0] == Block(u) && Plain(u)
    requires DecodeBlocks(Join(bs[1..], "\n")) == Some(vs)
    ensures DecodeBlocks(Join(bs, "\n")) == Some([u] + vs)
  {
    JoinCons(bs, "\n");
    BlockThen(Join(bs, "\n"), bs[0], u, Join(bs[1..], "\n"), vs);
  }

  /** Newline-joined blocks of '<'-free records decode to those records. */
  lemma {:induction false} DecodeJoinedBlocks(bs: seq<string>, us: seq<UrlEntry>)
    requires |bs| == |us|
    requires forall i :: 0 <= i < |us| ==> Plain(us[i]) && bs[i] == Block(us[i])
    ensures DecodeBlocks(Join(bs, "\n")) == Some(us)
  {
    if |us| == 1 {
      JoinedOne(bs, us[0]);
      assert us == [us[0]];
    } else if |us| > 1 {
      forall i | 0 <= i < |us| - 1 ensures Plain(us[1..][i]) && bs[1..][i] == Block(us[1..][i]) {
        assert us[1..][i] == us[i + 1] && bs[1..][i] == bs[i + 1];
      }
      DecodeJoinedBlocks(bs[1..], us[1..]);
      JoinedCons(bs, us[0], us[1..]);
      assert us == [us[0]] + us[1..];
    }
  }

  /** Reading the document back gives exactly the records, in order: one `<url>` block per
      record, joined by newlines, each with the record's `loc` and `lastmod` and the priority
      the rule gives its `loc`. */
  lemma SitemapRoundTrip(us: seq<UrlEntry>)
    requires forall i :: 0 <= i < |us| ==> Plain(us[i])
    ensures Decode(Sitemap(us)) == Some(us)
  {
    var body := Join(Blocks(us), "\n");
    var doc := Sitemap(us);
    assert doc[..|XmlHeader|] == XmlHeader;
    EndsWithConcat(XmlHeader + body, XmlFooter);
    assert doc[|XmlHeader|..|doc| - |XmlFooter|] == body;
    BlocksAt(us);
    DecodeJoinedBlocks(Blocks(us), us);
  }
}
