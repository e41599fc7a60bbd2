/**
 * The sitemap generator (generate_sitemap.py): `generate_sitemap` maps
 * every `.html` file of a directory walk to a URL under the base URL and
 * assembles a sitemaps.org 0.9 `urlset` document; `create_robots_txt`
 * writes the robots text that points at it.
 *
 * The walk (`os.walk`) is given as the sequence of directories it visits,
 * each with its root path and its file names; the clock is given as the
 * ISO text of the current time. Paths are POSIX paths.
 */
module Sitemap {

  // ---------------------------------------------------------------------
  // Python string operations

  predicate StartsWith(s: string, prefix: string) {
    |prefix| <= |s| && s[..|prefix|] == prefix
  }

  predicate EndsWith(s: string, suffix: string) {
    |suffix| <= |s| && s[|s| - |suffix|..] == suffix
  }

  predicate OccursAt(s: string, sub: string, i: nat) {
    i + |sub| <= |s| && s[i..i + |sub|] == sub
  }

  /** `sub in s` */
  predicate Contains(s: string, sub: string) {
    exists i: nat | i <= |s| :: OccursAt(s, sub, i)
  }

  /** A character Python's `str.isspace()` accepts. */
  predicate IsPySpace(c: char) {
    || ('\t' <= c <= '\r')
    || ('\U{001C}' <= c <= ' ')
    || c in {'\U{0085}', '\U{00A0}', '\U{1680}', '\U{2028}', '\U{2029}', '\U{202F}', '\U{205F}', '\U{3000}'}
    || ('\U{2000}' <= c <= '\U{200A}')
  }

  function StripLeft(s: string): (r: string)
    ensures |r| <= |s| && r == s[|s| - |r|..]
    ensures forall i | 0 <= i < |s| - |r| :: IsPySpace(s[i])
    ensures r == [] || !IsPySpace(r[0])
  {
    if s != [] && IsPySpace(s[0]) then StripLeft(s[1..]) else s
  }

  function StripRight(s: string): (r: string)
    ensures |r| <= |s| && r == s[..|r|]
    ensures forall i | |r| <= i < |s| :: IsPySpace(s[i])
    ensures r == [] || !IsPySpace(r[|r| - 1])
  {
    if s != [] && IsPySpace(s[|s| - 1]) then StripRight(s[..|s| - 1]) else s
  }

  /** `s.strip()`: the whitespace at both ends removed. */
  function Strip(s: string): string {
    StripRight(StripLeft(s))
  }

  /** Text that neither starts nor ends with whitespace is left alone. */
  lemma StripKeeps(s: string)
    requires s != [] && !IsPySpace(s[0]) && !IsPySpace(s[|s| - 1])
    ensures Strip(s) == s
  {
  }

  /** `"".join(ss)` */
  function Concat(ss: seq<string>): string {
    if ss == [] then "" else Concat(ss[..|ss| - 1]) + ss[|ss| - 1]
  }

  // ---------------------------------------------------------------------
  // Paths (`os.path`, POSIX flavour)

  /** `os.path.join(a, b)`: an absolute b replaces a; otherwise a slash is
      put between them unless a is empty or already ends with one. */
  function Join(a: string, b: string): string {
    if StartsWith(b, "/") then b
    else if a == [] || EndsWith(a, "/") then a + b
    else a + "/" + b
  }

  /** `s.replace('\\', '/')` */
  function ForwardSlashes(s: string): (r: string)
    ensures |r| == |s|
    ensures forall i | 0 <= i < |s| :: r[i] == (if s[i] == '\\' then '/' else s[i])
    ensures forall i | 0 <= i < |r| :: r[i] != '\\'
    ensures forall i | 0 <= i < |r| :: r[i] != s[i] ==> s[i] == '\\' && r[i] == '/'
  {
    seq(|s|, i requires 0 <= i < |s| => if s[i] == '\\' then '/' else s[i])
  }

  /** Index just past the last `/` of s, or 0 when there is none. */
  function AfterLastSlash(s: string): (r: nat)
    ensures r <= |s|
    ensures r > 0 ==> s[r - 1] == '/'
    ensures forall i | r <= i < |s| :: s[i] != '/'
  {
    if s == [] then 0
    else if s[|s| - 1] == '/' then |s|
    else AfterLastSlash(s[..|s| - 1])
  }

  predicate AllSlashes(s: string) {
    forall i | 0 <= i < |s| :: s[i] == '/'
  }

  /** `s.rstrip('/')` */
  function TrimSlashes(s: string): (r: string)
    ensures r <= s
    ensures forall i | |r| <= i < |s| :: s[i] == '/'
    ensures r == [] || r[|r| - 1] != '/'
  {
    if s != [] && s[|s| - 1] == '/' then TrimSlashes(s[..|s| - 1]) else s
  }

  /** `os.path.dirname(p)`: everything before the last slash, without the
      trailing slashes unless it is made of slashes only. */
  function Dirname(p: string): string {
    var head := p[..AfterLastSlash(p)];
    if head != [] && !AllSlashes(head) then TrimSlashes(head) else head
  }

  // ---------------------------------------------------------------------
  // The URL mapping

  /** `base_url` once a missing trailing slash has been added: the
      shortest extension of the base that ends with a slash. */
  function NormalizeBase(base: string): (r: string)
    ensures EndsWith(r, "/")
    ensures base <= r && |r| <= |base| + 1
  {
    if EndsWith(base, "/") then base else base + "/"
  }

  /** The `.git` and `.github` directories (and everything below them) are
      not scanned. */
  predicate Skipped(root: string) {
    Contains(root, ".git") || Contains(root, ".github")
  }

  /** The walked path of a file relative to the repository root, with
      forward slashes and without a leading `./`. */
  function RelativePath(root: string, file: string): (r: string)
    ensures forall i | 0 <= i < |r| :: r[i] != '\\'
  {
    var p := ForwardSlashes(Join(root, file));
    if StartsWith(p, "./") then
      assert forall i | 0 <= i < |p| - 2 :: p[2..][i] == p[i + 2];
      p[2..]
    else p
  }

  /** The `<loc>` of a page: the base URL for the root index, the
      directory URL for another `index.html`, and the page's own path
      otherwise. */
  function Loc(base: string, rel: string, file: string): (r: string)
    ensures StartsWith(r, base)
    ensures rel == "index.html" ==> r == base
    ensures rel != "index.html" && file == "index.html" ==> EndsWith(r, "/")
  {
    if rel == "index.html" then base
    else if file == "index.html" then base + Dirname(rel) + "/"
    else base + rel
  }

  /** The `<url>` element of one page. */
  function UrlBlock(loc: string, lastmod: string): string {
    "\n    <url>\n        <loc>" + loc + "</loc>\n        <lastmod>" + lastmod
      + "</lastmod>\n        <changefreq>weekly</changefreq>\n        <priority>0.8</priority>\n    </url>"
  }

  const XmlDeclaration := "<?xml version=\"1.0\" encoding=\"UTF-8\"?>"
  const UrlsetOpen := "<urlset xmlns=\"http://www.sitemaps.org/schemas/sitemap/0.9\">"
  /** What precedes the joined elements: the declaration, the opening
      `urlset` tag, and the indentation of the template's third line. */
  const Header := XmlDeclaration + "\n" + UrlsetOpen + "\n    "
  const Footer := "\n</urlset>"

  /** The returned document: the `<url>` elements joined inside the
      `urlset` envelope, stripped. */
  function SitemapText(blocks: seq<string>): string {
    Strip(Header + Concat(blocks) + Footer)
  }

  // ---------------------------------------------------------------------
  // The walk

  /** One directory as `os.walk` yields it (its subdirectory names are not
      used). */
  datatype Dir = Dir(root: string, files: seq<string>)

  /** The `.html` files among `files` of directory root, in order, as
      (root, file) pairs. */
  function HtmlFiles(root: string, files: seq<string>): seq<(string, string)> {
    if files == [] then []
    else
      var f := files[|files| - 1];
      HtmlFiles(root, files[..|files| - 1]) + (if EndsWith(f, ".html") then [(root, f)] else [])
  }

  /** The pages the generator maps, in walk order. */
  function Pages(walk: seq<Dir>): seq<(string, string)> {
    if walk == [] then []
    else
      var d := walk[|walk| - 1];
      Pages(walk[..|walk| - 1]) + (if Skipped(d.root) then [] else HtmlFiles(d.root, d.files))
  }

  /** The `<loc>` of a page of the walk. */
  function PageLoc(base: string, page: (string, string)): string {
    Loc(base, RelativePath(page.0, page.1), page.1)
  }

  /** One `<url>` element per page, in order, all with the same
      `lastmod`. */
  function Blocks(base: string, pages: seq<(string, string)>, lastmod: string): (r: seq<string>)
    ensures |r| == |pages|
    ensures forall i | 0 <= i < |pages| :: r[i] == UrlBlock(PageLoc(base, pages[i]), lastmod)
  {
    seq(|pages|, i requires 0 <= i < |pages| => UrlBlock(PageLoc(base, pages[i]), lastmod))
  }

  /** `generate_sitemap(base_url)` over the given walk, the current time
      being `now` (`datetime.now().isoformat()`). */
  method GenerateSitemap(baseUrl: string, walk: seq<Dir>, now: string) returns (content: string)
    ensures content == SitemapText(Blocks(NormalizeBase(baseUrl), Pages(walk), now + "+00:00"))
  {
    var urlset: seq<string> := [];
    var currentTime := now + "+00:00";
    var base := baseUrl;
    if !EndsWith(base, "/") {
      base := base + "/";
    }
    for i := 0 to |walk|
      invariant urlset == Blocks(base, Pages(walk[..i]), currentTime)
    {
      var root, files := walk[i].root, walk[i].files;
      DirStep(walk, i);
      if Skipped(root) {
        assert Pages(walk[..i + 1]) == Pages(walk[..i]) + [];
        continue;
      }
      var blocks := DirectoryBlocks(base, root, files, currentTime);
      BlocksAppend(base, Pages(walk[..i]), HtmlFiles(root, files), currentTime);
      urlset := urlset + blocks;
    }
    assert walk[..|walk|] == walk;
    content := Strip(Header + Concat(urlset) + Footer);
  }

  /** The inner loop (lines 29-61): the elements of one directory's
      `.html` files, in the order of its files. */
  method DirectoryBlocks(base: string, root: string, files: seq<string>, currentTime: string) returns (blocks: seq<string>)
    ensures blocks == Blocks(base, HtmlFiles(root, files), currentTime)
  {
    blocks := [];
    assert files[..0] == [];
    for j := 0 to |files|
      invariant blocks == Blocks(base, HtmlFiles(root, files[..j]), currentTime)
    {
      var file := files[j];
      FileStep(base, root, files, j, currentTime);
      if EndsWith(file, ".html") {
        var loc := PageUrl(base, root, file);
        blocks := blocks + [UrlBlock(loc, currentTime)];
      }
    }
    assert files[..|files|] == files;
  }

  /** Lines 32-51 for one `.html` file: its path relative to the
      repository root, then its URL. */
  method PageUrl(base: string, root: string, file: string) returns (loc: string)
    ensures loc == PageLoc(base, (root, file))
  {
    var relativePath := ForwardSlashes(Join(root, file));
    if StartsWith(relativePath, "./") {
      relativePath := relativePath[2..];
    }
    assert relativePath == RelativePath(root, file);
    if relativePath == "index.html" {
      loc := base;
    } else if file == "index.html" {
      var dirPath := Dirname(relativePath);
      loc := base + dirPath + "/";
    } else {
      loc := base + relativePath;
    }
  }

  lemma DirStep(walk: seq<Dir>, i: nat)
    requires i < |walk|
    ensures Pages(walk[..i + 1])
      == Pages(walk[..i]) + (if Skipped(walk[i].root) then [] else HtmlFiles(walk[i].root, walk[i].files))
  {
    assert walk[..i + 1][..i] == walk[..i];
  }

  /** One iteration of the inner loop: an `.html` file adds its element,
      any other file nothing. */
  lemma FileStep(base: string, root: string, files: seq<string>, j: nat, lastmod: string)
    requires j < |files|
    ensures Blocks(base, HtmlFiles(root, files[..j + 1]), lastmod)
      == Blocks(base, HtmlFiles(root, files[..j]), lastmod)
         + (if EndsWith(files[j], ".html") then [UrlBlock(PageLoc(base, (root, files[j])), lastmod)] else [])
  {
    assert files[..j + 1][..j] == files[..j];
  }

  /** The elements of two runs of pages are those of the first, then those
      of the second. */
  lemma BlocksAppend(base: string, a: seq<(string, string)>, b: seq<(string, string)>, lastmod: string)
    ensures Blocks(base, a + b, lastmod) == Blocks(base, a, lastmod) + Blocks(base, b, lastmod)
  {
  }

  // ---------------------------------------------------------------------
  // Properties of the mapping

  /** A slash is added only when it is missing, so normalising twice is
      normalising once. */
  lemma NormalizeIdempotent(base: string)
    ensures EndsWith(base, "/") ==> NormalizeBase(base) == base
    ensures NormalizeBase(NormalizeBase(base)) == NormalizeBase(base)
  {
  }

  /** The `.github` test is subsumed by the `.git` test: a root is skipped
      exactly when it contains `.git`. */
  lemma SkippedIffGit(root: string)
    ensures Skipped(root) <==> Contains(root, ".git")
  {
    if Contains(root, ".github") {
      var i: nat :| i <= |root| && OccursAt(root, ".github", i);
      assert root[i..i + 4] == root[i..i + 7][..4];
      assert OccursAt(root, ".git", i);
    }
  }

  lemma {:induction false} HtmlFilesMembers(root: string, files: seq<string>, r: string, f: string)
    ensures (r, f) in HtmlFiles(root, files) <==> r == root && f in files && EndsWith(f, ".html")
    decreases |files|
  {
    if files != [] {
      var init := files[..|files| - 1];
      HtmlFilesMembers(root, init, r, f);
      assert files == init + [files[|files| - 1]];
    }
  }

  /** The walk visits directory r, and f is one of its files. */
  predicate Walked(walk: seq<Dir>, r: string, f: string) {
    exists i | 0 <= i < |walk| :: walk[i].root == r && f in walk[i].files
  }

  lemma WalkedSnoc(walk: seq<Dir>, r: string, f: string)
    requires walk != []
    ensures var init, d := walk[..|walk| - 1], walk[|walk| - 1];
      Walked(walk, r, f) <==> Walked(init, r, f) || (d.root == r && f in d.files)
  {
    var init := walk[..|walk| - 1];
    if Walked(walk, r, f) {
      var i :| 0 <= i < |walk| && walk[i].root == r && f in walk[i].files;
      if i < |init| {
        assert init[i] == walk[i];
      }
    }
    if Walked(init, r, f) {
      var i :| 0 <= i < |init| && init[i].root == r && f in init[i].files;
      assert walk[i] == init[i];
    }
  }

  /** A (root, file) pair is mapped exactly when the walk visits root, root
      is not skipped, and file is one of its `.html` files. */
  lemma {:induction false} PagesMembers(walk: seq<Dir>, r: string, f: string)
    ensures (r, f) in Pages(walk) <==> Walked(walk, r, f) && !Skipped(r) && EndsWith(f, ".html")
    decreases |walk|
  {
    if walk != [] {
      var init, d := walk[..|walk| - 1], walk[|walk| - 1];
      PagesMembers(init, r, f);
      HtmlFilesMembers(d.root, d.files, r, f);
      WalkedSnoc(walk, r, f);
    }
  }

  lemma SlashesKept(s: string)
    requires forall i | 0 <= i < |s| :: s[i] != '\\'
    ensures ForwardSlashes(s) == s
  {
  }

  /** A file walked in the start directory `.` keeps its own name. */
  lemma TopLevelPath(file: string)
    requires forall i | 0 <= i < |file| :: file[i] != '\\'
    requires !StartsWith(file, "/")
    ensures RelativePath(".", file) == file
  {
    assert Join(".", file) == "./" + file;
    SlashesKept("./" + file);
    assert ("./" + file)[2..] == file;
  }

  /** A file walked in `./d` is at `d/file`. */
  lemma SubdirPath(d: string, file: string)
    requires d != [] && d[|d| - 1] != '/'
    requires forall i | 0 <= i < |d| :: d[i] != '\\'
    requires forall i | 0 <= i < |file| :: file[i] != '\\'
    requires !StartsWith(file, "/")
    ensures RelativePath("./" + d, file) == d + "/" + file
  {
    assert ("./" + d)[|d| + 1] == d[|d| - 1];
    assert Join("./" + d, file) == "./" + d + "/" + file;
    assert "./" + d + "/" + file == "./" + (d + "/" + file);
    SlashesKept("./" + (d + "/" + file));
    assert ("./" + (d + "/" + file))[2..] == d + "/" + file;
  }

  /** The directory of `d/file` is d. */
  lemma DirnameOfChild(d: string, file: string)
    requires d != [] && d[|d| - 1] != '/'
    requires forall i | 0 <= i < |file| :: file[i] != '/'
    ensures Dirname(d + "/" + file) == d
  {
    var p := d + "/" + file;
    assert AfterLastSlash(p) == |d| + 1 by {
      AfterLastSlashAt(p, |d|);
    }
    var head := p[..|d| + 1];
    assert head == d + "/";
    assert !AllSlashes(head) by {
      assert head[|d| - 1] == d[|d| - 1];
    }
    assert head[..|head| - 1] == d;
  }

  lemma AfterLastSlashAt(s: string, k: nat)
    requires k < |s| && s[k] == '/'
    requires forall i | k < i < |s| :: s[i] != '/'
    ensures AfterLastSlash(s) == k + 1
  {
    var r := AfterLastSlash(s);
    assert k < r;
    assert s[r - 1] == '/';
  }

  /** The start directory's `index.html` is the base URL itself. */
  lemma RootIndexLoc(base: string)
    ensures PageLoc(base, (".", "index.html")) == base
  {
    assert "index.html"[..1] == "i";
    TopLevelPath("index.html");
  }

  /** Any other page of the start directory is at base + its name. */
  lemma TopLevelPageLoc(base: string, file: string)
    requires forall i | 0 <= i < |file| :: file[i] != '\\'
    requires !StartsWith(file, "/") && file != "index.html"
    ensures PageLoc(base, (".", file)) == base + file
  {
    TopLevelPath(file);
  }

  /** The `index.html` of a subdirectory `./d` is the directory URL
      base + d + `/`. */
  lemma SubdirIndexLoc(base: string, d: string)
    requires d != [] && d[|d| - 1] != '/'
    requires forall i | 0 <= i < |d| :: d[i] != '\\'
    ensures PageLoc(base, ("./" + d, "index.html")) == base + d + "/"
  {
    assert "index.html"[..1] == "i";
    SubdirPath(d, "index.html");
    DirnameOfChild(d, "index.html");
    assert |d + "/" + "index.html"| > |"index.html"|;
  }

  /** Any other page of `./d` is at base + d + `/` + its name. */
  lemma SubdirPageLoc(base: string, d: string, file: string)
    requires d != [] && d[|d| - 1] != '/'
    requires forall i | 0 <= i < |d| :: d[i] != '\\'
    requires forall i | 0 <= i < |file| :: file[i] != '\\'
    requires !StartsWith(file, "/") && file != "index.html"
    ensures PageLoc(base, ("./" + d, file)) == base + d + "/" + file
  {
    SubdirPath(d, file);
    assert (d + "/" + file)[|d|] == '/';
    assert forall i | 0 <= i < |"index.html"| :: "index.html"[i] != '/';
  }

  /** Different locations give different `<url>` elements. */
  lemma UrlBlockInjective(loc1: string, loc2: string, lastmod: string)
    requires UrlBlock(loc1, lastmod) == UrlBlock(loc2, lastmod)
    ensures loc1 == loc2
  {
    var pre := "\n    <url>\n        <loc>";
    var b1, b2 := UrlBlock(loc1, lastmod), UrlBlock(loc2, lastmod);
    assert |loc1| == |loc2|;
    assert b1[|pre|..|pre| + |loc1|] == loc1;
    assert b2[|pre|..|pre| + |loc2|] == loc2;
  }

  /** The document starts with the XML declaration and ends with the
      closing `</urlset>`, so stripping it changes nothing. */
  lemma SitemapTextUnstripped(blocks: seq<string>)
    ensures SitemapText(blocks) == Header + Concat(blocks) + Footer
  {
    var s := Header + Concat(blocks) + Footer;
    assert s == Header + (Concat(blocks) + Footer);
    assert XmlDeclaration[0] == '<';
    assert s[0] == XmlDeclaration[0];
    assert s[|s| - 1] == Footer[|Footer| - 1] == '>';
    StripKeeps(s);
  }

  // ---------------------------------------------------------------------
  // `create_robots_txt`

  /** The robots rules: every agent, everything allowed, then the
      sitemap line's label. */
  const RobotsRules := "User-agent: *\nAllow: /\n\nSitemap: "

  /** Robots text allowing everything and naming the sitemap at url. */
  function RobotsText(url: string): string {
    RobotsRules + url
  }

  /** Where the generated sitemap is published: `sitemap.xml` under the
      normalised base URL. */
  function SitemapUrl(baseUrl: string): string {
    NormalizeBase(baseUrl) + "sitemap.xml"
  }

  /** `create_robots_txt()` as written, `BASE_URL` being baseUrl: the
      template opens and closes with a line break, and is stripped. */
  function RobotsTxt(baseUrl: string): string {
    Strip("\n" + RobotsRules + baseUrl + "sitemap.xml" + "\n")
  }

  /** Stripping the template removes its first and last line breaks, and
      nothing else when the URL does not end with whitespace. */
  lemma RobotsStrip(url: string)
    requires url != [] && !IsPySpace(url[|url| - 1])
    ensures Strip("\n" + RobotsText(url) + "\n") == RobotsText(url)
  {
    var t := RobotsText(url);
    var s := "\n" + t + "\n";
    assert t[0] == RobotsRules[0] == 'U';
    assert s[1..] == t + "\n";
    assert StripLeft(s) == t + "\n";
    assert (t + "\n")[..|t|] == t;
    assert t[|t| - 1] == url[|url| - 1];
  }

  /** The robots text names base + `sitemap.xml`, with the base as
      configured, not normalised. */
  lemma RobotsTxtNamesBase(baseUrl: string)
    ensures RobotsTxt(baseUrl) == RobotsText(baseUrl + "sitemap.xml")
  {
    var url := baseUrl + "sitemap.xml";
    assert "\n" + RobotsRules + baseUrl + "sitemap.xml" + "\n" == "\n" + RobotsText(url) + "\n";
    assert url[|url| - 1] == 'l';
    RobotsStrip(url);
  }

  /** For a base URL without its trailing slash the robots text names a
      URL other than the one the sitemap is published at. */
  lemma RobotsMissesSitemap(baseUrl: string)
    requires !EndsWith(baseUrl, "/")
    ensures RobotsTxt(baseUrl) != RobotsText(SitemapUrl(baseUrl))
  {
    RobotsTxtNamesBase(baseUrl);
    assert |RobotsText(SitemapUrl(baseUrl))| == |RobotsText(baseUrl + "sitemap.xml")| + 1;
  }

  /** The example base URL without a slash: the robots text points at
      `https://example.comsitemap.xml`. */
  lemma RobotsMissesSitemapExample(b: string)
    requires b == "https://example.com"
    ensures RobotsTxt(b) == RobotsText("https://example.comsitemap.xml")
    ensures SitemapUrl(b) == "https://example.com/sitemap.xml"
  {
    RobotsTxtNamesBase(b);
    assert b + "sitemap.xml" == "https://example.comsitemap.xml";
    assert !EndsWith(b, "/") by { assert b[|b| - 1..][0] == 'm'; }
    assert NormalizeBase(b) + "sitemap.xml" == "https://example.com/sitemap.xml";
  }

  /** The robots text built from the normalised base, as `generate_sitemap`
      uses it. */
  function RobotsTxtNormalized(baseUrl: string): string {
    Strip("\n" + RobotsRules + NormalizeBase(baseUrl) + "sitemap.xml" + "\n")
  }

  /** It always names the published sitemap, and agrees with the original
      whenever the base already ends with a slash. */
  lemma RobotsTxtNormalizedNamesSitemap(baseUrl: string)
    ensures RobotsTxtNormalized(baseUrl) == RobotsText(SitemapUrl(baseUrl))
    ensures EndsWith(baseUrl, "/") ==> RobotsTxtNormalized(baseUrl) == RobotsTxt(baseUrl)
  {
    RobotsTxtNamesBase(NormalizeBase(baseUrl));
  }
}
