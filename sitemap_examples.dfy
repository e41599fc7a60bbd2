/**
 * A worked walk for the sitemap generator (generate_sitemap.py): the start
 * directory with its `index.html` and a stylesheet, the `.git` directory,
 * and two subdirectories.
 */
module SitemapExamples {
  import opened Sitemap

  lemma GitAt(root: string, i: nat)
    ensures OccursAt(root, ".git", i) ==> root[i] == '.' && root[i + 1] == 'g'
  {
    if OccursAt(root, ".git", i) {
      assert root[i..i + 4][0] == root[i];
      assert root[i..i + 4][1] == root[i + 1];
    }
  }

  /** Without a `.` followed by `g` a path cannot contain `.git`. */
  lemma NoGit(root: string)
    requires forall i | 0 <= i < |root| - 1 :: root[i] == '.' ==> root[i + 1] != 'g'
    ensures !Skipped(root)
  {
    SkippedIffGit(root);
    forall i: nat | i <= |root| ensures !OccursAt(root, ".git", i) {
      GitAt(root, i);
    }
  }

  lemma ExampleTopDir()
    ensures HtmlFiles(".", ["index.html", "style.css"]) == [(".", "index.html")]
  {
    assert EndsWith("index.html", ".html");
    assert !EndsWith("style.css", ".html");
    assert ["index.html", "style.css"][..1] == ["index.html"];
  }

  lemma ExamplePages()
    ensures Pages([Dir(".", ["index.html", "style.css"]), Dir("./.git", ["x.html"]), Dir("./about", ["index.html"])])
      == [(".", "index.html"), ("./about", "index.html")]
  {
    var w := [Dir(".", ["index.html", "style.css"]), Dir("./.git", ["x.html"]), Dir("./about", ["index.html"])];
    NoGit(".");
    NoGit("./about");
    assert OccursAt("./.git", ".git", 2);
    ExampleTopDir();
    assert EndsWith("index.html", ".html");
    assert HtmlFiles("./about", ["index.html"]) == [("./about", "index.html")];
    assert w[..2] == [Dir(".", ["index.html", "style.css"]), Dir("./.git", ["x.html"])];
    assert w[..2][..1] == [Dir(".", ["index.html", "style.css"])];
    assert Pages(w[..2][..1]) == [(".", "index.html")];
    assert Pages(w[..2]) == [(".", "index.html")];
  }

  lemma ExampleSubdirIndex(base: string)
    ensures PageLoc(base, ("./about", "index.html")) == base + "about/"
  {
    assert "./" + "about" == "./about";
    assert "about"[4] != '/';
    SubdirIndexLoc(base, "about");
  }

  lemma ExampleSubdirPage(base: string)
    ensures PageLoc(base, ("./blog", "post.html")) == base + "blog/post.html"
  {
    var d, file := "blog", "post.html";
    assert d[|d| - 1] == 'g';
    assert forall i | 0 <= i < |d| :: d[i] != '\\';
    assert forall i | 0 <= i < |file| :: file[i] != '\\';
    assert file[..1] == "p" && file != "index.html";
    assert "./" + d == "./blog";
    SubdirPageLoc(base, d, file);
    assert base + d + "/" + file == base + "blog/post.html";
  }
}
