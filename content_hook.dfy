/**
 * The MkDocs post-build hook that writes the chatbot's content index
 * (hooks/generate_content.py, `on_post_build`), without the file system:
 * the Markdown files arrive as values, already in the order the hook visits
 * them, and the index comes back as a sequence of records instead of being
 * written to content.json.
 */
module ContentHook {
  import opened Wrappers
  import opened PyStr

  /**
   * One Markdown file found under the docs directory: `dirs` and `name` are
   * the parts of its path relative to that directory, `text` is its contents,
   * or None when opening or decoding it raised.
   */
  datatype Source = Source(dirs: seq<string>, name: string, text: Option<string>)

  /** One record of the content index. */
  datatype Entry = Entry(title: string, url: string, content: string)

  /** `str(rel_path)` on a platform whose path separator is `sep`. */
  function RelPath(f: Source, sep: char): string {
    Join(f.dirs + [f.name], sep)
  }

  // ---------------------------------------------------------------------------
  // URL of a page

  /** The path before the `index` rule: backslashes and every `.md` become `/`. */
  function RawUrlPath(rel: string): string {
    "/" + Replace(Replace(rel, "\\", "/"), ".md", "/")
  }

  /** A path ending in `index/` (whatever precedes it) loses those six characters. */
  function StripIndex(p: string): string {
    if EndsWith(p, "index/") then p[..|p| - 6] else p
  }

  /** The URL path of the page built from the file at relative path `rel`. */
  function UrlPath(rel: string): string {
    var p := StripIndex(RawUrlPath(rel));
    if p == "/index/" then "/" else p
  }

  /** `site_url.rstrip('/') + url_path` */
  function FullUrl(siteUrl: string, urlPath: string): string {
    RStripChar(siteUrl, '/') + urlPath
  }

  lemma PrefixKeepsAbsence(p: string, n: nat, pat: string)
    requires n <= |p| && !Contains(p, pat)
    ensures !Contains(p[..n], pat)
  {
    forall i: nat | MatchAt(p[..n], i, pat) ensures false {
      assert p[i..i + |pat|] == p[..n][i..i + |pat|];
      assert MatchAt(p, i, pat);
    }
  }

  lemma RawUrlPathShape(rel: string)
    ensures RawUrlPath(rel)[0] == '/'
    ensures '\\' !in RawUrlPath(rel)
    ensures !Contains(RawUrlPath(rel), ".md")
  {
    var r1 := Replace(rel, "\\", "/");
    var r2 := Replace(r1, ".md", "/");
    var raw := "/" + r2;
    ReplaceChar(rel, '\\', '/');
    assert '\\' !in r1;
    if '\\' in r2 {
      ReplaceChars(r1, ".md", "/", '\\');
    }
    ReplaceRemovesAll(r1, ".md", "/");
    forall i: nat | i <= |raw| ensures !MatchAt(raw, i, ".md") {
      if i == 0 {
        assert raw[0] != '.';
      } else if i + 3 <= |raw| {
        assert r2[i - 1..i + 2] == raw[i..i + 3];
        assert !MatchAt(r2, i - 1, ".md");
      }
    }
  }

  /**
   * Every URL path starts with `/` and contains neither a backslash nor
   * `.md`, the `index/` rule included.
   */
  lemma UrlPathShape(rel: string)
    ensures |UrlPath(rel)| >= 1 && UrlPath(rel)[0] == '/'
    ensures '\\' !in UrlPath(rel)
    ensures !Contains(UrlPath(rel), ".md")
  {
    var raw := RawUrlPath(rel);
    RawUrlPathShape(rel);
    var p := StripIndex(raw);
    if EndsWith(raw, "index/") {
      assert |raw| > 6 by {
        assert raw[|raw| - 6..][0] == 'i' && raw[0] == '/';
      }
      PrefixKeepsAbsence(raw, |raw| - 6, ".md");
      assert p[0] == raw[0];
      assert forall c :: c in p ==> c in raw;
    }
    if p == "/index/" {
      assert UrlPath(rel) == "/";
      assert !MatchAt("/", 0, ".md");
    }
  }

  /**
   * The `index/` rule: a raw path ending in `index/` loses exactly those six
   * characters, and one ending otherwise is kept, except for the raw path
   * `/index/index/`, which the second rule sends to `/`.
   */
  lemma UrlPathIndexRule(rel: string)
    ensures var raw := RawUrlPath(rel);
      && (!EndsWith(raw, "index/") ==> UrlPath(rel) == raw)
      && (EndsWith(raw, "index/") && raw != "/index/index/" ==> UrlPath(rel) + "index/" == raw)
      && (raw == "/index/index/" ==> UrlPath(rel) == "/")
  {
    var raw := RawUrlPath(rel);
    RawUrlPathShape(rel);
    if EndsWith(raw, "index/") && raw != "/index/index/" {
      var p := raw[..|raw| - 6];
      assert p + "index/" == raw;
    } else if !EndsWith(raw, "index/") {
      assert raw != "/index/";
    }
  }

  /**
   * The second rule (`url_path == '/index/'`) changes the path exactly when
   * the raw path is `/index/index/`, e.g. for `index/index.md`; for the root
   * `index.md` the first rule has already produced `/`.
   */
  lemma SecondIndexRuleFires(rel: string)
    ensures UrlPath(rel) != StripIndex(RawUrlPath(rel)) <==> RawUrlPath(rel) == "/index/index/"
  {
    var raw := RawUrlPath(rel);
    UrlPathIndexRule(rel);
    if raw == "/index/index/" {
      assert EndsWith(raw, "index/");
      assert StripIndex(raw) == "/index/";
    }
  }

  /**
   * For a file `base.md` with no dot and no backslash in `base`, the raw path
   * is `base` between slashes.
   */
  lemma RawUrlPathOfPage(rel: string, base: string)
    requires rel == base + ".md" && '.' !in base && '\\' !in base
    ensures RawUrlPath(rel) == "/" + base + "/"
  {
    assert rel == base + ".md" + [];
    ReplaceCharAbsent(rel, '\\', '/');
    ReplaceFirst(base, [], ".md", "/");
  }

  /**
   * A page `base.md` whose name does not end in `index` gets the URL path
   * `/base/`: `java/basics.md` gives `/java/basics/`.
   */
  lemma UrlPathOfPage(rel: string, base: string)
    requires rel == base + ".md" && '.' !in base && '\\' !in base
    requires !EndsWith(base, "index")
    ensures UrlPath(rel) == "/" + base + "/"
  {
    RawUrlPathOfPage(rel, base);
    var raw := "/" + base + "/";
    assert !EndsWith(raw, "index/") by {
      if |base| >= 5 {
        assert base[|base| - 5..] == raw[|raw| - 6..|raw| - 1];
      } else if |raw| >= 6 {
        assert raw[|raw| - 6] == '/';
      }
    }
  }

  /**
   * A page `dir + "index.md"` loses `index/`, whatever `dir` is: `index.md`
   * gives `/`, `java/index.md` gives `/java/`, `reindex.md` gives `/re`;
   * only `index/index.md` is sent on to `/` by the second rule.
   */
  lemma UrlPathOfIndexPage(rel: string, dir: string)
    requires rel == dir + "index.md" && '.' !in dir && '\\' !in dir
    ensures UrlPath(rel) == if dir == "index/" then "/" else "/" + dir
  {
    var base := dir + "index";
    assert rel == base + ".md";
    RawUrlPathOfPage(rel, base);
    var raw := "/" + base + "/";
    assert raw == "/" + dir + "index/";
    assert EndsWith(raw, "index/");
    assert raw[..|raw| - 6] == "/" + dir;
    if "/" + dir == "/index/" {
      assert dir == ("/" + dir)[1..] == "index/";
    }
  }

  /** Backslash separators give the same URL as forward slashes. */
  lemma UrlPathIgnoresSeparatorStyle(rel: string)
    ensures UrlPath(rel) == UrlPath(Replace(rel, "\\", "/"))
  {
    var r1 := Replace(rel, "\\", "/");
    ReplaceChar(rel, '\\', '/');
    assert '\\' !in r1;
    ReplaceCharAbsent(r1, '\\', '/');
  }

  /** Every `.md` is replaced, also one that ends a directory name. */
  lemma EveryMdReplaced(rel: string, dir: string, page: string)
    requires rel == dir + ".md/" + page + ".md"
    requires '.' !in dir && '.' !in page && '\\' !in rel
    ensures RawUrlPath(rel) == "/" + dir + "//" + page + "/"
  {
    ReplaceCharAbsent(rel, '\\', '/');
    var b := "/" + page;
    assert '.' !in b;
    assert rel == dir + ".md" + b + ".md";
    ReplaceBoth(dir, b, ".md", "/");
  }

  /**
   * The site URL loses all of its trailing slashes and is followed directly
   * by the path; for a path starting with `/` (every URL path does) there is
   * no `//` at the junction.
   */
  lemma FullUrlJunction(siteUrl: string, path: string)
    requires StartsWith(path, "/")
    ensures var base := RStripChar(siteUrl, '/');
      && FullUrl(siteUrl, path) == base + path
      && siteUrl[..|base|] == base
      && (forall k :: |base| <= k < |siteUrl| ==> siteUrl[k] == '/')
      && (base != [] ==> !MatchAt(FullUrl(siteUrl, path), |base| - 1, "//"))
  {
    var base := RStripChar(siteUrl, '/');
    var u := FullUrl(siteUrl, path);
    if base != [] {
      assert u[|base| - 1] == base[|base| - 1];
      assert u[|base| - 1..|base| + 1][0] == u[|base| - 1];
    }
  }

  /** Trailing slashes on the site URL make no difference; an empty one gives the path. */
  lemma FullUrlTrailingSlash(siteUrl: string, path: string)
    ensures FullUrl(siteUrl + "/", path) == FullUrl(siteUrl, path)
    ensures FullUrl("", path) == path
  {
    assert (siteUrl + "/")[..|siteUrl|] == siteUrl;
  }

  // ---------------------------------------------------------------------------
  // Title of a page

  /** A line whose stripped form starts with `# ` (a level-one heading). */
  predicate IsHeadingLine(line: string) {
    StartsWith(Strip(line), "# ")
  }

  /** The text of a level-one heading, stripped. */
  function HeadingText(line: string): string
    requires IsHeadingLine(line)
  {
    Strip(Strip(line)[2..])
  }

  /** The title used when the file has no heading: the stem, spaced and title-cased. */
  function FallbackTitle(stem: string): string {
    Title(Replace(Replace(stem, "-", " "), "_", " "))
  }

  /** The index of the first heading line at or after `start`, if any. */
  function FirstHeadingFrom(lines: seq<string>, start: nat): (r: Option<nat>)
    requires start <= |lines|
    ensures r.Some? ==> start <= r.value < |lines| && IsHeadingLine(lines[r.value])
    ensures r.Some? ==> forall j :: start <= j < r.value ==> !IsHeadingLine(lines[j])
    ensures r.None? ==> forall j :: start <= j < |lines| ==> !IsHeadingLine(lines[j])
    decreases |lines| - start
  {
    if start == |lines| then None
    else if IsHeadingLine(lines[start]) then Some(start)
    else FirstHeadingFrom(lines, start + 1)
  }

  /** The title the hook gives a page with contents `text` and file stem `stem`. */
  function TitleOf(text: string, stem: string): string {
    var lines := Split(text, '\n');
    match FirstHeadingFrom(lines, 0)
    case Some(i) => HeadingText(lines[i])
    case None => FallbackTitle(stem)
  }

  /** Scans the lines for the first level-one heading, starting from the fallback title. */
  method ExtractTitle(text: string, stem: string) returns (title: string)
    ensures title == TitleOf(text, stem)
  {
    title := FallbackTitle(stem);
    var lines := Split(text, '\n');
    var i := 0;
    while i < |lines|
      invariant 0 <= i <= |lines|
      invariant forall j :: 0 <= j < i ==> !IsHeadingLine(lines[j])
      invariant title == FallbackTitle(stem)
    {
      if IsHeadingLine(lines[i]) {
        title := HeadingText(lines[i]);
        assert FirstHeadingFrom(lines, 0) == Some(i);
        return;
      }
      i := i + 1;
    }
  }

  /** The heading text is what follows `# `, stripped: it has no whitespace at either end. */
  lemma HeadingTextShape(line: string)
    requires IsHeadingLine(line)
    ensures Strip(line) == "# " + Strip(line)[2..]
    ensures HeadingText(line) == Strip(Strip(line)[2..])
    ensures var t := HeadingText(line); t == [] || (!IsSpace(t[0]) && !IsSpace(t[|t| - 1]))
  {
    var s := Strip(line);
    assert s == s[..2] + s[2..];
    var _ := StripShape(s[2..]);
  }

  /** With a level-one heading on line `i` and none before it, the title is that heading's text. */
  lemma TitleFromHeading(text: string, stem: string, i: nat)
    requires i < |Split(text, '\n')| && IsHeadingLine(Split(text, '\n')[i])
    requires forall j :: 0 <= j < i ==> !IsHeadingLine(Split(text, '\n')[j])
    ensures TitleOf(text, stem) == HeadingText(Split(text, '\n')[i])
  {
    var lines := Split(text, '\n');
    var r := FirstHeadingFrom(lines, 0);
    assert r.Some? && r.value == i;
  }

  /** Without any level-one heading, the title is the fallback built from the stem. */
  lemma TitleWithoutHeading(text: string, stem: string)
    requires forall j :: 0 <= j < |Split(text, '\n')| ==> !IsHeadingLine(Split(text, '\n')[j])
    ensures TitleOf(text, stem) == FallbackTitle(stem)
  {
  }

  /** A `## ` (or deeper) heading never counts as the page title. */
  lemma DeeperHeadingIsNoTitle(line: string)
    requires StartsWith(Strip(line), "##")
    ensures !IsHeadingLine(line)
  {
    assert Strip(line)[1] == '#';
  }

  /**
   * The fallback title keeps the stem's length, puts a space for every `-`
   * and `_`, and title-cases the rest: those separators start new words.
   */
  lemma FallbackTitleShape(stem: string)
    ensures |FallbackTitle(stem)| == |stem|
    ensures forall i :: 0 <= i < |stem| ==>
      FallbackTitle(stem)[i] == (if stem[i] == '-' || stem[i] == '_' then ' ' else TitleCharAt(stem, i))
  {
    var s1 := Replace(stem, "-", " ");
    var s2 := Replace(s1, "_", " ");
    ReplaceChar(stem, '-', ' ');
    ReplaceChar(s1, '_', ' ');
    assert "-" == ['-'] && "_" == ['_'] && " " == [' '];
    forall i | 0 <= i < |stem| ensures s2[i] == (if stem[i] == '-' || stem[i] == '_' then ' ' else stem[i]) {
    }
    forall j | 0 <= j < |stem| ensures IsCased(s2[j]) == IsCased(stem[j]) {
    }
  }

  // ---------------------------------------------------------------------------
  // The content index

  /**
   * The hook's `try` block succeeds for a file exactly when the file could be
   * read and the site URL is a string.
   */
  predicate Processed(f: Source, siteUrl: Option<string>) {
    f.text.Some? && siteUrl.Some?
  }

  /** The record for one file, or None when the hook's `try` block raises for it. */
  function EntryFor(f: Source, siteUrl: Option<string>, sep: char): Option<Entry> {
    if !Processed(f, siteUrl) then None
    else Some(Entry(TitleOf(f.text.value, Stem(f.name)),
                    FullUrl(siteUrl.value, UrlPath(RelPath(f, sep))),
                    f.text.value))
  }

  /** The records of all files, in file order, skipping those that fail. */
  function Collect(files: seq<Source>, siteUrl: Option<string>, sep: char): seq<Entry>
    decreases |files|
  {
    if files == [] then []
    else
      var init := Collect(files[..|files| - 1], siteUrl, sep);
      match EntryFor(files[|files| - 1], siteUrl, sep)
      case Some(e) => init + [e]
      case None => init
  }

  /** The indexes of the files that produce a record, in increasing order. */
  function Kept(files: seq<Source>, siteUrl: Option<string>): (ks: seq<nat>)
    ensures forall k :: 0 <= k < |ks| ==> ks[k] < |files| && Processed(files[ks[k]], siteUrl)
    ensures forall k, l :: 0 <= k < l < |ks| ==> ks[k] < ks[l]
    ensures forall i :: 0 <= i < |files| && Processed(files[i], siteUrl) ==> i in ks
    decreases |files|
  {
    if files == [] then []
    else
      var n := |files| - 1;
      var init := Kept(files[..n], siteUrl);
      assert forall i :: 0 <= i < n ==> files[..n][i] == files[i];
      if Processed(files[n], siteUrl) then init + [n] else init
  }

  /**
   * The index holds one record per file that does not fail, in file order,
   * and each record's content is that file's text, unchanged.
   */
  lemma {:induction false} CollectMatchesKept(files: seq<Source>, siteUrl: Option<string>, sep: char)
    ensures var c, ks := Collect(files, siteUrl, sep), Kept(files, siteUrl);
      && |c| == |ks|
      && forall k :: 0 <= k < |c| ==>
           Some(c[k]) == EntryFor(files[ks[k]], siteUrl, sep) && Some(c[k].content) == files[ks[k]].text
    decreases |files|
  {
    if files != [] {
      var n := |files| - 1;
      var init := files[..n];
      CollectMatchesKept(init, siteUrl, sep);
      var c0, ks0 := Collect(init, siteUrl, sep), Kept(init, siteUrl);
      var c, ks := Collect(files, siteUrl, sep), Kept(files, siteUrl);
      forall k | 0 <= k < |ks0| ensures files[ks0[k]] == init[ks0[k]] {
      }
      if Processed(files[n], siteUrl) {
        assert c == c0 + [EntryFor(files[n], siteUrl, sep).value];
        assert ks == ks0 + [n];
      } else {
        assert c == c0 && ks == ks0;
      }
    }
  }

  /** The index of a concatenation is the concatenation of the indexes. */
  lemma {:induction false} CollectAppend(a: seq<Source>, b: seq<Source>, siteUrl: Option<string>, sep: char)
    ensures Collect(a + b, siteUrl, sep) == Collect(a, siteUrl, sep) + Collect(b, siteUrl, sep)
    decreases |b|
  {
    if b == [] {
      assert a + b == a;
    } else {
      var n := |b| - 1;
      assert (a + b)[..|a + b| - 1] == a + b[..n];
      assert (a + b)[|a + b| - 1] == b[n];
      CollectAppend(a, b[..n], siteUrl, sep);
    }
  }

  /** A file that fails is skipped and changes nothing for the files around it. */
  lemma FailedFileSkipped(a: seq<Source>, f: Source, b: seq<Source>, siteUrl: Option<string>, sep: char)
    requires !Processed(f, siteUrl)
    ensures Collect(a + [f] + b, siteUrl, sep) == Collect(a, siteUrl, sep) + Collect(b, siteUrl, sep)
  {
    CollectAppend(a + [f], b, siteUrl, sep);
    CollectAppend(a, [f], siteUrl, sep);
    assert [f][..0] == [];
  }

  /** A site URL that is None (not a string) makes every file fail: the index is empty. */
  lemma NullSiteUrlGivesEmptyIndex(files: seq<Source>, sep: char)
    ensures Collect(files, None, sep) == []
    decreases |files|
  {
    if files != [] {
      NullSiteUrlGivesEmptyIndex(files[..|files| - 1], sep);
    }
  }

  /**
   * `on_post_build` without its I/O: builds the content index by appending
   * one record per file that can be processed.
   */
  method OnPostBuild(files: seq<Source>, siteUrl: Option<string>, sep: char) returns (content: seq<Entry>)
    ensures content == Collect(files, siteUrl, sep)
  {
    content := [];
    for i := 0 to |files|
      invariant content == Collect(files[..i], siteUrl, sep)
    {
      assert files[..i + 1][..i] == files[..i];
      var f := files[i];
      if Processed(f, siteUrl) {
        var text := f.text.value;
        var base := RStripChar(siteUrl.value, '/');
        var urlPath := UrlPath(RelPath(f, sep));
        var fullUrl := base + urlPath;
        var title := ExtractTitle(text, Stem(f.name));
        content := content + [Entry(title, fullUrl, text)];
      }
    }
    assert files[..|files|] == files;
  }
}
