/** The original file manager (`filemanager.py`): one gzip file per cached
    page, stored under `cache_dir` in a directory tree built from the first
    `dir_nesting` characters of the transliterated title.

    The filesystem is a map from path to content; gzip compression and the
    byte encoding cancel out between write and read. `unidecode` is the
    parameter `translit`. */
module DiskCache {
  import opened Wrappers
  import opened Strings
  import ArchiveCache

  /** The `cache_dir` and `dir_nesting` configuration entries. */
  datatype Layout = Layout(rootDir: string, dirNesting: nat)

  type Files = map<string, string>

  /** `posixpath.join(a, b)`: an absolute `b` replaces `a`; otherwise a `/`
      is inserted unless `a` is empty or already ends with one. */
  function PathJoin(a: string, b: string): (r: string)
    ensures |b| > 0 && b[0] == '/' ==> r == b
    ensures |b| <= |r| && r[|r| - |b|..] == b
  {
    if |b| > 0 && b[0] == '/' then b
    else if |a| == 0 || a[|a| - 1] == '/' then a + b
    else a + "/" + b
  }

  /** `os.path.join(base, *parts)`. */
  function JoinAll(base: string, parts: seq<string>): string
    decreases |parts|
  {
    if |parts| == 0 then base else JoinAll(PathJoin(base, parts[0]), parts[1..])
  }

  /** `_pick_dir(cleaned)`: exactly `dir_nesting` entries, the title's
      leading characters, padded with `None` past its end. */
  function PickDir(cleaned: string, nesting: nat): (r: seq<Option<char>>)
    ensures |r| == nesting
    ensures forall i :: 0 <= i < nesting ==> (r[i].Some? <==> i < |cleaned|)
    ensures forall i :: 0 <= i < nesting && i < |cleaned| ==> r[i] == Some(cleaned[i])
  {
    seq(nesting, i requires 0 <= i < nesting => if i < |cleaned| then Some(cleaned[i]) else None)
  }

  /** `os.path.join(root, *dirs)` where a `None` entry raises `TypeError`. */
  function JoinDirs(root: string, dirs: seq<Option<char>>): (r: Result<string>)
    ensures r.Success? <==> AllSome(dirs)
    decreases |dirs|
  {
    if |dirs| == 0 then Success(root)
    else if dirs[0].None? then Failure("TypeError")
    else
      AllSomeTail(dirs);
      JoinDirs(PathJoin(root, [dirs[0].value]), dirs[1..])
  }

  /** No entry of `dirs` is `None`. */
  predicate AllSome(dirs: seq<Option<char>>) {
    forall i :: 0 <= i < |dirs| ==> dirs[i].Some?
  }

  lemma AllSomeTail(dirs: seq<Option<char>>)
    requires |dirs| > 0 && dirs[0].Some?
    ensures AllSome(dirs) <==> AllSome(dirs[1..])
  {
    assert forall i :: 1 <= i < |dirs| ==> dirs[i] == dirs[1..][i - 1];
  }

  /** Whether `_pick_path` yields a path: the transliterated title has at
      least `dir_nesting` characters. */
  predicate PathDefined(layout: Layout, translit: string -> string, title: string) {
    |translit(title)| >= layout.dirNesting
  }

  /** `_pick_path(title, ext)`. */
  function PickPath(layout: Layout, translit: string -> string, title: string, ext: string)
    : (r: Result<string>)
    ensures r.Success? <==> PathDefined(layout, translit, title)
    ensures r.Success? ==>
              var name := translit(title) + "." + ext;
              |name| <= |r.value| && r.value[|r.value| - |name|..] == name
  {
    var cleaned := translit(title);
    var dirs := JoinDirs(layout.rootDir, PickDir(cleaned, layout.dirNesting));
    assert layout.dirNesting > |cleaned| ==> PickDir(cleaned, layout.dirNesting)[|cleaned|].None?;
    if dirs.Failure? then
      assert !(layout.dirNesting - 1 < |cleaned|);
      Failure(dirs.error)
    else Success(PathJoin(dirs.value, cleaned + "." + ext))
  }

  /** The path written out: `root`, then one directory per leading
      character, then the file name, separated by `/`. */
  function SlashPath(root: string, parts: seq<string>): string
    decreases |parts|
  {
    if |parts| == 0 then root else SlashPath(root + "/" + parts[0], parts[1..])
  }

  predicate NoSlash(s: string) {
    '/' !in s
  }

  lemma {:induction false} JoinAllSlashPath(base: string, parts: seq<string>)
    requires |base| > 0 && base[|base| - 1] != '/'
    requires forall i :: 0 <= i < |parts| ==> |parts[i]| > 0 && NoSlash(parts[i])
    ensures JoinAll(base, parts) == SlashPath(base, parts)
    decreases |parts|
  {
    if |parts| > 0 {
      var p := parts[0];
      assert p[0] != '/' && p[|p| - 1] != '/';
      var next := base + "/" + p;
      assert PathJoin(base, p) == next;
      assert next[|next| - 1] == p[|p| - 1];
      assert forall i :: 0 <= i < |parts[1..]| ==> parts[1..][i] == parts[i + 1];
      JoinAllSlashPath(next, parts[1..]);
    }
  }

  /** The leading characters of `cleaned` as one-character path parts. */
  function DirNames(cleaned: string, nesting: nat): (r: seq<string>)
    requires nesting <= |cleaned|
    ensures |r| == nesting
    ensures forall i :: 0 <= i < nesting ==> r[i] == [cleaned[i]]
  {
    seq(nesting, i requires 0 <= i < nesting => [cleaned[i]])
  }

  lemma {:induction false} JoinDirsAsJoinAll(root: string, cleaned: string, k: nat, nesting: nat)
    requires k <= nesting <= |cleaned|
    ensures JoinDirs(root, PickDir(cleaned, nesting)[k..])
            == Success(JoinAll(root, DirNames(cleaned, nesting)[k..]))
    decreases nesting - k
  {
    var dirs := PickDir(cleaned, nesting)[k..];
    var names := DirNames(cleaned, nesting)[k..];
    if k < nesting {
      assert dirs[0] == Some(cleaned[k]) && names[0] == [cleaned[k]];
      assert dirs[1..] == PickDir(cleaned, nesting)[k + 1..];
      assert names[1..] == DirNames(cleaned, nesting)[k + 1..];
      JoinDirsAsJoinAll(PathJoin(root, [cleaned[k]]), cleaned, k + 1, nesting);
    }
  }

  /** For a rooted layout and a title free of `/` the path is
      `cache_dir/c0/c1/.../<cleaned>.<ext>`: each of the first `dir_nesting`
      characters of the transliterated title is one directory level. */
  lemma PickPathLayout(layout: Layout, translit: string -> string, title: string, ext: string)
    requires |layout.rootDir| > 0 && layout.rootDir[|layout.rootDir| - 1] != '/'
    requires layout.dirNesting <= |translit(title)|
    requires NoSlash(translit(title)) && NoSlash(ext)
    ensures PickPath(layout, translit, title, ext)
            == Success(SlashPath(layout.rootDir, DirNames(translit(title), layout.dirNesting)
                                                + [translit(title) + "." + ext]))
  {
    var cleaned := translit(title);
    var names := DirNames(cleaned, layout.dirNesting);
    var file := cleaned + "." + ext;
    JoinDirsAsJoinAll(layout.rootDir, cleaned, 0, layout.dirNesting);
    assert PickDir(cleaned, layout.dirNesting)[0..] == PickDir(cleaned, layout.dirNesting);
    assert names[0..] == names;
    var parts := names + [file];
    LayoutPartsNoSlash(cleaned, ext, layout.dirNesting);
    JoinAllSlashPath(layout.rootDir, parts);
    JoinAllAppend(layout.rootDir, names, file);
  }

  lemma LayoutPartsNoSlash(cleaned: string, ext: string, nesting: nat)
    requires nesting <= |cleaned|
    requires NoSlash(cleaned) && NoSlash(ext)
    ensures var parts := DirNames(cleaned, nesting) + [cleaned + "." + ext];
            forall i :: 0 <= i < |parts| ==> |parts[i]| > 0 && NoSlash(parts[i])
  {
    var names := DirNames(cleaned, nesting);
    var file := cleaned + "." + ext;
    assert forall i :: 0 <= i < |names| ==> names[i][0] == cleaned[i] && cleaned[i] in cleaned;
    assert NoSlash(file);
  }

  lemma {:induction false} JoinAllAppend(base: string, parts: seq<string>, last: string)
    ensures JoinAll(base, parts + [last]) == PathJoin(JoinAll(base, parts), last)
    decreases |parts|
  {
    if |parts| > 0 {
      assert (parts + [last])[1..] == parts[1..] + [last];
      JoinAllAppend(PathJoin(base, parts[0]), parts[1..], last);
    }
  }

  /** `_write_page(title, type, content)`: always writes, replacing any
      earlier file; a title too short for the directory layout raises. */
  function WritePage(files: Files, layout: Layout, translit: string -> string, title: string,
                     ext: string, content: string): (r: Result<Files>)
    ensures r.Success? <==> PathDefined(layout, translit, title)
    ensures r.Success? ==> r.value == files[PickPath(layout, translit, title, ext).value := content]
  {
    var path :- PickPath(layout, translit, title, ext);
    Success(files[path := content])
  }

  /** `_read_page(title, type)`: the file's content, or `None` when it does
      not exist; the path computation raises for short titles even here. */
  function ReadPage(files: Files, layout: Layout, translit: string -> string, title: string,
                    ext: string): (r: Result<Option<string>>)
    ensures r.Success? <==> PickPath(layout, translit, title, ext).Success?
    ensures r.Success? ==>
              var path := PickPath(layout, translit, title, ext).value;
              (r.value.Some? <==> path in files) && (r.value.Some? ==> r.value.value == files[path])
  {
    var path :- PickPath(layout, translit, title, ext);
    Success(if path in files then Some(files[path]) else None)
  }

  /** What a write followed by a read of the same title and kind gives. */
  lemma WriteThenRead(files: Files, layout: Layout, translit: string -> string, title: string,
                      ext: string, content: string)
    requires WritePage(files, layout, translit, title, ext, content).Success?
    ensures ReadPage(WritePage(files, layout, translit, title, ext, content).value,
                     layout, translit, title, ext) == Success(Some(content))
  {
  }

  /** Titles with the same transliteration share every path, so the second
      write replaces the first. */
  lemma SameTransliterationCollides(files: Files, layout: Layout, translit: string -> string,
                                    t1: string, t2: string, ext: string, c1: string, c2: string)
    requires translit(t1) == translit(t2)
    requires |translit(t1)| >= layout.dirNesting
    ensures var f1 := WritePage(files, layout, translit, t1, ext, c1).value;
            ReadPage(WritePage(f1, layout, translit, t2, ext, c2).value, layout, translit, t1, ext)
            == Success(Some(c2))
  {
  }

  /** The wikitext and JSON files of one title never share a path. */
  lemma KindsDoNotCollide(layout: Layout, translit: string -> string, title: string)
    requires |translit(title)| >= layout.dirNesting
    ensures PickPath(layout, translit, title, ArchiveCache.WIKITEXT).value
            != PickPath(layout, translit, title, ArchiveCache.JSON).value
  {
    var w := PickPath(layout, translit, title, ArchiveCache.WIKITEXT).value;
    var j := PickPath(layout, translit, title, ArchiveCache.JSON).value;
    assert w[|w| - 1] == 't' && j[|j| - 1] == 'n';
  }

  /** `read_wikitext(title)`: the file, else a fetch when `try_pulls`, else
      `None`. `fetched` is the HTTP outcome: a failed request raises here
      (there is no handler), and a fetched page is written when
      `cache_pulls`. */
  function ReadWikitext(files: Files, layout: Layout, translit: string -> string, title: string,
                        fetched: Result<string>, cfg: ArchiveCache.Config)
    : (r: Result<(Option<string>, Files)>)
    ensures r.Success? ==> PickPath(layout, translit, title, ArchiveCache.WIKITEXT).Success?
    ensures PickPath(layout, translit, title, ArchiveCache.WIKITEXT).Success? ==>
              var path := PickPath(layout, translit, title, ArchiveCache.WIKITEXT).value;
              (path in files ==> r == Success((Some(files[path]), files)))
              && (path !in files && !cfg.tryPulls ==> r == Success((None, files)))
              && (path !in files && cfg.tryPulls ==>
                    (r.Success? <==> fetched.Success?)
                    && (r.Success? ==> r.value.0 == Some(fetched.value))
                    && (r.Success? && cfg.cachePulls ==> r.value.1 == files[path := fetched.value])
                    && (r.Success? && !cfg.cachePulls ==> r.value.1 == files))
  {
    var cached :- ReadPage(files, layout, translit, title, ArchiveCache.WIKITEXT);
    if cached.Some? then Success((cached, files))
    else if !cfg.tryPulls then Success((None, files))
    else
      var w :- fetched;
      if cfg.cachePulls then
        var written := WritePage(files, layout, translit, title, ArchiveCache.WIKITEXT, w);
        Success((Some(w), written.value))
      else Success((Some(w), files))
  }

  /** `read_json(title)`: the file, else the converted wikitext -- which
      this file manager never writes back -- else `None`. */
  function ReadJson(files: Files, layout: Layout, translit: string -> string, title: string,
                    fetched: Result<string>, cfg: ArchiveCache.Config, convert: string -> string)
    : (r: Result<(Option<string>, Files)>)
    ensures r.Success? <==> PickPath(layout, translit, title, ArchiveCache.JSON).Success?
                            && (ReadPage(files, layout, translit, title, ArchiveCache.JSON).value.None? ==>
                                  ReadWikitext(files, layout, translit, title, fetched, cfg).Success?)
    ensures r.Success? && ReadPage(files, layout, translit, title, ArchiveCache.JSON).value.Some? ==>
              r.value == (ReadPage(files, layout, translit, title, ArchiveCache.JSON).value, files)
    ensures r.Success? && ReadPage(files, layout, translit, title, ArchiveCache.JSON).value.None? ==>
              var w := ReadWikitext(files, layout, translit, title, fetched, cfg).value.0;
              (w.None? ==> r.value.0.None?) && (w.Some? ==> r.value.0 == Some(convert(w.value)))
    ensures r.Success? ==>
              ReadPage(r.value.1, layout, translit, title, ArchiveCache.JSON)
              == ReadPage(files, layout, translit, title, ArchiveCache.JSON)
  {
    var cached :- ReadPage(files, layout, translit, title, ArchiveCache.JSON);
    if cached.Some? then Success((cached, files))
    else
      KindsDoNotCollide(layout, translit, title);
      var (w, files1) :- ReadWikitext(files, layout, translit, title, fetched, cfg);
      if w.Some? then Success((Some(convert(w.value)), files1)) else Success((None, files1))
  }
}
