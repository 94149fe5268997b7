/** The packaged file manager: every cached page is a member of one zip
    archive, named `"<title>.<ext>"`.

    The archive is an append-only sequence of members. `ZipFile.writestr`
    appends a member even when the name is already present (the name then
    appears twice in `namelist()`), and `ZipFile.read` returns the member
    written last under that name. Member contents are kept as text: the
    UTF-8 encoding on write and decoding on read cancel out, and the LZMA
    compression is invisible at this level. */
module ArchiveCache {
  import opened Wrappers
  import opened Strings

  const WIKITEXT: string := "wtxt"
  const JSON: string := "json"

  datatype Member = Member(name: string, content: string)

  type Archive = seq<Member>

  /** The `cache_pulls` and `try_pulls` entries of the configuration. */
  datatype Config = Config(tryPulls: bool, cachePulls: bool)

  function NameList(a: Archive): (names: seq<string>)
    ensures |names| == |a|
    ensures forall i :: 0 <= i < |a| ==> names[i] == a[i].name
  {
    seq(|a|, i requires 0 <= i < |a| => a[i].name)
  }

  /** `ZipFile.read(name)`: the content of the last member with that name. */
  function Lookup(a: Archive, name: string): (r: Option<string>)
    ensures r.Some? <==> name in NameList(a)
    ensures r.Some? ==> exists i :: 0 <= i < |a| && a[i] == Member(name, r.value)
                                   && forall j :: i < j < |a| ==> a[j].name != name
  {
    if |a| == 0 then None
    else if a[|a| - 1].name == name then Some(a[|a| - 1].content)
    else
      var r := Lookup(a[..|a| - 1], name);
      assert NameList(a) == NameList(a[..|a| - 1]) + [a[|a| - 1].name];
      r
  }

  /** `_pick_path(title, ext)`: the member name `"<title>.<ext>"`. */
  function PickPath(title: string, ext: string): string {
    title + "." + ext
  }

  /** The title is not altered: distinct titles get distinct names, and the
      two artifact kinds never share a name. */
  lemma PickPathInjective(t1: string, t2: string, e1: string, e2: string)
    requires e1 in {WIKITEXT, JSON} && e2 in {WIKITEXT, JSON}
    requires PickPath(t1, e1) == PickPath(t2, e2)
    ensures t1 == t2 && e1 == e2
  {
    var n := PickPath(t1, e1);
    assert n[|n| - 4..] == e1;
    assert n[|n| - 4..] == e2;
    assert t1 == n[..|n| - 5] == t2;
  }

  /** `possible_titles(partial)`: the member names starting with `partial`. */
  function PossibleTitles(names: seq<string>, partial: string): (r: seq<string>)
    ensures |r| <= |names|
    ensures forall n :: n in r <==> n in names && StartsWith(n, partial)
    ensures |names| == 1 ==> r == if StartsWith(names[0], partial) then names else []
  {
    if |names| == 0 then []
    else
      var rest := PossibleTitles(names[1..], partial);
      if StartsWith(names[0], partial) then [names[0]] + rest else rest
  }

  /** The titles come in `namelist()` order, repeats included: filtering two
      runs of names is filtering each and joining the results. */
  lemma {:induction false} PossibleTitlesAppend(xs: seq<string>, ys: seq<string>, partial: string)
    ensures PossibleTitles(xs + ys, partial) == PossibleTitles(xs, partial) + PossibleTitles(ys, partial)
    decreases |xs|
  {
    if |xs| == 0 {
      assert xs + ys == ys;
    } else {
      ConsAppendTail(xs, ys);
      PossibleTitlesAppend(xs[1..], ys, partial);
    }
  }

  /** Adds `content` under `name` unless overwriting is off and the name is
      already present. */
  function Store(a: Archive, name: string, content: string, overwrite: bool): (r: Archive)
    ensures !overwrite && name in NameList(a) ==> r == a
    ensures overwrite || name !in NameList(a) ==> Lookup(r, name) == Some(content)
    ensures forall other :: other != name ==> Lookup(r, other) == Lookup(a, other)
    ensures forall n :: n in NameList(a) ==> n in NameList(r)
  {
    if !overwrite && name in NameList(a) then a
    else
      var r := a + [Member(name, content)];
      assert r[..|r| - 1] == a;
      r
  }

  /** `_write_page(title, ext, content, overwrite)`. `content` is `None`
      when the caller passes Python's `None`, which `bytes(None, encoding)`
      rejects with a `TypeError` -- but only once the existence check has
      let the write through. */
  function WritePage(a: Archive, title: string, ext: string, content: Option<string>,
                     overwrite: bool): (r: Result<Archive>)
    ensures !overwrite && PickPath(title, ext) in NameList(a) ==> r == Success(a)
    ensures (overwrite || PickPath(title, ext) !in NameList(a)) ==>
              (r.Success? <==> content.Some?)
    ensures r.Success? && content.Some? && (overwrite || PickPath(title, ext) !in NameList(a)) ==>
              Lookup(r.value, PickPath(title, ext)) == content
    ensures r.Success? ==> forall n :: n in NameList(a) ==> n in NameList(r.value)
    ensures r.Success? && content.Some? ==> PickPath(title, ext) in NameList(r.value)
  {
    var name := PickPath(title, ext);
    if !overwrite && name in NameList(a) then Success(a)
    else if content.None? then Failure("TypeError")
    else Success(Store(a, name, content.value, true))
  }

  /** `_read_page(title, ext)`: the stored text, or `None` on a miss. */
  function ReadPage(a: Archive, title: string, ext: string): (r: Option<string>)
    ensures r.Some? <==> PickPath(title, ext) in NameList(a)
  {
    Lookup(a, PickPath(title, ext))
  }

  /** Writing then reading the same title and kind returns what was written
      whenever the write was allowed. */
  lemma WriteThenRead(a: Archive, title: string, ext: string, content: string, overwrite: bool)
    requires overwrite || PickPath(title, ext) !in NameList(a)
    ensures WritePage(a, title, ext, Some(content), overwrite).Success?
    ensures ReadPage(WritePage(a, title, ext, Some(content), overwrite).value, title, ext) == Some(content)
  {
  }

  /** With overwriting off, a second write of the same title is a no-op and
      the first content survives. */
  lemma NoOverwriteKeepsFirst(a: Archive, title: string, ext: string, first: string,
                              second: Option<string>)
    requires PickPath(title, ext) !in NameList(a)
    ensures var a1 := WritePage(a, title, ext, Some(first), false).value;
            WritePage(a1, title, ext, second, false) == Success(a1)
            && ReadPage(a1, title, ext) == Some(first)
  {
  }

  /** A successful write adds at most its own name: every other name keeps
      its presence and its content. */
  lemma WritePageFrame(a: Archive, title: string, ext: string, content: Option<string>, overwrite: bool)
    requires WritePage(a, title, ext, content, overwrite).Success?
    ensures var b := WritePage(a, title, ext, content, overwrite).value;
            forall n :: n in NameList(b) <==> n in NameList(a) || (content.Some? && n == PickPath(title, ext))
    ensures var b := WritePage(a, title, ext, content, overwrite).value;
            forall n :: n != PickPath(title, ext) ==> Lookup(b, n) == Lookup(a, n)
  {
    var name := PickPath(title, ext);
    if overwrite || name !in NameList(a) {
      var b := a + [Member(name, content.value)];
      assert NameList(b) == NameList(a) + [name];
    }
  }

  /** `_fetch_wikitext(title)`. `fetched` is the outcome of the HTTP
      request (`None` for an `HTTPError`); a fetched page is written back
      through `write_wikitext` (no overwrite) when `cache_pulls` is set. */
  function FetchWikitext(a: Archive, title: string, fetched: Option<string>, cfg: Config)
    : (r: (Option<string>, Archive))
    ensures r.0 == fetched
    ensures fetched.None? || !cfg.cachePulls ==> r.1 == a
    ensures fetched.Some? && cfg.cachePulls ==> ReadPage(r.1, title, WIKITEXT).Some?
    ensures ReadPage(r.1, title, JSON) == ReadPage(a, title, JSON)
  {
    assert PickPath(title, WIKITEXT)[|title| + 1] != PickPath(title, JSON)[|title| + 1];
    match fetched
    case None => (None, a)
    case Some(w) => (Some(w), if cfg.cachePulls then Store(a, PickPath(title, WIKITEXT), w, false) else a)
  }

  /** `read_wikitext(title)`: the cached wikitext, else a fetch when
      `try_pulls` is set, else `None`. */
  function ReadWikitext(a: Archive, title: string, fetched: Option<string>, cfg: Config)
    : (r: (Option<string>, Archive))
    ensures ReadPage(a, title, WIKITEXT).Some? ==> r == (ReadPage(a, title, WIKITEXT), a)
    ensures ReadPage(a, title, WIKITEXT).None? && !cfg.tryPulls ==> r == (None, a)
    ensures ReadPage(a, title, WIKITEXT).None? && cfg.tryPulls ==> r.0 == fetched
    ensures ReadPage(a, title, WIKITEXT).None? && cfg.tryPulls && fetched.Some? && cfg.cachePulls ==>
              ReadPage(r.1, title, WIKITEXT) == fetched
    ensures ReadPage(r.1, title, JSON) == ReadPage(a, title, JSON)
  {
    var cached := ReadPage(a, title, WIKITEXT);
    if cached.Some? then (cached, a)
    else if cfg.tryPulls then FetchWikitext(a, title, fetched, cfg)
    else (None, a)
  }

  /** `read_json(title)`: the cached JSON without conversion; on a miss the
      wikitext (cached or fetched) is converted by `convert`, and the result
      is written back when `cache_pulls` is set; no wikitext gives `None`. */
  function ReadJson(a: Archive, title: string, fetched: Option<string>, cfg: Config,
                    convert: string -> string): (r: (Option<string>, Archive))
    ensures ReadPage(a, title, JSON).Some? ==> r == (ReadPage(a, title, JSON), a)
    ensures ReadPage(a, title, JSON).None? ==>
              var w := ReadWikitext(a, title, fetched, cfg).0;
              (w.None? ==> r.0.None?) && (w.Some? ==> r.0 == Some(convert(w.value)))
    ensures ReadPage(a, title, JSON).None? && r.0.Some? ==>
              (cfg.cachePulls <==> ReadPage(r.1, title, JSON) == r.0)
  {
    var cached := ReadPage(a, title, JSON);
    if cached.Some? then (cached, a)
    else
      var (wikitext, a1) := ReadWikitext(a, title, fetched, cfg);
      match wikitext
      case None => (None, a1)
      case Some(w) =>
        var j := convert(w);
        (Some(j), if cfg.cachePulls then Store(a1, PickPath(title, JSON), j, false) else a1)
  }
}
