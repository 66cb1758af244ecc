/** The file manager: which requested paths resolve, to what, and that the paths it reports
    resolve back to the entries they name. */
module Files {
  import opened Results
  import opened Text
  import opened Paths

  datatype FileError = TraversalNotAllowed | InvalidPath | EscapesBase

  // What Info() tells of an entry, already formatted; None when it fails.
  datatype Info = Info(size: int, mode: string, modTime: string)
  datatype DirEntry = DirEntry(name: string, isDir: bool, info: Option<Info>)
  datatype FileEntry = FileEntry(name: string, info: Info, isDir: bool, path: string)

  // Does some segment, with backslashes read as slashes, equal ".."?
  predicate Traverses(path: string) {
    ".." in Split(Replace(path, '\\', '/'), '/')
  }

  // Does a relative path leave the directory it is relative to?
  predicate StartsUp(rel: string) {
    rel == ".." || (|rel| >= 3 && rel[..3] == "../")
  }

  datatype FileHandler = FileHandler(baseDir: string) {

    static function New(baseDir: string): FileHandler {
      FileHandler(Clean(if baseDir == "" then "/" else baseDir))
    }

    // The part of resolve before the symlink check.
    function ResolveLexical(path: string): Result<string, FileError> {
      var asked := if path == "" then "/" else path;
      if Traverses(asked) then Err(TraversalNotAllowed)
      else
        var base := Clean(baseDir);
        var p := Join(base, asked);
        match Rel(base, p)
        case None => Err(InvalidPath)
        case Some(rel) => if StartsUp(rel) then Err(EscapesBase) else Ok(p)
    }

    // `links` is EvalSymlinks: the real path behind a path, or None when it fails.
    function Resolve(path: string, links: string -> Option<string>): Result<string, FileError> {
      match ResolveLexical(path)
      case Err(e) => Err(e)
      case Ok(p) =>
        match links(p)
        case None => Ok(p)
        case Some(behind) =>
          match Rel(Clean(baseDir), behind)
          case None => Ok(p)
          case Some(rel) => if StartsUp(rel) then Err(EscapesBase) else Ok(p)
    }

    function ReportedPath(dir: string, name: string): string {
      var rel := Rel(baseDir, Join(dir, name));
      "/" + if rel.Some? then rel.value else ""
    }

    function Line(dir: string, e: DirEntry): seq<FileEntry> {
      if e.info.Some? then [FileEntry(e.name, e.info.value, e.isDir, ReportedPath(dir, e.name))] else []
    }

    function Listing(dir: string, entries: seq<DirEntry>): seq<FileEntry> {
      if entries == [] then []
      else
        var e := entries[|entries| - 1];
        Listing(dir, entries[..|entries| - 1]) + Line(dir, e)
    }

    // The loop of List over the directory's entries; one without file info is skipped.
    method List(dir: string, entries: seq<DirEntry>) returns (result: seq<FileEntry>)
      ensures result == Listing(dir, entries)
    {
      result := [];
      for i := 0 to |entries|
        invariant result == Listing(dir, entries[..i])
      {
        assert entries[..i + 1][..i] == entries[..i];
        var e := entries[i];
        if e.info.None? { continue; }
        var full := Join(dir, e.name);
        var rel := Rel(baseDir, full);
        result := result + [FileEntry(e.name, e.info.value, e.isDir, "/" + if rel.Some? then rel.value else "")];
      }
      assert entries[..|entries|] == entries;
    }

    // The path Upload hands to resolve.
    static function UploadTarget(dest: string, filename: string): string {
      Join(dest, filename)
    }
  }

  // A name a directory can hold.
  ghost predicate EntryName(name: string) {
    name != "" && name != "." && name != ".." && '/' !in name
  }

  // ------------------------------------------------------------------ traversal by segments

  lemma TraversesConcat(a: string, b: string)
    ensures Traverses(a + "/" + b) <==> Traverses(a) || Traverses(b)
  {
    var ra, rb := Replace(a, '\\', '/'), Replace(b, '\\', '/');
    assert Replace(a + "/" + b, '\\', '/') == ra + ['/'] + rb;
    SplitConcat(ra, rb, '/');
  }

  lemma {:induction false} TraversesGlue(parts: seq<string>)
    requires parts != []
    ensures Traverses(Glue(parts, '/')) <==> exists p <- parts :: Traverses(p)
  {
    if |parts| > 1 {
      TraversesConcat(parts[0], Glue(parts[1..], '/'));
      TraversesGlue(parts[1..]);
      assert Glue(parts, '/') == parts[0] + "/" + Glue(parts[1..], '/');
      assert parts == [parts[0]] + parts[1..];
    }
  }

  lemma {:induction false} BackslashParts(name: string)
    requires '/' !in name
    ensures Split(Replace(name, '\\', '/'), '/') == Split(name, '\\')
  {
    if name != "" {
      assert name[0] in name;
      assert Replace(name, '\\', '/')[1..] == Replace(name[1..], '\\', '/');
      BackslashParts(name[1..]);
    }
  }

  // A name without slashes fails the scan exactly when a part between backslashes is "..".
  lemma NameTraverses(name: string)
    requires '/' !in name
    ensures Traverses(name) <==> ".." in Split(name, '\\')
    ensures name == ".." ==> Traverses(name)
  {
    BackslashParts(name);
    if name == ".." { SplitUnbroken(name, '\\'); }
  }

  // A path that passes the scan has no ".." between slashes, and none of its segments fails it.
  lemma QuietSegments(path: string)
    requires !Traverses(path)
    ensures forall p <- Split(path, '/') :: '/' !in p && p != ".." && !Traverses(p)
  {
    GlueSplit(path, '/');
    TraversesGlue(Split(path, '/'));
    SplitParts(path, '/');
    forall p | p in Split(path, '/') ensures p != ".." && !Traverses(p) {
      NameTraverses(p);
    }
  }

  lemma GoesUp(extra: seq<string>)
    requires extra != [] && extra[0] == ".."
    ensures StartsUp(Glue(extra, '/'))
  {}

  lemma UpPart(rel: string)
    requires StartsUp(rel)
    ensures Split(rel, '/')[0] == ".."
  {
    SplitUnbroken("..", '/');
    if rel != ".." {
      SplitConcat("..", rel[3..], '/');
      assert rel == ".." + ['/'] + rel[3..];
    }
  }

  lemma GoesUpOnly(extra: seq<string>)
    requires extra != [] && (forall g <- extra :: '/' !in g)
    requires StartsUp(Glue(extra, '/'))
    ensures extra[0] == ".."
  {
    UpPart(Glue(extra, '/'));
    SplitGlue(extra, '/');
  }

  // ------------------------------------------------------------------ the scan, byte by byte

  predicate Separates(c: char) { c == '/' || c == '\\' }

  // Two dots at i, with the path's end or a slash of either kind on both sides.
  ghost predicate DotsAt(path: string, i: int) {
    && 0 <= i && i + 2 <= |path| && path[i] == '.' && path[i + 1] == '.'
    && (i == 0 || Separates(path[i - 1])) && (i + 2 == |path| || Separates(path[i + 2]))
  }

  // The first separator, or the length of the path.
  function FirstSeparator(path: string): (n: nat)
    ensures n <= |path| && (forall i :: 0 <= i < n ==> !Separates(path[i]))
    ensures n < |path| ==> Separates(path[n])
  {
    if path == "" || Separates(path[0]) then 0 else 1 + FirstSeparator(path[1..])
  }

  lemma TraversesOne(path: string)
    requires forall i :: 0 <= i < |path| ==> !Separates(path[i])
    ensures Traverses(path) <==> path == ".."
  {
    assert Replace(path, '\\', '/') == path;
    SplitUnbroken(path, '/');
  }

  lemma TraversesFirst(path: string, n: nat)
    requires n < |path| && Separates(path[n]) && forall i :: 0 <= i < n ==> !Separates(path[i])
    ensures Traverses(path) <==> path[..n] == ".." || Traverses(path[n + 1..])
  {
    var a, b := path[..n], path[n + 1..];
    TraversesConcat(a, b);
    TraversesOne(a);
    assert Replace(path, '\\', '/') == Replace(a + "/" + b, '\\', '/');
  }

  lemma DotsInRest(path: string, n: nat, i: int)
    requires n < |path| && Separates(path[n]) && DotsAt(path[n + 1..], i)
    ensures DotsAt(path, n + 1 + i)
  {}

  lemma DotsInPath(path: string, n: nat, i: int)
    requires n < |path| && Separates(path[n]) && (forall k :: 0 <= k < n ==> !Separates(path[k]))
    requires DotsAt(path, i)
    ensures path[..n] == ".." || DotsAt(path[n + 1..], i - n - 1)
  {
    if i <= n { assert i == 0; }
  }

  // The scan refuses exactly the paths with ".." between slashes of either kind or ends.
  lemma {:induction false} TraversesExactly(path: string)
    ensures Traverses(path) <==> exists i :: DotsAt(path, i)
    decreases |path|
  {
    var n := FirstSeparator(path);
    if n == |path| {
      TraversesOne(path);
      if path == ".." { assert DotsAt(path, 0); }
    } else {
      TraversesFirst(path, n);
      var rest := path[n + 1..];
      TraversesExactly(rest);
      if path[..n] == ".." {
        assert DotsAt(path, 0);
      } else if i :| DotsAt(rest, i) {
        DotsInRest(path, n, i);
      } else if i :| DotsAt(path, i) {
        DotsInPath(path, n, i);
      }
    }
  }

  // ------------------------------------------------------------------ what resolves, and to what

  // The lexical part accepts exactly the paths without a ".." segment; the later Rel check never
  // fires; and the result is the base's segments followed by the path's plain ones.
  lemma ResolveExact(h: FileHandler, path: string)
    ensures h.ResolveLexical(path).Ok? <==> !Traverses(path)
    ensures Traverses(path) ==> h.ResolveLexical(path) == Err(TraversalNotAllowed)
    ensures !Traverses(path) ==>
      var p := h.ResolveLexical(path).value;
      && p == Render(Rooted(h.baseDir), Segments(h.baseDir) + Plain(Split(path, '/')))
      && Rooted(p) == Rooted(h.baseDir)
      && Segments(p) == Segments(h.baseDir) + Plain(Split(path, '/'))
      && p != ""
  {
    if path == "" {
      EmptyMeansRoot(h);
      ResolvePlain(h, "/");
    } else if Traverses(path) {
      ScanRefuses(h, path);
    } else {
      ResolvePlain(h, path);
    }
  }

  // The handler serves the directory it is configured with, or the root when it is given none: an
  // accepted path is that directory, cleaned, followed by the path's plain parts.
  lemma ServesConfigured(configured: string, path: string)
    ensures FileHandler.New(configured).ResolveLexical(path).Ok? <==> !exists i :: DotsAt(path, i)
    ensures !Traverses(path) ==>
      var dir := if configured == "" then "/" else configured;
      && FileHandler.New(configured).ResolveLexical(path)
         == Ok(Render(Rooted(dir), Segments(dir) + Plain(Split(path, '/'))))
      && (Plain(Split(path, '/')) == [] ==> FileHandler.New(configured).ResolveLexical(path) == Ok(Clean(dir)))
    ensures configured == "" && !Traverses(path) ==>
      FileHandler.New(configured).ResolveLexical(path) == Ok("/" + Glue(Plain(Split(path, '/')), '/'))
  {
    var dir := if configured == "" then "/" else configured;
    CleanIdempotent(dir);
    ResolveExact(FileHandler.New(configured), path);
    TraversesExactly(path);
    if Plain(Split(path, '/')) == [] { assert Segments(dir) + [] == Segments(dir); }
    RootHasNone();
    assert [] + Plain(Split(path, '/')) == Plain(Split(path, '/'));
  }

  lemma RootHasNone()
    ensures Segments("/") == []
  {
    RenderReadsBack(true, []);
  }

  // As strings, under the configured directory.
  lemma ServesUnderConfigured(configured: string, path: string)
    requires FileHandler.New(configured).ResolveLexical(path).Ok?
    ensures var dir := Clean(if configured == "" then "/" else configured);
      var p := FileHandler.New(configured).ResolveLexical(path).value;
      || p == dir
      || dir + "/" <= p
      || (dir == "/" && Rooted(p))
      || (dir == "." && !Rooted(p) && !StartsUp(p))
  {
    CleanIdempotent(if configured == "" then "/" else configured);
    ResolveExact(FileHandler.New(configured), path);
    ResolvedLiesUnderBase(FileHandler.New(configured), path);
  }

  // The root itself is configured as "" or "/".
  lemma RootHandler()
    ensures FileHandler.New("") == FileHandler.New("/") == FileHandler("/")
  {
    RootHasNone();
  }

  // The empty path is asked as "/"; the two have the same, empty, plain parts.
  lemma EmptyMeansRoot(h: FileHandler)
    ensures !Traverses("") && !Traverses("/")
    ensures Plain(Split("", '/')) == Plain(Split("/", '/')) == []
    ensures h.ResolveLexical("") == h.ResolveLexical("/")
  {
    SplitConcat("", "", '/');
    assert Replace("/", '\\', '/') == "" + ['/'] + "" == "/";
    assert Replace("", '\\', '/') == "";
    assert Plain(["", ""]) == Plain([""]) == [];
  }

  lemma ScanRefuses(h: FileHandler, path: string)
    requires path != "" && Traverses(path)
    ensures h.ResolveLexical(path) == Err(TraversalNotAllowed)
  {}

  lemma ResolvePlain(h: FileHandler, path: string)
    requires path != "" && !Traverses(path)
    ensures var p := Join(Clean(h.baseDir), path);
      var extra := Plain(Split(path, '/'));
      && h.ResolveLexical(path) == Ok(p)
      && p == Render(Rooted(h.baseDir), Segments(h.baseDir) + extra)
      && Rooted(p) == Rooted(h.baseDir) && Segments(p) == Segments(h.baseDir) + extra && p != ""
  {
    var base, extra := Clean(h.baseDir), Plain(Split(path, '/'));
    QuietSegments(path);
    CleanIdempotent(h.baseDir);
    CleanIdempotent(base + "/" + path);
    JoinPlain(base, path);
    RelBelow(base, Join(base, path), extra);
    PlainWithin(Split(path, '/'));
    if extra != [] {
      assert extra[0] in extra;
      if StartsUp(Glue(extra, '/')) { GoesUpOnly(extra); }
    }
  }

  // As strings: an accepted path is the cleaned base itself or lies below it.
  lemma ResolvedLiesUnderBase(h: FileHandler, path: string)
    requires h.ResolveLexical(path).Ok?
    ensures var p, base := h.ResolveLexical(path).value, Clean(h.baseDir);
      || p == base
      || base + "/" <= p
      || (base == "/" && Rooted(p))
      || (base == "." && !Rooted(p) && !StartsUp(p))
  {
    ResolveExact(h, path);
    QuietSegments(path);
    var r, bs, extra := Rooted(h.baseDir), Segments(h.baseDir), Plain(Split(path, '/'));
    PlainWithin(Split(path, '/'));
    SplitParts(path, '/');
    SegmentsNormal(h.baseDir);
    if extra == [] {
      assert bs + extra == bs;
    } else if bs == [] {
      assert bs + extra == extra;
      if StartsUp(Glue(extra, '/')) { GoesUpOnly(extra); }
      assert extra[0] in extra;
      CleanIdempotent(h.ResolveLexical(path).value);
    } else {
      GlueConcat(bs, extra);
    }
  }

  lemma {:induction false} GlueConcat(a: seq<string>, b: seq<string>)
    requires a != [] && b != []
    ensures Glue(a + b, '/') == Glue(a, '/') + "/" + Glue(b, '/')
  {
    assert (a + b)[1..] == a[1..] + b;
    if |a| > 1 {
      GlueConcat(a[1..], b);
    }
  }

  // Does a target lie at or under the base, read off the segments? Where Rel cannot tell, because
  // a relative base climbs further up than the target, the check lets the target through.
  predicate Within(bs: seq<string>, ts: seq<string>) {
    var n := CommonPrefix(bs, ts);
    if n < |bs| then bs[n] == ".." else n < |ts| ==> ts[n] != ".."
  }

  // The symlink check, on a path the lexical part accepts: when EvalSymlinks or Rel fails the path
  // passes; between paths of one kind it accepts exactly the targets within the base, which for
  // absolute paths are those that have the base's segments first.
  lemma SymlinkCheckExact(h: FileHandler, path: string, links: string -> Option<string>)
    ensures h.ResolveLexical(path).Err? ==> h.Resolve(path, links) == h.ResolveLexical(path)
    ensures h.ResolveLexical(path).Ok? ==>
      var p := h.ResolveLexical(path).value;
      match links(p)
      case None => h.Resolve(path, links) == Ok(p)
      case Some(behind) =>
        if Rooted(h.baseDir) != Rooted(behind) then h.Resolve(path, links) == Ok(p)
        else
          var inside := Within(Segments(h.baseDir), Segments(behind));
          && h.Resolve(path, links) == (if inside then Ok(p) else Err(EscapesBase))
          && (Rooted(behind) ==> (inside <==> Segments(h.baseDir) <= Segments(behind)))
  {
    if h.ResolveLexical(path).Err? { return; }
    var p := h.ResolveLexical(path).value;
    CleanIdempotent(h.baseDir);
    match links(p) {
      case None =>
      case Some(behind) =>
        CleanIdempotent(behind);
        if Rooted(h.baseDir) == Rooted(behind) {
          RelStays(Clean(h.baseDir), behind);
          SegmentsNormal(h.baseDir);
          SegmentsNormal(behind);
          if Rooted(behind) { WithinRooted(Segments(h.baseDir), Segments(behind)); }
        } else {
          assert Clean(Clean(h.baseDir)) != Clean(behind);
        }
    }
  }

  predicate Stays(rel: Option<string>) {
    rel.None? || !StartsUp(rel.value)
  }

  lemma RelStays(base: string, behind: string)
    requires Rooted(base) == Rooted(behind)
    ensures Stays(Rel(base, behind)) <==> Within(Segments(base), Segments(behind))
  {
    SegmentsNormal(base);
    SegmentsNormal(behind);
    if Segments(base) == Segments(behind) {
      RelToItself(base, behind);
    } else if Segments(behind) == [] {
      RelToTop(base, behind);
      UpAndDownStays(Segments(base), if Rooted(base) then [] else ["."]);
    } else {
      RelSegments(base, behind);
      UpAndDownStays(Segments(base), Segments(behind));
    }
  }

  lemma RelToItself(base: string, behind: string)
    requires Rooted(base) == Rooted(behind) && Segments(base) == Segments(behind)
    ensures Stays(Rel(base, behind)) && Within(Segments(base), Segments(behind))
  {
    assert Rel(base, behind) == Some(".");
    assert Segments(base) + [] == Segments(base);
    PrefixIsCommon(Segments(base), []);
  }

  // Absolute paths never climb: being within is having the base's segments first.
  lemma WithinRooted(bs: seq<string>, ts: seq<string>)
    requires Normal(true, bs) && Normal(true, ts)
    ensures Within(bs, ts) <==> bs <= ts
  {
    if bs <= ts {
      assert bs + ts[|bs|..] == ts;
      PrefixIsCommon(bs, ts[|bs|..]);
    }
  }

  // To "/" or ".": Rel takes the latter for a segment.
  lemma RelToTop(base: string, behind: string)
    requires Rooted(base) == Rooted(behind) && Segments(base) != [] && Segments(behind) == []
    ensures Rel(base, behind) == UpAndDown(Segments(base), if Rooted(base) then [] else ["."])
  {
    CleanReadsBack(base);
    CleanReadsBack(behind);
  }

  lemma UpAndDownStays(bs: seq<string>, ts: seq<string>)
    requires bs != ts && forall g <- ts :: '/' !in g
    ensures Stays(UpAndDown(bs, ts)) <==> Within(bs, ts)
  {
    var n := CommonPrefix(bs, ts);
    if n < |bs| {
      GoesUp(seq(|bs| - n, _ => "..") + ts[n..]);
    } else {
      assert seq(0, _ => "..") + ts[n..] == ts[n..];
      if ts[n] == ".." { GoesUp(ts[n..]); } else if StartsUp(Glue(ts[n..], '/')) { GoesUpOnly(ts[n..]); }
    }
  }

  // ------------------------------------------------------------------ round trips

  lemma JoinName(dir: string, name: string)
    requires dir != "" && EntryName(name)
    ensures Rooted(Join(dir, name)) == Rooted(dir)
    ensures Segments(Join(dir, name)) == Segments(dir) + [name]
    ensures Join(dir, name) == Render(Rooted(dir), Segments(dir) + [name])
  {
    SplitUnbroken(name, '/');
    assert Plain([name]) == [name];
    JoinPlain(dir, name);
  }

  // A path spelled from plain names fails the scan exactly when one of the names does, and
  // otherwise resolves to those names below the base.
  lemma ResolveNames(h: FileHandler, rooted: bool, names: seq<string>)
    requires names != [] && forall g <- names :: g != "" && g != "." && '/' !in g
    ensures Traverses(Render(rooted, names)) <==> exists g <- names :: Traverses(g)
    ensures !Traverses(Render(rooted, names)) ==>
      h.ResolveLexical(Render(rooted, names)) == Ok(Render(Rooted(h.baseDir), Segments(h.baseDir) + names))
  {
    var text := Glue(names, '/');
    TraversesGlue(names);
    SplitGlue(names, '/');
    PlainKeepsAll(names);
    if rooted {
      assert "/" + text == "" + "/" + text == "" + ['/'] + text;
      TraversesConcat("", text);
      NameTraverses("");
      SplitUnbroken("", '\\');
      SplitConcat("", text, '/');
      assert Split("/" + text, '/') == [""] + names;
      assert ([""] + names)[1..] == names;
    }
    assert Plain(Split(Render(rooted, names), '/')) == names;
    ResolveExact(h, Render(rooted, names));
  }

  lemma ReportedNames(h: FileHandler, dir: string, extra: seq<string>, name: string)
    requires dir != "" && Rooted(dir) == Rooted(h.baseDir) && Segments(dir) == Segments(h.baseDir) + extra
    requires EntryName(name)
    ensures h.ReportedPath(dir, name) == Render(true, extra + [name])
    ensures Join(dir, name) == Render(Rooted(h.baseDir), Segments(h.baseDir) + (extra + [name]))
  {
    JoinName(dir, name);
    assert Segments(h.baseDir) + extra + [name] == Segments(h.baseDir) + (extra + [name]);
    RelBelow(h.baseDir, Join(dir, name), extra + [name]);
  }

  // A listed entry's reported path resolves back to the entry, exactly when no part of its name
  // between backslashes is "..".
  lemma ListedPathResolvesBack(h: FileHandler, path: string, name: string)
    requires h.ResolveLexical(path).Ok? && EntryName(name)
    ensures var dir := h.ResolveLexical(path).value;
      h.ResolveLexical(h.ReportedPath(dir, name)) == Ok(Join(dir, name)) <==> ".." !in Split(name, '\\')
  {
    var extra := Plain(Split(path, '/'));
    ResolveExact(h, path);
    QuietSegments(path);
    PlainWithin(Split(path, '/'));
    NameTraverses(name);
    ReportedNames(h, h.ResolveLexical(path).value, extra, name);
    assert name in extra + [name];
    ResolveNames(h, true, extra + [name]);
    ResolveExact(h, Render(true, extra + [name]));
  }

  // Every line of a listing is an entry with file info, and its path resolves back to the entry
  // under the same condition.
  lemma {:induction false} ListingResolvesBack(h: FileHandler, path: string, entries: seq<DirEntry>, i: nat)
    requires h.ResolveLexical(path).Ok?
    requires forall e <- entries :: EntryName(e.name)
    requires i < |h.Listing(h.ResolveLexical(path).value, entries)|
    ensures var dir := h.ResolveLexical(path).value;
      var listed := h.Listing(dir, entries)[i];
      && (h.ResolveLexical(listed.path) == Ok(Join(dir, listed.name)) <==> ".." !in Split(listed.name, '\\'))
      && exists e <- entries :: e.info == Some(listed.info) && e.name == listed.name && e.isDir == listed.isDir
  {
    var dir := h.ResolveLexical(path).value;
    var init, last := entries[..|entries| - 1], entries[|entries| - 1];
    if i < |h.Listing(dir, init)| {
      ListingResolvesBack(h, path, init, i);
    } else {
      ListedPathResolvesBack(h, path, last.name);
    }
  }

  // A listing keeps the order of the entries: it is made of the listings of its parts, each entry
  // giving one line, or none when it has no file info.
  lemma {:induction false} ListingConcat(h: FileHandler, dir: string, a: seq<DirEntry>, b: seq<DirEntry>)
    ensures h.Listing(dir, a + b) == h.Listing(dir, a) + h.Listing(dir, b)
    decreases b
  {
    if b == [] {
      assert a + b == a;
    } else {
      var init, last := b[..|b| - 1], b[|b| - 1];
      assert (a + b)[..|a + b| - 1] == a + init && (a + b)[|a + b| - 1] == last;
      ListingConcat(h, dir, a, init);
    }
  }

  lemma ListingOne(h: FileHandler, dir: string, e: DirEntry)
    ensures h.Listing(dir, []) == []
    ensures e.info.None? ==> h.Listing(dir, [e]) == []
    ensures e.info.Some? ==> h.Listing(dir, [e]) == [FileEntry(e.name, e.info.value, e.isDir, h.ReportedPath(dir, e.name))]
  {
    assert [e][..0] == [];
  }

  // Every entry that has file info is listed.
  lemma {:induction false} EveryEntryIsListed(h: FileHandler, dir: string, entries: seq<DirEntry>, e: DirEntry)
    requires e in entries && e.info.Some?
    ensures FileEntry(e.name, e.info.value, e.isDir, h.ReportedPath(dir, e.name)) in h.Listing(dir, entries)
  {
    if e != entries[|entries| - 1] {
      EveryEntryIsListed(h, dir, entries[..|entries| - 1], e);
    }
  }

  // The segments of an upload target.
  function TargetSegments(dest: string, name: string): seq<string> {
    if dest == "" then Segments(name) else Segments(dest + "/" + name)
  }

  lemma BaseItself(h: FileHandler, path: string)
    requires path == "/" || path == "."
    ensures h.ResolveLexical(path) == Ok(Render(Rooted(h.baseDir), Segments(h.baseDir)))
  {
    EmptyMeansRoot(h);
    DotIsQuiet();
    ResolveExact(h, path);
    assert Segments(h.baseDir) + [] == Segments(h.baseDir);
  }

  lemma DotIsQuiet()
    ensures !Traverses(".") && Plain(Split(".", '/')) == []
  {
    SplitUnbroken(".", '/');
    SplitUnbroken(".", '\\');
    NameTraverses(".");
  }

  // The path of a segment list resolves exactly when no segment fails the scan, and then to those
  // segments below the base. With no segments it is "/" or ".", the base itself.
  lemma ResolveRendered(h: FileHandler, rooted: bool, segs: seq<string>)
    requires Normal(rooted, segs)
    ensures h.ResolveLexical(Render(rooted, segs)).Ok? <==> forall g <- segs :: !Traverses(g)
    ensures h.ResolveLexical(Render(rooted, segs)).Ok? ==>
      h.ResolveLexical(Render(rooted, segs)).value == Render(Rooted(h.baseDir), Segments(h.baseDir) + segs)
  {
    if segs == [] {
      BaseItself(h, Render(rooted, segs));
      assert Segments(h.baseDir) + segs == Segments(h.baseDir);
    } else {
      ResolveNames(h, rooted, segs);
      RefusedIffTraverses(h, Render(rooted, segs));
    }
  }

  lemma RefusedIffTraverses(h: FileHandler, path: string)
    ensures h.ResolveLexical(path).Ok? <==> !Traverses(path)
  {
    ResolveExact(h, path);
  }

  // Upload joins, and so cleans, before the scan. For every destination and filename its target is
  // accepted exactly when no segment left by the cleaning fails the scan, and is then those
  // segments below the base.
  lemma UploadExact(h: FileHandler, dest: string, name: string)
    ensures var target := FileHandler.UploadTarget(dest, name);
      && (h.ResolveLexical(target).Ok? <==> forall g <- TargetSegments(dest, name) :: !Traverses(g))
      && (h.ResolveLexical(target).Ok? ==>
            h.ResolveLexical(target).value == Render(Rooted(h.baseDir), Segments(h.baseDir) + TargetSegments(dest, name)))
  {
    if dest == "" && name == "" {
      EmptyMeansRoot(h);
      ResolveExact(h, "");
      assert Segments("") == [];
    } else {
      var whole := if dest == "" then name else dest + "/" + name;
      SegmentsNormal(whole);
      ResolveRendered(h, Rooted(whole), Segments(whole));
    }
  }

  // A plain name adds one segment to the destination's.
  lemma UploadNames(dest: string, name: string)
    requires EntryName(name)
    ensures TargetSegments(dest, name) == Segments(dest) + [name]
  {
    if dest == "" {
      SplitUnbroken(name, '/');
      assert name[0] in name;
      WalkNormal(false, [], [name]);
      assert [] + [name] == [name] && Segments("") == [];
    } else {
      JoinName(dest, name);
      CleanIdempotent(dest + "/" + name);
    }
  }

  // Into a destination that resolve accepts, that is the name in the resolved destination, exactly
  // when no part of the name between backslashes is "..".
  lemma UploadLandsInDestination(h: FileHandler, dest: string, name: string)
    requires EntryName(name) && h.ResolveLexical(dest).Ok?
    ensures h.ResolveLexical(FileHandler.UploadTarget(dest, name)) == Ok(Join(h.ResolveLexical(dest).value, name))
       <==> ".." !in Split(name, '\\')
  {
    PlainDestination(h, dest);
    UploadNames(dest, name);
    UploadExact(h, dest, name);
    NameTraverses(name);
    assert name in Segments(dest) + [name];
    ReportedNames(h, h.ResolveLexical(dest).value, Segments(dest), name);
  }

  // An accepted destination has no segment that fails the scan.
  lemma PlainDestination(h: FileHandler, dest: string)
    requires h.ResolveLexical(dest).Ok?
    ensures var p := h.ResolveLexical(dest).value;
      p != "" && Rooted(p) == Rooted(h.baseDir) && Segments(p) == Segments(h.baseDir) + Segments(dest)
    ensures forall g <- Segments(dest) :: !Traverses(g)
  {
    ResolveExact(h, dest);
    QuietSegments(dest);
    PlainWithin(Split(dest, '/'));
    WalkPlain(Rooted(dest), [], Split(dest, '/'));
    assert Segments(dest) == Plain(Split(dest, '/'));
  }

  // A target spelled with ".." can so be accepted, cleaned: when the destination climbs, and when
  // the filename itself is "..", which a multipart form passes on.
  lemma UploadCleansBeforeTheScan(h: FileHandler)
    ensures h.ResolveLexical("/..") == Err(TraversalNotAllowed)
    ensures h.ResolveLexical(FileHandler.UploadTarget("/..", "f"))
         == Ok(Render(Rooted(h.baseDir), Segments(h.baseDir) + ["f"]))
    ensures h.ResolveLexical("a/..") == Err(TraversalNotAllowed)
    ensures h.ResolveLexical(FileHandler.UploadTarget("a", ".."))
         == Ok(Render(Rooted(h.baseDir), Segments(h.baseDir)))
  {
    UpRefused(h, "");
    UpRefused(h, "a");
    assert "" + "/.." == "/.." && "a" + "/.." == "a/..";
    FileAccepted(h);
    UpAccepted(h);
  }

  lemma UpAccepted(h: FileHandler)
    requires Segments("a/..") == []
    ensures h.ResolveLexical(FileHandler.UploadTarget("a", "..")) == Ok(Render(Rooted(h.baseDir), Segments(h.baseDir)))
  {
    assert "a" + "/" + ".." == "a/..";
    UploadExact(h, "a", "..");
    assert TargetSegments("a", "..") == [];
    assert Segments(h.baseDir) + [] == Segments(h.baseDir);
  }

  lemma FileAccepted(h: FileHandler)
    requires Segments("/..") == []
    ensures h.ResolveLexical(FileHandler.UploadTarget("/..", "f"))
         == Ok(Render(Rooted(h.baseDir), Segments(h.baseDir) + ["f"]))
  {
    NameTraverses("f");
    SplitUnbroken("f", '\\');
    UploadNames("/..", "f");
    assert [] + ["f"] == ["f"];
    UploadExact(h, "/..", "f");
  }

  // A path that climbs one step is refused, though cleaning would leave nothing of it.
  lemma UpRefused(h: FileHandler, a: string)
    requires a == "" || a == "a"
    ensures h.ResolveLexical(a + "/..") == Err(TraversalNotAllowed) && Segments(a + "/..") == []
  {
    assert a + "/.." == a + "/" + ".." == a + ['/'] + "..";
    TraversesConcat(a, "..");
    NameTraverses("..");
    ResolveExact(h, a + "/..");
    SplitUnbroken(a, '/');
    SplitUnbroken("..", '/');
    SplitConcat(a, "..", '/');
    UpLeavesNothing(Rooted(a + "/.."), a);
  }

  lemma UpLeavesNothing(rooted: bool, a: string)
    requires (a == "" && rooted) || a == "a"
    ensures Walk(rooted, [], [a] + [".."]) == []
  {
    assert ([a] + [".."])[1..] == [".."] && [".."][1..] == [];
  }
}
