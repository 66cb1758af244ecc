/** The lexical path functions the file manager calls: Go's `filepath.Clean`, `Join` and `Rel`
    on Unix, by their documented rules. A path is read as a rooted flag and a list of segments. */
module Paths {
  import opened Results
  import opened Text

  predicate Rooted(s: string) {
    s != "" && s[0] == '/'
  }

  // One segment of Clean: "" and "." vanish, ".." cancels the segment before it, and a ".."
  // that has nothing to cancel stays on a relative path and vanishes on a rooted one.
  function Enter(rooted: bool, stack: seq<string>, segment: string): seq<string> {
    if segment == "" || segment == "." then stack
    else if segment != ".." then stack + [segment]
    else if stack != [] && stack[|stack| - 1] != ".." then stack[..|stack| - 1]
    else if rooted then stack
    else stack + [".."]
  }

  function Walk(rooted: bool, stack: seq<string>, segments: seq<string>): seq<string>
    decreases segments
  {
    if segments == [] then stack
    else Walk(rooted, Enter(rooted, stack, segments[0]), segments[1..])
  }

  function Render(rooted: bool, segments: seq<string>): string {
    if rooted then "/" + Glue(segments, '/')
    else if segments == [] then "."
    else Glue(segments, '/')
  }

  // The segments that survive cleaning.
  function Segments(s: string): seq<string> {
    Walk(Rooted(s), [], Split(s, '/'))
  }

  function Clean(s: string): string {
    Render(Rooted(s), Segments(s))
  }

  // filepath.Join of two elements: leading empty elements are dropped.
  function Join(a: string, b: string): string {
    if a != "" then Clean(a + "/" + b)
    else if b != "" then Clean(b)
    else ""
  }

  function NonEmpty(parts: seq<string>): seq<string> {
    if parts == [] then []
    else (if parts[0] == "" then [] else [parts[0]]) + NonEmpty(parts[1..])
  }

  function CommonPrefix(a: seq<string>, b: seq<string>): (n: nat)
    ensures n <= |a| && n <= |b|
    ensures a[..n] == b[..n]
    ensures n < |a| && n < |b| ==> a[n] != b[n]
  {
    if a != [] && b != [] && a[0] == b[0] then 1 + CommonPrefix(a[1..], b[1..]) else 0
  }

  // Up from what is left of the base after the common segments, then down to the target.
  function UpAndDown(bs: seq<string>, ts: seq<string>): Option<string> {
    var n := CommonPrefix(bs, ts);
    if n < |bs| && bs[n] == ".." then None
    else Some(Glue(seq(|bs| - n, _ => "..") + ts[n..], '/'))
  }

  // filepath.Rel: None where the target cannot be reached without knowing the working directory.
  function Rel(base: string, target: string): Option<string> {
    var b, t := Clean(base), Clean(target);
    if b == t then Some(".")
    else
      var from := if b == "." then "" else b;
      if Rooted(from) != Rooted(t) then None
      else UpAndDown(NonEmpty(Split(from, '/')), NonEmpty(Split(t, '/')))
  }

  // The parts that cleaning keeps when there is no "..".
  function Plain(parts: seq<string>): seq<string> {
    if parts == [] then []
    else (if parts[0] == "" || parts[0] == "." then [] else [parts[0]]) + Plain(parts[1..])
  }

  // What a clean segment list looks like: no separators, no "" or ".", and ".." only as a
  // prefix of a relative path.
  ghost predicate Normal(rooted: bool, segments: seq<string>) {
    && (forall g <- segments :: g != "" && g != "." && '/' !in g)
    && (forall i :: 0 <= i < |segments| && segments[i] == ".." ==>
          !rooted && forall j :: 0 <= j < i ==> segments[j] == "..")
  }

  lemma {:induction false} WalkConcat(rooted: bool, stack: seq<string>, a: seq<string>, b: seq<string>)
    ensures Walk(rooted, stack, a + b) == Walk(rooted, Walk(rooted, stack, a), b)
    decreases a
  {
    if a == [] {
      assert a + b == b;
    } else {
      assert (a + b)[1..] == a[1..] + b;
      WalkConcat(rooted, Enter(rooted, stack, a[0]), a[1..], b);
    }
  }

  lemma {:induction false} WalkPlain(rooted: bool, stack: seq<string>, parts: seq<string>)
    requires ".." !in parts
    ensures Walk(rooted, stack, parts) == stack + Plain(parts)
    decreases parts
  {
    if parts != [] {
      WalkPlain(rooted, Enter(rooted, stack, parts[0]), parts[1..]);
    }
  }

  lemma {:induction false} WalkKeepsNormal(rooted: bool, stack: seq<string>, parts: seq<string>)
    requires Normal(rooted, stack)
    requires forall p <- parts :: '/' !in p
    ensures Normal(rooted, Walk(rooted, stack, parts))
    decreases parts
  {
    if parts != [] {
      assert forall g <- Enter(rooted, stack, parts[0]) :: g in stack || g == parts[0];
      WalkKeepsNormal(rooted, Enter(rooted, stack, parts[0]), parts[1..]);
    }
  }

  lemma {:induction false} WalkNormal(rooted: bool, stack: seq<string>, segments: seq<string>)
    requires Normal(rooted, stack + segments)
    ensures Walk(rooted, stack, segments) == stack + segments
    decreases segments
  {
    if segments == [] {
      assert stack + segments == stack;
    } else {
      assert (stack + segments)[|stack|] == segments[0] && segments[0] in stack + segments;
      assert stack != [] && segments[0] == ".." ==> (stack + segments)[|stack| - 1] == "..";
      assert stack + segments == (stack + [segments[0]]) + segments[1..];
      WalkNormal(rooted, stack + [segments[0]], segments[1..]);
    }
  }

  lemma SegmentsNormal(s: string)
    ensures Normal(Rooted(s), Segments(s))
  {
    SplitParts(s, '/');
    WalkKeepsNormal(Rooted(s), [], Split(s, '/'));
  }

  // Reading a rendered path gives back its flag and its segments.
  lemma RenderReadsBack(rooted: bool, segments: seq<string>)
    requires Normal(rooted, segments)
    ensures Rooted(Render(rooted, segments)) == rooted
    ensures Segments(Render(rooted, segments)) == segments
    ensures NonEmpty(Split(Render(rooted, segments), '/')) == if !rooted && segments == [] then ["."] else segments
  {
    var text := Glue(segments, '/');
    if segments == [] {
      if rooted {
        SplitConcat("", "", '/');
        assert Split("/", '/') == ["", ""];
        assert Walk(true, [], ["", ""]) == Walk(true, [], [""]) == [];
      } else {
        SplitUnbroken(".", '/');
      }
    } else {
      SplitGlue(segments, '/');
      NonEmptyKeepsAll(segments);
      assert text[0] == segments[0][0];
      WalkNormal(rooted, [], segments);
      assert [] + segments == segments;
      if rooted {
        SplitConcat("", text, '/');
        assert "" + ['/'] + text == "/" + text == Render(rooted, segments);
        assert ([""] + segments)[1..] == segments;
        calc {
          Segments(Render(rooted, segments));
          Walk(true, [], [""] + segments);
          Walk(true, Enter(true, [], ""), segments);
          segments;
        }
      }
    }
  }

  lemma {:induction false} NonEmptyKeepsAll(parts: seq<string>)
    requires "" !in parts
    ensures NonEmpty(parts) == parts
  {
    if parts != [] { NonEmptyKeepsAll(parts[1..]); }
  }

  // Clean is idempotent, and a cleaned path keeps the flag and the segments.
  lemma CleanIdempotent(s: string)
    ensures Clean(Clean(s)) == Clean(s)
    ensures Rooted(Clean(s)) == Rooted(s) && Segments(Clean(s)) == Segments(s)
    ensures Clean(s) != ""
  {
    SegmentsNormal(s);
    RenderReadsBack(Rooted(s), Segments(s));
  }

  // Joining anything without ".." onto a path appends its plain parts.
  lemma JoinPlain(a: string, b: string)
    requires a != "" && ".." !in Split(b, '/')
    ensures Rooted(Join(a, b)) == Rooted(a)
    ensures Segments(Join(a, b)) == Segments(a) + Plain(Split(b, '/'))
    ensures Join(a, b) == Render(Rooted(a), Segments(a) + Plain(Split(b, '/')))
    ensures Normal(Rooted(a), Segments(a) + Plain(Split(b, '/')))
  {
    SplitConcat(a, b, '/');
    assert a + ['/'] + b == a + "/" + b;
    WalkConcat(Rooted(a), [], Split(a, '/'), Split(b, '/'));
    WalkPlain(Rooted(a), Segments(a), Split(b, '/'));
    SegmentsNormal(a + "/" + b);
    CleanIdempotent(a + "/" + b);
  }

  // Rel from a path to something below it is the extra segments.
  lemma RelBelow(base: string, target: string, extra: seq<string>)
    requires Rooted(target) == Rooted(base) && Segments(target) == Segments(base) + extra
    ensures Rel(base, target) == Some(if extra == [] then "." else Glue(extra, '/'))
  {
    var bs := Segments(base);
    if extra == [] {
      assert bs + extra == bs;
    } else {
      RelSegments(base, target);
      DownOnly(bs, extra);
    }
  }

  // On two different paths of one kind, Rel compares the segments.
  lemma RelSegments(base: string, target: string)
    requires Rooted(target) == Rooted(base) && Segments(target) != Segments(base)
    requires Segments(target) != []
    ensures Rel(base, target) == UpAndDown(Segments(base), Segments(target))
  {
    CleanReadsBack(base);
    CleanReadsBack(target);
    assert Clean(base) != Clean(target);
    assert NonEmpty(Split("", '/')) == [] by { assert Split("", '/') == [""]; }
  }

  lemma CleanReadsBack(s: string)
    ensures Rooted(Clean(s)) == Rooted(s) && Segments(Clean(s)) == Segments(s)
    ensures Clean(s) == "." <==> !Rooted(s) && Segments(s) == []
    ensures NonEmpty(Split(Clean(s), '/')) == if Clean(s) == "." then ["."] else Segments(s)
  {
    SegmentsNormal(s);
    RenderReadsBack(Rooted(s), Segments(s));
  }

  lemma DownOnly(bs: seq<string>, extra: seq<string>)
    ensures UpAndDown(bs, bs + extra) == Some(Glue(extra, '/'))
  {
    PrefixIsCommon(bs, extra);
    assert seq(0, _ => "..") + (bs + extra)[|bs|..] == extra;
  }

  lemma {:induction false} PrefixIsCommon(a: seq<string>, b: seq<string>)
    ensures CommonPrefix(a, a + b) == |a|
  {
    if a != [] {
      assert (a + b)[1..] == a[1..] + b;
      PrefixIsCommon(a[1..], b);
    }
  }

  lemma {:induction false} PlainKeepsAll(parts: seq<string>)
    requires "" !in parts && "." !in parts
    ensures Plain(parts) == parts
  {
    if parts != [] { PlainKeepsAll(parts[1..]); }
  }

  lemma {:induction false} PlainWithin(parts: seq<string>)
    ensures forall p <- Plain(parts) :: p in parts && p != "" && p != "."
  {
    if parts != [] { PlainWithin(parts[1..]); }
  }

  // ------------------------------------------------------------------ cleaning, rule by rule

  // What one more element does to a path's segments.
  lemma SegmentsStep(a: string, b: string)
    requires a != "" && '/' !in b
    ensures Rooted(a + "/" + b) == Rooted(a)
    ensures Segments(a + "/" + b) == Enter(Rooted(a), Segments(a), b)
  {
    SplitConcat(a, b, '/');
    SplitUnbroken(b, '/');
    assert a + ['/'] + b == a + "/" + b;
    WalkConcat(Rooted(a), [], Split(a, '/'), [b]);
    assert [b][1..] == [];
  }

  // An empty or "." element changes nothing.
  lemma CleanSkips(a: string)
    requires a != ""
    ensures Clean(a + "/") == Clean(a) && Clean(a + "/.") == Clean(a)
  {
    SegmentsStep(a, "");
    SegmentsStep(a, ".");
    assert a + "/" + "" == a + "/" && a + "/" + "." == a + "/.";
  }

  // A name is appended to the cleaned path.
  lemma CleanAppends(a: string, name: string)
    requires a != "" && name != "" && name != "." && name != ".." && '/' !in name
    ensures Clean(a + "/" + name)
         == (if Clean(a) == "/" then "/" else if Clean(a) == "." then "" else Clean(a) + "/") + name
  {
    SegmentsStep(a, name);
    CleanIs(a);
    GlueLast(Segments(a), name);
  }

  // A name followed by ".." changes nothing.
  lemma CleanCancels(a: string, name: string)
    requires a != "" && name != "" && name != "." && name != ".." && '/' !in name
    ensures Clean(a + "/" + name + "/..") == Clean(a)
  {
    SegmentsStep(a, name);
    SegmentsStep(a + "/" + name, "..");
    assert a + "/" + name + "/" + ".." == a + "/" + name + "/..";
  }

  lemma CleanIs(a: string)
    ensures Clean(a) == "/" <==> Rooted(a) && Segments(a) == []
    ensures Clean(a) == "." <==> !Rooted(a) && Segments(a) == []
  {
    CleanReadsBack(a);
    RenderReadsBack(true, []);
    RenderReadsBack(false, []);
    SegmentsNormal(a);
  }

  lemma {:induction false} GlueLast(parts: seq<string>, last: string)
    ensures Glue(parts + [last], '/') == if parts == [] then last else Glue(parts, '/') + "/" + last
  {
    if parts != [] {
      assert (parts + [last])[1..] == parts[1..] + [last];
      GlueLast(parts[1..], last);
    }
  }

  // A ".." with nothing to cancel: it vanishes at the root, and on a relative path adds up.
  lemma CleanClimbs(a: string)
    requires a != ""
    ensures Clean(a) == "/" ==> Clean(a + "/..") == "/"
    ensures Clean(a) == "." ==> Clean(a + "/..") == ".."
    ensures !Rooted(a) && Segments(a) != [] && Segments(a)[|Segments(a)| - 1] == ".." ==>
      Clean(a + "/..") == Clean(a) + "/.."
  {
    SegmentsStep(a, "..");
    assert a + "/" + ".." == a + "/..";
    CleanIs(a);
    GlueLast(Segments(a), "..");
  }

  // The shortest paths.
  lemma CleanStarts(name: string)
    requires name != "" && '/' !in name
    ensures Clean("") == "." && Clean("/") == "/" && Clean(name) == name
  {
    CleanIs("");
    CleanIs("/");
    SplitConcat("", "", '/');
    assert "" + ['/'] + "" == "/" && Split("/", '/') == ["", ""];
    assert Walk(true, [], ["", ""]) == Walk(true, [], [""]) == [];
    SplitUnbroken(name, '/');
    assert name[0] in name;
    assert [name][1..] == [] && !Rooted(name);
    assert Segments(name) == Walk(false, [], [name]) == Enter(false, [], name);
  }

  // ------------------------------------------------------------------ Rel and Join

  lemma {:induction false} WalkUp(rooted: bool, stack: seq<string>, n: nat)
    requires n <= |stack| && forall i :: |stack| - n <= i < |stack| ==> stack[i] != ".."
    ensures Walk(rooted, stack, seq(n, _ => "..")) == stack[..|stack| - n]
    decreases n
  {
    if n > 0 {
      var ups := seq(n, _ => "..");
      assert ups[0] == ".." && ups[1..] == seq(n - 1, _ => "..");
      var shorter := stack[..|stack| - 1];
      assert Enter(rooted, stack, "..") == shorter;
      WalkUp(rooted, shorter, n - 1);
      assert shorter[..|shorter| - (n - 1)] == stack[..|stack| - n];
    }
  }

  // Where Rel has an answer, what it goes up through are names.
  lemma NamesAbove(rooted: bool, bs: seq<string>, n: nat)
    requires Normal(rooted, bs) && n <= |bs| && (n < |bs| ==> bs[n] != "..")
    ensures forall i :: n <= i < |bs| ==> bs[i] != ".."
  {}

  lemma NormalPart(rooted: bool, ts: seq<string>, n: nat)
    requires Normal(rooted, ts) && n <= |ts|
    ensures Walk(rooted, ts[..n], ts[n..]) == ts
  {
    assert ts[..n] + ts[n..] == ts;
    WalkNormal(rooted, ts[..n], ts[n..]);
  }

  // Up from the base and down to the target is the target.
  lemma UpDownWalk(rooted: bool, bs: seq<string>, ts: seq<string>, n: nat)
    requires Normal(rooted, bs) && Normal(rooted, ts) && n <= |bs| && n <= |ts| && bs[..n] == ts[..n]
    requires n < |bs| ==> bs[n] != ".."
    ensures Walk(rooted, bs, seq(|bs| - n, _ => "..") + ts[n..]) == ts
  {
    NamesAbove(rooted, bs, n);
    WalkConcat(rooted, bs, seq(|bs| - n, _ => ".."), ts[n..]);
    WalkUp(rooted, bs, |bs| - n);
    assert bs[..|bs| - (|bs| - n)] == ts[..n];
    NormalPart(rooted, ts, n);
  }

  lemma JoinWalk(base: string, parts: seq<string>)
    requires parts != [] && forall p <- parts :: p != "" && '/' !in p
    ensures Join(base, Glue(parts, '/')) == Render(Rooted(base), Walk(Rooted(base), Segments(base), parts))
  {
    var text := Glue(parts, '/');
    SplitGlue(parts, '/');
    assert parts[0] in parts && text[0] == parts[0][0];
    if base == "" {
      assert Segments("") == [] && !Rooted(text);
    } else {
      SplitConcat(base, text, '/');
      assert base + ['/'] + text == base + "/" + text;
      WalkConcat(Rooted(base), [], Split(base, '/'), parts);
    }
  }

  // The segments Rel compares: it takes the cleaned target "." for a segment.
  function Compared(target: string): seq<string> {
    if Clean(target) == "." then ["."] else Segments(target)
  }

  lemma RelIs(base: string, target: string)
    requires Rooted(base) == Rooted(target) && Segments(base) != Segments(target)
    ensures Rel(base, target) == UpAndDown(Segments(base), Compared(target))
  {
    CleanReadsBack(base);
    CleanReadsBack(target);
    assert NonEmpty(Split("", '/')) == [] by { assert Split("", '/') == [""]; }
  }

  lemma UpDownCompared(base: string, target: string, n: nat)
    requires Rooted(base) == Rooted(target) && Segments(base) != Segments(target)
    requires n == CommonPrefix(Segments(base), Compared(target))
    requires n < |Segments(base)| ==> Segments(base)[n] != ".."
    ensures Walk(Rooted(base), Segments(base), seq(|Segments(base)| - n, _ => "..") + Compared(target)[n..])
         == Segments(target)
  {
    var rooted, bs := Rooted(base), Segments(base);
    SegmentsNormal(base);
    SegmentsNormal(target);
    CleanIs(target);
    if Clean(target) == "." {
      assert bs[0] in bs && n == 0;
      NamesAbove(rooted, bs, 0);
      WalkConcat(rooted, bs, seq(|bs|, _ => ".."), ["."]);
      WalkUp(rooted, bs, |bs|);
      assert bs[..0] == [] && ["."][1..] == [];
    } else {
      UpDownWalk(rooted, bs, Segments(target), n);
    }
  }

  // Joining the relative path onto the base gives the cleaned target, for every base and target
  // that have one.
  lemma RelJoins(base: string, target: string)
    requires Rel(base, target).Some?
    ensures Join(base, Rel(base, target).value) == Clean(target)
  {
    CleanIdempotent(base);
    CleanIdempotent(target);
    CleanReadsBack(base);
    if Rooted(base) == Rooted(target) && Segments(base) == Segments(target) {
      CleanStarts(".");
      if base != "" { CleanSkips(base); assert base + "/" + "." == base + "/."; }
    } else {
      RelJoinsOther(base, target);
    }
  }

  // What Rel spells out: up from the base, then down.
  function UpThenDown(bs: seq<string>, ts: seq<string>): seq<string> {
    seq(|bs| - CommonPrefix(bs, ts), _ => "..") + ts[CommonPrefix(bs, ts)..]
  }

  lemma UpThenDownParts(bs: seq<string>, ts: seq<string>)
    requires bs != ts && forall g <- ts :: g != "" && '/' !in g
    ensures UpThenDown(bs, ts) != [] && forall p <- UpThenDown(bs, ts) :: p != "" && '/' !in p
  {
    forall p | p in UpThenDown(bs, ts) ensures p != "" && '/' !in p {
      assert p == ".." || p in ts;
    }
  }

  lemma RelJoinsOther(base: string, target: string)
    requires Rel(base, target).Some? && Clean(base) != Clean(target)
    ensures Join(base, Rel(base, target).value) == Clean(target)
  {
    var bs, ts := Segments(base), Compared(target);
    RelApart(base, target);
    ComparedDiffer(base, target);
    RelIs(base, target);
    SegmentsNormal(target);
    UpThenDownParts(bs, ts);
    UpDownCompared(base, target, CommonPrefix(bs, ts));
    JoinWalk(base, UpThenDown(bs, ts));
  }

  lemma RelApart(base: string, target: string)
    requires Rel(base, target).Some? && Clean(base) != Clean(target)
    ensures Rooted(base) == Rooted(target) && Segments(base) != Segments(target)
  {
    CleanReadsBack(base);
    CleanReadsBack(target);
  }

  lemma ComparedDiffer(base: string, target: string)
    requires Rooted(base) == Rooted(target) && Segments(base) != Segments(target)
    ensures Segments(base) != Compared(target)
  {
    SegmentsNormal(base);
    assert Segments(base) != [] ==> Segments(base)[0] in Segments(base);
  }

  // How far a path climbs above where it starts.
  function Climbs(segments: seq<string>): (n: nat)
    ensures n <= |segments|
    ensures forall i :: 0 <= i < n ==> segments[i] == ".."
    ensures n < |segments| ==> segments[n] != ".."
  {
    if segments != [] && segments[0] == ".." then 1 + Climbs(segments[1..]) else 0
  }

  // There is no relative path exactly between an absolute and a relative one, and from a base that
  // climbs further than the target.
  lemma RelFails(base: string, target: string)
    ensures Rel(base, target).None? <==>
      Rooted(base) != Rooted(target) || Climbs(Segments(base)) > Climbs(Segments(target))
  {
    CleanReadsBack(base);
    CleanReadsBack(target);
    if Rooted(base) == Rooted(target) && Segments(base) != Segments(target) {
      SegmentsNormal(base);
      SegmentsNormal(target);
      CleanIs(target);
      RelIs(base, target);
      ClimbsDecide(Rooted(base), Segments(base), Compared(target));
    }
  }

  lemma CommonAt(a: seq<string>, b: seq<string>, i: nat)
    requires i < CommonPrefix(a, b)
    ensures a[i] == b[i]
  {
    var n := CommonPrefix(a, b);
    assert a[..n][i] == b[..n][i];
  }

  lemma ClimbsDecide(rooted: bool, bs: seq<string>, ts: seq<string>)
    requires Normal(rooted, bs)
    ensures UpAndDown(bs, ts).None? <==> Climbs(bs) > Climbs(ts)
  {
    var n, q := CommonPrefix(bs, ts), Climbs(ts);
    if q < n {
      CommonAt(bs, ts, q);
    }
    if n < |bs| && bs[n] == ".." { assert Climbs(bs) > n && q <= n; }
  }
}
