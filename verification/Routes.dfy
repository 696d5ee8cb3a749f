/** The route matcher: two cursors walking a pattern and a path, against a matcher on segments. */
module Routes {
  import opened Basics

  // ---------------------------------------------------------------- the walk, on strings

  /** What is left from the next slash on. */
  function FromSlash(s: string): (r: string)
    ensures |r| <= |s|
  {
    if s == "" || s[0] == '/' then s else FromSlash(s[1..])
  }

  /** One side used up: the other may have one slash left. */
  predicate Ends(pattern: string, path: string) {
    (path == "" && (pattern == "" || pattern == "/")) || (pattern == "" && path == "/")
  }

  predicate Matches(pattern: string, path: string)
    decreases |pattern|
  {
    if pattern == "" || path == "" then Ends(pattern, path)
    else if pattern[0] == ':' then Matches(FromSlash(pattern[1..]), FromSlash(path))
    else if pattern[0] == '*' then pattern[1..] == "" || Matches(pattern[1..], FromSlash(path))
    else pattern[0] == path[0] && Matches(pattern[1..], path[1..])
  }

  method SkipSegment(s: string, i: nat) returns (j: nat)
    requires i <= |s|
    ensures i <= j <= |s| && s[j..] == FromSlash(s[i..])
  {
    j := i;
    while j < |s| && s[j] != '/'
      invariant i <= j <= |s| && FromSlash(s[j..]) == FromSlash(s[i..])
    {
      assert s[j..][1..] == s[j + 1..];
      j := j + 1;
    }
  }

  method MatchRoute(pattern: Option<string>, path: Option<string>) returns (ok: bool)
    ensures ok <==> pattern.Some? && path.Some? && Matches(pattern.value, path.value)
    decreases if pattern.Some? then |pattern.value| else 0
  {
    if pattern.None? || path.None? { return false; }
    var p, x := pattern.value, path.value;
    var i, j := 0, 0;
    while i < |p| && j < |x|
      invariant 0 <= i <= |p| && 0 <= j <= |x| && Matches(p, x) == Matches(p[i..], x[j..])
      decreases |p| - i
    {
      assert p[i..][1..] == p[i + 1..] && x[j..][1..] == x[j + 1..];
      if p[i] == ':' {
        i := SkipSegment(p, i + 1);
        j := SkipSegment(x, j);
      } else if p[i] == '*' {
        i := i + 1;
        j := SkipSegment(x, j);
        if i < |p| {
          ok := MatchRoute(Some(p[i..]), Some(x[j..]));
          return;
        }
        return true;
      } else {
        if p[i] != x[j] { return false; }
        i, j := i + 1, j + 1;
      }
    }
    if i < |p| && p[i] == '/' && j == |x| {
      i := i + 1;
    }
    if j < |x| && x[j] == '/' && i == |p| {
      j := j + 1;
    }
    ok := i == |p| && j == |x|;
  }

  // -------------------------------------------------------------------------- segments

  datatype Segment = Lit(text: string) | Param(name: string) | Star

  function SegmentText(s: Segment): string {
    match s
    case Lit(text) => text
    case Param(name) => ":" + name
    case Star => "*"
  }

  function PatternText(p: seq<Segment>): string
    requires p != []
  {
    SegmentText(p[0]) + if |p| == 1 then "" else "/" + PatternText(p[1..])
  }

  function PathText(x: seq<string>): string
    requires x != []
  {
    x[0] + if |x| == 1 then "" else "/" + PathText(x[1..])
  }

  predicate Plain(s: string) {
    forall i :: 0 <= i < |s| ==> s[i] != '/' && s[i] != ':' && s[i] != '*'
  }

  predicate NoSlash(s: string) {
    forall i :: 0 <= i < |s| ==> s[i] != '/'
  }

  predicate WellFormed(p: seq<Segment>) {
    forall i :: 0 <= i < |p| ==> (p[i].Lit? ==> Plain(p[i].text)) && (p[i].Param? ==> NoSlash(p[i].name))
  }

  predicate IsPath(x: seq<string>) {
    x != [] && forall i :: 0 <= i < |x| ==> NoSlash(x[i])
  }

  /** A literal matches itself.  A parameter and `*` match any segment but an absent last one, and a `*` at
      the end takes all the rest. */
  predicate SegmentsMatch(p: seq<Segment>, x: seq<string>)
    requires p != [] && x != []
    decreases |p|, 1
  {
    match p[0]
    case Lit(text) => x[0] == text && RestMatches(p[1..], x[1..])
    case Param(_) => x != [""] && RestMatches(p[1..], x[1..])
    case Star => x != [""] && (|p| == 1 || RestMatches(p[1..], x[1..]))
  }

  /** Either side may have one empty segment more than the other. */
  predicate RestMatches(p: seq<Segment>, x: seq<string>)
    decreases |p|, 2
  {
    if p == [] then x == [] || x == [""]
    else if x == [] then p == [Lit("")]
    else SegmentsMatch(p, x)
  }

  function Split(path: string): (x: seq<string>)
    ensures IsPath(x)
  {
    if path == "" then [""]
    else if path[0] == '/' then [""] + Split(path[1..])
    else var rest := Split(path[1..]); [[path[0]] + rest[0]] + rest[1..]
  }

  lemma {:induction false} SplitJoins(path: string)
    ensures PathText(Split(path)) == path
  {
    if path != "" {
      var rest := Split(path[1..]);
      SplitJoins(path[1..]);
      if path[0] == '/' {
        assert ([""] + rest)[1..] == rest;
        assert path == "/" + path[1..];
      } else {
        LongerFirst(path[0], rest);
      }
    }
  }

  lemma LongerFirst(c: char, x: seq<string>)
    requires x != []
    ensures PathText([[c] + x[0]] + x[1..]) == [c] + PathText(x)
  {
    var longer := [[c] + x[0]] + x[1..];
    assert longer[1..] == x[1..];
    var tail := if |x| == 1 then "" else "/" + PathText(x[1..]);
    assert PathText(longer) == [c] + x[0] + tail;
  }

  // ------------------------------------------------------- the walk matches by segments

  predicate AtBoundary(s: string) {
    s == "" || s[0] == '/'
  }

  lemma {:induction false} SkipsOneSegment(s: string, rest: string)
    requires NoSlash(s) && AtBoundary(rest)
    ensures FromSlash(s + rest) == rest
  {
    if s == "" {
      assert s + rest == rest;
    } else {
      SkipsOneSegment(s[1..], rest);
      assert (s + rest)[1..] == s[1..] + rest;
    }
  }

  lemma {:induction false} LiteralStep(lit: string, p: string, seg: string, x: string)
    requires Plain(lit) && NoSlash(seg) && AtBoundary(p) && AtBoundary(x)
    ensures Matches(lit + p, seg + x) <==> lit == seg && Matches(p, x)
  {
    if lit == "" {
      assert lit + p == p;
      if seg == "" { assert seg + x == x; } else { assert (seg + x)[0] == seg[0]; }
    } else if seg == "" {
      assert seg + x == x && (lit + p)[0] == lit[0];
    } else {
      LiteralStep(lit[1..], p, seg[1..], x);
      assert (lit + p)[1..] == lit[1..] + p && (seg + x)[1..] == seg[1..] + x;
      assert lit == [lit[0]] + lit[1..] && seg == [seg[0]] + seg[1..];
    }
  }

  lemma ParamStep(name: string, p: string, seg: string, x: string)
    requires NoSlash(name) && NoSlash(seg) && AtBoundary(p) && AtBoundary(x)
    ensures Matches(":" + name + p, seg + x) <==> seg + x != "" && Matches(p, x)
  {
    var pattern := ":" + name + p;
    assert pattern[0] == ':' && pattern[1..] == name + p;
    SkipsOneSegment(name, p);
    SkipsOneSegment(seg, x);
    if seg + x != "" { assert Matches(pattern, seg + x) <==> Matches(FromSlash(pattern[1..]), FromSlash(seg + x)); }
  }

  lemma StarStep(p: string, seg: string, x: string)
    requires NoSlash(seg) && AtBoundary(p) && AtBoundary(x)
    ensures Matches("*" + p, seg + x) <==> seg + x != "" && (p == "" || Matches(p, x))
  {
    assert ("*" + p)[1..] == p;
    SkipsOneSegment(seg, x);
  }

  /** The walk equals the matcher on segments, for every pattern of segments and every path. */
  lemma {:induction false} WalkMatchesSegments(p: seq<Segment>, x: seq<string>)
    requires p != [] && WellFormed(p) && IsPath(x)
    ensures Matches(PatternText(p), PathText(x)) <==> SegmentsMatch(p, x)
    decreases |p|, 1
  {
    var restP := if |p| == 1 then "" else "/" + PatternText(p[1..]);
    var restX := if |x| == 1 then "" else "/" + PathText(x[1..]);
    WalkMatchesRest(p[1..], x[1..]);
    EmptyPath(x);
    match p[0] {
      case Lit(text) => LiteralStep(text, restP, x[0], restX);
      case Param(name) => ParamStep(name, restP, x[0], restX);
      case Star => StarStep(restP, x[0], restX);
    }
  }

  lemma EmptyPath(x: seq<string>)
    requires x != []
    ensures PathText(x) == "" <==> x == [""]
  {
  }

  lemma {:induction false} WalkMatchesRest(p: seq<Segment>, x: seq<string>)
    requires WellFormed(p) && (x == [] || IsPath(x))
    ensures Matches(if p == [] then "" else "/" + PatternText(p), if x == [] then "" else "/" + PathText(x))
            <==> RestMatches(p, x)
    decreases |p|, 2
  {
    if p != [] && x != [] {
      WalkMatchesSegments(p, x);
      assert ("/" + PatternText(p))[1..] == PatternText(p) && ("/" + PathText(x))[1..] == PathText(x);
    } else if p != [] {
      EmptyPattern(p);
    } else if x != [] {
      EmptyPath(x);
    }
  }

  lemma EmptyPattern(p: seq<Segment>)
    requires p != []
    ensures PatternText(p) == "" <==> p == [Lit("")]
  {
  }

  /** Every path, through its segments. */
  lemma RouteMatchesBySegments(p: seq<Segment>, path: string)
    requires p != [] && WellFormed(p)
    ensures Matches(PatternText(p), path) <==> SegmentsMatch(p, Split(path))
  {
    SplitJoins(path);
    WalkMatchesSegments(p, Split(path));
  }

  // ------------------------------------------------------------- a slash at the end, on segments

  /** A path that does not end in a slash, and is not empty. */
  predicate NoSlashAtEnd(x: seq<string>) {
    x != [] && x[|x| - 1] != ""
  }

  /** Exactly two slashes at the end, behind something. */
  predicate EndsInTwoSlashes(p: seq<Segment>) {
    3 <= |p| && p[|p| - 1] == Lit("") && p[|p| - 2] == Lit("") && p[|p| - 3] != Lit("")
  }

  /** A pattern that neither ends in a slash nor in `*`. */
  predicate EndsInName(p: seq<Segment>) {
    p != [] && p[|p| - 1] != Lit("") && p[|p| - 1] != Star
  }

  /** Only the empty pattern and a single slash match the empty path. */
  lemma EmptyPathMatch(p: seq<Segment>)
    requires p != []
    ensures SegmentsMatch(p, [""]) <==> p == [Lit("")] || p == [Lit(""), Lit("")]
  {
    if p[0] == Lit("") && p[1..] == [Lit("")] {
      assert p == [p[0]] + p[1..];
    }
  }

  lemma SlashNeedsEnd(x: seq<string>)
    requires NoSlashAtEnd(x)
    ensures !SegmentsMatch([Lit("")], x)
  {
    if x[1..] != [] { assert x[1..][|x| - 2] == x[|x| - 1]; }
  }

  lemma LaterSegments(p: seq<Segment>, x: seq<string>)
    requires 1 < |p| && 1 < |x|
    ensures p[1..][|p| - 2] == p[|p| - 1] && x[1..][|x| - 2] == x[|x| - 1]
    ensures 2 < |p| ==> p[1..][|p| - 3] == p[|p| - 2]
    ensures 3 < |p| ==> p[1..][|p| - 4] == p[|p| - 3]
  {
  }

  /** A pattern and a path with more segments each: the first ones match, and the rest. */
  lemma FirstAndRest(p: seq<Segment>, x: seq<string>)
    requires 1 < |p| && 1 < |x|
    ensures SegmentsMatch(p, x) <==> (p[0].Lit? ==> x[0] == p[0].text) && SegmentsMatch(p[1..], x[1..])
  {
  }

  /** What a slash at the end of the path changes, for every pattern: it is ignored, except that a pattern that
      ends in two slashes then matches what it would match with one of them. */
  lemma {:induction false} PathSlashExactly(p: seq<Segment>, x: seq<string>)
    requires p != [] && NoSlashAtEnd(x)
    ensures SegmentsMatch(p, x + [""]) <==>
            SegmentsMatch(p, x) || (EndsInTwoSlashes(p) && SegmentsMatch(p[..|p| - 1], x))
    decreases |p|
  {
    assert (x + [""])[0] == x[0] && (x + [""])[1..] == x[1..] + [""];
    if |p| > 1 && |x| > 1 {
      LaterSegments(p, x);
      PathSlashExactly(p[1..], x[1..]);
      FirstAndRest(p, x);
      FirstAndRest(p, x + [""]);
      if EndsInTwoSlashes(p) {
        var shorter := p[..|p| - 1];
        assert shorter[0] == p[0] && shorter[1..] == p[1..][..|p| - 2];
        FirstAndRest(shorter, x);
        if |p| == 3 {
          assert shorter[1..] == [Lit("")];
          SlashNeedsEnd(x[1..]);
        }
      }
    } else if |p| > 1 {
      assert (x + [""])[1..] == [""];
      EmptyPathMatch(p[1..]);
      if EndsInTwoSlashes(p) && |p| == 3 { assert p[..2][1..] == [Lit("")]; }
    }
  }

  /** What a slash at the end of the pattern changes, for every pattern: it then matches only paths of as many
      segments as it has itself. */
  lemma {:induction false} PatternSlashExactly(p: seq<Segment>, x: seq<string>)
    requires p != [] && NoSlashAtEnd(x)
    ensures SegmentsMatch(p + [Lit("")], x) <==> SegmentsMatch(p, x) && |p| == |x|
    decreases |p|
  {
    assert (p + [Lit("")])[0] == p[0] && (p + [Lit("")])[1..] == p[1..] + [Lit("")];
    if |p| > 1 && |x| > 1 {
      LaterSegments(p, x);
      PatternSlashExactly(p[1..], x[1..]);
      FirstAndRest(p, x);
      FirstAndRest(p + [Lit("")], x);
    } else if |p| > 1 {
      assert x[1..] == [] && |p[1..] + [Lit("")]| > 1;
    } else if |x| > 1 {
      SlashNeedsEnd(x[1..]);
    }
  }

  /** A pattern that ends in a name matches only paths of as many segments anyway. */
  lemma {:induction false} NameFixesLength(p: seq<Segment>, x: seq<string>)
    requires EndsInName(p) && NoSlashAtEnd(x) && SegmentsMatch(p, x)
    ensures |p| == |x|
    decreases |p|
  {
    if |p| > 1 && |x| > 1 {
      LaterSegments(p, x);
      NameFixesLength(p[1..], x[1..]);
    }
  }

  /** A path that the pattern matches, segment by segment. */
  function Sample(p: seq<Segment>): (x: seq<string>)
    ensures |x| == |p| && forall i :: 0 <= i < |p| ==> x[i] == if p[i].Lit? then p[i].text else "a"
  {
    seq(|p|, i requires 0 <= i < |p| => if p[i].Lit? then p[i].text else "a")
  }

  lemma {:induction false} SampleMatches(p: seq<Segment>)
    requires p != []
    ensures SegmentsMatch(p, Sample(p)) && (WellFormed(p) ==> IsPath(Sample(p)))
    decreases |p|
  {
    assert Sample(p)[1..] == Sample(p[1..]);
    if |p| > 1 { SampleMatches(p[1..]); }
  }

  /** A `*` at the end swallows whatever follows. */
  lemma {:induction false} StarSwallowsRest(p: seq<Segment>, x: seq<string>, more: seq<string>)
    requires p != [] && p[|p| - 1] == Star && x != [] && SegmentsMatch(p, x)
    ensures SegmentsMatch(p, x + more)
    decreases |p|
  {
    assert (x + more)[1..] == x[1..] + more;
    if |p| > 1 {
      StarSwallowsRest(p[1..], x[1..], more);
    }
  }

  // ---------------------------------------------------------------- a slash at the end, on texts

  /** The text does not end in a slash, and is not empty. */
  predicate Unslashed(s: string) {
    s != "" && s[|s| - 1] != '/'
  }

  lemma SlashBehind(a: string, b: string)
    ensures a + ("/" + (b + "/")) == (a + ("/" + b)) + "/"
  {
  }

  lemma {:induction false} PathTextSlash(x: seq<string>)
    requires x != []
    ensures PathText(x + [""]) == PathText(x) + "/"
  {
    if |x| == 1 {
      assert (x + [""])[1..] == [""];
    } else {
      PathTextSlash(x[1..]);
      assert (x + [""])[1..] == x[1..] + [""];
      SlashBehind(x[0], PathText(x[1..]));
    }
  }

  lemma {:induction false} PatternTextSlash(p: seq<Segment>)
    requires p != []
    ensures PatternText(p + [Lit("")]) == PatternText(p) + "/"
  {
    if |p| == 1 {
      assert (p + [Lit("")])[1..] == [Lit("")];
    } else {
      PatternTextSlash(p[1..]);
      assert (p + [Lit("")])[1..] == p[1..] + [Lit("")];
      SlashBehind(SegmentText(p[0]), PatternText(p[1..]));
    }
  }

  lemma {:induction false} PathTextEnd(x: seq<string>)
    requires IsPath(x)
    ensures NoSlashAtEnd(x) <==> Unslashed(PathText(x))
  {
    if |x| > 1 {
      var rest := PathText(x[1..]);
      PathTextEnd(x[1..]);
      assert x[1..][|x| - 2] == x[|x| - 1];
      EndOfConcat(x[0] + "/", rest);
      assert PathText(x) == (x[0] + "/") + rest;
    }
  }

  lemma EndOfConcat(a: string, b: string)
    requires a != "" && a[|a| - 1] == '/'
    ensures Unslashed(a + b) <==> Unslashed(b)
  {
    if b == "" { assert a + b == a; }
  }

  /** Both texts through their segments, with and without a slash at the end of the path. */
  lemma WalkWithPathSlash(p: seq<Segment>, x: seq<string>)
    requires p != [] && WellFormed(p) && IsPath(x)
    ensures Matches(PatternText(p), PathText(x) + "/") <==> SegmentsMatch(p, x + [""])
  {
    PathTextSlash(x);
    WalkMatchesSegments(p, x + [""]);
  }

  lemma WalkWithPatternSlash(p: seq<Segment>, x: seq<string>)
    requires p != [] && WellFormed(p) && IsPath(x)
    ensures Matches(PatternText(p) + "/", PathText(x)) <==> SegmentsMatch(p + [Lit("")], x)
  {
    PatternTextSlash(p);
    WalkMatchesSegments(p + [Lit("")], x);
  }

  /** What a slash at the end of a path changes. */
  lemma PathSlash(p: seq<Segment>, path: string)
    requires p != [] && WellFormed(p) && Unslashed(path)
    ensures Matches(PatternText(p), path + "/") <==>
            Matches(PatternText(p), path) || (EndsInTwoSlashes(p) && Matches(PatternText(p[..|p| - 1]), path))
  {
    var x := Split(path);
    SplitJoins(path);
    PathTextEnd(x);
    WalkMatchesSegments(p, x);
    WalkWithPathSlash(p, x);
    PathSlashExactly(p, x);
    if EndsInTwoSlashes(p) { WalkMatchesSegments(p[..|p| - 1], x); }
  }

  /** What a slash at the end of a pattern changes. */
  lemma PatternSlash(p: seq<Segment>, path: string)
    requires p != [] && WellFormed(p) && Unslashed(path)
    ensures Matches(PatternText(p) + "/", path) <==> Matches(PatternText(p), path) && |p| == |Split(path)|
  {
    var x := Split(path);
    SplitJoins(path);
    PathTextEnd(x);
    WalkMatchesSegments(p, x);
    WalkWithPatternSlash(p, x);
    PatternSlashExactly(p, x);
  }

  /** If the pattern ends in two slashes, there is a path that a slash makes match. */
  lemma SlashBeforeTwoMatters(p: seq<Segment>) returns (path: string)
    requires WellFormed(p) && EndsInTwoSlashes(p)
    ensures Unslashed(path) && Matches(PatternText(p), path + "/") && !Matches(PatternText(p), path)
  {
    var q := p[..|p| - 2];
    var x := Sample(q);
    SampleMatches(q);
    PathTextEnd(x);
    path := PathText(x);
    assert p[..|p| - 1] == q + [Lit("")] && p == (q + [Lit("")]) + [Lit("")];
    PatternSlashExactly(q, x);
    PatternSlashExactly(q + [Lit("")], x);
    PathSlashExactly(p, x);
    WalkMatchesSegments(p, x);
    WalkWithPathSlash(p, x);
  }

  /** One slash at the end of the path makes no difference, for all paths, unless the pattern ends in two. */
  lemma PathSlashIgnored(p: seq<Segment>)
    requires p != [] && WellFormed(p)
    ensures (forall path :: Unslashed(path) ==> (Matches(PatternText(p), path + "/") <==> Matches(PatternText(p), path)))
            <==> !EndsInTwoSlashes(p)
  {
    forall path | Unslashed(path) && !EndsInTwoSlashes(p)
      ensures Matches(PatternText(p), path + "/") <==> Matches(PatternText(p), path)
    {
      PathSlash(p, path);
    }
    if EndsInTwoSlashes(p) {
      var path := SlashBeforeTwoMatters(p);
    }
  }

  /** The pattern ends in a name, or in two or more slashes, or is empty. */
  predicate TakesSlash(p: seq<Segment>) {
    EndsInName(p) || p == [Lit("")] || (2 <= |p| && p[|p| - 1] == Lit("") && p[|p| - 2] == Lit(""))
  }

  lemma TakesSlashFixesLength(p: seq<Segment>, x: seq<string>)
    requires TakesSlash(p) && NoSlashAtEnd(x)
    ensures SegmentsMatch(p, x) ==> |p| == |x|
  {
    if EndsInName(p) {
      if SegmentsMatch(p, x) { NameFixesLength(p, x); }
    } else if p == [Lit("")] {
      SlashNeedsEnd(x);
    } else {
      var q := p[..|p| - 1];
      assert p == q + [Lit("")] && q[|q| - 1] == Lit("");
      PatternSlashExactly(q, x);
      if |q| == 1 {
        assert q == [Lit("")];
        SlashNeedsEnd(x);
      } else {
        assert q == q[..|q| - 1] + [Lit("")];
        PatternSlashExactly(q[..|q| - 1], x);
      }
    }
  }

  /** Any other pattern matches a path of another length: one segment longer for a final `*`, one shorter for a
      pattern that ends in a slash. */
  lemma OtherLength(p: seq<Segment>) returns (x: seq<string>)
    requires p != [] && WellFormed(p) && !TakesSlash(p)
    ensures IsPath(x) && NoSlashAtEnd(x) && SegmentsMatch(p, x) && |p| != |x|
  {
    if p[|p| - 1] == Star {
      SampleMatches(p);
      StarSwallowsRest(p, Sample(p), ["a"]);
      x := Sample(p) + ["a"];
    } else {
      var q := p[..|p| - 1];
      assert p == q + [Lit("")];
      SampleMatches(q);
      PatternSlashExactly(q, Sample(q));
      x := Sample(q);
    }
  }

  /** So the slash makes it fail on that path. */
  lemma SlashMatters(p: seq<Segment>) returns (path: string)
    requires p != [] && WellFormed(p) && !TakesSlash(p)
    ensures Unslashed(path) && Matches(PatternText(p), path) && !Matches(PatternText(p) + "/", path)
  {
    var x := OtherLength(p);
    PathTextEnd(x);
    path := PathText(x);
    PatternSlashExactly(p, x);
    WalkMatchesSegments(p, x);
    WalkWithPatternSlash(p, x);
  }

  /** A slash at the end of the pattern makes no difference, for all paths, exactly for these patterns. */
  lemma PatternSlashIgnored(p: seq<Segment>)
    requires p != [] && WellFormed(p)
    ensures (forall path :: Unslashed(path) ==> (Matches(PatternText(p) + "/", path) <==> Matches(PatternText(p), path)))
            <==> TakesSlash(p)
  {
    forall path | Unslashed(path) && TakesSlash(p)
      ensures Matches(PatternText(p) + "/", path) <==> Matches(PatternText(p), path)
    {
      PatternSlash(p, path);
      SplitJoins(path);
      PathTextEnd(Split(path));
      WalkMatchesSegments(p, Split(path));
      TakesSlashFixesLength(p, Split(path));
    }
    if !TakesSlash(p) {
      var path := SlashMatters(p);
    }
  }

  /** The shortest case. */
  lemma SlashBehindStarMatters()
    ensures Matches("/*", "/a/b") && !Matches("/*/", "/a/b")
  {
    assert "/*"[1..] == "*" && "/*/"[1..] == "*/" && "/a/b"[1..] == "a/b";
    assert "*"[1..] == "" && "*/"[1..] == "/";
    assert "a/b"[1..] == "/b" && FromSlash("a/b") == "/b";
    assert "/"[1..] == "" && "/b"[1..] == "b";
    assert !Matches("", "b") && !Matches("/", "/b") && !Matches("*/", "a/b");
  }
}
