/** The spans a thread has open.  Their ids are kept for the sixteen outermost levels only. */
module SpanContext {
  import opened Basics

  const MAX_DEPTH: nat := 16

  datatype Event = Start(id: string) | End

  /** The parent a new span is given when `open` are open, outermost first. */
  function Parent(open: seq<string>): Option<string> {
    if 0 < |open| < MAX_DEPTH then Some(open[|open| - 1]) else None
  }

  function Apply(open: seq<string>, ev: Event): seq<string> {
    match ev
    case Start(id) => open + [id]
    case End => if open == [] then [] else open[..|open| - 1]
  }

  class Context {
    const spanIds: array<string>
    var depth: nat

    /** The ids of all open spans. */
    ghost var open: seq<string>

    ghost predicate Valid()
      reads this, spanIds
    {
      spanIds.Length == MAX_DEPTH && depth == |open| && forall i :: 0 <= i < depth && i < MAX_DEPTH ==> spanIds[i] == open[i]
    }

    constructor ()
      ensures Valid() && fresh(spanIds) && open == []
    {
      spanIds := new string[MAX_DEPTH];
      depth, open := 0, [];
    }

    /** A new trace on this thread. */
    method InitTrace()
      requires Valid()
      modifies this`depth, this`open
      ensures Valid() && open == []
    {
      depth, open := 0, [];
    }

    method StartSpan(id: string) returns (parent: Option<string>)
      requires Valid()
      modifies this`depth, this`open, spanIds
      ensures Valid() && open == old(open) + [id] == Apply(old(open), Start(id)) && parent == Parent(old(open))
      ensures parent.Some? <==> 1 <= |old(open)| <= 15
      ensures parent.Some? ==> old(open) == old(open)[..|old(open)| - 1] + [parent.value]
    {
      parent := None;
      if 0 < depth && depth < MAX_DEPTH {
        parent := Some(spanIds[depth - 1]);
      }
      if depth < MAX_DEPTH {
        spanIds[depth] := id;
      }
      depth, open := depth + 1, open + [id];
    }

    method EndSpan()
      requires Valid()
      modifies this`depth, this`open
      ensures Valid() && open == Apply(old(open), End)
      ensures if old(open) == [] then open == [] else exists id :: old(open) == open + [id]
    {
      if depth > 0 {
        assert open == open[..depth - 1] + [open[depth - 1]];
        depth, open := depth - 1, open[..depth - 1];
      }
    }
  }

  // --------------------------------------------------------------------------- nesting

  function After(open: seq<string>, evs: seq<Event>): seq<string>
    decreases |evs|
  {
    if evs == [] then open else Apply(After(open, evs[..|evs| - 1]), evs[|evs| - 1])
  }

  /** Starts less ends. */
  function Balance(evs: seq<Event>): int {
    if evs == [] then 0 else Balance(evs[..|evs| - 1]) + if evs[|evs| - 1].Start? then 1 else -1
  }

  /** No end without a start of its own before it. */
  ghost predicate Nested(evs: seq<Event>) {
    forall i :: 0 <= i <= |evs| ==> 0 <= Balance(evs[..i])
  }

  /** Whatever opens and closes inside a span, however deep, leaves the spans around it open. */
  lemma {:induction false} InnerSpansKeepOuter(open: seq<string>, evs: seq<Event>)
    requires Nested(evs)
    ensures open <= After(open, evs) && |After(open, evs)| == |open| + Balance(evs)
    decreases |evs|
  {
    if evs != [] {
      var n := |evs| - 1;
      forall i | 0 <= i <= n ensures 0 <= Balance(evs[..n][..i]) {
        assert evs[..n][..i] == evs[..i];
        assert 0 <= Balance(evs[..i]);
      }
      InnerSpansKeepOuter(open, evs[..n]);
      assert evs[..|evs|] == evs;
      assert 0 <= Balance(evs[..|evs|]);
    }
  }

  /** A span started after complete inner spans gets the parent it would have got without them; that is the
      innermost open span exactly below the sixteenth level. */
  lemma SiblingsShareParent(open: seq<string>, evs: seq<Event>)
    requires Nested(evs) && Balance(evs) == 0 && open != []
    ensures Parent(After(open, evs)) == Parent(open)
    ensures Parent(After(open, evs)) == Some(open[|open| - 1]) <==> |open| < MAX_DEPTH
  {
    InnerSpansKeepOuter(open, evs);
  }

  /** A span started directly inside another, after whatever complete spans came before it there, has that one as
      its parent, as long as that one was opened below the fifteenth level. */
  lemma ParentIsEnclosing(open: seq<string>, id: string, evs: seq<Event>)
    requires Nested(evs) && Balance(evs) == 0
    ensures Parent(After(open + [id], evs)) == if |open| < 15 then Some(id) else None
  {
    InnerSpansKeepOuter(open + [id], evs);
  }

  /** A span started when all earlier ones have been closed has no parent. */
  lemma RootHasNoParent(evs: seq<Event>)
    requires Nested(evs) && Balance(evs) == 0
    ensures Parent(After([], evs)) == None
  {
    InnerSpansKeepOuter([], evs);
  }
}
