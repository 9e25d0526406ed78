/** `print_all_requirements` (merit-badge-initializer.py): a pre-order walk that prints each
    requirement at the current indent, bumps the global `count`, and walks the children one
    tab deeper. The printed text is reduced to the indent and the two printed values. */
module Traversal {

  import opened Wrappers
  import opened JsonData
  import opened Curriculum

  /** One printed requirement: its indent and the identifier and description shown. */
  datatype Line = Line(indent: string, idnf: Json, desc: Json)

  /** The state after a walk: the global counter, the lines printed, and whether the walk
      stopped on an AttributeError (reading a field of a `None` slot). */
  datatype Run = Run(count: int, lines: seq<Line>, crashed: bool)

  /** The indent `depth` levels below `indent`: one tab appended per level, as the
      recursive call does. */
  function Indent(indent: string, depth: nat): string
    decreases depth
  {
    if depth == 0 then indent else Indent(indent + "\t", depth - 1)
  }

  /** The indent of nesting level `depth` is the base indent followed by exactly `depth`
      tabs. */
  lemma {:induction false} IndentIsTabs(indent: string, depth: nat)
    ensures |Indent(indent, depth)| == |indent| + depth
    ensures Indent(indent, depth)[..|indent|] == indent
    ensures forall k :: |indent| <= k < |indent| + depth ==> Indent(indent, depth)[k] == '\t'
    decreases depth
  {
    if depth > 0 {
      IndentIsTabs(indent + "\t", depth - 1);
      assert (indent + "\t")[..|indent|] == indent;
      assert Indent(indent, depth)[..|indent| + 1] == indent + "\t";
      assert Indent(indent, depth)[..|indent|] == Indent(indent, depth)[..|indent| + 1][..|indent|];
    }
  }

  /** The line a pre-order entry is printed as, under a base indent. */
  function Render(indent: string, e: Entry): Line
  {
    Line(Indent(indent, e.depth), e.node.idnf, e.node.desc)
  }

  function RenderAll(indent: string, es: seq<Entry>): seq<Line>
  {
    if |es| == 0 then [] else [Render(indent, es[0])] + RenderAll(indent, es[1..])
  }

  function PrintAll(f: Forest, indent: string, count: int): (run: Run)
    decreases ForestSize(f), |f|
    ensures run.count == count + |run.lines|
    ensures run.crashed <==> !Complete(f)
    ensures !run.crashed ==> |run.lines| == ForestSize(f)
  {
    if |f| == 0 then Run(count, [], false)
    else
      match f[0]
      case None => Run(count, [], true)
      case Some(r) =>
        ForestSizeSplit(f);
        CompleteSplit(f);
        var line := Line(indent, r.idnf, r.desc);
        var inner :=
          if |r.children| > 0 then PrintAll(r.children, indent + "\t", count + 1)
          else Run(count + 1, [], false);
        if inner.crashed then Run(inner.count, [line] + inner.lines, true)
        else
          var rest := PrintAll(f[1..], indent, inner.count);
          Run(rest.count, [line] + inner.lines + rest.lines, rest.crashed)
  }

  lemma {:induction false} RenderAllAppend(indent: string, a: seq<Entry>, b: seq<Entry>)
    ensures RenderAll(indent, a + b) == RenderAll(indent, a) + RenderAll(indent, b)
    decreases |a|
  {
    if |a| == 0 {
      assert a + b == b;
    } else {
      assert (a + b)[0] == a[0];
      assert (a + b)[1..] == a[1..] + b;
      RenderAllAppend(indent, a[1..], b);
    }
  }

  /** One level deeper under an indent prints like the same level under one more tab. */
  lemma {:induction false} RenderShift(f: Forest, indent: string, depth: nat)
    ensures RenderAll(indent, Flatten(f, depth + 1)) == RenderAll(indent + "\t", Flatten(f, depth))
    decreases f, 1
  {
    if |f| > 0 {
      RenderAllAppend(indent, FlattenNode(f[0], depth + 1), Flatten(f[1..], depth + 1));
      RenderAllAppend(indent + "\t", FlattenNode(f[0], depth), Flatten(f[1..], depth));
      RenderShiftNode(f[0], indent, depth);
      RenderShift(f[1..], indent, depth);
    }
  }

  lemma {:induction false} RenderShiftNode(o: Option<Requirement>, indent: string, depth: nat)
    ensures RenderAll(indent, FlattenNode(o, depth + 1)) == RenderAll(indent + "\t", FlattenNode(o, depth))
    decreases o, 0
  {
    match o
    case None =>
    case Some(r) =>
      RenderAllAppend(indent, [Entry(depth + 1, r)], Flatten(r.children, depth + 2));
      RenderAllAppend(indent + "\t", [Entry(depth, r)], Flatten(r.children, depth + 1));
      RenderShift(r.children, indent, depth + 1);
  }

  /** Rendering distributes over a three-way concatenation. */
  lemma RenderSplit(indent: string, a: seq<Entry>, b: seq<Entry>, c: seq<Entry>)
    ensures RenderAll(indent, a + b + c) == RenderAll(indent, a) + RenderAll(indent, b) + RenderAll(indent, c)
  {
    RenderAllAppend(indent, a + b, c);
    RenderAllAppend(indent, a, b);
  }

  /** The printed form of a forest whose first slot holds a node: that node's line, its
      subtree one tab deeper, then the later siblings. */
  lemma RenderFirst(f: Forest, indent: string)
    requires |f| > 0 && f[0].Some?
    ensures RenderAll(indent, Flatten(f, 0)) ==
              [Line(indent, f[0].value.idnf, f[0].value.desc)]
              + RenderAll(indent + "\t", Flatten(f[0].value.children, 0))
              + RenderAll(indent, Flatten(f[1..], 0))
  {
    var r := f[0].value;
    FlattenFirst(f, 0);
    RenderSplit(indent, [Entry(0, r)], Flatten(r.children, 1), Flatten(f[1..], 0));
    RenderShift(r.children, indent, 0);
    assert RenderAll(indent, [Entry(0, r)]) == [Line(indent, r.idnf, r.desc)];
  }

  lemma PrefixAppend<T>(x: T, a: seq<T>, b: seq<T>, c: seq<T>, d: seq<T>)
    ensures a <= b ==> [x] + a <= [x] + b + c
    ensures a == b && d <= c ==> [x] + a + d <= [x] + b + c
  {
    if a <= b {
      assert ([x] + a) == ([x] + b + c)[..|a| + 1];
    }
    if a == b && d <= c {
      assert ([x] + a + d) == ([x] + b + c)[..|a| + 1 + |d|];
    }
  }

  /** The lines printed are the pre-order listing of the forest, each node indented by one
      tab per nesting level: all of it when no `None` slot is met, and a prefix of it when
      the walk stops on one. */
  lemma {:induction false} PrintAllIsPreOrder(f: Forest, indent: string, count: int)
    ensures PrintAll(f, indent, count).lines <= RenderAll(indent, Flatten(f, 0))
    ensures !PrintAll(f, indent, count).crashed ==>
              PrintAll(f, indent, count).lines == RenderAll(indent, Flatten(f, 0))
    decreases ForestSize(f), |f|
  {
    if |f| > 0 && f[0].Some? {
      var r := f[0].value;
      ForestSizeSplit(f);
      RenderFirst(f, indent);
      var line := Line(indent, r.idnf, r.desc);
      var below := RenderAll(indent + "\t", Flatten(r.children, 0));
      var after := RenderAll(indent, Flatten(f[1..], 0));
      var inner :=
        if |r.children| > 0 then PrintAll(r.children, indent + "\t", count + 1)
        else Run(count + 1, [], false);
      if |r.children| > 0 {
        PrintAllIsPreOrder(r.children, indent + "\t", count + 1);
      }
      if !inner.crashed {
        var rest := PrintAll(f[1..], indent, inner.count);
        PrintAllIsPreOrder(f[1..], indent, inner.count);
        PrefixAppend(line, inner.lines, below, after, rest.lines);
      } else {
        PrefixAppend(line, inner.lines, below, after, []);
      }
    }
  }

  /** The slots of a forest in pre-order: `true` for a requirement object, `false` for a
      `None` slot (which has nothing below it). */
  function SlotKinds(f: Forest): seq<bool>
  {
    if |f| == 0 then [] else SlotKindsNode(f[0]) + SlotKinds(f[1..])
  }

  function SlotKindsNode(o: Option<Requirement>): seq<bool>
  {
    match o
    case None => [false]
    case Some(r) => [true] + SlotKinds(r.children)
  }

  /** How many requirement objects the pre-order meets before its first `None` slot. */
  function NodesBeforeGap(s: seq<bool>): nat
  {
    if |s| == 0 || !s[0] then 0 else 1 + NodesBeforeGap(s[1..])
  }

  lemma {:induction false} NodesBeforeGapAppend(a: seq<bool>, b: seq<bool>)
    ensures false in a ==> NodesBeforeGap(a + b) == NodesBeforeGap(a)
    ensures false !in a ==> NodesBeforeGap(a + b) == |a| + NodesBeforeGap(b)
    decreases |a|
  {
    if |a| == 0 {
      assert a + b == b;
    } else {
      assert (a + b)[1..] == a[1..] + b;
      NodesBeforeGapAppend(a[1..], b);
    }
  }

  /** The walk prints one line per requirement object met before the first `None` slot,
      and stops exactly when there is such a slot. */
  lemma {:induction false} PrintAllCountsToGap(f: Forest, indent: string, count: int)
    ensures |PrintAll(f, indent, count).lines| == NodesBeforeGap(SlotKinds(f))
    ensures PrintAll(f, indent, count).crashed <==> false in SlotKinds(f)
    decreases ForestSize(f), |f|
  {
    if |f| > 0 {
      ForestSizeSplit(f);
      match f[0]
      case None =>
        assert SlotKinds(f) == [false] + SlotKinds(f[1..]);
      case Some(r) =>
        var kc, kr := SlotKinds(r.children), SlotKinds(f[1..]);
        assert SlotKinds(f) == [true] + (kc + kr);
        assert ([true] + (kc + kr))[1..] == kc + kr;
        NodesBeforeGapAppend(kc, kr);
        NodesBeforeGapAppend(kc, []);
        assert kc + [] == kc;
        var inner :=
          if |r.children| > 0 then PrintAll(r.children, indent + "\t", count + 1)
          else Run(count + 1, [], false);
        if |r.children| > 0 {
          PrintAllCountsToGap(r.children, indent + "\t", count + 1);
        }
        if !inner.crashed {
          PrintAllCountsToGap(f[1..], indent, inner.count);
        }
    }
  }

  /** What a walk prints, crash or not: exactly the pre-order listing up to the first `None`
      slot, each node indented by one tab per nesting level. */
  lemma PrintAllStopsAtFirstGap(f: Forest, indent: string, count: int)
    ensures NodesBeforeGap(SlotKinds(f)) <= |RenderAll(indent, Flatten(f, 0))|
    ensures PrintAll(f, indent, count).lines ==
              RenderAll(indent, Flatten(f, 0))[..NodesBeforeGap(SlotKinds(f))]
  {
    PrintAllIsPreOrder(f, indent, count);
    PrintAllCountsToGap(f, indent, count);
  }

  /** The two ways of saying "no `None` slot anywhere" agree. */
  lemma CompleteIffNoGap(f: Forest)
    ensures Complete(f) <==> false !in SlotKinds(f)
  {
    PrintAllCountsToGap(f, "", 0);
  }
}
