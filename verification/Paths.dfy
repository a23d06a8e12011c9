/** Paths as require.cpp handles them: `normalize`, `dirname` and the jsrc climb.

    A path's meaning is where it leads: from a directory, given as the list of names from the
    root down, it leads to another directory or file, `..` stepping up and stopping at the root. */
module Paths {
  // ----- Segments -----

  /** p.split("/"). */
  function Segments(p: string): (segs: seq<string>)
    ensures segs != []
  {
    if p == "" then [""]
    else
      var rest := Segments(p[1..]);
      if p[0] == '/' then [""] + rest else [[p[0]] + rest[0]] + rest[1..]
  }

  /** segs.join("/"). */
  function Join(segs: seq<string>): string {
    if segs == [] then "" else if |segs| == 1 then segs[0] else segs[0] + "/" + Join(segs[1..])
  }

  predicate Plain(s: string) { '/' !in s }

  predicate AllPlain(segs: seq<string>) { forall i :: 0 <= i < |segs| ==> Plain(segs[i]) }

  lemma {:induction false} SegmentsPlain(p: string)
    ensures AllPlain(Segments(p))
  {
    if p != "" {
      SegmentsPlain(p[1..]);
      var rest := Segments(p[1..]);
      assert Plain(rest[0]);
    }
  }

  lemma {:induction false} SegmentsOfPlain(s: string)
    requires Plain(s)
    ensures Segments(s) == [s]
  {
    if s != "" {
      assert s[0] in s && forall c :: c in s[1..] ==> c in s;
      SegmentsOfPlain(s[1..]);
      assert s == [s[0]] + s[1..];
    }
  }

  /** A character in front of some segments joins the first. */
  lemma Front(c: char, x: seq<string>, y: seq<string>)
    requires x != []
    ensures [[c] + (x + y)[0]] + (x + y)[1..] == ([[c] + x[0]] + x[1..]) + y
    ensures [""] + (x + y) == ([""] + x) + y
  {
    assert (x + y)[1..] == x[1..] + y;
  }

  /** A slash between two paths splits them. */
  lemma {:induction false} SegmentsOfJoined(a: string, b: string)
    ensures Segments(a + "/" + b) == Segments(a) + Segments(b)
  {
    var whole := a + "/" + b;
    if a == "" {
      assert whole[0] == '/' && whole[1..] == b;
    } else {
      SegmentsOfJoined(a[1..], b);
      assert whole[0] == a[0] && whole[1..] == a[1..] + "/" + b;
      Front(a[0], Segments(a[1..]), Segments(b));
    }
  }

  /** Splitting undoes joining. */
  lemma {:induction false} SegmentsUndoJoin(segs: seq<string>)
    requires segs != [] && AllPlain(segs)
    ensures Segments(Join(segs)) == segs
  {
    SegmentsOfPlain(segs[0]);
    if |segs| > 1 {
      SegmentsOfJoined(segs[0], Join(segs[1..]));
      SegmentsUndoJoin(segs[1..]);
    }
  }

  // ----- Where a path leads -----

  predicate IsAbs(p: string) { p != "" && p[0] == '/' }

  predicate IsName(s: string) { Plain(s) && s != "" && s != "." && s != ".." }

  predicate AllNames(dir: seq<string>) { forall i :: 0 <= i < |dir| ==> IsName(dir[i]) }

  function Move(dir: seq<string>, s: string): seq<string> {
    if s == "" || s == "." then dir
    else if s == ".." then (if dir == [] then [] else dir[..|dir| - 1])
    else dir + [s]
  }

  function Go(dir: seq<string>, segs: seq<string>): seq<string>
    decreases segs
  {
    if segs == [] then dir else Go(Move(dir, segs[0]), segs[1..])
  }

  /** The place p leads to from `dir`. */
  function Follow(dir: seq<string>, p: string): seq<string> {
    Go(if IsAbs(p) then [] else dir, Segments(p))
  }

  lemma {:induction false} GoConcat(dir: seq<string>, a: seq<string>, b: seq<string>)
    ensures Go(dir, a + b) == Go(Go(dir, a), b)
    decreases a
  {
    if a == [] {
      assert a + b == b;
    } else {
      assert (a + b)[1..] == a[1..] + b;
      GoConcat(Move(dir, a[0]), a[1..], b);
    }
  }

  // ----- The walk a path spells -----

  /** How far up a relative path goes, and the names it then goes down by. */
  datatype Walk = Walk(abs: bool, ups: nat, names: seq<string>) {
    predicate Valid() { AllNames(names) && (abs ==> ups == 0) }

    function Step(s: string): (w: Walk)
      requires Valid() && Plain(s)
      ensures w.Valid() && w.abs == abs
    {
      if s == "" || s == "." then this
      else if s == ".." then
        if names != [] then this.(names := names[..|names| - 1])
        else if abs then this else this.(ups := ups + 1)
      else this.(names := names + [s])
    }

    /** The segments of the normal form. */
    function Spelled(): (segs: seq<string>)
      requires Valid()
      ensures |segs| == ups + |names| && AllPlain(segs)
      ensures forall i :: 0 <= i < |segs| ==> segs[i] == if i < ups then ".." else names[i - ups]
    {
      seq(ups, _ => "..") + names
    }

    function Render(): string
      requires Valid()
    {
      (if abs then "/" else "") + Join(Spelled())
    }

    /** Where the walk ends when it starts at `dir`. */
    function From(dir: seq<string>): seq<string> {
      (if abs then [] else if ups <= |dir| then dir[..|dir| - ups] else []) + names
    }
  }

  function Steps(w: Walk, segs: seq<string>): (r: Walk)
    requires w.Valid() && AllPlain(segs)
    ensures r.Valid() && r.abs == w.abs
    decreases segs
  {
    if segs == [] then w else Steps(w.Step(segs[0]), segs[1..])
  }

  function WalkOf(p: string): (w: Walk)
    ensures w.Valid() && w.abs == IsAbs(p)
  {
    SegmentsPlain(p);
    Steps(Walk(IsAbs(p), 0, []), Segments(p))
  }

  /** `normalize`. */
  function Normalize(p: string): string { WalkOf(p).Render() }

  lemma StepIsMove(w: Walk, s: string, dir: seq<string>)
    requires w.Valid() && Plain(s)
    ensures w.Step(s).From(dir) == Move(w.From(dir), s)
  {
  }

  lemma {:induction false} StepsAreGo(w: Walk, segs: seq<string>, dir: seq<string>)
    requires w.Valid() && AllPlain(segs)
    ensures Steps(w, segs).From(dir) == Go(w.From(dir), segs)
    decreases segs
  {
    if segs != [] {
      StepIsMove(w, segs[0], dir);
      StepsAreGo(w.Step(segs[0]), segs[1..], dir);
    }
  }

  /** The walk of a path goes where the path leads, from everywhere. */
  lemma WalkLeads(p: string, dir: seq<string>)
    ensures WalkOf(p).From(dir) == Follow(dir, p)
  {
    var start := Walk(IsAbs(p), 0, []);
    SegmentsPlain(p);
    assert start.From(dir) == if IsAbs(p) then [] else dir;
    StepsAreGo(start, Segments(p), dir);
  }

  // ----- A normal form spells its own walk -----

  lemma {:induction false} ClimbSteps(w: Walk, n: nat)
    requires w.Valid() && !w.abs && w.names == []
    ensures AllPlain(seq(n, _ => "..")) && Steps(w, seq(n, _ => "..")) == w.(ups := w.ups + n)
    decreases n
  {
    var dots := seq(n, _ => "..");
    if n > 0 {
      assert dots[1..] == seq(n - 1, _ => "..");
      ClimbSteps(w.Step(".."), n - 1);
    }
  }

  lemma {:induction false} DescendSteps(w: Walk, names: seq<string>)
    requires w.Valid() && AllNames(names)
    ensures Steps(w, names) == w.(names := w.names + names)
    decreases names
  {
    if names == [] {
      assert w.names + [] == w.names;
    } else {
      DescendSteps(w.Step(names[0]), names[1..]);
      assert w.names + [names[0]] + names[1..] == w.names + names;
    }
  }

  lemma {:induction false} StepsConcat(w: Walk, a: seq<string>, b: seq<string>)
    requires w.Valid() && AllPlain(a) && AllPlain(b)
    ensures AllPlain(a + b) && Steps(w, a + b) == Steps(Steps(w, a), b)
    decreases a
  {
    if a == [] {
      assert a + b == b;
    } else {
      assert (a + b)[1..] == a[1..] + b;
      StepsConcat(w.Step(a[0]), a[1..], b);
    }
  }

  lemma SpelledSteps(w: Walk)
    requires w.Valid()
    ensures Steps(Walk(w.abs, 0, []), w.Spelled()) == w
  {
    var start, dots := Walk(w.abs, 0, []), seq(w.ups, _ => "..");
    StepsConcat(start, dots, w.names);
    if w.abs {
      assert dots == [];
    } else {
      ClimbSteps(start, w.ups);
    }
    DescendSteps(start.(ups := w.ups), w.names);
  }

  /** The segments of a rendered walk, after the leading slash of an absolute one. */
  lemma RenderedSegments(w: Walk)
    requires w.Valid()
    ensures IsAbs(w.Render()) == w.abs
    ensures Segments(w.Render()) == (if w.abs then [""] else []) + (if w.Spelled() == [] then [""] else w.Spelled())
  {
    var segs := w.Spelled();
    if segs != [] {
      SegmentsUndoJoin(segs);
      assert segs[0] != "" && Join(segs)[0] == segs[0][0];
      assert segs[0][0] in segs[0];
    }
    if w.abs {
      assert w.Render() == "" + "/" + Join(segs);
      SegmentsOfJoined("", Join(segs));
    } else {
      assert w.Render() == Join(segs);
    }
  }

  lemma WalkOfRender(w: Walk)
    requires w.Valid()
    ensures WalkOf(w.Render()) == w
  {
    var start, segs, lead := Walk(w.abs, 0, []), w.Spelled(), if w.abs then [""] else [];
    RenderedSegments(w);
    SpelledSteps(w);
    var body := if segs == [] then [""] else segs;
    assert Steps(start, [""]) == start by { assert [""][1..] == []; }
    StepsConcat(start, lead, body);
    assert Steps(start, lead) == start;
  }

  // ----- What `normalize` promises -----

  lemma NormalizeIsIdempotent(p: string)
    ensures Normalize(Normalize(p)) == Normalize(p) && IsAbs(Normalize(p)) == IsAbs(p)
  {
    WalkOfRender(WalkOf(p));
    RenderedSegments(WalkOf(p));
  }

  /** The normal form leads where the path did. */
  lemma NormalizeKeepsPlace(p: string, dir: seq<string>)
    ensures Follow(dir, Normalize(p)) == Follow(dir, p)
  {
    WalkOfRender(WalkOf(p));
    WalkLeads(p, dir);
    WalkLeads(Normalize(p), dir);
  }

  /** No empty or "." segment, and ".." only in a run at the head of a relative path. */
  ghost predicate Clean(segs: seq<string>, abs: bool) {
    && (forall i :: 0 <= i < |segs| ==> segs[i] != "" && segs[i] != ".")
    && (forall i, j :: 0 <= j <= i < |segs| && segs[i] == ".." ==> segs[j] == ".." && !abs)
  }

  lemma SpelledIsClean(w: Walk)
    requires w.Valid()
    ensures Clean(w.Spelled(), w.abs)
  {
  }

  /** A rendered walk, less the slash of an absolute one. */
  function Body(r: string): string { if IsAbs(r) then r[1..] else r }

  lemma BodyOfRender(w: Walk)
    requires w.Valid()
    ensures Body(w.Render()) == Join(w.Spelled())
  {
    RenderedSegments(w);
    assert w.abs ==> w.Render()[1..] == Join(w.Spelled());
  }

  /** The normal form is clean.  (That of a path that goes nowhere is empty.) */
  lemma NormalizeIsClean(p: string)
    ensures var r := Normalize(p); Body(r) != "" ==> Clean(Segments(Body(r)), IsAbs(p))
  {
    var w := WalkOf(p);
    BodyOfRender(w);
    SpelledIsClean(w);
    if w.Spelled() != [] {
      SegmentsUndoJoin(w.Spelled());
    }
  }

  /** `count` times the same name. */
  function Deep(name: string, count: nat): (dir: seq<string>)
    requires IsName(name)
    ensures |dir| == count && AllNames(dir) && forall i :: 0 <= i < count ==> dir[i] == name
  {
    seq(count, _ => name)
  }

  /** How much of a deep starting directory is left in the place a walk ends. */
  function Kept(w: Walk, depth: nat): (n: nat)
    requires w.ups < depth
    ensures n == 0 <==> w.abs
  {
    if w.abs then 0 else depth - w.ups
  }

  /** A walk that keeps more of its start than another ends elsewhere, from one of two starts. */
  lemma KeepsMore(v: Walk, w: Walk, depth: nat)
    requires v.Valid() && w.Valid() && v.ups < depth && w.ups < depth && Kept(v, depth) < Kept(w, depth)
    ensures v.From(Deep("a", depth)) != w.From(Deep("a", depth)) || v.From(Deep("b", depth)) != w.From(Deep("b", depth))
  {
    var i := Kept(v, depth);
    assert w.From(Deep("a", depth))[i] == "a" && w.From(Deep("b", depth))[i] == "b";
    if v.names != [] {
      assert v.From(Deep("a", depth))[i] == v.names[0] == v.From(Deep("b", depth))[i];
    }
  }

  /** Two walks that end at the same place from every directory are the same walk. */
  lemma WalksDiffer(v: Walk, w: Walk)
    requires v.Valid() && w.Valid()
    requires forall dir :: AllNames(dir) ==> v.From(dir) == w.From(dir)
    ensures v == w
  {
    var depth := 1 + v.ups + w.ups;
    var aa, bb := Deep("a", depth), Deep("b", depth);
    assert v.From(aa) == w.From(aa) && v.From(bb) == w.From(bb);
    if Kept(v, depth) < Kept(w, depth) {
      KeepsMore(v, w, depth);
    } else if Kept(w, depth) < Kept(v, depth) {
      KeepsMore(w, v, depth);
    } else {
      var k := Kept(v, depth);
      assert v.names == v.From(aa)[k..] && w.names == w.From(aa)[k..];
    }
  }

  /** Normal forms are equal exactly for the paths that lead to the same place from every
      directory. */
  lemma NormalizeDecidesPlace(p: string, q: string)
    ensures Normalize(p) == Normalize(q) <==> forall dir :: AllNames(dir) ==> Follow(dir, p) == Follow(dir, q)
  {
    if Normalize(p) == Normalize(q) {
      forall dir | AllNames(dir) ensures Follow(dir, p) == Follow(dir, q) {
        NormalizeKeepsPlace(p, dir);
        NormalizeKeepsPlace(q, dir);
      }
    }
    if forall dir :: AllNames(dir) ==> Follow(dir, p) == Follow(dir, q) {
      forall dir | AllNames(dir) ensures WalkOf(p).From(dir) == WalkOf(q).From(dir) {
        WalkLeads(p, dir);
        WalkLeads(q, dir);
      }
      WalksDiffer(WalkOf(p), WalkOf(q));
    }
  }

  /** A relative path behind a base leads where it leads from the base's place. */
  lemma FollowJoined(dir: seq<string>, a: string, b: string)
    requires a != "" && !IsAbs(b)
    ensures Follow(dir, a + "/" + b) == Follow(Follow(dir, a), b)
  {
    SegmentsOfJoined(a, b);
    GoConcat(if IsAbs(a) then [] else dir, Segments(a), Segments(b));
  }

  /** A relative path may be normalized before or after it is put behind its base. */
  lemma NormalizeInside(a: string, b: string)
    requires a != "" && !IsAbs(b)
    ensures Normalize(a + "/" + b) == Normalize(a + "/" + Normalize(b))
  {
    NormalizeIsIdempotent(b);
    forall dir | AllNames(dir) ensures Follow(dir, a + "/" + b) == Follow(dir, a + "/" + Normalize(b)) {
      FollowJoined(dir, a, b);
      FollowJoined(dir, a, Normalize(b));
      NormalizeKeepsPlace(b, Follow(dir, a));
    }
    NormalizeDecidesPlace(a + "/" + b, a + "/" + Normalize(b));
  }

  /** What a segment does to the one list the code keeps. */
  lemma StepOnList(w: Walk, s: string)
    requires w.Valid() && Plain(s)
    ensures var out := w.Spelled();
      w.Step(s).Spelled() ==
      if s == "" || s == "." then out
      else if s != ".." then out + [s]
      else if out != [] && out[|out| - 1] != ".." then out[..|out| - 1]
      else if !w.abs then out + [".."] else out
  {
    var out := w.Spelled();
    if s == ".." && w.names == [] {
      assert out != [] ==> out[|out| - 1] == "..";
    } else if s == ".." {
      assert out[|out| - 1] == w.names[|w.names| - 1];
    }
  }

  /** `normalize` as it runs: one list, popped and pushed. */
  method NormalizePath(p: string) returns (r: string)
    ensures r == Normalize(p)
  {
    var abs, out, segs := IsAbs(p), [], Segments(p);
    SegmentsPlain(p);
    ghost var w := Walk(abs, 0, []);
    for i := 0 to |segs|
      invariant w.Valid() && w.abs == abs && out == w.Spelled()
      invariant Steps(w, segs[i..]) == WalkOf(p)
    {
      var s := segs[i];
      StepOnList(w, s);
      w := w.Step(s);
      if s == "" || s == "." {
        continue;
      }
      if s == ".." {
        if out != [] && out[|out| - 1] != ".." {
          out := out[..|out| - 1];
        } else if !abs {
          out := out + [".."];
        }
      } else {
        out := out + [s];
      }
    }
    r := (if abs then "/" else "") + Join(out);
  }
}
