/** What a spec means: which are paths, what is tried for the others, and where the search for those
    looks. */
module Specs {
  import opened Paths
  import opened Resolver
  import opened Wrappers

  // ----- Where a path leads -----

  /** A segment by itself: nothing and a dot stay, two dots go up but not above the root, a name goes
      down. */
  lemma FollowOne(dir: seq<string>, s: string)
    requires Plain(s)
    ensures Follow(dir, s) ==
      if s == "" || s == "." then dir
      else if s == ".." then (if dir == [] then [] else dir[..|dir| - 1])
      else dir + [s]
  {
    SegmentsOfPlain(s);
    assert Go(dir, [s]) == Go(Move(dir, s), []) by {
      assert [s][1..] == [];
    }
  }

  /** An absolute path leads from everywhere to where it leads from the root; after a slash the rest
      is followed from where the first part leads. */
  lemma FollowOn(dir: seq<string>, a: string, b: string)
    ensures Follow(dir, "/" + b) == Follow([], b)
    ensures a != "" && !IsAbs(b) ==> Follow(dir, a + "/" + b) == Follow(Follow(dir, a), b)
  {
    assert "" + "/" + b == "/" + b;
    SegmentsOfJoined("", b);
    SegmentsOfPlain("");
    GoConcat([], [""], Segments(b));
    assert Go([], [""]) == Go(Move([], ""), []) by {
      assert [""][1..] == [];
    }
    if a != "" && !IsAbs(b) {
      FollowJoined(dir, a, b);
    }
  }

  /** The directory of a path is what stands before its last slash: "/" if that is nothing, "." if
      there is no slash. */
  lemma DirnameIs(a: string, s: string)
    requires Plain(s)
    ensures Dirname(a + "/" + s) == (if a == "" then "/" else a) && Dirname(s) == "."
  {
    LastSlashBefore(a, s);
    assert (a + "/" + s)[..|a|] == a;
    NoSlash(s);
  }

  lemma {:induction false} NoSlash(s: string)
    requires Plain(s)
    ensures LastSlash(s) == -1
  {
    if s != "" {
      assert s[|s| - 1] in s && forall c :: c in s[..|s| - 1] ==> c in s;
      NoSlash(s[..|s| - 1]);
    }
  }

  /** What a system call sees of a path is the place it leads to from the working directory. */
  lemma SeenLeads(cwd: AbsPath, p: string)
    ensures Follow([], Seen(cwd, p)) == Follow(Follow([], cwd), p)
  {
    if !IsAbs(p) {
      FollowJoined([], cwd, p);
    }
  }

  // ----- Which specs are paths -----

  /** Joining undoes splitting. */
  lemma {:induction false} SegmentsJoin(p: string)
    ensures Join(Segments(p)) == p
  {
    if p != "" {
      var rest := Segments(p[1..]);
      SegmentsJoin(p[1..]);
      assert p == [p[0]] + p[1..];
      if p[0] == '/' {
        assert ([""] + rest)[1..] == rest;
      } else {
        assert ([[p[0]] + rest[0]] + rest[1..])[1..] == rest[1..];
      }
    }
  }

  /** What stands before the first slash. */
  lemma FirstSegment(p: string, s: string)
    requires Plain(s)
    ensures s + "/" <= p <==> |Segments(p)| > 1 && Segments(p)[0] == s
  {
    if |Segments(p)| > 1 && Segments(p)[0] == s {
      SegmentsJoin(p);
      assert p == s + "/" + Join(Segments(p)[1..]);
    }
    if s + "/" <= p {
      assert p == s + "/" + p[|s| + 1..];
      SegmentsOfJoined(s, p[|s| + 1..]);
      SegmentsOfPlain(s);
    }
  }

  /** A spec is a path if it is absolute or its first segment is a dot or two, with a slash behind. */
  lemma ExplicitIff(spec: string)
    ensures Explicit(spec) <==>
      IsAbs(spec) || (|Segments(spec)| > 1 && (Segments(spec)[0] == "." || Segments(spec)[0] == ".."))
  {
    assert "." + "/" == "./" && ".." + "/" == "../";
    FirstSegment(spec, ".");
    FirstSegment(spec, "..");
  }

  // ----- What is tried -----

  /** `p` is a file and nothing before it in the list is. */
  ghost predicate FirstOf(w: World, cwd: string, ps: seq<string>, p: string) {
    exists i :: 0 <= i < |ps| && ps[i] == p && IsFile(w, cwd, p) && forall j :: 0 <= j < i ==> !IsFile(w, cwd, ps[j])
  }

  /** A spec that is a path: the place asked for, then the script beside it, then its index.js,
      whatever the jsrc stack holds, which it leaves alone. */
  lemma PathResolves(w: World, s: State, spec: string, base: string, p: string)
    requires IsAbs(spec) || (|Segments(spec)| > 1 && (Segments(spec)[0] == "." || Segments(spec)[0] == ".."))
    ensures var n := Normalize(if IsAbs(spec) then spec else base + "/" + spec);
      Resolve(w, s, spec, base) == Some(p) <==> FirstOf(w, s.cwd, [n, n + ".js", n + "/index.js"], p)
    ensures Pinned(w, s, spec, base) == s
  {
    ExplicitIff(spec);
    FirstFileIsFirst(w, s.cwd, Candidates(spec, base, StackOf(s)), p);
  }

  /** The paths tried for a bareword, in order. */
  function Tried(dirs: seq<string>, spec: string): (ps: seq<string>)
    ensures |ps| == 2 * |dirs|
  {
    seq(2 * |dirs|, i requires 0 <= i < 2 * |dirs| =>
      if i % 2 == 0 then dirs[i / 2] + "/" + spec else dirs[i / 2] + "/" + spec + ".js")
  }

  lemma TriedAt(dirs: seq<string>, spec: string, i: nat)
    requires i < 2 * |dirs|
    ensures |Barewords(dirs, spec)| == 2 * |dirs| && Barewords(dirs, spec)[i] == Tried(dirs, spec)[i]
  {
    BarewordOrder(dirs, spec, i / 2);
    assert i == 2 * (i / 2) || i == 2 * (i / 2) + 1;
  }

  lemma TriedAre(dirs: seq<string>, spec: string)
    ensures Barewords(dirs, spec) == Tried(dirs, spec)
  {
    if dirs != [] {
      TriedAt(dirs, spec, 0);
    }
    forall i: nat | i < 2 * |dirs| ensures Barewords(dirs, spec)[i] == Tried(dirs, spec)[i] {
      TriedAt(dirs, spec, i);
    }
  }

  /** Any other spec: in each directory of the stack in turn, as it is and then with .js.  The first
      such search pins the stack, later ones find it pinned. */
  lemma BarewordResolves(w: World, s: State, spec: string, base: string, p: string)
    requires !IsAbs(spec)
    requires |Segments(spec)| == 1 || (Segments(spec)[0] != "." && Segments(spec)[0] != "..")
    ensures var after := Pinned(w, s, spec, base);
      && after.stack.Some? && (s.stack.Some? ==> after == s)
      && (s.stack.None? ==> after.stack.value == PinStack(w, s.cwd, if base == "" then s.cwd else base))
      && (Resolve(w, s, spec, base) == Some(p) <==> FirstOf(w, s.cwd, Tried(after.stack.value, spec), p))
  {
    ExplicitIff(spec);
    var dirs := Pinned(w, s, spec, base).stack.value;
    TriedAre(dirs, spec);
    FirstFileIsFirst(w, s.cwd, Barewords(dirs, spec), p);
  }

  // ----- Where barewords are looked for -----

  /** The jsrc directory of the place k names down. */
  function JsrcAt(names: seq<string>, k: nat): string
    requires k <= |names|
  {
    PathTo(names[..k]) + "/jsrc"
  }

  /** The pinned stack: of the place the search starts from and the places above it, up to HOME or
      the root, those that have a jsrc directory, the nearest first; and last the floor. */
  lemma StackIs(w: World, cwd: AbsPath, from: string) returns (climb: seq<string>)
    ensures PinStack(w, cwd, from) == climb + if w.floor == "" then [] else [w.floor]
    ensures var names := Follow(Follow([], cwd), from);
      && (forall d :: d in climb <==>
           exists k: nat :: k <= |names| && d == JsrcAt(names, k) && w.isDir(d) && InReach(names, Ceiling(w), k))
      && forall i, j :: 0 <= i < j < |climb| ==> |climb[j]| < |climb[i]|
  {
    var names := StartAt(cwd, from);
    StartIs(cwd, from);
    climb := Climb(w, names, Ceiling(w));
    ClimbIsOrdered(w, names, Ceiling(w));
    forall d ensures d in climb <==>
      exists k: nat :: k <= |names| && d == JsrcAt(names, k) && w.isDir(d) && InReach(names, Ceiling(w), k)
    {
      if d in climb {
        var i :| 0 <= i < |climb| && climb[i] == d;
        var k := ClimbOnly(w, names, Ceiling(w), i);
        assert d == JsrcAt(names, k);
      }
      if k: nat :| k <= |names| && d == JsrcAt(names, k) && w.isDir(d) && InReach(names, Ceiling(w), k) {
        ClimbFinds(w, names, Ceiling(w), k);
      }
    }
  }

  lemma StartIs(cwd: AbsPath, from: string)
    ensures StartAt(cwd, from) == Follow(Follow([], cwd), from)
  {
    var p := if IsAbs(from) then from else cwd + "/" + from;
    WalkLeads(p, []);
    assert WalkOf(p).From([]) == WalkOf(p).names;
    if !IsAbs(from) {
      FollowJoined([], cwd, from);
    }
  }

  /** The climb stops at the place HOME names, or at the root; a relative HOME names no place. */
  lemma CeilingIs(w: World)
    ensures w.home == "" ==> Ceiling(w) == PathTo([])
    ensures IsAbs(w.home) ==> Ceiling(w) == PathTo(Follow([], w.home))
    ensures w.home != "" && !IsAbs(w.home) ==> !IsAbs(Ceiling(w))
  {
    NormalizeIsIdempotent(w.home);
    assert PathTo([]) == "/";
    if IsAbs(w.home) {
      WalkLeads(w.home, []);
      var v := WalkOf(w.home);
      assert v.Spelled() == v.names;
    }
  }

  // ----- What the memo remembers -----

  /** A pair that resolved is remembered, and answered from then on without asking again; a spec
      that moves with the working directory, or that did not resolve, is not. */
  lemma MemoRemembers(w: World, s: State, spec: string, base: string)
    ensures var (found, after) := Memo(w, s, spec, base);
      && (found.Some? && !CwdBound(spec, base) ==>
          Key(spec, base) in after.resolved && after.resolved[Key(spec, base)] == found.value)
      && (found.None? || CwdBound(spec, base) ==> after.resolved == s.resolved)
      && forall v: World, t: State :: t.resolved == after.resolved && found.Some? && !CwdBound(spec, base) ==>
           Memo(v, t, spec, base) == (found, t)
  {
  }
}
