/** Module resolution as require.cpp does it: the jsrc climb, the candidates of a spec, and the
    memo in front of them. */
module Resolver {
  import opened Wrappers
  import opened Paths

  /** What does not change during a run: the files, HOME and the unpacked floor ("" for none). */
  datatype World = World(isFile: string -> bool, isDir: string -> bool, home: string, floor: string)

  type AbsPath = p: string | IsAbs(p) witness "/"

  /** What does: the working directory, the pinned jsrc stack and the memo. */
  datatype State = State(cwd: AbsPath, stack: Option<seq<string>>, resolved: map<string, string>)

  // ----- dirname and the climb -----

  /** p.lastIndexOf("/"). */
  function LastSlash(p: string): (i: int)
    ensures -1 <= i < |p|
  {
    if p == "" then -1
    else if p[|p| - 1] == '/' then |p| - 1
    else LastSlash(p[..|p| - 1])
  }

  function Dirname(p: string): string {
    var i := LastSlash(p);
    if i < 0 then "." else if i == 0 then "/" else p[..i]
  }

  /** The normal path of a place. */
  function PathTo(names: seq<string>): (p: string)
    ensures IsAbs(p)
  {
    "/" + Join(names)
  }

  lemma {:induction false} LastSlashBefore(a: string, s: string)
    requires Plain(s)
    ensures LastSlash(a + "/" + s) == |a|
  {
    var whole := a + "/" + s;
    if s != "" {
      assert whole[|whole| - 1] == s[|s| - 1] && s[|s| - 1] in s;
      assert whole[..|whole| - 1] == a + "/" + s[..|s| - 1];
      assert forall c :: c in s[..|s| - 1] ==> c in s;
      LastSlashBefore(a, s[..|s| - 1]);
    }
  }

  lemma {:induction false} JoinLast(names: seq<string>)
    requires |names| > 1
    ensures Join(names) == Join(names[..|names| - 1]) + "/" + names[|names| - 1]
  {
    var last := |names| - 1;
    if |names| > 2 {
      assert names[1..][..last - 1] == names[..last][1..];
      JoinLast(names[1..]);
    }
  }

  /** The directory of a place is the place above it. */
  lemma DirnameIsParent(names: seq<string>)
    requires names != [] && AllNames(names)
    ensures Dirname(PathTo(names)) == PathTo(names[..|names| - 1])
  {
    var last := |names| - 1;
    if last == 0 {
      assert PathTo(names) == "" + "/" + names[0];
      LastSlashBefore("", names[0]);
    } else {
      JoinLast(names);
      var above := PathTo(names[..last]);
      assert PathTo(names) == above + "/" + names[last];
      LastSlashBefore(above, names[last]);
    }
  }

  /** The jsrc directories from a place up to the ceiling, the nearest first. */
  function Climb(w: World, names: seq<string>, ceil: string): seq<string>
    decreases |names|
  {
    var dir := PathTo(names);
    var here := if w.isDir(dir + "/jsrc") then [dir + "/jsrc"] else [];
    if dir == ceil || names == [] then here else here + Climb(w, names[..|names| - 1], ceil)
  }

  /** The place above that the climb gets to: no ceiling lies below it. */
  ghost predicate InReach(names: seq<string>, ceil: string, k: nat) {
    k <= |names| && forall m :: k < m <= |names| ==> PathTo(names[..m]) != ceil
  }

  /** The climb finds every jsrc directory above a place, up to the ceiling. */
  lemma {:induction false} ClimbFinds(w: World, names: seq<string>, ceil: string, k: nat)
    requires InReach(names, ceil, k) && w.isDir(PathTo(names[..k]) + "/jsrc")
    ensures PathTo(names[..k]) + "/jsrc" in Climb(w, names, ceil)
    decreases |names|
  {
    if k == |names| {
      assert names[..k] == names;
    } else {
      var up := names[..|names| - 1];
      assert names[..|names|] == names;
      assert forall m :: 0 <= m <= |up| ==> up[..m] == names[..m];
      ClimbFinds(w, up, ceil, k);
    }
  }

  /** And nothing else, */
  lemma {:induction false} ClimbOnly(w: World, names: seq<string>, ceil: string, i: nat) returns (k: nat)
    requires i < |Climb(w, names, ceil)|
    ensures var d := Climb(w, names, ceil)[i];
      InReach(names, ceil, k) && d == PathTo(names[..k]) + "/jsrc" && w.isDir(d)
    decreases |names|
  {
    assert names[..|names|] == names;
    var here: nat := if w.isDir(PathTo(names) + "/jsrc") then 1 else 0;
    if i < here {
      k := |names|;
    } else {
      var up := names[..|names| - 1];
      assert forall m :: 0 <= m <= |up| ==> up[..m] == names[..m];
      k := ClimbOnly(w, up, ceil, i - here);
    }
  }

  /** the nearest first. */
  lemma {:induction false} ClimbIsOrdered(w: World, names: seq<string>, ceil: string)
    requires AllNames(names)
    ensures var c := Climb(w, names, ceil);
      && (forall i :: 0 <= i < |c| ==> |c[i]| <= |PathTo(names)| + 5)
      && forall i, j :: 0 <= i < j < |c| ==> |c[j]| < |c[i]|
    decreases |names|
  {
    var dir := PathTo(names);
    var c, first := Climb(w, names, ceil), if w.isDir(dir + "/jsrc") then [dir + "/jsrc"] else [];
    if dir == ceil || names == [] {
      assert c == first;
    } else {
      var up := names[..|names| - 1];
      if |names| > 1 {
        JoinLast(names);
      }
      assert |PathTo(up)| < |dir|;
      ClimbIsOrdered(w, up, ceil);
      assert c == first + Climb(w, up, ceil);
    }
  }

  function Ceiling(w: World): string { if w.home == "" then "/" else Normalize(w.home) }

  /** The place a search starts from. */
  function StartAt(cwd: string, from: string): (names: seq<string>)
    ensures AllNames(names)
  {
    WalkOf(if IsAbs(from) then from else cwd + "/" + from).names
  }

  /** `pinJsrcStack`: the climb, with the floor last. */
  function PinStack(w: World, cwd: string, from: string): seq<string> {
    Climb(w, StartAt(cwd, from), Ceiling(w)) + (if w.floor == "" then [] else [w.floor])
  }

  predicate AllAbs(ps: seq<string>) { forall i :: 0 <= i < |ps| ==> IsAbs(ps[i]) }

  lemma {:induction false} ClimbIsAbs(w: World, names: seq<string>, ceil: string)
    ensures AllAbs(Climb(w, names, ceil))
    decreases |names|
  {
    if names != [] {
      ClimbIsAbs(w, names[..|names| - 1], ceil);
    }
  }

  // ----- Resolving -----

  predicate Explicit(spec: string) { IsAbs(spec) || "./" <= spec || "../" <= spec }

  /** jsrc/spec and jsrc/spec.js for each directory of the stack in turn. */
  function Barewords(stack: seq<string>, spec: string): seq<string> {
    if stack == [] then []
    else [stack[0] + "/" + spec, stack[0] + "/" + spec + ".js"] + Barewords(stack[1..], spec)
  }

  /** The path an explicit spec asks for. */
  function Asked(spec: string, base: string): string { if IsAbs(spec) then spec else base + "/" + spec }

  function Candidates(spec: string, base: string, stack: seq<string>): seq<string> {
    if Explicit(spec) then
      var p := Normalize(Asked(spec, base));
      [p, p + ".js", p + "/index.js"]
    else Barewords(stack, spec)
  }

  // ----- Where the candidates of an explicit spec lie -----

  /** From everywhere the path leads back to where it started. */
  ghost predicate LeadsNowhere(q: string) { forall dir :: AllNames(dir) ==> Follow(dir, q) == dir }

  /** Exactly such paths have the empty normal form. */
  lemma EmptyLeadsNowhere(q: string)
    ensures Normalize(q) == "" <==> LeadsNowhere(q)
  {
    assert Normalize("") == "";
    assert forall dir :: Follow(dir, "") == dir by {
      assert Segments("") == [""] && [""][1..] == [];
    }
    NormalizeDecidesPlace(q, "");
  }

  lemma FollowName(dir: seq<string>, s: string)
    requires IsName(s)
    ensures Follow(dir, s) == dir + [s]
  {
    SegmentsOfPlain(s);
    assert Follow(dir, s) == Go(dir, [s]) == Go(Move(dir, s), [s][1..]);
  }

  /** A name at the root is there from everywhere. */
  lemma FollowRoot(dir: seq<string>, s: string)
    requires IsName(s)
    ensures Follow(dir, "/" + s) == [s]
  {
    assert "" + "/" + s == "/" + s;
    SegmentsOfJoined("", s);
    SegmentsOfPlain("");
    SegmentsOfPlain(s);
    assert ([""] + [s])[1..] == [s] && [s][1..] == [];
    assert Go([], [s]) == Go(Move([], s), []);
  }

  /** From everywhere `c` leads to the name `s` in the place `q` leads to. */
  ghost predicate LiesUnder(c: string, q: string, s: string) {
    forall dir :: AllNames(dir) ==> Follow(dir, c) == Follow(dir, q) + [s]
  }

  /** A name behind a normal form that is not empty lies in its place; */
  lemma NameUnder(q: string, c: string, s: string)
    requires IsName(s) && Normalize(q) != "" && c == Normalize(q) + "/" + s
    ensures LiesUnder(c, q, s)
  {
    forall dir ensures Follow(dir, c) == Follow(dir, q) + [s] {
      NormalizeKeepsPlace(q, dir);
      FollowJoined(dir, Normalize(q), s);
      FollowName(Follow(dir, q), s);
    }
  }

  /** behind the empty one it does not. */
  lemma NameAtRoot(q: string, s: string)
    requires IsName(s) && LeadsNowhere(q)
    ensures !LiesUnder("/" + s, q, s)
  {
    var dir := ["a"];
    FollowRoot(dir, s);
    assert AllNames(dir) && Follow(dir, q) == dir && |dir + [s]| == 2;
  }

  lemma IndexName(p: string)
    ensures IsName("index.js") && p + "/index.js" == p + "/" + "index.js" && "" + "/index.js" == "/index.js"
  {
  }

  lemma IndexOf(q: string, c: string)
    requires c == Normalize(q) + "/index.js"
    ensures (LeadsNowhere(q) ==> c == "/index.js") && (LiesUnder(c, q, "index.js") <==> !LeadsNowhere(q))
  {
    IndexName(Normalize(q));
    IndexName("");
    EmptyLeadsNowhere(q);
    if LeadsNowhere(q) {
      NameAtRoot(q, "index.js");
    } else {
      NameUnder(q, c, "index.js");
    }
  }

  /** The first candidate is the place asked for; the third is index.js in that place, exactly if
      the spec leads somewhere: else it is index.js at the root. */
  lemma IndexLiesUnder(spec: string, base: string, stack: seq<string>)
    requires Explicit(spec)
    ensures var c, q := Candidates(spec, base, stack), Asked(spec, base);
      && (forall dir :: Follow(dir, c[0]) == Follow(dir, q))
      && (LeadsNowhere(q) ==> c[2] == "/index.js")
      && (LiesUnder(c[2], q, "index.js") <==> !LeadsNowhere(q))
  {
    var q := Asked(spec, base);
    forall dir ensures Follow(dir, Normalize(q)) == Follow(dir, q) {
      NormalizeKeepsPlace(q, dir);
    }
    IndexOf(q, Normalize(q) + "/index.js");
  }

  /** The place with ".js" behind its last name. */
  function Script(names: seq<string>): seq<string>
    requires names != []
  {
    names[..|names| - 1] + [names[|names| - 1] + ".js"]
  }

  /** From everywhere `c` leads to the script of the name that `q` leads to. */
  ghost predicate LiesBeside(c: string, q: string) {
    forall dir :: AllNames(dir) ==> Follow(dir, q) != [] && Follow(dir, c) == Script(Follow(dir, q))
  }

  lemma ScriptOf(q: string, c: string)
    requires c == Normalize(q) + ".js"
    ensures Follow([], q) != [] <==> LiesBeside(c, q)
  {
    var w := WalkOf(q);
    WalkLeads(q, []);
    assert AllNames([]) && w.From([]) == w.names;
    if w.names != [] {
      RenderedScript(w);
      forall dir ensures Follow(dir, q) != [] && Follow(dir, c) == Script(Follow(dir, q)) {
        ScriptFrom(q, w, c, dir);
      }
    }
  }

  lemma ScriptFrom(q: string, w: Walk, c: string, dir: seq<string>)
    requires w == WalkOf(q) && w.names != []
    requires var v := w.(names := Script(w.names)); v.Valid() && v.Render() == c
    ensures Follow(dir, q) != [] && Follow(dir, c) == Script(Follow(dir, q))
  {
    WalkLeads(q, dir);
    WalkOfRender(w.(names := Script(w.names)));
    WalkLeads(c, dir);
    ScriptOfJoined(if w.abs then [] else if w.ups <= |dir| then dir[..|dir| - w.ups] else [], w.names);
  }

  /** The second is the script of that name beside the place asked for, exactly if the spec ends
      in a name, that is, goes down somewhere. */
  lemma ScriptLiesBeside(spec: string, base: string, stack: seq<string>)
    requires Explicit(spec)
    ensures var c, q := Candidates(spec, base, stack), Asked(spec, base);
      Follow([], q) != [] <==> LiesBeside(c[1], q)
  {
    var q := Asked(spec, base);
    ScriptOf(q, Normalize(q) + ".js");
  }

  lemma ScriptOfJoined(a: seq<string>, b: seq<string>)
    requires b != []
    ensures Script(a + b) == a + Script(b)
  {
  }

  lemma RenderedScript(w: Walk)
    requires w.Valid() && w.names != []
    ensures var v := w.(names := Script(w.names)); v.Valid() && v.Render() == w.Render() + ".js"
  {
    var v, segs := w.(names := Script(w.names)), w.Spelled();
    var name := w.names[|w.names| - 1];
    assert IsName(name) && Plain(".js") && Plain(name + ".js");
    assert v.Spelled() == Script(segs);
    JoinScript(segs);
  }

  lemma JoinScript(segs: seq<string>)
    requires segs != []
    ensures Join(Script(segs)) == Join(segs) + ".js"
  {
    if |segs| > 1 {
      JoinLast(segs);
      JoinLast(Script(segs));
    }
  }

  /** A spec that leads nowhere: "./" off the relative base ".". */
  lemma NowhereIsRoot()
    ensures Candidates("./", ".", [])[2] == "/index.js"
  {
    assert Asked("./", ".") == "././";
  }

  /** System calls take a relative path from the working directory. */
  function Seen(cwd: string, p: string): string { if IsAbs(p) then p else cwd + "/" + p }

  predicate IsFile(w: World, cwd: string, p: string) { w.isFile(Seen(cwd, p)) }

  function FirstFile(w: World, cwd: string, ps: seq<string>): Option<string> {
    if ps == [] then None
    else if IsFile(w, cwd, ps[0]) then Some(ps[0])
    else FirstFile(w, cwd, ps[1..])
  }

  /** The first candidate that is a file wins, and there is no other answer. */
  lemma {:induction false} FirstFileIsFirst(w: World, cwd: string, ps: seq<string>, p: string)
    ensures FirstFile(w, cwd, ps) == Some(p) <==>
      exists i :: 0 <= i < |ps| && ps[i] == p && IsFile(w, cwd, p) && forall j :: 0 <= j < i ==> !IsFile(w, cwd, ps[j])
  {
    if ps != [] {
      FirstFileIsFirst(w, cwd, ps[1..], p);
      assert forall i :: 0 < i < |ps| ==> ps[i] == ps[1..][i - 1];
      if i :| 0 <= i < |ps| && ps[i] == p && IsFile(w, cwd, p) && forall j :: 0 <= j < i ==> !IsFile(w, cwd, ps[j]) {
        if 0 < i {
          assert !IsFile(w, cwd, ps[0]);
          assert ps[1..][i - 1] == p;
        }
      }
    }
  }

  /** A bareword is looked for in each directory of the stack in turn, as it is and then with the
      extension. */
  lemma {:induction false} BarewordOrder(stack: seq<string>, spec: string, i: nat)
    requires i < |stack|
    ensures |Barewords(stack, spec)| == 2 * |stack|
    ensures Barewords(stack, spec)[2 * i] == stack[i] + "/" + spec
    ensures Barewords(stack, spec)[2 * i + 1] == stack[i] + "/" + spec + ".js"
  {
    if i > 0 {
      BarewordOrder(stack[1..], spec, i - 1);
    } else if |stack| > 1 {
      BarewordOrder(stack[1..], spec, 0);
    } else {
      assert Barewords(stack[1..], spec) == [];
    }
  }

  /** A bareword pins the stack, if nothing has yet. */
  function Pinned(w: World, s: State, spec: string, base: string): State {
    if Explicit(spec) || s.stack.Some? then s
    else s.(stack := Some(PinStack(w, s.cwd, if base == "" then s.cwd else base)))
  }

  function StackOf(s: State): seq<string> { if s.stack.Some? then s.stack.value else [] }

  /** `resolve`, uncached: None where it throws. */
  function Resolve(w: World, s: State, spec: string, base: string): Option<string> {
    FirstFile(w, s.cwd, Candidates(spec, base, StackOf(Pinned(w, s, spec, base))))
  }

  /** A relative spec off a relative base: its candidates move with the working directory. */
  predicate CwdBound(spec: string, base: string) {
    Explicit(spec) && !IsAbs(spec) && !IsAbs(base)
  }

  // ----- The memo's key -----

  function Digit(d: nat): char
    requires d < 10
  {
    ('0' as int + d) as char
  }

  function Decimal(n: nat): string {
    if n < 10 then [Digit(n)] else Decimal(n / 10) + [Digit(n % 10)]
  }

  function Key(spec: string, base: string): string { Decimal(|spec|) + ":" + spec + base }

  function Read(s: string): int {
    if s == "" then 0 else 10 * Read(s[..|s| - 1]) + (s[|s| - 1] as int - '0' as int)
  }

  lemma {:induction false} DecimalReads(n: nat)
    ensures Read(Decimal(n)) == n && ':' !in Decimal(n)
  {
    if n < 10 {
      assert Decimal(n)[..0] == "";
    } else {
      DecimalReads(n / 10);
      assert Decimal(n)[..|Decimal(n)| - 1] == Decimal(n / 10);
    }
  }

  /** No text before a colon can be mistaken for another. */
  lemma FirstColon(a: string, x: string, b: string, y: string)
    requires ':' !in a && ':' !in b && a + ":" + x == b + ":" + y
    ensures a == b && x == y
  {
    var whole := a + ":" + x;
    assert whole[|a|] == ':' && whole[|b|] == ':';
    assert forall i :: 0 <= i < |a| ==> whole[i] == a[i] && a[i] in a;
    assert forall i :: 0 <= i < |b| ==> whole[i] == b[i] && b[i] in b;
    assert |a| == |b|;
    assert whole[..|a|] == a && whole[..|b|] == b;
    assert whole[|a| + 1..] == x && whole[|b| + 1..] == y;
  }

  /** The length prefix keeps every (spec, base) pair apart. */
  lemma KeyIsInjective(spec: string, base: string, spec': string, base': string)
    ensures Key(spec, base) == Key(spec', base') <==> spec == spec' && base == base'
  {
    if Key(spec, base) == Key(spec', base') {
      DecimalReads(|spec|);
      DecimalReads(|spec'|);
      var (d, t, d', t') := (Decimal(|spec|), spec + base, Decimal(|spec'|), spec' + base');
      assert d + ":" + t == Key(spec, base) && d' + ":" + t' == Key(spec', base');
      FirstColon(d, t, d', t');
      assert spec == t[..|spec|] && spec' == t'[..|spec'|];
      assert base == t[|spec|..] && base' == t'[|spec'|..];
    }
  }

  // ----- The memo -----

  /** `resolveMemo`. */
  function Memo(w: World, s: State, spec: string, base: string): (r: (Option<string>, State)) {
    var key := Key(spec, base);
    if !CwdBound(spec, base) && key in s.resolved then (Some(s.resolved[key]), s)
    else
      var after := Pinned(w, s, spec, base);
      var found := Resolve(w, s, spec, base);
      if CwdBound(spec, base) || found.None? then (found, after)
      else (found, after.(resolved := s.resolved[key := found.value]))
  }

  datatype Call = Require(spec: string, base: string) | Chdir(dir: AbsPath)

  /** What each require of a run answers, with the memo. */
  function MemoRun(w: World, s: State, cs: seq<Call>): seq<Option<string>>
    decreases cs
  {
    if cs == [] then []
    else match cs[0]
      case Chdir(dir) => MemoRun(w, s.(cwd := dir), cs[1..])
      case Require(spec, base) =>
        var (found, after) := Memo(w, s, spec, base);
        [found] + MemoRun(w, after, cs[1..])
  }

  /** And without it. */
  function PlainRun(w: World, s: State, cs: seq<Call>): seq<Option<string>>
    decreases cs
  {
    if cs == [] then []
    else match cs[0]
      case Chdir(dir) => PlainRun(w, s.(cwd := dir), cs[1..])
      case Require(spec, base) =>
        [Resolve(w, s, spec, base)] + PlainRun(w, Pinned(w, s, spec, base), cs[1..])
  }

  /** A memo entry says what resolving its pair gives, whatever the working directory. */
  ghost predicate Remembers(w: World, s: State, spec: string, base: string) {
    && Key(spec, base) in s.resolved && !CwdBound(spec, base) && (Explicit(spec) || s.stack.Some?)
    && forall cwd :: FirstFile(w, cwd, Candidates(spec, base, StackOf(s))) == Some(s.resolved[Key(spec, base)])
  }

  ghost predicate Sound(w: World, s: State) {
    && AllAbs(StackOf(s))
    && forall spec, base :: Key(spec, base) in s.resolved ==> Remembers(w, s, spec, base)
  }

  predicate FloorFits(w: World) { w.floor == "" || IsAbs(w.floor) }

  lemma {:induction false} FirstOfAbs(w: World, ps: seq<string>, cwd: string, cwd': string)
    requires AllAbs(ps)
    ensures FirstFile(w, cwd, ps) == FirstFile(w, cwd', ps)
  {
    if ps != [] {
      FirstOfAbs(w, ps[1..], cwd, cwd');
    }
  }

  lemma {:induction false} BarewordsAbs(stack: seq<string>, spec: string)
    requires AllAbs(stack)
    ensures AllAbs(Barewords(stack, spec))
  {
    if stack != [] {
      BarewordsAbs(stack[1..], spec);
    }
  }

  /** Off an absolute base, or through an absolute stack, only absolute paths are tried. */
  lemma CandidatesAbs(spec: string, base: string, stack: seq<string>)
    requires AllAbs(stack) && !CwdBound(spec, base)
    ensures AllAbs(Candidates(spec, base, stack))
  {
    if Explicit(spec) {
      NormalizeIsIdempotent(if IsAbs(spec) then spec else base + "/" + spec);
    } else {
      BarewordsAbs(stack, spec);
    }
  }

  lemma PinnedSound(w: World, s: State, spec: string, base: string)
    requires Sound(w, s) && FloorFits(w)
    ensures Sound(w, Pinned(w, s, spec, base))
  {
    var after := Pinned(w, s, spec, base);
    if after != s {
      ClimbIsAbs(w, StartAt(s.cwd, if base == "" then s.cwd else base), Ceiling(w));
      forall p, b | Key(p, b) in after.resolved ensures Remembers(w, after, p, b) {
        assert Remembers(w, s, p, b);
        assert Candidates(p, b, StackOf(after)) == Candidates(p, b, StackOf(s));
      }
    }
  }

  /** One call: the memo answers as `resolve` would, and stays sound. */
  lemma MemoIsTransparent(w: World, s: State, spec: string, base: string)
    requires Sound(w, s) && FloorFits(w)
    ensures Memo(w, s, spec, base).0 == Resolve(w, s, spec, base)
    ensures var after := Memo(w, s, spec, base).1;
      && Sound(w, after) && after.cwd == s.cwd && after.stack == Pinned(w, s, spec, base).stack
    ensures Resolve(w, s, spec, base).None? ==> Memo(w, s, spec, base).1.resolved == s.resolved
  {
    PinnedSound(w, s, spec, base);
    if !CwdBound(spec, base) && Key(spec, base) in s.resolved {
      assert Remembers(w, s, spec, base);
    } else if !CwdBound(spec, base) && Resolve(w, s, spec, base).Some? {
      var mid, after := Pinned(w, s, spec, base), Memo(w, s, spec, base).1;
      CandidatesAbs(spec, base, StackOf(mid));
      forall p, b | Key(p, b) in after.resolved ensures Remembers(w, after, p, b) {
        KeyIsInjective(spec, base, p, b);
        if p == spec && b == base {
          forall cwd ensures FirstFile(w, cwd, Candidates(p, b, StackOf(after))) == Resolve(w, s, spec, base) {
            FirstOfAbs(w, Candidates(spec, base, StackOf(mid)), s.cwd, cwd);
          }
        } else {
          assert Remembers(w, mid, p, b);
        }
      }
    }
  }

  lemma ResolveIgnoresMemo(w: World, s: State, t: State, spec: string, base: string)
    requires s.cwd == t.cwd && s.stack == t.stack
    ensures Resolve(w, s, spec, base) == Resolve(w, t, spec, base)
    ensures Pinned(w, s, spec, base).(resolved := t.resolved) == Pinned(w, t, spec, base)
  {
  }

  lemma {:induction false} PlainIgnoresMemo(w: World, s: State, t: State, cs: seq<Call>)
    requires s.cwd == t.cwd && s.stack == t.stack
    ensures PlainRun(w, s, cs) == PlainRun(w, t, cs)
    decreases cs
  {
    if cs != [] {
      match cs[0]
      case Chdir(dir) =>
        PlainIgnoresMemo(w, s.(cwd := dir), t.(cwd := dir), cs[1..]);
      case Require(spec, base) =>
        ResolveIgnoresMemo(w, s, t, spec, base);
        PlainIgnoresMemo(w, Pinned(w, s, spec, base), Pinned(w, t, spec, base), cs[1..]);
    }
  }

  /** Any calls, between any changes of the working directory, answer as if nothing were
      remembered. */
  lemma {:induction false} RunIsTransparent(w: World, s: State, cs: seq<Call>)
    requires Sound(w, s) && FloorFits(w)
    ensures MemoRun(w, s, cs) == PlainRun(w, s, cs)
    decreases cs
  {
    if cs != [] {
      match cs[0]
      case Chdir(dir) =>
        var moved := s.(cwd := dir);
        forall p, b | Key(p, b) in moved.resolved ensures Remembers(w, moved, p, b) {
          assert Remembers(w, s, p, b);
        }
        RunIsTransparent(w, moved, cs[1..]);
      case Require(spec, base) =>
        var after := Memo(w, s, spec, base).1;
        MemoIsTransparent(w, s, spec, base);
        RunIsTransparent(w, after, cs[1..]);
        PlainIgnoresMemo(w, after, Pinned(w, s, spec, base), cs[1..]);
    }
  }

  const FRESH := State("/a", None, map[])

  /** A file system with one file, under a relative floor as seen from /a. */
  function OneFile(floor: string): World {
    World((p: string) => p == "/a" + "/" + (floor + "/" + "x"), _ => false, "", floor)
  }

  /** The bareword the floor alone answers. */
  lemma FloorAnswers(floor: string, s: State)
    requires floor != "" && !IsAbs(floor) && s.stack == Some([floor])
    requires s.cwd == "/a" || s.cwd == "/b"
    ensures Resolve(OneFile(floor), s, "x", "/") == if s.cwd == "/a" then Some(floor + "/" + "x") else None
  {
    var found := floor + "/" + "x";
    var w, other := OneFile(floor), found + ".js";
    assert Candidates("x", "/", [floor]) == [found, other] by {
      assert !Explicit("x") && [floor][1..] == [];
      assert Barewords([], "x") == [] && [found, other] + [] == [found, other];
    }
    assert [found, other][1..] == [other] && [other][1..] == [];
    assert !IsAbs(found) && !IsAbs(other);
    assert IsFile(w, "/a", found);
    assert ("/b" + "/" + found)[1] == 'b' && ("/b" + "/" + other)[1] == 'b' && ("/a" + "/" + found)[1] == 'a';
    assert !IsFile(w, "/b", found) && !IsFile(w, "/b", other);
    assert Resolve(w, s, "x", "/") == FirstFile(w, s.cwd, [found, other]);
    assert s.cwd == "/b" ==> FirstFile(w, s.cwd, [other]) == FirstFile(w, s.cwd, []);
  }

  /** With the floor under a relative path, a memoized bareword outlives a chdir. */
  lemma RelativeFloorShows(floor: string)
    requires floor != "" && !IsAbs(floor)
    ensures var w, cs := OneFile(floor), [Require("x", "/"), Chdir("/b"), Require("x", "/")];
      MemoRun(w, FRESH, cs) != PlainRun(w, FRESH, cs)
  {
    var w := OneFile(floor);
    var pinned := FRESH.(stack := Some([floor]));
    assert Pinned(w, FRESH, "x", "/") == pinned by {
      ClimbIsEmpty(w, StartAt("/a", "/"), Ceiling(w));
      assert !Explicit("x") && [] + [floor] == [floor];
    }
    FloorAnswers(floor, pinned);
    FloorAnswers(floor, pinned.(cwd := "/b"));
    var found := Some(floor + "/" + "x");
    var after := pinned.(resolved := map[Key("x", "/") := found.value]);
    assert Memo(w, FRESH, "x", "/") == (found, after) by {
      assert Resolve(w, FRESH, "x", "/") == Resolve(w, pinned, "x", "/");
      assert !CwdBound("x", "/");
    }
    assert Memo(w, after.(cwd := "/b"), "x", "/").0 == found;
    AskTwice(w, FRESH, "x", "/", "/b");
  }

  lemma AskThen(w: World, s: State, spec: string, base: string, rest: seq<Call>)
    ensures var cs := [Require(spec, base)] + rest;
      && MemoRun(w, s, cs) == [Memo(w, s, spec, base).0] + MemoRun(w, Memo(w, s, spec, base).1, rest)
      && PlainRun(w, s, cs) == [Resolve(w, s, spec, base)] + PlainRun(w, Pinned(w, s, spec, base), rest)
  {
    assert ([Require(spec, base)] + rest)[1..] == rest;
  }

  lemma MoveThen(w: World, s: State, dir: AbsPath, rest: seq<Call>)
    ensures MemoRun(w, s, [Chdir(dir)] + rest) == MemoRun(w, s.(cwd := dir), rest)
    ensures PlainRun(w, s, [Chdir(dir)] + rest) == PlainRun(w, s.(cwd := dir), rest)
  {
    assert ([Chdir(dir)] + rest)[1..] == rest;
  }

  /** What a second ask answers, after a chdir. */
  lemma AskTwice(w: World, s: State, spec: string, base: string, dir: AbsPath)
    ensures var cs := [Require(spec, base), Chdir(dir), Require(spec, base)];
      && |MemoRun(w, s, cs)| == 2 == |PlainRun(w, s, cs)|
      && MemoRun(w, s, cs)[1] == Memo(w, Memo(w, s, spec, base).1.(cwd := dir), spec, base).0
      && PlainRun(w, s, cs)[1] == Resolve(w, Pinned(w, s, spec, base).(cwd := dir), spec, base)
  {
    var ask, after, pinned := Require(spec, base), Memo(w, s, spec, base).1, Pinned(w, s, spec, base);
    AskThen(w, s, spec, base, [Chdir(dir), ask]);
    assert [ask] + [Chdir(dir), ask] == [ask, Chdir(dir), ask];
    MoveThen(w, after, dir, [ask]);
    MoveThen(w, pinned, dir, [ask]);
    assert [Chdir(dir)] + [ask] == [Chdir(dir), ask];
    AskThen(w, after.(cwd := dir), spec, base, []);
    AskThen(w, pinned.(cwd := dir), spec, base, []);
    assert [ask] + [] == [ask];
  }

  lemma {:induction false} ClimbIsEmpty(w: World, names: seq<string>, ceil: string)
    requires forall p :: !w.isDir(p)
    ensures Climb(w, names, ceil) == []
    decreases |names|
  {
    if names != [] {
      ClimbIsEmpty(w, names[..|names| - 1], ceil);
    }
  }

  /** The memo is transparent on every file system and every run exactly when the floor, if
      there is one, lies under an absolute path. */
  lemma TransparentIff(floor: string)
    ensures (floor == "" || IsAbs(floor)) <==>
      forall w: World, cs :: w.floor == floor ==> MemoRun(w, FRESH, cs) == PlainRun(w, FRESH, cs)
  {
    if floor == "" || IsAbs(floor) {
      forall w: World, cs | w.floor == floor ensures MemoRun(w, FRESH, cs) == PlainRun(w, FRESH, cs) {
        RunIsTransparent(w, FRESH, cs);
      }
    } else {
      RelativeFloorShows(floor);
    }
  }
}
