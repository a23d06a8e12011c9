/** require.cpp as it runs: one memo, one pinned stack and one cache, filled and emptied in place. */
module RequireObject {
  import opened Wrappers
  import opened Paths
  import opened Resolver
  import opened Loader

  class Requirer {
    const world: World
    const sources: Sources
    var cwd: AbsPath
    var jsrcStack: Option<seq<string>>
    var resolved: map<string, string>
    var cache: map<string, nat>
    var made: nat
    ghost var log: seq<Event>

    constructor (world: World, sources: Sources, cwd: AbsPath)
      ensures this.world == world && this.sources == sources
      ensures Now() == Loader.State(Resolver.State(cwd, None, map[]), map[], 0, [])
    {
      this.world, this.sources, this.cwd := world, sources, cwd;
      jsrcStack, resolved, cache, made, log := None, map[], map[], 0, [];
    }

    ghost function Found(): Resolver.State
      reads this`cwd, this`jsrcStack, this`resolved
    {
      Resolver.State(cwd, jsrcStack, resolved)
    }

    ghost function Now(): Loader.State
      reads this
    {
      Loader.State(Found(), cache, made, log)
    }

    /** The while loop of `pinJsrcStack`: look, then go up, until the ceiling or the root. */
    method ClimbUp(start: string) returns (out: seq<string>)
      requires IsAbs(start)
      ensures out == Climb(world, WalkOf(start).names, Ceiling(world))
    {
      var dir := NormalizePath(start);
      var ceil := "/";
      if world.home != "" {
        ceil := NormalizePath(world.home);
      }
      ghost var names := WalkOf(start).names;
      assert seq(0, _ => "..") + names == names;
      ghost var all := Climb(world, names, ceil);
      out := [];
      while true
        invariant AllNames(names) && dir == PathTo(names)
        invariant all == out + Climb(world, names, ceil)
        decreases |names|
      {
        ClimbTurn(world, names, ceil, out);
        var jsrc := dir + "/jsrc";
        if world.isDir(jsrc) {
          out := out + [jsrc];
        }
        if dir == ceil || dir == "/" {
          break;
        }
        DirnameIsParent(names);
        dir := Dirname(dir);
        names := names[..|names| - 1];
      }
    }

    method PinJsrcStack(from: string) returns (out: seq<string>)
      modifies this`jsrcStack
      ensures out == PinStack(world, cwd, from) && jsrcStack == Some(out)
    {
      out := ClimbUp(if IsAbs(from) then from else cwd + "/" + from);
      if world.floor != "" {
        out := out + [world.floor];
      }
      jsrcStack := Some(out);
    }

    /** The first candidate that is a regular file. */
    method Probe(ps: seq<string>) returns (r: Option<string>)
      ensures r == FirstFile(world, cwd, ps)
    {
      for i := 0 to |ps|
        invariant FirstFile(world, cwd, ps) == FirstFile(world, cwd, ps[i..])
      {
        if IsFile(world, cwd, ps[i]) {
          return Some(ps[i]);
        }
      }
      r := None;
    }

    /** Directory by directory, the first jsrc/spec or jsrc/spec.js that is a file. */
    method ProbeStack(stack: seq<string>, spec: string) returns (r: Option<string>)
      ensures r == FirstFile(world, cwd, Barewords(stack, spec))
    {
      for i := 0 to |stack|
        invariant FirstFile(world, cwd, Barewords(stack, spec)) == FirstFile(world, cwd, Barewords(stack[i..], spec))
      {
        ghost var rest := stack[i..];
        assert rest[0] == stack[i] && rest[1..] == stack[i + 1..];
        ProbeNext(world, cwd, rest, spec);
        r := Probe([stack[i] + "/" + spec, stack[i] + "/" + spec + ".js"]);
        if r.Some? {
          return;
        }
      }
      r := None;
    }

    /** `resolveJsrc`: the first search pins the stack. */
    method ResolveJsrc(spec: string, from: string) returns (r: Option<string>)
      requires !Explicit(spec)
      modifies this`jsrcStack
      ensures Found() == Pinned(world, old(Found()), spec, from)
      ensures r == Resolver.Resolve(world, old(Found()), spec, from)
    {
      if jsrcStack.None? {
        var _ := PinJsrcStack(if from == "" then cwd else from);
      }
      r := ProbeStack(jsrcStack.value, spec);
    }

    /** `resolve`. */
    method Resolve(spec: string, base: string) returns (r: Option<string>)
      modifies this`jsrcStack
      ensures Found() == Pinned(world, old(Found()), spec, base)
      ensures r == Resolver.Resolve(world, old(Found()), spec, base)
    {
      if !Explicit(spec) {
        r := ResolveJsrc(spec, base);
        return;
      }
      var p := NormalizePath(if IsAbs(spec) then spec else base + "/" + spec);
      r := Probe([p, p + ".js", p + "/index.js"]);
    }

    /** `resolveMemo`. */
    method ResolveMemo(spec: string, base: string) returns (r: Option<string>)
      modifies this`jsrcStack, this`resolved
      ensures (r, Found()) == Memo(world, old(Found()), spec, base)
    {
      if Explicit(spec) && !IsAbs(spec) && !IsAbs(base) {
        r := Resolve(spec, base);
        return;
      }
      var key := Key(spec, base);
      if key in resolved {
        return Some(resolved[key]);
      }
      r := Resolve(spec, base);
      if r.Some? {
        resolved := resolved[key := r.value];
      }
    }

    /** `load`: the record goes in before the body runs, and out again if it throws. */
    method Load(spec: string, base: string) returns (r: Option<(string, nat)>)
      modifies this
      ensures (r, Now()) == Loader.Load(world, sources, old(Now()), spec, base)
      decreases Names(sources) - cache.Keys, 0
    {
      var found := ResolveMemo(spec, base);
      if found.None? {
        return None;
      }
      var path := found.value;
      if path in cache {
        return Some((path, cache[path]));
      }
      var file := Seen(cwd, path);
      if file !in sources {
        return None;
      }
      var id := made;
      SeenIsNamed(sources, cwd, path);
      assert path in Names(sources) - cache.Keys;
      ghost var asked := Now();
      cache, made, log := cache[path := id], made + 1, log + [Began(path, id)];
      assert Now() == Begin(asked, path);
      assert path !in Names(sources) - cache.Keys;
      var ok := RunBody(sources[file], Dirname(path));
      if ok {
        log := log + [Done(path, id)];
        r := Some((path, id));
      } else {
        cache, log := cache - {path}, log + [Failed(path, id)];
        r := None;
      }
    }

    /** A body, statement by statement: false where it throws. */
    method RunBody(body: seq<Stmt>, dir: string) returns (ok: bool)
      modifies this
      ensures (ok, Now()) == Loader.Run(world, sources, old(Now()), body, dir)
      decreases Names(sources) - cache.Keys, |body|
    {
      if body == [] {
        return true;
      }
      match body[0] {
        case Throw =>
          return false;
        case Move(d) =>
          cwd := d;
        case Need(spec) =>
          var m := Load(spec, dir);
          if m.None? {
            return false;
          }
          log := log + [Saw(m.value.0, m.value.1)];
        case Try(spec) =>
          var m := Load(spec, dir);
          if m.Some? {
            log := log + [Saw(m.value.0, m.value.1)];
          }
      }
      ok := RunBody(body[1..], dir);
    }

    /** A whole program: whatever it requires, and whatever throws, afterwards the cache holds
        exactly the modules that ran to their end, each body having run once for every time it
        threw and once more if it is cached. */
    method RunProgram(body: seq<Stmt>, dir: string) returns (ok: bool)
      requires Tracks(Now()) && Idle(log)
      modifies this
      ensures Tracks(Now()) && Idle(log) && Keeps(old(Now()), Now())
      ensures forall p, id: nat :: (p in cache && cache[p] == id) <==> Done(p, id) in log
      ensures forall p :: Begins(log, p) == Fails(log, p) + if p in cache then 1 else 0
    {
      ProgramKeepsCache(world, sources, Now(), body, dir);
      ok := RunBody(body, dir);
      forall p ensures Begins(log, p) == Fails(log, p) + if p in cache then 1 else 0 {
        RunsBalance(log, p);
      }
    }
  }

  /** One turn of the climb: what it finds here, then what is left to find. */
  lemma ClimbTurn(w: World, names: seq<string>, ceil: string, out: seq<string>)
    requires AllNames(names)
    ensures var dir := PathTo(names);
      var next := if w.isDir(dir + "/jsrc") then out + [dir + "/jsrc"] else out;
      && (dir == "/" <==> names == [])
      && out + Climb(w, names, ceil) ==
         if dir == ceil || dir == "/" then next else next + Climb(w, names[..|names| - 1], ceil)
  {
    var dir := PathTo(names);
    if names != [] {
      assert names[0] != "";
      assert Join(names) != "";
      assert dir != "/";
    }
  }

  /** Directory by directory, the candidates are tried in order. */
  lemma ProbeNext(w: World, cwd: string, stack: seq<string>, spec: string)
    requires stack != []
    ensures var pair := [stack[0] + "/" + spec, stack[0] + "/" + spec + ".js"];
      FirstFile(w, cwd, Barewords(stack, spec)) == (
      if FirstFile(w, cwd, pair).Some? then FirstFile(w, cwd, pair)
      else FirstFile(w, cwd, Barewords(stack[1..], spec)))
  {
    var (p, q, rest) := (stack[0] + "/" + spec, stack[0] + "/" + spec + ".js", Barewords(stack[1..], spec));
    assert ([p, q] + rest)[1..] == [q] + rest && ([q] + rest)[1..] == rest;
    assert [p, q][1..] == [q] && [q][1..] == [];
    assert FirstFile(w, cwd, [q]) == if IsFile(w, cwd, q) then Some(q) else FirstFile(w, cwd, []);
    assert FirstFile(w, cwd, [q] + rest) == if IsFile(w, cwd, q) then Some(q) else FirstFile(w, cwd, rest);
  }
}
