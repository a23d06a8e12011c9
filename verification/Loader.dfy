/** The CommonJS loader of require.cpp: a cache filled before a module's body runs, so that cycles
    end, and emptied of a module whose body throws. */
module Loader {
  import opened Wrappers
  import opened Paths
  import opened Resolver

  /** What a module body does, as far as the loader is concerned. */
  datatype Stmt = Need(spec: string) | Try(spec: string) | Throw | Move(dir: AbsPath)

  /** The files that can be read and decoded, by absolute path. */
  type Sources = map<string, seq<Stmt>>

  /** Every path that some working directory could make name one of them. */
  ghost function Names(src: Sources): set<string> {
    set p, i | p in src.Keys && 0 <= i <= |p| :: p[i..]
  }

  lemma SeenIsNamed(src: Sources, cwd: string, path: string)
    requires Seen(cwd, path) in src
    ensures path in Names(src)
  {
    var p := Seen(cwd, path);
    var i := if IsAbs(path) then 0 else |cwd| + 1;
    assert p[i..] == path;
  }

  /** What happened so far.  A module record is known by its number. */
  datatype Event =
    | Began(path: string, id: nat)    // the record is cached, the body runs
    | Done(path: string, id: nat)     // the body returned
    | Failed(path: string, id: nat)   // the body threw, the record is evicted
    | Saw(path: string, id: nat)      // a require returned this record

  datatype State = State(res: Resolver.State, cache: map<string, nat>, made: nat, log: seq<Event>)

  ghost predicate Keeps(s: State, r: State) {
    forall p :: p in s.cache ==> p in r.cache && r.cache[p] == s.cache[p]
  }

  function Logged(s: State, e: Event): State { s.(log := s.log + [e]) }

  function Begin(s: State, path: string): State {
    Logged(s.(cache := s.cache[path := s.made], made := s.made + 1), Began(path, s.made))
  }

  function Finish(s: State, path: string, id: nat, ok: bool): State {
    if ok then Logged(s, Done(path, id)) else Logged(s.(cache := s.cache - {path}), Failed(path, id))
  }

  /** A require returned, or threw. */
  function Required(s: State, m: Option<(string, nat)>): State {
    if m.None? then s else Logged(s, Saw(m.value.0, m.value.1))
  }

  /** `load`: the record and its path, or None where it throws.  It ends on every module graph,
      cyclic or not, and keeps every cache entry it finds. */
  function Load(w: World, src: Sources, s: State, spec: string, base: string): (r: (Option<(string, nat)>, State))
    ensures Keeps(s, r.1)
    decreases Names(src) - s.cache.Keys, 0
  {
    var (found, res) := Memo(w, s.res, spec, base);
    var asked := s.(res := res);
    if found.None? then (None, asked)
    else
      var path := found.value;
      if path in s.cache then (Some((path, s.cache[path])), asked)
      else if Seen(res.cwd, path) !in src then (None, asked)
      else
        var begun := Begin(asked, path);
        SeenIsNamed(src, res.cwd, path);
        assert path in Names(src) - s.cache.Keys && path !in Names(src) - begun.cache.Keys;
        var (ok, after) := Run(w, src, begun, src[Seen(res.cwd, path)], Dirname(path));
        (if ok then Some((path, s.made)) else None, Finish(after, path, s.made, ok))
  }

  /** A body, or the program itself: false where it throws. */
  function Run(w: World, src: Sources, s: State, body: seq<Stmt>, dir: string): (r: (bool, State))
    ensures Keeps(s, r.1)
    decreases Names(src) - s.cache.Keys, |body|
  {
    if body == [] then (true, s)
    else match body[0]
      case Throw => (false, s)
      case Move(d) => Run(w, src, s.(res := s.res.(cwd := d)), body[1..], dir)
      case Need(spec) =>
        var (m, after) := Load(w, src, s, spec, dir);
        if m.None? then (false, after) else Run(w, src, Required(after, m), body[1..], dir)
      case Try(spec) =>
        var (m, after) := Load(w, src, s, spec, dir);
        Run(w, src, Required(after, m), body[1..], dir)
  }

  // ----- What the log says, by itself -----

  /** The records in the cache, going by the log alone. */
  function CacheOf(log: seq<Event>): map<string, nat> {
    if log == [] then map[]
    else
      var past, e := CacheOf(log[..|log| - 1]), log[|log| - 1];
      if e.Began? then past[e.path := e.id] else if e.Failed? then past - {e.path} else past
  }

  function Made(log: seq<Event>): nat {
    if log == [] then 0 else Made(log[..|log| - 1]) + if log[|log| - 1].Began? then 1 else 0
  }

  predicate InCache(log: seq<Event>, path: string, id: nat) {
    path in CacheOf(log) && CacheOf(log)[path] == id
  }

  /** An event that may come next: a body runs only for a path that is not cached, with a new
      record; only the cached record of a path ends, once; a require sees the cached record. */
  predicate Legal(past: seq<Event>, e: Event) {
    match e
    case Began(p, id) => p !in CacheOf(past) && id == Made(past)
    case Saw(p, id) => InCache(past, p, id)
    case _ => InCache(past, e.path, e.id) && Done(e.path, e.id) !in past
  }

  predicate Good(log: seq<Event>) {
    log == [] || (Good(log[..|log| - 1]) && Legal(log[..|log| - 1], log[|log| - 1]))
  }

  ghost predicate Ended(log: seq<Event>, id: nat) {
    exists p :: Done(p, id) in log || Failed(p, id) in log
  }

  /** No body is running. */
  ghost predicate Idle(log: seq<Event>) {
    forall id :: 0 <= id < Made(log) ==> Ended(log, id)
  }

  lemma Unsnoc(log: seq<Event>, e: Event)
    requires e in log
    ensures e == log[|log| - 1] || e in log[..|log| - 1]
  {
    var k :| 0 <= k < |log| && log[k] == e;
    assert k < |log| - 1 ==> log[..|log| - 1][k] == e;
  }

  /** Records are numbered as they are made, and no two cached paths share one. */
  lemma {:induction false} Numbered(log: seq<Event>)
    requires Good(log)
    ensures forall e :: e in log ==> e.id < Made(log)
    ensures forall p :: p in CacheOf(log) ==> CacheOf(log)[p] < Made(log)
    ensures forall p, q :: p in CacheOf(log) && q in CacheOf(log) && CacheOf(log)[p] == CacheOf(log)[q] ==> p == q
  {
    if log != [] {
      Numbered(log[..|log| - 1]);
      forall e | e in log ensures e.id < Made(log) {
        Unsnoc(log, e);
      }
    }
  }

  /** A module that completed stays in the cache; */
  lemma {:induction false} DoneStays(log: seq<Event>, path: string, id: nat)
    requires Good(log) && Done(path, id) in log
    ensures InCache(log, path, id)
  {
    Unsnoc(log, Done(path, id));
    if Done(path, id) in log[..|log| - 1] {
      DoneStays(log[..|log| - 1], path, id);
    }
  }

  /** a record whose body threw is never in it again; */
  lemma {:induction false} FailedGoes(log: seq<Event>, path: string, id: nat)
    requires Good(log) && Failed(path, id) in log
    ensures forall p :: p in CacheOf(log) ==> CacheOf(log)[p] != id
  {
    var past := log[..|log| - 1];
    Unsnoc(log, Failed(path, id));
    Numbered(past);
    if Failed(path, id) in past {
      FailedGoes(past, path, id);
    }
  }

  /** and between loads the cache holds exactly the modules that completed. */
  lemma IdleCache(log: seq<Event>)
    requires Good(log) && Idle(log)
    ensures forall p, id: nat :: InCache(log, p, id) <==> Done(p, id) in log
  {
    forall p, id: nat ensures InCache(log, p, id) <==> Done(p, id) in log {
      if Done(p, id) in log {
        DoneStays(log, p, id);
      } else if InCache(log, p, id) {
        Numbered(log);
        assert Ended(log, id);
        var q :| Done(q, id) in log || Failed(q, id) in log;
        if Done(q, id) in log {
          DoneStays(log, q, id);
        } else {
          FailedGoes(log, q, id);
        }
      }
    }
  }

  function Begins(log: seq<Event>, path: string): nat {
    if log == [] then 0
    else
      var e := log[|log| - 1];
      Begins(log[..|log| - 1], path) + if e.Began? && e.path == path then 1 else 0
  }

  function Fails(log: seq<Event>, path: string): nat {
    if log == [] then 0
    else
      var e := log[|log| - 1];
      Fails(log[..|log| - 1], path) + if e.Failed? && e.path == path then 1 else 0
  }

  /** A body runs once for every time it throws, and once more if it is cached. */
  lemma {:induction false} RunsBalance(log: seq<Event>, path: string)
    requires Good(log)
    ensures Begins(log, path) == Fails(log, path) + if path in CacheOf(log) then 1 else 0
  {
    if log != [] {
      RunsBalance(log[..|log| - 1], path);
    }
  }

  lemma {:induction false} NoFails(log: seq<Event>, path: string)
    requires forall e :: e in log ==> !e.Failed?
    ensures Fails(log, path) == 0
  {
    if log != [] {
      NoFails(log[..|log| - 1], path);
    }
  }

  /** With no throws, each body runs at most once. */
  lemma {:induction false} CalmRunsOnce(log: seq<Event>, path: string)
    requires Good(log) && forall e :: e in log ==> !e.Failed?
    ensures Begins(log, path) == if path in CacheOf(log) then 1 else 0
  {
    RunsBalance(log, path);
    NoFails(log, path);
  }

  lemma {:induction false} GoodPrefix(log: seq<Event>, k: nat)
    requires Good(log) && k <= |log|
    ensures Good(log[..k]) && (k < |log| ==> Legal(log[..k], log[k]))
  {
    if k == |log| {
      assert log[..k] == log;
    } else if k < |log| - 1 {
      GoodPrefix(log[..|log| - 1], k);
      assert log[..|log| - 1][..k] == log[..k];
    }
  }

  /** A cached record stays as long as its module does not throw. */
  lemma {:induction false} CachedStays(log: seq<Event>, k: nat, path: string, id: nat)
    requires Good(log) && k <= |log| && InCache(log[..k], path, id)
    requires forall j :: k <= j < |log| ==> !(log[j].Failed? && log[j].path == path)
    ensures InCache(log, path, id)
    decreases |log|
  {
    if k == |log| {
      assert log[..k] == log;
    } else {
      var past := log[..|log| - 1];
      assert past[..k] == log[..k];
      CachedStays(past, k, path, id);
    }
  }

  /** From the moment a module's body begins until one throws, every require of that path, from
      inside the body's own cycle or later, gets the one record. */
  lemma SameRecord(log: seq<Event>, k: nat, m: nat)
    requires Good(log) && k < m < |log|
    requires (log[k].Began? || log[k].Saw?) && (log[m].Began? || log[m].Saw?) && log[k].path == log[m].path
    requires forall j :: k < j < m ==> !(log[j].Failed? && log[j].path == log[k].path)
    ensures log[m] == Saw(log[k].path, log[k].id)
  {
    GoodPrefix(log, k);
    GoodPrefix(log, k + 1);
    GoodPrefix(log, m);
    assert log[..k + 1][..k] == log[..k];
    assert InCache(log[..k + 1], log[k].path, log[k].id);
    assert log[..m][..k + 1] == log[..k + 1];
    CachedStays(log[..m], k + 1, log[k].path, log[k].id);
  }

  // ----- Every load writes such a log -----

  ghost predicate Tracks(s: State) {
    Good(s.log) && s.cache == CacheOf(s.log) && s.made == Made(s.log)
  }

  /** From s to r the log grew, only records made since ended, and all of those did. */
  ghost predicate Nests(s: State, r: State) {
    && |s.log| <= |r.log| && r.log[..|s.log|] == s.log && s.made <= r.made
    && (forall k :: |s.log| <= k < |r.log| && !r.log[k].Began? && !r.log[k].Saw? ==> s.made <= r.log[k].id)
    && (forall id :: s.made <= id < r.made ==> Ended(r.log, id))
  }

  lemma {:induction false} LogTracks(s: State, t: State, e: Event)
    requires Tracks(s) && Legal(s.log, e) && t.log == s.log + [e]
    requires t.made == s.made + (if e.Began? then 1 else 0)
    requires t.cache == if e.Began? then s.cache[e.path := e.id] else if e.Failed? then s.cache - {e.path} else s.cache
    ensures Tracks(t)
  {
    assert t.log[..|t.log| - 1] == s.log;
  }

  lemma NestsTrans(s: State, m: State, r: State)
    requires Nests(s, m) && Nests(m, r)
    ensures Nests(s, r)
  {
    assert r.log[..|s.log|] == r.log[..|m.log|][..|s.log|];
    forall k | |s.log| <= k < |r.log| && !r.log[k].Began? && !r.log[k].Saw? ensures s.made <= r.log[k].id {
      if k < |m.log| {
        assert r.log[..|m.log|][k] == m.log[k];
      }
    }
    forall id | s.made <= id < r.made ensures Ended(r.log, id) {
      if id < m.made {
        assert Ended(m.log, id);
        assert forall e :: e in m.log ==> e in r.log[..|m.log|];
      }
    }
  }

  /** A require that returned a record logs it. */
  lemma RequiredTracks(s: State, after: State, m: Option<(string, nat)>)
    requires Nests(s, after) && Tracks(after) && (m.Some? ==> InCache(after.log, m.value.0, m.value.1))
    ensures Tracks(Required(after, m)) && Nests(s, Required(after, m))
  {
    if m.Some? {
      var saw := Required(after, m);
      LogTracks(after, saw, Saw(m.value.0, m.value.1));
      NestsTrans(s, after, saw);
    }
  }

  /** The body ran, so its record can end: nothing else has ended it. */
  lemma FinishTracks(s: State, path: string, after: State, ok: bool)
    requires Tracks(s) && path !in s.cache && Tracks(after)
    requires Nests(Begin(s, path), after) && path in after.cache && after.cache[path] == s.made
    ensures Tracks(Finish(after, path, s.made, ok))
  {
    var begun, end := Begin(s, path), Finish(after, path, s.made, ok);
    Numbered(s.log);
    forall k | 0 <= k < |after.log| ensures after.log[k] != Done(path, s.made) {
      if k < |begun.log| {
        assert after.log[k] == after.log[..|begun.log|][k] == begun.log[k];
      }
    }
    LogTracks(after, end, end.log[|after.log|]);
  }

  lemma FinishNests(s: State, path: string, after: State, ok: bool)
    requires Nests(Begin(s, path), after)
    ensures Nests(s, Finish(after, path, s.made, ok))
  {
    var begun, end := Begin(s, path), Finish(after, path, s.made, ok);
    assert end.log[..|s.log|] == after.log[..|begun.log|][..|s.log|] == s.log;
    assert end.log[|s.log|] == after.log[..|begun.log|][|s.log|] == Began(path, s.made);
    assert forall k :: |begun.log| <= k < |after.log| ==> end.log[k] == after.log[k];
    forall id | s.made <= id < end.made ensures Ended(end.log, id) {
      if id == s.made {
        assert end.log[|after.log|] in end.log;
      } else {
        assert Ended(after.log, id);
        assert forall x :: x in after.log ==> x in end.log;
      }
    }
  }

  /** A record that was begun, and whose body ran to `after`, ends. */
  lemma EndTracks(s: State, path: string, after: State, ok: bool, end: State)
    requires Tracks(s) && path !in s.cache && Tracks(after) && end == Finish(after, path, s.made, ok)
    requires Nests(Begin(s, path), after) && path in after.cache && after.cache[path] == s.made
    ensures Tracks(end) && Nests(s, end) && (ok ==> InCache(end.log, path, s.made))
  {
    FinishTracks(s, path, after, ok);
    FinishNests(s, path, after, ok);
  }

  lemma {:induction false} LoadTracks(w: World, src: Sources, s: State, spec: string, base: string)
    requires Tracks(s)
    ensures var (m, r) := Load(w, src, s, spec, base);
      Tracks(r) && Nests(s, r) && (m.Some? ==> InCache(r.log, m.value.0, m.value.1))
    decreases Names(src) - s.cache.Keys, 0
  {
    var (found, res) := Memo(w, s.res, spec, base);
    if found.Some? && found.value !in s.cache && Seen(res.cwd, found.value) in src {
      var path := found.value;
      var asked, file := s.(res := res), Seen(res.cwd, path);
      var begun := Begin(asked, path);
      SeenIsNamed(src, res.cwd, path);
      assert path in Names(src) - s.cache.Keys && path !in Names(src) - begun.cache.Keys;
      BeginTracks(asked, path);
      RunTracks(w, src, begun, src[file], Dirname(path));
      var (ok, after) := Run(w, src, begun, src[file], Dirname(path));
      assert Keeps(begun, after);
      EndTracks(asked, path, after, ok, Finish(after, path, s.made, ok));
      LoadIsFinish(w, src, s, spec, base);
    }
  }

  /** A module not in the cache is begun, run and finished. */
  lemma LoadIsFinish(w: World, src: Sources, s: State, spec: string, base: string)
    requires var (found, res) := Memo(w, s.res, spec, base);
      found.Some? && found.value !in s.cache && Seen(res.cwd, found.value) in src
    ensures var (found, res) := Memo(w, s.res, spec, base);
      var path := found.value;
      var (ok, after) := Run(w, src, Begin(s.(res := res), path), src[Seen(res.cwd, path)], Dirname(path));
      Load(w, src, s, spec, base) == (if ok then Some((path, s.made)) else None, Finish(after, path, s.made, ok))
  {
    var (found, res) := Memo(w, s.res, spec, base);
    SeenIsNamed(src, res.cwd, found.value);
  }

  lemma BeginTracks(s: State, path: string)
    requires Tracks(s) && path !in s.cache
    ensures Tracks(Begin(s, path))
  {
    LogTracks(s, Begin(s, path), Began(path, s.made));
  }

  lemma {:induction false} RunTracks(w: World, src: Sources, s: State, body: seq<Stmt>, dir: string)
    requires Tracks(s)
    ensures Tracks(Run(w, src, s, body, dir).1) && Nests(s, Run(w, src, s, body, dir).1)
    decreases Names(src) - s.cache.Keys, |body|
  {
    if body != [] && body[0].Move? {
      RunTracks(w, src, s.(res := s.res.(cwd := body[0].dir)), body[1..], dir);
    } else if body != [] && !body[0].Throw? {
      LoadTracks(w, src, s, body[0].spec, dir);
      var (m, after) := Load(w, src, s, body[0].spec, dir);
      var next := Required(after, m);
      RequiredTracks(s, after, m);
      if m.Some? || body[0].Try? {
        RunTracks(w, src, next, body[1..], dir);
        NestsTrans(s, next, Run(w, src, next, body[1..], dir).1);
      }
    }
  }

  /** A load that throws leaves its own module out of the cache. */
  lemma ThrowEvicts(w: World, src: Sources, s: State, spec: string, base: string)
    requires Load(w, src, s, spec, base).0.None? && Memo(w, s.res, spec, base).0.Some?
    ensures Memo(w, s.res, spec, base).0.value !in Load(w, src, s, spec, base).1.cache
  {
  }

  /** Whole programs, on any module graph: started idle, a program ends idle, having kept every
      record; afterwards the cache holds exactly the modules that completed. */
  lemma ProgramKeepsCache(w: World, src: Sources, s: State, body: seq<Stmt>, dir: string)
    requires Tracks(s) && Idle(s.log)
    ensures var r := Run(w, src, s, body, dir).1;
      && Tracks(r) && Idle(r.log) && Keeps(s, r)
      && forall p, id: nat :: (p in r.cache && r.cache[p] == id) <==> Done(p, id) in r.log
  {
    RunTracks(w, src, s, body, dir);
    var r := Run(w, src, s, body, dir).1;
    forall id | 0 <= id < r.made ensures Ended(r.log, id) {
      if id < s.made {
        assert Ended(s.log, id);
        assert forall e :: e in s.log ==> e in r.log[..|s.log|];
      }
    }
    IdleCache(r.log);
    forall p, id: nat ensures (p in r.cache && r.cache[p] == id) <==> Done(p, id) in r.log {
      assert InCache(r.log, p, id) <==> Done(p, id) in r.log;
    }
  }

  // ----- How a throw travels -----

  /** A body runs statement after statement until one throws. */
  lemma {:induction false} RunInTurn(w: World, src: Sources, s: State, a: seq<Stmt>, b: seq<Stmt>, dir: string)
    ensures Run(w, src, s, a + b, dir) ==
      var (ok, mid) := Run(w, src, s, a, dir);
      if ok then Run(w, src, mid, b, dir) else (false, mid)
    decreases |a|
  {
    if a == [] {
      assert a + b == b;
    } else {
      assert (a + b)[1..] == a[1..] + b;
      match a[0]
      case Throw =>
      case Move(d) => RunInTurn(w, src, s.(res := s.res.(cwd := d)), a[1..], b, dir);
      case Need(spec) =>
        var (m, after) := Load(w, src, s, spec, dir);
        RunInTurn(w, src, Required(after, m), a[1..], b, dir);
      case Try(spec) =>
        var (m, after) := Load(w, src, s, spec, dir);
        RunInTurn(w, src, Required(after, m), a[1..], b, dir);
    }
  }

  /** A module that lets a required module's throw through throws itself, and is not cached;
      one that catches it goes on. */
  lemma ThrowTravels(
      w: World, src: Sources, s: State, spec: string, base: string,
      before: seq<Stmt>, dep: string, caught: bool, rest: seq<Stmt>)
    requires var (path, res) := Memo(w, s.res, spec, base);
      && path.Some? && path.value !in s.cache && Seen(res.cwd, path.value) in src
      && src[Seen(res.cwd, path.value)] == before + [if caught then Try(dep) else Need(dep)] + rest
    ensures var path, res := Memo(w, s.res, spec, base).0.value, Memo(w, s.res, spec, base).1;
      var dir := Dirname(path);
      var (ok, mid) := Run(w, src, Begin(s.(res := res), path), before, dir);
      var (m, after) := Load(w, src, mid, dep, dir);
      ok && m.None? ==>
        var (loaded, end) := Load(w, src, s, spec, base);
        if caught then end == Finish(Run(w, src, after, rest, dir).1, path, s.made, Run(w, src, after, rest, dir).0)
        else loaded.None? && end == Finish(after, path, s.made, false) && path !in end.cache
  {
    var path, res := Memo(w, s.res, spec, base).0.value, Memo(w, s.res, spec, base).1;
    var dir, begun := Dirname(path), Begin(s.(res := res), path);
    var call := if caught then Try(dep) else Need(dep);
    var (ok, mid) := Run(w, src, begun, before, dir);
    RunInTurn(w, src, begun, before + [call], rest, dir);
    RunInTurn(w, src, begun, before, [call], dir);
    assert [call][1..] == [];
  }

  /** A body that has a throw in it throws: there, or before. */
  lemma {:induction false} ThrowThrows(w: World, src: Sources, s: State, body: seq<Stmt>, dir: string)
    requires Throw in body
    ensures !Run(w, src, s, body, dir).0
    decreases |body|
  {
    if !body[0].Throw? {
      assert Throw in body[1..];
      match body[0]
      case Move(d) => ThrowThrows(w, src, s.(res := s.res.(cwd := d)), body[1..], dir);
      case Need(spec) =>
        var (m, after) := Load(w, src, s, spec, dir);
        ThrowThrows(w, src, Required(after, m), body[1..], dir);
      case Try(spec) =>
        var (m, after) := Load(w, src, s, spec, dir);
        ThrowThrows(w, src, Required(after, m), body[1..], dir);
    }
  }

  /** Nothing behind a throw runs. */
  lemma ThrowStops(w: World, src: Sources, s: State, a: seq<Stmt>, b: seq<Stmt>, dir: string)
    ensures Run(w, src, s, a + [Throw] + b, dir) == (false, Run(w, src, s, a, dir).1)
  {
    RunInTurn(w, src, s, a + [Throw], b, dir);
    RunInTurn(w, src, s, a, [Throw], dir);
  }

  /** A module with a throw in it cannot be loaded: its record ends failed, and is not cached. */
  lemma ThrowingLoad(w: World, src: Sources, s: State, spec: string, base: string)
    requires var (path, res) := Memo(w, s.res, spec, base);
      && path.Some? && path.value !in s.cache
      && Seen(res.cwd, path.value) in src && Throw in src[Seen(res.cwd, path.value)]
    ensures var path := Memo(w, s.res, spec, base).0.value;
      var (m, r) := Load(w, src, s, spec, base);
      && m.None? && path !in r.cache
      && r.log != [] && r.log[|r.log| - 1] == Failed(path, s.made)
  {
    var (path, res) := Memo(w, s.res, spec, base);
    LoadIsFinish(w, src, s, spec, base);
    ThrowThrows(w, src, Begin(s.(res := res), path.value), src[Seen(res.cwd, path.value)], Dirname(path.value));
  }

  /** This statement throws: a throw itself, or a require that cannot be loaded. */
  predicate Breaks(w: World, src: Sources, s: State, stmt: Stmt, dir: string) {
    match stmt
    case Throw => true
    case Need(spec) => Load(w, src, s, spec, dir).0.None?
    case Try(_) => false
    case Move(_) => false
  }

  /** One statement by itself. */
  lemma RunOne(w: World, src: Sources, s: State, stmt: Stmt, dir: string)
    ensures var (ok, t) := Run(w, src, s, [stmt], dir);
      && (ok <==> !Breaks(w, src, s, stmt, dir))
      && (stmt.Throw? ==> t == s)
      && (stmt.Move? ==> t == s.(res := t.res) && t.res == s.res.(cwd := stmt.dir))
      && (stmt.Need? || stmt.Try? ==>
          var (m, after) := Load(w, src, s, stmt.spec, dir);
          t == if m.None? then after else after.(log := after.log + [Saw(m.value.0, m.value.1)]))
  {
    assert [stmt][1..] == [];
  }

  /** A body throws if and only if some statement of it does, all before it having run. */
  lemma {:induction false} RunFailsIff(w: World, src: Sources, s: State, body: seq<Stmt>, dir: string)
    ensures !Run(w, src, s, body, dir).0 <==>
      exists i :: 0 <= i < |body| && Run(w, src, s, body[..i], dir).0
        && Breaks(w, src, Run(w, src, s, body[..i], dir).1, body[i], dir)
    decreases |body|
  {
    if body != [] {
      var prior, last := body[..|body| - 1], body[|body| - 1];
      assert body == prior + [last];
      RunInTurn(w, src, s, prior, [last], dir);
      RunFailsIff(w, src, s, prior, dir);
      var (ok, m) := Run(w, src, s, prior, dir);
      RunOne(w, src, m, last, dir);
      assert forall i :: 0 <= i < |prior| ==> prior[..i] == body[..i] && prior[i] == body[i];
      if ok && Breaks(w, src, m, last, dir) {
        assert body[..|body| - 1] == prior;
      }
    }
  }

  /** The file of a path can be read, and its body runs to its end. */
  predicate Runs(w: World, src: Sources, s: State, path: string) {
    && Seen(s.res.cwd, path) in src
    && Run(w, src, Begin(s, path), src[Seen(s.res.cwd, path)], Dirname(path)).0
  }

  /** A load throws if and only if the spec does not resolve, or what it resolves to is not cached
      and cannot be read or throws; a cached module is handed out without running anything. */
  lemma LoadFailsIff(w: World, src: Sources, s: State, spec: string, base: string)
    ensures var (path, res) := Memo(w, s.res, spec, base);
      var asked := s.(res := res);
      var (m, r) := Load(w, src, s, spec, base);
      && (m.None? <==> (path.None? || (path.value !in s.cache && !Runs(w, src, asked, path.value))))
      && (m.Some? ==> m.value.0 == path.value && path.value in r.cache && r.cache[path.value] == m.value.1)
      && (path.Some? && path.value in s.cache ==> r == asked)
  {
    var (path, res) := Memo(w, s.res, spec, base);
    if path.Some? && path.value !in s.cache && Seen(res.cwd, path.value) in src {
      LoadIsFinish(w, src, s, spec, base);
    }
  }
}
