// qinit's running services: a service instance built from its configuration,
// the templating of its command line, and the manager that starts services
// once the services they need are running and tracks their process states.
module Services {
  import opened Wrappers
  import Text
  import SC = ServiceConfigs
  import G = Graph

  /** A process id, as `nix::unistd::Pid` wraps it. */
  type Pid = int

  /** A signal number. */
  type Signal = int

  datatype ServiceState =
    | Error(reason: string)
    | Stopped
    | Started(pid: Pid)
    | Running(pid: Pid)
    | Signaled(pid: Pid, signal: Signal)
    | Terminated(code: int)

  /** When a service counts as started: once its process runs, or once it has exited cleanly. */
  datatype StartMode = Run | Done

  datatype Service = Service(
    name: string,
    args: map<string, string>,
    command: string,
    state: ServiceState,
    permissions: SC.Permissions,
    runtimeDirectory: Option<string>,
    startMode: StartMode)

  /** `Service::new`: an instance of a configured service with the given arguments, not yet started. */
  function NewService(config: SC.ServiceConfig, args: map<string, string>, mode: StartMode): (s: Service)
    ensures s.state == Stopped
    ensures s.name == config.name && s.args == args && s.command == config.service.command
    ensures s.permissions == config.permissions && s.runtimeDirectory == config.runtimeDirectory
    ensures s.startMode == mode
  {
    Service(config.name, args, config.service.command, Stopped, config.permissions, config.runtimeDirectory, mode)
  }

  // ---------------------------------------------------------------------------
  // Matching

  /** s satisfies a request for other: the same name, and every argument other asks for is bound to the same value in s. */
  predicate Matches(s: Service, other: Service)
  {
    s.name == other.name && forall k :: k in other.args ==> k in s.args && s.args[k] == other.args[k]
  }

  /** `Service::matches`, walking the requested arguments and stopping at the first one that differs. */
  method ServiceMatches(s: Service, other: Service) returns (m: bool)
    ensures m <==> Matches(s, other)
  {
    if s.name != other.name {
      return false;
    }
    var todo := other.args.Keys;
    while todo != {}
      invariant todo <= other.args.Keys
      invariant forall k :: k in other.args && k !in todo ==> k in s.args && s.args[k] == other.args[k]
      decreases todo
    {
      var k :| k in todo;
      if k !in s.args || s.args[k] != other.args[k] {
        return false;
      }
      todo := todo - {k};
    }
    return true;
  }

  /** Every service satisfies a request for itself. */
  lemma MatchesReflexive(s: Service)
    ensures Matches(s, s)
  {
  }

  /** Satisfying is transitive: a service that satisfies a narrower request satisfies the wider one. */
  lemma MatchesTransitive(a: Service, b: Service, c: Service)
    requires Matches(a, b) && Matches(b, c)
    ensures Matches(a, c)
  {
  }

  /** Matching looks at names and arguments only, never at the process state. */
  lemma MatchesIgnoresState(s: Service, other: Service, st: ServiceState, st2: ServiceState)
    ensures Matches(s.(state := st), other.(state := st2)) <==> Matches(s, other)
  {
  }

  /** A request with no arguments is satisfied by any service of that name. */
  lemma MatchesByName(s: Service, other: Service)
    requires other.args == map[]
    ensures Matches(s, other) <==> s.name == other.name
  {
  }

  // ---------------------------------------------------------------------------
  // Templating and argument splitting

  /** The placeholder for an argument in a command line: "${key}". */
  function Placeholder(key: string): (p: string)
    ensures |p| == |key| + 3
    ensures p[..2] == "${" && p[2..|p| - 1] == key && p[|p| - 1] == '}'
  {
    "${" + key + "}"
  }

  /** The orders in which a map's keys can be visited: each key once. */
  ghost predicate KeyOrder(order: seq<string>, args: map<string, string>)
  {
    && G.Distinct(order)
    && (forall i :: 0 <= i < |order| ==> order[i] in args)
    && (forall k :: k in args ==> k in order)
  }

  /** A key order visits exactly as many keys as the map has. */
  lemma KeyOrderLength(order: seq<string>, args: map<string, string>)
    requires KeyOrder(order, args)
    ensures |order| == |args|
  {
    G.DistinctCardinality(order);
    assert (set x | x in order) == args.Keys;
  }

  /** Every placeholder of the keys in order, replaced in that order by its value. */
  ghost function Substitute(word: string, order: seq<string>, args: map<string, string>): string
    requires forall i :: 0 <= i < |order| ==> order[i] in args
    decreases |order|
  {
    if order == [] then word
    else
      var k := order[|order| - 1];
      Text.ReplaceAll(Substitute(word, order[..|order| - 1], args), Placeholder(k), args[k])
  }

  /** Visits the keys of a map in some order (a `HashMap`'s iteration order is unspecified). */
  method IterationOrder(args: map<string, string>) returns (order: seq<string>)
    ensures KeyOrder(order, args)
  {
    order := [];
    var todo := args.Keys;
    while todo != {}
      invariant todo <= args.Keys
      invariant forall i, j :: 0 <= i < j < |order| ==> order[i] != order[j]
      invariant forall i :: 0 <= i < |order| ==> order[i] in args && order[i] !in todo
      invariant forall k :: k in args ==> k in todo || k in order
      decreases todo
    {
      var k :| k in todo;
      order := order + [k];
      todo := todo - {k};
    }
  }

  /** `Service::template`: each argument's placeholder replaced by its value, one argument after another. */
  method Template(word: string, args: map<string, string>, order: seq<string>) returns (r: string)
    requires KeyOrder(order, args)
    ensures r == Substitute(word, order, args)
  {
    r := word;
    var i := 0;
    while i < |order|
      invariant 0 <= i <= |order|
      invariant r == Substitute(word, order[..i], args)
    {
      assert order[..i + 1][..i] == order[..i];
      r := Text.ReplaceAll(r, Placeholder(order[i]), args[order[i]]);
      i := i + 1;
    }
    assert order[..|order|] == order;
  }

  /** Templating leaves a word alone when it holds no "${". */
  lemma {:induction false} SubstituteNoPlaceholder(word: string, order: seq<string>, args: map<string, string>)
    requires forall i :: 0 <= i < |order| ==> order[i] in args
    requires !Text.Contains(word, "${")
    ensures Substitute(word, order, args) == word
    decreases |order|
  {
    if order != [] {
      var k := order[|order| - 1];
      SubstituteNoPlaceholder(word, order[..|order| - 1], args);
      PlaceholderAbsent(word, k);
      Text.ReplaceAbsent(word, Placeholder(k), args[k]);
    }
  }

  /** A word without "${" holds no placeholder. */
  lemma PlaceholderAbsent(word: string, k: string)
    requires !Text.Contains(word, "${")
    ensures !Text.Contains(word, Placeholder(k))
  {
    var p := Placeholder(k);
    if Text.Contains(word, p) {
      var j :| 0 <= j <= |word| && Text.OccursAt(word, p, j);
      assert word[j..j + 2] == p[..2];
      assert Text.OccursAt(word, "${", j);
    }
  }

  /** A character that neither the word nor any value holds cannot appear after templating. */
  lemma {:induction false} SubstituteFree(word: string, order: seq<string>, args: map<string, string>, c: char)
    requires forall i :: 0 <= i < |order| ==> order[i] in args
    requires c !in word && forall k :: k in args ==> c !in args[k]
    ensures c !in Substitute(word, order, args)
    decreases |order|
  {
    if order != [] {
      var k := order[|order| - 1];
      SubstituteFree(word, order[..|order| - 1], args, c);
      Text.ReplaceAllFree(Substitute(word, order[..|order| - 1], args), Placeholder(k), args[k], c);
    }
  }

  /** With one argument there is one order, and templating is a single replacement. */
  lemma TemplateSingle(word: string, key: string, value: string, order: seq<string>)
    requires KeyOrder(order, map[key := value])
    ensures Substitute(word, order, map[key := value]) == Text.ReplaceAll(word, Placeholder(key), value)
  {
    KeyOrderLength(order, map[key := value]);
    assert order[0] in map[key := value];
    assert order == [key];
  }

  /** The words of a command line, as `split_whitespace` cuts them. */
  function Words(command: string): (ws: seq<string>)
    ensures forall i :: 0 <= i < |ws| ==> |ws[i]| > 0
  {
    Text.SplitWords(command, Text.IsWhitespace)
  }

  /** The templated words, in the given key order. */
  ghost function TemplatedWords(words: seq<string>, order: seq<string>, args: map<string, string>): (r: seq<string>)
    requires forall i :: 0 <= i < |order| ==> order[i] in args
    ensures |r| == |words|
  {
    seq(|words|, i requires 0 <= i < |words| => Substitute(words[i], order, args))
  }

  /** The command lines that have no words at all. */
  predicate Blank(command: string)
  {
    forall i :: 0 <= i < |command| ==> Text.IsWhitespace(command[i])
  }

  /** Neither the command nor an argument value holds a NUL, so every templated word is a valid C string. */
  predicate NulFree(s: Service)
  {
    '\0' !in s.command && forall k :: k in s.args ==> '\0' !in s.args[k]
  }

  /** argv is every word of the command templated in the key order, and none holds a NUL. */
  ghost predicate SplitInto(s: Service, order: seq<string>, argv: seq<string>)
  {
    && KeyOrder(order, s.args)
    && argv == TemplatedWords(Words(s.command), order, s.args)
    && forall i :: 0 <= i < |argv| ==> '\0' !in argv[i]
  }

  /** The i-th word, templated in the key order, holds a NUL. */
  ghost predicate NulAt(s: Service, order: seq<string>, i: int)
  {
    && KeyOrder(order, s.args)
    && 0 <= i < |Words(s.command)|
    && '\0' in TemplatedWords(Words(s.command), order, s.args)[i]
  }

  /** Why `CString::new` refuses a templated word. */
  const NulReason := "nul byte found in provided data"

  /**
   * `Service::split_args` with the arguments visited in `order`: no words
   * gives `Ok(None)`; otherwise every word is templated and a templated word
   * that holds a NUL fails the conversion to a C string.
   */
  method SplitArgs(s: Service, order: seq<string>) returns (r: Result<Option<seq<string>>, string>)
    requires KeyOrder(order, s.args)
    ensures r == Ok(None) <==> Blank(s.command)
    ensures r.Ok? && r.value.Some? ==> SplitInto(s, order, r.value.value)
    ensures r.Err? <==> !Blank(s.command) && exists i :: NulAt(s, order, i)
    ensures r.Err? ==> r.error == NulReason
    ensures NulFree(s) ==> r.Ok?
  {
    var words := Words(s.command);
    Text.SplitWordsNone(s.command, Text.IsWhitespace);
    if words == [] {
      return Ok(None);
    }
    ghost var all := TemplatedWords(words, order, s.args);
    if NulFree(s) {
      Text.SplitWordsFree(s.command, Text.IsWhitespace, '\0');
      forall i | 0 <= i < |words|
        ensures '\0' !in all[i]
      {
        SubstituteFree(words[i], order, s.args, '\0');
      }
    }
    var out := [];
    var i := 0;
    while i < |words|
      invariant 0 <= i <= |words|
      invariant out == all[..i]
      invariant forall j :: 0 <= j < i ==> '\0' !in out[j]
    {
      var t := Template(words[i], s.args, order);
      if '\0' in t {
        assert NulAt(s, order, i);
        return Err(NulReason);
      }
      out := out + [t];
      i := i + 1;
    }
    assert out == all;
    assert SplitInto(s, order, out);
    return Ok(Some(out));
  }

  // ---------------------------------------------------------------------------
  // Starting one service

  /** What `fork` returns in the parent: the child's pid, or the error. */
  datatype ForkResult = Forked(child: Pid) | ForkFailed(errno: int)

  /** The outcome of `Service::start` as the manager sees it. */
  datatype Launch =
    | Launched(service: Service)
    | Failed(reason: string)
      /** The command has no words: `split_args` gives `None` and the `unwrap` panics. */
    | NoCommand

  /** Why a start fails when `fork` does. */
  const ForkReason := "fork failed"

  /**
   * What starting `s` comes to when its arguments are visited in `order` and
   * `fork` returns `forked`: a blank command panics before anything else, a
   * NUL in a templated word fails before the fork, then the fork decides.
   */
  ghost function LaunchOf(s: Service, forked: ForkResult, order: seq<string>): Launch
  {
    if Blank(s.command) then NoCommand
    else if exists i :: NulAt(s, order, i) then Failed(NulReason)
    else if forked.ForkFailed? then Failed(ForkReason)
    else Launched(s.(state := Started(forked.child)))
  }

  /**
   * `Service::start` in the parent process: the arguments are split first,
   * in the key order `order`, then the process is forked with the result
   * `forked`; a forked service is in the `Started` state with the child's pid.
   */
  method StartService(s: Service, forked: ForkResult, order: seq<string>) returns (r: Launch)
    requires KeyOrder(order, s.args)
    ensures r == LaunchOf(s, forked, order)
    ensures r.NoCommand? <==> Blank(s.command)
    ensures r.Launched? ==> forked.Forked? && r.service == s.(state := Started(forked.child))
    ensures !Blank(s.command) && NulFree(s) && forked.Forked? ==> r.Launched?
    ensures forked.ForkFailed? ==> !r.Launched?
  {
    var args := SplitArgs(s, order);
    match args
    case Err(e) =>
      return Failed(e);
    case Ok(None) =>
      return NoCommand;
    case Ok(Some(argv)) =>
      match forked
      case ForkFailed(errno) =>
        return Failed(ForkReason);
      case Forked(child) =>
        return Launched(s.(state := Started(child)));
  }

  // ---------------------------------------------------------------------------
  // Waiters

  /** A service waiting for the services it needs to start. */
  datatype ServiceWaiter = ServiceWaiter(service: Service, waiting: seq<Service>)

  /** The requests that `started` does not satisfy, in their order. */
  ghost function Unsatisfied(started: Service, deps: seq<Service>): seq<Service>
    decreases |deps|
  {
    if deps == [] then []
    else
      var front := Unsatisfied(started, deps[..|deps| - 1]);
      if Matches(started, deps[|deps| - 1]) then front else front + [deps[|deps| - 1]]
  }

  /** A waiter after `started` has been crossed off its list. */
  ghost function Notified(w: ServiceWaiter, started: Service): ServiceWaiter
  {
    w.(waiting := Unsatisfied(started, w.waiting))
  }

  /** `ServiceWaiter::done`. */
  predicate WaiterDone(w: ServiceWaiter)
  {
    w.waiting == []
  }

  /** Exactly the requests that `started` does not satisfy are kept, and no more than there were. */
  lemma {:induction false} UnsatisfiedExactly(started: Service, deps: seq<Service>)
    ensures |Unsatisfied(started, deps)| <= |deps|
    ensures forall d :: d in Unsatisfied(started, deps) ==> d in deps && !Matches(started, d)
    ensures forall d :: d in deps && !Matches(started, d) ==> d in Unsatisfied(started, deps)
    decreases |deps|
  {
    if deps != [] {
      var front := deps[..|deps| - 1];
      UnsatisfiedExactly(started, front);
      assert deps == front + [deps[|deps| - 1]];
    }
  }

  /** Crossing off the same service twice changes nothing the second time. */
  lemma {:induction false} UnsatisfiedIdempotent(started: Service, deps: seq<Service>)
    ensures Unsatisfied(started, Unsatisfied(started, deps)) == Unsatisfied(started, deps)
    decreases |deps|
  {
    if deps != [] {
      var front := deps[..|deps| - 1];
      var last := deps[|deps| - 1];
      UnsatisfiedIdempotent(started, front);
      var u := Unsatisfied(started, front);
      if !Matches(started, last) {
        assert (u + [last])[..|u + [last]| - 1] == u;
      }
    }
  }

  /** `ServiceWaiter::notify_service_started`: the `retain` that drops the requests `started` satisfies. */
  method NotifyServiceStarted(w: ServiceWaiter, started: Service) returns (r: ServiceWaiter)
    ensures r == Notified(w, started)
  {
    var kept := [];
    var i := 0;
    while i < |w.waiting|
      invariant 0 <= i <= |w.waiting|
      invariant kept == Unsatisfied(started, w.waiting[..i])
    {
      assert w.waiting[..i + 1][..i] == w.waiting[..i];
      var m := ServiceMatches(started, w.waiting[i]);
      if !m {
        kept := kept + [w.waiting[i]];
      }
      i := i + 1;
    }
    assert w.waiting[..|w.waiting|] == w.waiting;
    r := w.(waiting := kept);
  }

  /** The pending list after a sweep for `started`, and the waiters it releases, both in order. */
  ghost function Sweep(ws: seq<ServiceWaiter>, started: Service): (r: (seq<ServiceWaiter>, seq<ServiceWaiter>))
    decreases |ws|
  {
    if ws == [] then ([], [])
    else
      var (kept, ready) := Sweep(ws[..|ws| - 1], started);
      var w := Notified(ws[|ws| - 1], started);
      if WaiterDone(w) then (kept, ready + [w]) else (kept + [w], ready)
  }

  /**
   * A sweep splits the waiters: those with requests left stay pending, those
   * with none are released, and every waiter lands on exactly one side.
   */
  lemma {:induction false} SweepPartition(ws: seq<ServiceWaiter>, started: Service)
    ensures |Sweep(ws, started).0| + |Sweep(ws, started).1| == |ws|
    ensures forall w :: w in Sweep(ws, started).0 ==> !WaiterDone(w)
    ensures forall w :: w in Sweep(ws, started).1 ==> WaiterDone(w)
    ensures forall i :: 0 <= i < |ws| && WaiterDone(Notified(ws[i], started)) ==> Notified(ws[i], started) in Sweep(ws, started).1
    ensures forall i :: 0 <= i < |ws| && !WaiterDone(Notified(ws[i], started)) ==> Notified(ws[i], started) in Sweep(ws, started).0
    decreases |ws|
  {
    if ws != [] {
      var front := ws[..|ws| - 1];
      SweepPartition(front, started);
      forall i | 0 <= i < |ws| - 1
        ensures ws[i] == front[i]
      {
      }
    }
  }

  // ---------------------------------------------------------------------------
  // Process states

  /** A process state holding a live pid: `Started(p)` or `Running(p)`. */
  predicate LiveWith(s: Service, pid: Pid)
  {
    (s.state.Started? || s.state.Running?) && s.state.pid == pid
  }

  /** The first managed service whose process is pid and still live, as `iter_mut().find` picks it. */
  function FirstLive(services: seq<Service>, pid: Pid): (r: Option<nat>)
    ensures r.Some? ==>
      && r.value < |services| && LiveWith(services[r.value], pid)
      && forall j :: 0 <= j < r.value ==> !LiveWith(services[j], pid)
    ensures r.None? ==> forall j :: 0 <= j < |services| ==> !LiveWith(services[j], pid)
    decreases |services|
  {
    if services == [] then None
    else if LiveWith(services[0], pid) then Some(0)
    else match FirstLive(services[1..], pid)
      case None => None
      case Some(i) => Some(i + 1)
  }

  /** `is_running`, as a value: the first managed service that satisfies the request decides, by whether it is `Running`. */
  ghost function RunningIn(services: seq<Service>, wants: Service): bool
    decreases |services|
  {
    if services == [] then false
    else if Matches(services[0], wants) then services[0].state.Running?
    else RunningIn(services[1..], wants)
  }

  /** services[i] is the first managed service that satisfies the request, and it is running. */
  ghost predicate FirstMatchRunning(services: seq<Service>, wants: Service, i: int)
  {
    && 0 <= i < |services| && Matches(services[i], wants) && services[i].state.Running?
    && forall j :: 0 <= j < i ==> !Matches(services[j], wants)
  }

  /** A request is running exactly when its first satisfying service is in the `Running` state. */
  lemma {:induction false} RunningInFirst(services: seq<Service>, wants: Service)
    ensures RunningIn(services, wants) <==> exists i :: FirstMatchRunning(services, wants, i)
    decreases |services|
  {
    if services != [] && Matches(services[0], wants) {
      if services[0].state.Running? {
        assert FirstMatchRunning(services, wants, 0);
      }
      forall i | FirstMatchRunning(services, wants, i)
        ensures i == 0
      {
      }
    }
    if services != [] && !Matches(services[0], wants) {
      RunningInFirst(services[1..], wants);
      if RunningIn(services, wants) {
        var i :| FirstMatchRunning(services[1..], wants, i);
        assert forall j :: 0 <= j < i + 1 ==> !Matches(services[j], wants) by {
          assert forall j :: 1 <= j < i + 1 ==> services[j] == services[1..][j - 1];
        }
        assert FirstMatchRunning(services, wants, i + 1);
      }
      if exists i :: FirstMatchRunning(services, wants, i) {
        var i :| FirstMatchRunning(services, wants, i);
        assert i > 0;
        assert forall j :: 0 <= j < i - 1 ==> !Matches(services[1..][j], wants) by {
          assert forall j :: 0 <= j < i - 1 ==> services[1..][j] == services[j + 1];
        }
        assert FirstMatchRunning(services[1..], wants, i - 1);
      }
    }
  }

  /** The requested services that are not running, in their order. */
  ghost function Unmet(services: seq<Service>, deps: seq<Service>): seq<Service>
    decreases |deps|
  {
    if deps == [] then []
    else
      var front := Unmet(services, deps[..|deps| - 1]);
      if RunningIn(services, deps[|deps| - 1]) then front else front + [deps[|deps| - 1]]
  }

  /** Exactly the requests that are not running are unmet. */
  lemma {:induction false} UnmetExactly(services: seq<Service>, deps: seq<Service>)
    ensures forall d :: d in Unmet(services, deps) ==> d in deps && !RunningIn(services, d)
    ensures forall d :: d in deps && !RunningIn(services, d) ==> d in Unmet(services, deps)
    decreases |deps|
  {
    if deps != [] {
      var front := deps[..|deps| - 1];
      UnmetExactly(services, front);
      assert deps == front + [deps[|deps| - 1]];
    }
  }

  /** A managed service that satisfies the request already exists. */
  predicate Managed(services: seq<Service>, service: Service)
  {
    exists i :: 0 <= i < |services| && Matches(services[i], service)
  }

  /**
   * How the managed list may change while services start: entries are only
   * appended, and an existing entry changes at most from `Started(p)` to `Running(p)`.
   */
  ghost predicate Evolved(before: seq<Service>, after: seq<Service>)
  {
    && |before| <= |after|
    && forall i :: 0 <= i < |before| ==>
      || after[i] == before[i]
      || (before[i].state.Started? && after[i] == before[i].(state := Running(before[i].state.pid)))
  }

  lemma EvolvedTransitive(a: seq<Service>, b: seq<Service>, c: seq<Service>)
    requires Evolved(a, b) && Evolved(b, c)
    ensures Evolved(a, c)
  {
  }

  /** Appending services is an evolution. */
  lemma EvolvedAppend(a: seq<Service>, more: seq<Service>)
    ensures Evolved(a, a + more)
  {
  }

  /** Marking a started service running is an evolution. */
  lemma EvolvedMark(a: seq<Service>, i: nat)
    requires i < |a| && a[i].state.Started?
    ensures Evolved(a, a[i := a[i].(state := Running(a[i].state.pid))])
  {
  }

  /** A service was handed to the manager once it was forked: never `Stopped`, never `Error`. */
  predicate WasLaunched(s: Service)
  {
    !s.state.Stopped? && !s.state.Error?
  }

  /** What `waitpid` reports, as nix's `WaitStatus` names it. */
  datatype WaitStatus =
    | Exited(pid: Pid, code: int)
    | SignaledStatus(pid: Pid, signal: Signal, coreDumped: bool)
    | StoppedStatus(pid: Pid, signal: Signal)
    | Continued(pid: Pid)
    | PtraceEvent(pid: Pid, signal: Signal, event: int)
    | PtraceSyscall(pid: Pid)
    | StillAlive

  /** `WaitStatus::pid`. */
  function StatusPid(status: WaitStatus): (r: Option<Pid>)
    ensures r.None? <==> status.StillAlive?
    ensures r.Some? ==> r.value == status.pid
  {
    if status.StillAlive? then None else Some(status.pid)
  }

  /** The state a live service moves to on a status report; `None` for reports that are only logged. */
  function StatusState(status: WaitStatus): (r: Option<ServiceState>)
    requires !status.StillAlive?
    ensures status.Exited? ==> r == Some(Terminated(status.code))
    ensures status.SignaledStatus? || status.StoppedStatus? ==> r == Some(Signaled(status.pid, status.signal))
    ensures status.Continued? ==> r == Some(Running(status.pid))
    ensures r.None? <==> status.PtraceEvent? || status.PtraceSyscall?
    ensures r.Some? ==> !r.value.Stopped? && !r.value.Error?
  {
    match status
    case Exited(_, code) => Some(Terminated(code))
    case SignaledStatus(pid, signal, _) => Some(Signaled(pid, signal))
    case StoppedStatus(pid, signal) => Some(Signaled(pid, signal))
    case Continued(pid) => Some(Running(pid))
    case PtraceEvent(_, _, _) => None
    case PtraceSyscall(_) => None
  }

  // ---------------------------------------------------------------------------
  // The service manager

  /**
   * The manager's state as a value: the managed services, the waiters, the
   * number of forks so far and whether a start has panicked.
   */
  datatype Manager = Manager(services: seq<Service>, pending: seq<ServiceWaiter>, attempts: nat, panicked: bool)

  /**
   * What `start(service)` does to `m`, when the k-th fork returns `fork(k)`
   * and an argument map's keys are visited in the order `keyOrder` gives. A
   * panicked manager starts nothing more; a blank command panics; a launched
   * service is appended and, in `Run` mode, marked running.
   */
  ghost function StartEffect(fork: nat -> ForkResult, keyOrder: map<string, string> -> seq<string>, m: Manager, service: Service): (r: Manager)
    ensures |r.pending| <= |m.pending|
    decreases |m.pending|, 3, 0
  {
    if m.panicked then m
    else match LaunchOf(service, fork(m.attempts), keyOrder(service.args))
      case NoCommand => m.(panicked := true)
      case Failed(_) => m.(attempts := m.attempts + 1)
      case Launched(s) => Admitted(fork, keyOrder, m.(attempts := m.attempts + 1), s)
  }

  /** A launched service appended to `m`'s managed list and, in `Run` mode, marked running. */
  ghost function Admitted(fork: nat -> ForkResult, keyOrder: map<string, string> -> seq<string>, m: Manager, s: Service): (r: Manager)
    requires s.state.Started?
    ensures |r.pending| <= |m.pending|
    decreases |m.pending|, 2, 0
  {
    var next := m.(services := m.services + [s]);
    if s.startMode == Run then MarkEffect(fork, keyOrder, next, s.state.pid) else next
  }

  /** What `mark_service_running(pid)` does to `m`. */
  ghost function MarkEffect(fork: nat -> ForkResult, keyOrder: map<string, string> -> seq<string>, m: Manager, pid: Pid): (r: Manager)
    ensures |r.pending| <= |m.pending|
    decreases |m.pending|, 1, 0
  {
    match FirstLive(m.services, pid)
    case None => m
    case Some(i) =>
      if m.services[i].state.Running? then m
      else
        var services := m.services[i := m.services[i].(state := Running(pid))];
        SweepEffect(fork, keyOrder, m.(services := services), services[i])
  }

  /** What `trigger_start_sweep(started)` does to `m`: the released waiters' services are started in order. */
  ghost function SweepEffect(fork: nat -> ForkResult, keyOrder: map<string, string> -> seq<string>, m: Manager, started: Service): (r: Manager)
    ensures |r.pending| <= |m.pending|
    decreases |m.pending|, 0, 0
  {
    SweepPartition(m.pending, started);
    var (kept, ready) := Sweep(m.pending, started);
    if ready == [] then m.(pending := kept)
    else StartAll(fork, keyOrder, m.(pending := kept), ready, |kept|)
  }

  /** Starting each waiter's service in turn; `bound` caps the pending list for termination. */
  ghost function StartAll(fork: nat -> ForkResult, keyOrder: map<string, string> -> seq<string>, m: Manager, ready: seq<ServiceWaiter>, bound: nat): (r: Manager)
    requires |m.pending| <= bound
    ensures |r.pending| <= |m.pending|
    decreases bound, 4, |ready|
  {
    if ready == [] then m
    else StartAll(fork, keyOrder, StartEffect(fork, keyOrder, m, ready[0].service), ready[1..], bound)
  }

  /** Once a start has panicked, the rest of a sweep starts nothing: the panic ends the manager. */
  lemma {:induction false} StartAllAfterPanic(fork: nat -> ForkResult, keyOrder: map<string, string> -> seq<string>, m: Manager, ready: seq<ServiceWaiter>, bound: nat)
    requires m.panicked && |m.pending| <= bound
    ensures StartAll(fork, keyOrder, m, ready, bound) == m
    decreases |ready|
  {
    if ready != [] {
      StartAllAfterPanic(fork, keyOrder, m, ready[1..], bound);
    }
  }

  /** Starting the waiters from the j-th on is starting the j-th, then the rest. */
  lemma StartAllStep(fork: nat -> ForkResult, keyOrder: map<string, string> -> seq<string>, m: Manager, ready: seq<ServiceWaiter>, j: nat, bound: nat)
    requires |m.pending| <= bound && j < |ready|
    ensures StartAll(fork, keyOrder, m, ready[j..], bound)
      == StartAll(fork, keyOrder, StartEffect(fork, keyOrder, m, ready[j].service), ready[j + 1..], bound)
  {
    assert ready[j..][1..] == ready[j + 1..];
  }

  /** What `set_process_status(status)` does to `m`. */
  ghost function StatusEffect(fork: nat -> ForkResult, keyOrder: map<string, string> -> seq<string>, m: Manager, status: WaitStatus): Manager
  {
    if status.StillAlive? then m
    else match FirstLive(m.services, status.pid)
      case None => m
      case Some(i) =>
        match StatusState(status)
        case None => m
        case Some(st) =>
          var services := m.services[i := m.services[i].(state := st)];
          if status.Exited? && status.code == 0 && services[i].startMode == Done
          then SweepEffect(fork, keyOrder, m.(services := services), services[i])
          else m.(services := services)
  }

  /**
   * `ServiceManager`: the services it has started and the services waiting
   * for others. `fork` gives the result of the k-th start attempt's fork and
   * `keyOrder` the order in which a `HashMap` of arguments is visited;
   * `panicked` records that a start has panicked.
   */
  class ServiceManager {
    var services: seq<Service>
    var pending: seq<ServiceWaiter>
    var attempts: nat
    var panicked: bool
    const fork: nat -> ForkResult
    const keyOrder: map<string, string> -> seq<string>

    /**
     * Every waiter still waits for something, every managed service was
     * forked, and `keyOrder` visits each argument map's keys once.
     */
    ghost predicate Valid()
      reads this
    {
      && (forall i :: 0 <= i < |pending| ==> !WaiterDone(pending[i]))
      && (forall i :: 0 <= i < |services| ==> WasLaunched(services[i]))
      && (forall args :: KeyOrder(keyOrder(args), args))
    }

    /** The manager's state as a value. */
    ghost function State(): Manager
      reads this
    {
      Manager(services, pending, attempts, panicked)
    }

    constructor (fork: nat -> ForkResult, keyOrder: map<string, string> -> seq<string>)
      requires forall args :: KeyOrder(keyOrder(args), args)
      ensures Valid()
      ensures services == [] && pending == [] && attempts == 0 && !panicked
      ensures this.fork == fork && this.keyOrder == keyOrder
    {
      services := [];
      pending := [];
      attempts := 0;
      panicked := false;
      this.fork := fork;
      this.keyOrder := keyOrder;
    }

    /** `is_running`: the first managed service that satisfies the request decides. */
    method IsRunning(wants: Service) returns (b: bool)
      ensures b == RunningIn(services, wants)
    {
      var i := 0;
      while i < |services|
        invariant 0 <= i <= |services|
        invariant RunningIn(services, wants) == RunningIn(services[i..], wants)
      {
        assert services[i..][1..] == services[i + 1..];
        var m := ServiceMatches(services[i], wants);
        if m {
          return services[i].state.Running?;
        }
        i := i + 1;
      }
      return false;
    }

    /**
     * `queue`: nothing happens when a managed service already satisfies the
     * request; otherwise the service starts at once when everything it needs
     * is running, and waits for the unmet requests when not.
     */
    method Queue(service: Service, dependencies: seq<Service>)
      modifies this
      requires Valid()
      ensures Valid()
      ensures Evolved(old(services), services) && |pending| <= |old(pending)| + 1
      ensures Managed(old(services), service) ==> State() == old(State())
      ensures !Managed(old(services), service) && Unmet(old(services), dependencies) != [] ==>
        && services == old(services) && attempts == old(attempts) && panicked == old(panicked)
        && pending == old(pending) + [ServiceWaiter(service, Unmet(old(services), dependencies))]
      ensures !Managed(old(services), service) && Unmet(old(services), dependencies) == [] ==>
        && State() == StartEffect(fork, keyOrder, old(State()), service)
        && (!old(panicked) && !Blank(service.command) ==> attempts > old(attempts))
    {
      var i := 0;
      while i < |services|
        invariant 0 <= i <= |services|
        invariant State() == old(State())
        invariant forall j :: 0 <= j < i ==> !Matches(services[j], service)
      {
        var m := ServiceMatches(services[i], service);
        if m {
          return;
        }
        i := i + 1;
      }
      var unmet := [];
      i := 0;
      while i < |dependencies|
        invariant 0 <= i <= |dependencies|
        invariant State() == old(State())
        invariant unmet == Unmet(services, dependencies[..i])
      {
        assert dependencies[..i + 1][..i] == dependencies[..i];
        var running := IsRunning(dependencies[i]);
        if !running {
          unmet := unmet + [dependencies[i]];
        }
        i := i + 1;
      }
      assert dependencies[..|dependencies|] == dependencies;
      if unmet == [] {
        Start(service);
      } else {
        pending := pending + [ServiceWaiter(service, unmet)];
      }
    }

    /**
     * `ServiceManager::start`: the service is forked with the next fork result;
     * a forked service is appended to the managed list and, in `Run` mode,
     * marked running at once. A start that fails changes nothing else, and a
     * blank command panics in the `unwrap` before any fork.
     */
    method Start(service: Service)
      modifies this
      requires Valid()
      ensures Valid()
      ensures State() == StartEffect(fork, keyOrder, old(State()), service)
      ensures Evolved(old(services), services) && |pending| <= |old(pending)|
      ensures old(panicked) ==> State() == old(State())
      ensures !old(panicked) && Blank(service.command) ==>
        State() == old(State()).(panicked := true)
      ensures !old(panicked) && !Blank(service.command) ==> attempts > old(attempts)
      ensures attempts >= old(attempts) && (old(panicked) ==> panicked)
      ensures |services| == |old(services)| ==>
        && services == old(services) && pending == old(pending)
        && attempts == old(attempts) + (if old(panicked) || Blank(service.command) then 0 else 1)
      ensures old(fork(attempts)).ForkFailed? || Blank(service.command) ==> |services| == |old(services)|
      ensures !old(panicked) && !Blank(service.command) && NulFree(service) && old(fork(attempts)).Forked? ==>
        |services| > |old(services)|
      ensures |services| > |old(services)| ==>
        && old(fork(attempts)).Forked?
        && var child := old(fork(attempts)).child;
        && (services[|old(services)|] == service.(state := Started(child))
            || services[|old(services)|] == service.(state := Running(child)))
        && (service.startMode == Done ==>
             services == old(services) + [service.(state := Started(child))] && pending == old(pending))
        && (service.startMode == Run && FirstLive(old(services), child).None? ==>
             services[|old(services)|] == service.(state := Running(child)))
      decreases |pending|, 3
    {
      if panicked {
        return;
      }
      ghost var m := State();
      var launch := StartService(service, fork(attempts), keyOrder(service.args));
      ghost var effect := StartEffect(fork, keyOrder, m, service);
      if launch.NoCommand? {
        panicked := true;
        assert State() == effect;
        return;
      }
      attempts := attempts + 1;
      if launch.Launched? {
        assert effect == Admitted(fork, keyOrder, State(), launch.service);
        Admit(launch.service);
      }
    }

    /**
     * The rest of the start future: a launched service is appended to the
     * managed list and, in `Run` mode, marked running at once.
     */
    method Admit(s: Service)
      modifies this
      requires Valid() && s.state.Started?
      ensures Valid()
      ensures State() == Admitted(fork, keyOrder, old(State()), s)
      ensures Evolved(old(services), services) && |pending| <= |old(pending)|
      ensures attempts >= old(attempts) && (old(panicked) ==> panicked)
      ensures |services| > |old(services)|
      ensures services[|old(services)|] == s || services[|old(services)|] == s.(state := Running(s.state.pid))
      ensures s.startMode == Done ==> services == old(services) + [s] && pending == old(pending)
      ensures s.startMode == Run && FirstLive(old(services), s.state.pid).None? ==>
        services[|old(services)|] == s.(state := Running(s.state.pid))
      decreases |pending|, 2
    {
      var n := |services|;
      services := services + [s];
      if s.startMode == Run {
        ghost var mid := services;
        MarkServiceRunning(s.state.pid);
        EvolvedTransitive(old(services), mid, services);
        if FirstLive(old(services), s.state.pid).None? {
          assert FirstLive(mid, s.state.pid) == Some(n) by {
            FirstLiveAppend(old(services), s);
          }
        }
      }
    }

    /**
     * `mark_service_running`: the first live service with this pid moves from
     * `Started` to `Running` and the waiters are swept for it; an unknown pid
     * and an already running service change nothing.
     */
    method MarkServiceRunning(pid: Pid)
      modifies this
      requires Valid()
      ensures Valid()
      ensures State() == MarkEffect(fork, keyOrder, old(State()), pid)
      ensures Evolved(old(services), services) && |pending| <= |old(pending)|
      ensures attempts >= old(attempts) && (old(panicked) ==> panicked)
      ensures FirstLive(old(services), pid).None? ==> State() == old(State())
      ensures FirstLive(old(services), pid).Some? ==>
        var i := FirstLive(old(services), pid).value;
        && (old(services)[i].state.Running? ==> State() == old(State()))
        && (old(services)[i].state.Started? ==>
              Evolved(old(services)[i := old(services)[i].(state := Running(pid))], services))
      decreases |pending|, 1
    {
      var found := FirstLive(services, pid);
      if found.None? {
        return;
      }
      var i := found.value;
      if services[i].state.Running? {
        return;
      }
      EvolvedMark(services, i);
      services := services[i := services[i].(state := Running(pid))];
      ghost var mid := services;
      TriggerStartSweep(services[i]);
      EvolvedTransitive(old(services), mid, services);
    }

    /**
     * `trigger_start_sweep`: `started` is crossed off every waiter's list, the
     * waiters with nothing left are taken out of the pending list, and each of
     * them is started, in order.
     */
    method TriggerStartSweep(started: Service)
      modifies this
      requires Valid()
      ensures Valid()
      ensures State() == SweepEffect(fork, keyOrder, old(State()), started)
      ensures Evolved(old(services), services) && |pending| <= |old(pending)|
      ensures attempts >= old(attempts) && (old(panicked) ==> panicked)
      ensures panicked || attempts >= old(attempts) + |Sweep(old(pending), started).1|
      ensures Sweep(old(pending), started).1 == [] ==>
        State() == old(State()).(pending := Sweep(old(pending), started).0)
      decreases |pending|, 0
    {
      var kept, ready := SweepWaiters(started);
      SweepPartition(pending, started);
      assert forall k :: 0 <= k < |kept| ==> !WaiterDone(kept[k]) by {
        assert forall k :: 0 <= k < |kept| ==> kept[k] in kept;
      }
      pending := kept;
      if ready != [] {
        StartReleased(ready);
      }
    }

    /** The `extract_if` of `trigger_start_sweep`: every waiter notified, split into those to keep and those released. */
    method SweepWaiters(started: Service) returns (kept: seq<ServiceWaiter>, ready: seq<ServiceWaiter>)
      ensures (kept, ready) == Sweep(pending, started)
    {
      kept := [];
      ready := [];
      var i := 0;
      while i < |pending|
        invariant 0 <= i <= |pending|
        invariant (kept, ready) == Sweep(pending[..i], started)
      {
        assert pending[..i + 1][..i] == pending[..i];
        var w := NotifyServiceStarted(pending[i], started);
        if WaiterDone(w) {
          ready := ready + [w];
        } else {
          kept := kept + [w];
        }
        i := i + 1;
      }
      assert pending[..|pending|] == pending;
    }

    /** The `for` loop of `trigger_start_sweep`: each released waiter's service is started, in order. */
    method StartReleased(ready: seq<ServiceWaiter>)
      modifies this
      requires Valid()
      ensures Valid()
      ensures State() == StartAll(fork, keyOrder, old(State()), ready, |old(pending)|)
      ensures Evolved(old(services), services) && |pending| <= |old(pending)|
      ensures attempts >= old(attempts) && (old(panicked) ==> panicked)
      ensures panicked || attempts >= old(attempts) + |ready|
      decreases |pending|, 4
    {
      var j := 0;
      while j < |ready|
        invariant 0 <= j <= |ready|
        invariant Valid()
        invariant Evolved(old(services), services) && |pending| <= |old(pending)|
        invariant attempts >= old(attempts) && (old(panicked) ==> panicked)
        invariant panicked || attempts >= old(attempts) + j
        invariant StartAll(fork, keyOrder, State(), ready[j..], |old(pending)|) == StartAll(fork, keyOrder, old(State()), ready, |old(pending)|)
      {
        ghost var before := services;
        StartAllStep(fork, keyOrder, State(), ready, j, |old(pending)|);
        Start(ready[j].service);
        EvolvedTransitive(old(services), before, services);
        j := j + 1;
      }
      assert ready[j..] == [];
    }

    /**
     * `set_process_status`: a report for the first live service with the
     * reported pid sets its state; a clean exit of a `Done` service counts as
     * its start and sweeps the waiters. Reports without a pid, for unknown
     * pids and of ptrace events change nothing.
     */
    method SetProcessStatus(status: WaitStatus)
      modifies this
      requires Valid()
      ensures Valid()
      ensures State() == StatusEffect(fork, keyOrder, old(State()), status)
      ensures StatusPid(status).None? ==> State() == old(State())
      ensures StatusPid(status).Some? && FirstLive(old(services), status.pid).None? ==> State() == old(State())
      ensures StatusPid(status).Some? && FirstLive(old(services), status.pid).Some? ==>
        var i := FirstLive(old(services), status.pid).value;
        match StatusState(status)
        case None => State() == old(State())
        case Some(st) =>
          if status == Exited(status.pid, 0) && old(services)[i].startMode == Done then
            && Evolved(old(services)[i := old(services)[i].(state := st)], services)
            && |pending| <= |old(pending)|
          else
            State() == old(State()).(services := old(services)[i := old(services)[i].(state := st)])
    {
      if status.StillAlive? {
        return;
      }
      var pid := status.pid;
      var found := FirstLive(services, pid);
      if found.None? {
        return;
      }
      var i := found.value;
      var next := StatusState(status);
      if next.None? {
        return;
      }
      services := services[i := services[i].(state := next.value)];
      if status.Exited? && status.code == 0 && services[i].startMode == Done {
        TriggerStartSweep(services[i]);
      }
    }
  }

  /** Appending a service that is the only live one with its pid makes it the first live one. */
  lemma {:induction false} FirstLiveAppend(services: seq<Service>, s: Service)
    requires (s.state.Started? || s.state.Running?) && FirstLive(services, s.state.pid).None?
    ensures FirstLive(services + [s], s.state.pid) == Some(|services|)
    decreases |services|
  {
    if services != [] {
      assert (services + [s])[1..] == services[1..] + [s];
      FirstLiveAppend(services[1..], s);
    }
  }
}
