/**
 * Starting and stopping language servers (crates/aifed-daemon/src/lsp/manager.rs): any number of calls may be under way
 * at once, and between two lock acquisitions of one call every other call may act.
 */
module LspServers {
  import opened Prelude

  datatype ServerKey = ServerKey(language: string, workspace: string)

  datatype ServerState = Starting | Running | Stopped | Failed

  /** A client is named by the start that made it. */
  datatype ServerEntry = ServerEntry(client: Option<nat>, state: ServerState)

  type Servers = map<ServerKey, ServerEntry>

  datatype StartError = ConfigNotFound | SpawnFailed | InvalidWorkspacePath | InitializationFailed

  type StartResult = Result<(), StartError>

  /** Which workspace paths can be written as a directory URL. */
  datatype Env = Env(validPath: string -> bool)

  /** How the three exchanges with the process of one start go. */
  datatype Attempt = Attempt(spawned: bool, initialized: bool, confirmed: bool)

  // ---------- what is done under the lock ----------

  predicate Blocked(s: Servers, key: ServerKey) {
    key in s && (s[key].state == Running || s[key].state == Starting)
  }

  predicate Usable(s: Servers, key: ServerKey) { key in s && s[key].state == Running && s[key].client.Some? }

  function Gated(s: Servers, key: ServerKey): Servers {
    if Blocked(s, key) then s else s[key := ServerEntry(None, Starting)]
  }

  function MarkedFailed(s: Servers, key: ServerKey): Servers {
    if key in s then s[key := s[key].(state := Failed)] else s
  }

  function Installed(s: Servers, key: ServerKey, client: nat): Servers {
    s[key := ServerEntry(Some(client), Running)]
  }

  /** A stop holds the lock while the client shuts down, well or badly. */
  function AfterStop(s: Servers, key: ServerKey, shutdown: bool): Servers {
    if key !in s then s
    else if s[key].client.Some? && !shutdown then s[key := s[key].(state := Failed)]
    else s[key := ServerEntry(None, Stopped)]
  }

  // ---------- the interleaved system ----------

  /** Where a start is between two lock acquisitions. */
  datatype Phase = AtConfig | AtSpawn | AtInitialize | AtInitialized | AtInstall | Done(result: StartResult)

  datatype Starter = Starter(key: ServerKey, phase: Phase)

  datatype System = System(servers: Servers, configs: set<string>, starters: seq<Starter>)

  const IDLE := System(map[], {}, [])

  datatype Step =
    | Register(language: string)
    | Begin(key: ServerKey)
    | Advance(starter: nat, ok: bool)  // the start's next exchange goes well or badly
    | Stop(key: ServerKey, shutdown: bool)

  /** The next phase of a start, and the servers after it. */
  function Next(env: Env, s: Servers, configs: set<string>, i: nat, starter: Starter, ok: bool): (Servers, Phase) {
    var key := starter.key;
    match starter.phase
    case AtConfig => (s, if key.language in configs then AtSpawn else Done(Err(ConfigNotFound)))
    case AtSpawn =>
      if !ok then (MarkedFailed(s, key), Done(Err(SpawnFailed)))
      else (s, if env.validPath(key.workspace) then AtInitialize else Done(Err(InvalidWorkspacePath)))
    case AtInitialize => if ok then (s, AtInitialized) else (MarkedFailed(s, key), Done(Err(InitializationFailed)))
    case AtInitialized => if ok then (s, AtInstall) else (MarkedFailed(s, key), Done(Err(InitializationFailed)))
    case AtInstall => (Installed(s, key, i), Done(Ok(())))
    case Done(_) => (s, starter.phase)
  }

  function Do(env: Env, s: System, step: Step): System {
    match step
    case Register(language) => s.(configs := s.configs + {language})
    case Begin(key) =>
      s.(servers := Gated(s.servers, key),
         starters := s.starters + [Starter(key, if Blocked(s.servers, key) then Done(Ok(())) else AtConfig)])
    case Advance(i, ok) =>
      if i >= |s.starters| then s
      else
        var (servers, phase) := Next(env, s.servers, s.configs, i, s.starters[i], ok);
        s.(servers := servers, starters := s.starters[i := s.starters[i].(phase := phase)])
    case Stop(key, shutdown) => s.(servers := AfterStop(s.servers, key, shutdown))
  }

  function Run(env: Env, s: System, steps: seq<Step>): System
    decreases |steps|
  {
    if steps == [] then s else Run(env, Do(env, s, steps[0]), steps[1..])
  }

  predicate InFlight(s: System, i: nat, key: ServerKey) {
    i < |s.starters| && s.starters[i].key == key && !s.starters[i].phase.Done?
  }

  /** A start that returned without saying so in the entry it had put up. */
  predicate Abandoned(s: System, i: nat, key: ServerKey) {
    && i < |s.starters| && s.starters[i].key == key
    && s.starters[i].phase in {Done(Err(ConfigNotFound)), Done(Err(InvalidWorkspacePath))}
  }

  /** A start of the key, not before the `from`th, that is under way or was abandoned. */
  ghost predicate Holding(s: System, i: nat, key: ServerKey, from: nat) {
    i >= from && (InFlight(s, i, key) || Abandoned(s, i, key))
  }

  ghost predicate AtMostOne(s: System, key: ServerKey) {
    forall i: nat, j: nat :: InFlight(s, i, key) && InFlight(s, j, key) ==> i == j
  }

  ghost predicate NeverStopped(steps: seq<Step>, key: ServerKey) {
    forall i :: 0 <= i < |steps| ==> !(steps[i].Stop? && steps[i].key == key)
  }

  // ---------- any interleaving of starts and stops ----------

  /** A running server has a client, a client exists only while running or failed, and a successful start made it. */
  ghost predicate ClientsSound(s: System) { forall k :: k in s.servers ==> EntrySound(s, k) }

  ghost predicate EntrySound(s: System, k: ServerKey)
    requires k in s.servers
  {
    && (s.servers[k].state == Running ==> s.servers[k].client.Some?)
    && (s.servers[k].client.Some? ==>
          && (s.servers[k].state == Running || s.servers[k].state == Failed)
          && var i := s.servers[k].client.value;
             i < |s.starters| && s.starters[i] == Starter(k, Done(Ok(()))))
  }

  /** A step changes the entry of its own key only. */
  lemma StepElsewhere(env: Env, s: System, step: Step, k: ServerKey)
    requires step.Register? || ((step.Begin? || step.Stop?) && step.key != k)
          || (step.Advance? && (step.starter >= |s.starters| || s.starters[step.starter].key != k))
    ensures k in Do(env, s, step).servers <==> k in s.servers
    ensures k in s.servers ==> Do(env, s, step).servers[k] == s.servers[k]
  {
  }

  /** A start that returned stays as it returned. */
  lemma DoneStaysDone(env: Env, s: System, step: Step, i: nat)
    requires i < |s.starters| && s.starters[i].phase.Done?
    ensures i < |Do(env, s, step).starters| && Do(env, s, step).starters[i] == s.starters[i]
  {
  }

  lemma StepSound(env: Env, s: System, step: Step)
    requires ClientsSound(s)
    ensures ClientsSound(Do(env, s, step))
  {
    var after := Do(env, s, step);
    forall k | k in after.servers ensures EntrySound(after, k) {
      if k in s.servers && s.servers[k].client.Some? {
        DoneStaysDone(env, s, step, s.servers[k].client.value);
      }
      if step.Register? || ((step.Begin? || step.Stop?) && step.key != k)
        || (step.Advance? && (step.starter >= |s.starters| || s.starters[step.starter].key != k)) {
        StepElsewhere(env, s, step, k);
        hide Do;
      }
    }
  }

  lemma {:induction false} RunSound(env: Env, s: System, steps: seq<Step>)
    requires ClientsSound(s)
    ensures ClientsSound(Run(env, s, steps))
    decreases |steps|
  {
    hide Do;
    hide ClientsSound;
    if steps != [] {
      StepSound(env, s, steps[0]);
      RunSound(env, Do(env, s, steps[0]), steps[1..]);
    }
  }

  /** The lookup before every request hands out an entry exactly when the server runs, and it then has a client. */
  lemma RunningHasClient(env: Env, steps: seq<Step>, key: ServerKey)
    ensures var s := Run(env, IDLE, steps).servers;
            && (Usable(s, key) <==> key in s && s[key].state == Running)
            && (key in s && s[key].client.Some? ==> s[key].state == Running || s[key].state == Failed)
  {
    hide Do;
    RunSound(env, IDLE, steps);
  }

  // ---------- interleavings whose stops come between starts ----------

  predicate IsStop(step: Step, key: ServerKey) { step.Stop? && step.key == key }

  /** No stop of the key comes while a start of it is under way. */
  ghost predicate QuietStops(env: Env, s: System, steps: seq<Step>, key: ServerKey)
    decreases |steps|
  {
    steps != [] ==>
      && (IsStop(steps[0], key) ==> forall i: nat :: !InFlight(s, i, key))
      && QuietStops(env, Do(env, s, steps[0]), steps[1..], key)
  }

  /** How many starts had begun at the last stop of the key; `from` if there is none. */
  function LastStop(env: Env, s: System, steps: seq<Step>, key: ServerKey, from: nat): nat
    decreases |steps|
  {
    if steps == [] then from
    else LastStop(env, Do(env, s, steps[0]), steps[1..], key, if IsStop(steps[0], key) then |s.starters| else from)
  }

  /** Of the starts since the `from`th at most one holds the key, and while one does the entry is its placeholder. */
  ghost predicate OneHolder(s: System, key: ServerKey, from: nat) {
    && from <= |s.starters|
    && (forall i: nat :: InFlight(s, i, key) ==> i >= from)
    && (forall i, j :: Holding(s, i, key, from) && Holding(s, j, key, from) ==> i == j)
    && (forall i :: Holding(s, i, key, from) ==> key in s.servers && s.servers[key] == ServerEntry(None, Starting))
    && (key in s.servers && s.servers[key].state == Starting ==> exists i :: Holding(s, i, key, from))
  }

  /** What a step can do to a start: only an advance moves it. */
  lemma HoldingAfter(env: Env, s: System, step: Step, key: ServerKey, from: nat, i: nat)
    requires from <= |s.starters|
    ensures var after := Do(env, s, step);
            && (i < |s.starters| && step != Advance(i, true) && step != Advance(i, false)
                ==> (Holding(after, i, key, from) <==> Holding(s, i, key, from)))
            && (step.Advance? && step.starter == i ==> Holding(after, i, key, from) ==> Holding(s, i, key, from))
            && (i >= |s.starters| ==>
                  (Holding(after, i, key, from)
                   <==> i == |s.starters| && step == Begin(key) && !Blocked(s.servers, key)))
  {
  }

  lemma InFlightAfter(env: Env, s: System, step: Step, key: ServerKey, i: nat)
    requires InFlight(Do(env, s, step), i, key)
    ensures InFlight(s, i, key) || (i == |s.starters| && step == Begin(key))
  {
  }

  /** A start that still holds the key has left the placeholder alone. */
  lemma PlaceholderKept(env: Env, s: System, step: Step, key: ServerKey, from: nat, i: nat)
    requires OneHolder(s, key, from) && !IsStop(step, key)
    requires Holding(s, i, key, from) && Holding(Do(env, s, step), i, key, from)
    ensures var after := Do(env, s, step).servers;
            key in after && after[key] == ServerEntry(None, Starting)
  {
    if step.Advance? && step.starter < |s.starters| && InFlight(s, step.starter, key) {
      assert Holding(s, step.starter, key, from);
      assert step.starter == i;
    }
  }

  lemma {:induction false} StepOneHolder(env: Env, s: System, step: Step, key: ServerKey, from: nat)
    requires OneHolder(s, key, from) && !IsStop(step, key)
    ensures OneHolder(Do(env, s, step), key, from)
  {
    var after := Do(env, s, step);
    forall i: nat
      ensures InFlight(after, i, key) ==> i >= from
      ensures Holding(after, i, key, from) ==>
                Holding(s, i, key, from) || (i == |s.starters| && step == Begin(key) && !Blocked(s.servers, key))
    {
      HoldingAfter(env, s, step, key, from, i);
      if InFlight(after, i, key) {
        InFlightAfter(env, s, step, key, i);
      }
    }
    forall i | Holding(after, i, key, from)
      ensures key in after.servers && after.servers[key] == ServerEntry(None, Starting)
    {
      if Holding(s, i, key, from) {
        PlaceholderKept(env, s, step, key, from, i);
      }
    }
    hide Holding;
    if key in after.servers && after.servers[key].state == Starting {
      if key in s.servers && s.servers[key].state == Starting {
        var i :| Holding(s, i, key, from);
        HoldingAfter(env, s, step, key, from, i);
        assert Holding(after, i, key, from);
      } else {
        HoldingAfter(env, s, step, key, from, |s.starters|);
        assert Holding(after, |s.starters|, key, from);
      }
    }
  }

  /** A stop with no start under way: nothing holds the key any more. */
  lemma {:induction false} QuietStopReleases(env: Env, s: System, step: Step, key: ServerKey)
    requires IsStop(step, key) && forall i: nat :: !InFlight(s, i, key)
    ensures OneHolder(Do(env, s, step), key, |s.starters|)
  {
    var after := Do(env, s, step);
    assert after.starters == s.starters;
    forall i: nat ensures !InFlight(after, i, key) && !Holding(after, i, key, |s.starters|) {
      assert InFlight(after, i, key) <==> InFlight(s, i, key);
    }
  }

  lemma {:induction false} RunOneHolder(env: Env, s: System, steps: seq<Step>, key: ServerKey, from: nat)
    requires OneHolder(s, key, from) && QuietStops(env, s, steps, key)
    ensures OneHolder(Run(env, s, steps), key, LastStop(env, s, steps, key, from))
    decreases |steps|
  {
    hide Do;
    hide OneHolder;
    hide InFlight;
    if steps != [] {
      if IsStop(steps[0], key) {
        QuietStopReleases(env, s, steps[0], key);
        RunOneHolder(env, Do(env, s, steps[0]), steps[1..], key, |s.starters|);
      } else {
        StepOneHolder(env, s, steps[0], key, from);
        RunOneHolder(env, Do(env, s, steps[0]), steps[1..], key, from);
      }
    }
  }

  lemma HoldersAtMostOne(s: System, key: ServerKey, from: nat)
    requires OneHolder(s, key, from)
    ensures AtMostOne(s, key)
  {
    forall i, j | InFlight(s, i, key) && InFlight(s, j, key) ensures i == j {
      assert Holding(s, i, key, from) && Holding(s, j, key, from);
    }
  }

  lemma {:induction false} QuietPrefix(env: Env, s: System, steps: seq<Step>, key: ServerKey, n: nat)
    requires n <= |steps| && QuietStops(env, s, steps, key)
    ensures QuietStops(env, s, steps[..n] + [Begin(key)], key)
    decreases n
  {
    hide Do;
    hide InFlight;
    var prefix := steps[..n] + [Begin(key)];
    if n == 0 {
      assert prefix == [Begin(key)] && prefix[1..] == [];
    } else {
      QuietPrefix(env, Do(env, s, steps[0]), steps[1..], key, n - 1);
      assert prefix[0] == steps[0] && prefix[1..] == steps[1..][..n - 1] + [Begin(key)];
    }
  }

  /** A start under way keeps an entry, whatever stops do to it. */
  ghost predicate Placed(s: System) {
    forall i: nat :: i < |s.starters| ==> s.starters[i].key in s.servers
  }

  lemma StepPlaced(env: Env, s: System, step: Step)
    requires Placed(s)
    ensures Placed(Do(env, s, step))
  {
  }

  lemma {:induction false} RunPlaced(env: Env, s: System, steps: seq<Step>)
    requires Placed(s)
    ensures Placed(Run(env, s, steps))
    decreases |steps|
  {
    hide Do;
    hide Placed;
    if steps != [] {
      StepPlaced(env, s, steps[0]);
      RunPlaced(env, Do(env, s, steps[0]), steps[1..]);
    }
  }

  lemma RunTwo(env: Env, s: System, steps: seq<Step>)
    requires |steps| == 2
    ensures Run(env, s, steps) == Do(env, Do(env, s, steps[0]), steps[1])
  {
    hide Do;
    assert Run(env, s, steps) == Run(env, Do(env, s, steps[0]), steps[1..]);
    var s1, rest := Do(env, s, steps[0]), steps[1..];
    assert Run(env, s1, rest) == Run(env, Do(env, s1, rest[0]), rest[1..]);
    assert rest[1..] == [];
  }

  /** A stop during a start lets the next start in. */
  lemma StopLetsIn(env: Env, s: System, key: ServerKey, i: nat, shutdown: bool)
    requires Placed(s) && InFlight(s, i, key)
    ensures var after := Run(env, s, [Stop(key, shutdown), Begin(key)]);
            && InFlight(after, i, key) && InFlight(after, |s.starters|, key)
            && after.configs == s.configs && after.starters == s.starters + [Starter(key, AtConfig)]
  {
    RunTwo(env, s, [Stop(key, shutdown), Begin(key)]);
  }

  /** A stop does not end a start under way but reopens the gate: the next start makes two. */
  lemma StopReopensGate(env: Env, steps: seq<Step>, key: ServerKey, i: nat, shutdown: bool)
    requires InFlight(Run(env, IDLE, steps), i, key)
    ensures var s := Run(env, IDLE, steps);
            var after := Run(env, s, [Stop(key, shutdown), Begin(key)]);
            && i < |s.starters|
            && InFlight(after, i, key) && InFlight(after, |s.starters|, key)
  {
    hide Do;
    RunPlaced(env, IDLE, steps);
    StopLetsIn(env, Run(env, IDLE, steps), key, i, shutdown);
  }

  /** A stop that is not quiet lets two starts in. */
  lemma {:induction false} LoudStop(env: Env, s: System, steps: seq<Step>, key: ServerKey) returns (n: nat)
    requires Placed(s) && !QuietStops(env, s, steps, key)
    ensures n <= |steps| && !AtMostOne(Run(env, s, steps[..n] + [Begin(key)]), key)
    decreases |steps|
  {
    hide Do;
    hide Placed;
    hide InFlight;
    if IsStop(steps[0], key) && exists i: nat :: InFlight(s, i, key) {
      var i :| InFlight(s, i, key);
      n := 1;
      assert steps[..1] + [Begin(key)] == [Stop(key, steps[0].shutdown), Begin(key)];
      StopLetsIn(env, s, key, i, steps[0].shutdown);
      StartedBefore(s, i, key);
    } else {
      StepPlaced(env, s, steps[0]);
      n := LoudStop(env, Do(env, s, steps[0]), steps[1..], key);
      n := n + 1;
      var prefix := steps[..n] + [Begin(key)];
      assert prefix[0] == steps[0] && prefix[1..] == steps[1..][..n - 1] + [Begin(key)];
    }
  }

  lemma StartedBefore(s: System, i: nat, key: ServerKey)
    requires InFlight(s, i, key)
    ensures i < |s.starters|
  {
  }

  /**
   * However far the run has come and whoever starts next, at most one start of the key is past the gate: this holds
   * exactly when no stop of the key comes while a start of it is under way.
   */
  lemma AtMostOneStarter(env: Env, steps: seq<Step>, key: ServerKey)
    ensures (forall n: nat :: n <= |steps| ==> AtMostOne(Run(env, IDLE, steps[..n] + [Begin(key)]), key))
       <==> QuietStops(env, IDLE, steps, key)
  {
    hide Do;
    if QuietStops(env, IDLE, steps, key) {
      forall n: nat | n <= |steps| ensures AtMostOne(Run(env, IDLE, steps[..n] + [Begin(key)]), key) {
        var prefix := steps[..n] + [Begin(key)];
        QuietPrefix(env, IDLE, steps, key, n);
        RunOneHolder(env, IDLE, prefix, key, 0);
        HoldersAtMostOne(Run(env, IDLE, prefix), key, LastStop(env, IDLE, prefix, key, 0));
      }
    } else {
      var n := LoudStop(env, IDLE, steps, key);
    }
  }

  /** The entry says "starting" exactly while a start begun since the last stop is under way or was abandoned. */
  lemma StartingExactly(env: Env, steps: seq<Step>, key: ServerKey)
    requires QuietStops(env, IDLE, steps, key)
    ensures var s, from := Run(env, IDLE, steps), LastStop(env, IDLE, steps, key, 0);
            key in s.servers && s.servers[key].state == Starting <==> exists i :: Holding(s, i, key, from)
  {
    hide Do;
    RunOneHolder(env, IDLE, steps, key, 0);
  }

  // ---------- until the next stop ----------

  lemma StepKeepsRunning(env: Env, s: System, step: Step, key: ServerKey, from: nat)
    requires OneHolder(s, key, from) && !IsStop(step, key)
    requires key in s.servers && s.servers[key].state == Running
    ensures var after := Do(env, s, step).servers;
            key in after && after[key] == s.servers[key]
  {
    RunningUnheld(s, key, from);
    if step.Advance? {
      assert !InFlight(s, step.starter, key);
    }
  }

  lemma RunningUnheld(s: System, key: ServerKey, from: nat)
    requires OneHolder(s, key, from) && key in s.servers && s.servers[key].state == Running
    ensures forall i: nat :: !InFlight(s, i, key)
  {
    assert forall i: nat :: InFlight(s, i, key) ==> Holding(s, i, key, from);
  }

  /** The entry is no longer that of a running client `c`, nor can it become so: the start that made it is done. */
  ghost predicate ClientGone(s: System, key: ServerKey, c: nat) {
    && c < |s.starters| && s.starters[c].phase.Done?
    && (key in s.servers ==> s.servers[key] != ServerEntry(Some(c), Running))
  }

  lemma StepStaysGone(env: Env, s: System, step: Step, key: ServerKey, c: nat)
    requires ClientGone(s, key, c)
    ensures ClientGone(Do(env, s, step), key, c)
  {
  }

  lemma {:induction false} RunStaysGone(env: Env, s: System, steps: seq<Step>, key: ServerKey, c: nat)
    requires ClientGone(s, key, c)
    ensures ClientGone(Run(env, s, steps), key, c)
    decreases |steps|
  {
    hide Do;
    hide ClientGone;
    if steps != [] {
      StepStaysGone(env, s, steps[0], key, c);
      RunStaysGone(env, Do(env, s, steps[0]), steps[1..], key, c);
    }
  }

  lemma StopIsGone(env: Env, s: System, step: Step, key: ServerKey, c: nat)
    requires ClientsSound(s) && IsStop(step, key) && key in s.servers && s.servers[key] == ServerEntry(Some(c), Running)
    ensures ClientGone(Do(env, s, step), key, c)
  {
  }

  lemma {:induction false} KeepsRunningFrom(env: Env, s: System, steps: seq<Step>, key: ServerKey, from: nat, c: nat)
    requires ClientsSound(s) && OneHolder(s, key, from)
    requires key in s.servers && s.servers[key] == ServerEntry(Some(c), Running)
    ensures var after := Run(env, s, steps).servers;
            key in after && after[key] == s.servers[key] <==> NeverStopped(steps, key)
    decreases |steps|
  {
    hide Do;
    hide OneHolder;
    hide ClientsSound;
    if steps != [] {
      NeverStoppedTail(steps, key);
      if IsStop(steps[0], key) {
        StopIsGone(env, s, steps[0], key, c);
        RunStaysGone(env, Do(env, s, steps[0]), steps[1..], key, c);
      } else {
        StepSound(env, s, steps[0]);
        StepOneHolder(env, s, steps[0], key, from);
        StepKeepsRunning(env, s, steps[0], key, from);
        KeepsRunningFrom(env, Do(env, s, steps[0]), steps[1..], key, from, c);
      }
    }
  }

  lemma NeverStoppedTail(steps: seq<Step>, key: ServerKey)
    requires steps != []
    ensures NeverStopped(steps, key) <==> !IsStop(steps[0], key) && NeverStopped(steps[1..], key)
  {
    if NeverStopped(steps[1..], key) && !IsStop(steps[0], key) {
      forall i | 0 <= i < |steps| ensures !IsStop(steps[i], key) {
        if i > 0 {
          assert steps[i] == steps[1..][i - 1];
        }
      }
    }
  }

  /**
   * A running server, however often it was stopped and started before, is still running with the same client after
   * any further steps exactly when none of them stops it.
   */
  lemma RunKeepsRunning(env: Env, first: seq<Step>, rest: seq<Step>, key: ServerKey)
    requires QuietStops(env, IDLE, first, key)
    requires key in Run(env, IDLE, first).servers && Run(env, IDLE, first).servers[key].state == Running
    ensures var before := Run(env, IDLE, first);
            var after := Run(env, before, rest).servers;
            key in after && after[key] == before.servers[key] <==> NeverStopped(rest, key)
  {
    hide Do;
    RunSound(env, IDLE, first);
    RunOneHolder(env, IDLE, first, key, 0);
    var before := Run(env, IDLE, first);
    KeepsRunningFrom(env, before, rest, key, LastStop(env, IDLE, first, key, 0), before.servers[key].client.value);
  }

  /** Every start of the key from the `n`th on returned at once, without an error and without doing anything. */
  ghost predicate ReturnedAtOnce(s: System, n: nat, key: ServerKey) {
    forall j :: n <= j < |s.starters| && s.starters[j].key == key ==> s.starters[j].phase == Done(Ok(()))
  }

  lemma StepStaysAbandoned(env: Env, s: System, step: Step, key: ServerKey, from: nat, i: nat, n: nat)
    requires OneHolder(s, key, from) && i >= from && Abandoned(s, i, key) && ReturnedAtOnce(s, n, key)
    ensures Abandoned(Do(env, s, step), i, key) && ReturnedAtOnce(Do(env, s, step), n, key)
  {
    assert Holding(s, i, key, from);
  }

  lemma {:induction false} RunStaysAbandoned(env: Env, s: System, steps: seq<Step>, key: ServerKey, from: nat, i: nat,
                                             n: nat)
    requires OneHolder(s, key, from) && NeverStopped(steps, key)
    requires i >= from && Abandoned(s, i, key) && ReturnedAtOnce(s, n, key)
    ensures var after := Run(env, s, steps);
            && key in after.servers && after.servers[key] == ServerEntry(None, Starting)
            && Abandoned(after, i, key) && ReturnedAtOnce(after, n, key)
    decreases |steps|
  {
    hide Do;
    if steps == [] {
      assert Holding(s, i, key, from);
    } else {
      hide OneHolder;
      hide Abandoned;
      hide ReturnedAtOnce;
      StepOneHolder(env, s, steps[0], key, from);
      StepStaysAbandoned(env, s, steps[0], key, from, i, n);
      RunStaysAbandoned(env, Do(env, s, steps[0]), steps[1..], key, from, i, n);
    }
  }

  lemma {:induction false} RunSnoc(env: Env, s: System, steps: seq<Step>, step: Step)
    ensures Run(env, s, steps + [step]) == Do(env, Run(env, s, steps), step)
    decreases |steps|
  {
    hide Do;
    if steps == [] {
      assert [] + [step] == [step] && [step][1..] == [];
      assert Run(env, Do(env, s, step), []) == Do(env, s, step);
    } else {
      assert (steps + [step])[1..] == steps[1..] + [step];
      RunSnoc(env, Do(env, s, steps[0]), steps[1..], step);
    }
  }

  lemma StopUnblocks(env: Env, s: System, step: Step, key: ServerKey)
    requires IsStop(step, key)
    ensures !Blocked(Do(env, s, step).servers, key)
  {
  }

  /**
   * A start that finds no configuration, or whose workspace path is no URL, leaves its placeholder behind. The key
   * stays blocked from then on exactly if it is never stopped: every later start then returns success without doing
   * anything and the server is never usable, even after the configuration has been registered.
   */
  lemma {:induction false} AbandonedStartBlocks(env: Env, first: seq<Step>, rest: seq<Step>, key: ServerKey, i: nat)
    requires QuietStops(env, IDLE, first, key)
    requires i >= LastStop(env, IDLE, first, key, 0) && Abandoned(Run(env, IDLE, first), i, key)
    ensures var before := Run(env, IDLE, first);
            && ((forall n: nat :: n <= |rest| ==> Blocked(Run(env, before, rest[..n]).servers, key))
                <==> NeverStopped(rest, key))
            && (NeverStopped(rest, key) ==>
                  var after := Run(env, before, rest);
                  && key in after.servers && after.servers[key] == ServerEntry(None, Starting)
                  && ReturnedAtOnce(after, |before.starters|, key))
  {
    hide Do;
    hide OneHolder;
    hide Abandoned;
    hide Blocked;
    var before, from := Run(env, IDLE, first), LastStop(env, IDLE, first, key, 0);
    NothingHeld(key);
    RunOneHolder(env, IDLE, first, key, 0);
    if NeverStopped(rest, key) {
      RunStaysAbandoned(env, before, rest, key, from, i, |before.starters|);
      forall n: nat | n <= |rest| ensures Blocked(Run(env, before, rest[..n]).servers, key) {
        RunStaysAbandoned(env, before, rest[..n], key, from, i, |before.starters|);
        StartingBlocks(Run(env, before, rest[..n]).servers, key);
      }
    } else {
      var k :| 0 <= k < |rest| && IsStop(rest[k], key);
      assert rest[..k + 1] == rest[..k] + [rest[k]];
      RunSnoc(env, before, rest[..k], rest[k]);
      StopUnblocks(env, Run(env, before, rest[..k]), rest[k], key);
    }
  }

  lemma NothingHeld(key: ServerKey)
    ensures OneHolder(IDLE, key, 0)
  {
  }

  lemma StartingBlocks(s: Servers, key: ServerKey)
    requires key in s && s[key].state == Starting
    ensures Blocked(s, key)
  {
  }

  // ---------- a client that is lost ----------

  /** `n` exchanges of one start, all of them well. */
  function Advances(i: nat, n: nat): (steps: seq<Step>)
    ensures |steps| == n
  {
    if n == 0 then [] else [Advance(i, true)] + Advances(i, n - 1)
  }

  /** The exchanges a start still needs. */
  function Remaining(phase: Phase): nat {
    match phase
    case AtConfig => 5
    case AtSpawn => 4
    case AtInitialize => 3
    case AtInitialized => 2
    case AtInstall => 1
    case Done(_) => 0
  }

  /** What a start that meets no obstacle leaves behind when it is through. */
  ghost predicate Through(s: System, after: System, i: nat, key: ServerKey) {
    && |after.starters| == |s.starters| && i < |s.starters| && after.configs == s.configs
    && after.starters[i] == Starter(key, Done(Ok(())))
    && (forall k :: 0 <= k < |s.starters| && k != i ==> after.starters[k] == s.starters[k])
    && key in after.servers && after.servers[key] == ServerEntry(Some(i), Running)
  }

  lemma DoneAdvance(env: Env, s: System, i: nat)
    requires i < |s.starters| && s.starters[i].phase.Done?
    ensures Do(env, s, Advance(i, true)) == s
  {
    assert s.starters[i := s.starters[i].(phase := s.starters[i].phase)] == s.starters;
  }

  lemma {:induction false} DoneAdvances(env: Env, s: System, i: nat, n: nat)
    requires i < |s.starters| && s.starters[i].phase.Done?
    ensures Run(env, s, Advances(i, n)) == s
  {
    hide Do;
    if n > 0 {
      DoneAdvance(env, s, i);
      DoneAdvances(env, s, i, n - 1);
      assert Advances(i, n)[1..] == Advances(i, n - 1);
    }
  }

  lemma GoodAdvance(env: Env, s: System, i: nat, key: ServerKey)
    requires InFlight(s, i, key) && key.language in s.configs && env.validPath(key.workspace)
    ensures var after := Do(env, s, Advance(i, true));
            && Remaining(after.starters[i].phase) == Remaining(s.starters[i].phase) - 1
            && after.starters == s.starters[i := after.starters[i]] && after.starters[i].key == key
            && after.configs == s.configs
            && (if after.starters[i].phase.Done? then Through(s, after, i, key) else InFlight(after, i, key))
  {
  }

  /** A start that meets no obstacle comes through, whatever else is under way. */
  lemma {:induction false} ComesThrough(env: Env, s: System, i: nat, key: ServerKey, n: nat)
    requires InFlight(s, i, key) && key.language in s.configs && env.validPath(key.workspace)
    requires n >= Remaining(s.starters[i].phase)
    ensures Through(s, Run(env, s, Advances(i, n)), i, key)
    decreases n
  {
    hide Do;
    hide Through;
    GoodAdvance(env, s, i, key);
    var after := Do(env, s, Advance(i, true));
    assert Advances(i, n)[1..] == Advances(i, n - 1);
    if after.starters[i].phase.Done? {
      DoneAdvances(env, after, i, n - 1);
    } else {
      ComesThrough(env, after, i, key, n - 1);
      ThroughStep(s, after, Run(env, after, Advances(i, n - 1)), i, key);
    }
  }

  lemma ThroughStep(s: System, s': System, after: System, i: nat, key: ServerKey)
    requires i < |s.starters| && |s'.starters| == |s.starters| && s'.starters == s.starters[i := s'.starters[i]]
    requires s'.configs == s.configs && Through(s', after, i, key)
    ensures Through(s, after, i, key)
  {
  }

  lemma {:induction false} RunConcat(env: Env, s: System, a: seq<Step>, b: seq<Step>)
    ensures Run(env, s, a + b) == Run(env, Run(env, s, a), b)
    decreases |a|
  {
    hide Do;
    if a == [] {
      assert a + b == b;
    } else {
      assert (a + b)[1..] == a[1..] + b;
      RunConcat(env, Do(env, s, a[0]), a[1..], b);
    }
  }

  /**
   * From every reachable state with a start under way, a stop and another start lead to two starts that both return
   * success; the client of the first is then in no entry, so that nothing can use it or shut it down.
   */
  lemma {:induction false} LaterClientReplaces(env: Env, steps: seq<Step>, key: ServerKey, i: nat, shutdown: bool)
    requires InFlight(Run(env, IDLE, steps), i, key)
    requires key.language in Run(env, IDLE, steps).configs && env.validPath(key.workspace)
    ensures var s := Run(env, IDLE, steps);
            var j := |s.starters|;
            var after := Run(env, IDLE, steps + [Stop(key, shutdown), Begin(key)] + Advances(i, 5) + Advances(j, 5));
            && i < j < |after.starters|
            && after.starters[i] == after.starters[j] == Starter(key, Done(Ok(())))
            && key in after.servers && after.servers[key] == ServerEntry(Some(j), Running)
            && forall k :: k in after.servers ==> after.servers[k].client != Some(i)
  {
    hide Do;
    hide Run;
    var s := Run(env, IDLE, steps);
    var j, restart := |s.starters|, [Stop(key, shutdown), Begin(key)];
    var two := Run(env, s, restart);
    var one := Run(env, two, Advances(i, 5));
    var after := Run(env, one, Advances(j, 5));
    RunConcat(env, IDLE, steps, restart);
    RunConcat(env, IDLE, steps + restart, Advances(i, 5));
    RunConcat(env, IDLE, steps + restart + Advances(i, 5), Advances(j, 5));
    RunPlaced(env, IDLE, steps);
    StopLetsIn(env, s, key, i, shutdown);
    ComesThrough(env, two, i, key, 5);
    assert one.starters[j] == two.starters[j];
    ComesThrough(env, one, j, key, 5);
    assert after.starters[i] == one.starters[i];
    RunSound(env, IDLE, steps + restart + Advances(i, 5) + Advances(j, 5));
  }

  // ---------- a start nobody interferes with ----------

  /** What a start alone leaves behind and returns. */
  function StartAlone(env: Env, s: Servers, configs: set<string>, key: ServerKey, how: Attempt, client: nat)
    : (Servers, StartResult)
  {
    if Blocked(s, key) then (s, Ok(()))
    else
      var placed := s[key := ServerEntry(None, Starting)];
      if key.language !in configs then (placed, Err(ConfigNotFound))
      else if !how.spawned then (s[key := ServerEntry(None, Failed)], Err(SpawnFailed))
      else if !env.validPath(key.workspace) then (placed, Err(InvalidWorkspacePath))
      else if !how.initialized || !how.confirmed then (s[key := ServerEntry(None, Failed)], Err(InitializationFailed))
      else (s[key := ServerEntry(Some(client), Running)], Ok(()))
  }

  function AloneSteps(key: ServerKey, how: Attempt, i: nat): seq<Step> {
    [Begin(key), Advance(i, true), Advance(i, how.spawned), Advance(i, how.initialized), Advance(i, how.confirmed),
     Advance(i, true)]
  }

  /** A start at the end of the list of starts. */
  function WithLast(s: Servers, configs: set<string>, before: seq<Starter>, key: ServerKey, phase: Phase): System {
    System(s, configs, before + [Starter(key, phase)])
  }

  lemma AdvanceLast(
    env: Env, s: Servers, configs: set<string>, before: seq<Starter>, key: ServerKey, phase: Phase, ok: bool)
    ensures var n := Next(env, s, configs, |before|, Starter(key, phase), ok);
            Do(env, WithLast(s, configs, before, key, phase), Advance(|before|, ok))
            == WithLast(n.0, configs, before, key, n.1)
  {
    hide Next;
  }

  /** Five exchanges in a row. */
  function Exchanges(env: Env, s: Servers, configs: set<string>, i: nat, key: ServerKey, phase: Phase, oks: seq<bool>)
    : (Servers, Phase)
    decreases |oks|
  {
    if oks == [] then (s, phase)
    else
      var n := Next(env, s, configs, i, Starter(key, phase), oks[0]);
      Exchanges(env, n.0, configs, i, key, n.1, oks[1..])
  }

  lemma {:induction false} ExchangesAreSteps(env: Env, s: Servers, configs: set<string>, before: seq<Starter>,
                                             key: ServerKey, phase: Phase, oks: seq<bool>, steps: seq<Step>)
    requires |steps| == |oks| && forall k :: 0 <= k < |oks| ==> steps[k] == Advance(|before|, oks[k])
    ensures var n := Exchanges(env, s, configs, |before|, key, phase, oks);
            Run(env, WithLast(s, configs, before, key, phase), steps) == WithLast(n.0, configs, before, key, n.1)
    decreases |oks|
  {
    hide Next;
    hide Do;
    hide WithLast;
    if oks != [] {
      AdvanceLast(env, s, configs, before, key, phase, oks[0]);
      var n := Next(env, s, configs, |before|, Starter(key, phase), oks[0]);
      ExchangesAreSteps(env, n.0, configs, before, key, n.1, oks[1..], steps[1..]);
    }
  }

  lemma DoneExchanges(
    env: Env, s: Servers, configs: set<string>, i: nat, key: ServerKey, r: StartResult, oks: seq<bool>)
    ensures Exchanges(env, s, configs, i, key, Done(r), oks) == (s, Done(r))
  {
  }

  lemma OneExchange(env: Env, s: Servers, configs: set<string>, i: nat, key: ServerKey, phase: Phase, oks: seq<bool>,
                    rest: seq<bool>)
    requires oks != [] && oks[1..] == rest
    ensures var n := Next(env, s, configs, i, Starter(key, phase), oks[0]);
            Exchanges(env, s, configs, i, key, phase, oks) == Exchanges(env, n.0, configs, i, key, n.1, rest)
  {
    hide Next;
  }

  function Outcomes(how: Attempt): seq<bool> { [true, how.spawned, how.initialized, how.confirmed, true] }

  /** The exchanges of a start past the gate leave what a start alone leaves. */
  lemma FiveExchanges(env: Env, s: Servers, configs: set<string>, i: nat, key: ServerKey, how: Attempt)
    requires !Blocked(s, key)
    ensures var (servers, result) := StartAlone(env, s, configs, key, how, i);
            var placed := s[key := ServerEntry(None, Starting)];
            Exchanges(env, placed, configs, i, key, AtConfig, Outcomes(how)) == (servers, Done(result))
  {
    PlaceholderReplaced(s, key, i);
    hide MarkedFailed;
    hide Installed;
    hide Exchanges;
    var placed := s[key := ServerEntry(None, Starting)];
    var failed := MarkedFailed(placed, key);
    var rest := [how.spawned, how.initialized, how.confirmed, true];
    OneExchange(env, placed, configs, i, key, AtConfig, Outcomes(how), rest);
    if key.language !in configs {
      DoneExchanges(env, placed, configs, i, key, Err(ConfigNotFound), rest);
    } else {
      OneExchange(env, placed, configs, i, key, AtSpawn, rest, [how.initialized, how.confirmed, true]);
      if !how.spawned {
        DoneExchanges(env, failed, configs, i, key, Err(SpawnFailed), [how.initialized, how.confirmed, true]);
      } else if !env.validPath(key.workspace) {
        DoneExchanges(env, placed, configs, i, key, Err(InvalidWorkspacePath), [how.initialized, how.confirmed, true]);
      } else {
        OneExchange(env, placed, configs, i, key, AtInitialize,
                    [how.initialized, how.confirmed, true], [how.confirmed, true]);
        if !how.initialized {
          DoneExchanges(env, failed, configs, i, key, Err(InitializationFailed), [how.confirmed, true]);
        } else {
          OneExchange(env, placed, configs, i, key, AtInitialized, [how.confirmed, true], [true]);
          if how.confirmed {
            OneExchange(env, placed, configs, i, key, AtInstall, [true], []);
            DoneExchanges(env, Installed(placed, key, i), configs, i, key, Ok(()), []);
          } else {
            DoneExchanges(env, failed, configs, i, key, Err(InitializationFailed), [true]);
          }
        }
      }
    }
  }

  /** The interleaved system, when only one start acts, does what a start alone does. */
  lemma AloneIsARun(env: Env, s: System, key: ServerKey, how: Attempt)
    ensures var i := |s.starters|;
            var (servers, result) := StartAlone(env, s.servers, s.configs, key, how, i);
            Run(env, s, AloneSteps(key, how, i)) == WithLast(servers, s.configs, s.starters, key, Done(result))
  {
    var i := |s.starters|;
    var oks := Outcomes(how);
    var phase := if Blocked(s.servers, key) then Done(Ok(())) else AtConfig;
    assert Do(env, s, Begin(key)) == WithLast(Gated(s.servers, key), s.configs, s.starters, key, phase);
    ExchangesAreSteps(env, Gated(s.servers, key), s.configs, s.starters, key, phase, oks, AloneSteps(key, how, i)[1..]);
    if Blocked(s.servers, key) {
      DoneExchanges(env, s.servers, s.configs, i, key, Ok(()), oks);
    } else {
      FiveExchanges(env, s.servers, s.configs, i, key, how);
    }
    hide Do;
    hide Exchanges;
  }

  lemma PlaceholderReplaced(s: Servers, key: ServerKey, client: nat)
    ensures var placed := s[key := ServerEntry(None, Starting)];
            && MarkedFailed(placed, key) == s[key := ServerEntry(None, Failed)]
            && Installed(placed, key, client) == s[key := ServerEntry(Some(client), Running)]
  {
  }

  class LanguageServerManager {
    var servers: Servers
    var configs: set<string>

    constructor ()
      ensures servers == map[] && configs == {}
    {
      servers, configs := map[], {};
    }

    method RegisterConfig(language: string)
      modifies this`configs
      ensures configs == old(configs) + {language}
    {
      configs := configs + {language};
    }

    method MarkFailed(key: ServerKey)
      modifies this`servers
      ensures servers == MarkedFailed(old(servers), key)
    {
      if key in servers {
        servers := servers[key := servers[key].(state := Failed)];
      }
    }

    method Start(env: Env, key: ServerKey, how: Attempt, client: nat) returns (r: StartResult)
      modifies this`servers
      ensures (servers, r) == StartAlone(env, old(servers), configs, key, how, client)
    {
      if key in servers && (servers[key].state == Running || servers[key].state == Starting) {
        return Ok(());
      }
      servers := servers[key := ServerEntry(None, Starting)];
      PlaceholderReplaced(old(servers), key, client);
      if key.language !in configs {
        return Err(ConfigNotFound);
      }
      if !how.spawned {
        MarkFailed(key);
        return Err(SpawnFailed);
      }
      if !env.validPath(key.workspace) {
        return Err(InvalidWorkspacePath);
      }
      if how.initialized {
        if !how.confirmed {
          MarkFailed(key);
          return Err(InitializationFailed);
        }
      } else {
        MarkFailed(key);
        return Err(InitializationFailed);
      }
      servers := servers[key := ServerEntry(Some(client), Running)];
      r := Ok(());
    }

    method Stop(key: ServerKey, shutdown: bool) returns (ok: bool)
      modifies this`servers
      ensures servers == AfterStop(old(servers), key, shutdown)
      ensures ok <==> !(key in old(servers) && old(servers)[key].client.Some?) || shutdown
    {
      if key in servers {
        var entry := servers[key];
        if entry.client.Some? {
          if shutdown {
            servers := servers[key := entry.(client := None, state := Stopped)];
          } else {
            servers := servers[key := entry.(state := Failed)];
            return false;
          }
        } else {
          servers := servers[key := entry.(state := Stopped)];
        }
      }
      ok := true;
    }

    method EnsureRunning(env: Env, key: ServerKey, how: Attempt, client: nat) returns (r: StartResult)
      modifies this`servers
      ensures if Usable(old(servers), key) then servers == old(servers) && r == Ok(())
              else (servers, r) == StartAlone(env, old(servers), configs, key, how, client)
    {
      if key in servers && servers[key].state == Running && servers[key].client.Some? {
        return Ok(());
      }
      r := Start(env, key, how, client);
    }

    method GetEntry(key: ServerKey) returns (r: Option<nat>)
      ensures r.Some? <==> Usable(servers, key)
      ensures r.Some? ==> r == servers[key].client
    {
      if key in servers && servers[key].state == Running && servers[key].client.Some? {
        r := servers[key].client;
      } else {
        r := None;
      }
    }
  }

  /**
   * When a start leaves a usable server: the server already ran, or no other start holds the key and every exchange of
   * this one goes well.
   */
  lemma EnsuredExactly(env: Env, steps: seq<Step>, key: ServerKey, how: Attempt, client: nat)
    ensures var s := Run(env, IDLE, steps);
            var after := StartAlone(env, s.servers, s.configs, key, how, client).0;
            Usable(after, key) <==>
              || (key in s.servers && s.servers[key].state == Running)
              || (!(key in s.servers && s.servers[key].state == Starting)
                  && key.language in s.configs && how.spawned && env.validPath(key.workspace)
                  && how.initialized && how.confirmed)
  {
    hide Do;
    RunSound(env, IDLE, steps);
  }

  // ---------- what becomes of a client ----------

  /**
   * A stop whose shutdown fails keeps the client, in a failed server, so that it can be stopped again; any other stop
   * of a known server leaves it stopped without a client. Other servers are left alone, and so is an unknown key.
   */
  lemma StopOutcome(env: Env, s: System, key: ServerKey, shutdown: bool)
    ensures var after := Do(env, s, Stop(key, shutdown)).servers;
            && (forall k :: k != key ==> (k in after <==> k in s.servers) && (k in after ==> after[k] == s.servers[k]))
            && (key in after <==> key in s.servers)
            && (key in after ==>
                  after[key]
                  == if s.servers[key].client.Some? && !shutdown then ServerEntry(s.servers[key].client, Failed)
                     else ServerEntry(None, Stopped))
  {
  }

  /** In every reachable state, a client is lost only to a successful stop, a restart or another start's client. */
  lemma ClientStays(env: Env, steps: seq<Step>, key: ServerKey, step: Step)
    requires var s := Run(env, IDLE, steps).servers; key in s && s[key].client.Some?
    ensures var s := Run(env, IDLE, steps);
            var after := Do(env, s, step).servers;
            && key in after
            && (after[key].client != s.servers[key].client ==>
                  || step == Stop(key, true)
                  || (step == Begin(key) && s.servers[key].state == Failed)
                  || (step.Advance? && step.starter < |s.starters|
                      && after[key] == ServerEntry(Some(step.starter), Running)
                      && s.starters[step.starter] == Starter(key, AtInstall)))
  {
    RunSound(env, IDLE, steps);
    hide Run;
  }

  /**
   * What an undisturbed start of a server that is neither running nor starting leaves, step by step: its result, the
   * server's entry, and nothing else. A key that is blocked is left as it is.
   */
  lemma StartOutcome(env: Env, s: System, key: ServerKey, how: Attempt)
    ensures var i := |s.starters|;
            var after := Run(env, s, AloneSteps(key, how, i));
            && |after.starters| == i + 1 && after.starters[..i] == s.starters && after.configs == s.configs
            && (Blocked(s.servers, key) ==>
                  after.servers == s.servers && after.starters[i] == Starter(key, Done(Ok(()))))
            && (!Blocked(s.servers, key) ==>
                  && key in after.servers && after.servers == s.servers[key := after.servers[key]]
                  && (after.servers[key], after.starters[i].phase)
                     == if key.language !in s.configs then (ServerEntry(None, Starting), Done(Err(ConfigNotFound)))
                        else if !how.spawned then (ServerEntry(None, Failed), Done(Err(SpawnFailed)))
                        else if !env.validPath(key.workspace) then
                          (ServerEntry(None, Starting), Done(Err(InvalidWorkspacePath)))
                        else if !how.initialized || !how.confirmed then
                          (ServerEntry(None, Failed), Done(Err(InitializationFailed)))
                        else (ServerEntry(Some(i), Running), Done(Ok(()))))
  {
    hide Run;
    hide AloneSteps;
    AloneIsARun(env, s, key, how);
  }
}
