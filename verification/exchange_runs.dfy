/** Safety of the swap protocol over every run of host commands. */
module ExchangeRuns {
  import opened Bytes
  import opened Exchange

  function After(env: Env, run: seq<Command>): State {
    if run == [] then BOOT else
      var n := |run| - 1;
      Step(env, After(env, run[..n]), run[n])
  }

  /** Where a run stands: which command initiated the swap in progress, which ones took its steps. */
  datatype Progress = Idle | InSwap(start: nat, steps: seq<nat>)

  function Follow(env: Env, run: seq<Command>): Progress {
    if run == [] then Idle else
      var n := |run| - 1;
      var before, c := Follow(env, run[..n]), run[n];
      match c
      case Initiate(wanted, _) => if wanted then InSwap(n, []) else before
      case CloseFlow(wanted) => if wanted then Idle else before
      case _ =>
        if TaskOf(c).None? then before
        else match Validate(After(env, run[..n]).queue, TaskOf(c).value)
          case NoSwap => before
          case Reset => Idle
          case Matched => if before.InSwap? then InSwap(before.start, before.steps + [n]) else Idle
  }

  predicate Ordered(start: nat, steps: seq<nat>, n: nat) {
    start < n && forall t | 0 <= t < |steps| :: start < steps[t] < n && (t > 0 ==> steps[t - 1] < steps[t])
  }

  /** What the shared context holds during a swap: what it held when the swap was initiated, then the
      device's own signature of the receive address if there was one, then the stored signature. */
  predicate Holds(env: Env, run: seq<Command>, start: nat, steps: seq<nat>, shared: seq<byte>)
    requires start <= |run| && forall t | 0 <= t < |steps| :: steps[t] < |run|
  {
    && (|steps| == 0 ==> shared == After(env, run[..start]).shared)
    && (1 <= |steps| <= 2 && run[steps[0]].Receive? ==>
          shared == Received(env, run[steps[0]].address, After(env, run[..start]).shared))
    && (|steps| == 3 && run[steps[2]].StoreSignature? ==> shared == Filled(run[steps[2]].signature))
  }

  function Received(env: Env, address: Option<seq<byte>>, old_: seq<byte>): seq<byte> {
    if address.Some? then Filled(env.atecc(env.h(address.value))) else old_
  }

  /** The queue is the rest of the plan of the last initiated swap, the steps before it were taken in
      order, and no other command since then has had any effect. */
  predicate Sound(env: Env, run: seq<Command>, p: Progress) {
    match p
    case Idle => After(env, run).queue == []
    case InSwap(start, steps) =>
      && Ordered(start, steps, |run|) && |steps| <= 4
      && run[start].Initiate? && run[start].wanted
      && After(env, run).queue == Plan(run[start].swap)[|steps|..]
      && (forall t | 0 <= t < |steps| :: TaskOf(run[steps[t]]) == Some(Plan(run[start].swap)[t]))
      && Holds(env, run, start, steps, After(env, run).shared)
      && (|steps| < 4 ==> forall m | start < m < |run| && m !in steps :: NoEffect(env, run, m))
  }

  predicate NoEffect(env: Env, run: seq<Command>, m: nat)
    requires m < |run|
  {
    After(env, run[..m + 1]) == After(env, run[..m])
  }

  /** No two steps of a plan, and no steps of different kinds, look alike. */
  lemma TasksTell(c: Command, s: Swap, t: nat)
    requires t < 4 && TaskOf(c) == Some(Plan(s)[t])
    ensures t == 0 ==> c.Receive? && c.applet == s.toApplet && c.wallet == s.toWallet
    ensures t == 1 ==> c == GetSignature(true, EXCHANGE_ID)
    ensures t == 2 ==> c.StoreSignature? && c.wanted && c.applet == EXCHANGE_ID
    ensures t == 3 ==> c.Send? && c.applet == s.fromApplet && c.wallet == s.fromWallet
  {
    var a, b := TaskOf(c).value.params, Plan(s)[t].params;
    assert a[32] == b[32] && a[0] == b[0] && a[..32] == b[..32];
    if c.Receive? || c.Send? { assert a[..32] == c.wallet; }
    if t == 0 { assert b[..32] == s.toWallet; }
    if t == 3 { assert b[..32] == s.fromWallet; }
  }

  /** One more command leaves what the prefix established about earlier commands as it was. */
  lemma PrefixKept(env: Env, run: seq<Command>, start: nat, steps: seq<nat>)
    requires run != [] && Sound(env, run[..|run| - 1], InSwap(start, steps))
    ensures var n := |run| - 1; var s := After(env, run[..n]);
      && Ordered(start, steps, n) && |steps| <= 4 && run[start].Initiate? && run[start].wanted
      && s.queue == Plan(run[start].swap)[|steps|..]
      && (forall t | 0 <= t < |steps| :: TaskOf(run[steps[t]]) == Some(Plan(run[start].swap)[t]))
      && Holds(env, run, start, steps, s.shared)
      && (|steps| < 4 ==> forall m | start < m < n && m !in steps :: NoEffect(env, run, m))
  {
    hide TaskOf, Step, Plan;
    var n := |run| - 1;
    var front := run[..n];
    assert front[..start] == run[..start];
    forall m | start < m < n && m !in steps && |steps| < 4 ensures NoEffect(env, run, m) {
      assert NoEffect(env, front, m);
      assert front[..m] == run[..m] && front[..m + 1] == run[..m + 1];
    }
  }

  lemma StepTaken(env: Env, run: seq<Command>, start: nat, steps: seq<nat>)
    requires run != [] && Sound(env, run[..|run| - 1], InSwap(start, steps))
    requires IsNext(After(env, run[..|run| - 1]), run[|run| - 1])
    ensures Sound(env, run, InSwap(start, steps + [|run| - 1]))
  {
    hide WalletTask, PlainTask, Plan, Filled;
    PrefixKept(env, run, start, steps);
    var n := |run| - 1;
    var s, c, plan := After(env, run[..n]), run[n], Plan(run[start].swap);
    assert |plan| == 4 by { PlanHasFour(run[start].swap); }
    assert TaskOf(c) == Some(plan[|steps|]) by { assert s.queue[0] == plan[|steps|]; }
    TasksTell(c, run[start].swap, |steps|);
    assert s.queue[1..] == plan[|steps| + 1..];
    var more := steps + [n];
    forall m | start < m < |run| && m !in more && |more| < 4 ensures NoEffect(env, run, m) {
      assert m != n by { assert more[|steps|] == n; }
      assert m !in steps;
    }
  }

  lemma PlanHasFour(s: Swap)
    ensures |Plan(s)| == 4
  {
  }

  lemma CommandIgnored(env: Env, run: seq<Command>, start: nat, steps: seq<nat>)
    requires run != [] && Sound(env, run[..|run| - 1], InSwap(start, steps))
    requires After(env, run).queue == After(env, run[..|run| - 1]).queue
    requires |steps| < 4 ==> After(env, run) == After(env, run[..|run| - 1])
    ensures Sound(env, run, InSwap(start, steps))
  {
    hide TaskOf, Step, Plan;
    PrefixKept(env, run, start, steps);
    assert run[..|run|] == run;
  }

  lemma {:induction false} EveryRunIsSound(env: Env, run: seq<Command>)
    ensures Sound(env, run, Follow(env, run))
  {
    hide Sound, WalletTask, PlainTask, Filled;
    if run == [] {
      IdleIsSound(env, run);
    } else {
      var n := |run| - 1;
      var front := run[..n];
      EveryRunIsSound(env, front);
      var p, c, s := Follow(env, front), run[n], After(env, front);
      if c.Initiate? && c.wanted {
        SwapBegins(env, run);
      } else if p.Idle? {
        IdleQueueIsEmpty(env, front);
        IdleIsSound(env, run);
      } else {
        SwapQueue(env, front, p.start, p.steps);
        if IsNext(s, c) {
          StepTaken(env, run, p.start, p.steps);
        } else if Follow(env, run).Idle? {
          IdleIsSound(env, run);
        } else {
          CommandIgnored(env, run, p.start, p.steps);
        }
      }
    }
  }

  lemma IdleIsSound(env: Env, run: seq<Command>)
    requires After(env, run).queue == []
    ensures Sound(env, run, Idle)
  {
  }

  lemma IdleQueueIsEmpty(env: Env, run: seq<Command>)
    requires Sound(env, run, Idle)
    ensures After(env, run).queue == []
  {
  }

  lemma SwapQueue(env: Env, run: seq<Command>, start: nat, steps: seq<nat>)
    requires Sound(env, run, InSwap(start, steps))
    ensures |steps| <= 4 && (After(env, run).queue == [] <==> |steps| == 4)
  {
  }

  lemma SwapBegins(env: Env, run: seq<Command>)
    requires run != [] && run[|run| - 1].Initiate? && run[|run| - 1].wanted
    ensures Sound(env, run, InSwap(|run| - 1, []))
  {
  }

  // ---- What this means for a send, and for the stored signature.

  /** A send whose receiver is checked comes after its swap was initiated and its receive, fetch and
      store steps were taken, in this order and with the swap's own wallets; nothing else since then
      had any effect. It answers true exactly if the signature that was stored is the server's over the
      first receiver, and a cleared one is over every other. */
  lemma CheckedSendEndsASwap(env: Env, run: seq<Command>) returns (i: nat, j: nat, k: nat, l: nat)
    requires run != [] && run[|run| - 1].Send? && IsNext(After(env, run[..|run| - 1]), run[|run| - 1])
    ensures i < j < k < l < |run| - 1
    ensures run[i].Initiate? && run[i].wanted
    ensures run[j].Receive? && run[j].applet == run[i].swap.toApplet && run[j].wallet == run[i].swap.toWallet
    ensures run[k] == GetSignature(true, EXCHANGE_ID)
    ensures run[l].StoreSignature? && run[l].wanted && run[l].applet == EXCHANGE_ID
    ensures run[|run| - 1].applet == run[i].swap.fromApplet && run[|run| - 1].wallet == run[i].swap.fromWallet
    ensures After(env, run[..|run| - 1]).shared == Filled(run[l].signature)
    ensures forall m | i < m < |run| - 1 && m !in {j, k, l} :: NoEffect(env, run, m)
    ensures var s, c := After(env, run[..|run| - 1]), run[|run| - 1];
      && |s.shared| == 256
      && (SendPasses(env, s, c.applet, c.wallet, c.receivers) <==>
           && (c.receivers != [] ==> env.verify(run[l].signature, env.h(c.receivers[0])))
           && forall m | 1 <= m < |c.receivers| :: env.verify(Zeros(64), env.h(c.receivers[m])))
  {
    hide Follow, Step, Filled;
    var n := |run| - 1;
    var front, c := run[..n], run[n];
    EveryRunIsSound(env, front);
    var p := Follow(env, front);
    var swap := run[p.start].swap;
    PrefixKept(env, run, p.start, p.steps);
    assert TaskOf(c) == Some(Plan(swap)[|p.steps|]);
    TasksTell(c, swap, |p.steps|);
    i, j, k, l := p.start, p.steps[0], p.steps[1], p.steps[2];
    TasksTell(run[j], swap, 0);
    TasksTell(run[k], swap, 1);
    TasksTell(run[l], swap, 2);
    assert p.steps == [j, k, l];
    var s := After(env, front);
    FilledStarts(run[l].signature);
    NextHasTask(s, c);
    SendVerifies(env, s, c.applet, c.wallet, c.receivers);
  }

  lemma FilledStarts(signature: Signature)
    ensures Filled(signature)[..64] == signature && |Filled(signature)| == 256
  {
  }

  lemma NextHasTask(s: State, c: Command)
    requires c.Send? && IsNext(s, c)
    ensures s.queue != [] && s.queue[0] == Task(c.applet, c.wallet + [4] + Zeros(95))
  {
  }

  /** A signature fetched as a step of a swap: the receive step of that swap signed its address, or
      it ended before it had one and what the shared context held before the swap is fetched. */
  lemma FetchedSignatureIsOfReceiveStep(env: Env, run: seq<Command>) returns (i: nat, j: nat)
    requires run != [] && run[|run| - 1].GetSignature? && IsNext(After(env, run[..|run| - 1]), run[|run| - 1])
    ensures i < j < |run| - 1 && run[i].Initiate? && run[i].wanted
    ensures run[j].Receive? && run[j].applet == run[i].swap.toApplet && run[j].wallet == run[i].swap.toWallet
    ensures After(env, run[..|run| - 1]).shared == Received(env, run[j].address, After(env, run[..i]).shared)
    ensures forall m | i < m < |run| - 1 && m != j :: NoEffect(env, run, m)
  {
    hide Follow, Step, Filled;
    var n := |run| - 1;
    EveryRunIsSound(env, run[..n]);
    var p := Follow(env, run[..n]);
    PrefixKept(env, run, p.start, p.steps);
    assert TaskOf(run[n]) == Some(Plan(run[p.start].swap)[|p.steps|]);
    TasksTell(run[n], run[p.start].swap, |p.steps|);
    i, j := p.start, p.steps[0];
    TasksTell(run[j], run[p.start].swap, 0);
    assert p.steps == [j];
  }

  /** The receive step of a second swap ends early: the first swap's signature is fetched. */
  lemma OldSignatureIsFetched(env: Env, s: Swap, address: seq<byte>)
    ensures var receive := (a: Option<seq<byte>>) => Receive(s.toApplet, s.toWallet, a);
      var run := [Initiate(true, s), receive(Some(address)), Initiate(true, s), receive(None)];
      && After(env, run).shared == Filled(env.atecc(env.h(address)))
      && IsNext(After(env, run), GetSignature(true, EXCHANGE_ID))
  {
    hide Filled, WalletTask, PlainTask;
    var c0 := Initiate(true, s);
    var c1, c3 := Receive(s.toApplet, s.toWallet, Some(address)), Receive(s.toApplet, s.toWallet, None);
    var run := [c0, c1, c0, c3];
    assert run[..3] == [c0, c1, c0] && [c0, c1, c0][..2] == [c0, c1] && [c0, c1][..1] == [c0] && [c0][..0] == [];
    assert After(env, [c0]) == State(Plan(s), BOOT.shared);
    assert After(env, [c0, c1]).shared == Filled(env.atecc(env.h(address)));
    assert After(env, [c0, c1, c0]).queue == Plan(s);
  }

  /** Storing a signature (not all zeros) takes effect exactly as a step of a swap, or when there is
      no swap at all; otherwise the device resets. */
  lemma StoreTakesEffect(env: Env, s: State, c: Command)
    requires c.StoreSignature? && c.wanted && c.signature != Zeros(SIGNATURE_SIZE)
    ensures Step(env, s, c).shared == Filled(c.signature) <==> s.queue == [] || IsNext(s, c)
    ensures Step(env, s, c).shared != Filled(c.signature) ==> Step(env, s, c) == BOOT
  {
    hide PlainTask, WalletTask;
    assert Filled(c.signature)[..SIGNATURE_SIZE] == c.signature;
    assert Zeros(CONTEXT_SIZE)[..SIGNATURE_SIZE] == Zeros(SIGNATURE_SIZE);
  }

  /** It is the first thing a host can do. */
  lemma StoreWithoutSwap(env: Env, applet: nat, signature: Signature)
    ensures After(env, [StoreSignature(true, applet, signature)]) == State([], Filled(signature))
  {
    var run := [StoreSignature(true, applet, signature)];
    assert run[..0] == [];
  }

  /** During a swap the one command with a task that does not reset the device is the next step of the
      plan the swap was initiated with. */
  lemma OutOfOrderResets(env: Env, run: seq<Command>, c: Command)
    requires Follow(env, run).InSwap? && |Follow(env, run).steps| < 4 && TaskOf(c).Some?
    ensures Follow(env, run).start < |run| && run[Follow(env, run).start].Initiate?
    ensures var done, plan := |Follow(env, run).steps|, Plan(run[Follow(env, run).start].swap);
      if TaskOf(c).value == plan[done] then After(env, run + [c]).queue == plan[done + 1..]
      else After(env, run + [c]) == BOOT
  {
    hide WalletTask, PlainTask, Filled;
    EveryRunIsSound(env, run);
    assert (run + [c])[..|run|] == run;
  }

  // ---- Stored signatures.

  predicate Live(s: State) {
    |s.shared| >= SIGNATURE_SIZE && s.shared[..SIGNATURE_SIZE] != Zeros(SIGNATURE_SIZE)
  }

  /** Command m checks its first receiver against a shared context that is not cleared. */
  predicate IsUse(env: Env, run: seq<Command>, m: nat)
    requires m < |run|
  {
    var s := After(env, run[..m]);
    run[m].Send? && IsNext(s, run[m]) && run[m].receivers != [] && Live(s)
  }

  /** Command m puts a signature into the shared context. */
  predicate IsWrite(env: Env, run: seq<Command>, m: nat)
    requires m < |run|
  {
    var s, c := After(env, run[..m]), run[m];
    || (c.StoreSignature? && c.wanted && Validate(s.queue, PlainTask(c.applet, STORE_SIGNATURE)) != Reset)
    || (c.Receive? && IsNext(s, c) && c.address.Some?)
  }

  function WrittenBy(env: Env, c: Command): seq<byte> {
    match c
    case StoreSignature(_, _, signature) => Filled(signature)
    case Receive(_, _, Some(address)) => Filled(env.atecc(env.h(address)))
    case _ => []
  }

  /** What is in the shared context was put there by one command and not used or overwritten since. */
  lemma {:induction false} LatestWrite(env: Env, run: seq<Command>) returns (w: nat)
    requires Live(After(env, run))
    ensures w < |run| && IsWrite(env, run, w) && After(env, run).shared == WrittenBy(env, run[w])
    ensures forall m | w < m < |run| :: !IsUse(env, run, m) && !IsWrite(env, run, m)
  {
    hide WalletTask, PlainTask, Filled, Plan, IsUse;
    assert Zeros(CONTEXT_SIZE)[..SIGNATURE_SIZE] == Zeros(SIGNATURE_SIZE);
    var n := |run| - 1;
    var front := run[..n];
    if IsWrite(env, run, n) {
      w := n;
    } else {
      w := LatestWrite(env, front);
      forall m | 0 <= m < n
        ensures IsUse(env, run, m) == IsUse(env, front, m) && IsWrite(env, run, m) == IsWrite(env, front, m)
      {
        SameInFront(env, run, m);
      }
      NotUsed(env, run);
    }
  }

  lemma SameInFront(env: Env, run: seq<Command>, m: nat)
    requires m < |run| - 1
    ensures var front := run[..|run| - 1];
      IsUse(env, run, m) == IsUse(env, front, m) && IsWrite(env, run, m) == IsWrite(env, front, m)
  {
    hide After, IsNext;
    assert run[..|run| - 1][..m] == run[..m];
  }

  /** A use clears the shared context. */
  lemma NotUsed(env: Env, run: seq<Command>)
    requires run != [] && Live(After(env, run))
    ensures !IsUse(env, run, |run| - 1)
  {
    hide WalletTask, PlainTask, Filled, Plan;
    assert Zeros(CONTEXT_SIZE)[..SIGNATURE_SIZE] == Zeros(SIGNATURE_SIZE);
  }

  /** Each check against a signature has its own write of that signature before it: after every
      earlier check, and with no other write or check in between. */
  lemma EachSignatureIsUsedOnce(env: Env, run: seq<Command>, n: nat) returns (w: nat)
    requires n < |run| && IsUse(env, run, n)
    ensures w < n && IsWrite(env, run, w) && After(env, run[..n]).shared == WrittenBy(env, run[w])
    ensures forall m | 0 <= m < n && IsUse(env, run, m) :: m < w
    ensures forall m | w < m < n :: !IsWrite(env, run, m)
  {
    hide IsNext, After, Live;
    var front := run[..n];
    w := LatestWrite(env, front);
    forall m | 0 <= m < n
      ensures IsUse(env, run, m) == IsUse(env, front, m) && IsWrite(env, run, m) == IsWrite(env, front, m)
    {
      assert front[..m] == run[..m];
    }
  }
}
