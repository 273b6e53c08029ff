/** The swap protocol: the composable-app queue and the shared context, driven by host commands
    (apps/exchange_app, and the receive and send flows of the coin apps). */
module Exchange {
  import opened Bytes

  const CONTEXT_SIZE := 256
  const PARAMS_SIZE := 128
  const SIGNATURE_SIZE := 64
  const RESULT_SIZE := 94
  const EXCHANGE_ID := 24

  const RECEIVE: byte := 1
  const FETCH_SIGNATURE: byte := 2
  const STORE_SIGNATURE: byte := 3
  const SEND: byte := 4

  /** caq_node_data_t. */
  datatype Task = Task(appletId: nat, params: seq<byte>)

  type Wallet = s: seq<byte> | |s| == 32 witness Zeros(32)
  type Stamp = s: seq<byte> | |s| <= CONTEXT_SIZE witness []
  type Signature = s: seq<byte> | |s| == SIGNATURE_SIZE witness Zeros(SIGNATURE_SIZE)

  /** SHA-256, the secure element's signature with its postfixes, and the server key's verification. */
  datatype Env = Env(h: Hash, atecc: Digest -> Stamp, verify: (seq<byte>, Digest) -> bool)

  function WalletTask(applet: nat, wallet: Wallet, tag: byte): Task {
    Task(applet, wallet + [tag] + Zeros(PARAMS_SIZE - 33))
  }

  function PlainTask(applet: nat, tag: byte): Task {
    Task(applet, [tag] + Zeros(PARAMS_SIZE - 1))
  }

  /** The parties of one swap: the receiving and the sending applet and wallet. */
  datatype Swap = Swap(toApplet: nat, toWallet: Wallet, fromApplet: nat, fromWallet: Wallet)

  function Plan(s: Swap): seq<Task> {
    [WalletTask(s.toApplet, s.toWallet, RECEIVE), PlainTask(EXCHANGE_ID, FETCH_SIGNATURE),
     PlainTask(EXCHANGE_ID, STORE_SIGNATURE), WalletTask(s.fromApplet, s.fromWallet, SEND)]
  }

  /** What the host can ask for. `wanted` says that the query holds the expected kind of request. */
  datatype Command =
    | Initiate(wanted: bool, swap: Swap)
    | GetSignature(wanted: bool, applet: nat)
    | StoreSignature(wanted: bool, applet: nat, signature: Signature)
    | CloseFlow(wanted: bool)
    // A get-public-key flow; address is what it derives, if it gets that far. It is signed first
    // and shown afterwards, whatever the user then says.
    | Receive(applet: nat, wallet: Wallet, address: Option<seq<byte>>)
    // A sign-transaction flow, with the receiver addresses it would check one after the other.
    | Send(applet: nat, wallet: Wallet, receivers: seq<seq<byte>>)

  datatype State = State(queue: seq<Task>, shared: seq<byte>)

  const BOOT := State([], Zeros(CONTEXT_SIZE))

  // ---- One command, as a function of the state.

  datatype Validation = Matched | NoSwap | Reset

  /** exchange_app_validate_caq. */
  function Validate(queue: seq<Task>, task: Task): Validation {
    if queue == [] then NoSwap else if queue[0] == task then Matched else Reset
  }

  function AfterValidate(s: State, task: Task): State {
    match Validate(s.queue, task)
    case Matched => s.(queue := s.queue[1..])
    case NoSwap => s
    case Reset => BOOT
  }

  function Filled(bytes: Stamp): (s: seq<byte>)
    ensures |s| == CONTEXT_SIZE
  {
    bytes + Zeros(CONTEXT_SIZE - |bytes|)
  }

  /** The validations a command asks for. */
  function TaskOf(c: Command): Option<Task> {
    match c
    case Initiate(_, _) => None
    case CloseFlow(_) => None
    case GetSignature(wanted, applet) => if wanted then Some(PlainTask(applet, FETCH_SIGNATURE)) else None
    case StoreSignature(wanted, applet, _) => if wanted then Some(PlainTask(applet, STORE_SIGNATURE)) else None
    case Receive(applet, wallet, _) => Some(WalletTask(applet, wallet, RECEIVE))
    case Send(applet, wallet, _) => Some(WalletTask(applet, wallet, SEND))
  }

  /** The command is the next step of the swap in progress. */
  predicate IsNext(s: State, c: Command) {
    TaskOf(c).Some? && Validate(s.queue, TaskOf(c).value) == Matched
  }

  function Step(env: Env, s: State, c: Command): State {
    var v := if TaskOf(c).Some? then AfterValidate(s, TaskOf(c).value) else s;
    match c
    case Initiate(wanted, swap) => if wanted then s.(queue := Plan(swap)) else s
    case CloseFlow(wanted) => if wanted then BOOT else s
    case GetSignature(_, _) => v
    // The result of the validation is not looked at; a reset does not return.
    case StoreSignature(wanted, applet, signature) =>
      if wanted && Validate(s.queue, PlainTask(applet, STORE_SIGNATURE)) != Reset
      then v.(shared := Filled(signature)) else v
    case Receive(_, _, address) =>
      if IsNext(s, c) && address.Some? then v.(shared := Filled(env.atecc(env.h(address.value)))) else v
    case Send(_, _, receivers) =>
      if IsNext(s, c) && receivers != [] then v.(shared := Zeros(CONTEXT_SIZE)) else v
  }

  /** exchange_validate_stored_signature uses the stored bytes once and clears them. */
  function CheckPasses(env: Env, shared: seq<byte>, receiver: seq<byte>): bool
    requires |shared| == CONTEXT_SIZE
  {
    env.verify(shared[..SIGNATURE_SIZE], env.h(receiver))
  }

  /** The answer of a send: it does not disturb a swap and, as a step of one, all its receivers pass,
      the first one against the shared context and all others against a cleared one. */
  predicate SendPasses(env: Env, s: State, applet: nat, wallet: Wallet, receivers: seq<seq<byte>>)
    requires |s.shared| == CONTEXT_SIZE
  {
    var v := Validate(s.queue, WalletTask(applet, wallet, SEND));
    && v != Reset
    && (v == Matched ==> forall i | 0 <= i < |receivers| ::
          CheckPasses(env, if i == 0 then s.shared else Zeros(CONTEXT_SIZE), receivers[i]))
  }

  // ---- The same in bytes.

  /** A send whose turn it is answers true exactly if the server's signature in the first 64 bytes of
      the shared context is over its first receiver, and 64 zeros are one over every other. */
  lemma SendVerifies(env: Env, s: State, applet: nat, wallet: Wallet, receivers: seq<seq<byte>>)
    requires |s.shared| == 256
    ensures SendPasses(env, s, applet, wallet, receivers) <==>
      s.queue == [] ||
      (s.queue[0] == Task(applet, wallet + [4] + Zeros(95))
       && (receivers != [] ==> env.verify(s.shared[..64], env.h(receivers[0])))
       && forall i | 1 <= i < |receivers| :: env.verify(Zeros(64), env.h(receivers[i])))
  {
    assert Zeros(CONTEXT_SIZE)[..64] == Zeros(64);
    forall i | 1 <= i < |receivers|
      ensures CheckPasses(env, Zeros(CONTEXT_SIZE), receivers[i]) == env.verify(Zeros(64), env.h(receivers[i]))
    {
    }
  }

  /** The four tasks of a swap: 128 bytes each, the wallet first if there is one, then the step. */
  lemma PlanInBytes(s: Swap)
    ensures Plan(s) == [Task(s.toApplet, s.toWallet + [1] + Zeros(95)), Task(24, [2] + Zeros(127)),
                        Task(24, [3] + Zeros(127)), Task(s.fromApplet, s.fromWallet + [4] + Zeros(95))]
  {
  }

  /** What each command asks exchange_app_validate_caq for. */
  lemma TasksInBytes(applet: nat, wallet: Wallet, address: Option<seq<byte>>, receivers: seq<seq<byte>>,
                     signature: Signature)
    ensures TaskOf(Receive(applet, wallet, address)) == Some(Task(applet, wallet + [1] + Zeros(95)))
    ensures TaskOf(GetSignature(true, applet)) == Some(Task(applet, [2] + Zeros(127)))
    ensures TaskOf(StoreSignature(true, applet, signature)) == Some(Task(applet, [3] + Zeros(127)))
    ensures TaskOf(Send(applet, wallet, receivers)) == Some(Task(applet, wallet + [4] + Zeros(95)))
  {
  }

  /** A matching task is taken from the front; another one empties queue and shared context. */
  lemma ValidationSteps(s: State, task: Task)
    ensures s.queue == [] ==> Validate(s.queue, task) == NoSwap && AfterValidate(s, task) == s
    ensures s.queue != [] && s.queue[0] == task ==>
      Validate(s.queue, task) == Matched && AfterValidate(s, task) == State(s.queue[1..], s.shared)
    ensures s.queue != [] && s.queue[0] != task ==>
      Validate(s.queue, task) == Reset && AfterValidate(s, task) == State([], Zeros(256))
  {
  }

  /** What the steps of a swap, or commands without one, leave in the shared context. */
  lemma StepsInBytes(env: Env, s: State, applet: nat, wallet: Wallet, signature: Signature, address: seq<byte>,
                     receivers: seq<seq<byte>>)
    requires |s.shared| == 256 && receivers != []
    ensures var t := Step(env, s, StoreSignature(true, applet, signature));
      if s.queue == [] then t == State([], signature + Zeros(192))
      else if s.queue[0] == Task(applet, [3] + Zeros(127)) then t == State(s.queue[1..], signature + Zeros(192))
      else t == State([], Zeros(256))
    ensures var t, stamp := Step(env, s, Receive(applet, wallet, Some(address))), env.atecc(env.h(address));
      if s.queue == [] then t == s
      else if s.queue[0] == Task(applet, wallet + [1] + Zeros(95)) then
        t == State(s.queue[1..], stamp + Zeros(256 - |stamp|))
      else t == State([], Zeros(256))
    ensures var t := Step(env, s, GetSignature(true, applet));
      if s.queue == [] then t == s
      else if s.queue[0] == Task(applet, [2] + Zeros(127)) then t == State(s.queue[1..], s.shared)
      else t == State([], Zeros(256))
    ensures var t := Step(env, s, Send(applet, wallet, receivers));
      if s.queue == [] then t == s
      else if s.queue[0] == Task(applet, wallet + [4] + Zeros(95)) then t == State(s.queue[1..], Zeros(256))
      else t == State([], Zeros(256))
    ensures Step(env, s, CloseFlow(true)) == State([], Zeros(256))
    ensures forall swap: Swap :: Step(env, s, Initiate(true, swap)) == State(Plan(swap), s.shared)
  {
  }

  // ---- The device.

  class Device {
    var queue: seq<Task>
    var shared: seq<byte>

    ghost predicate Valid() reads this { |shared| == CONTEXT_SIZE }
    ghost function Now(): State reads this { State(queue, shared) }

    constructor ()
      ensures Valid() && Now() == BOOT
    {
      queue, shared := [], Zeros(CONTEXT_SIZE);
    }

    method ResetDevice()
      modifies this
      ensures Valid() && Now() == BOOT
    {
      queue, shared := [], Zeros(CONTEXT_SIZE);
    }

    method ClearSharedContext()
      modifies this`shared
      ensures Valid() && shared == Zeros(CONTEXT_SIZE)
    {
      shared := Zeros(CONTEXT_SIZE);
    }

    /** memcpy to the front of the shared context. */
    method CopyToShared(bytes: Stamp)
      requires Valid()
      modifies this`shared
      ensures Valid() && shared == bytes + old(shared)[|bytes|..]
    {
      shared := bytes + shared[|bytes|..];
    }

    method ValidateCaq(task: Task) returns (v: Validation)
      requires Valid()
      modifies this
      ensures Valid() && v == Validate(old(queue), task) && Now() == AfterValidate(old(Now()), task)
    {
      if queue == [] {
        return NoSwap;
      }
      if queue[0] == task {
        queue := queue[1..];
        return Matched;
      }
      ResetDevice();
      return Reset;
    }

    method InitiateFlow(ghost env: Env, wanted: bool, swap: Swap)
      requires Valid()
      modifies this
      ensures Valid() && Now() == Step(env, old(Now()), Initiate(wanted, swap))
    {
      if !wanted { return; }
      queue := [];
      queue := queue + [WalletTask(swap.toApplet, swap.toWallet, RECEIVE)];
      queue := queue + [PlainTask(EXCHANGE_ID, FETCH_SIGNATURE)];
      queue := queue + [PlainTask(EXCHANGE_ID, STORE_SIGNATURE)];
      queue := queue + [WalletTask(swap.fromApplet, swap.fromWallet, SEND)];
      assert queue == Plan(swap);
    }

    method DoGetSignature(ghost env: Env, wanted: bool, applet: nat) returns (result: Option<seq<byte>>)
      requires Valid()
      modifies this
      ensures Valid() && Now() == Step(env, old(Now()), GetSignature(wanted, applet))
      ensures result == if wanted && Validate(old(queue), PlainTask(applet, FETCH_SIGNATURE)) != Reset
                        then Some(old(shared)[..94]) else None
    {
      if !wanted { return None; }
      var v := ValidateCaq(PlainTask(applet, FETCH_SIGNATURE));
      if v == Reset { return None; }
      result := Some(shared[..RESULT_SIZE]);
    }

    method DoStoreSignature(ghost env: Env, wanted: bool, applet: nat, signature: Signature)
      requires Valid()
      modifies this
      ensures Valid() && Now() == Step(env, old(Now()), StoreSignature(wanted, applet, signature))
    {
      if !wanted { return; }
      var v := ValidateCaq(PlainTask(applet, STORE_SIGNATURE));
      if v == Reset { return; }
      ClearSharedContext();
      CopyToShared(signature);
      assert shared == Filled(signature);
    }

    method DoCloseFlow(ghost env: Env, wanted: bool)
      requires Valid()
      modifies this
      ensures Valid() && Now() == Step(env, old(Now()), CloseFlow(wanted))
    {
      if !wanted { return; }
      queue := [];
      ClearSharedContext();
    }

    method SignAddress(env: Env, address: seq<byte>)
      requires Valid()
      modifies this`shared
      ensures Valid() && shared == Filled(env.atecc(env.h(address)))
    {
      var data := env.atecc(env.h(address));
      ClearSharedContext();
      CopyToShared(data);
      assert shared == Filled(data);
    }

    method DoReceive(env: Env, applet: nat, wallet: Wallet, address: Option<seq<byte>>)
      requires Valid()
      modifies this
      ensures Valid() && Now() == Step(env, old(Now()), Receive(applet, wallet, address))
    {
      var v := ValidateCaq(WalletTask(applet, wallet, RECEIVE));
      if v == Matched && address.Some? {
        SignAddress(env, address.value);
      }
    }

    method ValidateStoredSignature(env: Env, receiver: seq<byte>) returns (ok: bool)
      requires Valid()
      modifies this`shared
      ensures Valid() && shared == Zeros(CONTEXT_SIZE)
      ensures ok == CheckPasses(env, old(shared), receiver) == env.verify(old(shared)[..64], env.h(receiver))
    {
      var sig := shared[..SIGNATURE_SIZE];
      ClearSharedContext();
      ok := env.verify(sig, env.h(receiver));
    }

    /** The receivers are checked until one fails; only the first one meets the stored signature. */
    method DoSend(env: Env, applet: nat, wallet: Wallet, receivers: seq<seq<byte>>) returns (ok: bool)
      requires Valid()
      modifies this
      ensures Valid() && Now() == Step(env, old(Now()), Send(applet, wallet, receivers))
      ensures ok == SendPasses(env, old(Now()), applet, wallet, receivers)
    {
      var v := ValidateCaq(WalletTask(applet, wallet, SEND));
      if v == Reset { return false; }
      if v == NoSwap { return true; }
      for i := 0 to |receivers|
        invariant Valid() && queue == old(queue)[1..]
        invariant shared == if i == 0 then old(shared) else Zeros(CONTEXT_SIZE)
        invariant forall j | 0 <= j < i ::
          CheckPasses(env, if j == 0 then old(shared) else Zeros(CONTEXT_SIZE), receivers[j])
      {
        ok := ValidateStoredSignature(env, receivers[i]);
        if !ok { return; }
      }
      ok := true;
    }
  }
}
