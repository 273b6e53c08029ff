/** A host that refuses a chunk request and then goes on. decode_varint turns its failed read into
    the value 0 and nobody looks at the stream's status, so the walk can end on later bytes. */
module PrevTxnRefusals {
  import opened Bytes
  import opened ByteStreams
  import opened PrevTxnWalk
  import opened PrevTxnFormat
  import opened PrevTxnValidator
  import opened PrevTxnTheorems
  import PrevTxnHosts

  function With(p: Place, more: seq<seq<byte>>): Place {
    p.(left := p.left + more)
  }

  ghost predicate IsZeros(b: seq<byte>) {
    forall i | 0 <= i < |b| :: b[i] == 0
  }

  /** After a dry count, with at least n zero bytes still to come. */
  ghost predicate OnZeros(p: Place, n: nat) {
    p.dry && |p.left| == 1 && |p.left[0]| >= n && IsZeros(p.left[0])
  }

  /** The walk with more segments behind agrees with the walk on one segment until a count runs dry;
      from there zero bytes carry it on, at a price of at most cost of them. */
  ghost predicate Lock(w: Walk<Place>, w': Walk<Place>, more: seq<seq<byte>>, cost: nat) {
    if w.At? && !w.value.dry then w' == At(With(w.value, more))
    else if w == Stopped(false) then w' == Stopped(false)
    else Resumes(w', more, cost)
  }

  ghost predicate Resumes(w: Walk<Place>, more: seq<seq<byte>>, cost: nat) {
    |more| == 1 && IsZeros(more[0]) && |more[0]| >= cost ==> w.At? && OnZeros(w.value, |more[0]| - cost)
  }

  // ---- Zero bytes carry every stage.

  lemma ZeroFixed(p: Place, n: nat, k: nat, hashing: bool)
    requires n > 0 && OnZeros(p, n + k)
    ensures Fixed(p, n, hashing).At? && OnZeros(Fixed(p, n, hashing).value, k)
  {
  }

  lemma ZeroCount(p: Place, k: nat, hashing: bool)
    requires OnZeros(p, k + 1)
    ensures ReadCount(p.left).value == 0 && OnZeros(AfterCount(p, hashing), k)
  {
  }

  lemma ZeroInput(p: Place, k: nat)
    requires OnZeros(p, k + 41)
    ensures Input(p).At? && OnZeros(Input(p).value, k)
  {
    hide Take, OnZeros, ReadCount;
    ZeroFixed(p, 32, k + 9, true);
    var p1 := Fixed(p, 32, true).value;
    ZeroFixed(p1, 4, k + 5, true);
    var p2 := Fixed(p1, 4, true).value;
    ZeroCount(p2, k + 4, true);
    ZeroFixed(AfterCount(p2, true), 4, k, true);
  }

  lemma {:induction false} ZeroInputs(n: nat, p: Place, k: nat)
    requires OnZeros(p, k + 41 * n)
    ensures Inputs(n, p).At? && OnZeros(Inputs(n, p).value, k)
  {
    hide Input;
    if n > 0 {
      ZeroInput(p, k + 41 * (n - 1));
      ZeroInputs(n - 1, Input(p).value, k);
    }
  }

  lemma ZeroOutput(p: Place, k: nat)
    requires OnZeros(p, k + 9)
    ensures Output(p).At? && OnZeros(Output(p).value, k)
  {
    hide Take, OnZeros, ReadCount;
    ZeroFixed(p, 8, k + 1, true);
    ZeroCount(Fixed(p, 8, true).value, k, true);
  }

  lemma {:induction false} ZeroOutputs(j: nat, n: nat, target: nat, found: nat, p: Place, k: nat)
    requires j <= n && OnZeros(p, k + 9 * (n - j))
    ensures Outputs(j, n, target, found, p).At? && OnZeros(Outputs(j, n, target, found, p).value.0, k)
    decreases n - j
  {
    hide Output, FromLE;
    if j < n {
      ZeroOutput(p, k + 9 * (n - j - 1));
      var found' := if j == target then FromLE(p.left[0][..8]) else found;
      ZeroOutputs(j + 1, n, target, found', Output(p).value, k);
    }
  }

  lemma {:induction false} ZeroItems(n: nat, p: Place, k: nat)
    requires OnZeros(p, k + n)
    ensures WitnessItems(n, p).At? && OnZeros(WitnessItems(n, p).value, k)
  {
    hide ReadCount, OnZeros;
    if n > 0 {
      ZeroCount(p, k + n - 1, false);
      ZeroItems(n - 1, AfterCount(p, false), k);
    }
  }

  lemma {:induction false} ZeroWitnesses(n: nat, p: Place, k: nat)
    requires OnZeros(p, k + n)
    ensures Witnesses(n, p).At? && OnZeros(Witnesses(n, p).value, k)
  {
    hide ReadCount, OnZeros;
    if n > 0 {
      ZeroCount(p, k + n - 1, false);
      ZeroWitnesses(n - 1, AfterCount(p, false), k);
    }
  }

  // ---- Agreement up to the first dry count.

  lemma FixedLocks(p: Place, n: nat, hashing: bool, more: seq<seq<byte>>)
    requires Fresh(p)
    ensures Lock(Fixed(p, n, hashing), Fixed(With(p, more), n, hashing), more, 0)
  {
    if Take(p.left, n).Some? {
      assert Drop(p.left, n) + more == Drop(p.left + more, n);
    }
  }

  lemma BodyLocks(p: Place, n: nat, hashing: bool, more: seq<seq<byte>>)
    requires Fresh(p)
    ensures Lock(Body(p, n, hashing), Body(With(p, more), n, hashing), more, 0)
  {
    FixedLocks(p, n, hashing, more);
  }

  lemma CountLocks(p: Place, hashing: bool, more: seq<seq<byte>>)
    requires Fresh(p)
    ensures Lock(At(AfterCount(p, hashing)), At(AfterCount(With(p, more), hashing)), more, 0)
    ensures ReadCount((p.left + more)).value == ReadCount(p.left).value < U32
    ensures AfterCount(p, hashing).dry ==> ReadCount(p.left).value == 0
  {
    hide CountValue;
    var s := p.left;
    var s' := s + more;
    if |s[0]| > 0 {
      assert Drop(s', 1) == Drop(s, 1) + more;
      var e := ExtraBytes(s[0][0]);
      if e > 0 && |s[0][1..]| >= e {
        assert Drop(Drop(s', 1), e) == Drop(Drop(s, 1), e) + more;
        CountBound(s[0][..1] + s[0][1..][..e]);
      }
      assert AfterFailure(Drop(s, 1)) == [[]] && (more != [] ==> AfterFailure(Drop(s', 1)) == more);
    }
    assert AfterFailure(s) == [[]] && (more != [] ==> AfterFailure(s') == more);
  }

  lemma CountBound(raw: seq<byte>)
    requires IsCount(raw)
    ensures CountValue(raw) < U32
  {
    FromLEBound((raw[1..] + Zeros(4))[..4]);
    assert Pow256(4) == 256 * (256 * (256 * Pow256(1)));
  }

  lemma InputLocks(p: Place, more: seq<seq<byte>>)
    requires Fresh(p)
    ensures Lock(Input(p), Input(With(p, more)), more, 41)
  {
    hide Take, ReadCount, IsZeros;
    FixedLocks(p, 32, true, more);
    if Fixed(p, 32, true).At? {
      var p1 := Fixed(p, 32, true).value;
      FixedLocks(p1, 4, true, more);
      if Fixed(p1, 4, true).At? {
        var p2 := Fixed(p1, 4, true).value;
        CountLocks(p2, true, more);
        var p3 := AfterCount(p2, true);
        if p3.dry {
          DryStops(p3, 4, true);
          if |more| == 1 && IsZeros(more[0]) && |more[0]| >= 41 {
            ZeroFixed(AfterCount(With(p2, more), true), 4, |more[0]| - 4, true);
          }
        } else {
          var n := ReadCount(p2.left).value;
          BodyLocks(p3, n, true, more);
          if Body(p3, n, true).At? {
            FixedLocks(Body(p3, n, true).value, 4, true, more);
          }
        }
      }
    }
  }

  lemma {:induction false} InputsLock(n: nat, p: Place, more: seq<seq<byte>>)
    requires Fresh(p)
    ensures Lock(Inputs(n, p), Inputs(n, With(p, more)), more, 41 * n)
  {
    hide Input, IsZeros;
    if n > 0 {
      InputLocks(p, more);
      var w := Input(p);
      if w.At? && !w.value.dry {
        InputsLock(n - 1, w.value, more);
      } else if w != Stopped(false) && |more| == 1 && IsZeros(more[0]) && |more[0]| >= 41 * n {
        ZeroInputs(n - 1, Input(With(p, more)).value, |more[0]| - 41 * n);
      }
    }
  }

  lemma OutputTakesAValue(p: Place)
    requires Output(p).At?
    ensures |p.left[0]| >= 8
  {
    hide ReadCount;
  }

  lemma OutputLocks(p: Place, more: seq<seq<byte>>)
    requires Fresh(p)
    ensures Lock(Output(p), Output(With(p, more)), more, 9)
    ensures Output(With(p, more)).At? ==> |p.left[0]| >= 8
  {
    hide Take, ReadCount, IsZeros;
    if Output(With(p, more)).At? { OutputTakesAValue(With(p, more)); }
    FixedLocks(p, 8, true, more);
    if Fixed(p, 8, true).At? {
      var p1 := Fixed(p, 8, true).value;
      CountLocks(p1, true, more);
      if !AfterCount(p1, true).dry {
        BodyLocks(AfterCount(p1, true), ReadCount(p1.left).value, true, more);
      }
    }
  }

  /** The place part of a walk that also finds a value. */
  function Where(w: Walk<(Place, nat)>): Walk<Place> {
    match w
    case Stopped(dry) => Stopped(dry)
    case At((p, _)) => At(p)
  }

  function Found(w: Walk<(Place, nat)>): nat {
    if w.At? then w.value.1 else 0
  }

  lemma {:induction false} OutputsLock(k: nat, n: nat, target: nat, found: nat, p: Place, more: seq<seq<byte>>)
    requires k <= n && Fresh(p)
    ensures var w, w' := Outputs(k, n, target, found, p), Outputs(k, n, target, found, With(p, more));
      Lock(Where(w), Where(w'), more, 9 * (n - k)) && (w.At? && !w.value.0.dry ==> Found(w') == Found(w))
    decreases n - k
  {
    hide Output, IsZeros, FromLE;
    if k < n {
      OutputLocks(p, more);
      var w := Output(p);
      var found' := if k == target && |p.left[0]| >= 8 then FromLE(p.left[0][..8]) else found;
      if w.At? && !w.value.dry {
        OutputsLock(k + 1, n, target, found', w.value, more);
      } else if w != Stopped(false) && |more| == 1 && IsZeros(more[0]) && |more[0]| >= 9 * (n - k) {
        ZeroOutputs(k + 1, n, target, found', Output(With(p, more)).value, |more[0]| - 9 * (n - k));
      }
    }
  }

  lemma {:induction false} ItemsLock(n: nat, p: Place, more: seq<seq<byte>>)
    requires Fresh(p)
    ensures Lock(WitnessItems(n, p), WitnessItems(n, With(p, more)), more, n)
  {
    hide ReadCount, IsZeros;
    if n > 0 {
      CountLocks(p, false, more);
      var p1 := AfterCount(p, false);
      if p1.dry {
        if |more| == 1 && IsZeros(more[0]) && |more[0]| >= n {
          ZeroItems(n - 1, AfterCount(With(p, more), false), |more[0]| - n);
        }
      } else {
        var c := ReadCount(p.left).value;
        BodyLocks(p1, c, false, more);
        if Body(p1, c, false).At? {
          ItemsLock(n - 1, Body(p1, c, false).value, more);
        }
      }
    }
  }

  lemma {:induction false} WitnessesLock(n: nat, p: Place, more: seq<seq<byte>>)
    requires Fresh(p)
    ensures Lock(Witnesses(n, p), Witnesses(n, With(p, more)), more, U32 + n)
  {
    hide ReadCount, IsZeros, WitnessItems;
    if n > 0 {
      CountLocks(p, false, more);
      var p1 := AfterCount(p, false);
      var c := ReadCount(p.left).value;
      if p1.dry {
        assert WitnessItems(0, p1) == At(p1) by { NoItems(p1); }
        if |more| == 1 && IsZeros(more[0]) && |more[0]| >= U32 + n {
          NoItems(AfterCount(With(p, more), false));
          ZeroWitnesses(n - 1, AfterCount(With(p, more), false), |more[0]| - n);
        }
      } else {
        ItemsLock(c, p1, more);
        var w := WitnessItems(c, p1);
        if w.At? && !w.value.dry {
          WitnessesLock(n - 1, w.value, more);
        } else if w != Stopped(false) && |more| == 1 && IsZeros(more[0]) && |more[0]| >= U32 + n {
          ZeroWitnesses(n - 1, WitnessItems(c, With(p1, more)).value, |more[0]| - c - n);
        }
      }
    }
  }

  lemma NoItems(p: Place)
    ensures WitnessItems(0, p) == At(p)
  {
  }

  /** The end of the walk: n witnesses and the lock time. */
  function Ending(n: nat, p: Place): Walk<Place> {
    var q :- Witnesses(n, p);
    Fixed(q, 4, true)
  }

  lemma EndingLocks(n: nat, p: Place, more: seq<seq<byte>>)
    requires Fresh(p) || (Thin(p) && p.dry)
    requires n < U32
    ensures Fresh(p) ==> Lock(Ending(n, p), Ending(n, With(p, more)), more, U32 + n + 4)
    ensures !Fresh(p) ==> Ending(n, p) == Stopped(true)
  {
    hide Take, IsZeros;
    var w := Witnesses(n, p);
    if w.At? && w.value.dry { DryStops(w.value, 4, true); }
    if Fresh(p) {
      WitnessesLock(n, p, more);
      if w.At? && !w.value.dry {
        FixedLocks(w.value, 4, true, more);
      } else if w != Stopped(false) && |more| == 1 && IsZeros(more[0]) && |more[0]| >= U32 + n + 4 {
        ZeroFixed(Witnesses(n, With(p, more)).value, 4, |more[0]| - U32 - n - 4, true);
      }
    }
  }

  lemma ZeroEnding(n: nat, p: Place, k: nat)
    requires OnZeros(p, k + n + 4)
    ensures Ending(n, p).At? && OnZeros(Ending(n, p).value, k)
  {
    hide Take, OnZeros;
    ZeroWitnesses(n, p, k + 4);
    ZeroFixed(Witnesses(n, p).value, 4, k, true);
  }

  /** The walk after the inputs, ins of which there were. */
  function AfterInputs(ins: nat, p: Place, segwit: bool, target: nat): Walk<(Place, nat)> {
    var (q, found) :- Outputs(0, ReadCount(p.left).value, target, 0, AfterCount(p, true));
    var r :- Ending(if segwit then ins else 0, q);
    At((r, found))
  }

  lemma AfterInputsIsTheRest(p: Place, segwit: bool, target: nat)
    ensures AfterHeader(p, segwit, target) ==
      match Inputs(ReadCount(p.left).value, AfterCount(p, true))
      case Stopped(dry) => Stopped(dry)
      case At(q) => AfterInputs(ReadCount(p.left).value, q, segwit, target)
  {
    hide Inputs, Outputs, Witnesses, ReadCount;
  }

  lemma ZeroAfterInputs(ins: nat, p: Place, segwit: bool, target: nat, k: nat)
    requires OnZeros(p, k + ins + 5)
    ensures Where(AfterInputs(ins, p, segwit, target)).At?
    ensures OnZeros(Where(AfterInputs(ins, p, segwit, target)).value, k)
  {
    hide OnZeros, ReadCount, Ending;
    ZeroCount(p, k + ins + 4, true);
    var n := if segwit then ins else 0;
    ZeroEnding(n, AfterCount(p, true), k + ins - n);
    FewerZeros(Ending(n, AfterCount(p, true)).value, k + ins - n, k);
  }

  lemma FewerZeros(p: Place, n: nat, k: nat)
    requires OnZeros(p, n) && k <= n
    ensures OnZeros(p, k)
  {
  }

  lemma AfterInputsLocks(ins: nat, p: Place, segwit: bool, target: nat, more: seq<seq<byte>>)
    requires (Fresh(p) || (Thin(p) && p.dry)) && ins < U32
    ensures var w, w' := AfterInputs(ins, p, segwit, target), AfterInputs(ins, With(p, more), segwit, target);
      && (Fresh(p) ==> Lock(Where(w), Where(w'), more, 12 * U32))
      && (Fresh(p) && w.At? && !w.value.0.dry ==> Found(w') == Found(w))
      && (!Fresh(p) ==> w == Stopped(true))
  {
    hide Take, IsZeros, ReadCount, Ending, FromLE;
    var n := if segwit then ins else 0;
    var p1 := AfterCount(p, true);
    if p.dry {
      DryCount(p);
      EndingLocks(n, p1, more);
    } else {
      CountLocks(p, true, more);
      if p1.dry {
        EndingLocks(n, p1, more);
        if |more| == 1 && IsZeros(more[0]) && |more[0]| >= 12 * U32 {
          ZeroEnding(n, AfterCount(With(p, more), true), |more[0]| - n - 4);
        }
      } else {
        OutputsEndingLock(ReadCount(p.left).value, n, target, p1, more);
      }
    }
  }

  /** Outputs and ending. */
  lemma OutputsEndingLock(c: nat, n: nat, target: nat, p: Place, more: seq<seq<byte>>)
    requires Fresh(p) && c < U32 && n < U32
    ensures var w, w' := Outputs(0, c, target, 0, p), Outputs(0, c, target, 0, With(p, more));
      var v := if w.At? then Ending(n, w.value.0) else Stopped(w.dry);
      var v' := if w'.At? then Ending(n, w'.value.0) else Stopped(w'.dry);
      Lock(v, v', more, 12 * U32) && (v.At? && !v.value.dry ==> Found(w') == Found(w))
  {
    hide Take, IsZeros, ReadCount, Ending, FromLE, Outputs;
    OutputsLock(0, c, target, 0, p, more);
    var w := Where(Outputs(0, c, target, 0, p));
    if w.At? { EndingLocks(n, w.value, more); }
    if !(w.At? && !w.value.dry) && w != Stopped(false) && |more| == 1 && IsZeros(more[0]) && |more[0]| >= 12 * U32 {
      ZeroEnding(n, Where(Outputs(0, c, target, 0, With(p, more))).value, |more[0]| - 9 * c - n - 4);
    }
  }

  lemma DryCount(p: Place)
    requires Thin(p) && p.dry
    ensures ReadCount(p.left).value == 0
  {
  }

  lemma AfterHeaderLocks(p: Place, segwit: bool, target: nat, more: seq<seq<byte>>)
    requires Fresh(p)
    ensures var w, w' := AfterHeader(p, segwit, target), AfterHeader(With(p, more), segwit, target);
      Lock(Where(w), Where(w'), more, 64 * U32) && (w.At? && !w.value.0.dry ==> Found(w') == Found(w))
  {
    hide Take, IsZeros, ReadCount, AfterInputs, AfterHeader;
    AfterInputsIsTheRest(p, segwit, target);
    AfterInputsIsTheRest(With(p, more), segwit, target);
    CountLocks(p, true, more);
    var p1, p1' := AfterCount(p, true), AfterCount(With(p, more), true);
    var c := ReadCount(p.left).value;
    var zeros := |more| == 1 && IsZeros(more[0]) && |more[0]| >= 64 * U32;
    if p1.dry {
      AfterInputsLocks(0, p1, segwit, target, more);
      if zeros { ZeroAfterInputs(0, p1', segwit, target, |more[0]| - 5); }
    } else {
      InputsLock(c, p1, more);
      var w := Inputs(c, p1);
      if w.At? { AfterInputsLocks(c, w.value, segwit, target, more); }
      if !(w.At? && !w.value.dry) && w != Stopped(false) && zeros {
        ZeroAfterInputs(c, Inputs(c, With(p1, more)).value, segwit, target, |more[0]| - 41 * c - c - 5);
      }
    }
  }

  lemma RunLocks(data: seq<byte>, segwit: bool, target: nat, more: seq<seq<byte>>)
    ensures var w, w' := Run([data], segwit, target), Run([data] + more, segwit, target);
      Lock(Where(w), Where(w'), more, 64 * U32) && (w.At? && !w.value.0.dry ==> Found(w') == Found(w))
  {
    hide AfterHeader, Take, IsZeros;
    var p := On([], data);
    FixedLocks(p, 4, true, more);
    if Fixed(p, 4, true).At? {
      var p1 := Fixed(p, 4, true).value;
      FixedLocks(p1, 2, false, more);
      if !segwit {
        AfterHeaderLocks(p1, segwit, target, more);
      } else if Fixed(p1, 2, false).At? {
        AfterHeaderLocks(Fixed(p1, 2, false).value, segwit, target, more);
      }
    }
  }

  /** Chunks, a refusal, and whatever the host answers later: the script of such a host. */
  lemma {:induction false} RefusalEndsASegment(data: seq<byte>, chunks: seq<Reply>, later: seq<Reply>)
    requires PrevTxnHosts.AllChunks(chunks)
    ensures Prepend(data, Segments(chunks + [Refused] + later))
         == [data + PrevTxnHosts.Joined(chunks)] + Segments(later)
    decreases |chunks|
  {
    var all := chunks + [Refused] + later;
    if chunks == [] {
      assert all[0] == Refused && all[1..] == later;
      assert data + [] == data;
    } else {
      assert all[0] == chunks[0] && all[1..] == chunks[1..] + [Refused] + later;
      RefusalEndsASegment(chunks[0].bytes, chunks[1..], later);
    }
  }

  // ---- When a refusal can be turned into an acceptance.

  /** The bytes sent before the first refusal run out inside a count or length field. */
  predicate DriesUp(data: seq<byte>, peek: byte) {
    Run([data], peek == 0, 0) == Stopped(true)
  }

  /** The target only selects which value is remembered. */
  lemma {:induction false} TargetDoesNotSteer(k: nat, n: nat, target: nat, target': nat, found: nat, found': nat,
                                              p: Place)
    requires k <= n
    ensures Where(Outputs(k, n, target, found, p)) == Where(Outputs(k, n, target', found', p))
    decreases n - k
  {
    hide Output, FromLE;
    if k < n && Output(p).At? {
      OutputTakesAValue(p);
      var f := if k == target then FromLE(p.left[0][..8]) else found;
      var f' := if k == target' then FromLE(p.left[0][..8]) else found';
      TargetDoesNotSteer(k + 1, n, target, target', f, f', Output(p).value);
    }
  }

  lemma RunDoesNotDependOnTarget(s: Script, segwit: bool, target: nat, target': nat)
    ensures Where(Run(s, segwit, target)) == Where(Run(s, segwit, target'))
  {
    hide Inputs, Outputs, Witnesses, ReadCount;
    forall p: Place ensures Where(AfterHeader(p, segwit, target)) == Where(AfterHeader(p, segwit, target')) {
      var w := Inputs(ReadCount(p.left).value, AfterCount(p, true));
      if w.At? {
        TargetDoesNotSteer(0, ReadCount(w.value.left).value, target, target', 0, 0, AfterCount(w.value, true));
      }
    }
  }

  lemma EndedWalkIsFresh(p: Place, segwit: bool, target: nat)
    requires Thin(p) && AfterHeader(p, segwit, target).At?
    ensures !AfterHeader(p, segwit, target).value.0.dry
  {
    hide Inputs, Outputs, Witnesses, ReadCount, Take;
    var p1 := Inputs(ReadCount(p.left).value, AfterCount(p, true)).value;
    var p2 := Outputs(0, ReadCount(p1.left).value, target, 0, AfterCount(p1, true)).value.0;
    var p3 := Witnesses(if segwit then ReadCount(p.left).value else 0, p2).value;
    if p3.dry { DryStops(p3, 4, true); }
  }

  /** A run that ends on one segment read no dry count. */
  lemma EndedRunIsFresh(data: seq<byte>, segwit: bool, target: nat)
    ensures Run([data], segwit, target).At? ==> !Run([data], segwit, target).value.0.dry
  {
    hide AfterHeader, Take;
    if Run([data], segwit, target).At? {
      var p := Fixed(On([], data), 4, true).value;
      EndedWalkIsFresh(if segwit then Fixed(p, 2, false).value else p, segwit, target);
    }
  }

  /** No host can turn a walk that fails on the bytes before its first refusal into an accepted one,
      exactly when those bytes do not run out inside a count or length field. */
  lemma RefusalsAreFinalUnlessACountDries(h: Hash, data: seq<byte>, peek: byte)
    ensures (forall more: seq<seq<byte>>, input: TxnInput ::
               VerdictOn(h, [data] + more, peek, input) == Success ==> VerdictOn(h, [data], peek, input) == Success)
       <==> !DriesUp(data, peek)
  {
    hide Run;
    if DriesUp(data, peek) {
      var more := [Zeros(64 * U32)];
      RunLocks(data, peek == 0, 0, more);
      var (p, found) := Run([data] + more, peek == 0, 0).value;
      var input := TxnInput(h(h(p.hashed)), 0, found);
      assert VerdictOn(h, [data] + more, peek, input) == Success;
      assert VerdictOn(h, [data], peek, input) == ReadStream;
    } else {
      forall more: seq<seq<byte>>, input: TxnInput | VerdictOn(h, [data] + more, peek, input) == Success
        ensures VerdictOn(h, [data], peek, input) == Success
      {
        RunDoesNotDependOnTarget([data], peek == 0, 0, input.prevOutputIndex);
        RunLocks(data, peek == 0, input.prevOutputIndex, more);
        EndedRunIsFresh(data, peek == 0, input.prevOutputIndex);
      }
    }
  }

  /** Nine bytes suffice: the version, a refusal where the input count is due, and five zeros. */
  lemma NineBytesAreAccepted(h: Hash)
    ensures DriesUp([1, 0, 0, 0], 1)
    ensures var input := TxnInput(h(h([1, 0, 0, 0, 0, 0, 0, 0, 0])), 0, 0);
      VerdictOn(h, [[1, 0, 0, 0], [0, 0, 0, 0, 0]], 1, input) == Success
  {
    hide Run;
    var v: seq<byte> := [1, 0, 0, 0];
    NineBytesDryUp(v);
    FiveZerosGoOn(v);
    assert v + [0] + [0, 0, 0, 0] == [1, 0, 0, 0, 0, 0, 0, 0, 0];
  }

  lemma FiveZerosGoOn(v: seq<byte>)
    requires |v| == 4
    ensures Run([v, [0, 0, 0, 0, 0]], false, 0).At?
    ensures Run([v, [0, 0, 0, 0, 0]], false, 0).value.0.hashed == v + [0] + [0, 0, 0, 0]
    ensures Run([v, [0, 0, 0, 0, 0]], false, 0).value.1 == 0
  {
    hide Outputs, Inputs, Witnesses, ReadCount, Take, Drop;
    var z: seq<byte> := [0, 0, 0, 0, 0];
    NothingToRead(Place(v, [z], true));
    NothingToRead(Place(v + [0], [z[1..]], true));
    FiveZeroReads(v, z);
  }

  lemma FiveZeroReads(v: seq<byte>, z: seq<byte>)
    requires |v| == 4 && z == [0, 0, 0, 0, 0]
    ensures Fixed(Place([], [v, z], false), 4, true) == At(Place(v, [[], z], false))
    ensures AfterCount(Place(v, [[], z], false), true) == Place(v, [z], true) && ReadCount([[], z]).value == 0
    ensures AfterCount(Place(v, [z], true), true) == Place(v + [0], [z[1..]], true) && ReadCount([z]).value == 0
    ensures Fixed(Place(v + [0], [z[1..]], true), 4, true) == At(Place(v + [0] + [0, 0, 0, 0], [[]], true))
  {
    hide ReadCount, Fixed, Drop, AfterFailure;
    TakeAll([], v, [z], 4, false);
    TakeAll(v + [0], z[1..], [], 4, true);
    var gone: seq<seq<byte>> := [[]];
    assert [v] + [z] == [v, z] && gone + [z] == [[], z];
    assert [z[1..]] + [] == [z[1..]] && gone + [] == gone;
    assert [] + v == v && v + [] == v && z[1..] == [0, 0, 0, 0];
    ZeroAfterRefusal(z);
  }

  lemma TakeAll(hashed: seq<byte>, bytes: seq<byte>, more: seq<seq<byte>>, n: nat, dry: bool)
    requires n == |bytes| > 0
    ensures Fixed(Place(hashed, [bytes] + more, dry), n, true) == At(Place(hashed + bytes, [[]] + more, dry))
  {
    assert bytes[..n] == bytes && bytes[n..] == [];
    assert Drop([bytes] + more, n) == [[]] + more;
  }

  lemma ZeroAfterRefusal(z: seq<byte>)
    requires z == [0, 0, 0, 0, 0]
    ensures ReadCount([[], z]) == CountRead(0, [], [z]) && ReadCount([z]) == CountRead(0, [0], [z[1..]])
  {
    assert AfterFailure([[], z]) == [z] && Drop([z], 1) == [z[1..]] && z[..1] == [0];
  }

  lemma NothingToRead(p: Place)
    ensures Inputs(0, p) == At(p) && Witnesses(0, p) == At(p)
    ensures forall target :: Outputs(0, 0, target, 0, p) == At((p, 0))
  {
  }

  lemma NineBytesDryUp(v: seq<byte>)
    requires |v| == 4
    ensures DriesUp(v, 1)
  {
    hide Outputs, Inputs, Witnesses;
    assert v[..4] == v && v[4..] == [] && [] + v == v && v + [] == v;
    assert Drop([v], 4) == [[]];
    assert Fixed(Place([], [v], false), 4, true) == At(Place(v, [[]], false));
    assert AfterCount(Place(v, [[]], false), true) == Place(v, [[]], true);
    NothingToRead(Place(v, [[]], true));
    assert AfterCount(Place(v, [[]], true), true) == Place(v, [[]], true);
  }
}
