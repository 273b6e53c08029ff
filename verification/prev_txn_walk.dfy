/** What btc_validate_inputs does to the bytes of a previous transaction, as functions on the
    stream's script: the bytes it hashes, the bytes it leaves, and where it stops. */
module PrevTxnWalk {
  import opened Bytes
  import opened ByteStreams

  /** Where the walk stands: the bytes hashed so far, what the stream can still deliver, and
      whether some count or length could not be read (it then counts as 0 and the walk goes on). */
  datatype Place = Place(hashed: seq<byte>, left: Script, dry: bool)

  /** Stopped is BTC_VALIDATE_ERR_READ_STREAM. */
  datatype Walk<+T> = At(value: T) | Stopped(dry: bool) {
    predicate IsFailure() { Stopped? }
    function PropagateFailure<U>(): Walk<U> requires Stopped? { Stopped(dry) }
    function Extract(): T requires At? { value }
  }

  /** On a single segment a place whose count ran dry has nothing left. */
  ghost predicate Thin(p: Place) {
    |p.left| == 1 && (p.dry ==> p.left == [[]])
  }

  ghost predicate Keeps(p: Place, w: Walk<Place>) {
    match w
    case Stopped(dry) => p.dry ==> dry
    case At(q) => (p.dry ==> q.dry) && (Thin(p) ==> Thin(q))
  }

  /** Reads n bytes, n > 0, and hashes them when asked to. */
  function Fixed(p: Place, n: nat, hashing: bool): (w: Walk<Place>)
    ensures Keeps(p, w)
  {
    match Take(p.left, n)
    case None => Stopped(p.dry)
    case Some((bytes, left)) => At(p.(hashed := if hashing then p.hashed + bytes else p.hashed, left := left))
  }

  /** Script or witness bytes; a length of 0 reads nothing. The C code slices this at 1024 bytes. */
  function Body(p: Place, n: nat, hashing: bool): (w: Walk<Place>)
    ensures Keeps(p, w)
  {
    if n == 0 then At(p) else Fixed(p, n, hashing)
  }

  function ExtraBytes(first: byte): nat {
    if first < 0xfd then 0 else if first == 0xfd then 2 else if first == 0xfe then 4 else 8
  }

  /** The value decode_varint gives to the raw bytes of a count: 32 bits at most, so the 0xff form
      loses its upper half. */
  function CountValue(raw: seq<byte>): nat
    requires raw != [] && |raw| == 1 + ExtraBytes(raw[0])
  {
    if raw[0] < 0xfd then raw[0] else FromLE((raw[1..] + Zeros(4))[..4])
  }

  datatype CountRead = CountRead(value: nat, raw: seq<byte>, left: Script)

  /** decode_varint; raw == [] means that the read failed and 0 was returned. */
  function ReadCount(s: Script): CountRead {
    match Take(s, 1)
    case None => CountRead(0, [], AfterFailure(s))
    case Some((first, s1)) =>
      if ExtraBytes(first[0]) == 0 then CountRead(first[0], first, s1)
      else match Take(s1, ExtraBytes(first[0]))
        case None => CountRead(0, [], AfterFailure(s1))
        case Some((more, s2)) => CountRead(CountValue(first + more), first + more, s2)
  }

  function AfterCount(p: Place, hashing: bool): (q: Place)
    ensures Keeps(p, At(q))
  {
    var c := ReadCount(p.left);
    Place(if hashing then p.hashed + c.raw else p.hashed, c.left, p.dry || c.raw == [])
  }

  function Input(p: Place): (w: Walk<Place>)
    ensures Keeps(p, w)
  {
    var p1 :- Fixed(p, 32, true);
    var p2 :- Fixed(p1, 4, true);
    var p3 :- Body(AfterCount(p2, true), ReadCount(p2.left).value, true);
    Fixed(p3, 4, true)
  }

  function Inputs(n: nat, p: Place): (w: Walk<Place>)
    ensures Keeps(p, w)
  {
    if n == 0 then At(p)
    else
      var p1 :- Input(p);
      Inputs(n - 1, p1)
  }

  function Output(p: Place): (w: Walk<Place>)
    ensures Keeps(p, w)
  {
    var p1 :- Fixed(p, 8, true);
    Body(AfterCount(p1, true), ReadCount(p1.left).value, true)
  }

  /** Outputs number k up to n; found is the value of output number target, once seen. */
  function Outputs(k: nat, n: nat, target: nat, found: nat, p: Place): (w: Walk<(Place, nat)>)
    requires k <= n
    ensures Keeps(p, if w.At? then At(w.value.0) else Stopped(w.dry))
    decreases n - k
  {
    if k == n then At((p, found))
    else
      var p1 :- Output(p);
      Outputs(k + 1, n, target, if k == target then FromLE(p.left[0][..8]) else found, p1)
  }

  function WitnessItems(n: nat, p: Place): (w: Walk<Place>)
    ensures Keeps(p, w)
  {
    if n == 0 then At(p)
    else
      var p1 :- Body(AfterCount(p, false), ReadCount(p.left).value, false);
      WitnessItems(n - 1, p1)
  }

  function Witnesses(n: nat, p: Place): (w: Walk<Place>)
    ensures Keeps(p, w)
  {
    if n == 0 then At(p)
    else
      var p1 :- WitnessItems(ReadCount(p.left).value, AfterCount(p, false));
      Witnesses(n - 1, p1)
  }

  /** The part of the walk that follows the version, the marker and the flag. */
  function AfterHeader(p: Place, segwit: bool, target: nat): Walk<(Place, nat)> {
    var ins := ReadCount(p.left).value;
    var p1 :- Inputs(ins, AfterCount(p, true));
    var (p2, found) :- Outputs(0, ReadCount(p1.left).value, target, 0, AfterCount(p1, true));
    var p3 :- Witnesses(if segwit then ins else 0, p2);
    var p4 :- Fixed(p3, 4, true);
    At((p4, found))
  }

  /** The whole walk, given whether the byte peeked at after the version is 0. */
  function Run(s: Script, segwit: bool, target: nat): Walk<(Place, nat)> {
    var p :- Fixed(Place([], s, false), 4, true);
    var p1 :- if segwit then Fixed(p, 2, false) else At(p);
    AfterHeader(p1, segwit, target)
  }
}
