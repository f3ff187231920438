/** One short-lived secret buffer shared by many callers (internal/secret/input.go). */
module SecretInput {
  import opened Outcomes
  import opened Bytes

  /** The guarded fields; `memory` is the owned array, which outlives the reference `held`. */
  datatype State = State(memory: seq<byte>, held: bool, closed: bool, inUse: int)

  function NewState(bytes: seq<byte>, isNil: bool): State { State(bytes, !isNil, false, 0) }

  /** First critical section of Use. */
  function Enter(s: State): Option<State> {
    if s.closed || !s.held then None else Some(s.(inUse := s.inUse + 1))
  }

  function Wiped(s: State): State { s.(memory := if s.held then Zeros(|s.memory|) else s.memory, held := false) }

  /** The deferred second critical section, which runs however the callback left. */
  function Release(s: State): State {
    var t := s.(inUse := s.inUse - 1);
    if t.inUse == 0 && t.closed && t.held then Wiped(t) else t
  }

  function Close(s: State): State {
    if s.closed then s
    else
      var t := s.(closed := true);
      if t.inUse > 0 then t else Wiped(t)
  }

  /** The critical sections in terms of the fields: when one enters, and when the memory is wiped. */
  lemma SectionsExactly(s: State)
    ensures Enter(s) == if !s.closed && s.held then Some(s.(inUse := s.inUse + 1)) else None
    ensures
      var t := Release(s);
      && t.inUse == s.inUse - 1 && t.closed == s.closed
      && (if s.closed && s.held && s.inUse == 1 then !t.held && t.memory == Zeros(|s.memory|)
          else t.held == s.held && t.memory == s.memory)
    ensures
      var t := Close(s);
      && t.inUse == s.inUse && t.closed
      && (if !s.closed && s.held && s.inUse <= 0 then !t.held && t.memory == Zeros(|s.memory|)
          else t.memory == s.memory && t.held == (s.held && (s.closed || s.inUse > 0)))
  {
  }

  class Input {
    var buf: array?<byte>
    var closed: bool
    var inUse: int
    ghost const owned: array?<byte>

    ghost predicate Valid()
      reads this
    {
      buf != null ==> buf == owned
    }

    ghost function View(): State
      reads this, owned
    {
      State(if owned == null then [] else owned[..], buf != null, closed, inUse)
    }

    /** New takes ownership; it does not copy. */
    constructor (bytes: array?<byte>)
      ensures Valid() && owned == bytes
      ensures View() == NewState(if bytes == null then [] else bytes[..], bytes == null)
    {
      buf, closed, inUse, owned := bytes, false, 0, bytes;
    }

    /** Use up to the callback: the callback gets the owned array itself. */
    method BeginUse() returns (granted: bool, view: array?<byte>)
      requires Valid()
      modifies this`inUse
      ensures Valid()
      ensures granted <==> Enter(old(View())).Some?
      ensures granted ==> View() == Enter(old(View())).value && view == owned && view != null
      ensures !granted ==> View() == old(View()) && view == null
    {
      if closed || buf == null { return false, null; }
      inUse := inUse + 1;
      return true, buf;
    }

    /** release */
    method EndUse()
      requires Valid()
      modifies this, owned
      ensures Valid() && View() == Release(old(View()))
    {
      inUse := inUse - 1;
      if inUse == 0 && closed && buf != null {
        Zero(buf);
        buf := null;
      }
    }

    method CloseInput()
      requires Valid()
      modifies this, owned
      ensures Valid() && View() == Close(old(View()))
    {
      if closed { return; }
      closed := true;
      if inUse > 0 { return; }
      if buf != null { Zero(buf); }
      buf := null;
    }

    /** 0 from the moment of Close, so Len never contradicts Use. */
    method Len() returns (n: nat)
      requires Valid()
      ensures n == if View().closed || !View().held then 0 else |View().memory|
      ensures n > 0 ==> Enter(View()).Some?
    {
      if closed { return 0; }
      if buf == null { return 0; }
      return buf.Length;
    }
  }

  // ---- all interleavings ----

  /** A callback is named by a number that is never used twice. */
  datatype Action = BeginUse(call: nat) | EndUse(call: nat) | CloseCall

  datatype Node = Node(input: State, running: set<nat>, started: set<nat>)

  function Initial(bytes: seq<byte>, isNil: bool): Node { Node(NewState(bytes, isNil), {}, {}) }

  function Apply(n: Node, a: Action): Node {
    match a
    case BeginUse(call) =>
      if call in n.started || Enter(n.input) == None then n
      else Node(Enter(n.input).value, n.running + {call}, n.started + {call})
    case EndUse(call) =>
      if call !in n.running then n else Node(Release(n.input), n.running - {call}, n.started)
    case CloseCall => n.(input := Close(n.input))
  }

  function Run(n: Node, actions: seq<Action>): Node {
    if actions == [] then n else Apply(Run(n, actions[..|actions| - 1]), actions[|actions| - 1])
  }

  /** A longer run takes the shorter one and then one more step. */
  lemma RunMore(n: Node, actions: seq<Action>, a: Action)
    ensures Run(n, actions + [a]) == Apply(Run(n, actions), a)
  {
    assert (actions + [a])[..|actions|] == actions;
  }

  ghost predicate Inv(n: Node, bytes: seq<byte>, isNil: bool) {
    && n.running <= n.started
    && n.input.inUse == |n.running|
    && (n.running != {} ==> n.input.held)
    && (n.input.held ==> n.input.memory == bytes && !isNil)
    && (!n.input.held && !isNil ==> n.input.closed && n.input.memory == Zeros(|bytes|))
    && (n.input.closed && n.running == {} ==> !n.input.held)
  }

  lemma ApplyKeeps(n: Node, a: Action, bytes: seq<byte>, isNil: bool)
    requires Inv(n, bytes, isNil)
    ensures Inv(Apply(n, a), bytes, isNil)
  {
    match a {
      case BeginUse(call) => assert call !in n.started ==> |n.running + {call}| == |n.running| + 1;
      case EndUse(call) =>
        if call in n.running {
          assert |n.running - {call}| == |n.running| - 1;
          assert |n.running - {call}| == 0 <==> n.running - {call} == {};
        }
      case CloseCall => assert |n.running| == 0 <==> n.running == {};
    }
  }

  lemma {:induction false} RunKeeps(n: Node, actions: seq<Action>, bytes: seq<byte>, isNil: bool)
    requires Inv(n, bytes, isNil)
    ensures Inv(Run(n, actions), bytes, isNil)
  {
    if actions != [] {
      RunKeeps(n, actions[..|actions| - 1], bytes, isNil);
      ApplyKeeps(Run(n, actions[..|actions| - 1]), actions[|actions| - 1], bytes, isNil);
    }
  }

  /** Every running callback sees the original bytes; once closed with none running, the buffer is wiped and dropped. */
  lemma BytesIntactThenWiped(bytes: seq<byte>, isNil: bool, actions: seq<Action>)
    ensures
      var n := Run(Initial(bytes, isNil), actions);
      && (n.running != {} ==> n.input.held && n.input.memory == bytes)
      && (n.input.closed && n.running == {} && !isNil ==> !n.input.held && n.input.memory == Zeros(|bytes|))
      && (!n.input.closed && !isNil ==> n.input.held && n.input.memory == bytes)
  {
    RunKeeps(Initial(bytes, isNil), actions, bytes, isNil);
  }

  /** After Close no Use enters, whatever runs afterwards, and nothing reopens the input. */
  lemma {:induction false} ClosedStaysClosed(n: Node, actions: seq<Action>)
    requires n.input.closed
    ensures Run(n, actions).input.closed
    ensures Run(n, actions).running <= n.running && Run(n, actions).started == n.started
  {
    if actions != [] { ClosedStaysClosed(n, actions[..|actions| - 1]); }
  }

  /** The memory changes at most once in a run, in the step after which no callback is running. */
  lemma WipeIsTheLastExit(bytes: seq<byte>, isNil: bool, actions: seq<Action>, a: Action)
    ensures
      var n := Run(Initial(bytes, isNil), actions);
      var n' := Apply(n, a);
      n'.input.memory != n.input.memory ==>
        && n'.running == {} && n'.input.closed && n.input.memory == bytes
        && (a == CloseCall || (a.EndUse? && n.input.closed && n.running == {a.call}))
  {
    var n := Run(Initial(bytes, isNil), actions);
    RunKeeps(Initial(bytes, isNil), actions, bytes, isNil);
    ApplyKeeps(n, a, bytes, isNil);
    if a.EndUse? && a.call in n.running {
      assert |n.running - {a.call}| == |n.running| - 1;
      assert |n.running - {a.call}| == 0 <==> n.running - {a.call} == {};
      assert n.running - {a.call} == {} ==> n.running == {a.call};
    }
  }

  // ---- reading a bounded secret ----

  const CHUNK: nat := 512

  datatype ReadEnd = More | EOF | Failed

  /** One Read call: what the chunk holds afterwards (scratch included), how much of it counts, and the error. */
  datatype RawReadCall = ReadCall(chunk: seq<byte>, n: nat, end: ReadEnd) {
    predicate Valid() { |chunk| == CHUNK && n <= CHUNK }

    function Data(): seq<byte>
      requires Valid()
    {
      chunk[..n]
    }
  }

  type ReadCall = c: RawReadCall | c.Valid() witness ReadCall(Zeros(CHUNK), 0, EOF)

  datatype ReadResult = Content(bytes: seq<byte>) | BadLimit | TooLong | ReadFailed

  /** Everything up to the first call that reports an error; a finished script reads as EOF. */
  function Concatenated(calls: seq<ReadCall>): seq<byte> {
    if calls == [] then []
    else if calls[0].end != More then calls[0].Data()
    else calls[0].Data() + Concatenated(calls[1..])
  }

  function Outcome(calls: seq<ReadCall>): ReadEnd {
    if calls == [] then EOF
    else if calls[0].end != More then calls[0].end
    else Outcome(calls[1..])
  }

  ghost predicate AllZero(a: array<byte>, from: nat)
    reads a
  {
    forall i | from <= i < a.Length :: a[i] == 0
  }

  /** The reader may use the whole chunk as scratch space. */
  method Fill(chunk: array<byte>, call: ReadCall)
    requires chunk.Length == CHUNK
    modifies chunk
    ensures chunk[..] == call.chunk
  {
    for k := 0 to CHUNK
      invariant chunk[..k] == call.chunk[..k]
    {
      chunk[k] := call.chunk[k];
    }
  }

  /** append within the capacity allocated up front, so no earlier array is left behind. */
  method Append(buf: array<byte>, len: nat, chunk: array<byte>, n: nat)
    requires buf != chunk && n <= chunk.Length && len + n <= buf.Length && AllZero(buf, len)
    modifies buf
    ensures buf[..len + n] == old(buf[..len]) + chunk[..n]
    ensures AllZero(buf, len + n)
  {
    for k := 0 to n
      invariant buf[..len + k] == old(buf[..len]) + chunk[..k]
      invariant AllZero(buf, len + k)
    {
      buf[len + k] := chunk[k];
      assert buf[..len + k + 1] == buf[..len + k] + [chunk[k]];
    }
  }

  /** Zero the used part of a buffer. */
  method ZeroSlice(a: array<byte>, n: nat)
    requires n <= a.Length && AllZero(a, n)
    modifies a
    ensures AllZero(a, 0)
  {
    for i := 0 to n
      invariant AllZero(a, n) && forall j | 0 <= j < i :: a[j] == 0
    {
      a[i] := 0;
    }
  }

  method Wipe(a: array<byte>)
    modifies a
    ensures AllZero(a, 0)
  {
    Zero(a);
    assert forall j | 0 <= j < a.Length :: a[j] == a[..][j];
  }

  /** `read` so far, with `rest` still to be called unless the reader has ended. */
  ghost predicate Progress(calls: seq<ReadCall>, read: seq<byte>, end: ReadEnd, rest: seq<ReadCall>) {
    && Concatenated(calls) == read + (if end == More then Concatenated(rest) else [])
    && Outcome(calls) == if end == More then Outcome(rest) else end
  }

  lemma Starts(calls: seq<ReadCall>)
    ensures Progress(calls, [], More, calls[0..])
  {
    assert calls[0..] == calls && [] + Concatenated(calls) == Concatenated(calls);
  }

  lemma ReadOnce(calls: seq<ReadCall>, read: seq<byte>, i: nat)
    requires i <= |calls| && Progress(calls, read, More, calls[i..])
    ensures i < |calls| ==> Progress(calls, read + calls[i].Data(), calls[i].end, calls[i + 1..])
    ensures i == |calls| ==> Progress(calls, read + [], EOF, calls[i..])
  {
    if i < |calls| {
      assert calls[i..][1..] == calls[i + 1..];
      assert read + (calls[i].Data() + Concatenated(calls[i + 1..])) ==
          (read + calls[i].Data()) + Concatenated(calls[i + 1..]);
      assert (read + calls[i].Data()) + [] == read + calls[i].Data();
    }
  }

  lemma AtLeast(calls: seq<ReadCall>, read: seq<byte>, end: ReadEnd, rest: seq<ReadCall>)
    requires Progress(calls, read, end, rest)
    ensures |Concatenated(calls)| >= |read|
  {
  }

  lemma Done(calls: seq<ReadCall>, read: seq<byte>, end: ReadEnd, rest: seq<ReadCall>)
    requires Progress(calls, read, end, rest) && end != More
    ensures Concatenated(calls) == read && Outcome(calls) == end
  {
  }

  /**
   * ReadAll: the caller gets exactly the stream when it fits, and on every exit no plaintext is left in the scratch
   * chunk, nor in the buffer unless it is handed over.
   */
  method ReadAll(calls: seq<ReadCall>, limit: int) returns (r: ReadResult, buf: array<byte>, chunk: array<byte>)
    ensures r == if limit <= 0 then BadLimit
                 else if |Concatenated(calls)| > limit then TooLong
                 else if Outcome(calls) == Failed then ReadFailed
                 else Content(Concatenated(calls))
    ensures AllZero(chunk, 0)
    ensures r.Content? ==> |r.bytes| <= buf.Length && buf[..|r.bytes|] == r.bytes
    ensures !r.Content? ==> AllZero(buf, 0)
  {
    hide Concatenated, Outcome, Zeros, Progress;
    if limit <= 0 {
      buf := new byte[0];
      chunk := new byte[0];
      return BadLimit, buf, chunk;
    }
    buf := new byte[limit](_ => 0);
    chunk := new byte[CHUNK](_ => 0);
    var len := 0;
    var i := 0;
    var end := More;
    Starts(calls);
    while end == More
      invariant 0 <= i <= |calls| && 0 <= len <= limit
      invariant buf.Length == limit && chunk.Length == CHUNK && buf != chunk && fresh(buf) && fresh(chunk)
      invariant AllZero(buf, len)
      invariant Progress(calls, buf[..len], end, calls[i..])
      decreases |calls| - i, end == More
    {
      var n := 0;
      ghost var before := buf[..len];
      ReadOnce(calls, before, i);
      if i < |calls| {
        Fill(chunk, calls[i]);
        n, end := calls[i].n, calls[i].end;
        i := i + 1;
      } else {
        end := EOF;
      }
      assert Progress(calls, before + chunk[..n], end, calls[i..]);
      if n > 0 {
        if len + n > limit {
          AtLeast(calls, before + chunk[..n], end, calls[i..]);
          ZeroSlice(buf, len);
          Wipe(chunk);
          return TooLong, buf, chunk;
        }
        Append(buf, len, chunk, n);
        len := len + n;
      }
      assert buf[..len] == before + chunk[..n];
    }
    Done(calls, buf[..len], end, calls[i..]);
    if end == Failed {
      ZeroSlice(buf, len);
      Wipe(chunk);
      return ReadFailed, buf, chunk;
    }
    Wipe(chunk);
    return Content(buf[..len]), buf, chunk;
  }

  /** One callback over a close: it sees the bytes until it leaves, then they are gone, and nobody enters any more. */
  lemma CloseDuringUse(bytes: seq<byte>)
    ensures
      var use := Apply(Initial(bytes, false), BeginUse(0));
      var closing := Apply(use, CloseCall);
      var left := Apply(closing, EndUse(0));
      && use.running == {0} && closing.running == {0} && closing.input.closed
      && closing.input.memory == bytes && closing.input.held
      && left.running == {} && !left.input.held && left.input.memory == Zeros(|bytes|)
      && Apply(closing, BeginUse(1)) == closing && Apply(left, BeginUse(1)) == left
      && Run(Initial(bytes, false), [BeginUse(0), CloseCall, EndUse(0)]) == left
  {
    var n := Initial(bytes, false);
    RunMore(n, [], BeginUse(0));
    RunMore(n, [BeginUse(0)], CloseCall);
    RunMore(n, [BeginUse(0), CloseCall], EndUse(0));
    assert [] + [BeginUse(0)] == [BeginUse(0)] && [BeginUse(0)] + [CloseCall] == [BeginUse(0), CloseCall];
    assert [BeginUse(0), CloseCall] + [EndUse(0)] == [BeginUse(0), CloseCall, EndUse(0)];
  }
}
