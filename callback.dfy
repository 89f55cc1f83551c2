/**
 * The streaming text assembler `callback_impl`. The native engine calls it once per
 * generated token with a run state and, in the normal state, a fragment of raw bytes.
 * The callback records the run state. From the byte fragments it rebuilds the text
 * stream, keeping a code point that is cut across two fragments in a pending buffer
 * until the rest arrives.
 */
module Callback {
  import opened Wrappers
  import opened Utf8

  /** The run states the engine reports; `Unknown` carries any other value. */
  datatype CallState = Normal | Waiting | Finish | Error | Unknown(code: int)

  /** One invocation of the callback: the state and the fragment, which may be absent. */
  datatype Call = Call(state: CallState, fragment: Option<seq<Byte>>)

  /** The three module globals: `split_byte_data`, `global_text`, `global_status`. */
  datatype Globals = Globals(pending: seq<Byte>, text: seq<seq<Scalar>>, status: CallState)

  /** The bytes of a fragment; an absent fragment and an empty one are both falsy. */
  function Bytes(fragment: Option<seq<Byte>>): seq<Byte> {
    match fragment
    case None => []
    case Some(b) => b
  }

  /** The bytes the engine delivered in normal calls, joined in order. */
  function Received(calls: seq<Call>): seq<Byte> {
    if calls == [] then []
    else (if calls[0].state == Normal then Bytes(calls[0].fragment) else []) + Received(calls[1..])
  }

  /** All text segments joined in order. */
  function Join(text: seq<seq<Scalar>>): seq<Scalar> {
    if text == [] then [] else Join(text[..|text| - 1]) + text[|text| - 1]
  }

  /** One call of the callback, as a function of the globals before it. */
  function Next(g: Globals, call: Call): (r: Globals)
    ensures r.status == call.state
    ensures call.state != Normal ==> r.pending == g.pending && r.text == g.text
    ensures |g.text| <= |r.text| <= |g.text| + 1 && r.text[..|g.text|] == g.text
  {
    match call.state
    case Normal =>
      var bytes := Bytes(call.fragment);
      if bytes != [] then
        match Decode(g.pending + bytes)
        case Some(decoded) => Globals([], g.text + [decoded], Normal)
        case None => Globals(g.pending + bytes, g.text, Normal)
      else if g.pending != [] then
        match Decode(g.pending)
        case Some(decoded) => Globals([], g.text + [decoded], Normal)
        case None => g.(status := Normal)
      else
        g.(status := Normal)
    case _ => g.(status := call.state)
  }

  /** A sequence of calls, in order. */
  function Run(g: Globals, calls: seq<Call>): Globals
    decreases |calls|
  {
    if calls == [] then g else Run(Next(g, calls[0]), calls[1..])
  }

  /**
   * The buffer invariant: the pending bytes are either empty or not decodable,
   * and no text segment is empty.
   */
  predicate Settled(g: Globals) {
    (g.pending == [] || !ValidUtf8(g.pending)) &&
    forall i | 0 <= i < |g.text| :: g.text[i] != []
  }

  /** The UTF-8 text already emitted, followed by the pending bytes. */
  function Bytestream(g: Globals): seq<Byte> {
    Encode(Join(g.text)) + g.pending
  }

  /**
   * Sequence identities, stated as lemmas so that the proofs using them see only
   * the identity and not the facts about Decode and Join around it.
   */
  lemma Associative<T>(a: seq<T>, b: seq<T>, c: seq<T>)
    ensures (a + b) + c == a + (b + c)
  {
  }

  lemma Rejoin<T>(b: seq<T>, k: nat)
    requires k <= |b|
    ensures b[..k] + b[k..] == b
  {
  }

  lemma JoinAppend(text: seq<seq<Scalar>>, t: seq<Scalar>)
    ensures Join(text + [t]) == Join(text) + t
  {
    assert (text + [t])[..|text|] == text;
  }

  /** What each branch of a normal call does to the buffer and the text. */
  lemma NormalCases(g: Globals, fragment: Option<seq<Byte>>)
    ensures var r, bytes := Next(g, Call(Normal, fragment)), Bytes(fragment);
      && (bytes != [] && ValidUtf8(g.pending + bytes) ==>
            r.pending == [] && r.text == g.text + [Decode(g.pending + bytes).value])
      && (bytes != [] && !ValidUtf8(g.pending + bytes) ==>
            r.pending == g.pending + bytes && r.text == g.text)
      && (bytes == [] && g.pending == [] ==> r == g.(status := Normal))
      && (bytes == [] && g.pending != [] && ValidUtf8(g.pending) ==>
            r.pending == [] && r.text == g.text + [Decode(g.pending).value])
      && (bytes == [] && !ValidUtf8(g.pending) ==> r == g.(status := Normal))
  {
  }

  /** Appending the decoding of valid bytes adds exactly those bytes to the stream. */
  lemma AppendDecoded(g: Globals, joined: seq<Byte>)
    requires ValidUtf8(joined)
    ensures Bytestream(Globals([], g.text + [Decode(joined).value], Normal)) ==
      Encode(Join(g.text)) + joined
  {
    var decoded := Decode(joined).value;
    JoinAppend(g.text, decoded);
    EncodeAppend(Join(g.text), decoded);
    EncodeDecode(joined);
  }

  /** A normal call with a non-empty fragment adds that fragment to the stream. */
  lemma FragmentConserves(g: Globals, bytes: seq<Byte>)
    requires bytes != []
    ensures Bytestream(Next(g, Call(Normal, Some(bytes)))) == Bytestream(g) + bytes
  {
    if ValidUtf8(g.pending + bytes) {
      AppendDecoded(g, g.pending + bytes);
    }
  }

  /** A normal call with no fragment leaves the stream as it was. */
  lemma FlushConserves(g: Globals, fragment: Option<seq<Byte>>)
    requires Bytes(fragment) == []
    ensures Bytestream(Next(g, Call(Normal, fragment))) == Bytestream(g)
  {
    if g.pending != [] && ValidUtf8(g.pending) {
      AppendDecoded(g, g.pending);
    }
  }

  /** No byte is lost or duplicated by one call. */
  lemma StepConserves(g: Globals, call: Call)
    ensures Bytestream(Next(g, call)) ==
      Bytestream(g) + (if call.state == Normal then Bytes(call.fragment) else [])
  {
    var bytes := Bytes(call.fragment);
    if call.state != Normal {
      assert Bytestream(g) + [] == Bytestream(g);
    } else if bytes == [] {
      FlushConserves(g, call.fragment);
      assert Bytestream(g) + bytes == Bytestream(g);
    } else {
      assert call == Call(Normal, Some(bytes));
      FragmentConserves(g, bytes);
    }
  }

  /** The buffer invariant holds after every call that starts from it. */
  lemma StepKeepsSettled(g: Globals, call: Call)
    requires Settled(g)
    ensures Settled(Next(g, call))
  {
  }

  /** No byte is lost or duplicated by a sequence of calls. */
  lemma {:induction false} RunConserves(g: Globals, calls: seq<Call>)
    ensures Bytestream(Run(g, calls)) == Bytestream(g) + Received(calls)
    decreases |calls|
  {
    if calls != [] {
      StepConserves(g, calls[0]);
      RunConserves(Next(g, calls[0]), calls[1..]);
    }
  }

  /**
   * From empty globals, the UTF-8 encoding of all text, followed by the pending
   * bytes, is exactly the bytes of all normal fragments received.
   */
  lemma RunFromEmpty(status: CallState, calls: seq<Call>)
    ensures var r := Run(Globals([], [], status), calls);
      Encode(Join(r.text)) + r.pending == Received(calls)
  {
    RunConserves(Globals([], [], status), calls);
  }

  /** Over any sequence of calls that starts from it, the buffer invariant is kept. */
  lemma {:induction false} RunKeepsSettled(g: Globals, calls: seq<Call>)
    requires Settled(g)
    ensures Settled(Run(g, calls))
    decreases |calls|
  {
    if calls != [] {
      StepKeepsSettled(g, calls[0]);
      RunKeepsSettled(Next(g, calls[0]), calls[1..]);
    }
  }

  /**
   * Over any sequence of calls the text only grows, by at most one segment per
   * call, and the status is the state of the last call.
   */
  lemma {:induction false} RunAppendOnly(g: Globals, calls: seq<Call>)
    ensures var r := Run(g, calls);
      && |g.text| <= |r.text| <= |g.text| + |calls| && r.text[..|g.text|] == g.text
      && (calls != [] ==> r.status == calls[|calls| - 1].state)
    decreases |calls|
  {
    if calls != [] {
      var g' := Next(g, calls[0]);
      RunAppendOnly(g', calls[1..]);
      var r := Run(g, calls);
      assert r.text[..|g'.text|] == g'.text;
      assert r.text[..|g.text|] == g'.text[..|g.text|];
      if |calls| > 1 {
        assert calls[1..][|calls[1..]| - 1] == calls[|calls| - 1];
      }
    }
  }

  /** One call on a buffer that cannot be completed only adds the fragment to it. */
  lemma StuckStep(g: Globals, call: Call)
    requires !Completable(g.pending)
    ensures var r, bytes := Next(g, call), (if call.state == Normal then Bytes(call.fragment) else []);
      r.text == g.text && r.pending == g.pending + bytes && !Completable(r.pending)
  {
    var bytes := if call.state == Normal then Bytes(call.fragment) else [];
    Stuck(g.pending, bytes);
    Stuck(g.pending, []);
    assert g.pending + [] == g.pending;
  }

  /**
   * A decode failure is never told apart from a cut code point: once the pending
   * bytes cannot be completed to valid UTF-8, every later normal fragment is only
   * added to them and no text is appended again.
   */
  lemma {:induction false} StuckForever(g: Globals, calls: seq<Call>)
    requires !Completable(g.pending)
    ensures var r := Run(g, calls);
      r.text == g.text && r.pending == g.pending + Received(calls) && !Completable(r.pending)
    decreases |calls|
  {
    if calls == [] {
      assert g.pending + [] == g.pending;
    } else {
      var bytes := if calls[0].state == Normal then Bytes(calls[0].fragment) else [];
      var g' := Next(g, calls[0]);
      assert g'.text == g.text && g'.pending == g.pending + bytes && !Completable(g'.pending) by {
        StuckStep(g, calls[0]);
      }
      assert Run(g, calls) == Run(g', calls[1..]);
      StuckForever(g', calls[1..]);
      assert Received(calls) == bytes + Received(calls[1..]);
      assert g.pending + bytes + Received(calls[1..]) == g.pending + (bytes + Received(calls[1..]));
    }
  }

  /** A valid fragment delivered on an empty buffer is appended whole. */
  lemma DeliverValid(g: Globals, b: seq<Byte>)
    requires g.pending == [] && ValidUtf8(b)
    ensures var r := Next(g, Call(Normal, Some(b)));
      r.pending == [] && Join(r.text) == Join(g.text) + Decode(b).value
  {
    assert [] + b == b;
    if b != [] {
      JoinAppend(g.text, Decode(b).value);
    } else {
      assert Join(g.text) + [] == Join(g.text);
    }
  }

  /** Two calls in a row. */
  lemma RunTwo(g: Globals, first: Call, second: Call)
    ensures Run(g, [first, second]) == Next(Next(g, first), second)
  {
    var g1 := Next(g, first);
    assert [first, second][1..] == [second] && [second][1..] == [];
    assert Run(g, [first, second]) == Run(g1, [second]);
    assert Run(g1, [second]) == Run(Next(g1, second), []);
  }

  /** The cut falls between two code points: each half is appended as it arrives. */
  lemma SplitBetween(g: Globals, head: seq<Byte>, tail: seq<Byte>)
    requires g.pending == [] && ValidUtf8(head + tail) && ValidUtf8(head)
    ensures var g1 := Next(g, Call(Normal, Some(head)));
      g1.pending == [] && Join(g1.text) == Join(g.text) + Decode(head).value
    ensures var r := Next(Next(g, Call(Normal, Some(head))), Call(Normal, Some(tail)));
      r.pending == [] && Join(r.text) == Join(g.text) + Decode(head + tail).value
  {
    var g1 := Next(g, Call(Normal, Some(head)));
    assert g1.pending == [] && Join(g1.text) == Join(g.text) + Decode(head).value by {
      DeliverValid(g, head);
    }
    assert ValidUtf8(tail) by {
      ValidSuffix(head, tail);
    }
    var r := Next(g1, Call(Normal, Some(tail)));
    assert r.pending == [] && Join(r.text) == Join(g1.text) + Decode(tail).value by {
      DeliverValid(g1, tail);
    }
    assert Decode(head + tail).value == Decode(head).value + Decode(tail).value by {
      DecodeAppend(head, tail);
    }
    Associative(Join(g.text), Decode(head).value, Decode(tail).value);
  }

  /** The cut falls inside a code point: the first half waits and the whole is appended once. */
  lemma SplitInside(g: Globals, head: seq<Byte>, tail: seq<Byte>)
    requires g.pending == [] && ValidUtf8(head + tail) && !ValidUtf8(head)
    ensures var g1 := Next(g, Call(Normal, Some(head)));
      g1.pending == head && g1.text == g.text
    ensures var r := Next(Next(g, Call(Normal, Some(head))), Call(Normal, Some(tail)));
      r.pending == [] && r.text == g.text + [Decode(head + tail).value]
      && Join(r.text) == Join(g.text) + Decode(head + tail).value
  {
    assert tail == [] ==> head + tail == head;
    assert [] + head == head;
    var g1 := Next(g, Call(Normal, Some(head)));
    assert g1.pending == head && g1.text == g.text;
    JoinAppend(g.text, Decode(head + tail).value);
  }

  /**
   * A valid UTF-8 string cut at any byte offset, even inside a code point, and
   * delivered as two normal fragments comes out whole.
   */
  lemma SplitRoundTrip(g: Globals, b: seq<Byte>, k: nat)
    requires g.pending == [] && ValidUtf8(b) && k <= |b|
    ensures var r := Run(g, [Call(Normal, Some(b[..k])), Call(Normal, Some(b[k..]))]);
      r.pending == [] && Join(r.text) == Join(g.text) + Decode(b).value
  {
    var head, tail := b[..k], b[k..];
    RunTwo(g, Call(Normal, Some(head)), Call(Normal, Some(tail)));
    Rejoin(b, k);
    if ValidUtf8(head) {
      SplitBetween(g, head, tail);
    } else {
      SplitInside(g, head, tail);
    }
  }

  /** The character é, delivered as its two bytes in two calls, is appended once, whole. */
  lemma SplitCodePointExample(status: CallState)
    ensures var r := Run(Globals([], [], status), [Call(Normal, Some([0xC3])), Call(Normal, Some([0xA9]))]);
      r.pending == [] && r.text == [[0xE9]]
  {
    var first, second := Call(Normal, Some([0xC3])), Call(Normal, Some([0xA9]));
    var g0 := Globals([], [], status);
    assert [first, second][1..] == [second] && [second][1..] == [];
    assert !ValidUtf8([0xC3]);
    var g1 := Next(g0, first);
    assert g1.pending == [0xC3] && g1.text == [];
    var both: seq<Byte> := [0xC3, 0xA9];
    assert [0xC3] + [0xA9] == both;
    assert LeadLength(both) == 2 && both[..2] == both && both[2..] == [];
    assert DecodeUnit(both[..2]) == 0xE9;
    var e: seq<Scalar> := [0xE9];
    assert Decode(both[2..]) == Some([]);
    assert Decode(both) == Some([DecodeUnit(both[..2])] + []);
    assert [DecodeUnit(both[..2])] + [] == e;
    assert Decode(both) == Some(e);
    assert Run(g0, [first, second]) == Run(g1, [second]) == Run(Next(g1, second), []);
  }

  /**
   * A byte that no UTF-8 text can contain blocks all later text: after FF and then
   * "a", nothing has been appended and both bytes are pending.
   */
  lemma CorruptByteExample(status: CallState)
    ensures var r := Run(Globals([], [], status), [Call(Normal, Some([0xFF])), Call(Normal, Some([0x61]))]);
      r.pending == [0xFF, 0x61] && r.text == []
  {
    var g1 := Next(Globals([], [], status), Call(Normal, Some([0xFF])));
    assert [] + [0xFF] == [0xFF];
    assert !ValidUtf8([0xFF]);
    assert g1.pending == [0xFF] && !Completable(g1.pending);
    var rest := [Call(Normal, Some([0x61]))];
    StuckForever(g1, rest);
    assert Received(rest) == [0x61];
    assert [Call(Normal, Some([0xFF])), Call(Normal, Some([0x61]))][1..] == rest;
  }

  /**
   * The assembler's state: the module globals of the source as fields. `received`
   * is the ghost record of every byte delivered in normal calls.
   */
  class Assembler {
    var pending: seq<Byte>
    var text: seq<seq<Scalar>>
    var status: CallState
    ghost var received: seq<Byte>

    function Snapshot(): Globals
      reads this
    {
      Globals(pending, text, status)
    }

    /** No byte received is lost or duplicated. */
    ghost predicate Valid()
      reads this
    {
      Bytestream(Snapshot()) == received
    }

    constructor (initial: CallState)
      ensures Valid() && Settled(Snapshot())
      ensures pending == [] && text == [] && status == initial && received == []
    {
      pending, text, status := [], [], initial;
      received := [];
    }

    /** `callback_impl(result, userdata, state)`, with the result's text as `fragment`. */
    method Handle(state: CallState, fragment: Option<seq<Byte>>)
      requires Valid()
      modifies this
      ensures Snapshot() == Next(old(Snapshot()), Call(state, fragment))
      ensures status == state
      ensures received == old(received) + (if state == Normal then Bytes(fragment) else [])
      ensures Valid()
      ensures old(Settled(Snapshot())) ==> Settled(Snapshot())
    {
      ghost var before := Snapshot();
      match state {
        case Finish =>
          status := state;
        case Error =>
          status := state;
        case Normal =>
          status := state;
          var bytes := Bytes(fragment);
          if bytes != [] {
            match Decode(pending + bytes) {
              case Some(decoded) =>
                text := text + [decoded];
                pending := [];
              case None =>
                pending := pending + bytes;
            }
          } else if pending != [] {
            match Decode(pending) {
              case Some(decoded) =>
                text := text + [decoded];
                pending := [];
              case None =>
            }
          }
          received := received + bytes;
        case Waiting =>
          status := state;
        case Unknown(_) =>
          status := state;
      }
      StepConserves(before, Call(state, fragment));
      if Settled(before) {
        StepKeepsSettled(before, Call(state, fragment));
      }
    }
  }
}
