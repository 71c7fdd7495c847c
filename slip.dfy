/**
 * SLIP framing (RFC 1055) as slipnet.c implements it: the sender brackets a
 * packet with END bytes and escapes END and ESC inside it; each interface's
 * receiver is a byte-at-a-time state machine over a bounded buffer.
 */
module Slip {
  import opened Bytes

  const End: byte := 0xC0
  const Esc: byte := 0xDB
  const EscEnd: byte := 0xDC
  const EscEsc: byte := 0xDD

  /** Largest packet write_slip_data accepts. */
  const MaxSlipSend: nat := 1006
  /** Size of each interface's receive buffer. */
  const MaxSlipSize: nat := 1024
  /** Number of interfaces (ttys) the link layer supports. */
  const MaxTtys: nat := 100

  // ---------------------------------------------------------------------------
  // Encoder
  // ---------------------------------------------------------------------------

  /** The bytes sent for one data byte. */
  function EscapeByte(c: byte): seq<byte>
  {
    if c == End then [Esc, EscEnd]
    else if c == Esc then [Esc, EscEsc]
    else [c]
  }

  /** The escaped body of a frame, built in the order the bytes are sent. */
  function Escape(p: seq<byte>): seq<byte>
    decreases |p|
  {
    if p == [] then [] else Escape(p[..|p| - 1]) + EscapeByte(p[|p| - 1])
  }

  /** Everything a successful write_slip_data emits for `p`. */
  function Frame(p: seq<byte>): (r: seq<byte>)
    ensures |r| >= |p| + 2 && r[0] == End && r[|r| - 1] == End
  {
    EscapeLength(p);
    [End] + Escape(p) + [End]
  }

  /** Number of occurrences of END and ESC in `p`, the bytes that need escaping. */
  function Specials(p: seq<byte>): nat
  {
    multiset(p)[End] + multiset(p)[Esc]
  }

  lemma {:induction false} EscapeLength(p: seq<byte>)
    ensures |Escape(p)| == |p| + Specials(p)
    decreases |p|
  {
    if p != [] {
      var q := p[..|p| - 1];
      assert p == q + [p[|p| - 1]];
      EscapeLength(q);
    }
  }

  lemma {:induction false} EscapeHasNoEnd(p: seq<byte>)
    ensures forall k :: 0 <= k < |Escape(p)| ==> Escape(p)[k] != End
    decreases |p|
  {
    if p != [] {
      EscapeHasNoEnd(p[..|p| - 1]);
    }
  }

  /** Escaping a prefix of the packet yields a prefix of the escaped packet. */
  lemma {:induction false} EscapePrefix(p: seq<byte>, i: nat)
    requires i <= |p|
    ensures Escape(p[..i]) <= Escape(p)
    decreases |p| - i
  {
    if i < |p| {
      var q := p[..|p| - 1];
      assert q[..i] == p[..i];
      EscapePrefix(q, i);
    } else {
      assert p[..i] == p;
    }
  }

  /**
   * The shape of a frame: END first and last, no END anywhere in between, and
   * one extra byte for every END or ESC of the packet.
   */
  lemma FrameShape(p: seq<byte>)
    ensures |Frame(p)| == |p| + 2 + Specials(p)
    ensures Frame(p)[0] == End && Frame(p)[|Frame(p)| - 1] == End
    ensures forall k :: 0 < k < |Frame(p)| - 1 ==> Frame(p)[k] != End
  {
    EscapeLength(p);
    EscapeHasNoEnd(p);
    var f := Frame(p);
    forall k | 0 < k < |f| - 1 ensures f[k] != End {
      assert f[k] == Escape(p)[k - 1];
    }
  }

  /** WRITE_BYTE: one write_tty_data call, which fails when it is write number `failAt`. */
  method WriteByte(written: seq<byte>, c: byte, failAt: Option<nat>) returns (ok: bool, out: seq<byte>)
    ensures ok <==> failAt != Some(|written|)
    ensures out == if ok then written + [c] else written
  {
    ok := failAt != Some(|written|);
    out := if ok then written + [c] else written;
  }

  /** The one or two writes for data byte `c`; on failure `out` stops short of the escaped byte. */
  method WriteEscaped(written: seq<byte>, c: byte, failAt: Option<nat>) returns (ok: bool, out: seq<byte>)
    requires failAt.None? || failAt.value >= |written|
    ensures ok ==> out == written + EscapeByte(c) && (failAt.None? || failAt.value >= |out|)
    ensures !ok ==> failAt == Some(|out|) && out < written + EscapeByte(c)
  {
    if c == End || c == Esc {
      ok, out := WriteByte(written, Esc, failAt);
      if ok {
        ok, out := WriteByte(out, if c == End then EscEnd else EscEsc, failAt);
      }
    } else {
      ok, out := WriteByte(written, c, failAt);
    }
  }

  /** A proper prefix of a prefix of `f` is the start of `f`. */
  lemma StopsShort(out: seq<byte>, g: seq<byte>, f: seq<byte>)
    requires out < g && g <= f
    ensures |out| < |f| && out == f[..|out|]
  {
    assert out == g[..|out|];
  }

  /** Putting the same byte in front keeps a prefix a prefix. */
  lemma PrefixAfter(x: byte, a: seq<byte>, b: seq<byte>)
    requires a <= b
    ensures [x] + a <= [x] + b
  {
    assert [x] + a == ([x] + b)[..|a| + 1];
  }

  /** Escaping one more byte of `d` appends that byte's escape. */
  lemma EscapeSnoc(d: seq<byte>, i: nat)
    requires i < |d|
    ensures Escape(d[..i + 1]) == Escape(d[..i]) + EscapeByte(d[i])
  {
    assert d[..i + 1][..i] == d[..i];
  }

  /** The frame body written so far is always a prefix of the whole frame body. */
  lemma BodyPrefix(d: seq<byte>, i: nat)
    requires i <= |d|
    ensures [End] + Escape(d[..i]) <= [End] + Escape(d)
  {
    EscapePrefix(d, i);
    PrefixAfter(End, Escape(d[..i]), Escape(d));
  }

  /** One pass of the loop of write_slip_data: the writes for data byte d[i]. */
  method WriteNext(d: seq<byte>, i: nat, written: seq<byte>, failAt: Option<nat>) returns (ok: bool, out: seq<byte>)
    requires i < |d| && written == [End] + Escape(d[..i])
    requires failAt.None? || failAt.value >= |written|
    ensures ok ==> out == [End] + Escape(d[..i + 1]) && (failAt.None? || failAt.value >= |out|)
    ensures !ok ==> failAt == Some(|out|) && out < [End] + Escape(d)
  {
    ghost var next := [End] + Escape(d[..i + 1]);
    assert next == written + EscapeByte(d[i]) by {
      EscapeSnoc(d, i);
    }
    ok, out := WriteEscaped(written, d[i], failAt);
    if !ok {
      assert out < [End] + Escape(d) by {
        BodyPrefix(d, i + 1);
        StopsShort(out, next, [End] + Escape(d));
      }
    }
  }

  /**
   * The loop of write_slip_data: after the opening END (`written` == [END]),
   * the escaped bytes of `d`. On failure `out` stops short of the full body.
   */
  method WriteBody(d: seq<byte>, failAt: Option<nat>) returns (ok: bool, out: seq<byte>)
    requires failAt.None? || failAt.value >= 1
    ensures ok ==> out == [End] + Escape(d) && (failAt.None? || failAt.value >= |out|)
    ensures !ok ==> failAt == Some(|out|) && out < [End] + Escape(d)
  {
    out := [End];
    ok := true;
    var i := 0;
    while i < |d|
      invariant 0 <= i <= |d|
      invariant out == [End] + Escape(d[..i])
      invariant failAt.None? || failAt.value >= |out|
    {
      ok, out := WriteNext(d, i, out, failAt);
      if !ok {
        return;
      }
      i := i + 1;
    }
    assert d[..i] == d;
  }

  /**
   * write_slip_data. `written` is what reached the line; `failAt`, when
   * present, is the index of the first byte write that the line refuses, after
   * which the function gives up with -1.
   */
  method WriteSlipData(data: seq<byte>, numbytes: int, failAt: Option<nat>) returns (result: int, written: seq<byte>)
    requires numbytes <= |data|
    ensures numbytes <= 0 || numbytes > MaxSlipSend ==> result == -1 && written == []
    ensures 0 < numbytes <= MaxSlipSend ==>
              var f := Frame(data[..numbytes]);
              if failAt.Some? && failAt.value < |f| then result == -1 && written == f[..failAt.value]
              else result == numbytes && written == f
  {
    if numbytes <= 0 || numbytes > MaxSlipSend {
      return -1, [];
    }
    var d := data[..numbytes];
    ghost var body := [End] + Escape(d);
    ghost var f := Frame(d);
    assert f == body + [End];
    var ok;
    ok, written := WriteByte([], End, failAt);
    if !ok {
      return -1, written;
    }
    ok, written := WriteBody(d, failAt);
    if !ok {
      assert failAt.value < |f| && written == f[..failAt.value] by {
        StopsShort(written, body, f);
      }
      return -1, written;
    }
    ok, written := WriteByte(written, End, failAt);
    if !ok {
      assert failAt.value < |f| && written == f[..failAt.value];
      return -1, written;
    }
    assert written == f;
    return numbytes, written;
  }

  // ---------------------------------------------------------------------------
  // Receiver
  // ---------------------------------------------------------------------------

  /**
   * One interface's receive state: the bytes collected so far
   * (receive_buffer[0..receive_position)), and the escaped and error_frame flags.
   */
  datatype RxState = RxState(frame: seq<byte>, escaped: bool, error: bool)

  /** The state install_slip_data_handler sets up. */
  const Initial := RxState([], false, false)

  /** put_char_in_buffer: stores `c` only while fewer than MaxSlipSize - 1 bytes are held. */
  function Put(s: RxState, c: byte): (r: RxState)
    ensures |s.frame| < MaxSlipSize - 1 ==> r == s.(frame := s.frame + [c])
    ensures |s.frame| >= MaxSlipSize - 1 ==> r == s.(error := true)
  {
    if |s.frame| < MaxSlipSize - 1 then s.(frame := s.frame + [c]) else s.(error := true)
  }

  /**
   * Storing a byte extends the collected bytes by at most that byte and keeps
   * them inside the buffer; a byte that is not stored marks the frame bad.
   */
  lemma PutKeepsBound(s: RxState, c: byte)
    ensures s.frame <= Put(s, c).frame && |Put(s, c).frame| <= |s.frame| + 1
    ensures Put(s, c).frame != s.frame ==> Put(s, c).frame == s.frame + [c]
    ensures Put(s, c).escaped == s.escaped
    ensures |s.frame| < MaxSlipSize ==> |Put(s, c).frame| < MaxSlipSize
    ensures Put(s, c).frame == s.frame ==> Put(s, c).error
  {
  }

  /** data_handler_for_tty: the next state and the packet handed up, if any. */
  function Step(s: RxState, c: byte): (RxState, Option<seq<byte>>)
  {
    if s.error then
      (if c == End then (Initial, None) else (s, None))
    else if s.escaped then
      var s' := s.(escaped := false);
      (Put(s', if c == EscEnd then End else if c == EscEsc then Esc else c), None)
    else if c == End then
      (if |s.frame| > 0 then (s.(frame := []), Some(s.frame)) else (s, None))
    else if c == Esc then
      (s.(escaped := true), None)
    else
      (Put(s, c), None)
  }

  function Delivered(d: Option<seq<byte>>): seq<seq<byte>>
  {
    if d.Some? then [d.value] else []
  }

  /** Feeds `bytes` one at a time: the final state and every packet handed up, in order. */
  function Run(s: RxState, bytes: seq<byte>): (RxState, seq<seq<byte>>)
    decreases |bytes|
  {
    if bytes == [] then (s, [])
    else
      var (s1, d) := Step(s, bytes[0]);
      var (s2, ds) := Run(s1, bytes[1..]);
      (s2, Delivered(d) + ds)
  }

  /** A packet is handed up only on an unescaped END: the non-empty bytes collected, after which the state is fresh. */
  lemma StepDelivery(s: RxState, c: byte)
    ensures Step(s, c).1.Some? <==> c == End && !s.error && !s.escaped && |s.frame| > 0
    ensures Step(s, c).1.Some? ==> Step(s, c) == (Initial, Some(s.frame))
  {
  }

  /** Receiving any byte stream hands up at most one packet per byte, and never an empty one. */
  lemma {:induction false} RunDelivery(s: RxState, bytes: seq<byte>)
    ensures |Run(s, bytes).1| <= |bytes|
    ensures forall k :: 0 <= k < |Run(s, bytes).1| ==> |Run(s, bytes).1[k]| > 0
    decreases |bytes|
  {
    if bytes != [] {
      var (s1, d) := Step(s, bytes[0]);
      RunDelivery(s1, bytes[1..]);
      StepDelivery(s, bytes[0]);
    }
  }

  /** The receive position never reaches MaxSlipSize. */
  lemma StepKeepsBound(s: RxState, c: byte)
    requires |s.frame| < MaxSlipSize
    ensures |Step(s, c).0.frame| < MaxSlipSize
  {
  }

  /** A byte that does not fit is dropped and marks the frame as bad. */
  lemma StepOverflow(s: RxState, c: byte)
    requires !s.error && !s.escaped && c != End && c != Esc
    requires |s.frame| >= MaxSlipSize - 1
    ensures Step(s, c) == (s.(error := true), None)
  {
  }

  /** In a bad frame everything up to END is ignored; END resets without delivering. */
  lemma StepErrorFrame(s: RxState, c: byte)
    requires s.error
    ensures c != End ==> Step(s, c) == (s, None)
    ensures c == End ==> Step(s, c) == (Initial, None)
  {
  }

  /** After ESC: ESC_END stands for END, ESC_ESC for ESC, anything else for itself. */
  lemma StepAfterEscape(s: RxState, c: byte)
    requires !s.error && s.escaped && |s.frame| < MaxSlipSize - 1
    ensures Step(s, c).1 == None && !Step(s, c).0.escaped && !Step(s, c).0.error
    ensures Step(s, c).0.frame == s.frame + [if c == EscEnd then End else if c == EscEsc then Esc else c]
  {
  }

  /** An unescaped END hands up a non-empty frame once and starts afresh; an empty frame is ignored. */
  lemma StepEnd(s: RxState)
    requires !s.error && !s.escaped
    ensures |s.frame| > 0 ==> Step(s, End) == (Initial, Some(s.frame))
    ensures |s.frame| == 0 ==> Step(s, End) == (Initial, None)
  {
  }

  lemma {:induction false} RunAppend(s: RxState, a: seq<byte>, b: seq<byte>)
    ensures Run(s, a + b) == (Run(Run(s, a).0, b).0, Run(s, a).1 + Run(Run(s, a).0, b).1)
    decreases |a|
  {
    if a == [] {
      assert a + b == b;
      assert Run(s, a).1 + Run(s, b).1 == Run(s, b).1;
    } else {
      assert (a + b)[0] == a[0] && (a + b)[1..] == a[1..] + b;
      var (s1, d) := Step(s, a[0]);
      RunAppend(s1, a[1..], b);
      var mid := Run(s1, a[1..]);
      var fin := Run(mid.0, b);
      calc {
        Run(s, a + b);
        (Run(s1, a[1..] + b).0, Delivered(d) + Run(s1, a[1..] + b).1);
        (fin.0, Delivered(d) + (mid.1 + fin.1));
        { assert Delivered(d) + (mid.1 + fin.1) == (Delivered(d) + mid.1) + fin.1; }
        (fin.0, Run(s, a).1 + fin.1);
      }
    }
  }

  /** Receiving an escaped body appends exactly the original bytes and delivers nothing. */
  lemma {:induction false} RunEscape(s: RxState, p: seq<byte>)
    requires !s.escaped && !s.error && |s.frame| + |p| < MaxSlipSize
    ensures Run(s, Escape(p)) == (s.(frame := s.frame + p), [])
    decreases |p|
  {
    if p == [] {
      assert s.frame + p == s.frame;
    } else {
      var q, c := p[..|p| - 1], p[|p| - 1];
      RunEscape(s, q);
      RunAppend(s, Escape(q), EscapeByte(c));
      var t := s.(frame := s.frame + q);
      assert Escape(p) == Escape(q) + EscapeByte(c);
      assert Run(s, Escape(q)) == (t, []);
      RunEscapeByte(t, c);
      assert s.frame + p == t.frame + [c];
      assert Run(s, Escape(p)) == (t.(frame := t.frame + [c]), [] + []);
    }
  }

  lemma RunSingle(s: RxState, c: byte)
    ensures Run(s, [c]) == (Step(s, c).0, Delivered(Step(s, c).1))
  {
    assert [c][1..] == [];
    assert Delivered(Step(s, c).1) + [] == Delivered(Step(s, c).1);
  }

  lemma RunEscapeByte(t: RxState, c: byte)
    requires !t.escaped && !t.error && |t.frame| < MaxSlipSize - 1
    ensures Run(t, EscapeByte(c)) == (t.(frame := t.frame + [c]), [])
  {
    var e := EscapeByte(c);
    if c == End || c == Esc {
      var t1 := t.(escaped := true);
      assert Step(t, e[0]) == (t1, None);
      assert e[1..] == [e[1]];
      assert Step(t1, e[1]) == (t.(frame := t.frame + [c]), None);
      RunSingle(t1, e[1]);
      assert Run(t, e) == (Run(t1, e[1..]).0, [] + Run(t1, e[1..]).1);
    } else {
      RunSingle(t, c);
    }
  }

  /**
   * From the initial state, the frame write_slip_data emits for `p` makes the
   * receiver hand up exactly `p`, once, and return to the initial state.
   */
  lemma FrameRoundTrip(p: seq<byte>)
    requires 0 < |p| < MaxSlipSize
    ensures Run(Initial, Frame(p)) == (Initial, [p])
  {
    var body := RxState(p, false, false);
    RunSingle(Initial, End);
    RunEscape(Initial, p);
    assert Initial.(frame := Initial.frame + p) == body;
    RunAppend(Initial, [End], Escape(p));
    assert Run(Initial, [End] + Escape(p)) == (body, []);
    RunSingle(body, End);
    assert Run(body, [End]) == (Initial, [p]);
    RunAppend(Initial, [End] + Escape(p), [End]);
    assert Frame(p) == [End] + Escape(p) + [End];
    assert Run(Initial, Frame(p)) == (Initial, [] + [p]);
    assert [] + [p] == [p];
  }

  /** Every packet write_slip_data accepts survives the round trip. */
  lemma WrittenFrameRoundTrip(data: seq<byte>, numbytes: int)
    requires 0 < numbytes <= MaxSlipSend && numbytes <= |data|
    ensures Run(Initial, Frame(data[..numbytes])) == (Initial, [data[..numbytes]])
  {
    FrameRoundTrip(data[..numbytes]);
  }

  /** The receive state of one interface, held in a fixed buffer of MaxSlipSize bytes. */
  class Receiver {
    const buffer: array<byte>
    var position: nat
    var escaped: bool
    var errorFrame: bool

    ghost predicate Valid()
      reads this
    {
      buffer.Length == MaxSlipSize && position < MaxSlipSize
    }

    ghost function State(): RxState
      reads this, buffer
      requires Valid()
    {
      RxState(buffer[..position], escaped, errorFrame)
    }

    /** The state install_slip_data_handler leaves behind. */
    constructor ()
      ensures Valid() && fresh(buffer) && State() == Initial
    {
      buffer := new byte[MaxSlipSize];
      position, escaped, errorFrame := 0, false, false;
    }

    method PutCharInBuffer(c: byte)
      requires Valid()
      modifies this, buffer
      ensures Valid() && State() == Put(old(State()), c)
    {
      if position < MaxSlipSize - 1 {
        buffer[position] := c;
        position := position + 1;
      } else {
        errorFrame := true;
      }
    }

    /** data_handler_for_tty: consumes one byte; `delivered` is what the packet handler receives. */
    method DataHandlerForTty(c: byte) returns (delivered: Option<seq<byte>>)
      requires Valid()
      modifies this, buffer
      ensures Valid() && (State(), delivered) == Step(old(State()), c)
    {
      delivered := None;
      if errorFrame {
        if c == End {
          errorFrame, position, escaped := false, 0, false;
        }
      } else if escaped {
        escaped := false;
        PutCharInBuffer(if c == EscEnd then End else if c == EscEsc then Esc else c);
      } else if c == End {
        if position > 0 {
          delivered := Some(buffer[..position]);
          position := 0;
        }
      } else if c == Esc {
        escaped := true;
      } else {
        PutCharInBuffer(c);
      }
    }
  }
}
