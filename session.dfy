/** The session state machine of `PixelflutClient` (index.js) as values: the
    client's fields, one function per handler giving the state it leaves
    behind, and the properties of whole event sequences, chief among them
    that at most one `STATE` request goes out per handled message. Any
    handled message lowers the flag, an unsolicited `SIZE` reply included,
    so this bound is per message and not per answered request. */
module Session {
  import opened Wrappers
  import opened JsStrings
  import opened JsNumbers
  import opened Protocol

  newtype byte = x: int | 0 <= x < 256

  /** `_socket`: null, or a held socket on which `close()` may have been called. */
  datatype SocketView = NoSocket | Held(closeRequested: bool)

  /** An `ImageData`: the RGBA bytes and the width and height it was built with. */
  datatype Image = Image(pixels: seq<byte>, width: Number, height: Number)

  /** What the client does to its canvas, in order. */
  datatype CanvasCall =
    | SetWidth(width: Number)
    | SetHeight(height: Number)
    | PutImageData(image: Image, dx: int, dy: int)

  /** Why a call or handler throws. */
  datatype Failure =
    | AlreadyConnected(url: string)  // the Error thrown by `connect`
    | NotConnected                   // `disconnect` dereferencing a null `_socket`
    | MissingEncoding                // `toLowerCase` called on a missing encoding token
    | UnhandledResponse              // the unknown-command branch reading an undeclared name
    | FrameRejected                  // `atob` or the `ImageData` constructor throwing

  datatype Outcome = Done | Threw(failure: Failure)

  /** The fields of a `PixelflutClient`: `_socket`, `width`, `height`,
      `_currentylReceiving`, whether `_intervalId` names a live interval,
      `_imageData`, everything sent on a socket, and the canvas calls. */
  datatype ClientState = ClientState(
    socket: SocketView,
    width: Number,
    height: Number,
    receiving: bool,
    timerActive: bool,
    imageData: Option<Image>,
    outbox: seq<string>,
    canvas: seq<CanvasCall>)

  datatype Transition = Transition(outcome: Outcome, next: ClientState)

  /** The browser's `atob`, `Uint8ClampedArray.from` and `ImageData`
      constructor applied to a payload at the client's current width and
      height: the frame's bytes, or None when one of them throws. */
  type Decoder = (string, Number, Number) -> Option<seq<byte>>

  /** The fields as the constructor leaves them, before any `connect`. */
  const Initial: ClientState := ClientState(NoSocket, Int(-1), Int(-1), false, false, None, [], [])

  predicate IsConnected(s: ClientState) {
    s.socket.Held?
  }

  // ---------------------------------------------------------------------------
  // The calls and handlers
  // ---------------------------------------------------------------------------

  /** `connect`: refused while a socket is held, whether or not it has opened. */
  function Connect(s: ClientState, url: string): (t: Transition)
    ensures t.outcome.Done? <==> !IsConnected(s)
    ensures t.outcome.Threw? ==> t.outcome.failure == AlreadyConnected(url) && t.next == s
    ensures t.outcome.Done? ==> t.next.socket == Held(false)
    ensures IsConnected(t.next)
    ensures t.next.(socket := s.socket) == s
  {
    if IsConnected(s) then Transition(Threw(AlreadyConnected(url)), s)
    else Transition(Done, s.(socket := Held(false)))
  }

  /** `disconnect`: asks the held socket to close; the client's own fields
      change only when the close event arrives. */
  function Disconnect(s: ClientState): (t: Transition)
    ensures t.outcome.Done? <==> IsConnected(s)
    ensures t.outcome.Threw? ==> t.outcome.failure == NotConnected && t.next == s
    ensures t.outcome.Done? ==> t.next.socket == Held(true)
    ensures t.next.(socket := s.socket) == s
  {
    if IsConnected(s) then Transition(Done, s.(socket := Held(true)))
    else Transition(Threw(NotConnected), s)
  }

  /** The open handler: one `SIZE` request, the flag raised, the timer armed. */
  function Open(s: ClientState): (r: ClientState)
    ensures r.outbox == s.outbox + [SizeRequest]
    ensures r.receiving && r.timerActive
    ensures r.(outbox := s.outbox, receiving := s.receiving, timerActive := s.timerActive) == s
  {
    s.(outbox := s.outbox + [SizeRequest], receiving := true, timerActive := true)
  }

  /** The interval callback: one `STATE rgba64` request unless the flag is up. */
  function Tick(s: ClientState): (r: ClientState)
    ensures !s.receiving ==> r.outbox == s.outbox + [StateRequest] && r.receiving
    ensures !s.receiving ==> r.(outbox := s.outbox, receiving := false) == s
    ensures s.receiving ==> r == s
  {
    if s.receiving then s
    else s.(outbox := s.outbox + [StateRequest], receiving := true)
  }

  /** `_handleBinaryAlgRgba64`: decode the payload at the current dimensions,
      keep the image and draw it at the canvas origin. */
  function RenderRgba64(s: ClientState, content: string, decode: Decoder): (t: Transition)
    ensures decode(content, s.width, s.height).None? ==> t == Transition(Threw(FrameRejected), s)
    ensures decode(content, s.width, s.height).Some? ==>
      var image := Image(decode(content, s.width, s.height).value, s.width, s.height);
      t == Transition(Done, s.(imageData := Some(image), canvas := s.canvas + [PutImageData(image, 0, 0)]))
  {
    match decode(content, s.width, s.height)
    case None => Transition(Threw(FrameRejected), s)
    case Some(pixels) =>
      var image := Image(pixels, s.width, s.height);
      Transition(Done, s.(imageData := Some(image), canvas := s.canvas + [PutImageData(image, 0, 0)]))
  }

  /** The message handler. A handler that throws leaves every field as it
      was, the flag included; one that completes always lowers the flag and
      never sends or touches the connection. */
  function Receive(s: ClientState, data: string, decode: Decoder): (t: Transition)
    ensures t.outcome.Threw? ==> t.next == s
    ensures t.outcome.Done? ==>
      !t.next.receiving && t.next.socket == s.socket &&
      t.next.timerActive == s.timerActive && t.next.outbox == s.outbox
    ensures Parse(data).Unrecognized? ==> t.outcome == Threw(UnhandledResponse)
    ensures Parse(data).Size? ==>
      t.outcome.Done? &&
      t.next.width == Parse(data).width && t.next.height == Parse(data).height &&
      t.next.canvas == s.canvas + [SetWidth(Parse(data).width), SetHeight(Parse(data).height)] &&
      t.next.imageData == s.imageData
    ensures Parse(data).State? && Parse(data).encoding.None? ==> t.outcome == Threw(MissingEncoding)
    ensures Parse(data).State? && Parse(data).encoding.Some? &&
            !EqualsIgnoringCase(Parse(data).encoding.value, Rgba64) ==>
      t == Transition(Done, s.(receiving := false))
    ensures Parse(data).State? && Parse(data).encoding.Some? &&
            EqualsIgnoringCase(Parse(data).encoding.value, Rgba64) ==>
      var frame := decode(Parse(data).payload, s.width, s.height);
      (frame.None? ==> t.outcome == Threw(FrameRejected)) &&
      (frame.Some? ==>
        var image := Image(frame.value, s.width, s.height);
        t == Transition(Done, s.(receiving := false, imageData := Some(image),
                                 canvas := s.canvas + [PutImageData(image, 0, 0)])))
  {
    match Parse(data)
    case Size(w, h) =>
      Transition(Done, s.(width := w, height := h,
                          canvas := s.canvas + [SetWidth(w), SetHeight(h)], receiving := false))
    case State(encoding, payload) =>
      if encoding.None? then Transition(Threw(MissingEncoding), s)
      else
        LowerEqualsIff(encoding.value, Rgba64);
        if AsciiLower(encoding.value) == Rgba64 then
          var t := RenderRgba64(s, payload, decode);
          if t.outcome.Threw? then t else Transition(Done, t.next.(receiving := false))
        else Transition(Done, s.(receiving := false))
    case Unrecognized => Transition(Threw(UnhandledResponse), s)
  }

  /** The close handler, whatever closed the socket. */
  function Close(s: ClientState): (r: ClientState)
    ensures r.socket == NoSocket && !r.timerActive && !r.receiving
    ensures r.width == Int(-1) && r.height == Int(-1)
    ensures r.imageData == s.imageData && r.outbox == s.outbox && r.canvas == s.canvas
  {
    s.(timerActive := false, socket := NoSocket, width := Int(-1), height := Int(-1), receiving := false)
  }

  /** Applying the close handler twice leaves what applying it once does. */
  lemma CloseIdempotent(s: ClientState)
    ensures Close(Close(s)) == Close(s)
  {
  }

  // ---------------------------------------------------------------------------
  // Event sequences
  // ---------------------------------------------------------------------------

  datatype Event =
    | ConnectCall
    | DisconnectCall
    | OpenEvent
    | TickEvent
    | MessageEvent(data: string)
    | CloseEvent

  /** What the environment can deliver: a socket fires open once, before its
      interval exists; an interval ticks only until it is cleared. */
  predicate Deliverable(s: ClientState, e: Event) {
    match e
    case OpenEvent => IsConnected(s) && !s.timerActive
    case TickEvent => s.timerActive
    case _ => true
  }

  function Apply(s: ClientState, e: Event, url: string, decode: Decoder): Transition {
    match e
    case ConnectCall => Connect(s, url)
    case DisconnectCall => Disconnect(s)
    case OpenEvent => Transition(Done, Open(s))
    case TickEvent => Transition(Done, Tick(s))
    case MessageEvent(data) => Receive(s, data, decode)
    case CloseEvent => Transition(Done, Close(s))
  }

  /** The state after the events, one at a time. */
  function Run(s: ClientState, events: seq<Event>, url: string, decode: Decoder): ClientState
    decreases |events|
  {
    if events == [] then s
    else Run(Apply(s, events[0], url, decode).next, events[1..], url, decode)
  }

  ghost predicate Feasible(s: ClientState, events: seq<Event>, url: string, decode: Decoder)
    decreases |events|
  {
    events == [] ||
    (Deliverable(s, events[0]) &&
     Feasible(Apply(s, events[0], url, decode).next, events[1..], url, decode))
  }

  /** Whether the event is a message the handler saw through to the flag reset. */
  predicate IsReply(s: ClientState, e: Event, url: string, decode: Decoder) {
    e.MessageEvent? && Apply(s, e, url, decode).outcome.Done?
  }

  /** How many of the events are handled messages. */
  function Replies(s: ClientState, events: seq<Event>, url: string, decode: Decoder): (n: nat)
    ensures n <= |events|
    decreases |events|
  {
    if events == [] then 0
    else
      (if IsReply(s, events[0], url, decode) then 1 else 0) +
      Replies(Apply(s, events[0], url, decode).next, events[1..], url, decode)
  }

  /** How many `STATE rgba64` requests the outbox holds. */
  function Requests(outbox: seq<string>): (n: nat)
    ensures n <= |outbox|
  {
    if outbox == [] then 0
    else Requests(outbox[..|outbox| - 1]) + (if outbox[|outbox| - 1] == StateRequest then 1 else 0)
  }

  lemma {:induction false} RequestsPrefix(a: seq<string>, b: seq<string>)
    requires a <= b
    ensures Requests(a) <= Requests(b)
    decreases |b|
  {
    if |a| < |b| {
      assert a <= b[..|b| - 1];
      RequestsPrefix(a, b[..|b| - 1]);
    } else {
      assert a == b;
    }
  }

  /** No handler takes anything back from the outbox. */
  lemma {:induction false} OutboxOnlyGrows(s: ClientState, events: seq<Event>, url: string, decode: Decoder)
    ensures s.outbox <= Run(s, events, url, decode).outbox
    decreases |events|
  {
    if events != [] {
      var next := Apply(s, events[0], url, decode).next;
      assert s.outbox <= next.outbox;
      OutboxOnlyGrows(next, events[1..], url, decode);
    }
  }

  lemma RequestsAppend(outbox: seq<string>, m: string)
    ensures Requests(outbox + [m]) == Requests(outbox) + (if m == StateRequest then 1 else 0)
  {
  }

  // ---------------------------------------------------------------------------
  // The object invariant: the flag and the timer only while a socket is held
  // ---------------------------------------------------------------------------

  ghost predicate Inv(s: ClientState) {
    (s.timerActive ==> IsConnected(s)) && (s.receiving ==> IsConnected(s))
  }

  lemma InitialInv()
    ensures Inv(Initial) && !IsConnected(Initial)
  {
  }

  lemma StepKeepsInv(s: ClientState, e: Event, url: string, decode: Decoder)
    requires Inv(s) && Deliverable(s, e)
    ensures Inv(Apply(s, e, url, decode).next)
  {
  }

  lemma {:induction false} RunKeepsInv(s: ClientState, events: seq<Event>, url: string, decode: Decoder)
    requires Inv(s) && Feasible(s, events, url, decode)
    ensures Inv(Run(s, events, url, decode))
    decreases |events|
  {
    if events != [] {
      StepKeepsInv(s, events[0], url, decode);
      RunKeepsInv(Apply(s, events[0], url, decode).next, events[1..], url, decode);
    }
  }

  // ---------------------------------------------------------------------------
  // Flow control
  // ---------------------------------------------------------------------------

  /** One request may go out on the next tick exactly when the timer runs
      and the flag is down. */
  function Credit(s: ClientState): nat {
    if s.timerActive && !s.receiving then 1 else 0
  }

  lemma StepFlow(s: ClientState, e: Event, url: string, decode: Decoder)
    requires Deliverable(s, e)
    ensures var next := Apply(s, e, url, decode).next;
      Requests(next.outbox) + Credit(next)
        <= Requests(s.outbox) + Credit(s) + (if IsReply(s, e, url, decode) then 1 else 0)
  {
  }

  /** Requests sent plus the one the state still allows never outgrow the
      replies handled. */
  lemma {:induction false} FlowControl(s: ClientState, events: seq<Event>, url: string, decode: Decoder)
    requires Feasible(s, events, url, decode)
    ensures var last := Run(s, events, url, decode);
      Requests(last.outbox) + Credit(last) <= Requests(s.outbox) + Credit(s) + Replies(s, events, url, decode)
    decreases |events|
  {
    if events != [] {
      StepFlow(s, events[0], url, decode);
      FlowControl(Apply(s, events[0], url, decode).next, events[1..], url, decode);
    }
  }

  /** From a fresh client, `STATE` requests never outnumber handled replies. */
  lemma RequestsNeverAheadOfReplies(events: seq<Event>, url: string, decode: Decoder)
    requires Feasible(Initial, events, url, decode)
    ensures Requests(Run(Initial, events, url, decode).outbox) <= Replies(Initial, events, url, decode)
  {
    FlowControl(Initial, events, url, decode);
  }

  /** Between two handled replies at most one `STATE` request goes out. */
  lemma AtMostOneRequestBetweenReplies(s: ClientState, events: seq<Event>, url: string, decode: Decoder)
    requires Feasible(s, events, url, decode) && Replies(s, events, url, decode) == 0
    ensures Requests(Run(s, events, url, decode).outbox) <= Requests(s.outbox) + 1
  {
    FlowControl(s, events, url, decode);
  }

  /** After the open handler no `STATE` request goes out until a reply is handled. */
  lemma NoRequestBeforeFirstReply(s: ClientState, events: seq<Event>, url: string, decode: Decoder)
    requires IsConnected(s) && !s.timerActive
    requires Feasible(Open(s), events, url, decode) && Replies(Open(s), events, url, decode) == 0
    ensures Requests(Run(Open(s), events, url, decode).outbox) == Requests(s.outbox)
  {
    RequestsAppend(s.outbox, SizeRequest);
    FlowControl(Open(s), events, url, decode);
    OutboxOnlyGrows(Open(s), events, url, decode);
    RequestsPrefix(Open(s).outbox, Run(Open(s), events, url, decode).outbox);
  }

  // ---------------------------------------------------------------------------
  // Connection lifetime
  // ---------------------------------------------------------------------------

  /** Only the close handler lets go of a socket: `disconnect` does not. */
  lemma {:induction false} HeldUntilClosed(s: ClientState, events: seq<Event>, url: string, decode: Decoder)
    requires IsConnected(s) && CloseEvent !in events
    ensures IsConnected(Run(s, events, url, decode))
    decreases |events|
  {
    if events != [] {
      assert events[0] != CloseEvent && CloseEvent !in events[1..];
      HeldUntilClosed(Apply(s, events[0], url, decode).next, events[1..], url, decode);
    }
  }

  /** A second `connect` fails, whatever happens in between short of a close
      event, and leaves the state as it finds it. */
  lemma ConnectTwiceFails(s: ClientState, events: seq<Event>, url: string, decode: Decoder)
    requires Connect(s, url).outcome.Done? && CloseEvent !in events
    ensures var mid := Run(Connect(s, url).next, events, url, decode);
      Connect(mid, url) == Transition(Threw(AlreadyConnected(url)), mid)
  {
    HeldUntilClosed(Connect(s, url).next, events, url, decode);
  }

  // ---------------------------------------------------------------------------
  // A session from connect to the first frame
  // ---------------------------------------------------------------------------

  /** What the handler does with a server's `SIZE <w> <h>` line. */
  lemma ReceiveSizeReply(s: ClientState, w: int, h: int, decode: Decoder)
    requires -MaxExact <= w <= MaxExact && -MaxExact <= h <= MaxExact
    ensures Receive(s, SizeReply(w, h), decode)
         == Transition(Done, s.(width := Int(w), height := Int(h), receiving := false,
                                canvas := s.canvas + [SetWidth(Int(w)), SetHeight(Int(h))]))
  {
    ParseSizeReply(w, h, "");
    assert SizeReply(w, h) + "" == SizeReply(w, h);
  }

  /** What the handler does with a server's `STATE rgba64 <payload>` line
      whose frame the browser accepts. */
  lemma ReceiveFrame(s: ClientState, payload: string, decode: Decoder)
    requires IsToken(payload) && decode(payload, s.width, s.height).Some?
    ensures
      var image := Image(decode(payload, s.width, s.height).value, s.width, s.height);
      Receive(s, StateReply(Rgba64, payload), decode)
        == Transition(Done, s.(receiving := false, imageData := Some(image),
                               canvas := s.canvas + [PutImageData(image, 0, 0)]))
  {
    ParseStateReply(Rgba64, payload, "");
    assert StateReply(Rgba64, payload) + "" == StateReply(Rgba64, payload);
    assert payload + "" == payload;
    assert EqualsIgnoringCase(Rgba64, Rgba64);
  }

  /** Connect, open, `SIZE <w> <h>`, two ticks with a `STATE` request in
      flight, then the frame: dimensions (w, h), one request, one draw at
      (0, 0), and the flag down again. */
  lemma FirstFrame(url: string, w: int, h: int, payload: string, decode: Decoder)
    requires -MaxExact <= w <= MaxExact && -MaxExact <= h <= MaxExact
    requires IsToken(payload)
    requires decode(payload, Int(w), Int(h)).Some?
    ensures
      var s1 := Open(Connect(Initial, url).next);
      var s2 := Receive(s1, SizeReply(w, h), decode).next;
      var s3 := Tick(Tick(s2));
      var t4 := Receive(s3, StateReply(Rgba64, payload), decode);
      var image := Image(decode(payload, Int(w), Int(h)).value, Int(w), Int(h));
      s2.width == Int(w) && s2.height == Int(h) &&
      s2.canvas == [SetWidth(Int(w)), SetHeight(Int(h))] &&
      s3.outbox == [SizeRequest, StateRequest] &&
      t4.outcome.Done? && !t4.next.receiving &&
      t4.next.canvas == s2.canvas + [PutImageData(image, 0, 0)]
  {
    var s1 := Open(Connect(Initial, url).next);
    ReceiveSizeReply(s1, w, h, decode);
    var s2 := Receive(s1, SizeReply(w, h), decode).next;
    ReceiveFrame(Tick(Tick(s2)), payload, decode);
  }

  /** Any handled message lowers the flag, not only the answer to a `STATE`
      request: an unsolicited `SIZE` reply while a request is in flight lets
      the next tick send a second `STATE` request before any frame arrives. */
  lemma UnsolicitedReplyReleasesFlag(url: string, w: int, h: int, decode: Decoder)
    requires -MaxExact <= w <= MaxExact && -MaxExact <= h <= MaxExact
    ensures
      var s1 := Receive(Open(Connect(Initial, url).next), SizeReply(w, h), decode).next;
      var s2 := Tick(s1);
      var s3 := Receive(s2, SizeReply(w, h), decode);
      s2.receiving && s3.outcome.Done? &&
      Tick(s3.next).outbox == [SizeRequest, StateRequest, StateRequest]
  {
    var s0 := Open(Connect(Initial, url).next);
    ReceiveSizeReply(s0, w, h, decode);
    var s1 := Receive(s0, SizeReply(w, h), decode).next;
    ReceiveSizeReply(Tick(s1), w, h, decode);
  }

  /** The handler has no connection check: a reply that reached it after the
      close handler would still set the dimensions. That none does is left
      to the transport, which delivers no message once closed. */
  lemma StrayReplyAfterClose(s: ClientState, decode: Decoder)
    ensures var t := Receive(Close(s), SizeReply(3, 2), decode);
      !IsConnected(t.next) && t.next.width == Int(3) && t.next.height == Int(2)
  {
    ParseSizeReply(3, 2, "");
    assert SizeReply(3, 2) + "" == SizeReply(3, 2);
  }
}
