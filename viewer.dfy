/** `PixelflutClient` (index.js) as an object whose handlers update its fields
    in place. Every method is proved to leave exactly the state the matching
    function of `Session` describes, so the properties proved there hold of
    the object. */
module Viewer {
  import opened Wrappers
  import opened JsStrings
  import opened JsNumbers
  import opened Protocol
  import opened Session

  /** The WebSocket the client holds. Besides `send`, which the client records
      in its own outbox, the client only ever calls `close()` on it. */
  class Socket {
    var closeRequested: bool

    constructor()
      ensures !closeRequested
    {
      closeRequested := false;
    }

    method Close()
      modifies this
      ensures closeRequested
    {
      closeRequested := true;
    }
  }

  class PixelflutClient {
    const url: string
    var socket: Socket?
    var width: Number
    var height: Number
    var receiving: bool
    var timerActive: bool
    var imageData: Option<Image>
    var outbox: seq<string>
    var canvas: seq<CanvasCall>

    /** The fields as a value. */
    function State(): ClientState
      reads this, socket
    {
      ClientState(if socket == null then NoSocket else Held(socket.closeRequested),
                  width, height, receiving, timerActive, imageData, outbox, canvas)
    }

    ghost predicate Valid()
      reads this, socket
    {
      Inv(State())
    }

    /** The constructor's field values, then `connect` when asked to. */
    constructor(url: string, autoConnect: bool := true)
      ensures Valid() && this.url == url
      ensures State() == if autoConnect then Session.Connect(Initial, url).next else Initial
      ensures autoConnect ==> fresh(socket)
    {
      this.url := url;
      socket := null;
      width, height := Int(-1), Int(-1);
      receiving, timerActive := false, false;
      imageData := None;
      outbox, canvas := [], [];
      new;
      if autoConnect {
        var _ := Connect();
      }
    }

    /** A socket is held, whether or not it has opened yet. */
    function IsConnected(): (b: bool)
      reads this, socket
      ensures b == Session.IsConnected(State())
    {
      socket != null
    }

    method Connect() returns (r: Outcome)
      requires Valid()
      modifies this
      ensures Valid()
      ensures Transition(r, State()) == Session.Connect(old(State()), url)
      ensures r.Done? ==> fresh(socket)
      ensures r.Threw? ==> socket == old(socket)
    {
      if IsConnected() {
        return Threw(AlreadyConnected(url));
      }
      socket := new Socket();
      r := Done;
    }

    /** Asks the socket to close and changes none of the client's fields; a
      missing socket is dereferenced, which throws. */
    method Disconnect() returns (r: Outcome)
      requires Valid()
      modifies socket
      ensures Valid() && socket == old(socket)
      ensures Transition(r, State()) == Session.Disconnect(old(State()))
    {
      if socket == null {
        return Threw(NotConnected);
      }
      socket.Close();
      r := Done;
    }

    /** `this._socket.send(text)`. */
    method Send(text: string)
      requires socket != null
      modifies this`outbox
      ensures outbox == old(outbox) + [text]
    {
      outbox := outbox + [text];
    }

    /** The open event of the held socket, which fires once, before the
      interval exists. */
    method OnOpen()
      requires Valid() && socket != null && !timerActive
      modifies this
      ensures Valid() && socket == old(socket)
      ensures State() == Open(old(State()))
    {
      Send(SizeRequest);
      receiving := true;
      timerActive := true;
    }

    /** The body of the interval callback; it runs only while the interval is live. */
    method OnTick()
      requires Valid() && timerActive
      modifies this
      ensures Valid() && socket == old(socket)
      ensures State() == Tick(old(State()))
    {
      if !receiving {
        Send(StateRequest);
        receiving := true;
      }
    }

    method OnMessage(data: string, decode: Decoder) returns (r: Outcome)
      requires Valid()
      modifies this
      ensures Valid() && socket == old(socket)
      ensures Transition(r, State()) == Receive(old(State()), data, decode)
    {
      match Parse(data) {
        case Size(w, h) =>
          width := w;
          height := h;
          canvas := canvas + [SetWidth(width)];
          canvas := canvas + [SetHeight(height)];
        case State(encoding, payload) =>
          if encoding.None? {
            return Threw(MissingEncoding);
          }
          if AsciiLower(encoding.value) == Rgba64 {
            r := HandleBinaryAlgRgba64(payload, decode);
            if r.Threw? {
              return;
            }
          }
        case Unrecognized =>
          return Threw(UnhandledResponse);
      }
      receiving := false;
      r := Done;
    }

    method HandleBinaryAlgRgba64(content: string, decode: Decoder) returns (r: Outcome)
      modifies this`imageData, this`canvas
      ensures Transition(r, State()) == RenderRgba64(old(State()), content, decode)
    {
      var pixels := decode(content, width, height);
      if pixels.None? {
        return Threw(FrameRejected);
      }
      var image := Image(pixels.value, width, height);
      imageData := Some(image);
      canvas := canvas + [PutImageData(image, 0, 0)];
      r := Done;
    }

    method OnClose()
      requires Valid()
      modifies this
      ensures Valid() && socket == null
      ensures State() == Close(old(State()))
    {
      timerActive := false;
      socket := null;
      width := Int(-1);
      height := Int(-1);
      receiving := false;
    }
  }
}
