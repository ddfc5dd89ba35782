/** The pixelflut wire messages this viewer exchanges, and the parse step of
    the message handler (index.js, `_onMessage`): drop the first line feed,
    split on single spaces, and dispatch on the first token compared without
    regard to case. */
module Protocol {
  import opened Wrappers
  import opened JsStrings
  import opened JsNumbers

  /** The one pixel encoding the viewer asks for and can draw. */
  const Rgba64: string := "rgba64"

  /** What the client sends on open. */
  const SizeRequest: string := "SIZE"

  /** What the client sends on a tick: `STATE ${PIXELFLUT_BINARY_ALG_RGBA_BASE64}`. */
  const StateRequest: string := "STATE " + Rgba64

  /** What the handler sees in one message. `Size` carries the coerced second
      and third tokens (a missing token is `undefined`, which coerces to NaN,
      here `Other`); `State` carries the encoding token, absent when the
      message has only one token, and the payload token, which is the string
      "undefined" when there is no third token, since that is what `atob`
      receives for `parts[2]` then. */
  datatype Command =
    | Size(width: Number, height: Number)
    | State(encoding: Option<string>, payload: string)
    | Unrecognized

  /** `e.data.replace("\n", "").split(" ")`. */
  function Tokens(data: string): (parts: seq<string>)
    ensures |parts| >= 1
    ensures forall i :: 0 <= i < |parts| ==> ' ' !in parts[i]
  {
    Split(RemoveFirst(data, '\n'), ' ')
  }

  /** `+parts[i]`, where a missing token is `undefined` and so NaN. */
  function NumberAt(parts: seq<string>, i: nat): Number {
    if i < |parts| then ToNumber(parts[i]) else Other
  }

  function Parse(data: string): (c: Command)
    ensures c.Size? <==> EqualsIgnoringCase(Tokens(data)[0], "size")
    ensures c.State? <==> EqualsIgnoringCase(Tokens(data)[0], "state")
    ensures c.Size? ==> c.width == NumberAt(Tokens(data), 1) && c.height == NumberAt(Tokens(data), 2)
    ensures c.State? ==> (c.encoding.Some? <==> |Tokens(data)| >= 2)
    ensures c.State? && c.encoding.Some? ==> c.encoding.value == Tokens(data)[1]
    ensures c.State? ==> c.payload == if |Tokens(data)| >= 3 then Tokens(data)[2] else "undefined"
  {
    var parts := Tokens(data);
    LowerEqualsIff(parts[0], "size");
    LowerEqualsIff(parts[0], "state");
    if AsciiLower(parts[0]) == "size" then
      Size(NumberAt(parts, 1), NumberAt(parts, 2))
    else if AsciiLower(parts[0]) == "state" then
      State(if |parts| >= 2 then Some(parts[1]) else None,
            if |parts| >= 3 then parts[2] else "undefined")
    else
      Unrecognized
  }

  // ---------------------------------------------------------------------------
  // What a server sends, and what the parse step makes of it
  // ---------------------------------------------------------------------------

  /** A server's `SIZE <w> <h>` reply. */
  function SizeReply(w: int, h: int): string {
    "SIZE" + " " + ShowInt(w) + " " + ShowInt(h)
  }

  /** A server's `STATE <encoding> <payload>` reply. */
  function StateReply(encoding: string, payload: string): string {
    "STATE" + " " + encoding + " " + payload
  }

  /** The line endings a server may put after a reply. */
  predicate IsLineEnding(ending: string) {
    ending == "" || ending == "\n" || ending == "\r\n"
  }

  /** What survives of a line ending once the first line feed is dropped. */
  function Leftover(ending: string): string {
    if ending == "\r\n" then "\r" else ""
  }

  predicate IsToken(s: string) {
    ' ' !in s && '\n' !in s
  }

  lemma ShowIntIsToken(n: int)
    ensures IsToken(ShowInt(n)) && ShowInt(n) != []
  {
  }

  /** A line of three space-separated tokens has no line feed. */
  lemma LineWithoutNewline(t0: string, t1: string, t2: string)
    requires IsToken(t0) && IsToken(t1) && IsToken(t2)
    ensures '\n' !in t0 + " " + t1 + " " + t2
  {
  }

  /** Dropping the first line feed of a line followed by its ending. */
  lemma StripEnding(line: string, ending: string)
    requires '\n' !in line && IsLineEnding(ending)
    ensures RemoveFirst(line + ending, '\n') == line + Leftover(ending)
  {
    var data := line + ending;
    if ending == "" {
      assert data == line;
      RemoveFirstAbsent(data, '\n');
    } else if ending == "\n" {
      assert data[..|line|] == line && data[|line|] == '\n';
      RemoveFirstAt(data, '\n', |line|);
      assert data[|line| + 1..] == [];
    } else {
      assert data[..|line| + 1] == line + "\r" && data[|line| + 1] == '\n';
      assert '\n' !in line + "\r";
      RemoveFirstAt(data, '\n', |line| + 1);
      assert data[|line| + 2..] == [];
    }
  }

  lemma JoinThree(t0: string, t1: string, t2: string)
    ensures Join([t0, t1, t2], ' ') == t0 + " " + t1 + " " + t2
  {
    var parts := [t0, t1, t2];
    assert parts[1..][1..] == [t2];
    assert Join(parts[1..], ' ') == t1 + [' '] + t2;
  }

  /** Tokenising a line of space-separated tokens followed by a line ending
      gives the tokens back; a CRLF ending leaves its "\r" on the last one. */
  lemma TokensOfLine(t0: string, t1: string, t2: string, ending: string)
    requires IsToken(t0) && IsToken(t1) && IsToken(t2) && IsLineEnding(ending)
    ensures Tokens(t0 + " " + t1 + " " + t2 + ending) == [t0, t1, t2 + Leftover(ending)]
  {
    var last := t2 + Leftover(ending);
    LineWithoutNewline(t0, t1, t2);
    StripEnding(t0 + " " + t1 + " " + t2, ending);
    JoinThree(t0, t1, last);
    assert t0 + " " + t1 + " " + t2 + Leftover(ending) == t0 + " " + t1 + " " + last;
    assert ' ' !in last;
    SplitJoin([t0, t1, last], ' ');
  }

  /** A `SIZE <w> <h>` reply, with any line ending, parses to exactly those
      dimensions (for every integer a double holds exactly). */
  lemma ParseSizeReply(w: int, h: int, ending: string)
    requires -MaxExact <= w <= MaxExact && -MaxExact <= h <= MaxExact
    requires IsLineEnding(ending)
    ensures Parse(SizeReply(w, h) + ending) == Size(Int(w), Int(h))
  {
    ShowIntIsToken(w);
    ShowIntIsToken(h);
    TokensOfLine("SIZE", ShowInt(w), ShowInt(h), ending);
    ToNumberShowInt(w, "");
    assert ShowInt(w) + "" == ShowInt(w);
    ToNumberShowInt(h, Leftover(ending));
    ParseSizeTokens(SizeReply(w, h) + ending, ShowInt(w), ShowInt(h) + Leftover(ending));
  }

  lemma ParseSizeTokens(data: string, t1: string, t2: string)
    requires Tokens(data) == ["SIZE", t1, t2]
    ensures Parse(data) == Size(ToNumber(t1), ToNumber(t2))
  {
    var parts := Tokens(data);
    assert EqualsIgnoringCase(parts[0], "size");
    assert NumberAt(parts, 1) == ToNumber(t1) && NumberAt(parts, 2) == ToNumber(t2);
  }

  /** A `STATE <encoding> <payload>` reply parses to that encoding and
      payload; a CRLF ending leaves its "\r" on the payload. */
  lemma ParseStateReply(encoding: string, payload: string, ending: string)
    requires IsToken(encoding) && IsToken(payload) && IsLineEnding(ending)
    ensures Parse(StateReply(encoding, payload) + ending)
         == State(Some(encoding), payload + Leftover(ending))
  {
    TokensOfLine("STATE", encoding, payload, ending);
    assert EqualsIgnoringCase("STATE", "state");
  }

  /** A lone `state` token, in any case, has no encoding token: the handler
      then calls `toLowerCase` on `undefined`. */
  lemma ParseBareState(word: string)
    requires IsToken(word) && EqualsIgnoringCase(word, "state")
    ensures Parse(word) == State(None, "undefined")
  {
    RemoveFirstAbsent(word, '\n');
    SplitWithout(word, ' ');
  }
}
