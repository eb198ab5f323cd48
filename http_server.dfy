/** The local OAuth callback listener (src/oauth/http_server.cpp): the
    running flag and stored callback that `start` and `stop` manage, and
    what the accept loop does with one received request. Sockets, the
    server thread and the atomic flag's concurrency are not modelled: a
    request is the bytes one `recv` delivered, as characters. */
module OAuthCallback {
  import opened Wrappers
  import opened Text

  /** The size of the receive buffer; longer requests are cut there. */
  const BufferSize := 4096

  /** The request line prefix that carries the authorization code. */
  const Marker := "GET /callback?code="

  /** What the server does with a request: the code passed to the callback
      (if one fired), and whether the success page was sent. */
  datatype Outcome = Outcome(fired: Option<string>, responded: bool)

  /** The code in a request: the text from just after the first marker up
      to the next space, or to the end of the request when there is none.
      `None` when the request holds no marker. */
  function ExtractCode(req: string): (code: Option<string>)
    ensures code.None? <==> Find(req, Marker, 0).None?
    ensures code.Some? ==> ' ' !in code.value
    ensures code.Some? ==>
      var start := Find(req, Marker, 0).value + |Marker|;
      start + |code.value| <= |req| && req[start..start + |code.value|] == code.value &&
      (start + |code.value| == |req| || req[start + |code.value|] == ' ')
  {
    match Find(req, Marker, 0)
    case None => None
    case Some(pos) =>
      assert OccursAt(req, Marker, pos);
      Some(CodeFrom(req, pos + |Marker|))
  }

  /** The text from `start` up to the next space, or to the end. */
  function CodeFrom(req: string, start: nat): (code: string)
    requires start <= |req|
    ensures ' ' !in code
    ensures start + |code| <= |req| && req[start..start + |code|] == code
    ensures start + |code| == |req| || req[start + |code|] == ' '
  {
    match Find(req, " ", start)
    case None =>
      NoSpaceBefore(req, start, |req|);
      req[start..]
    case Some(codeEnd) =>
      assert OccursAt(req, " ", codeEnd);
      assert req[codeEnd..codeEnd + 1][0] == req[codeEnd];
      NoSpaceBefore(req, start, codeEnd);
      req[start..codeEnd]
  }

  /** A stretch of the request where `find(" ")` saw no space holds none. */
  lemma NoSpaceBefore(req: string, from: nat, end: nat)
    requires from <= end <= |req|
    requires forall i :: from <= i < end ==> !OccursAt(req, " ", i)
    ensures ' ' !in req[from..end]
  {
    forall i | from <= i < end ensures req[i] != ' ' {
      assert !OccursAt(req, " ", i);
      assert req[i..i + 1] == [req[i]];
    }
  }

  /** A request that reads `GET /callback?code=` followed by a code without
      spaces and then a space or the end yields exactly that code. */
  lemma {:induction false} ExtractWrittenCode(code: string, rest: string)
    requires ' ' !in code
    requires rest == [] || rest[0] == ' '
    ensures ExtractCode(Marker + code + rest) == Some(code)
  {
    var req := Marker + code + rest;
    assert req[0..|Marker|] == Marker;
    assert Find(req, Marker, 0) == Some(0);
    assert req[|Marker|..|Marker| + |code|] == code;
    assert |Marker| + |code| < |req| ==> req[|Marker| + |code|] == rest[0];
    CodeFromDelimited(req, |Marker|, code);
  }

  /** A stretch without spaces that ends at a space or at the end of the
      request is exactly what `CodeFrom` returns. */
  lemma CodeFromDelimited(req: string, start: nat, code: string)
    requires start + |code| <= |req| && req[start..start + |code|] == code
    requires ' ' !in code
    requires start + |code| == |req| || req[start + |code|] == ' '
    ensures CodeFrom(req, start) == code
  {
    var found := CodeFrom(req, start);
    assert forall j :: start <= j < start + |code| ==> req[j] == code[j - start];
    assert forall j :: start <= j < start + |found| ==> req[j] == found[j - start];
    assert |found| == |code|;
  }

  class HttpServer {
    var running: bool
    var callback: Option<nat>

    /** The server is created stopped, with no callback. */
    constructor ()
      ensures !running && callback.None?
    {
      running := false;
      callback := None;
    }

    /** `start(port, cb)`: ignored while running; otherwise sets the flag
        and stores the callback (an opaque handle here) before the
        listening thread starts. */
    method Start(cb: Option<nat>)
      modifies this
      ensures old(running) ==> running && callback == old(callback)
      ensures !old(running) ==> running && callback == cb
    {
      if running {
        return;
      }
      running := true;
      callback := cb;
    }

    /** `stop()`: clears the flag, which ends the accept loop. */
    method Stop()
      modifies this
      ensures !running && callback == old(callback)
    {
      running := false;
    }

    /** One pass of the accept loop on the data a client sent: at most
        `BufferSize` characters are looked at; when they hold the marker
        the callback (if set) gets the code and the success page is sent,
        and otherwise nothing happens. */
    method Serve(received: string) returns (out: Outcome)
      ensures var req := if |received| > BufferSize then received[..BufferSize] else received;
              out.responded <==> ExtractCode(req).Some?
      ensures var req := if |received| > BufferSize then received[..BufferSize] else received;
              out.fired == if callback.Some? then ExtractCode(req) else None
    {
      var len := if |received| > BufferSize then BufferSize else |received|;
      out := Outcome(None, false);
      if len > 0 {
        var req := received[..len];
        assert req == if |received| > BufferSize then received[..BufferSize] else received;
        var pos := Find(req, Marker, 0);
        if pos.Some? {
          var codeStart := pos.value + |Marker|;
          var codeEnd := Find(req, " ", codeStart);
          var code := if codeEnd.None? then req[codeStart..] else req[codeStart..codeEnd.value];
          if callback.Some? {
            out := out.(fired := Some(code));
          }
          out := out.(responded := true);
        }
      } else {
        assert received == [];
        assert Find(received, Marker, 0).None?;
      }
    }
  }
}
