/** `CustomWriter`: delays the status and the body of a response until `Send`. Range requests are not modelled. */
module Writer {
  /** `statuses` and `body` are what the underlying response writer was given; it keeps the first status. */
  class CustomWriter {
    var buf: string
    var statusCode: int
    var headersSent: bool
    var statuses: seq<int>
    var body: string

    constructor ()
      ensures buf == "" && statusCode == 200 && !headersSent && statuses == [] && body == ""
    {
      buf, statusCode, headersSent, statuses, body := "", 200, false, [], "";
    }

    method WriteHeader(code: int)
      modifies `statusCode
      ensures statusCode == if headersSent then old(statusCode) else code
    {
      if headersSent {
        return;
      }
      statusCode := code;
    }

    method Write(b: string)
      modifies `buf
      ensures buf == old(buf) + b
    {
      buf := buf + b;
    }

    method ResetBuffer()
      modifies `buf
      ensures buf == ""
    {
      buf := "";
    }

    /** `Rw.WriteHeader`, past the delay. */
    method WriteRawHeader(code: int)
      modifies `statuses
      ensures statuses == old(statuses) + [code]
    {
      statuses := statuses + [code];
    }

    /** Sends the status once, then the buffered body, and empties the buffer. */
    method Send()
      modifies this
      ensures statuses == old(statuses) + (if old(headersSent) then [] else [old(statusCode)])
      ensures body == old(body) + old(buf)
      ensures headersSent && buf == "" && statusCode == old(statusCode)
    {
      var result := buf;
      if !headersSent {
        statuses := statuses + [statusCode];
        headersSent := true;
      }
      body := body + result;
      buf := "";
    }
  }

  /** However often it is sent, a response gets one status and one copy of its body. */
  method SendAgain(w: CustomWriter)
    requires !w.headersSent
    modifies w
    ensures w.statuses == old(w.statuses) + [old(w.statusCode)]
    ensures w.body == old(w.body) + old(w.buf)
  {
    w.Send();
    w.WriteHeader(500);
    w.Send();
  }
}
