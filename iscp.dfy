/** ISCP, the text protocol that eISCP wraps: a message is "!1", three
    command characters and their parameters. Messages sent to the receiver end
    in CR; messages coming back end in the EOF byte 0x1A, optionally followed by
    CR, LF or CR LF (eiscp/core.py:23-56). */
module Iscp {
  import opened Wrappers
  import opened Text

  /** Start character '!' and destination unit type '1' (the receiver). */
  const START: string := "!1"
  const EOF: char := '\U{1A}'

  predicate IsTerminator(c: char)
  {
    c == '\n' || c == '\r'
  }

  /** At most two CR/LF characters: what may follow EOF on a reply. */
  predicate IsTrailer(t: string)
  {
    |t| <= 2 && forall i :: 0 <= i < |t| ==> IsTerminator(t[i])
  }

  /** An ISCP message as the controller sends it. */
  datatype IscpMessage = IscpMessage(data: string)
  {
    /** `str(message)`: start characters, the body and a CR, and no EOF. */
    function ToString(): (s: string)
      ensures |s| == |data| + 3 && s[..2] == START && s[2..|s| - 1] == data
      ensures s[|s| - 1] == '\r' && (EOF in s <==> EOF in data)
    {
      START + data + "\r"
    }
  }

  /** `ISCPMessage.parse`: checks the start characters, walks back over at
      most two CR/LF characters, demands EOF there and returns what lies
      between. Either failed check is an `AssertionError`. */
  function Parse(s: string): (r: Result<string>)
    ensures r.Err? ==> r.error == AssertionError
    ensures Take(s, 2) != START ==> r.Err?
    ensures r.Ok? ==>
      var k := |r.value| + 2;
      k < |s| && s == START + r.value + [EOF] + s[k + 1..] && IsTrailer(s[k + 1..])
  {
    if Take(s, 2) != START then Err(AssertionError)
    else
      // |s| >= 2 here, and s[0], s[1] are not terminators
      var eofOffset := if IsTerminator(s[|s| - 1]) then -2 else -1;
      var eofOffset := if eofOffset == -2 && IsTerminator(s[|s| - 2]) then -3 else eofOffset;
      var k := |s| + eofOffset;
      if s[k] != EOF then Err(AssertionError)
      else
        assert s == s[..2] + s[2..k] + [s[k]] + s[k + 1..];
        Ok(s[2..k])
  }

  /** A reply framed with EOF and any permitted trailer parses back to its
      body: together with the ensures of `Parse` this says that `Parse`
      succeeds exactly on such framings. */
  lemma ParseFramed(body: string, trailer: string)
    requires IsTrailer(trailer)
    ensures Parse(START + body + [EOF] + trailer) == Ok(body)
  {
    var s := START + body + [EOF] + trailer;
    assert Take(s, 2) == START;
    var k := |body| + 2;
    assert s[k] == EOF && s[k + 1..] == trailer;
    assert s[2..k] == body;
  }

  /** What the controller sends is not what `Parse` accepts: unless the body
      itself holds an EOF, parsing a sent message fails. */
  lemma ParseRejectsSent(data: string)
    requires EOF !in data
    ensures Parse(IscpMessage(data).ToString()).Err?
  {
  }
}
