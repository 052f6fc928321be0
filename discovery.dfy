/** What discovery does with the datagrams it receives (eiscp/core.py:299-312
    and 359-406): each reply is decoded into an identity record, and the
    receivers are collected in a dictionary keyed by their identifier, so that
    a device seen through several network interfaces is listed once. Sockets,
    interfaces and timeouts are not part of this model; the replies arrive as
    a sequence of (sender host, datagram) pairs in the order `recvfrom`
    returned them. */
module Discovery {
  import opened Wrappers
  import opened Text
  import Iscp
  import Packet

  /** The named groups of the reply pattern, as `groupdict()` gives them. */
  datatype Info = Info(deviceCategory: string, modelName: string, iscpPort: string,
                       areaCode: string, identifier: string)

  /** The most characters `.{0,n}` may take. */
  const IDENTIFIER_MAX: nat := 12

  // ---------------------------------------------------------------- the reply pattern

  /** `(?P<device_category>\d)` */
  predicate IsCategory(s: string)
  {
    |s| == 1 && IsDigit(s[0])
  }

  /** `(?P<model_name>[^/]*)` */
  predicate IsModelName(s: string)
  {
    forall i :: 0 <= i < |s| ==> s[i] != '/'
  }

  /** `(?P<iscp_port>\d{5})` */
  predicate IsPort(s: string)
  {
    |s| == 5 && AllDigits(s)
  }

  /** `(?P<area_code>\w{2})` */
  predicate IsAreaCode(s: string)
  {
    |s| == 2 && IsWordChar(s[0]) && IsWordChar(s[1])
  }

  /** `(?P<identifier>.{0,12})`: `.` takes anything but a newline. */
  predicate IsIdentifier(s: string)
  {
    |s| <= IDENTIFIER_MAX && forall i :: 0 <= i < |s| ==> s[i] != '\n'
  }

  /** The greedy `.{0,12}` stops after `id` when it has twelve characters or
      the text after it is empty or starts with a newline. */
  predicate EndsIdentifier(id: string, rest: string)
  {
    |id| == IDENTIFIER_MAX || rest == [] || rest[0] == '\n'
  }

  /** What a matched identity record looks like. */
  predicate ValidInfo(info: Info)
  {
    && IsCategory(info.deviceCategory)
    && IsModelName(info.modelName)
    && IsPort(info.iscpPort)
    && IsAreaCode(info.areaCode)
    && IsIdentifier(info.identifier)
  }

  /** The text of a record: "!", category, "ECN", model, "/", port, "/",
      area code, "/", identifier. */
  function FormatInfo(info: Info): string
  {
    "!" + info.deviceCategory + "ECN" + info.modelName + "/" + info.iscpPort + "/"
      + info.areaCode + "/" + info.identifier
  }

  /** How many characters `.{0,limit}` takes from the front of `s`. */
  function RunLength(s: string, limit: nat): (n: nat)
    ensures n <= limit && n <= |s|
    ensures forall i :: 0 <= i < n ==> s[i] != '\n'
    ensures n == limit || n == |s| || s[n] == '\n'
  {
    if limit == 0 || |s| == 0 || s[0] == '\n' then 0 else 1 + RunLength(s[1..], limit - 1)
  }

  /** A field of the pattern, the "/" after it, and the rest of the text. */
  function Seg(field: string, rest: string): string
  {
    field + "/" + rest
  }

  lemma SegAt(u: string, i: nat)
    requires i < |u| && u[i] == '/'
    ensures u == Seg(u[..i], u[i + 1..])
  {
    assert u == u[..i] + "/" + u[i + 1..];
  }

  /** The identifier group and the text the pattern leaves unread. */
  function MatchIdentifier(u: string): (r: (string, string))
    ensures IsIdentifier(r.0) && EndsIdentifier(r.0, r.1) && u == r.0 + r.1
  {
    var n := RunLength(u, IDENTIFIER_MAX);
    assert u == u[..n] + u[n..];
    (u[..n], u[n..])
  }

  /** The area code group, "/", and the identifier. */
  function MatchArea(u: string): (r: Option<(string, string, string)>)
    ensures r.Some? ==>
      && IsAreaCode(r.value.0) && IsIdentifier(r.value.1) && EndsIdentifier(r.value.1, r.value.2)
      && u == Seg(r.value.0, r.value.1 + r.value.2)
  {
    if |u| < 3 || !IsWordChar(u[0]) || !IsWordChar(u[1]) || u[2] != '/' then None
    else
      var m := MatchIdentifier(u[3..]);
      assert u == u[..2] + "/" + u[3..];
      Some((u[..2], m.0, m.1))
  }

  /** The port group, "/", and the rest of the pattern. */
  function MatchPort(u: string): (r: Option<(string, string, string, string)>)
    ensures r.Some? ==>
      && IsPort(r.value.0) && IsAreaCode(r.value.1) && IsIdentifier(r.value.2)
      && EndsIdentifier(r.value.2, r.value.3)
      && u == Seg(r.value.0, Seg(r.value.1, r.value.2 + r.value.3))
  {
    if |u| < 6 || !AllDigits(u[..5]) || u[5] != '/' then None
    else
      match MatchArea(u[6..])
      case None => None
      case Some(m) =>
        assert u == u[..5] + "/" + u[6..];
        Some((u[..5], m.0, m.1, m.2))
  }

  /** The model group up to the first "/", and the rest of the pattern. */
  function MatchModel(u: string): (r: Option<(string, string, string, string, string)>)
    ensures r.Some? ==>
      && IsModelName(r.value.0) && IsPort(r.value.1) && IsAreaCode(r.value.2)
      && IsIdentifier(r.value.3) && EndsIdentifier(r.value.3, r.value.4)
      && u == Seg(r.value.0, Seg(r.value.1, Seg(r.value.2, r.value.3 + r.value.4)))
  {
    var slash := IndexOfAny(u, {'/'});
    if slash < 0 then None
    else
      match MatchPort(u[slash + 1..])
      case None => None
      case Some(m) =>
        SegAt(u, slash);
        Some((u[..slash], m.0, m.1, m.2, m.3))
  }

  /** A record's text followed by more text, field by field. */
  lemma FormatInfoSegments(info: Info, rest: string)
    ensures FormatInfo(info) + rest
         == "!" + info.deviceCategory + "ECN"
            + Seg(info.modelName, Seg(info.iscpPort, Seg(info.areaCode, info.identifier + rest)))
  {
    var area := Seg(info.areaCode, info.identifier + rest);
    assert area == info.areaCode + "/" + info.identifier + rest;
    var port := Seg(info.iscpPort, area);
    assert port == info.iscpPort + "/" + info.areaCode + "/" + info.identifier + rest;
    var model := Seg(info.modelName, port);
    assert model == info.modelName + "/" + info.iscpPort + "/" + info.areaCode + "/" + info.identifier + rest;
  }

  /** `re.match` of the discovery reply pattern at the start of `t`: when it
      matches, `t` starts with the text of a valid record, and the identifier
      ends where the greedy repetition stops. The pattern need not reach the
      end of `t`. */
  function MatchInfo(t: string): (r: Option<Info>)
    ensures r.Some? ==>
      && ValidInfo(r.value)
      && |FormatInfo(r.value)| <= |t| && t[..|FormatInfo(r.value)|] == FormatInfo(r.value)
      && EndsIdentifier(r.value.identifier, t[|FormatInfo(r.value)|..])
  {
    if |t| < 5 || t[0] != '!' || !IsDigit(t[1]) || t[2..5] != "ECN" then None
    else
      match MatchModel(t[5..])
      case None => None
      case Some(m) =>
        var info := Info(t[1..2], m.0, m.1, m.2, m.3);
        SplitReply(t, info, m.4);
        Some(info)
  }

  /** A text that reads field by field as a record followed by `tail`
      starts with that record's text. */
  lemma SplitReply(t: string, info: Info, tail: string)
    requires |t| >= 5 && t[0] == '!' && t[1..2] == info.deviceCategory && t[2..5] == "ECN"
    requires t[5..] == Seg(info.modelName, Seg(info.iscpPort, Seg(info.areaCode, info.identifier + tail)))
    ensures |FormatInfo(info)| <= |t| && t[..|FormatInfo(info)|] == FormatInfo(info)
    ensures t[|FormatInfo(info)|..] == tail
  {
    assert t == t[..5] + t[5..];
    assert t[..5] == "!" + t[1..2] + "ECN";
    FormatInfoSegments(info, tail);
    assert t == FormatInfo(info) + tail;
  }

  lemma MatchIdentifierOf(id: string, rest: string)
    requires IsIdentifier(id) && EndsIdentifier(id, rest)
    ensures MatchIdentifier(id + rest) == (id, rest)
  {
    var s := id + rest;
    assert s[..|id|] == id && s[|id|..] == rest;
  }

  lemma MatchAreaOf(area: string, id: string, rest: string)
    requires IsAreaCode(area) && IsIdentifier(id) && EndsIdentifier(id, rest)
    ensures MatchArea(Seg(area, id + rest)) == Some((area, id, rest))
  {
    var u := Seg(area, id + rest);
    assert u[..2] == area && u[2] == '/' && u[3..] == id + rest;
    MatchIdentifierOf(id, rest);
  }

  lemma MatchPortOf(port: string, area: string, id: string, rest: string)
    requires IsPort(port) && IsAreaCode(area) && IsIdentifier(id) && EndsIdentifier(id, rest)
    ensures MatchPort(Seg(port, Seg(area, id + rest))) == Some((port, area, id, rest))
  {
    var u := Seg(port, Seg(area, id + rest));
    assert u[..5] == port && u[5] == '/' && u[6..] == Seg(area, id + rest);
    MatchAreaOf(area, id, rest);
  }

  lemma MatchModelOf(model: string, port: string, area: string, id: string, rest: string)
    requires IsModelName(model) && IsPort(port) && IsAreaCode(area)
    requires IsIdentifier(id) && EndsIdentifier(id, rest)
    ensures MatchModel(Seg(model, Seg(port, Seg(area, id + rest))))
         == Some((model, port, area, id, rest))
  {
    var after := Seg(port, Seg(area, id + rest));
    var u := Seg(model, after);
    assert u == model + ['/'] + after;
    IndexOfAnyAt(model, '/', after, {'/'});
    assert u[..|model|] == model && u[|model| + 1..] == after;
    MatchPortOf(port, area, id, rest);
  }

  /** The converse of `MatchInfo`'s contract: the text of a valid record,
      followed by anything that ends the identifier, matches as that record. */
  lemma MatchFormatted(info: Info, rest: string)
    requires ValidInfo(info) && EndsIdentifier(info.identifier, rest)
    ensures MatchInfo(FormatInfo(info) + rest) == Some(info)
  {
    var t := FormatInfo(info) + rest;
    var u := Seg(info.modelName, Seg(info.iscpPort, Seg(info.areaCode, info.identifier + rest)));
    FormatInfoSegments(info, rest);
    assert t[5..] == u && t[1..2] == info.deviceCategory && t[2..5] == "ECN";
    MatchModelOf(info.modelName, info.iscpPort, info.areaCode, info.identifier, rest);
  }

  /** The example reply in the comment of `parse_info` has no identifier
      segment, so the pattern does not match it. */
  lemma CommentExampleDoesNotMatch()
    ensures MatchInfo("!1ECNTX-NR609/60128/DX") == None
  {
    var t := "!1ECNTX-NR609/60128/DX";
    assert t[2..5] == "ECN" && t[5..] == "TX-NR609/60128/DX";
    ExampleModelDoesNotMatch();
  }

  lemma ExampleModelDoesNotMatch()
    ensures MatchModel("TX-NR609/60128/DX") == None
  {
    var u := "TX-NR609/60128/DX";
    assert u == "TX-NR609" + ['/'] + "60128/DX";
    IndexOfAnyAt("TX-NR609", '/', "60128/DX", {'/'});
    assert u[9..] == "60128/DX";
    ExamplePortDoesNotMatch();
  }

  lemma ExamplePortDoesNotMatch()
    ensures MatchPort("60128/DX") == None
  {
    var u := "60128/DX";
    assert u[6..] == "DX";
  }

  // ---------------------------------------------------------------- parse_info

  /** `parse_info`: the eISCP payload of a datagram, stripped of surrounding
      white space and matched against the reply pattern. A datagram that does
      not match makes `.groupdict()` fail on `None`. */
  function ParseInfo(data: seq<Byte>): (r: Result<Info>)
    ensures r.Ok? ==> ValidInfo(r.value)
    ensures r.Err? ==> Packet.Parse(data).Err? || r.error == AttributeError
  {
    match Packet.Parse(data)
    case Err(e) => Err(e)
    case Ok(response) =>
      match MatchInfo(Strip(response))
      case None => Err(AttributeError)
      case Some(info) => Ok(info)
  }

  /** A reply as a receiver sends it: the record, EOF, CR, LF. */
  function ReplyText(info: Info): string
  {
    FormatInfo(info) + [Iscp.EOF] + "\r\n"
  }

  lemma ReplyTextAscii(info: Info)
    requires IsAscii(FormatInfo(info))
    ensures IsAscii(ReplyText(info))
  {
  }

  /** The packed reply of a receiver whose identifier has all twelve
      characters decodes as its record: stripping removes CR and LF, and the
      pattern stops before the EOF character. */
  lemma ParseInfoOfReply(info: Info)
    requires ValidInfo(info) && |info.identifier| == IDENTIFIER_MAX
    requires IsAscii(FormatInfo(info)) && |ReplyText(info)| < Packet.U32_LIMIT
    ensures Packet.Pack(ReplyText(info)).Ok?
    ensures ParseInfo(Packet.Pack(ReplyText(info)).value) == Ok(info)
  {
    ParseReply(info);
    MatchFormatted(info, [Iscp.EOF]);
  }

  /** With a shorter identifier, `.{0,12}` runs on into the EOF character:
      the identifier that comes back ends in 0x1A. */
  lemma ShortIdentifierTakesEof(info: Info)
    requires ValidInfo(info) && |info.identifier| < IDENTIFIER_MAX
    requires IsAscii(FormatInfo(info)) && |ReplyText(info)| < Packet.U32_LIMIT
    ensures Packet.Pack(ReplyText(info)).Ok?
    ensures ParseInfo(Packet.Pack(ReplyText(info)).value)
         == Ok(info.(identifier := info.identifier + [Iscp.EOF]))
  {
    var longer := info.(identifier := info.identifier + [Iscp.EOF]);
    ParseReply(info);
    assert FormatInfo(longer) == FormatInfo(info) + [Iscp.EOF];
    assert FormatInfo(longer) + [] == FormatInfo(longer);
    MatchFormatted(longer, []);
  }

  /** A packed reply is matched on the record and its EOF: the header and the
      trailing CR LF are gone. */
  lemma ParseReply(info: Info)
    requires IsAscii(FormatInfo(info)) && |ReplyText(info)| < Packet.U32_LIMIT
    ensures Packet.Pack(ReplyText(info)).Ok?
    ensures var m := MatchInfo(FormatInfo(info) + [Iscp.EOF]);
      ParseInfo(Packet.Pack(ReplyText(info)).value) == if m.Some? then Ok(m.value) else Err(AttributeError)
  {
    ReplyTextAscii(info);
    Packet.ParseOfPack(ReplyText(info));
    StripReply(info);
  }

  lemma StripReply(info: Info)
    ensures Strip(ReplyText(info)) == FormatInfo(info) + [Iscp.EOF]
  {
    var x := FormatInfo(info) + [Iscp.EOF];
    assert x[0] == '!' && x[|x| - 1] == Iscp.EOF;
    StripTrailing(x, "\r\n");
  }

  // ---------------------------------------------------------------- receivers

  /** A discovered receiver: the sender's address, the port from the reply
      (`int(info['iscp_port'])`), and the reply record. */
  datatype Receiver = Receiver(host: string, port: int, info: Info)

  /** A datagram as `recvfrom` returned it, with the sender's host. */
  datatype Response = Response(host: string, data: seq<Byte>)

  /** `(clazz or eISCP)(addr[0], int(info['iscp_port']))` with `info`
      attached. */
  function ReceiverOf(host: string, info: Info): (r: Receiver)
    requires ValidInfo(info)
    ensures r.host == host && r.info == info && 0 <= r.port < 100000
  {
    DecimalBound(info.iscpPort);
    Receiver(host, DecimalValue(info.iscpPort), info)
  }

  lemma {:induction false} DecimalBound(s: string)
    requires AllDigits(s)
    ensures DecimalValue(s) < Pow10(|s|)
    decreases |s|
  {
    if |s| > 0 {
      DecimalBound(s[..|s| - 1]);
    }
  }

  function Pow10(k: nat): nat
  {
    if k == 0 then 1 else 10 * Pow10(k - 1)
  }

  /** A reply's sender together with what `parse_info` made of it. */
  datatype Sighting = Sighting(host: string, decoded: Result<Info>)

  /** Every decoded record is a valid one. */
  predicate AllValid(ss: seq<Sighting>)
  {
    forall i :: 0 <= i < |ss| ==> ss[i].decoded.Ok? ==> ValidInfo(ss[i].decoded.value)
  }

  lemma AllValidPrefix(ss: seq<Sighting>, n: nat)
    requires AllValid(ss) && n <= |ss|
    ensures AllValid(ss[..n])
  {
    assert forall i :: 0 <= i < n ==> ss[..n][i] == ss[i];
  }

  /** Each reply with its sender and decoded record. */
  function Sightings(responses: seq<Response>): (ss: seq<Sighting>)
    ensures |ss| == |responses| && AllValid(ss)
    ensures forall i :: 0 <= i < |responses| ==>
      ss[i].host == responses[i].host && ss[i].decoded == ParseInfo(responses[i].data)
  {
    seq(|responses|, i requires 0 <= i < |responses| =>
      Sighting(responses[i].host, ParseInfo(responses[i].data)))
  }

  /** Turning the sightings into receivers in turn, as the receive loop
      does; the first failure ends discovery with its exception. */
  function ParseAll(ss: seq<Sighting>): (r: Result<seq<Receiver>>)
    requires AllValid(ss)
    ensures r.Ok? ==> |r.value| == |ss|
    ensures r.Err? ==> exists i :: 0 <= i < |ss| && ss[i].decoded == Err(r.error)
    decreases |ss|
  {
    if |ss| == 0 then Ok([])
    else
      var last := ss[|ss| - 1];
      match ParseAll(ss[..|ss| - 1])
      case Err(e) => Err(e)
      case Ok(init) =>
        match last.decoded
        case Err(e) => Err(e)
        case Ok(info) => Ok(init + [ReceiverOf(last.host, info)])
  }

  /** Discovery succeeds exactly when every reply decodes, and then each
      receiver comes from its reply. */
  lemma {:induction false} ParseAllOk(ss: seq<Sighting>)
    requires AllValid(ss)
    ensures ParseAll(ss).Ok? <==> forall i :: 0 <= i < |ss| ==> ss[i].decoded.Ok?
    ensures ParseAll(ss).Ok? ==> forall i :: 0 <= i < |ss| ==>
      ParseAll(ss).value[i] == ReceiverOf(ss[i].host, ss[i].decoded.value)
    decreases |ss|
  {
    if |ss| > 0 {
      var init := ss[..|ss| - 1];
      ParseAllOk(init);
      assert forall i :: 0 <= i < |init| ==> init[i] == ss[i];
    }
  }

  /** Once a prefix of the sightings fails, discovery fails with that
      error. */
  lemma {:induction false} ParseAllSticky(ss: seq<Sighting>, n: nat)
    requires AllValid(ss) && n <= |ss| && ParseAll(ss[..n]).Err?
    ensures ParseAll(ss) == ParseAll(ss[..n])
    decreases |ss| - n
  {
    if n == |ss| {
      assert ss[..n] == ss;
    } else {
      assert ss[..n + 1][..n] == ss[..n];
      ParseAllSticky(ss, n + 1);
    }
  }

  /** One more turn of the receive loop: a failure ends discovery, a record
      adds its receiver. */
  lemma ParseAllStep(ss: seq<Sighting>, i: nat, seen: seq<Receiver>, host: string, decoded: Result<Info>)
    requires AllValid(ss) && i < |ss| && ParseAll(ss[..i]) == Ok(seen)
    requires ss[i] == Sighting(host, decoded)
    ensures decoded.Err? ==> ParseAll(ss) == Err(decoded.error)
    ensures decoded.Ok? ==> ParseAll(ss[..i + 1]) == Ok(seen + [ReceiverOf(host, decoded.value)])
  {
    assert ss[..i + 1][..i] == ss[..i] && ss[..i + 1][i] == ss[i];
    if decoded.Err? {
      ParseAllSticky(ss, i + 1);
    }
  }

  /** The error of discovery is the error of the first reply that fails to
      decode. */
  lemma ParseAllFirstError(ss: seq<Sighting>, i: nat)
    requires AllValid(ss) && i < |ss| && ss[i].decoded.Err?
    requires forall j :: 0 <= j < i ==> ss[j].decoded.Ok?
    ensures ParseAll(ss) == Err(ss[i].decoded.error)
  {
    ParseAllOk(ss[..i]);
    assert ss[..i + 1][..i] == ss[..i];
    ParseAllSticky(ss, i + 1);
  }

  // ---------------------------------------------------------------- the dictionary fold

  /** The distinct elements of `ids` in the order they were first seen: the
      order of a Python dictionary's keys after inserting `ids` in turn. */
  function FirstSeen(ids: seq<string>): (keys: seq<string>)
    ensures |keys| <= |ids|
  {
    if |ids| == 0 then []
    else
      var d := FirstSeen(ids[..|ids| - 1]);
      if ids[|ids| - 1] in d then d else d + [ids[|ids| - 1]]
  }

  /** The position of the last occurrence of `k` in `ids`. */
  function LastIndex(ids: seq<string>, k: string): (j: nat)
    requires k in ids
    ensures j < |ids| && ids[j] == k && forall i :: j < i < |ids| ==> ids[i] != k
  {
    if ids[|ids| - 1] == k then |ids| - 1 else LastIndex(ids[..|ids| - 1], k)
  }

  /** The position of the first occurrence of `k` in `ids`. */
  function FirstIndex(ids: seq<string>, k: string): (j: nat)
    requires k in ids
    ensures j < |ids| && ids[j] == k && forall i :: 0 <= i < j ==> ids[i] != k
  {
    if ids[0] == k then 0 else 1 + FirstIndex(ids[1..], k)
  }

  /** The keys are the identifiers inserted, no more and no fewer. */
  lemma {:induction false} FirstSeenElements(ids: seq<string>)
    ensures forall k :: k in FirstSeen(ids) <==> k in ids
    decreases |ids|
  {
    if |ids| > 0 {
      FirstSeenElements(ids[..|ids| - 1]);
      assert ids == ids[..|ids| - 1] + [ids[|ids| - 1]];
    }
  }

  /** The identifiers of a receiver list, in order. */
  function Identifiers(rs: seq<Receiver>): (ids: seq<string>)
    ensures |ids| == |rs| && forall i :: 0 <= i < |rs| ==> ids[i] == rs[i].info.identifier
  {
    seq(|rs|, i requires 0 <= i < |rs| => rs[i].info.identifier)
  }

  /** `list(found_receivers.values())` after every receiver in `rs` has been
      stored under its identifier. */
  function Dedup(rs: seq<Receiver>): (out: seq<Receiver>)
    ensures |out| <= |rs| && forall i :: 0 <= i < |out| ==> out[i] in rs
  {
    var ids := Identifiers(rs);
    var keys := FirstSeen(ids);
    FirstSeenElements(ids);
    seq(|keys|, i requires 0 <= i < |keys| => rs[LastIndex(ids, keys[i])])
  }

  /** The dictionary `found_receivers` after storing `seen`: `order` is its
      key order, and each key maps to the last receiver stored under it. */
  ghost predicate Stored(found: map<string, Receiver>, order: seq<string>, seen: seq<Receiver>)
  {
    && order == FirstSeen(Identifiers(seen))
    && (forall k :: k in found <==> k in Identifiers(seen))
    && (forall k :: k in found ==> found[k] == seen[LastIndex(Identifiers(seen), k)])
  }

  /** `found_receivers[info["identifier"]] = receiver` keeps the dictionary
      in step with the receivers seen. */
  lemma StoreReceiver(found: map<string, Receiver>, order: seq<string>, seen: seq<Receiver>, receiver: Receiver)
    requires Stored(found, order, seen)
    ensures var id := receiver.info.identifier;
      Stored(found[id := receiver], if id in found then order else order + [id], seen + [receiver])
  {
    var ids := Identifiers(seen);
    assert Identifiers(seen + [receiver]) == ids + [receiver.info.identifier];
    StoreOrder(ids, receiver.info.identifier);
    StoreLast(found, seen, receiver);
  }

  /** A new key goes to the end of the key order; a known one stays put. */
  lemma StoreOrder(ids: seq<string>, id: string)
    ensures FirstSeen(ids + [id]) == if id in ids then FirstSeen(ids) else FirstSeen(ids) + [id]
  {
    assert (ids + [id])[..|ids|] == ids;
    FirstSeenElements(ids);
  }

  /** After the store, the keys are the identifiers seen and every key maps
      to its last receiver. */
  lemma StoreLast(found: map<string, Receiver>, seen: seq<Receiver>, receiver: Receiver)
    requires forall k :: k in found <==> k in Identifiers(seen)
    requires forall k :: k in found ==> found[k] == seen[LastIndex(Identifiers(seen), k)]
    ensures forall k :: k in found[receiver.info.identifier := receiver] <==> k in Identifiers(seen + [receiver])
    ensures var found' := found[receiver.info.identifier := receiver];
      forall k :: k in found' ==> found'[k] == (seen + [receiver])[LastIndex(Identifiers(seen + [receiver]), k)]
  {
    var ids := Identifiers(seen);
    var ids' := Identifiers(seen + [receiver]);
    assert ids' == ids + [receiver.info.identifier];
    assert ids'[..|ids|] == ids;
  }

  /** `list(found_receivers.values())`: the stored receivers in key order. */
  function Values(found: map<string, Receiver>, order: seq<string>): (vs: seq<Receiver>)
    requires forall j :: 0 <= j < |order| ==> order[j] in found
    ensures |vs| == |order| && forall j :: 0 <= j < |order| ==> vs[j] == found[order[j]]
  {
    seq(|order|, j requires 0 <= j < |order| => found[order[j]])
  }

  /** Listing the dictionary's values in key order gives `Dedup`. */
  lemma StoredValues(found: map<string, Receiver>, order: seq<string>, seen: seq<Receiver>)
    requires Stored(found, order, seen)
    ensures forall j :: 0 <= j < |order| ==> order[j] in found
    ensures Values(found, order) == Dedup(seen)
  {
    FirstSeenElements(Identifiers(seen));
  }

  /** The fold of `discover` over the replies (eiscp/core.py:391-406):
      decode each reply, store a receiver under its identifier, and list the
      stored receivers. */
  method CollectReceivers(responses: seq<Response>) returns (r: Result<seq<Receiver>>)
    ensures r.Err? <==> ParseAll(Sightings(responses)).Err?
    ensures r.Err? ==> r == ParseAll(Sightings(responses))
    ensures r.Ok? ==> r.value == Dedup(ParseAll(Sightings(responses)).value)
  {
    ghost var ss := Sightings(responses);
    var found: map<string, Receiver> := map[];
    var order: seq<string> := [];
    ghost var seen: seq<Receiver> := [];
    var i := 0;
    while i < |responses|
      invariant 0 <= i <= |responses|
      invariant ParseAll(ss[..i]) == Ok(seen)
      invariant Stored(found, order, seen)
    {
      var info := ParseInfo(responses[i].data);
      ParseAllStep(ss, i, seen, responses[i].host, info);
      AllValidPrefix(ss, i + 1);
      if info.Err? {
        return Err(info.error);
      }
      var receiver := ReceiverOf(responses[i].host, info.value);
      var id := info.value.identifier;
      StoreReceiver(found, order, seen, receiver);
      if id !in found {
        order := order + [id];
      }
      found := found[id := receiver];
      seen := seen + [receiver];
      i := i + 1;
      assert ParseAll(ss[..i]) == Ok(seen);
    }
    assert ss[..i] == ss;
    StoredValues(found, order, seen);
    r := Ok(Values(found, order));
  }

  // ---------------------------------------------------------------- what the fold guarantees

  /** Each identifier is listed once. */
  lemma {:induction false} FirstSeenDistinct(ids: seq<string>)
    ensures forall i, j :: 0 <= i < j < |FirstSeen(ids)| ==> FirstSeen(ids)[i] != FirstSeen(ids)[j]
    decreases |ids|
  {
    if |ids| > 0 {
      FirstSeenDistinct(ids[..|ids| - 1]);
    }
  }

  lemma {:induction false} FirstIndexPrefix(ids: seq<string>, x: string, k: string)
    requires k in ids
    ensures FirstIndex(ids + [x], k) == FirstIndex(ids, k)
    decreases |ids|
  {
    if ids[0] != k {
      assert (ids + [x])[1..] == ids[1..] + [x];
      FirstIndexPrefix(ids[1..], x, k);
    }
  }

  /** The keys follow the order of first insertion. */
  lemma {:induction false} FirstSeenOrder(ids: seq<string>)
    ensures forall k :: k in FirstSeen(ids) ==> k in ids
    ensures forall i, j :: 0 <= i < j < |FirstSeen(ids)| ==>
      FirstIndex(ids, FirstSeen(ids)[i]) < FirstIndex(ids, FirstSeen(ids)[j])
    decreases |ids|
  {
    FirstSeenElements(ids);
    if |ids| > 0 {
      var init := ids[..|ids| - 1];
      var last := ids[|ids| - 1];
      FirstSeenOrder(init);
      FirstSeenElements(init);
      var d := FirstSeen(init);
      assert init + [last] == ids;
      forall k | k in d ensures FirstIndex(ids, k) == FirstIndex(init, k) {
        FirstIndexPrefix(init, last, k);
      }
      if last !in d {
        assert FirstIndex(ids, last) == |ids| - 1;
      }
    }
  }

  /** Every identifier sighted is listed, and only those. */
  lemma DedupCoversSightings(rs: seq<Receiver>)
    ensures forall k :: 0 <= k < |rs| ==>
      exists i :: 0 <= i < |Dedup(rs)| && Dedup(rs)[i].info.identifier == rs[k].info.identifier
    ensures forall i :: 0 <= i < |Dedup(rs)| ==> Dedup(rs)[i] in rs
  {
    var ids := Identifiers(rs);
    var keys := FirstSeen(ids);
    var out := Dedup(rs);
    FirstSeenElements(ids);
    forall k | 0 <= k < |rs|
      ensures exists i :: 0 <= i < |out| && out[i].info.identifier == rs[k].info.identifier
    {
      assert ids[k] in keys;
      var i :| 0 <= i < |keys| && keys[i] == ids[k];
      assert out[i].info.identifier == keys[i];
    }
  }

  /** No identifier is listed twice. */
  lemma DedupDistinct(rs: seq<Receiver>)
    ensures forall i, j :: 0 <= i < j < |Dedup(rs)| ==>
      Dedup(rs)[i].info.identifier != Dedup(rs)[j].info.identifier
  {
    var keys := FirstSeen(Identifiers(rs));
    FirstSeenElements(Identifiers(rs));
    FirstSeenDistinct(Identifiers(rs));
    assert forall i :: 0 <= i < |Dedup(rs)| ==> Dedup(rs)[i].info.identifier == keys[i];
  }

  /** Receivers are listed in the order their identifiers were first
      sighted. */
  lemma DedupFirstSightingOrder(rs: seq<Receiver>)
    ensures forall i :: 0 <= i < |Dedup(rs)| ==> Dedup(rs)[i].info.identifier in Identifiers(rs)
    ensures forall i, j :: 0 <= i < j < |Dedup(rs)| ==>
      FirstIndex(Identifiers(rs), Dedup(rs)[i].info.identifier)
        < FirstIndex(Identifiers(rs), Dedup(rs)[j].info.identifier)
  {
    var keys := FirstSeen(Identifiers(rs));
    FirstSeenElements(Identifiers(rs));
    FirstSeenOrder(Identifiers(rs));
    assert forall i :: 0 <= i < |Dedup(rs)| ==> Dedup(rs)[i].info.identifier == keys[i];
  }

  /** The receiver listed for an identifier is the one from its last
      sighting: a later reply overwrites an earlier one. */
  lemma DedupLastSightingWins(rs: seq<Receiver>, k: nat)
    requires k < |rs|
    ensures exists i :: 0 <= i < |Dedup(rs)| && Dedup(rs)[i] == rs[LastIndex(Identifiers(rs), rs[k].info.identifier)]
  {
    var ids := Identifiers(rs);
    var keys := FirstSeen(ids);
    FirstSeenElements(ids);
    assert ids[k] in keys;
    var i :| 0 <= i < |keys| && keys[i] == ids[k];
    assert Dedup(rs)[i] == rs[LastIndex(ids, keys[i])];
  }

  /** Two replies from the same device through different interfaces yield
      one receiver, the later sighting. */
  lemma SameDeviceTwice(a: Receiver, b: Receiver)
    requires a.info.identifier == b.info.identifier && a.host != b.host
    ensures Dedup([a, b]) == [b]
  {
    var ids := Identifiers([a, b]);
    assert ids == [a.info.identifier, a.info.identifier];
    assert ids[..1] == [a.info.identifier];
    assert FirstSeen(ids[..1][..0]) == [];
    assert FirstSeen(ids) == [a.info.identifier];
  }
}
