/**
 * What goes on the wire for each operation of the device client: the HTTP
 * method, the URL (the client's address followed by an action path) and,
 * for a POST, the ordered name/value pairs of the form body.
 */
module Requests {
  import opened Wrappers
  import opened JavaInt
  import opened JavaText
  import opened FormEncoding

  /** The Content-Type header value set on every request, GET and POST alike. */
  const ContentType: string := "application/x-www-form-urlencoded"

  const RotateForeverPath: string := "/rotate/forever"
  const RotatePath: string := "/rotate"
  const StopPath: string := "/stop"
  const LockPath: string := "/lock"
  const RotationPath: string := "/sensor/rotation"
  const TemperaturePath: string := "/sensor/temperature"

  /** An HTTP request; every one carries the header `Content-Type: ContentType`. */
  datatype Request = Get(url: string) | Post(url: string, pairs: seq<(string, string)>)
  {
    /** The form-encoded body; a GET has none. */
    function Payload(): string {
      if Post? then Body(pairs) else ""
    }
  }

  /** The device commands, one per command method of the client. */
  datatype Command =
    | Rotate(speed: Int32)
    | RotateTo(degree: Int32, speed: Int32, absRange: Int32)
    | RotateBy(degree: Int32, speed: Int32)
    | Stop(smooth: bool)
    | Lock(smooth: bool)

  function Names(pairs: seq<(string, string)>): (ns: seq<string>)
    ensures |ns| == |pairs|
  {
    seq(|pairs|, i requires 0 <= i < |pairs| => pairs[i].0)
  }

  /** `rotate(speed)`: keep turning at `speed` degrees per second. */
  function RotateRequest(address: string, speed: Int32): (r: Request)
    ensures r.Post? && r.url == address + "/rotate/forever"
    ensures Names(r.pairs) == ["speed"]
    ensures ParseInt32(r.pairs[0].1) == Some(speed)
  {
    Post(address + RotateForeverPath, [("speed", IntToDecimal(speed))])
  }

  /** `rotateTo(degree, speed, absRange)`: turn to an absolute position. */
  function RotateToRequest(address: string, degree: Int32, speed: Int32, absRange: Int32): (r: Request)
    ensures r.Post? && r.url == address + "/rotate"
    ensures Names(r.pairs) == ["degree", "speed", "absRange", "absolute"]
    ensures ParseInt32(r.pairs[0].1) == Some(degree)
    ensures ParseInt32(r.pairs[1].1) == Some(speed)
    ensures ParseInt32(r.pairs[2].1) == Some(absRange)
    ensures r.pairs[3].1 == "true"
  {
    Post(address + RotatePath,
      [("degree", IntToDecimal(degree)), ("speed", IntToDecimal(speed)),
       ("absRange", IntToDecimal(absRange)), ("absolute", BoolToString(true))])
  }

  /** `rotateBy(degree, speed)`: turn by an offset from the current position; no `absRange` is sent. */
  function RotateByRequest(address: string, degree: Int32, speed: Int32): (r: Request)
    ensures r.Post? && r.url == address + "/rotate"
    ensures Names(r.pairs) == ["degree", "speed", "absolute"]
    ensures ParseInt32(r.pairs[0].1) == Some(degree)
    ensures ParseInt32(r.pairs[1].1) == Some(speed)
    ensures r.pairs[2].1 == "false"
  {
    Post(address + RotatePath,
      [("degree", IntToDecimal(degree)), ("speed", IntToDecimal(speed)),
       ("absolute", BoolToString(false))])
  }

  /** `stop(smooth)`: stop turning and leave the shaft free. */
  function StopRequest(address: string, smooth: bool): (r: Request)
    ensures r.Post? && r.url == address + "/stop"
    ensures Names(r.pairs) == ["smooth"]
    ensures ParseBool(r.pairs[0].1) == Some(smooth)
  {
    Post(address + StopPath, [("smooth", BoolToString(smooth))])
  }

  /** `lock(smooth)`: stop turning and lock the shaft. */
  function LockRequest(address: string, smooth: bool): (r: Request)
    ensures r.Post? && r.url == address + "/lock"
    ensures Names(r.pairs) == ["smooth"]
    ensures ParseBool(r.pairs[0].1) == Some(smooth)
  {
    Post(address + LockPath, [("smooth", BoolToString(smooth))])
  }

  /** The query behind both `rotation()` and `rotation_raw()`: a GET without a body. */
  function RotationRequest(address: string): (r: Request)
    ensures r.Get? && r.url == address + "/sensor/rotation" && r.Payload() == ""
    ensures Decode(address, r) == None
  {
    Get(address + RotationPath)
  }

  /** The query behind `temperature()`: a GET without a body. */
  function TemperatureRequest(address: string): (r: Request)
    ensures r.Get? && r.url == address + "/sensor/temperature" && r.Payload() == ""
    ensures Decode(address, r) == None
  {
    Get(address + TemperaturePath)
  }

  /** The request each command method sends. */
  function CommandRequest(address: string, c: Command): (r: Request)
    ensures r.Post?
    ensures Decode(address, r) == Some(c)
  {
    var r := match c
      case Rotate(s) => RotateRequest(address, s)
      case RotateTo(d, s, a) => RotateToRequest(address, d, s, a)
      case RotateBy(d, s) => RotateByRequest(address, d, s)
      case Stop(b) => StopRequest(address, b)
      case Lock(b) => LockRequest(address, b);
    assert (r.url)[..|address|] == address;
    r
  }

  /**
   * The reading of a request as a command: a POST under `address` whose
   * path, names in order and values are exactly of one command's shape.
   */
  function Decode(address: string, req: Request): Option<Command> {
    match req
    case Get(_) => None
    case Post(url, pairs) =>
      if |url| < |address| || url[..|address|] != address then None
      else DecodeAction(url[|address|..], pairs)
  }

  function DecodeAction(path: string, pairs: seq<(string, string)>): Option<Command> {
    var names := Names(pairs);
    if path == RotateForeverPath && names == ["speed"] then
      var s := ParseInt32(pairs[0].1);
      if s.Some? then Some(Rotate(s.value)) else None
    else if path == RotatePath && names == ["degree", "speed", "absRange", "absolute"] then
      var d, s, a := ParseInt32(pairs[0].1), ParseInt32(pairs[1].1), ParseInt32(pairs[2].1);
      if d.Some? && s.Some? && a.Some? && ParseBool(pairs[3].1) == Some(true)
      then Some(RotateTo(d.value, s.value, a.value)) else None
    else if path == RotatePath && names == ["degree", "speed", "absolute"] then
      var d, s := ParseInt32(pairs[0].1), ParseInt32(pairs[1].1);
      if d.Some? && s.Some? && ParseBool(pairs[2].1) == Some(false)
      then Some(RotateBy(d.value, s.value)) else None
    else if path == StopPath && names == ["smooth"] then
      var b := ParseBool(pairs[0].1);
      if b.Some? then Some(Stop(b.value)) else None
    else if path == LockPath && names == ["smooth"] then
      var b := ParseBool(pairs[0].1);
      if b.Some? then Some(Lock(b.value)) else None
    else None
  }

  /** Different commands never produce the same request. */
  lemma CommandRequestInjective(address: string, c1: Command, c2: Command)
    requires CommandRequest(address, c1) == CommandRequest(address, c2)
    ensures c1 == c2
  {
    assert Decode(address, CommandRequest(address, c1)) == Some(c1);
  }

  lemma DecimalIsPlain(i: int)
    ensures IsPlain(IntToDecimal(i))
  {
    var s := IntToDecimal(i);
    if i < 0 {
      var d := NatToDecimal(-i);
      assert s == "-" + d;
      assert forall k :: 1 <= k < |s| ==> s[k] == d[k - 1];
    }
  }

  /** Names and values that the serialiser leaves unescaped. */
  predicate PlainPairs(pairs: seq<(string, string)>) {
    forall j :: 0 <= j < |pairs| ==> IsPlain(pairs[j].0) && IsPlain(pairs[j].1)
  }

  lemma PlainPairsParse(pairs: seq<(string, string)>)
    requires PlainPairs(pairs)
    ensures Parse(Body(pairs)) == pairs
  {
    forall j | 0 <= j < |pairs| ensures IsLatin1(pairs[j].0) && IsLatin1(pairs[j].1) {
      assert IsPlain(pairs[j].0) && IsPlain(pairs[j].1);
    }
    ParseBody(pairs);
  }

  lemma LiteralsArePlain()
    ensures IsPlain("speed") && IsPlain("degree") && IsPlain("absRange") && IsPlain("absolute")
    ensures IsPlain("smooth") && IsPlain("true") && IsPlain("false")
  {
  }

  /**
   * Every name and value a command sends is made of unreserved characters,
   * so the body is the plain `name=value` list joined with `&`, and the
   * form parser reads the pairs back in order.
   */
  lemma CommandBodyIsPlain(address: string, c: Command)
    ensures PlainPairs(CommandRequest(address, c).pairs)
    ensures Parse(CommandRequest(address, c).Payload()) == CommandRequest(address, c).pairs
  {
    var r := CommandRequest(address, c);
    LiteralsArePlain();
    match c {
    case Rotate(s) =>
      DecimalIsPlain(s);
      assert r.pairs == [("speed", IntToDecimal(s))];
    case RotateTo(d, s, a) =>
      DecimalIsPlain(d); DecimalIsPlain(s); DecimalIsPlain(a);
      assert r.pairs == [("degree", IntToDecimal(d)), ("speed", IntToDecimal(s)),
                         ("absRange", IntToDecimal(a)), ("absolute", "true")];
    case RotateBy(d, s) =>
      DecimalIsPlain(d); DecimalIsPlain(s);
      assert r.pairs == [("degree", IntToDecimal(d)), ("speed", IntToDecimal(s)), ("absolute", "false")];
    case Stop(b) =>
      assert r.pairs == [("smooth", BoolToString(b))];
    case Lock(b) =>
      assert r.pairs == [("smooth", BoolToString(b))];
    }
    PlainPairsParse(r.pairs);
  }

  lemma PlainField(n: string, v: string)
    requires IsPlain(n) && IsPlain(v)
    ensures Field((n, v)) == n + "=" + v
  {
  }

  lemma BodyCons(p: (string, string), rest: seq<(string, string)>)
    requires rest != []
    ensures Body([p] + rest) == Field(p) + "&" + Body(rest)
  {
    assert ([p] + rest)[1..] == rest;
  }

  lemma Assoc(a: string, b: string, c: string)
    ensures (a + b) + c == a + (b + c)
  {
  }

  lemma ThreeFields(n1: string, v1: string, n2: string, v2: string, n3: string, v3: string)
    requires IsPlain(n1) && IsPlain(v1) && IsPlain(n2) && IsPlain(v2) && IsPlain(n3) && IsPlain(v3)
    ensures Body([(n1, v1), (n2, v2), (n3, v3)]) == n1 + "=" + v1 + "&" + n2 + "=" + v2 + "&" + n3 + "=" + v3
  {
    var f1, f2, f3 := n1 + "=" + v1, n2 + "=" + v2, n3 + "=" + v3;
    PlainField(n1, v1);
    PlainField(n2, v2);
    PlainField(n3, v3);
    BodyCons((n2, v2), [(n3, v3)]);
    BodyCons((n1, v1), [(n2, v2), (n3, v3)]);
    assert [(n1, v1), (n2, v2), (n3, v3)] == [(n1, v1)] + [(n2, v2), (n3, v3)];
    assert [(n2, v2), (n3, v3)] == [(n2, v2)] + [(n3, v3)];
    assert Body([(n1, v1), (n2, v2), (n3, v3)]) == f1 + "&" + (f2 + "&" + f3);
    Assoc(f1 + "&", f2 + "&", f3);
    Assoc(f1 + "&", f2, "&");
    Assoc(f1 + "&", n2 + "=", v2);
    Assoc(f1 + "&", n2, "=");
    Assoc(f1 + "&" + n2 + "=" + v2 + "&", n3 + "=", v3);
    Assoc(f1 + "&" + n2 + "=" + v2 + "&", n3, "=");
  }

  lemma FourFields(n1: string, v1: string, n2: string, v2: string, n3: string, v3: string, n4: string, v4: string)
    requires IsPlain(n1) && IsPlain(v1) && IsPlain(n2) && IsPlain(v2)
    requires IsPlain(n3) && IsPlain(v3) && IsPlain(n4) && IsPlain(v4)
    ensures Body([(n1, v1), (n2, v2), (n3, v3), (n4, v4)])
      == n1 + "=" + v1 + "&" + n2 + "=" + v2 + "&" + n3 + "=" + v3 + "&" + n4 + "=" + v4
  {
    var f1 := n1 + "=" + v1;
    var rest := n2 + "=" + v2 + "&" + n3 + "=" + v3 + "&" + n4 + "=" + v4;
    PlainField(n1, v1);
    ThreeFields(n2, v2, n3, v3, n4, v4);
    BodyCons((n1, v1), [(n2, v2), (n3, v3), (n4, v4)]);
    assert [(n1, v1), (n2, v2), (n3, v3), (n4, v4)] == [(n1, v1)] + [(n2, v2), (n3, v3), (n4, v4)];
    assert Body([(n1, v1), (n2, v2), (n3, v3), (n4, v4)]) == f1 + "&" + rest;
    var g := f1 + "&";
    Assoc(g, n2 + "=" + v2 + "&" + n3 + "=" + v3 + "&" + n4 + "=", v4);
    Assoc(g, n2 + "=" + v2 + "&" + n3 + "=" + v3 + "&" + n4, "=");
    Assoc(g, n2 + "=" + v2 + "&" + n3 + "=" + v3 + "&", n4);
    Assoc(g, n2 + "=" + v2 + "&" + n3 + "=" + v3, "&");
    Assoc(g, n2 + "=" + v2 + "&" + n3 + "=", v3);
    Assoc(g, n2 + "=" + v2 + "&" + n3, "=");
    Assoc(g, n2 + "=" + v2 + "&", n3);
    Assoc(g, n2 + "=" + v2, "&");
    Assoc(g, n2 + "=", v2);
    Assoc(g, n2, "=");
  }

  /** The body `rotateBy` sends, for every argument: three fields, `absolute=false` last. */
  lemma RotateByBody(address: string, degree: Int32, speed: Int32)
    ensures RotateByRequest(address, degree, speed).Payload()
      == "degree" + "=" + IntToDecimal(degree) + "&" + "speed" + "=" + IntToDecimal(speed)
         + "&" + "absolute" + "=" + "false"
  {
    LiteralsArePlain();
    DecimalIsPlain(degree);
    DecimalIsPlain(speed);
    ThreeFields("degree", IntToDecimal(degree), "speed", IntToDecimal(speed), "absolute", "false");
  }

  /** The body `rotateTo` sends, for every argument: four fields, `absolute=true` last. */
  lemma RotateToBody(address: string, degree: Int32, speed: Int32, absRange: Int32)
    ensures RotateToRequest(address, degree, speed, absRange).Payload()
      == "degree" + "=" + IntToDecimal(degree) + "&" + "speed" + "=" + IntToDecimal(speed)
         + "&" + "absRange" + "=" + IntToDecimal(absRange) + "&" + "absolute" + "=" + "true"
  {
    LiteralsArePlain();
    DecimalIsPlain(degree);
    DecimalIsPlain(speed);
    DecimalIsPlain(absRange);
    FourFields("degree", IntToDecimal(degree), "speed", IntToDecimal(speed),
               "absRange", IntToDecimal(absRange), "absolute", "true");
  }

  lemma RotateToText()
    ensures "degree" + "=" + "90" + "&" + "speed" + "=" + "50" + "&" + "absRange" + "=" + "5" + "&" + "absolute" + "=" + "true"
      == "degree=90&speed=50&absRange=5&absolute=true"
  {
  }

  lemma RotateByText()
    ensures "degree" + "=" + "-45" + "&" + "speed" + "=" + "20" + "&" + "absolute" + "=" + "false"
      == "degree=-45&speed=20&absolute=false"
  {
  }

  /** The body of `rotateTo(90, 50, 5)`. */
  lemma RotateToExample(address: string)
    ensures RotateToRequest(address, 90, 50, 5).Payload() == "degree=90&speed=50&absRange=5&absolute=true"
  {
    RotateToBody(address, 90, 50, 5);
    DecimalExamples();
    RotateToText();
  }

  /** The body of `rotateBy(-45, 20)`: `absolute=false`, in lower case, and no `absRange`. */
  lemma RotateByExample(address: string)
    ensures RotateByRequest(address, -45, 20).Payload() == "degree=-45&speed=20&absolute=false"
  {
    RotateByBody(address, -45, 20);
    DecimalExamples();
    RotateByText();
  }
}
