/**
 * The device client: an immutable address and a single mutable slot that
 * holds the body of the last HTTP exchange that got as far as reading one.
 * The transport is a parameter of each operation: `Some(body)` is the body
 * the device answered with, `None` a failure before the body was read,
 * which the client swallows.
 */
module Webmo {
  import opened Wrappers
  import opened JavaInt
  import opened Requests
  import opened Rotation

  const DefaultAddress: string := "http://webmo.local/api"

  /** The address built from a host name; the host is taken as it is, unchecked. */
  function HostAddress(host: string): (a: string)
    ensures |a| == |host| + 11
    ensures a[..7] == "http://" && a[7..|a| - 4] == host && a[|a| - 4..] == "/api"
  {
    "http://" + host + "/api"
  }

  /** Different hosts give different addresses. */
  lemma HostAddressInjective(h1: string, h2: string)
    requires HostAddress(h1) == HostAddress(h2)
    ensures h1 == h2
  {
    assert h1 == HostAddress(h1)[7..|HostAddress(h1)| - 4];
  }

  lemma HostAddressExample()
    ensures HostAddress("example.local") == "http://example.local/api"
  {
  }

  /** The slot after one exchange: a body that was read replaces it, a failure leaves it. */
  function Slot(content: Option<string>, response: Option<string>): (c: Option<string>)
    ensures response.Some? ==> c == response
    ensures response.None? ==> c == content
  {
    if response.Some? then response else content
  }

  /** The slot after a run of exchanges, starting from `initial`. */
  function LastBody(initial: Option<string>, outcomes: seq<Option<string>>): Option<string>
    decreases |outcomes|
  {
    if outcomes == [] then initial
    else Slot(LastBody(initial, outcomes[..|outcomes| - 1]), outcomes[|outcomes| - 1])
  }

  /** A run in which no body was read leaves the slot as it was. */
  lemma {:induction false} LastBodyAllFailed(initial: Option<string>, outcomes: seq<Option<string>>)
    requires forall j :: 0 <= j < |outcomes| ==> outcomes[j].None?
    ensures LastBody(initial, outcomes) == initial
    decreases |outcomes|
  {
    if outcomes != [] {
      LastBodyAllFailed(initial, outcomes[..|outcomes| - 1]);
    }
  }

  /** The slot holds the body of the latest exchange that read one, whatever failed after it. */
  lemma {:induction false} LastBodyIsLatest(initial: Option<string>, outcomes: seq<Option<string>>, k: nat)
    requires k < |outcomes| && outcomes[k].Some?
    requires forall j :: k < j < |outcomes| ==> outcomes[j].None?
    ensures LastBody(initial, outcomes) == outcomes[k]
    decreases |outcomes|
  {
    if k < |outcomes| - 1 {
      LastBodyIsLatest(initial, outcomes[..|outcomes| - 1], k);
    }
  }

  /** Running two sequences of exchanges one after the other is the same as running them joined. */
  lemma {:induction false} LastBodyAppend(initial: Option<string>, xs: seq<Option<string>>, ys: seq<Option<string>>)
    ensures LastBody(initial, xs + ys) == LastBody(LastBody(initial, xs), ys)
    decreases |ys|
  {
    if ys == [] {
      assert xs + ys == xs;
    } else {
      var zs := xs + ys;
      assert zs[..|zs| - 1] == xs + ys[..|ys| - 1];
      LastBodyAppend(initial, xs, ys[..|ys| - 1]);
    }
  }

  /** Why a sensor query yields no reading. */
  datatype QueryError =
    | NullContent   // no exchange has read a body yet; `new JSONObject(null)` throws
    | BadField      // the body has no integer under the field name; `getInt` throws

  /**
   * A rotation reading taken from the slot. `getInt(body, name)` stands for
   * `new JSONObject(body).getInt(name)`, None where that throws.
   */
  function ReadDegrees(content: Option<string>, field: string, getInt: (string, string) -> Option<Int32>): (r: Result<Int32, QueryError>)
    ensures r.Success? <==> content.Some? && getInt(content.value, field).Some?
    ensures r.Success? ==> r.value == ToDegrees(getInt(content.value, field).value)
    ensures content.None? ==> r == Failure(NullContent)
  {
    match content
    case None => Failure(NullContent)
    case Some(body) =>
      match getInt(body, field)
      case None => Failure(BadField)
      case Some(count) => Success(ToDegrees(count))
  }

  /** The body the device answers in the sensor examples, and the two readings in it. */
  lemma MockedRotation(getInt: (string, string) -> Option<Int32>, body: string)
    requires getInt(body, "rotation") == Some(1024) && getInt(body, "rotation_raw") == Some(512)
    ensures ReadDegrees(Some(body), "rotation", getInt) == Success(90)
    ensures ReadDegrees(Some(body), "rotation_raw", getInt) == Success(45)
  {
    SensorExamples();
  }

  class Client {
    /** The base address; no operation changes it. */
    const address: string
    /** The body of the last exchange that read one; None (Java null) before any has. */
    var content: Option<string>
    /** The transport outcome of every exchange so far, in order. */
    ghost var outcomes: seq<Option<string>>
    /** The request sent by every exchange so far, in order; `outcomes[k]` answers `requests[k]`. */
    ghost var requests: seq<Request>

    ghost predicate Valid()
      reads this
    {
      content == LastBody(None, outcomes) && |requests| == |outcomes|
    }

    /** A client for the default host `webmo.local`. */
    constructor ()
      ensures address == DefaultAddress
      ensures content == None && outcomes == [] && requests == [] && Valid()
    {
      address := DefaultAddress;
      content := None;
      outcomes := [];
      requests := [];
    }

    /** A client for `host`. */
    constructor WithHost(host: string)
      ensures address == HostAddress(host)
      ensures content == None && outcomes == [] && requests == [] && Valid()
    {
      address := HostAddress(host);
      content := None;
      outcomes := [];
      requests := [];
    }

    /** The last stored body. */
    method GetContent() returns (c: Option<string>)
      ensures c == content
    {
      c := content;
    }

    /**
     * One exchange: `request` goes out, the transport answers `response`.
     * A body that was read overwrites the slot; a failure before that is
     * swallowed and leaves the slot unchanged.
     */
    method Exchange(request: Request, response: Option<string>)
      requires Valid()
      modifies this
      ensures Valid() && outcomes == old(outcomes) + [response]
      ensures requests == old(requests) + [request]
      ensures content == Slot(old(content), response)
    {
      if response.Some? {
        content := response;
      }
      outcomes := outcomes + [response];
      requests := requests + [request];
    }

    method Rotate(speed: Int32, response: Option<string>) returns (sent: Request)
      requires Valid()
      modifies this
      ensures sent == CommandRequest(address, Command.Rotate(speed))
      ensures Valid() && outcomes == old(outcomes) + [response]
      ensures requests == old(requests) + [sent]
      ensures content == Slot(old(content), response)
    {
      sent := RotateRequest(address, speed);
      Exchange(sent, response);
    }

    method RotateTo(degree: Int32, speed: Int32, absRange: Int32, response: Option<string>) returns (sent: Request)
      requires Valid()
      modifies this
      ensures sent == CommandRequest(address, Command.RotateTo(degree, speed, absRange))
      ensures Valid() && outcomes == old(outcomes) + [response]
      ensures requests == old(requests) + [sent]
      ensures content == Slot(old(content), response)
    {
      sent := RotateToRequest(address, degree, speed, absRange);
      Exchange(sent, response);
    }

    method RotateBy(degree: Int32, speed: Int32, response: Option<string>) returns (sent: Request)
      requires Valid()
      modifies this
      ensures sent == CommandRequest(address, Command.RotateBy(degree, speed))
      ensures Valid() && outcomes == old(outcomes) + [response]
      ensures requests == old(requests) + [sent]
      ensures content == Slot(old(content), response)
    {
      sent := RotateByRequest(address, degree, speed);
      Exchange(sent, response);
    }

    method Stop(smooth: bool, response: Option<string>) returns (sent: Request)
      requires Valid()
      modifies this
      ensures sent == CommandRequest(address, Command.Stop(smooth))
      ensures Valid() && outcomes == old(outcomes) + [response]
      ensures requests == old(requests) + [sent]
      ensures content == Slot(old(content), response)
    {
      sent := StopRequest(address, smooth);
      Exchange(sent, response);
    }

    method Lock(smooth: bool, response: Option<string>) returns (sent: Request)
      requires Valid()
      modifies this
      ensures sent == CommandRequest(address, Command.Lock(smooth))
      ensures Valid() && outcomes == old(outcomes) + [response]
      ensures requests == old(requests) + [sent]
      ensures content == Slot(old(content), response)
    {
      sent := LockRequest(address, smooth);
      Exchange(sent, response);
    }

    /**
     * `rotation()`: query the sensor and read the smoothed count from the
     * slot. When the exchange fails the slot still holds the previous body,
     * and that stale body is what gets read.
     */
    method Rotation(response: Option<string>, getInt: (string, string) -> Option<Int32>)
      returns (sent: Request, degrees: Result<Int32, QueryError>)
      requires Valid()
      modifies this
      ensures sent == RotationRequest(address)
      ensures Valid() && outcomes == old(outcomes) + [response]
      ensures requests == old(requests) + [sent]
      ensures content == Slot(old(content), response)
      ensures degrees == ReadDegrees(content, "rotation", getInt)
      ensures response.None? ==> degrees == ReadDegrees(old(content), "rotation", getInt)
    {
      sent := RotationRequest(address);
      Exchange(sent, response);
      degrees := ReadDegrees(content, "rotation", getInt);
    }

    /** `rotation_raw()`: as Rotation, reading the unsmoothed count `rotation_raw`. */
    method RotationRaw(response: Option<string>, getInt: (string, string) -> Option<Int32>)
      returns (sent: Request, degrees: Result<Int32, QueryError>)
      requires Valid()
      modifies this
      ensures sent == RotationRequest(address)
      ensures Valid() && outcomes == old(outcomes) + [response]
      ensures requests == old(requests) + [sent]
      ensures content == Slot(old(content), response)
      ensures degrees == ReadDegrees(content, "rotation_raw", getInt)
      ensures response.None? ==> degrees == ReadDegrees(old(content), "rotation_raw", getInt)
    {
      sent := RotationRequest(address);
      Exchange(sent, response);
      degrees := ReadDegrees(content, "rotation_raw", getInt);
    }

    /** `temperature()`: the exchange only; the reading itself is a floating-point value. */
    method Temperature(response: Option<string>) returns (sent: Request)
      requires Valid()
      modifies this
      ensures sent == TemperatureRequest(address)
      ensures Valid() && outcomes == old(outcomes) + [response]
      ensures requests == old(requests) + [sent]
      ensures content == Slot(old(content), response)
    {
      sent := TemperatureRequest(address);
      Exchange(sent, response);
    }
  }
}
