/**
 * The HOST.CHECK request: probe a host by opening TCP connections to a fixed
 * list of ports, in order, and stop at the first port that accepts. The JSON
 * reply says whether the host is up and which port answered, or else carries
 * the error of the last attempt. fsockopen is an oracle: for a host, a port
 * and a timeout it either connects or reports an error code and text.
 */
module HostCheck {
  import opened Results
  import opened PhpValues

  /** One entry of $HOST_CHECK_PORTS; PHP turns the numeric string keys into integers. */
  datatype ProbePort = ProbePort(port: int, info: string)

  const HostCheckPorts: seq<ProbePort> :=
    [ProbePort(3389, "3389 (RDP)"), ProbePort(22, "22 (SSH)"), ProbePort(80, "80 (HTTP)"), ProbePort(443, "443 (HTTPS)")]

  const WaitTimeoutInSeconds := 3

  /** What fsockopen gives back: a connection, or its $errCode and $errStr. */
  datatype ConnectResult = Connected | Refused(errCode: int, errStr: string)

  /** The reply: a JSON object, or endWithErrorMessage's HTTP 500 text. */
  datatype Reply = Json(body: map<string, Value>) | ServerError(text: string)

  const HostNotSetText := "Internal Server Error! Parameter host not set."

  /** The result of one fsockopen attempt on probe k. */
  function Attempt(host: string, connect: (string, int, int) -> ConnectResult, probe: ProbePort): ConnectResult {
    connect(host, probe.port, WaitTimeoutInSeconds)
  }

  /** The index of the first probe that connects, or None when every probe is refused. */
  function FirstOpen(host: string, connect: (string, int, int) -> ConnectResult, probes: seq<ProbePort>)
    : (r: Option<nat>)
    ensures r.Some? ==> r.value < |probes| && Attempt(host, connect, probes[r.value]).Connected?
    ensures r.Some? ==> forall j | 0 <= j < r.value :: Attempt(host, connect, probes[j]).Refused?
    ensures r.None? <==> forall j | 0 <= j < |probes| :: Attempt(host, connect, probes[j]).Refused?
  {
    if probes == [] then None
    else if Attempt(host, connect, probes[0]).Connected? then Some(0)
    else
      match FirstOpen(host, connect, probes[1..])
      case None => None
      case Some(k) => Some(k + 1)
  }

  /** A probe that connects after only refusals before it is the first open one. */
  lemma FirstOpenAt(host: string, connect: (string, int, int) -> ConnectResult, probes: seq<ProbePort>, i: nat)
    requires i < |probes| && Attempt(host, connect, probes[i]).Connected?
    requires forall j | 0 <= j < i :: Attempt(host, connect, probes[j]).Refused?
    ensures FirstOpen(host, connect, probes) == Some(i)
  {
  }

  /** The reply body once the probe at index k has connected: every error field is blanked. */
  function UpBody(info: string): map<string, Value> {
    map["error" := Bool(false), "isUp" := Bool(true), "info" := Str(info),
        "errCode" := Str(""), "errStr" := Str(""), "errorPort" := Str("")]
  }

  /** The reply body after a refused attempt on port: the error fields describe that attempt. */
  function DownBody(errCode: int, errStr: string, port: int): map<string, Value> {
    map["error" := Bool(false), "isUp" := Bool(false),
        "errCode" := Int(errCode), "errStr" := Str(errStr), "errorPort" := Int(port)]
  }

  /** The JSON body of the probe of host: up with the first open port, or the last port's error. */
  function ProbeResponse(host: string, connect: (string, int, int) -> ConnectResult): map<string, Value> {
    match FirstOpen(host, connect, HostCheckPorts)
    case Some(k) => UpBody(HostCheckPorts[k].info)
    case None =>
      var last := HostCheckPorts[|HostCheckPorts| - 1];
      var failed := Attempt(host, connect, last);
      if failed.Refused? then DownBody(failed.errCode, failed.errStr, last.port)
      else assert false; map[]
  }

  /** The whole request: a missing or falsy host parameter ends with the HTTP 500 error. */
  function HostCheckSpec(query: map<string, Value>, connect: (string, int, int) -> ConnectResult): Reply {
    var host := SafeGet(Some(query), "host", Null);
    if !Truthy(host) then ServerError(HostNotSetText)
    else Json(ProbeResponse(ToText(host), connect))
  }

  /** The ports of a list of probes, in order. */
  function Ports(probes: seq<ProbePort>): (ports: seq<int>)
    ensures |ports| == |probes| && forall j | 0 <= j < |probes| :: ports[j] == probes[j].port
  {
    if probes == [] then [] else [probes[0].port] + Ports(probes[1..])
  }

  /** The ports fsockopen is called on: up to and including the first open one, or all of them. */
  function PortsTried(host: string, connect: (string, int, int) -> ConnectResult): seq<int> {
    match FirstOpen(host, connect, HostCheckPorts)
    case Some(k) => Ports(HostCheckPorts[..k + 1])
    case None => Ports(HostCheckPorts)
  }

  /** The port whose connection fclose closes: the first open one, if any. */
  function PortsClosed(host: string, connect: (string, int, int) -> ConnectResult): seq<int> {
    match FirstOpen(host, connect, HostCheckPorts)
    case Some(k) => [HostCheckPorts[k].port]
    case None => []
  }

  /**
   * The HOST.CHECK block as the source writes it: a foreach over the ports that
   * breaks at the top of the iteration after a success, and updates the reply
   * map in place on every attempt. tried records the ports probed and closed
   * the ports whose connection is closed again.
   */
  method CheckHost(query: map<string, Value>, connect: (string, int, int) -> ConnectResult)
    returns (reply: Reply, ghost tried: seq<int>, ghost closed: seq<int>)
    ensures reply == HostCheckSpec(query, connect)
    ensures reply.Json? ==> tried == PortsTried(ToText(SafeGet(Some(query), "host", Null)), connect)
    ensures reply.Json? ==> closed == PortsClosed(ToText(SafeGet(Some(query), "host", Null)), connect)
    ensures reply.ServerError? ==> tried == [] && closed == []
  {
    tried, closed := [], [];
    var hostValue := SafeGet(Some(query), "host", Null);
    if !Truthy(hostValue) {
      reply := ServerError(HostNotSetText);
      return;
    }
    var host := ToText(hostValue);
    var responseData: map<string, Value> := map["error" := Bool(false), "isUp" := Bool(false)];
    for i := 0 to |HostCheckPorts|
      invariant "isUp" in responseData
      invariant tried == Ports(HostCheckPorts[..i])
      invariant closed == if i > 0 && Truthy(responseData["isUp"]) then [HostCheckPorts[i - 1].port] else []
      invariant forall j | 0 <= j < i - 1 :: Attempt(host, connect, HostCheckPorts[j]).Refused?
      invariant Truthy(responseData["isUp"]) ==>
        && i > 0
        && Attempt(host, connect, HostCheckPorts[i - 1]).Connected?
        && responseData == UpBody(HostCheckPorts[i - 1].info)
      invariant !Truthy(responseData["isUp"]) ==>
        && (i > 0 ==> Attempt(host, connect, HostCheckPorts[i - 1]).Refused?)
        && (i == 0 ==> responseData == map["error" := Bool(false), "isUp" := Bool(false)])
        && (i > 0 ==>
              var failed := Attempt(host, connect, HostCheckPorts[i - 1]);
              responseData == DownBody(failed.errCode, failed.errStr, HostCheckPorts[i - 1].port))
    {
      if Truthy(responseData["isUp"]) {
        break;
      }
      var probe := HostCheckPorts[i];
      assert HostCheckPorts[..i + 1] == HostCheckPorts[..i] + [probe];
      PortsAppend(HostCheckPorts[..i], probe);
      tried := tried + [probe.port];
      var fp := connect(host, probe.port, WaitTimeoutInSeconds);
      if fp.Connected? {
        closed := closed + [probe.port];
      }
      responseData := RecordAttempt(responseData, probe, fp);
    }
    if Truthy(responseData["isUp"]) {
      ghost var k := |tried| - 1;
      FirstOpenAt(host, connect, HostCheckPorts, k);
    } else {
      assert HostCheckPorts[..|HostCheckPorts|] == HostCheckPorts;
    }
    reply := Json(responseData);
  }

  /** A reply map before any success: only the keys a refusal writes, with error false. */
  predicate IsDownBody(r: map<string, Value>) {
    && r.Keys <= {"error", "isUp", "errCode", "errStr", "errorPort"}
    && "error" in r && r["error"] == Bool(false)
  }

  /**
   * One attempt's updates to the reply map: a connection overwrites isUp, info
   * and the three error fields; a refusal overwrites isUp and the error fields.
   */
  method RecordAttempt(responseData: map<string, Value>, probe: ProbePort, fp: ConnectResult)
    returns (updated: map<string, Value>)
    requires IsDownBody(responseData)
    ensures fp.Connected? ==> updated == UpBody(probe.info)
    ensures fp.Refused? ==> updated == DownBody(fp.errCode, fp.errStr, probe.port)
  {
    updated := responseData;
    if fp.Connected? {
      updated := updated["isUp" := Bool(true)];
      updated := updated["info" := Str(probe.info)];
      updated := updated["errCode" := Str("")];
      updated := updated["errStr" := Str("")];
      updated := updated["errorPort" := Str("")];
    } else {
      updated := updated["isUp" := Bool(false)];
      updated := updated["errCode" := Int(fp.errCode)];
      updated := updated["errStr" := Str(fp.errStr)];
      updated := updated["errorPort" := Int(probe.port)];
    }
  }

  lemma PortsAppend(probes: seq<ProbePort>, p: ProbePort)
    ensures Ports(probes + [p]) == Ports(probes) + [p.port]
  {
  }

  // ---------------------------------------------------------------------------
  // Properties of the reply

  /** The host is reported up exactly when some probe port accepts a connection. */
  lemma IsUpIffSomePortOpen(host: string, connect: (string, int, int) -> ConnectResult)
    ensures "isUp" in ProbeResponse(host, connect) && "error" in ProbeResponse(host, connect)
    ensures ProbeResponse(host, connect)["error"] == Bool(false)
    ensures ProbeResponse(host, connect)["isUp"] == Bool(true) <==>
      exists j | 0 <= j < |HostCheckPorts| :: Attempt(host, connect, HostCheckPorts[j]).Connected?
    ensures ProbeResponse(host, connect)["isUp"] == Bool(true) || ProbeResponse(host, connect)["isUp"] == Bool(false)
  {
    if FirstOpen(host, connect, HostCheckPorts).Some? {
      var k := FirstOpen(host, connect, HostCheckPorts).value;
      assert Attempt(host, connect, HostCheckPorts[k]).Connected?;
    }
  }

  /** An up host names the first port of the list that accepted, with blank error fields. */
  lemma UpNamesFirstOpenPort(host: string, connect: (string, int, int) -> ConnectResult, k: nat)
    requires k < |HostCheckPorts| && Attempt(host, connect, HostCheckPorts[k]).Connected?
    requires forall j | 0 <= j < k :: Attempt(host, connect, HostCheckPorts[j]).Refused?
    ensures ProbeResponse(host, connect) == UpBody(HostCheckPorts[k].info)
    ensures PortsTried(host, connect) == Ports(HostCheckPorts[..k + 1])
  {
    FirstOpenAt(host, connect, HostCheckPorts, k);
  }

  /** A down host reports only the last attempt, on port 443, and names no service. */
  lemma DownReportsLastAttempt(host: string, connect: (string, int, int) -> ConnectResult)
    requires forall j | 0 <= j < |HostCheckPorts| :: Attempt(host, connect, HostCheckPorts[j]).Refused?
    ensures var r := ProbeResponse(host, connect);
      var failed := connect(host, 443, WaitTimeoutInSeconds);
      && failed.Refused?
      && r == DownBody(failed.errCode, failed.errStr, 443)
      && "info" !in r
    ensures PortsTried(host, connect) == [3389, 22, 80, 443]
  {
    assert Attempt(host, connect, HostCheckPorts[3]).Refused?;
  }

  /** The request is refused exactly when the host parameter is missing, null or falsy. */
  lemma MissingHostRejected(query: map<string, Value>, connect: (string, int, int) -> ConnectResult)
    ensures HostCheckSpec(query, connect).ServerError? <==> "host" !in query || !Truthy(query["host"])
    ensures HostCheckSpec(query, connect).ServerError? ==> HostCheckSpec(query, connect).text == HostNotSetText
  {
  }
}
