/**
 * wakeOnLan: check the platform, validate and normalise the MAC, build the magic
 * packet, resolve the target, switch to the subnet broadcast address when a CIDR
 * prefix is given, validate the port and send one UDP datagram. Every stage after
 * the first runs only while no error has been recorded, so the first failing
 * stage decides the result.
 *
 * The operating system and PHP runtime enter as oracles: a Platform (extension
 * and transport lists, socket_strerror) and a Network (the IPv4-literal test,
 * gethostbyname and the outcomes of the socket calls).
 */
module WakeOnLan {
  import opened Results
  import opened PhpStrings
  import opened Mac
  import opened Packet
  import opened Ipv4

  /** What wakeOnLan learns from the PHP runtime. */
  datatype Platform = Platform(
    socketsExtensionLoaded: bool,  // extension_loaded('sockets')
    transports: seq<string>,       // stream_get_transports()
    socketCreateExists: bool,      // function_exists('socket_create')
    strerror: int -> string)       // socket_strerror

  /** One UDP datagram: the payload, the destination host and the port exactly as passed to socket_sendto. */
  datatype Datagram = Datagram(payload: seq<byte>, host: string, port: Option<int>)

  /** What wakeOnLan learns from the network stack. */
  datatype Network = Network(
    isIpv4: string -> bool,            // filter_var(..., FILTER_VALIDATE_IP, FILTER_FLAG_IPV4) succeeds
    gethostbyname: string -> string,   // returns its argument unchanged when it cannot resolve it
    socketCreated: bool,               // socket_create(AF_INET, SOCK_DGRAM, SOL_UDP) gives a socket
    lastError: int,                    // socket_last_error() after a failed socket_create
    broadcastEnabled: bool,            // socket_set_option(..., SO_BROADCAST, true) succeeds
    sendTo: Datagram -> bool)          // socket_sendto reports a non-zero byte count

  /** The error strings wakeOnLan can return, one constructor per assignment to $wolResult. */
  datatype WolError =
    | SocketsExtensionMissing
    | UdpUnsupported
    | InvalidMac(mac: string)
    | CannotResolve(host: string)
    | InvalidCidr(cidr: int)
    | InvalidPort(port: int)
    | SocketCreateFailed(errno: int, text: string)
    | SetOptionFailed(text: string)
    | SendFailed(text: string)
    | NoSocketApi

  /** The string wakeOnLan returns for each error: "Error: " and then the detail. */
  function Message(e: WolError): string {
    "Error: " + Detail(e)
  }

  // The fixed parts of the error strings, word for word (including the source's "Tranport").
  const ExtensionMissingText := "Extension <strong>php_sockets</strong> is not loaded! You need to enable it in <strong>php.ini</strong>"
  const UdpMissingText := "Cannot send magic packet! Tranport UDP is not supported on this system."
  const InvalidMacText := "Invalid MAC-address: "
  const CannotResolveText := "Cannot resolve hostname \""
  const InvalidCidrText := "Invalid subnet size of "
  const CidrRangeText := ". CIDR must be between 0 and 32."
  const InvalidPortText := "Invalid port value of "
  const PortRangeText := ". Port must between 1 and 65535."
  const NoSocketApiText := "Cannot send magic packet. Neither fsockopen() nor socket_create() is available on this system."

  function Detail(e: WolError): string {
    match e
    case SocketsExtensionMissing => ExtensionMissingText
    case UdpUnsupported => UdpMissingText
    case InvalidMac(mac) => InvalidMacText + mac
    case CannotResolve(host) => CannotResolveText + host + "\"."
    case InvalidCidr(cidr) => InvalidCidrText + IntToDecimal(cidr) + CidrRangeText
    case InvalidPort(port) => InvalidPortText + IntToDecimal(port) + PortRangeText
    case SocketCreateFailed(errno, text) => IntToDecimal(errno) + " - " + text
    case SetOptionFailed(text) => text
    case SendFailed(text) => text
    case NoSocketApi => NoSocketApiText
  }

  /**
   * Every error string starts with "Error: ", so it is a truthy PHP value and the
   * `!$wolResult` guards of the later stages are false once it is stored.
   */
  lemma MessageIsTruthy(e: WolError)
    ensures |Message(e)| >= 7 && Message(e)[..7] == "Error: "
    ensures Message(e) != "" && Message(e) != "0"
  {
    ErrorPrefix(Detail(e));
  }

  lemma ErrorPrefix(detail: string)
    ensures |"Error: " + detail| >= 7 && ("Error: " + detail)[..7] == "Error: "
    ensures ("Error: " + detail)[0] == 'E'
  {
  }

  /** Errors raised by the socket stage, which the source logs to a different array than $debugOut. */
  predicate IsSocketError(e: WolError) {
    e.SocketCreateFailed? || e.SetOptionFailed? || e.SendFailed?
  }

  /** The socket API calls wakeOnLan makes, in order. */
  datatype SocketCall = Create | EnableBroadcast | SendTo(datagram: Datagram) | Close

  // ---------------------------------------------------------------------------
  // The capability checks

  /** array_search(needle, haystack): the index of the first equal element, or None (PHP's false). */
  function ArraySearch(needle: string, haystack: seq<string>): (r: Option<nat>)
    ensures r.Some? ==> r.value < |haystack| && haystack[r.value] == needle && needle !in haystack[..r.value]
    ensures r.None? ==> needle !in haystack
  {
    if haystack == [] then None
    else if haystack[0] == needle then Some(0)
    else
      match ArraySearch(needle, haystack[1..])
      case None => None
      case Some(i) =>
        assert haystack[..i + 1] == [haystack[0]] + haystack[1..][..i];
        Some(i + 1)
  }

  /** `!array_search('udp', stream_get_transports())`: PHP reads the index 0 as false. */
  predicate UdpCheckFails(transports: seq<string>) {
    var k := ArraySearch("udp", transports);
    k.None? || k.value == 0
  }

  /** The UDP check refuses a platform without "udp" and also one that lists "udp" first. */
  lemma UdpCheckFailsIff(transports: seq<string>)
    ensures UdpCheckFails(transports) <==> "udp" !in transports || transports[0] == "udp"
  {
  }

  // ---------------------------------------------------------------------------
  // The stages as functions: the specification of the method below

  /**
   * The two capability checks together. The UDP check is not guarded by
   * `!$wolResult`, so its error replaces a missing-extension error.
   */
  function CheckCapabilities(platform: Platform): Result<bool, WolError> {
    if UdpCheckFails(platform.transports) then Err(UdpUnsupported)
    else if !platform.socketsExtensionLoaded then Err(SocketsExtensionMissing)
    else Ok(true)
  }

  /** The normalised MAC text when it has the shape HH-HH-HH-HH-HH-HH, else the invalid-MAC error. */
  function ValidateMac(mac: string): Result<string, WolError> {
    var normalised := Normalize(mac);
    if MacShape(normalised) then Ok(normalised) else Err(InvalidMac(normalised))
  }

  /** The address the send goes to before any CIDR is applied. */
  function Resolved(ip: string, net: Network): string {
    if net.isIpv4(ip) then ip else net.gethostbyname(ip)
  }

  /** A literal IPv4 target is kept; a name must resolve to something other than itself. */
  function ResolveTarget(ip: string, net: Network): Result<string, WolError> {
    if net.isIpv4(ip) then Ok(ip)
    else if net.gethostbyname(ip) == ip then Err(CannotResolve(ip))
    else Ok(net.gethostbyname(ip))
  }

  /** ip2long($ip) used as an integer: PHP's false becomes 0. */
  function IpValue(ip: string): nat {
    match Ip2Long(ip)
    case Some(v) => v
    case None => 0
  }

  /** With a prefix length in 0..32 the target becomes the subnet's broadcast address. */
  function ApplyCidr(ip: string, cidr: Option<int>): Result<string, WolError> {
    match cidr
    case None => Ok(ip)
    case Some(c) =>
      if c < 0 || c > 32 then Err(InvalidCidr(c))
      else Ok(Long2Ip(BroadcastAddress(IpValue(ip), c)))
  }

  /** A given port must lie in 0..65535; an absent port is passed on as absent. */
  function ValidatePort(port: Option<int>): Result<Option<int>, WolError> {
    match port
    case None => Ok(None)
    case Some(p) => if p < 0 || p > 65535 then Err(InvalidPort(p)) else Ok(Some(p))
  }

  /**
   * The socket stage. A failed socket_set_option reports socket_strerror(false),
   * that is strerror(0); a failed send reports socket_strerror($socketResult),
   * which is strerror(1) because $socketResult is true at that point. An absent
   * port reaches socket_sendto as the empty string, which its integer port
   * parameter refuses: the call returns NULL and counts as a failed send.
   */
  function Transmit(d: Datagram, platform: Platform, net: Network): Result<bool, WolError> {
    if !platform.socketCreateExists then Err(NoSocketApi)
    else if !net.socketCreated then Err(SocketCreateFailed(net.lastError, platform.strerror(net.lastError)))
    else if !net.broadcastEnabled then Err(SetOptionFailed(platform.strerror(0)))
    else if d.port.None? || !net.sendTo(d) then Err(SendFailed(platform.strerror(1)))
    else Ok(true)
  }

  /** Everything before the socket stage: the datagram to send, or the first validation error. */
  function Prepared(mac: string, ip: string, cidr: Option<int>, port: Option<int>,
                    platform: Platform, net: Network): Result<Datagram, WolError>
  {
    var capable :- CheckCapabilities(platform);
    var normalised :- ValidateMac(mac);
    var resolved :- ResolveTarget(ip, net);
    var target :- ApplyCidr(resolved, cidr);
    var checkedPort :- ValidatePort(port);
    Ok(Datagram(MagicPacket(HwAddress(Groups(normalised))), target, checkedPort))
  }

  /** The whole request: the datagram sent, or the error of the first failing stage. */
  function WakeOnLanSpec(mac: string, ip: string, cidr: Option<int>, port: Option<int>,
                         platform: Platform, net: Network): Result<Datagram, WolError>
  {
    var d :- Prepared(mac, ip, cidr, port, platform, net);
    var sent :- Transmit(d, platform, net);
    Ok(d)
  }

  /** The error a stage result carries, if any: what $wolResult holds after that stage. */
  function ErrorOf<T>(r: Result<T, WolError>): Option<WolError> {
    match r
    case Ok(_) => None
    case Err(e) => Some(e)
  }

  /** The chain up to and including the MAC check. */
  function UpToMac(mac: string, platform: Platform): Result<string, WolError> {
    var capable :- CheckCapabilities(platform);
    ValidateMac(mac)
  }

  /** The chain up to and including the CIDR step: the send target. */
  function UpToCidr(mac: string, ip: string, cidr: Option<int>, platform: Platform, net: Network)
    : Result<string, WolError>
  {
    var normalised :- UpToMac(mac, platform);
    var resolved :- ResolveTarget(ip, net);
    ApplyCidr(resolved, cidr)
  }

  // ---------------------------------------------------------------------------
  // The imperative function

  /** PHP's string form of an optional parameter: "" when absent. */
  function OptionalText(v: Option<int>): string {
    match v
    case None => ""
    case Some(i) => IntToDecimal(i)
  }

  /** The first entry of the debug output. */
  function CallEntry(mac: string, ip: string, cidr: Option<int>, port: Option<int>): string {
    "wakeupOnLan('" + mac + "', '" + ip + "', '" + OptionalText(cidr) + "', '" + OptionalText(port) + "' );"
  }

  /**
   * The debug output ends with the stored error, except for the errors of the
   * socket stage, which the source appends to the unrelated array $debug.
   */
  predicate Logged(wolResult: Option<WolError>, debugOut: seq<string>) {
    wolResult.Some? && !IsSocketError(wolResult.value) ==>
      |debugOut| > 0 && debugOut[|debugOut| - 1] == Message(wolResult.value)
  }

  /** The two capability checks; the second is not guarded and can overwrite the first's error. */
  method CapabilityStage(wolResult: Option<WolError>, debugOut: seq<string>, platform: Platform)
    returns (result: Option<WolError>, trace: seq<string>)
    ensures debugOut <= trace
    ensures wolResult.None? ==> result == ErrorOf(CheckCapabilities(platform))
    ensures wolResult.Some? ==> result == if UdpCheckFails(platform.transports) then Some(UdpUnsupported) else wolResult
    ensures Logged(wolResult, debugOut) ==> Logged(result, trace)
  {
    result, trace := wolResult, debugOut;
    if result.None? && !platform.socketsExtensionLoaded {
      result := Some(SocketsExtensionMissing);
      trace := trace + [Message(result.value)];
    }
    if UdpCheckFails(platform.transports) {
      result := Some(UdpUnsupported);
      trace := trace + [Message(result.value)];
    }
  }

  /** Normalise the MAC and test it against the pattern and the length. */
  method MacStage(wolResult: Option<WolError>, debugOut: seq<string>, mac: string)
    returns (result: Option<WolError>, trace: seq<string>, macText: string)
    ensures debugOut <= trace
    ensures wolResult.Some? ==> result == wolResult && trace == debugOut && macText == mac
    ensures wolResult.None? ==> result == ErrorOf(ValidateMac(mac)) && macText == Normalize(mac)
    ensures Logged(wolResult, debugOut) ==> Logged(result, trace)
  {
    result, trace, macText := wolResult, debugOut, mac;
    if result.None? {
      macText := Normalize(macText);
      trace := trace + ["MAC = " + macText];
      AcceptedIffShape(macText);
      if !SearchFrom(macText, 0) || |macText| != MacTextLength {
        result := Some(InvalidMac(macText));
        trace := trace + [Message(result.value)];
      }
    }
  }

  /** Append sixteen copies of the decoded hardware address to the packet. */
  method PacketStage(wolResult: Option<WolError>, debugOut: seq<string>, packet: seq<byte>, macText: string)
    returns (trace: seq<string>, magicPacket: seq<byte>)
    ensures debugOut <= trace
    ensures wolResult.Some? ==> trace == debugOut && magicPacket == packet
    ensures wolResult.None? ==> magicPacket == packet + Repeat(HwAddress(Groups(macText)), Copies)
    ensures Logged(wolResult, debugOut) ==> Logged(wolResult, trace)
  {
    trace, magicPacket := debugOut, packet;
    if wolResult.None? {
      trace := trace + ["Creating the magic paket"];
      var hwAddress := DecodeHwAddress(macText);
      magicPacket := magicPacket + Repeat(hwAddress, Copies);
    }
  }

  /** Resolve a target that is not an IPv4 literal; resolution fails when the name comes back unchanged. */
  method ResolveStage(wolResult: Option<WolError>, debugOut: seq<string>, ip: string, net: Network)
    returns (result: Option<WolError>, trace: seq<string>, target: string)
    ensures debugOut <= trace
    ensures wolResult.Some? ==> result == wolResult && trace == debugOut && target == ip
    ensures wolResult.None? ==> result == ErrorOf(ResolveTarget(ip, net))
    ensures wolResult.None? && result.None? ==> target == ResolveTarget(ip, net).value
    ensures result.Some? ==> target == ip
    ensures Logged(wolResult, debugOut) ==> Logged(result, trace)
  {
    result, trace, target := wolResult, debugOut, ip;
    if result.None? && !net.isIpv4(target) {
      trace := trace + ["Resolving host :" + target];
      var tmpIp := net.gethostbyname(target);
      if target == tmpIp {
        result := Some(CannotResolve(target));
        trace := trace + [Message(result.value)];
      } else {
        target := tmpIp;
      }
    }
  }

  /** With a CIDR prefix, check 0..32 and replace the target by the broadcast address. */
  method CidrStage(wolResult: Option<WolError>, debugOut: seq<string>, ip: string, cidr: Option<int>)
    returns (result: Option<WolError>, trace: seq<string>, target: string)
    ensures debugOut <= trace
    ensures wolResult.Some? ==> result == wolResult && trace == debugOut && target == ip
    ensures wolResult.None? ==> result == ErrorOf(ApplyCidr(ip, cidr))
    ensures wolResult.None? && result.None? ==> target == ApplyCidr(ip, cidr).value
    ensures result.Some? ==> target == ip
    ensures Logged(wolResult, debugOut) ==> Logged(result, trace)
  {
    result, trace, target := wolResult, debugOut, ip;
    if result.None? && cidr.Some? {
      var prefix := cidr.value;
      trace := trace + ["CIDR is set to " + IntToDecimal(prefix) + ". Will use broadcast address."];
      if prefix < 0 || prefix > 32 {
        result := Some(InvalidCidr(prefix));
        trace := trace + [Message(result.value)];
      } else {
        var entries;
        entries, target := SubnetBroadcast(IpValue(target), prefix);
        trace := trace + entries;
      }
    }
  }

  /**
   * The mask arithmetic of the CIDR block: the broadcast address as dotted-quad
   * text, and the four debug lines that show the intermediate values.
   */
  method SubnetBroadcast(ipValue: nat, prefix: nat) returns (entries: seq<string>, target: string)
    requires prefix <= 32
    ensures |entries| == 4
    ensures target == Long2Ip(BroadcastAddress(ipValue, prefix))
  {
    var hostBits := 32 - prefix;
    var netMask := -(Pow2(hostBits) as int);                     // -1 << (32 - cidr)
    var networkAddress := ClearLowBits(ipValue, hostBits);    // ip2long($ip) & $netMask
    var networkSize := Pow2(hostBits);
    var broadcastAddress := networkAddress + networkSize - 1;
    assert broadcastAddress == BroadcastAddress(ipValue, prefix);
    target := Long2Ip(broadcastAddress);
    entries := ["$netMask = " + Long2Ip(netMask),
                "$networkAddress = " + Long2Ip(networkAddress),
                "$networkSize = " + NatToDecimal(networkSize),
                "$broadcastAddress = " + target];
  }

  /** A given port must lie in 0..65535. */
  method PortStage(wolResult: Option<WolError>, debugOut: seq<string>, port: Option<int>)
    returns (result: Option<WolError>, trace: seq<string>)
    ensures debugOut <= trace
    ensures wolResult.Some? ==> result == wolResult && trace == debugOut
    ensures wolResult.None? ==> result == ErrorOf(ValidatePort(port))
    ensures Logged(wolResult, debugOut) ==> Logged(result, trace)
  {
    result, trace := wolResult, debugOut;
    if result.None? && port.Some? {
      if port.value < 0 || port.value > 65535 {
        result := Some(InvalidPort(port.value));
        trace := trace + [Message(result.value)];
      }
    }
  }

  /**
   * Create the socket, enable broadcast, send, and close the socket whenever one
   * was created; socketCalls records the calls made.
   */
  method SocketStage(wolResult: Option<WolError>, debugOut: seq<string>, d: Datagram,
                     platform: Platform, net: Network)
    returns (result: Option<WolError>, trace: seq<string>, ghost socketCalls: seq<SocketCall>)
    ensures debugOut <= trace
    ensures wolResult.Some? ==> result == wolResult && trace == debugOut && socketCalls == []
    ensures wolResult.None? ==> result == ErrorOf(Transmit(d, platform, net))
    ensures wolResult.None? && result.None? ==> socketCalls == [Create, EnableBroadcast, SendTo(d), Close]
    ensures socketCalls != [] ==> socketCalls[0] == Create
    ensures net.socketCreated && socketCalls != [] ==> socketCalls[|socketCalls| - 1] == Close
    ensures Logged(wolResult, debugOut) ==> Logged(result, trace)
  {
    result, trace, socketCalls := wolResult, debugOut, [];
    if result.None? && platform.socketCreateExists {
      var socket := net.socketCreated;
      socketCalls := socketCalls + [Create];
      if !socket {
        var errno := net.lastError;
        result := Some(SocketCreateFailed(errno, platform.strerror(errno)));
      }
      if result.None? {
        socketCalls := socketCalls + [EnableBroadcast];
        if !net.broadcastEnabled {
          result := Some(SetOptionFailed(platform.strerror(0)));
        }
      }
      if result.None? {
        socketCalls := socketCalls + [SendTo(d)];
        if d.port.None? || !net.sendTo(d) {
          result := Some(SendFailed(platform.strerror(1)));
        }
      }
      if socket {
        socketCalls := socketCalls + [Close];
      }
    } else if result.None? {
      result := Some(NoSocketApi);
      trace := trace + [Message(result.value)];
    }
  }

  /**
   * The guarded blocks before the socket stage, starting from "no error": they
   * leave the first validation error, or the datagram the socket stage sends.
   */
  method PrepareRequest(debugOut: seq<string>, mac: string, ip: string, cidr: Option<int>, port: Option<int>,
                        platform: Platform, net: Network)
    returns (wolResult: Option<WolError>, trace: seq<string>, d: Datagram)
    ensures debugOut <= trace
    ensures wolResult == ErrorOf(Prepared(mac, ip, cidr, port, platform, net))
    ensures wolResult.None? ==> d == Prepared(mac, ip, cidr, port, platform, net).value
    ensures Logged(wolResult, trace)
  {
    var magicPacket := SyncPrefix();
    wolResult, trace := CapabilityStage(None, debugOut, platform);
    var macText;
    wolResult, trace, macText := MacStage(wolResult, trace, mac);
    assert wolResult == ErrorOf(UpToMac(mac, platform));
    assert wolResult.None? ==> macText == UpToMac(mac, platform).value;
    trace, magicPacket := PacketStage(wolResult, trace, magicPacket, macText);
    var target;
    wolResult, trace, target := ResolveStage(wolResult, trace, ip, net);
    wolResult, trace, target := CidrStage(wolResult, trace, target, cidr);
    assert wolResult == ErrorOf(UpToCidr(mac, ip, cidr, platform, net));
    assert wolResult.None? ==> target == UpToCidr(mac, ip, cidr, platform, net).value;
    wolResult, trace := PortStage(wolResult, trace, port);
    d := Datagram(magicPacket, target, port);
  }

  /**
   * wakeOnLan as the source writes it: $wolResult starts as "no error", each
   * guarded block runs only while it is still unset, and the MAC, the target
   * and the packet are overwritten block by block. The result is the datagram
   * sent, or the error wakeOnLan returns as a string (Message).
   */
  method WakeOnLan(mac: string, ip: string, cidr: Option<int>, port: Option<int>,
                   platform: Platform, net: Network)
    returns (outcome: Result<Datagram, WolError>, debugOut: seq<string>, ghost socketCalls: seq<SocketCall>)
    ensures outcome == WakeOnLanSpec(mac, ip, cidr, port, platform, net)
    ensures |debugOut| >= 1 && debugOut[0] == CallEntry(mac, ip, cidr, port)
    ensures outcome.Ok? ==> debugOut[|debugOut| - 1] == "Done."
    ensures outcome.Err? && !IsSocketError(outcome.error) ==> debugOut[|debugOut| - 1] == Message(outcome.error)
    ensures outcome.Ok? ==> socketCalls == [Create, EnableBroadcast, SendTo(outcome.value), Close]
    ensures Prepared(mac, ip, cidr, port, platform, net).Err? ==> socketCalls == []
    ensures socketCalls != [] ==> socketCalls[0] == Create
    ensures net.socketCreated && socketCalls != [] ==> socketCalls[|socketCalls| - 1] == Close
  {
    var start := [CallEntry(mac, ip, cidr, port)];
    var wolResult, d;
    wolResult, debugOut, d := PrepareRequest(start, mac, ip, cidr, port, platform, net);
    wolResult, debugOut, socketCalls := SocketStage(wolResult, debugOut, d, platform, net);
    if wolResult.None? {
      debugOut := debugOut + ["Done."];
    }
    assert start <= debugOut;
    outcome := if wolResult.None? then Ok(d) else Err(wolResult.value);
  }

  // ---------------------------------------------------------------------------
  // Properties of the specification

  /**
   * The first failing stage decides the error, in the order the source runs
   * them; nothing after it matters.
   */
  lemma FirstErrorWins(mac: string, ip: string, cidr: Option<int>, port: Option<int>,
                       platform: Platform, net: Network)
    ensures var r := WakeOnLanSpec(mac, ip, cidr, port, platform, net);
      && (UdpCheckFails(platform.transports) ==> r == Err(UdpUnsupported))
      && (!UdpCheckFails(platform.transports) && !platform.socketsExtensionLoaded ==> r == Err(SocketsExtensionMissing))
      && (CheckCapabilities(platform).Ok? && !MacShape(Normalize(mac)) ==> r == Err(InvalidMac(Normalize(mac))))
      && ((CheckCapabilities(platform).Ok? && MacShape(Normalize(mac)) && !net.isIpv4(ip)
           && net.gethostbyname(ip) == ip) ==> r == Err(CannotResolve(ip)))
      && ((CheckCapabilities(platform).Ok? && MacShape(Normalize(mac)) && ResolveTarget(ip, net).Ok?
           && cidr.Some? && (cidr.value < 0 || cidr.value > 32)) ==> r == Err(InvalidCidr(cidr.value)))
      && ((CheckCapabilities(platform).Ok? && MacShape(Normalize(mac)) && ResolveTarget(ip, net).Ok?
           && ApplyCidr(Resolved(ip, net), cidr).Ok?
           && port.Some? && (port.value < 0 || port.value > 65535)) ==> r == Err(InvalidPort(port.value)))
      && (Prepared(mac, ip, cidr, port, platform, net).Ok? && !platform.socketCreateExists ==> r == Err(NoSocketApi))
  {
  }

  /** The request fails iff some stage fails: every validation passing and the socket calls succeeding is exactly success. */
  lemma SucceedsIffNoStageFails(mac: string, ip: string, cidr: Option<int>, port: Option<int>,
                                platform: Platform, net: Network)
    ensures WakeOnLanSpec(mac, ip, cidr, port, platform, net).Ok? <==>
      && !UdpCheckFails(platform.transports)
      && platform.socketsExtensionLoaded
      && MacShape(Normalize(mac))
      && (net.isIpv4(ip) || net.gethostbyname(ip) != ip)
      && (cidr.None? || 0 <= cidr.value <= 32)
      && port.Some? && 0 <= port.value <= 65535
      && platform.socketCreateExists && net.socketCreated && net.broadcastEnabled
      && net.sendTo(Datagram(MagicPacket(HwAddress(Groups(Normalize(mac)))),
                             ApplyCidr(Resolved(ip, net), cidr).value, port))
  {
  }

  /**
   * Without a port no packet is ever sent: once every earlier step succeeds the
   * send itself fails and reports strerror(1).
   */
  lemma AbsentPortNeverSends(mac: string, ip: string, cidr: Option<int>,
                             platform: Platform, net: Network)
    ensures WakeOnLanSpec(mac, ip, cidr, None, platform, net).Err?
    ensures (Prepared(mac, ip, cidr, None, platform, net).Ok? && platform.socketCreateExists
             && net.socketCreated && net.broadcastEnabled) ==>
      WakeOnLanSpec(mac, ip, cidr, None, platform, net) == Err(SendFailed(platform.strerror(1)))
  {
  }

  /**
   * host is the broadcast address of the subnet of resolved under prefix c: it
   * parses as IPv4, keeps the c prefix bits of resolved and has every host bit set.
   */
  predicate IsBroadcastOf(host: string, resolved: string, c: int) {
    && 0 <= c <= 32
    && Ip2Long(host).Some?
    && var k := 32 - c;
       && Ip2Long(host).value / Pow2(k) == IpValue(resolved) / Pow2(k)
       && Ip2Long(host).value % Pow2(k) == Pow2(k) - 1
  }

  /** The CIDR step, for a prefix in range, produces the broadcast address of the target's subnet. */
  lemma BroadcastTarget(resolved: string, c: int)
    requires 0 <= c <= 32
    ensures ApplyCidr(resolved, Some(c)).Ok?
    ensures IsBroadcastOf(ApplyCidr(resolved, Some(c)).value, resolved, c)
  {
    var ipLong := IpValue(resolved);
    assert ipLong < AddressSpace by {
      if Ip2Long(resolved).Some? {
        Ip2LongRoundTrip(resolved);
      }
    }
    BroadcastKeepsPrefix(ipLong, c);
    Long2IpRoundTrip(BroadcastAddress(ipLong, c));
  }

  /**
   * A successful request sends the magic packet of the normalised MAC (whose
   * bytes PacketOfAcceptedMac describes), to the resolved address or, with a
   * CIDR prefix, to the broadcast address of its subnet, on the port exactly as
   * given, which a successful request always has.
   */
  lemma SentDatagram(mac: string, ip: string, cidr: Option<int>, port: Option<int>,
                     platform: Platform, net: Network)
    requires WakeOnLanSpec(mac, ip, cidr, port, platform, net).Ok?
    ensures var d := WakeOnLanSpec(mac, ip, cidr, port, platform, net).value;
      && MacShape(Normalize(mac))
      && d.payload == MagicPacket(HwAddress(Groups(Normalize(mac))))
      && port.Some? && d.port == port
      && (cidr.None? ==> d.host == Resolved(ip, net))
      && (cidr.Some? ==> IsBroadcastOf(d.host, Resolved(ip, net), cidr.value))
  {
    if cidr.Some? {
      BroadcastTarget(Resolved(ip, net), cidr.value);
    }
  }

  /** Spellings that normalise alike (colons or hyphens, any case) give the same request outcome. */
  lemma SpellingsWakeAlike(mac1: string, mac2: string, ip: string, cidr: Option<int>, port: Option<int>,
                           platform: Platform, net: Network)
    requires Normalize(mac1) == Normalize(mac2)
    ensures WakeOnLanSpec(mac1, ip, cidr, port, platform, net) == WakeOnLanSpec(mac2, ip, cidr, port, platform, net)
  {
  }
}
