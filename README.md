# wake-on-lan.php in Dafny

A model of the core of PHPWOL, a single PHP script that sends Wake-on-LAN
magic packets. It covers three parts of that script:

- `wakeOnLan($mac, $ip, $cidr, $port, &$debugOut)`. It runs these guarded blocks in order:
  1. checks that the platform has sockets and UDP;
  2. normalises and validates the MAC address;
  3. builds the 102-byte magic packet;
  4. resolves the target;
  5. replaces the target by the subnet broadcast address when a CIDR prefix length is given;
  6. validates the port;
  7. sends a single UDP datagram.

  Each block runs only while `$wolResult` holds no error, so the first failing block decides the result.
- The `HOST.CHECK` request. It tries TCP connections to ports 3389, 22, 80 and 443 in that order and stops at the first one that accepts. It replies with JSON that reports the open port, or the error of the last attempt.
- `safeGet`, which reads request parameters.

Modules:

- `Results`: `Option` and `Result`.
- `PhpStrings`: the PHP built-ins the core relies on, as functions with their laws:
  - `strtoupper` and `str_replace` on characters;
  - `explode` and `implode`, with both round trips;
  - `str_repeat`;
  - decimal text and its value;
  - `hexdec`;
  - `chr`.
- `PhpValues`: PHP scalars, PHP truthiness, and `safeGet`.
- `Mac`: normalisation, the regular-expression and length check, and decoding into six bytes.
- `Packet`: the magic packet and the imperative decoding loop.
- `Ipv4`: `ip2long` and `long2ip` (with both round trips), and the netmask, network and broadcast arithmetic.
- `WakeOnLan`: the stages as functions, their composition `WakeOnLanSpec`, the imperative method `WakeOnLan` proved equal to it, and properties of the composition.
  - The source's guarded blocks become one small method each (`CapabilityStage` … `SocketStage`).
  - `PrepareRequest` runs the blocks before the socket calls.
  - Each method is proved against its own stage function.
- `HostCheck`: the probe loop as a method over an in-place reply map, proved against `ProbeResponse`, and its properties.

The PHP runtime and the operating system enter as oracles that are parameters of the model, not code:

- `extension_loaded`, `stream_get_transports`, `function_exists` and `socket_strerror` are fields of `Platform`.
- `filter_var(..., FILTER_VALIDATE_IP, FILTER_FLAG_IPV4)`, `gethostbyname`, and the outcomes of `socket_create`, `socket_last_error`, `socket_set_option` and `socket_sendto` are fields of `Network`.
- `fsockopen` is a `connect` function of host, port and timeout.

Behaviour as written, which the model keeps:

- **The UDP check.** It is `!array_search('udp', stream_get_transports())`, which also fails when "udp" is the first transport, because PHP reads index 0 as false (`UdpCheckFailsIff`). It is not guarded by `!$wolResult`, so its error overwrites a missing-extension error.
- **Error messages of the socket calls.**
  - The socket-stage errors go to the array `$debug`, not to `$debugOut`, so the debug output does not end with them.
  - A failed `socket_set_option` reports `socket_strerror(false)`, that is strerror(0).
  - A failed send reports `socket_strerror($socketResult)` while `$socketResult` is `true`, that is strerror(1).
- **Port range.** The port check accepts 0 although its message says the port must lie between 1 and 65535.
- **No default port.** The source substitutes no port, not even Wake-on-LAN's usual port 9. An absent port reaches `socket_sendto` as the empty string. The integer port parameter refuses it, so the call returns NULL and the request fails with the send error, strerror(1) (`AbsentPortNeverSends`).
- **Error texts.** The messages are reproduced word for word, including "Tranport" and the HTML markup. They are collected as the `...Text` constants in `WakeOnLan`.
- **Debug output.** The entries carry the source's texts without the `__LINE__ . ' : '` prefix.

## Model

| member | source | states |
|---|---|---|
| PhpValues.Truthy | wake-on-lan.php:249 | PHP's conversion to boolean, as `if(!$host)` and every `!$wolResult` guard apply it; TruthyScalars states which values are falsy |
| PhpValues.TruthyScalars | wake-on-lan.php:249 | a value is falsy iff it is null, false, 0, "" or "0" |
| PhpValues.SafeGet | wake-on-lan.php:169-171 | the stored value when the array exists and the key is set to a non-null value, the default otherwise; a null result only comes from a null default |
| PhpStrings.Explode | wake-on-lan.php:64 | explode: the texts between separators, always at least one piece; ImplodeExplode and ExplodeImplode state its round trips |
| PhpStrings.ImplodeExplode | wake-on-lan.php:64 | joining the pieces of explode with the separator gives back the text, and no piece contains the separator |
| PhpStrings.ExplodeImplode | wake-on-lan.php:64 | explode of the join of separator-free pieces gives back exactly those pieces |
| PhpStrings.ExplodeAtSeparator | wake-on-lan.php:64 | a separator-free head followed by the separator splits off as the first piece |
| PhpStrings.Repeat | wake-on-lan.php:67 | str_repeat: n copies of s one after another; RepeatAt states its length and where each element sits |
| PhpStrings.RepeatAt | wake-on-lan.php:67 | str_repeat(s, n) has length n·\|s\| and holds s[j] at position k·\|s\|+j for every copy k and offset j |
| PhpStrings.HexDec | wake-on-lan.php:65 | hexdec: the hex digits read most significant first, other characters skipped; HexDecPair states the two-digit case |
| PhpStrings.Chr | wake-on-lan.php:65 | chr: the byte n modulo 256 |
| PhpStrings.HexDecPair | wake-on-lan.php:65 | hexdec of two hex digits is 16·high + low and fits in a byte |
| PhpStrings.NatToDecimalValue | wake-on-lan.php:99-105 | the decimal text of n is canonical (digits, no leading zero) and reads back as n; values below 1000 take at most three digits |
| PhpStrings.DecimalValueToText | wake-on-lan.php:93 | a canonical decimal text is exactly the decimal text of its value |
| Mac.SearchFrom | wake-on-lan.php:54 | the unanchored preg_match, trying each start position in turn; SearchFromFinds states what it finds |
| Mac.SearchFromFinds | wake-on-lan.php:54 | the unanchored preg_match succeeds iff the pattern HH-HH-HH-HH-HH-HH matches at some position |
| Mac.AcceptedIffShape | wake-on-lan.php:54 | pattern found and length 17 together hold iff the whole text is six upper-case hex pairs joined by '-' |
| Mac.Normalize | wake-on-lan.php:51 | strtoupper, then ':' replaced by '-'; NormalizeIsCanonical and SpellingsNormaliseAlike state its laws |
| Mac.NormalizeIsCanonical | wake-on-lan.php:51 | normalising keeps the length, leaves no ':' and no lower-case letter, and is idempotent |
| Mac.SpellingsNormaliseAlike | wake-on-lan.php:51 | texts that differ only in letter case and in ':' against '-' normalise to the same text |
| Mac.DecodeAccepted | wake-on-lan.php:64-66 | an accepted MAC decodes to exactly six bytes, byte k being the value of hex pair k |
| Mac.ExplodeHyphenated | wake-on-lan.php:64 | explode('-') of a text with '-' at every third position yields its two-character groups |
| Mac.ExampleSpellings | wake-on-lan.php:51 | "00:11:22:33:aa:bb" normalises to "00-11-22-33-AA-BB" |
| Mac.ExampleTooShort | wake-on-lan.php:54 | a five-group MAC is refused |
| Mac.ExampleNotHex | wake-on-lan.php:54 | a MAC with a non-hex group is refused |
| Mac.ExampleLongerText | wake-on-lan.php:54 | the pattern is found inside an 18-character text, and the length test still refuses it |
| Packet.DecodeHwAddress | wake-on-lan.php:63-66 | the foreach over explode('-') appends chr(hexdec(group)) for every group, in order |
| Packet.MagicPacketLayout | wake-on-lan.php:32-67 | the packet is 102 bytes: six 0xFF, then byte i is hardware byte (i-6) mod 6 |
| Packet.PacketOfAcceptedMac | wake-on-lan.php:61-68 | for an accepted MAC the packet starts with six 0xFF and every later byte is the value of the matching hex pair |
| Packet.ExampleSamePacketForBothSeparators | wake-on-lan.php:51-67 | the colon and hyphen spellings of one MAC give the same packet |
| Ipv4.Octets | wake-on-lan.php:99-105 | the four bytes of a 32-bit address are each below 256 |
| Ipv4.OctetsRoundTrip | wake-on-lan.php:99-105 | putting the four bytes of an address together gives the address |
| Ipv4.FromOctetsRoundTrip | wake-on-lan.php:93 | four bytes form an address below 2^32 whose bytes are those four |
| Ipv4.DottedQuadParses | wake-on-lan.php:105 | the dotted quad of four bytes splits at '.' into four valid octet texts that read back as the bytes |
| Ipv4.Ip2Long | wake-on-lan.php:93 | ip2long: the value of a dotted quad of canonical octets, or none; Ip2LongRoundTrip states its range and inverse |
| Ipv4.Long2Ip | wake-on-lan.php:99-105 | long2ip: the dotted quad of the low 32 bits; Long2IpRoundTrip states that ip2long reads it back |
| Ipv4.Long2IpRoundTrip | wake-on-lan.php:93-105 | ip2long(long2ip(n)) = n for every address n below 2^32 |
| Ipv4.Ip2LongRoundTrip | wake-on-lan.php:93-105 | every text ip2long accepts has a value below 2^32 and is exactly long2ip of that value |
| Ipv4.BroadcastAddress | wake-on-lan.php:91-97 | network address plus subnet size minus one; BroadcastKeepsPrefix states its bits |
| Ipv4.BroadcastKeepsPrefix | wake-on-lan.php:91-97 | network ≤ ip ≤ broadcast < 2^32; the network address has no host bits; the broadcast address keeps the prefix bits of ip and has every host bit set |
| Ipv4.BroadcastOfHostPrefix | wake-on-lan.php:91-97 | a /32 prefix gives the address itself |
| Ipv4.BroadcastOfEmptyPrefix | wake-on-lan.php:91-105 | a /0 prefix gives 2^32-1, printed "255.255.255.255" |
| Ipv4.ExampleClassC | wake-on-lan.php:91-105 | 192.168.1.10 with prefix 24 is sent to 192.168.1.255 |
| Ipv4.ExampleClassA | wake-on-lan.php:91-105 | 10.0.0.1 with prefix 8 is sent to 10.255.255.255 |
| WakeOnLan.MessageIsTruthy | wake-on-lan.php:37-161 | every error string starts with "Error: ", so it is truthy and switches off every later `!$wolResult` block |
| WakeOnLan.ArraySearch | wake-on-lan.php:43 | array_search returns the index of the first equal element, or false when there is none |
| WakeOnLan.UdpCheckFailsIff | wake-on-lan.php:43 | the UDP check fails iff "udp" is missing or is the first transport |
| WakeOnLan.CapabilityStage | wake-on-lan.php:37-46 | the stored error is that of the capability checks, the UDP error replacing any earlier one; the debug output only grows and ends with that error |
| WakeOnLan.MacStage | wake-on-lan.php:49-58 | when no error is stored: the MAC becomes its normalised form and the invalid-MAC error is stored iff that form is not six hex pairs; otherwise nothing changes |
| WakeOnLan.PacketStage | wake-on-lan.php:61-68 | when no error is stored, sixteen copies of the decoded hardware address are appended to the packet; otherwise the packet is unchanged |
| WakeOnLan.ResolveStage | wake-on-lan.php:71-80 | an IPv4 literal is kept; a name becomes its resolved address, and the cannot-resolve error is stored when gethostbyname returns the name itself, the target then staying as it was |
| WakeOnLan.CidrStage | wake-on-lan.php:83-107 | with a prefix, one outside 0..32 stores the error and leaves the target as it was, and one inside replaces the target by long2ip of the broadcast address |
| WakeOnLan.SubnetBroadcast | wake-on-lan.php:89-105 | the mask, network and size computation yields long2ip of network + size - 1, the subnet's broadcast address |
| WakeOnLan.BroadcastTarget | wake-on-lan.php:83-105 | for a prefix in 0..32 the new target parses as IPv4, keeps the prefix bits of the old target's ip2long value and has every host bit set |
| WakeOnLan.PortStage | wake-on-lan.php:110-116 | a given port outside 0..65535 stores the invalid-port error; otherwise nothing changes |
| WakeOnLan.Transmit | wake-on-lan.php:119-161 | the socket calls' outcome: the first of no socket_create, a failed create, a failed set-option, an absent port or a failed send decides the error; SocketStage is proved against it |
| WakeOnLan.SocketStage | wake-on-lan.php:119-161 | the first failing socket call decides the error; an absent port makes the send fail. With no socket_create it stores the no-socket-API error. On success the calls are create, set-option, send, close. A created socket is always closed last |
| WakeOnLan.PrepareRequest | wake-on-lan.php:28-116 | the blocks before the socket calls leave the first validation error, or the datagram of the normalised MAC's packet, the final target and the port |
| WakeOnLan.WakeOnLan | wake-on-lan.php:26-166 | the method's result equals the stage-by-stage specification. The debug output starts with the call line and ends with "Done." on success or with the returned non-socket error. A success makes exactly the four socket calls in order, and a failed validation makes none |
| WakeOnLan.FirstErrorWins | wake-on-lan.php:37-116 | a failing UDP check always decides the result; each later check (sockets extension, MAC, name resolution, CIDR, port, socket_create available) decides the result whenever it fails and every earlier check passed |
| WakeOnLan.SucceedsIffNoStageFails | wake-on-lan.php:26-166 | the request succeeds iff every check passes, a port is given and the socket calls succeed |
| WakeOnLan.AbsentPortNeverSends | wake-on-lan.php:110-147 | with no port the request never succeeds; once the earlier steps pass it fails with the send error strerror(1) |
| WakeOnLan.SentDatagram | wake-on-lan.php:26-166 | a successful request sends the magic packet of the normalised accepted MAC, on the port as given (always present), to the resolved address or to its subnet's broadcast address |
| WakeOnLan.SpellingsWakeAlike | wake-on-lan.php:51-166 | MAC spellings that normalise alike give the same result |
| HostCheck.FirstOpen | wake-on-lan.php:256-271 | the index of the first port that connects, with every earlier one refused; none iff every port is refused |
| HostCheck.RecordAttempt | wake-on-lan.php:258-270 | a connection writes isUp true, the service name and blank error fields; a refusal writes isUp false, the error code and text, and the port |
| HostCheck.CheckHost | wake-on-lan.php:246-273 | the reply equals the specification: HTTP 500 for a missing host, or else the JSON of ProbeResponse. The ports tried are those up to and including the first open one, and only the open port's connection is closed |
| HostCheck.ProbeResponse | wake-on-lan.php:250-271 | the reply body: up with the first open port's service, or the last attempt's error; IsUpIffSomePortOpen, UpNamesFirstOpenPort and DownReportsLastAttempt state its laws |
| HostCheck.IsUpIffSomePortOpen | wake-on-lan.php:250-271 | error is false, and isUp is true iff some probe port accepts a connection |
| HostCheck.UpNamesFirstOpenPort | wake-on-lan.php:256-264 | an up host names the first open port of the list, tries no port after it, and blanks the error fields |
| HostCheck.DownReportsLastAttempt | wake-on-lan.php:256-271 | when every port is refused, all four are tried and the reply carries only the last attempt's error and port 443, without a service name |
| HostCheck.MissingHostRejected | wake-on-lan.php:248-249 | the request is refused with "Parameter host not set." iff the host parameter is missing, null or falsy |

## Left out

- Sockets, DNS, `filter_var`, `socket_strerror`, `extension_loaded`, `stream_get_transports`, `function_exists` and `fsockopen` are oracles given as parameters. Their own behaviour and the fsockopen timeout are not modelled.
- `fclose` and `socket_close` are recorded only in ghost logs of the ports and calls that are closed; the resources themselves are not modelled.
- Under PHP 8 an empty-string port makes `socket_sendto` throw a TypeError instead of returning NULL. The model follows PHP 5 and 7, where the call fails and the request reports the send error.
- `intval` on `$cidr` and `$port` is not modelled: both arrive as optional integers, the absent value standing for ''. Non-numeric text, which intval would read as 0, is outside the model.
- PHP's loose `==` in `$ip == $tmpIp` is modelled as string equality. Two different numeric strings that PHP compares equal as numbers are not modelled.
- `ip2long` is modelled by the inet_pton rule: four decimal parts with no leading zero, each at most 255. Any other text gives false, which the `&` turns into 0.
- `ip & (-1 << k)` is stated as clearing the k low bits (ip / 2^k · 2^k) for 0 ≤ ip < 2^32. It is not derived from 64-bit two's-complement bit operations.
- `long2ip` of the negative netmask is modelled as the dotted quad of its low 32 bits.
- `strtoupper` is modelled for ASCII letters only.
- `hexdec` is modelled as skipping non-hex characters. Its float result for very long inputs is not modelled, since only two-digit groups reach it here.
- The other requests of the script are not part of this model: `CONFIG.GET`, `CONFIG.SET`, `CONFIG.DOWNLOAD`, `HOST.WAKEUP` routing, the HTML page, the `$DEBUGINFO` bookkeeping and the request dispatch on `aop`.
- The JSON encoding of replies is not modelled: `utf8_encode`, `json_encode` and its failure path, HTTP headers and `die` are left out. Replies are the key-to-value map before encoding, or the HTTP 500 text.
- The `$debug` array and `__LINE__` numbers in the debug output are not modelled: they depend on the file layout and are never returned.
- The value of `$host` passed to fsockopen is its PHP string conversion. In requests that value is always a string.
