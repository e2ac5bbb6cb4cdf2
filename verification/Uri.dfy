/**
 URLs of trace destinations: the parser and the printer of `src/common/uri.c`.

 `inet_pton` and name resolution are parameters.  A string has no NUL; its end stands
 for the terminator.
 */
module Uri {
  import opened Wrappers

  const PATH_MAX: nat := 4096
  const IPV4_SIZE: nat := 16
  const IPV6_SIZE: nat := 46

  datatype Destination = Ipv4(addr: string) | Ipv6(addr: string) | Path(path: string)

  datatype Uri = Uri(dst: Destination, port: nat, subdir: string)

  /** What the system knows: literal addresses (of version 6 or not), host names, and what
      `atoi` makes of a number that no int can hold. */
  datatype System = System(literal: (bool, string) -> bool, resolve: (bool, string) -> Option<string>, overflow: int -> int)

  datatype Code = File | Net | Net6 | Tcp | Tcp6

  datatype Protocol = Protocol(leading: string, code: Code)

  const PROTOCOLS: nat := 7

  /** The table of supported protocols. */
  function ProtocolAt(k: nat): Protocol
    requires k < PROTOCOLS
  {
    match k
    case 0 => Protocol("file://", File)
    case 1 => Protocol("net://", Net)
    case 2 => Protocol("net4://", Net)
    case 3 => Protocol("net6://", Net6)
    case 4 => Protocol("tcp://", Tcp)
    case 5 => Protocol("tcp4://", Tcp)
    case _ => Protocol("tcp6://", Tcp6)
  }

  // ---------------------------------------------------------------------
  // C library functions
  // ---------------------------------------------------------------------

  function Lower(c: char): char {
    if 'A' <= c <= 'Z' then c - 'A' + 'a' else c
  }

  /** `strncasecmp` over the length of `prefix`. */
  predicate StartsWith(s: string, prefix: string) {
    |prefix| <= |s| && forall i | 0 <= i < |prefix| :: Lower(s[i]) == Lower(prefix[i])
  }

  /** `strncpy` into `size` bytes, the last one a terminator. */
  function Cut(s: string, size: nat): string {
    if |s| < size then s else if size == 0 then "" else s[..size - 1]
  }

  /** Where the first `c` is, or the end. */
  function Find(s: string, c: char): (k: nat)
    ensures k <= |s| && (k < |s| ==> s[k] == c) && forall i | 0 <= i < k :: s[i] != c
  {
    if s == "" || s[0] == c then 0 else 1 + Find(s[1..], c)
  }

  predicate IsSep(c: char) { c == ':' || c == '/' }

  /** `strpbrk_or_eos` for the separators. */
  function FindSep(s: string): (k: nat)
    ensures k <= |s| && (k < |s| ==> IsSep(s[k])) && forall i | 0 <= i < k :: !IsSep(s[i])
  {
    if s == "" || IsSep(s[0]) then 0 else 1 + FindSep(s[1..])
  }

  predicate IsDigit(c: char) { '0' <= c <= '9' }

  function DigitValue(c: char): int { c as int - '0' as int }

  function Digits(s: string, acc: int): int {
    if s == "" || !IsDigit(s[0]) then acc else Digits(s[1..], 10 * acc + DigitValue(s[0]))
  }

  predicate IsSpace(c: char) { c == ' ' || '\t' <= c <= '\r' }

  /** The number at the beginning of `s`. */
  function Number(s: string): int {
    if s == "" then 0
    else if IsSpace(s[0]) then Number(s[1..])
    else if s[0] == '-' then 0 - Digits(s[1..], 0)
    else if s[0] == '+' then Digits(s[1..], 0)
    else Digits(s, 0)
  }

  /** `atoi`. */
  function Atoi(sys: System, s: string): int {
    if -0x8000_0000 <= Number(s) < 0x8000_0000 then Number(s) else sys.overflow(Number(s))
  }

  function Decimal(n: nat): string {
    if n < 10 then [(n + '0' as int) as char] else Decimal(n / 10) + [(n % 10 + '0' as int) as char]
  }

  // ---------------------------------------------------------------------
  // Printing
  // ---------------------------------------------------------------------

  /** The URL in full; `uri_to_str_url` gives its length, and as much as fits. */
  function Print(u: Uri): string {
    match u.dst
    case Path(path) => "file://" + path + "/" + u.subdir
    case Ipv4(addr) => "tcp4://" + addr + ":" + Decimal(u.port) + "/" + u.subdir
    case Ipv6(addr) => "tcp6://[" + addr + "]:" + Decimal(u.port) + "/" + u.subdir
  }

  function ToUrl(u: Uri, size: nat): (string, nat) {
    (Cut(Print(u), size), |Print(u)|)
  }

  // ---------------------------------------------------------------------
  // Parsing
  // ---------------------------------------------------------------------

  /** The first protocol of the table, from `i` on, that the URL starts with. */
  function FindProtocol(url: string, i: nat): (k: nat)
    requires i <= PROTOCOLS
    ensures i <= k <= PROTOCOLS && (k < PROTOCOLS ==> StartsWith(url, ProtocolAt(k).leading))
    ensures forall j | i <= j < k :: !StartsWith(url, ProtocolAt(j).leading)
    decreases PROTOCOLS - i
  {
    if i == PROTOCOLS || StartsWith(url, ProtocolAt(i).leading) then i else FindProtocol(url, i + 1)
  }

  datatype Address = NoAddress | Address(addr: string, rest: string)

  /** The host part, in brackets or up to a separator. */
  function ParseAddress(s: string): Address {
    if s != "" && s[0] == '[' then
      var k := Find(s[1..], ']');
      if k == |s| - 1 || k == 0 then NoAddress
      else if k + 2 < |s| && !IsSep(s[k + 2]) then NoAddress
      else Address(s[1..k + 1], s[k + 2..])
    else if FindSep(s) == 0 then NoAddress
    else Address(s[..FindSep(s)], s[FindSep(s)..])
  }

  datatype Ports = BadPort | Ports(ctrl: nat, data: nat, rest: string)

  /** Up to two ports, one unless the protocol takes a control and a data port; `i`
      have been read. */
  function ParsePorts(sys: System, s: string, i: nat, two: bool, ctrl: nat, data: nat): Ports
    decreases |s|
  {
    if s == "" || s[0] != ':' then Ports(ctrl, data, s)
    else if (i + 1 == 2 && !two) || i + 1 > 2 then Ports(ctrl, data, s)
    else
      var k := FindSep(s[1..]);
      if k == 0 then ParsePorts(sys, s[1..], i + 1, two, ctrl, data)
      else
        var port := Atoi(sys, s[1..k + 1]);
        if port > 0xffff || port <= 0 then BadPort
        else if i + 1 == 1 then ParsePorts(sys, s[k + 1..], i + 1, two, port, data)
        else ParsePorts(sys, s[k + 1..], i + 1, two, ctrl, port)
  }

  /** `set_ip_address`. */
  function SetIp(sys: System, v6: bool, addr: string): Option<string> {
    var size := if v6 then IPV6_SIZE else IPV4_SIZE;
    if sys.literal(v6, addr) then Some(Cut(addr, size))
    else
      match sys.resolve(v6, addr)
      case Some(a) => if |a| < size then Some(a) else None
      case None => if addr == "localhost" then Some(if v6 then "::1" else "127.0.0.1") else None
  }

  function MakeUris(sys: System, code: Code, addr: string, ctrl: nat, data: nat, subdir: string): Option<seq<Uri>>
    requires !code.File?
  {
    var v6 := code.Net6? || code.Tcp6?;
    match SetIp(sys, v6, addr)
    case None => None
    case Some(a) =>
      var dst := if v6 then Ipv6(a) else Ipv4(a);
      Some(if code.Net? || code.Net6? then [Uri(dst, ctrl, subdir), Uri(dst, data, "")] else [Uri(dst, ctrl, subdir)])
  }

  function ParseHost(sys: System, code: Code, s: string): Option<seq<Uri>>
    requires !code.File?
  {
    match ParseAddress(s)
    case NoAddress => None
    case Address(addr, rest) =>
      match ParsePorts(sys, rest, 0, code.Net? || code.Net6?, 0, 0)
      case BadPort => None
      case Ports(ctrl, data, rest) =>
        if rest != "" && rest[0] != '/' then None
        else MakeUris(sys, code, addr, ctrl, data, if rest == "" then "" else Cut(rest[1..], PATH_MAX))
  }

  /** `uri_parse`. */
  function Parse(sys: System, url: string): Option<seq<Uri>> {
    var k := FindProtocol(url, 0);
    if k == PROTOCOLS then None else
      var s := url[|ProtocolAt(k).leading|..];
      if ProtocolAt(k).code.File? then
        if s == "" || s[0] != '/' then None else Some([Uri(Path(Cut(s, PATH_MAX)), 0, "")])
      else ParseHost(sys, ProtocolAt(k).code, s)
  }

  method GetProtocol(url: string) returns (k: nat)
    ensures k == FindProtocol(url, 0) <= PROTOCOLS && (k < PROTOCOLS ==> StartsWith(url, ProtocolAt(k).leading))
    ensures forall j | 0 <= j < k :: !StartsWith(url, ProtocolAt(j).leading)
  {
    k := 0;
    while k < PROTOCOLS
      invariant k <= PROTOCOLS && FindProtocol(url, 0) == FindProtocol(url, k)
    {
      if StartsWith(url, ProtocolAt(k).leading) {
        return;
      }
      k := k + 1;
    }
  }

  /** The loop over the ports; every pass consumes the colon. */
  method ReadPorts(sys: System, s: string, two: bool) returns (ports: Ports)
    ensures ports == ParsePorts(sys, s, 0, two, 0, 0)
  {
    var purl, i: nat, ctrl: nat, data: nat := s, 0, 0, 0;
    while purl != "" && purl[0] == ':'
      invariant ParsePorts(sys, s, 0, two, 0, 0) == ParsePorts(sys, purl, i, two, ctrl, data)
      decreases |purl|
    {
      ghost var before := purl;
      i := i + 1;
      if (i == 2 && !two) || i > 2 {
        break;
      }
      purl := purl[1..];
      var begin := purl;
      purl := purl[FindSep(purl)..];
      assert purl == before[FindSep(begin) + 1..];
      if |begin| != |purl| {
        var text := begin[..|begin| - |purl|];
        assert text == before[1..FindSep(begin) + 1];
        var port := Atoi(sys, text);
        if port > 0xffff || port <= 0 {
          return BadPort;
        }
        if i == 1 {
          ctrl := port;
        } else {
          data := port;
        }
      }
    }
    return Ports(ctrl, data, purl);
  }

  method UriParse(sys: System, url: string) returns (uris: Option<seq<Uri>>)
    ensures uris == Parse(sys, url)
  {
    hide ParsePorts, ParseAddress, FindProtocol;
    var k := GetProtocol(url);
    if k == PROTOCOLS {
      return None;
    }
    var code, purl := ProtocolAt(k).code, url[|ProtocolAt(k).leading|..];
    if code.File? {
      return if purl == "" || purl[0] != '/' then None else Some([Uri(Path(Cut(purl, PATH_MAX)), 0, "")]);
    }
    var address := ParseAddress(purl);
    if address.NoAddress? {
      return None;
    }
    var ports := ReadPorts(sys, address.rest, code.Net? || code.Net6?);
    if ports.BadPort? {
      return None;
    }
    purl := ports.rest;
    var subdir := "";
    if purl != "" && purl[0] == '/' {
      subdir := Cut(purl[1..], PATH_MAX);
    } else if purl != "" {
      return None;
    }
    return MakeUris(sys, code, address.addr, ports.ctrl, ports.data, subdir);
  }

  // ---------------------------------------------------------------------
  // The round trip
  // ---------------------------------------------------------------------

  predicate InIpv4(c: char) { IsDigit(c) || c == '.' }

  predicate InIpv6(c: char) { IsDigit(c) || 'a' <= c <= 'f' || 'A' <= c <= 'F' || c == '.' || c == ':' }

  /** What `inet_pton` accepts as an address: its characters, and that it fits. */
  ghost predicate Honest(sys: System) {
    && (forall a: string | sys.literal(false, a) :: 0 < |a| < IPV4_SIZE && forall i | 0 <= i < |a| :: InIpv4(a[i]))
    && (forall a: string | sys.literal(true, a) :: 0 < |a| < IPV6_SIZE && forall i | 0 <= i < |a| :: InIpv6(a[i]))
  }

  /** A network URI with a literal address and a subdirectory that fits. */
  ghost predicate Literal(sys: System, u: Uri) {
    && !u.dst.Path? && sys.literal(u.dst.Ipv6?, u.dst.addr) && u.port <= 0xffff && |u.subdir| < PATH_MAX
  }

  lemma {:induction false} DecimalDigits(n: nat)
    ensures Decimal(n) != "" && forall i | 0 <= i < |Decimal(n)| :: IsDigit(Decimal(n)[i])
  {
    if n < 10 {
    } else {
      DecimalDigits(n / 10);
    }
  }

  lemma {:induction false} DigitsAppend(s: string, d: char, acc: int)
    requires IsDigit(d) && forall i | 0 <= i < |s| :: IsDigit(s[i])
    ensures Digits(s + [d], acc) == 10 * Digits(s, acc) + DigitValue(d)
  {
    var t := s + [d];
    if s == "" {
      assert t[0] == d && t[1..] == "";
    } else {
      assert t[1..] == s[1..] + [d] && t[0] == s[0];
      DigitsAppend(s[1..], d, 10 * acc + DigitValue(s[0]));
    }
  }

  lemma {:induction false} DigitsOfDecimal(n: nat)
    ensures Digits(Decimal(n), 0) == n
  {
    if n < 10 {
      assert Decimal(n)[1..] == "";
    } else {
      DigitsOfDecimal(n / 10);
      DecimalDigits(n / 10);
      DigitsAppend(Decimal(n / 10), (n % 10 + '0' as int) as char, 0);
    }
  }

  /** `atoi` reads back what `%d` prints, if an int can hold it. */
  lemma NumberOfDecimal(n: nat)
    ensures Number(Decimal(n)) == n
  {
    DigitsOfDecimal(n);
    DecimalDigits(n);
  }

  lemma Mismatch(url: string, j: nat, i: nat)
    requires j < PROTOCOLS && i < |url| && i < |ProtocolAt(j).leading| && Lower(url[i]) != Lower(ProtocolAt(j).leading[i])
    ensures !StartsWith(url, ProtocolAt(j).leading)
  {
  }

  /** The protocols by their text, and their place in the table. */
  function PlaceOf(leading: string): (k: nat)
    ensures k <= PROTOCOLS
  {
    if leading == "file://" then 0 else if leading == "net://" then 1 else if leading == "net4://" then 2
    else if leading == "net6://" then 3 else if leading == "tcp://" then 4 else if leading == "tcp4://" then 5
    else if leading == "tcp6://" then 6 else PROTOCOLS
  }

  lemma ProtocolOf(leading: string, rest: string)
    requires PlaceOf(leading) < PROTOCOLS
    ensures FindProtocol(leading + rest, 0) == PlaceOf(leading) && ProtocolAt(PlaceOf(leading)).leading == leading
  {
    var url, k := leading + rest, PlaceOf(leading);
    forall j | 0 <= j < k
      ensures !StartsWith(url, ProtocolAt(j).leading)
    {
      OtherProtocol(leading, rest, j);
    }
    assert ProtocolAt(k).leading == leading;
    StartsWithItself(leading, rest);
    hide StartsWith, ProtocolAt, PlaceOf;
    SkipTo(url, 0, k);
  }

  lemma StartsWithItself(leading: string, rest: string)
    ensures StartsWith(leading + rest, leading)
  {
  }

  lemma OtherProtocol(leading: string, rest: string, j: nat)
    requires j < PlaceOf(leading) < PROTOCOLS
    ensures !StartsWith(leading + rest, ProtocolAt(j).leading)
  {
    hide StartsWith;
    var i := if j == 0 || (j < 4 && PlaceOf(leading) >= 4) then 0 else 3;
    assert (leading + rest)[i] == leading[i];
    Mismatch(leading + rest, j, i);
  }

  lemma {:induction false} SkipTo(url: string, i: nat, k: nat)
    requires i <= k <= PROTOCOLS && forall j | i <= j < k :: !StartsWith(url, ProtocolAt(j).leading)
    ensures FindProtocol(url, i) == FindProtocol(url, k)
    decreases k - i
  {
    if i == k {
    } else {
      SkipTo(url, i + 1, k);
    }
  }

  /** What follows a host or a port: nothing, or a separator. */
  predicate IsEnd(rest: string) {
    rest == "" || IsSep(rest[0])
  }

  lemma FindSepAt(a: string, rest: string)
    requires IsEnd(rest) && forall i | 0 <= i < |a| :: !IsSep(a[i])
    ensures FindSep(a + rest) == |a|
  {
    var s, k := a + rest, FindSep(a + rest);
    assert forall i | 0 <= i < |a| :: s[i] == a[i];
    if rest != "" { assert s[|a|] == rest[0]; }
  }

  lemma FindAt(a: string, c: char, rest: string)
    requires rest != "" && rest[0] == c && forall i | 0 <= i < |a| :: a[i] != c
    ensures Find(a + rest, c) == |a|
  {
    var s, k := a + rest, Find(a + rest, c);
    assert s[|a|] == rest[0] && forall i | 0 <= i < |a| :: s[i] == a[i];
  }

  /** A port as it is written in a URL; it may be left out after its colon. */
  function PortText(port: Option<nat>): string {
    if port.None? then "" else Decimal(port.value)
  }

  predicate BadNumber(port: Option<nat>) {
    port.Some? && (port.value == 0 || port.value > 0xffff)
  }

  /** One port is read, and the rest is read after it. */
  lemma PortRead(sys: System, port: Option<nat>, rest: string, i: nat, two: bool, ctrl: nat, data: nat)
    requires IsEnd(rest) && (i == 0 || (i == 1 && two)) && (port.Some? ==> port.value < 0x8000_0000)
    ensures ParsePorts(sys, ":" + PortText(port) + rest, i, two, ctrl, data) ==
            if BadNumber(port) then BadPort
            else ParsePorts(sys, rest, i + 1, two, if i == 0 && port.Some? then port.value else ctrl,
                            if i == 1 && port.Some? then port.value else data)
  {
    if port.Some? { PortNumber(sys, port.value); }
    hide Atoi, Decimal, FindSep, IsEnd;
    PortStep(sys, PortText(port), rest, i, two, ctrl, data);
    hide ParsePorts;
  }

  lemma PortNumber(sys: System, port: nat)
    requires port < 0x8000_0000
    ensures Decimal(port) != "" && Atoi(sys, Decimal(port)) == port
    ensures forall i | 0 <= i < |Decimal(port)| :: !IsSep(Decimal(port)[i])
  {
    DecimalDigits(port);
    NumberOfDecimal(port);
  }

  /** One pass over any text between the colon and the next separator. */
  lemma PortStep(sys: System, text: string, rest: string, i: nat, two: bool, ctrl: nat, data: nat)
    requires IsEnd(rest) && (i == 0 || (i == 1 && two)) && forall j | 0 <= j < |text| :: !IsSep(text[j])
    ensures ParsePorts(sys, ":" + text + rest, i, two, ctrl, data) ==
            if text == "" then ParsePorts(sys, rest, i + 1, two, ctrl, data)
            else var port := Atoi(sys, text);
                 if port <= 0 || port > 0xffff then BadPort
                 else ParsePorts(sys, rest, i + 1, two, if i == 0 then port else ctrl, if i == 1 then port else data)
  {
    hide Atoi, FindSep, IsSep, IsEnd;
    var s := ":" + text + rest;
    assert s[1..] == text + rest;
    FindSepAt(text, rest);
    assert s[1..|text| + 1] == text && s[|text| + 1..] == rest;
  }

  /** The port is read back; port 0 is refused. */
  lemma PortTrip(sys: System, port: nat, subdir: string)
    requires port <= 0xffff
    ensures ParsePorts(sys, ":" + Decimal(port) + "/" + subdir, 0, false, 0, 0) ==
            if port == 0 then BadPort else Ports(port, 0, "/" + subdir)
  {
    assert ":" + Decimal(port) + "/" + subdir == ":" + PortText(Some(port)) + ("/" + subdir);
    hide Decimal;
    PortRead(sys, Some(port), "/" + subdir, 0, false, 0, 0);
  }

  lemma AddressTrip4(addr: string, rest: string)
    requires addr != "" && (forall i | 0 <= i < |addr| :: InIpv4(addr[i])) && IsEnd(rest)
    ensures ParseAddress(addr + rest) == Address(addr, rest)
  {
    var s := addr + rest;
    FindSepAt(addr, rest);
    assert s[0] == addr[0] && s[..|addr|] == addr && s[|addr|..] == rest;
  }

  /** Brackets as in section 2 of RFC 2732. */
  lemma AddressTrip6(addr: string, rest: string)
    requires addr != "" && (forall i | 0 <= i < |addr| :: InIpv6(addr[i])) && IsEnd(rest)
    ensures ParseAddress("[" + addr + "]" + rest) == Address(addr, rest)
  {
    var s := "[" + addr + "]" + rest;
    assert s[1..] == addr + ("]" + rest);
    FindAt(addr, ']', "]" + rest);
    assert s[1..|addr| + 1] == addr && s[|addr| + 2..] == rest;
  }

  /** What follows the protocol in a printed URL. */
  function Host(u: Uri): string
    requires !u.dst.Path?
  {
    if u.dst.Ipv4? then u.dst.addr + PortAndPath(u) else "[" + u.dst.addr + "]" + PortAndPath(u)
  }

  function PortAndPath(u: Uri): string { ":" + Decimal(u.port) + "/" + u.subdir }

  lemma PrintedParts(u: Uri)
    requires !u.dst.Path?
    ensures Print(u) == (if u.dst.Ipv4? then "tcp4://" else "tcp6://") + Host(u)
  {
    hide Decimal;
  }

  /** Parsing the printed URL gives the same URI, exactly when the port is not 0. */
  lemma RoundTrip(sys: System, u: Uri)
    requires Honest(sys) && Literal(sys, u)
    ensures Parse(sys, Print(u)) == if u.port == 0 then None else Some([u])
  {
    hide Print, Host, Parse, ParseHost, Honest;
    PrintedParts(u);
    ParsesAs(sys, if u.dst.Ipv4? then "tcp4://" else "tcp6://", Host(u));
    HostTrip(sys, u, if u.dst.Ipv4? then Tcp else Tcp6);
  }

  /** The same through a buffer of `size` bytes, when the returned length says it was enough. */
  lemma UrlTrip(sys: System, u: Uri, size: nat)
    requires Honest(sys) && Literal(sys, u) && ToUrl(u, size).1 < size
    ensures Parse(sys, ToUrl(u, size).0) == if u.port == 0 then None else Some([u])
  {
    RoundTrip(sys, u);
  }

  /** The returned length says exactly whether the buffer was big enough. */
  lemma UrlFits(u: Uri, size: nat)
    requires size > 0
    ensures ToUrl(u, size).0 == Print(u) <==> ToUrl(u, size).1 < size
    ensures ToUrl(u, size).0 <= Print(u) && |ToUrl(u, size).0| < size
    ensures ToUrl(u, size).1 >= size ==> |ToUrl(u, size).0| == size - 1
  {
    hide Print;
  }

  lemma ParsesAs(sys: System, leading: string, rest: string)
    requires leading == "tcp4://" || leading == "tcp6://"
    ensures Parse(sys, leading + rest) == ParseHost(sys, if leading == "tcp4://" then Tcp else Tcp6, rest)
  {
    hide FindProtocol, ParseHost, StartsWith;
    ProtocolOf(leading, rest);
    assert (leading + rest)[7..] == rest;
  }

  lemma HostTrip(sys: System, u: Uri, code: Code)
    requires Honest(sys) && Literal(sys, u) && (code == if u.dst.Ipv4? then Tcp else Tcp6)
    ensures ParseHost(sys, code, Host(u)) == if u.port == 0 then None else Some([u])
  {
    AddressTrip(sys, u);
    PortTrip(sys, u.port, u.subdir);
    LiteralKept(sys, u);
    hide Decimal, ParsePorts, ParseAddress, Host, Honest, Literal, SetIp, Cut;
    assert ("/" + u.subdir)[1..] == u.subdir;
  }

  lemma LiteralKept(sys: System, u: Uri)
    requires Honest(sys) && Literal(sys, u)
    ensures SetIp(sys, u.dst.Ipv6?, u.dst.addr) == Some(u.dst.addr) && Cut(u.subdir, PATH_MAX) == u.subdir
  {
  }

  lemma AddressTrip(sys: System, u: Uri)
    requires Honest(sys) && Literal(sys, u)
    ensures ParseAddress(Host(u)) == Address(u.dst.addr, PortAndPath(u))
  {
    hide ParseAddress, Decimal;
    if u.dst.Ipv4? {
      AddressTrip4(u.dst.addr, PortAndPath(u));
    } else {
      AddressTrip6(u.dst.addr, PortAndPath(u));
    }
  }

  // ---------------------------------------------------------------------
  // Every form of URL
  // ---------------------------------------------------------------------

  /** The ports of a URL: none, one, or two for the `net` protocols. */
  datatype PortList = NoPorts | OnePort(first: Option<nat>) | TwoPorts(first: Option<nat>, second: Option<nat>)

  function PortsText(ports: PortList): string {
    match ports
    case NoPorts => ""
    case OnePort(first) => ":" + PortText(first)
    case TwoPorts(first, second) => ":" + PortText(first) + ":" + PortText(second)
  }

  /** A number that an int holds. */
  predicate IsInt(port: Option<nat>) { port.Some? ==> port.value < 0x8000_0000 }

  predicate PortsAreInts(ports: PortList) {
    match ports
    case NoPorts => true
    case OnePort(first) => IsInt(first)
    case TwoPorts(first, second) => IsInt(first) && IsInt(second)
  }

  predicate PortsAreGood(ports: PortList) {
    match ports
    case NoPorts => true
    case OnePort(first) => !BadNumber(first)
    case TwoPorts(first, second) => !BadNumber(first) && !BadNumber(second)
  }

  /** A port that is not given is 0. */
  function PortValue(port: Option<nat>): nat {
    if port.Some? then port.value else 0
  }

  lemma PortsRead(sys: System, ports: PortList, tail: string, two: bool)
    requires PortsAreInts(ports) && (tail == "" || tail[0] == '/')
    ensures var p := ParsePorts(sys, PortsText(ports) + tail, 0, two, 0, 0);
            if ports.TwoPorts? && !two then p.BadPort? || (p.Ports? && p.rest != "" && p.rest[0] == ':')
            else if !PortsAreGood(ports) then p == BadPort
            else p == Ports(if ports.NoPorts? then 0 else PortValue(ports.first),
                            if ports.TwoPorts? then PortValue(ports.second) else 0, tail)
  {
    hide Decimal, PortText;
    match ports
    case NoPorts =>
      assert PortsText(ports) + tail == tail;
    case OnePort(first) =>
      PortRead(sys, first, tail, 0, two, 0, 0);
    case TwoPorts(first, second) =>
      var rest := ":" + PortText(second) + tail;
      assert PortsText(ports) + tail == ":" + PortText(first) + rest;
      PortRead(sys, first, rest, 0, two, 0, 0);
      if two { PortRead(sys, second, tail, 1, two, PortValue(first), 0); }
  }

  /** A literal address as it is written in a URL. */
  function AddressText(v6: bool, addr: string): string {
    if v6 then "[" + addr + "]" else addr
  }

  /** The parts of a URL after the protocol: address, ports, and a subdirectory if any. */
  function HostText(v6: bool, addr: string, ports: PortList, subdir: Option<string>): string {
    AddressText(v6, addr) + (PortsText(ports) + if subdir.Some? then "/" + subdir.value else "")
  }

  lemma HostRead(sys: System, code: Code, addr: string, ports: PortList, subdir: Option<string>)
    requires Honest(sys) && !code.File? && sys.literal(code.Net6? || code.Tcp6?, addr) && PortsAreInts(ports)
    requires subdir.Some? ==> |subdir.value| < PATH_MAX
    ensures var v6, two := code.Net6? || code.Tcp6?, code.Net? || code.Net6?;
            var dst, dir := if v6 then Ipv6(addr) else Ipv4(addr), if subdir.Some? then subdir.value else "";
            var ctrl := if ports.NoPorts? then 0 else PortValue(ports.first);
            var data := if ports.TwoPorts? then PortValue(ports.second) else 0;
            ParseHost(sys, code, HostText(v6, addr, ports, subdir)) ==
            if (ports.TwoPorts? && !two) || !PortsAreGood(ports) then None
            else Some(if two then [Uri(dst, ctrl, dir), Uri(dst, data, "")] else [Uri(dst, ctrl, dir)])
  {
    hide ParsePorts, ParseAddress, Honest, PortsText, PortsAreInts, PortsAreGood, AddressText, SetIp;
    var v6, tail := code.Net6? || code.Tcp6?, if subdir.Some? then "/" + subdir.value else "";
    LiteralText(sys, v6, addr);
    EndOfPorts(ports, tail);
    AddressRead(v6, addr, PortsText(ports) + tail);
    PortsRead(sys, ports, tail, code.Net? || code.Net6?);
    if subdir.Some? { assert tail[1..] == subdir.value; }
  }

  lemma AddressRead(v6: bool, addr: string, rest: string)
    requires addr != "" && IsEnd(rest) && forall i | 0 <= i < |addr| :: if v6 then InIpv6(addr[i]) else InIpv4(addr[i])
    ensures ParseAddress(AddressText(v6, addr) + rest) == Address(addr, rest)
  {
    hide ParseAddress;
    if v6 {
      AddressTrip6(addr, rest);
    } else {
      AddressTrip4(addr, rest);
    }
  }

  lemma EndOfPorts(ports: PortList, tail: string)
    requires tail == "" || tail[0] == '/'
    ensures IsEnd(PortsText(ports) + tail)
  {
    hide PortText;
  }

  lemma LiteralText(sys: System, v6: bool, addr: string)
    requires Honest(sys) && sys.literal(v6, addr)
    ensures addr != "" && SetIp(sys, v6, addr) == Some(addr)
    ensures forall i | 0 <= i < |addr| :: if v6 then InIpv6(addr[i]) else InIpv4(addr[i])
  {
  }

  /** What every form of a network URL with a literal address parses as.  The `net` protocols
      give a URI for the control connection with the first port and one for the data
      connection with the second; the `tcp` protocols give one and take one port. */
  lemma ParsesTo(sys: System, leading: string, addr: string, ports: PortList, subdir: Option<string>)
    requires leading in {"net://", "net4://", "net6://", "tcp://", "tcp4://", "tcp6://"} && Honest(sys)
    requires sys.literal(leading in {"net6://", "tcp6://"}, addr) && PortsAreInts(ports)
    requires subdir.Some? ==> |subdir.value| < PATH_MAX
    ensures var v6, two := leading in {"net6://", "tcp6://"}, leading in {"net://", "net4://", "net6://"};
            var dst, dir := if v6 then Ipv6(addr) else Ipv4(addr), if subdir.Some? then subdir.value else "";
            var ctrl := if ports.NoPorts? then 0 else PortValue(ports.first);
            var data := if ports.TwoPorts? then PortValue(ports.second) else 0;
            Parse(sys, leading + HostText(v6, addr, ports, subdir)) ==
            if (ports.TwoPorts? && !two) || !PortsAreGood(ports) then None
            else Some(if two then [Uri(dst, ctrl, dir), Uri(dst, data, "")] else [Uri(dst, ctrl, dir)])
  {
    hide Honest, HostText, FindProtocol, ParseHost, PortsAreInts, PortsAreGood, StartsWith;
    var v6 := leading in {"net6://", "tcp6://"};
    var text := HostText(v6, addr, ports, subdir);
    ProtocolOf(leading, text);
    assert (leading + text)[|leading|..] == text;
    HostRead(sys, ProtocolAt(PlaceOf(leading)).code, addr, ports, subdir);
  }

  /** The full form with two ports, written out. */
  lemma NetUrl(sys: System, leading: string, addr: string, c: nat, d: nat, subdir: string)
    requires leading in {"net://", "net4://", "net6://"} && Honest(sys) && sys.literal(leading == "net6://", addr)
    requires 1 <= c <= 0xffff && 1 <= d <= 0xffff && |subdir| < PATH_MAX
    ensures var host, dst := if leading == "net6://" then "[" + addr + "]" else addr,
                             if leading == "net6://" then Ipv6(addr) else Ipv4(addr);
            Parse(sys, leading + host + ":" + Decimal(c) + ":" + Decimal(d) + "/" + subdir) ==
            Some([Uri(dst, c, subdir), Uri(dst, d, "")])
  {
    hide Parse, Decimal, Honest;
    var ports := TwoPorts(Some(c), Some(d));
    ParsesTo(sys, leading, addr, ports, Some(subdir));
    Regrouped(leading, AddressText(leading == "net6://", addr), Decimal(c), Decimal(d), subdir);
  }

  lemma Regrouped(leading: string, host: string, c: string, d: string, subdir: string)
    ensures leading + (host + ((":" + c + ":" + d) + ("/" + subdir))) == leading + host + ":" + c + ":" + d + "/" + subdir
  {
    var ports, tail := ":" + c + ":" + d, "/" + subdir;
    assert leading + (host + (ports + tail)) == leading + host + ports + tail;
    assert leading + host + ports == leading + host + ":" + c + ":" + d;
    assert leading + host + ports + "/" + subdir == leading + host + ports + tail;
  }

  /** A file URL is its path, which must be absolute. */
  lemma FileUrl(sys: System, path: string)
    ensures Parse(sys, "file://" + path) ==
            if path == "" || path[0] != '/' then None
            else Some([Uri(Path(if |path| < PATH_MAX then path else path[..PATH_MAX - 1]), 0, "")])
  {
    hide FindProtocol, StartsWith;
    ProtocolOf("file://", path);
    assert ("file://" + path)[7..] == path;
  }

  /** A printed path comes back with a slash and the sub-directory after it. */
  lemma FilePrinted(sys: System, path: string, port: nat, subdir: string)
    requires path != "" && path[0] == '/' && |path| + 1 + |subdir| < PATH_MAX
    ensures Parse(sys, Print(Uri(Path(path), port, subdir))) == Some([Uri(Path(path + "/" + subdir), 0, "")])
  {
    FileUrl(sys, path + "/" + subdir);
    assert "file://" + path + "/" + subdir == "file://" + (path + "/" + subdir);
  }

  // ---------------------------------------------------------------------
  // Every parse
  // ---------------------------------------------------------------------

  predicate IsSuffix(rest: string, s: string) {
    |rest| <= |s| && rest == s[|s| - |rest|..]
  }

  lemma SuffixOfItself(s: string)
    ensures IsSuffix(s, s)
  {
  }

  lemma SuffixOfSuffix(s: string, j: nat, rest: string)
    requires j <= |s| && IsSuffix(rest, s[j..])
    ensures IsSuffix(rest, s)
  {
  }

  /** Ports are in range, and what is left is an end of the input. */
  lemma {:induction false} PortsInRange(sys: System, s: string, i: nat, two: bool, ctrl: nat, data: nat)
    requires ctrl <= 0xffff && data <= 0xffff
    ensures var p := ParsePorts(sys, s, i, two, ctrl, data);
            p.Ports? ==> p.ctrl <= 0xffff && p.data <= 0xffff && IsSuffix(p.rest, s)
    decreases |s|
  {
    hide Atoi, FindSep, IsSuffix;
    var p := ParsePorts(sys, s, i, two, ctrl, data);
    if s == "" || s[0] != ':' || (i + 1 == 2 && !two) || i + 1 > 2 {
      SuffixOfItself(s);
    } else {
      var k := FindSep(s[1..]);
      var port := Atoi(sys, s[1..k + 1]);
      if k == 0 {
        PortsInRange(sys, s[1..], i + 1, two, ctrl, data);
        if p.Ports? { SuffixOfSuffix(s, 1, p.rest); }
      } else if 0 < port <= 0xffff {
        if i == 0 {
          PortsInRange(sys, s[k + 1..], i + 1, two, port, data);
        } else {
          PortsInRange(sys, s[k + 1..], i + 1, two, ctrl, port);
        }
        if p.Ports? { SuffixOfSuffix(s, k + 1, p.rest); }
      }
    }
  }

  /** The destination fits the field that holds it, with its terminator. */
  predicate DestinationFits(dst: Destination) {
    match dst
    case Ipv4(addr) => |addr| < IPV4_SIZE
    case Ipv6(addr) => |addr| < IPV6_SIZE
    case Path(path) => |path| < PATH_MAX
  }

  lemma IpFits(sys: System, v6: bool, addr: string)
    ensures var a := SetIp(sys, v6, addr); a.Some? ==> |a.value| < if v6 then IPV6_SIZE else IPV4_SIZE
  {
  }

  /** One URI for a control connection, two for the `net` protocols, and every field fits. */
  lemma ParsedFits(sys: System, url: string, i: nat)
    requires Parse(sys, url).Some? && i < |Parse(sys, url).value|
    ensures var uris := Parse(sys, url).value;
            && |uris| <= 2 && uris[i].port <= 0xffff && |uris[i].subdir| < PATH_MAX && DestinationFits(uris[i].dst)
            && (|uris| == 2 <==> ProtocolAt(FindProtocol(url, 0)).code in {Net, Net6})
            && (|uris| == 2 ==> uris[0].dst == uris[1].dst && uris[1].subdir == "")
  {
    hide FindProtocol, ParseAddress, ParsePorts, SetIp;
    var k := FindProtocol(url, 0);
    var code, s := ProtocolAt(k).code, url[|ProtocolAt(k).leading|..];
    if !code.File? {
      var a := ParseAddress(s);
      IpFits(sys, code.Net6? || code.Tcp6?, a.addr);
      PortsInRange(sys, a.rest, 0, code.Net? || code.Net6?, 0, 0);
    }
  }

  /** The resolver answers with literal addresses of the version asked for, and the loopback
      addresses are such. */
  ghost predicate HonestResolver(sys: System) {
    && sys.literal(false, "127.0.0.1") && sys.literal(true, "::1")
    && forall v6: bool, name: string :: sys.resolve(v6, name).Some? ==> sys.literal(v6, sys.resolve(v6, name).value)
  }

  lemma IpIsLiteral(sys: System, v6: bool, addr: string)
    requires Honest(sys) && HonestResolver(sys)
    ensures var a := SetIp(sys, v6, addr); a.Some? ==> sys.literal(v6, a.value)
  {
  }

  /** Whatever the input, names included, a network URI holds a literal address of its own
      version; printing it and parsing it again gives it back unless its port is 0. */
  lemma ParsedIsStable(sys: System, url: string, i: nat)
    requires Honest(sys) && HonestResolver(sys) && Parse(sys, url).Some? && i < |Parse(sys, url).value|
    ensures var u := Parse(sys, url).value[i];
            !u.dst.Path? ==> Literal(sys, u) && Parse(sys, Print(u)) == if u.port == 0 then None else Some([u])
  {
    var u := Parse(sys, url).value[i];
    ParsedFits(sys, url, i);
    ParsedLiteral(sys, url, i);
    hide Parse, Print, Honest, HonestResolver;
    if !u.dst.Path? { RoundTrip(sys, u); }
  }

  lemma ParsedLiteral(sys: System, url: string, i: nat)
    requires Honest(sys) && HonestResolver(sys) && Parse(sys, url).Some? && i < |Parse(sys, url).value|
    ensures var dst := Parse(sys, url).value[i].dst; !dst.Path? ==> sys.literal(dst.Ipv6?, dst.addr)
  {
    hide FindProtocol, ParseAddress, ParsePorts, SetIp, Honest, HonestResolver;
    var k := FindProtocol(url, 0);
    var code, s := ProtocolAt(k).code, url[|ProtocolAt(k).leading|..];
    if !code.File? {
      IpIsLiteral(sys, code.Net6? || code.Tcp6?, ParseAddress(s).addr);
    }
  }
}
