/**
 Which texts `uri_parse` (`src/common/uri.c`) takes as a protocol, a host, a name to
 resolve and a number, stated on the text alone.
 */
module UriForms {
  import opened Wrappers
  import opened Uri

  predicate EndsHere(rest: string) {
    rest == "" || rest[0] == ':' || rest[0] == '/'
  }

  // ---------------------------------------------------------------------
  // Hosts
  // ---------------------------------------------------------------------

  /** `s` is a host in brackets, then `rest`. */
  predicate Bracketed(s: string, addr: string, rest: string) {
    s == "[" + addr + "]" + rest && addr != "" && ']' !in addr && EndsHere(rest)
  }

  /** `s` is a host, then `rest`. */
  predicate Plain(s: string, addr: string, rest: string) {
    s == addr + rest && addr != "" && addr[0] != '[' && ':' !in addr && '/' !in addr && EndsHere(rest)
  }

  lemma BracketedRead(s: string, addr: string, rest: string)
    requires Bracketed(s, addr, rest)
    ensures ParseAddress(s) == Address(addr, rest)
  {
    assert s[1..] == addr + ("]" + rest);
    FindAt(addr, ']', "]" + rest);
    assert s[1..|addr| + 1] == addr && s[|addr| + 2..] == rest;
  }

  lemma PlainRead(s: string, addr: string, rest: string)
    requires Plain(s, addr, rest)
    ensures ParseAddress(s) == Address(addr, rest)
  {
    FindSepAt(addr, rest);
    assert s[0] == addr[0] && s[..|addr|] == addr && s[|addr|..] == rest;
  }

  /** A host is read exactly where there is one: a text in brackets, or a text without
      separators, not empty, and followed by a separator or nothing. */
  lemma HostExactly(s: string, addr: string, rest: string)
    ensures ParseAddress(s) == Address(addr, rest) <==> Bracketed(s, addr, rest) || Plain(s, addr, rest)
  {
    if Bracketed(s, addr, rest) {
      BracketedRead(s, addr, rest);
    } else if Plain(s, addr, rest) {
      PlainRead(s, addr, rest);
    }
    if ParseAddress(s) == Address(addr, rest) { HostWas(s, addr, rest); }
  }

  lemma HostWas(s: string, addr: string, rest: string)
    requires ParseAddress(s) == Address(addr, rest)
    ensures Bracketed(s, addr, rest) || Plain(s, addr, rest)
  {
    if s[0] == '[' {
      var k := Find(s[1..], ']');
      assert s[1..][k] == ']' && s == "[" + addr + "]" + rest;
      assert forall i | 0 <= i < k :: addr[i] == s[1..][i];
    } else {
      assert s == addr + rest && addr[0] == s[0];
      assert forall i | 0 <= i < |addr| :: addr[i] == s[i];
      assert rest != "" ==> rest[0] == s[|addr|];
    }
  }

  // ---------------------------------------------------------------------
  // Numbers
  // ---------------------------------------------------------------------

  /** The value of decimal digits, the last one counting least. */
  function Value(digits: string): int {
    if digits == "" then 0
    else 10 * Value(digits[..|digits| - 1]) + (digits[|digits| - 1] as int - '0' as int)
  }

  predicate AllDigits(s: string) {
    forall i | 0 <= i < |s| :: '0' <= s[i] <= '9'
  }

  predicate AllBlank(s: string) {
    forall i | 0 <= i < |s| :: s[i] in {' ', '\t', '\n', 11 as char, 12 as char, '\r'}
  }

  lemma {:induction false} DigitsValue(digits: string)
    requires AllDigits(digits)
    ensures Digits(digits, 0) == Value(digits)
  {
    if digits == "" {
    } else {
      var n := |digits| - 1;
      DigitsValue(digits[..n]);
      DigitsAppend(digits[..n], digits[n], 0);
      assert digits[..n] + [digits[n]] == digits;
    }
  }

  lemma {:induction false} DigitsStop(digits: string, rest: string, acc: int)
    requires AllDigits(digits) && (rest == "" || !('0' <= rest[0] <= '9'))
    ensures Digits(digits + rest, acc) == Digits(digits, acc)
  {
    if digits == "" {
      assert digits + rest == rest;
    } else {
      assert (digits + rest)[1..] == digits[1..] + rest;
      DigitsStop(digits[1..], rest, 10 * acc + DigitValue(digits[0]));
    }
  }

  lemma {:induction false} BlanksSkipped(blanks: string, rest: string)
    requires AllBlank(blanks)
    ensures Number(blanks + rest) == Number(rest)
  {
    if blanks == "" {
      assert blanks + rest == rest;
    } else {
      assert (blanks + rest)[1..] == blanks[1..] + rest;
      BlanksSkipped(blanks[1..], rest);
    }
  }

  /** `atoi` skips blanks, takes a sign, and reads digits up to the first other character. */
  lemma NumberIs(blanks: string, sign: string, digits: string, rest: string)
    requires AllBlank(blanks) && sign in {"", "+", "-"} && AllDigits(digits)
    requires rest == "" || !('0' <= rest[0] <= '9')
    requires sign == "" ==> digits != "" || rest == "" || (rest[0] !in {'+', '-'} && !AllBlank(rest[..1]))
    ensures Number(blanks + (sign + (digits + rest))) == if sign == "-" then 0 - Value(digits) else Value(digits)
  {
    var number := sign + (digits + rest);
    BlanksSkipped(blanks, number);
    DigitsStop(digits, rest, 0);
    DigitsValue(digits);
    if sign == "" {
      assert number == digits + rest;
      if digits != "" {
        assert number[0] == digits[0];
      } else if rest != "" {
        assert number[0] == rest[0] == rest[..1][0];
      }
    } else {
      assert number[1..] == digits + rest;
    }
  }

  // ---------------------------------------------------------------------
  // Protocols
  // ---------------------------------------------------------------------

  /** `c` is the lower-case letter `d`, or that letter in upper case, or `d` itself. */
  predicate SameLetter(c: char, d: char) {
    c == d || ('a' <= d <= 'z' && c as int == d as int - 32)
  }

  /** The protocol may be written in capitals. */
  lemma AnyCase(sys: System, written: string, leading: string, rest: string)
    requires |written| == |leading| && forall i | 0 <= i < |leading| :: SameLetter(written[i], leading[i])
    requires leading in {"file://", "net://", "net4://", "net6://", "tcp://", "tcp4://", "tcp6://"}
    ensures Parse(sys, written + rest) == Parse(sys, leading + rest)
  {
    hide ParseHost, StartsWith, SameLetter, FindProtocol, Cut;
    ProtocolOf(leading, rest);
    SameProtocol(written, leading, rest, 0);
    assert (written + rest)[|leading|..] == rest == (leading + rest)[|leading|..];
  }

  lemma {:induction false} SameProtocol(written: string, leading: string, rest: string, i: nat)
    requires |written| == |leading| && forall i | 0 <= i < |leading| :: SameLetter(written[i], leading[i])
    requires i <= PROTOCOLS
    ensures FindProtocol(written + rest, i) == FindProtocol(leading + rest, i)
    decreases PROTOCOLS - i
  {
    if i == PROTOCOLS {
    } else {
      SameStart(written, leading, rest, ProtocolAt(i).leading);
      hide StartsWith, SameLetter;
      SameProtocol(written, leading, rest, i + 1);
    }
  }

  lemma SameStart(written: string, leading: string, rest: string, prefix: string)
    requires |written| == |leading| && forall i | 0 <= i < |leading| :: SameLetter(written[i], leading[i])
    ensures StartsWith(written + rest, prefix) <==> StartsWith(leading + rest, prefix)
  {
    var w, l := written + rest, leading + rest;
    forall i | 0 <= i < |w|
      ensures Lower(w[i]) == Lower(l[i])
    {
      if i < |leading| {
        assert SameLetter(written[i], leading[i]);
      } else {
        assert w[i] == rest[i - |leading|] == l[i];
      }
    }
  }

  // ---------------------------------------------------------------------
  // Names
  // ---------------------------------------------------------------------

  /** What a host name that is not an address becomes: the resolver's answer if it fits its
      field of 16 or 46 bytes, the loopback address for `localhost` without an answer. */
  function AddressFor(answer: Option<string>, v6: bool, name: string): Option<string> {
    match answer
    case Some(a) => if |a| < (if v6 then 46 else 16) then answer else None
    case None => if name == "localhost" then Some(if v6 then "::1" else "127.0.0.1") else None
  }

  lemma NameSet(sys: System, v6: bool, name: string)
    requires !sys.literal(v6, name)
    ensures SetIp(sys, v6, name) == AddressFor(sys.resolve(v6, name), v6, name)
  {
  }

  /** A URL with a host name. */
  lemma NamedUrl(sys: System, leading: string, name: string, ports: PortList, subdir: Option<string>)
    requires leading in {"net://", "net4://", "net6://", "tcp://", "tcp4://", "tcp6://"}
    requires name != "" && name[0] != '[' && ':' !in name && '/' !in name
    requires !sys.literal(leading in {"net6://", "tcp6://"}, name) && PortsAreInts(ports)
    requires subdir.Some? ==> |subdir.value| < PATH_MAX
    ensures var v6, two := leading in {"net6://", "tcp6://"}, leading in {"net://", "net4://", "net6://"};
            var answer := AddressFor(sys.resolve(v6, name), v6, name);
            var ctrl := if ports.NoPorts? then 0 else PortValue(ports.first);
            var data := if ports.TwoPorts? then PortValue(ports.second) else 0;
            var dir := if subdir.Some? then subdir.value else "";
            Parse(sys, leading + (name + (PortsText(ports) + if subdir.Some? then "/" + dir else ""))) ==
            if (ports.TwoPorts? && !two) || !PortsAreGood(ports) || answer.None? then None
            else var dst := if v6 then Ipv6(answer.value) else Ipv4(answer.value);
                 Some(if two then [Uri(dst, ctrl, dir), Uri(dst, data, "")] else [Uri(dst, ctrl, dir)])
  {
    hide FindProtocol, ParseHost, PortsAreInts, PortsAreGood, StartsWith, PortsText, AddressFor;
    var tail := if subdir.Some? then "/" + subdir.value else "";
    var text := name + (PortsText(ports) + tail);
    ProtocolOf(leading, text);
    assert (leading + text)[|leading|..] == text;
    NamedHost(sys, ProtocolAt(PlaceOf(leading)).code, name, ports, subdir);
  }

  lemma NamedHost(sys: System, code: Code, name: string, ports: PortList, subdir: Option<string>)
    requires !code.File? && name != "" && name[0] != '[' && ':' !in name && '/' !in name
    requires !sys.literal(code.Net6? || code.Tcp6?, name) && PortsAreInts(ports)
    requires subdir.Some? ==> |subdir.value| < PATH_MAX
    ensures var v6, two := code.Net6? || code.Tcp6?, code.Net? || code.Net6?;
            var answer := AddressFor(sys.resolve(v6, name), v6, name);
            var ctrl := if ports.NoPorts? then 0 else PortValue(ports.first);
            var data := if ports.TwoPorts? then PortValue(ports.second) else 0;
            var dir := if subdir.Some? then subdir.value else "";
            ParseHost(sys, code, name + (PortsText(ports) + if subdir.Some? then "/" + dir else "")) ==
            if (ports.TwoPorts? && !two) || !PortsAreGood(ports) || answer.None? then None
            else var dst := if v6 then Ipv6(answer.value) else Ipv4(answer.value);
                 Some(if two then [Uri(dst, ctrl, dir), Uri(dst, data, "")] else [Uri(dst, ctrl, dir)])
  {
    hide ParsePorts, ParseAddress, PortsText, PortsAreInts, PortsAreGood, SetIp, AddressFor;
    var tail := if subdir.Some? then "/" + subdir.value else "";
    EndOfPorts(ports, tail);
    PlainRead(name + (PortsText(ports) + tail), name, PortsText(ports) + tail);
    PortsRead(sys, ports, tail, code.Net? || code.Net6?);
    NameSet(sys, code.Net6? || code.Tcp6?, name);
    if subdir.Some? { assert tail[1..] == subdir.value; }
  }
}
