/** The validation predicates of the utils package. Calls into the
    operating system and Go's parsers (net.ParseIP, url.Parse,
    net.Interfaces, os.Stat) are oracles handed in by the caller. */
module Validation {
  import opened Common
  import opened GoStrings

  /** IsPort: a port number is in 0..65535. */
  predicate IsPort(port: int)
  {
    !(port < 0 || port >= 65536)
  }

  lemma PortRange(port: int)
    ensures IsPort(port) <==> 0 <= port <= 65535
  {
  }

  /** IsEmpty: the string is "". */
  predicate IsEmpty(str: string)
  {
    str == ""
  }

  /** A Go `interface{}` value as IsValidArgument sees it: its dynamic type and value. */
  datatype Any = Nil | Str(s: string) | Int(i: int) | Strings(l: seq<string>)

  /** Comparing two interface values with `==` panics when both hold slices. */
  predicate Comparable(a: Any, b: Any)
  {
    !(a.Strings? && b.Strings?)
  }

  /** Go's `==` on interface values: equal dynamic types and equal values. */
  function AnyEqual(a: Any, b: Any): (r: bool)
    requires Comparable(a, b)
    ensures r ==> a == b
    ensures a == b ==> r
  {
    match (a, b)
    case (Str(x), Str(y)) => x == y
    case (Int(x), Int(y)) => x == y
    case (Nil, Nil) => true
    case _ => false
  }

  /** IsValidArgument: scans `allowed` and answers whether `argument` equals one of its elements. */
  function IsValidArgument(argument: Any, allowed: seq<Any>): (r: bool)
    requires forall i :: 0 <= i < |allowed| ==> Comparable(argument, allowed[i])
    ensures r <==> exists i :: 0 <= i < |allowed| && argument == allowed[i]
  {
    if allowed == [] then false
    else if AnyEqual(argument, allowed[0]) then true
    else
      assert forall i :: 1 <= i < |allowed| ==> allowed[i] == allowed[1..][i - 1];
      IsValidArgument(argument, allowed[1..])
  }

  /** Passing a []string as the one variadic element compares a string with a slice:
      the two dynamic types differ, so the answer is false whatever the list holds. */
  lemma SliceArgumentNeverMatches(argument: string, list: seq<string>)
    ensures !IsValidArgument(Str(argument), [Strings(list)])
  {
  }

  /** The strings as interface values, as `IsValidArgument(a, "x", "y")` passes them. */
  function Strs(xs: seq<string>): (r: seq<Any>)
    ensures |r| == |xs| && forall i :: 0 <= i < |xs| ==> r[i] == Str(xs[i])
  {
    if xs == [] then [] else [Str(xs[0])] + Strs(xs[1..])
  }

  /** With string choices spelled out one by one, IsValidArgument is list membership. */
  lemma StringArgument(argument: string, choices: seq<string>)
    ensures IsValidArgument(Str(argument), Strs(choices)) <==> argument in choices
  {
    if argument in choices {
      var i :| 0 <= i < |choices| && choices[i] == argument;
      assert Strs(choices)[i] == Str(argument);
    }
  }

  /** IsNetworkInterface: given the answer of the interface listing,
      an error is passed on and otherwise the answer is list membership. */
  function IsNetworkInterface(iface: string, interfaces: Result<seq<string>, string>): (r: Result<bool, string>)
    ensures interfaces.Err? ==> r == Err(interfaces.error)
    ensures interfaces.Ok? ==> r == Ok(iface in interfaces.value)
  {
    match interfaces
    case Err(e) => Err(e)
    case Ok(names) => Ok(Member(iface, names))
  }

  /** The early-exit scan of IsNetworkInterface's loop. */
  function Member(name: string, names: seq<string>): (r: bool)
    ensures r <==> name in names
  {
    if names == [] then false
    else if names[0] == name then true
    else
      assert name in names ==> name in names[1..] by {
        if name in names {
          var i :| 0 <= i < |names| && names[i] == name;
          assert i > 0 && names[1..][i - 1] == name;
        }
      }
      Member(name, names[1..])
  }

  // IsValidIpAddress: net.ParseIP reads a text with a ':' as an IPv6 address,
  // and anything else as a dotted-decimal IPv4 address; the IPv6 reading is an
  // oracle, the IPv4 reading is written out below.

  predicate IsDigit(c: char)
  {
    '0' <= c <= '9'
  }

  /** Scans `s` from index `i` with `dots` dots seen, the current field's
      value and its number of digits so far. */
  predicate DottedQuadFrom(s: string, i: nat, dots: nat, value: nat, digits: nat)
    requires i <= |s|
    decreases |s| - i
  {
    if i == |s| then dots == 3 && digits > 0
    else if IsDigit(s[i]) then
      var v := value * 10 + (s[i] as int - '0' as int);
      v <= 255 && DottedQuadFrom(s, i + 1, dots, v, digits + 1)
    else if s[i] == '.' then
      digits > 0 && dots < 3 && DottedQuadFrom(s, i + 1, dots + 1, 0, 0)
    else false
  }

  /** An IPv4 address in dotted-decimal form: four fields of digits, each at most 255. */
  predicate IsIPv4Literal(address: string)
  {
    DottedQuadFrom(address, 0, 0, 0, 0)
  }

  /** IsValidIpAddress: whether net.ParseIP accepts the address, as IPv4 when it is
      a dotted-decimal address, and otherwise as IPv6, which `ipv6` decides and only
      a text with a ':' can be. */
  function IsValidIpAddress(address: string, ipv6: string -> bool): (r: bool)
    ensures ':' !in address ==> (r <==> IsIPv4Literal(address))
  {
    IsIPv4Literal(address) || (':' in address && ipv6(address))
  }

  /** The address check accepts "10.0.0.1", whatever the IPv6 reading. */
  lemma IPv4AcceptsAddress(ipv6: string -> bool)
    ensures IsValidIpAddress("10.0.0.1", ipv6)
  {
  }

  /** It rejects "10.0.111.256", whose last field exceeds 255. */
  lemma IPv4RejectsLargeOctet(ipv6: string -> bool)
    ensures !IsValidIpAddress("10.0.111.256", ipv6)
  {
  }

  /** It rejects the network "10.0.111.0/24". */
  lemma IPv4RejectsNetwork(ipv6: string -> bool)
    ensures !IsValidIpAddress("10.0.111.0/24", ipv6)
  {
  }
}
