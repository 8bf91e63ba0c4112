/** Peer descriptors as `connect` and `disconnect` take them, and the records they
    register. Splitting a `host:port` string is `url.parse`'s work and is taken as done. */
module Endpoint {
  import opened Formats
  import opened Registry

  /** A port a UDP socket can send to; the socket throws a RangeError for any other number. */
  type UdpPort = n: int | 0 < n < 0x1_0000 witness 1

  /** A bare port number, or a `host:port` string already split into its hostname and
      its port digits. */
  datatype Descriptor = PortNumber(n: UdpPort) | HostPort(host: string, port: string)

  /** The character for one decimal digit. */
  function Digit(d: nat): (c: char)
    requires d < 10
  {
    ('0' as int + d) as char
  }

  /** The decimal digits of n, most significant first, as `'localhost:' + n` writes them. */
  function Decimal(n: nat): (s: string)
    ensures |s| >= 1
    ensures n >= 10 ==> |s| >= 2
    ensures s[|s| - 1] == Digit(n % 10)
    decreases n
  {
    if n < 10 then [Digit(n)] else Decimal(n / 10) + [Digit(n % 10)]
  }

  /** The record registered for a descriptor: a bare number means `localhost:<n>`, and the
      port is the digit string `url.parse` yields, never a number. */
  function Resolve(d: Descriptor): (p: Peer)
    ensures p.port.Digits?
    ensures d.HostPort? ==> p.address == d.host
  {
    match d
    case PortNumber(n) => Peer("localhost", Digits(Decimal(n)))
    case HostPort(host, port) => Peer(host, Digits(port))
  }

  /** Each descriptor of a `connect` or `disconnect` call, resolved, in argument order. */
  function ResolveAll(ds: seq<Descriptor>): (ps: seq<Peer>)
    ensures |ps| == |ds|
    ensures forall i :: 0 <= i < |ds| ==> ps[i] == Resolve(ds[i])
  {
    seq(|ds|, i requires 0 <= i < |ds| => Resolve(ds[i]))
  }

  /** The number a string of decimal digits stands for, read most significant digit first. */
  function DigitsValue(s: string): int
    decreases |s|
  {
    if s == [] then 0 else 10 * DigitsValue(s[..|s| - 1]) + (s[|s| - 1] as int - '0' as int)
  }

  /** s is a decimal numeral as JavaScript writes a number: digits only, at least one, and
      no leading zero unless it is the only digit. */
  predicate IsNumeral(s: string)
  {
    && |s| >= 1
    && (forall i :: 0 <= i < |s| ==> '0' <= s[i] <= '9')
    && (|s| >= 2 ==> s[0] != '0')
  }

  /** `Decimal(n)` is the decimal numeral of n: it is made of digits, has no leading zero,
      and reads back as n. */
  lemma {:induction false} DecimalValue(n: nat)
    ensures IsNumeral(Decimal(n))
    ensures DigitsValue(Decimal(n)) == n
    decreases n
  {
    if n >= 10 {
      DecimalValue(n / 10);
      var s := Decimal(n);
      assert s[..|s| - 1] == Decimal(n / 10);
      assert s[0] == Decimal(n / 10)[0];
    }
  }

  /** A numeral with a nonzero first digit stands for a positive number. */
  lemma {:induction false} NumeralPositive(s: string)
    requires IsNumeral(s) && s[0] != '0'
    ensures DigitsValue(s) >= 1
    decreases |s|
  {
    if |s| >= 2 {
      var front := s[..|s| - 1];
      assert front[0] == s[0];
      NumeralPositive(front);
    }
  }

  /** Every numeral is the one `Decimal` writes for its value. */
  lemma {:induction false} NumeralDecimal(s: string)
    requires IsNumeral(s)
    ensures DigitsValue(s) >= 0
    ensures Decimal(DigitsValue(s)) == s
    decreases |s|
  {
    var last := s[|s| - 1] as int - '0' as int;
    if |s| == 1 {
      assert DigitsValue(s) == 10 * DigitsValue([]) + last;
      assert [Digit(last)] == s;
    } else {
      var front := s[..|s| - 1];
      assert front[0] == s[0];
      NumeralDecimal(front);
      NumeralPositive(front);
      var v := DigitsValue(front);
      assert (10 * v + last) / 10 == v && (10 * v + last) % 10 == last;
      assert s == front + [Digit(last)];
    }
  }

  /** `connect(n)` and `connect('localhost:' + digits)` register the same record exactly
      when the digits are the numeral of n. */
  lemma ResolveNumeral(n: UdpPort, s: string)
    requires IsNumeral(s)
    ensures Resolve(HostPort("localhost", s)) == Resolve(PortNumber(n)) <==> DigitsValue(s) == n
  {
    NumeralDecimal(s);
    DecimalValue(n);
  }

  /** Distinct numbers write distinct digit strings. */
  lemma {:induction false} DecimalInjective(a: nat, b: nat)
    requires Decimal(a) == Decimal(b)
    ensures a == b
    decreases a
  {
    if a >= 10 && b >= 10 {
      var da, db := Decimal(a), Decimal(b);
      assert Decimal(a / 10) == da[..|da| - 1];
      assert Decimal(b / 10) == db[..|db| - 1];
      DecimalInjective(a / 10, b / 10);
    }
  }

  /** A bare port number resolves to a `localhost` record whose port is a string, and
      distinct numbers never resolve to the same record. */
  lemma ResolvePortNumber(a: UdpPort, b: UdpPort)
    ensures Resolve(PortNumber(a)).address == "localhost"
    ensures Resolve(PortNumber(a)).port.Digits?
    ensures Resolve(PortNumber(a)) == Resolve(PortNumber(b)) <==> a == b
  {
    if Resolve(PortNumber(a)) == Resolve(PortNumber(b)) {
      DecimalInjective(a, b);
    }
  }

  /** The flip side: an inbound CONNECT or DISCONNECT from a node that `connect` registered
      does not match its record, so `manage` pushes a second record for the same node. */
  lemma InboundRegistersTwice(d: Descriptor, format: byte, info: Peer)
    requires info.port.Num?
    ensures Managed([Resolve(d)], format, info) == [Resolve(d), info]
  {
    ManagedAbsent([Resolve(d)], format, info);
  }

  /** The socket reports a sender's port as a number, so an inbound CONNECT or DISCONNECT
      never matches a record that `connect` registered: that record survives it. */
  lemma InboundNeverRemovesResolved(peers: seq<Peer>, d: Descriptor, format: byte, info: Peer)
    requires Resolve(d) in peers && info.port.Num?
    ensures Resolve(d) in Managed(peers, format, info)
  {
    ManageOthersUnchanged(peers, format, info, Resolve(d));
  }
}
