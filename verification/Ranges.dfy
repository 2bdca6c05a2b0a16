/**
 MakeRange and CountIP of util/ippool.go: turning the text fields of a pool range into an
 allocation range, and counting the addresses it offers.

 Addresses are integers here; the byte-wise subnet arithmetic is module Ipv4. Text parsing
 is a parameter: an address field is blank, not an address at all, an IPv6 address, or an
 IPv4 address.
 */
module Ranges {
  import opened Wrappers
  import opened Ipv4

  type Addr = nat

  datatype AddressText = Blank | Garbage | V6 | V4(ip: IPBytes)

  datatype SubnetText = BadSubnet | Cidr(ip: IPBytes, prefix: Prefix)

  datatype RangeSpec = RangeSpec(subnet: SubnetText, rangeStart: AddressText, rangeEnd: AddressText, gateway: AddressText)

  /** allocator.Range: the subnet is kept as its network address and prefix length. */
  datatype Range = Range(start: Addr, end: Addr, network: Addr, prefix: Prefix, gateway: Option<Addr>)

  datatype FieldError = InvalidIP | OutOfSubnet | IsNetwork | IsBroadcast

  datatype RangeError = InvalidSubnet | BadStart(e: FieldError) | BadEnd(e: FieldError) | BadGateway(e: FieldError)

  // ---------------------------------------------------------------- specification on integers

  /** The block of addresses [network, network + BlockSize(prefix)) and its two reserved ends. */
  function Network(ip: IPBytes, p: Prefix): (n: Addr)
    ensures n == NetworkOf(ToInt(ip), p)
  {
    NetworkValue(ip, p);
    ToInt(Masked(ip, p))
  }

  function Broadcast(network: Addr, p: Prefix): Addr {
    network + BlockSize(p) - 1
  }

  predicate InSubnet(a: Addr, network: Addr, p: Prefix) {
    network <= a <= Broadcast(network, p)
  }

  predicate Interior(a: Addr, network: Addr, p: Prefix) {
    network < a < Broadcast(network, p)
  }

  /** An address field as an integer. */
  datatype Field = NoValue | NotIPv4(e: FieldError) | Address(a: Addr)

  function Read(text: AddressText): Field {
    match text
    case Blank => NoValue
    case Garbage => NotIPv4(InvalidIP)
    case V6 => NotIPv4(OutOfSubnet)
    case V4(ip) => Address(ToInt(ip))
  }

  /** The value of an address field: its default when blank, otherwise an interior address. */
  function FieldValue(field: Field, network: Addr, p: Prefix, default: Option<Addr>): Result<Option<Addr>, FieldError> {
    match field
    case NoValue => Ok(default)
    case NotIPv4(e) => Err(e)
    case Address(a) =>
      if !InSubnet(a, network, p) then Err(OutOfSubnet)
      else if a == network then Err(IsNetwork)
      else if a == Broadcast(network, p) then Err(IsBroadcast)
      else Ok(Some(a))
  }

  function DefaultStart(network: Addr, p: Prefix): Addr {
    if p == MAX_PREFIX then network else network + 1
  }

  function DefaultEnd(network: Addr, p: Prefix): Addr {
    if p == MAX_PREFIX then network else assert BlockSize(p) >= 2; network + BlockSize(p) - 2
  }

  function DefaultGateway(network: Addr, p: Prefix): Option<Addr> {
    if p == MAX_PREFIX then None else Some(network + 1)
  }

  /** What MakeRange returns for a subnet whose network address is `n`. */
  function RangeAt(n: Addr, p: Prefix, rangeStart: Field, rangeEnd: Field, gatewayField: Field): Result<Range, RangeError> {
    match FieldValue(rangeStart, n, p, Some(DefaultStart(n, p)))
    case Err(e) => Err(BadStart(e))
    case Ok(start) =>
      match FieldValue(rangeEnd, n, p, Some(DefaultEnd(n, p)))
      case Err(e) => Err(BadEnd(e))
      case Ok(end) =>
        match FieldValue(gatewayField, n, p, DefaultGateway(n, p))
        case Err(e) => Err(BadGateway(e))
        case Ok(gateway) =>
          if start.value > end.value
          then Ok(Range(end.value, start.value, n, p, gateway))
          else Ok(Range(start.value, end.value, n, p, gateway))
  }

  /** What MakeRange returns. */
  function RangeOf(r: RangeSpec): Result<Range, RangeError> {
    match r.subnet
    case BadSubnet => Err(InvalidSubnet)
    case Cidr(ip, p) => RangeAt(Network(ip, p), p, Read(r.rangeStart), Read(r.rangeEnd), Read(r.gateway))
  }

  // ---------------------------------------------------------------- the source's procedures

  lemma CanonicalValue(n: IPNet)
    requires Canonical(n)
    ensures NetworkOf(ToInt(n.ip), n.prefix) == ToInt(n.ip)
  {
    NetworkValue(n.ip, n.prefix);
  }

  lemma ContainsInterval(n: IPNet, ip: IPBytes)
    requires Canonical(n)
    ensures ContainsBytes(n, ip) <==> InSubnet(ToInt(ip), ToInt(n.ip), n.prefix)
  {
    ContainsValue(n, ip);
    CanonicalValue(n);
  }

  lemma EqualsNetwork(n: IPNet, ip: IPBytes)
    requires Canonical(n)
    ensures ip == Masked(n.ip, n.prefix) <==> ToInt(ip) == ToInt(n.ip)
  {
    if ToInt(ip) == ToInt(n.ip) {
      ToIntInjective(ip, n.ip);
    }
  }

  lemma EqualsBroadcast(n: IPNet, ip: IPBytes)
    requires Canonical(n)
    ensures ip == BroadcastBytes(n) <==> ToInt(ip) == Broadcast(ToInt(n.ip), n.prefix)
  {
    CanonicalValue(n);
    BroadcastValue(n);
    if ToInt(ip) == ToInt(BroadcastBytes(n)) {
      ToIntInjective(ip, BroadcastBytes(n));
    }
  }

  method ParseIP(text: AddressText, n: IPNet, default: Option<Addr>) returns (r: Result<Option<Addr>, FieldError>)
    requires Canonical(n)
    ensures r == FieldValue(Read(text), ToInt(n.ip), n.prefix, default)
  {
    match text
    case Blank => return Ok(default);
    case Garbage => return Err(InvalidIP);
    case V6 => return Err(OutOfSubnet);
    case V4(ip) =>
      ContainsInterval(n, ip);
      EqualsNetwork(n, ip);
      EqualsBroadcast(n, ip);
      if !ContainsBytes(n, ip) {
        return Err(OutOfSubnet);
      }
      if ip == Masked(n.ip, n.prefix) {
        return Err(IsNetwork);
      }
      var broadcast := BroadcastIP(n);
      if ip == broadcast[..] {
        return Err(IsBroadcast);
      }
      return Ok(Some(ToInt(ip)));
  }

  /** net.ParseCIDR: the subnet with its host bits cleared. */
  function ParseCIDR(ip: IPBytes, p: Prefix): (n: IPNet)
    ensures Canonical(n) && n.prefix == p && ToInt(n.ip) == Network(ip, p)
  {
    MaskTwice(ip, p);
    IPNet(Masked(ip, p), p)
  }

  lemma SingleAddress(ip: IPBytes)
    ensures Network(ip, MAX_PREFIX) == ToInt(ip)
  {
    assert BlockSize(MAX_PREFIX) == 1;
  }

  /** The defaults MakeRange computes before it reads the fields. */
  method Defaults(ip: IPBytes, n: IPNet) returns (start: Addr, end: Addr, gateway: Option<Addr>)
    requires n == ParseCIDR(ip, n.prefix)
    ensures start == DefaultStart(ToInt(n.ip), n.prefix)
    ensures end == DefaultEnd(ToInt(n.ip), n.prefix)
    ensures gateway == DefaultGateway(ToInt(n.ip), n.prefix)
  {
    if n.prefix == MAX_PREFIX {
      SingleAddress(ip);
      start, end, gateway := ToInt(ip), ToInt(ip), None;
    } else {
      CanonicalValue(n);
      var last := LastIP(n);
      start, end, gateway := ToInt(n.ip) + 1, ToInt(last[..]), Some(ToInt(n.ip) + 1);
    }
  }

  method MakeRange(r: RangeSpec) returns (res: Result<Range, RangeError>)
    ensures res == RangeOf(r)
    ensures res.Ok? ==> r.subnet.Cidr? && UsesFields(res.value, r)
  {
    if RangeOf(r).Ok? {
      FieldsAreUsed(r);
    }
    if r.subnet.BadSubnet? {
      return Err(InvalidSubnet);
    }
    var ipNet := ParseCIDR(r.subnet.ip, r.subnet.prefix);
    var defaultStart, defaultEnd, defaultGateway := Defaults(r.subnet.ip, ipNet);
    var start := ParseIP(r.rangeStart, ipNet, Some(defaultStart));
    if start.Err? {
      return Err(BadStart(start.error));
    }
    var end := ParseIP(r.rangeEnd, ipNet, Some(defaultEnd));
    if end.Err? {
      return Err(BadEnd(end.error));
    }
    var gateway := ParseIP(r.gateway, ipNet, defaultGateway);
    if gateway.Err? {
      return Err(BadGateway(gateway.error));
    }
    var s, e := start.value.value, end.value.value;
    if s > e {
      s, e := e, s;
    }
    return Ok(Range(s, e, ToInt(ipNet.ip), ipNet.prefix, gateway.value));
  }

  // ---------------------------------------------------------------- bounds

  /** A field MakeRange accepts: blank or an interior address. */
  predicate GoodField(field: Field, network: Addr, p: Prefix) {
    field.NoValue? || (field.Address? && Interior(field.a, network, p))
  }

  lemma BlockAtLeast(p: Prefix)
    ensures p <= 30 ==> BlockSize(p) >= 4
    ensures p == 31 ==> BlockSize(p) == 2
    ensures p == 32 ==> BlockSize(p) == 1
  {
    if p <= 30 {
      assert Pow2(32 - p) == 4 * Pow2(30 - p);
    } else if p == 31 {
      assert Pow2(1) == 2;
    }
  }

  lemma FieldBounds(field: Field, n: Addr, p: Prefix, default: Option<Addr>)
    ensures FieldValue(field, n, p, default).Ok? <==> GoodField(field, n, p)
    ensures FieldValue(field, n, p, default).Ok? ==>
      var v := FieldValue(field, n, p, default).value;
      if field.NoValue? then v == default else v == Some(field.a) && Interior(field.a, n, p)
  {}

  lemma BoundsAt(n: Addr, p: Prefix, rangeStart: Field, rangeEnd: Field, gateway: Field)
    requires p <= 30
    ensures var r := RangeAt(n, p, rangeStart, rangeEnd, gateway);
      && (r.Ok? <==> GoodField(rangeStart, n, p) && GoodField(rangeEnd, n, p) && GoodField(gateway, n, p))
      && (r.Ok? ==>
            var g := r.value;
            && g.network == n && g.prefix == p
            && n < g.start <= g.end < Broadcast(n, p)
            && g.gateway.Some? && Interior(g.gateway.value, n, p))
  {
    BlockAtLeast(p);
    FieldBounds(rangeStart, n, p, Some(DefaultStart(n, p)));
    FieldBounds(rangeEnd, n, p, Some(DefaultEnd(n, p)));
    FieldBounds(gateway, n, p, DefaultGateway(n, p));
  }

  /**
   For a prefix of at most 30, MakeRange succeeds exactly when every given field is an
   interior address of the subnet, and then network < start <= end < broadcast with the
   gateway strictly between network and broadcast.
   */
  lemma RangeBounds(r: RangeSpec)
    requires r.subnet.Cidr? && r.subnet.prefix <= 30
    ensures var n, p := Network(r.subnet.ip, r.subnet.prefix), r.subnet.prefix;
      && (RangeOf(r).Ok? <==>
            GoodField(Read(r.rangeStart), n, p) && GoodField(Read(r.rangeEnd), n, p) && GoodField(Read(r.gateway), n, p))
      && (RangeOf(r).Ok? ==>
            var g := RangeOf(r).value;
            && g.network == n && g.prefix == p
            && n < g.start <= g.end < Broadcast(n, p)
            && g.gateway.Some? && Interior(g.gateway.value, n, p))
  {
    BoundsAt(Network(r.subnet.ip, r.subnet.prefix), r.subnet.prefix, Read(r.rangeStart), Read(r.rangeEnd), Read(r.gateway));
  }

  lemma PointToPointAt(n: Addr, p: Prefix, rangeStart: Field, rangeEnd: Field, gateway: Field)
    requires p > 30
    ensures var r := RangeAt(n, p, rangeStart, rangeEnd, gateway);
      && (r.Ok? <==> rangeStart.NoValue? && rangeEnd.NoValue? && gateway.NoValue?)
      && (r.Ok? && p == 31 ==> r.value == Range(n, n + 1, n, 31, Some(n + 1)))
      && (r.Ok? && p == 32 ==> r.value == Range(n, n, n, 32, None))
  {
    BlockAtLeast(p);
    FieldBounds(rangeStart, n, p, Some(DefaultStart(n, p)));
    FieldBounds(rangeEnd, n, p, Some(DefaultEnd(n, p)));
    FieldBounds(gateway, n, p, DefaultGateway(n, p));
  }

  /**
   A /31 or /32 succeeds exactly when all three fields are blank: every address it has is
   its network or its broadcast address. The range of the /31 spans both addresses, the
   second being the gateway; that of the /32 is its single address without a gateway.
   */
  lemma PointToPoint(r: RangeSpec)
    requires r.subnet.Cidr? && r.subnet.prefix > 30
    ensures RangeOf(r).Ok? <==> r.rangeStart.Blank? && r.rangeEnd.Blank? && r.gateway.Blank?
    ensures RangeOf(r).Ok? && r.subnet.prefix == 31 ==>
      var n := Network(r.subnet.ip, 31);
      RangeOf(r).value == Range(n, n + 1, n, 31, Some(n + 1))
    ensures RangeOf(r).Ok? && r.subnet.prefix == 32 ==>
      var n := ToInt(r.subnet.ip);
      RangeOf(r).value == Range(n, n, n, 32, None)
  {
    PointToPointAt(Network(r.subnet.ip, r.subnet.prefix), r.subnet.prefix, Read(r.rangeStart), Read(r.rangeEnd), Read(r.gateway));
    SingleAddress(r.subnet.ip);
  }

  // ---------------------------------------------------------------- the fields used

  /** The address a field gives, or the default where it is blank. */
  function GivenOr(text: AddressText, default: nat): nat {
    if text.V4? then ToInt(text.ip) else default
  }

  /** The range uses the given fields: gateway as given, start and end as given in either order. */
  predicate UsesFields(g: Range, r: RangeSpec)
    requires r.subnet.Cidr?
  {
    var p := r.subnet.prefix;
    var base := NetworkOf(ToInt(r.subnet.ip), p);
    var first, last := GivenOr(r.rangeStart, if p == 32 then base else base + 1),
                       GivenOr(r.rangeEnd, if p == 32 then base else base + BlockSize(p) - 2);
    && g.network == base && g.prefix == p
    && g.start == (if first <= last then first else last)
    && g.end == (if first <= last then last else first)
    && g.gateway == (if r.gateway.V4? then Some(ToInt(r.gateway.ip)) else if p == 32 then None else Some(base + 1))
  }

  lemma ReadAccepted(text: AddressText, n: Addr, p: Prefix, default: Option<Addr>)
    requires FieldValue(Read(text), n, p, default).Ok?
    ensures text.V4? || text.Blank?
    ensures FieldValue(Read(text), n, p, default).value == if text.V4? then Some(ToInt(text.ip)) else default
  {}

  lemma OrderedFields(n: Addr, p: Prefix, rangeStart: Field, rangeEnd: Field, gateway: Field)
    requires RangeAt(n, p, rangeStart, rangeEnd, gateway).Ok?
    ensures var first := FieldValue(rangeStart, n, p, Some(DefaultStart(n, p)));
            var last := FieldValue(rangeEnd, n, p, Some(DefaultEnd(n, p)));
            var gate := FieldValue(gateway, n, p, DefaultGateway(n, p));
      && first.Ok? && first.value.Some? && last.Ok? && last.value.Some? && gate.Ok?
      && RangeAt(n, p, rangeStart, rangeEnd, gateway).value ==
         Range(if first.value.value <= last.value.value then first.value.value else last.value.value,
               if first.value.value <= last.value.value then last.value.value else first.value.value, n, p, gate.value)
  {}

  /** Every range made has the fields it was given, and the documented defaults for those left blank. */
  lemma FieldsAreUsed(r: RangeSpec)
    requires RangeOf(r).Ok?
    ensures r.subnet.Cidr? && UsesFields(RangeOf(r).value, r)
  {
    var n, p := Network(r.subnet.ip, r.subnet.prefix), r.subnet.prefix;
    OrderedFields(n, p, Read(r.rangeStart), Read(r.rangeEnd), Read(r.gateway));
    ReadAccepted(r.rangeStart, n, p, Some(DefaultStart(n, p)));
    ReadAccepted(r.rangeEnd, n, p, Some(DefaultEnd(n, p)));
    ReadAccepted(r.gateway, n, p, DefaultGateway(n, p));
  }

  /** A given gateway is never offered. */
  lemma GatewayNotOffered(r: RangeSpec)
    requires RangeOf(r).Ok? && r.gateway.V4?
    ensures ToInt(r.gateway.ip) !in Candidates(RangeOf(r).value)
  {
    FieldsAreUsed(r);
  }

  /** Why a field is refused, in the order the source asks. */
  predicate Refused(text: AddressText, base: int, p: Prefix, e: FieldError) {
    match e
    case InvalidIP => text.Garbage?
    case OutOfSubnet => text.V6? || (text.V4? && !(base <= ToInt(text.ip) < base + BlockSize(p)))
    case IsNetwork => text.V4? && ToInt(text.ip) == base
    case IsBroadcast => text.V4? && ToInt(text.ip) == base + BlockSize(p) - 1 && ToInt(text.ip) != base
  }

  lemma RefusedExactly(text: AddressText, n: Addr, p: Prefix, default: Option<Addr>, e: FieldError)
    ensures FieldValue(Read(text), n, p, default) == Err(e) <==> Refused(text, n, p, e)
  {}

  predicate Acceptable(text: AddressText, base: int, p: Prefix) {
    forall e :: !Refused(text, base, p, e)
  }

  lemma AcceptableExactly(text: AddressText, n: Addr, p: Prefix, default: Option<Addr>)
    ensures FieldValue(Read(text), n, p, default).Ok? <==> Acceptable(text, n, p)
  {
    var v := FieldValue(Read(text), n, p, default);
    forall e: FieldError ensures v == Err(e) <==> Refused(text, n, p, e) {
      RefusedExactly(text, n, p, default, e);
    }
    if v.Err? {
      assert Refused(text, n, p, v.error);
    }
  }

  /** Exactly which error is reported: of the subnet, else of the first field refused, for its first reason. */
  lemma ErrorsExactly(r: RangeSpec, e: FieldError)
    ensures RangeOf(r) == Err(InvalidSubnet) <==> r.subnet.BadSubnet?
    ensures r.subnet.Cidr? ==>
      var p := r.subnet.prefix; var base := NetworkOf(ToInt(r.subnet.ip), p);
      && (RangeOf(r) == Err(BadStart(e)) <==> Refused(r.rangeStart, base, p, e))
      && (RangeOf(r) == Err(BadEnd(e)) <==> Acceptable(r.rangeStart, base, p) && Refused(r.rangeEnd, base, p, e))
      && (RangeOf(r) == Err(BadGateway(e)) <==>
            Acceptable(r.rangeStart, base, p) && Acceptable(r.rangeEnd, base, p) && Refused(r.gateway, base, p, e))
  {
    if r.subnet.Cidr? {
      var n, p := Network(r.subnet.ip, r.subnet.prefix), r.subnet.prefix;
      AcceptableExactly(r.rangeStart, n, p, Some(DefaultStart(n, p)));
      AcceptableExactly(r.rangeEnd, n, p, Some(DefaultEnd(n, p)));
      RefusedExactly(r.rangeStart, n, p, Some(DefaultStart(n, p)), e);
      RefusedExactly(r.rangeEnd, n, p, Some(DefaultEnd(n, p)), e);
      RefusedExactly(r.gateway, n, p, DefaultGateway(n, p), e);
    }
  }

  // ---------------------------------------------------------------- counting

  predicate Contains(r: Range, a: Addr) {
    InSubnet(a, r.network, r.prefix) && r.start <= a <= r.end
  }

  /** What MakeRange guarantees of every range it makes. */
  predicate WellFormed(r: Range) {
    && r.start <= r.end
    && InSubnet(r.start, r.network, r.prefix) && InSubnet(r.end, r.network, r.prefix)
  }

  lemma RangeWellFormed(r: RangeSpec)
    requires RangeOf(r).Ok?
    ensures WellFormed(RangeOf(r).value)
  {
    if r.subnet.prefix <= 30 {
      RangeBounds(r);
    } else {
      PointToPoint(r);
      BlockAtLeast(r.subnet.prefix);
    }
  }

  /** CountIP. */
  function CountIP(r: Range): int {
    r.end - r.start + 1 - (if r.gateway.Some? && Contains(r, r.gateway.value) then 1 else 0)
  }

  predicate Between(lo: Addr, a: Addr, hi: Addr) {
    lo <= a <= hi
  }

  /** The addresses a range offers: everything from start to end but its own gateway. */
  function Candidates(r: Range): set<Addr> {
    set a | r.start <= a <= r.end && Between(r.start, a, r.end) && Some(a) != r.gateway
  }

  lemma IntervalSize(lo: Addr, hi: Addr)
    requires lo <= hi
    ensures |set a | lo <= a <= hi && Between(lo, a, hi)| == hi - lo + 1
    decreases hi - lo
  {
    var s := set a | lo <= a <= hi && Between(lo, a, hi);
    if lo < hi {
      var next := lo + 1;
      IntervalSize(next, hi);
      assert s == (set a | next <= a <= hi && Between(next, a, hi)) + {lo};
    } else {
      assert s == {lo};
    }
  }

  /** CountIP counts the addresses the range offers. */
  lemma CountIsSize(r: Range)
    requires WellFormed(r)
    ensures CountIP(r) == |Candidates(r)|
  {
    var all := set a | r.start <= a <= r.end && Between(r.start, a, r.end);
    IntervalSize(r.start, r.end);
    if r.gateway.Some? && Contains(r, r.gateway.value) {
      assert Candidates(r) == all - {r.gateway.value};
    } else {
      assert Candidates(r) == all;
    }
  }
}
