/** Reading DHCP options: options.go, and the routes a lease yields. */
module DhcpOptions {
  import opened Wrappers
  import opened Bytes
  import opened Cidr
  import opened Masks

  const OPTION_ROUTER := 3
  const OPTION_STATIC_ROUTE := 33
  const OPTION_LEASE_TIME := 51
  const OPTION_RENEWAL_TIME := 58
  const OPTION_REBINDING_TIME := 59
  const OPTION_CLASSLESS_ROUTE := 121

  type Options = map<int, seq<Byte>>

  datatype Route = Route(dst: IP, mask: seq<Byte>, gw: IP)

  // ---- Classless static routes ----

  /** How many octets of the destination a descriptor of the given width carries. */
  function Octets(width: nat): nat {
    if width == 0 then 0 else (width - 1) / 8 + 1
  }

  /** A destination's significant octets, filled up to four. */
  function Padded(octets: seq<Byte>): (ip: IP)
    requires |octets| <= 4
    ensures |ip| == 4
  {
    octets + [0, 0, 0, 0][|octets|..]
  }

  /** Reads descriptors until fewer than five bytes are left; None stands for nil. */
  function ParseDescriptors(opt: seq<Byte>): Option<seq<Route>> {
    if |opt| < 5 then Some([])
    else if opt[0] > 32 || |opt| < Octets(opt[0]) + 5 then None
    else
      var n := Octets(opt[0]);
      match ParseDescriptors(opt[n + 5..])
      case None => None
      case Some(routes) => Some([ReadRoute(opt)] + routes)
  }

  /** The route of the descriptor a byte string starts with. */
  function ReadRoute(opt: seq<Byte>): Route
    requires opt != [] && opt[0] <= 32 && Octets(opt[0]) + 5 <= |opt|
  {
    var n := Octets(opt[0]);
    Route(Padded(opt[1..n + 1]), CIDRMask(opt[0], 4), opt[n + 1..n + 5])
  }

  lemma OctetsDef(width: nat)
    requires width <= 32
    ensures Octets(width) == (if width > 0 then (width - 1) / 8 + 1 else 0) <= 4
  {
  }

  lemma ReadRouteDef(opt: seq<Byte>, n: nat)
    requires opt != [] && opt[0] <= 32 && n == Octets(opt[0]) <= 4 && n + 5 <= |opt|
    ensures ReadRoute(opt) == Route(Padded(opt[1..n + 1]), CIDRMask(opt[0], 4), opt[n + 1..n + 5])
  {
    hide CIDRMask;
    hide Octets;
  }

  method ParseCIDRRoutes(opts: Options) returns (routes: Option<seq<Route>>)
    ensures routes
         == if OPTION_CLASSLESS_ROUTE in opts then ParseDescriptors(opts[OPTION_CLASSLESS_ROUTE]) else Some([])
  {
    hide ReadRoute;
    hide CIDRMask;
    hide Octets;
    var found: seq<Route> := [];
    if OPTION_CLASSLESS_ROUTE in opts {
      var opt := opts[OPTION_CLASSLESS_ROUTE];
      ghost var all := ParseDescriptors(opt);
      while |opt| >= 5
        invariant all.Some? <==> ParseDescriptors(opt).Some?
        invariant all.Some? ==> all.value == found + ParseDescriptors(opt).value
        decreases |opt|
      {
        var width := opt[0];
        if width > 32 {
          return None;
        }
        var octets := 0;
        if width > 0 {
          octets := (width - 1) / 8 + 1;
        }
        OctetsDef(width);
        if |opt| < 1 + octets + 4 {
          return None;
        }
        var sn := Padded(opt[1..octets + 1]);
        var gw := opt[octets + 1..octets + 5];
        var rt := Route(sn, CIDRMask(width, 4), gw);
        ReadRouteDef(opt, octets);
        ghost var later := ParseDescriptors(opt[octets + 5..]);
        assert later.Some? ==> found + ([rt] + later.value) == found + [rt] + later.value;
        found := found + [rt];
        opt := opt[octets + 5..];
      }
      assert found + [] == found;
    }
    return Some(found);
  }

  /** A route that a descriptor can carry. */
  ghost predicate ValidRoute(r: Route, width: nat) {
    && width <= 32
    && r.mask == CIDRMask(width, 4)
    && |r.dst| == 4 && |r.gw| == 4
    && forall i :: Octets(width) <= i < 4 ==> r.dst[i] == 0
  }

  ghost predicate ValidRoutes(routes: seq<Route>) {
    forall i :: 0 <= i < |routes| ==> ValidRoute(routes[i], Width(routes[i]))
  }

  function Width(r: Route): nat {
    SimpleMaskLength(r.mask).GetOr(0)
  }

  /** The encoder: width, significant octets of the destination, router. */
  ghost function EncodeRoute(r: Route): seq<Byte>
    requires ValidRoute(r, Width(r))
  {
    [Width(r)] + r.dst[..Octets(Width(r))] + r.gw
  }

  ghost function Encode(routes: seq<Route>): seq<Byte>
    requires ValidRoutes(routes)
  {
    if routes == [] then [] else EncodeRoute(routes[0]) + Encode(routes[1..])
  }

  lemma EncodeFront(r: Route, routes: seq<Route>, tail: seq<Byte>)
    requires ValidRoute(r, Width(r)) && ValidRoutes(routes)
    ensures ValidRoutes([r] + routes)
    ensures Encode([r] + routes) + tail == EncodeRoute(r) + (Encode(routes) + tail)
  {
    hide ValidRoute;
    hide EncodeRoute;
    hide Width;
    assert ([r] + routes)[1..] == routes;
  }

  lemma ValidTail(routes: seq<Route>)
    requires ValidRoutes(routes) && routes != []
    ensures ValidRoute(routes[0], Width(routes[0])) && ValidRoutes(routes[1..]) && routes == [routes[0]] + routes[1..]
  {
    hide ValidRoute;
    hide Width;
  }

  lemma WidthOfMask(r: Route, width: nat)
    requires width <= 32 && r.mask == CIDRMask(width, 4)
    ensures Width(r) == width
  {
    hide CIDRMask;
    hide SimpleMaskLength;
    MaskLengthExact(r.mask, width);
  }

  /** Reading what was written for one route, whatever follows. */
  lemma ReadEncoded(r: Route, rest: seq<Byte>)
    requires ValidRoute(r, Width(r))
    ensures var b := EncodeRoute(r) + rest;
      && |b| >= 5 && b[0] <= 32 && Octets(b[0]) + 5 <= |b|
      && ReadRoute(b) == r
      && b[Octets(b[0]) + 5..] == rest
  {
    hide CIDRMask;
    hide SimpleMaskLength;
    var n, b := Octets(Width(r)), EncodeRoute(r) + rest;
    assert b[0] == Width(r);
    assert b[1..n + 1] == r.dst[..n];
    assert b[n + 1..n + 5] == r.gw;
    assert Padded(r.dst[..n]) == r.dst;
  }

  /** Parsing an encoding followed by at most four bytes gives the routes back. */
  lemma {:induction false} ParseEncoded(routes: seq<Route>, tail: seq<Byte>)
    requires ValidRoutes(routes) && |tail| <= 4
    ensures ParseDescriptors(Encode(routes) + tail) == Some(routes)
    decreases |routes|
  {
    hide ReadRoute;
    hide ValidRoutes;
    hide ValidRoute;
    hide Octets;
    hide EncodeRoute;
    hide Width;
    if routes == [] {
      assert Encode(routes) + tail == tail;
    } else {
      var r, rest := routes[0], routes[1..];
      ValidTail(routes);
      EncodeFront(r, rest, tail);
      ReadEncoded(r, Encode(rest) + tail);
      ParseEncoded(rest, tail);
    }
  }

  /** Writing what was read for one route. */
  lemma EncodeRead(opt: seq<Byte>)
    requires |opt| >= 5 && opt[0] <= 32 && Octets(opt[0]) + 5 <= |opt|
    ensures var r := ReadRoute(opt);
      && ValidRoute(r, Width(r))
      && EncodeRoute(r) == opt[..Octets(opt[0]) + 5]
  {
    hide CIDRMask;
    hide SimpleMaskLength;
    var r, n := ReadRoute(opt), Octets(opt[0]);
    WidthOfMask(r, opt[0]);
    assert r.dst[..n] == opt[1..n + 1];
    assert opt[..n + 5] == [opt[0]] + opt[1..n + 1] + opt[n + 1..n + 5];
  }

  /** What an accepted option yields encodes back to all but fewer than five bytes of it. */
  lemma {:induction false} EncodeParsed(opt: seq<Byte>)
    requires ParseDescriptors(opt).Some?
    ensures var routes := ParseDescriptors(opt).value;
      && ValidRoutes(routes)
      && Encode(routes) <= opt
      && |opt| - |Encode(routes)| < 5
    decreases |opt|
  {
    hide ReadRoute;
    hide ValidRoutes;
    hide ValidRoute;
    hide Octets;
    hide EncodeRoute;
    hide Width;
    NoRoutes();
    if |opt| >= 5 {
      var n := Octets(opt[0]);
      EncodeRead(opt);
      EncodeParsed(opt[n + 5..]);
      var rest := ParseDescriptors(opt[n + 5..]).value;
      EncodeFront(ReadRoute(opt), rest, []);
      assert Encode([ReadRoute(opt)] + rest) + [] == Encode([ReadRoute(opt)] + rest);
      assert Encode(rest) + [] == Encode(rest);
      assert opt == opt[..n + 5] + opt[n + 5..];
    }
  }

  lemma NoRoutes()
    ensures ValidRoutes([]) && Encode([]) == []
  {
  }

  /** Good descriptors followed by one that is too wide or cut short. */
  ghost predicate BreaksAt(opt: seq<Byte>, routes: seq<Route>, rest: seq<Byte>) {
    && ValidRoutes(routes)
    && opt == Encode(routes) + rest
    && |rest| >= 5
    && (rest[0] > 32 || |rest| < Octets(rest[0]) + 5)
  }

  /** An option is rejected exactly when a descriptor that is reached is too wide or cut short. */
  lemma {:induction false} RejectedExactly(opt: seq<Byte>)
    ensures ParseDescriptors(opt).None? <==> exists routes, rest :: BreaksAt(opt, routes, rest)
    decreases |opt|
  {
    hide ReadRoute;
    hide BreaksAt;
    if routes, rest :| BreaksAt(opt, routes, rest) {
      BreakIsFatal(opt, routes, rest);
    }
    if ParseDescriptors(opt).None? {
      if opt[0] > 32 || |opt| < Octets(opt[0]) + 5 {
        BreaksAtOnce(opt);
      } else {
        var later := opt[Octets(opt[0]) + 5..];
        RejectedExactly(later);
        var routes, rest :| BreaksAt(later, routes, rest);
        BreaksLater(opt, routes, rest);
      }
    }
  }

  lemma BreaksAtOnce(opt: seq<Byte>)
    requires |opt| >= 5 && (opt[0] > 32 || |opt| < Octets(opt[0]) + 5)
    ensures BreaksAt(opt, [], opt)
  {
    hide ValidRoute;
    NoRoutes();
    assert [] + opt == opt;
  }

  lemma BreaksLater(opt: seq<Byte>, routes: seq<Route>, rest: seq<Byte>)
    requires |opt| >= 5 && opt[0] <= 32 && Octets(opt[0]) + 5 <= |opt|
    requires BreaksAt(opt[Octets(opt[0]) + 5..], routes, rest)
    ensures BreaksAt(opt, [ReadRoute(opt)] + routes, rest)
  {
    hide ReadRoute;
    hide EncodeRoute;
    hide ValidRoutes;
    hide ValidRoute;
    hide Width;
    hide Encode;
    EncodeRead(opt);
    EncodeFront(ReadRoute(opt), routes, rest);
    assert opt == opt[..Octets(opt[0]) + 5] + opt[Octets(opt[0]) + 5..];
  }

  lemma {:induction false} BreakIsFatal(opt: seq<Byte>, routes: seq<Route>, rest: seq<Byte>)
    requires BreaksAt(opt, routes, rest)
    ensures ParseDescriptors(opt).None?
    decreases |routes|
  {
    hide ReadRoute;
    hide EncodeRoute;
    hide ValidRoutes;
    hide ValidRoute;
    hide Width;
    if routes == [] {
      assert opt == rest;
    } else {
      var r := routes[0];
      ValidTail(routes);
      EncodeFront(r, routes[1..], rest);
      var next := Encode(routes[1..]) + rest;
      ReadEncoded(r, next);
      BreakIsFatal(next, routes[1..], rest);
    }
  }

  // ---- Classful static routes and the router ----

  /** IP.DefaultMask of a 4-byte address. */
  function DefaultMask(ip: IP): seq<Byte>
    requires |ip| == 4
  {
    if ip[0] < 0x80 then [255, 0, 0, 0] else if ip[0] < 0xC0 then [255, 255, 0, 0] else [255, 255, 255, 0]
  }

  function StaticRoutes(opt: seq<Byte>): seq<Route> {
    if |opt| < 8 then [] else [Route(opt[0..4], DefaultMask(opt[0..4]), opt[4..8])] + StaticRoutes(opt[8..])
  }

  method ParseRoutes(opts: Options) returns (routes: seq<Route>)
    ensures routes == if OPTION_STATIC_ROUTE in opts then StaticRoutes(opts[OPTION_STATIC_ROUTE]) else []
  {
    routes := [];
    if OPTION_STATIC_ROUTE in opts {
      var opt := opts[OPTION_STATIC_ROUTE];
      ghost var all := StaticRoutes(opt);
      while |opt| >= 8
        invariant all == routes + StaticRoutes(opt)
        decreases |opt|
      {
        routes := routes + [Route(opt[0..4], DefaultMask(opt[0..4]), opt[4..8])];
        opt := opt[8..];
      }
    }
  }

  function ParseRouter(opts: Options): Option<IP> {
    if OPTION_ROUTER in opts && |opts[OPTION_ROUTER]| == 4 then Some(opts[OPTION_ROUTER]) else None
  }

  function DefaultRoute(gw: IP): Route {
    Route([0, 0, 0, 0], [0, 0, 0, 0], gw)
  }

  /** The routes of option 121, or none if it is absent or malformed. */
  function ClasslessRoutes(opts: Options): seq<Route> {
    if OPTION_CLASSLESS_ROUTE in opts then ParseDescriptors(opts[OPTION_CLASSLESS_ROUTE]).GetOr([]) else []
  }

  function RoutesSpec(opts: Options): seq<Route> {
    if ClasslessRoutes(opts) != [] then ClasslessRoutes(opts)
    else
      (if OPTION_STATIC_ROUTE in opts then StaticRoutes(opts[OPTION_STATIC_ROUTE]) else [])
      + (match ParseRouter(opts) case Some(gw) => [DefaultRoute(gw)] case None => [])
  }

  /** DHCPLease.Routes. */
  method Routes(opts: Options) returns (routes: seq<Route>)
    ensures routes == RoutesSpec(opts)
  {
    hide ParseDescriptors;
    routes := [];
    var opt121 := ParseCIDRRoutes(opts);
    if |opt121.GetOr([])| > 0 {
      return routes + opt121.GetOr([]);
    }
    var pairs := ParseRoutes(opts);
    routes := routes + pairs;
    var gw := ParseRouter(opts);
    if gw.Some? {
      routes := routes + [DefaultRoute(gw.value)];
    }
  }

  /**
   * The router makes no difference, and neither do static routes, exactly when option 121 yields a
   * route. A present but malformed or empty option 121 does not make them ignored.
   */
  lemma RouterIgnoredExactly(opts: Options, gw: IP, pairs: seq<Byte>)
    requires |gw| == 4 && |pairs| >= 8
    ensures RoutesSpec(opts[OPTION_ROUTER := gw]) == RoutesSpec(opts - {OPTION_ROUTER}) <==> ClasslessRoutes(opts) != []
    ensures RoutesSpec(opts[OPTION_STATIC_ROUTE := pairs]) == RoutesSpec(opts - {OPTION_STATIC_ROUTE}) <==>
      ClasslessRoutes(opts) != []
  {
    hide ParseDescriptors;
    hide DefaultMask;
    var withRouter, withoutRouter := opts[OPTION_ROUTER := gw], opts - {OPTION_ROUTER};
    assert ParseRouter(withRouter) == Some(gw) && ParseRouter(withoutRouter) == None;
    assert ClasslessRoutes(withRouter) == ClasslessRoutes(opts) == ClasslessRoutes(withoutRouter);
    var withPairs, withoutPairs := opts[OPTION_STATIC_ROUTE := pairs], opts - {OPTION_STATIC_ROUTE};
    assert ParseRouter(withPairs) == ParseRouter(opts) == ParseRouter(withoutPairs);
    assert ClasslessRoutes(withPairs) == ClasslessRoutes(opts) == ClasslessRoutes(withoutPairs);
    if ClasslessRoutes(opts) == [] {
      assert |RoutesSpec(withRouter)| == |RoutesSpec(withoutRouter)| + 1;
      assert |RoutesSpec(withPairs)| >= |RoutesSpec(withoutPairs)| + 1;
    }
  }

  /** The classful mask is that of /8, /16 or /24, by the leading bits 0, 10 and 11. */
  lemma DefaultMaskIsClassful(ip: IP)
    requires |ip| == 4
    ensures DefaultMask(ip) == CIDRMask(if ip[0] / 128 == 0 then 8 else if ip[0] / 64 == 2 then 16 else 24, 4)
  {
    assert Pow2(8) == 256 by { Pow2Eight(); }
    assert CIDRMask(0, 1) == [0] && CIDRMask(0, 2) == [0] + CIDRMask(0, 1) && CIDRMask(0, 3) == [0] + CIDRMask(0, 2);
    assert CIDRMask(8, 2) == [255] + CIDRMask(0, 1) && CIDRMask(8, 3) == [255] + CIDRMask(0, 2);
    assert CIDRMask(16, 3) == [255] + CIDRMask(8, 2);
  }

  /** Every eight bytes of the option are one route: a destination and a router. */
  lemma {:induction false} StaticRoutesByIndex(opt: seq<Byte>, i: nat)
    requires 8 * i + 8 <= |opt|
    ensures i < |StaticRoutes(opt)|
    ensures StaticRoutes(opt)[i] == PairRoute(opt[8 * i..8 * i + 8])
    decreases i
  {
    hide PairRoute;
    hide StaticRoutes;
    StaticRoutesFront(opt);
    if i > 0 {
      var a := 8 * i;
      assert 8 * (i - 1) == a - 8;
      StaticRoutesByIndex(opt[8..], i - 1);
      LaterSlice(opt, a, a + 8);
    }
  }

  /** The destination, its classful mask, and the router. */
  function PairRoute(pair: seq<Byte>): Route
    requires |pair| == 8
  {
    Route(pair[..4], DefaultMask(pair[..4]), pair[4..])
  }

  lemma StaticRoutesFront(opt: seq<Byte>)
    requires |opt| >= 8
    ensures StaticRoutes(opt) == [PairRoute(opt[..8])] + StaticRoutes(opt[8..])
  {
    hide DefaultMask;
    assert opt[..8][..4] == opt[0..4] && opt[..8][4..] == opt[4..8];
  }

  /** Fewer than eight bytes at the end are no route. */
  lemma {:induction false} StaticRoutesCount(opt: seq<Byte>)
    ensures |StaticRoutes(opt)| == |opt| / 8
  {
    hide DefaultMask;
    if |opt| >= 8 {
      StaticRoutesCount(opt[8..]);
    }
  }

  lemma LaterSlice(opt: seq<Byte>, a: nat, b: nat)
    requires 8 <= a <= b <= |opt|
    ensures opt[8..][a - 8..b - 8] == opt[a..b]
  {
  }

  /** The i-th route of a lease whose option 121 yields none: a pair of option 33, or at last the default route. */
  lemma RoutesByIndex(opts: Options, i: nat)
    requires ClasslessRoutes(opts) == []
    ensures var pairs := if OPTION_STATIC_ROUTE in opts then opts[OPTION_STATIC_ROUTE] else [];
      var routed := OPTION_ROUTER in opts && |opts[OPTION_ROUTER]| == 4;
      && |RoutesSpec(opts)| == |pairs| / 8 + (if routed then 1 else 0)
      && (8 * i + 8 <= |pairs| ==> RoutesSpec(opts)[i] == PairRoute(pairs[8 * i..8 * i + 8]))
      && (routed ==> RoutesSpec(opts)[|pairs| / 8] == Route([0, 0, 0, 0], [0, 0, 0, 0], opts[OPTION_ROUTER]))
  {
    hide StaticRoutes;
    hide PairRoute;
    hide ParseDescriptors;
    var pairs := if OPTION_STATIC_ROUTE in opts then opts[OPTION_STATIC_ROUTE] else [];
    StaticRoutesCount(pairs);
    StaticRoutesCount([]);
    if 8 * i + 8 <= |pairs| {
      StaticRoutesByIndex(pairs, i);
    }
  }

  // ---- Durations ----

  const SECOND := 1_000_000_000

  /** A time.Duration is a signed 64-bit count of nanoseconds. */
  function Wrap64(x: int): int {
    (x + 0x8000_0000_0000_0000) % 0x1_0000_0000_0000_0000 - 0x8000_0000_0000_0000
  }

  function ParseDuration(opts: Options, code: int): Option<int> {
    if code !in opts || |opts[code]| != 4 then None
    else Some(Wrap64(Value(opts[code]) * SECOND))
  }

  /** Four bytes of seconds never overflow. */
  lemma DurationExact(opts: Options, code: int)
    requires ParseDuration(opts, code).Some?
    ensures ParseDuration(opts, code).value == Value(opts[code]) * SECOND
    ensures 0 <= Value(opts[code]) < 0x1_0000_0000
  {
    hide Value;
    hide Pow2;
    ValueBound(opts[code]);
    Pow2Eight();
    Pow2Add(8, 8);
    Pow2Add(16, 16);
  }
}
