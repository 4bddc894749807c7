/** DefaultMessageRouter: longest-prefix routing. */
module Routing {
  import opened GoStrings
  import opened Messages

  datatype RouteInfo = RouteInfo(gateway: GoString, priority: nat, retryCount: nat, destination: GoString, route: GoString)

  class DefaultMessageRouter {
    var routes: map<GoString, GoString>

    constructor ()
      ensures routes == map[]
    {
      routes := map[];
    }

    method AddRoute(prefix: GoString, gateway: GoString)
      modifies this
      ensures routes == old(routes)[prefix := gateway]
    {
      routes := routes[prefix := gateway];
    }

    /** The route that decides is the longest non-empty prefix of the destination, if any. */
    method RouteMessage(message: Message) returns (info: RouteInfo)
      ensures BestRoute(routes, message.destAddr.addr, info.route)
      ensures info.gateway == if info.route == [] then Ascii("default") else routes[info.route]
      ensures info.priority == (if message.priorityFlag == 0 then 1 else message.priorityFlag) && info.retryCount == 3
      ensures info.destination == message.destAddr.addr
    {
      var destination := message.destAddr.addr;
      var gateway, longestMatch := Ascii("default"), [];
      var rest := routes.Keys;
      while rest != {}
        invariant rest <= routes.Keys
        invariant longestMatch == [] || (longestMatch in routes && longestMatch <= destination)
        invariant forall p | p in routes && p !in rest && p <= destination :: |p| <= |longestMatch|
        invariant gateway == if longestMatch == [] then Ascii("default") else routes[longestMatch]
        decreases |rest|
      {
        var prefix :| prefix in rest;
        if prefix <= destination && |prefix| > |longestMatch| {
          longestMatch, gateway := prefix, routes[prefix];
        }
        rest := rest - {prefix};
      }
      var priority := 1;
      if message.priorityFlag > 0 {
        priority := message.priorityFlag;
      }
      info := RouteInfo(gateway, priority, 3, destination, longestMatch);
    }
  }

  /** route is a matching prefix no matching prefix is longer than, or empty when only the
      empty prefix can match. */
  ghost predicate BestRoute(routes: map<GoString, GoString>, destination: GoString, route: GoString) {
    && (route == [] || (route in routes && route <= destination))
    && forall p | p in routes && p <= destination :: |p| <= |route|
  }

  /** The order in which the routes are looked at does not matter. */
  lemma BestRouteIsUnique(routes: map<GoString, GoString>, destination: GoString, a: GoString, b: GoString)
    requires BestRoute(routes, destination, a) && BestRoute(routes, destination, b)
    ensures a == b
  {
    assert |a| == |b|;
    assert a == destination[..|a|] && b == destination[..|b|];
  }
}
