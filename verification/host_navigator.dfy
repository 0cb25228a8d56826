/**
 * The host's imperative navigator as the meta navigator drives it: a route
 * history, oldest first, and the commands it has received. Only what the
 * meta navigator relies on is modelled: getCurrentRoutes hands out the
 * host's own array, push appends, and an immediate reset replaces the whole
 * history. What the host does on popToRoute is its own affair; the model
 * records the command and leaves the history as it is.
 */
module HostNavigator {
  import opened Wrappers
  import opened RouterModel

  /** The one command a reconciliation issues. */
  datatype Command =
    | Push(route: Descriptor)
    | PopToRoute(target: Option<Descriptor>)   // None: popToRoute(undefined)
    | ResetRouteStack(stack: seq<Descriptor>)

  class Navigator {
    /** The host's route history, oldest first. */
    var routes: array<Descriptor>
    /** Every command received, in order. */
    var issued: seq<Command>

    /** A navigator mounted with `initialRouteStack`. */
    constructor(initialRouteStack: seq<Descriptor>)
      ensures routes[..] == initialRouteStack && issued == []
      ensures fresh(routes)
    {
      routes := new Descriptor[|initialRouteStack|](i requires 0 <= i < |initialRouteStack| => initialRouteStack[i]);
      issued := [];
    }

    /** getCurrentRoutes: the host's own route array, not a copy. */
    method GetCurrentRoutes() returns (current: array<Descriptor>)
      ensures current == routes
    {
      current := routes;
    }

    /** push: the route goes on top of the history. */
    method Push(route: Descriptor)
      modifies this
      ensures routes[..] == old(routes[..]) + [route] && fresh(routes)
      ensures issued == old(issued) + [Command.Push(route)]
    {
      var history := routes[..] + [route];
      routes := new Descriptor[|history|](i requires 0 <= i < |history| => history[i]);
      issued := issued + [Command.Push(route)];
    }

    /** popToRoute: recorded; the host's reaction is not modelled. */
    method PopToRoute(target: Option<Descriptor>)
      modifies this
      ensures routes == old(routes)
      ensures issued == old(issued) + [Command.PopToRoute(target)]
    {
      issued := issued + [Command.PopToRoute(target)];
    }

    /** immediatelyResetRouteStack: the history becomes `stack`. */
    method ImmediatelyResetRouteStack(stack: seq<Descriptor>)
      modifies this
      ensures routes[..] == stack && fresh(routes)
      ensures issued == old(issued) + [ResetRouteStack(stack)]
    {
      routes := new Descriptor[|stack|](i requires 0 <= i < |stack| => stack[i]);
      issued := issued + [ResetRouteStack(stack)];
    }
  }
}
