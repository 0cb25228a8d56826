/**
 * Reconciliation in react-native/react/router/meta-navigator.ios.js: when
 * the path changes, the meta navigator resolves the new path and issues
 * exactly one command to the host navigator: push the new top when the old
 * path is a strict prefix of the new one, pop to the most recent matching
 * host route when the new path is a strict prefix of the old one, and reset
 * the whole host history otherwise.
 */
module MetaNavigation {
  import opened Wrappers
  import opened RouterModel
  import opened Resolution
  import opened HostNavigator
  import RouterRules

  function Min(a: int, b: int): int {
    if a < b then a else b
  }

  /**
   * isParentOfRoute: the child differs from the parent, and its first
   * |parent| segments (all of it, when shorter) are the parent.
   */
  predicate IsParentOfRoute(routeParent: Path, routeMaybeChild: Path)
    ensures IsParentOfRoute(routeParent, routeMaybeChild) <==>
              |routeParent| < |routeMaybeChild| && routeMaybeChild[..|routeParent|] == routeParent
  {
    routeMaybeChild != routeParent
    && routeMaybeChild[..Min(|routeParent|, |routeMaybeChild|)] == routeParent
  }

  /** No path is its own parent. */
  lemma ParentIsIrreflexive(route: Path)
    ensures !IsParentOfRoute(route, route)
  {
  }

  /** Two paths are never each other's parent: push and pop exclude each other. */
  lemma ParentIsAsymmetric(a: Path, b: Path)
    requires IsParentOfRoute(a, b)
    ensures !IsParentOfRoute(b, a)
  {
  }

  /** A parent of a parent is a parent. */
  lemma {:induction false} ParentIsTransitive(a: Path, b: Path, c: Path)
    requires IsParentOfRoute(a, b) && IsParentOfRoute(b, c)
    ensures IsParentOfRoute(a, c)
  {
    assert c[..|a|] == c[..|b|][..|a|];
  }

  /** The find predicate of the pop branch: same component and same title. */
  predicate Matches(navRoute: Descriptor, componentAtTop: Descriptor) {
    navRoute.component == componentAtTop.component && navRoute.title == componentAtTop.title
  }

  /** `s` in reverse order. */
  function Reversed(s: seq<Descriptor>): (r: seq<Descriptor>)
    ensures |r| == |s|
    ensures forall i :: 0 <= i < |s| ==> r[i] == s[|s| - 1 - i]
  {
    if s == [] then [] else Reversed(s[1..]) + [s[0]]
  }

  /** The index `find` stops at: the first route matching the top, if any. */
  function FirstMatch(routes: seq<Descriptor>, componentAtTop: Descriptor): (r: Option<nat>)
    ensures r.Some? ==> r.value < |routes| && Matches(routes[r.value], componentAtTop)
    ensures r.Some? ==> forall j :: 0 <= j < r.value ==> !Matches(routes[j], componentAtTop)
    ensures r.None? <==> forall j :: 0 <= j < |routes| ==> !Matches(routes[j], componentAtTop)
  {
    if routes == [] then None
    else if Matches(routes[0], componentAtTop) then Some(0)
    else match FirstMatch(routes[1..], componentAtTop)
      case None => None
      case Some(j) => Some(j + 1)
  }

  /** The host route the pop branch targets, as the source finds it. */
  function PopTarget(hostRoutes: seq<Descriptor>, componentAtTop: Descriptor): Option<Descriptor> {
    var navRoutes := Reversed(hostRoutes);
    match FirstMatch(navRoutes, componentAtTop)
    case None => None
    case Some(j) => Some(navRoutes[j])
  }

  /**
   * The pop target is the most recent host route matching the new top, and
   * there is none (popToRoute(undefined), no reset) exactly when no host
   * route matches.
   */
  lemma PopTargetIsMostRecentMatch(hostRoutes: seq<Descriptor>, componentAtTop: Descriptor)
    ensures PopTarget(hostRoutes, componentAtTop).None? <==>
              forall i :: 0 <= i < |hostRoutes| ==> !Matches(hostRoutes[i], componentAtTop)
    ensures PopTarget(hostRoutes, componentAtTop).Some? ==>
              exists i :: 0 <= i < |hostRoutes|
                && PopTarget(hostRoutes, componentAtTop) == Some(hostRoutes[i])
                && Matches(hostRoutes[i], componentAtTop)
                && forall k :: i < k < |hostRoutes| ==> !Matches(hostRoutes[k], componentAtTop)
  {
    var navRoutes := Reversed(hostRoutes);
    var n := |hostRoutes|;
    if FirstMatch(navRoutes, componentAtTop).None? {
      forall i | 0 <= i < n
        ensures !Matches(hostRoutes[i], componentAtTop)
      {
        assert navRoutes[n - 1 - i] == hostRoutes[i];
      }
    } else {
      var j := FirstMatch(navRoutes, componentAtTop).value;
      var i := n - 1 - j;
      forall k | i < k < n
        ensures !Matches(hostRoutes[k], componentAtTop)
      {
        assert navRoutes[n - 1 - k] == hostRoutes[k];
      }
    }
  }

  /**
   * The command shouldComponentUpdate issues (None: it returns false and
   * issues none), given the current path, the next path, whether the props
   * and state objects are the very same, and the host's current history.
   */
  function Decide(env: Env, rootComponent: Screen, route: Path, nextRoute: Path, sameObjects: bool,
                  hostRoutes: seq<Descriptor>, fuel: nat): (r: Option<Command>)
    requires fuel > 0 && HasParseRoute(env, rootComponent)
    // nothing is issued exactly when nothing changed
    ensures r.None? <==> sameObjects
    // push: the old path is a strict prefix of the new one; the new top goes on
    ensures r.Some? && r.value.Push? <==>
              !sameObjects && |route| < |nextRoute| && nextRoute[..|route|] == route
    ensures r.Some? && r.value.Push? ==> Top(Stack(Run(env, rootComponent, nextRoute, fuel))) == Some(r.value.route)
    // pop: the new path is a strict prefix of the old one; the target is the host's choice
    ensures r.Some? && r.value.PopToRoute? <==>
              !sameObjects && |nextRoute| < |route| && route[..|nextRoute|] == nextRoute
    ensures r.Some? && r.value.PopToRoute? ==> exists top ::
              Top(Stack(Run(env, rootComponent, nextRoute, fuel))) == Some(top) && r.value.target == PopTarget(hostRoutes, top)
    // reset: every other change, equal paths included, to the whole new stack
    ensures r.Some? && r.value.ResetRouteStack? ==> r.value.stack == Stack(Run(env, rootComponent, nextRoute, fuel))
  {
    var routeStack := Stack(Run(env, rootComponent, nextRoute, fuel));
    RouterRules.FirstStep(env, rootComponent, nextRoute, fuel);
    var componentAtTop := routeStack[|routeStack| - 1];
    if sameObjects then None
    else if IsParentOfRoute(route, nextRoute) then Some(Push(componentAtTop))
    else if IsParentOfRoute(nextRoute, route) then Some(PopToRoute(PopTarget(hostRoutes, componentAtTop)))
    else Some(ResetRouteStack(routeStack))
  }

  /** A change that keeps the path resets the host to the same stack. */
  lemma SamePathResets(env: Env, rootComponent: Screen, route: Path, hostRoutes: seq<Descriptor>, fuel: nat)
    requires fuel > 0 && HasParseRoute(env, rootComponent)
    ensures Decide(env, rootComponent, route, route, false, hostRoutes, fuel)
              == Some(ResetRouteStack(Stack(Run(env, rootComponent, route, fuel))))
  {
  }

  /** reverse(): the array now holds its old contents in reverse order. */
  method ReverseInPlace(a: array<Descriptor>)
    modifies a
    ensures a[..] == Reversed(old(a[..]))
  {
    var lo, hi := 0, a.Length - 1;
    while lo < hi
      invariant 0 <= lo && hi == a.Length - 1 - lo && lo <= a.Length - lo
      invariant forall i :: 0 <= i < lo ==> a[i] == old(a[a.Length - 1 - i]) && a[a.Length - 1 - i] == old(a[i])
      invariant forall i :: lo <= i < a.Length - lo ==> a[i] == old(a[i])
      decreases hi - lo
    {
      a[lo], a[hi] := a[hi], a[lo];
      lo, hi := lo + 1, hi - 1;
    }
  }

  /** find(): the index of the first route matching the top, if any. */
  method Find(navRoutes: array<Descriptor>, componentAtTop: Descriptor) returns (found: Option<nat>)
    ensures found == FirstMatch(navRoutes[..], componentAtTop)
  {
    var i := 0;
    while i < navRoutes.Length
      invariant 0 <= i <= navRoutes.Length
      invariant forall j :: 0 <= j < i ==> !Matches(navRoutes[j], componentAtTop)
    {
      if Matches(navRoutes[i], componentAtTop) {
        FirstMatchIsUnique(navRoutes[..], componentAtTop, i);
        return Some(i);
      }
      i := i + 1;
    }
    return None;
  }

  /** The first match is the only index with nothing matching before it. */
  lemma FirstMatchIsUnique(routes: seq<Descriptor>, componentAtTop: Descriptor, i: nat)
    requires i < |routes| && Matches(routes[i], componentAtTop)
    requires forall j :: 0 <= j < i ==> !Matches(routes[j], componentAtTop)
    ensures FirstMatch(routes, componentAtTop) == Some(i)
  {
  }

  /** The meta navigator component: its props and the host navigator it drives. */
  class MetaNavigator {
    /** this.props.uri */
    var uri: Path
    /** this.props.globalRoutes and the parseRoute of unmodelled screens. */
    const env: Env
    /** this.props.rootComponent */
    const rootComponent: Screen
    /** this.refs.navigator */
    const navigator: Navigator

    constructor(env: Env, rootComponent: Screen, uri: Path, navigator: Navigator)
      ensures this.env == env && this.rootComponent == rootComponent && this.uri == uri && this.navigator == navigator
    {
      this.env := env;
      this.rootComponent := rootComponent;
      this.uri := uri;
      this.navigator := navigator;
    }

    /**
     * shouldComponentUpdate: resolves the next path (with the current props'
     * root and tables), then issues the one command Decide names. The pop
     * branch reverses the host's own route array in place before searching it.
     */
    method ShouldComponentUpdate(nextUri: Path, sameObjects: bool, fuel: nat) returns (update: bool)
      requires fuel > 0 && HasParseRoute(env, rootComponent)
      modifies navigator, navigator.routes
      ensures update == !sameObjects
      ensures var c := Decide(env, rootComponent, uri, nextUri, sameObjects, old(navigator.routes[..]), fuel);
        navigator.issued == old(navigator.issued) + (if c.Some? then [c.value] else [])
      // the host history: one more route on push, reversed by the search on pop, replaced on reset
      ensures var c := Decide(env, rootComponent, uri, nextUri, sameObjects, old(navigator.routes[..]), fuel);
        && (c.None? ==> navigator.routes == old(navigator.routes) && navigator.routes[..] == old(navigator.routes[..]))
        && (c.Some? && c.value.Push? ==> navigator.routes[..] == old(navigator.routes[..]) + [c.value.route])
        && (c.Some? && c.value.PopToRoute? ==> navigator.routes[..] == Reversed(old(navigator.routes[..])))
        && (c.Some? && c.value.ResetRouteStack? ==> navigator.routes[..] == c.value.stack)
    {
      var componentAtTop, nextRouteStack := GetComponentAtTop(env, rootComponent, nextUri, fuel);
      RouterRules.FirstStep(env, rootComponent, nextUri, fuel);
      if sameObjects {
        return false;
      } else if IsParentOfRoute(uri, nextUri) {
        navigator.Push(componentAtTop.value);
        return true;
      } else if IsParentOfRoute(nextUri, uri) {
        var navRoutes := navigator.GetCurrentRoutes();
        ghost var history := navRoutes[..];
        ReverseInPlace(navRoutes);
        var found := Find(navRoutes, componentAtTop.value);
        var targetRoute := if found.Some? then Some(navRoutes[found.value]) else None;
        assert targetRoute == PopTarget(history, componentAtTop.value);
        navigator.PopToRoute(targetRoute);
        return true;
      } else {
        navigator.ImmediatelyResetRouteStack(nextRouteStack);
        return true;
      }
    }
  }
}
