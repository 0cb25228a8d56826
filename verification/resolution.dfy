/**
 * Path-to-stack resolution (MetaNavigator.getComponentAtTop): walks a
 * navigation path through the parseRoute resolvers and records one screen
 * descriptor per resolved segment.
 *
 * Run/RunFrom is the specification: the sequence of steps resolution takes.
 * IsResolution states the rules every step obeys, independently of how Run
 * computes them; RunIsResolution and ResolutionIsUnique tie the two
 * together, and GetComponentAtTop is the source's loop proved against Run.
 */
module Resolution {
  import opened Wrappers
  import opened RouterModel

  /** The i-th segment of the path, or the empty segment past its end. */
  function SegmentAt(uri: Path, i: nat): Segment {
    if i < |uri| then uri[i] else EmptySegment
  }

  /**
   * The descriptor one step records: the resolver's descriptor with
   * upLink/upTitle of the segment being resolved, its component backfilled
   * from the class selected by table lookup when it has none.
   */
  function Record(t: ResolverResult, currentPath: Segment, nextComponent: Option<Screen>): (d: Descriptor)
    // the up-link comes from the segment being resolved
    ensures d.upLink == currentPath.upLink && d.upTitle == currentPath.upTitle
    // the component is backfilled only when the resolver gave none
    ensures t.componentAtTop.component.Some? ==> d.component == t.componentAtTop.component
    ensures t.componentAtTop.component.None? ==> d.component == nextComponent
    // everything else is the resolver's
    ensures d.(component := t.componentAtTop.component, upLink := t.componentAtTop.upLink, upTitle := t.componentAtTop.upTitle)
              == t.componentAtTop
  {
    var d := t.componentAtTop.(upLink := currentPath.upLink, upTitle := currentPath.upTitle);
    if d.component.None? && nextComponent.Some? then d.(component := nextComponent) else d
  }

  /** Where resolution goes after a step. */
  datatype Continuation =
    | Stop                      // terminal leaf, or a class without a parseRoute
    | Explicit(resolver: Screen)  // the resolver's own parseNextRoute
    | Table(screen: Screen)       // found under nextPath's key in {...globalRoutes, ...subRoutes}

  /**
   * Whether the resolver's own parseNextRoute is set: it names a class
   * whose parseRoute exists (the parseRoute of a class without one is
   * undefined, and the tables are consulted instead).
   */
  predicate ContinuesExplicitly(env: Env, t: ResolverResult) {
    t.parseNextRoute.Some? && HasParseRoute(env, t.parseNextRoute.value)
  }

  /** The continuation after a step whose resolver returned `t`. */
  function Next(env: Env, t: ResolverResult, nextPath: Segment): (c: Continuation)
    // an explicit continuation takes priority over any table
    ensures ContinuesExplicitly(env, t) ==> c == Explicit(t.parseNextRoute.value)
    // the resolver's own table wins over the global one on a shared key
    ensures !ContinuesExplicitly(env, t) && PathKey(nextPath) in t.subRoutes ==>
              c == if HasParseRoute(env, t.subRoutes[PathKey(nextPath)]) then Table(t.subRoutes[PathKey(nextPath)]) else Stop
    ensures !ContinuesExplicitly(env, t) && PathKey(nextPath) !in t.subRoutes && PathKey(nextPath) in env.globalRoutes ==>
              c == if HasParseRoute(env, env.globalRoutes[PathKey(nextPath)]) then Table(env.globalRoutes[PathKey(nextPath)]) else Stop
    // a miss in both tables ends resolution
    ensures !ContinuesExplicitly(env, t) && PathKey(nextPath) !in t.subRoutes && PathKey(nextPath) !in env.globalRoutes ==> c == Stop
    // resolution only ever goes on into a class that has a parseRoute
    ensures c.Explicit? ==> HasParseRoute(env, c.resolver)
    ensures c.Table? ==> HasParseRoute(env, c.screen)
  {
    if ContinuesExplicitly(env, t) then Explicit(t.parseNextRoute.value)
    else
      var subRoutes := env.globalRoutes + t.subRoutes;
      var key := PathKey(nextPath);
      if key in subRoutes && HasParseRoute(env, subRoutes[key]) then Table(subRoutes[key]) else Stop
  }

  /** One iteration of the resolution loop. */
  datatype Step = Step(
    resolver: Screen,
    nextComponent: Option<Screen>,   // class selected by the previous table lookup, or the root
    result: ResolverResult,
    descriptor: Descriptor)

  /** Resolution from segment k on, with at most `fuel` further steps. */
  function RunFrom(env: Env, uri: Path, k: nat, resolver: Screen, nextComponent: Option<Screen>, fuel: nat): seq<Step>
    decreases fuel, 0
  {
    if fuel == 0 then []
    else
      var t := ParseRoute(env, resolver, SegmentAt(uri, k), SegmentAt(uri, k + 1), uri);
      [Step(resolver, nextComponent, t, Record(t, SegmentAt(uri, k), nextComponent))]
        + After(env, uri, k + 1, Next(env, t, SegmentAt(uri, k + 1)), fuel - 1)
  }

  /** The steps that follow continuation `c`, resolving from segment k. */
  function After(env: Env, uri: Path, k: nat, c: Continuation, fuel: nat): seq<Step>
    decreases fuel, 1
  {
    match c
    case Stop => []
    case Explicit(r) => RunFrom(env, uri, k, r, None, fuel)
    case Table(screen) => RunFrom(env, uri, k, screen, Some(screen), fuel)
  }

  /**
   * Resolution of the whole path, starting with the root's parseRoute; a
   * root without one resolves nothing.
   */
  function Run(env: Env, root: Screen, uri: Path, fuel: nat): seq<Step> {
    if HasParseRoute(env, root) then RunFrom(env, uri, 0, root, Some(root), fuel) else []
  }

  /** The descriptors of a run, in order: the route stack. */
  function Stack(steps: seq<Step>): (stack: seq<Descriptor>)
    ensures |stack| == |steps|
  {
    if steps == [] then [] else [steps[0].descriptor] + Stack(steps[1..])
  }

  lemma {:induction false} StackAt(steps: seq<Step>)
    ensures forall i :: 0 <= i < |steps| ==> Stack(steps)[i] == steps[i].descriptor
  {
    if steps != [] {
      StackAt(steps[1..]);
    }
  }

  lemma {:induction false} StackAppend(a: seq<Step>, b: seq<Step>)
    ensures Stack(a + b) == Stack(a) + Stack(b)
  {
    StackAt(a + b);
    StackAt(a);
    StackAt(b);
    forall i | 0 <= i < |a + b|
      ensures Stack(a + b)[i] == (Stack(a) + Stack(b))[i]
    {
      if i < |a| {
        assert (a + b)[i] == a[i];
      } else {
        assert (a + b)[i] == b[i - |a|];
      }
    }
  }

  /** Whether step `s` is where continuation `c` leads. */
  predicate Enters(c: Continuation, s: Step) {
    match c
    case Stop => false
    case Explicit(r) => s.resolver == r && s.nextComponent == None
    case Table(screen) => s.resolver == screen && s.nextComponent == Some(screen)
  }

  /**
   * The rules of resolution from segment k, stated step by step: each step
   * calls its resolver on (segment k+i, segment k+i+1), records its
   * descriptor, and leads to the next step; the last step is a terminal
   * leaf unless the fuel ran out.
   */
  ghost predicate IsResolutionFrom(env: Env, uri: Path, k: nat, resolver: Screen, nextComponent: Option<Screen>, fuel: nat, steps: seq<Step>) {
    && |steps| <= fuel
    && (fuel > 0 ==> |steps| > 0)
    && (|steps| > 0 ==> steps[0].resolver == resolver && steps[0].nextComponent == nextComponent)
    && (forall i :: 0 <= i < |steps| ==>
          && steps[i].result == ParseRoute(env, steps[i].resolver, SegmentAt(uri, k + i), SegmentAt(uri, k + i + 1), uri)
          && steps[i].descriptor == Record(steps[i].result, SegmentAt(uri, k + i), steps[i].nextComponent))
    && (forall i :: 0 <= i < |steps| - 1 ==> Enters(Next(env, steps[i].result, SegmentAt(uri, k + i + 1)), steps[i + 1]))
    && (0 < |steps| < fuel ==> Next(env, steps[|steps| - 1].result, SegmentAt(uri, k + |steps|)) == Stop)
  }

  ghost predicate IsResolution(env: Env, root: Screen, uri: Path, fuel: nat, steps: seq<Step>) {
    if HasParseRoute(env, root) then IsResolutionFrom(env, uri, 0, root, Some(root), fuel, steps) else steps == []
  }

  lemma {:induction false} RunFromIsResolution(env: Env, uri: Path, k: nat, resolver: Screen, nextComponent: Option<Screen>, fuel: nat)
    ensures IsResolutionFrom(env, uri, k, resolver, nextComponent, fuel, RunFrom(env, uri, k, resolver, nextComponent, fuel))
    decreases fuel
  {
    if fuel > 1 {
      var steps := RunFrom(env, uri, k, resolver, nextComponent, fuel);
      var t := ParseRoute(env, resolver, SegmentAt(uri, k), SegmentAt(uri, k + 1), uri);
      match Next(env, t, SegmentAt(uri, k + 1))
      case Stop =>
      case Explicit(r) =>
        RunFromIsResolution(env, uri, k + 1, r, None, fuel - 1);
        ShiftRules(env, uri, k, fuel, steps);
      case Table(c) =>
        RunFromIsResolution(env, uri, k + 1, c, Some(c), fuel - 1);
        ShiftRules(env, uri, k, fuel, steps);
    }
  }

  /** The rules for a run whose tail obeys the rules from segment k+1. */
  lemma {:induction false} ShiftRules(env: Env, uri: Path, k: nat, fuel: nat, steps: seq<Step>)
    requires fuel > 0 && |steps| > 1
    requires steps[0].result == ParseRoute(env, steps[0].resolver, SegmentAt(uri, k), SegmentAt(uri, k + 1), uri)
    requires steps[0].descriptor == Record(steps[0].result, SegmentAt(uri, k), steps[0].nextComponent)
    requires Enters(Next(env, steps[0].result, SegmentAt(uri, k + 1)), steps[1])
    requires IsResolutionFrom(env, uri, k + 1, steps[1].resolver, steps[1].nextComponent, fuel - 1, steps[1..])
    ensures IsResolutionFrom(env, uri, k, steps[0].resolver, steps[0].nextComponent, fuel, steps)
  {
    var tail := steps[1..];
    forall i | 0 <= i < |steps|
      ensures steps[i].result == ParseRoute(env, steps[i].resolver, SegmentAt(uri, k + i), SegmentAt(uri, k + i + 1), uri)
      ensures steps[i].descriptor == Record(steps[i].result, SegmentAt(uri, k + i), steps[i].nextComponent)
    {
      if i > 0 {
        assert steps[i] == tail[i - 1];
      }
    }
    forall i | 0 <= i < |steps| - 1
      ensures Enters(Next(env, steps[i].result, SegmentAt(uri, k + i + 1)), steps[i + 1])
    {
      if i > 0 {
        assert steps[i] == tail[i - 1] && steps[i + 1] == tail[i];
      }
    }
    assert steps[|steps| - 1] == tail[|tail| - 1];
  }

  /** Run obeys the rules of resolution. */
  lemma RunIsResolution(env: Env, root: Screen, uri: Path, fuel: nat)
    ensures IsResolution(env, root, uri, fuel, Run(env, root, uri, fuel))
  {
    if HasParseRoute(env, root) {
      RunFromIsResolution(env, uri, 0, root, Some(root), fuel);
    }
  }

  /** The tail of a run obeys the rules from the next segment on. */
  lemma {:induction false} TailRules(env: Env, uri: Path, k: nat, fuel: nat, steps: seq<Step>)
    requires |steps| > 1
    requires IsResolutionFrom(env, uri, k, steps[0].resolver, steps[0].nextComponent, fuel, steps)
    ensures IsResolutionFrom(env, uri, k + 1, steps[1].resolver, steps[1].nextComponent, fuel - 1, steps[1..])
  {
    var tail := steps[1..];
    forall i | 0 <= i < |tail|
      ensures tail[i].result == ParseRoute(env, tail[i].resolver, SegmentAt(uri, k + 1 + i), SegmentAt(uri, k + 1 + i + 1), uri)
      ensures tail[i].descriptor == Record(tail[i].result, SegmentAt(uri, k + 1 + i), tail[i].nextComponent)
    {
      assert tail[i] == steps[i + 1];
    }
    forall i | 0 <= i < |tail| - 1
      ensures Enters(Next(env, tail[i].result, SegmentAt(uri, k + 1 + i + 1)), tail[i + 1])
    {
      assert tail[i] == steps[i + 1] && tail[i + 1] == steps[i + 2];
    }
    assert tail[|tail| - 1] == steps[|steps| - 1];
  }

  /** The rules determine the run: resolution is deterministic. */
  lemma {:induction false} ResolutionFromIsUnique(env: Env, uri: Path, k: nat, resolver: Screen, nextComponent: Option<Screen>, fuel: nat, steps: seq<Step>)
    requires IsResolutionFrom(env, uri, k, resolver, nextComponent, fuel, steps)
    ensures steps == RunFrom(env, uri, k, resolver, nextComponent, fuel)
    decreases fuel
  {
    if fuel > 0 {
      var t := ParseRoute(env, resolver, SegmentAt(uri, k), SegmentAt(uri, k + 1), uri);
      var c := Next(env, t, SegmentAt(uri, k + 1));
      assert steps[0] == Step(resolver, nextComponent, t, Record(t, SegmentAt(uri, k), nextComponent));
      if |steps| == 1 {
        assert After(env, uri, k + 1, c, fuel - 1) == [] by {
          if fuel > 1 {
            assert c == Stop;
          } else {
            match c
            case Stop =>
            case Explicit(r) =>
            case Table(screen) =>
          }
        }
        assert steps == [steps[0]];
      } else {
        var s1 := steps[1];
        assert Enters(c, s1);
        TailRules(env, uri, k, fuel, steps);
        ResolutionFromIsUnique(env, uri, k + 1, s1.resolver, s1.nextComponent, fuel - 1, steps[1..]);
        assert After(env, uri, k + 1, c, fuel - 1) == RunFrom(env, uri, k + 1, s1.resolver, s1.nextComponent, fuel - 1);
        assert steps == [steps[0]] + steps[1..];
      }
    }
  }

  lemma ResolutionIsUnique(env: Env, root: Screen, uri: Path, fuel: nat, steps: seq<Step>)
    requires IsResolution(env, root, uri, fuel, steps)
    ensures steps == Run(env, root, uri, fuel)
  {
    if HasParseRoute(env, root) {
      ResolutionFromIsUnique(env, uri, 0, root, Some(root), fuel, steps);
    }
  }

  /** What remains of a run once the loop state is (parseNextRoute, nextComponent) at segment k. */
  function Remaining(env: Env, uri: Path, k: nat, parseNextRoute: Option<Screen>, nextComponent: Option<Screen>, fuel: nat): seq<Step> {
    if parseNextRoute.None? then [] else RunFrom(env, uri, k, parseNextRoute.value, nextComponent, fuel)
  }

  /** The whole run is what remains from the loop's initial state. */
  lemma RunIsRemaining(env: Env, root: Screen, uri: Path, fuel: nat)
    ensures Run(env, root, uri, fuel)
              == Remaining(env, uri, 0, if HasParseRoute(env, root) then Some(root) else None, Some(root), fuel)
  {
  }

  /** Nothing remains once the loop stops: no resolver is left, or no fuel. */
  lemma RemainingAtExit(env: Env, uri: Path, k: nat, parseNextRoute: Option<Screen>, nextComponent: Option<Screen>, fuel: nat)
    requires parseNextRoute.None? || fuel == 0
    ensures Remaining(env, uri, k, parseNextRoute, nextComponent, fuel) == []
  {
  }

  /** The loop variables (parseNextRoute, nextComponent) a continuation leaves behind. */
  function LoopState(c: Continuation): (Option<Screen>, Option<Screen>) {
    match c
    case Stop => (None, None)
    case Explicit(r) => (Some(r), None)
    case Table(screen) => (Some(screen), Some(screen))
  }

  lemma RemainingAfter(env: Env, uri: Path, k: nat, c: Continuation, fuel: nat)
    ensures Remaining(env, uri, k, LoopState(c).0, LoopState(c).1, fuel) == After(env, uri, k, c, fuel)
  {
  }

  /** One turn of the loop: the step it records, then what remains. */
  lemma {:induction false} RemainingUnfold(env: Env, uri: Path, k: nat, resolver: Screen, implicit: Option<Screen>, fuel: nat,
                                           t: ResolverResult, parseNextRoute: Option<Screen>, nextComponent: Option<Screen>)
    requires fuel > 0
    requires t == ParseRoute(env, resolver, SegmentAt(uri, k), SegmentAt(uri, k + 1), uri)
    requires (parseNextRoute, nextComponent) == LoopState(Next(env, t, SegmentAt(uri, k + 1)))
    ensures Stack(Remaining(env, uri, k, Some(resolver), implicit, fuel))
              == [Record(t, SegmentAt(uri, k), implicit)] + Stack(Remaining(env, uri, k + 1, parseNextRoute, nextComponent, fuel - 1))
  {
    var c := Next(env, t, SegmentAt(uri, k + 1));
    var step := Step(resolver, implicit, t, Record(t, SegmentAt(uri, k), implicit));
    RemainingAfter(env, uri, k + 1, c, fuel - 1);
    StackAppend([step], After(env, uri, k + 1, c, fuel - 1));
  }

  /** One turn of the loop keeps the route stack a prefix of the run's stack. */
  lemma StepKeepsStack(env: Env, target: seq<Descriptor>, uri: Path, fuel: nat, k: nat, routeStack: seq<Descriptor>,
                       resolver: Screen, implicit: Option<Screen>, currentPath: Segment, nextPath: Segment,
                       t: ResolverResult, d: Descriptor, next: (Option<Screen>, Option<Screen>))
    requires k < fuel
    requires currentPath == SegmentAt(uri, k) && nextPath == SegmentAt(uri, k + 1)
    requires target == routeStack + Stack(Remaining(env, uri, k, Some(resolver), implicit, fuel - k))
    requires t == ParseRoute(env, resolver, currentPath, nextPath, uri)
    requires d == Record(t, currentPath, implicit)
    requires next == LoopState(Next(env, t, nextPath))
    ensures target == (routeStack + [d]) + Stack(Remaining(env, uri, k + 1, next.0, next.1, fuel - (k + 1)))
  {
    RemainingUnfold(env, uri, k, resolver, implicit, fuel - k, t, next.0, next.1);
  }

  /** The loop's three path cursors (currentPath, nextPath, restPath) at segment k. */
  function Cursors(uri: Path, k: nat): (Segment, Segment, Path) {
    (SegmentAt(uri, k), SegmentAt(uri, k + 1), if k + 2 <= |uri| then uri[k + 2..] else [])
  }

  /** The cursors the loop starts from: missing segments are empty maps. */
  lemma InitialCursors(uri: Path)
    ensures Cursors(uri, 0)
              == (if |uri| > 0 then uri[0] else EmptySegment, if |uri| > 1 then uri[1] else EmptySegment, if |uri| > 2 then uri[2..] else [])
  {
    if |uri| == 2 {
      assert uri[2..] == [];
    }
  }

  /** Shifting the cursors as the loop does moves them one segment on. */
  lemma AdvanceCursors(uri: Path, k: nat)
    ensures var restPath := Cursors(uri, k).2;
      Cursors(uri, k + 1)
        == (Cursors(uri, k).1, if |restPath| > 0 then restPath[0] else EmptySegment, if |restPath| > 0 then restPath[1..] else [])
  {
  }

  /** The last element of a stack, if any. */
  function Top(stack: seq<Descriptor>): Option<Descriptor> {
    if stack == [] then None else Some(stack[|stack| - 1])
  }

  /**
   * One turn of the loop: the resolver's result on the current segment,
   * the descriptor it records and the loop variables it leaves behind.
   */
  method ResolveSegment(env: Env, resolver: Screen, nextComponent: Option<Screen>, currentPath: Segment, nextPath: Segment, uri: Path)
    returns (t: ResolverResult, d: Descriptor, next: (Option<Screen>, Option<Screen>))
    ensures t == ParseRoute(env, resolver, currentPath, nextPath, uri)
    ensures d == Record(t, currentPath, nextComponent)
    ensures next == LoopState(Next(env, t, nextPath))
  {
    t := ParseRoute(env, resolver, currentPath, nextPath, uri);
    // The segment's own up-link overlays the descriptor; a class selected
    // through a routing table supplies a missing component.
    d := Record(t, currentPath, nextComponent);
    // The explicit continuation wins; otherwise nextPath's key is looked up
    // in the resolver's table overlaid on the global one.
    next := LoopState(Next(env, t, nextPath));
  }

  /**
   * getComponentAtTop: the resolution loop of the source. The loop is cut
   * off after `fuel` iterations (the source has no bound: a chain of
   * explicit continuations can go on for ever).
   */
  method GetComponentAtTop(env: Env, rootComponent: Screen, uri: Path, fuel: nat)
    returns (componentAtTop: Option<Descriptor>, routeStack: seq<Descriptor>)
    ensures routeStack == Stack(Run(env, rootComponent, uri, fuel))
    ensures componentAtTop == Top(routeStack)
  {
    var currentPath := if |uri| > 0 then uri[0] else EmptySegment;
    var nextPath := if |uri| > 1 then uri[1] else EmptySegment;
    var restPath := if |uri| > 2 then uri[2..] else [];
    routeStack := [];

    var nextComponent := Some(rootComponent);
    var parseNextRoute := if HasParseRoute(env, rootComponent) then Some(rootComponent) else None;
    componentAtTop := None;

    ghost var target := Stack(Run(env, rootComponent, uri, fuel));
    RunIsRemaining(env, rootComponent, uri, fuel);
    InitialCursors(uri);
    var iterations: nat := 0;
    while parseNextRoute.Some? && iterations < fuel
      invariant iterations <= fuel
      invariant (currentPath, nextPath, restPath) == Cursors(uri, iterations)
      invariant target == routeStack + Stack(Remaining(env, uri, iterations, parseNextRoute, nextComponent, fuel - iterations))
      invariant componentAtTop == Top(routeStack)
      decreases fuel - iterations
    {
      ghost var resolver := parseNextRoute.value;
      ghost var implicit := nextComponent;
      ghost var oldStack := routeStack;
      var t, d, next := ResolveSegment(env, parseNextRoute.value, nextComponent, currentPath, nextPath, uri);
      parseNextRoute, nextComponent := next.0, next.1;

      componentAtTop := Some(d);
      routeStack := routeStack + [d];

      StepKeepsStack(env, target, uri, fuel, iterations, oldStack, resolver, implicit, currentPath, nextPath, t, d, next);
      AdvanceCursors(uri, iterations);

      currentPath := nextPath;
      nextPath := if |restPath| > 0 then restPath[0] else EmptySegment;
      restPath := if |restPath| > 0 then restPath[1..] else [];
      iterations := iterations + 1;
    }
    RemainingAtExit(env, uri, iterations, parseNextRoute, nextComponent, fuel - iterations);
  }
}
