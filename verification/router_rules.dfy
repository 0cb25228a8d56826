/**
 * What the resolution engine and the modelled parseRoute resolvers promise
 * together: up-links follow the path, the backfill rule, the bound on the
 * route stack, the need for a cut-off, and each resolver's part in a run.
 */
module RouterRules {
  import opened Wrappers
  import opened RouterModel
  import opened Resolution

  function Max(a: int, b: int): int {
    if a < b then b else a
  }

  /** Every recorded descriptor carries the up-link of the segment it resolved. */
  lemma UpLinksFollowSegments(env: Env, root: Screen, uri: Path, fuel: nat)
    ensures forall i :: 0 <= i < |Stack(Run(env, root, uri, fuel))| ==>
              && Stack(Run(env, root, uri, fuel))[i].upLink == SegmentAt(uri, i).upLink
              && Stack(Run(env, root, uri, fuel))[i].upTitle == SegmentAt(uri, i).upTitle
  {
    var steps := Run(env, root, uri, fuel);
    RunIsResolution(env, root, uri, fuel);
    StackAt(steps);
  }

  /**
   * Resolution starts with the root's parseRoute on the first two segments
   * (empty maps when missing) and backfills the root as the component.
   */
  lemma FirstStep(env: Env, root: Screen, uri: Path, fuel: nat)
    requires fuel > 0 && HasParseRoute(env, root)
    ensures var stack := Stack(Run(env, root, uri, fuel));
      && |stack| >= 1
      && stack[0] == Record(ParseRoute(env, root, SegmentAt(uri, 0), SegmentAt(uri, 1), uri), SegmentAt(uri, 0), Some(root))
      && stack[0].component.Some?
  {
    var steps := Run(env, root, uri, fuel);
    RunIsResolution(env, root, uri, fuel);
    StackAt(steps);
  }

  /**
   * A backfilled component is always the class whose parseRoute produced the
   * descriptor: the class is selected by table lookup (or is the root), and
   * an explicit continuation never backfills.
   */
  lemma BackfillIsOwnClass(env: Env, root: Screen, uri: Path, fuel: nat)
    ensures var steps := Run(env, root, uri, fuel);
      forall i :: 0 <= i < |steps| ==>
        && (steps[i].nextComponent.Some? ==> steps[i].nextComponent == Some(steps[i].resolver))
        && ((steps[i].result.componentAtTop.component.None? && steps[i].nextComponent.Some?)
              ==> steps[i].descriptor.component == Some(steps[i].resolver))
        && ((steps[i].result.componentAtTop.component.None? && steps[i].nextComponent.None?)
              ==> steps[i].descriptor.component.None?)
  {
    var steps := Run(env, root, uri, fuel);
    RunIsResolution(env, root, uri, fuel);
    forall i | 0 <= i < |steps|
      ensures steps[i].nextComponent.Some? ==> steps[i].nextComponent == Some(steps[i].resolver)
    {
      if i > 0 {
        assert Enters(Next(env, steps[i - 1].result, SegmentAt(uri, i - 1 + 1)), steps[i - 1 + 1]);
      }
    }
  }

  /**
   * Without explicit continuations the stack holds at most one descriptor per
   * segment (at least one): a lookup past the end of the path uses the key
   * "undefined", which must then be in no table.
   */
  lemma {:induction false} TableDrivenLength(env: Env, root: Screen, uri: Path, fuel: nat)
    requires fuel > 0 && HasParseRoute(env, root)
    requires "undefined" !in env.globalRoutes
    requires forall i :: 0 <= i < |Run(env, root, uri, fuel)| ==>
               && Run(env, root, uri, fuel)[i].result.parseNextRoute.None?
               && "undefined" !in Run(env, root, uri, fuel)[i].result.subRoutes
    ensures 1 <= |Stack(Run(env, root, uri, fuel))| <= Max(1, |uri|)
  {
    var steps := Run(env, root, uri, fuel);
    RunIsResolution(env, root, uri, fuel);
    if |steps| > 1 {
      var i := |steps| - 2;
      assert Enters(Next(env, steps[i].result, SegmentAt(uri, i + 1)), steps[i + 1]);
      LookupWithinPath(env, steps[i].result, uri, i + 1);
    }
  }

  /** A table lookup that continues resolution was made at a segment of the path. */
  lemma LookupWithinPath(env: Env, t: ResolverResult, uri: Path, j: nat)
    requires "undefined" !in env.globalRoutes
    requires t.parseNextRoute.None? && "undefined" !in t.subRoutes
    requires Next(env, t, SegmentAt(uri, j)) != Stop
    ensures j < |uri|
  {
    assert j >= |uri| ==> PathKey(SegmentAt(uri, j)) == "undefined";
  }

  /**
   * When every step names an explicit continuation, only the cut-off ends
   * resolution: the source's loop does not terminate on such a chain.
   */
  lemma ExplicitChainUsesAllFuel(env: Env, root: Screen, uri: Path, fuel: nat)
    requires HasParseRoute(env, root)
    requires forall i :: 0 <= i < |Run(env, root, uri, fuel)| ==> ContinuesExplicitly(env, Run(env, root, uri, fuel)[i].result)
    ensures |Run(env, root, uri, fuel)| == fuel
  {
    var steps := Run(env, root, uri, fuel);
    RunIsResolution(env, root, uri, fuel);
    if fuel > 0 {
      assert ContinuesExplicitly(env, steps[|steps| - 1].result);
    }
  }

  /** A root class without a parseRoute resolves to the empty stack. */
  lemma RootWithoutParseRoute(env: Env, root: Screen, uri: Path, fuel: nat)
    requires !HasParseRoute(env, root)
    ensures Stack(Run(env, root, uri, fuel)) == []
  {
  }

  /**
   * A table hit on a class without a parseRoute ends resolution after the
   * current step: with the global table {x: C} for such a class C and a
   * root that only consults the global table, the path [root, x] resolves
   * to the root's descriptor alone.
   */
  lemma {:induction false} ClassWithoutParseRouteEndsRun(env: Env, uri: Path, fuel: nat, c: Screen)
    requires fuel >= 1 && |uri| == 2 && uri[1].path == Some("x")
    requires env.globalRoutes == map["x" := c] && !HasParseRoute(env, c)
    ensures |Stack(Run(env, Register, uri, fuel))| == 1
  {
    var steps := Run(env, Register, uri, fuel);
    RunIsResolution(env, Register, uri, fuel);
    RegisterStep(env, SegmentAt(uri, 0), SegmentAt(uri, 1), uri, SegmentAt(uri, 0), SegmentAt(uri, 1), uri, Some(Register), SegmentAt(uri, 1));
    assert Next(env, steps[0].result, SegmentAt(uri, 0 + 1)) == Stop;
  }

  // ---------------------------------------------------------------------
  // Each modelled resolver's part in a step of resolution.
  // ---------------------------------------------------------------------

  /**
   * Where the global table alone leads from `lookup`: into the class stored
   * under its key when that class has a parseRoute, and nowhere otherwise.
   */
  function GlobalNext(env: Env, lookup: Segment): (c: Continuation)
    ensures c != Stop <==> PathKey(lookup) in env.globalRoutes && HasParseRoute(env, env.globalRoutes[PathKey(lookup)])
    ensures c != Stop ==> c == Table(env.globalRoutes[PathKey(lookup)])
  {
    var key := PathKey(lookup);
    if key in env.globalRoutes && HasParseRoute(env, env.globalRoutes[key]) then Table(env.globalRoutes[key]) else Stop
  }

  /**
   * LoginContainer: a fixed descriptor, always the login form next (the
   * routes table and the default name the same class), never a table; the
   * result depends on nextPath only.
   */
  lemma LoginContainerStep(env: Env, currentPath: Segment, nextPath: Segment, uri: Path,
                           otherPath: Segment, otherUri: Path, implicit: Option<Screen>, lookup: Segment)
    ensures var t := ParseRoute(env, LoginContainer, currentPath, nextPath, uri);
      && t == ParseRoute(env, LoginContainer, otherPath, nextPath, otherUri)
      && t.parseNextRoute == Some(LoginForm)
      && t.subRoutes == map[]
      && Next(env, t, lookup) == (if HasParseRoute(env, LoginForm) then Explicit(LoginForm) else GlobalNext(env, lookup))
      && Record(t, currentPath, implicit).component == Some(LoginContainer)
      && t.componentAtTop.title == Some("Keybase")
      && t.componentAtTop.stateSlice == Some("login")
  {
  }

  /**
   * A run rooted at LoginContainer with room for two steps continues with
   * the login form, when the form has a parseRoute.
   */
  lemma LoginContainerContinuesToForm(env: Env, uri: Path, fuel: nat)
    requires fuel >= 2 && HasParseRoute(env, LoginForm)
    ensures var steps := Run(env, LoginContainer, uri, fuel);
      |steps| >= 2 && steps[1].resolver == LoginForm && steps[1].nextComponent == None
  {
    var steps := Run(env, LoginContainer, uri, fuel);
    RunIsResolution(env, LoginContainer, uri, fuel);
    LoginContainerStep(env, SegmentAt(uri, 0), SegmentAt(uri, 1), uri, SegmentAt(uri, 0), uri, Some(LoginContainer), SegmentAt(uri, 1));
    assert Enters(Next(env, steps[0].result, SegmentAt(uri, 0 + 1)), steps[0 + 1]);
  }

  /**
   * Welcome: no component (the engine backfills the selected class), the
   * navigation bar hidden, 'login' and 'signup' taken from its own table
   * whatever the global table says; the result ignores its inputs.
   */
  lemma WelcomeStep(env: Env, currentPath: Segment, nextPath: Segment, uri: Path,
                    otherPath: Segment, otherNext: Segment, otherUri: Path, implicit: Option<Screen>, lookup: Segment)
    ensures var t := ParseRoute(env, Welcome, currentPath, nextPath, uri);
      && t == ParseRoute(env, Welcome, otherPath, otherNext, otherUri)
      && t.parseNextRoute.None?
      && t.componentAtTop.hideNavBar
      && Record(t, currentPath, implicit).component == implicit
      && (lookup.path == Some("login") ==>
            Next(env, t, lookup) == (if HasParseRoute(env, WelcomeLogin) then Table(WelcomeLogin) else Stop))
      && (lookup.path == Some("signup") ==>
            Next(env, t, lookup) == (if HasParseRoute(env, WelcomeSignup) then Table(WelcomeSignup) else Stop))
  {
  }

  /**
   * Register: the empty descriptor, so its component comes only from the
   * backfill and it has no title; only the global table can continue.
   */
  lemma RegisterStep(env: Env, currentPath: Segment, nextPath: Segment, uri: Path,
                     otherPath: Segment, otherNext: Segment, otherUri: Path, implicit: Option<Screen>, lookup: Segment)
    ensures var t := ParseRoute(env, Register, currentPath, nextPath, uri);
      && t == ParseRoute(env, Register, otherPath, otherNext, otherUri)
      && t.componentAtTop == EmptyDescriptor
      && Record(t, currentPath, implicit).component == implicit
      && Record(t, currentPath, implicit).title.None?
      && Next(env, t, lookup) == GlobalNext(env, lookup)
  {
  }

  /** The title each tab screen gives itself. */
  function TabTitle(s: Screen): string
    requires s in {Folders, People, Chat}
  {
    match s
    case Folders => "Folders"
    case People => "People"
    case Chat => "Chat"
  }

  /**
   * Folders, People and Chat: a terminal leaf naming itself, with its own
   * title; only the global table can continue past it.
   */
  lemma TabLeafStep(env: Env, s: Screen, currentPath: Segment, nextPath: Segment, uri: Path,
                    otherPath: Segment, otherNext: Segment, otherUri: Path, implicit: Option<Screen>, lookup: Segment)
    requires s in {Folders, People, Chat}
    ensures var t := ParseRoute(env, s, currentPath, nextPath, uri);
      && t == ParseRoute(env, s, otherPath, otherNext, otherUri)
      && t.parseNextRoute.None?
      && t.subRoutes == map[]
      && Record(t, currentPath, implicit).component == Some(s)
      && t.componentAtTop.title == Some(TabTitle(s))
      && Next(env, t, lookup) == GlobalNext(env, lookup)
  {
  }
}
