/**
 * The values the declarative router works on (react-native/react/router and
 * the screens that declare a static parseRoute): path segments, screen
 * descriptors, resolver results, and the resolvers themselves.
 *
 * A resolver is the static parseRoute of a screen class, so it is named by
 * the class that declares it: the closed datatype Screen is the resolver tag
 * and ParseRoute dispatches on it.
 */
module RouterModel {
  import opened Wrappers

  /** The routable screen classes. */
  datatype Screen =
    | LoginContainer    // login/index.js
    | LoginForm         // RenderLoginForm (login/nativeLoginForm), not part of this model
    | Welcome           // login2/welcome/index.js
    | WelcomeLogin      // login2/welcome/login, not part of this model
    | WelcomeSignup     // login2/welcome/signup, not part of this model
    | Register          // login2/register/index.js
    | Folders           // tabs/folders.js
    | People            // tabs/people.js
    | Chat              // tabs/chat.js
    | Unlisted(name: string)  // any other class reachable through the global routes

  /** Screens whose parseRoute is modelled here; the others come from Env.external. */
  predicate Modelled(s: Screen) {
    s in {LoginContainer, Welcome, Register, Folders, People, Chat}
  }

  /**
   * One level of a navigation path (an Immutable Map in the source): the
   * routing key `path`, the back-link metadata and the remaining parameters.
   */
  datatype Segment = Segment(
    path: Option<string>,
    upLink: Option<string>,
    upTitle: Option<string>,
    params: map<string, string>)

  /** `Immutable.Map()`, which stands in for a missing segment. */
  const EmptySegment: Segment := Segment(None, None, None, map[])

  /** A navigation path, root first (an Immutable List of segments). */
  type Path = seq<Segment>

  /**
   * A screen descriptor ("componentAtTop"). Absent keys of the JavaScript
   * object are None; `stateSlice` names the slice of the global state the
   * descriptor's mapStateToProps selects.
   */
  datatype Descriptor = Descriptor(
    component: Option<Screen>,
    title: Option<string>,
    saveKey: Option<string>,
    leftButtonTitle: Option<string>,
    stateSlice: Option<string>,
    hideNavBar: bool,
    upLink: Option<string>,
    upTitle: Option<string>)

  /** The empty object literal `{}`. */
  const EmptyDescriptor: Descriptor := Descriptor(None, None, None, None, None, false, None, None)

  /**
   * What a parseRoute returns: a descriptor, optionally an explicit
   * continuation (the parseRoute of the named class), and a table of child
   * routes (an absent table is the empty map: spreading undefined adds nothing).
   */
  datatype ResolverResult = ResolverResult(
    componentAtTop: Descriptor,
    parseNextRoute: Option<Screen>,
    subRoutes: map<string, Screen>)

  /**
   * What resolution needs beyond the path: the global routing table, which
   * of the screens not modelled here declare a static parseRoute, and the
   * parseRoute of those screens (these close over the store, which the
   * modelled resolvers never read).
   */
  datatype Env = Env(
    globalRoutes: map<string, Screen>,
    resolvable: Screen -> bool,
    external: (Screen, Segment, Segment, Path) -> ResolverResult)

  /**
   * Whether class `s` has a static parseRoute. Every modelled screen does;
   * for any other class `s.parseRoute` may be undefined, which is falsy.
   */
  predicate HasParseRoute(env: Env, s: Screen) {
    Modelled(s) || env.resolvable(s)
  }

  /**
   * The key a segment is looked up under. A segment without `path` makes
   * JavaScript index the table with undefined, that is with the key "undefined".
   */
  function PathKey(seg: Segment): string {
    if seg.path.Some? then seg.path.value else "undefined"
  }

  // ---------------------------------------------------------------------
  // The parseRoute resolvers of the modelled screens.
  // ---------------------------------------------------------------------

  /** LoginContainer.parseRoute: a fixed descriptor and always a continuation. */
  function LoginContainerParseRoute(nextPath: Segment): ResolverResult {
    var routes := map["loginform" := LoginForm];
    var componentAtTop := Descriptor(
      component := Some(LoginContainer),
      title := Some("Keybase"),
      saveKey := Some("Login"),
      leftButtonTitle := Some("¯\\_(ツ)_/¯"),
      stateSlice := Some("login"),
      hideNavBar := false,
      upLink := None,
      upTitle := None);
    // routes is an object literal in the source; path names are taken never
    // to be Object.prototype member names, which would hit that member.
    var key := PathKey(nextPath);
    var parseNextRoute := if key in routes then routes[key] else LoginForm;
    ResolverResult(componentAtTop, Some(parseNextRoute), map[])
  }

  /** Welcome.parseRoute: no component, the navigation bar hidden, two child routes. */
  function WelcomeParseRoute(): ResolverResult {
    ResolverResult(
      EmptyDescriptor.(hideNavBar := true),
      None,
      map["login" := WelcomeLogin, "signup" := WelcomeSignup])
  }

  /** Register.parseRoute: the empty descriptor. */
  function RegisterParseRoute(): ResolverResult {
    ResolverResult(EmptyDescriptor, None, map[])
  }

  /** Folders.parseRoute: a terminal leaf. */
  function FoldersParseRoute(): ResolverResult {
    ResolverResult(EmptyDescriptor.(component := Some(Folders), title := Some("Folders")), None, map[])
  }

  /** People.parseRoute: a terminal leaf. */
  function PeopleParseRoute(): ResolverResult {
    ResolverResult(EmptyDescriptor.(component := Some(People), title := Some("People")), None, map[])
  }

  /** Chat.parseRoute: a terminal leaf. */
  function ChatParseRoute(): ResolverResult {
    ResolverResult(EmptyDescriptor.(component := Some(Chat), title := Some("Chat")), None, map[])
  }

  /**
   * Calls the parseRoute of screen `s` with (currentPath, nextPath, uri).
   * Resolution calls it only for a class with a parseRoute.
   */
  function ParseRoute(env: Env, s: Screen, currentPath: Segment, nextPath: Segment, uri: Path): ResolverResult {
    match s
    case LoginContainer => LoginContainerParseRoute(nextPath)
    case Welcome => WelcomeParseRoute()
    case Register => RegisterParseRoute()
    case Folders => FoldersParseRoute()
    case People => PeopleParseRoute()
    case Chat => ChatParseRoute()
    case _ => env.external(s, currentPath, nextPath, uri)
  }
}
