/**
 * The tab layer of the router (react-native/react/reducers/tabbed-router.js):
 * one router state per tab and the active tab. Tab switches and the login
 * lifecycle actions are handled here; every other action goes to the inner
 * router reducer of one tab.
 *
 * The inner router reducer and createRouterState live in reducers/router,
 * which is not part of this model: the reducer is a function parameter and
 * the created empty state a value parameter. The LocalDebug switches are an
 * explicit configuration.
 */
module TabbedRouter {
  import opened Wrappers

  /**
   * A tab name. The six declared tabs of constants/tabs (not part of this
   * model; their names are taken to be distinct), and any other value a
   * switchTab payload may carry.
   */
  datatype Tab =
    | StartupTab
    | FolderTab
    | ChatTab
    | PeopleTab
    | DevicesTab
    | MoreTab
    | UndeclaredTab(name: string)

  const DeclaredTabs: set<Tab> := {StartupTab, FolderTab, ChatTab, PeopleTab, DevicesTab, MoreTab}

  /** The actions this layer tells apart; `Forward` is every other action. */
  datatype Action<A> =
    | SwitchTab(payload: Tab)
    | LoginDone
    | LogoutDone
    | NeedsLogin
    | NeedsRegistering
    | Forward(action: A)

  /** The LocalDebug switches. */
  datatype Config<R> = Config(
    overrideRouterState: Option<R>,
    overrideActiveTab: Option<Tab>,
    skipLoginRouteToRoot: bool)

  /** The tabbed router state: a router state per tab and the focused tab. */
  datatype State<R> = State(tabs: map<Tab, R>, activeTab: Tab)

  /** The inner router reducer: called with the tab's state, or nothing when the tab has none. */
  type InnerReducer<!R, !A> = (Option<R>, Action<A>) -> R

  /** The shape every state of a running app keeps: the six tabs, one of them active. */
  predicate WellFormed<R>(s: State<R>) {
    s.tabs.Keys == DeclaredTabs && s.activeTab in DeclaredTabs
  }

  /** initialState: every declared tab holds the same empty router state. */
  function InitialState<R>(config: Config<R>, created: R): (s: State<R>)
    ensures s.tabs.Keys == DeclaredTabs && |s.tabs| == 6
    ensures forall t :: t in s.tabs ==> s.tabs[t] == (if config.overrideRouterState.Some? then config.overrideRouterState.value else created)
    ensures config.overrideActiveTab.None? ==> s.activeTab == MoreTab
    ensures config.overrideActiveTab.Some? ==> s.activeTab == config.overrideActiveTab.value
  {
    var empty := if config.overrideRouterState.Some? then config.overrideRouterState.value else created;
    var tabs := map[StartupTab := empty, FolderTab := empty, ChatTab := empty,
                    PeopleTab := empty, DevicesTab := empty, MoreTab := empty];
    assert tabs.Keys == DeclaredTabs;
    assert |tabs| == |DeclaredTabs| == 6;
    State(tabs, if config.overrideActiveTab.Some? then config.overrideActiveTab.value else MoreTab)
  }

  /** updateIn(['tabs', tab], inner): the tab's entry, created when missing, replaced by the inner reducer's output. */
  function UpdateTab<R, A>(tabs: map<Tab, R>, tab: Tab, inner: InnerReducer<R, A>, action: Action<A>): (r: map<Tab, R>)
    ensures r.Keys == tabs.Keys + {tab}
    ensures r[tab] == inner(if tab in tabs then Some(tabs[tab]) else None, action)
    ensures forall t :: t in tabs && t != tab ==> r[t] == tabs[t]
  {
    tabs[tab := inner(if tab in tabs then Some(tabs[tab]) else None, action)]
  }

  /** The reducer; a missing state is the initial state. */
  function Reduce<R, A>(config: Config<R>, created: R, inner: InnerReducer<R, A>, state: Option<State<R>>, action: Action<A>): (r: State<R>) {
    var s := if state.Some? then state.value else InitialState(config, created);
    match action
    case SwitchTab(payload) => s.(activeTab := payload)
    case LoginDone => if config.skipLoginRouteToRoot then s else s.(activeTab := FolderTab)
    case LogoutDone => s.(activeTab := StartupTab)
    case NeedsLogin => State(UpdateTab(s.tabs, StartupTab, inner, action), MoreTab)
    case NeedsRegistering => State(UpdateTab(s.tabs, StartupTab, inner, action), MoreTab)
    case Forward(_) => s.(tabs := UpdateTab(s.tabs, s.activeTab, inner, action))
  }

  /** The tab whose router state an action hands to the inner reducer, if any. */
  function Forwarded<R, A>(s: State<R>, action: Action<A>): Option<Tab> {
    match action
    case NeedsLogin => Some(StartupTab)
    case NeedsRegistering => Some(StartupTab)
    case Forward(_) => Some(s.activeTab)
    case _ => None
  }

  /**
   * Tab isolation: only the forwarded tab's entry may change, and that one
   * becomes the inner reducer's output; switchTab, loginDone and logoutDone
   * leave all entries alone.
   */
  lemma OnlyForwardedTabChanges<R, A>(config: Config<R>, created: R, inner: InnerReducer<R, A>, s: State<R>, action: Action<A>)
    ensures var r := Reduce(config, created, inner, Some(s), action);
      && (forall t :: t in s.tabs && Some(t) != Forwarded(s, action) ==> t in r.tabs && r.tabs[t] == s.tabs[t])
      && (Forwarded(s, action).None? ==> r.tabs == s.tabs)
      && (Forwarded(s, action).Some? ==>
            var t := Forwarded(s, action).value;
            r.tabs.Keys == s.tabs.Keys + {t} && r.tabs[t] == inner(if t in s.tabs then Some(s.tabs[t]) else None, action))
  {
  }

  /**
   * The focused tab after each action: the switchTab payload unchecked,
   * the folder tab after login (unless LocalDebug skips it), the startup tab
   * after logout, the "more" tab (not the startup tab) on needsLogin and
   * needsRegistering, and unchanged otherwise.
   */
  lemma ActiveTabAfter<R, A>(config: Config<R>, created: R, inner: InnerReducer<R, A>, s: State<R>, action: Action<A>)
    ensures var r := Reduce(config, created, inner, Some(s), action);
      && (action.SwitchTab? ==> r.activeTab == action.payload)
      && (action.LoginDone? ==> r.activeTab == if config.skipLoginRouteToRoot then s.activeTab else FolderTab)
      && (action.LoginDone? && config.skipLoginRouteToRoot ==> r == s)
      && (action.LogoutDone? ==> r.activeTab == StartupTab)
      && (action.NeedsLogin? || action.NeedsRegistering? ==> r.activeTab == MoreTab)
      && (action.Forward? ==> r.activeTab == s.activeTab)
  {
  }

  /** With no state yet, the reducer acts on the initial state. */
  lemma MissingStateIsInitial<R, A>(config: Config<R>, created: R, inner: InnerReducer<R, A>, action: Action<A>)
    ensures Reduce(config, created, inner, None, action) == Reduce(config, created, inner, Some(InitialState(config, created)), action)
  {
  }

  /** The initial state is well formed unless LocalDebug focuses an undeclared tab. */
  lemma InitialStateIsWellFormed<R>(config: Config<R>, created: R)
    ensures WellFormed(InitialState(config, created)) <==>
              config.overrideActiveTab.None? || config.overrideActiveTab.value in DeclaredTabs
  {
  }

  /**
   * Every action keeps a well-formed state well formed, except a switchTab
   * to an undeclared tab: the payload is not checked.
   */
  lemma {:induction false} ReducePreservesWellFormed<R, A>(config: Config<R>, created: R, inner: InnerReducer<R, A>, s: State<R>, action: Action<A>)
    requires WellFormed(s)
    ensures WellFormed(Reduce(config, created, inner, Some(s), action)) <==>
              !(action.SwitchTab? && action.payload !in DeclaredTabs)
  {
    var r := Reduce(config, created, inner, Some(s), action);
    OnlyForwardedTabChanges(config, created, inner, s, action);
    match action
    case SwitchTab(payload) =>
    case LoginDone =>
    case LogoutDone =>
    case NeedsLogin =>
      assert r.tabs.Keys == s.tabs.Keys + {StartupTab};
    case NeedsRegistering =>
      assert r.tabs.Keys == s.tabs.Keys + {StartupTab};
    case Forward(_) =>
      assert r.tabs.Keys == s.tabs.Keys + {s.activeTab};
  }

  /**
   * After a switch to an undeclared tab, a forwarded action creates that
   * tab's entry from the inner reducer's output on no state: the set of tab
   * keys grows.
   */
  lemma UndeclaredSwitchThenForwardAddsTab<R, A>(config: Config<R>, created: R, inner: InnerReducer<R, A>, s: State<R>,
                                                  name: string, a: A)
    requires WellFormed(s)
    ensures var switched := Reduce(config, created, inner, Some(s), SwitchTab(UndeclaredTab(name)));
      var r := Reduce(config, created, inner, Some(switched), Forward(a));
      && r.tabs.Keys == DeclaredTabs + {UndeclaredTab(name)}
      && r.tabs[UndeclaredTab(name)] == inner(None, Forward(a))
  {
  }
}
