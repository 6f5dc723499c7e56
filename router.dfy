/** The frontend's route table and its global `beforeEach` navigation
    guard: pages that need a session send a visitor to the login page, and
    the guest pages send a signed-in user home. */
module Router {
  /** The named routes. */
  datatype RouteName = Login | Register | Home | ChannelPage

  /** The `meta` flags of a route; an absent flag is `false`. */
  datatype Meta = Meta(requiresAuth: bool, guest: bool)

  datatype Route = Route(path: string, name: RouteName, meta: Meta)

  /** The `routes` table, in declaration order. */
  const Routes: seq<Route> := [
    Route("/login", Login, Meta(false, true)),
    Route("/register", Register, Meta(false, true)),
    Route("/", Home, Meta(true, false)),
    Route("/channel/:channelId", ChannelPage, Meta(true, false))
  ]

  /** The `meta` of the route declared under `name`. */
  function MetaOf(name: RouteName): (m: Meta)
    ensures exists k :: 0 <= k < |Routes| && Routes[k].name == name && Routes[k].meta == m
  {
    var k := match name
      case Login => 0
      case Register => 1
      case Home => 2
      case ChannelPage => 3;
    Routes[k].meta
  }

  /** Where a navigation goes: a named route, or a location no route
      matched, whose `meta` is empty. */
  datatype Destination = Named(name: RouteName) | Unmatched

  function MetaAt(to: Destination): Meta
  {
    match to
    case Named(name) => MetaOf(name)
    case Unmatched => Meta(false, false)
  }

  /** The single call the guard makes to `next`: with no argument, or with
      the route to go to instead. */
  datatype Decision = Proceed | RedirectTo(target: RouteName)

  /** `router.beforeEach` given whether a session exists. */
  function BeforeEach(to: Destination, isAuthenticated: bool): (d: Decision)
    ensures d == RedirectTo(Login) <==> MetaAt(to).requiresAuth && !isAuthenticated
    ensures d == RedirectTo(Home) <==> MetaAt(to).guest && isAuthenticated
    ensures d == Proceed <==>
      !(MetaAt(to).requiresAuth && !isAuthenticated) && !(MetaAt(to).guest && isAuthenticated)
  {
    var meta := MetaAt(to);
    if meta.requiresAuth && !isAuthenticated then RedirectTo(Login)
    else if meta.guest && isAuthenticated then RedirectTo(Home)
    else Proceed
  }

  /** No route is both for guests and for signed-in users. */
  lemma NoRouteIsBothGuestAndPrivate()
    ensures forall k :: 0 <= k < |Routes| ==> !(Routes[k].meta.guest && Routes[k].meta.requiresAuth)
  {
  }

  /** A redirect lands on a page the guard lets through with the same
      session, so a navigation is redirected at most once. */
  lemma RedirectTargetsAreFixedPoints(to: Destination, isAuthenticated: bool)
    ensures BeforeEach(to, isAuthenticated).RedirectTo? ==>
      BeforeEach(Named(BeforeEach(to, isAuthenticated).target), isAuthenticated) == Proceed
  {
  }

  /** Channel pages require a session. */
  lemma ChannelPageRequiresAuth()
    ensures forall k :: 0 <= k < |Routes| && Routes[k].path == "/channel/:channelId" ==>
      Routes[k].name == ChannelPage && Routes[k].meta.requiresAuth
    ensures BeforeEach(Named(ChannelPage), false) == RedirectTo(Login)
  {
  }

  /** Paths and names are declared once each. */
  lemma RoutesAreDistinct()
    ensures forall j, k :: 0 <= j < k < |Routes| ==>
      Routes[j].path != Routes[k].path && Routes[j].name != Routes[k].name
  {
  }
}
