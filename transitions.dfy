/**
 * The page-transition provider: a curtain comes down (entering), the router navigates once it
 * covers the screen, the curtain lifts once the new route is shown (exiting), and after the
 * lift the provider is idle again. React's state updates and effects are modelled as methods:
 * each timer firing and the route-change effect is one call, and the router's navigation is
 * the value `EnteringTimerElapsed` returns followed by a call of `RouteChanged`.
 */
module Transitions {
  import opened Options

  datatype Stage = Idle | Entering | Exiting

  /** What `useTransition` hands to a component: the stage, and whether a transition is on. */
  datatype ContextValue = ContextValue(stage: Stage, isTransitioning: bool)

  const OutsideProvider: string := "useTransition must be used within a TransitionProvider"

  /** `useTransition`: the provider's value, or the error thrown outside any provider. */
  function UseTransition(context: Option<ContextValue>): (r: Result<ContextValue>)
    ensures r.Err? <==> context.None?
    ensures r.Err? ==> r.message == OutsideProvider
    ensures r.Ok? ==> r.value == context.value
  {
    if context.None? then Err(OutsideProvider) else Ok(context.value)
  }

  class TransitionProvider {
    /** The router's current path. */
    var pathname: string
    var stage: Stage
    var nextHref: Option<string>

    /** A target is remembered exactly while a transition is on. */
    predicate Valid()
      reads this
    {
      (stage == Idle) == nextHref.None?
    }

    constructor (pathname: string)
      ensures this.pathname == pathname && stage == Idle && nextHref == None
      ensures Valid()
    {
      this.pathname := pathname;
      stage := Idle;
      nextHref := None;
    }

    function IsTransitioning(): bool
      reads this
    {
      stage != Idle
    }

    function Context(): (c: ContextValue)
      reads this
      ensures c.isTransitioning <==> c.stage != Idle
    {
      ContextValue(stage, IsTransitioning())
    }

    /** `startTransition`: a link to the current path does nothing; any other link brings the
        curtain down towards it, even in the middle of a transition. */
    method StartTransition(href: string)
      modifies this`stage, this`nextHref
      ensures old(Valid()) ==> Valid()
      ensures href == pathname ==> stage == old(stage) && nextHref == old(nextHref)
      ensures href != pathname ==> stage == Entering && nextHref == Some(href)
    {
      if href == pathname {
        return;
      }
      nextHref := Some(href);
      stage := Entering;
    }

    /** The one-second timer of the entering stage: it asks the router to go to the target when
        there is a non-empty one. The state does not change. */
    method EnteringTimerElapsed() returns (push: Option<string>)
      requires stage == Entering
      ensures push.Some? <==> nextHref.Some? && nextHref.value != ""
      ensures push.Some? ==> push == nextHref
    {
      push := None;
      if nextHref.Some? && nextHref.value != "" {
        push := nextHref;
      }
    }

    /** The router shows a new path. */
    method RouteChanged(path: string)
      modifies this`pathname
      ensures pathname == path
    {
      pathname := path;
    }

    /** The route effect: once the target is shown the curtain lifts; an idle provider forgets
        a leftover target (a state `Valid` rules out, as the provider sets stage and target together). The animation frame before lifting is taken as immediate. */
    method RouteEffect()
      modifies this`stage, this`nextHref
      ensures old(Valid()) ==> Valid()
      ensures old(stage) == Entering && old(nextHref) == Some(pathname) ==> stage == Exiting && nextHref == old(nextHref)
      ensures old(stage) == Idle && old(nextHref).Some? && old(nextHref).value != "" ==> stage == Idle && nextHref == None
      ensures old(stage) == Exiting || (old(stage) == Entering && old(nextHref) != Some(pathname)) ||
              (old(stage) == Idle && (old(nextHref).None? || old(nextHref).value == "")) ==>
                stage == old(stage) && nextHref == old(nextHref)
    {
      if stage == Entering && nextHref == Some(pathname) {
        stage := Exiting;
      } else if stage == Entering && nextHref.Some? && nextHref.value != "" && Some(pathname) != nextHref {
        // still waiting for the route change
      } else if stage == Idle && nextHref.Some? && nextHref.value != "" {
        nextHref := None;
      }
    }

    /** The timer of the exiting stage: the curtain is up, the provider is idle. */
    method ExitTimerElapsed()
      requires stage == Exiting
      modifies this`stage, this`nextHref
      ensures stage == Idle && nextHref == None
      ensures Valid()
    {
      stage := Idle;
      nextHref := None;
    }
  }

  /** A whole transition from an idle provider to another, non-empty path: the router is asked
      to go there, the curtain lifts once it has, and the provider ends idle on the new path. */
  method NavigationCycle(provider: TransitionProvider, href: string)
    requires provider.Valid() && provider.stage == Idle
    requires href != provider.pathname && href != ""
    modifies provider
    ensures provider.pathname == href && provider.stage == Idle && provider.nextHref == None
    ensures provider.Valid()
  {
    provider.StartTransition(href);
    assert provider.IsTransitioning();
    var push := provider.EnteringTimerElapsed();
    assert push == Some(href);
    provider.RouteChanged(push.value);
    provider.RouteEffect();
    assert provider.stage == Exiting && provider.IsTransitioning();
    provider.ExitTimerElapsed();
  }
}
