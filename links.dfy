/** The site's link: internal paths go through the page transition, everything else is left
    to the browser's default navigation. */
module Links {
  import opened Options
  import opened Text
  import opened Transitions

  /** A link target: a path or URL string, or a URL object. */
  datatype Href = Address(address: string) | UrlObject

  /** Only a string starting with "/" and not with "/#" is intercepted. */
  predicate Intercepts(href: Href) {
    href.Address? && StartsWith(href.address, "/") && !StartsWith(href.address, "/#")
  }

  /** What a click does, in order. */
  datatype ClickEffect = CallOnClick | PreventDefault | StartTransitionTo(target: string)

  /** `handleClick`: the caller's `onClick` first, then for an internal path the default
      navigation is prevented and a transition to the same string starts. */
  function HandleClick(href: Href, hasOnClick: bool): (effects: seq<ClickEffect>)
    ensures hasOnClick <==> |effects| > 0 && effects[0] == CallOnClick
    ensures PreventDefault in effects <==> Intercepts(href)
    ensures forall t :: StartTransitionTo(t) in effects <==> Intercepts(href) && t == href.address
    ensures Intercepts(href) ==>
              |effects| >= 2 && effects[|effects| - 2] == PreventDefault &&
              effects[|effects| - 1] == StartTransitionTo(href.address)
    ensures |effects| <= 3
  {
    (if hasOnClick then [CallOnClick] else []) +
    (if Intercepts(href) then [PreventDefault, StartTransitionTo(href.address)] else [])
  }

  /** Internal pages are intercepted; in-page anchors, other addresses and URL objects are not. */
  lemma InterceptExamples()
    ensures Intercepts(Address("/work"))
    ensures Intercepts(Address("/directory/jane-doe"))
    ensures !Intercepts(Address("/#about"))
    ensures !Intercepts(Address("https://example.com"))
    ensures !Intercepts(Address("#top"))
    ensures !Intercepts(Address(""))
    ensures !Intercepts(UrlObject)
  {
    assert "/work"[..1] == "/" && "/work"[..2][1] == 'w';
    assert "/directory/jane-doe"[..1] == "/" && "/directory/jane-doe"[..2][1] == 'd';
    assert "/#about"[..2] == "/#";
    assert "https://example.com"[..1][0] == 'h';
    assert "#top"[..1][0] == '#';
  }

  /** A click on a link inside the transition provider. */
  method Click(provider: TransitionProvider, href: Href, hasOnClick: bool) returns (effects: seq<ClickEffect>)
    modifies provider`stage, provider`nextHref
    ensures effects == HandleClick(href, hasOnClick)
    ensures old(provider.Valid()) ==> provider.Valid()
    ensures Intercepts(href) && href.address != provider.pathname ==>
              provider.stage == Entering && provider.nextHref == Some(href.address)
    ensures !Intercepts(href) || href.address == provider.pathname ==>
              provider.stage == old(provider.stage) && provider.nextHref == old(provider.nextHref)
  {
    effects := HandleClick(href, hasOnClick);
    if Intercepts(href) {
      provider.StartTransition(href.address);
    }
  }
}
