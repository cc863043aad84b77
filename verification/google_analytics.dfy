/**
 * The cookie consent banner (src/components/GoogleAnalytics.tsx): the
 * choice is kept in browser storage under `cookie-consent`, read back when
 * the component mounts, and decides whether the banner or the analytics
 * scripts are shown.
 */
module GoogleAnalytics {
  import opened Wrappers

  const ConsentKey: string := "cookie-consent"

  /** The stored form of a choice. */
  function Stored(accepted: bool): string {
    if accepted then "true" else "false"
  }

  /** The consent a stored entry stands for; any other value, or none, leaves it undecided. */
  function ReadConsent(items: map<string, string>): (c: Option<bool>)
    ensures c == Some(true) <==> ConsentKey in items && items[ConsentKey] == "true"
    ensures c == Some(false) <==> ConsentKey in items && items[ConsentKey] == "false"
    ensures c.None? <==> ConsentKey !in items || (items[ConsentKey] != "true" && items[ConsentKey] != "false")
  {
    if ConsentKey !in items then None
    else if items[ConsentKey] == "true" then Some(true)
    else if items[ConsentKey] == "false" then Some(false)
    else None
  }

  /** A stored choice reads back as that choice, whatever else is stored. */
  lemma ConsentReadsBack(items: map<string, string>, accepted: bool)
    ensures ReadConsent(items[ConsentKey := Stored(accepted)]) == Some(accepted)
  {
  }

  /** The browser's `localStorage`, shared by every mount of the component. */
  class Store {
    var items: map<string, string>

    constructor(items0: map<string, string>)
      ensures items == items0
    {
      items := items0;
    }
  }

  class ConsentBanner {
    /** `None` while the visitor has not decided. */
    var cookieConsent: Option<bool>
    var mounted: bool
    const store: Store

    constructor(store: Store)
      ensures this.store == store
      ensures cookieConsent == None && !mounted
    {
      this.store := store;
      cookieConsent := None;
      mounted := false;
    }

    /** The mount effect: a stored decision is adopted, anything else leaves the consent as it is. */
    method Mount()
      modifies this
      ensures mounted
      ensures ReadConsent(store.items).Some? ==> cookieConsent == ReadConsent(store.items)
      ensures ReadConsent(store.items).None? ==> cookieConsent == old(cookieConsent)
    {
      mounted := true;
      var consent := ReadConsent(store.items);
      if consent.Some? {
        cookieConsent := consent;
      }
    }

    method AcceptCookies()
      modifies this, store
      ensures store.items == old(store.items)[ConsentKey := "true"]
      ensures cookieConsent == Some(true) && mounted == old(mounted)
      ensures ScriptsRendered() && !BannerVisible()
    {
      store.items := store.items[ConsentKey := "true"];
      cookieConsent := Some(true);
    }

    method DeclineCookies()
      modifies this, store
      ensures store.items == old(store.items)[ConsentKey := "false"]
      ensures cookieConsent == Some(false) && mounted == old(mounted)
      ensures !ScriptsRendered() && !BannerVisible()
    {
      store.items := store.items[ConsentKey := "false"];
      cookieConsent := Some(false);
    }

    /** The banner asks only after mounting and only while undecided. */
    predicate BannerVisible()
      reads this
    {
      mounted && cookieConsent.None?
    }

    /** The analytics scripts load only with consent. */
    predicate ScriptsRendered()
      reads this
    {
      cookieConsent == Some(true)
    }
  }

  /**
   * A visit that decides, then a later visit with the same storage: the
   * later visit mounts with the decision already made and shows no banner.
   */
  method DecideThenRevisit(store: Store, accepted: bool) returns (consent: Option<bool>, bannerShown: bool, scripts: bool)
    modifies store
    ensures consent == Some(accepted) && !bannerShown && scripts == accepted
  {
    var first := new ConsentBanner(store);
    first.Mount();
    if accepted {
      first.AcceptCookies();
    } else {
      first.DeclineCookies();
    }
    var second := new ConsentBanner(store);
    second.Mount();
    consent := second.cookieConsent;
    bannerShown := second.BannerVisible();
    scripts := second.ScriptsRendered();
  }
}
