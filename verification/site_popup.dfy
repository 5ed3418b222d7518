/**
 * The announcement popup (src/components/layout/SitePopup.tsx): shown once per
 * content version, never on admin pages. The `settings` row (already parsed
 * from JSON) and the `localStorage` entry `popup_dismissed_version` are
 * parameters and fields; the clock is the `now` parameter of `HandleClose`.
 */
module Popup {
  import opened Wrappers

  /** The parsed `site_popup` setting. */
  datatype PopupSettings = PopupSettings(
    enabled: bool,
    image: string,
    header: string,
    text: string,
    buttonText: Option<string>,
    buttonLink: Option<string>,
    lastUpdated: Option<int>)

  /**
   * The `popup_dismissed_version` entry as `parseInt` reads it: absent or
   * empty, a number, or a string that parses to `NaN`.
   */
  datatype Dismissed = Never | Version(v: int) | NotANumber

  /** `pathname.startsWith('/admin')`. */
  predicate IsAdminPath(pathname: string) {
    |pathname| >= 6 && pathname[..6] == "/admin"
  }

  /** `parsed.lastUpdated || 0`. */
  function CurrentVersion(s: PopupSettings): (r: int)
    ensures s.lastUpdated.Some? && s.lastUpdated.value != 0 ==> r == s.lastUpdated.value
    ensures s.lastUpdated.None? || s.lastUpdated.value == 0 ==> r == 0
  {
    s.lastUpdated.GetOr(0)
  }

  /**
   * The effect of lines 23-57: not on admin pages, only for an enabled setting,
   * and then only if nothing was dismissed or the content is newer than the
   * dismissed version (`NaN` compares false).
   */
  predicate ShouldShow(pathname: string, fetched: Option<PopupSettings>, dismissed: Dismissed) {
    && !IsAdminPath(pathname)
    && fetched.Some?
    && fetched.value.enabled
    && match dismissed
       case Never => true
       case Version(v) => CurrentVersion(fetched.value) > v
       case NotANumber => false
  }

  /** The version `handleClose` stores: `lastUpdated` when truthy, else the current time. */
  function DismissVersion(settings: Option<PopupSettings>, now: int): (r: int)
    ensures settings.Some? && settings.value.lastUpdated.Some? && settings.value.lastUpdated.value != 0 ==>
              r == settings.value.lastUpdated.value
    ensures (settings.None? || CurrentVersion(settings.value) == 0) ==> r == now
  {
    if settings.Some? && settings.value.lastUpdated.Some? && settings.value.lastUpdated.value != 0
    then settings.value.lastUpdated.value
    else now
  }

  /** Closing a popup keeps the same content from showing again, on any page. */
  lemma ClosedStaysClosed(pathname: string, s: PopupSettings, now: int)
    requires now >= 0
    ensures !ShouldShow(pathname, Some(s), Version(DismissVersion(Some(s), now)))
  {
    if CurrentVersion(s) == 0 {
      assert DismissVersion(Some(s), now) == now;
    }
  }

  /** Content saved with a newer `lastUpdated` than the dismissed one shows again. */
  lemma NewerContentShows(pathname: string, s: PopupSettings, dismissedAt: int)
    requires !IsAdminPath(pathname) && s.enabled
    requires s.lastUpdated.Some? && s.lastUpdated.value > dismissedAt
    requires s.lastUpdated.value != 0
    ensures ShouldShow(pathname, Some(s), Version(dismissedAt))
  {
  }

  /** How the popup is closed: the linked call-to-action or the "Got it" button. */
  datatype CloseControl = CallToAction(text: string, link: string) | GotIt

  /** `settings.buttonText && settings.buttonLink ? <Link> : <button>Got it</button>`. */
  function CloseControlOf(s: PopupSettings): (r: CloseControl)
    ensures r.CallToAction? <==>
              s.buttonText.Some? && s.buttonText.value != "" && s.buttonLink.Some? && s.buttonLink.value != ""
    ensures r.CallToAction? ==> r == CallToAction(s.buttonText.value, s.buttonLink.value)
  {
    match (s.buttonText, s.buttonLink)
    case (Some(t), Some(l)) => if t != "" && l != "" then CallToAction(t, l) else GotIt
    case _ => GotIt
  }

  class SitePopup {
    var isOpen: bool
    var settings: Option<PopupSettings>
    var stored: Dismissed              // localStorage['popup_dismissed_version']

    constructor (stored: Dismissed)
      ensures !isOpen && settings == None && this.stored == stored
    {
      isOpen := false;
      settings := None;
      this.stored := stored;
    }

    /** The effect for a path, given the fetched setting; the two-second delay is not modelled. */
    method Load(pathname: string, fetched: Option<PopupSettings>)
      modifies this`isOpen, this`settings
      ensures ShouldShow(pathname, fetched, old(stored)) ==> settings == fetched && isOpen
      ensures !ShouldShow(pathname, fetched, old(stored)) ==> unchanged(this)
    {
      if IsAdminPath(pathname) {
        return;
      }
      if fetched.Some? && fetched.value.enabled {
        var show := match stored
          case Never => true
          case Version(v) => CurrentVersion(fetched.value) > v
          case NotANumber => false;
        if show {
          settings := fetched;
          isOpen := true;
        }
      }
    }

    /** `handleClose`: hide and remember the dismissed version. */
    method HandleClose(now: int)
      modifies this`isOpen, this`stored
      ensures !isOpen && stored == Version(DismissVersion(settings, now))
    {
      isOpen := false;
      if settings.Some? && settings.value.lastUpdated.Some? && settings.value.lastUpdated.value != 0 {
        stored := Version(settings.value.lastUpdated.value);
      } else {
        stored := Version(now);
      }
    }

    /** `if (!isOpen || !settings) return null`. */
    predicate Rendered()
      reads this
    {
      isOpen && settings.Some?
    }
  }
}
