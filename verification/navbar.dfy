/**
 The navigation bar: which link is highlighted for the current pathname, the
 unread badge on the bell button, and the mobile menu's open/closed state.
 */
module Navbar {
  import opened Wrappers
  import opened Text

  /** The hrefs of the bar's links, in display order. */
  const LinkHrefs: seq<string> := ["/", "/appointments", "/orders", "/prescriptions", "/profile"]

  /** The home link is active only on "/" itself; every other link on any path it prefixes. */
  predicate IsActive(pathname: string, href: string) {
    if href == "/" then pathname == "/" else StartsWith(pathname, href)
  }

  /** Home is never highlighted together with another link, since every other href is longer. */
  lemma HomeExcludesOthers(pathname: string, k: nat)
    requires 0 < k < |LinkHrefs|
    ensures !(IsActive(pathname, LinkHrefs[0]) && IsActive(pathname, LinkHrefs[k]))
  {
  }

  /** A page under "/orders" highlights exactly the orders link. */
  lemma SubpageHighlightsItsSection(rest: string)
    ensures forall k :: 0 <= k < |LinkHrefs| ==>
      (IsActive("/orders" + rest, LinkHrefs[k]) <==> k == 2)
  {
    var p := "/orders" + rest;
    assert p[..7] == "/orders";
    assert p[1] == 'o';
    forall k | 0 <= k < |LinkHrefs| && k != 2 && k != 0 && |LinkHrefs[k]| <= |p|
      ensures p[..|LinkHrefs[k]|] != LinkHrefs[k]
    {
      assert p[..|LinkHrefs[k]|][1] == 'o' != LinkHrefs[k][1];
    }
  }

  /** A user alert; only its read flag matters here. */
  datatype Alert = Alert(id: int, isRead: bool)

  /** A pending-appointment notification. */
  datatype Notification = Notification(id: int)

  /** Alerts not yet read. */
  function UnreadCount(alerts: seq<Alert>): (n: nat)
    ensures n <= |alerts|
    ensures n == 0 <==> forall i :: 0 <= i < |alerts| ==> alerts[i].isRead
    ensures n == |alerts| <==> forall i :: 0 <= i < |alerts| ==> !alerts[i].isRead
  {
    if |alerts| == 0 then 0
    else
      var rest := UnreadCount(alerts[1..]);
      assert forall i :: 1 <= i < |alerts| ==> alerts[i] == alerts[1..][i - 1];
      (if alerts[0].isRead then 0 else 1) + rest
  }

  /** Read alerts never count: adding or removing one leaves the count unchanged. */
  lemma {:induction false} ReadAlertsDoNotCount(before: seq<Alert>, after: seq<Alert>, a: Alert)
    requires a.isRead
    ensures UnreadCount(before + [a] + after) == UnreadCount(before + after)
    decreases |before|
  {
    if |before| == 0 {
      assert before + [a] + after == [a] + after;
      assert ([a] + after)[1..] == after;
      assert before + after == after;
    } else {
      assert (before + [a] + after)[1..] == before[1..] + [a] + after;
      assert (before + after)[1..] == before[1..] + after;
      ReadAlertsDoNotCount(before[1..], after, a);
    }
  }

  /** Each unread alert counts once: adding or removing one moves the count by exactly one. */
  lemma {:induction false} UnreadAlertCounts(before: seq<Alert>, after: seq<Alert>, a: Alert)
    requires !a.isRead
    ensures UnreadCount(before + [a] + after) == UnreadCount(before + after) + 1
    decreases |before|
  {
    if |before| == 0 {
      assert before + [a] + after == [a] + after;
      assert ([a] + after)[1..] == after;
      assert before + after == after;
    } else {
      assert (before + [a] + after)[1..] == before[1..] + [a] + after;
      assert (before + after)[1..] == before[1..] + after;
      UnreadAlertCounts(before[1..], after, a);
    }
  }

  /** The bell badge: none, the exact total, or "99+". */
  datatype Badge = NoBadge | Exact(total: nat) | Capped

  /**
   The badge for the loaded notifications and alerts; nothing while either
   list is missing or when there is nothing unread.
   */
  function BadgeFor(notifications: Option<seq<Notification>>, alerts: Option<seq<Alert>>): (b: Badge)
    ensures b.NoBadge? <==> (notifications.None? || alerts.None? ||
      (|notifications.value| == 0 && UnreadCount(alerts.value) == 0))
    ensures b.Capped? <==> (notifications.Some? && alerts.Some? &&
      |notifications.value| + UnreadCount(alerts.value) > 99)
    ensures b.Exact? ==> (1 <= b.total <= 99 &&
      b.total == |notifications.value| + UnreadCount(alerts.value))
  {
    if notifications.None? || alerts.None? then NoBadge
    else
      var total := |notifications.value| + UnreadCount(alerts.value);
      if total == 0 then NoBadge
      else if total > 99 then Capped
      else Exact(total)
  }

  /** The badge's text. */
  function BadgeText(b: Badge): (s: string)
    requires !b.NoBadge?
  {
    match b
    case Exact(n) => Decimal(n)
    case Capped => "99+"
  }

  /** The badge text is at most three characters and reads back as the total when not capped. */
  lemma BadgeTextFits(notifications: Option<seq<Notification>>, alerts: Option<seq<Alert>>)
    requires !BadgeFor(notifications, alerts).NoBadge?
    ensures |BadgeText(BadgeFor(notifications, alerts))| <= 3
    ensures BadgeFor(notifications, alerts).Exact? ==>
      DecimalValue(BadgeText(BadgeFor(notifications, alerts))) == BadgeFor(notifications, alerts).total
  {
    var b := BadgeFor(notifications, alerts);
    if b.Exact? {
      DecimalRoundTrip(b.total);
      assert |Decimal(b.total)| <= 2 by {
        if b.total >= 10 {
          assert b.total / 10 < 10;
        }
      }
    }
  }

  /** Mobile menu events: the menu button, or following one of the menu's links. */
  datatype MenuEvent = ToggleMenu | ChooseLink

  function MenuStep(open: bool, e: MenuEvent): bool {
    match e
    case ToggleMenu => !open
    case ChooseLink => false
  }

  /** The menu state after a run of events. */
  function MenuAfter(open: bool, events: seq<MenuEvent>): bool
    decreases |events|
  {
    if |events| == 0 then open
    else MenuAfter(MenuStep(open, events[0]), events[1..])
  }

  function Toggles(events: seq<MenuEvent>): nat {
    if |events| == 0 then 0
    else (if events[0] == ToggleMenu then 1 else 0) + Toggles(events[1..])
  }

  /**
   Without a link choice the menu is open iff it started open or was toggled an
   odd number of times, but not both.
   */
  lemma {:induction false} MenuParity(open: bool, events: seq<MenuEvent>)
    requires forall i :: 0 <= i < |events| ==> events[i] == ToggleMenu
    ensures MenuAfter(open, events) == (open != (Toggles(events) % 2 == 1))
    decreases |events|
  {
    if |events| > 0 {
      MenuParity(!open, events[1..]);
    }
  }

  /** After choosing a link the menu is closed, whatever came before. */
  lemma {:induction false} ChoosingClosesMenu(open: bool, events: seq<MenuEvent>)
    ensures !MenuAfter(open, events + [ChooseLink])
    decreases |events|
  {
    if |events| > 0 {
      assert (events + [ChooseLink])[1..] == events[1..] + [ChooseLink];
      ChoosingClosesMenu(MenuStep(open, events[0]), events[1..]);
    }
  }
}
