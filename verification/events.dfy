/**
 * The events block: which WordPress events a Drupal events block shows.
 * A block either requires an event's category list to equal its own, or is
 * satisfied by one shared category name; the kept events stay in feed order
 * and at most the first four are rendered.
 */
module Events {
  import opened Wrappers

  /** A category term; only its `name` is compared. */
  datatype Category = Category(name: string)

  /** A WordPress event as the feed delivers it (the feed is already sorted by start date). */
  datatype WpEvent = WpEvent(id: string, title: string, startDate: string, endDate: string, url: string,
                             categories: seq<Category>)

  /**
   * The Drupal block: its categories, the "match all categories" flag and an
   * optional title (`None` when no title was entered).
   */
  datatype EventBlock = EventBlock(drupalId: string, categories: seq<Category>, matchAll: bool, title: Option<string>)

  /** What the block renders: its key, its heading and the event cards. */
  datatype Rendered = Rendered(key: string, heading: string, cards: seq<WpEvent>)

  /** The heading used when the block has no title of its own. */
  const DefaultTitle: string := "Upcoming Events"

  /** The most cards the block renders. */
  const MaxShown: nat := 4

  // ---------------------------------------------------------------------------
  // Category matching
  // ---------------------------------------------------------------------------

  /** Some category of `a` has the same name as some category of `b`. */
  predicate SharesName(a: seq<Category>, b: seq<Category>) {
    exists i, j :: 0 <= i < |a| && 0 <= j < |b| && a[i].name == b[j].name
  }

  /**
   * `findMatches(fromDrupal, fromWP)`: `true` on the first pair of equal
   * names, otherwise the falsy `null`, modelled as `false`.
   */
  method FindMatches(fromDrupal: seq<Category>, fromWp: seq<Category>) returns (found: bool)
    ensures found <==> SharesName(fromDrupal, fromWp)
  {
    for i := 0 to |fromDrupal|
      invariant forall i', j :: 0 <= i' < i && 0 <= j < |fromWp| ==> fromDrupal[i'].name != fromWp[j].name
    {
      for j := 0 to |fromWp|
        invariant forall j' :: 0 <= j' < j ==> fromDrupal[i].name != fromWp[j'].name
      {
        if fromDrupal[i].name == fromWp[j].name {
          return true;
        }
      }
    }
    return false;
  }

  /** Sharing a name does not depend on which list is the block's. */
  lemma SharesNameSymmetric(a: seq<Category>, b: seq<Category>)
    ensures SharesName(a, b) <==> SharesName(b, a)
  {
    if SharesName(a, b) {
      var i, j :| 0 <= i < |a| && 0 <= j < |b| && a[i].name == b[j].name;
      assert b[j].name == a[i].name;
    }
    if SharesName(b, a) {
      var j, i :| 0 <= j < |b| && 0 <= i < |a| && b[j].name == a[i].name;
      assert a[i].name == b[j].name;
    }
  }

  // ---------------------------------------------------------------------------
  // Selection
  // ---------------------------------------------------------------------------

  /**
   * Whether the block keeps an event. In match-all mode the two category
   * lists are compared through their JSON serialisations; with only `name`
   * serialised that is equality of the lists, order included.
   */
  predicate Keeps(block: EventBlock, e: WpEvent) {
    if block.matchAll then e.categories == block.categories else SharesName(block.categories, e.categories)
  }

  /** The reference selection: the kept events of `events`, in order. */
  function Kept(block: EventBlock, events: seq<WpEvent>): seq<WpEvent>
    decreases |events|
  {
    if events == [] then []
    else
      var init, last := events[..|events| - 1], events[|events| - 1];
      Kept(block, init) + (if Keeps(block, last) then [last] else [])
  }

  /**
   * The selection loops of `generateEvents`: each event is pushed when the
   * block's mode accepts it.
   */
  method SelectEvents(block: EventBlock, allEvents: seq<WpEvent>) returns (shownEvents: seq<WpEvent>)
    ensures shownEvents == Kept(block, allEvents)
  {
    shownEvents := [];
    if block.matchAll {
      for i := 0 to |allEvents|
        invariant shownEvents == Kept(block, allEvents[..i])
      {
        assert allEvents[..i + 1][..i] == allEvents[..i];
        if allEvents[i].categories == block.categories {
          shownEvents := shownEvents + [allEvents[i]];
        }
      }
    } else {
      for i := 0 to |allEvents|
        invariant shownEvents == Kept(block, allEvents[..i])
      {
        assert allEvents[..i + 1][..i] == allEvents[..i];
        var matched := FindMatches(block.categories, allEvents[i].categories);
        if matched {
          shownEvents := shownEvents + [allEvents[i]];
        }
      }
    }
    assert allEvents[..|allEvents|] == allEvents;
  }

  /** An event is selected exactly when it is in the feed and the block keeps it. */
  lemma {:induction false} KeptMembers(block: EventBlock, events: seq<WpEvent>, e: WpEvent)
    ensures e in Kept(block, events) <==> e in events && Keeps(block, e)
    decreases |events|
  {
    if events != [] {
      var init, last := events[..|events| - 1], events[|events| - 1];
      KeptMembers(block, init, e);
      assert events == init + [last];
    }
  }

  /** `a` is `b` with some elements removed, the rest in their original order. */
  predicate IsSubsequence<T(==)>(a: seq<T>, b: seq<T>)
    decreases |b|
  {
    if a == [] then true
    else if b == [] then false
    else
      (a[|a| - 1] == b[|b| - 1] && IsSubsequence(a[..|a| - 1], b[..|b| - 1]))
      || IsSubsequence(a, b[..|b| - 1])
  }

  /** The selection keeps the feed's order. */
  lemma {:induction false} KeptIsSubsequence(block: EventBlock, events: seq<WpEvent>)
    ensures IsSubsequence(Kept(block, events), events)
    decreases |events|
  {
    if events != [] {
      var init, last := events[..|events| - 1], events[|events| - 1];
      var k := Kept(block, init);
      KeptIsSubsequence(block, init);
      if Keeps(block, last) {
        assert (k + [last])[..|k|] == k;
      } else {
        assert Kept(block, events) == k + [] == k;
        assert k != [] ==> IsSubsequence(k, init);
      }
    }
  }

  /** The selection never grows the feed. */
  lemma {:induction false} KeptLength(block: EventBlock, events: seq<WpEvent>)
    ensures |Kept(block, events)| <= |events|
    decreases |events|
  {
    if events != [] {
      KeptLength(block, events[..|events| - 1]);
    }
  }

  // ---------------------------------------------------------------------------
  // Rendering
  // ---------------------------------------------------------------------------

  /**
   * `generateEvents(data, eventData)`: nothing when no event is selected;
   * otherwise the block's title (or the default) over the first four
   * selected events.
   */
  method GenerateEvents(block: EventBlock, allEvents: seq<WpEvent>) returns (r: Option<Rendered>)
    ensures r.None? <==> forall e :: e in allEvents ==> !Keeps(block, e)
    ensures r.Some? ==> r.value.key == block.drupalId
    ensures r.Some? ==> r.value.heading == block.title.GetOr(DefaultTitle)
    ensures r.Some? ==> 0 < |r.value.cards| <= MaxShown
    ensures r.Some? ==> forall e :: e in r.value.cards ==> e in allEvents && Keeps(block, e)
    ensures r.Some? ==> r.value.cards <= Kept(block, allEvents)
    ensures r.Some? && |Kept(block, allEvents)| <= MaxShown ==> r.value.cards == Kept(block, allEvents)
    ensures r.Some? ==> var k := Kept(block, allEvents);
      r.value.cards == k[..if |k| < MaxShown then |k| else MaxShown]
  {
    var shownEvents := SelectEvents(block, allEvents);
    if shownEvents == [] {
      forall e | e in allEvents
        ensures !Keeps(block, e)
      {
        KeptMembers(block, allEvents, e);
      }
      return None;
    }
    assert shownEvents[0] in shownEvents;
    KeptMembers(block, allEvents, shownEvents[0]);
    var heading := if block.title.Some? then block.title.value else DefaultTitle;
    var n := if |shownEvents| < MaxShown then |shownEvents| else MaxShown;
    var cards := shownEvents[..n];
    forall e | e in cards
      ensures e in allEvents && Keeps(block, e)
    {
      KeptMembers(block, allEvents, e);
    }
    r := Some(Rendered(block.drupalId, heading, cards));
  }
}
