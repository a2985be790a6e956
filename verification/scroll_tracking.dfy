/**
 * Scroll tracking: on every (throttled) scroll event the page's scroll
 * progress is recomputed, the back-to-top button is shown past 500 pixels,
 * and the active section becomes the first listed section whose box
 * straddles a horizontal line 150 pixels below the top of the viewport.
 * The DOM enters as a map from element id to bounding box; an id missing
 * from the map is an element `getElementById` does not find.
 */
module ScrollTracking {
  import opened Wrappers
  import Arith

  /** The line, in viewport pixels from the top, a section must straddle. */
  const Threshold: real := 150.0

  /** Scroll depth beyond which the back-to-top button shows. */
  const BackToTopDepth: real := 500.0

  datatype Rect = Rect(top: real, bottom: real)

  /** A JavaScript number that is either finite or not (NaN or an infinity,
      from a division by a zero scroll range). */
  datatype Num = Finite(value: real) | NotFinite

  datatype Tracking = Tracking(progress: Num, active: string, showBackToTop: bool)

  const Initial: Tracking := Tracking(Finite(0.0), "hero", false)

  /** `(scrollY / (scrollHeight - innerHeight)) * 100`. */
  function ScrollProgress(scrollY: real, scrollHeight: real, innerHeight: real): (r: Num)
    ensures r.NotFinite? <==> scrollHeight == innerHeight
  {
    var total := scrollHeight - innerHeight;
    if total == 0.0 then NotFinite else Finite(scrollY / total * 100.0)
  }

  /** Within a scrollable page the progress is a percentage: 0 at the top,
      100 at the bottom, and in between otherwise. */
  lemma ProgressIsPercentage(scrollY: real, scrollHeight: real, innerHeight: real)
    requires scrollHeight > innerHeight && 0.0 <= scrollY <= scrollHeight - innerHeight
    ensures ScrollProgress(scrollY, scrollHeight, innerHeight).Finite?
    ensures 0.0 <= ScrollProgress(scrollY, scrollHeight, innerHeight).value <= 100.0
    ensures scrollY == 0.0 ==> ScrollProgress(scrollY, scrollHeight, innerHeight).value == 0.0
    ensures scrollY == scrollHeight - innerHeight ==> ScrollProgress(scrollY, scrollHeight, innerHeight).value == 100.0
  {
    var total := scrollHeight - innerHeight;
    Arith.RealDivAtMost(scrollY, total, 1.0);
  }

  /** The section predicate: the element exists and its box straddles the
      threshold line. */
  predicate Straddles(dom: map<string, Rect>, id: string) {
    id in dom && dom[id].top <= Threshold && dom[id].bottom >= Threshold
  }

  /** Section `i` straddles the line and no earlier one does. */
  predicate FirstStraddler(sections: seq<string>, dom: map<string, Rect>, i: int) {
    && 0 <= i < |sections| && Straddles(dom, sections[i])
    && forall j :: 0 <= j < i ==> !Straddles(dom, sections[j])
  }

  /** `sections.find(...)`: the first listed section that straddles the
      line, if any. */
  function FindActive(sections: seq<string>, dom: map<string, Rect>): (r: Option<string>)
    ensures r.None? <==> forall i :: 0 <= i < |sections| ==> !Straddles(dom, sections[i])
    ensures r.Some? ==> exists i :: FirstStraddler(sections, dom, i) && sections[i] == r.value
  {
    if sections == [] then None
    else if Straddles(dom, sections[0]) then
      assert FirstStraddler(sections, dom, 0);
      Some(sections[0])
    else
      var r := FindActive(sections[1..], dom);
      assert forall i :: 1 <= i < |sections| ==> sections[i] == sections[1..][i - 1];
      if r.Some? then
        ghost var i :| FirstStraddler(sections[1..], dom, i) && sections[1..][i] == r.value;
        assert FirstStraddler(sections, dom, i + 1);
        r
      else r
  }

  /** One scroll event: progress, button and (when a section was found and
      its id is truthy) the active section. */
  function OnScroll(t: Tracking, sections: seq<string>, dom: map<string, Rect>,
                    scrollY: real, scrollHeight: real, innerHeight: real): (r: Tracking)
    ensures r.showBackToTop <==> scrollY > BackToTopDepth
    ensures r.progress == ScrollProgress(scrollY, scrollHeight, innerHeight)
    ensures r.active == t.active || (r.active in sections && Straddles(dom, r.active))
  {
    var current := FindActive(sections, dom);
    var active := if current.Some? && current.value != "" then current.value else t.active;
    Tracking(ScrollProgress(scrollY, scrollHeight, innerHeight), active, scrollY > BackToTopDepth)
  }

  /** When exactly one section straddles the line it becomes active, so
      sections laid out without overlap are tracked exactly. */
  lemma UniqueStraddlerBecomesActive(t: Tracking, sections: seq<string>, dom: map<string, Rect>,
                                     scrollY: real, scrollHeight: real, innerHeight: real, k: nat)
    requires k < |sections| && Straddles(dom, sections[k]) && sections[k] != ""
    requires forall j :: 0 <= j < |sections| && j != k ==> !Straddles(dom, sections[j])
    ensures OnScroll(t, sections, dom, scrollY, scrollHeight, innerHeight).active == sections[k]
  {
    var r := FindActive(sections, dom);
    var i :| FirstStraddler(sections, dom, i) && sections[i] == r.value;
    assert i == k;
  }

  /** When no section straddles the line the active section is kept. */
  lemma NoStraddlerKeepsActive(t: Tracking, sections: seq<string>, dom: map<string, Rect>,
                               scrollY: real, scrollHeight: real, innerHeight: real)
    requires forall j :: 0 <= j < |sections| ==> !Straddles(dom, sections[j])
    ensures OnScroll(t, sections, dom, scrollY, scrollHeight, innerHeight).active == t.active
  {
  }

  datatype ScrollEvent = ScrollEvent(dom: map<string, Rect>, scrollY: real, scrollHeight: real, innerHeight: real)

  function Replay(t: Tracking, sections: seq<string>, events: seq<ScrollEvent>): Tracking
    decreases |events|
  {
    if events == [] then t
    else
      var e := events[0];
      Replay(OnScroll(t, sections, e.dom, e.scrollY, e.scrollHeight, e.innerHeight), sections, events[1..])
  }

  /** The active section is always "hero" (the initial value) or one of the
      tracked sections, whatever the page does. */
  lemma {:induction false} ActiveIsKnown(t: Tracking, sections: seq<string>, events: seq<ScrollEvent>)
    requires t.active == "hero" || t.active in sections
    ensures Replay(t, sections, events).active == "hero" || Replay(t, sections, events).active in sections
    decreases |events|
  {
    if events != [] {
      var e := events[0];
      ActiveIsKnown(OnScroll(t, sections, e.dom, e.scrollY, e.scrollHeight, e.innerHeight), sections, events[1..]);
    }
  }

  /** The button reflects only the latest scroll position. */
  lemma {:induction false} ButtonFollowsLastScroll(t: Tracking, sections: seq<string>, events: seq<ScrollEvent>)
    requires events != []
    ensures Replay(t, sections, events).showBackToTop <==> events[|events| - 1].scrollY > BackToTopDepth
    decreases |events|
  {
    var e := events[0];
    var t' := OnScroll(t, sections, e.dom, e.scrollY, e.scrollHeight, e.innerHeight);
    if |events| > 1 {
      ButtonFollowsLastScroll(t', sections, events[1..]);
    } else {
      assert Replay(t', sections, events[1..]) == t';
    }
  }
}
