/**
 * The gallery carousel's index arithmetic: next, previous and jump, plus
 * the auto-rotation interval that advances the card every five seconds
 * unless the user prefers reduced motion.  The active card is a JavaScript
 * number; `None` stands for NaN, which `% 0` produces.
 */
module Gallery {
  import opened Wrappers
  import Arith

  /** Milliseconds between two automatic advances. */
  const AutoRotateInterval: int := 5000

  function Abs(x: int): nat {
    if x < 0 then -x else x
  }

  /** JavaScript's `a % b` on integers: the remainder keeps the dividend's
      sign, and a zero divisor yields NaN. */
  function JsRem(a: int, b: int): (r: Option<int>)
    ensures r.Some? <==> b != 0
    ensures r.Some? ==> Abs(r.value) < Abs(b)
    ensures r.Some? && a >= 0 ==> 0 <= r.value
    ensures r.Some? && a < 0 ==> r.value <= 0
  {
    if b == 0 then None
    else
      var m := Abs(a) % Abs(b);
      Some(if a < 0 then -m else m)
  }

  /** The JavaScript remainder differs from the dividend by a multiple of the
      divisor, so it is the truncated-division remainder. */
  lemma JsRemIsRemainder(a: int, b: int)
    requires b != 0
    ensures exists q :: a == q * b + JsRem(a, b).value
  {
    var m := Abs(a) % Abs(b);
    var q := Abs(a) / Abs(b);
    assert Abs(a) == q * Abs(b) + m;
    if a >= 0 && b > 0 {
      assert a == q * b + m;
    } else if a >= 0 {
      assert a == (-q) * b + m;
    } else if b > 0 {
      assert a == (-q) * b + (-m);
    } else {
      assert a == q * b + (-m);
    }
  }

  /** The active card when the gallery mounts. */
  const Initial: Option<int> := Some(0)

  predicate InRange(a: Option<int>, n: int) {
    a.Some? && 0 <= a.value < n
  }

  /** `nextCard`: `(prev + 1) % total`. */
  function Next(a: Option<int>, n: int): Option<int> {
    match a
    case None => None
    case Some(i) => JsRem(i + 1, n)
  }

  /** `prevCard`: `(prev - 1 + total) % total`. */
  function Prev(a: Option<int>, n: int): Option<int> {
    match a
    case None => None
    case Some(i) => JsRem(i - 1 + n, n)
  }

  /** On a card of the gallery, next is "one further, wrapping from the last
      card to the first" and previous is "one back, wrapping from the first to
      the last". */
  lemma StepsWrap(i: int, n: int)
    requires 0 <= i < n
    ensures Next(Some(i), n) == Some(if i == n - 1 then 0 else i + 1)
    ensures Prev(Some(i), n) == Some(if i == 0 then n - 1 else i - 1)
  {
    assert JsRem(i + 1, n) == Some((i + 1) % n);
    assert JsRem(i - 1 + n, n) == Some((i - 1 + n) % n);
    if i == n - 1 {
      Arith.DivUnique(i + 1, n, 1, 0);
    } else {
      Arith.DivUnique(i + 1, n, 0, i + 1);
    }
    if i == 0 {
      Arith.DivUnique(n - 1, n, 0, n - 1);
    } else {
      Arith.DivUnique(i - 1 + n, n, 1, i - 1);
    }
  }

  /** Next and previous undo each other on every card. */
  lemma NextPrevInverse(i: int, n: int)
    requires 0 <= i < n
    ensures Prev(Next(Some(i), n), n) == Some(i)
    ensures Next(Prev(Some(i), n), n) == Some(i)
  {
    StepsWrap(i, n);
    var j := if i == n - 1 then 0 else i + 1;
    StepsWrap(j, n);
    var h := if i == 0 then n - 1 else i - 1;
    StepsWrap(h, n);
  }

  /** With an empty gallery every step gives NaN, and NaN never recovers. */
  lemma EmptyGalleryIsNaN(a: Option<int>, b: Option<int>, n: int)
    requires n == 0
    ensures Next(a, n) == None && Prev(b, n) == None
    ensures Next(None, n) == None && Prev(None, n) == None
  {
  }

  /** `goToCard` takes the index as given, without wrapping: from a card
      outside the gallery the truncating remainder can stay negative. */
  lemma NegativeJumpStaysOutside()
    ensures Next(Some(-5), 3) == Some(-1)
  {
  }

  // ---------------------------------------------------------------- events

  datatype Event = NextCard | PrevCard | GoToCard(index: int) | Tick

  /** One event.  Under reduced motion the interval is never installed, so
      a tick changes nothing. */
  function Apply(a: Option<int>, n: int, reducedMotion: bool, e: Event): Option<int> {
    match e
    case NextCard => Next(a, n)
    case PrevCard => Prev(a, n)
    case GoToCard(i) => Some(i)
    case Tick => if reducedMotion then a else Next(a, n)
  }

  function Replay(a: Option<int>, n: int, reducedMotion: bool, events: seq<Event>): Option<int>
    decreases |events|
  {
    if events == [] then a else Replay(Apply(a, n, reducedMotion, events[0]), n, reducedMotion, events[1..])
  }

  /** The jumps in a sequence of events all land on cards. */
  predicate JumpsInRange(events: seq<Event>, n: int) {
    forall k :: 0 <= k < |events| && events[k].GoToCard? ==> 0 <= events[k].index < n
  }

  /** Starting on a card, any mix of next, previous, ticks and in-range jumps
      stays on a card. */
  lemma {:induction false} ReplayStaysInRange(a: Option<int>, n: int, reducedMotion: bool, events: seq<Event>)
    requires InRange(a, n) && JumpsInRange(events, n)
    ensures InRange(Replay(a, n, reducedMotion, events), n)
    decreases |events|
  {
    if events != [] {
      var b := Apply(a, n, reducedMotion, events[0]);
      StepsWrap(a.value, n);
      assert InRange(b, n);
      assert JumpsInRange(events[1..], n) by {
        forall k | 0 <= k < |events[1..]| && events[1..][k].GoToCard?
          ensures 0 <= events[1..][k].index < n
        {
          assert events[1..][k] == events[k + 1];
        }
      }
      ReplayStaysInRange(b, n, reducedMotion, events[1..]);
    }
  }

  /** A jump outside the gallery leaves it, whatever the state before. */
  lemma JumpOutside(a: Option<int>, n: int, reducedMotion: bool, i: int)
    requires !(0 <= i < n)
    ensures !InRange(Apply(a, n, reducedMotion, GoToCard(i)), n)
  {
  }

  function UserEvents(events: seq<Event>): (r: seq<Event>)
    ensures |r| <= |events|
    ensures forall k :: 0 <= k < |r| ==> !r[k].Tick?
  {
    if events == [] then []
    else if events[0].Tick? then UserEvents(events[1..])
    else [events[0]] + UserEvents(events[1..])
  }

  /** Under reduced motion only the user's own clicks move the gallery. */
  lemma {:induction false} ReducedMotionIgnoresTicks(a: Option<int>, n: int, events: seq<Event>)
    ensures Replay(a, n, true, events) == Replay(a, n, true, UserEvents(events))
    decreases |events|
  {
    if events != [] {
      ReducedMotionIgnoresTicks(Apply(a, n, true, events[0]), n, events[1..]);
      if !events[0].Tick? {
        var u := [events[0]] + UserEvents(events[1..]);
        assert u[0] == events[0] && u[1..] == UserEvents(events[1..]);
      }
    }
  }

  /** `k` interval callbacks from an arbitrary state. */
  function Ticks(a: Option<int>, n: int, k: nat): Option<int> {
    if k == 0 then a else Next(Ticks(a, n, k - 1), n)
  }

  /** From the first card, `k` ticks show card `k mod n`. */
  lemma {:induction false} TicksFromFirst(n: int, k: nat)
    requires n > 0
    ensures Ticks(Initial, n, k) == Some(k % n)
  {
    if k > 0 {
      TicksFromFirst(n, k - 1);
      var j := (k - 1) % n;
      StepsWrap(j, n);
      if j == n - 1 {
        ModStep(k, n, true);
      } else {
        ModStep(k, n, false);
      }
    }
  }

  lemma ModStep(k: int, n: int, wraps: bool)
    requires n > 0 && k > 0
    requires wraps <==> (k - 1) % n == n - 1
    ensures k % n == if wraps then 0 else (k - 1) % n + 1
  {
    var q := (k - 1) / n;
    var r := (k - 1) % n;
    if wraps {
      Arith.DivUnique(k, n, q + 1, 0);
    } else {
      Arith.DivUnique(k, n, q, r + 1);
    }
  }

  /** The cards marked active: `i === activeCard`. */
  function ActiveCards(a: Option<int>, n: int): (r: set<int>)
    ensures forall i :: i in r ==> 0 <= i < n
  {
    set i | 0 <= i < n && a == Some(i)
  }

  /** Exactly one card is active when the index is on a card, none otherwise
      (in particular none when it is NaN). */
  lemma OneActiveCard(a: Option<int>, n: int)
    ensures InRange(a, n) ==> ActiveCards(a, n) == {a.value}
    ensures !InRange(a, n) ==> ActiveCards(a, n) == {}
  {
  }
}
