/**
 The favorite widget (`$.fn.favorite_vote`): a clickable star glyph and a
 count. The host element carries the `favorite-star-on` class as a flag; a
 click with the flag off sets it and sends a star request, a click with the
 flag on clears it and sends an unstar request. Every answer, including the
 answer to the initial fetch, goes through one callback (`update_state`)
 that rewrites the glyph and the count text and never touches the flag.

 Requests are not answered in place: issuing one appends it to `issued`,
 and each answer arrives later as a separate call, in any order and with
 any payload. `View` is the widget's observable state as a value and the
 functions below are its transitions; `FavoriteWidget` is the object whose
 methods perform them.
 */
module FavoriteVote {
  import opened Wrappers
  import opened Decimal

  const StarGlyph: string := "★"
  const UnstarGlyph: string := "☆"

  /** The payload every request is answered with. */
  datatype ToggleState = ToggleState(starred: bool, count: int)

  /** The three requests: read the state, star, unstar. */
  datatype Request = Fetch | Star | Unstar

  /** What can happen to a mounted widget: a click, or the answer to an outstanding request. */
  datatype Event = Click | Respond(state: ToggleState)

  /**
   The widget's observable state: the `favorite-star-on` flag, the text of
   the glyph element, the text of the count element, the requests issued
   so far and how many of them have been answered.
   */
  datatype View = View(on: bool, glyph: string, countText: string, issued: seq<Request>, delivered: nat)

  /** The glyph `update_state` shows: the filled star exactly when `starred` is true. */
  function Glyph(starred: bool): (g: string)
    ensures (g == StarGlyph) == starred
    ensures (g == UnstarGlyph) == !starred
  {
    if starred then StarGlyph else UnstarGlyph
  }

  /**
   Right after mounting: both text elements are empty, the flag is whatever
   the host element already had, and the fetch has been sent.
   */
  function Initial(hostOn: bool): View {
    View(hostOn, "", "", [Fetch], 0)
  }

  /** A click: `upvote` when the flag is off, `downvote` when it is on. */
  function Clicked(v: View): View {
    if !v.on then v.(on := true, issued := v.issued + [Star])
    else v.(on := false, issued := v.issued + [Unstar])
  }

  /** `update_state`: an answer rewrites both texts and nothing else. */
  function Rendered(v: View, st: ToggleState): View
    requires v.delivered < |v.issued|
  {
    v.(glyph := Glyph(st.starred), countText := DecimalText(st.count), delivered := v.delivered + 1)
  }

  /** An answer can only arrive while some request is outstanding. */
  predicate Enabled(v: View, e: Event) {
    e.Click? || v.delivered < |v.issued|
  }

  function Step(v: View, e: Event): View
    requires Enabled(v, e)
  {
    match e
    case Click => Clicked(v)
    case Respond(st) => Rendered(v, st)
  }

  /** Every answer in `evs` has an outstanding request when it arrives. */
  predicate Feasible(v: View, evs: seq<Event>)
    decreases |evs|
  {
    evs == [] || (Enabled(v, evs[0]) && Feasible(Step(v, evs[0]), evs[1..]))
  }

  function Run(v: View, evs: seq<Event>): View
    requires Feasible(v, evs)
    decreases |evs|
  {
    if evs == [] then v else Run(Step(v, evs[0]), evs[1..])
  }

  function Clicks(evs: seq<Event>): nat {
    if evs == [] then 0 else (if evs[0].Click? then 1 else 0) + Clicks(evs[1..])
  }

  /** The payload of the last answer in `evs`, if there is one. */
  function LastResponse(evs: seq<Event>): Option<ToggleState> {
    if evs == [] then None
    else match LastResponse(evs[1..])
      case Some(st) => Some(st)
      case None => if evs[0].Respond? then Some(evs[0].state) else None
  }

  /**
   The flag flips on every click and on nothing else: after any run it is
   the initial flag, negated once per click, whatever the answers said.
   */
  lemma {:induction false} RunFlag(v: View, evs: seq<Event>)
    requires Feasible(v, evs)
    ensures Run(v, evs).on == (v.on != (Clicks(evs) % 2 == 1))
    decreases |evs|
  {
    if evs != [] {
      RunFlag(Step(v, evs[0]), evs[1..]);
    }
  }

  /**
   The last answer wins: after a run, glyph and count text are those of
   the last answer in it, whatever came before and whatever the flag is;
   a run without answers leaves them as they were.
   */
  lemma {:induction false} RunRendersLastResponse(v: View, evs: seq<Event>)
    requires Feasible(v, evs)
    ensures var w := Run(v, evs);
      match LastResponse(evs)
      case None => w.glyph == v.glyph && w.countText == v.countText
      case Some(st) => w.glyph == Glyph(st.starred) && w.countText == DecimalText(st.count)
    decreases |evs|
  {
    if evs != [] {
      RunRendersLastResponse(Step(v, evs[0]), evs[1..]);
    }
  }

  /**
   Requests: those already sent stay, each click adds exactly one, each
   answer is counted once, and the clicks' requests alternate, starting
   with a star request exactly when the flag was off.
   */
  lemma {:induction false} RunIssues(v: View, evs: seq<Event>)
    requires Feasible(v, evs)
    ensures var w := Run(v, evs);
      && |w.issued| == |v.issued| + Clicks(evs)
      && w.issued[..|v.issued|] == v.issued
      && w.delivered == v.delivered + (|evs| - Clicks(evs))
      && forall j :: |v.issued| <= j < |w.issued| ==>
           w.issued[j] == (if v.on == ((j - |v.issued|) % 2 == 1) then Star else Unstar)
    decreases |evs|
  {
    if evs != [] {
      var u := Step(v, evs[0]);
      RunIssues(u, evs[1..]);
      var w := Run(v, evs);
      assert w == Run(u, evs[1..]);
      assert w.issued[..|v.issued|] == v.issued by {
        assert w.issued[..|v.issued|] == w.issued[..|u.issued|][..|v.issued|];
      }
      if evs[0].Click? {
        forall j | |v.issued| <= j < |w.issued|
          ensures w.issued[j] == (if v.on == ((j - |v.issued|) % 2 == 1) then Star else Unstar)
        {
          if j == |v.issued| {
            assert w.issued[j] == w.issued[..|u.issued|][j] == u.issued[j];
          }
        }
      }
    }
  }

  /** Answers alone, the initial fetch's included, never change the flag. */
  lemma ResponsesKeepFlag(v: View, evs: seq<Event>)
    requires Feasible(v, evs)
    requires Clicks(evs) == 0
    ensures Run(v, evs).on == v.on
  {
    RunFlag(v, evs);
  }

  /**
   A viewer who had already starred sees the filled star after the fetch,
   but the flag is still off, so their first click sends another star
   request rather than an unstar request.
   */
  lemma StarredViewerClickStarsAgain(count: int)
    ensures var afterFetch := Run(Initial(false), [Respond(ToggleState(true, count))]);
      && !afterFetch.on
      && afterFetch.glyph == StarGlyph
      && Clicked(afterFetch).issued == [Fetch, Star]
  {
  }

  /**
   A star and an unstar, each answered before the next click: the texts
   follow the answers and the flag follows the clicks.
   */
  lemma StarThenUnstar()
    ensures var fetched := Rendered(Initial(false), ToggleState(false, 3));
      var starred := Rendered(Clicked(fetched), ToggleState(true, 4));
      var unstarred := Rendered(Clicked(starred), ToggleState(false, 3));
      && fetched.glyph == UnstarGlyph && fetched.countText == "3" && !fetched.on
      && starred.glyph == StarGlyph && starred.countText == "4" && starred.on
      && unstarred.glyph == UnstarGlyph && unstarred.countText == "3" && !unstarred.on
      && unstarred.issued == [Fetch, Star, Unstar]
  {
  }

  /**
   Two quick clicks on a widget whose flag is off send a star request and
   then an unstar request; whichever answer arrives last decides the
   rendering, and the flag ends where it started.
   */
  lemma RapidClicks(first: ToggleState, second: ToggleState)
    ensures var w := Rendered(Rendered(Clicked(Clicked(Initial(false))), first), second);
      && w.issued == [Fetch, Star, Unstar]
      && !w.on
      && w.glyph == Glyph(second.starred)
      && w.countText == DecimalText(second.count)
  {
  }

  /** The widget as a mutable object; `Snapshot` is its state as a `View`. */
  class FavoriteWidget {
    var on: bool
    var glyph: string
    var countText: string
    var issued: seq<Request>
    ghost var delivered: nat

    ghost function Snapshot(): View
      reads this
    {
      View(on, glyph, countText, issued, delivered)
    }

    ghost predicate Valid()
      reads this
    {
      delivered <= |issued|
    }

    /**
     Mounting on a host element whose `favorite-star-on` class is `hostOn`:
     adds the empty glyph and count elements and sends the fetch.
     */
    constructor Init(hostOn: bool)
      ensures Valid() && Snapshot() == Initial(hostOn)
      ensures on == hostOn && glyph == "" && countText == "" && issued == [Fetch]
    {
      on := hostOn;
      glyph := "";
      countText := "";
      issued := [Fetch];
      delivered := 0;
    }

    /** `update_state`, called with the answer to one outstanding request. */
    method UpdateState(state: ToggleState)
      requires Valid() && delivered < |issued|
      modifies this
      ensures Valid() && Snapshot() == Rendered(old(Snapshot()), state)
      ensures glyph == Glyph(state.starred) && countText == DecimalText(state.count)
      ensures on == old(on) && issued == old(issued)
    {
      glyph := Glyph(state.starred);
      countText := DecimalText(state.count);
      delivered := delivered + 1;
    }

    /** `upvote`: set the flag and send a star request. */
    method Upvote()
      requires Valid()
      modifies this
      ensures Valid() && on && issued == old(issued) + [Star]
      ensures glyph == old(glyph) && countText == old(countText) && delivered == old(delivered)
    {
      on := true;
      issued := issued + [Star];
    }

    /** `downvote`: clear the flag and send an unstar request. */
    method Downvote()
      requires Valid()
      modifies this
      ensures Valid() && !on && issued == old(issued) + [Unstar]
      ensures glyph == old(glyph) && countText == old(countText) && delivered == old(delivered)
    {
      on := false;
      issued := issued + [Unstar];
    }

    /** The click handler. */
    method Click()
      requires Valid()
      modifies this
      ensures Valid() && Snapshot() == Clicked(old(Snapshot()))
      ensures on == !old(on) && issued == old(issued) + [if old(on) then Unstar else Star]
      ensures glyph == old(glyph) && countText == old(countText)
    {
      if !on {
        Upvote();
      } else {
        Downvote();
      }
    }
  }
}
