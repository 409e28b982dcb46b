/**
 The clickable envelope component: three flags local to one mount of the
 component, a one-shot click handler that asks for two timers, and the hover
 handlers. Time itself lives with the caller; a handler here only returns the
 delayed callbacks it requests.
 */
module Envelope {

  /** Delay from the click until the paper slides out. */
  const PaperDelay: nat := 100

  /** Delay from the click until the parent's `onClick` callback runs. */
  const OnClickDelay: nat := 1400

  /** The component's state; a fresh mount starts from `Initial`. */
  datatype State = State(clicked: bool, hovered: bool, showPaper: bool)

  const Initial: State := State(false, false, false)

  /** The two delayed callbacks the click handler can request. */
  datatype Callback = RevealPaper | CallOnClick

  /** A request to run `callback` once `delay` milliseconds have passed. */
  datatype Request = Request(delay: nat, callback: Callback)

  /** A handler's outcome: the new state and the timers it asked for, in order. */
  datatype Reaction = Reaction(state: State, requests: seq<Request>)

  /** How many of `rs` ask for `cb`. */
  function Requested(rs: seq<Request>, cb: Callback): nat
  {
    if |rs| == 0 then 0
    else (if rs[0].callback == cb then 1 else 0) + Requested(rs[1..], cb)
  }

  /** Every request for a callback carries that callback's fixed delay. */
  predicate FixedDelays(rs: seq<Request>)
  {
    forall k :: 0 <= k < |rs| ==>
      rs[k].delay == (if rs[k].callback == RevealPaper then PaperDelay else OnClickDelay)
  }

  /**
   The click handler. Once clicked, a mount ignores further clicks. The first
   click sets `clicked`, asks to reveal the paper after `PaperDelay`, and, only
   when the parent supplied a callback, asks to call it after `OnClickDelay`.
   */
  function HandleClick(s: State, hasOnClick: bool): (r: Reaction)
    ensures r.state.clicked
    ensures r.state.hovered == s.hovered && r.state.showPaper == s.showPaper
    ensures s.clicked ==> r.state == s && r.requests == []
    ensures Requested(r.requests, RevealPaper) == (if s.clicked then 0 else 1)
    ensures Requested(r.requests, CallOnClick) == (if !s.clicked && hasOnClick then 1 else 0)
    ensures FixedDelays(r.requests)
    ensures forall i, j :: 0 <= i < j < |r.requests| ==> r.requests[i].delay < r.requests[j].delay
  {
    if s.clicked then Reaction(s, [])
    else
      var paper := Request(PaperDelay, RevealPaper);
      var parent := Request(OnClickDelay, CallOnClick);
      assert [paper, parent][1..] == [parent] && [paper][1..] == [parent][1..] == [];
      assert Requested([parent], CallOnClick) == 1 && Requested([parent], RevealPaper) == 0;
      Reaction(s.(clicked := true), if hasOnClick then [paper, parent] else [paper])
  }

  /** Pointer enters: highlight only while the envelope is still unopened. */
  function HoverStart(s: State): (r: State)
    ensures r.clicked == s.clicked && r.showPaper == s.showPaper
    ensures r.hovered <==> s.hovered || !s.clicked
  {
    if s.clicked then s else s.(hovered := true)
  }

  /** Pointer leaves: the highlight always goes away. */
  function HoverEnd(s: State): (r: State)
    ensures !r.hovered
    ensures r.clicked == s.clicked && r.showPaper == s.showPaper
  {
    s.(hovered := false)
  }

  /** The delayed `RevealPaper` callback. */
  function ShowPaper(s: State): (r: State)
    ensures r.showPaper
    ensures r.clicked == s.clicked && r.hovered == s.hovered
  {
    s.(showPaper := true)
  }

  /** A second click on the same mount changes nothing and asks for nothing. */
  lemma SecondClickIsIgnored(s: State, hasOnClick: bool)
    ensures var first := HandleClick(s, hasOnClick);
            HandleClick(first.state, hasOnClick) == Reaction(first.state, [])
  {
  }

  /** Once clicked, hovering can no longer raise the highlight. */
  lemma HoverIgnoredAfterClick(s: State)
    requires s.clicked
    ensures HoverStart(s) == s
  {
  }
}
