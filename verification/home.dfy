/**
 The greeting card's page: which of three screens is shown, the handlers that
 switch between them, and the envelope's timed opening sequence, composed into
 one transition system. Time is discrete (milliseconds); user input and timer
 callbacks are strictly sequential events, each committing its state before
 the next one runs.
 */
module Home {
  import opened Wrappers
  import opened Timers
  import Gallery
  import Envelope

  /** The three screens; exactly one is current. */
  datatype View = EnvelopeView | LetterView | GalleryView

  /** Delay the page adds, once the envelope reports a click, before the letter shows. */
  const LetterDelay: nat := 1200

  /**
   What a pending timer does when it falls due. `mount` records which mount
   of the envelope component asked for it.
   */
  datatype Task =
    | RevealPaper(mount: nat)  // the envelope's own paper-reveal state update
    | CallOnClick(mount: nat)  // the envelope calling the page's click handler
    | ShowLetter               // the page switching to the letter

  /**
   The whole page. `mount` counts how often the envelope subtree was mounted
   after the first time; `envelope` and `cursor` are the states of the
   envelope and gallery components while mounted, and their initial values
   otherwise. `clickedAt` is a history variable: when the current envelope
   mount accepted its click.
   */
  datatype Page = Page(
    now: nat,
    view: View,
    mount: nat,
    envelope: Envelope.State,
    cursor: Gallery.Cursor,
    pending: seq<Timer<Task>>,
    clickedAt: nat
  )

  /** The page as first rendered: the envelope screen, nothing scheduled. */
  const Initial: Page := Page(0, EnvelopeView, 0, Envelope.Initial, None, [], 0)

  /**
   The content branches the page renders for view `v`: one conditional branch
   per screen, each guarded by its own comparison with the current view.
   */
  function ContentBranches(v: View): (r: seq<View>)
    ensures |r| == 1 && r[0] == v
  {
    (if v == EnvelopeView then [EnvelopeView] else [])
    + (if v == LetterView then [LetterView] else [])
    + (if v == GalleryView then [GalleryView] else [])
  }

  /**
   Whether screen `v`'s content branch is rendered on `s`; a control inside a
   screen can be clicked only then. Since exactly one branch renders, that is
   the case exactly when `v` is the current view.
   */
  predicate OnScreen(s: Page, v: View)
    ensures OnScreen(s, v) <==> s.view == v
  {
    assert ContentBranches(s.view) == [s.view];
    v in ContentBranches(s.view)
  }

  /**
   Sets the current view. Setting the view it already has changes nothing;
   changing it unmounts the old screen's subtree and mounts the new one fresh.
   */
  function SetView(s: Page, v: View): (r: Page)
    ensures r.view == v
    ensures r.now == s.now && r.pending == s.pending && r.clickedAt == s.clickedAt
    ensures v == s.view ==> r == s
    ensures v != s.view ==> r.envelope == Envelope.Initial && r.cursor.None?
    ensures r.mount == (if v == EnvelopeView && s.view != EnvelopeView then s.mount + 1 else s.mount)
  {
    if v == s.view then s
    else s.(view := v,
            mount := if v == EnvelopeView then s.mount + 1 else s.mount,
            envelope := Envelope.Initial,
            cursor := None)
  }

  /** The page's handler for the envelope's callback: the letter follows later. */
  function HandleEnvelopeClick(s: Page): (r: Page)
    ensures r == s.(pending := r.pending)
    ensures multiset(r.pending) == multiset(s.pending) + multiset{Timer(s.now + LetterDelay, ShowLetter)}
    ensures Sorted(s.pending) ==> Sorted(r.pending)
  {
    s.(pending := Schedule(s.pending, Timer(s.now + LetterDelay, ShowLetter)))
  }

  /** Back from the letter: the envelope is mounted again, unopened. */
  function HandleLetterClose(s: Page): (r: Page)
    ensures r.view == EnvelopeView && r.now == s.now && r.pending == s.pending
    ensures s.view != EnvelopeView ==> r.mount == s.mount + 1 && r.envelope == Envelope.Initial
  {
    SetView(s, EnvelopeView)
  }

  /** On to the photos: the gallery opens with no photo enlarged. */
  function HandleShowGallery(s: Page): (r: Page)
    ensures r.view == GalleryView && r.now == s.now && r.pending == s.pending && r.mount == s.mount
    ensures s.view != GalleryView ==> r.cursor.None?
  {
    SetView(s, GalleryView)
  }

  /** Back from the gallery: the letter shows again and the selection is gone. */
  function HandleBackToLetter(s: Page): (r: Page)
    ensures r.view == LetterView && r.now == s.now && r.pending == s.pending && r.mount == s.mount
    ensures s.view != LetterView ==> r.cursor.None?
  {
    SetView(s, LetterView)
  }

  /** The handlers that only assign a view settle after one call. */
  lemma ViewHandlersIdempotent(s: Page)
    ensures HandleLetterClose(HandleLetterClose(s)) == HandleLetterClose(s)
    ensures HandleShowGallery(HandleShowGallery(s)) == HandleShowGallery(s)
    ensures HandleBackToLetter(HandleBackToLetter(s)) == HandleBackToLetter(s)
  {
  }

  /** The pending task for a callback the envelope asked for. */
  function TaskFor(cb: Envelope.Callback, mount: nat): Task
  {
    match cb
    case RevealPaper => RevealPaper(mount)
    case CallOnClick => CallOnClick(mount)
  }

  /** Schedules the envelope's requests, in order, relative to `now`. */
  function ScheduleRequests(q: seq<Timer<Task>>, now: nat, mount: nat, rs: seq<Envelope.Request>): (r: seq<Timer<Task>>)
    ensures |r| == |q| + |rs|
    ensures Sorted(q) ==> Sorted(r)
    decreases |rs|
  {
    if |rs| == 0 then q
    else ScheduleRequests(Schedule(q, Timer(now + rs[0].delay, TaskFor(rs[0].callback, mount))), now, mount, rs[1..])
  }

  /** A click on the envelope; the page always supplies its click handler. */
  function ClickHandler(s: Page): (r: Page)
    ensures r.envelope.clicked
    ensures r.now == s.now && r.view == s.view && r.mount == s.mount && r.cursor == s.cursor
    ensures s.envelope.clicked ==> r == s
    ensures !s.envelope.clicked ==> r.clickedAt == s.now
  {
    var reaction := Envelope.HandleClick(s.envelope, true);
    s.(envelope := reaction.state,
       clickedAt := if s.envelope.clicked then s.clickedAt else s.now,
       pending := ScheduleRequests(s.pending, s.now, s.mount, reaction.requests))
  }

  /**
   Runs the timer at the head of the queue at its due time. A state update
   aimed at an envelope mount that is gone is dropped; the envelope's callback
   into the page still runs, since nothing cancels it.
   */
  function FireNext(s: Page): (r: Page)
    requires |s.pending| > 0
    ensures r.now == s.pending[0].due
    ensures !s.pending[0].task.CallOnClick? ==> r.pending == s.pending[1..]
    ensures s.pending[0].task.CallOnClick? ==>
              r.view == s.view && r.mount == s.mount && r.envelope == s.envelope
              && r.cursor == s.cursor && r.clickedAt == s.clickedAt
              && multiset(r.pending) == multiset(s.pending[1..]) + multiset{Timer(r.now + LetterDelay, ShowLetter)}
    ensures s.pending[0].task.ShowLetter? ==> r.view == LetterView
    ensures s.pending[0].task.RevealPaper? ==> r.view == s.view && r.mount == s.mount
    ensures s.pending[0] == Timer(r.now, RevealPaper(s.mount)) && s.view == EnvelopeView ==> r.envelope.showPaper
  {
    var t := s.pending[0];
    var s' := s.(now := t.due, pending := s.pending[1..]);
    match t.task
    case RevealPaper(m) =>
      if s'.view == EnvelopeView && s'.mount == m then s'.(envelope := Envelope.ShowPaper(s'.envelope)) else s'
    case CallOnClick(_) => HandleEnvelopeClick(s')
    case ShowLetter => SetView(s', LetterView)
  }

  /** Everything that can happen next: a user action, time passing, or a timer. */
  datatype Event =
    | ClickEnvelope | HoverEnvelope | LeaveEnvelope  // pointer on the envelope
    | BackButton                                     // the navigation bar's back button
    | NavPhotos                                      // the navigation bar's photos button
    | LetterPhotos                                   // the letter's own photos button
    | GalleryInput(input: Gallery.Input)             // a control inside the gallery
    | Wait(ms: nat)                                  // time passes with no timer due
    | FireTimer                                      // the earliest pending timer runs

  /**
   Whether an event can happen: a control must be rendered to be clicked, and
   time cannot pass over a timer that is due.
   */
  predicate Enabled(s: Page, e: Event)
    ensures e.ClickEnvelope? || e.HoverEnvelope? || e.LeaveEnvelope? ==> (Enabled(s, e) <==> s.view == EnvelopeView)
    ensures e.BackButton? ==> (Enabled(s, e) <==> s.view != EnvelopeView)
    ensures e.NavPhotos? || e.LetterPhotos? ==> (Enabled(s, e) <==> s.view == LetterView)
    ensures e.GalleryInput? ==> (Enabled(s, e) <==> s.view == GalleryView && Gallery.Enabled(s.cursor, e.input))
    ensures e.FireTimer? ==> (Enabled(s, e) <==> s.pending != [])
  {
    match e
    case ClickEnvelope => OnScreen(s, EnvelopeView)
    case HoverEnvelope => OnScreen(s, EnvelopeView)
    case LeaveEnvelope => OnScreen(s, EnvelopeView)
    case BackButton => s.view != EnvelopeView
    case NavPhotos => s.view == LetterView  // the bar shows off the envelope, this button on the letter
    case LetterPhotos => OnScreen(s, LetterView)
    case GalleryInput(g) => OnScreen(s, GalleryView) && Gallery.Enabled(s.cursor, g)
    case Wait(ms) => NoneDueBefore(s.pending, s.now + ms)
    case FireTimer => |s.pending| > 0
  }

  /** The page after event `e`. */
  function Step(s: Page, e: Event): (r: Page)
    requires Enabled(s, e)
    ensures e.BackButton? ==> r.view == (if s.view == GalleryView then LetterView else EnvelopeView)
    ensures e.NavPhotos? || e.LetterPhotos? ==> r.view == GalleryView
    ensures e.HoverEnvelope? || e.LeaveEnvelope? ==>
              r == s.(envelope := r.envelope) && r.envelope.clicked == s.envelope.clicked
              && r.envelope.showPaper == s.envelope.showPaper
    ensures e.GalleryInput? ==> r == s.(cursor := r.cursor)
    ensures e.Wait? ==> r == s.(now := s.now + e.ms)
    ensures e.FireTimer? ==> r.now == s.pending[0].due
  {
    match e
    case ClickEnvelope => ClickHandler(s)
    case HoverEnvelope => s.(envelope := Envelope.HoverStart(s.envelope))
    case LeaveEnvelope => s.(envelope := Envelope.HoverEnd(s.envelope))
    case BackButton => if s.view == GalleryView then HandleBackToLetter(s) else HandleLetterClose(s)
    case NavPhotos => HandleShowGallery(s)
    case LetterPhotos => HandleShowGallery(s)
    case GalleryInput(g) => s.(cursor := Gallery.Step(s.cursor, g))
    case Wait(ms) => s.(now := s.now + ms)
    case FireTimer => FireNext(s)
  }

  // ---------------------------------------------------------------------------
  // The opening sequence and the page invariant
  // ---------------------------------------------------------------------------

  /** The paper reveal the current mount's click scheduled. */
  function PaperTimer(s: Page): Timer<Task>
  {
    Timer(s.clickedAt + Envelope.PaperDelay, RevealPaper(s.mount))
  }

  /** The call into the page the current mount's click scheduled. */
  function OnClickTimer(s: Page): Timer<Task>
  {
    Timer(s.clickedAt + Envelope.OnClickDelay, CallOnClick(s.mount))
  }

  /** The switch to the letter the page scheduled once the envelope called it. */
  function LetterTimer(s: Page): Timer<Task>
  {
    Timer(s.clickedAt + Envelope.OnClickDelay + LetterDelay, ShowLetter)
  }

  /** After the click, the queue holds what is left of the opening sequence. */
  predicate OpeningSequence(s: Page)
  {
    || (s.pending == [PaperTimer(s), OnClickTimer(s)] && !s.envelope.showPaper)
    || (s.pending == [OnClickTimer(s)] && s.envelope.showPaper)
    || (s.pending == [LetterTimer(s)] && s.envelope.showPaper)
  }

  /**
   What holds of every page reachable from `Initial`: no timer is overdue, the
   gallery cursor addresses a photo, unmounted components hold their initial
   state, the queue is empty except while the envelope is opening, and then it
   holds exactly the rest of the opening sequence.
   */
  predicate Inv(s: Page)
  {
    && NoneDueBefore(s.pending, s.now)
    && Gallery.InRange(s.cursor, |Gallery.Photos|)
    && (s.view != GalleryView ==> s.cursor.None?)
    && (s.view != EnvelopeView ==> s.envelope == Envelope.Initial && s.pending == [])
    && (s.view == EnvelopeView && !s.envelope.clicked ==> s.pending == [] && !s.envelope.showPaper)
    && (s.view == EnvelopeView && s.envelope.clicked ==> OpeningSequence(s))
  }

  lemma InitialInv()
    ensures Inv(Initial)
    ensures Initial.view == EnvelopeView && !Initial.envelope.clicked
    ensures !Initial.envelope.hovered && !Initial.envelope.showPaper
  {
  }

  /** Scheduling a list of requests schedules its head first. */
  lemma ScheduleRequestsHead(q: seq<Timer<Task>>, now: nat, mount: nat, rs: seq<Envelope.Request>)
    requires |rs| > 0
    ensures ScheduleRequests(q, now, mount, rs)
            == ScheduleRequests(Schedule(q, Timer(now + rs[0].delay, TaskFor(rs[0].callback, mount))), now, mount, rs[1..])
  {
  }

  /** The envelope's two requests become the paper and call timers, in that order. */
  lemma ScheduleOpeningRequests(now: nat, mount: nat)
    ensures ScheduleRequests([], now, mount, [Envelope.Request(Envelope.PaperDelay, Envelope.RevealPaper),
                                              Envelope.Request(Envelope.OnClickDelay, Envelope.CallOnClick)])
            == [Timer(now + Envelope.PaperDelay, RevealPaper(mount)), Timer(now + Envelope.OnClickDelay, CallOnClick(mount))]
  {
    var p := Envelope.Request(Envelope.PaperDelay, Envelope.RevealPaper);
    var o := Envelope.Request(Envelope.OnClickDelay, Envelope.CallOnClick);
    var tp := Timer(now + Envelope.PaperDelay, RevealPaper(mount));
    var to := Timer(now + Envelope.OnClickDelay, CallOnClick(mount));
    var rs := [p, o];
    assert Timer(now + rs[0].delay, TaskFor(rs[0].callback, mount)) == tp;
    ScheduleAppends([], tp);
    var q1 := Schedule([], tp);
    ScheduleRequestsHead([], now, mount, rs);
    assert rs[1..] == [o];
    assert Timer(now + [o][0].delay, TaskFor([o][0].callback, mount)) == to;
    ScheduleAppends([tp], to);
    var q2 := Schedule([tp], to);
    ScheduleRequestsHead(q1, now, mount, [o]);
    assert [o][1..] == [];
    assert ScheduleRequests(q1, now, mount, [o]) == ScheduleRequests(q2, now, mount, []);
  }

  /** The first click schedules the paper reveal and the call into the page. */
  lemma FirstClickSchedulesSequence(s: Page)
    requires Inv(s) && s.view == EnvelopeView && !s.envelope.clicked
    ensures var s' := ClickHandler(s);
            s'.envelope.clicked && s'.clickedAt == s.now
            && s'.view == s.view && s'.mount == s.mount
            && s'.pending == [PaperTimer(s'), OnClickTimer(s')]
            && OpeningSequence(s')
  {
    var p := Envelope.Request(Envelope.PaperDelay, Envelope.RevealPaper);
    var o := Envelope.Request(Envelope.OnClickDelay, Envelope.CallOnClick);
    assert Envelope.HandleClick(s.envelope, true).requests == [p, o];
    ScheduleOpeningRequests(s.now, s.mount);
  }

  /** Running the next timer keeps the invariant, one kind of timer at a time. */
  lemma FireNextKeepsInv(s: Page)
    requires Inv(s) && |s.pending| > 0
    ensures Inv(FireNext(s))
  {
    var t := s.pending[0];
    assert s.view == EnvelopeView && s.envelope.clicked;
    match t.task
    case RevealPaper(_) => FirePaperKeepsInv(s);
    case CallOnClick(_) => FireOnClickKeepsInv(s);
    case ShowLetter => FireLetterKeepsInv(s);
  }

  lemma FirePaperKeepsInv(s: Page)
    requires Inv(s) && |s.pending| > 0 && s.pending[0].task.RevealPaper?
    ensures Inv(FireNext(s))
  {
    assert s.view == EnvelopeView && s.envelope.clicked;
    assert s.pending == [PaperTimer(s), OnClickTimer(s)];
    assert s.pending[1..] == [OnClickTimer(s)];
  }

  lemma FireOnClickKeepsInv(s: Page)
    requires Inv(s) && |s.pending| > 0 && s.pending[0].task.CallOnClick?
    ensures Inv(FireNext(s))
  {
    assert s.view == EnvelopeView && s.envelope.clicked;
    assert s.pending == [OnClickTimer(s)];
    assert s.pending[1..] == [];
    ScheduleAppends([], Timer(s.pending[0].due + LetterDelay, ShowLetter));
  }

  lemma FireLetterKeepsInv(s: Page)
    requires Inv(s) && |s.pending| > 0 && s.pending[0].task.ShowLetter?
    ensures Inv(FireNext(s))
  {
    assert s.view == EnvelopeView && s.envelope.clicked;
    assert s.pending == [LetterTimer(s)];
    assert s.pending[1..] == [];
  }

  /**
   The timer that runs is the earliest pending one, and the clock never runs
   backwards to reach it.
   */
  lemma FireTimerRunsEarliest(s: Page)
    requires Inv(s) && |s.pending| > 0
    ensures NoneDueBefore(s.pending, FireNext(s).now)
    ensures s.now <= FireNext(s).now
  {
    assert s.view == EnvelopeView && s.envelope.clicked;
    assert Sorted(s.pending);
    HeadFallsDueFirst(s.pending);
  }

  /** Every enabled event keeps the invariant. */
  lemma StepKeepsInv(s: Page, e: Event)
    requires Inv(s) && Enabled(s, e)
    ensures Inv(Step(s, e))
  {
    match e
    case ClickEnvelope =>
      if !s.envelope.clicked {
        FirstClickSchedulesSequence(s);
      }
    case FireTimer => FireNextKeepsInv(s);
    case _ =>
  }

  // ---------------------------------------------------------------------------
  // One-step facts about navigation and the opening sequence
  // ---------------------------------------------------------------------------

  /** The back button leads from the gallery to the letter and from the letter to the envelope. */
  lemma BackButtonTargets(s: Page)
    requires Enabled(s, BackButton)
    ensures s.view == GalleryView ==> Step(s, BackButton).view == LetterView
    ensures s.view == LetterView ==> Step(s, BackButton).view == EnvelopeView
  {
  }

  /** The gallery is entered only from the letter, through one of its two photos buttons. */
  lemma GalleryEnteredOnlyFromLetter(s: Page, e: Event)
    requires Enabled(s, e) && s.view != GalleryView && Step(s, e).view == GalleryView
    ensures s.view == LetterView
    ensures e == NavPhotos || e == LetterPhotos
  {
  }

  /** Nothing leads from the gallery straight to the envelope. */
  lemma GalleryNeverToEnvelope(s: Page, e: Event)
    requires Enabled(s, e) && s.view == GalleryView
    ensures Step(s, e).view != EnvelopeView
  {
  }

  /**
   No navigation control exists on the envelope screen: it is left only when
   the page's letter timer runs, exactly `OnClickDelay + LetterDelay` after
   the click, and always for the letter.
   */
  lemma EnvelopeLeftOnlyByLetterTimer(s: Page, e: Event)
    requires Inv(s) && Enabled(s, e) && s.view == EnvelopeView
    requires Step(s, e).view != EnvelopeView
    ensures e == FireTimer && s.pending == [LetterTimer(s)]
    ensures Step(s, e).view == LetterView
    ensures Step(s, e).now == s.clickedAt + Envelope.OnClickDelay + LetterDelay
  {
  }

  /** A click on an envelope that was already clicked changes nothing at all. */
  lemma RepeatClickIsIgnored(s: Page)
    requires s.view == EnvelopeView && s.envelope.clicked
    ensures Step(s, ClickEnvelope) == s
  {
    assert Envelope.HandleClick(s.envelope, true).requests == [];
  }

  /** The paper is revealed `PaperDelay` after the click. */
  lemma PaperRevealTiming(s: Page)
    requires Inv(s) && |s.pending| > 0 && s.pending[0].task.RevealPaper?
    ensures s.view == EnvelopeView && !s.envelope.showPaper
    ensures FireNext(s).envelope.showPaper
    ensures FireNext(s).now == s.clickedAt + Envelope.PaperDelay
  {
  }

  /**
   Nothing but the paper timer shows the paper: whenever a step turns it on
   for the envelope on screen, that step is the paper timer running, exactly
   `PaperDelay` after the click.
   */
  lemma PaperOnlyByTimer(s: Page, e: Event)
    requires Inv(s) && Enabled(s, e) && !s.envelope.showPaper
    requires Step(s, e).view == EnvelopeView && Step(s, e).envelope.showPaper
    ensures e == FireTimer && s.pending[0] == PaperTimer(s)
    ensures Step(s, e).now == s.clickedAt + Envelope.PaperDelay
  {
    if e == ClickEnvelope {
      if !s.envelope.clicked {
        FirstClickSchedulesSequence(s);
      }
    }
  }

  /**
   The page's handler is called `OnClickDelay` after the click, by which time
   the paper is already revealed, and it schedules the letter `LetterDelay` later.
   */
  lemma OnClickTiming(s: Page)
    requires Inv(s) && |s.pending| > 0 && s.pending[0].task.CallOnClick?
    ensures s.view == EnvelopeView && s.envelope.showPaper
    ensures FireNext(s).now == s.clickedAt + Envelope.OnClickDelay
    ensures FireNext(s).pending == [Timer(FireNext(s).now + LetterDelay, ShowLetter)]
  {
    ScheduleAppends([], Timer(s.pending[0].due + LetterDelay, ShowLetter));
  }

  /** Within one mount of the envelope, `clicked` and `showPaper` never revert. */
  lemma EnvelopeFlagsPersist(s: Page, e: Event)
    requires Enabled(s, e) && s.view == EnvelopeView && Step(s, e).view == EnvelopeView
    ensures Step(s, e).mount == s.mount
    ensures s.envelope.clicked ==> Step(s, e).envelope.clicked
    ensures s.envelope.showPaper ==> Step(s, e).envelope.showPaper
  {
  }

  /** The enlarged photo; its unchecked list read is safe on every reachable page. */
  function EnlargedPhoto(s: Page): (r: Option<Gallery.Photo>)
    requires Inv(s)
    ensures r.Some? ==> s.view == GalleryView && r.value in Gallery.Photos
    ensures r.Some? <==> s.cursor.Some?
  {
    Gallery.Enlarged(s.cursor)
  }

  // ---------------------------------------------------------------------------
  // Runs of events
  // ---------------------------------------------------------------------------

  /** Every event of `es` is enabled where it happens. */
  predicate IsTrace(s: Page, es: seq<Event>)
    decreases |es|
  {
    |es| == 0 || (Enabled(s, es[0]) && IsTrace(Step(s, es[0]), es[1..]))
  }

  /** The page after the run `es`. */
  function Final(s: Page, es: seq<Event>): Page
    requires IsTrace(s, es)
    decreases |es|
  {
    if |es| == 0 then s else Final(Step(s, es[0]), es[1..])
  }

  /** The invariant holds after every run. */
  lemma {:induction false} TraceKeepsInv(s: Page, es: seq<Event>)
    requires Inv(s) && IsTrace(s, es)
    ensures Inv(Final(s, es))
    decreases |es|
  {
    if |es| > 0 {
      StepKeepsInv(s, es[0]);
      TraceKeepsInv(Step(s, es[0]), es[1..]);
    }
  }

  /** Event `e` runs mount `m`'s call into the page. */
  predicate CallsOnClick(s: Page, e: Event, m: nat)
  {
    e.FireTimer? && |s.pending| > 0 && s.pending[0].task == CallOnClick(m)
  }

  /** How many times the run `es` calls into the page on behalf of mount `m`. */
  function OnClickCalls(s: Page, es: seq<Event>, m: nat): nat
    requires IsTrace(s, es)
    decreases |es|
  {
    if |es| == 0 then 0
    else (if CallsOnClick(s, es[0], m) then 1 else 0) + OnClickCalls(Step(s, es[0]), es[1..], m)
  }

  /** The number of `CallOnClick(m)` timers in `q`. */
  function PendingCalls(q: seq<Timer<Task>>, m: nat): nat
  {
    if |q| == 0 then 0
    else (if q[0].task == CallOnClick(m) then 1 else 0) + PendingCalls(q[1..], m)
  }

  /**
   How many calls on behalf of mount `m` can still happen: those already
   scheduled, plus one if mount `m` is current and not yet clicked, or lies
   in the future.
   */
  function Budget(s: Page, m: nat): nat
  {
    PendingCalls(s.pending, m)
    + (if m > s.mount || (m == s.mount && s.view == EnvelopeView && !s.envelope.clicked) then 1 else 0)
  }

  /** The calls into the page still pending during the opening sequence. */
  lemma OpeningSequenceCalls(s: Page, m: nat)
    requires OpeningSequence(s)
    ensures PendingCalls(s.pending, m) == (if m == s.mount && s.pending != [LetterTimer(s)] then 1 else 0)
  {
    var p, o, l := PaperTimer(s), OnClickTimer(s), LetterTimer(s);
    assert [p, o][1..] == [o] && [o][1..] == [] && [l][1..] == [];
    assert PendingCalls([], m) == 0;
  }

  /**
   While the opening sequence runs, no timer of it is overdue: until the paper
   shows the clock is at most at the paper's due time, it is always at most at
   the letter's due time, and past the call into the page only the letter
   timer is left.
   */
  lemma OpeningSequenceClock(s: Page)
    requires Inv(s) && s.view == EnvelopeView && s.envelope.clicked
    ensures !s.envelope.showPaper ==> s.now <= s.clickedAt + Envelope.PaperDelay
    ensures s.now <= s.clickedAt + Envelope.OnClickDelay + LetterDelay
    ensures s.now > s.clickedAt + Envelope.OnClickDelay ==> s.pending == [LetterTimer(s)]
  {
    assert s.now <= s.pending[0].due;
  }

  /** On a reachable page, the only call into the page that can be pending is the current mount's. */
  lemma PendingCallsOnPage(s: Page, m: nat)
    requires Inv(s)
    ensures PendingCalls(s.pending, m)
            == (if s.view == EnvelopeView && s.envelope.clicked && m == s.mount && s.pending != [LetterTimer(s)] then 1 else 0)
  {
    if s.view == EnvelopeView && s.envelope.clicked {
      OpeningSequenceCalls(s, m);
    }
  }

  lemma BudgetAtMostOne(s: Page, m: nat)
    requires Inv(s)
    ensures Budget(s, m) <= 1
  {
    PendingCallsOnPage(s, m);
  }

  /** Each step spends one unit of budget exactly when it calls into the page. */
  lemma StepSpendsBudget(s: Page, e: Event, m: nat)
    requires Inv(s) && Enabled(s, e)
    ensures Budget(Step(s, e), m) + (if CallsOnClick(s, e, m) then 1 else 0) == Budget(s, m)
  {
    match e
    case ClickEnvelope =>
      if !s.envelope.clicked {
        FirstClickSchedulesSequence(s);
        OpeningSequenceCalls(ClickHandler(s), m);
      }
    case FireTimer =>
      var t := s.pending[0];
      assert s.pending == [t] + s.pending[1..];
      if t.task.CallOnClick? {
        OnClickTiming(s);
        assert [Timer(t.due + LetterDelay, ShowLetter)][1..] == [];
      }
    case _ =>
  }

  /** Calls made plus budget left is the budget at the start. */
  lemma {:induction false} TraceSpendsBudget(s: Page, es: seq<Event>, m: nat)
    requires Inv(s) && IsTrace(s, es)
    ensures OnClickCalls(s, es, m) + Budget(Final(s, es), m) == Budget(s, m)
    decreases |es|
  {
    if |es| > 0 {
      StepSpendsBudget(s, es[0], m);
      StepKeepsInv(s, es[0]);
      TraceSpendsBudget(Step(s, es[0]), es[1..], m);
    }
  }

  /** In any run, each mount of the envelope calls into the page at most once. */
  lemma OnClickAtMostOncePerMount(s: Page, es: seq<Event>, m: nat)
    requires Inv(s) && IsTrace(s, es)
    ensures OnClickCalls(s, es, m) <= 1
  {
    TraceSpendsBudget(s, es, m);
    BudgetAtMostOne(s, m);
  }

  /**
   Mount `m` was clicked at time `c`: either a later mount is current, or
   mount `m` has been unmounted, or it is still shown with that click recorded.
   */
  predicate AfterClick(s: Page, m: nat, c: nat)
  {
    || s.mount > m
    || (s.mount == m && (s.view != EnvelopeView || (s.envelope.clicked && s.clickedAt == c)))
  }

  lemma StepKeepsAfterClick(s: Page, e: Event, m: nat, c: nat)
    requires Enabled(s, e) && AfterClick(s, m, c)
    ensures AfterClick(Step(s, e), m, c)
  {
  }

  lemma {:induction false} TraceKeepsAfterClick(s: Page, es: seq<Event>, m: nat, c: nat)
    requires IsTrace(s, es) && AfterClick(s, m, c)
    ensures AfterClick(Final(s, es), m, c)
    decreases |es|
  {
    if |es| > 0 {
      StepKeepsAfterClick(s, es[0], m, c);
      TraceKeepsAfterClick(Step(s, es[0]), es[1..], m, c);
    }
  }

  /**
   Once more than `OnClickDelay` has passed since the first click, the mount's
   call into the page has happened, exactly once, whatever else the user did.
   */
  lemma OnClickExactlyOnce(s: Page, es: seq<Event>)
    requires Inv(s) && s.view == EnvelopeView && !s.envelope.clicked
    requires IsTrace(s, [ClickEnvelope] + es)
    requires Final(s, [ClickEnvelope] + es).now > s.now + Envelope.OnClickDelay
    ensures OnClickCalls(s, [ClickEnvelope] + es, s.mount) == 1
  {
    var m := s.mount;
    var all := [ClickEnvelope] + es;
    assert all[1..] == es;
    var s1 := Step(s, ClickEnvelope);
    FirstClickSchedulesSequence(s);
    StepKeepsInv(s, ClickEnvelope);
    TraceKeepsAfterClick(s1, es, m, s.now);
    TraceKeepsInv(s1, es);
    TraceSpendsBudget(s, all, m);
    var f := Final(s, all);
    assert f == Final(s1, es);
    PendingCallsOnPage(f, m);
    if f.mount == m && f.view == EnvelopeView {
      OpeningSequenceClock(f);
    }
  }

  /**
   Once more than `PaperDelay` has passed since the first click, the clicked
   mount, if still on screen, shows the paper, whatever events came in between.
   */
  lemma PaperShownAfterDelay(s: Page, es: seq<Event>)
    requires Inv(s) && s.view == EnvelopeView && !s.envelope.clicked
    requires IsTrace(s, [ClickEnvelope] + es)
    requires Final(s, [ClickEnvelope] + es).now > s.now + Envelope.PaperDelay
    ensures var f := Final(s, [ClickEnvelope] + es);
            f.mount == s.mount && f.view == EnvelopeView ==> f.envelope.showPaper
  {
    var all := [ClickEnvelope] + es;
    assert all[1..] == es;
    var s1 := Step(s, ClickEnvelope);
    FirstClickSchedulesSequence(s);
    StepKeepsInv(s, ClickEnvelope);
    TraceKeepsAfterClick(s1, es, s.mount, s.now);
    TraceKeepsInv(s1, es);
    var f := Final(s, all);
    assert f == Final(s1, es);
    if f.mount == s.mount && f.view == EnvelopeView {
      OpeningSequenceClock(f);
    }
  }

  /**
   Once more than `OnClickDelay + LetterDelay` has passed since the first
   click, the clicked mount of the envelope is no longer on screen.
   */
  lemma EnvelopeGoneAfterOpening(s: Page, es: seq<Event>)
    requires Inv(s) && s.view == EnvelopeView && !s.envelope.clicked
    requires IsTrace(s, [ClickEnvelope] + es)
    requires Final(s, [ClickEnvelope] + es).now > s.now + Envelope.OnClickDelay + LetterDelay
    ensures var f := Final(s, [ClickEnvelope] + es);
            f.mount > s.mount || f.view != EnvelopeView
  {
    var all := [ClickEnvelope] + es;
    assert all[1..] == es;
    var s1 := Step(s, ClickEnvelope);
    FirstClickSchedulesSequence(s);
    StepKeepsInv(s, ClickEnvelope);
    TraceKeepsAfterClick(s1, es, s.mount, s.now);
    TraceKeepsInv(s1, es);
    var f := Final(s, all);
    assert f == Final(s1, es);
    if f.mount == s.mount && f.view == EnvelopeView {
      OpeningSequenceClock(f);
    }
  }

  // ---------------------------------------------------------------------------
  // Scenarios
  // ---------------------------------------------------------------------------

  /** Prepending an enabled event to a run. */
  lemma TraceCons(s: Page, e: Event, es: seq<Event>, m: nat)
    requires Enabled(s, e) && IsTrace(Step(s, e), es)
    ensures IsTrace(s, [e] + es)
    ensures Final(s, [e] + es) == Final(Step(s, e), es)
    ensures OnClickCalls(s, [e] + es, m) == (if CallsOnClick(s, e, m) then 1 else 0) + OnClickCalls(Step(s, e), es, m)
  {
    assert ([e] + es)[1..] == es;
  }

  /** A double click on the envelope, then time passing until each timer runs. */
  const DoubleClickRun: seq<Event> :=
    [ClickEnvelope, ClickEnvelope, Wait(100), FireTimer, Wait(1300), FireTimer, Wait(1200), FireTimer]

  /** The pages `DoubleClickRun` passes through from `Initial`. */
  function DoubleClickPages(): (ps: seq<Page>)
    ensures |ps| == 9
  {
    var s0 := Initial;
    var s1 := s0.(envelope := s0.envelope.(clicked := true), pending := [Timer(100, RevealPaper(0)), Timer(1400, CallOnClick(0))]);
    var s3 := s1.(now := 100);
    var s4 := s3.(envelope := s3.envelope.(showPaper := true), pending := [Timer(1400, CallOnClick(0))]);
    var s5 := s4.(now := 1400);
    var s6 := s5.(pending := [Timer(2600, ShowLetter)]);
    var s7 := s6.(now := 2600);
    var s8 := s7.(view := LetterView, envelope := Envelope.Initial, pending := []);
    [s0, s1, s1, s3, s4, s5, s6, s7, s8]
  }

  /**
   Step `k` of `DoubleClickRun` is enabled, leads to the next listed page, and
   calls into the page only when the call timer runs.
   */
  predicate DoubleClickStepHolds(k: nat)
    requires k < 8
  {
    var ps := DoubleClickPages();
    && Enabled(ps[k], DoubleClickRun[k])
    && Step(ps[k], DoubleClickRun[k]) == ps[k + 1]
    && (CallsOnClick(ps[k], DoubleClickRun[k], 0) <==> k == 5)
  }

  lemma DoubleClickStep(k: nat)
    requires k < 8
    ensures DoubleClickStepHolds(k)
  {
    if k < 3 {
      DoubleClickUserStep(k);
    } else if k < 5 {
      DoubleClickPaperStep(k);
    } else {
      DoubleClickLetterStep(k);
    }
  }

  /** The two clicks and the first wait. */
  lemma DoubleClickUserStep(k: nat)
    requires k < 3
    ensures DoubleClickStepHolds(k)
  {
    var ps := DoubleClickPages();
    if k < 2 {
      assert OnScreen(ps[k], EnvelopeView);
    }
    if k == 0 {
      InitialInv();
      FirstClickSchedulesSequence(Initial);
    } else if k == 1 {
      RepeatClickIsIgnored(ps[1]);
    }
  }

  /** The paper timer and the wait for the call timer. */
  lemma DoubleClickPaperStep(k: nat)
    requires 3 <= k < 5
    ensures DoubleClickStepHolds(k)
  {
    var ps := DoubleClickPages();
    if k == 3 {
      var t0, t1 := Timer(100, RevealPaper(0)), Timer(1400, CallOnClick(0));
      assert ps[3].pending == [t0, t1] && [t0, t1][1..] == [t1];
    }
  }

  /** The call timer, the wait for the letter timer, and the letter timer. */
  lemma DoubleClickLetterStep(k: nat)
    requires 5 <= k < 8
    ensures DoubleClickStepHolds(k)
  {
    var ps := DoubleClickPages();
    if k == 5 {
      assert ps[5].pending[1..] == [];
      ScheduleAppends([], Timer(2600, ShowLetter));
    } else if k == 7 {
      assert ps[7].pending[1..] == [];
    }
  }

  lemma {:induction false} DoubleClickSuffix(k: nat)
    requires k <= 8
    ensures IsTrace(DoubleClickPages()[k], DoubleClickRun[k..])
    ensures Final(DoubleClickPages()[k], DoubleClickRun[k..]) == DoubleClickPages()[8]
    ensures OnClickCalls(DoubleClickPages()[k], DoubleClickRun[k..], 0) == (if k <= 5 then 1 else 0)
    decreases 8 - k
  {
    if k < 8 {
      DoubleClickSuffix(k + 1);
      DoubleClickStep(k);
      assert DoubleClickRun[k..][0] == DoubleClickRun[k];
      assert DoubleClickRun[k..][1..] == DoubleClickRun[k + 1..];
    }
  }

  /**
   Clicking the envelope twice in a row and letting the timers run calls into
   the page once and switches to the letter once, 2600 ms after the click.
   */
  lemma DoubleClickOpensLetterOnce()
    ensures IsTrace(Initial, DoubleClickRun)
    ensures Final(Initial, DoubleClickRun).view == LetterView
    ensures Final(Initial, DoubleClickRun).now == 2600
    ensures Final(Initial, DoubleClickRun).pending == []
    ensures OnClickCalls(Initial, DoubleClickRun, 0) == 1
  {
    DoubleClickSuffix(0);
    assert DoubleClickRun[0..] == DoubleClickRun;
  }

  /** With two photos, next from the first photo shows the second, then the first again. */
  lemma GalleryNextWraps(s: Page)
    requires Inv(s) && s.view == LetterView
    ensures var es := [NavPhotos, GalleryInput(Gallery.Thumbnail(0)), GalleryInput(Gallery.NextButton)];
            IsTrace(s, es) && Final(s, es).cursor == Some(1)
            && IsTrace(s, es + [GalleryInput(Gallery.NextButton)])
            && Final(s, es + [GalleryInput(Gallery.NextButton)]).cursor == Some(0)
  {
    var next := GalleryInput(Gallery.NextButton);
    var s1 := Step(s, NavPhotos);
    var s2 := Step(s1, GalleryInput(Gallery.Thumbnail(0)));
    var s3 := Step(s2, next);
    assert s3.cursor == Some(1);
    var s4 := Step(s3, next);
    assert s4.cursor == Some(0);
    assert [NavPhotos, GalleryInput(Gallery.Thumbnail(0)), next] + [next]
        == [NavPhotos, GalleryInput(Gallery.Thumbnail(0)), next, next];
    TraceCons(s3, next, [], 0);
    TraceCons(s2, next, [], 0);
    TraceCons(s2, next, [next], 0);
    TraceCons(s1, GalleryInput(Gallery.Thumbnail(0)), [next], 0);
    TraceCons(s1, GalleryInput(Gallery.Thumbnail(0)), [next, next], 0);
    TraceCons(s, NavPhotos, [GalleryInput(Gallery.Thumbnail(0)), next], 0);
    TraceCons(s, NavPhotos, [GalleryInput(Gallery.Thumbnail(0)), next, next], 0);
  }
}
