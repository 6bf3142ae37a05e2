/** Properties of every run of the consent window, however events arrive. */
module ConsentRuns {
  import opened Wrappers
  import opened ApprovalPrompts
  import opened Consent
  import Codec = ApprovalCodec

  type History = seq<(Event, Env)>

  function Run(subject: ApprovalSubject, h: History): App {
    if h == [] then STARTED
    else
      var (ev, env) := h[|h| - 1];
      Step(Run(subject, h[..|h| - 1]), subject, ev, env)
  }

  /** The application driven through a whole history ends where the specification says. */
  method Drive(subject: ApprovalSubject, h: History) returns (returned: Option<Decision>)
    ensures returned == Returned(Run(subject, h))
  {
    var app := new ConsentApplication(subject);
    for i := 0 to |h|
      invariant app.subject == subject
      invariant fresh(app) && fresh(app.interaction)
      invariant app.State() == Run(subject, h[..i])
    {
      assert h[..i + 1][..i] == h[..i];
      app.Handle(h[i].0, h[i].1);
    }
    assert h[..|h|] == h;
    returned := if app.failure.Some? then None else app.decision;
  }

  // ----- what the user did, told apart from what the window stored -----

  /** One handled event as an act: a control activated in time on a ready surface, a clearing, or neither. */
  datatype Act = Idle | Cleared | Activated(control: Control)

  /** An activation on an incomplete surface clears; one past the deadline does nothing. */
  function Attempt(app: App, subject: ApprovalSubject, env: Env, control: Control): Act {
    if env.elapsedMillis >= CONSENT_DEADLINE_MILLIS then Idle
    else if !Ready(app, subject, env) then Cleared
    else Activated(control)
  }

  function ActOf(app: App, subject: ApprovalSubject, ev: Event, env: Env): Act {
    if !app.windowOpen then Idle
    else
      match ev
      case FocusLost => Cleared
      case MouseReleased =>
        if app.ui.pressed.Some? && app.ui.pressed == CurrentControl(app, subject, env)
        then Attempt(app, subject, env, app.ui.pressed.value) else Idle
      case KeyPressed(Tab) => if Ready(app, subject, env) then Idle else Cleared
      case KeyPressed(EnterOrSpace) => Attempt(app, subject, env, app.ui.focus)
      case RedrawRequested(_) => if Ready(app, subject, env) then Idle else Cleared
      case SurfaceChanged => if Ready(app, subject, env) then Idle else Cleared
      case _ => Idle
  }

  function Acts(subject: ApprovalSubject, h: History): (acts: seq<Act>)
    ensures |acts| == |h|
  {
    if h == [] then []
    else
      var (ev, env) := h[|h| - 1];
      Acts(subject, h[..|h| - 1]) + [ActOf(Run(subject, h[..|h| - 1]), subject, ev, env)]
  }

  /** Activations of Confirm since the last clearing or page change. */
  function Confirmations(acts: seq<Act>): nat {
    if acts == [] then 0
    else
      match acts[|acts| - 1]
      case Idle => Confirmations(acts[..|acts| - 1])
      case Cleared => 0
      case Activated(Next) => 0
      case Activated(Back) => 0
      case Activated(Confirm) => Confirmations(acts[..|acts| - 1]) + 1
      case Activated(_) => Confirmations(acts[..|acts| - 1])
  }

  /** Whether Next was activated since the last clearing or return to the first page. */
  predicate TurnedToSecondPage(acts: seq<Act>) {
    acts != [] &&
    match acts[|acts| - 1]
    case Cleared => false
    case Activated(Back) => false
    case Activated(Next) => true
    case _ => TurnedToSecondPage(acts[..|acts| - 1])
  }

  // ----- the page invariant over runs -----

  /** The invariant holds after every history, so no press made on one page fires a control of the other. */
  lemma {:induction false} RunSound(subject: ApprovalSubject, h: History)
    ensures Sound(subject, Run(subject, h).ui)
  {
    if h != [] {
      var before := h[..|h| - 1];
      RunSound(subject, before);
      StepSound(Run(subject, before), subject, h[|h| - 1].0, h[|h| - 1].1);
    }
  }

  lemma StepOnPage(app: App, subject: ApprovalSubject, ev: Event, env: Env)
    requires Sound(subject, app.ui)
    ensures match ActOf(app, subject, ev, env)
            case Activated(control) => OnPage(subject, app.ui.page, control)
            case _ => true
  {
    hide CurrentControl, OnPage;
  }

  lemma ActivationsStayOnPage(subject: ApprovalSubject, h: History, ev: Event, env: Env)
    ensures var app := Run(subject, h);
            match ActOf(app, subject, ev, env)
            case Activated(control) => OnPage(subject, app.ui.page, control)
            case _ => true
  {
    hide ActOf, OnPage, Sound;
    RunSound(subject, h);
    StepOnPage(Run(subject, h), subject, ev, env);
  }

  // ----- what the window stores is what the user did -----

  predicate Mirrors(subject: ApprovalSubject, ui: Ui, acts: seq<Act>) {
    && (ui.confirmed <==> Confirmations(acts) % 2 == 1)
    && (subject.RecoveryParticipation? ==> (ui.page.TransitionPage? <==> TurnedToSecondPage(acts)))
  }

  /** Everything one activation attempt can do. */
  lemma AttemptEffect(app: App, subject: ApprovalSubject, env: Env, control: Control)
    ensures var after := ActivateControl(app, subject, env, control);
            && (app.decision.Some? ==> after.decision == app.decision)
            && after.failure == app.failure
            && (match Attempt(app, subject, env, control)
                case Idle => after.ui == app.ui
                case Cleared => after.ui == FRESH
                case Activated(c) => c == control && after.ui == Activate(app.ui, c, true, subject).0)
            && (app.decision.None? ==>
                  (after.decision == Some(Codec.Approve) <==>
                     && app.failure.None?
                     && Attempt(app, subject, env, control) == Activated(Approve)
                     && app.ui.confirmed
                     && (subject.RecoveryParticipation? ==> app.ui.page.TransitionPage?)))
  {}

  /** A pending press decides which control is activated, never what it does. */
  lemma PressIrrelevant(app: App, subject: ApprovalSubject, env: Env, control: Control)
    ensures var released := app.(ui := app.ui.(pressed := None));
            && Attempt(released, subject, env, control) == Attempt(app, subject, env, control)
            && var a, b := Activate(released.ui, control, true, subject).0, Activate(app.ui, control, true, subject).0;
               a.confirmed == b.confirmed && a.page == b.page
  {}

  lemma FocusKeeps(ui: Ui, reverse: bool, ready: bool, subject: ApprovalSubject)
    ensures var after := FocusNext(ui, reverse, ready, subject);
            if ready then after.confirmed == ui.confirmed && after.page == ui.page else after == FRESH
  {}

  /** The confirmation and the page on show change only as the act says. */
  lemma StepByAct(app: App, subject: ApprovalSubject, ev: Event, env: Env)
    ensures var after := Step(app, subject, ev, env).ui;
            match ActOf(app, subject, ev, env)
            case Idle => after.confirmed == app.ui.confirmed && after.page == app.ui.page
            case Cleared => after == FRESH
            case Activated(control) =>
              var expected := Activate(app.ui, control, true, subject).0;
              after.confirmed == expected.confirmed && after.page == expected.page
  {
    hide CurrentControl, FocusNext, ActivateControl, Attempt, Activate;
    if ev == KeyPressed(Tab) {
      FocusKeeps(app.ui, app.shift, Ready(app, subject, env), subject);
    } else if ev == KeyPressed(EnterOrSpace) {
      AttemptEffect(app, subject, env, app.ui.focus);
    } else if ev == MouseReleased && app.ui.pressed.Some? {
      AttemptEffect(app.(ui := app.ui.(pressed := None)), subject, env, app.ui.pressed.value);
      PressIrrelevant(app, subject, env, app.ui.pressed.value);
    }
  }

  lemma ActMirrors(subject: ApprovalSubject, ui: Ui, acts: seq<Act>, act: Act, after: Ui)
    requires Mirrors(subject, ui, acts)
    requires match act
             case Idle => after.confirmed == ui.confirmed && after.page == ui.page
             case Cleared => after == FRESH
             case Activated(control) =>
               && OnPage(subject, ui.page, control)
               && after.confirmed == Activate(ui, control, true, subject).0.confirmed
               && after.page == Activate(ui, control, true, subject).0.page
    ensures Mirrors(subject, after, acts + [act])
  {
    hide OnPage, Activate, Confirmations, TurnedToSecondPage;
    LastAct(acts, act);
    match act
    case Idle =>
    case Cleared =>
    case Activated(control) => ActivateShows(subject, ui, control);
  }

  /** How one more act changes the two tallies. */
  lemma LastAct(acts: seq<Act>, act: Act)
    ensures Confirmations(acts + [act]) ==
      match act
      case Idle => Confirmations(acts)
      case Cleared => 0
      case Activated(c) =>
        if c in {Next, Back} then 0 else if c == Confirm then Confirmations(acts) + 1 else Confirmations(acts)
    ensures TurnedToSecondPage(acts + [act]) <==>
      match act
      case Idle => TurnedToSecondPage(acts)
      case Cleared => false
      case Activated(c) => c == Next || (c != Back && TurnedToSecondPage(acts))
  {
    var more := acts + [act];
    assert more[..|more| - 1] == acts && more[|more| - 1] == act;
  }

  /** How an activation on a ready surface changes the confirmation and the page on show. */
  lemma ActivateShows(subject: ApprovalSubject, ui: Ui, control: Control)
    requires OnPage(subject, ui.page, control)
    ensures var after := Activate(ui, control, true, subject).0;
            && after.confirmed == (if control in {Next, Back} then false else (control == Confirm) != ui.confirmed)
            && (subject.RecoveryParticipation? ==>
                  after.page == (if control == Next then TransitionPage
                                 else if control == Back then EvidencePage else ui.page))
  {}

  lemma StepMirrors(app: App, subject: ApprovalSubject, ev: Event, env: Env, acts: seq<Act>)
    requires Sound(subject, app.ui) && Mirrors(subject, app.ui, acts)
    ensures Mirrors(subject, Step(app, subject, ev, env).ui, acts + [ActOf(app, subject, ev, env)])
  {
    hide Step, Mirrors, Activate;
    StepByAct(app, subject, ev, env);
    StepOnPage(app, subject, ev, env);
    ActMirrors(subject, app.ui, acts, ActOf(app, subject, ev, env), Step(app, subject, ev, env).ui);
  }

  lemma {:induction false} RunMirrors(subject: ApprovalSubject, h: History)
    ensures Mirrors(subject, Run(subject, h).ui, Acts(subject, h))
  {
    if h != [] {
      var before := h[..|h| - 1];
      RunMirrors(subject, before);
      RunSound(subject, before);
      StepMirrors(Run(subject, before), subject, h[|h| - 1].0, h[|h| - 1].1, Acts(subject, before));
    }
  }

  // ----- decisions -----

  lemma StepKeeps(app: App, subject: ApprovalSubject, ev: Event, env: Env)
    ensures app.decision.Some? ==> Step(app, subject, ev, env).decision == app.decision
    ensures app.failure.Some? ==> Step(app, subject, ev, env).failure.Some?
  {
    hide CurrentControl, FocusNext, ActivateControl, Attempt, Activate;
    if ev == KeyPressed(EnterOrSpace) {
      AttemptEffect(app, subject, env, app.ui.focus);
    } else if ev == MouseReleased && app.ui.pressed.Some? {
      AttemptEffect(app.(ui := app.ui.(pressed := None)), subject, env, app.ui.pressed.value);
      PressIrrelevant(app, subject, env, app.ui.pressed.value);
    }
  }

  /** A decision, once taken, stays; a failure, once met, stays. */
  lemma {:induction false} DecisionStays(subject: ApprovalSubject, h: History, k: nat)
    requires k <= |h|
    ensures Run(subject, h[..k]).decision.Some? ==> Run(subject, h).decision == Run(subject, h[..k]).decision
    ensures Run(subject, h[..k]).failure.Some? ==> Run(subject, h).failure.Some?
    decreases |h|
  {
    hide Step;
    if k == |h| {
      assert h[..k] == h;
    } else {
      var before := h[..|h| - 1];
      assert before[..k] == h[..k];
      DecisionStays(subject, before, k);
      StepKeeps(Run(subject, before), subject, h[|h| - 1].0, h[|h| - 1].1);
    }
  }

  /** Everything an approval needs at the event that gives it. */
  predicate ApprovedNow(subject: ApprovalSubject, h: History, ev: Event, env: Env) {
    var app := Run(subject, h);
    var acts := Acts(subject, h);
    && app.decision.None? && app.failure.None?
    && env.elapsedMillis < CONSENT_DEADLINE_MILLIS
    && Ready(app, subject, env)
    && ActOf(app, subject, ev, env) == Activated(Approve)
    && Confirmations(acts) % 2 == 1
    && (subject.RecoveryParticipation? ==> TurnedToSecondPage(acts))
  }

  lemma ActivatedMeans(app: App, subject: ApprovalSubject, ev: Event, env: Env)
    ensures ActOf(app, subject, ev, env).Activated? ==>
      env.elapsedMillis < CONSENT_DEADLINE_MILLIS && Ready(app, subject, env)
  {
    hide CurrentControl;
  }

  /** One step approves exactly on an activation of Approve that the controls answer with approval. */
  lemma StepApproves(app: App, subject: ApprovalSubject, ev: Event, env: Env)
    requires app.decision.None?
    ensures Step(app, subject, ev, env).decision == Some(Codec.Approve) <==>
      && app.failure.None?
      && env.elapsedMillis < CONSENT_DEADLINE_MILLIS
      && Ready(app, subject, env)
      && ActOf(app, subject, ev, env) == Activated(Approve)
      && app.ui.confirmed
      && (subject.RecoveryParticipation? ==> app.ui.page.TransitionPage?)
  {
    ActivatedMeans(app, subject, ev, env);
    hide CurrentControl, FocusNext, ActivateControl, Attempt, Activate;
    if ev == KeyPressed(EnterOrSpace) {
      AttemptEffect(app, subject, env, app.ui.focus);
    } else if ev == MouseReleased && app.ui.pressed.Some? {
      AttemptEffect(app.(ui := app.ui.(pressed := None)), subject, env, app.ui.pressed.value);
      PressIrrelevant(app, subject, env, app.ui.pressed.value);
    }
  }

  /** An event turns an undecided window into an approving one exactly when all of that holds. */
  lemma ApprovalStep(subject: ApprovalSubject, h: History, ev: Event, env: Env)
    requires Run(subject, h).decision.None?
    ensures Run(subject, h + [(ev, env)]).decision == Some(Codec.Approve) <==> ApprovedNow(subject, h, ev, env)
  {
    hide Step, ActOf, Acts, Confirmations, TurnedToSecondPage;
    var all := h + [(ev, env)];
    assert all[..|all| - 1] == h && all[|all| - 1] == (ev, env);
    RunMirrors(subject, h);
    StepApproves(Run(subject, h), subject, ev, env);
  }

  lemma {:induction false} FirstApproval(subject: ApprovalSubject, h: History) returns (k: nat)
    requires Run(subject, h).decision == Some(Codec.Approve)
    ensures k < |h| && Run(subject, h[..k]).decision.None? && Run(subject, h[..k + 1]).decision == Some(Codec.Approve)
    decreases |h|
  {
    hide Step;
    var before := h[..|h| - 1];
    if Run(subject, before).decision.None? {
      k := |h| - 1;
      assert h[..k + 1] == h;
    } else {
      DecisionStays(subject, h, |h| - 1);
      k := FirstApproval(subject, before);
      assert before[..k] == h[..k] && before[..k + 1] == h[..k + 1];
    }
  }

  /**
   Approval needs live, complete consent. `show` returns Approve for a history exactly when
   no failure was met and at some event, with nothing decided before it, Approve was
   activated in time on a ready surface after an odd number of confirmations and, for
   recovery, with the second page turned to.
   */
  lemma ApprovalNeedsConsent(subject: ApprovalSubject, h: History)
    ensures Returned(Run(subject, h)) == Some(Codec.Approve) <==>
      && Run(subject, h).failure.None?
      && exists k :: 0 <= k < |h| && ApprovedNow(subject, h[..k], h[k].0, h[k].1)
  {
    hide Run, Acts, ActOf, Confirmations, TurnedToSecondPage;
    if Returned(Run(subject, h)) == Some(Codec.Approve) {
      var k := FirstApproval(subject, h);
      assert h[..k + 1] == h[..k] + [(h[k].0, h[k].1)];
      ApprovalStep(subject, h[..k], h[k].0, h[k].1);
    }
    if Run(subject, h).failure.None? && exists k :: 0 <= k < |h| && ApprovedNow(subject, h[..k], h[k].0, h[k].1) {
      var k :| 0 <= k < |h| && ApprovedNow(subject, h[..k], h[k].0, h[k].1);
      assert h[..k + 1] == h[..k] + [(h[k].0, h[k].1)];
      ApprovalStep(subject, h[..k], h[k].0, h[k].1);
      DecisionStays(subject, h, k + 1);
    }
  }

  /** Past the deadline the next wait cancels an undecided, unfailed window, and approval is out of reach. */
  lemma DeadlineCancels(subject: ApprovalSubject, h: History, env: Env)
    requires env.elapsedMillis >= CONSENT_DEADLINE_MILLIS
    requires Run(subject, h).decision.None? && Run(subject, h).failure.None?
    ensures Run(subject, h + [(AboutToWait, env)]).decision == Some(Codec.Cancel)
  {
    var all := h + [(AboutToWait, env)];
    assert all[..|all| - 1] == h && all[|all| - 1] == (AboutToWait, env);
  }

  /** The user gave up: the window was closed or Escape pressed. */
  predicate GivenUp(app: App, ev: Event) {
    app.windowOpen && ev in {CloseRequested, KeyPressed(Escape)}
  }

  /** A control was pressed, whether or not the surface could be reviewed. */
  predicate Pressed(app: App, subject: ApprovalSubject, ev: Event, env: Env, control: Control) {
    && app.windowOpen
    && match ev
       case MouseReleased => app.ui.pressed == Some(control) && CurrentControl(app, subject, env) == Some(control)
       case KeyPressed(EnterOrSpace) => app.ui.focus == control
       case _ => false
  }

  /**
   The other two decisions, from any undecided, unfailed window: Decline exactly for the
   Cancel control in time, ready surface or not; Cancel exactly for giving up, for the wait
   past the deadline, and for any control past it.
   */
  lemma OtherDecisions(app: App, subject: ApprovalSubject, ev: Event, env: Env)
    requires app.decision.None? && app.failure.None?
    ensures var late := env.elapsedMillis >= CONSENT_DEADLINE_MILLIS;
            var d := Step(app, subject, ev, env).decision;
            && (d == Some(Codec.Decline) <==> !late && Pressed(app, subject, ev, env, Cancel))
            && (d == Some(Codec.Cancel) <==>
                  GivenUp(app, ev) || (late && (ev.AboutToWait? || exists c :: Pressed(app, subject, ev, env, c))))
  {
    hide CurrentControl, FocusNext, ActivateControl, Ready;
    if ev == KeyPressed(EnterOrSpace) {
      AttemptDecision(app, subject, env, app.ui.focus);
      assert app.windowOpen ==> Pressed(app, subject, ev, env, app.ui.focus);
    } else if ev == MouseReleased && app.ui.pressed.Some? {
      var control := app.ui.pressed.value;
      AttemptDecision(app.(ui := app.ui.(pressed := None)), subject, env, control);
      assert app.windowOpen && CurrentControl(app, subject, env) == Some(control) ==>
        Pressed(app, subject, ev, env, control);
    }
  }

  lemma AttemptDecision(app: App, subject: ApprovalSubject, env: Env, control: Control)
    requires app.decision.None? && app.failure.None?
    ensures var late := env.elapsedMillis >= CONSENT_DEADLINE_MILLIS;
            var d := ActivateControl(app, subject, env, control).decision;
            && (d == Some(Codec.Decline) <==> !late && control == Cancel)
            && (d == Some(Codec.Cancel) <==> late)
  {}

  // ----- moving the focus -----

  /** The controls of the page on show that can take the focus. */
  predicate Focusable(subject: ApprovalSubject, ui: Ui, control: Control) {
    OnPage(subject, ui.page, control) && (control == Approve ==> ui.confirmed)
  }

  function Tabs(ui: Ui, n: nat, reverse: bool, subject: ApprovalSubject): Ui {
    if n == 0 then ui else FocusNext(Tabs(ui, n - 1, reverse, subject), reverse, true, subject)
  }

  /** Tab and Shift-Tab undo each other. */
  lemma TabInverse(ui: Ui, subject: ApprovalSubject, reverse: bool)
    requires Sound(subject, ui)
    ensures FocusNext(FocusNext(ui, reverse, true, subject), !reverse, true, subject) == ui
  {
    assert ui == Ui(ui.confirmed, ui.focus, ui.pressed, ui.page);
  }

  /** Tabbing in either direction reaches every control that can take the focus. */
  lemma TabReaches(ui: Ui, subject: ApprovalSubject, reverse: bool, control: Control) returns (n: nat)
    requires Sound(subject, ui) && Focusable(subject, ui, control)
    ensures n < 4 && Tabs(ui, n, reverse, subject) == ui.(focus := control)
  {
    var one := Tabs(ui, 1, reverse, subject);
    var two := Tabs(ui, 2, reverse, subject);
    var three := Tabs(ui, 3, reverse, subject);
    assert one == FocusNext(Tabs(ui, 0, reverse, subject), reverse, true, subject);
    assert two == FocusNext(one, reverse, true, subject);
    assert three == FocusNext(two, reverse, true, subject);
    n := if ui.focus == control then 0 else if one.focus == control then 1 else if two.focus == control then 2 else 3;
  }
}
