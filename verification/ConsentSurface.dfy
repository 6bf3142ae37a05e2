/**
 What one event does to each part of the window, and what the surface must show for a
 decision, said without the functions that compute it.
 */
module ConsentSurface {
  import opened Wrappers
  import opened ApprovalPrompts
  import opened Consent
  import opened ConsentRuns
  import Codec = ApprovalCodec

  // ----- the evidence must be on show -----

  /** The subjects whose evidence needs a window and an output of a certain size. */
  predicate NeedsRoom(subject: ApprovalSubject) {
    match subject
    case PersonaTransition(_, _, _, _, _, _, _, _) => true
    case RecoveryParticipation(_, _, _, _, _, _, _, _, _, _, _, _, _, _, _) => true
    case Artifact(_, _, _, _) => false
    case Domain(_, _, _, _) => false
    case PersonaRoot(_, _, _) => false
  }

  /** The event that turned an undecided window into an approving one. */
  ghost predicate ApprovesAt(subject: ApprovalSubject, h: History, k: nat)
    requires k < |h|
  {
    Run(subject, h[..k]).decision == None && Run(subject, h[..k + 1]).decision == Some(Codec.Approve)
  }

  /** Approval is only ever given on an open window, within 90 seconds, with all the evidence in view. */
  lemma ApprovalSeesEvidence(subject: ApprovalSubject, h: History) returns (k: nat)
    requires Returned(Run(subject, h)) == Some(Codec.Approve)
    ensures k < |h| && ApprovesAt(subject, h, k)
    ensures Run(subject, h[..k]).windowOpen && h[k].1.elapsedMillis < 90_000
    ensures NeedsRoom(subject) ==> h[k].1.fits
    ensures h[k].0 in {MouseReleased, KeyPressed(EnterOrSpace)}
  {
    hide Step, Run, CurrentControl;
    k := FirstApproval(subject, h);
    var ev, env := h[k].0, h[k].1;
    assert h[..k + 1] == h[..k] + [(ev, env)];
    RunStep(subject, h[..k], ev, env);
    StepApproves(Run(subject, h[..k]), subject, ev, env);
  }

  lemma RunStep(subject: ApprovalSubject, h: History, ev: Event, env: Env)
    ensures Run(subject, h + [(ev, env)]) == Step(Run(subject, h), subject, ev, env)
  {
    var all := h + [(ev, env)];
    assert all[..|all| - 1] == h && all[|all| - 1] == (ev, env);
  }

  /** Evidence that does not fit takes the confirmation, the focus, the press and the page back to the start. */
  lemma UnfitClears(app: App, subject: ApprovalSubject, ev: Event, env: Env)
    requires NeedsRoom(subject) && !env.fits && app.windowOpen
    requires ev in {KeyPressed(Tab), RedrawRequested(true), RedrawRequested(false), SurfaceChanged}
          || (ev == KeyPressed(EnterOrSpace) && env.elapsedMillis < 90_000)
    ensures Step(app, subject, ev, env).ui == Ui(false, Cancel, None, EvidencePage)
  {}

  /** For the other subjects the size of the surface never matters. */
  lemma RoomIrrelevant(app: App, subject: ApprovalSubject, ev: Event, env: Env, fits: bool)
    requires !NeedsRoom(subject)
    ensures Step(app, subject, ev, env.(fits := fits)) == Step(app, subject, ev, env)
  {
    assert Ready(app, subject, env.(fits := fits)) == Ready(app, subject, env);
    assert CurrentControl(app, subject, env.(fits := fits)) == CurrentControl(app, subject, env);
    hide Activate, FocusNext, CurrentControl, Ready;
  }

  // ----- each part of the state by itself -----

  /** An activation touches nothing but the interaction and an open decision. */
  lemma ActivationFrame(app: App, subject: ApprovalSubject, env: Env)
    ensures var after := ActivateControl(app, subject, env, app.ui.focus);
            && after == app.(ui := after.ui, decision := after.decision)
            && (app.failure.Some? ==> after.decision == app.decision)
    ensures var released := app.(ui := app.ui.(pressed := None));
            app.ui.pressed.Some? ==>
              var after := ActivateControl(released, subject, env, app.ui.pressed.value);
              && after == app.(ui := after.ui, decision := after.decision)
              && (app.failure.Some? ==> after.decision == app.decision)
  {
    hide Activate, Ready;
  }

  /** The window opens with its surface and closes at the end. */
  lemma StepWindow(app: App, subject: ApprovalSubject, ev: Event, env: Env)
    ensures Step(app, subject, ev, env).windowOpen <==>
      if ev.Exiting? then false
      else app.windowOpen || (ev.Resumed? && ev.windowCreated && ev.surfaceCreated)
  {
    hide ActivateControl, FocusNext, CurrentControl, Ready;
    if ev in {KeyPressed(EnterOrSpace), MouseReleased} {
      ActivationFrame(app, subject, env);
    }
  }

  /** The shift key is as last reported, and let go when the focus is lost. */
  lemma StepShift(app: App, subject: ApprovalSubject, ev: Event, env: Env)
    ensures Step(app, subject, ev, env).shift <==>
      if app.windowOpen && ev.ModifiersChanged? then ev.shift
      else app.shift && !(app.windowOpen && ev.FocusLost?)
  {
    hide ActivateControl, FocusNext, CurrentControl, Ready;
    if ev in {KeyPressed(EnterOrSpace), MouseReleased} {
      ActivationFrame(app, subject, env);
    }
  }

  /** The pointer is inside from its last move until it leaves. */
  lemma StepPointer(app: App, subject: ApprovalSubject, ev: Event, env: Env)
    ensures Step(app, subject, ev, env).pointerInside <==>
      if app.windowOpen && ev in {CursorMoved, CursorLeft} then ev == CursorMoved else app.pointerInside
  {
    hide ActivateControl, FocusNext, CurrentControl, Ready;
    if ev in {KeyPressed(EnterOrSpace), MouseReleased} {
      ActivationFrame(app, subject, env);
    }
  }

  /** Which events fail the window, and that nothing else does. */
  lemma StepFailure(app: App, subject: ApprovalSubject, ev: Event, env: Env)
    ensures Step(app, subject, ev, env).failure ==
      if !app.windowOpen && ev.Resumed? && !ev.windowCreated then Some(WindowFault)
      else if !app.windowOpen && ev.Resumed? && !ev.surfaceCreated then Some(RenderFault)
      else if app.windowOpen && ev == RedrawRequested(false) then Some(RenderFault)
      else app.failure
  {
    if ev.Resumed? || ev.RedrawRequested? || !app.windowOpen {
      return;
    }
    hide ActivateControl, FocusNext, CurrentControl, Ready;
    if ev in {KeyPressed(EnterOrSpace), MouseReleased} {
      ActivationFrame(app, subject, env);
    }
  }

  /** After a failure nothing is decided any more. */
  lemma FailedDecidesNothing(app: App, subject: ApprovalSubject, ev: Event, env: Env)
    requires app.failure.Some?
    ensures Step(app, subject, ev, env).decision == app.decision
  {
    hide ActivateControl, FocusNext, CurrentControl, Ready;
    if ev in {KeyPressed(EnterOrSpace), MouseReleased} {
      ActivationFrame(app, subject, env);
    }
  }

  /** A pending press is what was under the pointer when the button went down; any release ends it. */
  lemma StepPressed(app: App, subject: ApprovalSubject, ev: Event, env: Env)
    ensures var act := ActOf(app, subject, ev, env);
            Step(app, subject, ev, env).ui.pressed ==
              if app.windowOpen && ev.MousePressed? then CurrentControl(app, subject, env)
              else if app.windowOpen && ev.MouseReleased? then None
              else if act.Cleared? then None
              else if act.Activated? && TurnsPage(subject, app.ui, act.control) then None
              else app.ui.pressed
  {
    hide CurrentControl, FocusNext, ActivateControl, Attempt, Activate;
    if ev == KeyPressed(Tab) {
      FocusKeepsPress(app.ui, app.shift, Ready(app, subject, env), subject);
    } else if ev == KeyPressed(EnterOrSpace) {
      AttemptEffect(app, subject, env, app.ui.focus);
      ActivatePress(app.ui, app.ui.focus, true, subject);
    } else if ev == MouseReleased && app.ui.pressed.Some? {
      var released := app.(ui := app.ui.(pressed := None));
      AttemptEffect(released, subject, env, app.ui.pressed.value);
      ActivatePress(released.ui, app.ui.pressed.value, true, subject);
    }
  }

  /** The focus follows Tab and the activated control, and goes back to Cancel on a clearing. */
  lemma StepFocus(app: App, subject: ApprovalSubject, ev: Event, env: Env)
    ensures var act := ActOf(app, subject, ev, env);
            Step(app, subject, ev, env).ui.focus ==
              if act.Cleared? then Cancel
              else if act.Activated? then Activate(app.ui, act.control, true, subject).0.focus
              else if app.windowOpen && ev == KeyPressed(Tab) then FocusNext(app.ui, app.shift, true, subject).focus
              else app.ui.focus
  {
    hide CurrentControl, FocusNext, ActivateControl, Attempt, Activate;
    if ev == KeyPressed(Tab) {
      FocusUnready(app.ui, app.shift, subject);
    } else if ev == KeyPressed(EnterOrSpace) {
      AttemptEffect(app, subject, env, app.ui.focus);
    } else if ev == MouseReleased && app.ui.pressed.Some? {
      AttemptEffect(app.(ui := app.ui.(pressed := None)), subject, env, app.ui.pressed.value);
      PressIrrelevant(app, subject, env, app.ui.pressed.value);
      PressKeepsFocus(app.ui, app.ui.pressed.value, subject);
    }
  }

  lemma FocusUnready(ui: Ui, reverse: bool, subject: ApprovalSubject)
    ensures FocusNext(ui, reverse, false, subject) == FRESH
  {}

  lemma PressKeepsFocus(ui: Ui, control: Control, subject: ApprovalSubject)
    ensures Activate(ui.(pressed := None), control, true, subject).0.focus
         == Activate(ui, control, true, subject).0.focus
  {}

  /** Next on the first recovery page and Back on the second. */
  predicate TurnsPage(subject: ApprovalSubject, ui: Ui, control: Control) {
    && subject.RecoveryParticipation?
    && (if ui.page.EvidencePage? then control == Next else control == Back)
  }

  lemma FocusKeepsPress(ui: Ui, reverse: bool, ready: bool, subject: ApprovalSubject)
    ensures FocusNext(ui, reverse, ready, subject).pressed == if ready then ui.pressed else None
  {}

  lemma ActivatePress(ui: Ui, control: Control, ready: bool, subject: ApprovalSubject)
    ensures Activate(ui, control, ready, subject).0.pressed ==
      if !ready || TurnsPage(subject, ui, control) then None else ui.pressed
  {}

  /**
   Turning the page starts afresh on the other page, on the control that leads away from
   approval; toggling moves the focus only off an Approve that is no longer there; every
   other activation leaves the window as it was.
   */
  lemma ActivateEffect(ui: Ui, control: Control, subject: ApprovalSubject)
    requires Sound(subject, ui) && OnPage(subject, ui.page, control)
    ensures var after := Activate(ui, control, true, subject).0;
            if control == Next then after == Ui(false, Back, None, TransitionPage)
            else if control == Back then after == Ui(false, Cancel, None, EvidencePage)
            else if control == Confirm then
              && after.confirmed == !ui.confirmed && after.page == ui.page && after.pressed == ui.pressed
              && after.focus == (if ui.focus == Approve then Confirm else ui.focus)
            else after == ui
  {}

  // ----- the tab order -----

  /** The controls of the page on show, in the order Tab visits them. */
  function TabOrder(subject: ApprovalSubject, ui: Ui): seq<Control> {
    if !subject.RecoveryParticipation? then [Cancel, Confirm] + (if ui.confirmed then [Approve] else [])
    else if ui.page.EvidencePage? then [Cancel, Next]
    else [Back, Cancel, Confirm] + (if ui.confirmed then [Approve] else [])
  }

  /** Tab moves one place on in that order and Shift-Tab one place back, round and round. */
  lemma TabFollowsOrder(ui: Ui, subject: ApprovalSubject, i: nat)
    requires i < |TabOrder(subject, ui)| && ui.focus == TabOrder(subject, ui)[i]
    ensures var order := TabOrder(subject, ui);
            && FocusNext(ui, false, true, subject) == ui.(focus := order[if i + 1 == |order| then 0 else i + 1])
            && FocusNext(ui, true, true, subject) == ui.(focus := order[if i == 0 then |order| - 1 else i - 1])
  {}

  // ----- the pointer -----

  /** Whether the pointer is in the rectangle a control has on a ready surface. */
  predicate Inside(hit: Hit, control: Control) {
    match control
    case Back => hit.back
    case Cancel => hit.cancel
    case Confirm => hit.confirm
    case Next => hit.advance
    case Approve => hit.advance
  }

  /** The controls of the page on show, in the order their rectangles are looked at. */
  function HitOrder(subject: ApprovalSubject, page: Page): seq<Control> {
    if !subject.RecoveryParticipation? then [Confirm, Cancel, Approve]
    else if page.EvidencePage? then [Cancel, Next]
    else [Cancel, Back, Confirm, Approve]
  }

  /** The first control in that order whose rectangle holds the mouse. */
  predicate FirstHit(order: seq<Control>, hit: Hit, control: Control) {
    exists i :: 0 <= i < |order| && order[i] == control && Inside(hit, control) && NoneBefore(order, hit, i)
  }

  predicate NoneBefore(order: seq<Control>, hit: Hit, i: nat)
    requires i <= |order|
  {
    forall j :: 0 <= j < i ==> !Inside(hit, order[j])
  }

  /**
   A control is under the mouse exactly when the mouse is inside an open window and that
   control is the first one hit: on a ready surface among the controls of the page on show,
   otherwise only the Cancel of the blocked surface.
   */
  lemma ControlUnderMouse(app: App, subject: ApprovalSubject, env: Env, control: Control)
    ensures CurrentControl(app, subject, env) == Some(control) <==>
      && app.windowOpen && app.pointerInside
      && (if NeedsRoom(subject) && !env.fits then control == Cancel && env.hit.blockedCancel
          else FirstHit(HitOrder(subject, app.ui.page), env.hit, control))
  {
    var order, hit := HitOrder(subject, app.ui.page), env.hit;
    FirstHitCases(order, hit, control);
  }

  lemma FirstHitCases(order: seq<Control>, hit: Hit, control: Control)
    requires 2 <= |order| <= 4
    ensures FirstHit(order, hit, control) <==>
      if Inside(hit, order[0]) then control == order[0]
      else if Inside(hit, order[1]) then control == order[1]
      else if |order| > 2 && Inside(hit, order[2]) then control == order[2]
      else |order| > 3 && Inside(hit, order[3]) && control == order[3]
  {
    assert NoneBefore(order, hit, 0);
    assert NoneBefore(order, hit, 1) <==> !Inside(hit, order[0]);
    assert NoneBefore(order, hit, 2) <==> !Inside(hit, order[0]) && !Inside(hit, order[1]);
    hide Inside;
    if |order| > 2 {
      assert NoneBefore(order, hit, 3) <==>
        !Inside(hit, order[0]) && !Inside(hit, order[1]) && !Inside(hit, order[2]);
    }
  }

  // ----- two whole runs -----

  /** Everything is in view, one second in, and the pointer is away. */
  const SEEN := Env(1000, true, Hit(false, false, false, false, false))

  function Keys(keys: seq<Key>): History {
    if keys == [] then [(Resumed(true, true), SEEN)]
    else Keys(keys[..|keys| - 1]) + [(KeyPressed(keys[|keys| - 1]), SEEN)]
  }

  lemma KeysRun(subject: ApprovalSubject, keys: seq<Key>, key: Key, all: seq<Key>)
    requires all == keys + [key]
    ensures Run(subject, Keys(all)) == Step(Run(subject, Keys(keys)), subject, KeyPressed(key), SEEN)
  {
    hide Step;
    assert all[..|keys|] == keys;
    RunStep(subject, Keys(keys), KeyPressed(key), SEEN);
  }

  function Opened(ui: Ui): App {
    App(ui, true, false, false, None, None)
  }

  lemma OpenedRun(subject: ApprovalSubject)
    ensures Run(subject, Keys([])) == Opened(FRESH)
  {
    RunStep(subject, [], Resumed(true, true), SEEN);
    assert [] + [(Resumed(true, true), SEEN)] == Keys([]);
  }

  /** A recovery prompt is approved by turning the page, confirming and approving from the keyboard. */
  lemma RecoveryCanBeApproved(subject: ApprovalSubject)
    requires subject.RecoveryParticipation?
    ensures Returned(Run(subject, Keys([Tab, EnterOrSpace, Tab, Tab, EnterOrSpace, Tab, EnterOrSpace])))
         == Some(Codec.Approve)
  {
    hide Run, Keys;
    OpenedRun(subject);
    KeysRun(subject, [], Tab, [Tab]);
    assert Run(subject, Keys([Tab])) == Opened(Ui(false, Next, None, EvidencePage));
    KeysRun(subject, [Tab], EnterOrSpace, [Tab, EnterOrSpace]);
    assert Run(subject, Keys([Tab, EnterOrSpace])) == Opened(Ui(false, Back, None, TransitionPage));
    KeysRun(subject, [Tab, EnterOrSpace], Tab, [Tab, EnterOrSpace, Tab]);
    assert Run(subject, Keys([Tab, EnterOrSpace, Tab])) == Opened(Ui(false, Cancel, None, TransitionPage));
    KeysRun(subject, [Tab, EnterOrSpace, Tab], Tab, [Tab, EnterOrSpace, Tab, Tab]);
    assert Run(subject, Keys([Tab, EnterOrSpace, Tab, Tab])) == Opened(Ui(false, Confirm, None, TransitionPage));
    KeysRun(subject, [Tab, EnterOrSpace, Tab, Tab], EnterOrSpace, [Tab, EnterOrSpace, Tab, Tab, EnterOrSpace]);
    assert Run(subject, Keys([Tab, EnterOrSpace, Tab, Tab, EnterOrSpace]))
        == Opened(Ui(true, Confirm, None, TransitionPage));
    KeysRun(subject, [Tab, EnterOrSpace, Tab, Tab, EnterOrSpace], Tab,
            [Tab, EnterOrSpace, Tab, Tab, EnterOrSpace, Tab]);
    assert Run(subject, Keys([Tab, EnterOrSpace, Tab, Tab, EnterOrSpace, Tab]))
        == Opened(Ui(true, Approve, None, TransitionPage));
    KeysRun(subject, [Tab, EnterOrSpace, Tab, Tab, EnterOrSpace, Tab], EnterOrSpace,
            [Tab, EnterOrSpace, Tab, Tab, EnterOrSpace, Tab, EnterOrSpace]);
  }

  /** Any other prompt by confirming and approving. */
  lemma OthersCanBeApproved(subject: ApprovalSubject)
    requires !subject.RecoveryParticipation?
    ensures Returned(Run(subject, Keys([Tab, EnterOrSpace, Tab, EnterOrSpace]))) == Some(Codec.Approve)
  {
    hide Run, Keys;
    OpenedRun(subject);
    KeysRun(subject, [], Tab, [Tab]);
    assert Run(subject, Keys([Tab])) == Opened(Ui(false, Confirm, None, EvidencePage));
    KeysRun(subject, [Tab], EnterOrSpace, [Tab, EnterOrSpace]);
    assert Run(subject, Keys([Tab, EnterOrSpace])) == Opened(Ui(true, Confirm, None, EvidencePage));
    KeysRun(subject, [Tab, EnterOrSpace], Tab, [Tab, EnterOrSpace, Tab]);
    assert Run(subject, Keys([Tab, EnterOrSpace, Tab])) == Opened(Ui(true, Approve, None, EvidencePage));
    KeysRun(subject, [Tab, EnterOrSpace, Tab], EnterOrSpace, [Tab, EnterOrSpace, Tab, EnterOrSpace]);
  }
}
