/**
 The consent window: what its controls do, and how events reach them. Time, surface
 geometry and the rectangles under the pointer come from the environment of each event.
 */
module Consent {
  import opened Wrappers
  import opened ApprovalPrompts
  import Codec = ApprovalCodec

  type Decision = Codec.ApprovalDecision

  datatype Control = Back | Cancel | Confirm | Next | Approve
  datatype Page = EvidencePage | TransitionPage
  datatype Fault = WindowFault | RenderFault

  const CONSENT_DEADLINE_MILLIS := 90_000

  /** The interactive state of the window. */
  datatype Ui = Ui(confirmed: bool, focus: Control, pressed: Option<Control>, page: Page)

  const FRESH := Ui(false, Cancel, None, EvidencePage)

  // ----- what controls do -----

  function PlainFocusNext(ui: Ui, reverse: bool, ready: bool): Ui {
    if !ready then FRESH
    else
      ui.(focus :=
        match ui.focus
        case Cancel => if reverse && ui.confirmed then Approve else Confirm
        case Confirm => if !reverse && ui.confirmed then Approve else Cancel
        case Approve => if reverse then Confirm else Cancel
        case Back => Cancel
        case Next => Cancel)
  }

  function RecoveryFocusNext(ui: Ui, reverse: bool, ready: bool): Ui {
    if !ready then FRESH
    else
      ui.(focus :=
        match (ui.page, ui.focus)
        case (EvidencePage, Cancel) => Next
        case (EvidencePage, _) => Cancel
        case (TransitionPage, Back) => if !reverse then Cancel else if ui.confirmed then Approve else Confirm
        case (TransitionPage, Cancel) => if reverse then Back else Confirm
        case (TransitionPage, Confirm) => if reverse then Cancel else if ui.confirmed then Approve else Back
        case (TransitionPage, Approve) => if reverse then Confirm else Back
        case (TransitionPage, Next) => Back)
  }

  function FocusNext(ui: Ui, reverse: bool, ready: bool, subject: ApprovalSubject): Ui {
    if subject.RecoveryParticipation? then RecoveryFocusNext(ui, reverse, ready) else PlainFocusNext(ui, reverse, ready)
  }

  function Toggled(ui: Ui): Ui {
    ui.(confirmed := !ui.confirmed, focus := if ui.confirmed && ui.focus == Approve then Confirm else ui.focus)
  }

  function PlainActivate(ui: Ui, control: Control, ready: bool): (Ui, Option<Decision>) {
    if !ready then (FRESH, if control == Cancel then Some(Codec.Decline) else None)
    else
      match control
      case Cancel => (ui, Some(Codec.Decline))
      case Confirm => (Toggled(ui), None)
      case Approve => (ui, if ui.confirmed then Some(Codec.Approve) else None)
      case Back => (ui, None)
      case Next => (ui, None)
  }

  function RecoveryActivate(ui: Ui, control: Control, ready: bool): (Ui, Option<Decision>) {
    if !ready then (FRESH, if control == Cancel then Some(Codec.Decline) else None)
    else
      match (ui.page, control)
      case (_, Cancel) => (ui, Some(Codec.Decline))
      case (EvidencePage, Next) => (Ui(false, Back, None, TransitionPage), None)
      case (TransitionPage, Back) => (Ui(false, Cancel, None, EvidencePage), None)
      case (TransitionPage, Confirm) => (Toggled(ui), None)
      case (TransitionPage, Approve) => (ui, if ui.confirmed then Some(Codec.Approve) else None)
      case _ => (ui, None)
  }

  function Activate(ui: Ui, control: Control, ready: bool, subject: ApprovalSubject): (Ui, Option<Decision>) {
    if subject.RecoveryParticipation? then RecoveryActivate(ui, control, ready) else PlainActivate(ui, control, ready)
  }

  class Interaction {
    var confirmed: bool
    var focus: Control
    var pressed: Option<Control>
    var page: Page

    function State(): Ui
      reads this
    {
      Ui(confirmed, focus, pressed, page)
    }

    constructor ()
      ensures State() == FRESH
    {
      confirmed, focus, pressed, page := false, Cancel, None, EvidencePage;
    }

    method ResetForIncompleteSurface()
      modifies this
      ensures State() == FRESH
    {
      confirmed := false;
      focus := Cancel;
      pressed := None;
      page := EvidencePage;
    }

    method FocusNextForSubject(reverse: bool, ready: bool, subject: ApprovalSubject)
      modifies this
      ensures State() == FocusNext(old(State()), reverse, ready, subject)
    {
      if !ready {
        ResetForIncompleteSurface();
        return;
      }
      if !subject.RecoveryParticipation? {
        match focus
        case Cancel => focus := if reverse && confirmed then Approve else Confirm;
        case Confirm => focus := if !reverse && confirmed then Approve else Cancel;
        case Approve => focus := if reverse then Confirm else Cancel;
        case Back => focus := Cancel;
        case Next => focus := Cancel;
      } else if page.EvidencePage? {
        focus := if focus == Cancel then Next else Cancel;
      } else {
        match focus
        case Back => focus := if !reverse then Cancel else if confirmed then Approve else Confirm;
        case Cancel => focus := if reverse then Back else Confirm;
        case Confirm => focus := if reverse then Cancel else if confirmed then Approve else Back;
        case Approve => focus := if reverse then Confirm else Back;
        case Next => focus := Back;
      }
    }

    method ToggleConfirmation()
      modifies this
      ensures State() == Toggled(old(State()))
    {
      confirmed := !confirmed;
      if !confirmed && focus == Approve {
        focus := Confirm;
      }
    }

    method ActivateForSubject(control: Control, ready: bool, subject: ApprovalSubject) returns (d: Option<Decision>)
      modifies this
      ensures (State(), d) == Activate(old(State()), control, ready, subject)
    {
      d := None;
      if !ready {
        ResetForIncompleteSurface();
        return if control == Cancel then Some(Codec.Decline) else None;
      }
      if control == Cancel {
        return Some(Codec.Decline);
      }
      if subject.RecoveryParticipation? {
        if page.EvidencePage? {
          if control == Next {
            page, confirmed, focus, pressed := TransitionPage, false, Back, None;
          }
          return;
        }
        if control == Back {
          page, confirmed, focus, pressed := EvidencePage, false, Cancel, None;
          return;
        }
      }
      if control == Confirm {
        ToggleConfirmation();
      } else if control == Approve && confirmed {
        return Some(Codec.Approve);
      }
    }
  }

  // ----- how events reach the controls -----

  /** Which control rectangles contain the pointer; Next and Approve share one. */
  datatype Hit = Hit(blockedCancel: bool, confirm: bool, back: bool, cancel: bool, advance: bool)

  /** What the outside world is like when an event is handled. */
  datatype Env = Env(elapsedMillis: nat, fits: bool, hit: Hit)

  datatype Key = Escape | Tab | EnterOrSpace | OtherKey

  datatype Event =
    | Resumed(windowCreated: bool, surfaceCreated: bool)
    | CloseRequested
    | FocusLost
    | ModifiersChanged(shift: bool)
    | CursorMoved
    | CursorLeft
    | MousePressed
    | MouseReleased
    | KeyPressed(key: Key)
    | RedrawRequested(rendered: bool)
    | SurfaceChanged // resized, moved or scaled
    | Ignored // another window's event, a repeat, or one the window does not handle
    | AboutToWait
    | Exiting

  datatype App = App(
    ui: Ui,
    windowOpen: bool,
    shift: bool,
    pointerInside: bool,
    decision: Option<Decision>,
    failure: Option<Fault>)

  const STARTED := App(FRESH, false, false, false, None, None)

  /** Transition and recovery evidence must fit the window and the output; the rest always fits. */
  predicate Ready(app: App, subject: ApprovalSubject, env: Env) {
    app.windowOpen && (subject.PersonaTransition? || subject.RecoveryParticipation? ==> env.fits)
  }

  function ControlAt(ui: Ui, subject: ApprovalSubject, ready: bool, hit: Hit): Option<Control> {
    if !ready then if hit.blockedCancel then Some(Cancel) else None
    else if subject.RecoveryParticipation? then
      if hit.cancel then Some(Cancel)
      else if ui.page.EvidencePage? then if hit.advance then Some(Next) else None
      else if hit.back then Some(Back)
      else if hit.confirm then Some(Confirm)
      else if hit.advance then Some(Approve)
      else None
    else if hit.confirm then Some(Confirm)
    else if hit.cancel then Some(Cancel)
    else if hit.advance then Some(Approve)
    else None
  }

  function CurrentControl(app: App, subject: ApprovalSubject, env: Env): Option<Control> {
    if app.windowOpen && app.pointerInside then ControlAt(app.ui, subject, Ready(app, subject, env), env.hit) else None
  }

  /** The first decision stands, and none is taken after a failure. */
  function Finish(app: App, d: Decision): App {
    if app.decision.None? && app.failure.None? then app.(decision := Some(d)) else app
  }

  function ActivateControl(app: App, subject: ApprovalSubject, env: Env, control: Control): App {
    if env.elapsedMillis >= CONSENT_DEADLINE_MILLIS then Finish(app, Codec.Cancel)
    else
      var (ui, d) := Activate(app.ui, control, Ready(app, subject, env), subject);
      if d.Some? then Finish(app.(ui := ui), d.value) else app.(ui := ui)
  }

  function ClearIfIncomplete(app: App, subject: ApprovalSubject, env: Env): App {
    if Ready(app, subject, env) then app else app.(ui := FRESH)
  }

  function WindowStep(app: App, subject: ApprovalSubject, ev: Event, env: Env): App {
    match ev
    case CloseRequested => Finish(app, Codec.Cancel)
    case FocusLost => app.(ui := FRESH, shift := false)
    case ModifiersChanged(shift) => app.(shift := shift)
    case CursorMoved => app.(pointerInside := true)
    case CursorLeft => app.(pointerInside := false)
    case MousePressed => app.(ui := app.ui.(pressed := CurrentControl(app, subject, env)))
    case MouseReleased =>
      var released := app.(ui := app.ui.(pressed := None));
      if app.ui.pressed.Some? && app.ui.pressed == CurrentControl(app, subject, env)
      then ActivateControl(released, subject, env, app.ui.pressed.value)
      else released
    case KeyPressed(Escape) => Finish(app, Codec.Cancel)
    case KeyPressed(Tab) => app.(ui := FocusNext(app.ui, app.shift, Ready(app, subject, env), subject))
    case KeyPressed(EnterOrSpace) => ActivateControl(app, subject, env, app.ui.focus)
    case RedrawRequested(rendered) =>
      var shown := ClearIfIncomplete(app, subject, env);
      if rendered then shown else shown.(failure := Some(RenderFault))
    case SurfaceChanged => ClearIfIncomplete(app, subject, env)
    case _ => app
  }

  function Step(app: App, subject: ApprovalSubject, ev: Event, env: Env): App {
    match ev
    case Resumed(windowCreated, surfaceCreated) =>
      if app.windowOpen then app
      else if !windowCreated then app.(failure := Some(WindowFault))
      else if !surfaceCreated then app.(failure := Some(RenderFault))
      else app.(windowOpen := true)
    case AboutToWait => if env.elapsedMillis >= CONSENT_DEADLINE_MILLIS then Finish(app, Codec.Cancel) else app
    case Exiting => app.(windowOpen := false)
    case _ => if app.windowOpen then WindowStep(app, subject, ev, env) else app
  }

  /** What `show` returns once the event loop has ended: `None` stands for its error returns. */
  function Returned(app: App): Option<Decision> {
    if app.failure.Some? then None else app.decision
  }

  // ----- the page invariant -----

  predicate OnPage(subject: ApprovalSubject, page: Page, control: Control) {
    if !subject.RecoveryParticipation? then control in {Cancel, Confirm, Approve}
    else if page.EvidencePage? then control in {Cancel, Next}
    else control in {Back, Cancel, Confirm, Approve}
  }

  /**
   Focus and a pending press name only controls of the page on show, focus on Approve needs
   confirmation, and the first recovery page is never confirmed.
   */
  predicate Sound(subject: ApprovalSubject, ui: Ui) {
    && OnPage(subject, ui.page, ui.focus)
    && (ui.pressed.Some? ==> OnPage(subject, ui.page, ui.pressed.value))
    && (ui.focus == Approve ==> ui.confirmed)
    && (subject.RecoveryParticipation? && ui.page.EvidencePage? ==> !ui.confirmed)
    && (!subject.RecoveryParticipation? ==> ui.page.EvidencePage?)
  }

  lemma ActivateSound(ui: Ui, control: Control, ready: bool, subject: ApprovalSubject)
    requires Sound(subject, ui)
    ensures Sound(subject, Activate(ui, control, ready, subject).0)
  {}

  lemma FocusSound(ui: Ui, reverse: bool, ready: bool, subject: ApprovalSubject)
    requires Sound(subject, ui)
    ensures Sound(subject, FocusNext(ui, reverse, ready, subject))
  {}

  lemma HitOnPage(app: App, subject: ApprovalSubject, env: Env)
    requires Sound(subject, app.ui)
    ensures CurrentControl(app, subject, env).Some? ==>
      OnPage(subject, app.ui.page, CurrentControl(app, subject, env).value)
  {}

  lemma PointerSound(app: App, subject: ApprovalSubject, ev: Event, env: Env)
    requires Sound(subject, app.ui) && ev in {MousePressed, MouseReleased}
    ensures Sound(subject, WindowStep(app, subject, ev, env).ui)
  {
    hide Activate, Sound, OnPage, CurrentControl;
    HitOnPage(app, subject, env);
    SetPressed(subject, app.ui, None);
    SetPressed(subject, app.ui, CurrentControl(app, subject, env));
    if app.ui.pressed.Some? {
      ActivateSound(app.ui.(pressed := None), app.ui.pressed.value, Ready(app, subject, env), subject);
    }
  }

  lemma SetPressed(subject: ApprovalSubject, ui: Ui, pressed: Option<Control>)
    requires Sound(subject, ui) && (pressed.Some? ==> OnPage(subject, ui.page, pressed.value))
    ensures Sound(subject, ui.(pressed := pressed))
  {}

  lemma StepSound(app: App, subject: ApprovalSubject, ev: Event, env: Env)
    requires Sound(subject, app.ui)
    ensures Sound(subject, Step(app, subject, ev, env).ui)
  {
    hide Activate, FocusNext, Sound, OnPage, CurrentControl;
    FreshSound(subject);
    if ev in {MousePressed, MouseReleased} {
      PointerSound(app, subject, ev, env);
    } else {
      FocusSound(app.ui, app.shift, Ready(app, subject, env), subject);
      ActivateSound(app.ui, app.ui.focus, Ready(app, subject, env), subject);
    }
  }

  lemma FreshSound(subject: ApprovalSubject)
    ensures Sound(subject, FRESH)
  {}

  class ConsentApplication {
    const subject: ApprovalSubject
    const interaction: Interaction
    var windowOpen: bool
    var shift: bool
    var pointerInside: bool
    var decision: Option<Decision>
    var failure: Option<Fault>

    function State(): App
      reads this, interaction
    {
      App(interaction.State(), windowOpen, shift, pointerInside, decision, failure)
    }

    constructor (subject: ApprovalSubject)
      ensures State() == STARTED && this.subject == subject && fresh(interaction)
    {
      this.subject := subject;
      interaction := new Interaction();
      windowOpen, shift, pointerInside := false, false, false;
      decision, failure := None, None;
    }

    method FinishWith(d: Decision)
      modifies this
      ensures State() == Finish(old(State()), d)
      ensures old(decision).Some? ==> decision == old(decision)
    {
      if decision.None? && failure.None? {
        decision := Some(d);
      }
    }

    method ActivateControlNow(control: Control, env: Env)
      modifies this, interaction
      ensures State() == ActivateControl(old(State()), subject, env, control)
      ensures old(decision).Some? ==> decision == old(decision)
    {
      if env.elapsedMillis >= CONSENT_DEADLINE_MILLIS {
        FinishWith(Codec.Cancel);
        return;
      }
      var d := interaction.ActivateForSubject(control, Ready(State(), subject, env), subject);
      if d.Some? {
        FinishWith(d.value);
      }
    }

    method ResetIfIncomplete(env: Env)
      modifies interaction
      ensures State() == ClearIfIncomplete(old(State()), subject, env)
    {
      if !Ready(State(), subject, env) {
        interaction.ResetForIncompleteSurface();
      }
    }

    method WindowEvent(ev: Event, env: Env)
      requires windowOpen
      modifies this, interaction
      ensures State() == WindowStep(old(State()), subject, ev, env)
      ensures old(decision).Some? ==> decision == old(decision)
    {
      match ev
      case CloseRequested => FinishWith(Codec.Cancel);
      case FocusLost =>
        interaction.ResetForIncompleteSurface();
        shift := false;
      case ModifiersChanged(s) => shift := s;
      case CursorMoved => pointerInside := true;
      case CursorLeft => pointerInside := false;
      case MousePressed => interaction.pressed := CurrentControl(State(), subject, env);
      case MouseReleased =>
        var control := CurrentControl(State(), subject, env);
        var pressed := interaction.pressed;
        interaction.pressed := None;
        if pressed.Some? && pressed == control {
          ActivateControlNow(pressed.value, env);
        }
      case KeyPressed(key) =>
        match key {
          case Escape => FinishWith(Codec.Cancel);
          case Tab => interaction.FocusNextForSubject(shift, Ready(State(), subject, env), subject);
          case EnterOrSpace => ActivateControlNow(interaction.focus, env);
          case OtherKey =>
        }
      case RedrawRequested(rendered) =>
        ResetIfIncomplete(env);
        if !rendered {
          failure := Some(RenderFault);
        }
      case SurfaceChanged => ResetIfIncomplete(env);
      case _ =>
    }

    method Handle(ev: Event, env: Env)
      modifies this, interaction
      ensures State() == Step(old(State()), subject, ev, env)
      ensures Sound(subject, old(State()).ui) ==> Sound(subject, State().ui)
      ensures old(decision).Some? ==> decision == old(decision)
    {
      if Sound(subject, State().ui) {
        StepSound(State(), subject, ev, env);
      }
      match ev
      case Resumed(windowCreated, surfaceCreated) =>
        if windowOpen {
          return;
        }
        if !windowCreated {
          failure := Some(WindowFault);
        } else if !surfaceCreated {
          failure := Some(RenderFault);
        } else {
          windowOpen := true;
        }
      case AboutToWait =>
        if env.elapsedMillis >= CONSENT_DEADLINE_MILLIS {
          FinishWith(Codec.Cancel);
        }
      case Exiting => windowOpen := false;
      case _ =>
        if windowOpen {
          WindowEvent(ev, env);
        }
    }
  }
}
