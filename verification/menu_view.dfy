/**
 * `MenuView::handle_keyboard`: the keys of the menu screen. Escape returns
 * to tagging, Q quits by failing an assertion, O advances the organize
 * mode, R starts the organize batch and C clears the console.
 */
module MenuView {
  import opened Keyboard
  import opened AppModel
  import OrganizeModes

  /**
   * How handling a key ends: normally, by the deliberate abort of Q, or with
   * the organize batch of R to run (the batch is not modelled).
   */
  datatype MenuOutcome = Continue | Abort | OrganizeRequested

  /**
   * The state and outcome after one keyboard event on the menu screen. The
   * menu never touches the queue, the selection, the tag registry or the
   * tag-label input, and Q and R leave the state to their outcome.
   */
  function MenuStep(s: Screen, event: KeyboardEvent): (r: (Screen, MenuOutcome))
    ensures r.0.imageInfos == s.imageInfos && r.0.selectedImageIndex == s.selectedImageIndex
    ensures r.0.keyboardState == s.keyboardState && r.0.tags == s.tags && r.0.tagInput == s.tagInput
    ensures r.1 != Continue ==> r.0 == s
    ensures r.0.appState != s.appState ==> event == KeyPressed(Escape)
  {
    match event
    case KeyPressed(Escape) => (s.(appState := AppState.Tagging), Continue)
    case KeyPressed(Q) => (s, Abort)
    case KeyPressed(O) => (s.(organizeMode := OrganizeModes.Successor(s.organizeMode)), Continue)
    case KeyPressed(R) => (s, OrganizeRequested)
    case KeyPressed(C) => (s.(consoleMessages := []), Continue)
    case _ => (s, Continue)
  }

  /** `handle_keyboard` of the menu view. */
  method HandleKeyboard(app: App, event: KeyboardEvent) returns (outcome: MenuOutcome)
    modifies app
    ensures (app.Snapshot(), outcome) == MenuStep(old(app.Snapshot()), event)
  {
    outcome := Continue;
    match event {
      case KeyPressed(keyCode) =>
        match keyCode {
          case Escape =>
            app.appState := AppState.Tagging;
          case Q =>
            outcome := Abort;
          case O =>
            app.organizeMode := OrganizeModes.Next(app.organizeMode);
          case R =>
            outcome := OrganizeRequested;
          case C =>
            app.consoleMessages := [];
          case _ =>
        }
      case _ =>
    }
  }

  /** Escape goes back to the tagging screen and changes nothing else. */
  lemma EscapeReturnsToTagging(s: Screen)
    ensures MenuStep(s, KeyPressed(Escape)) == (s.(appState := AppState.Tagging), Continue)
  {
  }

  /** O moves the organize mode one step along the rotation, to a different mode. */
  lemma OAdvancesOrganizeMode(s: Screen)
    ensures var (r, outcome) := MenuStep(s, KeyPressed(O));
      r == s.(organizeMode := r.organizeMode) && outcome == Continue &&
      r.organizeMode != s.organizeMode &&
      MenuStep(MenuStep(r, KeyPressed(O)).0, KeyPressed(O)).0 == s
  {
    OrganizeModes.SuccessorCycle(s.organizeMode);
  }

  /** C empties the console and changes nothing else. */
  lemma CClearsConsole(s: Screen)
    ensures MenuStep(s, KeyPressed(C)) == (s.(consoleMessages := []), Continue)
  {
  }

  /** Q aborts without changing the state; R hands over to the organize batch. */
  lemma QAbortsAndRRequestsOrganize(s: Screen)
    ensures MenuStep(s, KeyPressed(Q)) == (s, Abort)
    ensures MenuStep(s, KeyPressed(R)) == (s, OrganizeRequested)
  {
  }

  /** Other keys, typed characters and other keyboard events change nothing. */
  lemma OtherEventsChangeNothing(s: Screen, event: KeyboardEvent)
    requires !event.KeyPressed? || event.keyCode !in {Escape, Q, O, R, C}
    ensures MenuStep(s, event) == (s, Continue)
  {
  }
}
