/**
 * `MainView::handle_keyboard`: the keys of the tagging screen. Escape opens
 * the menu; in the tagging keyboard state the arrow keys step through the
 * queue, Delete removes the selected file and its entry, a letter toggles
 * its tag on the selected entry and, when it is not yet a tag, opens the
 * tag-label input, and `[ ] { }` jump to the
 * previous or next untagged or tagged entry.
 */
module MainView {
  import opened Wrappers
  import opened Keyboard
  import opened AppModel
  import GetWhere
  import ImageQueue

  /** What `fs::remove_file` did with the selected file. */
  datatype RemovalOutcome = Removed | RemoveFailed(reason: string)

  predicate Untagged(info: ImageQueue.ImageInfo) {
    info.tags == {}
  }

  predicate Tagged(info: ImageQueue.ImageInfo) {
    info.tags != {}
  }

  /** The selection after a search: the index found, or the old one when there is none. */
  function MoveTo(s: Screen, found: Option<nat>): Screen {
    s.(selectedImageIndex := found.GetOr(s.selectedImageIndex))
  }

  /**
   * The effect of the Delete key on the tagging screen: exactly one line is
   * logged, only the queue and the console can change, and the queue only
   * when the file was removed.
   */
  function DeleteStep(s: Screen, removal: RemovalOutcome): (r: Screen)
    requires ImageQueue.SelectionValid(|s.imageInfos|, s.selectedImageIndex)
    ensures |r.consoleMessages| == |s.consoleMessages| + 1 && s.consoleMessages <= r.consoleMessages
    ensures r.appState == s.appState && r.keyboardState == s.keyboardState && r.organizeMode == s.organizeMode
    ensures r.tags == s.tags && r.tagInput == s.tagInput
    ensures removal.RemoveFailed? ==> r.imageInfos == s.imageInfos && r.selectedImageIndex == s.selectedImageIndex
  {
    if s.selectedImageIndex < |s.imageInfos| then
      var path := s.imageInfos[s.selectedImageIndex].path;
      match removal
      case RemoveFailed(reason) =>
        s.(consoleMessages := s.consoleMessages + ["Error deleting " + path + " : " + reason])
      case Removed =>
        var (rest, index) := ImageQueue.DeleteCurrentFixed(s.imageInfos, s.selectedImageIndex);
        s.(imageInfos := rest, selectedImageIndex := index,
           consoleMessages := s.consoleMessages + ["Deleted " + path + " successfully"])
    else
      s.(consoleMessages := s.consoleMessages + ["Error getting path of current file"])
  }

  /**
   * The effect of a typed character on the tagging screen in the tagging
   * keyboard state, where `toggled` is the selected entry's tag set after
   * the tag toggle. A letter can only open the tag-label input and change
   * the selected entry's tags; any other character can only move the
   * selection, and then onto an entry. The paths and their order never
   * change.
   */
  function CharacterStep(s: Screen, c: char, toggled: set<char>): (r: Screen)
    requires s.selectedImageIndex <= |s.imageInfos|
    ensures |r.imageInfos| == |s.imageInfos| && ImageQueue.Paths(r.imageInfos) == ImageQueue.Paths(s.imageInfos)
    ensures forall k :: 0 <= k < |s.imageInfos| && k != s.selectedImageIndex ==> r.imageInfos[k] == s.imageInfos[k]
    ensures r.consoleMessages == s.consoleMessages
    ensures r.appState == s.appState && r.organizeMode == s.organizeMode && r.tags == s.tags
    ensures IsAlphabetic(c) ==> r.selectedImageIndex == s.selectedImageIndex
    ensures IsAlphabetic(c) && s.selectedImageIndex < |s.imageInfos| ==> r.imageInfos[s.selectedImageIndex].tags == toggled
    ensures !IsAlphabetic(c) ==> r.imageInfos == s.imageInfos && r.keyboardState == s.keyboardState && r.tagInput == s.tagInput
    ensures r.selectedImageIndex != s.selectedImageIndex ==> r.selectedImageIndex < |s.imageInfos|
  {
    if IsAlphabetic(c) then
      var s1 := if [c] !in s.tags then s.(keyboardState := KeyboardState.Idle, tagInput := Some(TagInputState("", c))) else s;
      ToggleCurrent(s1, toggled)
    else if c == '[' then MoveTo(s, GetWhere.PrevMatch(s.imageInfos, s.selectedImageIndex, Untagged))
    else if c == ']' then MoveTo(s, GetWhere.NextMatch(s.imageInfos, s.selectedImageIndex, Untagged))
    else if c == '{' then MoveTo(s, GetWhere.PrevMatch(s.imageInfos, s.selectedImageIndex, Tagged))
    else if c == '}' then MoveTo(s, GetWhere.NextMatch(s.imageInfos, s.selectedImageIndex, Tagged))
    else s
  }

  /**
   * The state after one keyboard event, with the outcome of the file removal
   * Delete would attempt and the selected entry's tag set after a letter's
   * tag toggle. The main view never changes the organize mode or the tag
   * registry, opens the menu only on Escape and logs at most one line. The
   * paths change only when Delete removed a file; otherwise the entries
   * change only by a letter's toggle.
   */
  function Step(s: Screen, event: KeyboardEvent, removal: RemovalOutcome, toggled: set<char>): (r: Screen)
    requires ImageQueue.SelectionValid(|s.imageInfos|, s.selectedImageIndex)
    ensures r.organizeMode == s.organizeMode && r.tags == s.tags
    ensures r.appState != s.appState ==> event == KeyPressed(Escape) && r.appState == AppState.Menu
    ensures s.consoleMessages <= r.consoleMessages && |r.consoleMessages| <= |s.consoleMessages| + 1
    ensures ImageQueue.Paths(r.imageInfos) != ImageQueue.Paths(s.imageInfos) ==>
              event == KeyPressed(Delete) && removal == Removed
    ensures r.imageInfos != s.imageInfos ==>
              (event == KeyPressed(Delete) && removal == Removed) ||
              (event.CharacterReceived? && IsAlphabetic(event.character))
  {
    match event
    case KeyPressed(key) =>
      var s1 := if key == Escape then s.(appState := AppState.Menu) else s;
      if s1.keyboardState == KeyboardState.Tagging then
        match key
        case Left => MoveTo(s1, GetWhere.PrevMatch(s1.imageInfos, s1.selectedImageIndex, GetWhere.Always))
        case Right => MoveTo(s1, GetWhere.NextMatch(s1.imageInfos, s1.selectedImageIndex, GetWhere.Always))
        case Delete => DeleteStep(s1, removal)
        case _ => s1
      else s1
    case CharacterReceived(c) =>
      if s.appState == AppState.Tagging && s.keyboardState == KeyboardState.Tagging then CharacterStep(s, c, toggled)
      else s
    case OtherKeyboardEvent => s
  }

  /** `handle_keyboard` of the main view. */
  method HandleKeyboard(app: App, event: KeyboardEvent, removal: RemovalOutcome, toggled: set<char>)
    requires app.Valid()
    modifies app, app.imageQueue
    ensures app.Valid()
    ensures app.Snapshot() == Step(old(app.Snapshot()), event, removal, toggled)
  {
    var state := app.imageQueue;
    match event {
      case KeyPressed(keyCode) =>
        if keyCode == Escape {
          app.appState := AppState.Menu;
        }
        if app.keyboardState == KeyboardState.Tagging {
          match keyCode {
            case Left =>
              var found := GetWhere.Prev(state.imageInfos, state.selectedImageIndex, GetWhere.Always);
              if found.Some? {
                state.selectedImageIndex := found.value;
              }
            case Right =>
              var found := GetWhere.Next(state.imageInfos, state.selectedImageIndex, GetWhere.Always);
              if found.Some? {
                state.selectedImageIndex := found.value;
              }
            case Delete =>
              var path: Option<string> := None;
              if state.selectedImageIndex < |state.imageInfos| {
                path := Some(state.imageInfos[state.selectedImageIndex].path);
              }
              match path {
                case Some(x) =>
                  match removal {
                    case RemoveFailed(reason) =>
                      app.Log("Error deleting " + x + " : " + reason);
                    case Removed =>
                      state.DeleteCurrent();
                      app.Log("Deleted " + x + " successfully");
                  }
                case None =>
                  app.Log("Error getting path of current file");
              }
            case _ =>
          }
        }
      case CharacterReceived(character) =>
        if app.appState == AppState.Tagging && app.keyboardState == KeyboardState.Tagging {
          if IsAlphabetic(character) {
            if [character] !in app.tags {
              app.keyboardState := KeyboardState.Idle;
              app.tagInput := Some(TagInputState("", character));
            }
            app.ToggleTagOnCurrentImage(toggled);
          } else {
            var found: Option<nat> := None;
            if character == '[' {
              found := GetWhere.Prev(state.imageInfos, state.selectedImageIndex, Untagged);
            } else if character == ']' {
              found := GetWhere.Next(state.imageInfos, state.selectedImageIndex, Untagged);
            } else if character == '{' {
              found := GetWhere.Prev(state.imageInfos, state.selectedImageIndex, Tagged);
            } else if character == '}' {
              found := GetWhere.Next(state.imageInfos, state.selectedImageIndex, Tagged);
            }
            if found.Some? {
              state.selectedImageIndex := found.value;
            }
          }
        }
      case OtherKeyboardEvent =>
    }
  }

  /** Every step keeps the queue invariant. */
  lemma StepKeepsSelectionValid(s: Screen, event: KeyboardEvent, removal: RemovalOutcome, toggled: set<char>)
    requires ImageQueue.SelectionValid(|s.imageInfos|, s.selectedImageIndex)
    ensures var r := Step(s, event, removal, toggled);
      ImageQueue.SelectionValid(|r.imageInfos|, r.selectedImageIndex)
  {
    if event.KeyPressed? && event.keyCode == Delete {
      ImageQueue.DeleteKeepsSelectionValid(s.imageInfos, s.selectedImageIndex);
    }
  }

  /** Escape opens the menu whatever the keyboard state, and moves nothing in the queue. */
  lemma EscapeOpensMenu(s: Screen, removal: RemovalOutcome, toggled: set<char>)
    requires ImageQueue.SelectionValid(|s.imageInfos|, s.selectedImageIndex)
    ensures Step(s, KeyPressed(Escape), removal, toggled) == s.(appState := AppState.Menu)
  {
  }

  /**
   * In the tagging keyboard state Left and Right step to the neighbouring
   * entry and stay put at either end of the queue.
   */
  lemma ArrowsStepToNeighbour(s: Screen, removal: RemovalOutcome, toggled: set<char>)
    requires ImageQueue.SelectionValid(|s.imageInfos|, s.selectedImageIndex)
    requires s.keyboardState == KeyboardState.Tagging
    ensures var n, i := |s.imageInfos|, s.selectedImageIndex;
      Step(s, KeyPressed(Left), removal, toggled) == s.(selectedImageIndex := if i > 0 then i - 1 else i) &&
      Step(s, KeyPressed(Right), removal, toggled) == s.(selectedImageIndex := if i + 1 < n then i + 1 else i)
  {
    GetWhere.PrevAlwaysIsPredecessor(s.imageInfos, s.selectedImageIndex);
    GetWhere.NextAlwaysIsSuccessor(s.imageInfos, s.selectedImageIndex);
  }

  /**
   * Delete logs exactly one line. The entry goes only when it exists and
   * its file was removed, and then the queue is what the corrected
   * `delete_current` leaves; otherwise the queue is as it was.
   */
  lemma DeleteLogsOnce(s: Screen, removal: RemovalOutcome, toggled: set<char>)
    requires ImageQueue.SelectionValid(|s.imageInfos|, s.selectedImageIndex)
    requires s.keyboardState == KeyboardState.Tagging
    ensures var r := Step(s, KeyPressed(Delete), removal, toggled);
      |r.consoleMessages| == |s.consoleMessages| + 1 &&
      r.consoleMessages[..|s.consoleMessages|] == s.consoleMessages &&
      r.appState == s.appState && r.keyboardState == s.keyboardState &&
      r.tags == s.tags && r.tagInput == s.tagInput && r.organizeMode == s.organizeMode &&
      if s.selectedImageIndex < |s.imageInfos| && removal == Removed then
        (r.imageInfos, r.selectedImageIndex) == ImageQueue.DeleteCurrentFixed(s.imageInfos, s.selectedImageIndex) &&
        |r.imageInfos| == |s.imageInfos| - 1 &&
        r.consoleMessages[|s.consoleMessages|] == "Deleted " + s.imageInfos[s.selectedImageIndex].path + " successfully"
      else
        r.imageInfos == s.imageInfos && r.selectedImageIndex == s.selectedImageIndex &&
        r.consoleMessages[|s.consoleMessages|] ==
          if s.selectedImageIndex < |s.imageInfos|
          then "Error deleting " + s.imageInfos[s.selectedImageIndex].path + " : " + removal.reason
          else "Error getting path of current file"
  {
  }

  /**
   * A letter that is not yet a tag switches the keys over to a new, empty
   * tag-label input for it, and toggles it on the selected entry.
   */
  lemma UnknownLetterOpensTagInput(s: Screen, c: char, removal: RemovalOutcome, toggled: set<char>)
    requires ImageQueue.SelectionValid(|s.imageInfos|, s.selectedImageIndex)
    requires s.appState == AppState.Tagging && s.keyboardState == KeyboardState.Tagging
    requires IsAlphabetic(c) && [c] !in s.tags
    ensures Step(s, CharacterReceived(c), removal, toggled) ==
              ToggleCurrent(s.(keyboardState := KeyboardState.Idle, tagInput := Some(TagInputState("", c))), toggled)
  {
  }

  /**
   * A letter that is already a tag only toggles it on the selected entry:
   * the keys stay with tagging, and no other entry, path or field changes.
   */
  lemma RegisteredLetterOnlyToggles(s: Screen, c: char, removal: RemovalOutcome, toggled: set<char>)
    requires ImageQueue.SelectionValid(|s.imageInfos|, s.selectedImageIndex)
    requires s.appState == AppState.Tagging && s.keyboardState == KeyboardState.Tagging
    requires IsAlphabetic(c) && [c] in s.tags
    ensures var r := Step(s, CharacterReceived(c), removal, toggled);
      r == s.(imageInfos := r.imageInfos) &&
      ImageQueue.Paths(r.imageInfos) == ImageQueue.Paths(s.imageInfos) &&
      (forall k :: 0 <= k < |s.imageInfos| && k != s.selectedImageIndex ==> r.imageInfos[k] == s.imageInfos[k]) &&
      (s.selectedImageIndex < |s.imageInfos| ==> r.imageInfos[s.selectedImageIndex].tags == toggled)
  {
  }

  /**
   * `[` and `]` jump to the nearest untagged entry before and after the
   * selection, `{` and `}` to the nearest tagged one; each stays put when
   * there is none.
   */
  lemma BracketsJumpToNearest(s: Screen, removal: RemovalOutcome, toggled: set<char>)
    requires ImageQueue.SelectionValid(|s.imageInfos|, s.selectedImageIndex)
    requires s.appState == AppState.Tagging && s.keyboardState == KeyboardState.Tagging
    ensures var i, j := s.selectedImageIndex, Step(s, CharacterReceived('['), removal, toggled).selectedImageIndex;
      (j < i && s.imageInfos[j].tags == {} && forall k :: j < k < i ==> s.imageInfos[k].tags != {}) ||
      (j == i && forall k :: 0 <= k < i ==> s.imageInfos[k].tags != {})
    ensures var i, j := s.selectedImageIndex, Step(s, CharacterReceived(']'), removal, toggled).selectedImageIndex;
      (i < j < |s.imageInfos| && s.imageInfos[j].tags == {} && forall k :: i < k < j ==> s.imageInfos[k].tags != {}) ||
      (j == i && forall k :: i < k < |s.imageInfos| ==> s.imageInfos[k].tags != {})
    ensures var i, j := s.selectedImageIndex, Step(s, CharacterReceived('{'), removal, toggled).selectedImageIndex;
      (j < i && s.imageInfos[j].tags != {} && forall k :: j < k < i ==> s.imageInfos[k].tags == {}) ||
      (j == i && forall k :: 0 <= k < i ==> s.imageInfos[k].tags == {})
    ensures var i, j := s.selectedImageIndex, Step(s, CharacterReceived('}'), removal, toggled).selectedImageIndex;
      (i < j < |s.imageInfos| && s.imageInfos[j].tags != {} && forall k :: i < k < j ==> s.imageInfos[k].tags == {}) ||
      (j == i && forall k :: i < k < |s.imageInfos| ==> s.imageInfos[k].tags == {})
  {
    BracketJump(s, '[', removal, toggled);
    BracketJump(s, ']', removal, toggled);
    BracketJump(s, '{', removal, toggled);
    BracketJump(s, '}', removal, toggled);
  }

  /**
   * One bracket: `[` and `{` search backward, `]` and `}` forward; `[` and
   * `]` look for an untagged entry, `{` and `}` for a tagged one.
   */
  lemma BracketJump(s: Screen, c: char, removal: RemovalOutcome, toggled: set<char>)
    requires ImageQueue.SelectionValid(|s.imageInfos|, s.selectedImageIndex)
    requires s.appState == AppState.Tagging && s.keyboardState == KeyboardState.Tagging
    requires c in "[]{}"
    ensures var i, j := s.selectedImageIndex, Step(s, CharacterReceived(c), removal, toggled).selectedImageIndex;
      var p := if c in "[]" then Untagged else Tagged;
      if c in "]}" then
        (i < j < |s.imageInfos| && p(s.imageInfos[j]) && forall k :: i < k < j ==> !p(s.imageInfos[k])) ||
        (j == i && forall k :: i < k < |s.imageInfos| ==> !p(s.imageInfos[k]))
      else
        (j < i && p(s.imageInfos[j]) && forall k :: j < k < i ==> !p(s.imageInfos[k])) ||
        (j == i && forall k :: 0 <= k < i ==> !p(s.imageInfos[k]))
  {
  }

  /** Characters do nothing outside the tagging screen or while the tag-label input has the keys. */
  lemma CharactersIgnoredOutsideTagging(s: Screen, c: char, removal: RemovalOutcome, toggled: set<char>)
    requires ImageQueue.SelectionValid(|s.imageInfos|, s.selectedImageIndex)
    requires s.appState == AppState.Menu || s.keyboardState == KeyboardState.Idle
    ensures Step(s, CharacterReceived(c), removal, toggled) == s
  {
  }

  /** While the tag-label input has the keys, only Escape has an effect. */
  lemma IdleKeysOnlyEscape(s: Screen, key: KeyCode, removal: RemovalOutcome, toggled: set<char>)
    requires ImageQueue.SelectionValid(|s.imageInfos|, s.selectedImageIndex)
    requires s.keyboardState == KeyboardState.Idle
    ensures Step(s, KeyPressed(key), removal, toggled) == if key == Escape then s.(appState := AppState.Menu) else s
  {
  }
}
