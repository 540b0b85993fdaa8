/**
 * The application state of the later revision, as its keyboard handlers
 * (`MainView` and `MenuView`) see it: which screen is shown, whether
 * keystrokes tag images or feed the tag-label input, the organize mode,
 * the console log, the tag registry, the tag-label input pane and the
 * image queue pane.
 */
module AppModel {
  import opened Wrappers
  import opened OrganizeModes
  import ImageQueue

  /** The screen shown: the menu or the tagging view. */
  datatype AppState = Tagging | Menu

  /**
   * Whether keystrokes tag and navigate (`Tagging`) or are left to the
   * tag-label input (`Idle`, the source's `KeyboardState::None`).
   */
  datatype KeyboardState = Tagging | Idle

  /** The contents of the tag-label input pane: the text typed so far and the tag character it names. */
  datatype TagInputState = TagInputState(tagInputValue: string, tag: char)

  /** Everything the keyboard handlers read or change, as one value. */
  datatype Screen = Screen(
    appState: AppState,
    keyboardState: KeyboardState,
    organizeMode: OrganizeMode,
    consoleMessages: seq<string>,
    tags: map<string, string>,
    tagInput: Option<TagInputState>,
    imageInfos: seq<ImageQueue.ImageInfo>,
    selectedImageIndex: nat)

  /**
   * The effect of `toggle_tag_on_current_image`, whose body is not modelled:
   * the selected entry, if there is one, gets the tag set `toggled` (what
   * the call leaves it with); nothing else changes.
   */
  function ToggleCurrent(s: Screen, toggled: set<char>): (r: Screen)
    ensures |r.imageInfos| == |s.imageInfos| && ImageQueue.Paths(r.imageInfos) == ImageQueue.Paths(s.imageInfos)
    ensures forall k :: 0 <= k < |s.imageInfos| && k != s.selectedImageIndex ==> r.imageInfos[k] == s.imageInfos[k]
    ensures s.selectedImageIndex < |s.imageInfos| ==> r.imageInfos[s.selectedImageIndex].tags == toggled
    ensures s.selectedImageIndex >= |s.imageInfos| ==> r.imageInfos == s.imageInfos
    ensures r == s.(imageInfos := r.imageInfos)
  {
    var i := s.selectedImageIndex;
    if i < |s.imageInfos| then
      var infos := s.imageInfos[i := s.imageInfos[i].(tags := toggled)];
      assert forall k :: 0 <= k < |infos| ==> ImageQueue.Paths(infos)[k] == ImageQueue.Paths(s.imageInfos)[k];
      s.(imageInfos := infos)
    else s
  }

  class App {
    var appState: AppState
    var keyboardState: KeyboardState
    var organizeMode: OrganizeMode
    var consoleMessages: seq<string>
    /** The tag registry of the side panel: tag character (as a string) to label. */
    var tags: map<string, string>
    var tagInput: Option<TagInputState>
    /** The image queue pane; the panes themselves are never replaced. */
    const imageQueue: ImageQueue.ImageQueueState

    ghost predicate Valid()
      reads this, imageQueue
    {
      imageQueue.Valid()
    }

    ghost function Snapshot(): Screen
      reads this, imageQueue
    {
      Screen(appState, keyboardState, organizeMode, consoleMessages, tags, tagInput,
             imageQueue.imageInfos, imageQueue.selectedImageIndex)
    }

    /** An application in the tagging screen over the given queue, with nothing logged and no tags. */
    constructor (queue: ImageQueue.ImageQueueState, mode: OrganizeMode)
      requires queue.Valid()
      ensures Valid() && imageQueue == queue
      ensures Snapshot() == Screen(AppState.Tagging, KeyboardState.Tagging, mode, [], map[], None,
                                   old(queue.imageInfos), old(queue.selectedImageIndex))
    {
      appState := AppState.Tagging;
      keyboardState := KeyboardState.Tagging;
      organizeMode := mode;
      consoleMessages := [];
      tags := map[];
      tagInput := None;
      imageQueue := queue;
    }

    /** `toggle_tag_on_current_image`, with the selected entry's resulting tag set given. */
    method ToggleTagOnCurrentImage(toggled: set<char>)
      modifies imageQueue
      ensures Snapshot() == ToggleCurrent(old(Snapshot()), toggled)
    {
      var i := imageQueue.selectedImageIndex;
      if i < |imageQueue.imageInfos| {
        imageQueue.imageInfos := imageQueue.imageInfos[i := imageQueue.imageInfos[i].(tags := toggled)];
      }
    }

    /** `log`: append one line to the console list the menu shows. */
    method Log(message: string)
      modifies this
      ensures Snapshot() == old(Snapshot()).(consoleMessages := old(consoleMessages) + [message])
    {
      consoleMessages := consoleMessages + [message];
    }
  }
}
