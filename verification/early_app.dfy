/**
 * The application of the earlier revision: a tag side panel, the image
 * queue, the image display and, while a tag is being created, a tag-label
 * input pane. Keys move the selection or start a new tag; submitting the
 * input registers the tag.
 */
module EarlyApp {
  import opened Wrappers
  import opened Keyboard
  import GetWhere
  import PathQueue

  /** Whether keystrokes tag and navigate, or a tag label is being typed. */
  datatype KeyboardState = Tagging | CreatingTag

  /** The contents of the tag-label input pane: the text typed so far and the tag character it names. */
  datatype TagInputState = TagInputState(tagInputValue: string, tag: char)

  /** The toolkit events the application subscribes to. */
  datatype Event = Keyboard(keyboardEvent: KeyboardEvent) | OtherEvent

  /** The messages `update` handles; `Resized` only resizes panes. */
  datatype Message =
    | EventOccurred(event: Event)
    | TextInputChanged(text: string)
    | TextInputSubmitted
    | Resized

  /** Everything `update` reads or changes, as one value. */
  datatype AppSnapshot = AppSnapshot(
    keyboardState: KeyboardState,
    imagePaths: seq<string>,
    selectedImageIndex: nat,
    tags: map<string, string>,
    tagInput: Option<TagInputState>,
    currentImagePath: string)

  function Min(a: int, b: int): int {
    if a < b then a else b
  }

  /** The state after `handle_keyboard_event`. */
  function KeyboardStep(s: AppSnapshot, event: KeyboardEvent): (r: AppSnapshot)
    requires s.selectedImageIndex < |s.imagePaths|
    ensures r.imagePaths == s.imagePaths && r.selectedImageIndex < |r.imagePaths|
  {
    match s.keyboardState
    case Tagging =>
      (match event
       case KeyPressed(Left) =>
         s.(selectedImageIndex := if s.selectedImageIndex == 0 then 0 else s.selectedImageIndex - 1)
       case KeyPressed(Right) =>
         s.(selectedImageIndex := Min(|s.imagePaths| - 1, s.selectedImageIndex + 1))
       case CharacterReceived(c) =>
         if IsAlphabetic(c) && [c] !in s.tags then
           s.(keyboardState := CreatingTag, tagInput := Some(TagInputState("", c)))
         else s
       case _ => s)
    case CreatingTag => s
  }

  /** The state after `update`, which ends by showing the selected image. */
  function UpdateStep(s: AppSnapshot, message: Message): (r: AppSnapshot)
    requires s.selectedImageIndex < |s.imagePaths|
    ensures r.imagePaths == s.imagePaths && r.selectedImageIndex < |r.imagePaths|
  {
    var s1 :=
      match message
      case EventOccurred(Keyboard(event)) => KeyboardStep(s, event)
      case EventOccurred(OtherEvent) => s
      case Resized => s
      case TextInputChanged(text) =>
        if s.tagInput.Some? then s.(tagInput := Some(s.tagInput.value.(tagInputValue := text))) else s
      case TextInputSubmitted =>
        var tag := if s.tagInput.Some? then [s.tagInput.value.tag] else "Error getting tag";
        var value := if s.tagInput.Some? then s.tagInput.value.tagInputValue else "Error getting submitted value";
        s.(tags := s.tags[tag := value], keyboardState := Tagging, tagInput := None);
    s1.(currentImagePath := s1.imagePaths[s1.selectedImageIndex])
  }

  class App {
    var keyboardState: KeyboardState
    /** The tag registry of the side panel: tag character (as a string) to label. */
    var tags: map<string, string>
    var tagInput: Option<TagInputState>
    /** The path the image display pane shows. */
    var currentImagePath: string
    /** The image queue pane; the panes themselves are never replaced. */
    const imageQueue: PathQueue.ImageQueueState

    /** The selection names a path: every `update` ends by reading the selected path. */
    ghost predicate Valid()
      reads this, imageQueue
    {
      imageQueue.selectedImageIndex < |imageQueue.imagePaths|
    }

    ghost function Snapshot(): AppSnapshot
      reads this, imageQueue
    {
      AppSnapshot(keyboardState, imageQueue.imagePaths, imageQueue.selectedImageIndex,
                  tags, tagInput, currentImagePath)
    }

    /** `App::new`: no tags, no tag-label input, nothing displayed yet, keys in the tagging state. */
    constructor (queue: PathQueue.ImageQueueState)
      ensures imageQueue == queue
      ensures Snapshot() == AppSnapshot(Tagging, old(queue.imagePaths), old(queue.selectedImageIndex), map[], None, "")
    {
      keyboardState := Tagging;
      tags := map[];
      tagInput := None;
      currentImagePath := "";
      imageQueue := queue;
    }

    /** `does_tag_exist`: whether `key` names a registered tag. */
    function DoesTagExist(key: string): bool
      reads this
    {
      key in tags
    }

    /** `get_current_image_path`: the selected path. */
    function GetCurrentImagePath(): string
      reads this, imageQueue
      requires Valid()
    {
      imageQueue.imagePaths[imageQueue.selectedImageIndex]
    }

    /**
     * `handle_keyboard_event`. A typed character opens the tag-label input
     * exactly when it is a letter the registry does not yet hold.
     */
    method HandleKeyboardEvent(event: KeyboardEvent)
      requires Valid()
      modifies this, imageQueue
      ensures Valid()
      ensures Snapshot() == KeyboardStep(old(Snapshot()), event)
      ensures event.CharacterReceived? && old(keyboardState) == Tagging ==>
                (keyboardState == CreatingTag <==>
                   IsAlphabetic(event.character) && !old(DoesTagExist([event.character])))
    {
      var state := imageQueue;
      match keyboardState {
        case Tagging =>
          match event {
            case KeyPressed(keyCode) =>
              match keyCode {
                case Left =>
                  if state.selectedImageIndex == 0 {
                    state.selectedImageIndex := 0;
                  } else {
                    state.selectedImageIndex := state.selectedImageIndex - 1;
                  }
                case Right =>
                  state.selectedImageIndex := Min(|state.imagePaths| - 1, state.selectedImageIndex + 1);
                case _ =>
              }
            case CharacterReceived(character) =>
              if IsAlphabetic(character) && !DoesTagExist([character]) {
                keyboardState := CreatingTag;
                tagInput := Some(TagInputState("", character));
              }
            case OtherKeyboardEvent =>
          }
        case CreatingTag =>
      }
    }

    /** `load_current_image`: show the selected path in the image display. */
    method LoadCurrentImage()
      requires Valid()
      modifies this
      ensures currentImagePath == imageQueue.imagePaths[imageQueue.selectedImageIndex]
      ensures currentImagePath in imageQueue.imagePaths
      ensures Snapshot() == old(Snapshot()).(currentImagePath := currentImagePath)
    {
      currentImagePath := GetCurrentImagePath();
    }

    /** `update`: handle one message, then show the selected image. */
    method Update(message: Message)
      requires Valid()
      modifies this, imageQueue
      ensures Valid()
      ensures Snapshot() == UpdateStep(old(Snapshot()), message)
    {
      match message {
        case EventOccurred(event) =>
          match event {
            case Keyboard(keyboardEvent) =>
              HandleKeyboardEvent(keyboardEvent);
            case OtherEvent =>
          }
        case Resized =>
        case TextInputChanged(text) =>
          match tagInput {
            case Some(input) =>
              tagInput := Some(input.(tagInputValue := text));
            case None =>
          }
        case TextInputSubmitted =>
          var submittedValue := "Error getting submitted value";
          var submittedTag := "Error getting tag";
          match tagInput {
            case Some(input) =>
              submittedValue := input.tagInputValue;
              submittedTag := [input.tag];
              tagInput := Some(input.(tagInputValue := ""));
            case None =>
          }
          tags := tags[submittedTag := submittedValue];
          keyboardState := Tagging;
          tagInput := None;
      }
      LoadCurrentImage();
    }
  }

  /** Left steps back one entry and stays at the first. */
  lemma LeftSaturates(s: AppSnapshot)
    requires s.selectedImageIndex < |s.imagePaths| && s.keyboardState == Tagging
    ensures var r := KeyboardStep(s, KeyPressed(Left));
      r == s.(selectedImageIndex := r.selectedImageIndex) &&
      (s.selectedImageIndex > 0 ==> r.selectedImageIndex + 1 == s.selectedImageIndex) &&
      (s.selectedImageIndex == 0 ==> r.selectedImageIndex == 0)
  {
  }

  /** Right steps forward one entry and stays at the last. */
  lemma RightClamps(s: AppSnapshot)
    requires s.selectedImageIndex < |s.imagePaths| && s.keyboardState == Tagging
    ensures var r := KeyboardStep(s, KeyPressed(Right));
      r == s.(selectedImageIndex := r.selectedImageIndex) &&
      (s.selectedImageIndex + 1 < |s.imagePaths| ==> r.selectedImageIndex == s.selectedImageIndex + 1) &&
      (s.selectedImageIndex + 1 == |s.imagePaths| ==> r.selectedImageIndex == s.selectedImageIndex)
  {
  }

  /**
   * A letter that is not yet a tag starts a new tag with an empty label;
   * any other character leaves the state as it was.
   */
  lemma CharacterStartsNewTag(s: AppSnapshot, c: char)
    requires s.selectedImageIndex < |s.imagePaths| && s.keyboardState == Tagging
    ensures KeyboardStep(s, CharacterReceived(c)) ==
              if IsAlphabetic(c) && [c] !in s.tags
              then s.(keyboardState := CreatingTag, tagInput := Some(TagInputState("", c)))
              else s
  {
  }

  /** While a tag is being created, keyboard events change nothing. */
  lemma CreatingTagIgnoresKeys(s: AppSnapshot, event: KeyboardEvent)
    requires s.selectedImageIndex < |s.imagePaths| && s.keyboardState == CreatingTag
    ensures KeyboardStep(s, event) == s
  {
  }

  /** Typing into the input sets its text when the input pane exists, and does nothing otherwise. */
  lemma TextInputChangedSetsValue(s: AppSnapshot, text: string)
    requires s.selectedImageIndex < |s.imagePaths|
    ensures var r := UpdateStep(s, TextInputChanged(text));
      r.tags == s.tags && r.keyboardState == s.keyboardState &&
      r.selectedImageIndex == s.selectedImageIndex &&
      (s.tagInput.Some? ==> r.tagInput == Some(TagInputState(text, s.tagInput.value.tag))) &&
      (s.tagInput.None? ==> r.tagInput == None)
  {
  }

  /**
   * Submitting the input registers its tag with the typed label, replacing
   * an earlier label of that tag and keeping every other tag, closes the
   * input and hands the keys back to tagging.
   */
  lemma SubmitRegistersTag(s: AppSnapshot, input: TagInputState)
    requires s.selectedImageIndex < |s.imagePaths| && s.tagInput == Some(input)
    ensures var r := UpdateStep(s, TextInputSubmitted);
      [input.tag] in r.tags && r.tags[[input.tag]] == input.tagInputValue &&
      r.tags.Keys == s.tags.Keys + {[input.tag]} &&
      (forall k :: k in s.tags && k != [input.tag] ==> r.tags[k] == s.tags[k]) &&
      r.keyboardState == Tagging && r.tagInput == None &&
      r.selectedImageIndex == s.selectedImageIndex
  {
  }

  /** Every message ends with the display showing the selected path. */
  lemma UpdateShowsSelectedImage(s: AppSnapshot, message: Message)
    requires s.selectedImageIndex < |s.imagePaths|
    ensures var r := UpdateStep(s, message);
      r.currentImagePath == r.imagePaths[r.selectedImageIndex] && r.currentImagePath in s.imagePaths
  {
  }

  /**
   * The later revision's arrow keys, built on `prev` and `next` with the
   * always-true predicate, move the selection exactly as this revision's
   * saturating decrement and clamped increment do.
   */
  lemma ArrowsAgreeAcrossRevisions<T>(v: seq<T>, i: nat)
    requires i < |v|
    ensures GetWhere.PrevMatch(v, i, GetWhere.Always).GetOr(i) == if i == 0 then 0 else i - 1
    ensures GetWhere.NextMatch(v, i, GetWhere.Always).GetOr(i) == Min(|v| - 1, i + 1)
  {
    GetWhere.PrevAlwaysIsPredecessor(v, i);
    GetWhere.NextAlwaysIsSuccessor(v, i);
  }
}
