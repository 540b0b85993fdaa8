# image_organizer — verified model of the queue and keyboard logic

image_organizer is a desktop tool for tagging images. The user browses a directory of images in a queue panel and gives each image single-character tags. Each tag character is mapped to a label in a side panel. A menu screen selects how tagged images are later organised into per-label folders (copy, move or symbolic link). This project models the sequential core of that program in Dafny:

- `GetWhere` (`get_where.dfy`) holds the vector searches `prev` and `next`. Each is a loop method, specified by a pure function for the nearest matching index below or above a position.
- `PathOrder` (`path_order.dfy`) holds the order that `sort_unstable` gives the directory listing. That order is lexicographic on characters. The module proves it a total order, and proves that the sort yields the unique sorted permutation.
- `OrganizeModes` (`organize_mode.dfy`) holds the `MODES` table and the rotation `next`: Copy → Move → Link → Copy.
- `ImageQueue` (`image_queue.dfy`) is the later revision's queue. It is a class holding the tagged entries and the selected index. It has:
  - construction from a directory listing;
  - `delete_current`, with its index underflow corrected (see Findings);
  - the window of entries that `view` draws.
- `PathQueue` (`path_queue.dfy`) is the earlier revision's queue of plain paths. It uses the same window arithmetic.
- `Keyboard` (`keyboard.dfy`) defines the key and character events the handlers receive.
- `AppModel`, `MainView` and `MenuView` (`app_model.dfy`, `main_view.dfy`, `menu_view.dfy`) cover the later revision:
  - `AppModel` is the application state as one class.
  - `MainView` and `MenuView` are the two keyboard handlers. Each is tied to a pure step function over a snapshot of that state.
- `EarlyApp` (`early_app.dfy`) is the earlier revision's application in `src/app.rs`. It covers the keyboard state machine Tagging ⇄ CreatingTag, the tag-label input, and tag registration.

Each handler is a method whose postcondition equates the new state with a step function applied to the old state. The properties of the handlers are lemmas about those step functions.

Filesystem outcomes are parameters:
- The directory listing comes in as `Option<seq<string>>`. `None` stands for a directory that could not be read.
- The result of `fs::remove_file` comes in as a `RemovalOutcome`.

Pane splitting, resizing and closing have no visible semantics, so the model leaves them out. A pane's contents are a typed field instead.

Behaviour of the code worth noting:
- Tag keys are strings (`char::to_string`), not characters.
- The file is deleted by the main view's Delete handler; `delete_current` only updates the queue.
- Escape switches screens through two handlers: the main view always sets the menu screen, and the menu view always sets the tagging screen.
- Submitting the tag input with no input pane open registers the placeholder pair ("Error getting tag", "Error getting submitted value").

The later revision's `App` struct, `App::log` and `does_tag_exist` are not modelled from their code; their bodies are outside the modelled files `src/lib_ext/vec.rs`, `src/models/image_queue.rs`, `src/app/states/image_queue.rs`, `src/states/organize_mode.rs`, `src/views/main_view.rs`, `src/views/menu_view.rs` and `src/app.rs`. `log` is modelled as appending one line to `console_messages`, the list the menu shows and `C` clears. The tag test is modelled as key membership in the tag map, as in the earlier revision's `does_tag_exist`.

## Model

| member | source | states |
|---|---|---|
| `GetWhere.PrevMatch` | src/lib_ext/vec.rs:7-18 | A result `Some(j)` has `j < i`, `v[j]` matching, and no match strictly between `j` and `i`. The result is `None` exactly when no index below `i` matches. |
| `GetWhere.FirstFrom` | src/lib_ext/vec.rs:25-30 | A result `Some(j)` is the first matching index at or after `k`. The result is `None` exactly when nothing from `k` on matches. |
| `GetWhere.NextMatch` | src/lib_ext/vec.rs:20-33 | A result `Some(j)` has `i < j < len`, `v[j]` matching, and no match strictly between `i` and `j`. The result is `None` exactly when no index above `i` matches. |
| `GetWhere.Prev` | src/lib_ext/vec.rs:7-18 | The backward loop with `break` returns the nearest match below `i`, and `None` when `i == 0`. It requires `i <= len`, because `self[index]` panics otherwise. |
| `GetWhere.Next` | src/lib_ext/vec.rs:20-33 | The forward loop returns the nearest match above `i`. It returns `None` when `i + 1 >= len`, and never returns `i` itself. |
| `GetWhere.PrevAlwaysIsPredecessor` | src/lib_ext/vec.rs:7-18 | With the always-true predicate, `prev(i)` is `Some(i-1)` exactly when `i > 0`. |
| `GetWhere.NextAlwaysIsSuccessor` | src/lib_ext/vec.rs:20-33 | With the always-true predicate, `next(i)` is `Some(i+1)` exactly when `i + 1 < len`. |
| `GetWhere.NextThenPrevReturns` | src/lib_ext/vec.rs:7-33 | From a matching index, `next` and then `prev` with the same predicate return to the start. |
| `GetWhere.PrevThenNextReturns` | src/lib_ext/vec.rs:7-33 | From a matching index, `prev` and then `next` with the same predicate return to the start. |
| `PathOrder.LessEqReflexive` | src/models/image_queue.rs:25 | The order of `String` is reflexive. |
| `PathOrder.LessEqTotal` | src/models/image_queue.rs:25 | The order of `String` is total: any two paths are comparable. |
| `PathOrder.LessEqAntisymmetric` | src/models/image_queue.rs:25 | Two paths that each sort no later than the other are equal. |
| `PathOrder.LessEqTransitive` | src/models/image_queue.rs:25 | The order of `String` is transitive. |
| `PathOrder.SortedPairwise` | src/models/image_queue.rs:25 | In a sorted listing, every earlier path sorts no later than every later one. |
| `PathOrder.Insert` | src/models/image_queue.rs:25 | Inserting into a sorted listing keeps it sorted, adds exactly the new path to the multiset, and puts the new path or the old first path at the front. |
| `PathOrder.SortUnstable` | src/app/states/image_queue.rs:16-17 | `sort_unstable` returns a sorted permutation of the listing, with the same length and the same paths. |
| `PathOrder.SortedPermutationUnique` | src/models/image_queue.rs:25 | Two sorted permutations of one listing are equal, so the unstable sort of strings is deterministic. |
| `OrganizeModes.Position` | src/states/organize_mode.rs:13 | `position` returns the first index of `MODES` that holds the mode. It returns `None` only for a mode missing from the table. |
| `OrganizeModes.Next` | src/states/organize_mode.rs:12-18 | The table lookup, the increment and the wrap after index 2 give the rotation Copy→Move→Link→Copy. The result always differs from the input. |
| `OrganizeModes.EveryModeListedOnce` | src/states/organize_mode.rs:10 | Every variant is in `MODES`, and no variant is listed twice. So the `if let` in `next` always finds the mode. |
| `OrganizeModes.Successor` | src/states/organize_mode.rs:10-17 | The rotation is the `MODES` table read cyclically: the successor of the mode at index `i` is the entry at `(i + 1) % 3`. It never equals the mode itself. |
| `OrganizeModes.SuccessorCycle` | src/states/organize_mode.rs:10-17 | Three applications of `next` return to the starting mode, and the three modes visited are distinct. |
| `ImageQueue.Window` | src/models/image_queue.rs:52-53 | The window always ends within the queue. It starts no later than it ends whenever the queue invariant holds. It contains the selection when the selection is in range, with at most two entries before it and nine after. It spans at most 12 entries. |
| `ImageQueue.RemoveAt` | src/models/image_queue.rs:42 | `Vec::remove` drops exactly the element at the index. The others keep their order. |
| `ImageQueue.UsizeSub` | src/models/image_queue.rs:44 | Checked `usize` subtraction is defined exactly when it does not underflow, and then it inverts addition. |
| `ImageQueue.DeleteCurrentAsWritten` | src/models/image_queue.rs:40-47 | `delete_current` as written: an out-of-range selection changes nothing, and an in-range one removes exactly that entry. It fails (the `usize` underflow) only at index 0 of a one-entry queue. |
| `ImageQueue.DeleteOnlyEntryUnderflows` | src/models/image_queue.rs:43-44 | Deleting the only entry at index 0 underflows `selected_image_index - 1`, exactly as written. |
| `ImageQueue.DeleteCurrentFixed` | src/models/image_queue.rs:41 | A selection out of range leaves entries and index unchanged. |
| `ImageQueue.DeleteAsWrittenUnderflowsExactly` | src/models/image_queue.rs:40-47 | The written deletion underflows exactly for a one-entry queue at index 0. Everywhere else it agrees with the corrected one. |
| `ImageQueue.DeleteRemovesSelected` | src/models/image_queue.rs:41-42 | Deleting a selected entry removes exactly that entry. The length drops by one, the others keep their relative order, and the multiset loses only the selected entry. |
| `ImageQueue.DeleteMovesSelection` | src/models/image_queue.rs:43-45 | After deleting a non-last entry, the index is unchanged and names the former successor. After deleting the last of two or more entries, it names the new last entry. Deleting the only entry leaves an empty queue at index 0. |
| `ImageQueue.DeleteKeepsSelectionValid` | src/models/image_queue.rs:40-47 | Deletion keeps the invariant "index is 0 or in range". A non-empty queue keeps an in-range selection. |
| `ImageQueue.LessEqDropCommonHead` | src/models/image_queue.rs:25-32 | Removing a shared first character keeps the order of two paths. |
| `ImageQueue.StripPrefixKeepsSorted` | src/models/image_queue.rs:32 | Dropping the common `"./"` prefix keeps a sorted listing sorted. |
| `ImageQueue.NewEntries` | src/models/image_queue.rs:29-36 | The map/collect builds one untagged entry per listed path, whose path is the listed one without its first two characters. |
| `ImageQueue.NewQueueSortedAndUntagged` | src/models/image_queue.rs:22-38 | A new queue over `"./"`-prefixed paths holds as many entries as the listing, in ascending path order. Every entry is untagged, each path with `"./"` put back is in the listing, and each listed path with `"./"` dropped is a queue path. |
| `ImageQueue.ImageQueueState.constructor` | src/models/image_queue.rs:22-38 | `new` selects index 0 and builds its entries from the sorted listing. An unreadable directory gives an empty queue. |
| `ImageQueue.ImageQueueState.DeleteCurrent` | src/models/image_queue.rs:40-47 | In-place removal gives the corrected deletion's entries and index, and keeps the queue invariant. |
| `ImageQueue.ImageQueueState.ViewRow` | src/models/image_queue.rs:52-66 | The drawn row holds the window's entries in order. An item is highlighted exactly when its running index equals the selection, so exactly one item is highlighted when the selection is in range. |
| `PathQueue.ImageQueueState.constructor` | src/app/states/image_queue.rs:15-23 | `new` selects index 0 and holds the listing sorted ascending. An unreadable directory gives an empty queue. |
| `PathQueue.ImageQueueState.ViewRow` | src/app/states/image_queue.rs:28-42 | The drawn row holds the window's paths in order. It has at most 12 entries, and exactly the item whose running index equals the selection is highlighted. |
| `AppModel.ToggleCurrent` | src/views/main_view.rs:117 | The tag toggle keeps the paths, their order and every unselected entry. It gives the selected entry, if any, the resulting tag set, and changes no other field. |
| `AppModel.App.ToggleTagOnCurrentImage` | src/views/main_view.rs:117 | The in-place toggle leaves the application in the state `AppModel.ToggleCurrent` describes. |
| `AppModel.App.Log` | src/views/main_view.rs:82-89 | Logging appends exactly one line to the console and changes nothing else. |
| `MainView.DeleteStep` | src/views/main_view.rs:64-91 | Delete appends exactly one log line and keeps the screen, keyboard state, organize mode, tags and tag input. A failed removal leaves the queue unchanged. |
| `MainView.CharacterStep` | src/views/main_view.rs:100-151 | A typed character never changes the paths or their order, the console, the screen, the organize mode or the tag registry. A letter never moves the selection, and changes only the selected entry's tags, to the toggle's result. Any other character leaves the entries, keyboard state and tag input alone. A moved selection names an entry. |
| `MainView.Step` | src/views/main_view.rs:40-161 | A key event in the main view never changes the organize mode or the tag registry. It changes the screen only on Escape (to the menu) and logs at most one line. It changes the paths only on Delete after a successful removal. Apart from that, the entries change only by a letter's tag toggle. |
| `MainView.HandleKeyboard` | src/views/main_view.rs:40-161 | The main view's key handling, with the removal outcome and the toggle's result given, gives the state of `MainView.Step` and keeps the queue invariant. |
| `MainView.StepKeepsSelectionValid` | src/views/main_view.rs:40-161 | No event in the tagging screen breaks the queue invariant. |
| `MainView.EscapeOpensMenu` | src/views/main_view.rs:43-46 | Escape sets the menu screen whatever the keyboard state, and changes nothing else. |
| `MainView.ArrowsStepToNeighbour` | src/views/main_view.rs:50-63 | In the tagging keyboard state, Left moves to the previous entry and Right to the next. Each leaves the index unchanged at the end of the queue. |
| `MainView.DeleteLogsOnce` | src/views/main_view.rs:64-91 | Delete appends exactly one log line and changes nothing outside the queue and the console. A successful removal of an in-range entry gives the entries and index of the corrected `delete_current` and logs "Deleted … successfully". A failed removal leaves the queue unchanged and logs "Error deleting <path> : <reason>"; a missing entry leaves it unchanged and logs "Error getting path of current file". |
| `MainView.UnknownLetterOpensTagInput` | src/views/main_view.rs:101-117 | In the tagging screen and tagging keyboard state, a letter that is not a tag key switches the keyboard state to `None` and opens an empty tag-label input for that letter. It also applies the tag toggle to the selected entry, and nothing else changes. |
| `MainView.RegisteredLetterOnlyToggles` | src/views/main_view.rs:101-117 | A letter that already names a tag keeps the keys with tagging and opens no input. It changes only the selected entry's tags, to the toggle's result. The paths and every other entry stay as they were. |
| `MainView.BracketsJumpToNearest` | src/views/main_view.rs:119-148 | `[` and `]` move to the nearest untagged entry before and after the selection, `{` and `}` to the nearest tagged entry before and after it. Each stays put when no such entry exists. |
| `MainView.CharactersIgnoredOutsideTagging` | src/views/main_view.rs:96-157 | Characters change nothing when the keyboard state is `None` or the screen is the menu. |
| `MainView.IdleKeysOnlyEscape` | src/views/main_view.rs:43-48 | In the keyboard state `None`, a key press has an effect only if it is Escape. |
| `MenuView.MenuStep` | src/views/menu_view.rs:9-37 | The menu never changes the queue, the selection, the keyboard state, the tag registry or the tag input. It changes the screen only on Escape. Q and R leave the state unchanged and report their outcome. |
| `MenuView.HandleKeyboard` | src/views/menu_view.rs:9-37 | The menu's key handling gives the state and outcome of `MenuView.MenuStep`. |
| `MenuView.EscapeReturnsToTagging` | src/views/menu_view.rs:13-15 | Escape sets the tagging screen and changes nothing else. |
| `MenuView.OAdvancesOrganizeMode` | src/views/menu_view.rs:20-22 | O changes only the organize mode, to a different one. Three presses restore the whole state. |
| `MenuView.CClearsConsole` | src/views/menu_view.rs:29-31 | C empties the console and changes nothing else. |
| `MenuView.QAbortsAndRRequestsOrganize` | src/views/menu_view.rs:16-28 | Q ends in the deliberate abort with the state unchanged. R hands over to the organize batch with the state unchanged. |
| `MenuView.OtherEventsChangeNothing` | src/views/menu_view.rs:32-35 | Other keys, characters and other keyboard events change nothing. |
| `EarlyApp.KeyboardStep` | src/app.rs:44-97 | Keyboard handling never changes the paths, and keeps the selection in range. |
| `EarlyApp.UpdateStep` | src/app.rs:196-248 | `update` never changes the paths, and keeps the selection in range. |
| `EarlyApp.App.constructor` | src/app.rs:145-194 | The app starts in the tagging keyboard state, with no tags, no tag input and an empty displayed path. |
| `EarlyApp.App.HandleKeyboardEvent` | src/app.rs:44-97 | Keyboard handling gives the state of `KeyboardStep` and keeps the selection in range. In the tagging state a typed character enters CreatingTag exactly when it is a letter for which `does_tag_exist` (src/app.rs:127-137) was false. |
| `EarlyApp.App.LoadCurrentImage` | src/app.rs:106-125 | Through `get_current_image_path`, the display shows the selected path, which is one of the queue's paths, and nothing else changes. |
| `EarlyApp.App.Update` | src/app.rs:196-248 | `update` gives the state of `UpdateStep` and keeps the selection in range. |
| `EarlyApp.LeftSaturates` | src/app.rs:52-57 | Left decrements the index and saturates at 0. Nothing else changes. |
| `EarlyApp.RightClamps` | src/app.rs:59-62 | Right increments the index and stays at the last entry. Nothing else changes. |
| `EarlyApp.CharacterStartsNewTag` | src/app.rs:68-91 | In the tagging state, a letter that is not a tag key moves to CreatingTag with an empty input for that letter. Any other character changes nothing. |
| `EarlyApp.CreatingTagIgnoresKeys` | src/app.rs:95 | In the CreatingTag state, keyboard events change nothing. |
| `EarlyApp.TextInputChangedSetsValue` | src/app.rs:204-215 | Typing sets the input's text when the input pane exists, and does nothing to the input otherwise. |
| `EarlyApp.SubmitRegistersTag` | src/app.rs:216-242 | Submitting registers (tag as string, typed label), overwriting an earlier label and keeping every other tag. It closes the input and returns to the tagging state. |
| `EarlyApp.UpdateShowsSelectedImage` | src/app.rs:245 | Every message ends with the display showing the selected path, which is one of the queue's paths. |
| `EarlyApp.ArrowsAgreeAcrossRevisions` | src/app.rs:52-62 | The later revision's `prev`/`next` navigation with the always-true predicate equals this revision's saturating decrement and `min(len - 1, sel + 1)` on a non-empty queue. |

## Left out

- Organize batch: the organize batch (`run_organize_process`) is not modelled; its body is outside the modelled files. The menu's R key returns `OrganizeRequested`, and the model goes no further. A failing batch panics in the source; the model does not model that panic.
- `MainView.Step`, `MainView.CharacterStep`, `MainView.UnknownLetterOpensTagInput`, `MainView.RegisteredLetterOnlyToggles`, `AppModel.ToggleCurrent`, `AppModel.App.ToggleTagOnCurrentImage`: `toggle_tag_on_current_image` is an opaque call, because its body is outside the modelled files. The selected entry's tag set after the call is the parameter `toggled`. The model does not state that this set is the old one with the typed letter added or removed. When no entry is selected, the model assumes the call changes nothing.
- Directory listing: `get_directory_list` is filesystem I/O. Its result is the constructors' `listing` parameter.
- File removal: `fs::remove_file` is modelled only by its outcome, the `removal` parameter.
- Panes: pane splitting, resizing and closing are left out, as are the `Resized` message and the panics when a split fails. Each pane's contents are a typed field.
- Views: the rendering `view` functions, styles and image loading are left out. Only the window bounds and the highlighted row of the queue view are modelled.
- Abort: the abort on Q (`assert!(1 == 0)`) is the outcome `Abort`; process termination itself is not modelled.
- `Keyboard.IsAlphabetic`: it recognises only the ASCII letters. The source's `char::is_alphabetic` also accepts every other Unicode alphabetic character.
- `PathOrder.SortUnstable`: it is an insertion sort on a sequence, not the standard library's in-place pattern-defeating quicksort. The result is the same, because a sorted permutation of strings is unique (`PathOrder.SortedPermutationUnique`).
- `ImageQueue.ImageQueueState.constructor`: it requires each listed path to have at least two characters. `x[2..]` panics otherwise, and the listing always yields `"./"`-prefixed paths.
- `EarlyApp.App.Update`: it requires the selection to be in range. Every `update` ends by indexing `image_paths` at the selection, and `Right` computes `len - 1`, so an empty image directory panics. The model does not model that panic.
- Integer width: `usize` overflow of `selected_image_index + 1` or `+ 10` near `usize::MAX` is not modelled, because indices are unbounded naturals. The one underflow that can happen is modelled; see Findings.

## Findings

| source | as written | input that shows it | evidently intended | confidence | as-written member | corrected member |
|---|---|---|---|---|---|---|
| src/models/image_queue.rs:43-44 | After removing the selected entry, when the index equals the new length, the code computes `selected_image_index - 1` on a `usize`. | A queue with one image, index 0, and Delete with a successful file removal: the new length is 0, so the code computes `0 - 1`. That panics in a debug build and wraps to `usize::MAX` in a release build. | Move the selection back only when an entry remains, and leave it at 0 once the queue is empty. | high (not executed) | `ImageQueue.DeleteCurrentAsWritten` | `ImageQueue.ImageQueueState.DeleteCurrent` |
