/**
 * The image queue of the earlier revision: the sorted paths of the image
 * directory and the index of the selected one. Its window arithmetic is
 * the one of the later revision, `ImageQueue.Window`.
 */
module PathQueue {
  import opened Wrappers
  import PathOrder
  import ImageQueue

  class ImageQueueState {
    var selectedImageIndex: nat
    var imagePaths: seq<string>

    /** `ImageQueueState::new`: the directory listing sorted (empty when it could not be read), the first path selected. */
    constructor (listing: Option<seq<string>>)
      ensures selectedImageIndex == 0
      ensures imagePaths == PathOrder.SortUnstable(listing.GetOr([]))
    {
      var paths := listing.GetOr([]);
      paths := PathOrder.SortUnstable(paths);
      selectedImageIndex := 0;
      imagePaths := paths;
    }

    /**
     * The row `view` draws: the paths of the window in order, the one whose
     * running index equals the selection marked as selected.
     */
    method ViewRow() returns (row: seq<ImageQueue.QueueItem>)
      requires ImageQueue.SelectionValid(|imagePaths|, selectedImageIndex)
      ensures var w := ImageQueue.Window(selectedImageIndex, |imagePaths|);
        |row| == w.end - w.start &&
        (forall k :: 0 <= k < |row| ==> row[k].path == imagePaths[w.start + k]) &&
        (forall k :: 0 <= k < |row| ==> (row[k].isSelected <==> w.start + k == selectedImageIndex))
      ensures ImageQueue.Highlighted(row) ==
                if selectedImageIndex < |imagePaths|
                then {selectedImageIndex - ImageQueue.Window(selectedImageIndex, |imagePaths|).start}
                else {}
    {
      var w := ImageQueue.Window(selectedImageIndex, |imagePaths|);
      var slice := imagePaths[w.start..w.end];
      var itemIndex := w.start;
      var i := 0;
      row := [];
      while i < |slice|
        invariant i <= |slice|
        invariant itemIndex == w.start + i
        invariant |row| == i
        invariant forall k :: 0 <= k < i ==> row[k] == ImageQueue.QueueItem(slice[k], w.start + k == selectedImageIndex)
      {
        row := row + [ImageQueue.QueueItem(slice[i], itemIndex == selectedImageIndex)];
        itemIndex := itemIndex + 1;
        i := i + 1;
      }
      if selectedImageIndex < |imagePaths| {
        assert row[selectedImageIndex - w.start].isSelected;
      }
    }
  }
}
