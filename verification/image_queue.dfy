/**
 * The image queue of the later revision: the sorted entries of the image
 * directory, each with the set of tag characters assigned to it, and the
 * index of the selected entry.
 */
module ImageQueue {
  import opened Wrappers
  import PathOrder

  /** One queued image: its path and its tag characters (the source's `HashMap<char, ()>`). */
  datatype ImageInfo = ImageInfo(path: string, tags: set<char>)

  /** One entry of the queue's visible row, with whether it is drawn as selected. */
  datatype QueueItem = QueueItem(path: string, isSelected: bool)

  /** The half-open range `[start, end)` of entries the queue panel shows. */
  datatype Span = Span(start: nat, end: nat)

  /** The paths of the entries, in queue order. */
  function Paths(infos: seq<ImageInfo>): (r: seq<string>)
    ensures |r| == |infos|
  {
    seq(|infos|, k requires 0 <= k < |infos| => infos[k].path)
  }

  /**
   * The queue invariant: the selection names an entry, or it is 0 (which is
   * where it starts, and where it stays once the queue is empty).
   */
  predicate SelectionValid(len: nat, selected: nat) {
    selected == 0 || selected < len
  }

  /**
   * The window of entries `view` draws around the selection: up to two
   * entries before it and up to nine after it.
   */
  function Window(selected: nat, len: nat): (w: Span)
    ensures w.end <= len
    ensures SelectionValid(len, selected) ==> w.start <= w.end
    ensures selected < len ==> w.start <= selected < w.end
    ensures selected < len ==> selected - w.start <= 2 && w.end - selected <= 10
    ensures w.start <= w.end ==> w.end - w.start <= 12
  {
    var start := if selected < 3 then 0 else selected - 2;
    var end := if len < selected + 10 then len else selected + 10;
    Span(start, end)
  }

  /** The indices of `row` drawn as selected. */
  function Highlighted(row: seq<QueueItem>): set<nat> {
    set k: nat | k < |row| && row[k].isSelected
  }

  /** `Vec::remove`: drop the element at `i`, keeping the others in order. */
  function RemoveAt<T>(s: seq<T>, i: nat): (r: seq<T>)
    requires i < |s|
    ensures |r| == |s| - 1
    ensures forall k :: 0 <= k < i ==> r[k] == s[k]
    ensures forall k :: i <= k < |r| ==> r[k] == s[k + 1]
  {
    s[..i] + s[i + 1..]
  }

  /** Subtraction on `usize` with its overflow check: `None` where it would underflow. */
  function UsizeSub(a: nat, b: nat): (r: Option<nat>)
    ensures r.Some? <==> b <= a
    ensures r.Some? ==> r.value + b == a
  {
    if b <= a then Some(a - b) else None
  }

  /**
   * `delete_current` exactly as written: the new entries and index, or `None`
   * where `selected_image_index - 1` underflows and the program panics.
   */
  function DeleteCurrentAsWritten(infos: seq<ImageInfo>, selected: nat): (r: Option<(seq<ImageInfo>, nat)>)
    ensures selected >= |infos| ==> r == Some((infos, selected))
    ensures selected < |infos| && r.Some? ==> r.value.0 == RemoveAt(infos, selected)
    ensures r.None? ==> selected == 0 && |infos| == 1
  {
    if selected < |infos| then
      var rest := RemoveAt(infos, selected);
      if selected == |rest| then
        match UsizeSub(selected, 1)
        case None => None
        case Some(index) => Some((rest, index))
      else Some((rest, selected))
    else Some((infos, selected))
  }

  /** Deleting the only entry of a queue underflows the index. */
  lemma DeleteOnlyEntryUnderflows(info: ImageInfo)
    ensures DeleteCurrentAsWritten([info], 0) == None
  {
  }

  /**
   * `delete_current` corrected: remove the selected entry; when it was the
   * last one, move the selection to the new last entry, and leave it at 0
   * once the queue is empty.
   */
  function DeleteCurrentFixed(infos: seq<ImageInfo>, selected: nat): (r: (seq<ImageInfo>, nat))
    ensures selected >= |infos| ==> r == (infos, selected)
  {
    if selected < |infos| then
      var rest := RemoveAt(infos, selected);
      (rest, if selected == |rest| && selected > 0 then selected - 1 else selected)
    else (infos, selected)
  }

  /** The written and the corrected deletion differ only where the written one underflows. */
  lemma DeleteAsWrittenUnderflowsExactly(infos: seq<ImageInfo>, selected: nat)
    ensures DeleteCurrentAsWritten(infos, selected).None? <==> |infos| == 1 && selected == 0
    ensures DeleteCurrentAsWritten(infos, selected).Some? ==>
              DeleteCurrentAsWritten(infos, selected).value == DeleteCurrentFixed(infos, selected)
  {
  }

  /**
   * Deleting a selected entry removes exactly that entry: one fewer entry,
   * the others in their old order, and the removed one is the selected one.
   */
  lemma DeleteRemovesSelected(infos: seq<ImageInfo>, selected: nat)
    requires selected < |infos|
    ensures var (rest, _) := DeleteCurrentFixed(infos, selected);
      |rest| == |infos| - 1 &&
      multiset(rest) + multiset{infos[selected]} == multiset(infos) &&
      (forall k :: 0 <= k < selected ==> rest[k] == infos[k]) &&
      (forall k :: selected <= k < |rest| ==> rest[k] == infos[k + 1])
  {
    var rest := DeleteCurrentFixed(infos, selected).0;
    assert infos == infos[..selected] + [infos[selected]] + infos[selected + 1..];
    assert rest == infos[..selected] + infos[selected + 1..];
  }

  /**
   * After deleting a selected entry the index names the former successor,
   * or the new last entry when the last one was deleted.
   */
  lemma DeleteMovesSelection(infos: seq<ImageInfo>, selected: nat)
    requires selected < |infos|
    ensures var (rest, index) := DeleteCurrentFixed(infos, selected);
      (selected + 1 < |infos| ==> index == selected && rest[index] == infos[selected + 1]) &&
      (selected + 1 == |infos| && |infos| >= 2 ==> index == |infos| - 2 && rest[index] == infos[selected - 1]) &&
      (|infos| == 1 ==> rest == [] && index == 0)
  {
  }

  /** Deleting keeps the queue invariant, and a non-empty queue keeps a selected entry. */
  lemma DeleteKeepsSelectionValid(infos: seq<ImageInfo>, selected: nat)
    requires SelectionValid(|infos|, selected)
    ensures var (rest, index) := DeleteCurrentFixed(infos, selected);
      SelectionValid(|rest|, index) && (rest != [] ==> index < |rest|)
  {
  }

  /** Dropping a shared first character keeps the order of two strings. */
  lemma LessEqDropCommonHead(a: string, b: string)
    requires a != [] && b != [] && a[0] == b[0]
    requires PathOrder.LessEq(a, b)
    ensures PathOrder.LessEq(a[1..], b[1..])
  {
  }

  /** Dropping a common `"./"` prefix keeps a sorted listing sorted. */
  lemma StripPrefixKeepsSorted(sorted: seq<string>)
    requires PathOrder.Sorted(sorted)
    requires forall p :: p in sorted ==> |p| >= 2 && p[..2] == "./"
    ensures PathOrder.Sorted(seq(|sorted|, k requires 0 <= k < |sorted| => sorted[k][2..]))
  {
    var stripped := seq(|sorted|, k requires 0 <= k < |sorted| => sorted[k][2..]);
    forall k | 0 < k < |stripped|
      ensures PathOrder.LessEq(stripped[k - 1], stripped[k])
    {
      var a, b := sorted[k - 1], sorted[k];
      assert a in sorted && b in sorted;
      assert a[0] == '.' == b[0] && a[1] == '/' == b[1] by {
        assert a[..2][0] == a[0] && a[..2][1] == a[1];
        assert b[..2][0] == b[0] && b[..2][1] == b[1];
      }
      LessEqDropCommonHead(a, b);
      LessEqDropCommonHead(a[1..], b[1..]);
      assert a[1..][1..] == a[2..] && b[1..][1..] == b[2..];
    }
  }

  /** The entries `new` builds from a sorted listing: each path without its first two characters, no tags. */
  function NewEntries(sorted: seq<string>): (r: seq<ImageInfo>)
    requires forall p :: p in sorted ==> |p| >= 2
    ensures |r| == |sorted|
    ensures forall k :: 0 <= k < |r| ==> r[k].tags == {} && sorted[k] == sorted[k][..2] + r[k].path
  {
    seq(|sorted|, k requires 0 <= k < |sorted| => ImageInfo(sorted[k][2..], {}))
  }

  /** The paths of the new entries are the sorted paths without their first two characters. */
  lemma NewEntriesPaths(sorted: seq<string>)
    requires forall p :: p in sorted ==> |p| >= 2
    ensures Paths(NewEntries(sorted)) == seq(|sorted|, k requires 0 <= k < |sorted| => sorted[k][2..])
  {
    var infos := NewEntries(sorted);
    forall k | 0 <= k < |sorted| ensures Paths(infos)[k] == sorted[k][2..] {
      assert sorted[k] == sorted[k][..2] + infos[k].path;
    }
  }

  /** Each new entry's path with `"./"` put back is a listed path. */
  lemma NewEntriesFromListing(listing: seq<string>, sorted: seq<string>)
    requires forall p :: p in listing ==> |p| >= 2 && p[..2] == "./"
    requires forall p :: p in sorted <==> p in listing
    ensures var infos := NewEntries(sorted);
      forall k :: 0 <= k < |infos| ==> "./" + infos[k].path in listing
  {
    var infos := NewEntries(sorted);
    forall k | 0 <= k < |infos| ensures "./" + infos[k].path in listing {
      assert sorted[k] in listing;
      assert sorted[k] == sorted[k][..2] + infos[k].path;
    }
  }

  /** Each listed path with `"./"` dropped is the path of a new entry. */
  lemma ListingInNewEntries(listing: seq<string>, sorted: seq<string>)
    requires forall p :: p in sorted ==> |p| >= 2
    requires forall p :: p in sorted <==> p in listing
    ensures forall p :: p in listing ==> p[2..] in Paths(NewEntries(sorted))
  {
    var paths := Paths(NewEntries(sorted));
    NewEntriesPaths(sorted);
    forall p | p in listing ensures p[2..] in paths {
      var k :| 0 <= k < |sorted| && sorted[k] == p;
      assert paths[k] == p[2..];
    }
  }

  /**
   * A new queue over a listing of `"./"`-prefixed paths holds, in ascending
   * order and untagged, exactly the listed paths with `"./"` dropped.
   */
  lemma NewQueueSortedAndUntagged(listing: seq<string>)
    requires forall p :: p in listing ==> |p| >= 2 && p[..2] == "./"
    ensures var infos := NewEntries(PathOrder.SortUnstable(listing));
      PathOrder.Sorted(Paths(infos)) &&
      |infos| == |listing| &&
      (forall k :: 0 <= k < |infos| ==> infos[k].tags == {} && "./" + infos[k].path in listing) &&
      (forall p :: p in listing ==> p[2..] in Paths(infos))
  {
    var sorted := PathOrder.SortUnstable(listing);
    StripPrefixKeepsSorted(sorted);
    NewEntriesPaths(sorted);
    NewEntriesFromListing(listing, sorted);
    ListingInNewEntries(listing, sorted);
  }

  class ImageQueueState {
    var selectedImageIndex: nat
    var imageInfos: seq<ImageInfo>

    ghost predicate Valid()
      reads this
    {
      SelectionValid(|imageInfos|, selectedImageIndex)
    }

    /**
     * `ImageQueueState::new`: the directory listing (`None` when it could
     * not be read, which gives an empty queue) sorted, each path without
     * its leading `"./"`, no tags, the first entry selected.
     */
    constructor (listing: Option<seq<string>>)
      requires listing.Some? ==> forall p :: p in listing.value ==> |p| >= 2
      ensures Valid()
      ensures selectedImageIndex == 0
      ensures imageInfos == NewEntries(PathOrder.SortUnstable(listing.GetOr([])))
    {
      var imagePaths := listing.GetOr([]);
      imagePaths := PathOrder.SortUnstable(imagePaths);
      selectedImageIndex := 0;
      imageInfos := seq(|imagePaths|, k requires 0 <= k < |imagePaths| => ImageInfo(imagePaths[k][2..], {}));
    }

    /** `delete_current`, with the underflow on deleting the only entry corrected. */
    method DeleteCurrent()
      modifies this
      ensures (imageInfos, selectedImageIndex) == DeleteCurrentFixed(old(imageInfos), old(selectedImageIndex))
      ensures old(Valid()) ==> Valid()
    {
      if selectedImageIndex < |imageInfos| {
        imageInfos := RemoveAt(imageInfos, selectedImageIndex);
        if selectedImageIndex == |imageInfos| && selectedImageIndex > 0 {
          selectedImageIndex := selectedImageIndex - 1;
        }
      }
    }

    /**
     * The row `view` draws: the entries of the window in order, the one
     * whose running index equals the selection marked as selected.
     */
    method ViewRow() returns (row: seq<QueueItem>)
      requires Valid()
      ensures var w := Window(selectedImageIndex, |imageInfos|);
        |row| == w.end - w.start &&
        (forall k :: 0 <= k < |row| ==> row[k].path == imageInfos[w.start + k].path) &&
        (forall k :: 0 <= k < |row| ==> (row[k].isSelected <==> w.start + k == selectedImageIndex))
      ensures Highlighted(row) ==
                if selectedImageIndex < |imageInfos|
                then {selectedImageIndex - Window(selectedImageIndex, |imageInfos|).start}
                else {}
    {
      var w := Window(selectedImageIndex, |imageInfos|);
      var slice := imageInfos[w.start..w.end];
      var itemIndex := w.start;
      var i := 0;
      row := [];
      while i < |slice|
        invariant i <= |slice|
        invariant itemIndex == w.start + i
        invariant |row| == i
        invariant forall k :: 0 <= k < i ==> row[k] == QueueItem(slice[k].path, w.start + k == selectedImageIndex)
      {
        row := row + [QueueItem(slice[i].path, itemIndex == selectedImageIndex)];
        itemIndex := itemIndex + 1;
        i := i + 1;
      }
      if selectedImageIndex < |imageInfos| {
        assert row[selectedImageIndex - w.start].isSelected;
      }
    }
  }
}
