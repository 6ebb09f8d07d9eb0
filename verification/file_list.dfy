/** The file picker's list: a refresh keeps the visible ".mp3" files of a directory, in
    enumeration order, and keeps the previous list when the directory cannot be read;
    choosing an item hands its full name back to the activity that asked. */
module FileList {
  import opened Basics
  import opened Paths

  /** A directory entry as `GetFileSystemInfos` returns it. `visible` and `isFile` are the
      results of the `IsVisible()` and `IsFile()` helpers. */
  datatype FileSystemInfo = FileSystemInfo(name: string, fullName: string, visible: bool, isFile: bool)

  /** The `Where` filter of the refresh. */
  predicate Listed(item: FileSystemInfo) {
    item.visible && item.isFile && Extension(item.name) == ".mp3"
  }

  /** The items of `items` that pass the filter, in order. */
  function VisibleMp3s(items: seq<FileSystemInfo>): seq<FileSystemInfo> {
    if items == [] then []
    else VisibleMp3s(items[..|items| - 1])
         + (if Listed(items[|items| - 1]) then [items[|items| - 1]] else [])
  }

  /** An entry is listed iff it is a visible file whose name ends in ".mp3" exactly. */
  lemma ListedIff(item: FileSystemInfo)
    ensures Listed(item) <==>
      item.visible && item.isFile && |item.name| >= 4 && item.name[|item.name| - 4..] == ".mp3"
  {
    Mp3ExtensionIffSuffix(item.name);
  }

  /** Every kept item passes the filter, and each entry is kept as often as it occurs when
      it passes and never otherwise. */
  lemma {:induction false} VisibleMp3sCounts(items: seq<FileSystemInfo>)
    ensures forall x :: x in VisibleMp3s(items) ==> Listed(x)
    ensures forall x :: multiset(VisibleMp3s(items))[x] == if Listed(x) then multiset(items)[x] else 0
  {
    if items != [] {
      var init, last := items[..|items| - 1], items[|items| - 1];
      VisibleMp3sCounts(init);
      assert items == init + [last];
    }
  }

  /** `r` is `items` read at the strictly increasing indices `idx`. */
  ghost predicate Embeds(r: seq<FileSystemInfo>, items: seq<FileSystemInfo>, idx: seq<nat>) {
    && |idx| == |r|
    && (forall k :: 0 <= k < |idx| ==> idx[k] < |items| && r[k] == items[idx[k]])
    && (forall k, l :: 0 <= k < l < |idx| ==> idx[k] < idx[l])
  }

  /** An embedding survives appending an item that is skipped. */
  lemma EmbedsSkip(r: seq<FileSystemInfo>, items: seq<FileSystemInfo>, idx: seq<nat>, x: FileSystemInfo)
    requires Embeds(r, items, idx)
    ensures Embeds(r, items + [x], idx)
  {
  }

  /** An embedding grows by one index when an appended item is kept. */
  lemma EmbedsKeep(r: seq<FileSystemInfo>, items: seq<FileSystemInfo>, idx: seq<nat>, x: FileSystemInfo)
    requires Embeds(r, items, idx)
    ensures Embeds(r + [x], items + [x], idx + [|items|])
  {
  }

  /** The kept items keep their enumeration order: they are `items` at increasing indices. */
  lemma {:induction false} VisibleMp3sInOrder(items: seq<FileSystemInfo>)
    ensures exists idx: seq<nat> :: Embeds(VisibleMp3s(items), items, idx)
  {
    if items == [] {
      var none: seq<nat> := [];
      assert Embeds(VisibleMp3s(items), items, none);
    } else {
      var init, last := items[..|items| - 1], items[|items| - 1];
      VisibleMp3sInOrder(init);
      var idx: seq<nat> :| Embeds(VisibleMp3s(init), init, idx);
      assert items == init + [last];
      if Listed(last) {
        var idx' := idx + [|init|];
        EmbedsKeep(VisibleMp3s(init), init, idx, last);
        assert VisibleMp3s(items) == VisibleMp3s(init) + [last];
        assert Embeds(VisibleMp3s(items), items, idx');
      } else {
        EmbedsSkip(VisibleMp3s(init), init, idx, last);
        assert VisibleMp3s(items) == VisibleMp3s(init);
        assert Embeds(VisibleMp3s(items), items, idx);
      }
    }
  }

  /** What a refresh did. `NullDirectoryFault` is the `NullReferenceException` raised when
      the error path reads `_directory.FullName` before any refresh succeeded. */
  datatype RefreshOutcome = Displayed | AccessProblem | NullDirectoryFault

  class FileListFragment {
    var items: seq<FileSystemInfo>     // what the adapter shows
    var directory: Option<string>      // _directory: the last directory listed, null at first
    var result: Option<string>         // FileName extra of the Ok result, if any
    var finished: bool                 // Activity.Finish() called

    /** The state `OnCreate` leaves: an empty adapter, no directory. */
    constructor ()
      ensures items == [] && directory == None && result == None && !finished
    {
      items, directory, result, finished := [], None, None, false;
    }

    /** Lists `path`. `listing` is what `GetFileSystemInfos` returns, or `None` when it
        throws. */
    method RefreshFilesList(path: string, listing: Option<seq<FileSystemInfo>>)
      returns (outcome: RefreshOutcome)
      modifies this`items, this`directory
      ensures listing.Some? ==>
        outcome == Displayed && directory == Some(path) && items == VisibleMp3s(listing.value)
      ensures listing.None? ==>
        && outcome == (if old(directory).Some? then AccessProblem else NullDirectoryFault)
        && directory == old(directory) && items == old(items)
    {
      var visibleThings: seq<FileSystemInfo> := [];
      if listing.None? {
        if directory.None? {
          return NullDirectoryFault;
        }
        return AccessProblem;
      }
      var all := listing.value;
      for i := 0 to |all|
        invariant visibleThings == VisibleMp3s(all[..i])
      {
        if Listed(all[i]) {
          visibleThings := visibleThings + [all[i]];
        }
        assert all[..i + 1][..i] == all[..i];
      }
      assert all[..|all|] == all;
      directory := Some(path);
      items := visibleThings;
      outcome := Displayed;
    }

    /** Choosing the item at `position`: result Ok with its full name, picker finished. */
    method OnListItemClick(position: nat)
      requires position < |items|
      modifies this`result, this`finished
      ensures result == Some(items[position].fullName) && finished
    {
      var fileSystemInfo := items[position];
      result := Some(fileSystemInfo.fullName);
      finished := true;
    }
  }
}
