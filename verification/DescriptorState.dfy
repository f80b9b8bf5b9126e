/** fd_size and fd_list of struct thread, updated in place by open, close and process_exit;
    each method is proved to have exactly the effect Descriptors describes. */
module DescriptorState {
  import opened Descriptors
  import opened Wrappers

  class Process {
    var fdSize: int
    var fdList: seq<FdElement>
    ghost var everOpened: seq<File>
    ghost var everClosed: seq<File>

    ghost function View(): Table
      reads this
    {
      Table(fdSize, fdList, everOpened, everClosed)
    }

    constructor ()
      ensures View() == NEW.table
    {
      fdSize, fdList, everOpened, everClosed := 1, [], [], [];
    }

    method FindFd(fd: int) returns (e: Option<FdElement>)
      ensures e == GetFd(fdList, fd)
    {
      var k := 0;
      while k < |fdList|
        invariant k <= |fdList| && forall i :: 0 <= i < k ==> fdList[i].fd != fd
      {
        if fdList[k].fd == fd {
          return Some(fdList[k]);
        }
        k := k + 1;
      }
      return None;
    }

    method OpenFile(file: Option<File>) returns (ret: int)
      modifies this
      ensures (View(), ret) == Open(old(View()), file)
    {
      ret := -1;
      if file.Some? {
        fdSize := fdSize + 1;
        ret := fdSize;
        fdList := fdList + [FdElement(ret, file.value)];
        everOpened := everOpened + [file.value];
      }
    }

    method CloseFile(fd: int)
      modifies this
      ensures View() == Close(old(View()), fd)
    {
      var k := 0;
      while k < |fdList|
        invariant k <= |fdList| && View() == old(View())
        invariant forall i :: 0 <= i < k ==> fdList[i].fd != fd
      {
        if fdList[k].fd == fd {
          everClosed := everClosed + [fdList[k].file];
          fdList := fdList[..k] + fdList[k + 1..];
          break;
        }
        k := k + 1;
      }
    }

    method CloseRemaining()
      modifies this
      ensures View() == CloseAll(old(View()))
    {
      ghost var list := fdList;
      ghost var done: nat := 0;
      while fdList != []
        invariant done <= |list| && fdList == list[done..]
        invariant fdSize == old(fdSize) && everOpened == old(everOpened)
        invariant everClosed == old(everClosed) + FileList(list[..done])
        decreases |fdList|
      {
        var e := fdList[0];
        fdList := fdList[1..];
        everClosed := everClosed + [e.file];
        FileListSplit(list[..done], [e]);
        assert list[..done + 1] == list[..done] + [e];
        done := done + 1;
      }
      assert list[..done] == list;
    }
  }
}
