/** The descriptor table of a process: open, close, get_fd and the loop in process_exit
    that closes what is left. */
module Descriptors {
  import opened Wrappers

  /** One result of filesys_open: each call that succeeds gives a new open file. */
  type File = int

  datatype FdElement = FdElement(fd: int, file: File)

  /** fdSize and fdList are the fields of struct thread; everOpened and everClosed list
      the files in the order in which that happened to them. */
  datatype Table = Table(fdSize: int, fdList: seq<FdElement>, everOpened: seq<File>, everClosed: seq<File>)

  // ---------- The operations on the table ----------

  /** Where the list loops of get_fd and close stop. */
  function Position(list: seq<FdElement>, fd: int): (k: nat)
    ensures k <= |list| && (k < |list| ==> list[k].fd == fd)
    ensures forall i :: 0 <= i < k ==> list[i].fd != fd
  {
    if list == [] || list[0].fd == fd then 0 else 1 + Position(list[1..], fd)
  }

  function GetFd(list: seq<FdElement>, fd: int): Option<FdElement> {
    var k := Position(list, fd);
    if k < |list| then Some(list[k]) else None
  }

  /** open () where filesys_open returned file, or NULL. */
  function Open(s: Table, file: Option<File>): (Table, int) {
    match file
    case None => (s, -1)
    case Some(f) =>
      var fd := s.fdSize + 1;
      (Table(fd, s.fdList + [FdElement(fd, f)], s.everOpened + [f], s.everClosed), fd)
  }

  function Close(s: Table, fd: int): Table {
    var k := Position(s.fdList, fd);
    if k == |s.fdList| then s
    else s.(fdList := s.fdList[..k] + s.fdList[k + 1..], everClosed := s.everClosed + [s.fdList[k].file])
  }

  function FileList(list: seq<FdElement>): seq<File> {
    seq(|list|, i requires 0 <= i < |list| => list[i].file)
  }

  /** The loop in process_exit. */
  function CloseAll(s: Table): Table {
    s.(fdList := [], everClosed := s.everClosed + FileList(s.fdList))
  }

  // ---------- The invariant ----------

  ghost predicate Increasing(list: seq<FdElement>) {
    forall i, j :: 0 <= i < j < |list| ==> list[i].fd < list[j].fd
  }

  /** Descriptor fd stands for the file of the (fd - 1)-th successful open. */
  ghost predicate Names(s: Table, e: FdElement) {
    2 <= e.fd <= s.fdSize && e.fd < |s.everOpened| + 2 && e.file == s.everOpened[e.fd - 2]
  }

  ghost predicate Numbered(s: Table) {
    && s.fdSize == |s.everOpened| + 1
    && Increasing(s.fdList)
    && (forall i :: 0 <= i < |s.fdList| ==> Names(s, s.fdList[i]))
  }

  /** Every file opened is on the list or has been closed, each once. */
  ghost predicate Balanced(s: Table) {
    multiset(s.everOpened) == multiset(FileList(s.fdList)) + multiset(s.everClosed)
  }

  ghost predicate Inv(s: Table) {
    Numbered(s) && Balanced(s)
  }

  lemma FileListSplit(a: seq<FdElement>, b: seq<FdElement>)
    ensures FileList(a + b) == FileList(a) + FileList(b)
  {}

  lemma OpenKeepsInv(s: Table, file: Option<File>)
    requires Inv(s)
    ensures Inv(Open(s, file).0)
  {
    if file.Some? {
      var e := FdElement(s.fdSize + 1, file.value);
      OpenKeepsNumbers(s, file.value);
      FileListSplit(s.fdList, [e]);
      assert FileList([e]) == [file.value];
    }
  }

  /** A failed open returns -1 and has no effect; a successful one returns a descriptor
      that no open file has, and that now leads to the new file. */
  lemma OpenReturns(s: Table, file: Option<File>)
    requires Numbered(s)
    ensures var (u, fd) := Open(s, file);
            && (file.None? ==> fd == -1 && u == s)
            && (file.Some? ==>
                  && fd >= 2 && GetFd(s.fdList, fd) == None
                  && GetFd(u.fdList, fd) == Some(FdElement(fd, file.value)))
  {
    if file.Some? {
      var e := FdElement(s.fdSize + 1, file.value);
      PositionAppend(s.fdList, e, e.fd);
      forall i | 0 <= i < |s.fdList|
        ensures s.fdList[i].fd != e.fd
      {
        assert Names(s, s.fdList[i]);
      }
    }
  }

  lemma OpenKeepsNumbers(s: Table, f: File)
    requires Numbered(s)
    ensures Numbered(Open(s, Some(f)).0)
  {
    var u := Open(s, Some(f)).0;
    forall i | 0 <= i < |u.fdList|
      ensures Names(u, u.fdList[i])
    {
      if i < |s.fdList| {
        assert Names(s, s.fdList[i]);
      }
    }
    forall i, j | 0 <= i < j < |u.fdList|
      ensures u.fdList[i].fd < u.fdList[j].fd
    {
      assert Names(s, s.fdList[i]);
    }
  }

  lemma CloseKeepsInv(s: Table, fd: int)
    requires Inv(s)
    ensures Inv(Close(s, fd))
  {
    var list := s.fdList;
    var k := Position(list, fd);
    if k < |list| {
      var front, back := list[..k], list[k + 1..];
      CloseKeepsNumbers(s, fd);
      hide Numbered, Position, Close;
      FileListSplit(front, back);
      FileListSplit(front, [list[k]]);
      FileListSplit(front + [list[k]], back);
      assert list == front + [list[k]] + back;
      assert FileList([list[k]]) == [list[k].file];
      hide FileList;
      MoveOne(FileList(front), list[k].file, FileList(back), s.everClosed);
    }
  }

  lemma CloseKeepsNumbers(s: Table, fd: int)
    requires Numbered(s)
    ensures Numbered(Close(s, fd))
  {
    var u := Close(s, fd);
    forall i | 0 <= i < |u.fdList|
      ensures Names(u, u.fdList[i])
    {
      var k := Position(s.fdList, fd);
      assert Names(s, s.fdList[if i < k then i else i + 1]);
    }
  }

  lemma MoveOne(a: seq<File>, x: File, b: seq<File>, c: seq<File>)
    ensures multiset(a + [x] + b) + multiset(c) == multiset(a + b) + multiset(c + [x])
  {}

  // ---------- A map as the reference ----------

  /** get_fd answers every descriptor as the map does. */
  ghost predicate Represents(list: seq<FdElement>, files: map<int, File>) {
    forall fd :: GetFd(list, fd) == if fd in files then Some(FdElement(fd, files[fd])) else None
  }

  lemma {:induction false} PositionAppend(list: seq<FdElement>, e: FdElement, fd: int)
    ensures Position(list + [e], fd) ==
              if Position(list, fd) < |list| || fd == e.fd then Position(list, fd) else |list| + 1
  {
    if list == [] {
      assert list + [e] == [e];
    } else {
      assert (list + [e])[1..] == list[1..] + [e];
      PositionAppend(list[1..], e, fd);
    }
  }

  lemma GetFdFinds(list: seq<FdElement>, k: nat)
    requires Increasing(list) && k < |list|
    ensures GetFd(list, list[k].fd) == Some(list[k])
  {}

  lemma GetFdMisses(list: seq<FdElement>, fd: int)
    requires forall i :: 0 <= i < |list| ==> list[i].fd != fd
    ensures GetFd(list, fd) == None
  {}

  lemma OpenRefines(s: Table, f: File, files: map<int, File>)
    requires Numbered(s) && Represents(s.fdList, files)
    ensures Represents(Open(s, Some(f)).0.fdList, files[s.fdSize + 1 := f])
  {
    var e := FdElement(s.fdSize + 1, f);
    forall fd
      ensures GetFd(s.fdList + [e], fd) == if fd == e.fd then Some(e) else GetFd(s.fdList, fd)
    {
      PositionAppend(s.fdList, e, fd);
      if Position(s.fdList, fd) < |s.fdList| {
        assert Names(s, s.fdList[Position(s.fdList, fd)]);
      }
    }
  }

  lemma CloseRefines(s: Table, fd: int, files: map<int, File>)
    requires Numbered(s) && Represents(s.fdList, files)
    ensures Represents(Close(s, fd).fdList, files - {fd})
  {
    var u := Close(s, fd);
    var k := Position(s.fdList, fd);
    forall other
      ensures GetFd(u.fdList, other) == if other == fd then None else GetFd(s.fdList, other)
    {
      if k < |s.fdList| {
        OthersStay(s.fdList, k, other);
      }
    }
    hide GetFd;
  }

  lemma OthersStay(list: seq<FdElement>, k: nat, other: int)
    requires Increasing(list) && k < |list|
    ensures GetFd(list[..k] + list[k + 1..], other) == if other == list[k].fd then None else GetFd(list, other)
  {
    var rest := list[..k] + list[k + 1..];
    assert Increasing(rest);
    var j := Position(list, other);
    if j < |list| && j != k {
      var i := if j < k then j else j - 1;
      GetFdFinds(rest, i);
      assert rest[i] == list[j];
    } else {
      forall i | 0 <= i < |rest|
        ensures rest[i].fd != other
      {
        assert rest[i] == list[if i < k then i else i + 1];
      }
      GetFdMisses(rest, other);
    }
  }

  // ---------- Runs ----------

  datatype Op = CallOpen(file: Option<File>) | CallClose(fd: int)

  /** The table, the map it should amount to, and the descriptors returned so far. */
  datatype Run = Run(table: Table, files: map<int, File>, issued: seq<int>)

  function Do(r: Run, op: Op): Run {
    match op
    case CallOpen(file) =>
      var (table, fd) := Open(r.table, file);
      if fd == -1 then Run(table, r.files, r.issued)
      else Run(table, if file.Some? then r.files[fd := file.value] else r.files, r.issued + [fd])
    case CallClose(fd) => Run(Close(r.table, fd), r.files - {fd}, r.issued)
  }

  function Play(r: Run, ops: seq<Op>): Run
    decreases |ops|
  {
    if ops == [] then r else Play(Do(r, ops[0]), ops[1..])
  }

  ghost predicate RunOk(r: Run) {
    && Inv(r.table) && Represents(r.table.fdList, r.files)
    && |r.issued| == |r.table.everOpened| && (forall i :: 0 <= i < |r.issued| ==> r.issued[i] == i + 2)
  }

  lemma DoKeepsOk(r: Run, op: Op)
    requires RunOk(r)
    ensures RunOk(Do(r, op))
  {
    match op
    case CallOpen(None) =>
      OpenReturns(r.table, None);
    case CallOpen(Some(f)) =>
      OpenReturns(r.table, Some(f));
      OpenKeepsInv(r.table, Some(f));
      OpenRefines(r.table, f, r.files);
      hide Represents, Balanced, Increasing, Names;
    case CallClose(fd) =>
      CloseKeepsInv(r.table, fd);
      CloseRefines(r.table, fd, r.files);
      hide Represents, Inv, Position;
  }

  lemma {:induction false} PlayKeepsOk(r: Run, ops: seq<Op>)
    requires RunOk(r)
    ensures RunOk(Play(r, ops))
    decreases |ops|
  {
    if ops != [] {
      DoKeepsOk(r, ops[0]);
      PlayKeepsOk(Do(r, ops[0]), ops[1..]);
    }
  }

  /** A new process: fd_size is 1 and nothing is open. */
  const NEW := Run(Table(1, [], [], []), map[], [])

  /** In every run of open and close get_fd answers as a map would, the descriptors handed
      out are 2, 3, 4 and so on, so that none comes back, and after process_exit every
      file opened has been closed exactly once. */
  lemma DescriptorsAreSound(ops: seq<Op>)
    ensures var r := Play(NEW, ops);
            && Represents(r.table.fdList, r.files)
            && Increasing(r.table.fdList)
            && (forall i :: 0 <= i < |r.table.fdList| ==> 2 <= r.table.fdList[i].fd <= r.table.fdSize)
            && (forall i :: 0 <= i < |r.issued| ==> r.issued[i] == i + 2)
            && multiset(CloseAll(r.table).everClosed) == multiset(r.table.everOpened)
  {
    assert FileList([]) == [];
    PlayKeepsOk(NEW, ops);
    var r := Play(NEW, ops);
    forall i | 0 <= i < |r.table.fdList|
      ensures 2 <= r.table.fdList[i].fd <= r.table.fdSize
    {
      assert Names(r.table, r.table.fdList[i]);
    }
  }
}
