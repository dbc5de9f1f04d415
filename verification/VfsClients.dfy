/** What programs do with an open file: the modes "w" and "a" of fopen, written out as calls of the
    virtual file system. */
module VfsClients {
  import opened Bits
  import opened DorifsRecords
  import opened DorifsTree
  import opened DorifsView
  import opened DorifsFrames
  import opened DorifsDirs
  import opened Dorifs
  import opened VfsPath
  import opened Vfs

  /** The path is a file, or is not there and can be created. */
  ghost predicate FileOrNew(v: VirtualFs, path: Path, fuel: nat)
    requires v.Valid()
    reads v, v.fs, v.fs.bitmap, v.root
  {
    && NoNul(path) && |path| < MAX_PATH && !Resolve(v.Tree(), path, fuel).Stuck?
    && !IsDirAt(v.Tree(), Resolve(v.Tree(), path, fuel))
    && (Resolve(v.Tree(), path, fuel).Null? ==>
          v.ParentReady(path, fuel) && v.NewName(path, fuel) && IsName(BaseName(path)))
  }

  /** A file opened with O_TRUNC is empty: a read through the new descriptor gives no byte. */
  method ReadTruncated(v: VirtualFs, path: Path, buffer: array<byte>, ghost fuel: nat) returns (fd: int, n: int)
    requires v.Valid() && FileOrNew(v, path, fuel) && buffer != v.fs.bitmap && buffer.Length < WORD
    modifies v.fs`disk, v.fs`sb, v.fs`owner, v.fs`refs, v.fs.bitmap, v.root`size, v.fds, buffer
    ensures fd != -1 ==> n == 0
  {
    hide TreeOf, Consistent, Resolve, NoNul, BaseName, IsName, AddObj, Find, IsLowestFree;
    ghost var ino, found;
    fd, ino, found := v.Open(path, 0x242, fuel);
    n := 0;
    if fd != -1 {
      n := v.Read(fd, buffer, buffer.Length as u32);
    }
  }

  /** The bytes of the file at an outcome. */
  function DataAt(t: Tree, o: Outcome): seq<byte> {
    if o.At? && o.ino in t && t[o.ino].File? then t[o.ino].data else []
  }

  /** The descriptor is open on a file with these bytes, and the next write goes to their end. */
  ghost predicate AtEnd(v: VirtualFs, fd: int, data: seq<byte>)
    requires v.Valid()
    reads v, v.fs, v.fs.bitmap, v.root, v.fds, if 0 <= fd < v.fds.Length then {v.fds[fd].node} else {}
  {
    v.Opened(fd) && v.DataOf(fd) == data && v.WriteOffset(fd) as int == |data|
  }

  /** fopen with mode "w" or "a": the descriptor stands at the end of the file, which is emptied in mode "w". */
  method OpenAtEnd(v: VirtualFs, path: Path, append: bool, ghost fuel: nat)
    returns (fd: int, ghost ino: nat, ghost found: Tree)
    requires v.Valid() && FileOrNew(v, path, fuel)
    modifies v.fs`disk, v.fs`sb, v.fs`owner, v.fs`refs, v.fs.bitmap, v.root`size, v.fds
    ensures v.Valid() && -1 <= fd < MAX_OPEN_FILES
    ensures Resolve(old(v.Tree()), path, fuel).At? ==>
      found == old(v.Tree()) && At(ino) == Resolve(old(v.Tree()), path, fuel)
    ensures Resolve(old(v.Tree()), path, fuel).Null? && fd != -1 ==>
      Resolve(found, path, fuel) == At(ino) && DataAt(found, At(ino)) == []
    ensures fd != -1 ==>
      && v.fds[fd].node != null && fresh(v.fds[fd].node) && v.fds[fd].node.ino as nat == ino
      && AtEnd(v, fd, if append then DataAt(found, At(ino)) else [])
      && v.Tree() == found[ino := File(if append then DataAt(found, At(ino)) else [])]
      && v.fds[..] == old(v.fds[..])[fd := v.fds[fd]]
  {
    hide TreeOf, Consistent, Resolve, NoNul, BaseName, IsName, Find, IsLowestFree;
    ghost var t, was, dir := v.Tree(), Resolve(v.Tree(), path, fuel), v.ParentOf(path, fuel);
    fd, ino, found := v.Open(path, if append then 0x441 else 0x241, fuel);
    if fd != -1 { FoundFile(t, was, found, InoOf(dir), BaseName(path), ino); }
  }

  /** What open found, or made, is a file. */
  lemma FoundFile(t: Tree, was: Outcome, found: Tree, parent: nat, name: Path, ino: nat)
    requires !IsDirAt(t, was) && ino in found && !IsLink(found, ino)
    requires (was.At? && found == t && ino == was.ino)
      || (was.Null? && IsLowestFree(t, ino) && found == AddObj(t, parent, name, ino, File([])))
    requires was.Null? ==> IsDirIn(t, parent)
    ensures found[ino].File? && (was.Null? ==> found[ino] == File([]))
  {
    if was.Null? { AddedThere(t, parent, name, ino, File([])); }
  }

  /** What is written through a descriptor that stands at the end of its file comes behind what is there. */
  method StoreAndClose(v: VirtualFs, fd: int, ghost data: seq<byte>, bytes: seq<byte>) returns (n: int)
    requires v.Valid() && AtEnd(v, fd, data) && v.fds[fd].node != v.root && |data| + |bytes| < WORD
    modifies v.fs`disk, v.fs`sb, v.fs`owner, v.fs.bitmap, v.fds, v.fds[fd].node
    ensures v.fds[..] == old(v.fds[..])[fd := UNUSED]
    ensures v.Valid() ==>
      && 0 <= n <= |bytes|
      && v.Tree() == old(v.Tree())[old(v.fds[fd].node.ino as nat) := File(data + bytes[..n])]
  {
    hide TreeOf, Consistent, LostWrite, FileSystem.PlanOf, Splice;
    n := v.Write(fd, bytes);
    SpliceEnd(data);
    var r := v.Close(fd);
  }

  lemma SpliceEnd(data: seq<byte>)
    ensures forall src :: Splice(data, |data|, src) == data + src
  {
  }

  /** A file opened with mode "w" holds, after one write and close, what was written; one opened with mode
      "a" has it behind what it held. */
  method WriteFile(v: VirtualFs, path: Path, append: bool, bytes: seq<byte>, ghost fuel: nat)
    returns (fd: int, n: int, ghost ino: nat, ghost found: Tree)
    requires v.Valid() && FileOrNew(v, path, fuel)
    requires |DataAt(v.Tree(), Resolve(v.Tree(), path, fuel))| + |bytes| < WORD
    modifies v.fs`disk, v.fs`sb, v.fs`owner, v.fs`refs, v.fs.bitmap, v.root`size, v.fds
    ensures Resolve(old(v.Tree()), path, fuel).At? ==>
      found == old(v.Tree()) && At(ino) == Resolve(old(v.Tree()), path, fuel)
    ensures Resolve(old(v.Tree()), path, fuel).Null? && fd != -1 ==>
      Resolve(found, path, fuel) == At(ino) && DataAt(found, At(ino)) == []
    ensures -1 <= fd < MAX_OPEN_FILES == v.fds.Length
    ensures fd != -1 && v.Valid() ==>
      && 0 <= n <= |bytes| && v.fds[..] == old(v.fds[..])[fd := UNUSED]
      && v.Tree() == found[ino := File(if append then DataAt(found, At(ino)) + bytes[..n] else bytes[..n])]
  {
    hide TreeOf, Consistent, Resolve, NoNul, BaseName, IsName, DataAt;
    fd, ino, found := OpenAtEnd(v, path, append, fuel);
    n := 0;
    if fd != -1 {
      n := StoreAndClose(v, fd, if append then DataAt(found, At(ino)) else [], bytes);
      assert forall k :: 0 <= k <= |bytes| ==> [] + bytes[..k] == bytes[..k];
    }
  }
}
