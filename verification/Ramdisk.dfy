/** The ramdisk driver of src/drivers/ramdisk.c behind the dispatch of src/fs/vfs.c, and the walk of
    src/kernel.c over it. */
module Ramdisk {
  import opened Words
  import opened CString
  import opened Initrd
  import opened RamdiskFacts

  const FS_FILE := 1
  const FS_DIRECTORY := 2
  const INODE_NAME_LEN := 128
  const NAME_LEN := 64

  /** `inode_t`: the name buffer, the fields the code sets, and which operations are not NULL. */
  datatype Inode = Inode(name: seq<Byte>, flags: int, ino: int, length: int,
                         hasRead: bool, hasReaddir: bool, hasFinddir: bool)

  /** A pointer to an inode: `root`, `dev` or `&root_nodes[k]`. */
  datatype Node = Root | Dev | Entry(k: nat)

  predicate Named(buffer: seq<Byte>, name: seq<Byte>) {
    Terminated(buffer, 0) && Text(buffer, 0) == name
  }

  predicate FileNode(n: Inode, f: File, k: nat) {
    && Named(n.name, f.name) && n.flags == FS_FILE && n.ino == k && n.length == |f.data|
    && n.hasRead && !n.hasReaddir && !n.hasFinddir
  }

  predicate DirNode(n: Inode, name: seq<Byte>) {
    && Named(n.name, name) && n.flags == FS_DIRECTORY && n.ino == 0
    && !n.hasRead && n.hasReaddir && n.hasFinddir
  }

  // ---------------------------------------------------------------------------
  // Specification of the directory
  // ---------------------------------------------------------------------------

  /** What `finddir` finds. */
  function Lookup(files: seq<File>, dir: Node, name: seq<Byte>): Option<Node> {
    if dir == Root && name == DEV then Some(Dev)
    else
      match FindFrom(files, name, 0)
      case None => None
      case Some(k) => Some(Entry(k))
  }

  /** What `readdir` lists at an index: a name and an inode number. */
  function Listed(files: seq<File>, dir: Node, index: Word): Option<(seq<Byte>, nat)> {
    if dir == Root && index == 0 then Some((DEV, 0))
    else
      var i := if index == 0 then WORD_LIMIT - 1 else index - 1;
      if i >= |files| then None else Some((files[i].name, i))
  }

  function InoOf(node: Node): nat {
    match node
    case Entry(k) => k
    case _ => 0
  }

  /** The node listed at an index. */
  function NodeAt(index: nat): Node {
    if index == 0 then Dev else Entry(index - 1)
  }

  /** What a lookup finds, on every list of files: "dev" in the root is the directory, any other name the first
      file that has it, and a name that no file has is not found. */
  lemma LookupMeans(files: seq<File>, dir: Node, name: seq<Byte>)
    ensures dir == Root && name == [100, 101, 118] ==> Lookup(files, dir, name) == Some(Dev)
    ensures dir != Root || name != [100, 101, 118] ==>
              if forall k | 0 <= k < |files| :: files[k].name != name then Lookup(files, dir, name) == None
              else
                var r := Lookup(files, dir, name);
                && r.Some? && r.value.Entry? && r.value.k < |files| && files[r.value.k].name == name
                && forall j | 0 <= j < r.value.k :: files[j].name != name
  {
  }

  /** What is listed: "dev" first in the root, then file k at index k + 1, and nothing more. */
  lemma ListedMeans(files: seq<File>, dir: Node, index: Word)
    requires |files| <= 64
    ensures index == 0 ==>
              Listed(files, dir, index) == if dir == Root then Some(([100, 101, 118], 0)) else None
    ensures 0 < index <= |files| ==> Listed(files, dir, index) == Some((files[index - 1].name, index - 1))
    ensures |files| < index ==> Listed(files, dir, index) == None
  {
  }

  /** Among distinct names, looking one up finds its file. */
  lemma FoundWhereListed(files: seq<File>, k: nat)
    requires Distinct(files) && k < |files|
    ensures Lookup(files, Root, files[k].name) == Some(Entry(k))
  {
    var r := FindFrom(files, files[k].name, 0);
    assert r.Some?;
    assert files[r.value].name == files[k].name;
  }

  /** Enumeration and lookup agree: index 0 is "dev", index k + 1 is file k, the walk stops after
      nfiles + 1 steps, and every listed name is found with the inode number it was listed with. */
  lemma ListedIsFound(files: seq<File>, index: Word)
    requires Packable(files) && Distinct(files)
    ensures Listed(files, Root, index).Some? <==> index <= |files|
    ensures Listed(files, Root, index).Some? ==>
              var (name, ino) := Listed(files, Root, index).value;
              Lookup(files, Root, name) == Some(NodeAt(index)) && InoOf(NodeAt(index)) == ino
  {
    if 0 < index <= |files| {
      FoundWhereListed(files, index - 1);
    }
  }

  /** Every file can be found by its name if and only if the names are distinct and none is "dev". */
  lemma AllFoundIff(files: seq<File>)
    ensures (forall k | 0 <= k < |files| :: Lookup(files, Root, files[k].name) == Some(Entry(k))) <==> Distinct(files)
  {
    if Distinct(files) {
      forall k | 0 <= k < |files| ensures Lookup(files, Root, files[k].name) == Some(Entry(k)) {
        FoundWhereListed(files, k);
      }
    } else if j, k :| 0 <= j < k < |files| && files[j].name == files[k].name {
      assert Lookup(files, Root, files[j].name) == Lookup(files, Root, files[k].name);
    }
  }

  /** The second of two files called "a" is never found. */
  lemma SecondIsHidden(x: seq<Byte>, y: seq<Byte>)
    ensures Lookup([File([97], x), File([97], y)], Root, [97]) == Some(Entry(0))
  {
  }

  // ---------------------------------------------------------------------------
  // Helpers
  // ---------------------------------------------------------------------------

  method Load32(m: array<Byte>, p: nat) returns (w: Word)
    requires p + 4 <= m.Length
    ensures w == Le32(m[..], p)
  {
    var a: int, b: int, c: int, d: int := m[p], m[p + 1], m[p + 2], m[p + 3];
    w := a + 0x100 * b + 0x1_0000 * c + 0x100_0000 * d;
  }

  /** A zero-filled buffer. */
  method Zeroed(n: nat) returns (a: array<Byte>)
    ensures fresh(a) && a.Length == n && forall i | 0 <= i < n :: a[i] == 0
  {
    a := new Byte[n](_ => 0);
  }

  /** `strcpy` of a string into the zero-filled name of a fresh inode. */
  method InodeName(src: seq<Byte>, p: nat) returns (name: seq<Byte>)
    requires Terminated(src, p) && 0 < |Text(src, p)| < INODE_NAME_LEN
    ensures Named(name, Text(src, p))
  {
    var buffer := Zeroed(INODE_NAME_LEN);
    ghost var before := buffer[..];
    CopiedTextIsText(src, p);
    StrCpy(buffer, 0, src, p);
    name := buffer[..];
    CopyReadsBack(before, 0, Text(src, p));
  }

  lemma {:induction false} Literal(s: seq<Byte>)
    requires 0 !in s
    ensures Terminated(s + [0], 0) && Text(s + [0], 0) == s
  {
    assert (s + [0])[0..|s|] == s;
    TextUnique(s + [0], 0, s);
  }

  /** The inode of a directory. */
  method DirInode(s: seq<Byte>) returns (n: Inode)
    requires 0 !in s && 0 < |s| < INODE_NAME_LEN
    ensures DirNode(n, s)
  {
    Literal(s);
    var name := InodeName(s + [0], 0);
    n := Inode(name, FS_DIRECTORY, 0, 0, false, true, true);
  }

  lemma Ended(m: seq<Byte>, m': seq<Byte>, s: seq<Byte>)
    requires |s| < |m| && 0 !in s && m' == Copied(m, 0, s)[|s| := 0]
    ensures Named(m', s)
  {
    assert m'[0..|s|] == s;
    TextUnique(m', 0, s);
  }

  class Dentry {
    const name: array<Byte>
    var ino: Word

    constructor ()
      ensures fresh(name) && name.Length == NAME_LEN
    {
      name := new Byte[NAME_LEN](_ => 0);
      ino := 0;
    }

    /** `strcpy` into the shared entry and a terminator behind it: no suffix of an earlier name is left. */
    method SetName(src: seq<Byte>, p: nat)
      requires name.Length == NAME_LEN && Terminated(src, p) && 0 < |Text(src, p)| < NAME_LEN
      modifies name
      ensures Named(name[..], Text(src, p))
    {
      ghost var before := name[..];
      CopiedTextIsText(src, p);
      StrCpy(name, 0, src, p);
      var n := StrLen(src, p);
      name[n] := 0;
      Ended(before, name[..], Text(src, p));
    }
  }

  // ---------------------------------------------------------------------------
  // The driver
  // ---------------------------------------------------------------------------

  lemma {:induction false} ImageHeader(m: seq<Byte>, base: nat, files: seq<File>, k: nat)
    requires ImageAt(m, base, base, files) && Packable(files) && k < |files|
    ensures HeaderAt(base, k) + HEADER_SIZE <= |m|
    ensures Le32(m, OffsetField(base, k)) == base + Offset(files, k)
    ensures Le32(m, HeaderAt(base, k) + 72) == |files[k].data|
  {
    OffsetBounds(files, 0);
    HeaderReads(m, base, base, files, k);
  }

  lemma NoCopy(m: seq<Byte>, at: nat)
    requires at <= |m|
    ensures Copied(m, at, []) == m
  {
  }

  /** The word that relocation stores. */
  lemma {:induction false} RelocatedWord(m: seq<Byte>, addr: Word, fs: seq<File>, i: nat)
    requires Loadable(fs) && addr + ImageSize(fs) < WORD_LIMIT && i < |fs| && Mixed(m, addr, fs, i)
    ensures OffsetField(addr, i) + 4 <= |m|
    ensures addr + Offset(fs, i) < WORD_LIMIT
    ensures Add32(Le32(m, OffsetField(addr, i)), addr) == addr + Offset(fs, i)
  {
    OffsetBounds(fs, 0);
    OffsetBounds(fs, i);
    HeaderReads(m, addr, 0, fs, i);
  }

  /** The bytes `read` copies are the bytes of the file. */
  lemma {:induction false} DataReads(m: seq<Byte>, base: nat, files: seq<File>, k: nat, offset: nat, n: nat)
    requires ImageAt(m, base, base, files) && k < |files| && offset + n <= |files[k].data|
    ensures base + Offset(files, k) + offset + n <= |m|
    ensures var a := base + Offset(files, k) + offset; m[a..a + n] == files[k].data[offset..offset + n]
  {
    OffsetBounds(files, k);
    assert FileAt(m, base, base, files, k);
    var d := base + Offset(files, k);
    SubSlice(m, d, |files[k].data|, offset, offset + n);
  }

  class Disk {
    const mem: array<Byte>
    const dentry: Dentry
    var base: Word
    var root: Inode
    var dev: Inode
    var rootNodes: seq<Inode>
    ghost var files: seq<File>

    constructor (mem: array<Byte>)
      ensures this.mem == mem && fresh(dentry) && fresh(dentry.name) && dentry.name.Length == NAME_LEN
    {
      this.mem := mem;
      dentry := new Dentry();
      base, rootNodes, files := 0, [], [];
      root := Inode([], 0, 0, 0, false, false, false);
      dev := Inode([], 0, 0, 0, false, false, false);
    }

    /** The memory holds the relocated image of the files and the inodes describe them. */
    ghost predicate Mounted()
      reads this, mem
    {
      && Loadable(files) && base + ImageSize(files) < WORD_LIMIT
      && ImageAt(mem[..], base, base, files)
      && |rootNodes| == |files| && (forall k | 0 <= k < |files| :: FileNode(rootNodes[k], files[k], k))
      && DirNode(root, INITRD) && DirNode(dev, DEV)
      && dentry.name.Length == NAME_LEN && dentry.name != mem
    }

    /** The shared entry holds exactly that name and inode number. */
    ghost predicate Shows(entry: (seq<Byte>, nat))
      reads dentry, dentry.name
    {
      Named(dentry.name[..], entry.0) && dentry.ino == entry.1
    }

    predicate InTree(node: Node)
      reads this
    {
      node.Entry? ==> node.k < |rootNodes|
    }

    function Deref(node: Node): Inode
      requires InTree(node)
      reads this
    {
      match node
      case Root => root
      case Dev => dev
      case Entry(k) => rootNodes[k]
    }

    /** `file_headers[i].offset += addr`. */
    method Relocate(addr: Word, i: nat, ghost fs: seq<File>)
      requires Loadable(fs) && addr + ImageSize(fs) < WORD_LIMIT && i < |fs| && Mixed(mem[..], addr, fs, i)
      modifies mem
      ensures Mixed(mem[..], addr, fs, i + 1)
    {
      ghost var m := mem[..];
      RelocatedWord(m, addr, fs, i);
      RelocateStep(m, addr, fs, i, addr + Offset(fs, i));
      var off := Load32(mem, OffsetField(addr, i));
      Put32(mem, OffsetField(addr, i), Add32(off, addr));
    }

    method InodeAt(h: nat, i: nat, ghost f: File, ghost off: int) returns (node: Inode)
      requires Describes(mem[..], h, f.name, off, |f.data|) && 0 < |f.name| <= 63
      ensures FileNode(node, f, i)
    {
      var name := InodeName(mem[..], h + 1);
      var length := Load32(mem, h + 72);
      node := Inode(name, FS_FILE, i, length, true, false, false);
    }

    /** The inode of file `i`, from its relocated header. */
    method FileInode(addr: Word, i: nat, ghost fs: seq<File>) returns (node: Inode)
      requires Loadable(fs) && i < |fs| && Mixed(mem[..], addr, fs, i + 1)
      ensures FileNode(node, fs[i], i)
    {
      RelocatedHeader(mem[..], addr, fs, i + 1, i);
      node := InodeAt(HeaderAt(addr, i), i, fs[i], addr + Offset(fs, i));
    }

    /** The loop of `ramdisk_init`. */
    method BuildNodes(addr: Word, ghost fs: seq<File>)
      requires Loadable(fs) && addr + ImageSize(fs) < WORD_LIMIT && ImageAt(mem[..], addr, 0, fs)
      modifies this`rootNodes, mem
      ensures ImageAt(mem[..], addr, addr, fs)
      ensures |rootNodes| == |fs| && forall k | 0 <= k < |fs| :: FileNode(rootNodes[k], fs[k], k)
    {
      rootNodes := [];
      MixedEnds(mem[..], addr, fs);
      OffsetBounds(fs, 0);
      var n := Load32(mem, addr);
      for i := 0 to n
        invariant n == |fs| && |rootNodes| == i && Mixed(mem[..], addr, fs, i)
        invariant forall k | 0 <= k < i :: FileNode(rootNodes[k], fs[k], k)
      {
        Relocate(addr, i, fs);
        var node := FileInode(addr, i, fs);
        rootNodes := rootNodes + [node];
      }
      MixedEnds(mem[..], addr, fs);
    }

    /** `ramdisk_init`: relocates every header in place and builds the inodes. */
    method Init(addr: Word, ghost fs: seq<File>)
      requires Loadable(fs) && addr + ImageSize(fs) < WORD_LIMIT && ImageAt(mem[..], addr, 0, fs)
      requires dentry.name.Length == NAME_LEN && dentry.name != mem
      modifies this, mem
      ensures Mounted() && files == fs && base == addr
    {
      files, base := fs, addr;
      root := DirInode(INITRD);
      dev := DirInode(DEV);
      BuildNodes(addr, fs);
    }

    /** `file_headers[ino]`: where the data starts and how long it is. */
    method Header(ino: nat) returns (start: Word, length: Word)
      requires Mounted() && ino < |files|
      ensures start == base + Offset(files, ino) && length == |files[ino].data|
    {
      ImageHeader(mem[..], base, files, ino);
      start := Load32(mem, OffsetField(base, ino));
      length := Load32(mem, HeaderAt(base, ino) + 72);
    }

    /** The copy of `read`. */
    method CopyOut(k: nat, start: Word, offset: Word, n: Word, buffer: array<Byte>, at: nat)
      requires Mounted() && k < |files| && start == base + Offset(files, k) && buffer != mem
      requires offset + n <= |files[k].data| && at + n <= buffer.Length
      modifies buffer
      ensures buffer[..] == Copied(old(buffer[..]), at, files[k].data[offset..offset + n])
    {
      OffsetBounds(files, k);
      DataReads(mem[..], base, files, k, offset, n);
      MemCpyTo(buffer, at, mem, Add32(start, offset), n);
    }

    /** `read`. */
    method Read(node: Node, offset: Word, size: Word, buffer: array<Byte>, at: nat) returns (n: Word)
      requires Mounted() && node.Entry? && node.k < |files| && buffer != mem
      requires ReadSafe(|files[node.k].data|, offset, size)
      requires at + ReadCount(|files[node.k].data|, offset, size) <= buffer.Length
      modifies buffer
      ensures n == |ReadBytes(files[node.k].data, offset, size)|
      ensures buffer[..] == Copied(old(buffer[..]), at, ReadBytes(files[node.k].data, offset, size))
    {
      assert FileNode(rootNodes[node.k], files[node.k], node.k);
      var start, length := Header(rootNodes[node.k].ino);
      if length < offset {
        NoCopy(buffer[..], at);
        return 0;
      }
      n := size;
      if Add32(offset, size) > length {
        n := length - offset;
      }
      ReadBytesAre(files[node.k].data, offset, size, n);
      CopyOut(node.k, start, offset, n, buffer, at);
    }

    /** `finddir`. */
    method FindDir(node: Node, name: seq<Byte>, p: nat) returns (r: Option<Node>)
      requires Mounted() && Terminated(name, p)
      ensures r == Lookup(files, node, Text(name, p))
    {
      Literal(DEV);
      var different := StrCmp(name, p, DEV + [0], 0);
      if node == Root && different == 0 {
        return Some(Dev);
      }
      for i := 0 to |rootNodes|
        invariant FindFrom(files, Text(name, p), 0) == FindFrom(files, Text(name, p), i)
      {
        assert FileNode(rootNodes[i], files[i], i);
        different := StrCmp(name, p, rootNodes[i].name, 0);
        if different == 0 {
          return Some(Entry(i));
        }
      }
      return None;
    }

    /** `readdir`: fills the shared entry, or returns NULL. */
    method ReadDir(node: Node, index: Word) returns (found: bool)
      requires Mounted()
      modifies dentry, dentry.name
      ensures Mounted()
      ensures found <==> Listed(files, node, index).Some?
      ensures found ==> Shows(Listed(files, node, index).value)
    {
      if node == Root && index == 0 {
        Literal(DEV);
        dentry.SetName(DEV + [0], 0);
        dentry.ino := 0;
        return true;
      }
      var i := if index == 0 then WORD_LIMIT - 1 else index - 1;
      if i >= |rootNodes| {
        return false;
      }
      assert FileNode(rootNodes[i], files[i], i);
      dentry.SetName(rootNodes[i].name, 0);
      dentry.ino := rootNodes[i].ino;
      return true;
    }

    // -------------------------------------------------------------------------
    // vfs.c
    // -------------------------------------------------------------------------

    /** `read_fs`: dispatches to the driver for a file and reads nothing from a directory. */
    method ReadFs(node: Node, offset: Word, size: Word, buffer: array<Byte>, at: nat) returns (n: Word)
      requires Mounted() && InTree(node) && buffer != mem
      requires node.Entry? ==> ReadSafe(|files[node.k].data|, offset, size)
      requires node.Entry? ==> at + ReadCount(|files[node.k].data|, offset, size) <= buffer.Length
      modifies buffer
      ensures node.Entry? ==>
                && n == |ReadBytes(files[node.k].data, offset, size)|
                && buffer[..] == Copied(old(buffer[..]), at, ReadBytes(files[node.k].data, offset, size))
      ensures !node.Entry? ==> n == 0 && buffer[..] == old(buffer[..])
    {
      assert node.Entry? ==> FileNode(rootNodes[node.k], files[node.k], node.k);
      if Deref(node).hasRead {
        n := Read(node, offset, size, buffer, at);
      } else {
        n := 0;
      }
    }

    /** `finddir_fs`: only a directory has entries. */
    method FinddirFs(node: Node, name: seq<Byte>, p: nat) returns (r: Option<Node>)
      requires Mounted() && InTree(node) && Terminated(name, p)
      ensures r == if node.Entry? then None else Lookup(files, node, Text(name, p))
    {
      assert node.Entry? ==> FileNode(rootNodes[node.k], files[node.k], node.k);
      if Deref(node).flags == FS_DIRECTORY && Deref(node).hasFinddir {
        r := FindDir(node, name, p);
      } else {
        r := None;
      }
    }

    /** `readdir_fs`. */
    method ReaddirFs(node: Node, index: Word) returns (found: bool)
      requires Mounted() && InTree(node)
      modifies dentry, dentry.name
      ensures Mounted()
      ensures found <==> !node.Entry? && Listed(files, node, index).Some?
      ensures found ==> Shows(Listed(files, node, index).value)
    {
      assert node.Entry? ==> FileNode(rootNodes[node.k], files[node.k], node.k);
      if Deref(node).flags == FS_DIRECTORY && Deref(node).hasReaddir {
        found := ReadDir(node, index);
      } else {
        found := false;
      }
    }
  }

  // ---------------------------------------------------------------------------
  // kernel.c: the walk over the root directory
  // ---------------------------------------------------------------------------

  /** What one step of the walk sees: the name listed and, for a file, the first 256 bytes. */
  datatype Seen = Seen(name: seq<Byte>, ino: nat, content: Option<seq<Byte>>)

  /** What the walk should see. */
  function Expected(files: seq<File>, i: nat): Seen
    requires i <= |files|
  {
    if i == 0 then Seen(DEV, 0, None)
    else Seen(files[i - 1].name, i - 1, Some(Clip(files[i - 1].data, 0, 256)))
  }

  /** Step 0 of the walk sees "dev", and step i the name, the number and the first 256 bytes of file i - 1. */
  lemma ExpectedMeans(files: seq<File>, i: nat)
    requires i <= |files|
    ensures i == 0 ==> Expected(files, i) == Seen([100, 101, 118], 0, None)
    ensures i > 0 ==>
              var f := files[i - 1];
              Expected(files, i) == Seen(f.name, i - 1, Some(if |f.data| <= 256 then f.data else f.data[..256]))
  {
  }

  /** The walk so far: `seen` is what it should be, and none of the files passed was empty. */
  predicate Passed(files: seq<File>, seen: seq<Seen>) {
    && |seen| <= |files| + 1
    && (forall i | 0 <= i < |seen| :: seen[i] == Expected(files, i))
    && (forall k | 0 <= k < |seen| - 1 :: files[k].data != [])
  }

  datatype State = More | Done | Panicked

  predicate Reached(files: seq<File>, seen: seq<Seen>, state: State) {
    && Passed(files, seen)
    && (state == Done ==> |seen| == |files| + 1)
    && (state == Panicked ==> 0 < |seen| <= |files| && files[|seen| - 1].data == [])
  }

  lemma PassedSnoc(files: seq<File>, seen: seq<Seen>, r: Seen)
    requires Passed(files, seen) && |seen| <= |files| && r == Expected(files, |seen|)
    requires |seen| > 0 ==> files[|seen| - 1].data != []
    ensures Passed(files, seen + [r])
  {
  }

  lemma CountBound(files: seq<File>)
    requires Packable(files)
    ensures |files| <= MAX_FILES
  {
  }

  /** `read_fs(ino, 0, 256, buf)`. */
  method ReadStart(disk: Disk, k: nat) returns (content: seq<Byte>)
    requires disk.Mounted() && k < |disk.files|
    ensures content == Clip(disk.files[k].data, 0, 256)
  {
    var buffer := Zeroed(256);
    ghost var before := buffer[..];
    ghost var bytes := ReadBytes(disk.files[k].data, 0, 256);
    ReadIsClip(disk.files[k].data, 0, 256);
    var n := disk.ReadFs(Entry(k), 0, 256, buffer, 0);
    CopiedSlices(before, 0, bytes, 0, 0);
    content := buffer[..n];
  }

  /** One step: look the listed name up and read the first 256 bytes of a file. */
  method Visit(disk: Disk, i: Word) returns (r: Seen, empty: bool)
    requires disk.Mounted() && Distinct(disk.files) && i <= |disk.files| && Listed(disk.files, Root, i).Some?
    requires disk.Shows(Listed(disk.files, Root, i).value)
    ensures empty <==> i > 0 && disk.files[i - 1].data == []
    ensures !empty ==> r == Expected(disk.files, i)
  {
    ListedIsFound(disk.files, i);
    var name := disk.dentry.name[..];
    var node := disk.FinddirFs(Root, name, 0);
    if i > 0 { assert FileNode(disk.rootNodes[i - 1], disk.files[i - 1], i - 1); }
    if disk.Deref(node.value).flags == FS_DIRECTORY {
      return Seen(Text(name, 0), disk.dentry.ino, None), false;
    }
    var content := ReadStart(disk, i - 1);
    empty := |content| <= 0;
    r := Seen(Text(name, 0), disk.dentry.ino, Some(content));
  }

  /** One turn of the loop of `kmain`. */
  method Step(disk: Disk, before: seq<Seen>) returns (seen: seq<Seen>, state: State)
    requires disk.Mounted() && Distinct(disk.files) && Passed(disk.files, before)
    modifies disk.dentry, disk.dentry.name
    ensures disk.Mounted() && Reached(disk.files, seen, state)
    ensures state == More ==> |seen| == |before| + 1
    ensures state != More ==> seen == before
  {
    seen := before;
    CountBound(disk.files);
    ListedIsFound(disk.files, |seen|);
    var found := disk.ReaddirFs(Root, |seen|);
    if !found {
      return seen, Done;
    }
    var r, empty := Visit(disk, |seen|);
    if empty {
      return seen, Panicked;
    }
    PassedSnoc(disk.files, seen, r);
    return seen + [r], More;
  }

  /** The loop of `kmain`: it sees "dev" and then every file once, in order, with the first bytes of each.
      It ends after nfiles + 1 steps, or panics at the first empty file. */
  method Walk(disk: Disk) returns (seen: seq<Seen>, panicked: bool)
    requires disk.Mounted() && Distinct(disk.files)
    modifies disk.dentry, disk.dentry.name
    ensures disk.Mounted() && Passed(disk.files, seen)
    ensures !panicked ==> |seen| == |disk.files| + 1
    ensures panicked ==> 0 < |seen| <= |disk.files| && disk.files[|seen| - 1].data == []
  {
    seen := [];
    var state := More;
    while state == More
      invariant disk.Mounted() && Reached(disk.files, seen, state) && disk.files == old(disk.files)
      decreases |disk.files| + 1 - |seen|, state == More
    {
      seen, state := Step(disk, seen);
    }
    panicked := state == Panicked;
  }

  // ---------------------------------------------------------------------------
  // Reading a file in chunks
  // ---------------------------------------------------------------------------

  /** Two texts, one behind the other in a buffer. */
  lemma BehindCopied(m: seq<Byte>, at: nat, pos: nat, x: seq<Byte>, y: seq<Byte>, z: seq<Byte>)
    requires z == x + y && at + |z| <= |m| && pos == at + |x|
    ensures pos + |y| == at + |z| && Copied(Copied(m, at, x), pos, y) == Copied(m, at, z)
  {
    CopiedTwice(m, at, x, y);
  }

  lemma ReadIsClipTo(data: seq<Byte>, offset: Word, size: Word, end: nat)
    requires end == offset + size < WORD_LIMIT
    ensures ReadSafe(|data|, offset, size) && |ReadBytes(data, offset, size)| == ReadCount(|data|, offset, size)
    ensures ReadBytes(data, offset, size) == Clip(data, offset, end)
  {
    ReadIsClip(data, offset, size);
  }

  /** What reading one more chunk does. */
  lemma ChunkRead(m: seq<Byte>, at: nat, pos: nat, data: seq<Byte>, offset: nat, mid: Word, size: Word, next: nat)
    requires offset <= mid <= next == mid + size < WORD_LIMIT && at + |Clip(data, offset, next)| <= |m|
    requires pos == at + |Clip(data, offset, mid)| <= |m|
    ensures ReadSafe(|data|, mid, size)
    ensures |ReadBytes(data, mid, size)| == ReadCount(|data|, mid, size)
    ensures pos + |ReadBytes(data, mid, size)| == at + |Clip(data, offset, next)|
    ensures Copied(Copied(m, at, Clip(data, offset, mid)), pos, ReadBytes(data, mid, size)) ==
            Copied(m, at, Clip(data, offset, next))
  {
    ReadIsClipTo(data, mid, size, next);
    ClipSplit(data, offset, mid, next);
    BehindCopied(m, at, pos, Clip(data, offset, mid), ReadBytes(data, mid, size), Clip(data, offset, next));
  }

  /** A shorter range has no more bytes. */
  lemma ClipShorter(data: seq<Byte>, a: nat, b: nat, c: nat)
    requires a <= b <= c
    ensures |Clip(data, a, b)| <= |Clip(data, a, c)|
  {
    ClipSplit(data, a, b, c);
  }

  /** One more chunk: the bytes from `mid` to `next`, behind those from `offset` to `mid`. */
  method ReadChunk(disk: Disk, k: nat, mid: Word, size: Word, buffer: array<Byte>, pos: nat,
                   ghost offset: nat, ghost next: nat, ghost before: seq<Byte>, ghost at: nat)
    returns (n: Word)
    requires disk.Mounted() && k < |disk.files| && buffer != disk.mem && offset <= mid <= next < WORD_LIMIT
    requires next == mid + size && |before| == buffer.Length
    requires at + |Clip(disk.files[k].data, offset, next)| <= |before|
    requires at + |Clip(disk.files[k].data, offset, mid)| <= |before|
    requires pos == at + |Clip(disk.files[k].data, offset, mid)|
    requires buffer[..] == Copied(before, at, Clip(disk.files[k].data, offset, mid))
    modifies buffer
    ensures buffer[..] == Copied(before, at, Clip(disk.files[k].data, offset, next))
    ensures pos + n == at + |Clip(disk.files[k].data, offset, next)|
  {
    ChunkRead(before, at, pos, disk.files[k].data, offset, mid, size, next);
    n := disk.ReadFs(Entry(k), mid, size, buffer, pos);
  }

  /** Reading a file chunk by chunk with `read_fs`, each behind the one before, gives its bytes in order. */
  method ReadInChunks(disk: Disk, k: nat, offset: Word, sizes: seq<Word>, buffer: array<Byte>, at: nat)
    returns (total: nat)
    requires disk.Mounted() && k < |disk.files| && buffer != disk.mem && offset + Sum(sizes) < WORD_LIMIT
    requires at + |Clip(disk.files[k].data, offset, offset + Sum(sizes))| <= buffer.Length
    modifies buffer
    ensures var bytes := Clip(disk.files[k].data, offset, offset + Sum(sizes));
            total == |bytes| && buffer[..] == Copied(old(buffer[..]), at, bytes)
  {
    ghost var data, before, end := disk.files[k].data, buffer[..], offset + Sum(sizes);
    var mid, pos, i := offset, at, 0;
    ClipEmpty(data, offset, offset);
    NoCopy(before, at);
    assert sizes[0..] == sizes;
    while i < |sizes|
      invariant 0 <= i <= |sizes| && offset <= mid <= end && mid + Sum(sizes[i..]) == end
      invariant disk.Mounted() && pos == at + |Clip(data, offset, mid)| <= |before|
      invariant buffer[..] == Copied(before, at, Clip(data, offset, mid))
    {
      var size := sizes[i];
      SumStep(sizes, i);
      var next := mid + size;
      ClipShorter(data, offset, next, end);
      var n := ReadChunk(disk, k, mid, size, buffer, pos, offset, next, before, at);
      mid, pos, i := next, pos + n, i + 1;
    }
    assert sizes[i..] == [] && mid == end;
    total := pos - at;
  }

  // ---------------------------------------------------------------------------
  // Packing and reading back
  // ---------------------------------------------------------------------------

  /** The boot loader puts the image at `addr`. */
  method LoadImage(mem: array<Byte>, addr: nat, img: seq<Byte>)
    requires addr + |img| <= mem.Length
    modifies mem
    ensures mem[..] == Copied(old(mem[..]), addr, img)
  {
    ghost var before := mem[..];
    for i := 0 to |img|
      invariant mem[..] == Copied(before, addr, img[..i])
    {
      CopiedStep(before, addr, img, i, i + 1);
      mem[addr + i] := img[i];
    }
    assert img[..|img|] == img;
  }

  lemma MovedSlice(m: seq<Byte>, addr: nat, img: seq<Byte>, a: nat, b: nat)
    requires addr + |img| <= |m| && m[addr..addr + |img|] == img && a <= b <= |img|
    ensures m[addr + a..addr + b] == img[a..b]
  {
    SubSlice(m, addr, |img|, a, b);
  }

  lemma FileMoves(m: seq<Byte>, addr: nat, img: seq<Byte>, files: seq<File>, k: nat)
    requires ImageAt(img, 0, 0, files) && |img| == ImageSize(files) && addr + |img| <= |m| && k < |files|
    requires m[addr..addr + |img|] == img
    ensures FileAt(m, addr, 0, files, k)
  {
    OffsetBounds(files, k);
    assert FileAt(img, 0, 0, files, k);
    var h, d := HeaderAt(addr, k), addr + Offset(files, k);
    MovedSlice(m, addr, img, HeaderAt(0, k), HeaderAt(0, k) + HEADER_SIZE);
    MovedSlice(m, addr, img, Offset(files, k), Offset(files, k) + |files[k].data|);
    assert m[h..h + HEADER_SIZE] == img[HeaderAt(0, k)..HeaderAt(0, k) + HEADER_SIZE];
    assert m[d..d + |files[k].data|] == files[k].data;
  }

  /** An image is an image wherever it lies. */
  lemma ImageMoves(m: seq<Byte>, addr: nat, img: seq<Byte>, files: seq<File>)
    requires ImageAt(img, 0, 0, files) && |img| == ImageSize(files) && addr + |img| <= |m|
    ensures ImageAt(Copied(m, addr, img), addr, 0, files)
  {
    var m' := Copied(m, addr, img);
    OffsetBounds(files, 0);
    CopiedSlices(m, addr, img, 0, 0);
    WordInSlice(m', addr, |img|, 0);
    forall k | 0 <= k < |files| ensures FileAt(m', addr, 0, files, k) {
      FileMoves(m', addr, img, files, k);
    }
  }

  method MountPacked(files: seq<File>, headers: array<Byte>, mem: array<Byte>, addr: Word) returns (disk: Disk)
    requires Loadable(files) && headers.Length == HEADER_SIZE * MAX_FILES
    requires addr + ImageSize(files) <= mem.Length && addr + ImageSize(files) < WORD_LIMIT
    modifies headers, mem
    ensures fresh(disk) && disk.Mounted() && disk.files == files && disk.mem == mem
  {
    var img := Pack(files, headers);
    ghost var before := mem[..];
    LoadImage(mem, addr, img);
    ImageMoves(before, addr, img, files);
    disk := new Disk(mem);
    disk.Init(addr, files);
  }

  /** Read a whole file in one call. */
  method ReadWhole(disk: Disk, k: nat) returns (data: seq<Byte>)
    requires disk.Mounted() && k < |disk.files|
    ensures data == disk.files[k].data
  {
    var _, length := disk.Header(k);
    var buffer := Zeroed(length);
    ghost var before := buffer[..];
    ReadIsClip(disk.files[k].data, 0, length);
    var n := disk.ReadFs(Entry(k), 0, length, buffer, 0);
    CopiedSlices(before, 0, disk.files[k].data, 0, 0);
    data := buffer[..n];
  }

  /** Packing then reading is the identity: the files packed by misc/initrd.c, loaded anywhere, mounted, looked
      up by name and read give back their exact bytes. `headers` and `mem` hold anything before. */
  method PackMountRead(files: seq<File>, headers: array<Byte>, mem: array<Byte>, addr: Word, k: nat)
    returns (found: bool, data: seq<Byte>)
    requires Loadable(files) && Distinct(files) && k < |files| && headers.Length == HEADER_SIZE * MAX_FILES
    requires addr + ImageSize(files) <= mem.Length && addr + ImageSize(files) < WORD_LIMIT
    modifies headers, mem
    ensures found && data == files[k].data
  {
    var disk := MountPacked(files, headers, mem, addr);
    var name := files[k].name + [0];
    Literal(files[k].name);
    FoundWhereListed(files, k);
    var node := disk.FinddirFs(Root, name, 0);
    found := node == Some(Entry(k));
    data := ReadWhole(disk, k);
  }
}
