/** `sys_linkat` and `sys_unlinkat` on the single root directory: the inode
    cache (inode number to cached fields) and the root directory (name to
    inode number; `None` when `root_dir()` yields no inode). */
module FileSystem {
  import opened Types
  import opened Files

  datatype Fs = Fs(inodes: map<nat, InodeRec>, root: Option<map<string, nat>>)

  /** Every directory entry names a cached inode. */
  predicate EntriesCached(fs: Fs)
  {
    fs.root.Some? ==> forall n :: n in fs.root.value ==> fs.root.value[n] in fs.inodes
  }

  /** `dirlink`: adds an entry, refusing a name that is already present. */
  function DirLink(dir: map<string, nat>, name: string, inum: nat): (map<string, nat>, int)
  {
    if name in dir then (dir, -1) else (dir[name := inum], 0)
  }

  /** `sys_linkat(olddirfd, oldpath, newdirfd, newpath, flags)` with both
      names already copied in; the directory descriptors and flags are
      ignored. The link count is raised and persisted before `dirlink` runs,
      and `dirlink`'s result is not looked at. */
  function Linkat(fs: Fs, oldname: string, newname: string): (Fs, int)
    requires EntriesCached(fs)
  {
    if fs.root.None? then (fs, -1)
    else if oldname !in fs.root.value then (fs, -1)
    else
      var dir := fs.root.value;
      var inum := dir[oldname];
      var ip := fs.inodes[inum];
      var inodes := fs.inodes[inum := ip.(nlink := ip.nlink + 1)];
      (Fs(inodes, Some(DirLink(dir, newname, inum).0)), 0)
  }

  /** `sys_unlinkat(dirfd, path, flags)` with the name already copied in. */
  function Unlinkat(fs: Fs, name: string): (Fs, int)
    requires EntriesCached(fs)
  {
    if fs.root.None? then (fs, -1)
    else if name !in fs.root.value then (fs, -1)
    else
      var dir := fs.root.value;
      var inum := dir[name];
      var ip := fs.inodes[inum];
      (Fs(fs.inodes[inum := ip.(nlink := ip.nlink - 1)], Some(dir - {name})), 0)
  }

  /** `sys_linkat` succeeds exactly when the root directory exists and holds
      `oldname`; a failure changes nothing. On success the old name's inode
      gains one link and no other inode changes; a new name then resolves to
      the same inode as the old one, while a name already present is left
      as it was. */
  lemma LinkatEffect(fs: Fs, oldname: string, newname: string)
    requires EntriesCached(fs)
    ensures var (fs', r) := Linkat(fs, oldname, newname);
            && (r == 0 <==> fs.root.Some? && oldname in fs.root.value)
            && (r != 0 ==> r == -1 && fs' == fs)
            && (r == 0 ==>
                  var dir := fs.root.value;
                  var i := dir[oldname];
                  && fs'.root.Some?
                  && fs'.inodes.Keys == fs.inodes.Keys
                  && fs'.inodes[i].nlink == fs.inodes[i].nlink + 1
                  && fs'.inodes[i].dev == fs.inodes[i].dev && fs'.inodes[i].itype == fs.inodes[i].itype
                  && (forall j :: j in fs.inodes && j != i ==> fs'.inodes[j] == fs.inodes[j])
                  && (newname !in dir ==> fs'.root.value == dir[newname := i])
                  && (newname in dir ==> fs'.root.value == dir))
  {
  }

  /** `sys_unlinkat` succeeds exactly when the root directory exists and holds
      `name`; a failure changes nothing. On success the name's inode loses one
      link, no other inode changes, and the name no longer resolves. */
  lemma UnlinkatEffect(fs: Fs, name: string)
    requires EntriesCached(fs)
    ensures var (fs', r) := Unlinkat(fs, name);
            && (r == 0 <==> fs.root.Some? && name in fs.root.value)
            && (r != 0 ==> r == -1 && fs' == fs)
            && (r == 0 ==>
                  var i := fs.root.value[name];
                  && fs'.root == Some(fs.root.value - {name})
                  && name !in fs'.root.value
                  && fs'.inodes.Keys == fs.inodes.Keys
                  && fs'.inodes[i].nlink == fs.inodes[i].nlink - 1
                  && fs'.inodes[i].dev == fs.inodes[i].dev && fs'.inodes[i].itype == fs.inodes[i].itype
                  && (forall j :: j in fs.inodes && j != i ==> fs'.inodes[j] == fs.inodes[j]))
  {
  }

  /** Both calls keep every directory entry pointing at a cached inode. */
  lemma LinkatUnlinkatKeepEntriesCached(fs: Fs, a: string, b: string)
    requires EntriesCached(fs)
    ensures EntriesCached(Linkat(fs, a, b).0)
    ensures EntriesCached(Unlinkat(fs, a).0)
  {
  }

  // ---------------------------------------------------------------------
  // Link counts

  /** The names in `dir` that resolve to inode `i`. */
  function Names(dir: map<string, nat>, i: nat): set<string>
  {
    set n | n in dir && dir[n] == i
  }

  /** In a file system with one directory, the link count of every regular
      file is the number of names that resolve to it. */
  ghost predicate LinksCounted(fs: Fs)
  {
    fs.root.Some? &&
    forall i :: i in fs.inodes && fs.inodes[i].itype == Regular ==>
      fs.inodes[i].nlink == |Names(fs.root.value, i)|
  }

  lemma {:induction false} NamesAfterAdd(dir: map<string, nat>, name: string, i: nat, j: nat)
    requires name !in dir
    ensures Names(dir[name := i], j) == if j == i then Names(dir, j) + {name} else Names(dir, j)
    ensures name !in Names(dir, j)
  {
  }

  lemma {:induction false} NamesAfterRemove(dir: map<string, nat>, name: string, j: nat)
    requires name in dir
    ensures Names(dir - {name}, j) == Names(dir, j) - {name}
    ensures name in Names(dir, j) <==> dir[name] == j
  {
  }

  /** `sys_linkat` to a name not yet in the directory keeps every regular
      file's link count equal to its number of names. */
  lemma {:induction false} LinkatKeepsLinksCounted(fs: Fs, oldname: string, newname: string)
    requires EntriesCached(fs) && LinksCounted(fs)
    requires newname !in fs.root.value
    ensures LinksCounted(Linkat(fs, oldname, newname).0)
  {
    var fs' := Linkat(fs, oldname, newname).0;
    if oldname in fs.root.value {
      var dir := fs.root.value;
      var i := dir[oldname];
      forall j | j in fs'.inodes && fs'.inodes[j].itype == Regular
        ensures fs'.inodes[j].nlink == |Names(fs'.root.value, j)|
      {
        NamesAfterAdd(dir, newname, i, j);
        if j == i {
          assert |Names(dir, j) + {newname}| == |Names(dir, j)| + 1;
        }
      }
    }
  }

  /** `sys_unlinkat` keeps every regular file's link count equal to its
      number of names. */
  lemma {:induction false} UnlinkatKeepsLinksCounted(fs: Fs, name: string)
    requires EntriesCached(fs) && LinksCounted(fs)
    ensures LinksCounted(Unlinkat(fs, name).0)
  {
    var fs' := Unlinkat(fs, name).0;
    if name in fs.root.value {
      var dir := fs.root.value;
      var i := dir[name];
      forall j | j in fs'.inodes && fs'.inodes[j].itype == Regular
        ensures fs'.inodes[j].nlink == |Names(fs'.root.value, j)|
      {
        NamesAfterRemove(dir, name, j);
        if j == i {
          assert |Names(dir, j) - {name}| == |Names(dir, j)| - 1;
        }
      }
    }
  }

  /** Because `dirlink`'s refusal is ignored, `sys_linkat` onto a name that
      already exists reports success and raises a link count that no new
      name backs: with "a" and "b" naming two files, linking "a" as "b"
      leaves the directory as it was and file 1 with two links. */
  lemma LinkatOntoExistingNameBreaksCount()
    ensures var fs := Fs(map[1 := InodeRec(0, Regular, 1), 2 := InodeRec(0, Regular, 1)],
                         Some(map["a" := 1, "b" := 2]));
            var (fs', r) := Linkat(fs, "a", "b");
            && LinksCounted(fs)
            && r == 0
            && fs'.root == fs.root
            && fs'.inodes[1].nlink == 2
            && !LinksCounted(fs')
  {
    var dir := map["a" := 1, "b" := 2];
    assert "a" != "b";
    assert Names(dir, 1) == {"a"};
    assert Names(dir, 2) == {"b"};
  }
}
