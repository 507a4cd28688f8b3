/**
 Numbers as folders: one folder per digit, so a longer number lies inside a shorter one. Each number has a
 configuration file and an inbox folder.
 */
module NumberTree {
  import opened Bytes
  import opened Filters

  type Name = nat
  type Path = seq<Name>
  type Digit = d: nat | d < 10
  type Number = seq<Digit>

  const MIN_DIGITS := 3
  const MAX_DIGITS := 16

  // The encrypted folder name of every digit, of the configuration file and of the inbox.
  datatype Layout = Layout(letters: seq<Name>, config: Name, inbox: Name)

  predicate GoodLayout(l: Layout)
  {
    && |l.letters| == 10
    && (forall i, j :: 0 <= i < j < 10 ==> l.letters[i] != l.letters[j])
    && l.config !in l.letters && l.inbox !in l.letters && l.config != l.inbox
  }

  function Folder(l: Layout, num: Number): (p: Path)
    requires |l.letters| == 10
    ensures |p| == |num|
  {
    seq(|num|, i requires 0 <= i < |num| => l.letters[num[i]])
  }

  function Config(l: Layout, num: Number): Path requires |l.letters| == 10 { Folder(l, num) + [l.config] }
  function Inbox(l: Layout, num: Number): Path requires |l.letters| == 10 { Folder(l, num) + [l.inbox] }

  // ---- the digits of a number as it was typed ----

  predicate IsDigit(b: byte) { 48 <= b <= 57 }

  function Digits(s: str): Number
  {
    if s == [] then []
    else Digits(s[..|s| - 1]) + if IsDigit(s[|s| - 1]) then [s[|s| - 1] - 48] else []
  }

  lemma {:induction false} DigitsPrefix(s: str, i: nat)
    requires i <= |s|
    ensures |Digits(s[..i])| <= |Digits(s)|
    decreases |s|
  {
    if i < |s| {
      DigitsPrefix(s[..|s| - 1], i);
      assert s[..|s| - 1][..i] == s[..i];
    } else {
      assert s[..i] == s;
    }
  }

  /** The digits of a text are those of its parts in order; one byte is a digit from 48 to 57, and no other. */
  lemma {:induction false} DigitsOf(a: str, b: str)
    ensures Digits(a + b) == Digits(a) + Digits(b)
    decreases |b|
  {
    if b == [] {
      assert a + b == a;
    } else {
      assert (a + b)[..|a + b| - 1] == a + b[..|b| - 1];
      DigitsOf(a, b[..|b| - 1]);
    }
  }

  lemma DigitOf(b: byte)
    ensures Digits([b]) == if 48 <= b < 58 then [b - 48] else []
  {
    assert [b][..0] == [];
  }

  datatype Cleaned = Clean(num: Number, path: Path) | TooLong | TooShort

  // Everything but digits is skipped; the length is checked as the digits are found.
  method GetCleanNumWithPath(l: Layout, source: str) returns (r: Cleaned)
    requires |l.letters| == 10
    ensures r == var num := Digits(source);
                 if |num| > 16 then TooLong else if |num| < 3 then TooShort
                 else Clean(num, Folder(l, num))
  {
    var num: Number := [];
    var path: Path := [];
    var i := 0;
    while i < |source|
      invariant 0 <= i <= |source| && num == Digits(source[..i]) && |num| <= MAX_DIGITS && path == Folder(l, num)
    {
      assert source[..i + 1][..i] == source[..i];
      if IsDigit(source[i]) {
        num := num + [source[i] - 48];
        path := path + [l.letters[source[i] - 48]];
        if |num| > MAX_DIGITS {
          DigitsPrefix(source, i + 1);
          return TooLong;
        }
      }
      i := i + 1;
    }
    assert source[..i] == source;
    r := if |num| < MIN_DIGITS then TooShort else Clean(num, path);
  }

  // ---- the file system ----

  predicate Below(p: Path, root: Path) { |root| < |p| && root == p[..|root|] }
  predicate AtOrBelow(p: Path, root: Path) { |root| <= |p| && root == p[..|root|] }

  // Below root, through one of these children.
  predicate Through(p: Path, root: Path, children: set<Name>) { Below(p, root) && p[|root|] in children }

  // Every entry lies in a folder, and a file is no folder.
  ghost predicate Sane(dirs: set<Path>, files: map<Path, str>)
  {
    && [] in dirs
    && (forall p :: p in dirs && p != [] ==> p[..|p| - 1] in dirs)
    && (forall p :: p in files ==> p != [] && p !in dirs && p[..|p| - 1] in dirs)
  }

  lemma {:induction false} PrefixIsFolder(dirs: set<Path>, files: map<Path, str>, p: Path, n: nat)
    requires Sane(dirs, files) && n < |p| && (p in dirs || p in files)
    ensures p[..n] in dirs
    decreases |p|
  {
    var q := p[..|p| - 1];
    if n < |q| {
      PrefixIsFolder(dirs, files, q, n);
      assert q[..n] == p[..n];
    }
  }

  function DirsWithout(dirs: set<Path>, root: Path, children: set<Name>): set<Path>
  {
    set p | p in dirs && !Through(p, root, children)
  }

  function FilesWithout(files: map<Path, str>, root: Path, children: set<Name>): map<Path, str>
  {
    map p | p in files && !Through(p, root, children) :: files[p]
  }

  function DirsCut(dirs: set<Path>, root: Path): set<Path> { set p | p in dirs && !AtOrBelow(p, root) }
  function FilesCut(files: map<Path, str>, root: Path): map<Path, str>
  {
    map p | p in files && !AtOrBelow(p, root) :: files[p]
  }

  lemma ChildPrefix(p: Path, root: Path, c: Name)
    ensures AtOrBelow(p, root + [c]) <==> Through(p, root, {c})
  {
    if |p| > |root| {
      assert p[..|root| + 1] == p[..|root|] + [p[|root|]];
      assert (root + [c])[..|root|] == root && (root + [c])[|root|] == c;
    }
  }

  lemma CutChild(dirs: set<Path>, files: map<Path, str>, root: Path, done: set<Name>, c: Name)
    ensures DirsCut(DirsWithout(dirs, root, done), root + [c]) == DirsWithout(dirs, root, done + {c})
    ensures FilesCut(FilesWithout(files, root, done), root + [c]) == FilesWithout(files, root, done + {c})
  {
    forall p ensures AtOrBelow(p, root + [c]) <==> Through(p, root, {c}) { ChildPrefix(p, root, c); }
  }

  lemma WithoutNone(dirs: set<Path>, files: map<Path, str>, root: Path)
    ensures DirsWithout(dirs, root, {}) == dirs && FilesWithout(files, root, {}) == files
  {
  }

  lemma FileIsLeaf(dirs: set<Path>, files: map<Path, str>, f: Path, p: Path)
    requires Sane(dirs, files) && f in files && (p in dirs || p in files) && AtOrBelow(p, f)
    ensures p == f
  {
    if |p| > |f| { PrefixIsFolder(dirs, files, p, |f|); }
    assert p[..|p|] == p;
  }

  // Nothing lies below a file.
  lemma CutFile(dirs: set<Path>, files: map<Path, str>, f: Path)
    requires Sane(dirs, files) && f in files
    ensures DirsCut(dirs, f) == dirs && FilesCut(files, f) == files - {f}
  {
    forall p | (p in dirs || p in files) && AtOrBelow(p, f) ensures p == f { FileIsLeaf(dirs, files, f, p); }
  }

  lemma CutKeepsSane(dirs: set<Path>, files: map<Path, str>, root: Path)
    requires Sane(dirs, files) && root != []
    ensures Sane(DirsCut(dirs, root), FilesCut(files, root))
  {
    forall p: Path | p != [] ensures AtOrBelow(p[..|p| - 1], root) ==> AtOrBelow(p, root) { ParentCut(p, root); }
  }

  lemma ParentCut(p: Path, root: Path)
    requires p != []
    ensures AtOrBelow(p[..|p| - 1], root) ==> AtOrBelow(p, root)
  {
    assert |root| < |p| ==> p[..|p| - 1][..|root|] == p[..|root|];
  }

  function Under(dirs: set<Path>, root: Path): set<Path> { set p | p in dirs && AtOrBelow(p, root) }

  lemma UnderChild(dirs: set<Path>, root: Path, c: Name)
    requires root in dirs
    ensures |Under(dirs, root + [c])| < |Under(dirs, root)|
  {
    forall p | AtOrBelow(p, root + [c]) ensures AtOrBelow(p, root) { ChildPrefix(p, root, c); }
    assert root in Under(dirs, root) && root !in Under(dirs, root + [c]);
    SubsetSize(Under(dirs, root + [c]), Under(dirs, root) - {root});
  }

  lemma UnderShrinks(dirs: set<Path>, dirs0: set<Path>, root: Path)
    requires dirs <= dirs0
    ensures |Under(dirs, root)| <= |Under(dirs0, root)|
  {
    SubsetSize(Under(dirs, root), Under(dirs0, root));
  }

  // The names in a folder.
  function Children(dirs: set<Path>, files: map<Path, str>, root: Path): set<Name>
  {
    (set p | p in dirs && Below(p, root) && |p| == |root| + 1 :: p[|root|])
    + (set p | p in files && Below(p, root) && |p| == |root| + 1 :: p[|root|])
  }

  lemma CutHasNoChildren(dirs: set<Path>, files: map<Path, str>, root: Path)
    ensures Children(DirsCut(dirs, root) + {root}, FilesCut(files, root), root) == {}
  {
  }

  lemma ChildOfParent(dirs: set<Path>, files: map<Path, str>, p: Path)
    requires p != [] && (p in dirs || p in files)
    ensures p[|p| - 1] in Children(dirs, files, p[..|p| - 1])
  {
  }

  lemma AllThroughChildren(dirs: set<Path>, files: map<Path, str>, root: Path, p: Path)
    requires Sane(dirs, files) && (p in dirs || p in files) && Below(p, root)
    ensures p[|root|] in Children(dirs, files, root)
  {
    var n := |root| + 1;
    var q := p[..n];
    assert q in dirs || q in files by {
      if n < |p| { PrefixIsFolder(dirs, files, p, n); } else { assert q == p; }
    }
    assert q[..|root|] == p[..|root|] && q[|root|] == p[|root|];
  }

  lemma ChildThere(dirs: set<Path>, files: map<Path, str>, root: Path, c: Name)
    requires c in Children(dirs, files, root)
    ensures root + [c] in dirs || root + [c] in files
  {
    var p :| (p in dirs || p in files) && Below(p, root) && |p| == |root| + 1 && p[|root|] == c;
    assert p == p[..|root|] + [p[|root|]];
  }

  lemma StillThere(dirs: set<Path>, files: map<Path, str>, root: Path, done: set<Name>, c: Name)
    requires c in Children(dirs, files, root) && c !in done
    ensures root + [c] in DirsWithout(dirs, root, done) || root + [c] in FilesWithout(files, root, done)
  {
    ChildThere(dirs, files, root, c);
  }

  // Once every child is gone, so is everything below.
  lemma Emptied(dirs: set<Path>, files: map<Path, str>, root: Path, all: set<Name>)
    requires Sane(dirs, files) && root in dirs && all == Children(dirs, files, root)
    ensures DirsWithout(dirs, root, all) == DirsCut(dirs, root) + {root}
    ensures FilesWithout(files, root, all) == FilesCut(files, root)
  {
    forall p | (p in dirs || p in files) && Below(p, root) ensures Through(p, root, all) {
      AllThroughChildren(dirs, files, root, p);
    }
    assert forall p :: AtOrBelow(p, root) ==> p == root || Below(p, root);
  }

  datatype Fs = Fs(dirs: set<Path>, files: map<Path, str>)

  predicate DirectlyIn(p: Path, root: Path) { |p| == |root| + 1 && p[..|root|] == root }

  function Prefixes(p: Path): set<Path> { set i | 0 <= i <= |p| :: p[..i] }

  // ---- what adding, storing and deleting leave behind ----

  function AfterAdd(l: Layout, fs: Fs, num: Number, config: str): Fs
    requires |l.letters| == 10
  {
    Fs(fs.dirs + Prefixes(Folder(l, num)) + {Inbox(l, num)}, fs.files[Config(l, num) := config])
  }

  function AfterStore(l: Layout, fs: Fs, num: Number, name: Name, data: str): Fs
    requires |l.letters| == 10
  {
    fs.(files := fs.files[Inbox(l, num) + [name] := data])
  }

  // All files right in the number's folder, the inbox and everything in it.
  function AfterDelete(l: Layout, fs: Fs, num: Number): Fs
    requires |l.letters| == 10
  {
    Fs(DirsCut(fs.dirs, Inbox(l, num)), FilesCut(WithoutFilesIn(fs.files, Folder(l, num)), Inbox(l, num)))
  }

  function WithoutFilesIn(files: map<Path, str>, root: Path): map<Path, str>
  {
    map p | p in files && !DirectlyIn(p, root) :: files[p]
  }

  class FileSystem {
    var dirs: set<Path>
    var files: map<Path, str>

    ghost predicate Valid()
      reads this
    {
      Sane(dirs, files)
    }

    constructor ()
      ensures Valid() && dirs == {[]} && files == map[]
    {
      dirs, files := {[]}, map[];
    }

    ghost function Content(): Fs
      reads this
    {
      Fs(dirs, files)
    }

    // What exists already is fine, even a file of that name; without the parent folder it is an error.
    method MkDir(p: Path) returns (ok: bool)
      requires Valid()
      modifies this`dirs
      ensures Valid() && ok == (p in dirs || p in files)
      ensures ok <==> p in old(dirs) || p in files || p[..|p| - 1] in old(dirs)
      ensures dirs == if ok && p !in files then old(dirs) + {p} else old(dirs)
    {
      if p in dirs || p in files { return true; }
      if p[..|p| - 1] !in dirs { return false; }
      dirs := dirs + {p};
      ok := true;
    }

    method Write(p: Path, data: str)
      requires Valid() && p != [] && p[..|p| - 1] in dirs && p !in dirs
      modifies this`files
      ensures Valid() && files == old(files)[p := data]
    {
      files := files[p := data];
    }

    // Only an empty folder can go, and never the top one.
    method RmDir(p: Path) returns (ok: bool)
      requires Valid()
      modifies this`dirs
      ensures Valid() && ok == (p in old(dirs) && p != [] && Children(old(dirs), files, p) == {})
      ensures dirs == if ok then old(dirs) - {p} else old(dirs)
    {
      if p == [] || p !in dirs || Children(dirs, files, p) != {} { return false; }
      forall q: Path | q != [] && (q in dirs || q in files) ensures q[..|q| - 1] != p {
        ChildOfParent(dirs, files, q);
      }
      dirs := dirs - {p};
      ok := true;
    }

    // Every entry of a folder that is a file.
    method UnlinkFiles(root: Path)
      requires Valid()
      modifies this`files
      ensures Valid() && files == WithoutFilesIn(old(files), root)
    {
      var rest := set p | p in files && DirectlyIn(p, root);
      while rest != {}
        invariant Valid() && forall p :: p in rest ==> p in files && DirectlyIn(p, root)
        invariant forall p :: p in files ==> p in old(files) && files[p] == old(files)[p]
        invariant forall p :: p in old(files) ==> p in files || DirectlyIn(p, root)
        invariant forall p :: p in files && DirectlyIn(p, root) ==> p in rest
        decreases |rest|
      {
        var p :| p in rest;
        files := files - {p};
        rest := rest - {p};
      }
    }

    /**
     Empties a folder, whatever its depth; below the top level it removes the folder too. False stands for
     the exception when it is no folder.
     */
    method DeleteFilesTree(root: Path, level: nat) returns (ok: bool)
      requires Valid() && (root == [] ==> level == 0)
      modifies this
      ensures Valid() && ok == (root in old(dirs))
      ensures !ok ==> dirs == old(dirs) && files == old(files)
      ensures ok && level == 0 ==> dirs == DirsCut(old(dirs), root) + {root}
      ensures ok && level > 0 ==> dirs == DirsCut(old(dirs), root)
      ensures ok ==> files == FilesCut(old(files), root)
      decreases |Under(dirs, root)|, 3
    {
      if root !in dirs { return false; }
      if root != [] { CutKeepsSane(dirs, files, root); }
      EmptyFolder(root, level);
      if level > 0 { dirs := dirs - {root}; }
      ok := true;
    }

    // What is in the folder, then the folder; only the top one stays.
    method RemoveTree(root: Path) returns (ok: bool)
      requires Valid()
      modifies this
      ensures Valid() && ok == (root in old(dirs) && root != [])
      ensures root !in old(dirs) ==> dirs == old(dirs) && files == old(files)
      ensures root in old(dirs) ==> files == FilesCut(old(files), root)
      ensures root in old(dirs) ==> dirs == DirsCut(old(dirs), root) + if root == [] then {root} else {}
    {
      CutHasNoChildren(dirs, files, root);
      ok := DeleteFilesTree(root, 0);
      if ok { ok := RmDir(root); }
    }

    // The loop over the entries of one folder.
    method EmptyFolder(root: Path, level: nat)
      requires Valid() && root in dirs
      modifies this
      ensures Valid() && dirs == DirsCut(old(dirs), root) + {root} && files == FilesCut(old(files), root)
      decreases |Under(dirs, root)|, 2
    {
      ghost var dirs0, files0 := dirs, files;
      ghost var all := Children(dirs, files, root);
      var rest := Children(dirs, files, root);
      ghost var done: set<Name> := {};
      WithoutNone(dirs, files, root);
      while rest != {}
        invariant Valid() && root in dirs && done !! rest && done + rest == all
        invariant dirs == DirsWithout(dirs0, root, done) && files == FilesWithout(files0, root, done)
        decreases |rest|
      {
        assert |Under(dirs, root)| <= |Under(dirs0, root)| by { UnderShrinks(dirs, dirs0, root); }
        var c := RemoveNext(root, level, rest, dirs0, files0, done);
        done := done + {c};
        rest := rest - {c};
      }
      assert done == all;
      Emptied(dirs0, files0, root, all);
    }

    method RemoveNext(root: Path, level: nat, rest: set<Name>, ghost dirs0: set<Path>, ghost files0: map<Path, str>,
                      ghost done: set<Name>) returns (c: Name)
      requires Valid() && root in dirs && rest != {} && done !! rest
      requires rest <= Children(dirs0, files0, root)
      requires dirs == DirsWithout(dirs0, root, done) && files == FilesWithout(files0, root, done)
      modifies this
      ensures Valid() && root in dirs && c in rest
      ensures dirs == DirsWithout(dirs0, root, done + {c}) && files == FilesWithout(files0, root, done + {c})
      decreases |Under(dirs, root)|, 1
    {
      c :| c in rest;
      StillThere(dirs0, files0, root, done, c);
      RemoveChild(root, c, level);
      CutChild(dirs0, files0, root, done, c);
    }

    method RemoveChild(root: Path, c: Name, level: nat)
      requires Valid() && root in dirs && (root + [c] in dirs || root + [c] in files)
      modifies this
      ensures Valid() && root in dirs
      ensures dirs == DirsCut(old(dirs), root + [c]) && files == FilesCut(old(files), root + [c])
      decreases |Under(dirs, root)|, 0
    {
      var p := root + [c];
      UnderChild(dirs, root, c);
      if p in dirs {
        var ok := DeleteFilesTree(p, level + 1);
      } else {
        CutFile(dirs, files, p);
        files := files - {p};
      }
    }
  }
}
