/**
 Adding and deleting numbers and storing their files refines a plain map from numbers to accounts: deleting a
 number removes exactly that number, and it can be added again with an empty inbox.
 */
module NumberStore {
  import opened Bytes
  import opened NumberTree

  // What the disk holds for a number: its configuration and the files of its inbox by path.
  datatype Account = Account(config: str, mail: map<Path, str>)

  function MailOf(l: Layout, fs: Fs, num: Number): map<Path, str>
    requires |l.letters| == 10
  {
    map p | p in fs.files && AtOrBelow(p, Inbox(l, num)) :: fs.files[p]
  }

  function View(l: Layout, fs: Fs, num: Number): Option<Account>
    requires |l.letters| == 10
  {
    if Config(l, num) in fs.files then Some(Account(fs.files[Config(l, num)], MailOf(l, fs, num))) else None
  }

  datatype Op =
    | OpAdd(num: Number, config: str)
    | OpStore(num: Number, name: Name, data: str)
    | OpDelete(num: Number)

  // The operations on the file system; each is refused when the account is there, or is not.
  function Step(l: Layout, fs: Fs, op: Op): Fs
    requires |l.letters| == 10
  {
    if Config(l, op.num) in fs.files then
      match op
      case OpAdd(_, _) => fs
      case OpStore(num, name, data) => AfterStore(l, fs, num, name, data)
      case OpDelete(num) => AfterDelete(l, fs, num)
    else
      match op
      case OpAdd(num, config) => AfterAdd(l, fs, num, config)
      case _ => fs
  }

  // The same on the one account an operation is about.
  function AccountStep(l: Layout, a: Option<Account>, op: Op): Option<Account>
    requires |l.letters| == 10
  {
    match op
    case OpAdd(_, config) => if a.Some? then a else Some(Account(config, map[]))
    case OpStore(num, name, data) =>
      if a.None? then a else Some(a.value.(mail := a.value.mail[Inbox(l, num) + [name] := data]))
    case OpDelete(_) => None
  }

  // ---- paths of different numbers ----

  lemma {:induction false} FolderInjective(l: Layout, a: Number, b: Number)
    requires GoodLayout(l) && Folder(l, a) == Folder(l, b)
    ensures a == b
  {
    assert |a| == |Folder(l, a)| == |Folder(l, b)| == |b|;
    forall i | 0 <= i < |a| ensures a[i] == b[i] {
      assert l.letters[a[i]] == Folder(l, a)[i] == Folder(l, b)[i] == l.letters[b[i]];
    }
  }

  lemma LetterAt(l: Layout, num: Number, p: Path, i: nat)
    requires GoodLayout(l) && i < |num| && AtOrBelow(p, Folder(l, num))
    ensures p[i] in l.letters
  {
    assert p[i] == p[..|num|][i] == Folder(l, num)[i] == l.letters[num[i]];
  }

  lemma InboxAt(l: Layout, num: Number, p: Path)
    requires |l.letters| == 10 && AtOrBelow(p, Inbox(l, num))
    ensures p[|num|] == l.inbox && AtOrBelow(p, Folder(l, num))
  {
    var q := Inbox(l, num);
    assert p[|num|] == p[..|q|][|num|] == q[|num|];
    assert p[..|num|] == p[..|q|][..|num|] == q[..|num|] == Folder(l, num);
  }

  lemma ConfigAt(l: Layout, num: Number)
    requires |l.letters| == 10
    ensures Config(l, num)[|num|] == l.config && DirectlyIn(Config(l, num), Folder(l, num))
  {
  }

  // A configuration file lies in no other number's folder and in no inbox.
  lemma ConfigApart(l: Layout, a: Number, b: Number)
    requires GoodLayout(l)
    ensures DirectlyIn(Config(l, a), Folder(l, b)) ==> a == b
    ensures !AtOrBelow(Config(l, a), Inbox(l, b))
  {
    var p := Config(l, a);
    ConfigAt(l, a);
    if DirectlyIn(p, Folder(l, b)) {
      FolderInjective(l, a, b);
    }
    if AtOrBelow(p, Inbox(l, b)) {
      InboxAt(l, b, p);
    }
  }

  lemma ConfigInjective(l: Layout, a: Number, b: Number)
    requires GoodLayout(l) && Config(l, a) == Config(l, b)
    ensures a == b
  {
    ConfigAt(l, b);
    ConfigApart(l, a, b);
  }

  // No path lies in two inboxes.
  lemma InboxApart(l: Layout, a: Number, b: Number, p: Path)
    requires GoodLayout(l) && AtOrBelow(p, Inbox(l, a)) && AtOrBelow(p, Inbox(l, b))
    ensures a == b
  {
    InboxAt(l, a, p);
    InboxAt(l, b, p);
    if |a| < |b| {
      LetterAt(l, b, p, |a|);
    } else if |b| < |a| {
      LetterAt(l, a, p, |b|);
    } else {
      FolderInjective(l, a, b);
    }
  }

  // A file of an inbox lies right in no number's folder.
  lemma MailNotIn(l: Layout, a: Number, b: Number, p: Path)
    requires GoodLayout(l) && Below(p, Inbox(l, a))
    ensures !DirectlyIn(p, Folder(l, b))
  {
    InboxAt(l, a, p);
    if DirectlyIn(p, Folder(l, b)) { LetterAt(l, b, p, |a|); }
  }

  // ---- what the operations keep ----

  // Nothing but folders where folders belong, and an inbox folder for every account and no other.
  ghost predicate GoodFs(l: Layout, fs: Fs)
    requires |l.letters| == 10
  {
    && (forall num: Number :: Config(l, num) in fs.files <==> Inbox(l, num) in fs.dirs)
    && (forall num: Number :: Inbox(l, num) !in fs.files)
    && (forall num: Number :: Config(l, num) !in fs.dirs)
    && (forall num: Number :: Folder(l, num) !in fs.files)
    && (forall num: Number, p :: p in fs.dirs ==> !Below(p, Inbox(l, num)))
    && Sane(fs.dirs, fs.files)
  }

  lemma MailIsBelow(l: Layout, fs: Fs, num: Number, p: Path)
    requires GoodLayout(l) && GoodFs(l, fs) && p in fs.files && AtOrBelow(p, Inbox(l, num))
    ensures Below(p, Inbox(l, num)) && Config(l, num) in fs.files
  {
    var q := Inbox(l, num);
    assert q !in fs.files && (Config(l, num) in fs.files <==> q in fs.dirs);
    assert |p| == |q| ==> p == q by { assert p[..|p|] == p; }
    PrefixIsFolder(fs.dirs, fs.files, p, |q|);
  }

  // Folders, configurations and inboxes are told apart by their last name.
  lemma Kinds(l: Layout, a: Number, b: Number)
    requires GoodLayout(l)
    ensures Inbox(l, a) != Config(l, b) && Folder(l, a) != Config(l, b) && Folder(l, a) != Inbox(l, b)
    ensures Inbox(l, a) == Inbox(l, b) ==> a == b
  {
    ConfigAt(l, b);
    var x, f := Inbox(l, a), Folder(l, a);
    assert x[|a|] == l.inbox && Inbox(l, b)[|b|] == l.inbox;
    assert x[..|a|] == f && Inbox(l, b)[..|b|] == Folder(l, b);
    assert f[..|a|] == f;
    if |a| > 0 { LetterAt(l, a, f, |a| - 1); }
    if x == Inbox(l, b) { FolderInjective(l, a, b); }
  }

  lemma PrefixOfFolder(l: Layout, num: Number, p: Path)
    requires GoodLayout(l) && p in Prefixes(Folder(l, num))
    ensures |p| <= |num| && p == Folder(l, num[..|p|])
  {
  }

  lemma PrefixFits(l: Layout, fs: Fs, num: Number, p: Path)
    requires GoodLayout(l) && GoodFs(l, fs) && p in Prefixes(Folder(l, num))
    ensures p !in fs.files && p != Config(l, num) && (p != [] ==> p[..|p| - 1] in Prefixes(Folder(l, num)))
  {
    var f := Folder(l, num);
    PrefixOfFolder(l, num, p);
    Kinds(l, num[..|p|], num);
    if p != [] { assert p[..|p| - 1] == f[..|p| - 1]; }
  }

  lemma AddKeepsSane(l: Layout, fs: Fs, num: Number, config: str)
    requires GoodLayout(l) && GoodFs(l, fs)
    ensures Sane(AfterAdd(l, fs, num, config).dirs, AfterAdd(l, fs, num, config).files)
  {
    var f := Folder(l, num);
    assert f[..|num|] == f && f in Prefixes(f);
    assert Inbox(l, num)[..|num|] == f && Config(l, num)[..|num|] == f;
    forall p | p in Prefixes(f)
      ensures p !in fs.files && p != Config(l, num) && (p != [] ==> p[..|p| - 1] in Prefixes(f))
    {
      PrefixFits(l, fs, num, p);
    }
    Kinds(l, num, num);
  }

  lemma AddKeepsKinds(l: Layout, fs: Fs, num: Number, config: str, m: Number)
    requires GoodLayout(l) && GoodFs(l, fs) && Config(l, num) !in fs.files
    ensures var r := AfterAdd(l, fs, num, config);
            && (Config(l, m) in r.files <==> Inbox(l, m) in r.dirs)
            && Inbox(l, m) !in r.files && Config(l, m) !in r.dirs && Folder(l, m) !in r.files
  {
    Kinds(l, m, num);
    Kinds(l, num, m);
    assert Config(l, m) in fs.files <==> Inbox(l, m) in fs.dirs;
    assert Inbox(l, m) !in fs.files && Config(l, m) !in fs.dirs && Folder(l, m) !in fs.files;
    if Config(l, m) == Config(l, num) { ConfigInjective(l, m, num); }
    forall p | p in Prefixes(Folder(l, num)) ensures p != Inbox(l, m) && p != Config(l, m) {
      PrefixOfFolder(l, num, p);
      Kinds(l, num[..|p|], m);
    }
  }

  lemma AddKeeps(l: Layout, fs: Fs, num: Number, config: str)
    requires GoodLayout(l) && GoodFs(l, fs) && Config(l, num) !in fs.files
    ensures GoodFs(l, AfterAdd(l, fs, num, config))
  {
    var r := AfterAdd(l, fs, num, config);
    forall m: Number
      ensures Config(l, m) in r.files <==> Inbox(l, m) in r.dirs
      ensures Inbox(l, m) !in r.files && Config(l, m) !in r.dirs && Folder(l, m) !in r.files
    {
      AddKeepsKinds(l, fs, num, config, m);
    }
    forall m: Number, p | p in r.dirs ensures !Below(p, Inbox(l, m)) {
      if p in Prefixes(Folder(l, num)) || p == Inbox(l, num) { NotBelow(l, num, m, p); }
    }
    AddKeepsSane(l, fs, num, config);
  }

  // No folder of a number lies in an inbox.
  lemma NotBelow(l: Layout, num: Number, m: Number, p: Path)
    requires GoodLayout(l) && (p in Prefixes(Folder(l, num)) || p == Inbox(l, num))
    ensures !Below(p, Inbox(l, m))
  {
    if p in Prefixes(Folder(l, num)) { PrefixOfFolder(l, num, p); }
    if Below(p, Inbox(l, m)) { InboxAt(l, m, p); }
  }

  lemma StoreKeeps(l: Layout, fs: Fs, num: Number, name: Name, data: str)
    requires GoodLayout(l) && GoodFs(l, fs) && Config(l, num) in fs.files
    ensures GoodFs(l, AfterStore(l, fs, num, name, data))
  {
    var r := AfterStore(l, fs, num, name, data);
    var p := Inbox(l, num) + [name];
    MailPath(l, num, name, num);
    assert p[..|p| - 1] == Inbox(l, num) && Inbox(l, num) in fs.dirs && p !in fs.dirs;
    forall m: Number
      ensures Config(l, m) in r.files <==> Inbox(l, m) in r.dirs
      ensures Inbox(l, m) !in r.files && Config(l, m) !in r.dirs && Folder(l, m) !in r.files
    {
      MailPath(l, num, name, m);
      assert Config(l, m) in fs.files <==> Inbox(l, m) in fs.dirs;
      assert Inbox(l, m) !in fs.files && Config(l, m) !in fs.dirs && Folder(l, m) !in fs.files;
    }
  }

  lemma MailPath(l: Layout, num: Number, name: Name, m: Number)
    requires GoodLayout(l)
    ensures var p := Inbox(l, num) + [name];
            Below(p, Inbox(l, num)) && p != Config(l, m) && p != Inbox(l, m) && p != Folder(l, m)
  {
    var p, q := Inbox(l, num) + [name], Inbox(l, num);
    assert p[..|q|] == q;
    MailNotIn(l, num, m, p);
    ConfigAt(l, m);
    assert Inbox(l, m)[..|m|] == Folder(l, m);
    InboxAt(l, num, p);
    if p == Folder(l, m) { LetterAt(l, m, p, |num|); }
  }

  lemma WithoutFilesSane(fs: Fs, root: Path)
    requires Sane(fs.dirs, fs.files)
    ensures Sane(fs.dirs, WithoutFilesIn(fs.files, root))
  {
  }

  lemma DeleteKeeps(l: Layout, fs: Fs, num: Number)
    requires GoodLayout(l) && GoodFs(l, fs)
    ensures GoodFs(l, AfterDelete(l, fs, num))
  {
    var r := AfterDelete(l, fs, num);
    forall m: Number
      ensures Config(l, m) in r.files <==> Inbox(l, m) in r.dirs
      ensures Inbox(l, m) !in r.files && Config(l, m) !in r.dirs && Folder(l, m) !in r.files
    {
      assert Config(l, m) in fs.files <==> Inbox(l, m) in fs.dirs;
      assert Inbox(l, m) !in fs.files && Config(l, m) !in fs.dirs && Folder(l, m) !in fs.files;
      ConfigApart(l, m, num);
      ConfigAt(l, m);
      var q := Inbox(l, m);
      assert AtOrBelow(q, q) by { assert q[..|q|] == q; }
      if AtOrBelow(q, Inbox(l, num)) { InboxApart(l, m, num, q); }
    }
    WithoutFilesSane(fs, Folder(l, num));
    CutKeepsSane(fs.dirs, WithoutFilesIn(fs.files, Folder(l, num)), Inbox(l, num));
  }

  // ---- what every number sees of an operation ----

  lemma AddView(l: Layout, fs: Fs, num: Number, config: str, m: Number)
    requires GoodLayout(l) && GoodFs(l, fs) && Config(l, num) !in fs.files
    ensures View(l, AfterAdd(l, fs, num, config), m)
            == if m == num then Some(Account(config, map[])) else View(l, fs, m)
  {
    var r := AfterAdd(l, fs, num, config);
    ConfigApart(l, num, m);
    if Config(l, m) == Config(l, num) { ConfigInjective(l, m, num); }
    assert MailOf(l, r, m) == MailOf(l, fs, m);
    if m == num {
      forall p | p in fs.files ensures !AtOrBelow(p, Inbox(l, m)) {
        if AtOrBelow(p, Inbox(l, m)) { MailIsBelow(l, fs, m, p); }
      }
    }
  }

  lemma StoreView(l: Layout, fs: Fs, num: Number, name: Name, data: str, m: Number)
    requires GoodLayout(l) && GoodFs(l, fs) && Config(l, num) in fs.files
    ensures View(l, AfterStore(l, fs, num, name, data), m)
            == if m == num then AccountStep(l, View(l, fs, num), OpStore(num, name, data)) else View(l, fs, m)
  {
    if m == num { StoreMail(l, fs, num, name, data); } else { StoreApart(l, fs, num, name, data, m); }
    assert Inbox(l, num) + [name] != Config(l, m) by { MailPath(l, num, name, m); }
  }

  lemma StoreMail(l: Layout, fs: Fs, num: Number, name: Name, data: str)
    requires GoodLayout(l)
    ensures var p := Inbox(l, num) + [name];
            MailOf(l, AfterStore(l, fs, num, name, data), num) == MailOf(l, fs, num)[p := data]
  {
    assert AtOrBelow(Inbox(l, num) + [name], Inbox(l, num));
  }

  lemma StoreApart(l: Layout, fs: Fs, num: Number, name: Name, data: str, m: Number)
    requires GoodLayout(l) && m != num
    ensures MailOf(l, AfterStore(l, fs, num, name, data), m) == MailOf(l, fs, m)
  {
    var p := Inbox(l, num) + [name];
    assert Below(p, Inbox(l, num)) by { MailPath(l, num, name, m); }
    if AtOrBelow(p, Inbox(l, m)) { InboxApart(l, num, m, p); }
  }

  lemma DeleteView(l: Layout, fs: Fs, num: Number, m: Number)
    requires GoodLayout(l) && GoodFs(l, fs) && Config(l, num) in fs.files
    ensures View(l, AfterDelete(l, fs, num), m) == if m == num then None else View(l, fs, m)
  {
    var r := AfterDelete(l, fs, num);
    ConfigApart(l, m, num);
    ConfigAt(l, m);
    if m != num {
      forall p | p in fs.files && AtOrBelow(p, Inbox(l, m))
        ensures !DirectlyIn(p, Folder(l, num)) && !AtOrBelow(p, Inbox(l, num))
      {
        MailIsBelow(l, fs, m, p);
        MailNotIn(l, m, num, p);
        if AtOrBelow(p, Inbox(l, num)) { InboxApart(l, m, num, p); }
      }
      assert MailOf(l, r, m) == MailOf(l, fs, m);
    }
  }

  /** Every operation changes the account it names as meant, and no other. */
  lemma StepRefines(l: Layout, fs: Fs, op: Op, m: Number)
    requires GoodLayout(l) && GoodFs(l, fs)
    ensures GoodFs(l, Step(l, fs, op))
    ensures View(l, Step(l, fs, op), m) == if m == op.num then AccountStep(l, View(l, fs, m), op) else View(l, fs, m)
  {
    if Config(l, op.num) in fs.files {
      match op
      case OpAdd(_, _) =>
      case OpStore(num, name, data) =>
        StoreKeeps(l, fs, num, name, data);
        StoreView(l, fs, num, name, data, m);
      case OpDelete(num) =>
        DeleteKeeps(l, fs, num);
        DeleteView(l, fs, num, m);
    } else if op.OpAdd? {
      AddKeeps(l, fs, op.num, op.config);
      AddView(l, fs, op.num, op.config, m);
    }
  }

  function Run(l: Layout, fs: Fs, ops: seq<Op>): Fs
    requires |l.letters| == 10
    decreases |ops|
  {
    if ops == [] then fs else Run(l, Step(l, fs, ops[0]), ops[1..])
  }

  // The operations on one number, applied to its account alone.
  function AccountRun(l: Layout, a: Option<Account>, num: Number, ops: seq<Op>): Option<Account>
    requires |l.letters| == 10
    decreases |ops|
  {
    if ops == [] then a
    else AccountRun(l, if ops[0].num == num then AccountStep(l, a, ops[0]) else a, num, ops[1..])
  }

  /** Over every run a number sees its own operations only, whatever numbers lie inside its folder or around it. */
  lemma {:induction false} RunRefines(l: Layout, fs: Fs, ops: seq<Op>, m: Number)
    requires GoodLayout(l) && GoodFs(l, fs)
    ensures View(l, Run(l, fs, ops), m) == AccountRun(l, View(l, fs, m), m, ops)
    decreases |ops|
  {
    if ops != [] {
      StepRefines(l, fs, ops[0], m);
      RunRefines(l, Step(l, fs, ops[0]), ops[1..], m);
    }
  }

  /** A deleted number can be added again, and its inbox is empty then. */
  lemma DeletedCanBeAdded(l: Layout, fs: Fs, num: Number, config: str)
    requires GoodLayout(l) && GoodFs(l, fs)
    ensures var deleted := Step(l, fs, OpDelete(num));
            && View(l, deleted, num) == None
            && View(l, Step(l, deleted, OpAdd(num, config)), num) == Some(Account(config, map[]))
            && (View(l, fs, num).Some? ==>
                  forall p :: p in deleted.dirs || p in deleted.files ==> !AtOrBelow(p, Inbox(l, num)))
  {
    StepRefines(l, fs, OpDelete(num), num);
    StepRefines(l, Step(l, fs, OpDelete(num)), OpAdd(num, config), num);
  }

  // ---- the operations themselves ----

  lemma NewFileSystem(l: Layout)
    requires GoodLayout(l)
    ensures GoodFs(l, Fs({[]}, map[]))
  {
    forall num: Number ensures Inbox(l, num) != [] && Config(l, num) != [] {
      assert |Inbox(l, num)| == |num| + 1 == |Config(l, num)|;
    }
  }

  lemma RootFolder(f: Path)
    ensures f[..0] == [] && Prefixes(f[..0]) == {[]}
  {
    assert f[..0][..0] == [];
  }

  lemma NextFolder(l: Layout, fs: Fs, num: Number, i: nat)
    requires GoodLayout(l) && GoodFs(l, fs) && i < |num|
    ensures var f := Folder(l, num);
            && f[..i] + [l.letters[num[i]]] == f[..i + 1] && f[..i + 1][..i] == f[..i]
            && f[..i + 1] !in fs.files
            && Prefixes(f[..i + 1]) == Prefixes(f[..i]) + {f[..i + 1]}
  {
    var f := Folder(l, num);
    assert f[..i + 1] in Prefixes(f);
    PrefixOfFolder(l, num, f[..i + 1]);
    PrefixesGrow(f, i);
  }

  lemma PrefixesGrow(f: Path, i: nat)
    requires i < |f|
    ensures Prefixes(f[..i + 1]) == Prefixes(f[..i]) + {f[..i + 1]}
  {
    var a, b := f[..i], f[..i + 1];
    assert forall k :: 0 <= k <= i ==> b[..k] == a[..k];
    assert b[..i + 1] == b;
  }

  lemma AddReady(l: Layout, fs: Fs, num: Number)
    requires GoodLayout(l) && GoodFs(l, fs)
    ensures var f, c, x := Folder(l, num), Config(l, num), Inbox(l, num);
            && f in Prefixes(f) && c[..|c| - 1] == f && x[..|x| - 1] == f && c != x
            && c !in fs.dirs + Prefixes(f) && x !in fs.files
  {
    var f := Folder(l, num);
    assert f[..|num|] == f;
    Kinds(l, num, num);
    forall p | p in Prefixes(f) ensures p != Config(l, num) { PrefixOfFolder(l, num, p); }
  }

  class CStorage {
    const layout: Layout
    const disk: FileSystem

    ghost predicate Valid()
      reads disk
    {
      GoodLayout(layout) && GoodFs(layout, disk.Content())
    }

    constructor (l: Layout)
      requires GoodLayout(l)
      ensures Valid() && layout == l && fresh(disk)
    {
      layout := l;
      disk := new FileSystem();
      NewFileSystem(l);
    }

    // One folder per digit, the ones that exist are kept.
    method CreateNumberRoot(num: Number)
      requires Valid()
      modifies disk
      ensures disk.Valid()
      ensures disk.Content() == Fs(old(disk.dirs) + Prefixes(Folder(layout, num)), old(disk.files))
    {
      var cur: Path := [];
      ghost var f := Folder(layout, num);
      ghost var before := disk.Content();
      var i := 0;
      RootFolder(f);
      while i < |num|
        invariant 0 <= i <= |num| && cur == f[..i] && cur in disk.dirs && disk.Valid()
        invariant disk.dirs == before.dirs + Prefixes(f[..i]) && disk.files == before.files
      {
        NextFolder(layout, before, num, i);
        cur := cur + [layout.letters[num[i]]];
        var made := disk.MkDir(cur);
        i := i + 1;
      }
      assert f[..i] == f;
    }

    method AddNumber(num: Number, config: str) returns (ok: bool)
      requires Valid()
      modifies disk
      ensures Valid() && ok == (Config(layout, num) !in old(disk.files))
      ensures disk.Content() == Step(layout, old(disk.Content()), OpAdd(num, config))
    {
      ghost var before := disk.Content();
      if Config(layout, num) in disk.files { return false; }
      AddKeeps(layout, before, num, config);
      assert Config(layout, num) in before.files <==> Inbox(layout, num) in before.dirs;
      CreateNumberRoot(num);
      AddReady(layout, before, num);
      disk.Write(Config(layout, num), config);
      var made := disk.MkDir(Inbox(layout, num));
      ok := true;
    }

    method StoreFile(num: Number, name: Name, data: str)
      requires Valid() && Config(layout, num) in disk.files
      modifies disk
      ensures Valid() && disk.Content() == Step(layout, old(disk.Content()), OpStore(num, name, data))
    {
      StoreKeeps(layout, disk.Content(), num, name, data);
      MailPath(layout, num, name, num);
      var p := Inbox(layout, num) + [name];
      assert Config(layout, num) in disk.files <==> Inbox(layout, num) in disk.dirs;
      assert p[..|p| - 1] == Inbox(layout, num) && p !in disk.dirs;
      disk.Write(p, data);
    }

    // After the pin was checked: the files of the folder, then the tree of the inbox, then the inbox.
    method DeleteNumber(num: Number) returns (ok: bool)
      requires Valid()
      modifies disk
      ensures Valid() && ok == (Config(layout, num) in old(disk.files))
      ensures disk.Content() == Step(layout, old(disk.Content()), OpDelete(num))
    {
      ghost var before := disk.Content();
      if Config(layout, num) !in disk.files { return false; }
      DeleteKeeps(layout, before, num);
      var f, inbox := Folder(layout, num), Inbox(layout, num);
      assert Config(layout, num) in before.files <==> inbox in before.dirs;
      disk.UnlinkFiles(f);
      var removed := disk.RemoveTree(inbox);
      ok := true;
    }
  }
}
