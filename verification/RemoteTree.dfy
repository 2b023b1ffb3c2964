/** cifs_spider.c and the directory sizes of cifscp.c: two recursions over directories read page by page. */
module RemoteTree {
  import opened Bytes
  import opened Codepage
  import opened Find
  import opened Listing
  import opened TreeDump

  /** What opening a directory brings: nothing, or its first page and the replies to come, and what opening each
      of the entries that readdir returns would bring in turn. */
  datatype Folder = Locked | Folder(page: Reply, replies: seq<Reply>, subs: seq<Folder>)

  /** The pages of one directory can be read. */
  predicate Pages(names: Namer, f: Folder) {
    f.Folder? && f.page.Page? && Chain(names, f.page.block, 0, f.page.count) && Replies(names, f.replies)
  }

  /** The entries readdir returns. */
  function Listed(names: Namer, f: Folder): seq<Entry>
    requires Pages(names, f)
  {
    Shown(Entries(names, f.page.block, 0, f.page.count) + Later(names, f.page.end, f.replies))
  }

  predicate Served(names: Namer, f: Folder)
    decreases f
  {
    f.Locked? ||
    (Pages(names, f) && |f.subs| == |Listed(names, f)| && forall k :: 0 <= k < |f.subs| ==> Served(names, f.subs[k]))
  }

  /** The paths of all directories down to `deep` levels fit the path buffer. */
  predicate Fits(names: Namer, f: Folder, path: seq<byte>, deep: nat)
    requires Served(names, f)
    decreases deep
  {
    f.Locked? ||
    (|path| <= PATH_MAX && (deep > 0 ==> forall k :: 0 <= k < |f.subs| && Listed(names, f)[k].st.IsDirectory() ==>
      Fits(names, f.subs[k], path + [SLASH] + Listed(names, f)[k].name, deep - 1)))
  }

  // ---------------------------------------------------------------- the tree a folder stands for

  function Kids(names: Namer, f: Folder): seq<Node>
    requires Served(names, f)
    decreases f, 0
  {
    if f.Locked? then [] else Nodes(names, Listed(names, f), f.subs)
  }

  function NodeOf(names: Namer, e: Entry, sub: Folder): Node
    requires Served(names, sub)
    decreases sub, 1
  {
    Node(e.name, e.st.fileSize, e.st.IsDirectory(), sub.Folder?, Kids(names, sub))
  }

  function Nodes(names: Namer, es: seq<Entry>, subs: seq<Folder>): (ns: seq<Node>)
    requires |es| == |subs| && forall k :: 0 <= k < |subs| ==> Served(names, subs[k])
    ensures |ns| == |es|
    decreases subs, 0
  {
    if es == [] then [] else [NodeOf(names, es[0], subs[0])] + Nodes(names, es[1..], subs[1..])
  }

  lemma {:induction false} NodeAt(names: Namer, es: seq<Entry>, subs: seq<Folder>, i: nat)
    requires |es| == |subs| && i < |es| && forall k :: 0 <= k < |subs| ==> Served(names, subs[k])
    ensures Nodes(names, es, subs)[i] == NodeOf(names, es[i], subs[i])
    decreases i
  {
    if i > 0 {
      NodeAt(names, es[1..], subs[1..], i - 1);
    }
  }

  /** The row an entry is printed as: its own number and name, and its size unless it has the directory attribute. */
  lemma {:induction false} EntryRow(names: Namer, e: Entry, sub: Folder, id: nat, pid: nat)
    requires Served(names, sub)
    ensures var dir := e.st.attributes / 16 % 2 == 1;
      RowOf(NodeOf(names, e, sub), id, pid) == Row(id, pid, e.name, if dir then 0 else e.st.fileSize, dir)
  {
    hide Kids;
  }

  /** The entry at the end of a path of positions through directories that can be opened. */
  function ListedOn(names: Namer, f: Folder, path: seq<nat>): Option<Entry>
    requires Served(names, f)
    decreases |path|
  {
    if f.Locked? || path == [] || path[0] >= |f.subs| then None
    else
      var e := Listed(names, f)[path[0]];
      if |path| == 1 then Some(e)
      else if e.st.attributes / 16 % 2 == 1 then ListedOn(names, f.subs[path[0]], path[1..])
      else None
  }

  lemma {:induction false} EntriesOnKids(names: Namer, f: Folder, path: seq<nat>)
    requires Served(names, f)
    ensures EntryOn(Kids(names, f), path).Some? == ListedOn(names, f, path).Some?
    ensures ListedOn(names, f, path).Some? ==>
      var n, e := EntryOn(Kids(names, f), path).value, ListedOn(names, f, path).value;
      n.name == e.name && n.size == e.st.fileSize && n.isDir == (e.st.attributes / 16 % 2 == 1)
    decreases |path|
  {
    hide Listed, Pages, Shown;
    if f.Folder? && path != [] && path[0] < |f.subs| {
      NodeAt(names, Listed(names, f), f.subs, path[0]);
      if |path| > 1 {
        EntriesOnKids(names, f.subs[path[0]], path[1..]);
      }
    }
  }

  /** What the dump shows is what can be reached in at most deep + 1 steps, each entry in its place, a directory with
      size 0. */
  lemma {:induction false} DumpShowsExactly(names: Namer, f: Folder, deep: nat, path: seq<nat>)
    requires Served(names, f)
    ensures ShownOn(Seen(Kids(names, f), deep), path).Some? <==> ListedOn(names, f, path).Some? && |path| <= deep + 1
    ensures ShownOn(Seen(Kids(names, f), deep), path).Some? ==>
      var t, e := ShownOn(Seen(Kids(names, f), deep), path).value, ListedOn(names, f, path).value;
      t.name == e.name && t.isDir == (e.st.attributes / 16 % 2 == 1) && t.size == if t.isDir then 0 else e.st.fileSize
  {
    EntriesOnKids(names, f, path);
    SeenExactly(Kids(names, f), deep, path);
  }

  /** Two services of one tree: same entries in every directory, whatever the pages. */
  predicate Repaged(names: Namer, f: Folder, g: Folder)
    requires Served(names, f) && Served(names, g)
    decreases f
  {
    f.Folder? == g.Folder? &&
    (f.Folder? ==>
       && Listed(names, f) == Listed(names, g)
       && forall k :: 0 <= k < |f.subs| ==> Repaged(names, f.subs[k], g.subs[k]))
  }

  lemma {:induction false} RepagedKids(names: Namer, f: Folder, g: Folder)
    requires Served(names, f) && Served(names, g) && Repaged(names, f, g)
    ensures Kids(names, f) == Kids(names, g)
    decreases f
  {
    hide Listed, Pages, Shown;
    if f.Folder? {
      forall k | 0 <= k < |f.subs| ensures Kids(names, f)[k] == Kids(names, g)[k] {
        RepagedKids(names, f.subs[k], g.subs[k]);
        NodeAt(names, Listed(names, f), f.subs, k);
        NodeAt(names, Listed(names, g), g.subs, k);
      }
      assert Kids(names, f) == Kids(names, g);
    }
  }

  /** A directory cut into pages in any way lists all its entries but "." and "..", exactly when nothing but those
      two stands behind an empty page. */
  lemma {:induction false} ListedFromPages(names: Namer, f: Folder, pages: seq<seq<Rec>>)
    requires f.Folder? && pages != [] && AllPackable(names, pages) && Answers([f.page] + f.replies, pages)
    ensures Pages(names, f) && AllRead(names, Concat(pages))
    ensures Listed(names, f) == Shown(EntriesOf(names, Concat(pages))) <==> NothingHidden(names, pages[1..])
  {
    hide Answers, AllPackable, Chain, Replies, Shown, EntriesOf, NothingHidden;
    var replies := [f.page] + f.replies;
    assert replies[0] == f.page && replies[1..] == f.replies;
    EnumerationIsPagingIndependent(names, pages, replies);
    AnswersFirst(replies, pages);
  }

  lemma {:induction false} AnswersFirst(replies: seq<Reply>, pages: seq<seq<Rec>>)
    requires pages != [] && Answers(replies, pages)
    ensures replies != [] && replies[0].Page?
  {
  }

  /** The rows and the sum do not depend on how the server cuts its directories into pages. */
  lemma {:induction false} PagingShowsNowhere(names: Namer, f: Folder, g: Folder, pid: nat, id: nat, deep: nat)
    requires Served(names, f) && Served(names, g) && Repaged(names, f, g)
    ensures Rows(Kids(names, f), pid, id, deep) == Rows(Kids(names, g), pid, id, deep)
    ensures Total(Kids(names, f)) == Total(Kids(names, g))
  {
    RepagedKids(names, f, g);
  }

  // ---------------------------------------------------------------- reading one directory

  /** `d` has been read up to the i-th of the entries `es`, which if `found` is in the shared record. */
  ghost predicate ReadUpTo(d: Dir, path: seq<byte>, es: seq<Entry>, i: nat, found: bool)
    requires d.Valid()
    reads d, d.path
  {
    d.dir == path &&
    if found then
      && i < |es| && es[i] == Entry(d.st, d.Name()) && Shown(d.Remaining()) == es[i + 1..]
      && d.Path() == path + [SLASH] + es[i].name
    else
      i == |es|
  }

  method Open(cp: Converter, ghost names: Namer, path: seq<byte>, f: Folder, ghost es: seq<Entry>)
    returns (d: Dir, found: bool)
    requires Sound(cp) && Names(cp, names) && Pages(names, f) && es == Listed(names, f)
    requires |path| <= PATH_MAX && 0 !in path
    ensures fresh(d) && fresh(d.path) && d.Valid() && ReadUpTo(d, path, es, 0, found)
  {
    d := new Dir(cp, names, path, f.page, f.replies);
    hide Chain, Entries, Later, Replies, Sound, Names, Shown;
    found := d.Readdir();
  }

  method ReadOn(d: Dir, ghost path: seq<byte>, ghost es: seq<Entry>, ghost i: nat) returns (found: bool)
    requires d.Valid() && ReadUpTo(d, path, es, i, true)
    modifies d, d.path
    ensures d.Valid() && ReadUpTo(d, path, es, i + 1, found)
  {
    hide Chain, Entries, Later, Replies, Sound, Names, Shown;
    found := d.Readdir();
    assert es[i + 1..] != [] ==> es[i + 1..][0] == es[i + 1] && es[i + 1..][1..] == es[i + 2..];
  }

  /** The shared record, as it stands. */
  method Current(d: Dir, ghost path: seq<byte>, ghost es: seq<Entry>, ghost i: nat) returns (p: seq<byte>, e: Entry)
    requires d.Valid() && ReadUpTo(d, path, es, i, true) && 0 !in path
    ensures i < |es| && e == es[i] && p == path + [SLASH] + es[i].name && 0 !in p
  {
    p, e := d.Path(), Entry(d.st, d.Name());
  }

  lemma {:induction false} ServedFolder(names: Namer, f: Folder)
    requires f.Folder? && Served(names, f)
    ensures Pages(names, f) && |f.subs| == |Listed(names, f)| == |Kids(names, f)|
  {
  }

  // ---------------------------------------------------------------- the dump

  class Dumper {
    const cp: Converter
    ghost const names: Namer
    var id: nat
    var out: seq<Row>

    constructor (cp: Converter, ghost names: Namer)
      requires Sound(cp) && Names(cp, names)
      ensures Valid() && id == 0 && out == [] && this.names == names
    {
      this.cp, this.names := cp, names;
      id, out := 0, [];
    }

    ghost predicate Valid() { Sound(cp) && Names(cp, names) }

    /** cifs_dump_dir: a directory that cannot be opened prints nothing. */
    method DumpDir(path: seq<byte>, f: Folder, pid: nat, deep: nat) returns (r: int)
      requires Valid() && Served(names, f) && Fits(names, f, path, deep) && 0 !in path
      modifies this
      ensures r == if f.Locked? then -1 else 0
      ensures f.Locked? ==> out == old(out) && id == old(id)
      ensures f.Folder? ==> out == old(out) + Rows(Kids(names, f), pid, old(id), deep)
      ensures f.Folder? ==> id == old(id) + |Rows(Kids(names, f), pid, old(id), deep)|
      decreases deep, 1
    {
      hide Sound, Names, Pages, Listed, Rows, SubRows, RowOf, Kids, NodeOf, Fits, Served, ReadUpTo, Dir.Valid;
      if f.Locked? { return -1; }
      ServedFolder(names, f);
      FitsHere(names, f, path, deep);
      ghost var es, ns := Listed(names, f), Kids(names, f);
      ghost var out0, id0, all := out, id, Rows(ns, pid, id, deep);
      assert ns[0..] == ns;
      var d, found := Open(cp, names, path, f, es);
      var i := 0;
      while found
        invariant i <= |es| && fresh(d) && fresh(d.path) && d.Valid() && ReadUpTo(d, path, es, i, found)
        invariant out0 + all == out + Rows(ns[i..], pid, id, deep)
        invariant id0 + |all| == id + |Rows(ns[i..], pid, id, deep)|
        decreases |es| - i, found
      {
        var p, e := Current(d, path, es, i);
        NodeOfEntry(names, f, i);
        RowsStep(out, ns, i, pid, id, id + 1, deep, SubRows(ns[i], id + 1, deep));
        if deep > 0 && e.st.IsDirectory() {
          FitsBelow(names, f, path, deep, i);
        }
        DumpEntry(p, e, f.subs[i], pid, deep);
        found := ReadOn(d, path, es, i);
        i := i + 1;
      }
      ReadToEnd(d, path, es, i);
      NoRows(out, ns, i, pid, id, deep);
      return 0;
    }

    /** Lines 19-23. */
    method DumpEntry(path: seq<byte>, e: Entry, sub: Folder, pid: nat, deep: nat)
      requires Valid() && Served(names, sub) && 0 !in path
      requires deep > 0 && e.st.IsDirectory() ==> Fits(names, sub, path, deep - 1)
      modifies this
      ensures out == (old(out) + [RowOf(NodeOf(names, e, sub), old(id) + 1, pid)])
        + SubRows(NodeOf(names, e, sub), old(id) + 1, deep)
      ensures id == old(id) + 1 + |SubRows(NodeOf(names, e, sub), old(id) + 1, deep)|
      decreases deep, 0
    {
      id := id + 1;
      out := out + [Row(id, pid, e.name, if e.st.IsDirectory() then 0 else e.st.fileSize, e.st.IsDirectory())];
      if e.st.IsDirectory() && deep > 0 {
        var _ := DumpDir(path, sub, id, deep - 1);
      }
    }
  }

  lemma {:induction false} NodeOfEntry(names: Namer, f: Folder, i: nat)
    requires f.Folder? && Served(names, f) && i < |f.subs|
    ensures Kids(names, f)[i] == NodeOf(names, Listed(names, f)[i], f.subs[i]) && Served(names, f.subs[i])
  {
    NodeAt(names, Listed(names, f), f.subs, i);
  }

  lemma {:induction false} FitsBelow(names: Namer, f: Folder, path: seq<byte>, deep: nat, i: nat)
    requires f.Folder? && Served(names, f) && Fits(names, f, path, deep) && i < |f.subs|
    requires deep > 0 && Listed(names, f)[i].st.IsDirectory()
    ensures Fits(names, f.subs[i], path + [SLASH] + Listed(names, f)[i].name, deep - 1)
  {
  }

  lemma {:induction false} ReadToEnd(d: Dir, path: seq<byte>, es: seq<Entry>, i: nat)
    requires d.Valid() && ReadUpTo(d, path, es, i, false)
    ensures i == |es|
  {
  }

  lemma {:induction false} FitsHere(names: Namer, f: Folder, path: seq<byte>, deep: nat)
    requires f.Folder? && Served(names, f) && Fits(names, f, path, deep)
    ensures |path| <= PATH_MAX
  {
  }

  lemma {:induction false} NoRows(out: seq<Row>, ns: seq<Node>, i: nat, pid: nat, id: nat, deep: nat)
    requires i == |ns|
    ensures out + Rows(ns[i..], pid, id, deep) == out && |Rows(ns[i..], pid, id, deep)| == 0
  {
  }

  // ---------------------------------------------------------------- directory sizes

  /** The paths of all directories, however deep, fit the path buffer. */
  ghost predicate FitsAll(names: Namer, f: Folder, path: seq<byte>)
    requires Served(names, f)
  {
    forall deep: nat :: Fits(names, f, path, deep)
  }

  lemma {:induction false} FitsAllBelow(names: Namer, f: Folder, path: seq<byte>, i: nat)
    requires f.Folder? && Served(names, f) && FitsAll(names, f, path) && i < |f.subs|
    requires Listed(names, f)[i].st.IsDirectory()
    ensures FitsAll(names, f.subs[i], path + [SLASH] + Listed(names, f)[i].name)
  {
    forall deep: nat ensures Fits(names, f.subs[i], path + [SLASH] + Listed(names, f)[i].name, deep) {
      FitsBelow(names, f, path, deep + 1, i);
    }
  }

  lemma {:induction false} NoTotal(ns: seq<Node>, i: nat)
    requires i == |ns|
    ensures Total(ns[i..]) == 0
  {
  }

  /** The uint64_t the sizes are added up in. */
  class Counter {
    const cp: Converter
    ghost const names: Namer
    var v: nat

    constructor (cp: Converter, ghost names: Namer)
      requires Sound(cp) && Names(cp, names)
      ensures Valid() && v == 0 && this.names == names
    {
      this.cp, this.names := cp, names;
      v := 0;
    }

    ghost predicate Valid()
      reads this
    {
      Sound(cp) && Names(cp, names) && v < 0x1_0000_0000_0000_0000
    }

    /** cifs_get_size_dir: adds the sizes of all files of the subtree, modulo 2^64. */
    method AddSizes(path: seq<byte>, f: Folder) returns (r: int)
      requires Valid() && Served(names, f) && FitsAll(names, f, path) && 0 !in path
      modifies this
      ensures Valid()
      ensures r == if f.Locked? then -1 else 0
      ensures v == if f.Locked? then old(v) else Add64(old(v), Total(Kids(names, f)))
      decreases f, 0
    {
      hide Sound, Names, Pages, Listed, Kids, NodeOf, Fits, Served, ReadUpTo, Dir.Valid, Total, TotalOf;
      if f.Locked? { return -1; }
      ServedFolder(names, f);
      FitsHere(names, f, path, 0);
      ghost var es, ns := Listed(names, f), Kids(names, f);
      assert ns[0..] == ns;
      var d, found := Open(cp, names, path, f, es);
      var i := 0;
      while found
        invariant i <= |es| && fresh(d) && fresh(d.path) && d.Valid() && ReadUpTo(d, path, es, i, found)
        invariant Valid() && Add64(v, Total(ns[i..])) == Add64(old(v), Total(ns))
        decreases |es| - i, found
      {
        var p, e := Current(d, path, es, i);
        NodeOfEntry(names, f, i);
        TotalStep(ns, i);
        Add64Step(v, TotalOf(ns[i]), Total(ns[i + 1..]));
        if e.st.IsDirectory() {
          FitsAllBelow(names, f, path, i);
        }
        AddEntry(p, e, f.subs[i]);
        found := ReadOn(d, path, es, i);
        i := i + 1;
      }
      ReadToEnd(d, path, es, i);
      NoTotal(ns, i);
      return 0;
    }

    /** Lines 72-79. */
    method AddEntry(path: seq<byte>, e: Entry, sub: Folder)
      requires Valid() && Served(names, sub) && 0 !in path
      requires e.st.IsDirectory() ==> FitsAll(names, sub, path)
      modifies this
      ensures Valid() && v == Add64(old(v), TotalOf(NodeOf(names, e, sub)))
      decreases sub, 1
    {
      hide Sound, Names, Served, FitsAll, Kids, Total;
      if e.st.IsDirectory() {
        var _ := AddSizes(path, sub);
      } else {
        v := (v + e.st.fileSize) % 0x1_0000_0000_0000_0000;
      }
    }
  }
}
