/** What cifs_spider.c prints of a tree of entries, and what cifscp.c adds up over it. */
module TreeDump {
  import opened Bytes

  /** A directory entry as cifs_readdir returns it, and what listing it gives if it can be opened. */
  datatype Node = Node(name: seq<byte>, size: nat, isDir: bool, opens: bool, kids: seq<Node>) {
    function Listing(): Option<seq<Node>> { if opens then Some(kids) else None }
  }

  // ---------------------------------------------------------------- the dump

  /** One printed line. */
  datatype Row = Row(id: nat, pid: nat, name: seq<byte>, size: nat, isDir: bool)

  function RowOf(n: Node, id: nat, pid: nat): Row { Row(id, pid, n.name, if n.isDir then 0 else n.size, n.isDir) }

  /** The listing that is dumped under an entry. */
  function Below(n: Node, deep: nat): Option<seq<Node>> { if n.isDir && deep > 0 then n.Listing() else None }

  /** The rows of a listing: preorder, numbered from id + 1, directories entered while `deep` lasts. */
  function Rows(ns: seq<Node>, pid: nat, id: nat, deep: nat): seq<Row>
    decreases deep, |ns|
  {
    if ns == [] then []
    else
      var sub := SubRows(ns[0], id + 1, deep);
      [RowOf(ns[0], id + 1, pid)] + sub + Rows(ns[1..], pid, id + 1 + |sub|, deep)
  }

  /** The rows below the entry with the number `id`. */
  function SubRows(n: Node, id: nat, deep: nat): seq<Row>
    decreases deep, 0
  {
    if Below(n, deep).Some? then Rows(Below(n, deep).value, id, id, deep - 1) else []
  }

  lemma {:induction false} RowsStep(printed: seq<Row>, ns: seq<Node>, i: nat, pid: nat, id: nat, next: nat,
      deep: nat, sub: seq<Row>)
    requires i < |ns| && next == id + 1 && sub == SubRows(ns[i], next, deep)
    ensures printed + Rows(ns[i..], pid, id, deep)
         == ((printed + [RowOf(ns[i], next, pid)]) + sub) + Rows(ns[i + 1..], pid, next + |sub|, deep)
    ensures |Rows(ns[i..], pid, id, deep)| == 1 + |sub| + |Rows(ns[i + 1..], pid, next + |sub|, deep)|
  {
    assert ns[i..][0] == ns[i] && ns[i..][1..] == ns[i + 1..];
  }

  // ---------------------------------------------------------------- what the rows say

  /** The numbers are consecutive, and every row hangs below the given parent or below an earlier directory row. */
  predicate WellNumbered(rows: seq<Row>, pid: nat, id: nat) {
    forall k :: 0 <= k < |rows| ==>
      && rows[k].id == id + 1 + k
      && (rows[k].pid == pid || HasParent(rows, k, id))
  }

  predicate HasParent(rows: seq<Row>, k: nat, id: nat)
    requires k < |rows|
  {
    var j := rows[k].pid - id - 1;
    0 <= j < k && rows[j].id == rows[k].pid && rows[j].isDir
  }

  lemma {:induction false} RowsWellNumbered(ns: seq<Node>, pid: nat, id: nat, deep: nat)
    requires pid <= id
    ensures WellNumbered(Rows(ns, pid, id, deep), pid, id)
    decreases deep, |ns|
  {
    if ns != [] {
      var sub := SubRows(ns[0], id + 1, deep);
      var rest := Rows(ns[1..], pid, id + 1 + |sub|, deep);
      if Below(ns[0], deep).Some? {
        RowsWellNumbered(Below(ns[0], deep).value, id + 1, id + 1, deep - 1);
      }
      RowsWellNumbered(ns[1..], pid, id + 1 + |sub|, deep);
      NumbersJoin(RowOf(ns[0], id + 1, pid), sub, rest, pid, id);
    }
  }

  lemma {:induction false} NumbersJoin(row: Row, sub: seq<Row>, rest: seq<Row>, pid: nat, id: nat)
    requires row.id == id + 1 && row.pid == pid <= id && (sub != [] ==> row.isDir)
    requires WellNumbered(sub, id + 1, id + 1) && WellNumbered(rest, pid, id + 1 + |sub|)
    ensures WellNumbered([row] + sub + rest, pid, id)
  {
    var rows := [row] + sub + rest;
    forall k | 0 <= k < |rows| ensures rows[k].id == id + 1 + k && (rows[k].pid == pid || HasParent(rows, k, id)) {
      if 0 < k <= |sub| {
        assert rows[k] == sub[k - 1];
      } else if k > |sub| {
        assert rows[k] == rest[k - 1 - |sub|];
      }
    }
  }

  /** What of a tree the dump shows. */
  datatype Tree = Tree(name: seq<byte>, size: nat, isDir: bool, kids: seq<Tree>)

  function Seen(ns: seq<Node>, deep: nat): seq<Tree>
    decreases deep, |ns|
  {
    if ns == [] then []
    else
      var n := ns[0];
      [Tree(n.name, if n.isDir then 0 else n.size, n.isDir, SeenBelow(n, deep))] + Seen(ns[1..], deep)
  }

  function SeenBelow(n: Node, deep: nat): seq<Tree>
    decreases deep, 0
  {
    if Below(n, deep).Some? then Seen(Below(n, deep).value, deep - 1) else []
  }

  /** The entry at the end of a path of positions that goes through directories that open. */
  function EntryOn(ns: seq<Node>, path: seq<nat>): Option<Node>
    decreases |path|
  {
    if path == [] || path[0] >= |ns| then None
    else if |path| == 1 then Some(ns[path[0]])
    else if ns[path[0]].isDir && ns[path[0]].opens then EntryOn(ns[path[0]].kids, path[1..])
    else None
  }

  function ShownOn(ts: seq<Tree>, path: seq<nat>): Option<Tree>
    decreases |path|
  {
    if path == [] || path[0] >= |ts| then None
    else if |path| == 1 then Some(ts[path[0]])
    else ShownOn(ts[path[0]].kids, path[1..])
  }

  /** What is shown of a tree is what can be reached in at most deep + 1 steps, each entry in its place; a directory
      is shown with size 0. */
  lemma {:induction false} SeenExactly(ns: seq<Node>, deep: nat, path: seq<nat>)
    ensures ShownOn(Seen(ns, deep), path).Some? <==> EntryOn(ns, path).Some? && |path| <= deep + 1
    ensures ShownOn(Seen(ns, deep), path).Some? ==>
      var t, n := ShownOn(Seen(ns, deep), path).value, EntryOn(ns, path).value;
      t.name == n.name && t.isDir == n.isDir && t.size == if n.isDir then 0 else n.size
    decreases |path|
  {
    if path != [] && path[0] < |ns| {
      var n := ns[path[0]];
      SeenAt(ns, deep, path[0]);
      if |path| > 1 && n.isDir && n.opens && deep > 0 {
        SeenExactly(n.kids, deep - 1, path[1..]);
      }
    } else {
      SeenAt(ns, deep, 0);
    }
  }

  lemma {:induction false} SeenAt(ns: seq<Node>, deep: nat, i: nat)
    ensures |Seen(ns, deep)| == |ns|
    ensures i < |ns| ==>
      Seen(ns, deep)[i]
      == Tree(ns[i].name, if ns[i].isDir then 0 else ns[i].size, ns[i].isDir, SeenBelow(ns[i], deep))
    decreases |ns|
  {
    hide SeenBelow;
    if ns != [] {
      SeenAt(ns[1..], deep, if i > 0 then i - 1 else 0);
    }
  }

  /** Reads the rows that hang below `pid` off the front: the trees they stand for, and the rows left over. */
  function Rebuild(rows: seq<Row>, pid: nat): (r: (seq<Tree>, seq<Row>))
    ensures |r.1| <= |rows|
    decreases |rows|
  {
    if rows == [] || rows[0].pid != pid then ([], rows)
    else
      var (kids, later) := Rebuild(rows[1..], rows[0].id);
      var (trees, rest) := Rebuild(later, pid);
      ([Tree(rows[0].name, rows[0].size, rows[0].isDir, kids)] + trees, rest)
  }

  lemma {:induction false} RebuildStep(row: Row, tail: seq<Row>, kids: seq<Tree>, later: seq<Row>,
      trees: seq<Tree>, rest: seq<Row>)
    requires Rebuild(tail, row.id) == (kids, later) && Rebuild(later, row.pid) == (trees, rest)
    ensures Rebuild([row] + tail, row.pid) == ([Tree(row.name, row.size, row.isDir, kids)] + trees, rest)
  {
    assert ([row] + tail)[1..] == tail;
  }

  /** The rows of the dump determine the tree it shows: rebuilding from numbers and parents gives it back. */
  lemma {:induction false} RebuildRows(ns: seq<Node>, pid: nat, id: nat, deep: nat, rest: seq<Row>)
    requires pid <= id && (rest == [] || rest[0].pid < pid)
    ensures Rebuild(Rows(ns, pid, id, deep) + rest, pid) == (Seen(ns, deep), rest)
    decreases deep, |ns|
  {
    if ns == [] {
      assert Rows(ns, pid, id, deep) + rest == rest;
    } else {
      var next := id + 1;
      var row, sub := RowOf(ns[0], next, pid), SubRows(ns[0], next, deep);
      var m := next + |sub|;
      var later := Rows(ns[1..], pid, m, deep) + rest;
      RowsUnfold(ns, pid, id, deep, rest, next, m, row, sub, later);
      RebuildBelow(ns[0], pid, next, deep, later);
      RebuildRows(ns[1..], pid, m, deep, rest);
      RebuildStep(row, sub + later, SeenBelow(ns[0], deep), later, Seen(ns[1..], deep), rest);
    }
  }

  lemma {:induction false} RowsUnfold(ns: seq<Node>, pid: nat, id: nat, deep: nat, rest: seq<Row>, next: nat,
      m: nat, row: Row, sub: seq<Row>, later: seq<Row>)
    requires ns != [] && next == id + 1 && row == RowOf(ns[0], next, pid) && sub == SubRows(ns[0], next, deep)
    requires m == next + |sub| && later == Rows(ns[1..], pid, m, deep) + rest
    requires rest == [] || rest[0].pid < pid
    ensures Rows(ns, pid, id, deep) + rest == [row] + (sub + later)
    ensures later == [] || later[0].pid <= pid
  {
    hide SubRows, Below;
    RowsFirst(ns[1..], pid, m, deep);
    Regroup(sub, Rows(ns[1..], pid, m, deep), rest);
  }

  lemma {:induction false} RowsFirst(ns: seq<Node>, pid: nat, id: nat, deep: nat)
    ensures Rows(ns, pid, id, deep) != [] ==> Rows(ns, pid, id, deep)[0].pid == pid
  {
    hide SubRows;
  }

  lemma {:induction false} RebuildBelow(n: Node, pid: nat, id: nat, deep: nat, later: seq<Row>)
    requires pid < id && (later == [] || later[0].pid <= pid)
    ensures Rebuild(SubRows(n, id, deep) + later, id) == (SeenBelow(n, deep), later)
    decreases deep, 0
  {
    if Below(n, deep).Some? {
      RebuildRows(Below(n, deep).value, id, id, deep - 1, later);
    } else {
      assert SubRows(n, id, deep) + later == later;
    }
  }

  /** Two dumps with the same rows show the same tree. */
  lemma {:induction false} RowsDetermineTree(ns: seq<Node>, ms: seq<Node>, pid: nat, id: nat, deep: nat)
    requires pid <= id && Rows(ns, pid, id, deep) == Rows(ms, pid, id, deep)
    ensures Seen(ns, deep) == Seen(ms, deep)
  {
    RebuildRows(ns, pid, id, deep, []);
    RebuildRows(ms, pid, id, deep, []);
  }

  // ---------------------------------------------------------------- directory sizes

  /** The bytes in all files that can be reached below a listing. */
  function Total(ns: seq<Node>): nat
    decreases ns, 0
  {
    if ns == [] then 0 else TotalOf(ns[0]) + Total(ns[1..])
  }

  function TotalOf(n: Node): nat
    decreases n, 1
  {
    if !n.isDir then n.size else if n.opens then Total(n.kids) else 0
  }

  /** How many levels of directories that open there are below a listing. */
  function Levels(ns: seq<Node>): nat
    decreases ns, 0
  {
    if ns == [] then 0 else Max(LevelsOf(ns[0]), Levels(ns[1..]))
  }

  function LevelsOf(n: Node): nat
    decreases n, 1
  {
    if n.isDir && n.opens then 1 + Levels(n.kids) else 0
  }

  function Max(a: nat, b: nat): nat { if a < b then b else a }

  function PrintedSizes(rows: seq<Row>): nat {
    if rows == [] then 0 else rows[0].size + PrintedSizes(rows[1..])
  }

  lemma {:induction false} PrintedAppend(rows: seq<Row>, more: seq<Row>)
    ensures PrintedSizes(rows + more) == PrintedSizes(rows) + PrintedSizes(more)
  {
    if rows == [] {
      assert rows + more == more;
    } else {
      PrintedAppend(rows[1..], more);
      assert (rows + more)[0] == rows[0] && (rows + more)[1..] == rows[1..] + more;
    }
  }

  /** The two programs agree: the sizes that a deep enough dump prints add up to the size of the directory. */
  lemma {:induction false} PrintedSizesAddUp(ns: seq<Node>, pid: nat, id: nat, deep: nat)
    requires deep >= Levels(ns)
    ensures PrintedSizes(Rows(ns, pid, id, deep)) == Total(ns)
    decreases deep, |ns|
  {
    if ns != [] {
      var n := ns[0];
      var row, sub := RowOf(n, id + 1, pid), SubRows(n, id + 1, deep);
      var rest := Rows(ns[1..], pid, id + 1 + |sub|, deep);
      PrintedSizesAddUp(ns[1..], pid, id + 1 + |sub|, deep);
      if n.isDir && n.opens {
        PrintedSizesAddUp(n.kids, id + 1, id + 1, deep - 1);
      }
      PrintedAppend([row] + sub, rest);
      PrintedAppend([row], sub);
      assert PrintedSizes([row]) == row.size + PrintedSizes([]);
    }
  }

  lemma {:induction false} TotalStep(ns: seq<Node>, i: nat)
    requires i < |ns|
    ensures Total(ns[i..]) == TotalOf(ns[i]) + Total(ns[i + 1..])
  {
    assert ns[i..][0] == ns[i] && ns[i..][1..] == ns[i + 1..];
  }

  lemma {:induction false} Add64Step(a: nat, b: nat, c: nat)
    ensures Add64(Add64(a, b), c) == Add64(a, b + c)
  {
  }

  function Add64(a: nat, b: nat): (r: nat)
    ensures r < 0x1_0000_0000_0000_0000 && (a + b - r) % 0x1_0000_0000_0000_0000 == 0
  {
    (a + b) % 0x1_0000_0000_0000_0000
  }
}
