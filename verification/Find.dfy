/** libcifs/find.c: reading a directory page by page through a chain of packed records
    (sections 2.2.6.2, 2.2.6.3 and 2.2.8.1.4 of MS-CIFS). */
module Find {
  import opened Bytes
  import opened Codepage

  const NAME_MAX := 255
  const PATH_MAX := 4096
  /** sizeof(struct cifs_find_dirinfo_s) */
  const RECORD_SIZE := 64
  const DOT: byte := 0x2E

  datatype Stat = Stat(creationTime: nat, accessTime: nat, writeTime: nat, changeTime: nat,
                       fileSize: nat, allocationSize: nat, attributes: nat) {
    /** FILE_ATTRIBUTE_DIRECTORY is 0x10. */
    predicate IsDirectory() { attributes / 16 % 2 == 1 }
  }

  datatype Entry = Entry(st: Stat, name: seq<byte>)

  // ---------------------------------------------------------------- one record

  function StatAt(block: seq<byte>, at: nat): Stat
    requires at + RECORD_SIZE <= |block|
  {
    Stat(Le64(block, at + 8), Le64(block, at + 16), Le64(block, at + 24), Le64(block, at + 32),
         Le64(block, at + 40), Le64(block, at + 48), Le32(block, at + 56))
  }

  function NextOffset(block: seq<byte>, at: nat): nat
    requires at + RECORD_SIZE <= |block|
  {
    Le32(block, at)
  }

  /** The record lies inside the block. */
  predicate InBlock(block: seq<byte>, at: nat) {
    at + RECORD_SIZE <= |block| && at + RECORD_SIZE + Le32(block, at + 60) <= |block|
  }

  function RawName(block: seq<byte>, at: nat): seq<byte>
    requires InBlock(block, at)
  {
    block[at + RECORD_SIZE..at + RECORD_SIZE + Le32(block, at + 60)]
  }

  /** What a raw name reads as once converted, if that leaves room for its NUL in the path buffer. */
  type Namer = seq<byte> -> Option<seq<byte>>

  ghost function NameText(cp: Converter, raw: seq<byte>): (t: Option<seq<byte>>)
    requires Sound(cp)
    ensures t.Some? <==> |Full(cp, raw)| < 255
    ensures t.Some? ==> t.value <= Full(cp, raw) && 0 !in t.value
    ensures t.Some? && |t.value| < |Full(cp, raw)| ==> Full(cp, raw)[|t.value|] == 0
  {
    if |Full(cp, raw)| < NAME_MAX then Some(CStr(Full(cp, raw))) else None
  }

  ghost predicate Names(cp: Converter, names: Namer)
    requires Sound(cp)
  {
    forall raw :: names(raw) == NameText(cp, raw)
  }

  /** The record can be read, and so can its name: the client checks neither. */
  predicate Readable(names: Namer, block: seq<byte>, at: nat) {
    InBlock(block, at) && names(RawName(block, at)).Some?
  }

  function EntryAt(names: Namer, block: seq<byte>, at: nat): Entry
    requires Readable(names, block, at)
  {
    Entry(StatAt(block, at), names(RawName(block, at)).value)
  }

  // ---------------------------------------------------------------- what is left of a listing

  /** What one FINDNEXT brings: a page of records, or nothing because sending or receiving failed. */
  datatype Reply = Page(block: seq<byte>, count: nat, end: bool) | Lost

  predicate Chain(names: Namer, block: seq<byte>, at: nat, count: nat)
    decreases count
  {
    count == 0 || (Readable(names, block, at) && Chain(names, block, at + NextOffset(block, at), count - 1))
  }

  function Entries(names: Namer, block: seq<byte>, at: nat, count: nat): seq<Entry>
    requires Chain(names, block, at, count)
    decreases count
  {
    if count == 0 then []
    else [EntryAt(names, block, at)] + Entries(names, block, at + NextOffset(block, at), count - 1)
  }

  /** Every page still to come can be read. */
  predicate Replies(names: Namer, replies: seq<Reply>) {
    forall r :: r in replies && r.Page? ==> Chain(names, r.block, 0, r.count)
  }

  /** The entries of the pages to come. A page without entries ends the listing whatever its end flag says. */
  function Later(names: Namer, end: bool, replies: seq<Reply>): seq<Entry>
    requires Replies(names, replies)
    decreases |replies|
  {
    if end || replies == [] || replies[0].Lost? || replies[0].count == 0 then []
    else
      assert replies[0] in replies;
      Entries(names, replies[0].block, 0, replies[0].count) + Later(names, replies[0].end, replies[1..])
  }

  predicate IsDots(e: Entry) {
    e.st.IsDirectory() && (e.name == [DOT] || e.name == [DOT, DOT])
  }

  /** Without the entries for the directory itself and its parent. */
  function Shown(es: seq<Entry>): seq<Entry> {
    if es == [] then [] else if IsDots(es[0]) then Shown(es[1..]) else [es[0]] + Shown(es[1..])
  }

  // ---------------------------------------------------------------- the iterator

  class Dir {
    const cp: Converter
    ghost const names: Namer
    ghost const dir: seq<byte>
    const nameAt: nat
    const path: array<byte>
    var block: seq<byte>
    var at: nat
    var count: nat
    var end: bool
    var replies: seq<Reply>
    var st: Stat

    /** Lines 118-132: the first page, and a path buffer that holds the directory and a slash. */
    constructor (cp: Converter, ghost names: Namer, dir: seq<byte>, page: Reply, replies: seq<Reply>)
      requires Sound(cp) && Names(cp, names) && page.Page? && |dir| <= PATH_MAX && 0 !in dir
      requires Chain(names, page.block, 0, page.count) && Replies(names, replies)
      ensures Valid() && fresh(path) && path.Length == 4353
      ensures this.cp == cp && this.names == names && this.dir == dir && this.replies == replies
      ensures Remaining() == Entries(names, page.block, 0, page.count) + Later(names, page.end, replies)
    {
      this.cp := cp;
      this.names := names;
      this.dir := dir;
      this.replies := replies;
      end := page.end;
      block := page.block;
      at := 0;
      count := page.count;
      st := Stat(0, 0, 0, 0, 0, 0, 0);
      nameAt := |dir| + 1;
      path := new byte[PATH_MAX + NAME_MAX + 2];
      new;
      forall k | 0 <= k < |dir| {
        path[k] := dir[k];
      }
      path[|dir|] := SLASH;
      path[nameAt] := 0;
      assert path[..][..nameAt] == dir + [SLASH];
    }

    /** The path buffer holds the directory and a slash, with room for a name. */
    ghost predicate PathReady()
      reads path
    {
      && nameAt == |dir| + 1 && nameAt + NAME_MAX < path.Length
      && 0 !in dir && path[..][..nameAt] == dir + [SLASH]
    }

    ghost predicate Valid()
      reads this, path
    {
      && Sound(cp) && Names(cp, names) && PathReady()
      && Chain(names, block, at, count) && Replies(names, replies)
    }

    /** Every entry the enumeration still has to go through. */
    ghost function Remaining(): seq<Entry>
      requires Valid()
      reads this, path
    {
      Entries(names, block, at, count) + Later(names, end, replies)
    }

    /** The shared directory entry, as the caller of readdir sees it. */
    function Name(): seq<byte>
      requires nameAt <= path.Length
      reads this, path
    {
      CStr(path[nameAt..])
    }

    function Path(): seq<byte>
      reads this, path
    {
      CStr(path[..])
    }

    /** Lines 31-35: the converted name behind the slash. */
    method ReadName(raw: seq<byte>)
      requires Sound(cp) && PathReady() && |Full(cp, raw)| < NAME_MAX
      modifies path
      ensures PathReady() && Name() == CStr(Full(cp, raw)) && Path() == dir + [SLASH] + Name()
    {
      ghost var text := Full(cp, raw);
      var r := CpBuf(cp, path, nameAt, NAME_MAX, raw);
      NameRead(path[..], dir, text);
      assert path[nameAt..] == path[..][nameAt..];
    }

    /** cifs_build_dirent: decodes the record under the cursor into the shared entry. */
    method BuildDirent()
      requires Valid() && count > 0
      modifies `st, path
      ensures Valid() && Entry(st, Name()) == EntryAt(names, block, at) && Path() == dir + [SLASH] + Name()
    {
      st := StatAt(block, at);
      ReadName(RawName(block, at));
    }

    /** Lines 141-163: at the end of a page, asks for the next one. */
    method NextPage() returns (ok: bool)
      requires Valid()
      modifies `block, `at, `count, `end, `replies
      ensures Valid()
      ensures ok ==> count > 0 && Remaining() == old(Remaining())
      ensures !ok ==> old(Remaining()) == []
      ensures |replies| <= |old(replies)| && (|replies| == |old(replies)| ==> count == old(count))
    {
      if count != 0 { return true; }
      if end || replies == [] { return false; }
      var reply := replies[0];
      replies := replies[1..];
      if reply.Lost? { return false; }
      end := reply.end;
      count := reply.count;
      block := reply.block;
      at := 0;
      ok := count != 0;
    }

    /** Lines 166-167. */
    method Advance()
      requires Valid() && count > 0
      modifies `at, `count
      ensures Valid() && count == old(count) - 1
      ensures old(Remaining()) == [EntryAt(names, block, old(at))] + Remaining()
    {
      hide Sound, Names, Chain, Entries, Readable, EntryAt, Later, Replies;
      ChainHead(names, block, at, count);
      var next, n := at + NextOffset(block, at), count - 1;
      EntriesStep(names, block, at, count, next, n, Later(names, end, replies));
      at := next;
      count := n;
    }

    /** Lines 164-167: reads the entry under the cursor and moves on. */
    method TakeEntry()
      requires Valid() && count > 0
      modifies `at, `count, `st, path
      ensures Valid() && count == old(count) - 1
      ensures old(Remaining()) == [Entry(st, Name())] + Remaining() && Path() == dir + [SLASH] + Name()
    {
      ghost var es := Remaining();
      BuildDirent();
      assert Remaining() == es;
      Advance();
    }

    /** cifs_readdir: the next entry that is not "." or "..", in the shared entry; false at the end of the
        listing, and on an error, which the caller cannot tell from it. */
    method Readdir() returns (found: bool)
      requires Valid()
      modifies `block, `at, `count, `end, `replies, `st, path
      ensures Valid()
      ensures !found ==> Shown(old(Remaining())) == []
      ensures found ==> Shown(old(Remaining())) == [Entry(st, Name())] + Shown(Remaining())
      ensures found ==> Path() == dir + [SLASH] + Name()
    {
      hide Chain, Entries, Later, Replies, Sound, Names, IsDots;
      ghost var shown := Shown(Remaining());
      while true
        invariant Valid() && Shown(Remaining()) == shown
        decreases |replies|, count
      {
        var ok := NextPage();
        if !ok { return false; }
        ghost var es := Remaining();
        TakeEntry();
        var e := Entry(st, Name());
        ShownStep(es, e, Remaining());
        if !IsDots(e) { return true; }
      }
    }
  }

  lemma {:induction false} ChainHead(names: Namer, block: seq<byte>, at: nat, count: nat)
    requires count > 0 && Chain(names, block, at, count)
    ensures Readable(names, block, at) && at + RECORD_SIZE <= |block|
  {
  }

  lemma {:induction false} EntriesStep(names: Namer, block: seq<byte>, at: nat, count: nat, next: nat, n: nat,
      later: seq<Entry>)
    requires count > 0 && Chain(names, block, at, count)
    requires next == at + NextOffset(block, at) && n == count - 1
    ensures Chain(names, block, next, n)
    ensures Entries(names, block, at, count) + later
         == [EntryAt(names, block, at)] + (Entries(names, block, next, n) + later)
  {
    Regroup([EntryAt(names, block, at)], Entries(names, block, next, n), later);
  }

  lemma {:induction false} ShownStep(es: seq<Entry>, e: Entry, rest: seq<Entry>)
    requires es == [e] + rest
    ensures Shown(es) == if IsDots(e) then Shown(rest) else [e] + Shown(rest)
  {
  }

  /** A path buffer behind whose slash a name was converted reads as directory, slash, name. */
  lemma {:induction false} NameRead(path: seq<byte>, dir: seq<byte>, text: seq<byte>)
    requires 0 !in dir && |dir| + 1 + |text| < |path|
    requires path[..|dir| + 1] == dir + [SLASH]
    requires path[|dir| + 1..|dir| + 1 + |text|] == text && path[|dir| + 1 + |text|] == 0
    ensures CStr(path[|dir| + 1..]) == CStr(text)
    ensures CStr(path) == dir + [SLASH] + CStr(text)
  {
    var n := |dir| + 1;
    var rest, behind := path[n..], path[n + |text| + 1..];
    assert rest == text + [0] + behind;
    assert path == path[..n] + rest;
    NameBehind(dir + [SLASH], text, behind);
  }

  lemma {:induction false} NameBehind(front: seq<byte>, text: seq<byte>, behind: seq<byte>)
    requires 0 !in front
    ensures CStr(text + [0] + behind) == CStr(text)
    ensures CStr(front + (text + [0] + behind)) == front + CStr(text)
  {
    CStrAppend(text, behind);
    CStrBehind(front, text + [0] + behind);
  }

  lemma {:induction false} CStrAppend(s: seq<byte>, t: seq<byte>)
    ensures CStr(s + [0] + t) == CStr(s)
  {
    if s != [] && s[0] != 0 {
      CStrAppend(s[1..], t);
      assert (s + [0] + t)[1..] == s[1..] + [0] + t;
    }
  }

  lemma {:induction false} CStrBehind(s: seq<byte>, t: seq<byte>)
    requires 0 !in s
    ensures CStr(s + t) == s + CStr(t)
  {
    if s == [] {
      assert s + t == t;
    } else {
      CStrBehind(s[1..], t);
      assert (s + t)[1..] == s[1..] + t;
    }
  }
}
