/** A directory read over a connection: every page is received by cifs_trans_recv, and cifs_scandir collects them. */
module Directory {
  import opened Bytes
  import opened Transport
  import opened Transact
  import opened Find
  import opened Listing
  import opened Scandir
  import opened Enumeration
  import Codepage

  /** What the client holds between two responses. */
  ghost function Held(c: Conn, t: Trans): (k: Client)
    requires t.Apart(c)
    reads t, t.setup, t.param, t.data, t.setup.mem, t.param.mem, t.data.mem
    reads c, c.sock, c.i, c.i.p, c.i.b, c.o, c.o.p, c.o.b, c.i.p.mem
    ensures k.Valid()
  {
    Client(c.i.p.mem[..], t.setup.mem[..], t.param.mem[..], t.data.mem[..], c.sock.input)
  }

  /** A receive that takes the client from `k` to `k'` brought `reply`. */
  ghost predicate Brought(k: Client, at: nat, reply: Reply, k': Client)
    requires k.Valid() && at <= FIRST
  {
    match k.Response()
    case Failed => reply == Lost
    case Reassembled(t, mem, _) =>
      t.Valid() && |mem| == CAPACITY && reply == ReplyOf(k.Response(), at) && k' == Resume(k.Response())
  }

  /** The receives behind one request, and the fields of the answer (lines 110-123 and 149-157). */
  method FetchReply(c: Conn, t: Trans, at: nat) returns (reply: Reply)
    requires t.Apart(c) && at <= FIRST
    modifies t.setup`p, t.setup`e, t.param`p, t.param`e, t.data`p, t.data`e, t.setup.mem, t.param.mem, t.data.mem
    modifies c.sock, c.i.p`p, c.i.p`e, c.i.b, c.i.p.mem
    ensures t.Apart(c) && (old(c.sock.Healthy()) ==> c.sock.Healthy())
    ensures reply.Page? ==> |c.sock.input| + |c.sock.turns| < old(|c.sock.input| + |c.sock.turns|)
    ensures old(c.sock.Healthy()) ==> Brought(old(Held(c, t)), at, reply, Held(c, t))
  {
    hide Fetch;
    ghost var k := Held(c, t);
    ResponseValid(k);
    var r := t.Recv(c);
    if r != 0 { return Lost; }
    var param := t.param.mem[..];
    return Page(t.data.mem[..], Le16(param, at), Le16(param, at + 2) != 0);
  }

  /** Nothing further is asked for: the last page said so, or came without records (lines 142 and 159). */
  predicate Stops(replies: seq<Reply>) {
    replies != [] &&
    var last := replies[|replies| - 1];
    last.Lost? || last.end || (|replies| > 1 && last.count == 0)
  }

  /** The end flag stands on the last of the server's pages and on no other. */
  predicate FlaggedOnce(all: seq<Reply>) {
    all != [] && forall i :: 0 <= i < |all| ==> all[i].Page? && (all[i].end <==> i == |all| - 1)
  }

  lemma {:induction false} NextReply(k: Client, at: nat, all: seq<Reply>, n: nat, reply: Reply, k': Client)
    requires k.Valid() && at <= FIRST && n < |all| && Received(k, at, all[n..]) && FlaggedOnce(all)
    requires Brought(k, at, reply, k')
    ensures reply == all[n] && k'.Valid() && Received(k', NEXT, all[n + 1..])
    ensures all[..n] + [reply] == all[..n + 1] && (n + 1 == |all| ==> Stops(all[..n + 1]))
  {
    hide Fetch, ReplyOf;
    assert all[n..][1..] == all[n + 1..];
  }

  /** The pages of a whole enumeration, as far as cifs_readdir asks for them. */
  method FetchPages(c: Conn, t: Trans, ghost all: seq<Reply>) returns (replies: seq<Reply>)
    requires t.Apart(c) && c.sock.Healthy()
    requires FlaggedOnce(all) && Received(Held(c, t), FIRST, all)
    modifies t.setup`p, t.setup`e, t.param`p, t.param`e, t.data`p, t.data`e, t.setup.mem, t.param.mem, t.data.mem
    modifies c.sock, c.i.p`p, c.i.p`e, c.i.b, c.i.p.mem
    ensures t.Apart(c) && c.sock.Healthy()
    ensures replies <= all && Stops(replies)
    ensures Received(Held(c, t), NEXT, all[|replies|..])
  {
    replies := [];
    var at := FIRST;
    assert all != [] && all[0..] == all;
    hide Received, Brought, Stops, FlaggedOnce;
    while !Stops(replies)
      invariant t.Apart(c) && c.sock.Healthy()
      invariant |replies| <= |all| && replies == all[..|replies|] && (Stops(replies) || |replies| < |all|)
      invariant at == if replies == [] then FIRST else NEXT
      invariant Received(Held(c, t), at, all[|replies|..])
      decreases |all| - |replies|
    {
      ghost var k := Held(c, t);
      var reply := FetchReply(c, t, at);
      NextReply(k, at, all, |replies|, reply, Held(c, t));
      replies := replies + [reply];
      at := NEXT;
    }
  }

  /** Replies behind a page with the end flag, behind an empty page and behind a failure make no difference. */
  lemma {:induction false} LaterCut(names: Namer, end: bool, all: seq<Reply>, n: nat)
    requires 0 < n <= |all| && Replies(names, all)
    requires all[n - 1].Lost? || all[n - 1].end || all[n - 1].count == 0
    ensures Replies(names, all[..n]) && Later(names, end, all[..n]) == Later(names, end, all)
    decreases n
  {
    hide Chain, Entries;
    if n > 1 {
      LaterCut(names, all[0].Page? && all[0].end, all[1..], n - 1);
      assert all[..n][1..] == all[1..][..n - 1];
    }
  }

  lemma {:induction false} ListingCut(names: Namer, all: seq<Reply>, replies: seq<Reply>)
    requires FlaggedOnce(all) && replies <= all && Stops(replies)
    requires Chain(names, all[0].block, 0, all[0].count) && Replies(names, all[1..])
    ensures Replies(names, replies[1..]) && WholeListing(names, replies) == WholeListing(names, all)
  {
    var n := |replies|;
    assert replies == all[..n];
    if n > 1 {
      assert all[1..][n - 2] == all[n - 1];
      LaterCut(names, all[0].end, all[1..], n - 1);
      assert replies[1..] == all[1..][..n - 1];
    }
  }

  lemma {:induction false} AnswersFlagged(all: seq<Reply>, pages: seq<seq<Rec>>)
    requires pages != [] && Answers(all, pages)
    ensures FlaggedOnce(all)
  {
    if |pages| > 1 {
      AnswersFlagged(all[1..], pages[1..]);
      assert forall i :: 0 < i < |all| ==> all[i] == all[1..][i - 1];
    }
  }

  /** Copies tell which entries they stand for. */
  lemma {:induction false} CollectedOnce(nl: seq<Dirent?>, dir: seq<byte>, es: seq<Entry>, fs: seq<Entry>)
    requires Collected(nl, dir, es) && Collected(nl, dir, fs) && |es| == |fs|
    ensures es == fs
  {
    forall i | 0 <= i < |es| ensures es[i] == fs[i] {
      assert nl[i] != null && nl[i].Copies(dir, es[i]) && nl[i].Copies(dir, fs[i]);
    }
  }

  /** cifs_scandir on the pages cifs_readdir asked for. */
  method ScanFromTheWire(cp: Codepage.Converter, ghost names: Namer, dir: seq<byte>, ghost k: Client,
      ghost sheets: seq<Sheet>, ghost all: seq<Reply>, replies: seq<Reply>)
    returns (nl: array<Dirent?>)
    requires Codepage.Sound(cp) && Names(cp, names) && |dir| <= PATH_MAX && 0 !in dir
    requires k.Valid() && sheets != [] && Serves(k.s, FIRST, sheets) && AllPackable(names, Records(sheets))
    requires |all| == |sheets| && Received(k, FIRST, all) && replies <= all && Stops(replies)
    ensures fresh(nl) && nl.Length > 0 && nl[nl.Length - 1] == null
    ensures AllRead(names, Concat(Records(sheets)))
    ensures var es := Shown(EntriesOf(names, Concat(Records(sheets))));
      nl.Length == |es| + 1 && Collected(nl[..], dir, es) <==> NothingHidden(names, Records(sheets)[1..])
  {
    hide Serves, Received, AllPackable, NothingHidden, Shown, EntriesOf, Concat, FlaggedOnce;
    hide Answers, Chain, Replies, Names, Codepage.Sound, Records;
    ListingFromTheWire(names, k, sheets, all);
    RecordsLength(sheets);
    AnswersFlagged(all, Records(sheets));
    ListingCut(names, all, replies);
    ghost var es := Shown(EntriesOf(names, Concat(Records(sheets))));
    var d := new Dir(cp, names, dir, replies[0], replies[1..]);
    nl := Scandir.Scandir(d);
    if nl.Length == |es| + 1 && Collected(nl[..], dir, es) {
      CollectedOnce(nl[..], dir, es, Shown(WholeListing(names, replies)));
    }
  }

  /** cifs_scandir over a connection: whatever is left in the client's buffers, however the socket cuts the stream
      up, however the server cuts the listing into pages and each page into messages, and whatever it puts
      between them, the array holds every entry but "." and "..", once and in order, exactly when nothing but
      those two stands behind an empty page. */
  method ListDirectory(cp: Codepage.Converter, ghost names: Namer, dir: seq<byte>, c: Conn, t: Trans,
      ghost sheets: seq<Sheet>)
    returns (nl: array<Dirent?>)
    requires Codepage.Sound(cp) && Names(cp, names) && |dir| <= PATH_MAX && 0 !in dir
    requires t.Apart(c) && c.sock.Healthy()
    requires sheets != [] && Serves(c.sock.input, FIRST, sheets) && AllPackable(names, Records(sheets))
    modifies t.setup`p, t.setup`e, t.param`p, t.param`e, t.data`p, t.data`e, t.setup.mem, t.param.mem, t.data.mem
    modifies c.sock, c.i.p`p, c.i.p`e, c.i.b, c.i.p.mem
    ensures t.Apart(c) && c.sock.Healthy()
    ensures fresh(nl) && nl.Length > 0 && nl[nl.Length - 1] == null
    ensures AllRead(names, Concat(Records(sheets)))
    ensures var all := Shown(EntriesOf(names, Concat(Records(sheets))));
      nl.Length == |all| + 1 && Collected(nl[..], dir, all) <==> NothingHidden(names, Records(sheets)[1..])
  {
    hide Serves, Received, AllPackable, NothingHidden, Shown, EntriesOf, Concat;
    hide Chain, Replies, Names, Codepage.Sound, Records;
    ghost var k := Held(c, t);
    ghost var all := SheetsArrive(k, FIRST, sheets);
    RecordsLength(sheets);
    AnswersFlagged(all, Records(sheets));
    var replies := FetchPages(c, t, all);
    nl := ScanFromTheWire(cp, names, dir, k, sheets, all, replies);
  }
}
