/** From the bytes on the wire to the directory entries: cifs_trans_recv under cifs_readdir. */
module Enumeration {
  import opened Bytes
  import opened Framing
  import opened Transport
  import opened Transact
  import opened Reassembly
  import opened Find
  import opened Listing

  /** Where the record count stands in the parameter block of a response: behind the search handle in
      FINDFIRST's, in front in FINDNEXT's. The end flag follows it. */
  const FIRST := 2
  const NEXT := 0

  /** What the client makes of a response (lines 110-123 and 144-156). It looks at the memory of both blocks,
      whatever their end marks. */
  function ReplyOf(r: Outcome, at: nat): Reply
    requires at <= FIRST && (r.Reassembled? ==> r.t.Valid())
  {
    match r
    case Failed => Lost
    case Reassembled(t, _, _) => Page(t.data.bytes, Le16(t.param.bytes, at), Le16(t.param.bytes, at + 2) != 0)
  }

  /** What the client holds between two responses: its receive buffer and blocks, and the stream. */
  datatype Client = Client(mem: seq<byte>, setup: seq<byte>, param: seq<byte>, data: seq<byte>, s: seq<byte>) {
    predicate Valid() {
      |mem| == CAPACITY && |setup| == MAX_SETUP && |param| == MAX_PARAM && |data| == MAX_DATA
    }

    function Response(): Outcome
      requires Valid()
    {
      Fetch(mem, setup, param, data, s)
    }
  }

  /** The client after a response that arrived. */
  function Resume(r: Outcome): (c: Client)
    requires r.Reassembled? && r.t.Valid() && |r.mem| == CAPACITY
    ensures c.Valid()
  {
    Client(r.mem, r.t.setup.bytes, r.t.param.bytes, r.t.data.bytes, r.rest)
  }

  lemma {:induction false} RunValid(mem: seq<byte>, t: Blocks, s: seq<byte>)
    requires |mem| == CAPACITY && t.Valid()
    ensures Run(mem, t, s).Reassembled? ==> Run(mem, t, s).t.Valid() && |Run(mem, t, s).mem| == CAPACITY
    decreases |s|
  {
    hide Accept;
    RunStep(mem, t, s);
    if Arrive(mem, s).Arrived? {
      var Arrived(mem', e, rest) := Arrive(mem, s);
      if Accept(mem', e, t).More? {
        RunValid(mem', Accept(mem', e, t).t, rest);
      }
    }
  }

  /** The responses of a whole enumeration, the first with its count at `at`. */
  ghost predicate Received(c: Client, at: nat, replies: seq<Reply>)
    requires c.Valid()
    decreases |replies|
  {
    replies == [] ||
    (at <= FIRST && c.Response().Reassembled? && c.Response().t.Valid() && |c.Response().mem| == CAPACITY
     && replies[0] == ReplyOf(c.Response(), at) && Received(Resume(c.Response()), NEXT, replies[1..]))
  }

  /** One page as the server sends it: its records, the parameter block that goes with them, and the
      fragments both blocks are cut into. */
  datatype Sheet = Sheet(rs: seq<Rec>, param: seq<byte>, pcs: seq<Piece>)

  function Records(sheets: seq<Sheet>): seq<seq<Rec>> {
    if sheets == [] then [] else [sheets[0].rs] + Records(sheets[1..])
  }

  /** The parameter block announces the records and whether they are the last. */
  predicate Announced(sheet: Sheet, at: nat, last: bool) {
    && at + 4 <= |sheet.param|
    && Le16(sheet.param, at) == |sheet.rs| && (Le16(sheet.param, at + 2) != 0 <==> last)
  }

  /** Byte by byte: a FINDFIRST parameter block has the search handle, the count at 2 and the end flag at 4, a FINDNEXT
      one the count at 0 and the end flag at 2. */
  lemma {:induction false} AnnouncedByBytes(sheet: Sheet, last: bool)
    ensures var p, n := sheet.param, |sheet.rs|;
      && (Announced(sheet, FIRST, last) <==>
            |p| >= 6 && p[2] as int + 256 * p[3] as int == n && (last <==> p[4] != 0 || p[5] != 0))
      && (Announced(sheet, NEXT, last) <==>
            |p| >= 4 && p[0] as int + 256 * p[1] as int == n && (last <==> p[2] != 0 || p[3] != 0))
  {
  }

  /** The stream brings the sheets one behind the other, each in its fragments. */
  predicate Serves(s: seq<byte>, at: nat, sheets: seq<Sheet>)
    decreases |sheets|
  {
    sheets == [] ||
    (at <= FIRST && Announced(sheets[0], at, |sheets| == 1)
     && Feeds(s, sheets[0].pcs, 0, 0) && SetupAccepted(sheets[0].pcs)
     && Cut(sheets[0].pcs, sheets[0].param, Pack(sheets[0].rs), 0, 0, MAX_PARAM, MAX_DATA)
     && Serves(AfterReceives(s, |sheets[0].pcs|), NEXT, sheets[1..]))
  }

  /** One page, whatever its fragments and whatever the buffers held before. */
  lemma {:induction false} SheetArrives(c: Client, at: nat, sheet: Sheet, last: bool) returns (r: Outcome)
    requires c.Valid() && at <= FIRST && Announced(sheet, at, last)
    requires Feeds(c.s, sheet.pcs, 0, 0) && SetupAccepted(sheet.pcs)
    requires Cut(sheet.pcs, sheet.param, Pack(sheet.rs), 0, 0, MAX_PARAM, MAX_DATA)
    ensures r == c.Response() && r.Reassembled? && r.t.Valid() && |r.mem| == CAPACITY
    ensures r.rest == AfterReceives(c.s, |sheet.pcs|)
    ensures Answer(ReplyOf(r, at), sheet.rs, last)
  {
    hide Fetch, Feeds, Cut, SetupAccepted, Pack, Announced, Answer, ReplyOf, Exact;
    r := c.Response();
    FragmentationIndependent(c.mem, c.setup, c.param, c.data, c.s, sheet.pcs, sheet.param, Pack(sheet.rs));
    ResponseValid(c);
    ExactAnswers(r, at, sheet, last, AfterReceives(c.s, |sheet.pcs|));
  }

  lemma {:induction false} ResponseValid(c: Client)
    requires c.Valid()
    ensures c.Response().Reassembled? ==> c.Response().t.Valid() && |c.Response().mem| == CAPACITY
  {
    hide Run;
    RunValid(c.mem, Cleared(c.setup, c.param, c.data), c.s);
  }

  lemma {:induction false} ExactAnswers(r: Outcome, at: nat, sheet: Sheet, last: bool, rest: seq<byte>)
    requires at <= FIRST && Announced(sheet, at, last) && Exact(r, sheet.param, Pack(sheet.rs), rest)
    ensures r.Reassembled? && r.t.Valid() && r.rest == rest && Answer(ReplyOf(r, at), sheet.rs, last)
  {
    hide Pack;
    FrontOfBlock(r.t.param.bytes, sheet.param, at);
    FrontOfBlock(r.t.param.bytes, sheet.param, at + 2);
  }

  lemma {:induction false} FrontOfBlock(block: seq<byte>, front: seq<byte>, at: nat)
    requires front <= block && at + 2 <= |front|
    ensures Le16(block, at) == Le16(front, at)
  {
  }

  lemma {:induction false} SheetsArrive(c: Client, at: nat, sheets: seq<Sheet>) returns (replies: seq<Reply>)
    requires c.Valid() && Serves(c.s, at, sheets)
    ensures Received(c, at, replies) && Answers(replies, Records(sheets))
    decreases |sheets|
  {
    hide Feeds, Cut, SetupAccepted, Announced, Answer, Fetch;
    if sheets == [] {
      replies := [];
    } else {
      var r := SheetArrives(c, at, sheets[0], |sheets| == 1);
      var more := SheetsArrive(Resume(r), NEXT, sheets[1..]);
      replies := [ReplyOf(r, at)] + more;
      assert replies[1..] == more;
      RecordsLength(sheets);
    }
  }

  // ---------------------------------------------------------------- a server that serves

  predicate AllPrepared(at: nat, sheets: seq<Sheet>)
    decreases |sheets|
  {
    sheets == [] ||
    (at <= FIRST && Announced(sheets[0], at, |sheets| == 1) && SetupAccepted(sheets[0].pcs)
     && AllSendable(sheets[0].pcs, 0, 0)
     && Cut(sheets[0].pcs, sheets[0].param, Pack(sheets[0].rs), 0, 0, MAX_PARAM, MAX_DATA)
     && AllPrepared(NEXT, sheets[1..]))
  }

  /** The messages of all sheets, fragment by fragment. */
  function SheetMsgs(at: nat, sheets: seq<Sheet>): seq<Msg>
    requires AllPrepared(at, sheets)
    decreases |sheets|
  {
    if sheets == [] then [] else PieceMsgs(sheets[0].pcs, 0, 0) + SheetMsgs(NEXT, sheets[1..])
  }

  /** A server that answers with the fragments of its sheets serves the client, whatever else it puts on the wire
      between them and behind. */
  lemma {:induction false} SendingServerServes(us: seq<Unit>, at: nat, sheets: seq<Sheet>, tail: seq<byte>)
    requires AllPrepared(at, sheets) && AllValid(us) && SheetMsgs(at, sheets) <= PacketsOf(us)
    ensures Serves(Wire(us) + tail, at, sheets)
    decreases |sheets|
  {
    hide Announced, SetupAccepted, Cut, AllSendable, PieceMsgs, Feeds;
    hide AfterReceives, Wire, PacketsOf, AllValid;
    if sheets != [] {
      var ms, later, n := PieceMsgs(sheets[0].pcs, 0, 0), SheetMsgs(NEXT, sheets[1..]), |sheets[0].pcs|;
      FrontOf(ms, later, PacketsOf(us));
      var vs := ConversationFeeds(us, sheets[0].pcs, 0, 0, tail);
      SendingServerServes(vs, NEXT, sheets[1..], tail);
    }
  }

  lemma {:induction false} FrontOf<T>(a: seq<T>, b: seq<T>, s: seq<T>)
    requires a + b <= s
    ensures a <= s && b <= s[|a|..]
  {
    assert s[..|a + b|] == a + b;
    assert s[..|a|] == (a + b)[..|a|] && s[|a|..][..|b|] == (a + b)[|a|..];
  }

  lemma {:induction false} RecordsLength(sheets: seq<Sheet>)
    ensures |Records(sheets)| == |sheets|
  {
    if sheets != [] {
      RecordsLength(sheets[1..]);
    }
  }

  lemma {:induction false} ReceivedOnce(c: Client, at: nat, p: seq<Reply>, q: seq<Reply>)
    requires c.Valid() && Received(c, at, p) && Received(c, at, q) && |p| == |q|
    ensures p == q
    decreases |p|
  {
    hide Fetch;
    if p != [] {
      ReceivedOnce(Resume(c.Response()), NEXT, p[1..], q[1..]);
      assert p == [p[0]] + p[1..] && q == [q[0]] + q[1..];
    }
  }

  /** From the wire up: however a listing is cut into pages, and each page into fragments, whatever chatter
      stands between them and whatever the client's buffers held, readdir returns every entry but "." and "..",
      once and in order, exactly when nothing but those two stands behind an empty page. */
  lemma {:induction false} ListingFromTheWire(names: Namer, c: Client, sheets: seq<Sheet>, replies: seq<Reply>)
    requires c.Valid() && sheets != [] && Serves(c.s, FIRST, sheets) && AllPackable(names, Records(sheets))
    requires |replies| == |sheets| && Received(c, FIRST, replies)
    ensures Answers(replies, Records(sheets)) && AllRead(names, Concat(Records(sheets)))
    ensures replies[0].Page? && Chain(names, replies[0].block, 0, replies[0].count) && Replies(names, replies[1..])
    ensures WholeListing(names, replies) == EntriesOf(names, Concat(Records(sheets))) <==> NoHole(Records(sheets)[1..])
    ensures Shown(WholeListing(names, replies)) == Shown(EntriesOf(names, Concat(Records(sheets))))
      <==> NothingHidden(names, Records(sheets)[1..])
  {
    hide Feeds, Cut, SetupAccepted, Announced, Fetch, Serves, Received, NothingHidden, NoHole, Shown, EntriesOf;
    var rs := SheetsArrive(c, FIRST, sheets);
    RecordsLength(sheets);
    ReceivedOnce(c, FIRST, rs, replies);
    EnumerationIsPagingIndependent(names, Records(sheets), replies);
  }
}
