/** What cifs_trans_recv guarantees about the blocks it rebuilds, over every stream of fragments. */
module Reassembly {
  import opened Bytes
  import opened Buffer
  import opened Framing
  import opened Transport
  import opened Transact

  // ---------------------------------------------------------------- fragments of one transaction

  /** One fragment: its share of the blocks, its setup words, and the totals it announces. */
  datatype Piece = Piece(param: seq<byte>, data: seq<byte>, setup: seq<byte>, paramTotal: nat, dataTotal: nat)

  function Field(f: seq<byte>, k: nat): nat
    requires |f| >= 57 && k < 10
  {
    Le16(f, 37 + 2 * k)
  }

  /** The message locates `part` by count, offset and displacement words k, k+1, k+2; the layout is the server's
      choice. */
  predicate Locates(f: seq<byte>, k: nat, part: seq<byte>, at: nat)
    requires |f| >= 57 && k + 2 < 10
  {
    Field(f, k) == |part| &&
    (part != [] ==> Field(f, k + 2) == at && Field(f, k + 1) + 4 + |part| <= |f|
                    && f[Field(f, k + 1) + 4..Field(f, k + 1) + 4 + |part|] == part)
  }

  /** The message `f` is a transaction response without error that carries the piece. */
  predicate Carries(f: seq<byte>, pc: Piece, paramAt: nat, dataAt: nat) {
    && 57 + |pc.setup| <= |f| <= CAPACITY && Decode(f).Some?
    && (f[8] == SMB_TRANS || f[8] == SMB_TRANS2)
    && !(Le16(f, 11) != 0 && f[9] in {1, 2})
    && Field(f, 0) == pc.paramTotal && Field(f, 1) == pc.dataTotal
    && Locates(f, 3, pc.param, paramAt) && Locates(f, 6, pc.data, dataAt)
    && 2 * Field(f, 9) == |pc.setup| && f[57..57 + |pc.setup|] == pc.setup
  }

  /** The next messages of the stream carry the pieces in order, each where the last one stopped. */
  predicate Feeds(s: seq<byte>, pcs: seq<Piece>, paramAt: nat, dataAt: nat)
    decreases |pcs|
  {
    pcs == [] ||
    (NextMessage(s).Message? && Carries(NextMessage(s).frame, pcs[0], paramAt, dataAt)
     && Feeds(NextMessage(s).rest, pcs[1..], paramAt + |pcs[0].param|, dataAt + |pcs[0].data|))
  }

  /** The pieces cut (param, data), of which `paramAt` and `dataAt` bytes were sent before: totals never grow,
      never fall below what is there, and the last piece, the first to leave nothing behind, states them exactly. */
  predicate Cut(pcs: seq<Piece>, param: seq<byte>, data: seq<byte>, paramAt: nat, dataAt: nat, paramMax: nat,
      dataMax: nat)
    decreases |pcs|
  {
    && pcs != [] && pcs[0].param <= param && pcs[0].data <= data
    && paramAt + |param| <= pcs[0].paramTotal <= paramMax
    && dataAt + |data| <= pcs[0].dataTotal <= dataMax
    && if |pcs| == 1 then
         && pcs[0].param == param && pcs[0].data == data
         && pcs[0].paramTotal == paramAt + |param| && pcs[0].dataTotal == dataAt + |data|
       else
         && !(pcs[0].param == param && pcs[0].data == data)
         && Cut(pcs[1..], param[|pcs[0].param|..], data[|pcs[0].data|..],
                paramAt + |pcs[0].param|, dataAt + |pcs[0].data|, pcs[0].paramTotal, pcs[0].dataTotal)
  }

  predicate NoSetup(pcs: seq<Piece>) {
    forall pc :: pc in pcs ==> pc.setup == []
  }

  /** The blocks hold what was sent so far, with the totals last announced. */
  predicate SoFar(t: Blocks, paramAt: nat, dataAt: nat, paramMax: nat, dataMax: nat) {
    && t.Valid() && t.param.p == paramAt <= t.param.e == paramMax && t.data.p == dataAt <= t.data.e == dataMax
  }

  // ---------------------------------------------------------------- one fragment

  lemma {:induction false} WordIsField(f: seq<byte>, mem: seq<byte>, k: nat)
    requires 57 <= |f| <= |mem| == CAPACITY && mem[..|f|] == f && k < 10
    ensures Word(mem, k) == Field(f, k)
  {
    assert mem[..|f|][37 + 2 * k] == mem[37 + 2 * k] && mem[..|f|][38 + 2 * k] == mem[38 + 2 * k];
  }

  lemma {:induction false} PutExtends(k: Block, part: seq<byte>)
    requires k.Valid() && k.p + |part| <= |k.bytes|
    ensures k.At(k.p).Put(part).bytes[..k.p + |part|] == k.bytes[..k.p] + part
  {
  }

  /** Copying the next part of a block in order extends what was copied before. */
  lemma {:induction false} CopyExtends(k: Block, f: seq<byte>, mem: seq<byte>, w: nat, part: seq<byte>)
    requires k.Valid() && 57 <= |f| <= |mem| == CAPACITY && mem[..|f|] == f && w + 2 < 10
    requires Locates(f, w, part, k.p) && k.p + |part| <= k.e
    ensures var r := CopyIn(k, mem, |f|, Word(mem, w), Word(mem, w + 1), Word(mem, w + 2));
      && r.Some? && r.value.bytes[..k.p + |part|] == k.bytes[..k.p] + part
      && r.value.p == k.p + |part| && r.value.e == k.e
  {
    WordIsField(f, mem, w);
    WordIsField(f, mem, w + 1);
    WordIsField(f, mem, w + 2);
    if part != [] {
      var off := Field(f, w + 1) + 4;
      SliceOfFront(mem, |f|, off, off + |part|);
      PutExtends(k, part);
    } else {
      assert k.bytes[..k.p] + part == k.bytes[..k.p];
    }
  }

  /** A fragment that continues the blocks passes the tests exactly when there is room for its setup words. */
  lemma {:induction false} PieceAdmitted(f: seq<byte>, mem: seq<byte>, t: Blocks, pc: Piece)
    requires t.Valid() && |f| <= |mem| == CAPACITY && mem[..|f|] == f
    requires Carries(f, pc, t.param.p, t.data.p) && pc.paramTotal <= t.param.e && pc.dataTotal <= t.data.e
    ensures Admissible(mem, t) <==> |pc.setup| <= t.setup.Left()
    ensures Admissible(mem, t) ==>
      Admit(mem, t)
      == Blocks(t.setup.End(|pc.setup|).Put(pc.setup), t.param.End(pc.paramTotal), t.data.End(pc.dataTotal))
  {
    WordIsField(f, mem, 0);
    WordIsField(f, mem, 1);
    WordIsField(f, mem, 9);
    assert f[8] == mem[8] && f[9] == mem[9] && f[11] == mem[11] && f[12] == mem[12];
    if |pc.setup| <= t.setup.Left() {
      assert mem[57..57 + |pc.setup|] == mem[..|f|][57..57 + |pc.setup|] == pc.setup;
    }
  }

  /** The two copies, from blocks `a` whose ends are set. */
  lemma {:induction false} PieceCopied(f: seq<byte>, mem: seq<byte>, a: Blocks, pc: Piece)
    requires a.Valid() && 57 <= |f| <= |mem| == CAPACITY && mem[..|f|] == f
    requires Locates(f, 3, pc.param, a.param.p) && Locates(f, 6, pc.data, a.data.p)
    requires a.param.p + |pc.param| <= a.param.e && a.data.p + |pc.data| <= a.data.e
    ensures var v := CopyBlocks(mem, |f|, a);
      && !v.Bad? && v.t.Valid() && v.t.setup == a.setup
      && v.t.param.p == a.param.p + |pc.param| && v.t.param.e == a.param.e
      && v.t.data.p == a.data.p + |pc.data| && v.t.data.e == a.data.e
      && v.t.param.bytes[..v.t.param.p] == a.param.bytes[..a.param.p] + pc.param
      && v.t.data.bytes[..v.t.data.p] == a.data.bytes[..a.data.p] + pc.data
      && (v.Done? <==> v.t.param.p == v.t.param.e && v.t.data.p == v.t.data.e)
  {
    CopyExtends(a.param, f, mem, 3, pc.param);
    CopyExtends(a.data, f, mem, 6, pc.data);
  }

  /** What an admitted fragment does to the blocks. */
  lemma {:induction false} PieceAccepted(f: seq<byte>, mem: seq<byte>, t: Blocks, pc: Piece)
    requires t.Valid() && |f| <= |mem| == CAPACITY && mem[..|f|] == f
    requires Carries(f, pc, t.param.p, t.data.p)
    requires t.param.p + |pc.param| <= pc.paramTotal <= t.param.e && t.data.p + |pc.data| <= pc.dataTotal <= t.data.e
    ensures Accept(mem, |f|, t).Bad? <==> |pc.setup| > t.setup.Left()
    ensures !Accept(mem, |f|, t).Bad? ==>
      var u := Accept(mem, |f|, t).t;
      && SoFar(u, t.param.p + |pc.param|, t.data.p + |pc.data|, pc.paramTotal, pc.dataTotal)
      && u.param.bytes[..u.param.p] == t.param.bytes[..t.param.p] + pc.param
      && u.data.bytes[..u.data.p] == t.data.bytes[..t.data.p] + pc.data
      && u.setup == t.setup.End(|pc.setup|).Put(pc.setup)
      && (Accept(mem, |f|, t).Done? <==> u.param.p == u.param.e && u.data.p == u.data.e)
  {
    PieceAdmitted(f, mem, t, pc);
    if Admissible(mem, t) {
      PieceCopied(f, mem, Admit(mem, t), pc);
    }
  }

  // ---------------------------------------------------------------- a whole transaction

  /** The room test of every fragment passes, from a setup block with cursor p and `left` bytes to its end:
      storing n bytes leaves the cursor at p + n and the end at n. */
  predicate SetupFits(pcs: seq<Piece>, p: nat, left: int)
    decreases |pcs|
  {
    pcs == [] || (|pcs[0].setup| <= left && SetupFits(pcs[1..], p + |pcs[0].setup|, 0 - p))
  }

  lemma {:induction false} FeedsStep(s: seq<byte>, pcs: seq<Piece>, paramAt: nat, dataAt: nat, p: nat, d: nat)
    requires |pcs| > 1 && Feeds(s, pcs, paramAt, dataAt) && p == paramAt + |pcs[0].param| && d == dataAt + |pcs[0].data|
    ensures Feeds(NextMessage(s).rest, pcs[1..], p, d)
  {
    hide Carries;
  }

  lemma {:induction false} CutStep(pcs: seq<Piece>, param: seq<byte>, data: seq<byte>, t: Blocks, p: nat, d: nat)
    requires |pcs| > 1 && Cut(pcs, param, data, t.param.p, t.data.p, t.param.e, t.data.e)
    requires p == t.param.p + |pcs[0].param| && d == t.data.p + |pcs[0].data|
    ensures Cut(pcs[1..], param[|pcs[0].param|..], data[|pcs[0].data|..], p, d, pcs[0].paramTotal, pcs[0].dataTotal)
  {
  }

  /** The first turn of the loop over pieces still to come. */
  lemma {:induction false} FirstPiece(mem: seq<byte>, t: Blocks, s: seq<byte>, pcs: seq<Piece>, param: seq<byte>,
      data: seq<byte>)
    returns (mem': seq<byte>, u: Blocks, rest: seq<byte>)
    requires |mem| == CAPACITY && SoFar(t, t.param.p, t.data.p, t.param.e, t.data.e)
    requires Feeds(s, pcs, t.param.p, t.data.p)
    requires Cut(pcs, param, data, t.param.p, t.data.p, t.param.e, t.data.e)
    ensures |mem'| == CAPACITY && NextMessage(s).Message? && rest == NextMessage(s).rest && u.Valid()
    ensures |pcs[0].setup| > t.setup.Left() ==> Run(mem, t, s) == Failed
    ensures |pcs[0].setup| <= t.setup.Left() ==>
      && Run(mem, t, s) == (if |pcs| == 1 then Reassembled(u, mem', rest) else Run(mem', u, rest))
      && SoFar(u, t.param.p + |pcs[0].param|, t.data.p + |pcs[0].data|, pcs[0].paramTotal, pcs[0].dataTotal)
      && u.param.bytes[..u.param.p] == t.param.bytes[..t.param.p] + pcs[0].param
      && u.data.bytes[..u.data.p] == t.data.bytes[..t.data.p] + pcs[0].data
      && u.setup.p == t.setup.p + |pcs[0].setup| && u.setup.Left() == 0 - t.setup.p
    ensures |pcs[0].setup| <= t.setup.Left() && |pcs| > 1 ==>
      && Feeds(rest, pcs[1..], u.param.p, u.data.p)
      && Cut(pcs[1..], param[|pcs[0].param|..], data[|pcs[0].data|..], u.param.p, u.data.p, u.param.e, u.data.e)
  {
    var f := NextMessage(s).frame;
    rest := NextMessage(s).rest;
    mem' := f + mem[|f|..];
    assert mem'[..|f|] == f;
    assert Arrive(mem, s) == Arrived(mem', |f|, rest);
    PieceAccepted(f, mem', t, pcs[0]);
    var v := Accept(mem', |f|, t);
    u := if v.Bad? then t else v.t;
    if !v.Bad? && |pcs| > 1 {
      assert v.More?;
      FeedsStep(s, pcs, t.param.p, t.data.p, u.param.p, u.data.p);
      CutStep(pcs, param, data, t, u.param.p, u.data.p);
    }
  }

  /** From any state of the loop, feeding the rest of a transaction succeeds exactly when the setup words fit,
      at the last piece and at no other, and completes both blocks. */
  lemma {:induction false} RunPieces(r: Outcome, mem: seq<byte>, t: Blocks, s: seq<byte>, pcs: seq<Piece>,
      param: seq<byte>, data: seq<byte>)
    requires |mem| == CAPACITY && SoFar(t, t.param.p, t.data.p, t.param.e, t.data.e)
    requires Feeds(s, pcs, t.param.p, t.data.p)
    requires Cut(pcs, param, data, t.param.p, t.data.p, t.param.e, t.data.e)
    requires r == Run(mem, t, s)
    ensures r.Reassembled? <==> SetupFits(pcs, t.setup.p, t.setup.Left())
    ensures r.Reassembled? ==> Whole(r, t, s, |pcs|, param, data)
    decreases |pcs|
  {
    hide Carries;
    var mem', u, rest := FirstPiece(mem, t, s, pcs, param, data);
    if |pcs[0].setup| > t.setup.Left() {
      assert r == Failed;
    } else if |pcs| == 1 {
      LastPiece(t, u, s, mem', rest, pcs, param, data);
    } else {
      var p, d := param[|pcs[0].param|..], data[|pcs[0].data|..];
      assert Feeds(rest, pcs[1..], u.param.p, u.data.p);
      assert Cut(pcs[1..], p, d, u.param.p, u.data.p, u.param.e, u.data.e);
      SetupStep(pcs, t.setup.p, t.setup.Left(), u.setup.p, u.setup.Left());
      RunPieces(r, mem', u, rest, pcs[1..], p, d);
      if r.Reassembled? {
        LaterPieces(r, t, u, s, pcs, param, data);
      }
    }
  }

  lemma {:induction false} SetupStep(pcs: seq<Piece>, p: nat, left: int, p': nat, left': int)
    requires pcs != [] && |pcs[0].setup| <= left && p' == p + |pcs[0].setup| && left' == 0 - p
    ensures SetupFits(pcs, p, left) == SetupFits(pcs[1..], p', left')
  {
  }

  lemma {:induction false} LaterPieces(r: Outcome, t: Blocks, u: Blocks, s: seq<byte>, pcs: seq<Piece>,
      param: seq<byte>, data: seq<byte>)
    requires |pcs| > 1 && t.Valid() && u.Valid() && NextMessage(s).Message?
    requires pcs[0].param <= param && pcs[0].data <= data
    requires u.param.bytes[..u.param.p] == t.param.bytes[..t.param.p] + pcs[0].param
    requires u.data.bytes[..u.data.p] == t.data.bytes[..t.data.p] + pcs[0].data
    requires Whole(r, u, NextMessage(s).rest, |pcs| - 1, param[|pcs[0].param|..], data[|pcs[0].data|..])
    ensures Whole(r, t, s, |pcs|, param, data)
  {
    assert pcs[0].param + param[|pcs[0].param|..] == param;
    assert pcs[0].data + data[|pcs[0].data|..] == data;
    Regroup(t.param.bytes[..t.param.p], pcs[0].param, param[|pcs[0].param|..]);
    Regroup(t.data.bytes[..t.data.p], pcs[0].data, data[|pcs[0].data|..]);
  }

  lemma {:induction false} LastPiece(t: Blocks, u: Blocks, s: seq<byte>, mem': seq<byte>, rest: seq<byte>,
      pcs: seq<Piece>, param: seq<byte>, data: seq<byte>)
    requires |pcs| == 1 && pcs[0].param == param && pcs[0].data == data && t.Valid()
    requires NextMessage(s).Message? && rest == NextMessage(s).rest
    requires SoFar(u, t.param.p + |param|, t.data.p + |data|, t.param.p + |param|, t.data.p + |data|)
    requires u.param.bytes[..u.param.p] == t.param.bytes[..t.param.p] + param
    requires u.data.bytes[..u.data.p] == t.data.bytes[..t.data.p] + data
    ensures Whole(Reassembled(u, mem', rest), t, s, |pcs|, param, data)
    ensures SetupFits(pcs, t.setup.p, t.setup.Left()) <==> |pcs[0].setup| <= t.setup.Left()
  {
    assert AfterReceives(s, 1) == rest;
  }

  /** The outcome that holds exactly the message: what `t` had of the blocks, completed. */
  predicate Whole(r: Outcome, t: Blocks, s: seq<byte>, n: nat, param: seq<byte>, data: seq<byte>)
    requires t.Valid()
  {
    && r.Reassembled? && r.t.Valid() && r.rest == AfterReceives(s, n)
    && r.t.param.Contents() == t.param.bytes[..t.param.p] + param
    && r.t.data.Contents() == t.data.bytes[..t.data.p] + data
  }

  /** When the setup words of the pieces are all accepted: none at all, or one lot in the first piece of at
      most two. A third fragment always fails, because the second leaves the cursor behind the end mark. */
  predicate SetupAccepted(pcs: seq<Piece>) {
    NoSetup(pcs) ||
    (|pcs| > 0 && |pcs[0].setup| <= MAX_SETUP && (|pcs| == 1 || (|pcs| == 2 && pcs[1].setup == [])))
  }

  lemma {:induction false} NoSetupFits(pcs: seq<Piece>, left: nat)
    ensures NoSetup(pcs) ==> SetupFits(pcs, 0, left)
    ensures left == 0 && SetupFits(pcs, 0, left) ==> NoSetup(pcs)
    decreases |pcs|
  {
    if pcs != [] {
      assert pcs[0] in pcs;
      NoSetupFits(pcs[1..], 0);
      assert forall pc :: pc in pcs <==> pc == pcs[0] || pc in pcs[1..];
      if pcs[0].setup == [] {
        SetupStep(pcs, 0, left, 0, 0);
      }
    }
  }

  lemma {:induction false} SetupFitsExactly(pcs: seq<Piece>)
    requires pcs != []
    ensures SetupFits(pcs, 0, MAX_SETUP) <==> SetupAccepted(pcs)
  {
    var n := |pcs[0].setup|;
    assert pcs[0] in pcs;
    if n == 0 {
      SetupStep(pcs, 0, MAX_SETUP, 0, 0);
      NoSetupFits(pcs[1..], 0);
      assert forall pc :: pc in pcs <==> pc == pcs[0] || pc in pcs[1..];
      assert |pcs| == 2 ==> pcs[1..] == [pcs[1]];
    } else if n <= MAX_SETUP && |pcs| > 1 {
      SetupStep(pcs, 0, MAX_SETUP, n, 0);
      if pcs[1].setup == [] && |pcs| > 2 {
        SetupStep(pcs[1..], n, 0, n, 0 - n);
      }
    }
  }

  /** Reassembly does not depend on how a message was cut up, nor on anything the reused buffers held before:
      whatever the fragments, their layout and the totals announced on the way, the call succeeds exactly when
      the setup words are accepted, and then delivers the parameter and data blocks byte for byte. */
  lemma {:induction false} FragmentationIndependent(mem: seq<byte>, oldSetup: seq<byte>, oldParam: seq<byte>,
      oldData: seq<byte>, s: seq<byte>, pcs: seq<Piece>, param: seq<byte>, data: seq<byte>)
    requires |mem| == CAPACITY && |oldSetup| == MAX_SETUP && |oldParam| == MAX_PARAM && |oldData| == MAX_DATA
    requires Feeds(s, pcs, 0, 0) && Cut(pcs, param, data, 0, 0, MAX_PARAM, MAX_DATA)
    ensures Fetch(mem, oldSetup, oldParam, oldData, s).Reassembled? <==> SetupAccepted(pcs)
    ensures SetupAccepted(pcs) ==>
      Exact(Fetch(mem, oldSetup, oldParam, oldData, s), param, data, AfterReceives(s, |pcs|))
  {
    var t := Cleared(oldSetup, oldParam, oldData);
    var r := Run(mem, t, s);
    RunPieces(r, mem, t, s, pcs, param, data);
    SetupFitsExactly(pcs);
    if r.Reassembled? {
      WholeIsExact(r, t, s, |pcs|, param, data);
    }
  }

  /** The caller finds exactly the two blocks, both cursors rewound, and the stream behind the last fragment. */
  predicate Exact(r: Outcome, param: seq<byte>, data: seq<byte>, rest: seq<byte>) {
    && r.Reassembled? && r.t.Valid() && r.t.param.p == r.t.data.p == 0
    && r.t.param.Contents() == param && r.t.data.Contents() == data && r.rest == rest
  }

  lemma {:induction false} WholeIsExact(r: Outcome, t: Blocks, s: seq<byte>, n: nat, param: seq<byte>, data: seq<byte>)
    requires t.Valid() && t.param.p == t.data.p == 0 && Whole(r, t, s, n, param, data)
    ensures Exact(r.Rewound(), param, data, AfterReceives(s, n))
  {
    assert t.param.bytes[..0] + param == param && t.data.bytes[..0] + data == data;
  }

  // ---------------------------------------------------------------- a server that sends them

  predicate Sendable(pc: Piece, paramAt: nat, dataAt: nat) {
    && |pc.setup| % 2 == 0 && |pc.setup| <= 490
    && paramAt + |pc.param| <= pc.paramTotal <= MAX_PARAM && dataAt + |pc.data| <= pc.dataTotal <= MAX_DATA
  }

  function PieceWords(pc: Piece, paramAt: nat, dataAt: nat): (w: seq<byte>)
    ensures |w| == 20
  {
    var off := 55 + |pc.setup|;
    PutLe16(pc.paramTotal) + PutLe16(pc.dataTotal) + PutLe16(0)
    + PutLe16(|pc.param|) + PutLe16(off) + PutLe16(paramAt)
    + PutLe16(|pc.data|) + PutLe16(off + |pc.param|) + PutLe16(dataAt) + PutLe16(|pc.setup| / 2)
  }

  /** The message a server sends for a piece, its bytes packed behind the setup words. */
  function PieceMsg(pc: Piece, paramAt: nat, dataAt: nat): (m: Msg)
    requires Sendable(pc, paramAt, dataAt)
    ensures m.Valid()
  {
    var zeros: seq<byte> := seq(27, _ => 0);
    var header := MAGIC + [SMB_TRANS2] + zeros;
    assert header[..4] == MAGIC;
    Msg(0, header, PieceWords(pc, paramAt, dataAt) + pc.setup, pc.param + pc.data)
  }

  predicate AllSendable(pcs: seq<Piece>, paramAt: nat, dataAt: nat)
    decreases |pcs|
  {
    pcs == [] || (Sendable(pcs[0], paramAt, dataAt)
                  && AllSendable(pcs[1..], paramAt + |pcs[0].param|, dataAt + |pcs[0].data|))
  }

  function Send(pcs: seq<Piece>, paramAt: nat, dataAt: nat): seq<byte>
    requires AllSendable(pcs, paramAt, dataAt)
    decreases |pcs|
  {
    if pcs == [] then []
    else Encode(PieceMsg(pcs[0], paramAt, dataAt)) + Send(pcs[1..], paramAt + |pcs[0].param|, dataAt + |pcs[0].data|)
  }

  lemma {:induction false} SentWords(pc: Piece, paramAt: nat, dataAt: nat, f: seq<byte>)
    requires Sendable(pc, paramAt, dataAt) && |f| >= 57 && f[37..57] == PieceWords(pc, paramAt, dataAt)
    ensures Field(f, 0) == pc.paramTotal && Field(f, 1) == pc.dataTotal && Field(f, 9) == |pc.setup| / 2
    ensures Field(f, 3) == |pc.param| && Field(f, 4) == 55 + |pc.setup| && Field(f, 5) == paramAt
    ensures Field(f, 6) == |pc.data| && Field(f, 7) == 55 + |pc.setup| + |pc.param| && Field(f, 8) == dataAt
  {
    FieldsInWords(f, PieceWords(pc, paramAt, dataAt));
  }

  lemma {:induction false} FieldsInWords(f: seq<byte>, words: seq<byte>)
    requires |f| >= 57 && f[37..57] == words
    ensures forall k :: 0 <= k < 10 ==> Field(f, k) == Le16(words, 2 * k)
  {
    forall k | 0 <= k < 10 ensures Field(f, k) == Le16(words, 2 * k) {
      assert f[37..57][2 * k] == f[37 + 2 * k] && f[37..57][2 * k + 1] == f[38 + 2 * k];
    }
  }

  lemma {:induction false} SentPieceCarries(pc: Piece, paramAt: nat, dataAt: nat)
    requires Sendable(pc, paramAt, dataAt)
    ensures IsMessage(Encode(PieceMsg(pc, paramAt, dataAt)))
    ensures Carries(Encode(PieceMsg(pc, paramAt, dataAt)), pc, paramAt, dataAt)
  {
    var m := PieceMsg(pc, paramAt, dataAt);
    EncodeIsMessage(m);
    DecodeEncode(m);
    EncodeParts(m);
    PartsCarry(Encode(m), pc, paramAt, dataAt, m.header);
  }

  lemma {:induction false} PartsCarry(f: seq<byte>, pc: Piece, paramAt: nat, dataAt: nat, header: seq<byte>)
    requires Sendable(pc, paramAt, dataAt) && Decode(f).Some?
    requires |f| == 59 + |pc.setup| + |pc.param| + |pc.data| && |header| == 32 && f[4..36] == header
    requires header[4] == SMB_TRANS2 && header[5] == 0
    requires f[37..57 + |pc.setup|] == PieceWords(pc, paramAt, dataAt) + pc.setup
    requires f[59 + |pc.setup|..] == pc.param + pc.data
    ensures Carries(f, pc, paramAt, dataAt)
  {
    hide PieceWords, Decode;
    var n := |pc.setup|;
    assert f[37..57] == f[37..57 + n][..20] == PieceWords(pc, paramAt, dataAt);
    assert f[57..57 + n] == f[37..57 + n][20..] == pc.setup;
    SentWords(pc, paramAt, dataAt, f);
    HeaderBytes(f, header);
    assert f[59 + n..59 + n + |pc.param|] == f[59 + n..][..|pc.param|] == pc.param;
    assert f[59 + n + |pc.param|..59 + n + |pc.param| + |pc.data|] == f[59 + n..][|pc.param|..] == pc.data;
  }

  lemma {:induction false} HeaderBytes(f: seq<byte>, header: seq<byte>)
    requires |header| == 32 && |f| >= 36 && f[4..36] == header
    ensures f[8] == header[4] && f[9] == header[5] && f[11] == header[7] && f[12] == header[8]
  {
  }

  /** A fragment in front of a stream that feeds the rest. */
  lemma {:induction false} FeedsFirst(f: seq<byte>, rest: seq<byte>, pcs: seq<Piece>, paramAt: nat, dataAt: nat,
      p: nat, d: nat)
    requires pcs != [] && IsMessage(f) && Carries(f, pcs[0], paramAt, dataAt)
    requires p == paramAt + |pcs[0].param| && d == dataAt + |pcs[0].data| && Feeds(rest, pcs[1..], p, d)
    ensures Feeds(f + rest, pcs, paramAt, dataAt)
    ensures AfterReceives(f + rest, |pcs|) == AfterReceives(rest, |pcs| - 1)
  {
    hide Carries;
    FrameSplits(f, rest);
    assert NextMessage(f + rest) == Message(f, rest);
  }

  lemma {:induction false} FeedsNothing(s: seq<byte>, paramAt: nat, dataAt: nat)
    ensures Feeds(s, [], paramAt, dataAt) && AfterReceives(s, 0) == s
  {
  }

  /** What such a server sends feeds the client: the theorem above applies to it. */
  lemma {:induction false} SentPiecesFeed(pcs: seq<Piece>, paramAt: nat, dataAt: nat)
    requires AllSendable(pcs, paramAt, dataAt)
    ensures Feeds(Send(pcs, paramAt, dataAt), pcs, paramAt, dataAt)
    ensures AfterReceives(Send(pcs, paramAt, dataAt), |pcs|) == []
    decreases |pcs|
  {
    hide Carries, PieceMsg, Encode, Sendable, IsMessage, Feeds, AfterReceives;
    FeedsNothing(Send([], paramAt, dataAt), paramAt, dataAt);
    if pcs != [] {
      var p, d := paramAt + |pcs[0].param|, dataAt + |pcs[0].data|;
      var f := Encode(PieceMsg(pcs[0], paramAt, dataAt));
      SentPieceCarries(pcs[0], paramAt, dataAt);
      SentPiecesFeed(pcs[1..], p, d);
      FeedsFirst(f, Send(pcs[1..], p, d), pcs, paramAt, dataAt, p, d);
    }
  }

  /** The messages that carry the pieces. */
  function PieceMsgs(pcs: seq<Piece>, paramAt: nat, dataAt: nat): (ms: seq<Msg>)
    requires AllSendable(pcs, paramAt, dataAt)
    ensures |ms| == |pcs|
    decreases |pcs|
  {
    if pcs == [] then []
    else
      [PieceMsg(pcs[0], paramAt, dataAt)]
      + PieceMsgs(pcs[1..], paramAt + |pcs[0].param|, dataAt + |pcs[0].data|)
  }

  lemma {:induction false} FeedsNext(s: seq<byte>, f: seq<byte>, rest: seq<byte>, pcs: seq<Piece>, paramAt: nat,
      dataAt: nat, p: nat, d: nat)
    requires pcs != [] && NextMessage(s) == Message(f, rest) && Carries(f, pcs[0], paramAt, dataAt)
    requires p == paramAt + |pcs[0].param| && d == dataAt + |pcs[0].data| && Feeds(rest, pcs[1..], p, d)
    ensures Feeds(s, pcs, paramAt, dataAt) && AfterReceives(s, |pcs|) == AfterReceives(rest, |pcs| - 1)
  {
    hide Carries;
  }

  /** A conversation whose next packets carry the pieces feeds the client, with any chatter in between and anything
      behind; it is left with the rest of the conversation. */
  lemma {:induction false} ConversationFeeds(us: seq<Unit>, pcs: seq<Piece>, paramAt: nat, dataAt: nat, tail: seq<byte>)
    returns (vs: seq<Unit>)
    requires AllValid(us) && AllSendable(pcs, paramAt, dataAt) && PieceMsgs(pcs, paramAt, dataAt) <= PacketsOf(us)
    ensures AllValid(vs) && PacketsOf(vs) == PacketsOf(us)[|pcs|..]
    ensures Feeds(Wire(us) + tail, pcs, paramAt, dataAt) && AfterReceives(Wire(us) + tail, |pcs|) == Wire(vs) + tail
    decreases |pcs|
  {
    hide Carries, PieceMsg, Sendable, Encode, Wire, AllValid;
    if pcs == [] {
      vs := us;
    } else {
      var p, d := paramAt + |pcs[0].param|, dataAt + |pcs[0].data|;
      var ms := PieceMsgs(pcs, paramAt, dataAt);
      assert ms[0] == PacketsOf(us)[0] == PieceMsg(pcs[0], paramAt, dataAt) && ms[1..] == PieceMsgs(pcs[1..], p, d);
      var ws := NextOnWire(us, tail);
      assert ms[1..] <= PacketsOf(us)[1..];
      vs := ConversationFeeds(ws, pcs[1..], p, d, tail);
      SentPieceCarries(pcs[0], paramAt, dataAt);
      FeedsNext(Wire(us) + tail, Encode(ms[0]), Wire(ws) + tail, pcs, paramAt, dataAt, p, d);
    }
  }

  /** Three parameter bytes in three fragments, a setup word in the first. */
  const THREE: seq<Piece> :=
    [Piece([7], [], [1, 0], 3, 0), Piece([8], [], [], 3, 0), Piece([9], [], [], 3, 0)]

  /** A transaction that the client should read and does not, whatever its buffers hold. */
  lemma {:induction false} SetupWordBreaksThirdFragment(mem: seq<byte>, oldSetup: seq<byte>, oldParam: seq<byte>,
      oldData: seq<byte>)
    requires |mem| == CAPACITY && |oldSetup| == MAX_SETUP && |oldParam| == MAX_PARAM && |oldData| == MAX_DATA
    ensures AllSendable(THREE, 0, 0) && Cut(THREE, [7, 8, 9], [], 0, 0, MAX_PARAM, MAX_DATA)
    ensures Fetch(mem, oldSetup, oldParam, oldData, Send(THREE, 0, 0)) == Failed
  {
    hide Feeds, Fetch;
    ThreeIsCut(THREE);
    SentPiecesFeed(THREE, 0, 0);
    var pcs := THREE;
    assert pcs[0] in pcs && !SetupAccepted(pcs);
    FragmentationIndependent(mem, oldSetup, oldParam, oldData, Send(THREE, 0, 0), THREE, [7, 8, 9], []);
  }

  lemma {:induction false} ThreeIsCut(pcs: seq<Piece>)
    requires |pcs| == 3 && pcs[0] == Piece([7], [], [1, 0], 3, 0)
    requires pcs[1] == Piece([8], [], [], 3, 0) && pcs[2] == Piece([9], [], [], 3, 0)
    ensures AllSendable(pcs, 0, 0) && Cut(pcs, [7, 8, 9], [], 0, 0, MAX_PARAM, MAX_DATA)
  {
    var two, one := pcs[1..], pcs[1..][1..];
    assert two[0] == pcs[1] && one[0] == pcs[2] && one[1..] == [];
    assert AllSendable(one, 2, 0) && AllSendable(two, 1, 0);
    var all: seq<byte> := [7, 8, 9];
    assert all[1..] == [8, 9] && all[1..][1..] == [9];
    assert [7] <= all && [8] <= all[1..];
    assert Cut(one, [9], [], 2, 0, 3, 0);
    assert Cut(two, [8, 9], [], 1, 0, 3, 0);
  }

  // ---------------------------------------------------------------- any fragments at all

  /** Whatever the message says, the two copies of an accepted fragment read inside the received packet and write
      inside their blocks, below totals that do not exceed those before. The setup words go to the setup block at
      its cursor, where there is room for them; they are read without a look at the packet's end. Nothing else in
      the three blocks changes. */
  lemma {:induction false} FragmentStaysInside(mem: seq<byte>, e: nat, t: Blocks)
    requires e <= |mem| == CAPACITY && t.Valid() && !Accept(mem, e, t).Bad?
    ensures var u := Accept(mem, e, t).t;
      && u.Valid() && u.param.e == Word(mem, 0) <= t.param.e && u.data.e == Word(mem, 1) <= t.data.e
      && (Word(mem, 3) > 0 ==> Word(mem, 4) + 4 + Word(mem, 3) <= e && Word(mem, 5) + Word(mem, 3) <= u.param.e)
      && (Word(mem, 6) > 0 ==> Word(mem, 7) + 4 + Word(mem, 6) <= e && Word(mem, 8) + Word(mem, 6) <= u.data.e)
      && Overwritten(t.param.bytes, u.param.bytes, mem, Word(mem, 3), Word(mem, 4), Word(mem, 5))
      && Overwritten(t.data.bytes, u.data.bytes, mem, Word(mem, 6), Word(mem, 7), Word(mem, 8))
      && t.setup.p + 2 * Word(mem, 9) <= t.setup.e
      && Overwritten(t.setup.bytes, u.setup.bytes, mem, 2 * Word(mem, 9), 53, t.setup.p)
  {
    var a := Admit(mem, t);
    CopyStaysInside(a.param, mem, e, Word(mem, 3), Word(mem, 4), Word(mem, 5));
    CopyStaysInside(a.data, mem, e, Word(mem, 6), Word(mem, 7), Word(mem, 8));
    hide Overwritten;
    SetupStored(t.setup, mem, 2 * Word(mem, 9));
  }

  lemma {:induction false} CopyStaysInside(k: Block, mem: seq<byte>, e: nat, cnt: nat, off: nat, dis: nat)
    requires k.Valid() && e <= |mem| == CAPACITY && CopyIn(k, mem, e, cnt, off, dis).Some?
    ensures cnt > 0 ==> off + 4 + cnt <= e && dis + cnt <= k.e
    ensures Overwritten(k.bytes, CopyIn(k, mem, e, cnt, off, dis).value.bytes, mem, cnt, off, dis)
  {
  }

  lemma {:induction false} SetupStored(k: Block, mem: seq<byte>, n: nat)
    requires k.Valid() && |mem| == CAPACITY && n <= k.Left() && 57 + n <= CAPACITY
    ensures Overwritten(k.bytes, k.End(n).Put(mem[57..57 + n]).bytes, mem, n, 53, k.p)
  {
  }

  /** The whole turn in terms of the words: when a fragment is refused, where it leaves the marks, and when it is the
      last. A cursor behind its end mark does not end the call. */
  lemma {:induction false} AcceptExactly(mem: seq<byte>, e: nat, t: Blocks)
    requires e <= |mem| == CAPACITY && t.Valid()
    ensures var w := Words(mem);
      Accept(mem, e, t).Bad? <==> (
        || Refused(mem) || (mem[8] != 0x25 && mem[8] != 0x32)
        || t.setup.p + 2 * w[9] > t.setup.e || w[0] > t.param.e || w[1] > t.data.e
        || (w[3] > 0 && (w[4] + 4 + w[3] > e || w[5] + w[3] > w[0]))
        || (w[6] > 0 && (w[7] + 4 + w[6] > e || w[8] + w[6] > w[1])))
    ensures !Accept(mem, e, t).Bad? ==>
      var u, w := Accept(mem, e, t).t, Words(mem);
      && u.setup.p == t.setup.p + 2 * w[9] && u.setup.e == 2 * w[9]
      && u.param.p == (if w[3] > 0 then w[5] + w[3] else t.param.p) && u.param.e == w[0]
      && u.data.p == (if w[6] > 0 then w[8] + w[6] else t.data.p) && u.data.e == w[1]
      && (Accept(mem, e, t).Done? <==> u.param.p == u.param.e && u.data.p == u.data.e)
  {
    hide Word;
    if Admissible(mem, t) {
      var a := Admit(mem, t);
      CopyInCases(a.param, mem, e, Word(mem, 3), Word(mem, 4), Word(mem, 5));
      CopyInCases(a.data, mem, e, Word(mem, 6), Word(mem, 7), Word(mem, 8));
    }
  }

  /** A resize moves an end mark below its cursor; when does the rest of the turn put that right? For param and
      data exactly when the fragment brings bytes for the block or the new total is not below the cursor, and for
      setup exactly when no earlier fragment brought setup words. */
  lemma {:induction false} CursorInsideExactly(mem: seq<byte>, e: nat, t: Blocks)
    requires e <= |mem| == CAPACITY && t.Valid() && !Accept(mem, e, t).Bad?
    ensures var u := Accept(mem, e, t).t;
      && (u.param.Left() >= 0 <==> Word(mem, 3) > 0 || t.param.p <= Word(mem, 0))
      && (u.data.Left() >= 0 <==> Word(mem, 6) > 0 || t.data.p <= Word(mem, 1))
      && (u.setup.Left() >= 0 <==> t.setup.p == 0)
  {
  }

  /** `now` is `was` with `cnt` bytes of the message put at `dis`. */
  predicate Overwritten(was: seq<byte>, now: seq<byte>, mem: seq<byte>, cnt: nat, off: nat, dis: nat) {
    && |now| == |was|
    && forall i :: 0 <= i < |was| ==>
         now[i] == if dis <= i < dis + cnt && i - dis + off + 4 < |mem| then mem[i - dis + off + 4] else was[i]
  }

  // ---------------------------------------------------------------- what shows through of the old bytes

  /** The message writes position `i` of the block whose count, offset and displacement are words k, k+1, k+2. */
  predicate Hits(mem: seq<byte>, k: nat, i: nat)
    requires |mem| == CAPACITY && k + 2 < 10
  {
    Word(mem, k + 2) <= i < Word(mem, k + 2) + Word(mem, k)
  }

  /** Some fragment of the run writes position `i`. */
  predicate Written(mem: seq<byte>, t: Blocks, s: seq<byte>, k: nat, i: nat)
    requires |mem| == CAPACITY && t.Valid() && k + 2 < 10
    decreases |s|
  {
    match Arrive(mem, s)
    case Broken => false
    case Arrived(mem', e, rest) =>
      match Accept(mem', e, t)
      case Bad => false
      case Done(_) => Hits(mem', k, i)
      case More(t') => Hits(mem', k, i) || Written(mem', t', rest, k, i)
  }

  predicate SameMarks(t: Blocks, u: Blocks) {
    && t.setup.p == u.setup.p && t.setup.e == u.setup.e
    && t.param.p == u.param.p && t.param.e == u.param.e
    && t.data.p == u.data.p && t.data.e == u.data.e
  }

  function Part(t: Blocks, k: nat): Block { if k == 3 then t.param else t.data }

  /** A client that looks at the message only, or at the same stale bytes behind it, sees the same. */
  predicate SameView(mem: seq<byte>, mem2: seq<byte>, e: nat) {
    |mem| == |mem2| == CAPACITY && e <= CAPACITY && mem[..e] == mem2[..e] && mem[..57] == mem2[..57]
  }

  /** All messages of the stream are long enough for the words the client looks at, setup words aside. */
  predicate LongEnough(s: seq<byte>) {
    forall f :: f in Messages(s) ==> |f| >= 57
  }

  /** Verdicts on the same message, from blocks with the same marks: alike but for bytes no fragment wrote. */
  predicate Alike(t: Blocks, u: Blocks, v: Verdict, w: Verdict, k: nat, i: nat, hit: bool)
    requires t.Valid() && u.Valid() && i < |Part(t, k).bytes|
  {
    && v.Bad? == w.Bad? && v.Done? == w.Done?
    && (!v.Bad? ==> v.t.Valid() && w.t.Valid() && SameMarks(v.t, w.t))
    && (!v.Bad? && hit ==> Part(v.t, k).bytes[i] == Part(w.t, k).bytes[i])
    && (!v.Bad? && !hit ==>
          Part(v.t, k).bytes[i] == Part(t, k).bytes[i] && Part(w.t, k).bytes[i] == Part(u, k).bytes[i])
  }

  lemma {:induction false} SameWords(mem: seq<byte>, mem2: seq<byte>, e: nat)
    requires SameView(mem, mem2, e)
    ensures forall k :: 0 <= k < 10 ==> Word(mem, k) == Word(mem2, k)
    ensures mem[8] == mem2[8] && mem[9] == mem2[9] && mem[11] == mem2[11] && mem[12] == mem2[12]
    ensures forall j :: 0 <= j < e ==> mem[j] == mem2[j]
  {
    assert forall i :: 0 <= i < 57 ==> mem[i] == mem[..57][i] == mem2[i];
    assert forall i :: 0 <= i < e ==> mem[i] == mem[..e][i] == mem2[i];
  }

  lemma {:induction false} CopyShape(mem: seq<byte>, mem2: seq<byte>, e: nat, t: Blocks, u: Blocks)
    requires SameView(mem, mem2, e) && t.Valid() && u.Valid() && SameMarks(t, u)
    ensures var v, w := CopyBlocks(mem, e, t), CopyBlocks(mem2, e, u);
      v.Bad? == w.Bad? && v.Done? == w.Done? && (!v.Bad? ==> SameMarks(v.t, w.t))
  {
    SameWords(mem, mem2, e);
    hide Word, SameView;
  }

  lemma {:induction false} AcceptShape(mem: seq<byte>, mem2: seq<byte>, e: nat, t: Blocks, u: Blocks)
    requires SameView(mem, mem2, e) && t.Valid() && u.Valid() && SameMarks(t, u)
    ensures var v, w := Accept(mem, e, t), Accept(mem2, e, u);
      v.Bad? == w.Bad? && v.Done? == w.Done? && (!v.Bad? ==> SameMarks(v.t, w.t))
  {
    SameWords(mem, mem2, e);
    assert Admissible(mem, t) == Admissible(mem2, u);
    if Admissible(mem, t) {
      CopyShape(mem, mem2, e, Admit(mem, t), Admit(mem2, u));
    }
  }

  lemma {:induction false} AcceptByte(mem: seq<byte>, e: nat, t: Blocks, k: nat, i: nat)
    requires e <= |mem| == CAPACITY && t.Valid() && !Accept(mem, e, t).Bad?
    requires (k == 3 || k == 6) && i < |Part(t, k).bytes|
    ensures Hits(mem, k, i) ==> 0 <= i - Word(mem, k + 2) + Word(mem, k + 1) + 4 < e
    ensures Part(Accept(mem, e, t).t, k).bytes[i] ==
      if Hits(mem, k, i) then mem[i - Word(mem, k + 2) + Word(mem, k + 1) + 4] else Part(t, k).bytes[i]
  {
    FragmentStaysInside(mem, e, t);
  }

  lemma {:induction false} AcceptInLockstep(mem: seq<byte>, mem2: seq<byte>, e: nat, t: Blocks, u: Blocks, k: nat,
      i: nat)
    requires SameView(mem, mem2, e) && t.Valid() && u.Valid() && SameMarks(t, u)
    requires (k == 3 || k == 6) && i < |Part(t, k).bytes|
    ensures Alike(t, u, Accept(mem, e, t), Accept(mem2, e, u), k, i, Hits(mem, k, i))
  {
    hide Accept, Word;
    AcceptShape(mem, mem2, e, t, u);
    SameWords(mem, mem2, e);
    hide SameView;
    if !Accept(mem, e, t).Bad? {
      AcceptByte(mem, e, t, k, i);
      AcceptByte(mem2, e, u, k, i);
    }
  }

  /** The messages behind the first one. */
  lemma {:induction false} LongEnoughStep(s: seq<byte>)
    requires LongEnough(s) && NextMessage(s).Message?
    ensures |NextMessage(s).frame| >= 57 && LongEnough(NextMessage(s).rest)
  {
    var f, rest := NextMessage(s).frame, NextMessage(s).rest;
    assert Messages(s) == [f] + Messages(rest);
    assert f in Messages(s);
    forall g | g in Messages(rest) ensures |g| >= 57 {
      assert g in Messages(s);
    }
  }

  /** One receive into two buffers. */
  lemma {:induction false} ArriveInLockstep(mem: seq<byte>, mem2: seq<byte>, s: seq<byte>)
    requires |mem| == |mem2| == CAPACITY && (mem == mem2 || LongEnough(s))
    ensures Arrive(mem, s).Arrived? == Arrive(mem2, s).Arrived?
    ensures Arrive(mem, s).Arrived? ==>
      var a, b := Arrive(mem, s), Arrive(mem2, s);
      && a.e == b.e && a.rest == b.rest && SameView(a.mem, b.mem, a.e) && (a.mem == b.mem || LongEnough(a.rest))
  {
    if mem != mem2 && Arrive(mem, s).Arrived? {
      LongEnoughStep(s);
      var a, b, f := Arrive(mem, s), Arrive(mem2, s), NextMessage(s).frame;
      assert a.mem[..|f|] == f == b.mem[..|f|];
      SliceOfFront(a.mem, |f|, 0, 57);
      SliceOfFront(b.mem, |f|, 0, 57);
    }
  }

  /** One turn of two runs that start with the same marks. */
  lemma {:induction false} TurnInLockstep(mem: seq<byte>, mem2: seq<byte>, t: Blocks, u: Blocks, s: seq<byte>,
      k: nat, i: nat)
    returns (m: seq<byte>, m2: seq<byte>, v: Verdict, w: Verdict, rest: seq<byte>, hit: bool)
    requires |mem| == |mem2| == CAPACITY && (mem == mem2 || LongEnough(s))
    requires t.Valid() && u.Valid() && SameMarks(t, u)
    requires (k == 3 || k == 6) && i < |Part(t, k).bytes|
    ensures |m| == |m2| == CAPACITY && (!v.Bad? ==> |rest| < |s| && (m == m2 || LongEnough(rest)))
    ensures Alike(t, u, v, w, k, i, hit)
    ensures v.Bad? ==> Run(mem, t, s) == Run(mem2, u, s) == Failed
    ensures v.Done? ==> Run(mem, t, s) == Reassembled(v.t, m, rest) && Run(mem2, u, s) == Reassembled(w.t, m2, rest)
    ensures v.More? ==> Run(mem, t, s) == Run(m, v.t, rest) && Run(mem2, u, s) == Run(m2, w.t, rest)
    ensures Written(mem, t, s, k, i) == (if v.More? then hit || Written(m, v.t, rest, k, i) else v.Done? && hit)
  {
    ArriveInLockstep(mem, mem2, s);
    RunStep(mem, t, s);
    RunStep(mem2, u, s);
    match Arrive(mem, s)
    case Broken =>
      m, m2, v, w, rest, hit := mem, mem2, Bad, Bad, s, false;
    case Arrived(a, e, left) =>
      m, m2, rest := a, Arrive(mem2, s).mem, left;
      v, w, hit := Accept(m, e, t), Accept(m2, e, u), Hits(m, k, i);
      AcceptInLockstep(m, m2, e, t, u, k, i);
      hide Accept, Arrive, Run, LongEnough, Hits;
  }

  /** Runs that start with the same marks go the same way, and differ only in bytes that no fragment wrote:
      those are still what they were before the call. That holds of two receive buffers as well, as long as no
      message is too short for its words. */
  lemma {:induction false} RunInLockstep(mem: seq<byte>, mem2: seq<byte>, t: Blocks, u: Blocks, s: seq<byte>,
      k: nat, i: nat, q: Outcome, r: Outcome, written: bool)
    requires |mem| == |mem2| == CAPACITY && (mem == mem2 || LongEnough(s))
    requires t.Valid() && u.Valid() && SameMarks(t, u)
    requires (k == 3 || k == 6) && i < |Part(t, k).bytes|
    requires q == Run(mem, t, s) && r == Run(mem2, u, s) && written == Written(mem, t, s, k, i)
    ensures q.Reassembled? == r.Reassembled?
    ensures q.Reassembled? ==> q.t.Valid() && r.t.Valid() && SameMarks(q.t, r.t) && q.rest == r.rest
    ensures q.Reassembled? && written ==> Part(q.t, k).bytes[i] == Part(r.t, k).bytes[i]
    ensures q.Reassembled? && !written ==>
      Part(q.t, k).bytes[i] == Part(t, k).bytes[i] && Part(r.t, k).bytes[i] == Part(u, k).bytes[i]
    decreases |s|
  {
    var m, m2, v, w, rest, hit := TurnInLockstep(mem, mem2, t, u, s, k, i);
    hide LongEnough, Run, Written;
    if v.More? {
      RunInLockstep(m, m2, v.t, w.t, rest, k, i, q, r, Written(m, v.t, rest, k, i));
    }
  }

  /** A block that a call delivered, wherever its fragments lay. */
  function BlockLeft(r: Outcome, k: nat): seq<byte>
    requires r.Reassembled? && r.t.Valid()
  {
    Part(r.t, k).Contents()
  }

  /** Every position below the end mark was written by some fragment of the call. */
  predicate Covered(mem: seq<byte>, t: Blocks, s: seq<byte>, k: nat)
    requires |mem| == CAPACITY && t.Valid() && k + 2 < 10 && Run(mem, t, s).Reassembled? && Run(mem, t, s).t.Valid()
  {
    forall i: nat :: i < Part(Run(mem, t, s).t, k).e ==> Written(mem, t, s, k, i)
  }

  /** Two calls that differ only in what the blocks held before. */
  predicate SameCall(mem: seq<byte>, t: Blocks, u: Blocks, s: seq<byte>, k: nat)
    requires |mem| == CAPACITY && t.Valid() && u.Valid()
  {
    var q, r := Run(mem, t, s), Run(mem, u, s);
    && q.Reassembled? && r.Reassembled? && q.t.Valid() && r.t.Valid() && BlockLeft(q, k) == BlockLeft(r, k)
  }

  lemma {:induction false} CoveredIsIndependent(mem: seq<byte>, t: Blocks, u: Blocks, s: seq<byte>, k: nat)
    requires |mem| == CAPACITY && t.Valid() && u.Valid() && SameMarks(t, u) && (k == 3 || k == 6)
    requires Run(mem, t, s).Reassembled? && Run(mem, t, s).t.Valid() && Covered(mem, t, s, k)
    ensures SameCall(mem, t, u, s, k)
  {
    hide Run, Written;
    var q, r := Run(mem, t, s), Run(mem, u, s);
    RunInLockstep(mem, mem, t, u, s, k, 0, q, r, Written(mem, t, s, k, 0));
    forall i: nat | i < Part(q.t, k).e ensures Part(q.t, k).bytes[i] == Part(r.t, k).bytes[i] {
      RunInLockstep(mem, mem, t, u, s, k, i, q, r, Written(mem, t, s, k, i));
    }
    assert BlockLeft(q, k) == BlockLeft(r, k);
  }

  /** The blocks with one byte of one of them changed. */
  function Tweak(t: Blocks, k: nat, i: nat): (u: Blocks)
    requires t.Valid() && i < |Part(t, k).bytes|
    ensures u.Valid() && SameMarks(t, u) && Part(u, k).bytes[i] != Part(t, k).bytes[i]
  {
    var b: byte := (Part(t, k).bytes[i] as int + 1) % 256;
    if k == 3 then t.(param := t.param.(bytes := t.param.bytes[i := b]))
    else t.(data := t.data.(bytes := t.data.bytes[i := b]))
  }

  /** A successful call says only that cursor and end mark met in both blocks. It delivers a block that does
      not depend on what the buffer held before exactly when its fragments cover that block. */
  lemma {:induction false} IndependentExactlyWhenCovered(mem: seq<byte>, t: Blocks, s: seq<byte>, k: nat)
    requires |mem| == CAPACITY && t.Valid() && (k == 3 || k == 6)
    requires Run(mem, t, s).Reassembled? && Run(mem, t, s).t.Valid()
    ensures Covered(mem, t, s, k) <==> forall u: Blocks :: u.Valid() && SameMarks(t, u) ==> SameCall(mem, t, u, s, k)
  {
    var q := Run(mem, t, s);
    if Covered(mem, t, s, k) {
      forall u: Blocks | u.Valid() && SameMarks(t, u) ensures SameCall(mem, t, u, s, k) {
        CoveredIsIndependent(mem, t, u, s, k);
      }
    } else {
      var i: nat :| i < Part(q.t, k).e && !Written(mem, t, s, k, i);
      var u := Tweak(t, k, i);
      var r := Run(mem, u, s);
      RunInLockstep(mem, mem, t, u, s, k, i, q, r, false);
      assert BlockLeft(q, k)[i] != BlockLeft(r, k)[i];
      assert !SameCall(mem, t, u, s, k);
    }
  }

  /** A response of one fragment: two parameter bytes in all, of which it brings only the second, a 9. */
  const GAP_WORDS: seq<byte> := [2, 0, 0, 0, 0, 0, 1, 0, 55, 0, 1, 0, 0, 0, 0, 0, 0, 0, 0, 0]
  const GAP_MSG := Msg(0, MAGIC + ([0x32] + seq(27, _ => 0)), GAP_WORDS, [9])
  const GAP: seq<byte> := Encode(GAP_MSG)

  /** What matters about it. */
  predicate LeavesGap(g: seq<byte>) {
    && |g| == 60 && IsMessage(g) && Decode(g).Some?
    && g[8] == SMB_TRANS2 && g[9] == g[11] == g[12] == 0 && g[59] == 9
    && forall k :: 0 <= k < 10 ==> Field(g, k) == [2, 0, 0, 1, 55, 1, 0, 0, 0, 0][k]
  }

  lemma {:induction false} GapMessage()
    ensures LeavesGap(GAP)
  {
    hide Encode, Decode, Field;
    var m := GAP_MSG;
    EncodeIsMessage(m);
    DecodeEncode(m);
    EncodeParts(m);
    HeaderBytes(GAP, m.header);
    FieldsInWords(GAP, GAP_WORDS);
    assert GAP[59..][0] == 9;
    GapWords();
  }

  lemma {:induction false} GapWords()
    ensures forall k :: 0 <= k < 10 ==> Le16(GAP_WORDS, 2 * k) == [2, 0, 0, 1, 55, 1, 0, 0, 0, 0][k]
  {
  }

  lemma {:induction false} GapTurn(g: seq<byte>, mem: seq<byte>, t: Blocks)
    requires LeavesGap(g) && |mem| == CAPACITY && mem[..60] == g && t.Valid()
    requires t.setup.Left() >= 0 && t.param.e == MAX_PARAM && t.data.e == MAX_DATA && t.data.p == 0
    ensures var v := Accept(mem, 60, t);
      && v.Done? && v.t.Valid() && v.t.param.e == 2 && v.t.data.e == 0
      && v.t.param.bytes[..2] == [t.param.bytes[0], 9]
  {
    forall k: nat | k < 10 ensures Word(mem, k) == Field(g, k) {
      WordIsField(g, mem, k);
    }
    assert mem[8] == g[8] && mem[9] == g[9] && mem[11] == g[11] && mem[12] == g[12] && mem[59] == g[59];
    assert Accept(mem, 60, t).Done?;
    FragmentStaysInside(mem, 60, t);
  }

  /** cifs_trans_recv takes it for a complete transaction, and its first byte is what the buffer held before. */
  lemma {:induction false} GapShowsOldByte(mem: seq<byte>, oldSetup: seq<byte>, oldParam: seq<byte>, oldData: seq<byte>)
    requires |mem| == CAPACITY && |oldSetup| == MAX_SETUP && |oldParam| == MAX_PARAM && |oldData| == MAX_DATA
    ensures Exact(Fetch(mem, oldSetup, oldParam, oldData, GAP), [oldParam[0], 9], [], [])
  {
    hide LeavesGap, Accept;
    GapMessage();
    GapShows(GAP, mem, Cleared(oldSetup, oldParam, oldData));
  }

  lemma {:induction false} GapShows(g: seq<byte>, mem: seq<byte>, t: Blocks)
    requires LeavesGap(g) && |mem| == CAPACITY && t.Valid()
    requires t.setup.Left() >= 0 && t.param.e == MAX_PARAM && t.data.e == MAX_DATA && t.data.p == 0
    ensures Exact(Run(mem, t, g).Rewound(), [t.param.bytes[0], 9], [], [])
  {
    hide Accept;
    FrameSplits(g, []);
    assert g + [] == g;
    var mem' := g + mem[60..];
    assert mem'[..60] == g;
    assert Arrive(mem, g) == Arrived(mem', 60, []);
    GapTurn(g, mem', t);
  }
}
