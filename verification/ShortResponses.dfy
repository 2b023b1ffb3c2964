/** cifs_trans_recv does not look at a response's word count, so the words of a short one, and setup words that
    reach behind the packet, are what an earlier message left in the receive buffer. When does that show? */
module ShortResponses {
  import opened Bytes
  import opened Buffer
  import opened Framing
  import opened Transport
  import opened Transact
  import opened Reassembly

  /** The message in a receive buffer that held `mem`. */
  function Over(f: seq<byte>, mem: seq<byte>): (r: seq<byte>)
    requires |f| <= |mem| == CAPACITY
    ensures |r| == CAPACITY && r[..|f|] == f && r[|f|..] == mem[|f|..]
  {
    f + mem[|f|..]
  }

  function Judge(f: seq<byte>, mem: seq<byte>, t: Blocks): (v: Verdict)
    requires |f| <= |mem| == CAPACITY && t.Valid()
    ensures !v.Bad? ==> v.t.Valid()
  {
    Accept(Over(f, mem), |f|, t)
  }

  /** Both accept, and leave the same in the parameter and data blocks. */
  predicate SameBlocks(v: Verdict, w: Verdict) {
    !v.Bad? && !w.Bad? && v.Done? == w.Done? && v.t.param == w.t.param && v.t.data == w.t.data
  }

  /** The setup words too lie inside the packet. */
  predicate IsWhole(f: seq<byte>) {
    |f| >= 57 && 57 + 2 * Field(f, 9) <= |f|
  }

  // ---------------------------------------------------------------- one message

  /** MS-CIFS has one byte for the setup count and a reserved one; the client reads both as one number. Whatever
      the count, a reserved byte that is not zero is refused. */
  lemma {:induction false} ReservedByteRefuses(mem: seq<byte>, e: nat, t: Blocks)
    requires e <= |mem| == CAPACITY && t.Valid() && mem[56] != 0
    ensures Accept(mem, e, t).Bad?
  {
    assert Word(mem, 9) >= 256;
  }

  /** With that byte zero the count read is the one-byte count, and so it is in every message that is accepted. */
  lemma {:induction false} CountIsOneByte(mem: seq<byte>, e: nat, t: Blocks)
    requires e <= |mem| == CAPACITY && t.Valid()
    ensures Word(mem, 9) == mem[55] as int <==> mem[56] == 0
    ensures !Accept(mem, e, t).Bad? ==> mem[56] == 0 && 2 * mem[55] as int <= t.setup.Left()
  {
    if mem[56] != 0 {
      ReservedByteRefuses(mem, e, t);
    }
  }

  lemma {:induction false} CopyAgrees(k: Block, mem: seq<byte>, mem2: seq<byte>, e: nat, cnt: nat, off: nat, dis: nat)
    requires k.Valid() && SameView(mem, mem2, e)
    ensures CopyIn(k, mem, e, cnt, off, dis) == CopyIn(k, mem2, e, cnt, off, dis)
  {
    if off + 4 + cnt <= e {
      SliceOfFront(mem, e, off + 4, off + 4 + cnt);
      SliceOfFront(mem2, e, off + 4, off + 4 + cnt);
    }
  }

  lemma {:induction false} AcceptAgrees(mem: seq<byte>, mem2: seq<byte>, e: nat, t: Blocks, u: Blocks)
    requires SameView(mem, mem2, e) && t.Valid() && u.Valid() && SameMarks(t, u)
    requires t.param == u.param && t.data == u.data
    ensures var v, w := Accept(mem, e, t), Accept(mem2, e, u);
      && v.Bad? == w.Bad? && (!v.Bad? ==> SameBlocks(v, w) && SameMarks(v.t, w.t))
      && (t == u && 57 + 2 * Word(mem, 9) <= e ==> v == w)
  {
    SameWords(mem, mem2, e);
    AcceptShape(mem, mem2, e, t, u);
    assert Admissible(mem, t) == Admissible(mem2, u);
    if Admissible(mem, t) {
      var a, b := Admit(mem, t), Admit(mem2, u);
      assert a.param == b.param && a.data == b.data;
      if t == u && 57 + 2 * Word(mem, 9) <= e {
        SliceOfFront(mem, e, 57, 57 + 2 * Word(mem, 9));
        SliceOfFront(mem2, e, 57, 57 + 2 * Word(mem, 9));
        assert a == b;
      }
      CopiesAgree(mem, mem2, e, a, b);
    }
  }

  lemma {:induction false} CopiesAgree(mem: seq<byte>, mem2: seq<byte>, e: nat, a: Blocks, b: Blocks)
    requires SameView(mem, mem2, e) && a.Valid() && b.Valid() && a.param == b.param && a.data == b.data
    ensures var v, w := CopyBlocks(mem, e, a), CopyBlocks(mem2, e, b);
      v.Bad? == w.Bad? && (!v.Bad? ==> SameBlocks(v, w)) && (a == b ==> v == w)
  {
    SameWords(mem, mem2, e);
    CopyAgrees(a.param, mem, mem2, e, Word(mem, 3), Word(mem, 4), Word(mem, 5));
    CopyAgrees(a.data, mem, mem2, e, Word(mem, 6), Word(mem, 7), Word(mem, 8));
    hide CopyIn, Word, SameView;
  }

  lemma {:induction false} LongIsSameView(f: seq<byte>, mem: seq<byte>, mem2: seq<byte>)
    requires 57 <= |f| <= |mem| == |mem2| == CAPACITY
    ensures SameView(Over(f, mem), Over(f, mem2), |f|) && Word(Over(f, mem), 9) == Field(f, 9)
  {
    SliceOfFront(Over(f, mem), |f|, 0, 57);
    SliceOfFront(Over(f, mem2), |f|, 0, 57);
    WordIsField(f, Over(f, mem), 9);
  }

  /** A short message is refused over some buffer. */
  lemma {:induction false} ShortIsRefused(f: seq<byte>, mem: seq<byte>, t: Blocks)
    requires |f| < 57 && |mem| == CAPACITY && t.Valid()
    ensures Judge(f, mem[56 := 255], t).Bad?
  {
    assert Over(f, mem[56 := 255])[56] == 255;
    ReservedByteRefuses(Over(f, mem[56 := 255]), |f|, t);
  }

  /** A setup word behind the packet shows in the setup block. */
  lemma {:induction false} LateSetupShows(f: seq<byte>, mem: seq<byte>, mem2: seq<byte>, t: Blocks)
    requires 57 <= |f| < |mem| == |mem2| == CAPACITY && t.Valid() && mem[|f|] != mem2[|f|]
    requires |f| < 57 + 2 * Field(f, 9) && !Judge(f, mem, t).Bad? && !Judge(f, mem2, t).Bad?
    ensures Judge(f, mem, t) != Judge(f, mem2, t)
  {
    var m, m2, i := Over(f, mem), Over(f, mem2), t.setup.p + |f| - 57;
    LongIsSameView(f, mem, mem2);
    LongIsSameView(f, mem2, mem);
    FragmentStaysInside(m, |f|, t);
    FragmentStaysInside(m2, |f|, t);
    hide Accept, Word;
    assert m[|f|] == mem[|f|] && m2[|f|] == mem2[|f|];
    assert Judge(f, mem, t).t.setup.bytes[i] == m[|f|];
    assert Judge(f, mem2, t).t.setup.bytes[i] == m2[|f|];
  }

  /** A message that was accepted over one buffer is accepted over every buffer, with the same parameter and data
      blocks, exactly when it is 57 bytes long; with the same setup block too exactly when it holds its setup words. */
  lemma {:induction false} SelfContainedExactly(f: seq<byte>, mem: seq<byte>, t: Blocks)
    requires |f| <= |mem| == CAPACITY && t.Valid() && !Judge(f, mem, t).Bad?
    ensures |f| >= 57 <==>
      forall mem2: seq<byte> :: |mem2| == CAPACITY ==> SameBlocks(Judge(f, mem, t), Judge(f, mem2, t))
    ensures IsWhole(f) <==>
      forall mem2: seq<byte> :: |mem2| == CAPACITY ==> Judge(f, mem2, t) == Judge(f, mem, t)
  {
    if |f| < 57 {
      ShortIsRefused(f, mem, t);
    } else {
      forall mem2: seq<byte> | |mem2| == CAPACITY
        ensures SameBlocks(Judge(f, mem, t), Judge(f, mem2, t))
        ensures IsWhole(f) ==> Judge(f, mem2, t) == Judge(f, mem, t)
      {
        LongIsSameView(f, mem, mem2);
        AcceptAgrees(Over(f, mem), Over(f, mem2), |f|, t, t);
      }
      if !IsWhole(f) {
        SetupFitsBuffer(f, mem, t);
        var b: byte := if mem[|f|] == 0 then 1 else 0;
        LateSetupShows(f, mem, mem[|f| := b], t);
      }
    }
  }

  lemma {:induction false} SetupFitsBuffer(f: seq<byte>, mem: seq<byte>, t: Blocks)
    requires 57 <= |f| <= |mem| == CAPACITY && t.Valid() && !Judge(f, mem, t).Bad?
    ensures 2 * Field(f, 9) <= MAX_SETUP
  {
    LongIsSameView(f, mem, mem);
  }

  // ---------------------------------------------------------------- whole calls

  predicate AllWhole(s: seq<byte>) {
    forall f :: f in Messages(s) ==> IsWhole(f)
  }

  lemma {:induction false} AllWholeStep(s: seq<byte>)
    requires NextMessage(s).Message?
    ensures AllWhole(s) ==> IsWhole(NextMessage(s).frame) && AllWhole(NextMessage(s).rest)
  {
    var f, rest := NextMessage(s).frame, NextMessage(s).rest;
    assert Messages(s) == [f] + Messages(rest);
    assert f in Messages(s);
    assert forall g :: g in Messages(rest) ==> g in Messages(s);
  }

  /** Outcomes with the same parameter and data blocks and the same stream left. */
  predicate SameOutcome(q: Outcome, r: Outcome) {
    q.Reassembled? == r.Reassembled? &&
    (q.Reassembled? ==> q.t.param == r.t.param && q.t.data == r.t.data && q.rest == r.rest)
  }

  lemma {:induction false} RunOverAnyBuffer(mem: seq<byte>, mem2: seq<byte>, t: Blocks, u: Blocks, s: seq<byte>,
      q: Outcome, r: Outcome)
    requires |mem| == |mem2| == CAPACITY && LongEnough(s)
    requires t.Valid() && u.Valid() && SameMarks(t, u) && t.param == u.param && t.data == u.data
    requires q == Run(mem, t, s) && r == Run(mem2, u, s)
    ensures SameOutcome(q, r)
    ensures AllWhole(s) && t == u && q.Reassembled? ==> q.t == r.t
    decreases |s|
  {
    ArriveInLockstep(mem, mem2, s);
    RunStep(mem, t, s);
    RunStep(mem2, u, s);
    if Arrive(mem, s).Arrived? {
      var a, b, f := Arrive(mem, s), Arrive(mem2, s), NextMessage(s).frame;
      LongEnoughStep(s);
      AllWholeStep(s);
      assert a.mem == Over(f, mem) && a.e == |f|;
      LongIsSameView(f, mem, mem2);
      AcceptAgrees(a.mem, b.mem, a.e, t, u);
      var v, w := Accept(a.mem, a.e, t), Accept(b.mem, b.e, u);
      hide Accept, Arrive, Run, LongEnough, AllWhole, IsWhole, Word, NextMessage;
      if v.More? {
        RunOverAnyBuffer(a.mem, b.mem, v.t, w.t, a.rest, q, r);
      }
    }
  }

  /** If no message is short, a call of cifs_trans_recv does not depend on what the receive buffer held. */
  lemma {:induction false} FetchOverAnyBuffer(mem: seq<byte>, mem2: seq<byte>, oldSetup: seq<byte>,
      oldParam: seq<byte>, oldData: seq<byte>, s: seq<byte>)
    requires |mem| == |mem2| == CAPACITY && LongEnough(s)
    requires |oldSetup| == MAX_SETUP && |oldParam| == MAX_PARAM && |oldData| == MAX_DATA
    ensures SameOutcome(Fetch(mem, oldSetup, oldParam, oldData, s), Fetch(mem2, oldSetup, oldParam, oldData, s))
    ensures AllWhole(s) && Fetch(mem, oldSetup, oldParam, oldData, s).Reassembled? ==>
      Fetch(mem, oldSetup, oldParam, oldData, s).t == Fetch(mem2, oldSetup, oldParam, oldData, s).t
  {
    hide Run, LongEnough, AllWhole;
    var t := Cleared(oldSetup, oldParam, oldData);
    RunOverAnyBuffer(mem, mem2, t, t, s, Run(mem, t, s), Run(mem2, t, s));
  }

  // ---------------------------------------------------------------- a short message

  /** A transaction response of 39 bytes, without words or bytes, that reports an error of class 3 (ERRHRD). */
  const ERROR_MSG := Msg(0, MAGIC + ([0x32, 3, 0, 31, 0] + seq(23, _ => 0)), [], [])
  const ERROR_REPLY: seq<byte> := Encode(ERROR_MSG)

  predicate IsErrorReply(f: seq<byte>) {
    && |f| == 39 && IsMessage(f) && Decode(f).Some?
    && f[8] == SMB_TRANS2 && f[9] == 3 && f[11] == 31 && f[12] == 0 && f[37] == f[38] == 0
  }

  lemma {:induction false} ErrorReply()
    ensures IsErrorReply(ERROR_REPLY)
  {
    hide Encode, Decode;
    EncodeIsMessage(ERROR_MSG);
    DecodeEncode(ERROR_MSG);
    EncodeParts(ERROR_MSG);
    HeaderBytes(ERROR_REPLY, ERROR_MSG.header);
    assert Le16(ERROR_REPLY, 37) == 0;
  }

  lemma {:induction false} ErrorReplyTurn(f: seq<byte>, mem: seq<byte>, t: Blocks)
    requires IsErrorReply(f) && |mem| == CAPACITY && t.Valid() && t.setup.Left() >= 0 && t.param.p == t.data.p == 0
    requires forall k :: 39 <= k < 57 ==> mem[k] == 0
    ensures Judge(f, mem, t).Done? && Judge(f, mem, t).t.param.e == Judge(f, mem, t).t.data.e == 0
    ensures Judge(f, mem, t).t.param.p == Judge(f, mem, t).t.data.p == 0
  {
    var m := Over(f, mem);
    assert m[8] == f[8] && m[9] == f[9] && m[37] == f[37] && m[38] == f[38];
    assert forall k :: 39 <= k < 57 ==> m[k] == mem[k];
    forall k: nat | k < 10 ensures Word(m, k) == 0 {
    }
  }

  /** Over a buffer with zeros behind it the error is taken for a complete, empty transaction, and over one with a
      stale setup count it is refused: the outcome is not the peer's alone. */
  lemma {:induction false} ErrorReplyReadsOldBuffer(mem: seq<byte>, oldSetup: seq<byte>, oldParam: seq<byte>,
      oldData: seq<byte>)
    requires |mem| == CAPACITY && forall k :: 39 <= k < 57 ==> mem[k] == 0
    requires |oldSetup| == MAX_SETUP && |oldParam| == MAX_PARAM && |oldData| == MAX_DATA
    ensures Exact(Fetch(mem, oldSetup, oldParam, oldData, ERROR_REPLY), [], [], [])
    ensures Fetch(mem[56 := 255], oldSetup, oldParam, oldData, ERROR_REPLY) == Failed
  {
    hide IsErrorReply, Run, Judge;
    ErrorReply();
    var t := Cleared(oldSetup, oldParam, oldData);
    ErrorReplyRuns(ERROR_REPLY, mem, t);
    ErrorReplyFails(ERROR_REPLY, mem, t);
  }

  lemma {:induction false} ErrorReplyArrives(f: seq<byte>, mem: seq<byte>)
    requires IsErrorReply(f) && |mem| == CAPACITY
    ensures Arrive(mem, f) == Arrived(Over(f, mem), |f|, [])
  {
    FrameSplits(f, []);
    assert f + [] == f;
  }

  lemma {:induction false} ErrorReplyRuns(f: seq<byte>, mem: seq<byte>, t: Blocks)
    requires IsErrorReply(f) && |mem| == CAPACITY && t.Valid() && t.setup.Left() >= 0 && t.param.p == t.data.p == 0
    requires forall k :: 39 <= k < 57 ==> mem[k] == 0
    ensures Exact(Run(mem, t, f).Rewound(), [], [], [])
  {
    ErrorReplyArrives(f, mem);
    ErrorReplyTurn(f, mem, t);
    RunStep(mem, t, f);
    hide Run, Accept;
  }

  lemma {:induction false} ErrorReplyFails(f: seq<byte>, mem: seq<byte>, t: Blocks)
    requires IsErrorReply(f) && |mem| == CAPACITY && t.Valid()
    ensures Run(mem[56 := 255], t, f) == Failed
  {
    ErrorReplyArrives(f, mem[56 := 255]);
    ShortIsRefused(f, mem, t);
    RunStep(mem[56 := 255], t, f);
    hide Run, Accept;
  }

  // ---------------------------------------------------------------- the reserved byte

  /** A response of 59 bytes to an empty transaction, with the byte `b` behind its setup count. */
  function Empty(b: byte): Msg {
    Msg(0, MAGIC + ([0x32] + seq(27, _ => 0)), seq(19, _ => 0) + [b], [])
  }

  predicate IsEmpty(f: seq<byte>, b: byte) {
    && |f| == 59 && IsMessage(f) && Decode(f).Some?
    && f[8] == SMB_TRANS2 && f[9] == f[11] == f[12] == 0 && f[37..56] == seq(19, _ => 0) && f[56] == b
  }

  lemma {:induction false} EmptyFrame(b: byte)
    ensures IsEmpty(Encode(Empty(b)), b)
  {
    hide Encode, Decode;
    var m := Empty(b);
    EncodeIsMessage(m);
    DecodeEncode(m);
    EncodeParts(m);
    HeaderBytes(Encode(m), m.header);
    assert Encode(m)[37..57] == m.words;
    assert Encode(m)[37..56] == m.words[..19];
    assert Encode(m)[56] == m.words[19];
  }

  lemma {:induction false} EmptyTurn(f: seq<byte>, b: byte, mem: seq<byte>, t: Blocks)
    requires IsEmpty(f, b) && |mem| == CAPACITY && t.Valid() && t.setup.Left() >= 0 && t.param.p == t.data.p == 0
    ensures b != 0 ==> Judge(f, mem, t).Bad?
    ensures b == 0 ==>
      var v := Judge(f, mem, t);
      v.Done? && v.t.param.e == v.t.data.e == 0 && v.t.param.p == v.t.data.p == 0
  {
    var m := Over(f, mem);
    assert forall k :: 37 <= k < 56 ==> m[k] == f[37..56][k - 37] == 0;
    assert m[8] == f[8] && m[9] == f[9] && m[11] == f[11] && m[12] == f[12] && m[56] == b;
    if b != 0 {
      ReservedByteRefuses(m, |f|, t);
    } else {
      forall k: nat | k < 10 ensures Word(m, k) == 0 {
      }
    }
  }

  /** Over every buffer the same empty transaction is complete with that byte zero, and an error with any other. */
  lemma {:induction false} ReservedByteDecides(b: byte, mem: seq<byte>, oldSetup: seq<byte>, oldParam: seq<byte>,
      oldData: seq<byte>)
    requires |mem| == CAPACITY
    requires |oldSetup| == MAX_SETUP && |oldParam| == MAX_PARAM && |oldData| == MAX_DATA
    ensures b == 0 ==> Exact(Fetch(mem, oldSetup, oldParam, oldData, Encode(Empty(b))), [], [], [])
    ensures b != 0 ==> Fetch(mem, oldSetup, oldParam, oldData, Encode(Empty(b))) == Failed
  {
    hide IsEmpty, Run, Judge, Encode;
    EmptyFrame(b);
    EmptyRuns(Encode(Empty(b)), b, mem, Cleared(oldSetup, oldParam, oldData));
  }

  lemma {:induction false} EmptyRuns(f: seq<byte>, b: byte, mem: seq<byte>, t: Blocks)
    requires IsEmpty(f, b) && |mem| == CAPACITY && t.Valid() && t.setup.Left() >= 0 && t.param.p == t.data.p == 0
    ensures b == 0 ==> Exact(Run(mem, t, f).Rewound(), [], [], [])
    ensures b != 0 ==> Run(mem, t, f) == Failed
  {
    FrameSplits(f, []);
    assert f + [] == f;
    EmptyTurn(f, b, mem, t);
    RunStep(mem, t, f);
    hide Run, Accept;
  }
}
