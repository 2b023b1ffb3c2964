/** What the bytes of a response decide, by their positions in a message of MS-CIFS (sections 2.2.3.1 and 2.2.4.33.2),
    counted from the NBT header on. */
module Responses {
  import opened Bytes
  import opened Buffer
  import opened Framing
  import opened Transport
  import opened Transact
  import opened Reassembly

  /** The message is no transaction, or its status is an error of class ERRDOS or ERRSRV. */
  predicate Refuses(f: seq<byte>)
    requires |f| >= 13
  {
    (f[8] != 0x25 && f[8] != 0x32) || ((f[9] == 1 || f[9] == 2) && (f[11] != 0 || f[12] != 0))
  }

  lemma {:induction false} RefusedTurn(mem: seq<byte>, e: nat, t: Blocks)
    requires e <= |mem| == CAPACITY && t.Valid() && Refuses(mem)
    ensures Accept(mem, e, t).Bad?
  {
    assert Le16(mem, 11) == mem[11] as int + 256 * mem[12] as int;
  }

  /** At any point of a transaction, whatever the buffers hold, such a message makes the call fail; so does one that
      does not parse, and the end of the stream. */
  lemma {:induction false} RefusedRun(mem: seq<byte>, t: Blocks, s: seq<byte>)
    requires |mem| == CAPACITY && t.Valid()
    requires var next := NextMessage(s);
      next.Message? ==> Decode(next.frame).None? || (|next.frame| >= 13 && Refuses(next.frame))
    ensures Run(mem, t, s) == Failed
  {
    RunStep(mem, t, s);
    if Arrive(mem, s).Arrived? {
      RefusedTurn(Arrive(mem, s).mem, Arrive(mem, s).e, t);
    }
  }

  lemma {:induction false} RefusedCall(mem: seq<byte>, oldSetup: seq<byte>, oldParam: seq<byte>, oldData: seq<byte>,
      s: seq<byte>)
    requires |mem| == CAPACITY && |oldSetup| == MAX_SETUP && |oldParam| == MAX_PARAM && |oldData| == MAX_DATA
    requires NextMessage(s).Message? && |NextMessage(s).frame| >= 13 && Refuses(NextMessage(s).frame)
    ensures Fetch(mem, oldSetup, oldParam, oldData, s) == Failed
  {
    hide Run;
    RefusedRun(mem, Cleared(oldSetup, oldParam, oldData), s);
  }

  // ---------------------------------------------------------------- a response in one message

  /** The bytes at an offset that counts from the SMB header, four bytes into the frame. */
  predicate StandsAt(f: seq<byte>, offset: nat, part: seq<byte>) {
    part != [] ==> offset + 4 + |part| <= |f| && f[offset + 4..offset + 4 + |part|] == part
  }

  /** The message has room for its words, and they say: the totals at 37 and 39; count, offset and displacement of the
      parameters at 43, 45 and 47 and of the data at 49, 51 and 53; the count of setup words at 55, themselves at 57. */
  predicate Brings(f: seq<byte>, setup: seq<byte>, param: seq<byte>, data: seq<byte>) {
    && 57 + |setup| <= |f| <= 65539 && IsMessage(f) && Decode(f).Some?
    && Le16(f, 37) == |param| && Le16(f, 39) == |data|
    && Le16(f, 43) == |param| && StandsAt(f, Le16(f, 45), param) && Le16(f, 47) == 0
    && Le16(f, 49) == |data| && StandsAt(f, Le16(f, 51), data) && Le16(f, 53) == 0
    && 2 * Le16(f, 55) == |setup| && f[57..57 + |setup|] == setup
  }

  lemma {:induction false} BringsIsCarries(f: seq<byte>, setup: seq<byte>, param: seq<byte>, data: seq<byte>)
    requires Brings(f, setup, param, data) && !Refuses(f)
    ensures Carries(f, Piece(param, data, setup, |param|, |data|), 0, 0)
  {
    hide Decode;
  }

  lemma {:induction false} BringsMessage(f: seq<byte>, setup: seq<byte>, param: seq<byte>, data: seq<byte>)
    requires Brings(f, setup, param, data)
    ensures 57 <= |f| <= CAPACITY && IsMessage(f) && Decode(f).Some?
  {
  }

  /** The one turn that such a response takes. */
  lemma {:induction false} OneTurn(mem: seq<byte>, f: seq<byte>, t: Blocks, pc: Piece) returns (v: Verdict)
    requires |f| <= |mem| == CAPACITY && mem[..|f|] == f && Carries(f, pc, 0, 0)
    requires pc.paramTotal == |pc.param| && pc.dataTotal == |pc.data|
    requires t.Valid() && t.setup.p == t.param.p == t.data.p == 0
    requires t.setup.e == MAX_SETUP && t.param.e == MAX_PARAM && t.data.e == MAX_DATA
    ensures v == Accept(mem, |f|, t)
    ensures if |pc.setup| <= 255 && |pc.param| <= 1024 && |pc.data| <= 61440
      then v.Done? && v.t.Valid() && v.t.setup.Contents() == pc.setup
        && v.t.param.Contents() == pc.param && v.t.data.Contents() == pc.data
      else v == Bad
  {
    v := Accept(mem, |f|, t);
    if |pc.param| <= 1024 && |pc.data| <= 61440 {
      PieceAccepted(f, mem, t, pc);
      assert t.param.bytes[..0] + pc.param == pc.param && t.data.bytes[..0] + pc.data == pc.data;
    } else {
      WordIsField(f, mem, 0);
      WordIsField(f, mem, 1);
    }
  }

  /** Such a response, in front of any stream and over any buffers, is delivered if it fits the three blocks and is not
      refused, and makes the call fail otherwise. */
  lemma {:induction false} OneResponse(mem: seq<byte>, oldSetup: seq<byte>, oldParam: seq<byte>, oldData: seq<byte>,
      f: seq<byte>, setup: seq<byte>, param: seq<byte>, data: seq<byte>, rest: seq<byte>)
    requires |mem| == CAPACITY && |oldSetup| == MAX_SETUP && |oldParam| == MAX_PARAM && |oldData| == MAX_DATA
    requires Brings(f, setup, param, data)
    ensures var r := Fetch(mem, oldSetup, oldParam, oldData, f + rest);
      if !Refuses(f) && |setup| <= 255 && |param| <= 1024 && |data| <= 61440
      then Exact(r, param, data, rest) && r.t.setup.Contents() == setup && r.t.setup.p == 0
      else r == Failed
  {
    hide Run, Accept, Brings, Refuses, Decode, Carries;
    BringsMessage(f, setup, param, data);
    var t, mem' := Cleared(oldSetup, oldParam, oldData), f + mem[|f|..];
    FrameSplits(f, rest);
    assert mem'[..|f|] == f && Arrive(mem, f + rest) == Arrived(mem', |f|, rest);
    if Refuses(f) {
      RefusedRun(mem, t, f + rest);
    } else {
      BringsIsCarries(f, setup, param, data);
      var v := OneTurn(mem', f, t, Piece(param, data, setup, |param|, |data|));
      RunStep(mem, t, f + rest);
    }
  }
}
