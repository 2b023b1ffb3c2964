/** libcifs/transact.c: reassembly of a transaction's parameter and data blocks from the fragments of
    several messages (sections 2.2.4.33.2 and 2.2.4.46.2 of MS-CIFS), into buffers that are reused. */
module Transact {
  import opened Bytes
  import opened Buffer
  import opened Framing
  import opened Transport

  const MAX_SETUP := 255
  const MAX_PARAM := 1024
  const MAX_DATA := 60 * 1024
  const SMB_TRANS: byte := 0x25
  const SMB_TRANS2: byte := 0x32

  // ---------------------------------------------------------------- what one fragment does

  datatype Blocks = Blocks(setup: Block, param: Block, data: Block) {
    predicate Valid() {
      && setup.Valid() && param.Valid() && data.Valid()
      && |setup.bytes| == MAX_SETUP && |param.bytes| == MAX_PARAM && |data.bytes| == MAX_DATA
    }

    function Rewound(): Blocks { Blocks(setup.At(0), param.At(0), data.At(0)) }

    predicate Complete() { param.Left() == 0 && data.Left() == 0 }
  }

  /** The k-th 16-bit parameter word of the message at the front of `mem`. The client does not look at the
      word count: behind a short message it reads what an earlier one left there. */
  function Word(mem: seq<byte>, k: nat): nat
    requires |mem| == CAPACITY && k < 10
  {
    Le16(mem, 37 + 2 * k)
  }

  /** cifs_packet_errno: an error counts only in the classes ERRDOS and ERRSRV. */
  predicate Refused(mem: seq<byte>)
    requires |mem| == CAPACITY
  {
    Le16(mem, 11) != 0 && mem[9] in {1, 2}
  }

  /** One of the two block copies: `cnt` bytes at `off` of the message to `dis` of the block. */
  function CopyIn(k: Block, mem: seq<byte>, e: nat, cnt: nat, off: nat, dis: nat): (r: Option<Block>)
    requires k.Valid() && e <= |mem| == CAPACITY
    ensures r.Some? ==> r.value.Valid() && |r.value.bytes| == |k.bytes| && r.value.e == k.e
  {
    if cnt == 0 then Some(k)
    else if off + 4 + cnt > e || dis + cnt > k.e then None
    else Some(k.At(dis).Put(mem[off + 4..off + 4 + cnt]))
  }

  lemma {:induction false} CopyInCases(k: Block, mem: seq<byte>, e: nat, cnt: nat, off: nat, dis: nat)
    requires k.Valid() && e <= |mem| == CAPACITY
    ensures cnt == 0 ==> CopyIn(k, mem, e, cnt, off, dis) == Some(k)
    ensures cnt != 0 && (off + 4 + cnt > e || dis + cnt > k.e) ==> CopyIn(k, mem, e, cnt, off, dis) == None
    ensures cnt != 0 && off + 4 + cnt <= e && dis + cnt <= k.e ==>
      CopyIn(k, mem, e, cnt, off, dis) == Some(k.At(dis).Put(mem[off + 4..off + 4 + cnt]))
  {
  }

  datatype Verdict = Bad | More(t: Blocks) | Done(t: Blocks)

  function Words(mem: seq<byte>): (w: seq<nat>)
    requires |mem| == CAPACITY
    ensures |w| == 10 && forall k :: 0 <= k < 10 ==> w[k] == Word(mem, k)
  {
    seq(10, k requires 0 <= k < 10 => Word(mem, k))
  }

  /** Lines 82-86: the tests on the message. Room for setup words is what the last fragment left. */
  predicate Admissible(mem: seq<byte>, t: Blocks)
    requires |mem| == CAPACITY
  {
    && (mem[8] == SMB_TRANS || mem[8] == SMB_TRANS2)
    && !Refused(mem)
    && 2 * Word(mem, 9) <= t.setup.Left() && Word(mem, 0) <= t.param.e && Word(mem, 1) <= t.data.e
  }

  /** Lines 88-91: the setup words, and the totals, which may only shrink. */
  function Admit(mem: seq<byte>, t: Blocks): (r: Blocks)
    requires |mem| == CAPACITY && t.Valid() && Admissible(mem, t)
    ensures r.Valid() && r.param.e <= t.param.e && r.data.e <= t.data.e
  {
    var sc := Word(mem, 9);
    Blocks(t.setup.End(2 * sc).Put(mem[57..57 + 2 * sc]), t.param.End(Word(mem, 0)), t.data.End(Word(mem, 1)))
  }

  /** One turn of the loop, on the received message mem[..e]. */
  function Accept(mem: seq<byte>, e: nat, t: Blocks): (r: Verdict)
    requires e <= |mem| == CAPACITY && t.Valid()
    ensures !r.Bad? ==> r.t.Valid() && r.t.param.e <= t.param.e && r.t.data.e <= t.data.e
  {
    if !Admissible(mem, t) then Bad else CopyBlocks(mem, e, Admit(mem, t))
  }

  /** Lines 93-110. */
  function CopyBlocks(mem: seq<byte>, e: nat, a: Blocks): (r: Verdict)
    requires e <= |mem| == CAPACITY && a.Valid()
    ensures !r.Bad? ==> r.t.Valid() && r.t.param.e == a.param.e && r.t.data.e == a.data.e
  {
    var param := CopyIn(a.param, mem, e, Word(mem, 3), Word(mem, 4), Word(mem, 5));
    if param.None? then Bad else
    var data := CopyIn(a.data, mem, e, Word(mem, 6), Word(mem, 7), Word(mem, 8));
    if data.None? then Bad else
    var t' := Blocks(a.setup, param.value, data.value);
    if t'.Complete() then Done(t') else More(t')
  }

  // ---------------------------------------------------------------- a whole reassembly

  datatype Outcome = Failed | Reassembled(t: Blocks, mem: seq<byte>, rest: seq<byte>) {
    function Rewound(): Outcome {
      match this
      case Failed => Failed
      case Reassembled(t, mem, rest) => Reassembled(t.Rewound(), mem, rest)
    }
  }

  /** The loop over the messages of the stream `input`, with `mem` the receive buffer so far. */
  function Run(mem: seq<byte>, t: Blocks, input: seq<byte>): Outcome
    requires |mem| == CAPACITY && t.Valid()
    decreases |input|
  {
    match Arrive(mem, input)
    case Broken => Failed
    case Arrived(mem', e, rest) =>
      match Accept(mem', e, t)
      case Bad => Failed
      case Done(t') => Reassembled(t', mem', rest)
      case More(t') => Run(mem', t', rest)
  }

  lemma {:induction false} RunStep(mem: seq<byte>, t: Blocks, input: seq<byte>)
    requires |mem| == CAPACITY && t.Valid()
    ensures Arrive(mem, input) == Broken ==> Run(mem, t, input) == Failed
    ensures Arrive(mem, input).Arrived? ==>
      var Arrived(mem', e, rest) := Arrive(mem, input);
      match Accept(mem', e, t)
      case Bad => Run(mem, t, input) == Failed
      case Done(t') => Run(mem, t, input) == Reassembled(t', mem', rest)
      case More(t') => Run(mem, t, input) == Run(mem', t', rest)
  {
  }

  /** The blocks as every call of cifs_trans_recv starts: marks reset, old bytes still there. */
  function Cleared(setup: seq<byte>, param: seq<byte>, data: seq<byte>): (t: Blocks)
    requires |setup| == MAX_SETUP && |param| == MAX_PARAM && |data| == MAX_DATA
    ensures t.Valid()
  {
    Blocks(Block(setup, 0, MAX_SETUP), Block(param, 0, MAX_PARAM), Block(data, 0, MAX_DATA))
  }

  /** A whole cifs_trans_recv: from whatever the receive buffer and the three blocks held before. */
  function Fetch(mem: seq<byte>, setup: seq<byte>, param: seq<byte>, data: seq<byte>, input: seq<byte>): Outcome
    requires |mem| == CAPACITY && |setup| == MAX_SETUP && |param| == MAX_PARAM && |data| == MAX_DATA
  {
    Run(mem, Cleared(setup, param, data), input).Rewound()
  }

  class Trans {
    const setup: Buf
    const param: Buf
    const data: Buf

    constructor ()
      ensures Valid() && fresh(setup) && fresh(param) && fresh(data)
      ensures fresh(setup.mem) && fresh(param.mem) && fresh(data.mem)
      ensures setup.mem.Length == 255 && param.mem.Length == 1024 && data.mem.Length == 61440
    {
      setup := new Buf(MAX_SETUP);
      param := new Buf(MAX_PARAM);
      data := new Buf(MAX_DATA);
    }

    ghost predicate Valid()
      reads this, setup, param, data
    {
      && setup.Valid() && param.Valid() && data.Valid()
      && setup != param && setup != data && param != data
      && setup.mem != param.mem && setup.mem != data.mem && param.mem != data.mem
      && setup.b == param.b == data.b == 0
      && setup.x == setup.mem.Length == MAX_SETUP
      && param.x == param.mem.Length == MAX_PARAM
      && data.x == data.mem.Length == MAX_DATA
    }

    ghost predicate Apart(c: Conn)
      reads this, setup, param, data, c, c.i, c.i.p, c.i.b, c.o, c.o.p, c.o.b
    {
      && Valid() && c.Valid()
      && c.Distinct(setup) && c.Distinct(param) && c.Distinct(data)
    }

    ghost function Abs(): (t: Blocks)
      requires Valid()
      reads this, setup, param, data, setup.mem, param.mem, data.mem
      ensures t.Valid()
    {
      Blocks(setup.Abs(), param.Abs(), data.Abs())
    }

    /** Lines 93-100 for `k` = param, 102-109 for `k` = data; `mem` is the receive buffer. */
    static method Copy(c: Conn, k: Buf, w: seq<nat>, at: nat, ghost mem: seq<byte>) returns (ok: bool)
      requires c.Valid() && c.Distinct(k) && k.Valid() && k.b == 0
      requires mem == c.i.p.mem[..] && at + 3 <= |w|
      modifies k`p, k.mem
      ensures k.Valid()
      ensures ok == CopyIn(old(k.Abs()), mem, c.i.p.e, w[at], w[at + 1], w[at + 2]).Some?
      ensures ok ==> k.Abs() == CopyIn(old(k.Abs()), mem, c.i.p.e, w[at], w[at + 1], w[at + 2]).value
    {
      hide CopyIn;
      var cnt, off, dis := w[at], w[at + 1], w[at + 2];
      ghost var was := k.Abs();
      CopyInCases(was, mem, c.i.p.e, cnt, off, dis);
      if cnt == 0 { return true; }
      if off + 4 + cnt > c.i.p.e || dis + cnt > k.e { return false; }
      var part := c.i.p.mem[off + 4..off + 4 + cnt];
      assert part == mem[off + 4..off + 4 + cnt];
      k.Set(dis);
      assert k.Abs() == was.At(dis);
      k.Write(part);
      return true;
    }

    /** The response words the loop looks at, in place. */
    static method ReadWords(c: Conn) returns (w: seq<nat>)
      requires c.Valid()
      ensures w == Words(c.i.p.mem[..])
    {
      var mem := c.i.p.mem[..];
      w := Words(mem);
    }

    /** Lines 82-87. */
    method Check(c: Conn, w: seq<nat>) returns (ok: bool)
      requires Apart(c) && w == Words(c.i.p.mem[..])
      ensures ok == Admissible(c.i.p.mem[..], Abs())
    {
      if c.i.p.mem[8] != SMB_TRANS && c.i.p.mem[8] != SMB_TRANS2 { return false; }
      if c.i.p.mem[11] as int + 256 * c.i.p.mem[12] as int != 0 && c.i.p.mem[9] in {1, 2} { return false; }
      if 2 * w[9] > setup.e - setup.p || w[0] > param.e || w[1] > data.e { return false; }
      return true;
    }

    /** Lines 88-89: `n` bytes of setup words. */
    method TakeSetup(c: Conn, n: nat, ghost mem: seq<byte>)
      requires Apart(c) && mem == c.i.p.mem[..] && n <= setup.e - setup.p && 57 + n <= CAPACITY
      modifies setup`p, setup`e, setup.mem
      ensures Valid() && setup.Abs() == old(setup.Abs()).End(n).Put(mem[57..57 + n])
    {
      ghost var k := setup.Abs();
      var _ := setup.Resize(n);
      assert mem[57..57 + n] == c.i.p.mem[57..57 + n];
      assert setup.Abs() == k.End(n);
      setup.Write(c.i.p.mem[57..57 + n]);
    }

    /** Lines 88-91. */
    method TakeHeader(c: Conn, w: seq<nat>, ghost mem: seq<byte>, ghost t: Blocks)
      requires Apart(c) && mem == c.i.p.mem[..] && w == Words(mem) && t == Abs() && Admissible(mem, t)
      modifies setup`p, setup`e, param`e, data`e, setup.mem
      ensures Apart(c) && Abs() == Admit(mem, t)
    {
      TakeSetup(c, 2 * w[9], mem);
      var _ := param.Resize(w[0]);
      var _ := data.Resize(w[1]);
      assert param.Abs() == t.param.End(w[0]);
      assert data.Abs() == t.data.End(w[1]);
    }

    /** Lines 93-110: 1 asks for more fragments, 0 ends the loop, -1 is an error. */
    method TakeBlocks(c: Conn, w: seq<nat>, ghost mem: seq<byte>, ghost a: Blocks) returns (r: int)
      requires Apart(c) && mem == c.i.p.mem[..] && w == Words(mem) && a == Abs()
      modifies param`p, data`p, param.mem, data.mem
      ensures Apart(c)
      ensures Ruled(CopyBlocks(mem, c.i.p.e, a), r)
    {
      hide CopyIn, Words;
      var ok := Copy(c, param, w, 3, mem);
      if !ok { return -1; }
      assert setup.Abs() == a.setup && data.Abs() == a.data;
      ghost var p := param.Abs();
      ok := Copy(c, data, w, 6, mem);
      if !ok { return -1; }
      assert setup.Abs() == a.setup && param.Abs() == p;
      return if param.e == param.p && data.e == data.p then 0 else 1;
    }

    /** A verdict as the loop acts on it. */
    ghost predicate Ruled(v: Verdict, r: int)
      requires Valid()
      reads this, setup, param, data, setup.mem, param.mem, data.mem
    {
      match v
      case Bad => r == -1
      case More(t) => r == 1 && Abs() == t
      case Done(t) => r == 0 && Abs() == t
    }

    /** Lines 82-110, on the message in the receive buffer. */
    method Take(c: Conn, ghost mem: seq<byte>, ghost t: Blocks) returns (r: int)
      requires Apart(c) && mem == c.i.p.mem[..] && t == Abs()
      modifies setup`p, setup`e, param`p, param`e, data`p, data`e, setup.mem, param.mem, data.mem
      ensures Apart(c)
      ensures Ruled(Accept(mem, c.i.p.e, t), r)
    {
      var w := ReadWords(c);
      var ok := Check(c, w);
      if !ok { return -1; }
      TakeHeader(c, w, mem, t);
      assert mem == c.i.p.mem[..];
      r := TakeBlocks(c, w, mem, Abs());
    }

    /** Lines 71-77. */
    method Clear(c: Conn, ghost t: Blocks, ghost mem: seq<byte>)
      requires Apart(c) && mem == c.i.p.mem[..]
      requires t == Cleared(setup.mem[..], param.mem[..], data.mem[..])
      modifies setup`p, setup`e, param`p, param`e, data`p, data`e
      ensures Apart(c)
      ensures Abs() == t && c.i.p.mem[..] == mem
    {
      Widen(c);
      Rewind(c, Failed);
    }

    /** Lines 71-73. */
    method Widen(c: Conn)
      requires Apart(c)
      modifies setup`e, param`e, data`e
      ensures Apart(c)
      ensures Abs() == old(Blocks(Abs().setup.End(MAX_SETUP), Abs().param.End(MAX_PARAM), Abs().data.End(MAX_DATA)))
    {
      var _ := setup.Resize(-1);
      var _ := param.Resize(-1);
      var _ := data.Resize(-1);
    }

    /** An outcome as the caller sees it. */
    ghost predicate Delivered(c: Conn, goal: Outcome, r: int)
      requires Valid()
      reads this, setup, param, data, setup.mem, param.mem, data.mem, c, c.sock, c.i, c.i.p, c.i.p.mem
    {
      match goal
      case Failed => r == -1
      case Reassembled(t, mem, rest) => r == 0 && c.sock.input == rest && c.i.p.mem[..] == mem && Abs() == t
    }

    /** Lines 79 and 112: the next message; the blocks stay as they are. */
    method NextFragment(c: Conn, ghost t: Blocks) returns (r: int)
      requires Apart(c) && t == Abs()
      modifies c.sock, c.i.p`p, c.i.p`e, c.i.b, c.i.p.mem
      ensures Apart(c) && Abs() == t
      ensures r == 0 || r == -1
      ensures r == 0 ==> |c.sock.input| + |c.sock.turns| < old(|c.sock.input| + |c.sock.turns|)
      ensures old(c.sock.Healthy()) ==> c.sock.Healthy()
      ensures old(c.sock.Healthy()) ==>
        var a := Arrive(old(c.i.p.mem[..]), old(c.sock.input));
        a == if r == 0 then Arrived(c.i.p.mem[..], c.i.p.e, c.sock.input) else Broken
    {
      hide Arrive;
      r := c.Recv();
    }

    /** One fragment received and taken in; 1 asks for another. */
    method Turn(c: Conn, ghost goal: Outcome, ghost healthy: bool) returns (r: int)
      requires Apart(c)
      requires healthy ==> c.sock.Healthy() && goal == Run(c.i.p.mem[..], Abs(), c.sock.input)
      modifies setup`p, setup`e, param`p, param`e, data`p, data`e, setup.mem, param.mem, data.mem
      modifies c.sock, c.i.p`p, c.i.p`e, c.i.b, c.i.p.mem
      ensures Apart(c) && setup.mem == old(setup.mem) && param.mem == old(param.mem) && data.mem == old(data.mem)
      ensures c.i.p.mem == old(c.i.p.mem)
      ensures r != -1 ==> |c.sock.input| + |c.sock.turns| < old(|c.sock.input| + |c.sock.turns|)
      ensures r == 0 || r == 1 || r == -1
      ensures healthy ==> c.sock.Healthy()
      ensures healthy && r == 1 ==> goal == Run(c.i.p.mem[..], Abs(), c.sock.input)
      ensures healthy && r != 1 ==> Delivered(c, goal, r)
    {
      hide Run, Accept, Arrive;
      ghost var t := Abs();
      RunStep(c.i.p.mem[..], t, c.sock.input);
      r := NextFragment(c, t);
      if r == 0 {
        r := Take(c, c.i.p.mem[..], t);
      }
    }

    /** Lines 79-113. */
    method Loop(c: Conn, ghost goal: Outcome) returns (r: int)
      requires Apart(c)
      requires c.sock.Healthy() ==> goal == Run(c.i.p.mem[..], Abs(), c.sock.input)
      modifies setup`p, setup`e, param`p, param`e, data`p, data`e, setup.mem, param.mem, data.mem
      modifies c.sock, c.i.p`p, c.i.p`e, c.i.b, c.i.p.mem
      ensures Apart(c)
      ensures r == 0 || r == -1
      ensures r == 0 ==> |c.sock.input| + |c.sock.turns| < old(|c.sock.input| + |c.sock.turns|)
      ensures old(c.sock.Healthy()) ==> c.sock.Healthy() && Delivered(c, goal, r)
    {
      hide Run;
      ghost var healthy := c.sock.Healthy();
      r := 1;
      while r == 1
        invariant Apart(c) && setup.mem == old(setup.mem) && param.mem == old(param.mem) && data.mem == old(data.mem)
        invariant c.i.p.mem == old(c.i.p.mem) && (r == 0 || r == 1 || r == -1)
        invariant r == 1 ==> |c.sock.input| + |c.sock.turns| <= old(|c.sock.input| + |c.sock.turns|)
        invariant r == 0 ==> |c.sock.input| + |c.sock.turns| < old(|c.sock.input| + |c.sock.turns|)
        invariant healthy ==> c.sock.Healthy()
        invariant healthy && r == 1 ==> goal == Run(c.i.p.mem[..], Abs(), c.sock.input)
        invariant healthy && r != 1 ==> Delivered(c, goal, r)
        decreases r, |c.sock.input| + |c.sock.turns|
      {
        r := Turn(c, goal, healthy);
      }
    }

    /** Lines 114-116. */
    method Rewind(c: Conn, ghost goal: Outcome)
      requires Apart(c)
      modifies setup`p, param`p, data`p
      ensures Apart(c) && Abs() == old(Abs()).Rewound()
      ensures old(Delivered(c, goal, 0)) ==> Delivered(c, goal.Rewound(), 0)
    {
      setup.Set(0);
      param.Set(0);
      data.Set(0);
    }

    /** cifs_trans_recv */
    method Recv(c: Conn) returns (r: int)
      requires Apart(c)
      modifies setup`p, setup`e, param`p, param`e, data`p, data`e, setup.mem, param.mem, data.mem
      modifies c.sock, c.i.p`p, c.i.p`e, c.i.b, c.i.p.mem
      ensures Apart(c)
      ensures r == 0 || r == -1
      ensures r == 0 ==> |c.sock.input| + |c.sock.turns| < old(|c.sock.input| + |c.sock.turns|)
      ensures old(c.sock.Healthy()) ==> c.sock.Healthy()
      ensures old(c.sock.Healthy()) ==>
        Delivered(c, old(Fetch(c.i.p.mem[..], setup.mem[..], param.mem[..], data.mem[..], c.sock.input)), r)
    {
      hide Run;
      ghost var t, mem := Cleared(setup.mem[..], param.mem[..], data.mem[..]), c.i.p.mem[..];
      ghost var goal := Run(mem, t, c.sock.input);
      Clear(c, t, mem);
      r := Loop(c, goal);
      if r == 0 {
        Rewind(c, goal);
      }
    }
  }
}
