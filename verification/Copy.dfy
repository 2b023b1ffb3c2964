/** The resumable copies of cifscp.c over the block transfers of libcifs/proto.c. */
module Copy {
  import opened Bytes
  import opened Transport

  const BLOCK := 64 * 1024
  const UPLOAD_BLOCK := 60 * 1024
  const MAX_RAW := 60 * 1024
  const MAX_BUFFER := 65535
  /** Where the byte block of a write request begins: 28 bytes of words behind the header. */
  const WRITE_DATA := 39 + 28

  // ---------------------------------------------------------------- one request

  /** The fields of a read or write request that say where and how much: 32, 32 and 16 bits. */
  datatype Span = Span(offset: nat, offsetHigh: nat, count: nat) {
    /** The file position a server makes of the two halves. */
    function Position(): nat { offset + 0x1_0000_0000 * offsetHigh }
  }

  function Low32(v: nat): nat { v % 0x1_0000_0000 }

  /** What the client fills in, after its clamp to `max`. */
  function Request(count: nat, max: nat, offset: nat): Span {
    var n := if count > max then max else count;
    Span(Low32(offset), Low32(offset / 0x1_0000_0000), n % 0x1_0000)
  }

  /** The split loses nothing of a 64-bit offset, and the 16-bit count nothing of a clamped one. */
  lemma {:induction false} RequestExact(count: nat, max: nat, offset: nat)
    requires offset < 0x1_0000_0000_0000_0000 && max <= MAX_BUFFER
    ensures Request(count, max, offset).Position() == offset
    ensures var s := Request(count, max, offset);
      && s.offset < 0x1_0000_0000 && s.offset + 0x1_0000_0000 * s.offsetHigh == offset
      && s.count == if count > max then max else count
  {
  }

  /** The clamp is what saves the count: it survives exactly if what is asked for after the clamp fits 16 bits.
      A whole download block of 64 K, unclamped, would ask for nothing. */
  lemma {:induction false} CountSurvivesExactlyIfClamped(count: nat, max: nat, offset: nat)
    ensures Request(count, max, offset).count == Min(count, max) <==> Min(count, max) < 0x1_0000
    ensures Request(BLOCK, BLOCK, offset).count == 0
  {
  }

  // ---------------------------------------------------------------- the two ends of a copy

  /** How the next request fares: at most `max` bytes of those asked for move, or that many whatever was asked
      for, or the connection breaks off after them. */
  datatype Answer = Moves(max: nat) | Floods(max: nat) | Breaks(max: nat)

  /** Transfers may be short, and stall a finite number of times, but they do not fail. */
  ghost predicate OnlyMoves(script: seq<Answer>) {
    forall a :: a in script ==> a.Moves?
  }

  /** What the server's script says to a read request: nothing, or bytes from the position asked for. */
  function Answered(content: seq<byte>, s: Span, script: seq<Answer>): Option<seq<byte>> {
    if script != [] && script[0].Breaks? then None
    else
      var n :=
        if script == [] then s.count
        else if script[0].Moves? then Min(s.count, script[0].max)
        else script[0].max;
      var from := Min(s.Position(), |content|);
      Some(content[from..][..Min(n, |content| - from)])
  }

  function Used(script: seq<Answer>): seq<Answer> { if script == [] then [] else script[1..] }

  /** What one read request brings its caller: an error, also for an answer of more than `count` bytes, or a number
      of bytes. */
  function ReadResult(content: seq<byte>, count: nat, max: nat, offset: nat, script: seq<Answer>): int {
    match Answered(content, Request(count, max, offset), script)
    case None => -1
    case Some(data) => if |data| > count then -1 else |data|
  }

  /** A file on the server. Once the script of answers is over, every request is granted in full. */
  class Remote {
    var content: seq<byte>
    var script: seq<Answer>

    /** A read request. The server sends bytes from the position asked for, perhaps fewer than asked, perhaps
        more. */
    method Read(s: Span) returns (ok: bool, data: seq<byte>)
      modifies `script
      ensures Answered(content, s, old(script)) == (if ok then Some(data) else None) && script == Used(old(script))
      ensures |script| <= |old(script)|
      ensures ok && data != [] ==> s.Position() + |data| <= |content| && data == content[s.Position()..][..|data|]
      ensures ok && data == [] && s.count > 0 && s.Position() < |content| ==> |script| < |old(script)|
      ensures old(OnlyMoves(script)) ==> OnlyMoves(script) && ok && |data| <= s.count
    {
      assert script != [] ==> script[0] in script;
      var reply := Answered(content, s, script);
      script := Used(script);
      return reply.Some?, if reply.Some? then reply.value else [];
    }

    /** A write request at the end of the file. A prefix of the data is appended, and acknowledged unless the
        connection breaks. */
    method Write(s: Span, data: seq<byte>) returns (ok: bool, ack: nat)
      requires s.Position() == |content| && |data| == s.count
      modifies this
      ensures |script| <= |old(script)|
      ensures ack <= |data| && content == old(content) + data[..ack]
      ensures ok && ack == 0 && data != [] ==> |script| < |old(script)|
      ensures old(OnlyMoves(script)) ==> OnlyMoves(script) && ok
      ensures old(script) == [] ==> ok && ack == |data|
    {
      ack, ok := |data|, true;
      if script != [] {
        var answer := script[0];
        assert answer in script;
        script := script[1..];
        ack, ok := Min(ack, answer.max), !answer.Breaks?;
      }
      content := content + data[..ack];
    }
  }

  /** A local file: write and pread move fewer bytes than asked, or none and fail, as the script says. */
  class Local {
    var content: seq<byte>
    var script: seq<Answer>

    method Append(data: seq<byte>) returns (n: int)
      modifies this
      ensures n <= |data| && content == if n < 0 then old(content) else old(content) + data[..n]
      ensures old(script) == [] ==> script == [] && n == |data|
    {
      n := |data|;
      if script != [] {
        var answer := script[0];
        assert answer in script;
        script := script[1..];
        if answer.Breaks? { return -1; }
        n := Min(n, answer.max);
      }
      content := content + data[..n];
    }

    method PRead(buf: array<byte>, len: nat, off: nat) returns (n: int)
      requires len <= buf.Length && off + len <= |content|
      modifies `script, buf
      ensures n <= len && |script| <= |old(script)|
      ensures n >= 0 ==> buf[..n] == content[off..off + n]
      ensures n == 0 < len ==> |script| < |old(script)|
      ensures old(OnlyMoves(script)) ==> OnlyMoves(script) && n >= 0
    {
      n := len;
      if script != [] {
        var answer := script[0];
        assert answer in script;
        script := script[1..];
        if answer.Breaks? { return -1; }
        n := Min(n, answer.max);
      }
      forall k | 0 <= k < n {
        buf[k] := content[off + k];
      }
    }
  }

  // ---------------------------------------------------------------- libcifs/proto.c: one block

  class Session {
    const remote: Remote
    var rawMode: bool
    var maxBuffer: nat
    var maxRaw: nat

    constructor (remote: Remote, rawMode: bool, maxBuffer: nat, maxRaw: nat)
      requires 0 < maxBuffer <= MAX_BUFFER && maxRaw <= MAX_RAW
      ensures Valid() && this.remote == remote
    {
      this.remote, this.rawMode, this.maxBuffer, this.maxRaw := remote, rawMode, maxBuffer, maxRaw;
    }

    ghost predicate Valid()
      reads this
    {
      0 < maxBuffer <= MAX_BUFFER && maxRaw <= MAX_RAW
    }

    /** Either kind of read: the request, and the answer copied out unless it is too big for the caller. */
    method ReadOnce(buf: array<byte>, count: nat, max: nat, offset: nat) returns (r: int)
      requires count <= buf.Length && max <= MAX_BUFFER && offset < 0x1_0000_0000_0000_0000
      modifies remote`script, buf
      ensures r == ReadResult(remote.content, count, max, offset, old(remote.script))
      ensures remote.script == Used(old(remote.script))
      ensures -1 <= r <= count && |remote.script| <= |old(remote.script)|
      ensures r > 0 ==> offset + r <= |remote.content| && buf[..r] == remote.content[offset..offset + r]
      ensures r == 0 < count && 0 < max && offset < |remote.content| ==> |remote.script| < |old(remote.script)|
      ensures old(OnlyMoves(remote.script)) ==> OnlyMoves(remote.script) && r >= 0
    {
      RequestExact(count, max, offset);
      var ok, data := remote.Read(Request(count, max, offset));
      if !ok { return -1; }
      if |data| > count { return -1; }
      forall k | 0 <= k < |data| {
        buf[k] := data[k];
      }
      assert buf[..|data|] == data;
      return |data|;
    }

    /** cifs_read: the raw read if the server has it, and the plain one if that brought nothing, but not if it
        failed. */
    method Read(buf: array<byte>, count: nat, offset: nat) returns (r: int)
      requires Valid() && count <= buf.Length && offset < 0x1_0000_0000_0000_0000
      modifies remote`script, buf
      ensures
        var src, script := remote.content, old(remote.script);
        var raw := if rawMode then ReadResult(src, count, maxRaw, offset, script) else 0;
        var later := if rawMode then Used(script) else script;
        if raw != 0 then r == raw && remote.script == later
        else r == ReadResult(src, count, maxBuffer, offset, later) && remote.script == Used(later)
      ensures -1 <= r <= count && |remote.script| <= |old(remote.script)|
      ensures r > 0 ==> offset + r <= |remote.content| && buf[..r] == remote.content[offset..offset + r]
      ensures rawMode && r == 0 < count && 0 < maxRaw && offset < |remote.content| ==>
        |remote.script| + 2 <= |old(remote.script)|
      ensures r == 0 < count && offset < |remote.content| ==> |remote.script| < |old(remote.script)|
      ensures old(OnlyMoves(remote.script)) ==> OnlyMoves(remote.script) && r >= 0
    {
      if rawMode {
        r := ReadOnce(buf, count, maxRaw, offset);
        if r != 0 { return r; }
      }
      r := ReadOnce(buf, count, maxBuffer, offset);
    }

    /** cifs_write: one request, for no more than the server's buffer holds. */
    method Write(buf: array<byte>, count: nat, offset: nat) returns (r: int, ghost moved: nat)
      requires Valid() && count <= buf.Length && WRITE_DATA + count <= CAPACITY
      requires offset == |remote.content| < 0x1_0000_0000_0000_0000
      modifies remote
      ensures moved <= count && remote.content == old(remote.content) + buf[..moved]
      ensures r == moved || r == -1
      ensures old(remote.script) == [] ==> r == Min(count, maxBuffer)
      ensures |remote.script| <= |old(remote.script)|
      ensures r == 0 < count ==> |remote.script| < |old(remote.script)|
      ensures old(OnlyMoves(remote.script)) ==> OnlyMoves(remote.script) && r >= 0
    {
      RequestExact(count, maxBuffer, offset);
      var s := Request(count, maxBuffer, offset);
      var ok, ack := remote.Write(s, buf[..s.count]);
      moved := ack;
      assert buf[..s.count][..ack] == buf[..ack];
      r := if ok then ack else -1;
    }
  }

  // ---------------------------------------------------------------- cifscp.c: the loops

  /** What one attempt may leave behind: the destination as it was, and bytes of the source from there on. */
  ghost predicate Resumes(was: seq<byte>, now: seq<byte>, src: seq<byte>) {
    |was| <= |now| && if |src| <= |was| then now == was else |now| <= |src| && now == was + src[|was|..|now|]
  }

  lemma {:induction false} ResumesItself(was: seq<byte>, src: seq<byte>)
    ensures Resumes(was, was, src)
  {
    assert |was| < |src| ==> src[|was|..|was|] == [];
  }

  lemma {:induction false} ResumesStep(was: seq<byte>, now: seq<byte>, src: seq<byte>, more: seq<byte>)
    requires Resumes(was, now, src) && |now| + |more| <= |src| && more == src[|now|..|now| + |more|]
    ensures Resumes(was, now + more, src)
  {
    if |src| > |was| {
      assert src[|was|..|now| + |more|] == src[|was|..|now|] + more;
    }
  }

  lemma {:induction false} SameFront(buf: seq<byte>, src: seq<byte>, off: nat, len: nat, n: nat)
    requires n <= len <= |buf| && off + len <= |src| && buf[..len] == src[off..off + len]
    ensures buf[..n] == src[off..off + n]
  {
    assert buf[..n] == buf[..len][..n];
  }

  /** A finished copy is the source exactly when it began as a prefix of it. */
  lemma {:induction false} FinishedIsExact(was: seq<byte>, now: seq<byte>, src: seq<byte>)
    requires Resumes(was, now, src) && |src| <= |now|
    ensures now == src <==> was <= src
  {
    if |was| < |src| {
      assert now[..|was|] == was;
      assert was <= src ==> src == was + src[|was|..];
    }
  }

  /** cifs_download_file. */
  method Download(s: Session, dst: Local) returns (r: int)
    requires s.Valid() && |s.remote.content| < 0x8000_0000_0000_0000
    modifies s.remote`script, dst
    ensures r == 0 || r == -1
    ensures Resumes(old(dst.content), dst.content, s.remote.content)
    ensures r == 0 ==> |s.remote.content| <= |dst.content|
    ensures old(OnlyMoves(s.remote.script)) && old(dst.script) == [] ==> r == 0
    ensures r == 0 ==> (dst.content == s.remote.content <==> old(dst.content) <= s.remote.content)
  {
    hide Resumes;
    var buf := new byte[BLOCK];
    ghost var src := s.remote.content;
    ResumesItself(dst.content, src);
    var size := |s.remote.content|;
    var off := |dst.content|;
    var rem: int := size - off;
    while rem > 0
      invariant off + rem == size == |src| && off == |dst.content| && s.remote.content == src && s.Valid()
      invariant Resumes(old(dst.content), dst.content, src)
      invariant old(OnlyMoves(s.remote.script)) && old(dst.script) == [] ==>
        OnlyMoves(s.remote.script) && dst.script == []
      decreases rem, |s.remote.script|
    {
      var len := Min(rem, BLOCK);
      var res := s.Read(buf, len, off);
      if res < 0 { return -1; }
      if res > 0 {
        ghost var now := dst.content;
        var n := dst.Append(buf[..res]);
        if n >= 0 {
          SameFront(buf[..], src, off, res, n);
          assert buf[..res][..n] == buf[..n];
          ResumesStep(old(dst.content), now, src, buf[..n]);
        }
        off := off + res;
        rem := rem - res;
        if n != res { return -1; }
      }
    }
    FinishedIsExact(old(dst.content), dst.content, src);
    return 0;
  }

  /** cifs_upload_file. */
  method Upload(s: Session, src: Local) returns (r: int)
    requires s.Valid() && |src.content| < 0x8000_0000_0000_0000
    modifies s.remote, src`script
    ensures r == 0 || r == -1
    ensures Resumes(old(s.remote.content), s.remote.content, src.content)
    ensures r == 0 ==> |src.content| <= |s.remote.content|
    ensures old(OnlyMoves(s.remote.script) && OnlyMoves(src.script)) ==> r == 0
    ensures r == 0 ==> (s.remote.content == src.content <==> old(s.remote.content) <= src.content)
  {
    hide Resumes;
    var size := |src.content|;
    var off := |s.remote.content|;
    ResumesItself(s.remote.content, src.content);
    var rem: int := size - off;
    var buf := new byte[BLOCK];
    while rem > 0
      invariant off + rem == size == |src.content| && off == |s.remote.content| && s.Valid()
      invariant Resumes(old(s.remote.content), s.remote.content, src.content)
      invariant old(OnlyMoves(s.remote.script) && OnlyMoves(src.script)) ==>
        OnlyMoves(s.remote.script) && OnlyMoves(src.script)
      decreases rem, |s.remote.script| + |src.script|
    {
      var len: int := if rem > UPLOAD_BLOCK then UPLOAD_BLOCK else rem;
      len := src.PRead(buf, len, off);
      if len < 0 { return -1; }
      ghost var now := s.remote.content;
      var res, moved := s.Write(buf, len, off);
      SameFront(buf[..], src.content, off, len, moved);
      ResumesStep(old(s.remote.content), now, src.content, buf[..moved]);
      if res < 0 { return -1; }
      if res > 0 {
        off := off + res;
        rem := rem - res;
      }
    }
    FinishedIsExact(old(s.remote.content), s.remote.content, src.content);
    return 0;
  }

  // ---------------------------------------------------------------- what a copy comes to

  /** The states of a destination over a run of attempts, each taking up where the one before left off. */
  ghost predicate Attempts(states: seq<seq<byte>>, src: seq<byte>) {
    states != [] && forall k :: 0 < k < |states| ==> Resumes(states[k - 1], states[k], src)
  }

  /** Attempts add up: however many break off and wherever, together they do what one would have done. */
  lemma {:induction false} AttemptsAddUp(states: seq<seq<byte>>, src: seq<byte>)
    requires Attempts(states, src)
    ensures Resumes(states[0], states[|states| - 1], src)
  {
    if |states| == 1 {
    } else {
      var before := states[..|states| - 1];
      AttemptsAddUp(before, src);
      var a, b, c := states[0], states[|states| - 2], states[|states| - 1];
      assert Resumes(a, b, src) && Resumes(b, c, src);
      if |src| > |b| {
        assert src[|a|..|c|] == src[|a|..|b|] + src[|b|..|c|];
      }
    }
  }

  /** A copy that breaks off any number of times and ends with a success has made the source exactly when the
      destination started as a prefix of it. A longer or different start is reported as a success as well. */
  lemma {:induction false} ResumedCopyIsExact(states: seq<seq<byte>>, src: seq<byte>)
    requires Attempts(states, src) && |src| <= |states[|states| - 1]|
    ensures states[|states| - 1] == src <==> states[0] <= src
  {
    AttemptsAddUp(states, src);
    FinishedIsExact(states[0], states[|states| - 1], src);
  }
}
