/** The writers of libcifs/buffer.c that convert a string, or a path with its slashes turned, into a buffer. */
module PathText {
  import opened Bytes
  import opened Buffer
  import opened Codepage

  function Turned(c: byte): byte { if c == SLASH then BACKSLASH else c }

  /** No slash is left, and where there was none nothing has changed. */
  function AllTurned(s: seq<byte>): (r: seq<byte>)
    ensures |r| == |s| && 0x2F !in r
    ensures forall k :: 0 <= k < |s| ==> r[k] == s[k] || (s[k] == 0x2F && r[k] == 0x5C)
  {
    seq(|s|, i requires 0 <= i < |s| => Turned(s[i]))
  }

  /** cifs_write_oem: the converted string at the cursor, or nothing if it does not fit. `k` is the buffer. */
  method WriteOem(k: Buf, cp: Converter, src: seq<byte>) returns (res: nat)
    requires Sound(cp) && k.Valid() && k.p <= k.e
    modifies k`p, k.mem
    ensures k.Valid() && k.p == old(k.p) + res <= k.e
    ensures res == if |Full(cp, src)| <= old(k.e - k.p) then |Full(cp, src)| else 0
    ensures |Full(cp, src)| <= old(k.e - k.p) ==> k.mem[old(k.p)..k.p] == Full(cp, src)
    ensures |Full(cp, src)| < old(k.e - k.p) ==> k.mem[k.p] == 0
    ensures k.mem[..old(k.p)] == old(k.mem[..k.p]) && k.mem[k.e..] == old(k.mem[k.e..])
  {
    hide Full, Sound;
    var left := k.e - k.p;
    ghost var was := k.mem[..];
    var r := CpBuf(cp, k.mem, k.p, left, src);
    assert k.mem[..k.p] == k.mem[..][..k.p] && k.mem[k.e..] == k.mem[..][k.e..];
    assert was[..k.p] == old(k.mem[..k.p]) && was[k.e..] == old(k.mem[k.e..]);
    if r < 0 { return 0; }
    res := r;
    k.Inc(res);
  }

  /** The loop at lines 64-68: it runs to i == len, one unit past the text. */
  method TurnSlashes(mem: array<byte>, at: nat, len: nat)
    requires at + len < mem.Length
    modifies mem
    ensures forall j :: 0 <= j < mem.Length ==>
      mem[j] == if at <= j <= at + len then Turned(old(mem[j])) else old(mem[j])
  {
    var i := 0;
    while i <= len
      invariant i <= len + 1
      invariant forall j :: 0 <= j < mem.Length ==>
        mem[j] == if at <= j < at + i then Turned(old(mem[j])) else old(mem[j])
    {
      if mem[at + i] == SLASH {
        mem[at + i] := BACKSLASH;
      }
      i := i + 1;
    }
  }

  /** cifs_write_path_oem, which needs one unit behind the end mark. A path that fits is written with its
      slashes turned. Behind the end mark nothing changes but a slash right there, and that only if the path
      fills the buffer to the end. */
  method WritePathOem(k: Buf, cp: Converter, path: seq<byte>) returns (len: nat)
    requires Sound(cp) && k.Valid() && k.p <= k.e < k.mem.Length
    modifies k`p, k.mem
    ensures k.Valid() && k.p == old(k.p) + len <= k.e
    ensures len == if |Full(cp, path)| <= old(k.e - k.p) then |Full(cp, path)| else 0
    ensures |Full(cp, path)| <= old(k.e - k.p) ==> k.mem[old(k.p)..k.p] == AllTurned(Full(cp, path))
    ensures k.mem[..old(k.p)] == old(k.mem[..k.p])
    ensures k.mem[k.e + 1..] == old(k.mem[k.e + 1..])
    ensures k.mem[k.e] == if k.p == k.e then Turned(old(k.mem[k.e])) else old(k.mem[k.e])
  {
    hide Full, Sound;
    var p := k.p;
    ghost var was := k.mem[..];
    len := WriteOem(k, cp, path);
    ghost var mid := k.mem[..];
    SameBehind(was, mid, k.e);
    TurnSlashes(k.mem, p, len);
    assert k.mem[..p] == mid[..p];
  }

  lemma {:induction false} SameBehind(was: seq<byte>, now: seq<byte>, e: nat)
    requires e <= |was| == |now| && was[e..] == now[e..]
    ensures forall j :: e <= j < |was| ==> was[j] == now[j]
  {
    forall j | e <= j < |was| ensures was[j] == now[j] {
      assert was[e..][j - e] == now[e..][j - e];
    }
  }
}
