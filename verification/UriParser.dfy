/** uri.c as it works: decoding inside the string, and cutting it up by writing NULs over delimiters for a while. */
module UriParser {
  import opened Bytes
  import opened Uri

  /** The C string at buf + a is `s`. */
  ghost predicate Text(buf: seq<byte>, a: nat, s: seq<byte>) {
    a + |s| < |buf| && buf[a..a + |s|] == s && buf[a + |s|] == 0 && 0 !in s
  }

  lemma {:induction false} TextAt(buf: seq<byte>, a: nat, s: seq<byte>, k: nat)
    requires Text(buf, a, s) && k <= |s|
    ensures a + k < |buf| && buf[a + k] == if k < |s| then s[k] else 0
    ensures k < |s| ==> buf[a + k] != 0
  {
    assert k < |s| ==> buf[a..a + |s|][k] == s[k];
  }

  /** Behind position k the same text goes on. */
  lemma {:induction false} TextFrom(buf: seq<byte>, a: nat, s: seq<byte>, k: nat, b: nat)
    requires Text(buf, a, s) && k <= |s| && b == a + k
    ensures Text(buf, b, s[k..])
  {
    assert buf[b..b + |s[k..]|] == buf[a..a + |s|][k..];
  }

  /** Up to a NUL written over position k, the text before it. */
  lemma {:induction false} TextCut(buf: seq<byte>, a: nat, s: seq<byte>, k: nat, cut: seq<byte>)
    requires Text(buf, a, s) && k < |s| && |cut| == |buf| && cut == buf[a + k := 0]
    ensures Text(cut, a, s[..k])
  {
    assert cut[a..a + k] == buf[a..a + |s|][..k];
  }

  /** Decoding s[..i] gave `done`. */
  ghost predicate Decoded(s: seq<byte>, i: nat, done: seq<byte>) {
    i <= |s| && |done| <= i && done + Unescape(s[i..]) == Unescape(s)
  }

  lemma {:induction false} PlainStep(s: seq<byte>, i: nat, done: seq<byte>)
    requires Decoded(s, i, done) && i < |s| && s[i] != PERCENT
    ensures Decoded(s, i + 1, done + [s[i]])
  {
    assert s[i..][1..] == s[i + 1..];
    Regroup(done, [s[i]], Unescape(s[i + 1..]));
  }

  lemma {:induction false} EscapeStep(s: seq<byte>, i: nat, done: seq<byte>, c: byte)
    requires Decoded(s, i, done) && i + 2 < |s| && s[i] == PERCENT && c == 16 * HexToInt(s[i + 1]) + HexToInt(s[i + 2])
    ensures Decoded(s, i + 3, done + [c])
  {
    assert s[i..][3..] == s[i + 3..];
    Regroup(done, [c], Unescape(s[i + 3..]));
  }

  lemma {:induction false} DropStep(s: seq<byte>, i: nat, done: seq<byte>)
    requires Decoded(s, i, done) && i < |s| <= i + 2 && s[i] == PERCENT
    ensures Decoded(s, i + 1, done)
  {
    assert s[i..][1..] == s[i + 1..];
  }

  lemma {:induction false} DecodedAll(s: seq<byte>, i: nat, done: seq<byte>)
    requires Decoded(s, i, done) && i == |s|
    ensures Unescape(s) == done
  {
    assert s[i..] == [];
  }

  /** The array half-way: decoded text in front, untouched text behind. */
  ghost predicate Halfway(now: seq<byte>, was: seq<byte>, done: seq<byte>) {
    |now| == |was| && |done| <= |now| && now == done + was[|done|..]
  }

  /** *o++ = c */
  method Put(a: array<byte>, o: nat, c: byte, ghost was: seq<byte>, ghost done: seq<byte>)
    returns (next: nat, ghost more: seq<byte>)
    requires Halfway(a[..], was, done) && o == |done| < a.Length
    modifies a
    ensures more == done + [c] && next == |more| && Halfway(a[..], was, more)
  {
    a[o] := c;
    next, more := o + 1, done + [c];
    assert a[..] == more + was[|more|..];
  }

  /** The loop of cifs_uri_unescape half-way through the C string `s` at the front of `was`. */
  ghost predicate Reading(s: seq<byte>, was: seq<byte>, now: seq<byte>, i: nat, done: seq<byte>) {
    && |s| < |was| && was[..|s|] == s && was[|s|] == 0 && 0 !in s
    && Halfway(now, was, done) && Decoded(s, i, done)
  }

  /** What is still to be read is still there. */
  lemma {:induction false} Unread(s: seq<byte>, was: seq<byte>, now: seq<byte>, i: nat, done: seq<byte>, k: nat)
    requires Reading(s, was, now, i, done) && i <= k <= |s|
    ensures now[k] == if k < |s| then s[k] else 0
    ensures k < |s| ==> now[k] != 0
  {
    assert now[k] == was[k];
    assert k < |s| ==> was[..|s|][k] == s[k];
  }

  /** One turn of the loop, lines 13-27. */
  method DecodeOne(a: array<byte>, i: nat, o: nat, ghost s: seq<byte>, ghost was: seq<byte>, ghost done: seq<byte>)
    returns (i': nat, o': nat, ghost done': seq<byte>)
    requires Reading(s, was, a[..], i, done) && i < |s| && o == |done|
    modifies a
    ensures Reading(s, was, a[..], i', done') && i < i' <= |s| && o' == |done'|
  {
    i', o', done' := i + 1, o, done;
    Unread(s, was, a[..], i, done, i);
    Unread(s, was, a[..], i, done, i + 1);
    if a[i] != PERCENT {
      PlainStep(s, i, done);
      o', done' := Put(a, o, a[i], was, done);
    } else if a[i + 1] == 0 {
      DropStep(s, i, done);
    } else {
      Unread(s, was, a[..], i, done, i + 2);
      if a[i + 2] == 0 {
        DropStep(s, i, done);
      } else {
        var c := 16 * HexToInt(a[i + 1]) + HexToInt(a[i + 2]);
        EscapeStep(s, i, done, c);
        o', done' := Put(a, o, c, was, done);
        i' := i + 3;
      }
    }
  }

  lemma {:induction false} StartReading(s: seq<byte>, was: seq<byte>)
    requires 0 !in s && |s| < |was| && was[..|s|] == s && was[|s|] == 0
    ensures Reading(s, was, was, 0, [])
  {
    assert s[0..] == s;
  }

  lemma {:induction false} ReadAll(s: seq<byte>, was: seq<byte>, now: seq<byte>, i: nat, done: seq<byte>)
    requires Reading(s, was, now, i, done) && i == |s|
    ensures Unescape(s) == done && Halfway(now, was, done) && |done| < |now|
  {
    DecodedAll(s, i, done);
  }

  /** cifs_uri_unescape: the write position never passes the read position, so no character is overwritten before
      it is read; behind the new NUL nothing changes. */
  method UnescapeInPlace(a: array<byte>, ghost s: seq<byte>)
    requires 0 !in s && |s| < a.Length && a[..|s|] == s && a[|s|] == 0
    modifies a
    ensures a[..] == Unescape(s) + [0] + old(a[..])[|Unescape(s)| + 1..]
  {
    hide Reading, Halfway, Unescape;
    ghost var was := a[..];
    ghost var done: seq<byte> := [];
    var i, o := 0, 0;
    StartReading(s, was);
    Unread(s, was, a[..], i, done, i);
    while a[i] != 0
      invariant i <= |s| && o == |done| && Reading(s, was, a[..], i, done) && (a[i] != 0 <==> i < |s|)
      decreases |s| - i
    {
      i, o, done := DecodeOne(a, i, o, s, was, done);
      Unread(s, was, a[..], i, done, i);
    }
    ReadAll(s, was, a[..], i, done);
    Terminate(a, o, was, done);
  }

  /** *o = 0 */
  method Terminate(a: array<byte>, o: nat, ghost was: seq<byte>, ghost done: seq<byte>)
    requires Halfway(a[..], was, done) && o == |done| < a.Length
    modifies a
    ensures a[..] == done + [0] + was[|done| + 1..]
  {
    a[o] := 0;
    assert a[..] == done + [0] + was[|done| + 1..];
  }

  // ---------------------------------------------------------------- the C library, on the buffer

  method StrDup(buf: array<byte>, a: nat, ghost s: seq<byte>) returns (r: seq<byte>)
    requires Text(buf[..], a, s)
    ensures r == s
  {
    r := [];
    TextAt(buf[..], a, s, 0);
    var i := 0;
    while buf[a + i] != 0
      invariant i <= |s| && r == s[..i] && (buf[a + i] != 0 <==> i < |s|)
      decreases |s| - i
    {
      TextAt(buf[..], a, s, i);
      r := r + [buf[a + i]];
      i := i + 1;
      TextAt(buf[..], a, s, i);
    }
  }

  method StrNDup(buf: array<byte>, a: nat, n: nat, ghost s: seq<byte>) returns (r: seq<byte>)
    requires Text(buf[..], a, s) && n <= |s|
    ensures r == s[..n]
  {
    r := buf[a..a + n];
    assert r == buf[..][a..a + |s|][..n];
  }

  method StrChr(buf: array<byte>, a: nat, c: byte, ghost s: seq<byte>) returns (found: bool, at: nat)
    requires Text(buf[..], a, s) && c != 0
    ensures at == a + First(s, c) && (found <==> First(s, c) < |s|)
  {
    at := a;
    TextAt(buf[..], a, s, 0);
    while buf[at] != 0 && buf[at] != c
      invariant a <= at <= a + |s| && buf[at] == (if at < a + |s| then s[at - a] else 0)
      invariant forall k :: 0 <= k < at - a ==> s[k] != c
      decreases a + |s| - at
    {
      at := at + 1;
      TextAt(buf[..], a, s, at - a);
    }
    found := buf[at] == c;
  }

  method StrRChr(buf: array<byte>, a: nat, c: byte, ghost s: seq<byte>) returns (found: bool, at: nat)
    requires Text(buf[..], a, s) && c != 0
    ensures (found <==> Last(s, c) < |s|) && (found ==> at == a + Last(s, c))
  {
    found, at := false, a;
    var i := a;
    TextAt(buf[..], a, s, 0);
    while buf[i] != 0
      invariant a <= i <= a + |s| && (buf[i] != 0 <==> i < a + |s|)
      invariant !found ==> forall k :: 0 <= k < i - a ==> s[k] != c
      invariant found ==> a <= at < i && s[at - a] == c && forall k :: at - a < k < i - a ==> s[k] != c
      decreases a + |s| - i
    {
      TextAt(buf[..], a, s, i - a);
      if buf[i] == c { found, at := true, i; }
      i := i + 1;
      TextAt(buf[..], a, s, i - a);
    }
  }

  /** strndup from the i-th character on. */
  method StrBetween(buf: array<byte>, a: nat, i: nat, n: nat, ghost s: seq<byte>) returns (r: seq<byte>)
    requires Text(buf[..], a, s) && i + n <= |s|
    ensures r == s[i..i + n]
  {
    TextSlice(buf[..], a, s, i, n);
    r := buf[a + i..a + i + n];
    assert r == buf[..][a + i..a + i + n];
  }

  lemma {:induction false} TextSlice(buf: seq<byte>, a: nat, s: seq<byte>, i: nat, n: nat)
    requires Text(buf, a, s) && i + n <= |s|
    ensures a + i + n < |buf| && buf[a + i..a + i + n] == s[i..i + n]
  {
    SliceOfSlice(buf, a, a + |s|, i, i + n);
  }

  /** strdup from the i-th character on. */
  method StrBehind(buf: array<byte>, a: nat, i: nat, ghost s: seq<byte>) returns (r: seq<byte>)
    requires Text(buf[..], a, s) && i <= |s|
    ensures r == s[i..]
  {
    TextFrom(buf[..], a, s, i, a + i);
    r := StrDup(buf, a + i, s[i..]);
  }

  /** One character written. */
  method Poke(buf: array<byte>, at: nat, c: byte)
    requires at < buf.Length
    modifies buf
    ensures buf[..] == old(buf[..])[at := c]
  {
    buf[at] := c;
  }

  lemma {:induction false} PutBack(was: seq<byte>, at: nat, c: byte)
    requires at < |was| && was[at] == c
    ensures was[at := 0][at := c] == was
  {
  }

  /** The text, up to position k once a NUL stands there. */
  lemma {:induction false} TextWithNul(was: seq<byte>, a: nat, s: seq<byte>, k: nat, at: nat)
    requires Text(was, a, s) && k < |s| && at == a + k
    ensures at < |was| && was[at] == s[k] && Text(was[at := 0], a, s[..k])
  {
    TextAt(was, a, s, k);
    TextCut(was, a, s, k, was[at := 0]);
  }

  // ---------------------------------------------------------------- the parts, one after the other

  /** cifs_uri_t */
  class UriRecord {
    var scheme: Scheme
    var host: Option<seq<byte>>
    var user: Option<seq<byte>>
    var password: Option<seq<byte>>
    var addr: Option<seq<byte>>
    var port: int
    var tree: Option<seq<byte>>
    var path: seq<byte>
    var dir: seq<byte>
    var file: seq<byte>

    constructor ()
      ensures Value() == EMPTY
    {
      scheme, host, user, password, addr := File, None, None, None, None;
      port, tree, path, dir, file := 0, None, [], [], [];
    }

    function Value(): Parts
      reads this
    {
      Parts(scheme, host, user, password, addr, port, tree, path, dir, file)
    }

    /** Lines 74-80, on the text in front of the at sign. */
    method SetUser(buf: array<byte>, a: nat, ghost s: seq<byte>)
      requires Text(buf[..], a, s)
      modifies this
      ensures Value() == UserInfo(old(Value()), s)
    {
      hide Text, First;
      var found, co := StrChr(buf, a, COLON, s);
      if found {
        var t := StrNDup(buf, a, co - a, s);
        user := Some(t);
        t := StrBehind(buf, a, co - a + 1, s);
        password := Some(t);
      } else {
        var t := StrDup(buf, a, s);
        user := Some(t);
      }
    }

    /** Lines 84-94. */
    method SetHost(buf: array<byte>, a: nat, ghost s: seq<byte>)
      requires Text(buf[..], a, s)
      modifies this
      ensures Value() == HostPort(old(Value()), s)
    {
      var found, co := StrChr(buf, a, COLON, s);
      if found {
        var t := StrNDup(buf, a, co - a, s);
        host := Some(t);
        SetPort(buf, a, co, s);
      } else {
        var t := StrDup(buf, a, s);
        host := Some(t);
      }
    }

    /** Lines 87-91, the first colon at `co`. */
    method SetPort(buf: array<byte>, a: nat, co: nat, ghost s: seq<byte>)
      requires Text(buf[..], a, s) && First(s, COLON) < |s| && co == a + First(s, COLON)
      modifies `addr, `port
      ensures addr ==
        if First(s, COLON) != Last(s, COLON) then Some(s[First(s, COLON) + 1..Last(s, COLON)]) else old(addr)
      ensures port == Atoi(s[Last(s, COLON) + 1..])
    {
      hide Text, First, Last, Atoi;
      ghost var i, j := First(s, COLON), Last(s, COLON);
      var _, at := StrRChr(buf, a, COLON, s);
      assert i <= j < |s| && at == a + j;
      if co != at {
        var t := StrBetween(buf, a, co - a + 1, at - co - 1, s);
        addr := Some(t);
      }
      var t := StrBehind(buf, a, at - a + 1, s);
      port := Atoi(t);
    }

    /** Lines 113-121. */
    method SetPath(buf: array<byte>, a: nat, ghost s: seq<byte>)
      requires Text(buf[..], a, s)
      modifies this
      ensures Value() == PathParts(old(Value()), s)
    {
      hide Text, Last;
      path := StrDup(buf, a, s);
      var found, b := StrRChr(buf, a, SLASH, s);
      if found {
        file := StrBehind(buf, a, b - a + 1, s);
        dir := StrNDup(buf, a, b - a, s);
      } else {
        file := StrDup(buf, a, s);
        dir := [];
      }
    }

    /** Lines 73-94, on the text in front of the first slash; the at sign is a NUL for a while. */
    method SetAuthority(buf: array<byte>, a: nat, ghost s: seq<byte>)
      requires Text(buf[..], a, s)
      modifies this, buf
      ensures buf[..] == old(buf[..]) && Value() == Authority(old(Value()), s)
    {
      hide Text, First, UserInfo, HostPort;
      ghost var was := buf[..];
      var found, at := StrChr(buf, a, AT, s);
      if found {
        TextWithNul(was, a, s, at - a, at);
        Poke(buf, at, 0);
        SetUser(buf, a, s[..at - a]);
        Poke(buf, at, AT);
        PutBack(was, at, AT);
        TextFrom(was, a, s, at - a + 1, at + 1);
        SetHost(buf, at + 1, s[at - a + 1..]);
      } else {
        SetHost(buf, a, s);
      }
    }

    /** Lines 103-121. */
    method SetTreePath(buf: array<byte>, a: nat, ghost s: seq<byte>)
      requires Text(buf[..], a, s)
      modifies this
      ensures Value() == TreePath(old(Value()), s)
    {
      hide Text, First, PathParts;
      TextAt(buf[..], a, s, 0);
      assert a < buf.Length;
      var b := a;
      if buf[a] != 0 && scheme == Cifs {
        var found;
        found, b := StrChr(buf, a, SLASH, s);
        if found {
          var t := StrNDup(buf, a, b - a, s);
          tree := Some(t);
          b := b + 1;
        } else {
          var t := StrDup(buf, a, s);
          tree := Some(t);
        }
      }
      TextFrom(buf[..], a, s, b - a, b);
      SetPath(buf, b, s[b - a..]);
    }

    /** Lines 69-100; the first slash is a NUL while the host part is read. */
    method SetHostPart(buf: array<byte>, a: nat, ghost s: seq<byte>) returns (next: nat)
      requires Text(buf[..], a, s)
      modifies this, buf
      ensures buf[..] == old(buf[..]) && Value() == Authority(old(Value()), s[..First(s, SLASH)])
      ensures next == a + if First(s, SLASH) < |s| then First(s, SLASH) + 1 else |s|
    {
      hide Text, First, Authority;
      ghost var was := buf[..];
      var found, b := StrChr(buf, a, SLASH, s);
      if found {
        TextWithNul(was, a, s, b - a, b);
        Poke(buf, b, 0);
        SetAuthority(buf, a, s[..b - a]);
        Poke(buf, b, SLASH);
        PutBack(was, b, SLASH);
        next := b + 1;
      } else {
        assert s[..|s|] == s;
        SetAuthority(buf, a, s);
        next := b;
      }
    }

    /** Lines 66-121. */
    method SetAll(buf: array<byte>, a: nat, ghost s: seq<byte>)
      requires Text(buf[..], a, s) && Value() == EMPTY.(scheme := Cifs)
      modifies this, buf
      ensures Value() == HostTreePath(s)
    {
      var next := SetHostPart(buf, a, s);
      TextFrom(buf[..], a, s, next - a, next);
      ghost var rest := if First(s, SLASH) < |s| then s[First(s, SLASH) + 1..] else [];
      assert rest == s[next - a..];
      SetTreePath(buf, next, rest);
    }
  }

  // ---------------------------------------------------------------- the whole

  /** Lines 45-48: every backslash becomes a slash. */
  method SlashAll(buf: array<byte>, ghost t: seq<byte>)
    requires Text(buf[..], 0, t)
    modifies buf
    ensures Text(buf[..], 0, Slashes(t))
  {
    var b := 0;
    ghost var cur: seq<byte> := t;
    while true
      invariant Text(buf[..], 0, cur) && |cur| == |t| && b <= |t|
      invariant forall k :: 0 <= k < |t| ==> cur[k] == if k < b && t[k] == BACKSLASH then SLASH else t[k]
      decreases |t| - b
    {
      TextFrom(buf[..], 0, cur, b, b);
      ghost var rest := cur[b..];
      var found, at := StrChr(buf, b, BACKSLASH, rest);
      assert forall k :: b <= k < at ==> cur[k] == rest[k - b];
      if !found { break; }
      ghost var was := buf[..];
      buf[at] := SLASH;
      TextPut(was, cur, at, SLASH, buf[..]);
      cur := cur[at := SLASH];
      b := at + 1;
    }
    assert cur == Slashes(t);
  }

  lemma {:induction false} TextPut(was: seq<byte>, s: seq<byte>, k: nat, c: byte, now: seq<byte>)
    requires Text(was, 0, s) && k < |s| && c != 0 && |now| == |was| && now == was[k := c]
    ensures Text(now, 0, s[k := c])
  {
    assert now[0..|s|] == was[0..|s|][k := c];
  }

  /** strstr(a, "://") */
  method StrStr(buf: array<byte>, ghost t: seq<byte>) returns (found: bool, at: nat)
    requires Text(buf[..], 0, t)
    ensures at == FirstSeparator(t) && (found <==> at < |t|)
  {
    at, found := 0, false;
    TextAt(buf[..], 0, t, 0);
    while buf[at] != 0
      invariant at <= |t| && (buf[at] != 0 <==> at < |t|)
      invariant forall k: nat :: k < at ==> !SeparatorAt(t, k)
      decreases |t| - at
    {
      found := IsSeparator(buf, at, t);
      if found { return; }
      at := at + 1;
      TextAt(buf[..], 0, t, at);
    }
  }

  method IsSeparator(buf: array<byte>, at: nat, ghost t: seq<byte>) returns (r: bool)
    requires Text(buf[..], 0, t) && at < |t|
    ensures r == SeparatorAt(t, at)
  {
    TextAt(buf[..], 0, t, at);
    TextAt(buf[..], 0, t, at + 1);
    if buf[at] != COLON || buf[at + 1] != SLASH { return false; }
    TextAt(buf[..], 0, t, at + 2);
    return buf[at + 2] == SLASH;
  }

  /** Lines 33-41: a copy of the string, decoded. */
  method Decode(str: seq<byte>) returns (buf: array<byte>)
    requires 0 !in str
    ensures fresh(buf) && Text(buf[..], 0, CStr(Unescape(str)))
  {
    buf := new byte[|str| + 1];
    forall k | 0 <= k < |str| {
      buf[k] := str[k];
    }
    buf[|str|] := 0;
    assert buf[..|str|] == str;
    UnescapeInPlace(buf, str);
    ghost var u, t := Unescape(str), CStr(Unescape(str));
    assert buf[..][0..|t|] == u[..|t|];
    assert buf[|t|] == 0;
  }

  /** Lines 51-63. */
  method NamedScheme(buf: array<byte>, ghost t: seq<byte>)
    returns (ok: bool, scheme: Scheme, a: nat, ghost s: seq<byte>)
    requires Text(buf[..], 0, t) && !(|t| >= 2 && t[0] == BACKSLASH && t[1] == BACKSLASH)
    ensures SplitScheme(t) == if ok then Some((scheme, s)) else None
    ensures ok ==> Text(buf[..], a, s)
  {
    var found, b := StrStr(buf, t);
    if !found { return true, File, 0, t; }
    var word := buf[..b];
    assert word == t[..b] by { assert word == buf[..][0..|t|][..b]; }
    TextFrom(buf[..], 0, t, b + 3, b + 3);
    a, s := b + 3, t[b + 3..];
    if word <= FILE_NAME {
      ok, scheme := true, File;
    } else if word <= CIFS_NAME || word <= SMB_NAME {
      ok, scheme := true, Cifs;
    } else {
      ok, scheme := false, File;
    }
  }

  /** Lines 41-64. */
  method FindScheme(buf: array<byte>, ghost t: seq<byte>) returns (ok: bool, scheme: Scheme, a: nat, ghost s: seq<byte>)
    requires Text(buf[..], 0, t)
    modifies buf
    ensures SplitScheme(t) == if ok then Some((scheme, s)) else None
    ensures ok ==> Text(buf[..], a, s)
  {
    TextAt(buf[..], 0, t, 0);
    var unc := buf[0] == BACKSLASH;
    if unc {
      TextAt(buf[..], 0, t, 1);
      unc := buf[1] == BACKSLASH;
    }
    if unc {
      SlashAll(buf, t);
      TextFrom(buf[..], 0, Slashes(t), 2, 2);
      return true, Cifs, 2, Slashes(t)[2..];
    }
    ok, scheme, a, s := NamedScheme(buf, t);
  }

  /** cifs_uri_parse: the parts of the decoded text, or NULL for a scheme it does not know. */
  method Parse(str: seq<byte>) returns (uri: UriRecord?)
    requires 0 !in str
    ensures uri != null <==> Uri.Parse(str).Some?
    ensures uri != null ==> uri.Value() == Uri.Parse(str).value
  {
    var buf := Decode(str);
    var u := new UriRecord();
    var ok, scheme, a;
    ghost var s;
    ok, scheme, a, s := FindScheme(buf, CStr(Unescape(str)));
    if !ok { return null; }
    u.scheme := scheme;
    if scheme != File {
      u.SetAll(buf, a, s);
    } else {
      u.SetTreePath(buf, a, s);
    }
    return u;
  }
}
