/** cifs_scandir: a whole directory collected into an array that doubles as it fills. */
module Scandir {
  import opened Bytes
  import opened Find
  import Codepage

  /** A copy of the shared directory entry with its own path; `nameAt` is where the name starts in it. */
  class Dirent {
    const st: Stat
    const path: seq<byte>
    const nameAt: nat

    constructor (st: Stat, path: seq<byte>, nameAt: nat)
      ensures this.st == st && this.path == path && this.nameAt == nameAt
    {
      this.st, this.path, this.nameAt := st, path, nameAt;
    }

    /** The copy stands for the entry `e` of the directory `dir`. */
    ghost predicate Copies(dir: seq<byte>, e: Entry) {
      st == e.st && path == dir + [SLASH] + e.name && nameAt <= |path| && path[nameAt..] == e.name
    }
  }

  ghost predicate Collected(nl: seq<Dirent?>, dir: seq<byte>, es: seq<Entry>) {
    |es| <= |nl| && forall i :: 0 <= i < |es| ==> nl[i] != null && nl[i].Copies(dir, es[i])
  }

  lemma {:induction false} CollectedMore(was: seq<Dirent?>, now: seq<Dirent?>, dir: seq<byte>, es: seq<Entry>, e: Entry)
    requires Collected(was, dir, es) && |es| < |now| && now[..|es|] == was[..|es|]
    requires now[|es|] != null && now[|es|].Copies(dir, e)
    ensures Collected(now, dir, es + [e])
  {
    hide Dirent.Copies;
    forall i | 0 <= i < |es| ensures now[i] != null && now[i].Copies(dir, es[i]) {
      assert now[i] == now[..|es|][i] == was[i];
    }
  }

  method Grow(nl: array<Dirent?>, size: nat) returns (r: array<Dirent?>)
    ensures fresh(r) && r.Length == size
    ensures forall k :: 0 <= k < size && k < nl.Length ==> r[k] == nl[k]
  {
    r := new Dirent?[size](_ => null);
    forall k | 0 <= k < size && k < nl.Length {
      r[k] := nl[k];
    }
  }

  /** Lines 226-230: the entry's path is copied, and the name pointer set at the same distance into the copy. */
  method Copy(d: Dir) returns (e: Dirent)
    requires d.Valid() && d.Path() == d.dir + [SLASH] + d.Name()
    ensures fresh(e) && e.Copies(d.dir, Entry(d.st, d.Name()))
  {
    e := new Dirent(d.st, d.Path(), d.nameAt);
    assert (d.dir + [SLASH] + d.Name())[d.nameAt..] == d.Name();
  }

  /** Lines 222-231: one more entry, in twice the room if the array is full. */
  method Append(d: Dir, nl: array<Dirent?>, cnt: nat, ghost done: seq<Entry>) returns (r: array<Dirent?>)
    requires d.Valid() && d.Path() == d.dir + [SLASH] + d.Name() && nl.Length > 0
    requires cnt == |done| <= nl.Length && Collected(nl[..], d.dir, done)
    modifies nl
    ensures (r == nl || fresh(r)) && cnt + 1 <= r.Length && Collected(r[..], d.dir, done + [Entry(d.st, d.Name())])
  {
    hide Collected, Names, Chain, Replies, Dirent.Copies;
    ghost var was := nl[..];
    r := nl;
    if cnt == nl.Length {
      r := Grow(nl, 2 * nl.Length);
    }
    var tmp := Copy(d);
    r[cnt] := tmp;
    CollectedMore(was, r[..], d.dir, done, Entry(d.st, d.Name()));
  }

  /** Line 234: cut to size, with a NULL at the end. */
  method Finish(nl: array<Dirent?>, cnt: nat, ghost dir: seq<byte>, ghost es: seq<Entry>) returns (r: array<Dirent?>)
    requires cnt == |es| <= nl.Length && Collected(nl[..], dir, es)
    ensures fresh(r) && r.Length == |es| + 1 && r[|es|] == null && Collected(r[..], dir, es)
  {
    r := Grow(nl, cnt + 1);
    r[cnt] := null;
  }

  /** One turn of the loop at lines 221-232: reads on, and appends what was found. */
  method Take(d: Dir, nl: array<Dirent?>, cnt: nat, ghost done: seq<Entry>)
    returns (found: bool, r: array<Dirent?>, ghost now: seq<Entry>)
    requires d.Valid() && nl.Length > 0 && cnt == |done| <= nl.Length && Collected(nl[..], d.dir, done)
    modifies d, d.path, nl
    ensures d.Valid() && (r == nl || fresh(r)) && r.Length > 0
    ensures |now| == (if found then cnt + 1 else cnt) <= r.Length && Collected(r[..], d.dir, now)
    ensures now + (if found then Shown(d.Remaining()) else []) == done + old(Shown(d.Remaining()))
  {
    r, now := nl, done;
    found := d.Readdir();
    if found {
      ghost var e, rest := Entry(d.st, d.Name()), Shown(d.Remaining());
      r := Append(d, nl, cnt, done);
      now := done + [e];
      Regroup(done, [e], rest);
    }
  }

  lemma {:induction false} NothingCollected(nl: seq<Dirent?>, dir: seq<byte>)
    ensures Collected(nl, dir, [])
  {
  }

  /** Everything cifs_readdir would return, in order, and a NULL behind it. */
  method Scandir(d: Dir) returns (nl: array<Dirent?>)
    requires d.Valid()
    modifies d, d.path
    ensures fresh(nl) && nl.Length == |Shown(old(d.Remaining()))| + 1 && nl[nl.Length - 1] == null
    ensures Collected(nl[..], d.dir, Shown(old(d.Remaining())))
  {
    hide Collected, Names, Codepage.Sound, Chain, Entries, Later, Replies, Shown;
    var cnt := 0;
    nl := new Dirent?[16](_ => null);
    ghost var all := Shown(d.Remaining());
    ghost var done: seq<Entry> := [];
    NothingCollected(nl[..], d.dir);
    var found := true;
    while found
      invariant d.Valid() && fresh(nl) && 0 < nl.Length && cnt == |done| <= nl.Length
      invariant Collected(nl[..], d.dir, done)
      invariant all == done + (if found then Shown(d.Remaining()) else [])
      decreases found, |all| - |done|
    {
      found, nl, done := Take(d, nl, cnt, done);
      if found {
        cnt := cnt + 1;
      }
    }
    assert done == all;
    nl := Finish(nl, cnt, d.dir, all);
  }
}
