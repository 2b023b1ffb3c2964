/** What a client that calls cifs_readdir to the end sees of a listing that a server cut into pages. */
module Listing {
  import opened Bytes
  import opened Find

  // ---------------------------------------------------------------- the server's side

  /** A directory record on the wire: the fixed part, the raw name, and padding up to the next record. */
  datatype Rec = Rec(head: seq<byte>, name: seq<byte>, pad: seq<byte>) {
    function Bytes(): seq<byte> { head + name + pad }

    /** The fixed part tells the name's length, and how far the next record is; the last one says 0. */
    predicate Valid(last: bool) {
      && |head| == RECORD_SIZE && Le32(head, 60) == |name|
      && NextOffset(head, 0) == if last then 0 else |Bytes()|
    }
  }

  function Pack(rs: seq<Rec>): seq<byte> {
    if rs == [] then [] else rs[0].Bytes() + Pack(rs[1..])
  }

  predicate Packable(names: Namer, rs: seq<Rec>) {
    rs == [] || (rs[0].Valid(|rs| == 1) && names(rs[0].name).Some? && Packable(names, rs[1..]))
  }

  /** The entry a record stands for. */
  function EntryOf(names: Namer, r: Rec): Entry
    requires |r.head| == RECORD_SIZE && names(r.name).Some?
  {
    Entry(StatAt(r.head, 0), names(r.name).value)
  }

  function EntriesOf(names: Namer, rs: seq<Rec>): (es: seq<Entry>)
    requires AllRead(names, rs)
    ensures |es| == |rs|
  {
    if rs == [] then [] else [EntryOf(names, rs[0])] + EntriesOf(names, rs[1..])
  }

  predicate AllRead(names: Namer, rs: seq<Rec>) {
    forall i :: 0 <= i < |rs| ==> |rs[i].head| == RECORD_SIZE && names(rs[i].name).Some?
  }

  /** The reply brings the page: how many records, whether they are the last, and a block that begins with
      them. What lies behind them in the block is anything. */
  predicate Answer(r: Reply, rs: seq<Rec>, last: bool) {
    r.Page? && r.count == |rs| && r.end == last && Pack(rs) <= r.block
  }

  predicate Answers(replies: seq<Reply>, pages: seq<seq<Rec>>)
    decreases |pages|
  {
    |replies| == |pages| &&
    (pages == [] || (Answer(replies[0], pages[0], |pages| == 1) && Answers(replies[1..], pages[1..])))
  }

  // ---------------------------------------------------------------- the fixed part

  function PackHead(next: nat, index: nat, st: Stat, nameLength: nat): (s: seq<byte>)
    ensures |s| == RECORD_SIZE
  {
    PutLe32(next) + PutLe32(index)
    + PutLe64(st.creationTime) + PutLe64(st.accessTime) + PutLe64(st.writeTime) + PutLe64(st.changeTime)
    + PutLe64(st.fileSize) + PutLe64(st.allocationSize) + PutLe32(st.attributes) + PutLe32(nameLength)
  }

  predicate Fits32(v: nat) { v < 0x1_0000_0000 }

  predicate Fits64(v: nat) { v < 0x1_0000_0000_0000_0000 }

  lemma {:induction false} HeadSlices(next: nat, index: nat, st: Stat, nameLength: nat)
    ensures var s := PackHead(next, index, st, nameLength);
      && s[0..4] == PutLe32(next) && s[56..60] == PutLe32(st.attributes) && s[60..64] == PutLe32(nameLength)
      && s[8..16] == PutLe64(st.creationTime) && s[16..24] == PutLe64(st.accessTime)
      && s[24..32] == PutLe64(st.writeTime) && s[32..40] == PutLe64(st.changeTime)
      && s[40..48] == PutLe64(st.fileSize) && s[48..56] == PutLe64(st.allocationSize)
  {
  }

  /** Every field packed in its place is read back, so every valid record can be built. */
  lemma {:induction false} HeadReads(next: nat, index: nat, st: Stat, nameLength: nat)
    requires Fits32(next) && Fits32(st.attributes) && Fits32(nameLength)
    requires Fits64(st.creationTime) && Fits64(st.accessTime) && Fits64(st.writeTime) && Fits64(st.changeTime)
    requires Fits64(st.fileSize) && Fits64(st.allocationSize)
    ensures var s := PackHead(next, index, st, nameLength);
      StatAt(s, 0) == st && NextOffset(s, 0) == next && Le32(s, 60) == nameLength
  {
    var s := PackHead(next, index, st, nameLength);
    HeadSlices(next, index, st, nameLength);
    Le32Shift(s, PutLe32(next), 0);
    Le64Shift(s, PutLe64(st.creationTime), 8);
    Le64Shift(s, PutLe64(st.accessTime), 16);
    Le64Shift(s, PutLe64(st.writeTime), 24);
    Le64Shift(s, PutLe64(st.changeTime), 32);
    Le64Shift(s, PutLe64(st.fileSize), 40);
    Le64Shift(s, PutLe64(st.allocationSize), 48);
    Le32Shift(s, PutLe32(st.attributes), 56);
    Le32Shift(s, PutLe32(nameLength), 60);
  }

  // ---------------------------------------------------------------- one page

  /** The fixed part reads the same in a block as alone. */
  lemma {:induction false} HeadInBlock(head: seq<byte>, block: seq<byte>, at: nat)
    requires |head| == RECORD_SIZE && at + RECORD_SIZE <= |block| && block[at..at + RECORD_SIZE] == head
    ensures StatAt(block, at) == StatAt(head, 0) && NextOffset(block, at) == NextOffset(head, 0)
    ensures Le32(block, at + 60) == Le32(head, 60)
  {
    forall k | 0 <= k < RECORD_SIZE ensures head[k] == block[at + k] {
      assert block[at..at + RECORD_SIZE][k] == block[at + k];
    }
  }

  /** A record followed by anything, wherever it lies in a block. */
  lemma {:induction false} RecordReads(names: Namer, r: Rec, last: bool, block: seq<byte>, at: nat, tail: seq<byte>)
    requires r.Valid(last) && names(r.name).Some?
    requires at <= |block| && block[at..] == r.Bytes() + tail
    ensures Readable(names, block, at) && EntryAt(names, block, at) == EntryOf(names, r)
    ensures NextOffset(block, at) == if last then 0 else |r.Bytes()|
    ensures at + |r.Bytes()| <= |block| && block[at + |r.Bytes()|..] == tail
  {
    assert block[at..at + RECORD_SIZE] == block[at..][..RECORD_SIZE] == r.head;
    HeadInBlock(r.head, block, at);
    assert RawName(block, at) == block[at..][RECORD_SIZE..RECORD_SIZE + |r.name|] == r.name;
  }

  lemma {:induction false} ChainStep(names: Namer, block: seq<byte>, at: nat, n: nat, pos: nat, m: nat)
    requires n > 0 && Readable(names, block, at) && pos == at + NextOffset(block, at) && m == n - 1
    requires Chain(names, block, pos, m)
    ensures Chain(names, block, at, n)
    ensures Entries(names, block, at, n) == [EntryAt(names, block, at)] + Entries(names, block, pos, m)
  {
  }

  lemma {:induction false} FirstRecord(rs: seq<Rec>, s: seq<byte>)
    requires rs != [] && Pack(rs) <= s
    ensures rs[0].Bytes() <= s && s == rs[0].Bytes() + s[|rs[0].Bytes()|..] && Pack(rs[1..]) <= s[|rs[0].Bytes()|..]
  {
    var n := |rs[0].Bytes()|;
    assert Pack(rs)[..n] == rs[0].Bytes() && Pack(rs)[n..] == Pack(rs[1..]);
    assert s[..n] == Pack(rs)[..n];
    assert s[n..][..|Pack(rs[1..])|] == s[..|Pack(rs)|][n..];
  }

  lemma {:induction false} SendableRead(names: Namer, rs: seq<Rec>)
    requires Packable(names, rs)
    ensures AllRead(names, rs)
  {
    if rs != [] {
      SendableRead(names, rs[1..]);
      forall i | 0 <= i < |rs| ensures |rs[i].head| == RECORD_SIZE && names(rs[i].name).Some? {
        assert i > 0 ==> rs[i] == rs[1..][i - 1];
      }
    }
  }

  /** Following the chain of a page gives its records, converted, in order, whatever lies behind them. */
  lemma {:induction false} PageReads(names: Namer, rs: seq<Rec>, block: seq<byte>, at: nat)
    requires Packable(names, rs) && at <= |block| && Pack(rs) <= block[at..]
    ensures AllRead(names, rs) && Chain(names, block, at, |rs|)
    ensures Entries(names, block, at, |rs|) == EntriesOf(names, rs)
    decreases |rs|
  {
    hide AllRead, Readable, EntryAt, EntryOf, Rec.Bytes, Rec.Valid;
    SendableRead(names, rs);
    if rs != [] {
      var n, rest := |rs[0].Bytes()|, rs[1..];
      FirstRecord(rs, block[at..]);
      hide Pack;
      RecordReads(names, rs[0], |rs| == 1, block, at, block[at..][n..]);
      if rest == [] {
        ChainStep(names, block, at, 1, at, 0);
      } else {
        var pos := at + n;
        assert block[pos..] == block[at..][n..];
        PageReads(names, rest, block, pos);
        ChainStep(names, block, at, |rs|, pos, |rest|);
      }
    }
  }

  // ---------------------------------------------------------------- all pages

  /** The pages a client gets to see behind the first: it stops at one without entries. */
  function UntilEmpty(pages: seq<seq<Rec>>): seq<seq<Rec>> {
    if pages == [] || pages[0] == [] then [] else [pages[0]] + UntilEmpty(pages[1..])
  }

  predicate AllPackable(names: Namer, pages: seq<seq<Rec>>)
  {
    forall rs :: rs in pages ==> Packable(names, rs)
  }

  lemma {:induction false} EntriesAppend(names: Namer, rs: seq<Rec>, qs: seq<Rec>)
    requires AllRead(names, rs) && AllRead(names, qs)
    ensures AllRead(names, rs + qs) && EntriesOf(names, rs + qs) == EntriesOf(names, rs) + EntriesOf(names, qs)
  {
    hide EntryOf;
    if rs == [] {
      assert rs + qs == qs;
    } else {
      EntriesAppend(names, rs[1..], qs);
      assert (rs + qs)[0] == rs[0] && (rs + qs)[1..] == rs[1..] + qs;
      Regroup([EntryOf(names, rs[0])], EntriesOf(names, rs[1..]), EntriesOf(names, qs));
    }
  }

  lemma {:induction false} AnswerReads(names: Namer, r: Reply, rs: seq<Rec>, last: bool)
    requires Packable(names, rs) && Answer(r, rs, last)
    ensures AllRead(names, rs) && Chain(names, r.block, 0, r.count)
    ensures Entries(names, r.block, 0, r.count) == EntriesOf(names, rs)
  {
    assert r.block[0..] == r.block;
    PageReads(names, rs, r.block, 0);
  }

  lemma {:induction false} RepliesReadable(names: Namer, pages: seq<seq<Rec>>, replies: seq<Reply>)
    requires AllPackable(names, pages) && Answers(replies, pages)
    ensures Replies(names, replies)
    decreases |pages|
  {
    if pages != [] {
      assert pages[0] in pages;
      AnswerReads(names, replies[0], pages[0], |pages| == 1);
      RepliesReadable(names, pages[1..], replies[1..]);
      assert forall r :: r in replies <==> r == replies[0] || r in replies[1..];
    }
  }

  lemma {:induction false} LaterPages(names: Namer, pages: seq<seq<Rec>>, replies: seq<Reply>)
    requires AllPackable(names, pages) && Answers(replies, pages)
    ensures Replies(names, replies) && AllRead(names, Concat(UntilEmpty(pages)))
    ensures Later(names, pages == [], replies) == EntriesOf(names, Concat(UntilEmpty(pages)))
    decreases |pages|
  {
    hide Packable, Readable, EntryAt, EntryOf, Pack;
    RepliesReadable(names, pages, replies);
    if pages != [] && pages[0] != [] {
      assert pages[0] in pages;
      AnswerReads(names, replies[0], pages[0], |pages| == 1);
      LaterPages(names, pages[1..], replies[1..]);
      EntriesAppend(names, pages[0], Concat(UntilEmpty(pages[1..])));
      assert replies[0] in replies;
    }
  }

  /** No page without entries stands before one with entries. */
  predicate NoHole(pages: seq<seq<Rec>>) {
    forall i :: 0 <= i < |pages| && pages[i] == [] ==> Concat(pages[i..]) == []
  }

  /** A page with entries in front makes no difference. */
  lemma {:induction false} NoHoleStep(pages: seq<seq<Rec>>)
    requires pages != [] && pages[0] != []
    ensures NoHole(pages) <==> NoHole(pages[1..])
  {
    var rest := pages[1..];
    if NoHole(pages) {
      forall i | 0 <= i < |rest| && rest[i] == [] ensures Concat(rest[i..]) == [] {
        assert pages[i + 1] == [] && pages[i + 1..] == rest[i..];
      }
    }
    if NoHole(rest) {
      forall i | 0 <= i < |pages| && pages[i] == [] ensures Concat(pages[i..]) == [] {
        assert rest[i - 1] == [] && rest[i - 1..] == pages[i..];
      }
    }
  }

  lemma {:induction false} UntilEmptyIsAll(pages: seq<seq<Rec>>)
    ensures NoHole(pages) ==> Concat(UntilEmpty(pages)) == Concat(pages)
    ensures |Concat(UntilEmpty(pages))| == |Concat(pages)| ==> NoHole(pages)
    ensures |Concat(UntilEmpty(pages))| <= |Concat(pages)|
  {
    if pages == [] {
    } else if pages[0] == [] {
      assert pages[0..] == pages;
      if Concat(pages) == [] {
        EmptyTails(pages);
      }
    } else {
      NoHoleStep(pages);
      UntilEmptyIsAll(pages[1..]);
    }
  }

  lemma {:induction false} EmptyTails(pages: seq<seq<Rec>>)
    requires Concat(pages) == []
    ensures forall i :: 0 <= i < |pages| ==> Concat(pages[i..]) == []
  {
    if pages != [] {
      EmptyTails(pages[1..]);
      assert pages[0..] == pages;
      forall i | 1 <= i < |pages| ensures Concat(pages[i..]) == [] {
        assert pages[i..] == pages[1..][i - 1..];
      }
    }
  }

  /** All pages of a listing, the first one included, read to the end by one client. */
  function WholeListing(names: Namer, replies: seq<Reply>): seq<Entry>
    requires replies != [] && replies[0].Page? && Chain(names, replies[0].block, 0, replies[0].count)
    requires Replies(names, replies[1..])
  {
    Entries(names, replies[0].block, 0, replies[0].count) + Later(names, replies[0].end, replies[1..])
  }

  // ---------------------------------------------------------------- what readdir shows of it

  predicate IsDotsRec(names: Namer, r: Rec) {
    |r.head| == RECORD_SIZE && names(r.name).Some? && IsDots(EntryOf(names, r))
  }

  predicate NoneButDots(names: Namer, rs: seq<Rec>) {
    forall r :: r in rs ==> IsDotsRec(names, r)
  }

  /** Behind a page without entries stand at most the entries "." and "..". */
  predicate NothingHidden(names: Namer, pages: seq<seq<Rec>>) {
    forall i :: 0 <= i < |pages| && pages[i] == [] ==> NoneButDots(names, Concat(pages[i..]))
  }

  /** The records from the first empty page on. */
  function Behind(pages: seq<seq<Rec>>): seq<Rec> {
    if pages == [] then [] else if pages[0] == [] then Concat(pages) else Behind(pages[1..])
  }

  lemma {:induction false} SeenAndBehind(pages: seq<seq<Rec>>)
    ensures Concat(pages) == Concat(UntilEmpty(pages)) + Behind(pages)
  {
    if pages != [] && pages[0] != [] {
      SeenAndBehind(pages[1..]);
      assert UntilEmpty(pages)[1..] == UntilEmpty(pages[1..]);
      Regroup(pages[0], Concat(UntilEmpty(pages[1..])), Behind(pages[1..]));
    }
  }

  lemma {:induction false} TailInConcat(pages: seq<seq<Rec>>, i: nat, r: Rec)
    requires i <= |pages| && r in Concat(pages[i..])
    ensures r in Concat(pages)
  {
    if i == 0 {
      assert pages[0..] == pages;
    } else {
      assert pages[i..] == pages[1..][i - 1..];
      TailInConcat(pages[1..], i - 1, r);
    }
  }

  lemma {:induction false} NothingHiddenStep(names: Namer, pages: seq<seq<Rec>>)
    requires pages != [] && pages[0] != []
    ensures NothingHidden(names, pages) <==> NothingHidden(names, pages[1..])
  {
    hide NoneButDots;
    var rest := pages[1..];
    if NothingHidden(names, pages) {
      forall i | 0 <= i < |rest| && rest[i] == [] ensures NoneButDots(names, Concat(rest[i..])) {
        assert pages[i + 1] == [] && pages[i + 1..] == rest[i..];
      }
    }
    if NothingHidden(names, rest) {
      forall i | 0 <= i < |pages| && pages[i] == [] ensures NoneButDots(names, Concat(pages[i..])) {
        assert rest[i - 1] == [] && rest[i - 1..] == pages[i..];
      }
    }
  }

  /** What is hidden is what stands behind the first empty page. */
  lemma {:induction false} HiddenIsBehind(names: Namer, pages: seq<seq<Rec>>)
    ensures NothingHidden(names, pages) <==> NoneButDots(names, Behind(pages))
  {
    if pages == [] {
    } else if pages[0] == [] {
      assert pages[0..] == pages;
      forall i: nat, r | i < |pages| && r in Concat(pages[i..]) ensures r in Concat(pages) {
        TailInConcat(pages, i, r);
      }
    } else {
      NothingHiddenStep(names, pages);
      HiddenIsBehind(names, pages[1..]);
    }
  }

  lemma {:induction false} ShownAppend(es: seq<Entry>, fs: seq<Entry>)
    ensures Shown(es + fs) == Shown(es) + Shown(fs)
  {
    hide IsDots;
    if es == [] {
      assert es + fs == fs;
    } else {
      ShownAppend(es[1..], fs);
      Regroup([es[0]], es[1..], fs);
      ShownStep(es + fs, es[0], es[1..] + fs);
      Regroup([es[0]], Shown(es[1..]), Shown(fs));
    }
  }

  /** Every entry is shown as often as it is listed, save a directory called "." or "..", which is not shown. */
  lemma {:induction false} ShownExactly(es: seq<Entry>, e: Entry)
    ensures multiset(Shown(es))[e] ==
      if e.st.attributes / 16 % 2 == 1 && (e.name == [0x2E] || e.name == [0x2E, 0x2E]) then 0 else multiset(es)[e]
  {
    if es != [] {
      ShownExactly(es[1..], e);
      assert es == [es[0]] + es[1..];
    }
  }

  /** Those shown stay in order: each comes right behind what is shown of the entries in front of it. */
  lemma {:induction false} ShownInPlace(es: seq<Entry>, i: nat)
    requires i < |es|
    requires !(es[i].st.attributes / 16 % 2 == 1 && (es[i].name == [0x2E] || es[i].name == [0x2E, 0x2E]))
    ensures |Shown(es[..i])| < |Shown(es)| && Shown(es)[|Shown(es[..i])|] == es[i]
  {
    ShownAppend(es[..i], es[i..]);
    assert es == es[..i] + es[i..] && es[i..][0] == es[i];
  }

  lemma {:induction false} NothingShown(names: Namer, rs: seq<Rec>)
    requires AllRead(names, rs)
    ensures Shown(EntriesOf(names, rs)) == [] <==> NoneButDots(names, rs)
  {
    hide IsDots, EntryOf;
    if rs != [] {
      assert AllRead(names, rs[1..]);
      NothingShown(names, rs[1..]);
      NoneButDotsStep(names, rs);
      hide NoneButDots;
      assert EntriesOf(names, rs)[0] == EntryOf(names, rs[0]);
      assert EntriesOf(names, rs)[1..] == EntriesOf(names, rs[1..]);
    }
  }

  lemma {:induction false} NoneButDotsStep(names: Namer, rs: seq<Rec>)
    requires rs != []
    ensures NoneButDots(names, rs) <==> IsDotsRec(names, rs[0]) && NoneButDots(names, rs[1..])
  {
    hide IsDotsRec;
    assert forall r :: r in rs <==> r == rs[0] || r in rs[1..];
  }

  /** The enumeration does not depend on where a listing is cut into pages. Before the entries "." and ".." are
      taken out it is every entry, once and in order, exactly when no page behind the first is empty with entries
      still to come; and readdir returns every entry but those two, once and in order, exactly when nothing but
      those two stands behind an empty page. */
  lemma {:induction false} EnumerationIsPagingIndependent(names: Namer, pages: seq<seq<Rec>>, replies: seq<Reply>)
    requires pages != [] && AllPackable(names, pages) && Answers(replies, pages)
    ensures Chain(names, replies[0].block, 0, replies[0].count) && Replies(names, replies[1..])
    ensures AllRead(names, Concat(pages))
    ensures WholeListing(names, replies) == EntriesOf(names, Concat(pages)) <==> NoHole(pages[1..])
    ensures Shown(WholeListing(names, replies)) == Shown(EntriesOf(names, Concat(pages)))
      <==> NothingHidden(names, pages[1..])
  {
    var first, rest := pages[0], pages[1..];
    assert first in pages && AllPackable(names, rest);
    AnswerReads(names, replies[0], first, |pages| == 1);
    LaterPages(names, rest, replies[1..]);
    ConcatRead(names, pages);
    ConcatRead(names, rest);
    UntilEmptyIsAll(rest);
    SeenAndBehind(rest);
    HiddenIsBehind(names, rest);
    var seen, behind := Concat(UntilEmpty(rest)), Behind(rest);
    hide UntilEmpty, Behind, NothingHidden, NoHole, NoneButDots, Entries, Later, Chain, Replies, Packable;
    WholeIsSeen(names, first, seen, behind);
    assert WholeListing(names, replies) == EntriesOf(names, first) + EntriesOf(names, seen);
    assert Concat(pages) == first + (seen + behind);
  }

  /** Records seen first, then those behind an empty page. */
  lemma {:induction false} WholeIsSeen(names: Namer, first: seq<Rec>, seen: seq<Rec>, behind: seq<Rec>)
    requires AllRead(names, first) && AllRead(names, seen + behind)
    ensures AllRead(names, seen) && AllRead(names, behind) && AllRead(names, first + (seen + behind))
    ensures
      var all := EntriesOf(names, first + (seen + behind));
      var whole := EntriesOf(names, first) + EntriesOf(names, seen);
      && (whole == all <==> behind == [])
      && (Shown(whole) == Shown(all) <==> NoneButDots(names, behind))
  {
    SplitRead(names, seen, behind);
    EntriesAppend(names, seen, behind);
    EntriesAppend(names, first, seen + behind);
    var a, b, c := EntriesOf(names, first), EntriesOf(names, seen), EntriesOf(names, behind);
    NothingShown(names, behind);
    hide AllRead, EntriesOf;
    Regroup(a, b, c);
    ShownAppend(a + b, c);
    hide Shown;
    assert behind == [] ==> (a + b) + c == a + b;
    LongerIffMore(a + b, c);
    LongerIffMore(Shown(a + b), Shown(c));
  }

  lemma {:induction false} SplitRead(names: Namer, rs: seq<Rec>, qs: seq<Rec>)
    requires AllRead(names, rs + qs)
    ensures AllRead(names, rs) && AllRead(names, qs)
  {
    assert forall i :: 0 <= i < |rs| ==> rs[i] == (rs + qs)[i];
    assert forall i :: 0 <= i < |qs| ==> qs[i] == (rs + qs)[|rs| + i];
  }

  lemma {:induction false} LongerIffMore(a: seq<Entry>, b: seq<Entry>)
    ensures a + b == a <==> b == []
  {
  }

  lemma {:induction false} ConcatRead(names: Namer, pages: seq<seq<Rec>>)
    requires AllPackable(names, pages)
    ensures AllRead(names, Concat(pages))
  {
    if pages != [] {
      assert pages[0] in pages;
      SendableRead(names, pages[0]);
      ConcatRead(names, pages[1..]);
    }
  }
}
