/** cifs_nbt_name: NetBIOS names on the wire (first-level encoding, section 14.1 of RFC 1001). */
module NbtName {
  import opened Bytes

  const SPACE: byte := 0x20
  const LETTER_A: byte := 0x41
  const NAME_SIZE := 16
  const LABEL_SIZE := 34

  /** toupper in the C locale. */
  function Upper(c: byte): (r: byte)
    ensures !(0x61 <= r <= 0x7A) && (r == c || (r + 0x20 == c && 0x41 <= r <= 0x5A))
  {
    if 0x61 <= c <= 0x7A then c - 32 else c
  }

  /** The sixteen characters a name stands for: upper case, cut to size, filled up with spaces. */
  function Padded(name: seq<byte>): (r: seq<byte>)
    ensures |r| == NAME_SIZE
  {
    seq(NAME_SIZE, i requires 0 <= i => if i < |name| then Upper(name[i]) else SPACE)
  }

  /** A letter from A to P. */
  predicate IsHalf(c: byte) { LETTER_A <= c < LETTER_A + 16 }

  function High(c: byte): (r: byte)
    ensures IsHalf(r)
  {
    LETTER_A + c / 16
  }

  function Low(c: byte): (r: byte)
    ensures IsHalf(r)
  {
    LETTER_A + c % 16
  }

  /** Character k of a label: the length, two letters to a character, high half first, and the end of the name. */
  function LabelByte(chars: seq<byte>, k: nat): byte
    requires |chars| == NAME_SIZE && k < LABEL_SIZE
  {
    if k == 0 then 0x20
    else if k == LABEL_SIZE - 1 then 0
    else if k % 2 == 1 then High(chars[(k - 1) / 2])
    else Low(chars[(k - 1) / 2])
  }

  function Label(chars: seq<byte>): (r: seq<byte>)
    requires |chars| == NAME_SIZE
    ensures |r| == LABEL_SIZE
  {
    seq(LABEL_SIZE, k requires 0 <= k < LABEL_SIZE => LabelByte(chars, k))
  }

  /** What a receiver makes of a label: none, or sixteen characters. */
  function Decode(s: seq<byte>): Option<seq<byte>> {
    if IsLabel(s)
    then Some(seq(NAME_SIZE, i requires 0 <= i < NAME_SIZE => DecodeChar(s[2 * i + 1], s[2 * i + 2])))
    else None
  }

  predicate IsLabel(s: seq<byte>) {
    && |s| == LABEL_SIZE && s[0] == 0x20 && s[LABEL_SIZE - 1] == 0
    && forall k :: 1 <= k <= 32 ==> IsHalf(s[k])
  }

  function DecodeChar(high: byte, low: byte): byte
    requires IsHalf(high) && IsHalf(low)
  {
    16 * (high - LETTER_A) + (low - LETTER_A)
  }

  /** The first `i` characters of `chars` are in the buffer. */
  ghost predicate Filled(mem: seq<byte>, chars: seq<byte>, i: nat) {
    && |chars| == NAME_SIZE && i <= NAME_SIZE && LABEL_SIZE <= |mem|
    && forall k :: 0 <= k <= 2 * i ==> mem[k] == LabelByte(chars, k)
  }

  lemma {:induction false} FilledStep(was: seq<byte>, mem: seq<byte>, chars: seq<byte>, i: nat)
    requires Filled(was, chars, i) && i < NAME_SIZE
    requires mem == was[2 * i + 1 := High(chars[i])][2 * i + 2 := Low(chars[i])]
    ensures Filled(mem, chars, i + 1)
  {
  }

  /** `name` is the memory from the name on, its NUL included. */
  method NbtName(buf: array<byte>, name: seq<byte>)
    requires LABEL_SIZE <= buf.Length && 0 in name
    modifies buf
    ensures buf[..LABEL_SIZE] == Label(Padded(CStr(name)))
    ensures buf[LABEL_SIZE..] == old(buf[LABEL_SIZE..])
  {
    ghost var chars := Padded(CStr(name));
    buf[0] := 0x20;
    var i := 0;
    while i < 16 && name[i] != 0
      invariant i <= |CStr(name)| < |name| && i <= 16 && Filled(buf[..], chars, i)
      invariant buf[LABEL_SIZE..] == old(buf[LABEL_SIZE..])
    {
      ghost var was := buf[..];
      var c := Upper(name[i]);
      assert name[i] == CStr(name)[i];
      buf[i * 2 + 1] := LETTER_A + c / 16 % 16;
      buf[i * 2 + 2] := LETTER_A + c % 16;
      FilledStep(was, buf[..], chars, i);
      i := i + 1;
    }
    while i < 16
      invariant i <= 16 && (|CStr(name)| <= i || i == 16)
      invariant Filled(buf[..], chars, i)
      invariant buf[LABEL_SIZE..] == old(buf[LABEL_SIZE..])
    {
      ghost var was := buf[..];
      buf[i * 2 + 1] := 0x43;
      buf[i * 2 + 2] := 0x41;
      FilledStep(was, buf[..], chars, i);
      i := i + 1;
    }
    buf[33] := 0x00;
  }

  /** The example of section 14.1 of RFC 1001: "Fred" becomes EGFCEFEE and twelve times CA. */
  lemma {:induction false} FredByBytes(k: nat)
    requires k < 34
    ensures var front := [0x20, 0x45, 0x47, 0x46, 0x43, 0x45, 0x46, 0x45, 0x45];
      Label(Padded([0x46, 0x72, 0x65, 0x64]))[k] ==
        if k < 9 then front[k] else if k == 33 then 0 else if k % 2 == 1 then 0x43 else 0x41
  {
  }

  lemma {:induction false} HalvesDecode(c: byte)
    ensures DecodeChar(High(c), Low(c)) == c
  {
  }

  lemma {:induction false} LabelHalves(chars: seq<byte>, i: nat)
    requires |chars| == NAME_SIZE && i < NAME_SIZE
    ensures Label(chars)[2 * i + 1] == High(chars[i]) && Label(chars)[2 * i + 2] == Low(chars[i])
  {
  }

  lemma {:induction false} LabelIsLabel(chars: seq<byte>)
    requires |chars| == NAME_SIZE
    ensures IsLabel(Label(chars))
  {
    hide High, Low;
  }

  /** Every label has letters A..P between its length and its end, and reads back as the padded name. */
  lemma {:induction false} DecodeLabel(chars: seq<byte>)
    requires |chars| == NAME_SIZE
    ensures Decode(Label(chars)) == Some(chars)
  {
    hide Label, High, Low, DecodeChar;
    LabelIsLabel(chars);
    forall i: nat | i < NAME_SIZE ensures Decode(Label(chars)).value[i] == chars[i] {
      LabelHalves(chars, i);
      HalvesDecode(chars[i]);
    }
    assert Decode(Label(chars)).value == chars;
  }

  // ---------------------------------------------------------------- which names share a label

  function UpperAll(s: seq<byte>): (r: seq<byte>)
    ensures |r| == |s|
  {
    seq(|s|, i requires 0 <= i < |s| => Upper(s[i]))
  }

  /** Without the spaces at the end. */
  function Trimmed(s: seq<byte>): (r: seq<byte>)
    ensures r <= s && (r != [] ==> r[|r| - 1] != SPACE)
    ensures forall i :: |r| <= i < |s| ==> s[i] == SPACE
  {
    if s != [] && s[|s| - 1] == SPACE then Trimmed(s[..|s| - 1]) else s
  }

  /** The name as far as it counts: its first sixteen characters, whatever their case, up to trailing spaces. */
  function Canonical(name: seq<byte>): seq<byte> {
    Trimmed(UpperAll(if |name| <= NAME_SIZE then name else name[..NAME_SIZE]))
  }

  function CharAt(s: seq<byte>, i: nat): byte { if i < |s| then s[i] else SPACE }

  lemma {:induction false} PaddedIsCanonical(name: seq<byte>)
    ensures |Canonical(name)| <= NAME_SIZE
    ensures forall i: nat :: i < NAME_SIZE ==> Padded(name)[i] == CharAt(Canonical(name), i)
  {
    var u := UpperAll(if |name| <= NAME_SIZE then name else name[..NAME_SIZE]);
    assert Canonical(name) == Trimmed(u);
    forall i: nat | i < NAME_SIZE ensures Padded(name)[i] == CharAt(u, i) {
    }
  }

  lemma {:induction false} SamePadding(a: seq<byte>, b: seq<byte>)
    requires |a| <= NAME_SIZE && |b| <= NAME_SIZE
    requires (a != [] ==> a[|a| - 1] != SPACE) && (b != [] ==> b[|b| - 1] != SPACE)
    requires forall i: nat :: i < NAME_SIZE ==> CharAt(a, i) == CharAt(b, i)
    ensures a == b
  {
    assert a != [] ==> CharAt(a, |a| - 1) == CharAt(b, |a| - 1);
    assert b != [] ==> CharAt(a, |b| - 1) == CharAt(b, |b| - 1);
    forall i | 0 <= i < |a| ensures a[i] == b[i] {
      assert CharAt(a, i) == CharAt(b, i);
    }
  }

  /** Two names get the same label exactly when they agree up to case, trailing spaces and what is cut off. */
  lemma {:induction false} LabelsEqualExactlyForSameName(s: seq<byte>, t: seq<byte>)
    ensures Label(Padded(s)) == Label(Padded(t)) <==> Canonical(s) == Canonical(t)
  {
    DecodeLabel(Padded(s));
    DecodeLabel(Padded(t));
    hide Label, Decode, Padded, CharAt;
    PaddedIsCanonical(s);
    PaddedIsCanonical(t);
    if Padded(s) == Padded(t) {
      SamePadding(Canonical(s), Canonical(t));
    }
    if Canonical(s) == Canonical(t) {
      assert Padded(s) == Padded(t);
    }
  }
}
