/** Bytes, little-endian integers and C strings: the vocabulary every other module uses. */
module Bytes {

  type byte = x: int | 0 <= x < 256

  const SLASH: byte := 0x2F
  const BACKSLASH: byte := 0x5C

  function Min(a: nat, b: nat): nat { if a < b then a else b }

  datatype Option<+T> = None | Some(value: T)

  function Le16(s: seq<byte>, at: nat): (v: nat)
    requires at + 2 <= |s|
    ensures v < 0x1_0000
  {
    s[at] as int + 256 * s[at + 1] as int
  }

  function PutLe16(v: nat): (s: seq<byte>)
    ensures |s| == 2
    ensures v < 0x1_0000 ==> Le16(s, 0) == v
  {
    [v % 256, v / 256 % 256]
  }

  function Le32(s: seq<byte>, at: nat): (v: nat)
    requires at + 4 <= |s|
    ensures v < 0x1_0000_0000
  {
    Le16(s, at) + 0x1_0000 * Le16(s, at + 2)
  }

  function PutLe32(v: nat): (s: seq<byte>)
    ensures |s| == 4
    ensures v < 0x1_0000_0000 ==> Le32(s, 0) == v
  {
    PutLe16(v % 0x1_0000) + PutLe16(v / 0x1_0000)
  }

  function Le64(s: seq<byte>, at: nat): (v: nat)
    requires at + 8 <= |s|
    ensures v < 0x1_0000_0000_0000_0000
  {
    Le32(s, at) + 0x1_0000_0000 * Le32(s, at + 4)
  }

  function PutLe64(v: nat): (s: seq<byte>)
    ensures |s| == 8
    ensures v < 0x1_0000_0000_0000_0000 ==> Le64(s, 0) == v
  {
    var s := PutLe32(v % 0x1_0000_0000) + PutLe32(v / 0x1_0000_0000);
    Le32Shift(s, PutLe32(v % 0x1_0000_0000), 0);
    Le32Shift(s, PutLe32(v / 0x1_0000_0000), 4);
    s
  }

  /** Low byte first: the k-th byte is the k-th digit to the base 256. */
  lemma {:induction false} LowByteFirst(s: seq<byte>)
    requires |s| == 8
    ensures Le16(s, 0) == s[0] as int + 0x100 * s[1] as int
    ensures Le32(s, 0) == s[0] as int + 0x100 * s[1] as int + 0x1_0000 * s[2] as int + 0x100_0000 * s[3] as int
    ensures Le64(s, 0) == Le32(s, 0) + 0x1_0000_0000 * Le32(s[4..], 0)
  {
    Le32Shift(s, s[4..], 4);
  }

  lemma {:induction false} Le32Shift(s: seq<byte>, part: seq<byte>, at: nat)
    requires |part| == 4 && at + 4 <= |s| && s[at..at + 4] == part
    ensures Le32(s, at) == Le32(part, 0)
  {
    assert part[0] == s[at] && part[1] == s[at + 1] && part[2] == s[at + 2] && part[3] == s[at + 3];
  }

  lemma {:induction false} Le64Shift(s: seq<byte>, part: seq<byte>, at: nat)
    requires |part| == 8 && at + 8 <= |s| && s[at..at + 8] == part
    ensures Le64(s, at) == Le64(part, 0)
  {
    assert s[at..at + 4] == part[..4] && s[at + 4..at + 8] == part[4..];
    Le32Shift(s, part[..4], at);
    Le32Shift(s, part[4..], at + 4);
    Le32Shift(part, part[..4], 0);
    Le32Shift(part, part[4..], 4);
  }

  /** The C string that starts at the front of `s`: everything before the first NUL. */
  function CStr(s: seq<byte>): (r: seq<byte>)
    ensures |r| <= |s| && r == s[..|r|] && 0 !in r
    ensures |r| < |s| ==> s[|r|] == 0
  {
    if s == [] || s[0] == 0 then [] else [s[0]] + CStr(s[1..])
  }

  lemma {:induction false} CStrStops(s: seq<byte>, t: seq<byte>)
    requires 0 !in s
    ensures CStr(s + [0] + t) == s
    ensures CStr(s) == s
  {
    if s == [] {
    } else {
      CStrStops(s[1..], t);
      assert (s + [0] + t)[1..] == s[1..] + [0] + t;
    }
  }

  function Concat<T>(ss: seq<seq<T>>): seq<T> {
    if ss == [] then [] else ss[0] + Concat(ss[1..])
  }

  lemma {:induction false} SliceOfFront<T>(s: seq<T>, n: nat, i: nat, j: nat)
    requires i <= j <= n <= |s|
    ensures s[..n][i..j] == s[i..j]
  {
  }

  lemma {:induction false} SliceOfSlice<T>(s: seq<T>, a: nat, b: nat, i: nat, j: nat)
    requires a <= b <= |s| && i <= j <= b - a
    ensures s[a..b][i..j] == s[a + i..a + j]
  {
    forall k: nat | k < j - i ensures s[a..b][i..j][k] == s[a + i..a + j][k] {
      assert s[a..b][i..j][k] == s[a..b][i + k] == s[a + i + k];
    }
  }

  lemma {:induction false} Regroup<T>(a: seq<T>, b: seq<T>, c: seq<T>)
    ensures (a + b) + c == a + (b + c)
  {
  }
}
