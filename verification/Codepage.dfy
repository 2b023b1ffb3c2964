/** libcifs/codepage.c: character conversion into a fixed buffer and into one that grows. */
module Codepage {
  import opened Bytes
  import Uri

  /** What a stateless converter makes of the front of its input: one character, or the two ways to stop. */
  datatype Conv = Char(len: nat, out: seq<byte>) | Illegal | Incomplete

  type Converter = seq<byte> -> Conv

  ghost predicate Sound(cp: Converter) {
    forall s :: s != [] && cp(s).Char? ==> 0 < cp(s).len <= |s|
  }

  /** The escape for a byte that does not convert: a percent sign and two letters A..P, from which it can be told. */
  function Escape(c: byte): (s: seq<byte>)
    ensures |s| == 3 && s[0] == 0x25 && 0x41 <= s[1] <= 0x50 && 0x41 <= s[2] <= 0x50
    ensures 16 * (s[1] - 0x41) + (s[2] - 0x41) == c
  {
    [0x25, 0x41 + c / 16, 0x41 + c % 16]
  }

  /** The letters are no hexadecimal digits: decoded the way uri.c decodes, no escape gives back its byte. */
  lemma {:induction false} EscapeNeverReadsBack(c: byte)
    ensures Uri.Unescape(Escape(c)) != [c]
  {
    var s := Escape(c);
    var hi, h, l := c / 16, Uri.HexToInt(s[1]), Uri.HexToInt(s[2]);
    assert s[3..] == [] && Uri.Unescape(s[3..]) == [];
    assert Uri.Unescape(s) == [16 * h + l];
    NibbleMisread(hi);
    assert s[1] == 0x41 + hi && c == 16 * hi + c % 16;
  }

  lemma {:induction false} NibbleMisread(n: nat)
    requires n < 16
    ensures Uri.HexToInt(0x41 + n) != n
  {
  }

  /** The conversion of input[i..], bad bytes escaped. */
  ghost function From(cp: Converter, input: seq<byte>, i: nat): seq<byte>
    requires Sound(cp) && i <= |input|
    decreases |input| - i
  {
    if i == |input| then []
    else match cp(input[i..])
      case Char(len, out) => out + From(cp, input, i + len)
      case _ => Escape(input[i]) + From(cp, input, i + 1)
  }

  ghost function Full(cp: Converter, input: seq<byte>): seq<byte>
    requires Sound(cp)
  {
    From(cp, input, 0)
  }

  /** A stretch of the input: a character and its conversion, or a byte that does not convert. */
  datatype Bit = Good(bytes: seq<byte>, text: seq<byte>) | Bad(b: byte) {
    function Bytes(): seq<byte> { if Good? then bytes else [b] }

    function Text(): seq<byte> { if Good? then text else [0x25, 0x41 + b / 16, 0x41 + b % 16] }
  }

  function BytesOf(bits: seq<Bit>): seq<byte> {
    if bits == [] then [] else bits[0].Bytes() + BytesOf(bits[1..])
  }

  function TextOf(bits: seq<Bit>): seq<byte> {
    if bits == [] then [] else bits[0].Text() + TextOf(bits[1..])
  }

  /** The converter finds each stretch at the front of what is left there. */
  ghost predicate Finds(cp: Converter, bits: seq<Bit>)
    decreases |bits|
  {
    bits == [] ||
    (Finds(cp, bits[1..]) &&
     match bits[0]
     case Good(bytes, text) => bytes != [] && cp(BytesOf(bits)) == Char(|bytes|, text)
     case Bad(_) => !cp(BytesOf(bits)).Char?)
  }

  lemma {:induction false} FoundFrom(cp: Converter, front: seq<byte>, bits: seq<Bit>)
    requires Sound(cp) && Finds(cp, bits)
    ensures From(cp, front + BytesOf(bits), |front|) == TextOf(bits)
    decreases |bits|
  {
    hide From, Bit.Bytes, Bit.Text;
    var s := front + BytesOf(bits);
    assert s[|front|..] == BytesOf(bits);
    if bits == [] {
      NothingFrom(cp, s);
    } else {
      var head, n := bits[0].Bytes(), |front| + |bits[0].Bytes()|;
      FoundFrom(cp, front + head, bits[1..]);
      Regroup(front, head, BytesOf(bits[1..]));
      FromHere(cp, s, |front|, bits, n);
    }
  }

  lemma {:induction false} NothingFrom(cp: Converter, s: seq<byte>)
    requires Sound(cp)
    ensures From(cp, s, |s|) == []
  {
  }

  lemma {:induction false} FromHere(cp: Converter, s: seq<byte>, i: nat, bits: seq<Bit>, n: nat)
    requires Sound(cp) && bits != [] && Finds(cp, bits)
    requires i <= |s| && s[i..] == BytesOf(bits) && n == i + |bits[0].Bytes()|
    ensures n <= |s| && From(cp, s, i) == bits[0].Text() + From(cp, s, n)
  {
    hide From;
    var rest := s[i..];
    FirstBytes(bits);
    assert i < |s| && s[i] == rest[0];
    match bits[0]
    case Good(_, text) => CharSteps(cp, s, i, n, text);
    case Bad(_) => EscapeSteps(cp, s, i);
  }

  lemma {:induction false} FirstBytes(bits: seq<Bit>)
    requires bits != [] && bits[0].Bytes() != []
    ensures BytesOf(bits) != [] && BytesOf(bits)[0] == bits[0].Bytes()[0]
  {
  }

  /** The conversion of a text is that of its stretches, one after the other. */
  lemma {:induction false} FullIsText(cp: Converter, bits: seq<Bit>)
    requires Sound(cp) && Finds(cp, bits)
    ensures Full(cp, BytesOf(bits)) == TextOf(bits)
  {
    FoundFrom(cp, [], bits);
    assert [] + BytesOf(bits) == BytesOf(bits);
  }

  /** And every input falls into stretches. */
  lemma {:induction false} Stretches(cp: Converter, input: seq<byte>) returns (bits: seq<Bit>)
    requires Sound(cp)
    ensures Finds(cp, bits) && BytesOf(bits) == input
    decreases |input|
  {
    if input == [] {
      bits := [];
    } else {
      var c := cp(input);
      var n := if c.Char? then c.len else 1;
      var more := Stretches(cp, input[n..]);
      bits := [if c.Char? then Good(input[..n], c.out) else Bad(input[0])] + more;
      assert bits[1..] == more && bits[0].Bytes() == input[..n];
      assert input[..n] + input[n..] == input;
    }
  }

  /** Room the next step of the conversion needs. */
  ghost function Need(cp: Converter, input: seq<byte>, i: nat): nat
    requires Sound(cp) && i <= |input|
  {
    if i == |input| then 0 else match cp(input[i..]) case Char(_, out) => |out| case _ => 3
  }

  /** `done` is the conversion of the first `i` bytes. */
  ghost predicate Progress(cp: Converter, input: seq<byte>, i: nat, done: seq<byte>)
    requires Sound(cp)
  {
    i <= |input| && Full(cp, input) == done + From(cp, input, i)
  }

  /** Converting input[i..j] gives `text`. */
  ghost predicate Steps(cp: Converter, input: seq<byte>, i: nat, j: nat, text: seq<byte>)
    requires Sound(cp)
  {
    i < j <= |input| && From(cp, input, i) == text + From(cp, input, j)
  }

  lemma {:induction false} ProgressStep(cp: Converter, input: seq<byte>, i: nat, j: nat, done: seq<byte>,
      text: seq<byte>)
    requires Sound(cp) && Progress(cp, input, i, done) && Steps(cp, input, i, j, text)
    ensures Progress(cp, input, j, done + text)
  {
    Regroup(done, text, From(cp, input, j));
  }

  lemma {:induction false} CharSteps(cp: Converter, input: seq<byte>, i: nat, j: nat, text: seq<byte>)
    requires Sound(cp) && i < |input| && i <= j && cp(input[i..]) == Char(j - i, text)
    ensures Steps(cp, input, i, j, text)
  {
  }

  /** A bad byte at the front of what is left turns into its escape. */
  lemma {:induction false} EscapeSteps(cp: Converter, input: seq<byte>, i: nat)
    requires Sound(cp) && i < |input| && !cp(input[i..]).Char?
    ensures Steps(cp, input, i, i + 1, Escape(input[i]))
  {
  }

  /** If what comes next does not fit behind `done`, neither does the conversion. */
  lemma {:induction false} TooLong(cp: Converter, input: seq<byte>, i: nat, done: seq<byte>, size: nat)
    requires Sound(cp) && Progress(cp, input, i, done) && |done| + Need(cp, input, i) > size
    ensures |Full(cp, input)| > size
  {
  }

  lemma {:induction false} Finished(cp: Converter, input: seq<byte>, done: seq<byte>)
    requires Sound(cp) && Progress(cp, input, |input|, done)
    ensures Full(cp, input) == done
  {
  }

  datatype Stop = AllDone | EILSEQ | EINVAL | E2BIG

  /** The buffer holds in off..o the conversion of input[..i]; outside off..end it is as it was. */
  ghost predicate Holds(cp: Converter, input: seq<byte>, i: nat, was: seq<byte>, now: seq<byte>, off: nat, o: nat,
      end: nat)
    requires Sound(cp)
  {
    && off <= o <= end <= |was| == |now|
    && now[..off] == was[..off] && now[end..] == was[end..]
    && Progress(cp, input, i, now[off..o])
  }

  lemma {:induction false} HoldsMore(cp: Converter, input: seq<byte>, i: nat, j: nat, was: seq<byte>,
      mid: seq<byte>, now: seq<byte>, off: nat, o: nat, end: nat, text: seq<byte>)
    requires Sound(cp) && Holds(cp, input, i, was, mid, off, o, end) && Steps(cp, input, i, j, text)
    requires o + |text| <= end && now == mid[..o] + text + mid[o + |text|..]
    ensures Holds(cp, input, j, was, now, off, o + |text|, end)
  {
    hide From, Full, Sound;
    assert now[off..o + |text|] == mid[off..o] + text;
    assert now[..off] == mid[..off] && now[end..] == mid[end..];
    ProgressStep(cp, input, i, j, mid[off..o], text);
  }

  method Copy(out: array<byte>, o: nat, text: seq<byte>)
    requires o + |text| <= out.Length
    modifies out
    ensures out[..] == old(out[..])[..o] + text + old(out[..])[o + |text|..]
  {
    ghost var mid := out[..];
    forall k | 0 <= k < |text| {
      out[o + k] := text[k];
    }
    assert out[..] == mid[..o] + text + mid[o + |text|..];
  }

  /** Writes the next piece of the conversion. */
  method Emit(cp: Converter, input: seq<byte>, ghost i: nat, ghost j: nat, out: array<byte>, o: nat,
      ghost end: nat, ghost off: nat, ghost was: seq<byte>, text: seq<byte>)
    requires Sound(cp) && Holds(cp, input, i, was, out[..], off, o, end)
    requires Steps(cp, input, i, j, text) && o + |text| <= end
    modifies out
    ensures Holds(cp, input, j, was, out[..], off, o + |text|, end)
  {
    ghost var mid := out[..];
    Copy(out, o, text);
    HoldsMore(cp, input, i, j, was, mid, out[..], off, o, end, text);
  }

  /** Lines 44-50 and 92-97: a bad byte goes out escaped. */
  method EmitEscape(cp: Converter, input: seq<byte>, i0: nat, out: array<byte>, o0: nat, ghost end: nat,
      ghost off: nat, ghost was: seq<byte>)
    returns (i: nat, o: nat)
    requires Sound(cp) && Holds(cp, input, i0, was, out[..], off, o0, end)
    requires o0 + 3 <= end && i0 < |input| && !cp(input[i0..]).Char?
    modifies out
    ensures i == i0 + 1 && o == o0 + 3 && Holds(cp, input, i, was, out[..], off, o, end)
  {
    var text := Escape(input[i0]);
    i, o := i0 + 1, o0 + |text|;
    EscapeSteps(cp, input, i0);
    Emit(cp, input, i0, i, out, o0, end, off, was, text);
  }

  /** iconv on input[i0..] and out[o0..end]: converts character by character until it must stop; the caller's
      text began at `off`, in a buffer that then held `was`. */
  method Iconv(cp: Converter, input: seq<byte>, i0: nat, out: array<byte>, o0: nat, end: nat, ghost off: nat,
      ghost was: seq<byte>)
    returns (stop: Stop, i: nat, o: nat)
    requires Sound(cp) && Holds(cp, input, i0, was, out[..], off, o0, end)
    modifies out
    ensures i0 <= i && o0 <= o && Holds(cp, input, i, was, out[..], off, o, end)
    ensures stop.AllDone? <==> i == |input|
    ensures stop.E2BIG? ==> Need(cp, input, i) > end - o
    ensures stop.EILSEQ? || stop.EINVAL? ==> !cp(input[i..]).Char?
  {
    i, o := i0, o0;
    while i < |input|
      invariant i0 <= i <= |input| && o0 <= o && Holds(cp, input, i, was, out[..], off, o, end)
    {
      var c := cp(input[i..]);
      match c {
        case Illegal => return EILSEQ, i, o;
        case Incomplete => return EINVAL, i, o;
        case Char(len, text) =>
          if |text| > end - o { return E2BIG, i, o; }
          var j := i + len;
          CharSteps(cp, input, i, j, text);
          Emit(cp, input, i, j, out, o, end, off, was, text);
          i, o := j, o + |text|;
      }
    }
    stop := AllDone;
  }

  /** The loop of cifs_cp_buf (lines 26-56). */
  method Convert(cp: Converter, out: array<byte>, off: nat, end: nat, input: seq<byte>) returns (ok: bool, o: nat)
    requires Sound(cp) && off <= end <= out.Length
    modifies out
    ensures ok ==> Holds(cp, input, |input|, old(out[..]), out[..], off, o, end)
    ensures !ok ==> |Full(cp, input)| > end - off
    ensures out.Length == |old(out[..])|
    ensures out[..][..off] == old(out[..])[..off] && out[..][end..] == old(out[..])[end..]
  {
    ghost var was := out[..];
    var i := 0;
    o := off;
    HoldsNothing(cp, input, was, off, end);
    while true
      invariant Holds(cp, input, i, was, out[..], off, o, end)
      decreases |input| - i
    {
      var stop;
      stop, i, o := Iconv(cp, input, i, out, o, end, off, was);
      if stop.AllDone? { return true, o; }
      if stop.E2BIG? || end - o < 3 {
        TooLong(cp, input, i, out[..][off..o], end - off);
        return false, o;
      }
      i, o := EmitEscape(cp, input, i, out, o, end, off, was);
    }
  }

  /** cifs_cp_buf into out[off..off + size]: the whole conversion, with a NUL if there is room for one, or -1
      exactly when the conversion does not fit. */
  method CpBuf(cp: Converter, out: array<byte>, off: nat, size: nat, input: seq<byte>) returns (r: int)
    requires Sound(cp) && off + size <= out.Length
    modifies out
    ensures out[..][..off] == old(out[..])[..off] && out[..][off + size..] == old(out[..])[off + size..]
    ensures r == if |Full(cp, input)| <= size then |Full(cp, input)| else -1
    ensures 0 <= r ==> out[..][off..off + r] == Full(cp, input)
    ensures 0 <= r < size ==> out[off + r] == 0
  {
    hide From, Full, Sound;
    var end := off + size;
    var ok, o := Convert(cp, out, off, end, input);
    if !ok { return -1; }
    ghost var mid := out[..];
    Finished(cp, input, mid[off..o]);
    if o < end {
      out[o] := 0;
      assert out[..] == mid[..o] + [0] + mid[o + 1..];
    }
    r := o - off;
  }

  /** realloc: what fits of the old block, at the front of a new one. */
  method Realloc(block: array<byte>, size: nat, o: nat) returns (r: array<byte>)
    requires o <= size && o <= block.Length
    ensures fresh(r) && r.Length == size && r[..][0..o] == block[..][0..o]
  {
    r := new byte[size];
    forall k | 0 <= k < size && k < block.Length {
      r[k] := block[k];
    }
  }

  lemma {:induction false} HoldsNothing(cp: Converter, input: seq<byte>, was: seq<byte>, off: nat, end: nat)
    requires Sound(cp) && off <= end <= |was|
    ensures Holds(cp, input, 0, was, was, off, off, end)
  {
    assert was[off..off] == [];
  }

  lemma {:induction false} HoldsAfresh(cp: Converter, input: seq<byte>, i: nat, was: seq<byte>, now: seq<byte>,
      o: nat, bigger: seq<byte>)
    requires Sound(cp) && Holds(cp, input, i, was, now, 0, o, |was|)
    requires |bigger| >= o && bigger[0..o] == now[0..o]
    ensures Holds(cp, input, i, bigger, bigger, 0, o, |bigger|)
  {
  }

  /** Lines 101-111: twice the room, the text so far kept. */
  method Enlarge(cp: Converter, input: seq<byte>, ghost i: nat, block: array<byte>, o: nat, ghost was: seq<byte>)
    returns (r: array<byte>, ghost now: seq<byte>)
    requires Sound(cp) && Holds(cp, input, i, was, block[..], 0, o, block.Length)
    ensures fresh(r) && r.Length == 2 * block.Length && Holds(cp, input, i, now, r[..], 0, o, r.Length)
  {
    r := Realloc(block, 2 * block.Length, o);
    now := r[..];
    HoldsAfresh(cp, input, i, was, block[..], o, now);
  }

  /** The loop of cifs_cp_bufa (lines 76-116): the buffer doubles whenever what comes next does not fit. */
  method Grow(cp: Converter, input: seq<byte>) returns (r: array<byte>, o: nat)
    requires Sound(cp)
    ensures fresh(r) && o <= r.Length && r[..][0..o] == Full(cp, input)
  {
    hide From, Full, Sound;
    r := new byte[|input| + 1];
    var i := 0;
    o := 0;
    ghost var was := r[..];
    HoldsNothing(cp, input, was, 0, r.Length);
    while true
      invariant fresh(r) && r.Length > 0 && Holds(cp, input, i, was, r[..], 0, o, r.Length)
      decreases |input| - i, Lacking(cp, input, i, r.Length - o)
    {
      var stop;
      stop, i, o := Iconv(cp, input, i, r, o, r.Length, 0, was);
      if stop.AllDone? { break; }
      if stop.E2BIG? || r.Length - o < 3 {
        r, was := Enlarge(cp, input, i, r, o, was);
      } else {
        i, o := EmitEscape(cp, input, i, r, o, r.Length, 0, was);
      }
    }
    Finished(cp, input, r[..][0..o]);
  }

  /** By how much the next piece misses the room left. */
  ghost function Lacking(cp: Converter, input: seq<byte>, i: nat, room: nat): nat
    requires Sound(cp) && i <= |input|
  {
    if Need(cp, input, i) > room then Need(cp, input, i) - room else 0
  }

  /** cifs_cp_bufa: the whole conversion and a NUL, nothing else; what CpBuf writes into any buffer that is
      large enough. */
  method CpBufa(cp: Converter, input: seq<byte>) returns (r: array<byte>)
    requires Sound(cp)
    ensures fresh(r) && r[..] == Full(cp, input) + [0]
  {
    var o;
    r, o := Grow(cp, input);
    r := Realloc(r, o + 1, o);
    ghost var was := r[..];
    r[o] := 0;
    assert r[..] == was[0..o] + [0];
  }
}
