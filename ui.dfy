/** The pure string helpers of the terminal UI: a one-step UTF-8 decoder
    (the byte patterns of section 3 of RFC 3629), a stripper for ANSI SGR
    colour codes, and the display width built from the two. Strings are byte
    sequences, as `std::string` is. */
module Ui {

  datatype Option<T> = None | Some(value: T)

  const ESC: bv8 := 0x1B
  /** The byte 'm' that ends an SGR sequence. */
  const SgrEnd: bv8 := 0x6D
  /** '?', what the decoder returns for a byte it cannot use. */
  const Replacement: int := 0x3F

  /** `s[i]` as `std::string` reads it: the byte at `s.size()` is the
      terminating NUL. */
  function ByteAt(s: seq<bv8>, i: nat): bv8
    requires i <= |s|
  {
    if i < |s| then s[i] else 0
  }

  /** One continuation byte's six payload bits appended to `cp`. */
  function Shift(cp: bv32, b: bv8): bv32 {
    (cp << 6) | ((b & 0x3F) as bv32)
  }

  /** The six payload bits of each continuation byte, appended in order
      after the lead bits `cp`. */
  function Accumulate(cp: bv32, cs: seq<bv8>): bv32
  {
    if cs == [] then cp
    else Shift(Accumulate(cp, cs[..|cs| - 1]), cs[|cs| - 1])
  }

  /** A byte of the form 10xxxxxx. */
  predicate IsContinuation(b: bv8) {
    b & 0xC0 == 0x80
  }

  /** The lead-byte classes of section 3 of RFC 3629 as the decoder tests
      them, in order: the masked lead bits and the number of continuation
      bytes, or None for a byte that starts no sequence. Only for bytes with
      the high bit set. */
  function Lead(c: bv8): (r: Option<(bv32, nat)>)
    ensures r.Some? ==> c & 0xC0 == 0xC0 && 1 <= r.value.1 <= 3
    ensures r.Some? && r.value.1 == 1 ==> r.value.0 < 0x20
    ensures r.Some? && r.value.1 == 2 ==> r.value.0 < 0x10
    ensures r.Some? && r.value.1 == 3 ==> r.value.0 < 0x08
    ensures r.None? && c & 0x80 != 0 ==> c & 0xE0 != 0xC0 && c & 0xF0 != 0xE0 && c & 0xF8 != 0xF0
  {
    if c & 0xE0 == 0xC0 then Some(((c & 0x1F) as bv32, 1))
    else if c & 0xF0 == 0xE0 then Some(((c & 0x0F) as bv32, 2))
    else if c & 0xF8 == 0xF0 then Some(((c & 0x07) as bv32, 3))
    else None
  }

  /** The continuation loop from position `j` with `extra` bytes still
      expected: stops at the end of the input, or answers '?' at the first
      byte that is not a continuation, leaving the index on it. */
  function Continue(s: seq<bv8>, j: nat, cp: bv32, extra: nat): (r: (int, nat))
    requires j <= |s|
    ensures j <= r.1 <= |s|
    decreases extra
  {
    if extra == 0 || j == |s| then (cp as int, j)
    else if !IsContinuation(s[j]) then (Replacement, j)
    else Continue(s, j + 1, Shift(cp, s[j]), extra - 1)
  }

  /** One step of utf8_next_cp from index `i`: the code point and the index
      after it. From any position inside the string the index strictly
      advances and stays within the string. */
  function NextCodePoint(s: seq<bv8>, i: nat): (r: (int, nat))
    requires i <= |s|
    ensures i < |s| ==> i < r.1 <= |s|
  {
    var c := ByteAt(s, i);
    if c & 0x80 == 0 then (c as int, i + 1)
    else match Lead(c)
      case None => (Replacement, i + 1)
      case Some((cp, extra)) => Continue(s, i + 1, cp, extra)
  }

  /** utf8_next_cp: the index is passed by reference in the source, here it
      is taken and returned. The accumulator is 32 bits wide; at most 21
      bits are ever used, so the source's `int` never overflows. */
  method Utf8NextCp(s: seq<bv8>, i: nat) returns (cp: int, next: nat)
    requires i <= |s|
    ensures (cp, next) == NextCodePoint(s, i)
    ensures i < |s| ==> i < next <= |s|
  {
    var c := ByteAt(s, i);
    if c & 0x80 == 0 {
      return c as int, i + 1;
    }
    var acc: bv32 := 0;
    var extra := 0;
    if c & 0xE0 == 0xC0 {
      acc, extra := (c & 0x1F) as bv32, 1;
    } else if c & 0xF0 == 0xE0 {
      acc, extra := (c & 0x0F) as bv32, 2;
    } else if c & 0xF8 == 0xF0 {
      acc, extra := (c & 0x07) as bv32, 3;
    } else {
      return Replacement, i + 1;
    }
    assert Lead(c) == Some((acc, extra));
    cp, next := ReadContinuations(s, i + 1, acc, extra);
  }

  /** The continuation loop of utf8_next_cp, from index `j` with the lead
      bits in `acc` and `extra` continuation bytes expected. */
  method ReadContinuations(s: seq<bv8>, j: nat, acc: bv32, extra: nat) returns (cp: int, next: nat)
    requires j <= |s|
    ensures (cp, next) == Continue(s, j, acc, extra)
  {
    var bits := acc;
    next := j;
    var k := 0;
    while k < extra && next < |s|
      invariant 0 <= k <= extra && next == j + k <= |s|
      invariant Continue(s, next, bits, extra - k) == Continue(s, j, acc, extra)
      decreases extra - k
    {
      var cc := s[next];
      if cc & 0xC0 != 0x80 {
        return Replacement, next;
      }
      bits := (bits << 6) | ((cc & 0x3F) as bv32);
      k, next := k + 1, next + 1;
    }
    cp := bits as int;
  }

  /** A run of `n` continuation bytes from `j` adds their payload bits to
      the accumulator and moves the index past them. */
  lemma {:induction false} ContinueRun(s: seq<bv8>, j: nat, cp: bv32, extra: nat, n: nat)
    requires n <= extra && j + n <= |s|
    requires forall t :: j <= t < j + n ==> IsContinuation(s[t])
    ensures Continue(s, j, cp, extra) == Continue(s, j + n, Accumulate(cp, s[j..j + n]), extra - n)
    decreases n
  {
    if n > 0 {
      var cp' := Shift(cp, s[j]);
      ContinueRun(s, j + 1, cp', extra - 1, n - 1);
      AccumulateFirst(cp, s[j..j + n]);
      assert s[j..j + n][1..] == s[j + 1..j + n];
    }
  }

  /** Folding the first byte into the lead bits and then the rest is the
      same as folding them all. */
  lemma {:induction false} AccumulateFirst(cp: bv32, cs: seq<bv8>)
    requires cs != []
    ensures Accumulate(cp, cs) == Accumulate(Shift(cp, cs[0]), cs[1..])
  {
    if |cs| == 1 {
      assert cs[..0] == [] && cs[1..] == [];
    } else {
      var init := cs[..|cs| - 1];
      AccumulateFirst(cp, init);
      assert init[1..] == cs[1..][..|cs[1..]| - 1];
      assert init[0] == cs[0];
    }
  }

  /** An ASCII byte decodes to itself and the index moves by one. */
  lemma AsciiStep(s: seq<bv8>, i: nat)
    requires i < |s| && s[i] & 0x80 == 0
    ensures NextCodePoint(s, i) == (s[i] as int, i + 1)
  {
  }

  /** A byte with the high bit set that is no lead byte decodes to '?' and
      the index moves by one. */
  lemma InvalidLeadStep(s: seq<bv8>, i: nat)
    requires i < |s| && s[i] & 0x80 != 0
    requires s[i] & 0xE0 != 0xC0 && s[i] & 0xF0 != 0xE0 && s[i] & 0xF8 != 0xF0
    ensures NextCodePoint(s, i) == (Replacement, i + 1)
  {
  }

  /** A complete sequence: a lead byte expecting `e` continuations followed
      by `e` continuation bytes decodes to the lead bits followed by six bits
      of each continuation, and the index moves past all of them. */
  lemma WellFormedStep(s: seq<bv8>, i: nat)
    requires i < |s| && s[i] & 0x80 != 0 && Lead(s[i]).Some?
    requires i + 1 + Lead(s[i]).value.1 <= |s|
    requires forall t :: i < t <= i + Lead(s[i]).value.1 ==> IsContinuation(s[t])
    ensures var (cp, e) := Lead(s[i]).value;
      NextCodePoint(s, i) == (Accumulate(cp, s[i + 1..i + 1 + e]) as int, i + 1 + e)
  {
    var (cp, e) := Lead(s[i]).value;
    ContinueRun(s, i + 1, cp, e, e);
  }

  /** A sequence cut short by a byte that is not a continuation decodes to
      '?', and the index stops on that byte. */
  lemma BadContinuationStep(s: seq<bv8>, i: nat, j: nat)
    requires i < j < |s| && s[i] & 0x80 != 0 && Lead(s[i]).Some?
    requires j <= i + Lead(s[i]).value.1
    requires forall t :: i < t < j ==> IsContinuation(s[t])
    requires !IsContinuation(s[j])
    ensures NextCodePoint(s, i) == (Replacement, j)
  {
    var (cp, e) := Lead(s[i]).value;
    ContinueRun(s, i + 1, cp, e, j - (i + 1));
  }

  /** A sequence cut short by the end of the string decodes to the bits
      gathered so far, and the index ends at the end of the string. */
  lemma TruncatedStep(s: seq<bv8>, i: nat)
    requires i < |s| && s[i] & 0x80 != 0 && Lead(s[i]).Some?
    requires |s| < i + 1 + Lead(s[i]).value.1
    requires forall t :: i < t < |s| ==> IsContinuation(s[t])
    ensures NextCodePoint(s, i) == (Accumulate(Lead(s[i]).value.0, s[i + 1..]) as int, |s|)
  {
    var (cp, e) := Lead(s[i]).value;
    ContinueRun(s, i + 1, cp, e, |s| - (i + 1));
    assert s[i + 1..|s|] == s[i + 1..];
  }

  /** A continuation byte carrying the low six bits of `x`. */
  function ContByte(x: bv32): bv8 {
    (0x80 | (x & 0x3F)) as bv8
  }

  /** The UTF-8 encoding of a scalar value below 0x110000, as section 3 of
      RFC 3629 lays out its bits. */
  function Encode(cp: bv32): (r: seq<bv8>)
    requires cp < 0x110000
    ensures 1 <= |r| <= 4
  {
    if cp < 0x80 then [cp as bv8]
    else if cp < 0x800 then [(0xC0 | (cp >> 6)) as bv8, ContByte(cp)]
    else if cp < 0x10000 then [(0xE0 | (cp >> 12)) as bv8, ContByte(cp >> 6), ContByte(cp)]
    else [(0xF0 | (cp >> 18)) as bv8, ContByte(cp >> 12), ContByte(cp >> 6), ContByte(cp)]
  }

  lemma ContByteBits(acc: bv32, x: bv32)
    ensures IsContinuation(ContByte(x))
    ensures Shift(acc, ContByte(x)) == (acc << 6) | (x & 0x3F)
  {
  }

  /** The lead byte of each multi-byte encoding: its class and its bits. */
  lemma EncodedLead(cp: bv32)
    requires 0x80 <= cp < 0x110000
    ensures Encode(cp)[0] & 0x80 != 0
    ensures cp < 0x800 ==> Lead(Encode(cp)[0]) == Some((cp >> 6, 1))
    ensures 0x800 <= cp < 0x10000 ==> Lead(Encode(cp)[0]) == Some((cp >> 12, 2))
    ensures 0x10000 <= cp ==> Lead(Encode(cp)[0]) == Some((cp >> 18, 3))
  {
  }

  /** Reassembling the bit groups of an encoding gives the scalar value back. */
  lemma Reassemble2(cp: bv32)
    requires 0x80 <= cp < 0x800
    ensures Shift(cp >> 6, ContByte(cp)) == cp
  {
    ContByteBits(cp >> 6, cp);
  }

  lemma Reassemble3(cp: bv32)
    requires 0x800 <= cp < 0x10000
    ensures Shift(Shift(cp >> 12, ContByte(cp >> 6)), ContByte(cp)) == cp
  {
    ContByteBits(cp >> 12, cp >> 6);
    ContByteBits(Shift(cp >> 12, ContByte(cp >> 6)), cp);
  }

  lemma Reassemble4(cp: bv32)
    requires 0x10000 <= cp < 0x110000
    ensures Shift(Shift(Shift(cp >> 18, ContByte(cp >> 12)), ContByte(cp >> 6)), ContByte(cp)) == cp
  {
    ContByteBits(cp >> 18, cp >> 12);
    ContByteBits(Shift(cp >> 18, ContByte(cp >> 12)), cp >> 6);
    ContByteBits(Shift(Shift(cp >> 18, ContByte(cp >> 12)), ContByte(cp >> 6)), cp);
  }

  /** Accumulate over one, two and three bytes, written out. */
  lemma AccumulateShort(cp: bv32, a: bv8, b: bv8, c: bv8)
    ensures Accumulate(cp, [a]) == Shift(cp, a)
    ensures Accumulate(cp, [a, b]) == Shift(Shift(cp, a), b)
    ensures Accumulate(cp, [a, b, c]) == Shift(Shift(Shift(cp, a), b), c)
  {
    assert [a][..0] == [];
    assert [a, b][..1] == [a];
    assert [a, b, c][..2] == [a, b];
  }

  /** The continuation bytes of an encoding, appended to the lead bits,
      give the scalar value back. */
  lemma EncodedPayload(cp: bv32)
    requires 0x80 <= cp < 0x110000
    ensures Lead(Encode(cp)[0]).Some?
    ensures Accumulate(Lead(Encode(cp)[0]).value.0, Encode(cp)[1..]) == cp
  {
    EncodedLead(cp);
    var e := Encode(cp);
    if cp < 0x800 {
      assert e[1..] == [ContByte(cp)];
      AccumulateShort(cp >> 6, ContByte(cp), 0, 0);
      Reassemble2(cp);
    } else if cp < 0x10000 {
      assert e[1..] == [ContByte(cp >> 6), ContByte(cp)];
      AccumulateShort(cp >> 12, ContByte(cp >> 6), ContByte(cp), 0);
      Reassemble3(cp);
    } else {
      assert e[1..] == [ContByte(cp >> 12), ContByte(cp >> 6), ContByte(cp)];
      AccumulateShort(cp >> 18, ContByte(cp >> 12), ContByte(cp >> 6), ContByte(cp));
      Reassemble4(cp);
    }
  }

  /** Decoding an encoded scalar value gives it back and consumes exactly its
      encoding, whatever follows. */
  lemma DecodeEncoded(cp: bv32, rest: seq<bv8>)
    requires cp < 0x110000
    ensures NextCodePoint(Encode(cp) + rest, 0) == (cp as int, |Encode(cp)|)
  {
    var e := Encode(cp);
    var s := e + rest;
    if cp < 0x80 {
      AsciiStep(s, 0);
    } else {
      EncodedLead(cp);
      EncodedContinuations(cp);
      assert s[0] == e[0];
      assert forall t :: 0 < t < |e| ==> s[t] == e[t];
      WellFormedStep(s, 0);
      assert s[1..|e|] == e[1..];
      EncodedPayload(cp);
    }
  }

  /** Every byte after the lead byte of an encoding is a continuation byte. */
  lemma EncodedContinuations(cp: bv32)
    requires 0x80 <= cp < 0x110000
    ensures forall t :: 0 < t < |Encode(cp)| ==> IsContinuation(Encode(cp)[t])
  {
    ContByteBits(0, cp);
    ContByteBits(0, cp >> 6);
    ContByteBits(0, cp >> 12);
  }

  /** std::string::find for one byte from position `from`: the first match
      at or after `from`, or None (npos). */
  function FindByte(s: seq<bv8>, b: bv8, from: nat): (r: Option<nat>)
    requires from <= |s|
    ensures r.Some? ==> from <= r.value < |s| && s[r.value] == b
    decreases |s| - from
  {
    if from == |s| then None
    else if s[from] == b then Some(from)
    else FindByte(s, b, from + 1)
  }

  /** FindByte answers the first match: nothing before it matches, and
      None means nothing from `from` on matches. */
  lemma {:induction false} FindByteFirst(s: seq<bv8>, b: bv8, from: nat)
    requires from <= |s|
    ensures FindByte(s, b, from).Some? ==>
      forall k :: from <= k < FindByte(s, b, from).value ==> s[k] != b
    ensures FindByte(s, b, from).None? ==> forall k :: from <= k < |s| ==> s[k] != b
    decreases |s| - from
  {
    if from < |s| && s[from] != b {
      FindByteFirst(s, b, from + 1);
    }
  }

  /** Searching a suffix of `s` is searching `s` from further on. */
  lemma {:induction false} FindByteSuffix(s: seq<bv8>, o: nat, x: bv8, k: nat)
    requires o + k <= |s|
    ensures FindByte(s[o..], x, k).None? ==> FindByte(s, x, o + k).None?
    ensures FindByte(s[o..], x, k).Some? ==>
      FindByte(s, x, o + k) == Some(o + FindByte(s[o..], x, k).value)
    decreases |s| - o - k
  {
    if o + k < |s| {
      assert s[o..][k] == s[o + k];
      FindByteSuffix(s, o, x, k + 1);
    }
  }

  /** strip_colors as a recursion on the string: an ESC with an 'm'
      somewhere after it is dropped together with everything through that
      'm'; every other byte is kept. */
  function Stripped(s: seq<bv8>): (r: seq<bv8>)
    ensures |r| <= |s|
    decreases |s|
  {
    if s == [] then []
    else if s[0] == ESC && FindByte(s, SgrEnd, 0).Some? then
      Stripped(s[FindByte(s, SgrEnd, 0).value + 1..])
    else [s[0]] + Stripped(s[1..])
  }

  /** strip_colors: the index loop that appends the kept bytes to `res`,
      searching for the 'm' from the current index as std::string::find
      does. */
  method StripColors(s: seq<bv8>) returns (res: seq<bv8>)
    ensures res == Stripped(s)
  {
    res := [];
    var i := 0;
    while i < |s|
      invariant 0 <= i <= |s|
      invariant res + Stripped(s[i..]) == Stripped(s)
      decreases |s| - i
    {
      ghost var t := s[i..];
      assert t[0] == s[i];
      FindByteSuffix(s, i, SgrEnd, 0);
      if s[i] == ESC {
        var pos := FindByte(s, SgrEnd, i);
        if pos.Some? {
          assert t[pos.value - i + 1..] == s[pos.value + 1..];
          i := pos.value + 1;
          continue;
        }
      }
      assert t[1..] == s[i + 1..];
      res := res + [s[i]];
      i := i + 1;
    }
    assert s[|s|..] == [];
  }

  /** Every byte of the output comes from the input, in particular the
      output is never longer. */
  lemma {:induction false} StripBounds(s: seq<bv8>)
    ensures forall x :: x in Stripped(s) ==> x in s
    decreases |s|
  {
    if s != [] {
      if s[0] == ESC && FindByte(s, SgrEnd, 0).Some? {
        var rest := s[FindByte(s, SgrEnd, 0).value + 1..];
        StripBounds(rest);
        assert forall x :: x in rest ==> x in s;
      } else {
        StripBounds(s[1..]);
        assert s == [s[0]] + s[1..];
      }
    }
  }

  /** A string with no 'm' in it is kept as it is, including any ESC: an ESC
      with no later 'm' starts no colour code. */
  lemma {:induction false} NoSgrEndKept(s: seq<bv8>)
    requires SgrEnd !in s
    ensures Stripped(s) == s
    decreases |s|
  {
    if s != [] {
      assert FindByte(s, SgrEnd, 0).None?;
      assert SgrEnd !in s[1..];
      NoSgrEndKept(s[1..]);
      assert s == [s[0]] + s[1..];
    }
  }

  /** A string without ESC comes back unchanged. */
  lemma {:induction false} StripWithoutEsc(s: seq<bv8>)
    requires ESC !in s
    ensures Stripped(s) == s
    decreases |s|
  {
    if s != [] {
      assert ESC !in s[1..];
      StripWithoutEsc(s[1..]);
      assert s == [s[0]] + s[1..];
    }
  }

  /** A prefix without ESC is copied to the output as it is. */
  lemma {:induction false} PrefixKept(pre: seq<bv8>, rest: seq<bv8>)
    requires ESC !in pre
    ensures Stripped(pre + rest) == pre + Stripped(rest)
    decreases |pre|
  {
    if pre != [] {
      var s := pre + rest;
      assert s[0] == pre[0] != ESC;
      assert s[1..] == pre[1..] + rest;
      assert ESC !in pre[1..];
      calc {
        Stripped(s);
        [pre[0]] + Stripped(pre[1..] + rest);
        { PrefixKept(pre[1..], rest); }
        [pre[0]] + (pre[1..] + Stripped(rest));
        { assert pre == [pre[0]] + pre[1..]; }
        pre + Stripped(rest);
      }
    } else {
      assert pre + rest == rest;
    }
  }

  /** A colour code, an ESC through the first 'm' after it, is dropped
      whole; what comes before it is kept and what comes after it is
      stripped on its own. */
  lemma StripColourCode(pre: seq<bv8>, mid: seq<bv8>, post: seq<bv8>)
    requires ESC !in pre && SgrEnd !in mid
    ensures Stripped(pre + [ESC] + mid + [SgrEnd] + post) == pre + Stripped(post)
  {
    var t := [ESC] + mid + [SgrEnd] + post;
    assert pre + [ESC] + mid + [SgrEnd] + post == pre + t;
    PrefixKept(pre, t);
    var q := |mid| + 1;
    assert t[0] == ESC && t[q] == SgrEnd;
    assert forall k :: 0 <= k < q ==> t[k] != SgrEnd by {
      assert forall k :: 0 < k < q ==> t[k] == mid[k - 1];
    }
    FindByteFirst(t, SgrEnd, 0);
    assert FindByte(t, SgrEnd, 0) == Some(q);
    assert t[q + 1..] == post;
  }

  /** No colour code survives: in the output, no ESC is followed later by
      an 'm'. */
  ghost predicate NoColourCode(t: seq<bv8>) {
    forall a, b :: 0 <= a < b < |t| && t[a] == ESC ==> t[b] != SgrEnd
  }

  lemma {:induction false} StripLeavesNoCode(s: seq<bv8>)
    ensures NoColourCode(Stripped(s))
    decreases |s|
  {
    if s != [] {
      if s[0] == ESC && FindByte(s, SgrEnd, 0).Some? {
        StripLeavesNoCode(s[FindByte(s, SgrEnd, 0).value + 1..]);
      } else {
        var rest := Stripped(s[1..]);
        StripLeavesNoCode(s[1..]);
        StripBounds(s[1..]);
        if s[0] == ESC {
          FindByteFirst(s, SgrEnd, 0);
          assert SgrEnd !in s[1..];
          assert SgrEnd !in rest;
        }
        var t := [s[0]] + rest;
        forall a, b | 0 <= a < b < |t| && t[a] == ESC ensures t[b] != SgrEnd {
          if a == 0 {
            assert t[b] == rest[b - 1];
          } else {
            assert t[a] == rest[a - 1] && t[b] == rest[b - 1];
          }
        }
      }
    }
  }

  /** A string with no colour code is a fixed point of the stripper. */
  lemma {:induction false} NoCodeKept(t: seq<bv8>)
    requires NoColourCode(t)
    ensures Stripped(t) == t
    decreases |t|
  {
    if t != [] {
      if t[0] == ESC {
        assert FindByte(t, SgrEnd, 0).None?;
      }
      var u := t[1..];
      assert NoColourCode(u) by {
        forall a, b | 0 <= a < b < |u| && u[a] == ESC ensures u[b] != SgrEnd {
          assert u[a] == t[a + 1] && u[b] == t[b + 1];
        }
      }
      NoCodeKept(u);
      assert t == [t[0]] + u;
    }
  }

  /** Stripping twice is stripping once. */
  lemma StripIdempotent(s: seq<bv8>)
    ensures Stripped(Stripped(s)) == Stripped(s)
  {
    StripLeavesNoCode(s);
    NoCodeKept(Stripped(s));
  }

  /** The width the UTF-8 branch of display_width sums from index `i`: each
      decoded code point counts its `wcwidth`, or 1 when that is not
      positive. */
  function Width(s: seq<bv8>, i: nat, wcwidth: int -> int): (r: int)
    requires i <= |s|
    ensures r >= 0
    ensures i < |s| ==> r >= 1
    decreases |s| - i
  {
    if i == |s| then 0
    else
      var (cp, j) := NextCodePoint(s, i);
      var cw := wcwidth(cp);
      (if cw > 0 then cw else 1) + Width(s, j, wcwidth)
  }

  /** display_width: the length of the stripped string when the terminal is
      not UTF-8; otherwise the sum of the code points' column widths, with
      the libc `wcwidth` passed in. */
  method DisplayWidth(s: seq<bv8>, utf8: bool, wcwidth: int -> int) returns (w: int)
    ensures !utf8 ==> w == |Stripped(s)|
    ensures utf8 ==> w == Width(Stripped(s), 0, wcwidth)
  {
    var stripped := StripColors(s);
    if !utf8 {
      return |stripped|;
    }
    w := 0;
    var i := 0;
    while i < |stripped|
      invariant 0 <= i <= |stripped|
      invariant w + Width(stripped, i, wcwidth) == Width(stripped, 0, wcwidth)
      decreases |stripped| - i
    {
      var cp, next := Utf8NextCp(stripped, i);
      var cw := wcwidth(cp);
      w := w + (if cw > 0 then cw else 1);
      i := next;
    }
  }

  /** Each code point takes at least one column; when no code point is
      wider than one column the width is at most the number of bytes. */
  lemma {:induction false} WidthBounds(s: seq<bv8>, i: nat, wcwidth: int -> int)
    requires i <= |s|
    ensures (forall c :: wcwidth(c) <= 1) ==> Width(s, i, wcwidth) <= |s| - i
    decreases |s| - i
  {
    if i < |s| {
      var (cp, j) := NextCodePoint(s, i);
      WidthBounds(s, j, wcwidth);
    }
  }
}
