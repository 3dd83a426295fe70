/** Little-endian fields and zero-terminated ASCII strings in a byte list. */
module PeBytes {
  import opened Wrappers

  type Byte = n: int | 0 <= n < 256

  type Bytes = seq<Byte>

  // ---------- reading ----------

  /** BitConverter.ToUInt16: throws unless both bytes exist. */
  function U16At(b: Bytes, off: int): Result<nat> {
    if off < 0 || off + 2 > |b| then Err else Ok(b[off] as int + 0x100 * b[off + 1] as int)
  }

  /** BitConverter.ToUInt32. */
  function U32At(b: Bytes, off: int): Result<nat> {
    if off < 0 || off + 4 > |b| then Err
    else Ok(b[off] as int + 0x100 * b[off + 1] as int + 0x1_0000 * b[off + 2] as int + 0x100_0000 * b[off + 3] as int)
  }

  /** BitConverter.ToInt32. */
  function I32At(b: Bytes, off: int): Result<int> {
    var v :- U32At(b, off);
    Ok(if v >= 0x8000_0000 then v - 0x1_0000_0000 else v)
  }

  /** Encoding.ASCII.GetString of one byte. */
  function DecodeByte(n: Byte): char {
    if n < 0x80 then n as char else '?'
  }

  function Decode(b: Bytes): string {
    seq(|b|, i requires 0 <= i < |b| => DecodeByte(b[i]))
  }

  /** The first NUL at or after `off`, or the end of the bytes. */
  function EndOfString(b: Bytes, off: nat): (r: nat)
    requires off <= |b|
    ensures off <= r <= |b|
    ensures forall k | off <= k < r :: b[k] != 0
    ensures r < |b| ==> b[r] == 0
    decreases |b| - off
  {
    if off == |b| || b[off] == 0 then off else EndOfString(b, off + 1)
  }

  /** ReadAsciiZ: throws when it starts beyond the end. */
  function StringAt(b: Bytes, off: nat): Result<string> {
    if off > |b| then Err else Ok(Decode(b[off..EndOfString(b, off)]))
  }

  method ReadAsciiZ(b: Bytes, off: nat) returns (r: Result<string>)
    ensures r == StringAt(b, off)
  {
    var end := off;
    while end < |b| && b[end] != 0
      invariant off <= end
      invariant off <= |b| ==> end <= |b| && EndOfString(b, off) == EndOfString(b, end)
    {
      end := end + 1;
    }
    if off > |b| {
      return Err;
    }
    r := Ok(Decode(b[off..end]));
  }

  // ---------- writing ----------

  function Le16(v: int): (r: Bytes)
    requires 0 <= v < 0x1_0000
    ensures |r| == 2
  {
    [v % 0x100, v / 0x100]
  }

  function Le32(v: int): (r: Bytes)
    requires 0 <= v < 0x1_0000_0000
    ensures |r| == 4
  {
    [v % 0x100, v / 0x100 % 0x100, v / 0x1_0000 % 0x100, v / 0x100_0000]
  }

  /** Encoding.ASCII.GetBytes. */
  function Encode(s: string): (r: Bytes)
    ensures |r| == |s|
  {
    seq(|s|, i requires 0 <= i < |s| => if (s[i] as int) < 0x80 then s[i] as int else '?' as int)
  }

  function AsciiZ(s: string): (r: Bytes)
    ensures |r| == |s| + 1
  {
    Encode(s) + [0]
  }

  /** Text the format can hold: ASCII without NUL. */
  predicate PlainAscii(s: string) {
    forall i | 0 <= i < |s| :: 0 < (s[i] as int) < 0x80
  }

  // ---------- reading back ----------

  lemma Le32Value(v: int)
    requires 0 <= v < 0x1_0000_0000
    ensures var r := Le32(v); r[0] as int + 0x100 * r[1] as int + 0x1_0000 * r[2] as int + 0x100_0000 * r[3] as int == v
  {
    var a := v / 0x100;
    var b := a / 0x100;
    assert v / 0x1_0000 == b;
    assert v / 0x100_0000 == b / 0x100;
  }

  lemma U32AtField(pre: Bytes, v: int, post: Bytes)
    requires 0 <= v < 0x1_0000_0000
    ensures U32At(pre + Le32(v) + post, |pre|) == Ok(v)
  {
    hide Le32;
    var b := pre + Le32(v) + post;
    Le32Value(v);
    assert b[|pre|] == Le32(v)[0] && b[|pre| + 1] == Le32(v)[1];
    assert b[|pre| + 2] == Le32(v)[2] && b[|pre| + 3] == Le32(v)[3];
  }

  lemma U16AtField(pre: Bytes, v: int, post: Bytes)
    requires 0 <= v < 0x1_0000
    ensures U16At(pre + Le16(v) + post, |pre|) == Ok(v)
  {
    var b := pre + Le16(v) + post;
    assert b[|pre|] == Le16(v)[0] && b[|pre| + 1] == Le16(v)[1];
  }

  lemma {:induction false} EndOfStringIs(b: Bytes, off: nat, end: nat)
    requires off <= end < |b| && b[end] == 0
    requires forall k | off <= k < end :: b[k] != 0
    ensures EndOfString(b, off) == end
  {
  }

  /** A written string is read back exactly. */
  lemma StringAtField(pre: Bytes, s: string, post: Bytes)
    requires PlainAscii(s)
    ensures StringAt(pre + AsciiZ(s) + post, |pre|) == Ok(s)
  {
    hide EndOfString;
    var b := pre + AsciiZ(s) + post;
    var end := |pre| + |s|;
    assert forall k | |pre| <= k < end :: b[k] == Encode(s)[k - |pre|] && b[k] != 0;
    assert b[end] == 0;
    EndOfStringIs(b, |pre|, end);
    assert b[|pre|..end] == Encode(s);
    assert Decode(Encode(s)) == s;
  }

  // ---------- arrays of fields ----------

  predicate AllU32(vs: seq<int>) {
    forall i | 0 <= i < |vs| :: 0 <= vs[i] < 0x1_0000_0000
  }

  function U32Array(vs: seq<int>): (r: Bytes)
    requires AllU32(vs)
    ensures |r| == 4 * |vs|
  {
    if vs == [] then [] else Le32(vs[0]) + U32Array(vs[1..])
  }

  /** Entry `i` of an array, with what stands before and after it. */
  lemma {:induction false} U32ArraySplit(vs: seq<int>, i: nat)
    requires AllU32(vs) && i < |vs|
    ensures U32Array(vs) == U32Array(vs[..i]) + Le32(vs[i]) + U32Array(vs[i + 1..])
  {
    hide Le32;
    if i == 0 {
      assert vs[..0] == [];
    } else {
      U32ArraySplit(vs[1..], i - 1);
      assert vs[1..][..i - 1] == vs[..i][1..];
      assert vs[1..][i..] == vs[i + 1..];
      assert vs[..i][0] == vs[0];
    }
  }

  lemma U32InSlice(vs: seq<int>, i: nat)
    requires AllU32(vs) && i < |vs|
    ensures AllU32(vs[..i]) && AllU32(vs[i + 1..]) && 0 <= vs[i] < 0x1_0000_0000
  {
  }

  lemma U32ArrayAt(pre: Bytes, vs: seq<int>, post: Bytes, i: nat)
    requires AllU32(vs) && i < |vs|
    ensures U32At(pre + U32Array(vs) + post, |pre| + 4 * i) == Ok(vs[i])
  {
    hide *;
    U32ArraySplit(vs, i);
    U32InSlice(vs, i);
    var before, after := U32Array(vs[..i]), U32Array(vs[i + 1..]);
    Regroup(pre, before, Le32(vs[i]), after, post);
    U32AtField(pre + before, vs[i], after + post);
  }

  lemma Regroup(a: Bytes, b: Bytes, c: Bytes, d: Bytes, e: Bytes)
    ensures a + (b + c + d) + e == (a + b) + c + (d + e)
  {
  }

  /** The ordinals `from`, ..., `n` - 1. */
  function Ordinals(from: nat, n: nat): (r: Bytes)
    requires from <= n <= 0x1_0000
    ensures |r| == 2 * (n - from)
    decreases n - from
  {
    if from == n then [] else Le16(from) + Ordinals(from + 1, n)
  }

  lemma {:induction false} OrdinalAt(pre: Bytes, from: nat, n: nat, post: Bytes, i: nat)
    requires from <= i < n <= 0x1_0000
    ensures U16At(pre + Ordinals(from, n) + post, |pre| + 2 * (i - from)) == Ok(i)
    decreases i - from
  {
    hide Le16, U16At;
    if from == i {
      assert pre + Ordinals(from, n) + post == pre + Le16(from) + (Ordinals(from + 1, n) + post);
      U16AtField(pre, from, Ordinals(from + 1, n) + post);
    } else {
      assert pre + Ordinals(from, n) + post == (pre + Le16(from)) + Ordinals(from + 1, n) + post;
      OrdinalAt(pre + Le16(from), from + 1, n, post, i);
    }
  }

  // ---------- packed strings ----------

  function Packed(ss: seq<string>): Bytes {
    if ss == [] then [] else AsciiZ(ss[0]) + Packed(ss[1..])
  }

  /** Where each string of a packed list that starts at `base` starts. */
  function Starts(base: nat, ss: seq<string>): (r: seq<int>)
    ensures |r| == |ss|
    ensures forall i | 0 <= i < |r| :: base <= r[i] < base + |Packed(ss)|
    decreases |ss|
  {
    if ss == [] then [] else [base] + Starts(base + |ss[0]| + 1, ss[1..])
  }

  /** Each packed string is read back at its recorded start. */
  lemma {:induction false} PackedAt(pre: Bytes, ss: seq<string>, post: Bytes, i: nat)
    requires i < |ss| && forall j | 0 <= j < |ss| :: PlainAscii(ss[j])
    ensures StringAt(pre + Packed(ss) + post, Starts(|pre|, ss)[i]) == Ok(ss[i])
    decreases |ss|
  {
    hide AsciiZ, StringAt, PlainAscii;
    var head, rest := AsciiZ(ss[0]), Packed(ss[1..]);
    if i == 0 {
      assert pre + Packed(ss) + post == pre + head + (rest + post);
      StringAtField(pre, ss[0], rest + post);
    } else {
      assert pre + Packed(ss) + post == (pre + head) + rest + post;
      PackedAt(pre + head, ss[1..], post, i - 1);
    }
  }
}
