/**
 * Character widths and running offsets in the two encodings the entity
 * resolver converts between: the remote API counts UTF-16 code units, the
 * in-memory string is indexed by UTF-8 bytes.
 *
 * A text is a Dafny `string`, a sequence of Unicode scalar values, which is
 * what iterating a Rust `&str` with `chars()` yields.
 */
module Unicode {
  import opened Wrappers

  datatype Encoding = Utf8 | Utf16

  /** The largest code unit of an encoding, plus one. */
  function UnitLimit(enc: Encoding): nat
  {
    match enc
    case Utf8 => 0x100
    case Utf16 => 0x1_0000
  }

  /**
   * Number of code units `c` takes: Rust's `char::len_utf8` (1 to 4 bytes)
   * and `char::len_utf16` (1 unit, or 2 for a surrogate pair).
   */
  function Width(enc: Encoding, c: char): (w: nat)
    ensures 1 <= w <= (if enc == Utf8 then 4 else 2)
    ensures c as int < 0x80 ==> w == 1
  {
    var v := c as int;
    match enc
    case Utf8 => if v < 0x80 then 1 else if v < 0x800 then 2 else if v < 0x1_0000 then 3 else 4
    case Utf16 => if v < 0x1_0000 then 1 else 2
  }

  /**
   * The code units of `c`. This is the meaning of `Width`: the encoding of
   * `c` is exactly `Width(enc, c)` units long, every unit fits the encoding,
   * and a two-unit UTF-16 encoding is a high surrogate followed by a low one.
   */
  function Encode(enc: Encoding, c: char): (units: seq<int>)
    ensures |units| == Width(enc, c)
    ensures forall i :: 0 <= i < |units| ==> 0 <= units[i] < UnitLimit(enc)
    ensures enc == Utf16 && |units| == 2 ==>
              0xD800 <= units[0] < 0xDC00 && 0xDC00 <= units[1] < 0xE000
    ensures enc == Utf8 && |units| > 1 ==>
              0xC0 <= units[0] && forall i :: 1 <= i < |units| ==> 0x80 <= units[i] < 0xC0
  {
    var v := c as int;
    match enc
    case Utf8 =>
      if v < 0x80 then [v]
      else if v < 0x800 then [0xC0 + v / 0x40, 0x80 + v % 0x40]
      else if v < 0x1_0000 then [0xE0 + v / 0x1000, 0x80 + (v / 0x40) % 0x40, 0x80 + v % 0x40]
      else [0xF0 + v / 0x4_0000, 0x80 + (v / 0x1000) % 0x40, 0x80 + (v / 0x40) % 0x40, 0x80 + v % 0x40]
    case Utf16 =>
      if v < 0x1_0000 then [v]
      else [0xD800 + (v - 0x1_0000) / 0x400, 0xDC00 + (v - 0x1_0000) % 0x400]
  }

  /** The units `f` gives every character of `s`, one character after the other. */
  function Concat(f: char -> seq<int>, s: string): seq<int>
  {
    if s == [] then [] else Concat(f, s[..|s| - 1]) + f(s[|s| - 1])
  }

  /** `Encode` for one encoding, as a function value. */
  function Encoder(enc: Encoding): char -> seq<int>
  {
    c => Encode(enc, c)
  }

  /** The encoding of a whole text, character after character. */
  function EncodeText(enc: Encoding, s: string): seq<int>
  {
    Concat(Encoder(enc), s)
  }

  /**
   * The running length, in code units of `enc`, after the first `k`
   * characters of `text`: the `len_utf8` / `len_utf16` accumulators of the
   * resolver's walk.
   */
  function PrefixLen(enc: Encoding, text: string, k: nat): nat
    requires k <= |text|
  {
    if k == 0 then 0 else PrefixLen(enc, text, k - 1) + Width(enc, text[k - 1])
  }

  /** Total length of `text` in code units of `enc`: the length of its encoding. */
  function TotalLen(enc: Encoding, text: string): (n: nat)
    ensures n == |EncodeText(enc, text)|
    ensures |text| <= n
  {
    PrefixLenIsEncodedLength(enc, text, |text|);
    PrefixLenGrows(enc, text, 0, |text|);
    assert text[..|text|] == text;
    PrefixLen(enc, text, |text|)
  }

  lemma {:induction false} ConcatAppend(f: char -> seq<int>, a: string, b: string)
    ensures Concat(f, a + b) == Concat(f, a) + Concat(f, b)
    decreases |b|
  {
    if b == [] {
      assert a + b == a;
    } else {
      var b' := b[..|b| - 1];
      assert (a + b)[..|a + b| - 1] == a + b';
      assert (a + b)[|a + b| - 1] == b[|b| - 1];
      ConcatAppend(f, a, b');
    }
  }

  /** Encoding distributes over concatenation of texts. */
  lemma EncodeTextAppend(enc: Encoding, a: string, b: string)
    ensures EncodeText(enc, a + b) == EncodeText(enc, a) + EncodeText(enc, b)
  {
    ConcatAppend(Encoder(enc), a, b);
  }

  lemma EncodeTextSingle(enc: Encoding, c: char)
    ensures EncodeText(enc, [c]) == Encode(enc, c)
  {
    assert [c][..0] == [];
    assert Concat(Encoder(enc), [c]) == Concat(Encoder(enc), []) + Encoder(enc)(c);
  }

  /** The running length after `k` characters is the length of their encoding. */
  lemma {:induction false} PrefixLenIsEncodedLength(enc: Encoding, text: string, k: nat)
    requires k <= |text|
    ensures PrefixLen(enc, text, k) == |EncodeText(enc, text[..k])|
  {
    if k > 0 {
      assert text[..k][..k - 1] == text[..k - 1];
      PrefixLenIsEncodedLength(enc, text, k - 1);
    }
  }

  /** Every character takes at least one unit, so running lengths strictly grow. */
  lemma {:induction false} PrefixLenGrows(enc: Encoding, text: string, i: nat, j: nat)
    requires i <= j <= |text|
    ensures PrefixLen(enc, text, i) + (j - i) <= PrefixLen(enc, text, j)
    decreases j - i
  {
    if i < j {
      PrefixLenGrows(enc, text, i, j - 1);
    }
  }

  /** Equal running lengths can only come from the same character count. */
  lemma PrefixLenInjective(enc: Encoding, text: string, i: nat, j: nat)
    requires i <= |text| && j <= |text|
    requires PrefixLen(enc, text, i) == PrefixLen(enc, text, j)
    ensures i == j
  {
    if i < j {
      PrefixLenGrows(enc, text, i, j);
    } else if j < i {
      PrefixLenGrows(enc, text, j, i);
    }
  }

  /**
   * Cutting the encoded text at the running lengths of two character
   * positions gives the encoding of the characters between them.
   */
  lemma EncodedSlice(enc: Encoding, text: string, i: nat, j: nat)
    requires i <= j <= |text|
    ensures PrefixLen(enc, text, i) <= PrefixLen(enc, text, j) <= |EncodeText(enc, text)|
    ensures EncodeText(enc, text)[PrefixLen(enc, text, i)..PrefixLen(enc, text, j)]
            == EncodeText(enc, text[i..j])
  {
    assert text == text[..i] + text[i..j] + text[j..];
    assert text[..j] == text[..i] + text[i..j];
    EncodeTextAppend(enc, text[..i] + text[i..j], text[j..]);
    EncodeTextAppend(enc, text[..i], text[i..j]);
    PrefixLenIsEncodedLength(enc, text, i);
    PrefixLenIsEncodedLength(enc, text, j);
    PrefixLenIsEncodedLength(enc, text, |text|);
    PrefixLenGrows(enc, text, i, j);
    PrefixLenGrows(enc, text, j, |text|);
    assert text[..|text|] == text;
  }

  /** `o` is the running length, in units of `enc`, at some character position of `text`. */
  predicate IsBoundary(enc: Encoding, text: string, o: nat)
  {
    exists k :: 0 <= k <= |text| && PrefixLen(enc, text, k) == o
  }

  /** Rust's `str::is_char_boundary`. */
  predicate IsCharBoundary(text: string, b: nat)
  {
    IsBoundary(Utf8, text, b)
  }

  /** The character position, at or after `from`, whose UTF-8 offset is `b`. */
  function CharIndex(text: string, b: nat, from: nat): (r: Option<nat>)
    requires from <= |text| + 1
    ensures r.Some? ==> from <= r.value <= |text| && PrefixLen(Utf8, text, r.value) == b
    ensures r.None? ==> forall k :: from <= k <= |text| ==> PrefixLen(Utf8, text, k) != b
    decreases |text| + 1 - from
  {
    if from > |text| then None
    else if PrefixLen(Utf8, text, from) == b then Some(from)
    else CharIndex(text, b, from + 1)
  }

  /** On pure ASCII text, UTF-8 and UTF-16 offsets both equal the character count. */
  lemma {:induction false} AsciiOffsetsCoincide(text: string, k: nat)
    requires forall i :: 0 <= i < |text| ==> text[i] as int < 0x80
    requires k <= |text|
    ensures PrefixLen(Utf8, text, k) == k == PrefixLen(Utf16, text, k)
  {
    if k > 0 {
      AsciiOffsetsCoincide(text, k - 1);
    }
  }
}
