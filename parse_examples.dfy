/**
 * The resolver on the concrete inputs its unit tests use, and on the input
 * that shows an offset beyond the text slipping through unconverted.
 */
module ParseExamples {
  import opened Wrappers
  import opened Unicode
  import opened MessageEntities
  import opened EntityParse
  import opened ParseProperties

  lemma ThreeEqual<T>(s: seq<T>, t: seq<T>)
    requires |s| == 3 && |t| == 3
    requires s[0] == t[0] && s[1] == t[1] && s[2] == t[2]
    ensures s == t
  {
  }

  lemma FourEqual<T>(s: seq<T>, t: seq<T>)
    requires |s| == 4 && |t| == 4
    requires s[0] == t[0] && s[1] == t[1] && s[2] == t[2] && s[3] == t[3]
    ensures s == t
  {
  }

  /** The running lengths of "быба": each letter is one UTF-16 unit and two UTF-8 bytes. */
  lemma CyrillicOffsets(text: string)
    requires text == "быба"
    ensures PrefixLen(Utf16, text, 0) == 0 && PrefixLen(Utf8, text, 0) == 0
    ensures PrefixLen(Utf16, text, 1) == 1 && PrefixLen(Utf8, text, 1) == 2
    ensures PrefixLen(Utf16, text, 2) == 2 && PrefixLen(Utf8, text, 2) == 4
    ensures PrefixLen(Utf16, text, 3) == 3 && PrefixLen(Utf8, text, 3) == 6
    ensures PrefixLen(Utf16, text, 4) == 4 && PrefixLen(Utf8, text, 4) == 8
    ensures text[0..1] == "б" && text[1..2] == "ы" && text[2..3] == "б" && text[3..4] == "а"
  {
    assert text[0] as int == 0x431 && text[1] as int == 0x44B && text[2] as int == 0x431 && text[3] as int == 0x430;
    assert forall k :: 0 <= k < 4 ==> Width(Utf8, text[k]) == 2 && Width(Utf16, text[k]) == 1;
    assert PrefixLen(Utf8, text, 0) == 0 && PrefixLen(Utf16, text, 0) == 0;
    assert PrefixLen(Utf16, text, 1) == 1 && PrefixLen(Utf8, text, 1) == 2;
    assert PrefixLen(Utf16, text, 2) == 2 && PrefixLen(Utf8, text, 2) == 4;
    assert PrefixLen(Utf16, text, 3) == 3 && PrefixLen(Utf8, text, 3) == 6;
    assert PrefixLen(Utf16, text, 4) == 4 && PrefixLen(Utf8, text, 4) == 8;
  }

  /** Four one-unit entities over four two-byte Cyrillic letters resolve to one letter each. */
  lemma ParseCyrillic(text: string, es: seq<MessageEntity>)
    requires text == "быба"
    requires es == [MessageEntity(Strikethrough, 0, 1), MessageEntity(Bold, 1, 1),
                    MessageEntity(Italic, 2, 1), MessageEntity(Code, 3, 1)]
    ensures ParseSpec(text, es)
            == Success([MessageEntityRef(text, ByteRange(0, 2), Strikethrough),
                        MessageEntityRef(text, ByteRange(2, 4), Bold),
                        MessageEntityRef(text, ByteRange(4, 6), Italic),
                        MessageEntityRef(text, ByteRange(6, 8), Code)])
  {
    CyrillicOffsets(text);
    ParseResolvesAllBoundaries(text, es, [0, 1, 2, 3], [1, 2, 3, 4]);
    var refs := ParseSpec(text, es).value;
    var expected := [MessageEntityRef(text, ByteRange(0, 2), Strikethrough),
                     MessageEntityRef(text, ByteRange(2, 4), Bold),
                     MessageEntityRef(text, ByteRange(4, 6), Italic),
                     MessageEntityRef(text, ByteRange(6, 8), Code)];
    assert refs[0] == expected[0] && refs[1] == expected[1] && refs[2] == expected[2] && refs[3] == expected[3];
    FourEqual(refs, expected);
  }

  /** The texts of the four refs of `ParseCyrillic` are the four letters. */
  lemma CyrillicTexts(text: string, es: seq<MessageEntity>)
    requires text == "быба"
    requires es == [MessageEntity(Strikethrough, 0, 1), MessageEntity(Bold, 1, 1),
                    MessageEntity(Italic, 2, 1), MessageEntity(Code, 3, 1)]
    ensures ParseSpec(text, es).Success? && |ParseSpec(text, es).value| == 4
    ensures ParseSpec(text, es).value[0].Text() == Some("б")
    ensures ParseSpec(text, es).value[1].Text() == Some("ы")
    ensures ParseSpec(text, es).value[2].Text() == Some("б")
    ensures ParseSpec(text, es).value[3].Text() == Some("а")
  {
    ParseCyrillic(text, es);
    CyrillicOffsets(text);
    TextOfBoundaries(text, 0, 1, Strikethrough);
    TextOfBoundaries(text, 1, 2, Bold);
    TextOfBoundaries(text, 2, 3, Italic);
    TextOfBoundaries(text, 3, 4, Code);
  }

  /** The running lengths of "xx আ #tt": every character is one UTF-16 unit, the Bengali letter three UTF-8 bytes. */
  lemma BengaliOffsets(text: string)
    requires text == "xx আ #tt"
    ensures forall k :: 0 <= k <= 8 ==> PrefixLen(Utf16, text, k) == k
    ensures PrefixLen(Utf8, text, 5) == 7 && PrefixLen(Utf8, text, 8) == 10
    ensures text[5..8] == "#tt"
  {
    assert text[3] as int == 0x986;
    assert forall k :: 0 <= k < 8 && k != 3 ==> text[k] as int < 0x80;
    assert forall k :: 0 <= k < 8 ==> Width(Utf16, text[k]) == 1;
    assert Width(Utf8, text[3]) == 3;
    assert PrefixLen(Utf8, text, 0) == 0 && PrefixLen(Utf16, text, 0) == 0;
    assert PrefixLen(Utf16, text, 1) == 1 && PrefixLen(Utf8, text, 1) == 1;
    assert PrefixLen(Utf16, text, 2) == 2 && PrefixLen(Utf8, text, 2) == 2;
    assert PrefixLen(Utf16, text, 3) == 3 && PrefixLen(Utf8, text, 3) == 3;
    assert PrefixLen(Utf16, text, 4) == 4 && PrefixLen(Utf8, text, 4) == 6;
    assert PrefixLen(Utf16, text, 5) == 5 && PrefixLen(Utf8, text, 5) == 7;
    assert PrefixLen(Utf16, text, 6) == 6 && PrefixLen(Utf8, text, 6) == 8;
    assert PrefixLen(Utf16, text, 7) == 7 && PrefixLen(Utf8, text, 7) == 9;
    assert PrefixLen(Utf16, text, 8) == 8 && PrefixLen(Utf8, text, 8) == 10;
  }

  /** A hashtag after a three-byte letter: UTF-16 offset 5 is UTF-8 offset 7, and its text is "#tt". */
  lemma ParseBengali(text: string, es: seq<MessageEntity>)
    requires text == "xx আ #tt"
    requires es == [MessageEntity(Hashtag, 5, 3)]
    ensures ParseSpec(text, es) == Success([MessageEntityRef(text, ByteRange(7, 10), Hashtag)])
    ensures ParseSpec(text, es).value[0].Text() == Some("#tt")
  {
    BengaliOffsets(text);
    ParseResolvesAllBoundaries(text, es, [5], [8]);
    TextOfBoundaries(text, 5, 8, Hashtag);
    assert ParseSpec(text, es).value == [MessageEntityRef(text, ByteRange(7, 10), Hashtag)];
  }

  /** Nested entities over ASCII text keep their offsets and resolve independently of each other. */
  lemma ParseEnclosed(text: string, es: seq<MessageEntity>)
    requires text == "b i b"
    requires es == [MessageEntity(Bold, 0, 2), MessageEntity(Bold, 2, 3), MessageEntity(Italic, 2, 1)]
    ensures ParseSpec(text, es)
            == Success([MessageEntityRef(text, ByteRange(0, 2), Bold),
                        MessageEntityRef(text, ByteRange(2, 5), Bold),
                        MessageEntityRef(text, ByteRange(2, 3), Italic)])
    ensures ParseSpec(text, es).value[0].Text() == Some("b ")
    ensures ParseSpec(text, es).value[1].Text() == Some("i b")
    ensures ParseSpec(text, es).value[2].Text() == Some("i")
  {
    assert forall k :: 0 <= k < |text| ==> text[k] as int < 0x80;
    ParseAsciiIsIdentity(text, es);
    var refs := seq(|es|, i requires 0 <= i < |es| => RawRef(text, es[i]));
    var expected := [MessageEntityRef(text, ByteRange(0, 2), Bold),
                     MessageEntityRef(text, ByteRange(2, 5), Bold),
                     MessageEntityRef(text, ByteRange(2, 3), Italic)];
    assert refs[0] == expected[0] && refs[1] == expected[1] && refs[2] == expected[2];
    ThreeEqual(refs, expected);
    AsciiOffsetsCoincide(text, 0);
    AsciiOffsetsCoincide(text, 2);
    AsciiOffsetsCoincide(text, 3);
    AsciiOffsetsCoincide(text, 5);
    TextOfBoundaries(text, 0, 2, Bold);
    TextOfBoundaries(text, 2, 5, Bold);
    TextOfBoundaries(text, 2, 3, Italic);
    EnclosedSlices(text);
  }

  lemma EnclosedSlices(text: string)
    requires text == "b i b"
    ensures text[0..2] == "b " && text[2..5] == "i b" && text[2..3] == "i"
  {
  }

  /** No entities, no refs. */
  lemma ParseNothing(text: string, es: seq<MessageEntity>)
    requires text == "a" && es == []
    ensures ParseSpec(text, es) == Success([])
  {
    assert ParseSpec(text, es).Success?;
    assert |ParseSpec(text, es).value| == 0;
  }

  /** Empty entities over the empty text resolve to empty ranges with empty text. */
  lemma ParseEmpty(text: string, es: seq<MessageEntity>)
    requires text == ""
    requires es == [MessageEntity(Bold, 0, 0), MessageEntity(Italic, 0, 0)]
    ensures ParseSpec(text, es)
            == Success([MessageEntityRef(text, ByteRange(0, 0), Bold),
                        MessageEntityRef(text, ByteRange(0, 0), Italic)])
    ensures ParseSpec(text, es).value[0].Text() == Some("")
    ensures ParseSpec(text, es).value[1].Text() == Some("")
  {
    ParseAsciiIsIdentity(text, es);
    var refs := seq(|es|, i requires 0 <= i < |es| => RawRef(text, es[i]));
    assert refs == [MessageEntityRef(text, ByteRange(0, 0), Bold),
                    MessageEntityRef(text, ByteRange(0, 0), Italic)];
    TextOfBoundaries(text, 0, 0, Bold);
    TextOfBoundaries(text, 0, 0, Italic);
  }

  /**
   * An end offset one unit beyond a three-letter Cyrillic text is never
   * reached by the walk and keeps its raw UTF-16 value 4, which happens to be
   * the UTF-8 boundary after two letters: the call succeeds with text "бб"
   * instead of reporting the invalid offset. The strict resolver rejects it.
   */
  lemma PastEndOffsetKeptRaw(text: string, es: seq<MessageEntity>)
    requires text == "ббб"
    requires es == [MessageEntity(Bold, 0, 4)]
    ensures TotalLen(Utf16, text) == 3
    ensures ParseSpec(text, es) == Success([MessageEntityRef(text, ByteRange(0, 4), Bold)])
    ensures ParseSpec(text, es).value[0].Text() == Some("бб")
    ensures ParseStrictSpec(text, es) == Failure(InvalidUtf16Offset)
  {
    assert forall k :: 0 <= k < 3 ==> text[k] as int == 0x431;
    assert PrefixLen(Utf8, text, 0) == 0 && PrefixLen(Utf16, text, 0) == 0;
    assert PrefixLen(Utf16, text, 1) == 1 && PrefixLen(Utf8, text, 1) == 2;
    assert PrefixLen(Utf16, text, 2) == 2 && PrefixLen(Utf8, text, 2) == 4;
    assert PrefixLen(Utf16, text, 3) == 3;
    LocateBoundary(text, 0);
    assert Locate(text, 4) == PastEnd;
    assert !Misaligned(text, es[0]);
    assert ParseSpec(text, es).value == [MessageEntityRef(text, ByteRange(0, 4), Bold)];
    TextOfBoundaries(text, 0, 2, Bold);
    assert text[0..2] == "бб";
    assert !OnBoundaries(text, es[0]);
  }

  /**
   * A one-unit entity starting exactly at the end of "ббб": its start is
   * patched by the sentinel step to byte 6, its end stays raw at 4. The ref
   * comes back with the reversed range 6..4, which has no text (Rust's
   * `text()` panics on it); the strict resolver rejects the entity.
   */
  lemma PastEndRangeReversed(text: string, es: seq<MessageEntity>)
    requires text == "ббб"
    requires es == [MessageEntity(Bold, 3, 1)]
    ensures ParseSpec(text, es) == Success([MessageEntityRef(text, ByteRange(6, 4), Bold)])
    ensures ParseSpec(text, es).value[0].Text() == None
    ensures ParseStrictSpec(text, es) == Failure(InvalidUtf16Offset)
  {
    assert forall k :: 0 <= k < 3 ==> text[k] as int == 0x431;
    assert PrefixLen(Utf8, text, 0) == 0 && PrefixLen(Utf16, text, 0) == 0;
    assert PrefixLen(Utf16, text, 1) == 1 && PrefixLen(Utf8, text, 1) == 2;
    assert PrefixLen(Utf16, text, 2) == 2 && PrefixLen(Utf8, text, 2) == 4;
    assert PrefixLen(Utf16, text, 3) == 3 && PrefixLen(Utf8, text, 3) == 6;
    LocateBoundary(text, 3);
    assert Locate(text, 4) == PastEnd;
    assert !Misaligned(text, es[0]);
    assert ParseSpec(text, es).value == [MessageEntityRef(text, ByteRange(6, 4), Bold)];
    assert !OnBoundaries(text, es[0]);
  }
}
