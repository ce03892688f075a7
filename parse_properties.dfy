/**
 * What the resolver guarantees, stated about `ParseSpec` (which `Parse`
 * computes): order and kinds are kept, offsets on character boundaries are
 * converted to the UTF-8 offsets of the same boundaries, the resolved text
 * is exactly the characters the UTF-16 span covers, and the call fails
 * exactly when an offset splits a surrogate pair.
 */
module ParseProperties {
  import opened Wrappers
  import opened Unicode
  import opened MessageEntities
  import opened EntityParse

  /** On success, ref `i` is entity `i`'s raw range with both ends patched. */
  lemma ParseValueAt(text: string, entities: seq<MessageEntity>, i: nat)
    requires ParseSpec(text, entities).Success? && i < |entities|
    ensures |ParseSpec(text, entities).value| == |entities|
    ensures ParseSpec(text, entities).value[i] == PatchRef(text, RawRef(text, entities[i]))
  {
  }

  /** One ref per entity, in the same order, with the entity's kind and the unchanged text. */
  lemma ParseKeepsOrder(text: string, entities: seq<MessageEntity>)
    requires ParseSpec(text, entities).Success?
    ensures |ParseSpec(text, entities).value| == |entities|
    ensures forall i :: 0 <= i < |entities| ==>
              ParseSpec(text, entities).value[i].Kind() == entities[i].kind
              && ParseSpec(text, entities).value[i].MessageText() == text
  {
  }

  /** `o` points between the two UTF-16 units of a character encoded as a surrogate pair. */
  predicate SplitsSurrogatePair(text: string, o: nat)
  {
    exists k :: 0 <= k < |text| && Width(Utf16, text[k]) == 2 && o == PrefixLen(Utf16, text, k) + 1
  }

  lemma LocateInsideIffSplit(text: string, o: nat)
    ensures Locate(text, o) == InsideChar <==> SplitsSurrogatePair(text, o)
  {
    LocateCases(text, o);
    if SplitsSurrogatePair(text, o) {
      var k :| 0 <= k < |text| && Width(Utf16, text[k]) == 2 && o == PrefixLen(Utf16, text, k) + 1;
      LocateInside(text, k, o);
    }
  }

  /** The UTF-16 encoding of a two-unit character `text[k]` is a high then a low surrogate. */
  lemma SurrogatePairAt(text: string, k: nat)
    requires k < |text| && Width(Utf16, text[k]) == 2
    ensures PrefixLen(Utf16, text, k) + 1 < |EncodeText(Utf16, text)|
    ensures 0xD800 <= EncodeText(Utf16, text)[PrefixLen(Utf16, text, k)] < 0xDC00
    ensures 0xDC00 <= EncodeText(Utf16, text)[PrefixLen(Utf16, text, k) + 1] < 0xE000
  {
    var p := PrefixLen(Utf16, text, k);
    var all := EncodeText(Utf16, text);
    var units := Encode(Utf16, text[k]);
    assert PrefixLen(Utf16, text, k + 1) == p + 2;
    EncodedSlice(Utf16, text, k, k + 1);
    assert p + 2 <= |all|;
    assert text[k..k + 1] == [text[k]];
    EncodeTextSingle(Utf16, text[k]);
    assert all[p..p + 2] == units;
    PairOfSlice(all, p, units);
  }

  lemma PairOfSlice(s: seq<int>, p: nat, u: seq<int>)
    requires p + 2 <= |s| && s[p..p + 2] == u
    ensures s[p] == u[0] && s[p + 1] == u[1]
  {
    assert s[p..p + 2][0] == s[p] && s[p..p + 2][1] == s[p + 1];
  }

  /** Such an offset sits between a high and a low surrogate of the UTF-16 encoded text. */
  lemma SplitOffsetIsBetweenSurrogates(text: string, o: nat)
    requires SplitsSurrogatePair(text, o)
    ensures 0 < o < |EncodeText(Utf16, text)|
    ensures 0xD800 <= EncodeText(Utf16, text)[o - 1] < 0xDC00
    ensures 0xDC00 <= EncodeText(Utf16, text)[o] < 0xE000
  {
    var k :| 0 <= k < |text| && Width(Utf16, text[k]) == 2 && o == PrefixLen(Utf16, text, k) + 1;
    SurrogatePairAt(text, k);
  }

  /**
   * The call fails ("Invalid utf-16 offset") exactly when the offset or the
   * end of some entity splits a surrogate pair.
   */
  lemma ParseFailsIffSplit(text: string, entities: seq<MessageEntity>)
    ensures ParseSpec(text, entities).Failure? <==>
              exists i :: 0 <= i < |entities|
                && (SplitsSurrogatePair(text, entities[i].offset)
                    || SplitsSurrogatePair(text, entities[i].offset + entities[i].length))
  {
    forall i | 0 <= i < |entities|
      ensures Misaligned(text, entities[i]) <==>
                SplitsSurrogatePair(text, entities[i].offset)
                || SplitsSurrogatePair(text, entities[i].offset + entities[i].length)
    {
      MisalignedIffSplit(text, entities[i]);
    }
    assert ParseSpec(text, entities).Failure? <==> exists i :: 0 <= i < |entities| && Misaligned(text, entities[i]);
  }

  lemma MisalignedIffSplit(text: string, e: MessageEntity)
    ensures Misaligned(text, e) <==>
              SplitsSurrogatePair(text, e.offset) || SplitsSurrogatePair(text, e.offset + e.length)
  {
    var o, f := e.offset, e.offset + e.length;
    assert Misaligned(text, e) <==> Locate(text, o) == InsideChar || Locate(text, f) == InsideChar;
    LocateInsideIffSplit(text, o);
    LocateInsideIffSplit(text, f);
  }

  /** Entities whose both ends are UTF-16 boundaries of the text never make the call fail. */
  lemma ParseSucceedsOnBoundaries(text: string, entities: seq<MessageEntity>)
    requires forall i :: 0 <= i < |entities| ==>
               IsBoundary(Utf16, text, entities[i].offset)
               && IsBoundary(Utf16, text, entities[i].offset + entities[i].length)
    ensures ParseSpec(text, entities).Success?
  {
    forall i | 0 <= i < |entities|
      ensures !Misaligned(text, entities[i])
    {
      LocateCases(text, entities[i].offset);
      LocateCases(text, entities[i].offset + entities[i].length);
    }
  }

  /**
   * An entity spanning character positions `k1..k2` in UTF-16 units is
   * resolved to the UTF-8 offsets of the same positions, and its text is
   * those characters.
   */
  lemma ParseResolvesBoundaries(text: string, entities: seq<MessageEntity>, i: nat, k1: nat, k2: nat)
    requires ParseSpec(text, entities).Success?
    requires i < |entities| && k1 <= |text| && k2 <= |text|
    requires entities[i].offset == PrefixLen(Utf16, text, k1)
    requires entities[i].offset + entities[i].length == PrefixLen(Utf16, text, k2)
    ensures k1 <= k2
    ensures ParseSpec(text, entities).value[i]
            == MessageEntityRef(text, ByteRange(PrefixLen(Utf8, text, k1), PrefixLen(Utf8, text, k2)), entities[i].kind)
    ensures ParseSpec(text, entities).value[i].Text() == Some(text[k1..k2])
  {
    if k2 < k1 {
      PrefixLenGrows(Utf16, text, k2, k1);
    }
    LocateBoundary(text, k1);
    LocateBoundary(text, k2);
    var raw := RawRef(text, entities[i]);
    assert raw == MessageEntityRef(text, ByteRange(PrefixLen(Utf16, text, k1), PrefixLen(Utf16, text, k2)), entities[i].kind);
    var r := PatchRef(text, raw);
    assert ParseSpec(text, entities).value[i] == r;
    assert r == MessageEntityRef(text, ByteRange(PrefixLen(Utf8, text, k1), PrefixLen(Utf8, text, k2)), entities[i].kind);
    TextOfBoundaries(text, k1, k2, entities[i].kind);
  }

  /**
   * The text of such an entity is, encoded in UTF-16, exactly the declared
   * span of units, and encoded in UTF-8 exactly the resolved byte range.
   */
  lemma ParseKeepsEncodedSpan(text: string, entities: seq<MessageEntity>, i: nat, k1: nat, k2: nat)
    requires ParseSpec(text, entities).Success?
    requires i < |entities| && k1 <= |text| && k2 <= |text|
    requires entities[i].offset == PrefixLen(Utf16, text, k1)
    requires entities[i].offset + entities[i].length == PrefixLen(Utf16, text, k2)
    ensures k1 <= k2
    ensures entities[i].offset + entities[i].length <= |EncodeText(Utf16, text)|
    ensures EncodeText(Utf16, text[k1..k2])
            == EncodeText(Utf16, text)[entities[i].offset..entities[i].offset + entities[i].length]
    ensures ParseSpec(text, entities).value[i].Start() <= ParseSpec(text, entities).value[i].End()
            <= |EncodeText(Utf8, text)|
    ensures EncodeText(Utf8, text[k1..k2])
            == EncodeText(Utf8, text)[ParseSpec(text, entities).value[i].Start()..ParseSpec(text, entities).value[i].End()]
  {
    ParseResolvesBoundaries(text, entities, i, k1, k2);
    var lo, hi := PrefixLen(Utf16, text, k1), PrefixLen(Utf16, text, k2);
    EncodedSlice(Utf16, text, k1, k2);
    assert entities[i].offset == lo && entities[i].offset + entities[i].length == hi;
    assert EncodeText(Utf16, text)[lo..hi] == EncodeText(Utf16, text[k1..k2]);
    EncodedSlice(Utf8, text, k1, k2);
  }

  /**
   * The whole result when entity `i` spans character positions
   * `starts[i]..ends[i]` in UTF-16 units: every ref is the byte range of the
   * same positions, with the entity's kind.
   */
  lemma ParseResolvesAllBoundaries(text: string, entities: seq<MessageEntity>, starts: seq<nat>, ends: seq<nat>)
    requires |starts| == |entities| && |ends| == |entities|
    requires forall i :: 0 <= i < |entities| ==>
               starts[i] <= |text| && ends[i] <= |text|
               && entities[i].offset == PrefixLen(Utf16, text, starts[i])
               && entities[i].offset + entities[i].length == PrefixLen(Utf16, text, ends[i])
    ensures ParseSpec(text, entities).Success? && |ParseSpec(text, entities).value| == |entities|
    ensures forall i :: 0 <= i < |entities| ==>
              ParseSpec(text, entities).value[i]
              == MessageEntityRef(text, ByteRange(PrefixLen(Utf8, text, starts[i]), PrefixLen(Utf8, text, ends[i])),
                                  entities[i].kind)
  {
    ParseSucceedsOnBoundaries(text, entities);
    ParseKeepsOrder(text, entities);
    forall i | 0 <= i < |entities|
      ensures ParseSpec(text, entities).value[i]
              == MessageEntityRef(text, ByteRange(PrefixLen(Utf8, text, starts[i]), PrefixLen(Utf8, text, ends[i])),
                                  entities[i].kind)
    {
      ParseResolvesBoundaries(text, entities, i, starts[i], ends[i]);
    }
  }

  /**
   * An entity ending exactly at the end of the text, in UTF-16 units, ends
   * exactly at the end of the UTF-8 encoded text: the sentinel step of the
   * walk reaches it.
   */
  lemma ParseResolvesEndOfText(text: string, entities: seq<MessageEntity>, i: nat)
    requires ParseSpec(text, entities).Success?
    requires i < |entities| && entities[i].offset + entities[i].length == TotalLen(Utf16, text)
    ensures ParseSpec(text, entities).value[i].End() == TotalLen(Utf8, text) == |EncodeText(Utf8, text)|
  {
    ParseValueAt(text, entities, i);
    var o := entities[i].offset + entities[i].length;
    LocateBoundary(text, |text|);
    assert PatchedOffset(text, o) == PrefixLen(Utf8, text, |text|);
    assert ParseSpec(text, entities).value[i].End() == PatchedOffset(text, o);
    PrefixLenIsEncodedLength(Utf8, text, |text|);
    assert text[..|text|] == text;
  }

  /**
   * Each entity is resolved on its own: what the call returns for it is
   * what it returns for that entity alone, whatever the other entities are
   * and however they overlap it.
   */
  lemma ParseIsPerEntity(text: string, entities: seq<MessageEntity>, i: nat)
    requires ParseSpec(text, entities).Success? && i < |entities|
    ensures ParseSpec(text, [entities[i]]) == Success([ParseSpec(text, entities).value[i]])
  {
    var e := entities[i];
    assert !Misaligned(text, e);
    assert !(exists j :: 0 <= j < |[e]| && Misaligned(text, [e][j]));
    assert seq(1, j requires 0 <= j < 1 => PatchRef(text, RawRef(text, [e][j]))) == [PatchRef(text, RawRef(text, e))];
  }

  /** A smaller UTF-16 running length comes from an earlier character position. */
  lemma U16LtImpliesLt(text: string, a: nat, b: nat)
    requires a <= |text| && b <= |text|
    requires PrefixLen(Utf16, text, a) < PrefixLen(Utf16, text, b)
    ensures a < b
  {
    if b <= a {
      PrefixLenGrows(Utf16, text, b, a);
    }
  }

  /**
   * Two entities whose UTF-16 spans overlap are resolved to byte ranges
   * that overlap too.
   */
  lemma ParseKeepsOverlap(text: string, es: seq<MessageEntity>, x: nat, y: nat,
                          k1: nat, k2: nat, k3: nat, k4: nat)
    requires ParseSpec(text, es).Success? && x < |es| && y < |es|
    requires k1 <= |text| && k2 <= |text| && k3 <= |text| && k4 <= |text|
    requires es[x].offset == PrefixLen(Utf16, text, k1)
    requires es[x].offset + es[x].length == PrefixLen(Utf16, text, k2)
    requires es[y].offset == PrefixLen(Utf16, text, k3)
    requires es[y].offset + es[y].length == PrefixLen(Utf16, text, k4)
    requires es[y].offset < es[x].offset + es[x].length && es[x].offset < es[y].offset + es[y].length
    ensures ParseSpec(text, es).value[y].Start() < ParseSpec(text, es).value[x].End()
    ensures ParseSpec(text, es).value[x].Start() < ParseSpec(text, es).value[y].End()
  {
    U16LtImpliesLt(text, k3, k2);
    U16LtImpliesLt(text, k1, k4);
    ParseResolvesBoundaries(text, es, x, k1, k2);
    ParseResolvesBoundaries(text, es, y, k3, k4);
    PrefixLenGrows(Utf8, text, k3, k2);
    PrefixLenGrows(Utf8, text, k1, k4);
  }

  /** On ASCII text UTF-16 offsets are already byte offsets: every range is kept as given. */
  lemma ParseAsciiIsIdentity(text: string, entities: seq<MessageEntity>)
    requires forall k :: 0 <= k < |text| ==> text[k] as int < 0x80
    ensures ParseSpec(text, entities)
            == Success(seq(|entities|, i requires 0 <= i < |entities| => RawRef(text, entities[i])))
  {
    forall o: nat
      ensures Locate(text, o) != InsideChar && PatchedOffset(text, o) == o
    {
      if o <= |text| {
        AsciiOffsetsCoincide(text, o);
        LocateBoundary(text, o);
      } else {
        AsciiOffsetsCoincide(text, |text|);
      }
    }
    forall i | 0 <= i < |entities|
      ensures !Misaligned(text, entities[i])
      ensures PatchRef(text, RawRef(text, entities[i])) == RawRef(text, entities[i])
    {
      var e := entities[i];
      assert PatchedOffset(text, e.offset) == e.offset;
      assert PatchedOffset(text, e.offset + e.length) == e.offset + e.length;
    }
    assert !(exists i :: 0 <= i < |entities| && Misaligned(text, entities[i]));
    var patched := seq(|entities|, i requires 0 <= i < |entities| => PatchRef(text, RawRef(text, entities[i])));
    assert ParseSpec(text, entities) == Success(patched);
    assert patched == seq(|entities|, i requires 0 <= i < |entities| => RawRef(text, entities[i]));
  }

  /** The strict resolver succeeds exactly when every offset and end is a UTF-16 boundary of the text. */
  lemma ParseStrictSucceedsIffBoundaries(text: string, entities: seq<MessageEntity>)
    ensures ParseStrictSpec(text, entities).Success? <==>
              forall i :: 0 <= i < |entities| ==>
                IsBoundary(Utf16, text, entities[i].offset)
                && IsBoundary(Utf16, text, entities[i].offset + entities[i].length)
  {
    forall i | 0 <= i < |entities|
      ensures OnBoundaries(text, entities[i]) <==>
                IsBoundary(Utf16, text, entities[i].offset)
                && IsBoundary(Utf16, text, entities[i].offset + entities[i].length)
    {
      LocateCases(text, entities[i].offset);
      LocateCases(text, entities[i].offset + entities[i].length);
    }
    if forall i :: 0 <= i < |entities| ==> OnBoundaries(text, entities[i]) {
      forall i | 0 <= i < |entities|
        ensures !Misaligned(text, entities[i])
      {
        assert OnBoundaries(text, entities[i]);
      }
    }
  }

  /**
   * Every ref the strict resolver returns is a well-formed byte range of the
   * text on character boundaries, so its text can always be taken.
   */
  lemma ParseStrictRefsAreSlices(text: string, entities: seq<MessageEntity>, i: nat)
    requires ParseStrictSpec(text, entities).Success? && i < |entities|
    ensures ParseStrictSpec(text, entities) == ParseSpec(text, entities)
    ensures |ParseStrictSpec(text, entities).value| == |entities|
    ensures ParseStrictSpec(text, entities).value[i].Start()
            <= ParseStrictSpec(text, entities).value[i].End()
            <= |EncodeText(Utf8, text)|
    ensures ParseStrictSpec(text, entities).value[i].Text().Some?
  {
    ParseStrictSucceedsIffBoundaries(text, entities);
    assert ParseStrictSpec(text, entities) == ParseSpec(text, entities);
    var e := entities[i];
    assert IsBoundary(Utf16, text, e.offset) && IsBoundary(Utf16, text, e.offset + e.length);
    var k1 :| 0 <= k1 <= |text| && PrefixLen(Utf16, text, k1) == e.offset;
    var k2 :| 0 <= k2 <= |text| && PrefixLen(Utf16, text, k2) == e.offset + e.length;
    ParseKeepsEncodedSpan(text, entities, i, k1, k2);
    ParseResolvesBoundaries(text, entities, i, k1, k2);
  }
}
