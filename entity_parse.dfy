/**
 * The entity offset resolver: converts each entity's UTF-16 offset and end
 * into UTF-8 byte offsets into the same text, in one walk over the text.
 *
 * `ParseSpec` says declaratively where every offset lands; `Parse` is the
 * algorithm (raw refs, a descending stack of offset slots, a walk that pops
 * and patches them) and is proved to compute `ParseSpec`.
 */
module EntityParse {
  import opened Wrappers
  import opened Unicode
  import opened MessageEntities

  /** The resolver's one failure: the "Invalid utf-16 offset" assertion. */
  datatype ParseError = InvalidUtf16Offset

  /** Where a UTF-16 offset lands when the characters of a text are walked. */
  datatype Landing =
    | Boundary(byteOffset: nat)   // exactly on a character boundary, at this UTF-8 offset
    | InsideChar                  // strictly between two boundaries: inside a surrogate pair
    | PastEnd                     // beyond the end of the text: never reached by the walk

  // ---------------------------------------------------------------------------
  // Reference definition
  // ---------------------------------------------------------------------------

  /** The first character position at or after `k` whose UTF-16 offset reaches `o`. */
  function FirstReaching(text: string, o: nat, k: nat): (r: nat)
    requires k <= |text| && o <= TotalLen(Utf16, text)
    ensures k <= r <= |text| && o <= PrefixLen(Utf16, text, r)
    ensures forall j :: k <= j < r ==> PrefixLen(Utf16, text, j) < o
    decreases |text| - k
  {
    if o <= PrefixLen(Utf16, text, k) then k else FirstReaching(text, o, k + 1)
  }

  /** The walk reaches `o` at the first boundary whose UTF-16 offset is at least `o`. */
  function Locate(text: string, o: nat): Landing
  {
    if o > TotalLen(Utf16, text) then PastEnd
    else
      var k := FirstReaching(text, o, 0);
      if PrefixLen(Utf16, text, k) == o then Boundary(PrefixLen(Utf8, text, k)) else InsideChar
  }

  /** The value a slot holding `o` ends up with: patched on a boundary, otherwise untouched. */
  function PatchedOffset(text: string, o: nat): nat
  {
    match Locate(text, o)
    case Boundary(b) => b
    case _ => o
  }

  /** A ref as first built, still carrying the entity's raw UTF-16 range. */
  function RawRef(text: string, e: MessageEntity): MessageEntityRef
  {
    MessageEntityRef(text, ByteRange(e.offset, e.offset + e.length), e.kind)
  }

  /** A ref with both ends of its range patched. */
  function PatchRef(text: string, r: MessageEntityRef): MessageEntityRef
  {
    r.(range := ByteRange(PatchedOffset(text, r.range.start), PatchedOffset(text, r.range.end)))
  }

  /** The entity starts or ends strictly inside a character. */
  predicate Misaligned(text: string, e: MessageEntity)
  {
    Locate(text, e.offset) == InsideChar || Locate(text, e.offset + e.length) == InsideChar
  }

  /** What the resolver returns for `text` and `entities`. */
  function ParseSpec(text: string, entities: seq<MessageEntity>): Result<seq<MessageEntityRef>, ParseError>
  {
    if exists i :: 0 <= i < |entities| && Misaligned(text, entities[i]) then Failure(InvalidUtf16Offset)
    else Success(seq(|entities|, i requires 0 <= i < |entities| => PatchRef(text, RawRef(text, entities[i]))))
  }

  // ---------------------------------------------------------------------------
  // Offset slots
  // ---------------------------------------------------------------------------

  /** A reference to the start (`isEnd == false`) or end of one ref's range. */
  datatype Slot = Slot(entity: nat, isEnd: bool)

  function SlotGet(r: MessageEntityRef, isEnd: bool): nat
  {
    if isEnd then r.range.end else r.range.start
  }

  function SlotSet(r: MessageEntityRef, isEnd: bool, v: nat): MessageEntityRef
  {
    if isEnd then r.(range := r.range.(end := v)) else r.(range := r.range.(start := v))
  }

  function SlotValue(refs: seq<MessageEntityRef>, s: Slot): nat
    requires s.entity < |refs|
  {
    SlotGet(refs[s.entity], s.isEnd)
  }

  predicate SlotsWithin(n: nat, slots: seq<Slot>)
  {
    forall i :: 0 <= i < |slots| ==> slots[i].entity < n
  }

  predicate Distinct(s: seq<Slot>)
  {
    forall i, j :: 0 <= i < j < |s| ==> s[i] != s[j]
  }

  /** The start and end slot of every one of `n` refs, in ref order. */
  function SlotsOf(n: nat): (r: seq<Slot>)
    ensures |r| == 2 * n
    ensures forall k :: 0 <= k < |r| ==> r[k] == Slot(k / 2, k % 2 == 1)
  {
    if n == 0 then [] else SlotsOf(n - 1) + [Slot(n - 1, false), Slot(n - 1, true)]
  }

  /** Every slot of `n` refs is listed exactly once. */
  lemma SlotsOfCover(n: nat)
    ensures SlotsWithin(n, SlotsOf(n)) && Distinct(SlotsOf(n))
    ensures forall e, isEnd :: 0 <= e < n ==> Slot(e, isEnd) in SlotsOf(n)
  {
    var r := SlotsOf(n);
    forall e, isEnd | 0 <= e < n
      ensures Slot(e, isEnd) in r
    {
      var k := 2 * e + (if isEnd then 1 else 0);
      assert r[k] == Slot(e, isEnd);
    }
  }

  predicate SortedDesc(refs: seq<MessageEntityRef>, slots: seq<Slot>)
    requires SlotsWithin(|refs|, slots)
  {
    forall i, j :: 0 <= i < j < |slots| ==> SlotValue(refs, slots[i]) >= SlotValue(refs, slots[j])
  }

  /** `x` inserted into `s` before the first slot whose value is smaller. */
  function InsertDesc(refs: seq<MessageEntityRef>, x: Slot, s: seq<Slot>): (r: seq<Slot>)
    requires x.entity < |refs| && SlotsWithin(|refs|, s)
    ensures |r| == |s| + 1 && SlotsWithin(|refs|, r)
    ensures forall y :: y in r <==> y == x || y in s
    ensures multiset(r) == multiset(s) + multiset{x}
  {
    if s == [] || SlotValue(refs, x) >= SlotValue(refs, s[0]) then [x] + s
    else
      assert s == [s[0]] + s[1..];
      [s[0]] + InsertDesc(refs, x, s[1..])
  }

  lemma {:induction false} InsertDescSorted(refs: seq<MessageEntityRef>, x: Slot, s: seq<Slot>)
    requires x.entity < |refs| && SlotsWithin(|refs|, s) && SortedDesc(refs, s)
    ensures SortedDesc(refs, InsertDesc(refs, x, s))
  {
    if s != [] && SlotValue(refs, x) < SlotValue(refs, s[0]) {
      InsertDescSorted(refs, x, s[1..]);
      var rest := InsertDesc(refs, x, s[1..]);
      forall k | 0 <= k < |rest|
        ensures SlotValue(refs, s[0]) >= SlotValue(refs, rest[k])
      {
        assert rest[k] in rest;
      }
    }
  }

  lemma {:induction false} InsertDescDistinct(refs: seq<MessageEntityRef>, x: Slot, s: seq<Slot>)
    requires x.entity < |refs| && SlotsWithin(|refs|, s) && Distinct(s) && x !in s
    ensures Distinct(InsertDesc(refs, x, s))
  {
    if s != [] && SlotValue(refs, x) < SlotValue(refs, s[0]) {
      InsertDescDistinct(refs, x, s[1..]);
      var rest := InsertDesc(refs, x, s[1..]);
      forall k | 0 <= k < |rest|
        ensures s[0] != rest[k]
      {
        assert rest[k] in rest;
      }
    }
  }

  /** The slots ordered by decreasing current value, so the smallest is last. */
  function SortDesc(refs: seq<MessageEntityRef>, s: seq<Slot>): (r: seq<Slot>)
    requires SlotsWithin(|refs|, s)
    ensures |r| == |s| && SlotsWithin(|refs|, r) && SortedDesc(refs, r)
    ensures forall y :: y in r <==> y in s
    ensures multiset(r) == multiset(s)
    ensures Distinct(s) ==> Distinct(r)
  {
    if s == [] then []
    else
      assert s == [s[0]] + s[1..];
      var t := SortDesc(refs, s[1..]);
      InsertDescSorted(refs, s[0], t);
      if Distinct(s) then
        InsertDescDistinct(refs, s[0], t);
        InsertDesc(refs, s[0], t)
      else InsertDesc(refs, s[0], t)
  }

  // ---------------------------------------------------------------------------
  // Where offsets land
  // ---------------------------------------------------------------------------

  /** The UTF-16 offset of character position `k` lands on it, at its UTF-8 offset. */
  lemma LocateBoundary(text: string, k: nat)
    requires k <= |text|
    ensures Locate(text, PrefixLen(Utf16, text, k)) == Boundary(PrefixLen(Utf8, text, k))
  {
    var o := PrefixLen(Utf16, text, k);
    PrefixLenGrows(Utf16, text, k, |text|);
    var r := FirstReaching(text, o, 0);
    if r < k {
      PrefixLenGrows(Utf16, text, r, k);
    }
  }

  /** An offset strictly between the two ends of character `k` lands inside it. */
  lemma LocateInside(text: string, k: nat, o: nat)
    requires k < |text|
    requires PrefixLen(Utf16, text, k) < o < PrefixLen(Utf16, text, k + 1)
    ensures Locate(text, o) == InsideChar
  {
    PrefixLenGrows(Utf16, text, k + 1, |text|);
    var r := FirstReaching(text, o, 0);
    if r <= k {
      PrefixLenGrows(Utf16, text, r, k);
    }
  }

  /**
   * The three landings, stated without the walk: past the end exactly when
   * beyond the text's UTF-16 length; on a boundary exactly when the offset is
   * the UTF-16 offset of some character position, and then at that
   * position's UTF-8 offset; otherwise inside a character, which is then one
   * encoded as a surrogate pair, with the offset between its two halves.
   */
  lemma LocateCases(text: string, o: nat)
    ensures Locate(text, o) == PastEnd <==> o > TotalLen(Utf16, text)
    ensures Locate(text, o).Boundary? <==> IsBoundary(Utf16, text, o)
    ensures forall k :: 0 <= k <= |text| && PrefixLen(Utf16, text, k) == o ==>
              Locate(text, o) == Boundary(PrefixLen(Utf8, text, k))
    ensures Locate(text, o) == InsideChar ==>
              exists k :: 0 <= k < |text| && Width(Utf16, text[k]) == 2 && o == PrefixLen(Utf16, text, k) + 1
  {
    forall k | 0 <= k <= |text| && PrefixLen(Utf16, text, k) == o
      ensures Locate(text, o) == Boundary(PrefixLen(Utf8, text, k))
    {
      LocateBoundary(text, k);
    }
    if Locate(text, o) == InsideChar {
      var r := FirstReaching(text, o, 0);
      assert r > 0;
      assert PrefixLen(Utf16, text, r) == PrefixLen(Utf16, text, r - 1) + Width(Utf16, text[r - 1]);
    }
  }

  // ---------------------------------------------------------------------------
  // The algorithm
  // ---------------------------------------------------------------------------

  /** A ref whose start and end are patched or not, as the walk has reached them. */
  ghost function PartlyPatched(text: string, r: MessageEntityRef, startDone: bool, endDone: bool): MessageEntityRef
  {
    r.(range := ByteRange(
      if startDone then PatchedOffset(text, r.range.start) else r.range.start,
      if endDone then PatchedOffset(text, r.range.end) else r.range.end))
  }

  lemma PopMembership(stack: seq<Slot>)
    requires Distinct(stack) && |stack| > 0
    ensures stack[|stack| - 1] !in stack[..|stack| - 1]
    ensures forall x :: x in stack[..|stack| - 1] <==> x in stack && x != stack[|stack| - 1]
  {
  }

  /**
   * The state of the walk: `stack` is what is left of `offsets`, every slot
   * still on it holds its raw value, above `floor`; every popped slot held
   * an offset on a character boundary and now holds its UTF-8 offset.
   */
  ghost predicate WalkState(text: string, raw: seq<MessageEntityRef>, cur: seq<MessageEntityRef>,
                            offsets: seq<Slot>, stack: seq<Slot>, floor: int)
    requires SlotsWithin(|raw|, offsets)
  {
    && |cur| == |raw|
    && |stack| <= |offsets| && stack == offsets[..|stack|] && Distinct(stack)
    && (forall j :: 0 <= j < |stack| ==> SlotValue(raw, offsets[j]) > floor)
    && (forall j :: |stack| <= j < |offsets| ==> Locate(text, SlotValue(raw, offsets[j])).Boundary?)
    && (forall e :: 0 <= e < |raw| ==>
          cur[e] == PartlyPatched(text, raw[e], Slot(e, false) !in stack, Slot(e, true) !in stack))
  }

  /** Patching one not yet patched end of a ref that sits on the boundary of position `i`. */
  lemma PatchOne(text: string, r: MessageEntityRef, c: MessageEntityRef, isEnd: bool,
                 startDone: bool, endDone: bool, i: nat)
    requires i <= |text| && c == PartlyPatched(text, r, startDone, endDone)
    requires if isEnd then !endDone else !startDone
    requires SlotGet(r, isEnd) == PrefixLen(Utf16, text, i)
    ensures SlotSet(c, isEnd, PrefixLen(Utf8, text, i))
            == PartlyPatched(text, r, startDone || !isEnd, endDone || isEnd)
  {
    LocateBoundary(text, i);
  }

  /** Popping the top slot, which holds the boundary offset of position `i`, and patching it keeps the walk's state. */
  lemma PatchStep(text: string, raw: seq<MessageEntityRef>, cur: seq<MessageEntityRef>,
                  offsets: seq<Slot>, stack: seq<Slot>, floor: int, i: nat)
    requires SlotsWithin(|raw|, offsets) && WalkState(text, raw, cur, offsets, stack, floor) && |stack| > 0
    requires i <= |text| && SlotValue(raw, stack[|stack| - 1]) == PrefixLen(Utf16, text, i)
    ensures var s := stack[|stack| - 1];
            WalkState(text, raw, cur[s.entity := SlotSet(cur[s.entity], s.isEnd, PrefixLen(Utf8, text, i))],
                      offsets, stack[..|stack| - 1], floor)
  {
    var s := stack[|stack| - 1];
    var rest := stack[..|stack| - 1];
    var next := cur[s.entity := SlotSet(cur[s.entity], s.isEnd, PrefixLen(Utf8, text, i))];
    PopMembership(stack);
    assert Slot(s.entity, s.isEnd) == s;
    LocateBoundary(text, i);
    assert stack[|rest|] == s;
    assert rest == offsets[..|rest|] && Distinct(rest);
    forall j | 0 <= j < |rest|
      ensures SlotValue(raw, offsets[j]) > floor
    {
      assert offsets[j] == stack[j];
    }
    forall j | |rest| <= j < |offsets|
      ensures Locate(text, SlotValue(raw, offsets[j])).Boundary?
    {
      if j == |rest| {
        assert offsets[j] == stack[j] == s;
      }
    }
    forall e | 0 <= e < |raw|
      ensures next[e] == PartlyPatched(text, raw[e], Slot(e, false) !in rest, Slot(e, true) !in rest)
    {
      if e == s.entity {
        assert Slot(e, s.isEnd) in stack && Slot(e, s.isEnd) !in rest;
        assert Slot(e, !s.isEnd) in rest <==> Slot(e, !s.isEnd) in stack;
        PatchOne(text, raw[e], cur[e], s.isEnd, Slot(e, false) !in stack, Slot(e, true) !in stack, i);
      } else {
        assert Slot(e, false) in rest <==> Slot(e, false) in stack;
        assert Slot(e, true) in rest <==> Slot(e, true) in stack;
      }
    }
  }

  /**
   * One boundary of the walk, at running lengths `len8` and `len16` after `i`
   * characters: pops every slot whose value is at most `len16`. Each must
   * equal `len16` ("Invalid utf-16 offset" otherwise, `ok == false`) and is
   * overwritten with `len8`. Afterwards every slot left is above `len16`.
   */
  method PatchReached(text: string, refs: array<MessageEntityRef>, offsets: seq<Slot>, stack0: seq<Slot>,
                      len8: nat, len16: nat, ghost raw: seq<MessageEntityRef>, ghost i: nat, ghost floor: int)
    returns (stack: seq<Slot>, ok: bool)
    requires |raw| == refs.Length && SlotsWithin(|raw|, offsets) && Distinct(offsets) && SortedDesc(raw, offsets)
    requires i <= |text| && len8 == PrefixLen(Utf8, text, i) && len16 == PrefixLen(Utf16, text, i)
    requires if i == 0 then floor == -1 else floor == PrefixLen(Utf16, text, i - 1)
    requires WalkState(text, raw, refs[..], offsets, stack0, floor)
    modifies refs
    ensures ok ==> WalkState(text, raw, refs[..], offsets, stack, len16)
    ensures !ok ==> exists j :: 0 <= j < |offsets| && Locate(text, SlotValue(raw, offsets[j])) == InsideChar
  {
    stack := stack0;
    while |stack| > 0 && SlotGet(refs[stack[|stack| - 1].entity], stack[|stack| - 1].isEnd) <= len16
      invariant WalkState(text, raw, refs[..], offsets, stack, floor)
      decreases |stack|
    {
      var s := stack[|stack| - 1];
      ghost var cur := refs[..];
      assert Slot(s.entity, s.isEnd) == s;
      var v := SlotGet(refs[s.entity], s.isEnd);
      assert v == SlotValue(raw, offsets[|stack| - 1]);
      if v != len16 {
        assert 0 < i && floor == PrefixLen(Utf16, text, i - 1);
        LocateInside(text, i - 1, v);
        return stack[..|stack| - 1], false;
      }
      PatchStep(text, raw, cur, offsets, stack, floor, i);
      refs[s.entity] := SlotSet(refs[s.entity], s.isEnd, len8);
      assert refs[..] == cur[s.entity := SlotSet(cur[s.entity], s.isEnd, len8)];
      stack := stack[..|stack| - 1];
    }
    ok := true;
    if |stack| > 0 {
      var top := stack[|stack| - 1];
      assert Slot(top.entity, top.isEnd) == top;
      RaiseFloor(text, raw, refs[..], offsets, stack, floor, len16);
    }
  }

  /** Once the top of the stack is above `len16`, so is every slot below it, the stack being sorted. */
  lemma RaiseFloor(text: string, raw: seq<MessageEntityRef>, cur: seq<MessageEntityRef>,
                   offsets: seq<Slot>, stack: seq<Slot>, floor: int, len16: int)
    requires SlotsWithin(|raw|, offsets) && SortedDesc(raw, offsets)
    requires WalkState(text, raw, cur, offsets, stack, floor) && |stack| > 0
    requires SlotValue(raw, stack[|stack| - 1]) > len16
    ensures WalkState(text, raw, cur, offsets, stack, len16)
  {
    assert offsets[|stack| - 1] == stack[|stack| - 1];
    forall j | 0 <= j < |stack|
      ensures SlotValue(raw, offsets[j]) > len16
    {
      assert SlotValue(raw, offsets[j]) >= SlotValue(raw, offsets[|stack| - 1]);
    }
  }

  /**
   * The walk over the characters of `text` followed by one sentinel step,
   * patching at every character boundary the slots it has reached. It stops
   * early once no slot is left. Slots beyond the text are never popped and
   * keep their raw value; `leftover` counts them.
   */
  method PatchOffsets(text: string, refs: array<MessageEntityRef>, offsets: seq<Slot>)
    returns (ok: bool, leftover: nat)
    requires SlotsWithin(refs.Length, offsets) && Distinct(offsets) && SortedDesc(refs[..], offsets)
    requires forall e, isEnd :: 0 <= e < refs.Length ==> Slot(e, isEnd) in offsets
    modifies refs
    ensures ok <==> forall j :: 0 <= j < |offsets| ==> Locate(text, SlotValue(old(refs[..]), offsets[j])) != InsideChar
    ensures ok ==> forall e :: 0 <= e < refs.Length ==> refs[e] == PatchRef(text, old(refs[e]))
    ensures ok ==> (leftover == 0 <==>
                      forall j :: 0 <= j < |offsets| ==> SlotValue(old(refs[..]), offsets[j]) <= TotalLen(Utf16, text))
  {
    ghost var raw := refs[..];
    var stack := offsets;
    var len8, len16 := 0, 0;
    var i := 0;
    ghost var floor := -1;  // the running UTF-16 length at the previous boundary
    while i <= |text|
      invariant i <= |text| + 1
      invariant i <= |text| ==> len8 == PrefixLen(Utf8, text, i) && len16 == PrefixLen(Utf16, text, i)
      invariant if i == 0 then floor == -1 else floor == PrefixLen(Utf16, text, i - 1)
      invariant WalkState(text, raw, refs[..], offsets, stack, floor)
      decreases |text| + 1 - i
    {
      if |stack| == 0 {
        break;
      }
      var c := if i < |text| then text[i] else '\0';
      var patched;
      stack, patched := PatchReached(text, refs, offsets, stack, len8, len16, raw, i, floor);
      if !patched {
        return false, 0;
      }
      floor := len16;
      len8, len16 := len8 + Width(Utf8, c), len16 + Width(Utf16, c);
      i := i + 1;
    }
    ok, leftover := true, |stack|;
    assert |stack| > 0 ==> i == |text| + 1 && floor == TotalLen(Utf16, text);
    WalkDone(text, raw, refs[..], offsets, stack, floor);
  }

  /**
   * When the walk ends, every slot still on the stack lies beyond the text,
   * which leaves it as it is, and every other slot was on a boundary.
   */
  lemma WalkDone(text: string, raw: seq<MessageEntityRef>, cur: seq<MessageEntityRef>,
                 offsets: seq<Slot>, stack: seq<Slot>, floor: int)
    requires SlotsWithin(|raw|, offsets) && WalkState(text, raw, cur, offsets, stack, floor)
    requires |stack| > 0 ==> floor == TotalLen(Utf16, text)
    ensures forall j :: 0 <= j < |offsets| ==> Locate(text, SlotValue(raw, offsets[j])) != InsideChar
    ensures forall e :: 0 <= e < |cur| ==> cur[e] == PatchRef(text, raw[e])
    ensures |stack| == 0 <==> forall j :: 0 <= j < |offsets| ==> SlotValue(raw, offsets[j]) <= TotalLen(Utf16, text)
  {
    forall j | 0 <= j < |offsets|
      ensures Locate(text, SlotValue(raw, offsets[j])) != InsideChar
      ensures |stack| == 0 ==> SlotValue(raw, offsets[j]) <= TotalLen(Utf16, text)
    {
      LocateCases(text, SlotValue(raw, offsets[j]));
    }
    if |stack| > 0 {
      assert offsets[0] == stack[0];
      assert SlotValue(raw, offsets[0]) > TotalLen(Utf16, text);
    }
    forall e | 0 <= e < |cur|
      ensures cur[e] == PatchRef(text, raw[e])
    {
      forall isEnd | Slot(e, isEnd) in stack
        ensures PatchedOffset(text, SlotGet(raw[e], isEnd)) == SlotGet(raw[e], isEnd)
      {
        var j :| 0 <= j < |stack| && stack[j] == Slot(e, isEnd);
        assert offsets[j] == stack[j];
        assert SlotValue(raw, offsets[j]) > TotalLen(Utf16, text);
      }
    }
  }

  /**
   * The slot values of the raw refs are exactly the entities' raw offsets
   * and ends, so a property holds of every slot value exactly when it holds
   * of every entity's offset and end.
   */
  lemma SlotsCoverEntities(text: string, entities: seq<MessageEntity>, raw: seq<MessageEntityRef>,
                           offsets: seq<Slot>, p: nat -> bool)
    requires |raw| == |entities| && forall i :: 0 <= i < |entities| ==> raw[i] == RawRef(text, entities[i])
    requires SlotsWithin(|raw|, offsets)
    requires forall e, isEnd :: 0 <= e < |raw| ==> Slot(e, isEnd) in offsets
    ensures (forall j :: 0 <= j < |offsets| ==> p(SlotValue(raw, offsets[j])))
            <==> (forall i :: 0 <= i < |entities| ==> p(entities[i].offset) && p(entities[i].offset + entities[i].length))
  {
    if forall j :: 0 <= j < |offsets| ==> p(SlotValue(raw, offsets[j])) {
      forall i | 0 <= i < |entities|
        ensures p(entities[i].offset) && p(entities[i].offset + entities[i].length)
      {
        assert Slot(i, false) in offsets && Slot(i, true) in offsets;
        var j0 :| 0 <= j0 < |offsets| && offsets[j0] == Slot(i, false);
        var j1 :| 0 <= j1 < |offsets| && offsets[j1] == Slot(i, true);
        assert SlotValue(raw, offsets[j0]) == entities[i].offset;
        assert SlotValue(raw, offsets[j1]) == entities[i].offset + entities[i].length;
      }
    }
  }

  lemma AlignedIffSlotsAligned(text: string, entities: seq<MessageEntity>, raw: seq<MessageEntityRef>, offsets: seq<Slot>)
    requires |raw| == |entities| && forall i :: 0 <= i < |entities| ==> raw[i] == RawRef(text, entities[i])
    requires SlotsWithin(|raw|, offsets)
    requires forall e, isEnd :: 0 <= e < |raw| ==> Slot(e, isEnd) in offsets
    ensures (forall j :: 0 <= j < |offsets| ==> Locate(text, SlotValue(raw, offsets[j])) != InsideChar)
            <==> (forall i :: 0 <= i < |entities| ==> !Misaligned(text, entities[i]))
  {
    SlotsCoverEntities(text, entities, raw, offsets, (o: nat) => Locate(text, o) != InsideChar);
  }

  lemma WithinIffSlotsWithin(text: string, entities: seq<MessageEntity>, raw: seq<MessageEntityRef>, offsets: seq<Slot>)
    requires |raw| == |entities| && forall i :: 0 <= i < |entities| ==> raw[i] == RawRef(text, entities[i])
    requires SlotsWithin(|raw|, offsets)
    requires forall e, isEnd :: 0 <= e < |raw| ==> Slot(e, isEnd) in offsets
    ensures (forall j :: 0 <= j < |offsets| ==> SlotValue(raw, offsets[j]) <= TotalLen(Utf16, text))
            <==> (forall i :: 0 <= i < |entities| ==> entities[i].offset + entities[i].length <= TotalLen(Utf16, text))
  {
    SlotsCoverEntities(text, entities, raw, offsets, (o: nat) => o <= TotalLen(Utf16, text));
  }

  /** What the walk establishes about the slots, restated per entity. */
  lemma PatchedSlotsResolveEntities(text: string, entities: seq<MessageEntity>, raw: seq<MessageEntityRef>,
                                    refs: seq<MessageEntityRef>, offsets: seq<Slot>, ok: bool, leftover: nat)
    requires |raw| == |refs| == |entities| && forall i :: 0 <= i < |entities| ==> raw[i] == RawRef(text, entities[i])
    requires SlotsWithin(|raw|, offsets)
    requires forall e, isEnd :: 0 <= e < |raw| ==> Slot(e, isEnd) in offsets
    requires ok <==> forall j :: 0 <= j < |offsets| ==> Locate(text, SlotValue(raw, offsets[j])) != InsideChar
    requires ok ==> forall e :: 0 <= e < |refs| ==> refs[e] == PatchRef(text, raw[e])
    requires ok ==> (leftover == 0 <==>
                       forall j :: 0 <= j < |offsets| ==> SlotValue(raw, offsets[j]) <= TotalLen(Utf16, text))
    ensures ok <==> forall i :: 0 <= i < |entities| ==> !Misaligned(text, entities[i])
    ensures ok ==> refs == seq(|entities|, i requires 0 <= i < |entities| => PatchRef(text, RawRef(text, entities[i])))
    ensures ok ==> (leftover == 0 <==>
                      forall i :: 0 <= i < |entities| ==> entities[i].offset + entities[i].length <= TotalLen(Utf16, text))
  {
    AlignedIffSlotsAligned(text, entities, raw, offsets);
    WithinIffSlotsWithin(text, entities, raw, offsets);
  }

  /** One ref per entity, in entity order, still carrying the raw UTF-16 range. */
  method RawRefs(text: string, entities: seq<MessageEntity>) returns (a: array<MessageEntityRef>)
    ensures fresh(a) && a.Length == |entities|
    ensures forall i :: 0 <= i < |entities| ==> a[i] == RawRef(text, entities[i])
  {
    a := new MessageEntityRef[|entities|];
    for i := 0 to |entities|
      invariant forall j :: 0 <= j < i ==> a[j] == RawRef(text, entities[j])
    {
      a[i] := MessageEntityRef(text, ByteRange(entities[i].offset, entities[i].offset + entities[i].length), entities[i].kind);
    }
  }

  /**
   * Builds one ref per entity with its raw UTF-16 range, collects the start
   * and end slot of every ref, orders them by decreasing value and patches
   * them by walking the text.
   */
  method ResolveRefs(text: string, entities: seq<MessageEntity>)
    returns (refs: seq<MessageEntityRef>, ok: bool, leftover: nat)
    ensures ok <==> forall i :: 0 <= i < |entities| ==> !Misaligned(text, entities[i])
    ensures ok ==> refs == seq(|entities|, i requires 0 <= i < |entities| => PatchRef(text, RawRef(text, entities[i])))
    ensures ok ==> (leftover == 0 <==>
                      forall i :: 0 <= i < |entities| ==> entities[i].offset + entities[i].length <= TotalLen(Utf16, text))
  {
    var n := |entities|;
    var a := RawRefs(text, entities);
    ghost var raw := a[..];
    assert forall i :: 0 <= i < n ==> raw[i] == RawRef(text, entities[i]);
    SlotsOfCover(n);
    var slots := SlotsOf(n);
    var offsets := SortDesc(a[..], slots);
    assert forall e, isEnd :: 0 <= e < n ==> Slot(e, isEnd) in offsets by {
      forall e, isEnd | 0 <= e < n
        ensures Slot(e, isEnd) in offsets
      {
        assert Slot(e, isEnd) in slots;
      }
    }
    ok, leftover := PatchOffsets(text, a, offsets);
    refs := a[..];
    PatchedSlotsResolveEntities(text, entities, raw, refs, offsets, ok, leftover);
  }

  /** `MessageEntityRef::parse`, with the failed assertion as `Failure`. */
  method Parse(text: string, entities: seq<MessageEntity>) returns (r: Result<seq<MessageEntityRef>, ParseError>)
    ensures r == ParseSpec(text, entities)
  {
    var refs, ok, _ := ResolveRefs(text, entities);
    if ok {
      r := Success(refs);
    } else {
      r := Failure(InvalidUtf16Offset);
    }
  }

  // ---------------------------------------------------------------------------
  // Corrected variant: offsets beyond the text are rejected as well
  // ---------------------------------------------------------------------------

  /** Both ends of the entity land on character boundaries. */
  predicate OnBoundaries(text: string, e: MessageEntity)
  {
    Locate(text, e.offset).Boundary? && Locate(text, e.offset + e.length).Boundary?
  }

  /** The resolver with an offset beyond the text rejected as invalid, like one inside a character. */
  function ParseStrictSpec(text: string, entities: seq<MessageEntity>): Result<seq<MessageEntityRef>, ParseError>
  {
    if exists i :: 0 <= i < |entities| && !OnBoundaries(text, entities[i]) then Failure(InvalidUtf16Offset)
    else ParseSpec(text, entities)
  }

  /** `Parse` followed by the check that the walk left no slot unpatched. */
  method ParseStrict(text: string, entities: seq<MessageEntity>) returns (r: Result<seq<MessageEntityRef>, ParseError>)
    ensures r == ParseStrictSpec(text, entities)
  {
    var refs, ok, leftover := ResolveRefs(text, entities);
    if ok && leftover == 0 {
      forall i | 0 <= i < |entities|
        ensures OnBoundaries(text, entities[i])
      {
        LocateCases(text, entities[i].offset);
        LocateCases(text, entities[i].offset + entities[i].length);
      }
      r := Success(refs);
    } else {
      if ok {
        ghost var i :| 0 <= i < |entities| && entities[i].offset + entities[i].length > TotalLen(Utf16, text);
        assert !OnBoundaries(text, entities[i]);
      } else {
        ghost var i :| 0 <= i < |entities| && Misaligned(text, entities[i]);
        assert !OnBoundaries(text, entities[i]);
      }
      r := Failure(InvalidUtf16Offset);
    }
  }
}
