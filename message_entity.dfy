/**
 * Message entities: formatting annotations over a message text whose offset
 * and length count UTF-16 code units, and the resolved view of one entity
 * with a UTF-8 byte range into the text.
 */
module MessageEntities {
  import opened Wrappers
  import opened Unicode

  /** Stand-in for the user record a text mention carries: only its identifier. */
  datatype User = User(id: nat)

  /** The closed set of entity kinds; payloads are kept as plain values. */
  datatype MessageEntityKind =
    | Mention
    | Hashtag
    | Cashtag
    | BotCommand
    | Url
    | Email
    | PhoneNumber
    | Bold
    | Italic
    | Code
    | Pre(language: Option<string>)
    | TextLink(url: string)
    | TextMention(user: User)
    | Underline
    | Strikethrough
    | Spoiler

  /** One entity as the remote API sends it; offset and length are UTF-16 code units. */
  datatype MessageEntity = MessageEntity(kind: MessageEntityKind, offset: nat, length: nat)
  {
    static function New(kind: MessageEntityKind, offset: nat, length: nat): MessageEntity
    {
      MessageEntity(kind, offset, length)
    }

    static function Bold(offset: nat, length: nat): MessageEntity
    {
      MessageEntity(MessageEntityKind.Bold, offset, length)
    }

    static function Italic(offset: nat, length: nat): MessageEntity
    {
      MessageEntity(MessageEntityKind.Italic, offset, length)
    }

    static function Underline(offset: nat, length: nat): MessageEntity
    {
      MessageEntity(MessageEntityKind.Underline, offset, length)
    }

    static function Strikethrough(offset: nat, length: nat): MessageEntity
    {
      MessageEntity(MessageEntityKind.Strikethrough, offset, length)
    }

    static function Spoiler(offset: nat, length: nat): MessageEntity
    {
      MessageEntity(MessageEntityKind.Spoiler, offset, length)
    }

    static function Code(offset: nat, length: nat): MessageEntity
    {
      MessageEntity(MessageEntityKind.Code, offset, length)
    }

    static function Pre(language: Option<string>, offset: nat, length: nat): MessageEntity
    {
      MessageEntity(MessageEntityKind.Pre(language), offset, length)
    }

    static function TextLink(url: string, offset: nat, length: nat): MessageEntity
    {
      MessageEntity(MessageEntityKind.TextLink(url), offset, length)
    }

    static function TextMention(user: User, offset: nat, length: nat): MessageEntity
    {
      MessageEntity(MessageEntityKind.TextMention(user), offset, length)
    }

    /** A text link of the form `tg://user/?id=<id>` mentioning the user with that id. */
    static function TextMentionId(userId: nat, offset: nat, length: nat): MessageEntity
    {
      MessageEntity(MessageEntityKind.TextLink(UserUrl(userId)), offset, length)
    }

    function WithKind(val: MessageEntityKind): MessageEntity
    {
      this.(kind := val)
    }

    function WithOffset(val: nat): MessageEntity
    {
      this.(offset := val)
    }

    function WithLength(val: nat): MessageEntity
    {
      this.(length := val)
    }
  }

  /** The decimal digits of `n`, most significant first. */
  function Decimal(n: nat): (s: string)
    ensures |s| > 0
    ensures forall i :: 0 <= i < |s| ==> '0' <= s[i] <= '9'
  {
    var d := (('0' as int) + n % 10) as char;
    if n < 10 then [d] else Decimal(n / 10) + [d]
  }

  /** The value of one decimal digit; other characters count as zero. */
  function DigitValue(c: char): nat
  {
    if '0' <= c <= '9' then c as int - '0' as int else 0
  }

  /** The number a string of decimal digits denotes, most significant first. */
  function DigitsValue(s: string): nat
  {
    if s == [] then 0 else DigitsValue(s[..|s| - 1]) * 10 + DigitValue(s[|s| - 1])
  }

  /** Reading back the decimal digits of `n` gives `n`. */
  lemma {:induction false} DecimalRoundTrip(n: nat)
    ensures DigitsValue(Decimal(n)) == n
  {
    var s := Decimal(n);
    if n < 10 {
      assert s[..|s| - 1] == [];
    } else {
      assert s[..|s| - 1] == Decimal(n / 10);
      DecimalRoundTrip(n / 10);
    }
  }

  /** The link that mentions a user by identifier. */
  function UserUrl(userId: nat): string
  {
    "tg://user/?id=" + Decimal(userId)
  }

  /** A half-open range of UTF-8 byte offsets, like Rust's `Range<usize>`. */
  datatype ByteRange = ByteRange(start: nat, end: nat)

  /**
   * A resolved entity: the whole message text, a byte range into it and the
   * entity's kind. The range is only meaningful once the resolver has
   * converted its UTF-16 offsets.
   */
  datatype MessageEntityRef = MessageEntityRef(message: string, range: ByteRange, kind: MessageEntityKind)
  {
    function Kind(): MessageEntityKind
    {
      kind
    }

    /**
     * The piece of the message the range covers: `&message[range]`. Rust
     * panics when the range is reversed or an end is not a character
     * boundary of the message; that is `None` here.
     */
    function Text(): (r: Option<string>)
      ensures r.Some? <==>
                range.start <= range.end
                && IsCharBoundary(message, range.start)
                && IsCharBoundary(message, range.end)
    {
      match (CharIndex(message, range.start, 0), CharIndex(message, range.end, 0))
      case (Some(i), Some(j)) =>
        if i <= j then
          PrefixLenGrows(Utf8, message, i, j);
          Some(message[i..j])
        else
          PrefixLenGrows(Utf8, message, j, i);
          None
      case _ => None
    }

    function Range(): ByteRange
    {
      range
    }

    function Start(): nat
    {
      range.start
    }

    function End(): nat
    {
      range.end
    }

    /** Rust's `Range::len`: the number of bytes covered, zero for a reversed range. */
    function Len(): nat
    {
      if range.start <= range.end then range.end - range.start else 0
    }

    function MessageText(): string
    {
      message
    }
  }

  /**
   * The substring `Text()` returns is the byte slice `Start()..End()` of
   * the UTF-8 encoded message, and its length in bytes is `Len()`.
   */
  lemma TextIsByteSlice(r: MessageEntityRef)
    requires r.Text().Some?
    ensures r.Start() <= r.End() <= |EncodeText(Utf8, r.MessageText())|
    ensures EncodeText(Utf8, r.Text().value) == EncodeText(Utf8, r.MessageText())[r.Start()..r.End()]
    ensures |EncodeText(Utf8, r.Text().value)| == r.Len() == r.End() - r.Start()
  {
    var i := CharIndex(r.message, r.range.start, 0).value;
    var j := CharIndex(r.message, r.range.end, 0).value;
    if j < i {
      PrefixLenGrows(Utf8, r.message, j, i);
    }
    EncodedSlice(Utf8, r.message, i, j);
  }

  /** A range between the UTF-8 offsets of character positions `i <= j` covers exactly the characters `i..j`. */
  lemma TextOfBoundaries(message: string, i: nat, j: nat, kind: MessageEntityKind)
    requires i <= j <= |message|
    ensures MessageEntityRef(message, ByteRange(PrefixLen(Utf8, message, i), PrefixLen(Utf8, message, j)), kind).Text()
            == Some(message[i..j])
  {
    var c1 := CharIndex(message, PrefixLen(Utf8, message, i), 0);
    var c2 := CharIndex(message, PrefixLen(Utf8, message, j), 0);
    PrefixLenInjective(Utf8, message, c1.value, i);
    PrefixLenInjective(Utf8, message, c2.value, j);
  }

  /** The accessors are views of one record: range, start, end and length agree. */
  lemma AccessorsAgree(r: MessageEntityRef)
    ensures r.Range() == ByteRange(r.Start(), r.End())
    ensures r.Start() <= r.End() ==> r.Len() == r.End() - r.Start()
    ensures r.End() < r.Start() ==> r.Len() == 0
    ensures r.Kind() == r.kind && r.MessageText() == r.message
  {
  }

  /**
   * The per-kind builders are `New` with the kind fixed, and each setter
   * replaces one field and keeps the others.
   */
  lemma BuildersAgree(offset: nat, length: nat, e: MessageEntity, k: MessageEntityKind, v: nat,
                      language: Option<string>, url: string, user: User, userId: nat)
    ensures MessageEntity.New(k, offset, length).kind == k
    ensures MessageEntity.New(k, offset, length).offset == offset
    ensures MessageEntity.New(k, offset, length).length == length
    ensures MessageEntity.Bold(offset, length) == MessageEntity.New(MessageEntityKind.Bold, offset, length)
    ensures MessageEntity.Italic(offset, length) == MessageEntity.New(MessageEntityKind.Italic, offset, length)
    ensures MessageEntity.Underline(offset, length) == MessageEntity.New(MessageEntityKind.Underline, offset, length)
    ensures MessageEntity.Strikethrough(offset, length)
            == MessageEntity.New(MessageEntityKind.Strikethrough, offset, length)
    ensures MessageEntity.Spoiler(offset, length) == MessageEntity.New(MessageEntityKind.Spoiler, offset, length)
    ensures MessageEntity.Code(offset, length) == MessageEntity.New(MessageEntityKind.Code, offset, length)
    ensures MessageEntity.Pre(language, offset, length)
            == MessageEntity.New(MessageEntityKind.Pre(language), offset, length)
    ensures MessageEntity.TextLink(url, offset, length)
            == MessageEntity.New(MessageEntityKind.TextLink(url), offset, length)
    ensures MessageEntity.TextMention(user, offset, length)
            == MessageEntity.New(MessageEntityKind.TextMention(user), offset, length)
    ensures MessageEntity.TextMentionId(userId, offset, length)
            == MessageEntity.TextLink(UserUrl(userId), offset, length)
    ensures e.WithKind(MessageEntityKind.Bold).WithOffset(offset).WithLength(length)
            == MessageEntity.Bold(offset, length)
    ensures e.WithOffset(offset).kind == e.kind && e.WithOffset(offset).length == e.length
    ensures e.WithLength(length).kind == e.kind && e.WithLength(length).offset == e.offset
    ensures e.WithKind(MessageEntityKind.Hashtag).offset == e.offset
            && e.WithKind(MessageEntityKind.Hashtag).length == e.length
    ensures e.WithKind(k) == MessageEntity(k, e.offset, e.length)
    ensures e.WithOffset(v) == MessageEntity(e.kind, v, e.length)
    ensures e.WithLength(v) == MessageEntity(e.kind, e.offset, v)
  {
  }

  /**
   * Mention links start with the `tg://user/?id=` scheme and end in decimal
   * digits that denote the user's identifier.
   */
  lemma UserUrlShape(userId: nat)
    ensures |UserUrl(userId)| > 14 && UserUrl(userId)[..14] == "tg://user/?id="
    ensures forall i :: 14 <= i < |UserUrl(userId)| ==> '0' <= UserUrl(userId)[i] <= '9'
    ensures DigitsValue(UserUrl(userId)[14..]) == userId
  {
    assert UserUrl(userId)[14..] == Decimal(userId);
    DecimalRoundTrip(userId);
  }

  /** Different users get different mention links. */
  lemma UserUrlInjective(a: nat, b: nat)
    requires UserUrl(a) == UserUrl(b)
    ensures a == b
  {
    UserUrlShape(a);
    UserUrlShape(b);
  }
}
