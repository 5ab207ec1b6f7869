// The VNC Extended Clipboard messages, framed inside ClientCutText and ServerCutText (sections 7.5.6
// and 7.6.4 of RFC 6143; plugins/vnc/src/clipboard_ext.rs).

module VncClipboardText {
  /** `replace("\r\n", "\n")` */
  function Fold(text: string): string {
    if text == "" then ""
    else if |text| > 1 && text[0] == '\r' && text[1] == '\n' then "\n" + Fold(text[2..])
    else [text[0]] + Fold(text[1..])
  }

  /** `replace('\n', "\r\n")` */
  function Expand(text: string): string {
    if text == "" then ""
    else (if text[0] == '\n' then "\r\n" else [text[0]]) + Expand(text[1..])
  }

  /** On the wire every LF follows a CR. */
  lemma {:induction false} ExpandedLineEnds(text: string)
    ensures forall i | 0 <= i < |Expand(text)| && Expand(text)[i] == '\n' :: i > 0 && Expand(text)[i - 1] == '\r'
  {
    if text != "" {
      ExpandedLineEnds(text[1..]);
      var head := if text[0] == '\n' then "\r\n" else [text[0]];
      assert Expand(text) == head + Expand(text[1..]);
      forall i | 0 <= i < |Expand(text)| && Expand(text)[i] == '\n'
        ensures i > 0 && Expand(text)[i - 1] == '\r'
      {
        if i >= |head| {
          assert Expand(text)[i] == Expand(text[1..])[i - |head|];
        }
      }
    }
  }

  /** Folding undoes expanding for every text, lone carriage returns included. */
  lemma {:induction false} FoldExpand(text: string)
    ensures Fold(Expand(text)) == text
  {
    if text != "" {
      var rest := Expand(text[1..]);
      FoldExpand(text[1..]);
      if text[0] == '\n' {
        assert Expand(text)[2..] == rest;
      } else {
        assert rest == "" || rest[0] != '\n';
        assert Expand(text)[1..] == rest;
      }
    }
  }
}

module VncClipboardCodec {
  import opened Wrappers
  import opened FixedWidth
  import opened VncClipboardText

  const MAX_CLIPBOARD_BYTES: nat := 20 * 1024 * 1024

  /** Compression, text and picture conversions taken from libraries, and the cut text older servers understand. */
  datatype Codec = Codec(
    compress: seq<u8> -> seq<u8>, inflate: seq<u8> -> Option<seq<u8>>,
    encodeUtf8: string -> seq<u8>, decodeUtf8: seq<u8> -> Option<string>, lossyUtf8: seq<u8> -> string,
    dibToPng: seq<u8> -> Option<seq<u8>>,
    legacyCutText: string -> Option<seq<u8>>, decodeLegacy: seq<u8> -> string)

  ghost predicate Lossless(c: Codec) {
    && (forall bytes :: c.inflate(c.compress(bytes)) == Some(bytes))
    && (forall text :: c.decodeUtf8(c.encodeUtf8(text)) == Some(text))
  }

  // ----- big-endian words and the flag word -----

  function Value(b0: int, b1: int, b2: int, b3: int): int {
    0x100_0000 * b0 + 0x1_0000 * b1 + 0x100 * b2 + b3
  }

  function Be32(n: u32): (r: seq<u8>)
    ensures |r| == 4
  {
    var high, middle, low := n / 256 / 256 / 256, n / 256 / 256, n / 256;
    [high, middle % 256, low % 256, n % 256]
  }

  function FromBe32(bytes: seq<u8>): u32
    requires |bytes| == 4
  {
    var b0: int, b1: int, b2: int, b3: int := bytes[0], bytes[1], bytes[2], bytes[3];
    ((b0 * 256 + b1) * 256 + b2) * 256 + b3
  }

  /** The most significant byte goes first. */
  lemma Be32OnTheWire(n: u32)
    ensures var r := Be32(n); n == Value(r[0], r[1], r[2], r[3])
  {
  }

  lemma Be32RoundTrip(n: u32)
    ensures FromBe32(Be32(n)) == n
  {
  }

  predicate Bit(n: nat, k: nat) {
    if k == 0 then n % 2 == 1 else Bit(n / 2, k - 1)
  }

  datatype Format = Text | Rtf | Html | DibV5

  const ALL: seq<Format> := [Text, Rtf, Html, DibV5]

  datatype Action = Request | Peek | Notify | Provide

  function FormatWord(formats: set<Format>): (r: nat)
    ensures r < 16
    ensures (r % 2 == 1 <==> Text in formats) && (r / 2 % 2 == 1 <==> Rtf in formats)
    ensures (r / 4 % 2 == 1 <==> Html in formats) && (r / 8 == 1 <==> DibV5 in formats)
  {
    (if Text in formats then 1 else 0) + (if Rtf in formats then 2 else 0)
    + (if Html in formats then 4 else 0) + (if DibV5 in formats then 8 else 0)
  }

  /** The known formats among the low sixteen flag bits. */
  function Known(word: nat): set<Format> {
    set k | 0 <= k < 4 && Bit(word, k) :: ALL[k]
  }

  function ActionWord(action: Action): nat {
    match action
    case Request => 0x200_0000
    case Peek => 0x400_0000
    case Notify => 0x800_0000
    case Provide => 0x1000_0000
  }

  const CAPS_WORD: nat := 0x100_0000

  lemma FourBits(word: nat)
    ensures Bit(word, 0) <==> word % 2 == 1
    ensures Bit(word, 1) <==> word / 2 % 2 == 1
    ensures Bit(word, 2) <==> word / 2 / 2 % 2 == 1
    ensures Bit(word, 3) <==> word / 2 / 2 / 2 % 2 == 1
  {
    assert Bit(word, 3) == Bit(word / 2, 2) == Bit(word / 2 / 2, 1) == Bit(word / 2 / 2 / 2, 0);
    assert Bit(word, 2) == Bit(word / 2, 1) == Bit(word / 2 / 2, 0);
  }

  lemma KnownFormatWord(formats: set<Format>)
    ensures Known(FormatWord(formats)) == formats
  {
    FourBits(FormatWord(formats));
    forall f ensures f in Known(FormatWord(formats)) <==> f in formats {
      assert ALL[0] == Text && ALL[1] == Rtf && ALL[2] == Html && ALL[3] == DibV5;
      assert f in Known(FormatWord(formats))
             <==> Bit(FormatWord(formats), if f.Text? then 0 else if f.Rtf? then 1 else if f.Html? then 2 else 3);
    }
  }

  // ----- contents -----

  datatype Content = Content(text: Option<string>, rtf: Option<seq<u8>>, html: Option<seq<u8>>, dib: Option<seq<u8>>) {
    function Formats(): set<Format> {
      (if text.Some? then {Text} else {}) + (if rtf.Some? then {Rtf} else {})
      + (if html.Some? then {Html} else {}) + (if dib.Some? then {DibV5} else {})
    }

    /** The item a format sends: text goes out with CR LF line ends and a final NUL. */
    function Bytes(c: Codec, format: Format): Option<seq<u8>> {
      match format
      case Text => if text.None? then None else Some(c.encodeUtf8(Expand(Fold(text.value))) + [0])
      case Rtf => rtf
      case Html => html
      case DibV5 => dib
    }

    function SetBytes(c: Codec, format: Format, bytes: seq<u8>): Option<Content> {
      match format
      case Text =>
        if bytes == [] || bytes[|bytes| - 1] != 0 then None
        else
          var decoded := c.decodeUtf8(bytes[..|bytes| - 1]);
          if decoded.None? then None else Some(this.(text := Some(Fold(decoded.value))))
      case Rtf => Some(this.(rtf := Some(bytes)))
      case Html => Some(this.(html := Some(bytes)))
      case DibV5 => Some(this.(dib := Some(bytes)))
    }
  }

  const EMPTY: Content := Content(None, None, None, None)

  /** What arrives of a content: the chosen formats among the first `k`, its line ends folded. */
  function Received(content: Content, formats: set<Format>, k: nat): Content {
    Content(if k > 0 && Text in formats && content.text.Some? then Some(Fold(content.text.value)) else None,
            if k > 1 && Rtf in formats then content.rtf else None,
            if k > 2 && Html in formats then content.html else None,
            if k > 3 && DibV5 in formats then content.dib else None)
  }

  lemma SetBytesOfBytes(c: Codec, content: Content, formats: set<Format>, k: nat)
    requires Lossless(c) && k < 4 && ALL[k] in formats && content.Bytes(c, ALL[k]).Some?
    ensures Received(content, formats, k).SetBytes(c, ALL[k], content.Bytes(c, ALL[k]).value)
            == Some(Received(content, formats, k + 1))
  {
    hide Fold, Expand;
    if k == 0 {
      var bytes := content.Bytes(c, Text).value;
      assert bytes[..|bytes| - 1] == c.encodeUtf8(Expand(Fold(content.text.value)));
      FoldExpand(Fold(content.text.value));
    }
  }

  // ----- messages -----

  datatype Caps = Caps(formats: set<Format>, actions: set<Action>, maximumUnsolicitedSizes: seq<u32>)

  datatype Message =
    | CapsMessage(caps: Caps)
    | RequestMessage(formats: set<Format>)
    | PeekMessage
    | NotifyMessage(formats: set<Format>)
    | ProvideMessage(content: Content)

  datatype CutText = Legacy(bytes: seq<u8>) | Extended(message: Message)

  const LOCAL_CAPS: Caps := Caps({Text, Rtf, Html, DibV5}, {Request, Peek, Notify, Provide}, [0, 0, 0, 0])

  function ActionsWord(actions: set<Action>): (r: nat)
    ensures r % 0x200_0000 == 0 && r < 0x2000_0000
    ensures (r / 0x200_0000 % 2 == 1 <==> Request in actions) && (r / 0x400_0000 % 2 == 1 <==> Peek in actions)
    ensures (r / 0x800_0000 % 2 == 1 <==> Notify in actions) && (r / 0x1000_0000 == 1 <==> Provide in actions)
  {
    (if Request in actions then 0x200_0000 else 0) + (if Peek in actions then 0x400_0000 else 0)
    + (if Notify in actions then 0x800_0000 else 0) + (if Provide in actions then 0x1000_0000 else 0)
  }

  /** `extended_client_cut_text_message`: the negated length marks the payload as extended. */
  function Framed(payload: seq<u8>): Option<seq<u8>> {
    if |payload| > MAX_CLIPBOARD_BYTES then None
    else Some([6, 0, 0, 0] + Be32((0x1_0000_0000 - |payload|) % 0x1_0000_0000) + payload)
  }

  function CapsPayload(): seq<u8> {
    Be32(CAPS_WORD + FormatWord(LOCAL_CAPS.formats) + ActionsWord(LOCAL_CAPS.actions))
    + Be32(0) + Be32(0) + Be32(0) + Be32(0)
  }

  /** The items of the formats from `k` on, each behind its length. */
  function Items(c: Codec, content: Content, formats: set<Format>, k: nat): Option<seq<u8>>
    requires k <= 4
    decreases 4 - k
  {
    if k == 4 then Some([])
    else
      var rest := Items(c, content, formats, k + 1);
      if ALL[k] !in formats || rest.None? then rest
      else
        var bytes := content.Bytes(c, ALL[k]);
        if bytes.None? || |bytes.value| > MAX_CLIPBOARD_BYTES then None
        else Some(Be32(|bytes.value|) + bytes.value + rest.value)
  }

  function ActionMessage(action: Action, formats: set<Format>): Option<seq<u8>> {
    if action == Provide then None else Framed(Be32(ActionWord(action) + FormatWord(formats)))
  }

  /** `extended_clipboard_provide_message` */
  function ProvideMessageBytes(c: Codec, requested: set<Format>, content: Content): Option<seq<u8>> {
    var formats := requested * content.Formats();
    if formats == {} then None
    else
      var items := Items(c, content, formats, 0);
      if items.None? || |items.value| > MAX_CLIPBOARD_BYTES
        || |c.compress(items.value)| + 4 > MAX_CLIPBOARD_BYTES then None
      else Framed(Be32(ActionWord(Provide) + FormatWord(formats)) + c.compress(items.value))
  }

  // ----- the messages on the wire -----

  /** A ClientCutText message: its type, padding, the negated length in two's complement, and the payload. */
  lemma FramedOnTheWire(payload: seq<u8>)
    ensures Framed(payload).Some? <==> |payload| <= 20 * 1024 * 1024
    ensures Framed(payload).Some? && payload != [] ==>
              var bytes := Framed(payload).value;
              && |bytes| == 8 + |payload| && bytes[0] == 6 && bytes[1..4] == [0, 0, 0] && bytes[8..] == payload
              && Value(bytes[4], bytes[5], bytes[6], bytes[7]) + |payload| == 0x1_0000_0000
  {
    hide Be32, Value;
    if 0 < |payload| <= MAX_CLIPBOARD_BYTES {
      var length := 0x1_0000_0000 - |payload|;
      var word := Be32(length);
      Be32OnTheWire(length);
      var bytes := Framed(payload).value;
      assert bytes == [6, 0, 0, 0] + word + payload;
      assert bytes[4] == word[0] && bytes[5] == word[1] && bytes[6] == word[2] && bytes[7] == word[3];
    }
  }

  /** A request, peek or notification: one flag byte for the action and one for the formats. */
  lemma ActionOnTheWire(action: Action, formats: set<Format>)
    requires action != Provide
    ensures var flag := if action == Request then 2 else if action == Peek then 4 else 8;
            ActionMessage(action, formats)
            == Some([6, 0, 0, 0] + [0xff, 0xff, 0xff, 0xfc] + [flag, 0, 0, FormatWord(formats)])
  {
    hide FormatWord;
  }

  /** The capabilities: every action and format, and four sizes of zero. */
  lemma CapsOnTheWire()
    ensures CapsPayload() == [0x1f, 0, 0, 0x0f] + [0, 0, 0, 0] + [0, 0, 0, 0] + [0, 0, 0, 0] + [0, 0, 0, 0]
  {
    LocalFlags();
    assert Be32(0x1f00_000f) == [0x1f, 0, 0, 0x0f];
    assert Be32(0) == [0, 0, 0, 0];
    hide *;
  }

  /** One item behind its length, if it is chosen. */
  function Item(chosen: bool, bytes: Option<seq<u8>>): seq<u8> {
    if chosen && bytes.Some? && |bytes.value| <= U32_MAX then Be32(|bytes.value|) + bytes.value else []
  }

  lemma ItemAt(c: Codec, content: Content, formats: set<Format>, k: nat)
    requires k < 4 && Items(c, content, formats, k).Some?
    ensures Items(c, content, formats, k + 1).Some?
    ensures Items(c, content, formats, k).value
            == Item(ALL[k] in formats, content.Bytes(c, ALL[k])) + Items(c, content, formats, k + 1).value
    ensures ALL[k] in formats ==>
              content.Bytes(c, ALL[k]).Some? && |content.Bytes(c, ALL[k]).value| <= MAX_CLIPBOARD_BYTES
  {
    hide Be32, Content.Bytes;
  }

  /** The items in their order on the wire: text, rich text, HTML and the picture, each behind its length. */
  lemma ItemsOnTheWire(c: Codec, content: Content, formats: set<Format>)
    requires Items(c, content, formats, 0).Some?
    ensures Items(c, content, formats, 0).value
            == Item(Text in formats, WireText(c, content)) + Item(Rtf in formats, content.rtf)
               + Item(Html in formats, content.html) + Item(DibV5 in formats, content.dib)
  {
    hide Item, Items, WireText, Content.Bytes;
    ItemAt(c, content, formats, 0);
    ItemAt(c, content, formats, 1);
    ItemAt(c, content, formats, 2);
    ItemAt(c, content, formats, 3);
    NoItems(c, content, formats);
    BytesAreWired(c, content);
    var text, rtf, html := Item(Text in formats, WireText(c, content)), Item(Rtf in formats, content.rtf),
      Item(Html in formats, content.html);
    var dib := Item(DibV5 in formats, content.dib);
    assert text + (rtf + (html + (dib + []))) == text + rtf + html + dib;
  }

  lemma NoItems(c: Codec, content: Content, formats: set<Format>)
    ensures Items(c, content, formats, 4) == Some([])
  {
  }

  lemma BytesAreWired(c: Codec, content: Content)
    ensures content.Bytes(c, ALL[0]) == WireText(c, content) && content.Bytes(c, ALL[1]) == content.rtf
            && content.Bytes(c, ALL[2]) == content.html && content.Bytes(c, ALL[3]) == content.dib
    ensures ALL[0] == Text && ALL[1] == Rtf && ALL[2] == Html && ALL[3] == DibV5
  {
  }

  /** Text goes out with CR LF line ends and a final NUL. */
  function WireText(c: Codec, content: Content): Option<seq<u8>> {
    if content.text.None? then None else Some(c.encodeUtf8(Expand(Fold(content.text.value))) + [0])
  }

  /** What the chosen formats take on the wire, lengths included. */
  function WireSize(c: Codec, content: Content, formats: set<Format>): nat {
    |Item(Text in formats, WireText(c, content))| + |Item(Rtf in formats, content.rtf)|
    + |Item(Html in formats, content.html)| + |Item(DibV5 in formats, content.dib)|
  }

  /** Each format is small enough for a length. */
  predicate Measurable(c: Codec, content: Content) {
    && (content.text.Some? ==> |WireText(c, content).value| <= U32_MAX)
    && (content.rtf.Some? ==> |content.rtf.value| <= U32_MAX)
    && (content.html.Some? ==> |content.html.value| <= U32_MAX)
    && (content.dib.Some? ==> |content.dib.value| <= U32_MAX)
  }

  /** A content is provided exactly when some of it is asked for and it stays within 20 MiB, compressed and not. */
  lemma WhenProvided(c: Codec, requested: set<Format>, content: Content)
    requires Measurable(c, content)
    ensures var formats := requested * content.Formats();
            ProvideMessageBytes(c, requested, content).Some? <==>
              && formats != {} && WireSize(c, content, formats) <= 20 * 1024 * 1024
              && Items(c, content, formats, 0).Some?
              && |c.compress(Items(c, content, formats, 0).value)| + 4 <= 20 * 1024 * 1024
    ensures var formats := requested * content.Formats();
            WireSize(c, content, formats) <= 20 * 1024 * 1024 ==> Items(c, content, formats, 0).Some?
  {
    hide Be32, WireText, Content.Formats;
    var formats := requested * content.Formats();
    if Items(c, content, formats, 0).Some? {
      ItemsOnTheWire(c, content, formats);
    }
    if WireSize(c, content, formats) <= MAX_CLIPBOARD_BYTES {
      FormatsPresent(content);
      BytesAreWired(c, content);
      SmallItems(c, content, formats, 0);
    }
  }

  lemma FormatsPresent(content: Content)
    ensures forall f | f in content.Formats() ::
              match f
              case Text => content.text.Some?
              case Rtf => content.rtf.Some?
              case Html => content.html.Some?
              case DibV5 => content.dib.Some?
  {
  }

  lemma {:induction false} SmallItems(c: Codec, content: Content, formats: set<Format>, k: nat)
    requires k <= 4
    requires forall j | k <= j < 4 && ALL[j] in formats ::
               content.Bytes(c, ALL[j]).Some? && |content.Bytes(c, ALL[j]).value| <= MAX_CLIPBOARD_BYTES
    ensures Items(c, content, formats, k).Some?
    decreases 4 - k
  {
    hide Be32, Content.Bytes;
    if k < 4 {
      SmallItems(c, content, formats, k + 1);
    }
  }

  // ----- reading them back -----

  function ParseItems(c: Codec, formats: set<Format>, data: seq<u8>, k: nat, content: Content): Option<Content>
    requires k <= 4
    decreases 4 - k
  {
    if k == 4 then if data == [] then Some(content) else None
    else if ALL[k] !in formats then ParseItems(c, formats, data, k + 1, content)
    else if |data| < 4 then None
    else
      var size := FromBe32(data[..4]);
      if size > MAX_CLIPBOARD_BYTES || 4 + size > |data| then None
      else
        var more := content.SetBytes(c, ALL[k], data[4..4 + size]);
        if more.None? then None else ParseItems(c, formats, data[4 + size..], k + 1, more.value)
  }

  function ParseProvide(c: Codec, formats: set<Format>, body: seq<u8>): Option<Message> {
    if formats == {} || |body| > MAX_CLIPBOARD_BYTES then None
    else
      var inflated := c.inflate(body);
      if inflated.None? || |inflated.value| > MAX_CLIPBOARD_BYTES then None
      else
        var content := ParseItems(c, formats, inflated.value, 0, EMPTY);
        if content.None? then None else Some(ProvideMessage(content.value))
  }

  /** One size for each announced format bit, known or not; only the four known ones are kept. */
  function ParseSizes(word: nat, body: seq<u8>, bit: nat, sizes: seq<u32>): Option<seq<u32>>
    requires bit <= 16 && |sizes| == 4
    decreases 16 - bit
  {
    if bit == 16 then if body == [] then Some(sizes) else None
    else if !Bit(word, bit) then ParseSizes(word, body, bit + 1, sizes)
    else if |body| < 4 || FromBe32(body[..4]) > MAX_CLIPBOARD_BYTES then None
    else ParseSizes(word, body[4..], bit + 1, if bit < 4 then sizes[bit := FromBe32(body[..4])] else sizes)
  }

  function ActionsOf(high: nat): set<Action> {
    (if Bit(high, 1) then {Request} else {}) + (if Bit(high, 2) then {Peek} else {})
    + (if Bit(high, 3) then {Notify} else {}) + (if Bit(high, 4) then {Provide} else {})
  }

  function ParseExtended(c: Codec, payload: seq<u8>): Option<Message> {
    if |payload| < 4 then None
    else
      var flags, body := FromBe32(payload[..4]), payload[4..];
      var formats, high := flags % 0x1_0000, flags / 0x100_0000;
      if flags / 0x1_0000 % 0x100 != 0 then None
      else if Bit(high, 0) then
        if high >= 32 then None
        else
          var sizes := ParseSizes(formats, body, 0, [0, 0, 0, 0]);
          if sizes.None? then None else Some(CapsMessage(Caps(Known(formats), ActionsOf(high), sizes.value)))
      else if formats >= 16 then None
      else if high == 2 then if body == [] then Some(RequestMessage(Known(formats))) else None
      else if high == 4 then if body == [] && formats == 0 then Some(PeekMessage) else None
      else if high == 8 then if body == [] then Some(NotifyMessage(Known(formats))) else None
      else if high == 16 then ParseProvide(c, Known(formats), body)
      else None
  }

  /** `read_server_cut_text`, after the message type byte: the message, and what the stream still holds. */
  function ReadServerCutText(c: Codec, stream: seq<u8>): Option<(CutText, seq<u8>)> {
    if |stream| < 7 then None
    else
      var length, rest := FromBe32(stream[3..7]), stream[7..];
      if length < 0x8000_0000 then
        if length > MAX_CLIPBOARD_BYTES || |rest| < length then None else Some((Legacy(rest[..length]), rest[length..]))
      else
        var size := 0x1_0000_0000 - length;
        if size > MAX_CLIPBOARD_BYTES || |rest| < size then None
        else
          var message := ParseExtended(c, rest[..size]);
          if message.None? then None else Some((Extended(message.value), rest[size..]))
  }

  // ----- reading back what was written -----

  /** Framing is transparent, whatever follows on the stream. */
  lemma FramedIsRead(c: Codec, payload: seq<u8>, later: seq<u8>)
    requires 0 < |payload| && Framed(payload).Some?
    ensures ReadServerCutText(c, Framed(payload).value[1..] + later)
         == (var m := ParseExtended(c, payload); if m.None? then None else Some((Extended(m.value), later)))
  {
    hide ParseExtended, Be32, FromBe32;
    var length := 0x1_0000_0000 - |payload|;
    var stream := Framed(payload).value[1..] + later;
    Be32RoundTrip(length);
    assert stream == [0, 0, 0] + Be32(length) + payload + later;
    assert stream[3..7] == Be32(length);
    assert stream[7..] == payload + later;
    assert (payload + later)[..|payload|] == payload && (payload + later)[|payload|..] == later;
  }

  /** Cut text of the older kind is read as it is, up to the same limit and whatever follows. */
  lemma LegacyIsRead(c: Codec, bytes: seq<u8>, later: seq<u8>)
    requires |bytes| <= 20 * 1024 * 1024
    ensures ReadServerCutText(c, [0, 0, 0] + Be32(|bytes|) + bytes + later) == Some((Legacy(bytes), later))
  {
    hide Be32, FromBe32;
    var stream := [0, 0, 0] + Be32(|bytes|) + bytes + later;
    Be32RoundTrip(|bytes|);
    assert stream[3..7] == Be32(|bytes|);
    assert stream[7..] == bytes + later;
    assert (bytes + later)[..|bytes|] == bytes && (bytes + later)[|bytes|..] == later;
  }

  /** A message that is cut short, or longer than the limit, is never read; what is read ends where its length says. */
  lemma ReadEndsInTime(c: Codec, stream: seq<u8>)
    requires ReadServerCutText(c, stream).Some?
    ensures |stream| >= 7
    ensures var length := FromBe32(stream[3..7]);
            var size := if length < 0x8000_0000 then length else 0x1_0000_0000 - length;
            && size <= 20 * 1024 * 1024 && 7 + size <= |stream|
            && ReadServerCutText(c, stream).value.1 == stream[7 + size..]
            && (ReadServerCutText(c, stream).value.0.Legacy? <==> length < 0x8000_0000)
  {
    hide FromBe32, ParseExtended;
  }

  lemma WordRoundTrip(bytes: seq<u8>)
    requires |bytes| == 4
    ensures Be32(FromBe32(bytes)) == bytes
  {
    var b0: int, b1: int, b2: int, b3: int := bytes[0], bytes[1], bytes[2], bytes[3];
    var n := ((b0 * 256 + b1) * 256 + b2) * 256 + b3;
    assert n / 256 == (b0 * 256 + b1) * 256 + b2 && n % 256 == b3;
    assert n / 256 / 256 == b0 * 256 + b1 && n / 256 % 256 == b2;
    assert n / 256 / 256 / 256 == b0 && n / 256 / 256 % 256 == b1;
    assert bytes == [bytes[0], bytes[1], bytes[2], bytes[3]];
  }

  lemma KnownWord(word: nat)
    requires word < 16
    ensures FormatWord(Known(word)) == word
  {
    FourBits(word);
    assert ALL[0] == Text && ALL[1] == Rtf && ALL[2] == Html && ALL[3] == DibV5;
    assert Text in Known(word) <==> Bit(word, 0);
    assert Rtf in Known(word) <==> Bit(word, 1);
    assert Html in Known(word) <==> Bit(word, 2);
    assert DibV5 in Known(word) <==> Bit(word, 3);
  }

  /** How a flag word is put together from its parts. */
  lemma WordOfParts(word: u32)
    ensures word / 0x1_0000 % 0x100 == 0 ==> word == word / 0x100_0000 * 0x100_0000 + word % 0x1_0000
  {
    assert word == word / 0x1_0000 * 0x1_0000 + word % 0x1_0000;
    assert word / 0x1_0000 == word / 0x100_0000 * 0x100 + word / 0x1_0000 % 0x100;
  }

  /**
   * Reading is the exact inverse of writing: a request, notification or peek is read from the one payload that is
   * written for it and from no other, and provided content only behind a word that names its own formats.
   */
  lemma OnlyOwnEncodingIsRead(c: Codec, payload: seq<u8>, formats: set<Format>)
    ensures ParseExtended(c, payload) == Some(RequestMessage(formats))
            <==> payload == Be32(0x200_0000 + FormatWord(formats))
    ensures ParseExtended(c, payload) == Some(NotifyMessage(formats))
            <==> payload == Be32(0x800_0000 + FormatWord(formats))
    ensures ParseExtended(c, payload) == Some(PeekMessage) <==> payload == Be32(0x400_0000)
    ensures var read := ParseExtended(c, payload);
            read.Some? && read.value.ProvideMessage? ==>
              && read.value.content.Formats() != {}
              && payload[..4] == Be32(0x1000_0000 + FormatWord(read.value.content.Formats()))
  {
    hide Be32, FromBe32, Known, FormatWord, Content.Formats, ParseProvide, ParseSizes;
    WrittenIsRead(c, 2, formats);
    WrittenIsRead(c, 8, formats);
    WrittenIsRead(c, 4, {});
    NoFormats({});
    if |payload| >= 4 {
      var word := FromBe32(payload[..4]);
      WordRoundTrip(payload[..4]);
      WordOfParts(word);
      assert payload == payload[..4] + payload[4..];
      EmptyTail(word);
      if word % 0x1_0000 < 16 {
        KnownWord(word % 0x1_0000);
        ProvidedFormatsAreNamed(c, Known(word % 0x1_0000), payload[4..]);
      }
    }
  }

  lemma WrittenIsRead(c: Codec, high: nat, formats: set<Format>)
    requires high == 2 || high == 8 || (high == 4 && formats == {})
    ensures ParseExtended(c, Be32(high * 0x100_0000 + FormatWord(formats)))
            == Some(if high == 2 then RequestMessage(formats) else if high == 8 then NotifyMessage(formats)
                    else PeekMessage)
  {
    hide Be32, FromBe32, Known, FormatWord;
    FlagWordSplits(high, FormatWord(formats), []);
    EmptyTail(high * 0x100_0000 + FormatWord(formats));
    KnownFormatWord(formats);
    NoFormats(formats);
    EvenHigh(high);
  }

  lemma ProvidedFormatsAreNamed(c: Codec, formats: set<Format>, body: seq<u8>)
    ensures var read := ParseProvide(c, formats, body);
            read.Some? ==> read.value.ProvideMessage? && read.value.content.Formats() == formats && formats != {}
  {
    hide ParseItems, Content.Formats;
    if ParseProvide(c, formats, body).Some? {
      var data := c.inflate(body).value;
      NoneYet();
      ItemsSetFormats(c, formats, data, 0, EMPTY);
      AllFormats(formats);
    }
  }

  lemma NoneYet()
    ensures EMPTY.Formats() == {}
  {
  }

  lemma AllFormats(formats: set<Format>)
    ensures {} + (set k | 0 <= k < 4 && ALL[k] in formats :: ALL[k]) == formats
  {
    forall f ensures f in (set k | 0 <= k < 4 && ALL[k] in formats :: ALL[k]) <==> f in formats {
      assert ALL[if f.Text? then 0 else if f.Rtf? then 1 else if f.Html? then 2 else 3] == f;
    }
  }

  lemma {:induction false} ItemsSetFormats(c: Codec, formats: set<Format>, data: seq<u8>, k: nat, content: Content)
    requires k <= 4 && ParseItems(c, formats, data, k, content).Some?
    ensures ParseItems(c, formats, data, k, content).value.Formats()
            == content.Formats() + (set j | k <= j < 4 && ALL[j] in formats :: ALL[j])
    decreases 4 - k
  {
    hide FromBe32, Content.SetBytes, Content.Formats;
    if k < 4 {
      if ALL[k] in formats {
        var size := FromBe32(data[..4]);
        var more := content.SetBytes(c, ALL[k], data[4..4 + size]).value;
        ItemsSetFormats(c, formats, data[4 + size..], k + 1, more);
        SetOneFormat(c, content, ALL[k], data[4..4 + size]);
      } else {
        ItemsSetFormats(c, formats, data, k + 1, content);
      }
      assert (set j | k <= j < 4 && ALL[j] in formats :: ALL[j])
          == (if ALL[k] in formats then {ALL[k]} else {}) + (set j | k + 1 <= j < 4 && ALL[j] in formats :: ALL[j]);
    }
  }

  lemma SetOneFormat(c: Codec, content: Content, format: Format, bytes: seq<u8>)
    ensures var more := content.SetBytes(c, format, bytes);
            more.Some? ==> more.value.Formats() == content.Formats() + {format}
  {
  }

  /** The parts of a flag word come back apart. */
  lemma FlagWordSplits(high: nat, formats: nat, body: seq<u8>)
    requires high < 256 && formats < 0x1_0000
    ensures var word := high * 0x100_0000 + formats;
            && word <= U32_MAX && word % 0x1_0000 == formats && word / 0x100_0000 == high
              && word / 0x1_0000 % 0x100 == 0
            && (Be32(word) + body)[4..] == body && FromBe32((Be32(word) + body)[..4]) == word
  {
    hide Be32, FromBe32;
    var word := high * 0x100_0000 + formats;
    Be32RoundTrip(word);
    assert (Be32(word) + body)[..4] == Be32(word);
    assert word == 0x1_0000 * (high * 0x100) + formats;
    assert word / 0x1_0000 == high * 0x100;
  }

  lemma EmptyTail(word: u32)
    ensures Be32(word) + [] == Be32(word)
  {
  }

  /**
   * Requests and notifications come back with exactly the formats they were given; a peek comes back only when it
   * names none, and is refused otherwise.
   */
  lemma ActionRoundTrip(c: Codec, action: Action, formats: set<Format>, later: seq<u8>)
    requires action != Provide
    ensures ActionMessage(action, formats).Some?
    ensures ReadServerCutText(c, ActionMessage(action, formats).value[1..] + later)
         == match action
            case Request => Some((Extended(RequestMessage(formats)), later))
            case Notify => Some((Extended(NotifyMessage(formats)), later))
            case _ => if formats == {} then Some((Extended(PeekMessage), later)) else None
  {
    hide Known, FormatWord, FromBe32, ReadServerCutText;
    var high := match action case Request => 2 case Peek => 4 case Notify => 8 case Provide => 16;
    var word := ActionWord(action) + FormatWord(formats);
    FlagWordSplits(high, FormatWord(formats), []);
    EmptyTail(word);
    KnownFormatWord(formats);
    NoFormats(formats);
    FramedIsRead(c, Be32(word), later);
    EvenHigh(high);
  }

  lemma NoFormats(formats: set<Format>)
    ensures FormatWord(formats) == 0 <==> formats == {}
  {
    forall f | FormatWord(formats) == 0 ensures f !in formats {
      assert f.Text? || f.Rtf? || f.Html? || f.DibV5?;
    }
  }

  lemma EvenHigh(high: nat)
    requires high in {2, 4, 8, 16}
    ensures !Bit(high, 0)
  {
  }

  /** The capabilities sent are read back as they were. */
  lemma CapsRoundTrip(c: Codec, later: seq<u8>)
    ensures Framed(CapsPayload()).Some?
    ensures ReadServerCutText(c, Framed(CapsPayload()).value[1..] + later)
            == Some((Extended(CapsMessage(LOCAL_CAPS)), later))
  {
    hide FromBe32, Be32, ReadServerCutText, Known, ActionsOf, ParseSizes;
    var sizes := Be32(0) + Be32(0) + Be32(0) + Be32(0);
    LocalFlags();
    FlagWordSplits(31, 15, sizes);
    assert CapsPayload() == Be32(0x1f00_000f) + sizes;
    SizesRoundTrip();
    FramedIsRead(c, CapsPayload(), later);
  }

  lemma LocalFlags()
    ensures CAPS_WORD + FormatWord(LOCAL_CAPS.formats) + ActionsWord(LOCAL_CAPS.actions) == 0x1f00_000f
            == 31 * 0x100_0000 + 15
    ensures Known(15) == LOCAL_CAPS.formats && ActionsOf(31) == LOCAL_CAPS.actions && Bit(31, 0)
  {
    KnownFormatWord(LOCAL_CAPS.formats);
    FourBits(31);
    assert Bit(31, 4) == Bit(15, 3);
    FourBits(15);
  }

  lemma {:induction false} NoHighSizes(word: nat, bit: nat, sizes: seq<u32>)
    requires 4 <= bit <= 16 && |sizes| == 4 && forall k | bit <= k < 16 :: !Bit(word, k)
    ensures ParseSizes(word, [], bit, sizes) == Some(sizes)
    decreases 16 - bit
  {
    if bit < 16 {
      NoHighSizes(word, bit + 1, sizes);
    }
  }

  lemma {:induction false} NoBits(k: nat)
    ensures !Bit(0, k)
  {
    if k > 0 {
      NoBits(k - 1);
    }
  }

  lemma SizesRoundTrip()
    ensures ParseSizes(15, Be32(0) + Be32(0) + Be32(0) + Be32(0), 0, [0, 0, 0, 0]) == Some([0, 0, 0, 0])
  {
    hide Be32, FromBe32;
    FourBits(15);
    Be32RoundTrip(0);
    forall k | 4 <= k < 16 ensures !Bit(15, k) {
      assert Bit(15, k) == Bit(7, k - 1) == Bit(3, k - 2) == Bit(1, k - 3) == Bit(0, k - 4);
      NoBits(k - 4);
    }
    NoHighSizes(15, 4, [0, 0, 0, 0]);
    var z := Be32(0);
    OneSize(0, z + z + z);
    OneSize(1, z + z);
    OneSize(2, z);
    OneSize(3, []);
    assert z + (z + z + z) == z + z + z + z && z + (z + z) == z + z + z && z + [] == z;
  }

  lemma OneSize(bit: nat, rest: seq<u8>)
    requires bit < 4 && Bit(15, bit)
    ensures ParseSizes(15, Be32(0) + rest, bit, [0, 0, 0, 0]) == ParseSizes(15, rest, bit + 1, [0, 0, 0, 0])
  {
    hide Be32, FromBe32;
    Be32RoundTrip(0);
    assert (Be32(0) + rest)[..4] == Be32(0) && (Be32(0) + rest)[4..] == rest;
    assert [0, 0, 0, 0][bit := 0] == [0, 0, 0, 0];
  }

  /** The announced sizes from format `k` on, one for each announced format. */
  function SizeWords(caps: Caps, k: nat): seq<u8>
    requires |caps.maximumUnsolicitedSizes| == 4 && k <= 4
    decreases 4 - k
  {
    if k == 4 then []
    else (if ALL[k] in caps.formats then Be32(caps.maximumUnsolicitedSizes[k]) else []) + SizeWords(caps, k + 1)
  }

  /** Only announced formats have a size, and none exceeds the limit. */
  predicate CapsAllowed(caps: Caps) {
    && |caps.maximumUnsolicitedSizes| == 4
    && forall k | 0 <= k < 4 ::
         if ALL[k] in caps.formats then caps.maximumUnsolicitedSizes[k] <= MAX_CLIPBOARD_BYTES
         else caps.maximumUnsolicitedSizes[k] == 0
  }

  /** Whatever any server announces, in the layout of the protocol, is read as it was announced. */
  lemma AnnouncedCapsAreRead(c: Codec, caps: Caps)
    requires CapsAllowed(caps)
    ensures ParseExtended(c,
              Be32(0x100_0000 + FormatWord(caps.formats) + ActionsWord(caps.actions)) + SizeWords(caps, 0))
            == Some(CapsMessage(caps))
  {
    hide Be32, FromBe32, Known, FormatWord, ActionsWord, ActionsOf, ParseSizes;
    var high := ActionsHigh(caps.actions);
    FlagWordSplits(high, FormatWord(caps.formats), SizeWords(caps, 0));
    KnownFormatWord(caps.formats);
    SizesAreRead(caps, 0, [0, 0, 0, 0]);
  }

  lemma FiveBits(b0: nat, b1: nat, b2: nat, b3: nat, b4: nat)
    requires b0 <= 1 && b1 <= 1 && b2 <= 1 && b3 <= 1 && b4 <= 1
    ensures var n := b0 + 2 * b1 + 4 * b2 + 8 * b3 + 16 * b4;
            && (Bit(n, 0) <==> b0 == 1) && (Bit(n, 1) <==> b1 == 1) && (Bit(n, 2) <==> b2 == 1)
            && (Bit(n, 3) <==> b3 == 1) && (Bit(n, 4) <==> b4 == 1)
  {
    var n := b0 + 2 * b1 + 4 * b2 + 8 * b3 + 16 * b4;
    assert n / 2 == b1 + 2 * b2 + 4 * b3 + 8 * b4;
    assert n / 2 / 2 == b2 + 2 * b3 + 4 * b4;
    assert n / 2 / 2 / 2 == b3 + 2 * b4;
    FourBits(n);
    FourBits(n / 2);
    assert Bit(n, 4) == Bit(n / 2, 3);
  }

  lemma ActionsHigh(actions: set<Action>) returns (high: nat)
    ensures high < 32 && Bit(high, 0) && ActionsOf(high) == actions
    ensures 0x100_0000 + ActionsWord(actions) == high * 0x100_0000
  {
    hide Bit;
    var request, peek := if Request in actions then 1 else 0, if Peek in actions then 1 else 0;
    var notify, provide := if Notify in actions then 1 else 0, if Provide in actions then 1 else 0;
    high := 1 + 2 * request + 4 * peek + 8 * notify + 16 * provide;
    FiveBits(1, request, peek, notify, provide);
    forall a ensures a in ActionsOf(high) <==> a in actions {
      assert a == Request || a == Peek || a == Notify || a == Provide;
    }
  }

  lemma HighBitsClear(word: nat, k: nat)
    requires word < 16 && k >= 4
    ensures !Bit(word, k)
  {
    assert Bit(word, k) == Bit(word / 2, k - 1) == Bit(word / 2 / 2, k - 2) == Bit(word / 2 / 2 / 2, k - 3);
    assert Bit(word / 2 / 2 / 2, k - 3) == Bit(word / 2 / 2 / 2 / 2, k - 4);
    NoBits(k - 4);
  }

  lemma FormatBit(formats: set<Format>, k: nat)
    requires k < 4
    ensures Bit(FormatWord(formats), k) <==> ALL[k] in formats
  {
    FourBits(FormatWord(formats));
  }

  lemma {:induction false} SizesAreRead(caps: Caps, k: nat, sizes: seq<u32>)
    requires CapsAllowed(caps) && k <= 4 && |sizes| == 4
    requires forall j | 0 <= j < 4 :: sizes[j] == if j < k then caps.maximumUnsolicitedSizes[j] else 0
    ensures ParseSizes(FormatWord(caps.formats), SizeWords(caps, k), k, sizes) == Some(caps.maximumUnsolicitedSizes)
    decreases 4 - k
  {
    hide Be32, FromBe32, FormatWord, Bit;
    var word := FormatWord(caps.formats);
    if k == 4 {
      forall j | 4 <= j < 16 ensures !Bit(word, j) {
        HighBitsClear(word, j);
      }
      assert sizes == caps.maximumUnsolicitedSizes;
      NoHighSizes(word, 4, sizes);
    } else {
      FormatBit(caps.formats, k);
      var size, rest := caps.maximumUnsolicitedSizes[k], SizeWords(caps, k + 1);
      if ALL[k] in caps.formats {
        Be32RoundTrip(size);
        assert (Be32(size) + rest)[..4] == Be32(size) && (Be32(size) + rest)[4..] == rest;
        SizesAreRead(caps, k + 1, sizes[k := size]);
      } else {
        assert [] + rest == rest;
        SizesAreRead(caps, k + 1, sizes);
      }
    }
  }

  lemma {:induction false} ItemsRoundTrip(c: Codec, content: Content, formats: set<Format>, k: nat)
    requires Lossless(c) && k <= 4 && formats <= content.Formats() && Items(c, content, formats, k).Some?
    ensures ParseItems(c, formats, Items(c, content, formats, k).value, k, Received(content, formats, k))
            == Some(Received(content, formats, 4))
    decreases 4 - k
  {
    hide Be32, FromBe32, Content.Bytes, Content.SetBytes, Content.Formats;
    if k < 4 {
      ItemsRoundTrip(c, content, formats, k + 1);
      if ALL[k] in formats {
        var bytes := content.Bytes(c, ALL[k]).value;
        var data := Items(c, content, formats, k).value;
        var rest := Items(c, content, formats, k + 1).value;
        Be32RoundTrip(|bytes|);
        assert data == Be32(|bytes|) + bytes + rest;
        assert data[..4] == Be32(|bytes|) && data[4..4 + |bytes|] == bytes && data[4 + |bytes|..] == rest;
        SetBytesOfBytes(c, content, formats, k);
      } else {
        assert Received(content, formats, k) == Received(content, formats, k + 1);
      }
    }
  }

  /**
   * A provided content is read back restricted to the formats that were requested and present, byte for byte, its
   * text equal up to folding CR LF into LF.
   */
  lemma ProvideRoundTrip(c: Codec, requested: set<Format>, content: Content, later: seq<u8>)
    requires Lossless(c) && ProvideMessageBytes(c, requested, content).Some?
    ensures ReadServerCutText(c, ProvideMessageBytes(c, requested, content).value[1..] + later)
         == Some((Extended(ProvideMessage(Received(content, requested * content.Formats(), 4))), later))
  {
    hide Be32, FromBe32, Known, FormatWord, Items, ParseItems, ReadServerCutText, Content.Formats;
    var formats := requested * content.Formats();
    var items := Items(c, content, formats, 0).value;
    var body := c.compress(items);
    var word := ActionWord(Provide) + FormatWord(formats);
    FlagWordSplits(16, FormatWord(formats), body);
    KnownFormatWord(formats);
    ItemsRoundTrip(c, content, formats, 0);
    assert Received(content, formats, 0) == EMPTY;
    EvenHigh(16);
    FramedIsRead(c, Be32(word) + body, later);
    assert c.inflate(body) == Some(items);
  }
}

/** The encoders and parsers that push to buffers and advance offsets, and the session that answers with them. */
module VncClipboardSession {
  import opened Wrappers
  import opened FixedWidth
  import opened VncClipboardText
  import opened VncClipboardCodec

  /** What has been built so far, followed by the items still to come. */
  function Followed(built: seq<u8>, rest: Option<seq<u8>>): Option<seq<u8>> {
    if rest.None? then None else Some(built + rest.value)
  }

  /** One turn of the encoder's loop. */
  lemma OneItem(c: Codec, content: Content, formats: set<Format>, k: nat, built: seq<u8>)
    requires k < 4
    ensures ALL[k] !in formats ==> Items(c, content, formats, k) == Items(c, content, formats, k + 1)
    ensures ALL[k] in formats ==>
              var bytes := content.Bytes(c, ALL[k]);
              if bytes.None? || |bytes.value| > MAX_CLIPBOARD_BYTES then Items(c, content, formats, k).None?
              else Followed(built, Items(c, content, formats, k))
                   == Followed(built + Be32(|bytes.value|) + bytes.value, Items(c, content, formats, k + 1))
  {
    hide Be32, Content.Bytes;
    var rest := Items(c, content, formats, k + 1);
    if ALL[k] in formats && content.Bytes(c, ALL[k]).Some? && rest.Some? {
      var bytes := content.Bytes(c, ALL[k]).value;
      if |bytes| <= MAX_CLIPBOARD_BYTES {
        assert built + (Be32(|bytes|) + bytes + rest.value) == built + Be32(|bytes|) + bytes + rest.value;
      }
    }
  }

  /** `extended_clipboard_provide_message` */
  method ExtendedClipboardProvideMessage(c: Codec, requested: set<Format>, content: Content)
    returns (r: Option<seq<u8>>)
    ensures r == ProvideMessageBytes(c, requested, content)
  {
    hide Be32, Items, Content.Bytes, Content.Formats, Framed;
    var formats := requested * content.Formats();
    if formats == {} {
      return None;
    }
    ghost var all := Items(c, content, formats, 0);
    var uncompressed: seq<u8> := [];
    NothingBuilt(c, content, formats);
    for k := 0 to 4
      invariant |uncompressed| <= MAX_CLIPBOARD_BYTES
      invariant all == Followed(uncompressed, Items(c, content, formats, k))
    {
      OneItem(c, content, formats, k, uncompressed);
      if ALL[k] in formats {
        var bytes := content.Bytes(c, ALL[k]);
        if bytes.None? || |bytes.value| > MAX_CLIPBOARD_BYTES
          || |uncompressed| + 4 + |bytes.value| > MAX_CLIPBOARD_BYTES {
          return None;
        }
        uncompressed := uncompressed + Be32(|bytes.value|) + bytes.value;
      }
    }
    AllBuilt(c, content, formats, uncompressed);
    var compressed := c.compress(uncompressed);
    if |compressed| + 4 > MAX_CLIPBOARD_BYTES {
      return None;
    }
    return Framed(Be32(ActionWord(Provide) + FormatWord(formats)) + compressed);
  }

  lemma NothingBuilt(c: Codec, content: Content, formats: set<Format>)
    ensures Items(c, content, formats, 0) == Followed([], Items(c, content, formats, 0))
  {
    hide Items;
    var items := Items(c, content, formats, 0);
    assert items.Some? ==> [] + items.value == items.value;
  }

  lemma AllBuilt(c: Codec, content: Content, formats: set<Format>, built: seq<u8>)
    ensures Followed(built, Items(c, content, formats, 4)) == Some(built)
  {
    assert built + [] == built;
  }

  lemma SliceOfSuffix(data: seq<u8>, offset: nat, from: nat, to: nat)
    requires from <= to && offset + to <= |data|
    ensures data[offset..][from..to] == data[offset + from..offset + to]
    ensures data[offset..][..to] == data[offset..offset + to]
    ensures data[offset..][to..] == data[offset + to..]
  {
  }

  /** `parse_extended_clipboard_provide` */
  method ParseExtendedClipboardProvide(c: Codec, formats: set<Format>, body: seq<u8>) returns (r: Option<Message>)
    ensures r == ParseProvide(c, formats, body)
  {
    hide FromBe32, Content.SetBytes;
    if formats == {} || |body| > MAX_CLIPBOARD_BYTES {
      return None;
    }
    var inflated := c.inflate(body);
    if inflated.None? || |inflated.value| > MAX_CLIPBOARD_BYTES {
      return None;
    }
    var data, content, offset := inflated.value, EMPTY, 0;
    assert data[0..] == data;
    for k := 0 to 4
      invariant 0 <= offset <= |data|
      invariant ParseItems(c, formats, data, 0, EMPTY) == ParseItems(c, formats, data[offset..], k, content)
    {
      if ALL[k] in formats {
        if offset + 4 > |data| {
          return None;
        }
        SliceOfSuffix(data, offset, 0, 4);
        var size := FromBe32(data[offset..offset + 4]);
        if size > MAX_CLIPBOARD_BYTES || offset + 4 + size > |data| {
          return None;
        }
        SliceOfSuffix(data, offset, 4, 4 + size);
        var more := content.SetBytes(c, ALL[k], data[offset + 4..offset + 4 + size]);
        if more.None? {
          return None;
        }
        content, offset := more.value, offset + 4 + size;
      }
    }
    return if offset == |data| then Some(ProvideMessage(content)) else None;
  }

  /** The loop of `parse_extended_clipboard_caps`. */
  method ParseCapsSizes(word: nat, body: seq<u8>) returns (r: Option<seq<u32>>)
    ensures r == ParseSizes(word, body, 0, [0, 0, 0, 0])
  {
    hide FromBe32, Bit;
    var sizes: seq<u32>, offset := [0, 0, 0, 0], 0;
    assert body[0..] == body;
    for bit := 0 to 16
      invariant |sizes| == 4 && 0 <= offset <= |body|
      invariant ParseSizes(word, body, 0, [0, 0, 0, 0]) == ParseSizes(word, body[offset..], bit, sizes)
    {
      if Bit(word, bit) {
        if offset + 4 > |body| {
          return None;
        }
        SliceOfSuffix(body, offset, 0, 4);
        var size := FromBe32(body[offset..offset + 4]);
        if size > MAX_CLIPBOARD_BYTES {
          return None;
        }
        if bit < 4 {
          sizes := sizes[bit := size];
        }
        offset := offset + 4;
      }
    }
    return if offset == |body| then Some(sizes) else None;
  }

  // ----- the session -----

  datatype Outgoing =
    | LegacyText(text: string)
    | OwnCaps
    | Ask(action: Action, formats: set<Format>)
    | Offer(formats: set<Format>, content: Content)

  datatype Session = Session(caps: Option<Caps>, local: Option<Content>)

  function OutgoingFormats(s: Session, content: Content): set<Format> {
    if s.caps.None? then {} else s.caps.value.formats * content.Formats()
  }

  /** What `local_content_announcement` has to say. */
  function Announcement(s: Session): seq<Outgoing> {
    if s.local.None? then []
    else
      var content := s.local.value;
      if s.caps.None? then if content.text.Some? then [LegacyText(content.text.value)] else []
      else
        var formats := OutgoingFormats(s, content);
        if formats == {} then []
        else if Notify in s.caps.value.actions then [Ask(Notify, formats)]
        else if Provide in s.caps.value.actions then [Offer(formats, content)]
        else []
  }

  function Encoded(c: Codec, m: Outgoing): Option<seq<u8>> {
    match m
    case LegacyText(text) => c.legacyCutText(text)
    case OwnCaps => Framed(CapsPayload())
    case Ask(action, formats) => ActionMessage(action, formats)
    case Offer(formats, content) => ProvideMessageBytes(c, formats, content)
  }

  /** One message that cannot be encoded fails the whole answer. */
  function Built(c: Codec, messages: seq<Outgoing>): Option<seq<Outgoing>> {
    if forall m | m in messages :: Encoded(c, m).Some? then Some(messages) else None
  }

  /** What a server may not say: anything but capabilities before them, and requests it did not negotiate. */
  predicate Refused(s: Session, message: Message) {
    && !message.CapsMessage?
    && (s.caps.None?
        || (message.RequestMessage? && Provide !in s.caps.value.actions)
        || (message.PeekMessage? && Notify !in s.caps.value.actions))
  }

  function Next(s: Session, message: Message): Session {
    if message.CapsMessage? then s.(caps := Some(message.caps)) else s
  }

  function Answer(s: Session, message: Message): seq<Outgoing>
    requires !Refused(s, message)
  {
    match message
    case CapsMessage(caps) =>
      [OwnCaps] + (if Peek in caps.actions then [Ask(Peek, {})] else []) + Announcement(Next(s, message))
    case RequestMessage(formats) =>
      if s.local.None? then []
      else
        var offered := formats * OutgoingFormats(s, s.local.value);
        if offered == {} then [] else [Offer(offered, s.local.value)]
    case PeekMessage => Announcement(s)
    case NotifyMessage(formats) =>
      if Request in s.caps.value.actions && formats != {} then [Ask(Request, formats)] else []
    case ProvideMessage(_) => []
  }

  /** What the user's clipboard is told. */
  datatype HelperEvent = ClipboardText(text: string) | ClipboardPicture(png: seq<u8>)

  datatype Outcome = Outcome(messages: seq<Outgoing>, events: seq<HelperEvent>, capabilitiesChanged: bool)

  /** Text first, rich text as text when there is none; a picture besides. None: the picture cannot be converted. */
  function Shown(c: Codec, content: Content): Option<seq<HelperEvent>> {
    var text :=
      if content.text.Some? then [ClipboardText(content.text.value)]
      else if content.html.Some? then [ClipboardText(c.lossyUtf8(content.html.value))]
      else if content.rtf.Some? then [ClipboardText(c.lossyUtf8(content.rtf.value))]
      else [];
    if content.dib.None? then Some(text)
    else
      var png := c.dibToPng(content.dib.value);
      if png.None? || |png.value| > MAX_CLIPBOARD_BYTES then None else Some(text + [ClipboardPicture(png.value)])
  }

  function Events(c: Codec, message: Message): Option<seq<HelperEvent>> {
    if message.ProvideMessage? then Shown(c, message.content) else Some([])
  }

  /** `observe_server_message`: None is the error that ends the session. */
  function Observe(c: Codec, s: Session, received: CutText): (Session, Option<Outcome>) {
    match received
    case Legacy(bytes) => (s, Some(Outcome([], [ClipboardText(c.decodeLegacy(bytes))], false)))
    case Extended(message) =>
      if Refused(s, message) then (s, None)
      else
        var messages, events := Built(c, Answer(s, message)), Events(c, message);
        var changed := message.CapsMessage? && s.caps != Some(message.caps);
        (Next(s, message),
         if messages.None? || events.None? then None else Some(Outcome(messages.value, events.value, changed)))
  }

  /** Traffic this client may send: vendor messages only once the server announced that very action and format. */
  predicate Negotiated(s: Session, m: Outgoing) {
    match m
    case LegacyText(_) => s.caps.None?
    case OwnCaps => s.caps.Some?
    case Ask(action, formats) =>
      s.caps.Some? && action in s.caps.value.actions
        && (action == Notify ==> formats != {} && formats <= s.caps.value.formats)
    case Offer(formats, content) =>
      && s.caps.Some? && Provide in s.caps.value.actions && formats != {} && formats <= s.caps.value.formats
      && s.local == Some(content) && formats <= content.Formats()
  }

  /**
   * Whatever the server says, every answer uses an action it announced; content is notified and offered only in
   * formats it announced, while a request names exactly the formats just notified, announced or not. A message
   * that is not refused fails only over an offer or a picture that cannot be encoded or converted.
   */
  lemma AnswersAreNegotiated(c: Codec, s: Session, message: Message)
    requires !Refused(s, message)
    ensures forall m | m in Answer(s, message) :: Negotiated(Next(s, message), m)
    ensures forall m | m in Answer(s, message) && m.Ask? && m.action == Request :: message == NotifyMessage(m.formats)
    ensures Observe(c, s, Extended(message)).1.None? ==>
              || (message.ProvideMessage? && Shown(c, message.content).None?)
              || exists m :: m in Answer(s, message) && m.Offer? && ProvideMessageBytes(c, m.formats, m.content).None?
  {
    hide Content.Formats, Encoded, Shown;
    var answer := Answer(s, message);
    if Built(c, answer).None? {
      var m :| m in answer && Encoded(c, m).None?;
      if m.OwnCaps? || m.Ask? {
        AlwaysEncoded(c, m);
      }
      OfferEncoded(c, m);
    }
  }

  lemma OfferEncoded(c: Codec, m: Outgoing)
    ensures m.Offer? ==> Encoded(c, m) == ProvideMessageBytes(c, m.formats, m.content)
  {
  }

  lemma AlwaysEncoded(c: Codec, m: Outgoing)
    requires m.OwnCaps? || (m.Ask? && m.action != Provide)
    ensures Encoded(c, m).Some?
  {
    hide Be32, FormatWord;
  }

  /** The session reports a change of capabilities exactly when it has learnt other ones. */
  lemma WhenCapabilitiesChange(c: Codec, s: Session, received: CutText)
    ensures var (after, outcome) := Observe(c, s, received);
            outcome.Some? ==> (outcome.value.capabilitiesChanged <==> after.caps != s.caps)
  {
    hide Built, Events;
  }

  /** What this client can give that the server can take. */
  predicate Shared(s: Session, f: Format) {
    && s.caps.Some? && f in s.caps.value.formats && s.local.Some?
    && match f
       case Text => s.local.value.text.Some?
       case Rtf => s.local.value.rtf.Some?
       case Html => s.local.value.html.Some?
       case DibV5 => s.local.value.dib.Some?
  }

  /**
   * What is copied is made known at once: to a server that announced nothing as plain text, to any other as a
   * notification of all that is shared if it takes them, as the content itself if it only takes that, or not at all.
   */
  lemma WhatIsAnnounced(s: Session)
    ensures var formats := set f | Shared(s, f);
            && (s.caps.None? ==>
                  Announcement(s) == if s.local.Some? && s.local.value.text.Some?
                                     then [LegacyText(s.local.value.text.value)] else [])
            && (s.caps.Some? ==>
                  Announcement(s)
                  == if formats == {} then []
                     else if Notify in s.caps.value.actions then [Ask(Notify, formats)]
                     else if Provide in s.caps.value.actions then [Offer(formats, s.local.value)]
                     else [])
  {
    if s.local.Some? && s.caps.Some? {
      assert OutgoingFormats(s, s.local.value) == set f | Shared(s, f);
    }
  }

  /** A server's capabilities are answered with this client's own, a peek if it takes them, and what is copied. */
  lemma CapsAreAnswered(s: Session, caps: Caps)
    ensures var answer := Answer(s, CapsMessage(caps));
            && answer[0] == OwnCaps
            && (Peek in caps.actions ==> |answer| > 1 && answer[1] == Ask(Peek, {}))
            && answer[(if Peek in caps.actions then 2 else 1)..] == Announcement(s.(caps := Some(caps)))
  {
    hide Announcement;
  }

  /** A permitted peek is answered with all that is shared, in one notification, or with nothing if there is nothing. */
  lemma PeekIsAnswered(s: Session)
    requires !Refused(s, PeekMessage)
    ensures var formats := set f | Shared(s, f);
            Answer(s, PeekMessage) == if formats == {} then [] else [Ask(Notify, formats)]
  {
    if s.local.Some? {
      assert OutgoingFormats(s, s.local.value) == set f | Shared(s, f);
    }
  }

  /** A notification is followed up by asking for all of it, whenever the server takes requests. */
  lemma NotificationIsFollowed(s: Session, formats: set<Format>)
    requires !Refused(s, NotifyMessage(formats))
    ensures Answer(s, NotifyMessage(formats))
            == if Request in s.caps.value.actions && formats != {} then [Ask(Request, formats)] else []
  {
  }

  /**
   * Ask and it is given: a server that negotiated Provide and requests formats gets one message which, read back,
   * is exactly this client's content restricted to the requested, supported and present formats.
   */
  lemma RequestedContentArrives(c: Codec, s: Session, formats: set<Format>, later: seq<u8>)
    requires Lossless(c) && s.caps.Some? && Provide in s.caps.value.actions && s.local.Some?
    ensures var content := s.local.value;
            var offered := formats * s.caps.value.formats * content.Formats();
            var message := ProvideMessageBytes(c, offered, content);
            && Observe(c, s, Extended(RequestMessage(formats))).1
               == (if offered == {} then Some(Outcome([], [], false))
                   else if message.None? then None
                   else Some(Outcome([Offer(offered, content)], [], false)))
            && (message.Some? ==>
                  ReadServerCutText(c, message.value[1..] + later)
                  == Some((Extended(ProvideMessage(Received(content, offered, 4))), later)))
  {
    hide Content.Formats, ProvideMessageBytes, ReadServerCutText, Received;
    var content := s.local.value;
    var offered := formats * s.caps.value.formats * content.Formats();
    assert formats * (s.caps.value.formats * content.Formats()) == offered && offered * content.Formats() == offered;
    if ProvideMessageBytes(c, offered, content).Some? {
      ProvideRoundTrip(c, offered, content, later);
    }
    var answer := Answer(s, RequestMessage(formats));
    assert answer == if offered == {} then [] else [Offer(offered, content)];
    assert offered != {} ==> Offer(offered, content) in answer;
    OfferEncoded(c, Offer(offered, content));
  }

  /** One message this client sends, as the other end of the connection reads it. */
  function ReadBack(c: Codec, m: Outgoing): Option<CutText> {
    var bytes := Encoded(c, m);
    if bytes.None? || bytes.value == [] then None
    else
      var received := ReadServerCutText(c, bytes.value[1..]);
      if received.None? then None else Some(received.value.0)
  }

  /**
   * Copied on one side, pasted on the other: with both sides' capabilities exchanged, copying text notifies, the
   * notification is answered by a request, the request by an offer, and the offer by showing the text, folded.
   */
  lemma CopiedTextArrives(c: Codec, text: string)
    requires Lossless(c) && ProvideMessageBytes(c, {Text}, EMPTY.(text := Some(text))).Some?
    ensures var sender := Session(Some(LOCAL_CAPS), Some(EMPTY.(text := Some(text))));
            var receiver := Session(Some(LOCAL_CAPS), None);
            && ReadBack(c, OwnCaps) == Some(Extended(CapsMessage(LOCAL_CAPS)))
            && |Announcement(sender)| == 1
            && var notification := ReadBack(c, Announcement(sender)[0]);
            && notification.Some?
            && Observe(c, receiver, notification.value).1 == Some(Outcome([Ask(Request, {Text})], [], false))
            && var request := ReadBack(c, Ask(Request, {Text}));
            && request.Some?
            && Observe(c, sender, request.value).1
               == Some(Outcome([Offer({Text}, sender.local.value)], [], false))
            && var offer := ReadBack(c, Offer({Text}, sender.local.value));
            && offer.Some?
            && Observe(c, receiver, offer.value).1 == Some(Outcome([], [ClipboardText(Fold(text))], false))
  {
    hide ProvideMessageBytes, ReadServerCutText, Fold, CapsPayload, ActionMessage, Framed;
    var content := EMPTY.(text := Some(text));
    var sender, receiver := Session(Some(LOCAL_CAPS), Some(content)), Session(Some(LOCAL_CAPS), None);
    assert content.Formats() == {Text} && LOCAL_CAPS.formats * {Text} == {Text} && {Text} * {Text} == {Text};
    AlwaysEncoded(c, OwnCaps);
    AlwaysEncoded(c, Ask(Notify, {Text}));
    AlwaysEncoded(c, Ask(Request, {Text}));
    SentNotEmpty(c, OwnCaps);
    SentNotEmpty(c, Ask(Notify, {Text}));
    SentNotEmpty(c, Ask(Request, {Text}));
    SentNotEmpty(c, Offer({Text}, content));
    CapsRoundTrip(c, []);
    ActionRoundTrip(c, Notify, {Text}, []);
    ActionRoundTrip(c, Request, {Text}, []);
    ProvideRoundTrip(c, {Text}, content, []);
    RequestedContentArrives(c, sender, {Text}, []);
    ProvidedTextIsShown(c, receiver, {Text}, content, []);
  }

  /** Every extended message starts with its type, and a stream that ends behind it is only that message. */
  lemma SentNotEmpty(c: Codec, m: Outgoing)
    requires !m.LegacyText? && Encoded(c, m).Some?
    ensures Encoded(c, m).value != [] && Encoded(c, m).value[1..] + [] == Encoded(c, m).value[1..]
  {
    hide Be32, Items;
  }

  /**
   * Text that another client provides is shown here as it was there, up to folding its line ends, followed by the
   * picture provided with it; only a picture that cannot be converted, or is too large once it is, fails.
   */
  lemma ProvidedTextIsShown(c: Codec, s: Session, requested: set<Format>, content: Content, later: seq<u8>)
    requires Lossless(c) && s.caps.Some? && Text in requested && content.text.Some?
    requires ProvideMessageBytes(c, requested, content).Some?
    ensures var received := ReadServerCutText(c, ProvideMessageBytes(c, requested, content).value[1..] + later);
            var text := ClipboardText(Fold(content.text.value));
            && received.Some? && received.value.1 == later
            && (content.dib.None? || DibV5 !in requested ==>
                  Observe(c, s, received.value.0) == (s, Some(Outcome([], [text], false))))
            && (content.dib.Some? && DibV5 in requested ==>
                  var png := c.dibToPng(content.dib.value);
                  Observe(c, s, received.value.0)
                  == (s, if png.None? || |png.value| > MAX_CLIPBOARD_BYTES then None
                         else Some(Outcome([], [text, ClipboardPicture(png.value)], false))))
  {
    hide ProvideMessageBytes, ReadServerCutText, Fold, Content.Formats;
    ProvideRoundTrip(c, requested, content, later);
    ProvidedFormats(requested, content);
    TextIsShown(c, Received(content, requested * content.Formats(), 4));
  }

  lemma ProvidedFormats(requested: set<Format>, content: Content)
    ensures var formats := requested * content.Formats();
            && (Text in formats <==> Text in requested && content.text.Some?)
            && (DibV5 in formats <==> DibV5 in requested && content.dib.Some?)
  {
  }

  lemma TextIsShown(c: Codec, content: Content)
    requires content.text.Some?
    ensures var text := ClipboardText(content.text.value);
            Shown(c, content) ==
            if content.dib.None? then Some([text])
            else
              var png := c.dibToPng(content.dib.value);
              if png.None? || |png.value| > MAX_CLIPBOARD_BYTES then None
              else Some([text, ClipboardPicture(png.value)])
  {
    if content.dib.Some? && c.dibToPng(content.dib.value).Some? {
      var text, picture := ClipboardText(content.text.value), ClipboardPicture(c.dibToPng(content.dib.value).value);
      assert [text] + [picture] == [text, picture];
    }
  }

  class VncClipboard {
    const codec: Codec
    var serverCapabilities: Option<Caps>
    var localContent: Option<Content>

    function State(): Session
      reads this
    {
      Session(serverCapabilities, localContent)
    }

    constructor (codec: Codec)
      ensures State() == Session(None, None) && this.codec == codec
    {
      this.codec, serverCapabilities, localContent := codec, None, None;
    }

    method SetLocalText(text: string) returns (sent: Option<seq<Outgoing>>)
      modifies this
      ensures State() == old(State()).(local := Some(EMPTY.(text := Some(text))))
      ensures sent == Built(codec, Announcement(State()))
    {
      localContent := Some(EMPTY.(text := Some(text)));
      var messages := LocalContentAnnouncement();
      sent := BuildAll(messages);
    }

    /** `set_local_data`; `dib` is the converted picture, if the conversion succeeded. */
    method SetLocalData(dib: Option<seq<u8>>) returns (sent: Option<seq<Outgoing>>)
      modifies this
      ensures State() == if dib.None? then old(State()) else old(State()).(local := Some(EMPTY.(dib := dib)))
      ensures sent == if dib.None? then None else Built(codec, Announcement(State()))
    {
      if dib.None? {
        return None;
      }
      localContent := Some(EMPTY.(dib := dib));
      var messages := LocalContentAnnouncement();
      sent := BuildAll(messages);
    }

    method LocalContentAnnouncement() returns (messages: seq<Outgoing>)
      ensures messages == Announcement(State())
      ensures forall m | m in messages :: Negotiated(State(), m)
    {
      hide Content.Formats;
      if localContent.None? {
        return [];
      }
      var content := localContent.value;
      if serverCapabilities.None? {
        return if content.text.Some? then [LegacyText(content.text.value)] else [];
      }
      var formats := serverCapabilities.value.formats * content.Formats();
      if formats == {} {
        return [];
      }
      if Notify in serverCapabilities.value.actions {
        return [Ask(Notify, formats)];
      }
      if Provide in serverCapabilities.value.actions {
        return [Offer(formats, content)];
      }
      return [];
    }

    method BuildAll(messages: seq<Outgoing>) returns (sent: Option<seq<Outgoing>>)
      ensures sent == Built(codec, messages)
    {
      hide Encoded;
      for i := 0 to |messages|
        invariant forall j | 0 <= j < i :: Encoded(codec, messages[j]).Some?
      {
        if Encoded(codec, messages[i]).None? {
          assert messages[i] in messages;
          return None;
        }
      }
      return Some(messages);
    }

    method ObserveServerMessage(received: CutText) returns (outcome: Option<Outcome>)
      modifies this
      ensures (State(), outcome) == Observe(codec, old(State()), received)
    {
      hide Content.Formats, Built, Shown;
      if received.Legacy? {
        return Some(Outcome([], [ClipboardText(codec.decodeLegacy(received.bytes))], false));
      }
      var message := received.message;
      if !message.CapsMessage? && serverCapabilities.None? {
        return None;
      }
      var messages: seq<Outgoing>, changed := [], false;
      match message {
        case CapsMessage(caps) =>
          changed := serverCapabilities != Some(caps);
          serverCapabilities := Some(caps);
          messages := [OwnCaps] + (if Peek in caps.actions then [Ask(Peek, {})] else []);
          var announcement := LocalContentAnnouncement();
          messages := messages + announcement;
        case RequestMessage(formats) =>
          if Provide !in serverCapabilities.value.actions {
            return None;
          }
          if localContent.Some? {
            var offered := formats * OutgoingFormats(State(), localContent.value);
            messages := if offered == {} then [] else [Offer(offered, localContent.value)];
          }
        case PeekMessage =>
          if Notify !in serverCapabilities.value.actions {
            return None;
          }
          messages := LocalContentAnnouncement();
        case NotifyMessage(formats) =>
          if Request in serverCapabilities.value.actions && formats != {} {
            messages := [Ask(Request, formats)];
          }
        case ProvideMessage(_) =>
      }
      var built := BuildAll(messages);
      var events := if message.ProvideMessage? then Shown(codec, message.content) else Some([]);
      return if built.None? || events.None? then None else Some(Outcome(built.value, events.value, changed));
    }
  }
}
