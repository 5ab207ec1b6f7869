// Pasting typed text: the paste waits until the server has accepted the format list that
// advertised it (section 2.2.3.2 of MS-RDPECLIP; plugins/rdp/src/clipboard.rs).

/** Line endings on the way to the server's clipboard. */
module WindowsText {
  /** Every line ends in CR LF, whichever of CR, LF and CR LF it ended in before. */
  function Normalize(text: string): string {
    if text == "" then ""
    else if text[0] == '\r' then "\r\n" + Normalize(if |text| > 1 && text[1] == '\n' then text[2..] else text[1..])
    else if text[0] == '\n' then "\r\n" + Normalize(text[1..])
    else [text[0]] + Normalize(text[1..])
  }

  /** CR and LF occur only together. */
  predicate Normal(text: string) {
    text == ""
    || (if text[0] == '\r' then |text| > 1 && text[1] == '\n' && Normal(text[2..])
        else text[0] != '\n' && Normal(text[1..]))
  }

  lemma {:induction false} NormalizedIsNormal(text: string)
    ensures Normal(Normalize(text))
    decreases |text|
  {
    if text != "" {
      var rest := if text[0] == '\r' && |text| > 1 && text[1] == '\n' then text[2..] else text[1..];
      NormalizedIsNormal(rest);
      assert Normalize(text)[(if text[0] in "\r\n" then 2 else 1)..] == Normalize(rest);
    }
  }

  /** Normal text, and no other, goes through unchanged; so normalizing twice is normalizing once. */
  lemma {:induction false} NormalizeKeepsNormal(text: string)
    ensures Normalize(text) == text <==> Normal(text)
    decreases |text|
  {
    if Normal(text) && text != "" {
      NormalizeKeepsNormal(if text[0] == '\r' then text[2..] else text[1..]);
      assert text == [text[0]] + text[1..];
      assert text[0] == '\r' ==> text == "\r\n" + text[2..];
    }
    NormalizedIsNormal(text);
  }

  /** The lines of a text, whichever of CR, LF and CR LF separates them. */
  function Lines(text: string): (lines: seq<string>)
    ensures lines != []
  {
    if text == "" then [""]
    else if |text| > 1 && text[..2] == "\r\n" then [""] + Lines(text[2..])
    else if text[0] in "\r\n" then [""] + Lines(text[1..])
    else
      var rest := Lines(text[1..]);
      [[text[0]] + rest[0]] + rest[1..]
  }

  /** Normalizing changes how lines end, and no line. */
  lemma {:induction false} NormalizeKeepsLines(text: string)
    ensures Lines(Normalize(text)) == Lines(text)
    decreases |text|
  {
    if text != "" {
      var ends := text[0] == '\r' || text[0] == '\n';
      var taken := if |text| > 1 && text[0] == '\r' && text[1] == '\n' then 2 else 1;
      NormalizeKeepsLines(text[taken..]);
      var rest := Normalize(text[taken..]);
      if ends {
        assert Normalize(text) == "\r\n" + rest;
        assert ("\r\n" + rest)[2..] == rest && ("\r\n" + rest)[..2] == "\r\n";
      } else {
        assert Normalize(text) == [text[0]] + rest;
        assert ([text[0]] + rest)[1..] == rest;
        assert |text| > 1 ==> text[..2][0] == text[0];
        assert |[text[0]] + rest| > 1 ==> ([text[0]] + rest)[..2][0] == text[0];
      }
    }
  }

  /** `windows_clipboard_text` */
  method WindowsClipboardText(text: string) returns (normalized: string)
    ensures normalized == Normalize(text)
  {
    hide Normalize;
    normalized := "";
    var i := 0;
    assert text[0..] == text && "" + Normalize(text) == Normalize(text);
    while i < |text|
      invariant i <= |text|
      invariant normalized + Normalize(text[i..]) == Normalize(text)
    {
      NormalizeStep(text, i);
      var character := text[i];
      i := i + 1;
      if character == '\r' {
        if i < |text| && text[i] == '\n' {
          i := i + 1;
        }
        normalized := normalized + "\r\n";
      } else if character == '\n' {
        normalized := normalized + "\r\n";
      } else {
        normalized := normalized + [character];
      }
    }
    NothingToNormalize(text);
  }

  lemma NothingToNormalize(text: string)
    ensures Normalize(text[|text|..]) == ""
  {
  }

  lemma NormalizeStep(text: string, i: nat)
    requires i < |text|
    ensures var character := text[i];
            Normalize(text[i..])
            == if character == '\r' then
                 "\r\n" + Normalize(if i + 1 < |text| && text[i + 1] == '\n' then text[i + 2..] else text[i + 1..])
               else if character == '\n' then "\r\n" + Normalize(text[i + 1..])
               else [character] + Normalize(text[i + 1..])
  {
    assert text[i..][1..] == text[i + 1..];
    assert i + 1 < |text| ==> text[i..][2..] == text[i + 2..];
  }
}

module ClipboardPaste {
  import opened Wrappers
  import opened WindowsText

  /** Which kinds of content the connection redirects. */
  datatype Options = Options(text: bool, images: bool, files: bool)

  datatype ImageFormat = Png | Jpeg | Webp | Gif | Bmp | Tiff | Svg

  datatype Picture = Picture(format: ImageFormat, bytes: seq<bv8>)

  /** A local file list under the transfer it belongs to; `names` stands for its descriptors. */
  datatype FileOffer = FileOffer(transferId: string, names: seq<string>)

  /** What a format list tells the server it may ask for. */
  datatype Formats = NoFormats | TextFormats | PictureFormats(format: ImageFormat) | FileList(names: seq<string>)

  /** The fields of the backend that offering and pasting depend on. */
  datatype Paste = Paste(
    options: Options, localText: Option<string>, localPicture: Option<Picture>, localFiles: Option<FileOffer>,
    sent: nat, acknowledged: nat, dirty: bool, requested: bool, pending: Option<nat>, ready: Option<nat>)

  /** A list that went out: what it advertised, and the text a request would have been answered with then. */
  datatype SentList = SentList(formats: Formats, text: Option<string>)

  /** One shortcut delivered: by which list, for which request, with which text, and how many lists were out. */
  datatype Take = Take(generation: nat, request: nat, text: Option<string>, sent: nat)

  /** What has happened so far: each list sent, each reply counted, each paste requested and taken. */
  datatype History = History(lists: seq<SentList>, replies: seq<bool>, requests: seq<string>, takes: seq<Take>)

  datatype Machine = Machine(paste: Paste, history: History)

  datatype Event =
    | AdvertiseText(text: string)
    | PasteText(text: string)
    | AdvertisePicture(picture: Picture, sends: bool)          // `sends`: the channel could build the list
    | AdvertiseFiles(offer: Option<FileOffer>, sends: bool)    // None: the walk failed
    | Synchronize                                              // a queued request to advertise what is cached
    | CancelTransfer(transferId: string)
    | ListReply(ok: bool)
    | RemoteCopy
    | TakeReady(generation: nat)

  // ----- the backend's operations -----

  function Cancel(p: Paste): Paste {
    p.(requested := false, pending := None, ready := None)
  }

  /** `set_local_text`, `set_local_data` and `set_local_files`: a disabled option leaves everything as it is. */
  function SetText(p: Paste, text: string): Paste {
    if !p.options.text then p
    else Cancel(p).(dirty := true, localText := Some(Normalize(text)), localPicture := None, localFiles := None)
  }

  function SetPicture(p: Paste, picture: Picture): Paste {
    if !p.options.images then p
    else Cancel(p).(dirty := true, localText := None, localPicture := Some(picture), localFiles := None)
  }

  predicate FilesAccepted(p: Paste, offer: Option<FileOffer>) {
    p.options.files && offer.Some?
  }

  function SetFiles(p: Paste, offer: Option<FileOffer>): Paste {
    if !FilesAccepted(p, offer) then p
    else Cancel(p).(dirty := true, localText := None, localPicture := None, localFiles := offer)
  }

  /** `local_formats`, which knows nothing of files. */
  function LocalFormats(p: Paste): Formats {
    if p.localPicture.Some? then PictureFormats(p.localPicture.value.format)
    else if p.localText.Some? then TextFormats
    else NoFormats
  }

  /** One format list goes out: `record_format_list_sent`. */
  function SendList(m: Machine, formats: Formats): Machine {
    var p := m.paste;
    var sent := p.sent + 1;
    Machine(
      p.(sent := sent, dirty := false, requested := false, pending := if p.requested then Some(sent) else p.pending),
      m.history.(lists := m.history.lists + [SentList(formats, p.localText)]))
  }

  /** `request_text_paste`, with the request's own text remembered. */
  function RequestPaste(m: Machine, text: string): Machine {
    if !m.paste.options.text || text == "" then m
    else
      Machine(SetText(m.paste, text).(requested := true),
              m.history.(requests := m.history.requests + [Normalize(text)]))
  }

  function CountReply(m: Machine, ok: bool): Machine {
    var p := m.paste;
    if p.acknowledged == p.sent then m
    else
      var acknowledged := p.acknowledged + 1;
      var counted := p.(acknowledged := acknowledged);
      var answered :=
        if p.pending != Some(acknowledged) then counted
        else counted.(pending := None, ready := if ok then Some(acknowledged) else p.ready);
      Machine(answered, m.history.(replies := m.history.replies + [ok]))
  }

  function TakeShortcut(m: Machine, generation: nat): Machine {
    if m.paste.ready != Some(generation) then m
    else
      var take := Take(generation, |m.history.requests|, m.paste.localText, m.paste.sent);
      Machine(m.paste.(ready := None), m.history.(takes := m.history.takes + [take]))
  }

  /** A queued synchronization is skipped when nothing has changed since the last list. */
  predicate Skipped(p: Paste) {
    !p.dirty && p.sent > 0
  }

  /** `cancel_transfer`: only the transfer these files belong to. */
  function Cancelled(p: Paste, transferId: string): Paste {
    if p.localFiles.Some? && p.localFiles.value.transferId == transferId then p.(localFiles := None) else p
  }

  /** The functions that advertise update the cache under its option and then send their list in any case. */
  function Step(m: Machine, event: Event): Machine {
    match event
    case AdvertiseText(text) => SendList(m.(paste := SetText(m.paste, text)), TextFormats)
    case PasteText(text) =>
      if !m.paste.options.text || text == "" then m else SendList(RequestPaste(m, text), TextFormats)
    case AdvertisePicture(picture, sends) =>
      var cached := m.(paste := SetPicture(m.paste, picture));
      if sends then SendList(cached, PictureFormats(picture.format)) else cached
    case AdvertiseFiles(offer, sends) =>
      var cached := m.(paste := SetFiles(m.paste, offer));
      if FilesAccepted(m.paste, offer) && sends then SendList(cached, FileList(offer.value.names)) else cached
    case Synchronize => if Skipped(m.paste) then m else SendList(m, LocalFormats(m.paste))
    case CancelTransfer(transferId) => m.(paste := Cancelled(m.paste, transferId))
    case ListReply(ok) => CountReply(m, ok)
    case RemoteCopy => m.(paste := Cancel(m.paste))
    case TakeReady(generation) => TakeShortcut(m, generation)
  }

  function Initial(options: Options): Machine {
    Machine(Paste(options, None, None, None, 0, 0, false, false, None, None), History([], [], [], []))
  }

  function Run(m: Machine, events: seq<Event>): Machine
    decreases |events|
  {
    if events == [] then m else Run(Step(m, events[0]), events[1..])
  }

  // ----- what holds after any events -----

  ghost predicate LastRequest(h: History, text: Option<string>) {
    h.requests != [] && text == Some(h.requests[|h.requests| - 1])
  }

  /** No shortcut has been delivered for the latest request. */
  ghost predicate Untaken(h: History) {
    forall t | t in h.takes :: t.request < |h.requests|
  }

  /** A delivered shortcut answers its own request: the list that advertised that very text was accepted. */
  ghost predicate TakeIsSafe(h: History, t: Take) {
    && 1 <= t.generation <= t.sent <= |h.lists| && t.generation <= |h.replies| && h.replies[t.generation - 1]
    && 1 <= t.request <= |h.requests| && t.text == Some(h.requests[t.request - 1])
    && h.lists[t.generation - 1] == SentList(TextFormats, t.text)
  }

  ghost predicate Counted(m: Machine) {
    && |m.history.lists| == m.paste.sent
    && |m.history.replies| == m.paste.acknowledged <= m.paste.sent
    && (forall t | t in m.history.takes :: t.request <= |m.history.requests| && TakeIsSafe(m.history, t))
    && (forall i, j | 0 <= i < j < |m.history.takes| :: m.history.takes[i].request < m.history.takes[j].request)
  }

  /** Only enabled kinds are cached, and only one at a time. */
  predicate CacheInv(p: Paste) {
    && (p.localText.Some? ==> p.options.text && p.localPicture.None? && p.localFiles.None?)
    && (p.localPicture.Some? ==> p.options.images && p.localFiles.None?)
    && (p.localFiles.Some? ==> p.options.files)
  }

  /** A request waits for its list, its reply or its shortcut, one at a time, and nothing has been cached since. */
  ghost predicate Waiting(m: Machine)
    requires |m.history.lists| == m.paste.sent && |m.history.replies| == m.paste.acknowledged <= m.paste.sent
  {
    var p, h := m.paste, m.history;
    && (p.requested ==> p.pending.None? && p.ready.None?)
    && (p.pending.Some? ==> p.ready.None? && !p.dirty && p.acknowledged < p.pending.value <= p.sent
                            && h.lists[p.pending.value - 1] == SentList(TextFormats, p.localText))
    && (p.ready.Some? ==> !p.dirty && 1 <= p.ready.value <= p.acknowledged && h.replies[p.ready.value - 1]
                          && h.lists[p.ready.value - 1] == SentList(TextFormats, p.localText))
    && (p.requested || p.pending.Some? || p.ready.Some? ==> LastRequest(h, p.localText) && Untaken(h))
  }

  ghost predicate PasteInv(m: Machine) {
    Counted(m) && CacheInv(m.paste) && Waiting(m)
  }

  /** New content under an enabled option cancels whatever was waiting. */
  lemma CacheKeeps(m: Machine, text: string, picture: Picture, offer: Option<FileOffer>)
    requires PasteInv(m)
    ensures PasteInv(m.(paste := SetText(m.paste, text))) && PasteInv(RequestPaste(m, text))
    ensures PasteInv(m.(paste := SetPicture(m.paste, picture))) && PasteInv(m.(paste := SetFiles(m.paste, offer)))
  {
  }

  lemma SendListKeeps(m: Machine, formats: Formats)
    requires PasteInv(m) && (m.paste.requested ==> formats == TextFormats)
    ensures PasteInv(SendList(m, formats)) && !SendList(m, formats).paste.requested
  {
  }

  lemma ReplyKeeps(m: Machine, ok: bool)
    requires PasteInv(m)
    ensures PasteInv(CountReply(m, ok))
  {
  }

  lemma TakeKeeps(m: Machine, generation: nat)
    requires PasteInv(m)
    ensures PasteInv(TakeShortcut(m, generation))
  {
  }

  lemma CancelKeeps(m: Machine, transferId: string)
    requires PasteInv(m)
    ensures PasteInv(m.(paste := Cancelled(m.paste, transferId))) && PasteInv(m.(paste := Cancel(m.paste)))
  {
  }

  /** Between events: no request is left without its list. */
  ghost predicate Settled(m: Machine) {
    PasteInv(m) && !m.paste.requested
  }

  /** Every event keeps the invariant; a take already delivered stays safe as the history grows. */
  lemma StepKeeps(m: Machine, event: Event)
    requires Settled(m)
    ensures Settled(Step(m, event)) && Step(m, event).paste.options == m.paste.options
  {
    hide PasteInv;
    match event {
      case AdvertiseText(text) =>
        CacheKeeps(m, text, Picture(Png, []), None);
        SendListKeeps(m.(paste := SetText(m.paste, text)), TextFormats);
      case PasteText(text) =>
        CacheKeeps(m, text, Picture(Png, []), None);
        SendListKeeps(RequestPaste(m, text), TextFormats);
      case AdvertisePicture(picture, sends) =>
        CacheKeeps(m, "", picture, None);
        SendListKeeps(m.(paste := SetPicture(m.paste, picture)), PictureFormats(picture.format));
      case AdvertiseFiles(offer, sends) =>
        CacheKeeps(m, "", Picture(Png, []), offer);
        if offer.Some? {
          SendListKeeps(m.(paste := SetFiles(m.paste, offer)), FileList(offer.value.names));
        }
      case Synchronize => SendListKeeps(m, LocalFormats(m.paste));
      case CancelTransfer(transferId) => CancelKeeps(m, transferId);
      case ListReply(ok) => ReplyKeeps(m, ok);
      case RemoteCopy => CancelKeeps(m, "");
      case TakeReady(generation) => TakeKeeps(m, generation);
    }
  }

  lemma {:induction false} RunKeeps(m: Machine, events: seq<Event>)
    requires Settled(m)
    ensures Settled(Run(m, events)) && Run(m, events).paste.options == m.paste.options
    decreases |events|
  {
    hide Settled, Step;
    if events != [] {
      StepKeeps(m, events[0]);
      RunKeeps(Step(m, events[0]), events[1..]);
    }
  }

  lemma InitialIsSafe(options: Options)
    ensures Settled(Initial(options)) && Current(Initial(options)) && UpToDate(Initial(options))
  {
  }

  /**
   * Whatever happens, in whatever order: every shortcut delivered was asked for, at most once per request, after
   * the server accepted exactly the list that advertised that request's text, and with that text still cached;
   * and no reply is ever counted for a list not yet sent.
   */
  lemma PasteIsSafe(options: Options, events: seq<Event>)
    ensures var after := Run(Initial(options), events);
            && after.paste.acknowledged <= after.paste.sent
            && (forall t | t in after.history.takes :: TakeIsSafe(after.history, t))
            && (forall i, j | 0 <= i < j < |after.history.takes| ::
                  after.history.takes[i].request != after.history.takes[j].request)
  {
    hide Waiting, CacheInv, TakeIsSafe, Run, Step;
    InitialIsSafe(options);
    RunKeeps(Initial(options), events);
  }

  // ----- is the accepted list still the last word? -----

  /** Every list from `generation` to the `sent`-th advertised the text that `generation` did. */
  ghost predicate TextSince(lists: seq<SentList>, generation: nat, sent: nat) {
    && 1 <= generation && sent <= |lists|
    && forall i | generation - 1 <= i < sent ::
         lists[i].formats == TextFormats && lists[i].text == lists[generation - 1].text
  }

  /** No shortcut was delivered after a list with other content had superseded the accepted one. */
  ghost predicate NeverSuperseded(h: History) {
    forall t | t in h.takes :: TextSince(h.lists, t.generation, t.sent)
  }

  ghost predicate Current(m: Machine) {
    && NeverSuperseded(m.history)
    && (m.paste.pending.Some? ==> TextSince(m.history.lists, m.paste.pending.value, m.paste.sent))
    && (m.paste.ready.Some? ==> TextSince(m.history.lists, m.paste.ready.value, m.paste.sent))
  }

  /** With pictures enabled, or pasting disabled, every list of another kind cancels the paste it supersedes. */
  lemma StepKeepsCurrent(m: Machine, event: Event)
    requires Settled(m) && Current(m) && (m.paste.options.images || !m.paste.options.text)
    ensures Current(Step(m, event))
  {
    hide TakeIsSafe, Untaken;
  }

  lemma {:induction false} RunKeepsCurrent(m: Machine, events: seq<Event>)
    requires Settled(m) && Current(m) && (m.paste.options.images || !m.paste.options.text)
    ensures Current(Run(m, events))
    decreases |events|
  {
    hide Settled, Current, Step;
    if events != [] {
      StepKeeps(m, events[0]);
      StepKeepsCurrent(m, events[0]);
      RunKeepsCurrent(Step(m, events[0]), events[1..]);
    }
  }

  /**
   * A picture sent while pictures are disabled changes no cache and cancels nothing: the reply to the earlier text
   * list still releases its shortcut, although a picture list has superseded it.
   */
  lemma DisabledPictureSupersedes(options: Options, text: string, picture: Picture)
    requires options.text && !options.images && text != ""
    ensures var events := [PasteText(text), AdvertisePicture(picture, true), ListReply(true), TakeReady(1)];
            var after := Run(Initial(options), events).history;
            && after.takes == [Take(1, 1, Some(Normalize(text)), 2)]
            && |after.lists| == 2 && after.lists[1].formats == PictureFormats(picture.format)
            && !NeverSuperseded(after)
  {
    var m := Initial(options);
    var events := [PasteText(text), AdvertisePicture(picture, true), ListReply(true), TakeReady(1)];
    Run4(m, events);
    var after := Run(m, events).history;
    assert after.takes[0] in after.takes;
    assert !TextSince(after.lists, 1, 2) by { assert after.lists[1].formats != TextFormats; }
  }

  lemma Run2(m: Machine, events: seq<Event>)
    requires |events| == 2
    ensures Run(m, events) == Step(Step(m, events[0]), events[1])
  {
    hide Step;
    assert Run(Step(m, events[0]), events[1..]) == Run(Step(Step(m, events[0]), events[1]), events[1..][1..]);
  }

  lemma Run4(m: Machine, events: seq<Event>)
    requires |events| == 4
    ensures Run(m, events) == Step(Step(Step(Step(m, events[0]), events[1]), events[2]), events[3])
  {
    hide Step;
    var n := Step(Step(m, events[0]), events[1]);
    assert Run(m, events) == Run(Step(m, events[0]), events[1..]) == Run(n, events[2..]) by {
      assert events[1..][1..] == events[2..];
    }
    Run2(n, events[2..]);
  }

  /** Exactly: no run delivers a superseded paste if and only if pictures are enabled or pasting is not. */
  lemma PasteIsNeverSuperseded(options: Options)
    ensures (forall events :: NeverSuperseded(Run(Initial(options), events).history))
            <==> options.images || !options.text
  {
    hide NeverSuperseded, Step, Run;
    var m := Initial(options);
    if options.images || !options.text {
      forall events ensures NeverSuperseded(Run(m, events).history) {
        InitialIsSafe(options);
        RunKeepsCurrent(m, events);
      }
    } else {
      DisabledPictureSupersedes(options, "a", Picture(Png, []));
    }
  }

  // ----- does the last list match what is cached? -----

  /** The formats a server may be told of: everything cached can then be served, and nothing else is offered. */
  function Offered(p: Paste): Formats {
    if p.localFiles.Some? then FileList(p.localFiles.value.names) else LocalFormats(p)
  }

  /** A synchronization that would be skipped loses nothing: the last list advertised exactly what is cached. */
  ghost predicate UpToDate(m: Machine) {
    Skipped(m.paste) ==>
      && |m.history.lists| == m.paste.sent
      && m.history.lists[m.paste.sent - 1].formats == Offered(m.paste)
  }

  /** The event sends a list, or changes what is cached. */
  predicate Touches(m: Machine, event: Event) {
    match event
    case AdvertiseText(_) => true
    case PasteText(text) => m.paste.options.text && text != ""
    case AdvertisePicture(_, sends) => m.paste.options.images || sends
    case AdvertiseFiles(offer, _) => FilesAccepted(m.paste, offer)
    case Synchronize => !Skipped(m.paste)
    case CancelTransfer(transferId) => m.paste.localFiles.Some? && m.paste.localFiles.value.transferId == transferId
    case _ => false
  }

  function LastFormats(m: Machine): Formats {
    if m.history.lists == [] then NoFormats else m.history.lists[|m.history.lists| - 1].formats
  }

  /**
   * What keeps the server informed: the option of the advertised kind is enabled; files left behind by a list that
   * could not be built are not synchronized away; and no transfer is cancelled once its list has gone out.
   */
  predicate Informs(m: Machine, event: Event) {
    match event
    case AdvertiseText(_) => m.paste.options.text
    case AdvertisePicture(_, _) => m.paste.options.images
    case Synchronize => m.paste.localFiles.None?
    case CancelTransfer(_) => !Skipped(m.paste) || LastFormats(m) == NoFormats
    case _ => true
  }

  /**
   * Exactly: an event that touches list or cache leaves the two matching if and only if it informs; others do not
   * matter.
   */
  lemma WhenUpToDate(m: Machine, event: Event)
    requires Settled(m)
    ensures UpToDate(Step(m, event)) <==> if Touches(m, event) then Informs(m, event) else UpToDate(m)
  {
    hide TakeIsSafe, Waiting;
  }

  /**
   * Over whole runs: the list last sent matches the cache at every moment if and only if every touching event informs.
   */
  lemma {:induction false} AlwaysUpToDate(m: Machine, events: seq<Event>)
    requires Settled(m) && UpToDate(m)
    ensures (forall n | 0 <= n <= |events| :: UpToDate(Run(m, events[..n])))
       <==> (forall n | 0 <= n < |events| ::
               Touches(Run(m, events[..n]), events[n]) ==> Informs(Run(m, events[..n]), events[n]))
    decreases |events|
  {
    hide Settled, UpToDate, Step, Touches, Informs, Run;
    if events == [] {
      RunNone(m);
    } else {
      var last := |events| - 1;
      var before := Run(m, events[..last]);
      AlwaysUpToDate(m, events[..last]);
      RunKeeps(m, events[..last]);
      RunLast(m, events);
      WhenUpToDate(before, events[last]);
      assert events[..|events|] == events;
      assert forall n | 0 <= n <= last :: events[..last][..n] == events[..n];
    }
  }

  lemma RunNone(m: Machine)
    ensures Run(m, []) == m
  {
  }

  lemma {:induction false} RunLast(m: Machine, events: seq<Event>)
    requires events != []
    ensures Run(m, events) == Step(Run(m, events[..|events| - 1]), events[|events| - 1])
    decreases |events|
  {
    hide Step;
    if |events| == 1 {
      assert events[1..] == [] && events[..0] == [];
    } else {
      RunLast(Step(m, events[0]), events[1..]);
      assert events[1..][..|events| - 2] == events[..|events| - 1][1..];
    }
  }

  /** Text sent while text is disabled is offered, although nothing is cached that could answer a request for it. */
  lemma DisabledTextMisleads(options: Options, text: string)
    requires !options.text
    ensures var after := Run(Initial(options), [AdvertiseText(text)]);
            && LastFormats(after) == TextFormats && after.paste.localText.None? && !UpToDate(after)
  {
    RunLast(Initial(options), [AdvertiseText(text)]);
    RunNone(Initial(options));
  }

  /** A picture sent while pictures are disabled hides the cached text, and the next synchronization is skipped. */
  lemma DisabledPictureMisleads(options: Options, text: string, picture: Picture)
    requires options.text && !options.images
    ensures var after := Run(Initial(options), [AdvertiseText(text), AdvertisePicture(picture, true)]);
            && LastFormats(after) == PictureFormats(picture.format) && after.paste.localText == Some(Normalize(text))
            && Step(after, Synchronize) == after && !UpToDate(after)
  {
    Run2(Initial(options), [AdvertiseText(text), AdvertisePicture(picture, true)]);
  }

  /** Cancelling a transfer whose list went out leaves the server offered files that can no longer be served. */
  lemma CancelledFilesMislead(options: Options, offer: FileOffer)
    requires options.files
    ensures var after := Run(Initial(options), [AdvertiseFiles(Some(offer), true), CancelTransfer(offer.transferId)]);
            && LastFormats(after) == FileList(offer.names) && after.paste.localFiles.None?
            && Step(after, Synchronize) == after && !UpToDate(after)
  {
    Run2(Initial(options), [AdvertiseFiles(Some(offer), true), CancelTransfer(offer.transferId)]);
  }

  /** Files whose own list could not be built are cached, and the synchronization that follows offers nothing. */
  lemma UnsentFilesMislead(options: Options, offer: FileOffer)
    requires options.files
    ensures var after := Run(Initial(options), [AdvertiseFiles(Some(offer), false), Synchronize]);
            && LastFormats(after) == NoFormats && after.paste.localFiles == Some(offer) && !UpToDate(after)
  {
    Run2(Initial(options), [AdvertiseFiles(Some(offer), false), Synchronize]);
  }

  /** Exactly the configurations in which no run ever leaves a stale list: text and pictures enabled, files not. */
  lemma ConfigurationsUpToDate(options: Options)
    ensures (forall events :: UpToDate(Run(Initial(options), events)))
            <==> options.text && options.images && !options.files
  {
    hide UpToDate, Step, Run;
    var m := Initial(options);
    if options.text && options.images && !options.files {
      forall events ensures UpToDate(Run(m, events)) {
        InitialIsSafe(options);
        RunsInform(m, events);
      }
    } else if !options.text {
      DisabledTextMisleads(options, "a");
    } else if !options.images {
      DisabledPictureMisleads(options, "a", Picture(Png, []));
    } else {
      CancelledFilesMislead(options, FileOffer("a", []));
    }
  }

  lemma {:induction false} RunsInform(m: Machine, events: seq<Event>)
    requires Settled(m) && UpToDate(m) && m.paste.options == Options(true, true, false)
    ensures UpToDate(Run(m, events))
    decreases |events|
  {
    hide Counted, Waiting, UpToDate, Step;
    if events != [] {
      StepKeeps(m, events[0]);
      WhenUpToDate(m, events[0]);
      RunsInform(Step(m, events[0]), events[1..]);
    }
  }

  // ----- an undisturbed paste -----

  function Replies(m: Machine, replies: seq<bool>): Machine
    decreases |replies|
  {
    if replies == [] then m else Replies(CountReply(m, replies[0]), replies[1..])
  }

  /** The other direction: undisturbed, an accepted request is delivered, exactly by its own list. */
  lemma AcceptedPasteIsDelivered(m: Machine, text: string, replies: seq<bool>)
    requires m.paste.options.text && text != ""
    requires replies != [] && |replies| == m.paste.sent + 1 - m.paste.acknowledged && replies[|replies| - 1]
    ensures var generation := m.paste.sent + 1;
            var answered := Replies(Step(m, PasteText(text)), replies);
            && answered.paste.ready == Some(generation)
            && TakeShortcut(answered, generation).history.takes
               == m.history.takes + [Take(generation, |m.history.requests| + 1, Some(Normalize(text)), generation)]
  {
    hide Step, Replies;
    PasteAsks(m, text);
    RepliesReach(Step(m, PasteText(text)), replies);
  }

  lemma PasteAsks(m: Machine, text: string)
    requires m.paste.options.text && text != ""
    ensures var asked := Step(m, PasteText(text));
            && asked.paste.pending == Some(asked.paste.sent) && asked.paste.ready.None?
            && asked.paste.sent == m.paste.sent + 1 && asked.paste.acknowledged == m.paste.acknowledged
            && asked.paste.localText == Some(Normalize(text))
            && asked.history.takes == m.history.takes && |asked.history.requests| == |m.history.requests| + 1
  {
  }

  lemma {:induction false} RepliesReach(m: Machine, replies: seq<bool>)
    requires replies != [] && |replies| == m.paste.sent - m.paste.acknowledged && replies[|replies| - 1]
    requires m.paste.pending == Some(m.paste.sent) && m.paste.ready.None?
    ensures var after := Replies(m, replies);
            && after.paste.ready == Some(m.paste.sent) && after.paste.localText == m.paste.localText
            && after.paste.sent == m.paste.sent
            && after.history.takes == m.history.takes && after.history.requests == m.history.requests
    decreases |replies|
  {
    if |replies| > 1 {
      RepliesReach(CountReply(m, replies[0]), replies[1..]);
    } else {
      assert Replies(m, replies) == Replies(CountReply(m, replies[0]), replies[1..]) == CountReply(m, replies[0]);
    }
  }
}

/** The backend's own fields, and the session functions that drive them. */
module ClipboardBackend {
  import opened Wrappers
  import opened WindowsText
  import opened ClipboardPaste

  class ClientClipboardBackend {
    const options: Options
    var localText: Option<string>
    var localPicture: Option<Picture>
    var localFiles: Option<FileOffer>
    var formatListsSent: nat
    var formatListsAcknowledged: nat
    var formatsDirty: bool
    var pasteRequested: bool
    var pendingPaste: Option<nat>
    var readyPaste: Option<nat>
    ghost var history: History

    function Fields(): Paste
      reads this
    {
      Paste(options, localText, localPicture, localFiles, formatListsSent, formatListsAcknowledged, formatsDirty,
            pasteRequested, pendingPaste, readyPaste)
    }

    ghost function State(): Machine
      reads this
    {
      Machine(Fields(), history)
    }

    constructor (options: Options)
      ensures State() == Initial(options) && Settled(State())
    {
      this.options := options;
      localText, localPicture, localFiles := None, None, None;
      formatListsSent, formatListsAcknowledged, formatsDirty := 0, 0, false;
      pasteRequested, pendingPaste, readyPaste := false, None, None;
      history := History([], [], [], []);
      new;
      InitialIsSafe(options);
    }

    method CancelPendingPaste()
      modifies `pasteRequested, `pendingPaste, `readyPaste
      ensures Fields() == Cancel(old(Fields()))
    {
      pasteRequested := false;
      pendingPaste := None;
      readyPaste := None;
    }

    method SetLocalText(text: string)
      modifies this
      ensures Fields() == SetText(old(Fields()), text) && history == old(history)
      ensures options.text ==>
                && localText == Some(Normalize(text)) && localPicture == None && localFiles == None && formatsDirty
                && !pasteRequested && pendingPaste == None && readyPaste == None
    {
      if !options.text {
        return;
      }
      CancelPendingPaste();
      formatsDirty := true;
      var normalized := WindowsClipboardText(text);
      localText, localPicture, localFiles := Some(normalized), None, None;
    }

    method RequestTextPaste(text: string) returns (accepted: bool)
      modifies this
      ensures accepted <==> options.text && text != ""
      ensures State() == RequestPaste(old(State()), text)
    {
      if !options.text || text == "" {
        return false;
      }
      SetLocalText(text);
      pasteRequested := true;
      history := history.(requests := history.requests + [Normalize(text)]);
      return true;
    }

    method SetLocalData(picture: Picture)
      modifies this
      ensures Fields() == SetPicture(old(Fields()), picture) && history == old(history)
      ensures options.images ==>
                && localText == None && localPicture == Some(picture) && localFiles == None && formatsDirty
                && !pasteRequested && pendingPaste == None && readyPaste == None
    {
      if !options.images {
        return;
      }
      CancelPendingPaste();
      formatsDirty := true;
      localText, localPicture, localFiles := None, Some(picture), None;
    }

    /** `offer` is what the directory walk returned. */
    method SetLocalFiles(offer: Option<FileOffer>) returns (accepted: bool)
      modifies this
      ensures accepted <==> FilesAccepted(old(Fields()), offer)
      ensures Fields() == SetFiles(old(Fields()), offer) && history == old(history)
      ensures accepted <==> options.files && offer.Some?
      ensures accepted ==>
                && localText == None && localPicture == None && localFiles == offer && formatsDirty
                && !pasteRequested && pendingPaste == None && readyPaste == None
    {
      if !options.files || offer.None? {
        return false;
      }
      CancelPendingPaste();
      formatsDirty := true;
      localText, localPicture, localFiles := None, None, offer;
      return true;
    }

    /** One list with these formats has gone to the channel. */
    method RecordFormatListSent(ghost formats: Formats)
      modifies this
      ensures State() == SendList(old(State()), formats)
      ensures formatListsSent == old(formatListsSent) + 1 && !formatsDirty && !pasteRequested
      ensures pendingPaste == if old(pasteRequested) then Some(formatListsSent) else old(pendingPaste)
    {
      formatListsSent := formatListsSent + 1;
      formatsDirty := false;
      if pasteRequested {
        pendingPaste := Some(formatListsSent);
        pasteRequested := false;
      }
      history := history.(lists := history.lists + [SentList(formats, localText)]);
    }

    /** `advertise_local_clipboard_text`: the list sent, if any. */
    method AdvertiseLocalText(text: string, paste: bool) returns (list: Option<Formats>)
      modifies this
      ensures State() == Step(old(State()), if paste then PasteText(text) else AdvertiseText(text))
      ensures list == if paste && (!options.text || text == "") then None else Some(TextFormats)
    {
      if paste {
        var accepted := RequestTextPaste(text);
        if !accepted {
          return None;
        }
      } else {
        SetLocalText(text);
      }
      RecordFormatListSent(TextFormats);
      return Some(TextFormats);
    }

    /** `advertise_local_clipboard_data`; `builds` says whether the channel could build the list. */
    method AdvertiseLocalData(picture: Picture, builds: bool) returns (list: Option<Formats>)
      modifies this
      ensures State() == Step(old(State()), AdvertisePicture(picture, builds))
      ensures list == if builds then Some(PictureFormats(picture.format)) else None
    {
      SetLocalData(picture);
      if !builds {
        return None;
      }
      RecordFormatListSent(PictureFormats(picture.format));
      return Some(PictureFormats(picture.format));
    }

    method AdvertiseLocalFiles(offer: Option<FileOffer>, builds: bool) returns (list: Option<Formats>)
      modifies this
      ensures State() == Step(old(State()), AdvertiseFiles(offer, builds))
      ensures list == if options.files && offer.Some? && builds then Some(FileList(offer.value.names)) else None
    {
      var accepted := SetLocalFiles(offer);
      if !accepted || !builds {
        return None;
      }
      RecordFormatListSent(FileList(offer.value.names));
      return Some(FileList(offer.value.names));
    }

    /** The synchronization branch of `process_clipboard_message`. */
    method ProcessInitiateCopy() returns (list: Option<Formats>)
      modifies this
      ensures State() == Step(old(State()), Synchronize)
      ensures list == if !old(formatsDirty) && old(formatListsSent) > 0 then None
                      else if localPicture.Some? then Some(PictureFormats(localPicture.value.format))
                      else if localText.Some? then Some(TextFormats)
                      else Some(NoFormats)
    {
      if !formatsDirty && formatListsSent > 0 {
        return None;
      }
      var formats := LocalFormats(Fields());
      RecordFormatListSent(formats);
      return Some(formats);
    }

    /** Returns the generation to paste, if this reply releases one. */
    method OnFormatListResponse(ok: bool) returns (paste: Option<nat>)
      modifies this
      ensures State() == Step(old(State()), ListReply(ok))
      ensures paste.Some? ==> ok && readyPaste == paste && old(State().paste.pending) == paste
      ensures paste.None? ==> readyPaste == old(State().paste.ready)
      ensures paste.Some? <==>
                && ok && old(formatListsAcknowledged) != old(formatListsSent)
                && old(pendingPaste) == Some(old(formatListsAcknowledged) + 1)
    {
      if formatListsAcknowledged == formatListsSent {
        return None;
      }
      formatListsAcknowledged := formatListsAcknowledged + 1;
      history := history.(replies := history.replies + [ok]);
      if pendingPaste == Some(formatListsAcknowledged) {
        var generation := pendingPaste.value;
        pendingPaste := None;
        if ok {
          readyPaste := Some(generation);
          return Some(generation);
        }
      }
      return None;
    }

    method OnRemoteCopy()
      modifies this
      ensures State() == Step(old(State()), RemoteCopy)
    {
      CancelPendingPaste();
    }

    method CancelTransfer(transferId: string)
      modifies `localFiles
      ensures State() == Step(old(State()), Event.CancelTransfer(transferId))
    {
      if localFiles.Some? && localFiles.value.transferId == transferId {
        localFiles := None;
      }
    }

    method TakeReadyPaste(generation: nat) returns (taken: bool)
      modifies this
      ensures State() == Step(old(State()), TakeReady(generation))
      ensures taken <==> |State().history.takes| == |old(State()).history.takes| + 1
    {
      if readyPaste != Some(generation) {
        return false;
      }
      readyPaste := None;
      history := history.(takes := history.takes + [Take(generation, |history.requests|, localText, formatListsSent)]);
      return true;
    }
  }
}
