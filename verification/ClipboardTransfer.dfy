// The clipboard file transfer (sections 2.2.5.3 and 2.2.5.4 of MS-RDPECLIP), both ends
// (plugins/rdp/src/clipboard.rs).

module ClipboardTransfer {
  import opened Wrappers
  import opened FixedWidth
  import opened ClipboardPaths
  import opened ClipboardOffer

  const MAX_REQUEST_BYTES: nat := 8 * 1024 * 1024
  const CHUNK_BYTES: nat := 64 * 1024

  datatype Flags = SizeFlag | RangeFlag | InvalidFlags

  datatype Request = Request(streamId: u32, index: int, flags: Flags, position: u64, requestedSize: u32,
    dataId: Option<u32>)

  datatype Response = Response(streamId: u32, isError: bool, data: seq<u8>)

  // ----- a size on the wire: eight little-endian bytes -----

  function LittleEndian(value: nat, bytes: nat): (r: seq<u8>)
    ensures |r| == bytes
  {
    if bytes == 0 then [] else [value % 256] + LittleEndian(value / 256, bytes - 1)
  }

  function FromLittleEndian(bytes: seq<u8>): nat {
    if bytes == [] then 0 else bytes[0] + 256 * FromLittleEndian(bytes[1..])
  }

  function Power256(n: nat): nat {
    if n == 0 then 1 else 256 * Power256(n - 1)
  }

  lemma {:induction false} LittleEndianRoundTrip(value: nat, bytes: nat)
    requires value < Power256(bytes)
    ensures FromLittleEndian(LittleEndian(value, bytes)) == value
    decreases bytes
  {
    if bytes > 0 {
      LittleEndianRoundTrip(value / 256, bytes - 1);
      assert LittleEndian(value, bytes)[1..] == LittleEndian(value / 256, bytes - 1);
    }
  }

  /** What is left of a number without its `k` least significant bytes. */
  function WithoutLowBytes(value: nat, k: nat): nat {
    if k == 0 then value else WithoutLowBytes(value / 256, k - 1)
  }

  /** The least significant byte goes first. */
  lemma {:induction false} LittleEndianByte(value: nat, bytes: nat, k: nat)
    requires k < bytes
    ensures LittleEndian(value, bytes)[k] == WithoutLowBytes(value, k) % 256
    decreases k
  {
    if k > 0 {
      LittleEndianByte(value / 256, bytes - 1, k - 1);
    }
  }

  lemma SizeFitsEightBytes(size: u64)
    ensures size < Power256(8)
  {
    assert Power256(1) == 256;
    assert Power256(2) == 0x1_0000;
    assert Power256(4) == 0x1_0000_0000 by { assert Power256(3) == 0x100_0000; }
    assert Power256(6) == 0x1_0000_0000_0000 by { assert Power256(5) == 0x100_0000_0000; }
    assert Power256(7) == 0x100_0000_0000_0000;
  }

  function ErrorResponse(streamId: u32): Response {
    Response(streamId, true, [])
  }

  function SizeResponse(streamId: u32, size: u64): Response {
    Response(streamId, false, LittleEndian(size, 8))
  }

  /** `data_as_size`: only an eight-byte payload is a size. */
  function DataAsSize(data: seq<u8>): Option<nat> {
    if |data| == 8 then Some(FromLittleEndian(data)) else None
  }

  // ----- the serving end -----

  /** A file as it was offered: its announced size, and the bytes a read finds now. */
  datatype ServedFile = ServedFile(size: u64, directory: bool, content: seq<u8>)

  /** The lists a client serves from: the current one, and one for each lock the peer holds. */
  datatype Server = Server(localFiles: Option<seq<ServedFile>>, locked: map<u32, seq<ServedFile>>)

  function Selected(server: Server, dataId: Option<u32>): Option<seq<ServedFile>> {
    if dataId.None? then server.localFiles
    else if dataId.value in server.locked then Some(server.locked[dataId.value])
    else None
  }

  /** `local_file_contents_response` */
  function LocalFileContentsResponse(server: Server, request: Request): Response {
    var files := Selected(server, request.dataId);
    if files.None? then ErrorResponse(request.streamId)
    else if request.index < 0 || request.index >= |files.value| then ErrorResponse(request.streamId)
    else
      var file := files.value[request.index];
      if request.flags.InvalidFlags? then ErrorResponse(request.streamId)
      else if request.flags.SizeFlag? then
        if request.position != 0 || request.requestedSize != 8 then ErrorResponse(request.streamId)
        else SizeResponse(request.streamId, file.size)
      else if file.directory || request.requestedSize > MAX_REQUEST_BYTES || request.position > file.size then
        ErrorResponse(request.streamId)
      else
        var requested := Min(request.requestedSize, file.size - request.position);
        // The read fails when the file has become shorter than announced.
        if request.position + requested > |file.content| then ErrorResponse(request.streamId)
        else Response(request.streamId, false, file.content[request.position..request.position + requested])
  }

  /** The file a request names in the list its lock selects. */
  ghost predicate Names(server: Server, request: Request, file: ServedFile) {
    && 0 <= request.index
    && if request.dataId.None? then
         && server.localFiles.Some? && request.index < |server.localFiles.value|
         && file == server.localFiles.value[request.index]
       else
         && request.dataId.value in server.locked && request.index < |server.locked[request.dataId.value]|
         && file == server.locked[request.dataId.value][request.index]
  }

  /** The bytes a range request asks for are still there: the file may have become shorter since it was offered. */
  ghost predicate StillThere(request: Request, file: ServedFile) {
    Min(request.position + request.requestedSize, file.size) <= |file.content|
  }

  /** A request that deserves an answer: eight bytes for the size, or at most 8 MiB from inside a regular file. */
  ghost predicate Answerable(request: Request, file: ServedFile) {
    || (request.flags.SizeFlag? && request.position == 0 && request.requestedSize == 8)
    || (request.flags.RangeFlag? && !file.directory && request.requestedSize <= 8 * 1024 * 1024
        && request.position <= file.size && StillThere(request, file))
  }

  /**
   * Whatever any peer asks: a size request is answered with the announced size, a range request with exactly the bytes
   * from its position up to its size or the end of the file, and every other request, and no other, with an error.
   */
  lemma ServesEveryRequest(server: Server, request: Request)
    ensures var response := LocalFileContentsResponse(server, request);
            && response.streamId == request.streamId
            && (response.isError <==> !exists file :: Names(server, request, file) && Answerable(request, file))
            && (response.isError ==> response.data == [])
            && forall file | Names(server, request, file) && Answerable(request, file) ::
                 if request.flags.SizeFlag? then DataAsSize(response.data) == Some(file.size)
                 else
                   && |response.data| == Min(request.requestedSize, file.size - request.position)
                   && forall k | 0 <= k < |response.data| :: response.data[k] == file.content[request.position + k]
  {
    hide LittleEndian, FromLittleEndian, Power256;
    var files := Selected(server, request.dataId);
    if files.Some? && 0 <= request.index < |files.value| {
      var file := files.value[request.index];
      assert Names(server, request, file);
      SizeFitsEightBytes(file.size);
      LittleEndianRoundTrip(file.size, 8);
    }
  }

  datatype ServerEvent =
    | FilesReplaced(files: Option<seq<ServedFile>>)
    | Locked(dataId: u32)
    | Unlocked(dataId: u32)
    | Cancelled

  /** Copying anything new, `on_lock`, `on_unlock`, and cancelling the transfer these files belong to. */
  function ServerStep(server: Server, event: ServerEvent): Server {
    match event
    case FilesReplaced(files) => server.(localFiles := files)
    case Locked(dataId) =>
      if server.localFiles.None? then server else server.(locked := server.locked[dataId := server.localFiles.value])
    case Unlocked(dataId) => server.(locked := server.locked - {dataId})
    case Cancelled => Server(None, map[])
  }

  function ServerRun(server: Server, events: seq<ServerEvent>): Server
    decreases |events|
  {
    if events == [] then server else ServerRun(ServerStep(server, events[0]), events[1..])
  }

  /** Nothing among these events takes this lock again, releases it or cancels the transfer. */
  ghost predicate KeepLock(events: seq<ServerEvent>, dataId: u32) {
    forall e | e in events :: e != Locked(dataId) && e != Unlocked(dataId) && e != Cancelled
  }

  /** A locked list is served unchanged, whatever is copied, locked or unlocked besides, until its own lock goes. */
  lemma {:induction false} LockHolds(server: Server, events: seq<ServerEvent>, dataId: u32, files: seq<ServedFile>)
    requires Selected(server, Some(dataId)) == Some(files) && KeepLock(events, dataId)
    ensures Selected(ServerRun(server, events), Some(dataId)) == Some(files)
    decreases |events|
  {
    if events != [] {
      assert events[0] in events && forall e | e in events[1..] :: e in events;
      LockHolds(ServerStep(server, events[0]), events[1..], dataId, files);
    }
  }

  // ----- the receiving end -----

  datatype Phase =
    | SizePhase(streamId: u32)
    | DataPhase(streamId: u32, fileSize: u64, position: u64, requestedSize: u32)

  /** The staging directory: parts under their file's turn, finished files under their own path. */
  datatype Entry = Part(turn: nat) | Final(path: seq<string>)

  type Store = map<Entry, seq<u8>>

  /** What a download does not change: the descriptors' paths and sizes, and which of them are regular files. */
  datatype Plan = Plan(paths: seq<seq<string>>, announced: seq<Option<u64>>, fileIndices: seq<nat>, dataId: Option<u32>)

  datatype Download = Download(plan: Plan, cursor: nat, completedBytes: nat, phase: Phase, nextStreamId: u32,
    store: Store)

  datatype Outcome = More(request: Request) | Complete | Failed

  function NextStreamId(id: u32): u32 {
    Max(SaturatingAdd32(id, 1), 1)
  }

  /** `i32::try_from(index).unwrap_or(i32::MAX)` */
  function WireIndex(index: nat): int {
    Min(index, 0x7fff_ffff)
  }

  function SizeRequest(index: nat, streamId: u32, dataId: Option<u32>): Request {
    Request(streamId, WireIndex(index), SizeFlag, 0, 8, dataId)
  }

  function RangeRequest(index: nat, streamId: u32, position: u64, requestedSize: u32, dataId: Option<u32>): Request {
    Request(streamId, WireIndex(index), RangeFlag, position, requestedSize, dataId)
  }

  ghost predicate PlanOk(p: Plan) {
    && |p.paths| == |p.announced|
    && (forall k | 0 <= k < |p.fileIndices| :: p.fileIndices[k] < |p.paths|)
    && (forall i, j | 0 <= i < j < |p.fileIndices| :: p.paths[p.fileIndices[i]] != p.paths[p.fileIndices[j]])
  }

  function Target(p: Plan, k: nat): seq<string>
    requires PlanOk(p) && k < |p.fileIndices|
  {
    p.paths[p.fileIndices[k]]
  }

  ghost predicate Active(d: Download) {
    PlanOk(d.plan) && d.cursor < |d.plan.fileIndices|
  }

  /** The finished part takes its final name and the next file begins, if there is one. */
  function FinishFile(d: Download, fileSize: nat): (Download, Outcome)
    requires Active(d) && Part(d.cursor) in d.store
  {
    var store := (d.store - {Part(d.cursor)})[Final(Target(d.plan, d.cursor)) := d.store[Part(d.cursor)]];
    var moved := d.(store := store, completedBytes := d.completedBytes + fileSize, cursor := d.cursor + 1);
    if moved.cursor == |d.plan.fileIndices| then (moved, Complete)
    else
      (moved.(phase := SizePhase(d.nextStreamId), nextStreamId := NextStreamId(d.nextStreamId)),
       More(SizeRequest(d.plan.fileIndices[moved.cursor], d.nextStreamId, d.plan.dataId)))
  }

  function AskForRange(d: Download, fileSize: u64, position: u64): (Download, Outcome)
    requires Active(d) && position < fileSize
  {
    var requested := Min(fileSize - position, CHUNK_BYTES);
    (d.(phase := DataPhase(d.nextStreamId, fileSize, position, requested),
        nextStreamId := NextStreamId(d.nextStreamId)),
     More(RangeRequest(d.plan.fileIndices[d.cursor], d.nextStreamId, position, requested, d.plan.dataId)))
  }

  function AdvanceSize(d: Download, response: Response): (Download, Outcome)
    requires Active(d) && d.phase.SizePhase?
  {
    var size := DataAsSize(response.data);
    if response.streamId != d.phase.streamId || size.None? then (d, Failed)
    else
      var announced := d.plan.announced[d.plan.fileIndices[d.cursor]];
      if size.value > MAX_FILE_SIZE || (announced.Some? && announced.value != size.value) then (d, Failed)
      else if d.completedBytes + size.value > MAX_TRANSFER_SIZE then (d, Failed)
      else if Part(d.cursor) in d.store then (d, Failed)
      else
        var created := d.(store := d.store[Part(d.cursor) := []]);
        if size.value == 0 then FinishFile(created, 0) else AskForRange(created, size.value, 0)
  }

  function AdvanceData(d: Download, response: Response): (Download, Outcome)
    requires Active(d) && d.phase.DataPhase?
  {
    var fileSize, position := d.phase.fileSize, d.phase.position;
    if response.streamId != d.phase.streamId || response.data == []
      || |response.data| > d.phase.requestedSize then (d, Failed)
    else if position + |response.data| > fileSize then (d, Failed)
    else if Part(d.cursor) !in d.store then (d, Failed)
    else
      var written := d.(store := d.store[Part(d.cursor) := d.store[Part(d.cursor)] + response.data]);
      if position + |response.data| == fileSize then FinishFile(written, fileSize)
      else AskForRange(written, fileSize, position + |response.data|)
  }

  /** `advance_remote_clipboard_download`, when the staging file system obeys. */
  function Advance(d: Download, response: Response): (Download, Outcome)
    requires Active(d)
  {
    if response.isError then (d, Failed)
    else if d.phase.SizePhase? then AdvanceSize(d, response)
    else AdvanceData(d, response)
  }

  // ----- what the staging directory holds -----

  ghost predicate SizeAllowed(p: Plan, k: nat, size: nat)
    requires PlanOk(p) && k < |p.fileIndices|
  {
    var announced := p.announced[p.fileIndices[k]];
    size <= MAX_FILE_SIZE && (announced.Some? ==> announced.value == size)
  }

  /** The first `n` files are finished, each of its announced size. */
  ghost predicate Finished(p: Plan, store: Store, n: nat)
    requires PlanOk(p) && n <= |p.fileIndices|
  {
    forall i | 0 <= i < n :: Final(Target(p, i)) in store && SizeAllowed(p, i, |store[Final(Target(p, i))]|)
  }

  /** Nothing but those files and the part of the next one is stored. */
  ghost predicate NothingElse(p: Plan, store: Store, n: nat)
    requires PlanOk(p) && n <= |p.fileIndices|
  {
    forall e | e in store :: if e.Part? then e.turn == n else exists i | 0 <= i < n :: Target(p, i) == e.path
  }

  ghost function FinishedBytes(p: Plan, store: Store, n: nat): nat
    requires PlanOk(p) && n <= |p.fileIndices| && Finished(p, store, n)
  {
    if n == 0 then 0 else FinishedBytes(p, store, n - 1) + |store[Final(Target(p, n - 1))]|
  }

  lemma {:induction false} SameBytes(p: Plan, s: Store, t: Store, n: nat)
    requires PlanOk(p) && n <= |p.fileIndices| && Finished(p, s, n) && Finished(p, t, n)
    requires forall i | 0 <= i < n :: s[Final(Target(p, i))] == t[Final(Target(p, i))]
    ensures FinishedBytes(p, s, n) == FinishedBytes(p, t, n)
  {
    if n > 0 {
      SameBytes(p, s, t, n - 1);
    }
  }

  /** Writing the current part touches no finished file. */
  lemma PartWritten(p: Plan, store: Store, n: nat, content: seq<u8>)
    requires PlanOk(p) && n <= |p.fileIndices| && Finished(p, store, n) && NothingElse(p, store, n)
    ensures var after := store[Part(n) := content];
            Finished(p, after, n) && NothingElse(p, after, n)
              && FinishedBytes(p, after, n) == FinishedBytes(p, store, n)
  {
    SameBytes(p, store, store[Part(n) := content], n);
  }

  /** Renaming it adds exactly that file. */
  lemma PartRenamed(p: Plan, store: Store, n: nat)
    requires PlanOk(p) && n < |p.fileIndices| && Finished(p, store, n) && NothingElse(p, store, n)
    requires Part(n) in store && SizeAllowed(p, n, |store[Part(n)]|)
    ensures var after := (store - {Part(n)})[Final(Target(p, n)) := store[Part(n)]];
            && Finished(p, after, n + 1) && NothingElse(p, after, n + 1) && Part(n + 1) !in after
            && FinishedBytes(p, after, n + 1) == FinishedBytes(p, store, n) + |store[Part(n)]|
  {
    hide SizeAllowed;
    var after := (store - {Part(n)})[Final(Target(p, n)) := store[Part(n)]];
    forall i | 0 <= i < n
      ensures Final(Target(p, i)) in after && after[Final(Target(p, i))] == store[Final(Target(p, i))]
    {
      assert Target(p, i) != Target(p, n);
    }
    assert Finished(p, after, n);
    SameBytes(p, store, after, n);
  }

  // ----- whatever the peer answers -----

  /** Finished files are whole, nothing else is stored but the current part, and the byte count is exact and bounded. */
  ghost predicate DownloadInv(d: Download) {
    && PlanOk(d.plan) && d.cursor <= |d.plan.fileIndices|
    && Finished(d.plan, d.store, d.cursor) && NothingElse(d.plan, d.store, d.cursor)
    && d.completedBytes == FinishedBytes(d.plan, d.store, d.cursor) <= MAX_TRANSFER_SIZE
    && (Active(d) && d.phase.DataPhase? ==> CurrentPart(d))
    && (!Active(d) || d.phase.SizePhase? ==> Part(d.cursor) !in d.store)
  }

  ghost predicate CurrentPart(d: Download)
    requires Active(d) && d.phase.DataPhase?
  {
    && Part(d.cursor) in d.store && |d.store[Part(d.cursor)]| == d.phase.position < d.phase.fileSize
    && SizeAllowed(d.plan, d.cursor, d.phase.fileSize)
    && d.completedBytes + d.phase.fileSize <= MAX_TRANSFER_SIZE
    && d.phase.requestedSize == Min(d.phase.fileSize - d.phase.position, CHUNK_BYTES)
  }

  /** The request the download is waiting on. */
  ghost function Asked(d: Download): Request
    requires Active(d)
  {
    var index := d.plan.fileIndices[d.cursor];
    match d.phase
    case SizePhase(streamId) => SizeRequest(index, streamId, d.plan.dataId)
    case DataPhase(streamId, _, position, requestedSize) =>
      RangeRequest(index, streamId, position, requestedSize, d.plan.dataId)
  }

  /** Bytes the current phase still has to receive. */
  ghost function BytesLeft(d: Download): nat {
    if d.phase.DataPhase? && d.phase.position <= d.phase.fileSize then d.phase.fileSize - d.phase.position else 0
  }

  /** Files left, then whether the size is still unknown, then bytes left. */
  ghost predicate Nearer(e: Download, d: Download) {
    || e.cursor > d.cursor
    || (e.cursor == d.cursor && e.phase.DataPhase? && (d.phase.SizePhase? || BytesLeft(e) < BytesLeft(d)))
  }

  /** What one accepted response leaves behind. */
  ghost predicate Progress(d: Download, e: Download, o: Outcome) {
    && DownloadInv(e) && e.plan == d.plan && Nearer(e, d)
    && (o.More? <==> Active(e)) && (o.Complete? <==> !Active(e))
    && (o.More? ==> o.request == Asked(e))
  }

  /**
   * Against any peer at all: an accepted response keeps the finished files whole, of their announced size and
   * within 4 GiB together, and brings the transfer strictly nearer its end; a rejected one changes nothing.
   */
  lemma AdvanceKeeps(d: Download, response: Response)
    requires DownloadInv(d) && Active(d)
    ensures var (e, o) := Advance(d, response);
            if o.Failed? then e == d else Progress(d, e, o)
  {
    hide FromLittleEndian, Finished, NothingElse, FinishedBytes;
    var p, n := d.plan, d.cursor;
    if Advance(d, response).1.Failed? {
    } else if d.phase.SizePhase? {
      PartWritten(p, d.store, n, []);
      if DataAsSize(response.data).value == 0 {
        PartRenamed(p, d.store[Part(n) := []], n);
      }
    } else {
      var content := d.store[Part(n)] + response.data;
      PartWritten(p, d.store, n, content);
      if d.phase.position + |response.data| == d.phase.fileSize {
        PartRenamed(p, d.store[Part(n) := content], n);
      }
    }
  }

  /** A response that fits what was asked: the size of a file there is room for, or some of the bytes still missing. */
  ghost predicate Fitting(d: Download, response: Response)
    requires Active(d)
  {
    && !response.isError && response.streamId == d.phase.streamId
    && if d.phase.SizePhase? then
         && |response.data| == 8
         && var size, announced := FromLittleEndian(response.data), d.plan.announced[d.plan.fileIndices[d.cursor]];
         && size <= MAX_FILE_SIZE && (announced.Some? ==> size == announced.value)
         && d.completedBytes + size <= MAX_TRANSFER_SIZE
       else 0 < |response.data| <= d.phase.requestedSize
  }

  /** A response is rejected exactly when it does not fit; short ranges are as welcome as full ones. */
  lemma WhenRejected(d: Download, response: Response)
    requires DownloadInv(d) && Active(d)
    ensures Advance(d, response).1.Failed? <==> !Fitting(d, response)
  {
    hide FromLittleEndian, Finished, NothingElse, FinishedBytes;
  }

  /** A whole transfer: the peer answers each request as it likes, turn by turn. */
  ghost function Converse(d: Download, peer: (nat, Request) -> Response, turn: nat): (r: (Download, Outcome))
    requires DownloadInv(d) && Active(d)
    ensures !r.1.More? && DownloadInv(r.0) && r.0.plan == d.plan
            && (r.1.Complete? <==> r.0.cursor == |d.plan.fileIndices|)
    decreases |d.plan.fileIndices| - d.cursor, if d.phase.SizePhase? then 1 else 0, BytesLeft(d)
  {
    hide DownloadInv, PlanOk;
    AdvanceKeeps(d, peer(turn, Asked(d)));
    var (e, o) := Advance(d, peer(turn, Asked(d)));
    if o.More? then Converse(e, peer, turn + 1) else (e, o)
  }

  // ----- an honest peer -----

  ghost function ServedBytes(fileIndices: seq<nat>, files: seq<ServedFile>, n: nat): nat
    requires n <= |fileIndices| && forall k | 0 <= k < |fileIndices| :: fileIndices[k] < |files|
  {
    if n == 0 then 0 else ServedBytes(fileIndices, files, n - 1) + |files[fileIndices[n - 1]].content|
  }

  /** The peer serves the files it announced, unchanged since it offered them. */
  ghost predicate Serves(p: Plan, files: seq<ServedFile>) {
    && PlanOk(p) && |files| == |p.paths| <= MAX_FILE_COUNT
    && (forall k | 0 <= k < |p.fileIndices| :: Honest(p, k, files[p.fileIndices[k]]))
    && ServedBytes(p.fileIndices, files, |p.fileIndices|) <= MAX_TRANSFER_SIZE
  }

  ghost predicate Honest(p: Plan, k: nat, file: ServedFile)
    requires PlanOk(p) && k < |p.fileIndices|
  {
    !file.directory && file.size == |file.content| && SizeAllowed(p, k, |file.content|)
  }

  /** Finished files are the offered ones, and the current part is a prefix of its file. */
  ghost predicate Faithful(d: Download, files: seq<ServedFile>)
    requires DownloadInv(d) && Serves(d.plan, files)
  {
    && (forall i | 0 <= i < d.cursor :: d.store[Final(Target(d.plan, i))] == files[d.plan.fileIndices[i]].content)
    && (Active(d) && d.phase.DataPhase? ==>
          var content := files[d.plan.fileIndices[d.cursor]].content;
          d.phase.fileSize == |content| && d.store[Part(d.cursor)] == content[..d.phase.position])
  }

  lemma {:induction false} FaithfulBytes(p: Plan, store: Store, files: seq<ServedFile>, n: nat)
    requires Serves(p, files) && n <= |p.fileIndices| && Finished(p, store, n)
    requires forall i | 0 <= i < n :: store[Final(Target(p, i))] == files[p.fileIndices[i]].content
    ensures FinishedBytes(p, store, n) == ServedBytes(p.fileIndices, files, n)
  {
    hide SizeAllowed;
    if n > 0 {
      FaithfulBytes(p, store, files, n - 1);
    }
  }

  lemma {:induction false} ServedBytesMonotone(fileIndices: seq<nat>, files: seq<ServedFile>, m: nat, n: nat)
    requires m <= n <= |fileIndices| && forall k | 0 <= k < |fileIndices| :: fileIndices[k] < |files|
    ensures ServedBytes(fileIndices, files, m) <= ServedBytes(fileIndices, files, n)
    decreases n
  {
    if m < n {
      ServedBytesMonotone(fileIndices, files, m, n - 1);
    }
  }

  /** The bytes received so far leave room for the current file. */
  lemma RoomForCurrent(d: Download, files: seq<ServedFile>)
    requires DownloadInv(d) && Active(d) && Serves(d.plan, files) && Faithful(d, files)
    ensures d.completedBytes + |files[d.plan.fileIndices[d.cursor]].content| <= MAX_TRANSFER_SIZE
  {
    hide SizeAllowed, NothingElse;
    FaithfulBytes(d.plan, d.store, files, d.cursor);
    ServedBytesMonotone(d.plan.fileIndices, files, d.cursor + 1, |d.plan.fileIndices|);
  }

  lemma HonestSize(d: Download, server: Server, files: seq<ServedFile>)
    requires DownloadInv(d) && Active(d) && Serves(d.plan, files) && Faithful(d, files) && d.phase.SizePhase?
    requires Selected(server, d.plan.dataId) == Some(files)
    ensures var (e, o) := Advance(d, LocalFileContentsResponse(server, Asked(d)));
            !o.Failed? && Progress(d, e, o) && Faithful(e, files)
  {
    hide LittleEndian, FromLittleEndian, FinishedBytes, NothingElse, ServedBytes, Power256;
    var response := LocalFileContentsResponse(server, Asked(d));
    RoomForCurrent(d, files);
    AdvanceKeeps(d, response);
    var file := files[d.plan.fileIndices[d.cursor]];
    SizeFitsEightBytes(file.size);
    LittleEndianRoundTrip(file.size, 8);
    assert Honest(d.plan, d.cursor, file);
    assert response == SizeResponse(d.phase.streamId, file.size);
    FinishedUnchanged(d, response, files);
  }

  lemma HonestData(d: Download, server: Server, files: seq<ServedFile>)
    requires DownloadInv(d) && Active(d) && Serves(d.plan, files) && Faithful(d, files) && d.phase.DataPhase?
    requires Selected(server, d.plan.dataId) == Some(files)
    ensures var (e, o) := Advance(d, LocalFileContentsResponse(server, Asked(d)));
            !o.Failed? && Progress(d, e, o) && Faithful(e, files)
  {
    hide FinishedBytes, NothingElse, ServedBytes;
    var response := LocalFileContentsResponse(server, Asked(d));
    AdvanceKeeps(d, response);
    var content, position, requested :=
      files[d.plan.fileIndices[d.cursor]].content, d.phase.position, d.phase.requestedSize;
    assert Honest(d.plan, d.cursor, files[d.plan.fileIndices[d.cursor]]);
    assert response == Response(d.phase.streamId, false, content[position..position + requested]);
    assert content[..position] + content[position..position + requested] == content[..position + requested];
    assert content[..|content|] == content;
    FinishedUnchanged(d, response, files);
  }

  /** An accepted response leaves the files finished before it as they were. */
  lemma FinishedUnchanged(d: Download, response: Response, files: seq<ServedFile>)
    requires DownloadInv(d) && Active(d)
    ensures var e := Advance(d, response).0;
            forall i | 0 <= i < d.cursor :: Final(Target(d.plan, i)) in e.store
              && e.store[Final(Target(d.plan, i))] == d.store[Final(Target(d.plan, i))]
  {
    hide FinishedBytes, NothingElse, SizeAllowed, FromLittleEndian;
    var e := Advance(d, response).0;
    forall i | 0 <= i < d.cursor
      ensures Final(Target(d.plan, i)) in e.store
              && e.store[Final(Target(d.plan, i))] == d.store[Final(Target(d.plan, i))]
    {
      assert Target(d.plan, i) != Target(d.plan, d.cursor);
    }
  }

  /** A peer that selects these files whenever it is asked; the rest of its state may change from turn to turn. */
  ghost predicate KeepsServing(servers: nat -> Server, dataId: Option<u32>, files: seq<ServedFile>) {
    forall turn: nat :: Selected(servers(turn), dataId) == Some(files)
  }

  ghost function Answers(servers: nat -> Server): (nat, Request) -> Response {
    (turn: nat, request: Request) => LocalFileContentsResponse(servers(turn), request)
  }

  /** Against unchanged files a transfer never fails: it completes, and every file arrives byte for byte. */
  lemma {:induction false} HonestTransferCompletes(d: Download, servers: nat -> Server, files: seq<ServedFile>,
                                                   turn: nat)
    requires DownloadInv(d) && Active(d) && Serves(d.plan, files) && Faithful(d, files)
    requires KeepsServing(servers, d.plan.dataId, files)
    ensures var (e, o) := Converse(d, Answers(servers), turn);
            o.Complete? && Faithful(e, files)
    decreases |d.plan.fileIndices| - d.cursor, if d.phase.SizePhase? then 1 else 0, BytesLeft(d)
  {
    hide DownloadInv, PlanOk, Faithful, Serves, Advance, LocalFileContentsResponse;
    assert Selected(servers(turn), d.plan.dataId) == Some(files);
    if d.phase.SizePhase? {
      HonestSize(d, servers(turn), files);
    } else {
      HonestData(d, servers(turn), files);
    }
    var (e, o) := Advance(d, Answers(servers)(turn, Asked(d)));
    if o.More? {
      HonestTransferCompletes(e, servers, files, turn + 1);
    }
  }

  // ----- from the offer to the files -----

  /** `prepare_remote_clipboard_download` once its checks have passed. */
  function PlanFor(u: Unicode, descriptors: seq<Descriptor>, dataId: Option<u32>): Plan
    requires forall d | d in descriptors :: Components(u, d).Some?
  {
    Plan(seq(|descriptors|, i requires 0 <= i < |descriptors| => Components(u, descriptors[i]).value),
         seq(|descriptors|, i requires 0 <= i < |descriptors| => descriptors[i].fileSize),
         FileIndices(descriptors), dataId)
  }

  function StartDownload(plan: Plan): Download {
    Download(plan, 0, 0, SizePhase(1), 2, map[])
  }

  lemma {:induction false} FileIndicesAre(descriptors: seq<Descriptor>)
    ensures var r := FileIndices(descriptors);
            && (forall k | 0 <= k < |r| :: r[k] < |descriptors| && !descriptors[r[k]].directory)
            && (forall i, j | 0 <= i < j < |r| :: r[i] < r[j])
            && (forall i | 0 <= i < |descriptors| && !descriptors[i].directory :: i in r)
    decreases |descriptors|
  {
    if descriptors != [] {
      FileIndicesAre(descriptors[..|descriptors| - 1]);
    }
  }

  /** Every accepted offer gives a plan the transfer can follow: no two files share a target. */
  lemma AcceptedPlanOk(u: Unicode, descriptors: seq<Descriptor>, dataId: Option<u32>)
    requires Acceptable(u, descriptors)
    ensures PlanOk(PlanFor(u, descriptors, dataId))
  {
    hide Components;
    FileIndicesAre(descriptors);
    var p := PlanFor(u, descriptors, dataId);
    forall i, j | 0 <= i < j < |p.fileIndices| ensures p.paths[p.fileIndices[i]] != p.paths[p.fileIndices[j]] {
      var a, b := p.fileIndices[i], p.fileIndices[j];
      assert FoldedPath(u, Components(u, descriptors[a]).value) != FoldedPath(u, Components(u, descriptors[b]).value);
    }
  }

  function ServedFiles(files: seq<LocalFile>): (r: seq<ServedFile>)
    requires forall f | f in files :: |f.content| <= MAX_FILE_SIZE
    ensures |r| == |files|
  {
    seq(|files|, i requires 0 <= i < |files| => ServedFile(|files[i].content|, files[i].directory, files[i].content))
  }

  lemma {:induction false} AnnouncedIsServed(descriptors: seq<Descriptor>, served: seq<ServedFile>)
    requires |served| >= |descriptors|
    requires forall i | 0 <= i < |descriptors| && !descriptors[i].directory ::
               descriptors[i].fileSize == Some(|served[i].content|)
    ensures var r := FileIndices(descriptors);
            (forall k | 0 <= k < |r| :: r[k] < |served|) && ServedBytes(r, served, |r|) == TotalAnnounced(descriptors)
    decreases |descriptors|
  {
    if descriptors != [] {
      var last := |descriptors| - 1;
      var before, after := FileIndices(descriptors[..last]), FileIndices(descriptors);
      assert after == if descriptors[last].directory then before else before + [last];
      hide FileIndices;
      AnnouncedIsServed(descriptors[..last], served);
      SamePrefix(before, after, served, |before|);
    }
  }

  lemma {:induction false} SamePrefix(a: seq<nat>, b: seq<nat>, files: seq<ServedFile>, n: nat)
    requires n <= |a| <= |b| && a == b[..|a|] && forall k | 0 <= k < |b| :: b[k] < |files|
    requires forall k | 0 <= k < |a| :: a[k] < |files|
    ensures ServedBytes(a, files, n) == ServedBytes(b, files, n)
  {
    if n > 0 {
      SamePrefix(a, b, files, n - 1);
      assert a[n - 1] == b[n - 1];
    }
  }

  lemma OfferIsServed(u: Unicode, files: seq<LocalFile>, dataId: Option<u32>)
    requires forall f | f in files :: |f.content| <= MAX_FILE_SIZE
    requires Acceptable(u, DescriptorsOf(files))
    ensures Serves(PlanFor(u, DescriptorsOf(files), dataId), ServedFiles(files))
  {
    hide Components, DistinctPaths, NothingBelowFiles;
    var descriptors := DescriptorsOf(files);
    var p := PlanFor(u, descriptors, dataId);
    AcceptedPlanOk(u, descriptors, dataId);
    FileIndicesAre(descriptors);
    AnnouncedIsServed(descriptors, ServedFiles(files));
    forall k | 0 <= k < |p.fileIndices| ensures Honest(p, k, ServedFiles(files)[p.fileIndices[k]]) {
      assert files[p.fileIndices[k]] in files;
    }
  }

  /** Where an offered file ends up: its components below the transfer's directory. */
  function PlaceOf(u: Unicode, file: LocalFile): Entry
    requires |file.content| <= MAX_FILE_SIZE && Components(u, DescriptorOf(file)).Some?
  {
    Final(Components(u, DescriptorOf(file)).value)
  }

  /** The staging directory holds exactly the offered regular files, each under its own path with its own bytes. */
  ghost predicate Arrived(u: Unicode, files: seq<LocalFile>, store: Store)
    requires forall f | f in files :: |f.content| <= MAX_FILE_SIZE && Components(u, DescriptorOf(f)).Some?
  {
    && (forall f | f in files && !f.directory :: PlaceOf(u, f) in store && store[PlaceOf(u, f)] == f.content)
    && (forall e | e in store :: exists f | f in files && !f.directory :: PlaceOf(u, f) == e)
  }

  lemma CompletedHasArrived(u: Unicode, files: seq<LocalFile>, d: Download)
    requires forall f | f in files :: |f.content| <= MAX_FILE_SIZE && Components(u, DescriptorOf(f)).Some?
    requires DownloadInv(d) && d.plan == PlanFor(u, DescriptorsOf(files), d.plan.dataId)
             && d.cursor == |d.plan.fileIndices|
    requires Serves(d.plan, ServedFiles(files)) && Faithful(d, ServedFiles(files))
    ensures Arrived(u, files, d.store)
  {
    hide Components, FinishedBytes, ServedBytes, SizeAllowed, Honest, NothingElse, FileIndices, PlaceOf;
    FileIndicesAre(DescriptorsOf(files));
    forall f | f in files && !f.directory ensures PlaceOf(u, f) in d.store && d.store[PlaceOf(u, f)] == f.content {
      var i :| 0 <= i < |files| && files[i] == f;
      assert i in d.plan.fileIndices by { assert !DescriptorsOf(files)[i].directory; }
      FileArrived(u, files, d, i);
    }
    forall e | e in d.store ensures exists f | f in files && !f.directory :: PlaceOf(u, f) == e {
      OnlyOffered(u, files, d, e);
    }
  }

  lemma FileArrived(u: Unicode, files: seq<LocalFile>, d: Download, i: nat)
    requires forall f | f in files :: |f.content| <= MAX_FILE_SIZE && Components(u, DescriptorOf(f)).Some?
    requires DownloadInv(d) && d.plan == PlanFor(u, DescriptorsOf(files), d.plan.dataId)
             && d.cursor == |d.plan.fileIndices|
    requires Serves(d.plan, ServedFiles(files)) && Faithful(d, ServedFiles(files))
    requires i < |files| && i in d.plan.fileIndices
    ensures PlaceOf(u, files[i]) in d.store && d.store[PlaceOf(u, files[i])] == files[i].content
  {
    hide Components, FinishedBytes, ServedBytes, SizeAllowed, Honest, NothingElse, FileIndices;
    var k :| 0 <= k < |d.plan.fileIndices| && d.plan.fileIndices[k] == i;
    assert Final(Target(d.plan, k)) == PlaceOf(u, files[i]);
  }

  lemma OnlyOffered(u: Unicode, files: seq<LocalFile>, d: Download, e: Entry)
    requires forall f | f in files :: |f.content| <= MAX_FILE_SIZE && Components(u, DescriptorOf(f)).Some?
    requires DownloadInv(d) && d.plan == PlanFor(u, DescriptorsOf(files), d.plan.dataId)
             && d.cursor == |d.plan.fileIndices|
    requires e in d.store
    ensures exists f | f in files && !f.directory :: PlaceOf(u, f) == e
  {
    hide Components, FinishedBytes, SizeAllowed, Finished, FileIndices;
    var r := d.plan.fileIndices;
    FileIndicesAre(DescriptorsOf(files));
    assert e.Final?;
    var k :| 0 <= k < d.cursor && Target(d.plan, k) == e.path;
    var f := files[r[k]];
    assert f in files && !f.directory && PlaceOf(u, f) == e by { assert !DescriptorsOf(files)[r[k]].directory; }
  }

  lemma StartInvariant(plan: Plan)
    requires PlanOk(plan)
    ensures DownloadInv(StartDownload(plan))
  {
  }

  /**
   * End to end: whatever one client's walk offers, another client's download accepts, asks for, and ends with
   * exactly those files, byte for byte, provided the offering side goes on serving them under the request's lock.
   */
  lemma OfferedFilesArrive(u: Unicode, roots: seq<Root>, dataId: Option<u32>, servers: nat -> Server)
    requires Offerable(u, roots)
    requires KeepsServing(servers, dataId, ServedFiles(Flatten(RootItems(roots))))
    ensures var files := Flatten(RootItems(roots));
            && (forall f | f in files :: Components(u, DescriptorOf(f)).Some?)
            && Acceptable(u, DescriptorsOf(files))
            && var start := StartDownload(PlanFor(u, DescriptorsOf(files), dataId));
            && DownloadInv(start)
            && (if Active(start) then
                  var (e, o) := Converse(start, Answers(servers), 0);
                  o.Complete? && Arrived(u, files, e.store)
                else Arrived(u, files, start.store))
  {
    hide Components, Flatten, Offerable, ServedBytes, FinishedBytes, DistinctPaths, NothingBelowFiles, SizesBounded;
    hide Faithful, Arrived, Serves, Converse, PlanOk, LocalFileContentsResponse, KeepsServing;
    OfferIsAcceptable(u, roots);
    var files := Flatten(RootItems(roots));
    var descriptors := DescriptorsOf(files);
    forall f | f in files ensures Components(u, DescriptorOf(f)).Some? {
      var i :| 0 <= i < |files| && files[i] == f;
      assert descriptors[i] in descriptors;
    }
    OfferIsServed(u, files, dataId);
    AcceptedPlanOk(u, descriptors, dataId);
    var start := StartDownload(PlanFor(u, descriptors, dataId));
    StartInvariant(start.plan);
    StartFaithful(start.plan, ServedFiles(files));
    if Active(start) {
      HonestTransferCompletes(start, servers, ServedFiles(files), 0);
      var (e, o) := Converse(start, Answers(servers), 0);
      CompletedHasArrived(u, files, e);
    } else {
      CompletedHasArrived(u, files, start);
    }
  }

  /** The server as it is at each turn: it locked the list it offered, and then these events happened. */
  ghost function AfterLock(server: Server, dataId: u32, happened: nat -> seq<ServerEvent>): nat -> Server {
    (turn: nat) => ServerRun(ServerStep(server, Locked(dataId)), happened(turn))
  }

  /**
   * The same under a lock: once the offering side has locked its list, it may copy anything else, and other locks
   * may come and go between any two turns; the files still arrive byte for byte.
   */
  lemma LockedFilesArrive(u: Unicode, roots: seq<Root>, dataId: u32, server: Server, happened: nat -> seq<ServerEvent>)
    requires Offerable(u, roots)
    requires server.localFiles == Some(ServedFiles(Flatten(RootItems(roots))))
    requires forall turn :: KeepLock(happened(turn), dataId)
    ensures var files := Flatten(RootItems(roots));
            && (forall f | f in files :: |f.content| <= MAX_FILE_SIZE && Components(u, DescriptorOf(f)).Some?)
            && Acceptable(u, DescriptorsOf(files))
            && var start := StartDownload(PlanFor(u, DescriptorsOf(files), Some(dataId)));
            && DownloadInv(start)
            && (if Active(start) then
                  var (e, o) := Converse(start, Answers(AfterLock(server, dataId, happened)), 0);
                  o.Complete? && Arrived(u, files, e.store)
                else Arrived(u, files, start.store))
  {
    hide Components, Flatten, Converse, Arrived, DownloadInv, PlanOk, Acceptable, ServerRun, Answers, KeepLock;
    var files := server.localFiles.value;
    var servers := AfterLock(server, dataId, happened);
    forall turn: nat ensures Selected(servers(turn), Some(dataId)) == Some(files) {
      LockHolds(ServerStep(server, Locked(dataId)), happened(turn), dataId, files);
    }
    OfferedFilesArrive(u, roots, Some(dataId), servers);
  }

  lemma StartFaithful(plan: Plan, files: seq<ServedFile>)
    requires PlanOk(plan) && DownloadInv(StartDownload(plan)) && Serves(plan, files)
    ensures Faithful(StartDownload(plan), files)
  {
  }
}

/** The receiver's record of a transfer, updated in place. */
module RemoteDownload {
  import opened FixedWidth
  import opened ClipboardOffer
  import opened ClipboardTransfer

  class RemoteClipboardDownload {
    const plan: Plan
    var fileCursor: nat
    var completedBytes: nat
    var phase: Phase
    var nextStreamId: u32
    var staging: Store

    function State(): Download
      reads this
    {
      Download(plan, fileCursor, completedBytes, phase, nextStreamId, staging)
    }

    constructor (plan: Plan)
      requires PlanOk(plan)
      ensures State() == StartDownload(plan) && DownloadInv(State())
    {
      this.plan, fileCursor, completedBytes, phase, nextStreamId, staging := plan, 0, 0, SizePhase(1), 2, map[];
      new;
      StartInvariant(plan);
    }

    method FinishFile(fileSize: nat) returns (outcome: Outcome)
      requires Active(State()) && Part(fileCursor) in staging
      modifies this
      ensures (State(), outcome) == ClipboardTransfer.FinishFile(old(State()), fileSize)
    {
      var part := Part(fileCursor);
      var content := staging[part];
      staging := (staging - {part})[Final(Target(plan, fileCursor)) := content];
      completedBytes := completedBytes + fileSize;
      fileCursor := fileCursor + 1;
      if fileCursor == |plan.fileIndices| {
        return Complete;
      }
      var streamId := nextStreamId;
      nextStreamId := NextStreamId(nextStreamId);
      phase := SizePhase(streamId);
      return More(SizeRequest(plan.fileIndices[fileCursor], streamId, plan.dataId));
    }

    /** Sets the next range and asks for it. */
    method AskForRange(fileSize: u64, position: u64) returns (outcome: Outcome)
      requires Active(State()) && position < fileSize
      modifies `phase, `nextStreamId
      ensures (State(), outcome) == ClipboardTransfer.AskForRange(old(State()), fileSize, position)
    {
      var requested := Min(fileSize - position, CHUNK_BYTES);
      var request := RangeRequest(plan.fileIndices[fileCursor], nextStreamId, position, requested, plan.dataId);
      phase := DataPhase(nextStreamId, fileSize, position, requested);
      nextStreamId := NextStreamId(nextStreamId);
      return More(request);
    }

    method Advance(response: Response) returns (outcome: Outcome)
      requires DownloadInv(State()) && Active(State())
      modifies this
      ensures (State(), outcome) == ClipboardTransfer.Advance(old(State()), response)
      ensures DownloadInv(State())
    {
      hide DownloadInv, FromLittleEndian;
      AdvanceKeeps(State(), response);
      if response.isError {
        return Failed;
      }
      match phase
      case SizePhase(streamId) =>
        var size := DataAsSize(response.data);
        if response.streamId != streamId || size.None? {
          return Failed;
        }
        var announced := plan.announced[plan.fileIndices[fileCursor]];
        if size.value > MAX_FILE_SIZE || (announced.Some? && announced.value != size.value)
          || completedBytes + size.value > MAX_TRANSFER_SIZE || Part(fileCursor) in staging {
          return Failed;
        }
        staging := staging[Part(fileCursor) := []];
        if size.value == 0 {
          outcome := FinishFile(0);
        } else {
          outcome := AskForRange(size.value, 0);
        }
      case DataPhase(streamId, fileSize, position, requestedSize) =>
        if response.streamId != streamId || response.data == [] || |response.data| > requestedSize
          || position + |response.data| > fileSize || Part(fileCursor) !in staging {
          return Failed;
        }
        staging := staging[Part(fileCursor) := staging[Part(fileCursor)] + response.data];
        if position + |response.data| == fileSize {
          outcome := FinishFile(fileSize);
        } else {
          outcome := AskForRange(fileSize, position + |response.data|);
        }
    }
  }
}
