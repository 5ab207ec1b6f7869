// What one RDP clipboard offers and what another accepts: the directory walk, the paths on
// the wire and the receiver's tree checks (plugins/rdp/src/clipboard.rs).

module ClipboardPaths {
  import opened Wrappers

  const MAX_PATH_UNITS: nat := 259

  /** Unicode facts the helper takes from its libraries; every result holds for any choice of them. */
  datatype Unicode = Unicode(lower: string -> string, utf16Units: string -> nat, isDeviceName: string -> bool)

  predicate IsSeparator(c: char) {
    c == '/' || c == '\\'
  }

  predicate IsControl(c: char) {
    c as int < 0x20 || 0x7f <= c as int <= 0x9f
  }

  /** `remote_clipboard_file_name_is_safe` */
  predicate SafeName(u: Unicode, name: string) {
    && name != "" && |name| <= MAX_PATH_UNITS
    && (forall c | c in name :: !IsControl(c) && c !in "<>:\"/\\|?*")
    && name != "." && name != ".."
    && name[|name| - 1] != '.' && name[|name| - 1] != ' '
    && !u.isDeviceName(name)
  }

  /** Which names are turned down, one reason after the other. */
  lemma WhenUnsafe(u: Unicode, name: string)
    ensures !SafeName(u, name) <==>
            || name == "" || |name| > 259 || name == "." || name == ".."
            || (exists c :: c in name && IsControl(c))
            || '<' in name || '>' in name || ':' in name || '"' in name
            || '/' in name || '\\' in name || '|' in name || '?' in name || '*' in name
            || (name != "" && (name[|name| - 1] == '.' || name[|name| - 1] == ' '))
            || u.isDeviceName(name)
  {
    var reserved := "<>:\"/\\|?*";
    assert forall c :: c in reserved <==>
      c == '<' || c == '>' || c == ':' || c == '"' || c == '/' || c == '\\' || c == '|' || c == '?' || c == '*';
  }

  /** Where a path leads from a directory, with "." and ".." meaning what they mean to a file system. */
  function Resolve(directory: seq<string>, components: seq<string>): seq<string>
    decreases |components|
  {
    if components == [] then directory
    else if components[0] == "." || components[0] == "" then Resolve(directory, components[1..])
    else if components[0] == ".." then
      Resolve(if directory == [] then [] else directory[..|directory| - 1], components[1..])
    else Resolve(directory + [components[0]], components[1..])
  }

  /** Safe components never lead out of the directory they start in, nor back to it. */
  lemma {:induction false} SafeStaysBelow(u: Unicode, directory: seq<string>, components: seq<string>)
    requires AllSafe(u, components)
    ensures Resolve(directory, components) == directory + components
    decreases |components|
  {
    if components == [] {
      assert directory + components == directory;
    } else {
      assert components[0] in components;
      SafeStaysBelow(u, directory + [components[0]], components[1..]);
      assert directory + [components[0]] + components[1..] == directory + components;
    }
  }

  /** `str::split(['/', '\\'])`: one piece more than there are separators. */
  function Split(path: string): (pieces: seq<string>)
    ensures pieces != []
  {
    if path == "" then [""]
    else
      var rest := Split(path[1..]);
      if IsSeparator(path[0]) then [""] + rest else [[path[0]] + rest[0]] + rest[1..]
  }

  /** `components.join("\\")` */
  function Join(components: seq<string>): string {
    if components == [] then ""
    else if |components| == 1 then components[0]
    else Join(components[..|components| - 1]) + "\\" + components[|components| - 1]
  }

  predicate AllSafe(u: Unicode, components: seq<string>) {
    forall c | c in components :: SafeName(u, c)
  }

  lemma SafeHasNoSeparator(u: Unicode, name: string)
    requires SafeName(u, name)
    ensures forall c | c in name :: !IsSeparator(c)
  {
    assert '/' in "<>:\"/\\|?*" by { assert "<>:\"/\\|?*"[4] == '/'; }
    assert '\\' in "<>:\"/\\|?*" by { assert "<>:\"/\\|?*"[5] == '\\'; }
  }

  lemma {:induction false} SplitPlain(name: string)
    requires forall c | c in name :: !IsSeparator(c)
    ensures Split(name) == [name]
  {
    if name != "" {
      assert name[0] in name;
      forall c | c in name[1..] ensures !IsSeparator(c) {
        assert c in name;
      }
      SplitPlain(name[1..]);
      assert [name[0]] + name[1..] == name;
    }
  }

  lemma {:induction false} SplitAppend(path: string, name: string)
    requires forall c | c in name :: !IsSeparator(c)
    ensures Split(path + "\\" + name) == Split(path) + [name]
  {
    if path == "" {
      assert (path + "\\" + name)[1..] == name;
      SplitPlain(name);
    } else {
      assert (path + "\\" + name)[1..] == path[1..] + "\\" + name;
      SplitAppend(path[1..], name);
    }
  }

  /** Splitting what was joined gives back the same safe components. */
  lemma {:induction false} SplitJoin(u: Unicode, components: seq<string>)
    requires components != [] && AllSafe(u, components)
    ensures Split(Join(components)) == components
    decreases |components|
  {
    var last := |components| - 1;
    SafeHasNoSeparator(u, components[last]);
    if last == 0 {
      SplitPlain(components[0]);
    } else {
      SplitJoin(u, components[..last]);
      SplitAppend(Join(components[..last]), components[last]);
    }
  }

  lemma {:induction false} JoinNotEmpty(u: Unicode, components: seq<string>)
    requires components != [] && AllSafe(u, components)
    ensures Join(components) != "" && !IsSeparator(Join(components)[0])
    decreases |components|
  {
    var last := |components| - 1;
    if last == 0 {
      SafeHasNoSeparator(u, components[0]);
      assert components[0][0] in components[0];
    } else {
      JoinNotEmpty(u, components[..last]);
    }
  }

  lemma JoinInjective(u: Unicode, a: seq<string>, b: seq<string>)
    requires a != [] && b != [] && AllSafe(u, a) && AllSafe(u, b) && Join(a) == Join(b)
    ensures a == b
  {
    SplitJoin(u, a);
    SplitJoin(u, b);
  }

  /** `clipboard_wire_path` */
  function WirePath(relativePath: Option<string>, name: string): string {
    if relativePath.Some? && relativePath.value != "" then relativePath.value + "\\" + name else name
  }
}

module ClipboardOffer {
  import opened Wrappers
  import opened FixedWidth
  import opened ClipboardPaths

  const MAX_FILE_COUNT: nat := 1024
  const MAX_FILE_SIZE: nat := 2 * 1024 * 1024 * 1024
  const MAX_TRANSFER_SIZE: nat := 4 * 1024 * 1024 * 1024

  /** A snapshot of the file system below the offered items. */
  datatype Node =
    | File(content: seq<u8>)
    | Directory(children: seq<Child>)
    | UnreadableDirectory
    | Special

  /** A directory entry in name order; None is a name that is not valid Unicode. */
  datatype Child = Child(name: Option<string>, node: Node)

  /** An offered item: its canonical path, the last component of that path, and what is there. */
  datatype Root = Root(canonicalPath: string, name: Option<string>, node: Node)

  datatype LocalFile = LocalFile(name: string, relativePath: Option<string>, content: seq<u8>, directory: bool)

  datatype Descriptor = Descriptor(name: string, relativePath: Option<string>, fileSize: Option<u64>, directory: bool)

  function DescriptorOf(file: LocalFile): Descriptor
    requires |file.content| <= MAX_FILE_SIZE
  {
    Descriptor(file.name, file.relativePath, Some(|file.content|), file.directory)
  }

  function DescriptorsOf(files: seq<LocalFile>): (r: seq<Descriptor>)
    requires forall f | f in files :: |f.content| <= MAX_FILE_SIZE
    ensures |r| == |files|
  {
    seq(|files|, i requires 0 <= i < |files| => DescriptorOf(files[i]))
  }

  // ----- the receiver's checks -----

  /** `remote_clipboard_descriptor_components` */
  function Components(u: Unicode, d: Descriptor): Option<seq<string>> {
    var prefix :=
      if d.relativePath.None? then Some([])
      else
        var path := d.relativePath.value;
        if path == "" || IsSeparator(path[0]) || u.utf16Units(path) > MAX_PATH_UNITS then None
        else if AllSafe(u, Split(path)) then Some(Split(path))
        else None;
    if prefix.None? || !SafeName(u, d.name) then None
    else
      var components := prefix.value + [d.name];
      if u.utf16Units(Join(components)) <= MAX_PATH_UNITS then Some(components) else None
  }

  function FoldedPath(u: Unicode, components: seq<string>): string {
    u.lower(Join(components))
  }

  /** The size a regular file announces; directories and unknown sizes announce nothing. */
  function AnnouncedSize(d: Descriptor): nat {
    if d.directory || d.fileSize.None? then 0 else d.fileSize.value
  }

  function TotalAnnounced(descriptors: seq<Descriptor>): nat {
    if descriptors == [] then 0
    else TotalAnnounced(descriptors[..|descriptors| - 1]) + AnnouncedSize(descriptors[|descriptors| - 1])
  }

  ghost predicate AllNamed(u: Unicode, descriptors: seq<Descriptor>) {
    forall d | d in descriptors :: Components(u, d).Some?
  }

  ghost predicate DistinctPaths(u: Unicode, descriptors: seq<Descriptor>)
    requires AllNamed(u, descriptors)
  {
    forall i, j | 0 <= i < j < |descriptors| ::
      FoldedPath(u, Components(u, descriptors[i]).value) != FoldedPath(u, Components(u, descriptors[j]).value)
  }

  ghost predicate SizesBounded(descriptors: seq<Descriptor>) {
    && (forall d | d in descriptors :: AnnouncedSize(d) <= MAX_FILE_SIZE)
    && TotalAnnounced(descriptors) <= MAX_TRANSFER_SIZE
  }

  /** Entry j is a regular file sitting where entry i needs a directory. */
  ghost predicate BelowFile(u: Unicode, descriptors: seq<Descriptor>, i: nat, j: nat, depth: nat)
    requires AllNamed(u, descriptors) && i < |descriptors| && j < |descriptors|
    requires depth <= |Components(u, descriptors[i]).value|
  {
    && !descriptors[j].directory
    && FoldedPath(u, Components(u, descriptors[i]).value[..depth]) == FoldedPath(u, Components(u, descriptors[j]).value)
  }

  ghost predicate NothingBelowFiles(u: Unicode, descriptors: seq<Descriptor>)
    requires AllNamed(u, descriptors)
  {
    forall i, j, depth | 0 <= i < |descriptors| && 0 <= j < |descriptors|
      && 1 <= depth < |Components(u, descriptors[i]).value| ::
      !BelowFile(u, descriptors, i, j, depth)
  }

  /** Everything the receiver checks before it creates a single file. */
  ghost predicate Acceptable(u: Unicode, descriptors: seq<Descriptor>) {
    && 1 <= |descriptors| <= MAX_FILE_COUNT
    && AllNamed(u, descriptors)
    && DistinctPaths(u, descriptors)
    && SizesBounded(descriptors)
    && NothingBelowFiles(u, descriptors)
  }

  // ----- the walk -----

  datatype Item = Item(node: Node, name: string, relativePath: Option<string>)

  function FileOf(item: Item): LocalFile {
    LocalFile(item.name, item.relativePath, if item.node.File? then item.node.content else [], !item.node.File?)
  }

  function ItemPath(item: Item): string {
    WirePath(item.relativePath, item.name)
  }

  /** An item followed by everything below it, directories before their contents. */
  function Preorder(item: Item): seq<LocalFile>
    decreases item.node, 1, 0
  {
    [FileOf(item)] + (if item.node.Directory? then PreorderFrom(item.node, 0, ItemPath(item)) else [])
  }

  function PreorderFrom(directory: Node, first: nat, parent: string): seq<LocalFile>
    requires directory.Directory? && first <= |directory.children|
    decreases directory, 0, |directory.children| - first
  {
    if first == |directory.children| then []
    else
      var child := directory.children[first];
      Preorder(Item(child.node, child.name.GetOr(""), Some(parent))) + PreorderFrom(directory, first + 1, parent)
  }

  /** What a stack of items still has to produce: its last element comes first. */
  function Flatten(pending: seq<Item>): seq<LocalFile> {
    if pending == [] then []
    else Preorder(pending[|pending| - 1]) + Flatten(pending[..|pending| - 1])
  }

  /** Only regular files and readable directories, all of them safely named. */
  predicate Supported(u: Unicode, node: Node)
    decreases node, 1, 0
  {
    match node
    case File(_) => true
    case Directory(_) => SupportedFrom(u, node, 0)
    case UnreadableDirectory => false
    case Special => false
  }

  predicate SupportedFrom(u: Unicode, directory: Node, first: nat)
    requires directory.Directory? && first <= |directory.children|
    decreases directory, 0, |directory.children| - first
  {
    first < |directory.children| ==>
      var child := directory.children[first];
      && child.name.Some? && SafeName(u, child.name.value)
      && Supported(u, child.node) && SupportedFrom(u, directory, first + 1)
  }

  predicate AllSupported(u: Unicode, pending: seq<Item>) {
    forall item | item in pending :: Supported(u, item.node)
  }

  /** One directory's children, pushed last to first. */
  function PushChildren(directory: Node, first: nat, parent: string): (r: seq<Item>)
    requires directory.Directory? && first <= |directory.children|
    ensures |r| == |directory.children| - first
    decreases |directory.children| - first
  {
    if first == |directory.children| then []
    else
      var child := directory.children[first];
      PushChildren(directory, first + 1, parent) + [Item(child.node, child.name.GetOr(""), Some(parent))]
  }

  lemma {:induction false} FlattenPushed(pending: seq<Item>, directory: Node, first: nat, parent: string)
    requires directory.Directory? && first <= |directory.children|
    ensures Flatten(pending + PushChildren(directory, first, parent))
            == PreorderFrom(directory, first, parent) + Flatten(pending)
    decreases |directory.children| - first
  {
    if first == |directory.children| {
      assert pending + [] == pending;
    } else {
      var child := directory.children[first];
      var item := Item(child.node, child.name.GetOr(""), Some(parent));
      var rest := PushChildren(directory, first + 1, parent);
      FlattenPushed(pending, directory, first + 1, parent);
      assert pending + (rest + [item]) == (pending + rest) + [item];
      assert ((pending + rest) + [item])[..|pending + rest|] == pending + rest;
    }
  }

  lemma {:induction false} SupportedPushed(u: Unicode, directory: Node, first: nat, parent: string)
    requires directory.Directory? && first <= |directory.children|
    ensures SupportedFrom(u, directory, first) ==>
              AllSupported(u, PushChildren(directory, first, parent))
              && forall i | first <= i < |directory.children| ::
                   directory.children[i].name.Some? && SafeName(u, directory.children[i].name.value)
    ensures AllSupported(u, PushChildren(directory, first, parent))
            && (forall i | first <= i < |directory.children| ::
                  directory.children[i].name.Some? && SafeName(u, directory.children[i].name.value))
            ==> SupportedFrom(u, directory, first)
    decreases |directory.children| - first
  {
    if first < |directory.children| {
      SupportedPushed(u, directory, first + 1, parent);
      var child := directory.children[first];
      var item := Item(child.node, child.name.GetOr(""), Some(parent));
      var pushed := PushChildren(directory, first, parent);
      assert pushed[|pushed| - 1] == item;
      assert forall x :: x in pushed <==> x == item || x in PushChildren(directory, first + 1, parent);
    }
  }

  // ----- when a walk succeeds -----

  function FilePath(file: LocalFile): string {
    WirePath(file.relativePath, file.name)
  }

  function TotalContent(files: seq<LocalFile>): nat {
    if files == [] then 0 else TotalContent(files[..|files| - 1]) + |files[|files| - 1].content|
  }

  ghost predicate ListingOk(u: Unicode, files: seq<LocalFile>) {
    && |files| <= MAX_FILE_COUNT
    && (forall f | f in files :: u.utf16Units(FilePath(f)) <= MAX_PATH_UNITS && |f.content| <= MAX_FILE_SIZE)
    && (forall i, j | 0 <= i < j < |files| :: u.lower(FilePath(files[i])) != u.lower(FilePath(files[j])))
    && TotalContent(files) <= MAX_TRANSFER_SIZE
  }

  /** The checks the walk makes before it adds one more entry. */
  ghost predicate CanAdd(u: Unicode, files: seq<LocalFile>, file: LocalFile) {
    && |files| < MAX_FILE_COUNT
    && u.utf16Units(FilePath(file)) <= MAX_PATH_UNITS && |file.content| <= MAX_FILE_SIZE
    && (forall f | f in files :: u.lower(FilePath(f)) != u.lower(FilePath(file)))
    && TotalContent(files) + |file.content| <= MAX_TRANSFER_SIZE
  }

  lemma ListingGrows(u: Unicode, files: seq<LocalFile>, file: LocalFile)
    requires ListingOk(u, files)
    ensures ListingOk(u, files + [file]) <==> CanAdd(u, files, file)
  {
    var more := files + [file];
    assert more[..|files|] == files;
    if ListingOk(u, more) {
      assert file in more;
      forall f | f in files ensures u.lower(FilePath(f)) != u.lower(FilePath(file)) {
        var i :| 0 <= i < |files| && files[i] == f;
        assert more[i] == f && more[|files|] == file;
      }
    }
    if CanAdd(u, files, file) {
      forall i, j | 0 <= i < j < |more| ensures u.lower(FilePath(more[i])) != u.lower(FilePath(more[j])) {
        if j == |files| {
          assert files[i] in files;
        }
      }
    }
  }

  lemma {:induction false} ListingPrefix(u: Unicode, files: seq<LocalFile>, rest: seq<LocalFile>)
    requires ListingOk(u, files + rest)
    ensures ListingOk(u, files)
    decreases |rest|
  {
    if rest == [] {
      assert files + rest == files;
    } else {
      var n := |rest| - 1;
      var shorter := files + rest[..n];
      assert files + rest == shorter + [rest[n]];
      ListingWithoutLast(u, shorter, rest[n]);
      ListingPrefix(u, files, rest[..n]);
    }
  }

  lemma ListingWithoutLast(u: Unicode, files: seq<LocalFile>, file: LocalFile)
    requires ListingOk(u, files + [file])
    ensures ListingOk(u, files)
  {
    var more := files + [file];
    assert more[..|files|] == files;
    forall i, j | 0 <= i < j < |files| ensures u.lower(FilePath(files[i])) != u.lower(FilePath(files[j])) {
      assert more[i] == files[i] && more[j] == files[j];
    }
    forall f | f in files ensures f in more {
    }
  }

  function RootItems(roots: seq<Root>): (r: seq<Item>)
    ensures |r| == |roots|
  {
    seq(|roots|, i requires 0 <= i < |roots| => Item(roots[i].node, roots[i].name.GetOr(""), None))
  }

  ghost predicate RootOk(u: Unicode, root: Root) {
    !root.node.Special? && root.name.Some? && SafeName(u, root.name.value)
  }

  ghost predicate RootsOk(u: Unicode, roots: seq<Root>) {
    && 1 <= |roots| <= MAX_FILE_COUNT
    && (forall root | root in roots :: RootOk(u, root))
    && (forall i, j | 0 <= i < j < |roots| :: roots[i].canonicalPath != roots[j].canonicalPath)
  }

  /** Exactly the trees the walk can offer. */
  ghost predicate Offerable(u: Unicode, roots: seq<Root>) {
    && RootsOk(u, roots)
    && AllSupported(u, RootItems(roots))
    && ListingOk(u, Flatten(RootItems(roots)))
  }

  method CollectLocalClipboardFiles(u: Unicode, roots: seq<Root>) returns (r: Option<seq<LocalFile>>)
    ensures r.Some? <==> Offerable(u, roots)
    ensures r.Some? ==> r.value == Flatten(RootItems(roots))
  {
    if roots == [] || |roots| > MAX_FILE_COUNT {
      return None;
    }
    var seenRoots: set<string> := {};
    var pending: seq<Item> := [];
    for index := 0 to |roots|
      invariant pending == RootItems(roots)[..index]
      invariant forall i | 0 <= i < index :: RootOk(u, roots[i])
      invariant forall i, j | 0 <= i < j < index :: roots[i].canonicalPath != roots[j].canonicalPath
      invariant seenRoots == set i | 0 <= i < index :: roots[i].canonicalPath
    {
      var root := roots[index];
      assert root in roots;
      if root.node.Special? || root.canonicalPath in seenRoots || root.name.None? || !SafeName(u, root.name.value) {
        return None;
      }
      seenRoots := seenRoots + {root.canonicalPath};
      pending := pending + [Item(root.node, root.name.value, None)];
    }
    assert RootItems(roots)[..|roots|] == RootItems(roots);
    r := WalkItems(u, pending);
  }

  method WalkItems(u: Unicode, items: seq<Item>) returns (r: Option<seq<LocalFile>>)
    ensures r.Some? <==> AllSupported(u, items) && ListingOk(u, Flatten(items))
    ensures r.Some? ==> r.value == Flatten(items)
  {
    hide ListingOk, CanAdd, Flatten, Supported, SupportedFrom, AllSupported, SafeName, PushChildren, FilePath, ItemPath,
      FileOf, PreorderFrom;
    var pending := items;
    var files: seq<LocalFile> := [];
    var seenWirePaths: set<string> := {};
    var totalSize := 0;
    NothingListed(u);
    while pending != []
      invariant files + Flatten(pending) == Flatten(items)
      invariant ListingOk(u, files) && totalSize == TotalContent(files)
      invariant AllSupported(u, items) <==> AllSupported(u, pending)
      invariant seenWirePaths == set f | f in files :: u.lower(FilePath(f))
      decreases MAX_FILE_COUNT - |files|
    {
      var item := pending[|pending| - 1];
      var file := FileOf(item);
      WalkStep(files, pending);
      WalkSupported(u, pending);
      AddChecks(u, files, seenWirePaths, totalSize, file, Flatten(pending)[1..]);
      pending := pending[..|pending| - 1];
      if |files| >= MAX_FILE_COUNT || item.node.Special? {
        return None;
      }
      var wirePath := ItemPath(item);
      if u.utf16Units(wirePath) > MAX_PATH_UNITS || u.lower(wirePath) in seenWirePaths {
        return None;
      }
      seenWirePaths := seenWirePaths + {u.lower(wirePath)};
      var size := |file.content|;
      if size > MAX_FILE_SIZE || totalSize + size > MAX_TRANSFER_SIZE {
        return None;
      }
      totalSize := totalSize + size;
      files := files + [file];
      if item.node.UnreadableDirectory? {
        return None;
      }
      if item.node.Directory? {
        SupportedPushed(u, item.node, 0, wirePath);
        FlattenPushed(pending, item.node, 0, wirePath);
        if exists c | c in item.node.children :: c.name.None? || !SafeName(u, c.name.value) {
          return None;
        }
        SupportedJoined(u, pending, PushChildren(item.node, 0, wirePath));
        pending := pending + PushChildren(item.node, 0, wirePath);
      }
    }
    EverythingListed(u, files, pending);
    r := Some(files);
  }

  lemma NothingListed(u: Unicode)
    ensures ListingOk(u, [])
  {
  }

  lemma EverythingListed(u: Unicode, files: seq<LocalFile>, pending: seq<Item>)
    requires pending == []
    ensures files + Flatten(pending) == files && AllSupported(u, pending)
  {
  }

  /** The walk's own checks for one entry decide whether the list so far plus that entry is still fine. */
  lemma AddChecks(u: Unicode, files: seq<LocalFile>, seen: set<string>, total: nat, file: LocalFile,
                  rest: seq<LocalFile>)
    requires ListingOk(u, files) && total == TotalContent(files)
    requires seen == set f | f in files :: u.lower(FilePath(f))
    ensures var passes := && |files| < MAX_FILE_COUNT && u.utf16Units(FilePath(file)) <= MAX_PATH_UNITS
                          && u.lower(FilePath(file)) !in seen
                          && |file.content| <= MAX_FILE_SIZE && total + |file.content| <= MAX_TRANSFER_SIZE;
            && (ListingOk(u, files + [file]) <==> passes)
            && (ListingOk(u, (files + [file]) + rest) ==> passes)
    ensures TotalContent(files + [file]) == total + |file.content|
    ensures (set f | f in files + [file] :: u.lower(FilePath(f))) == seen + {u.lower(FilePath(file))}
  {
    ListingGrows(u, files, file);
    if ListingOk(u, (files + [file]) + rest) {
      ListingPrefix(u, files + [file], rest);
    }
    hide ListingOk, FilePath, TotalContent;
    AddCounts(u, files, file);
  }

  lemma AddCounts(u: Unicode, files: seq<LocalFile>, file: LocalFile)
    ensures TotalContent(files + [file]) == TotalContent(files) + |file.content|
    ensures (set f | f in files + [file] :: u.lower(FilePath(f)))
            == (set f | f in files :: u.lower(FilePath(f))) + {u.lower(FilePath(file))}
  {
    assert (files + [file])[..|files|] == files;
    hide FilePath, TotalContent;
    assert forall f :: f in files + [file] <==> f in files || f == file;
  }

  /** Taking the last pending item puts its own entry first and leaves its children to be listed. */
  lemma WalkStep(files: seq<LocalFile>, pending: seq<Item>)
    requires pending != []
    ensures var item := pending[|pending| - 1];
            && Flatten(pending) != [] && Flatten(pending)[0] == FileOf(item)
            && Flatten(pending)[1..] == Below(item) + Flatten(pending[..|pending| - 1])
            && files + Flatten(pending) == (files + [FileOf(item)]) + Flatten(pending)[1..]
            && FilePath(FileOf(item)) == ItemPath(item)
  {
    var item := pending[|pending| - 1];
    var before := Flatten(pending[..|pending| - 1]);
    PreorderHead(item);
    FlattenLast(pending);
    PathOfItem(item);
    hide Flatten, Preorder, Below, FilePath, ItemPath, FileOf;
    Regroup(files, FileOf(item), Below(item), before);
  }

  lemma FlattenLast(pending: seq<Item>)
    requires pending != []
    ensures Flatten(pending) == Preorder(pending[|pending| - 1]) + Flatten(pending[..|pending| - 1])
  {
  }

  lemma PathOfItem(item: Item)
    ensures FilePath(FileOf(item)) == ItemPath(item)
  {
  }

  lemma Regroup<T>(done: seq<T>, x: T, below: seq<T>, rest: seq<T>)
    ensures var all := ([x] + below) + rest;
            all[0] == x && all[1..] == below + rest && done + all == (done + [x]) + all[1..]
  {
  }

  function Below(item: Item): seq<LocalFile> {
    if item.node.Directory? then PreorderFrom(item.node, 0, ItemPath(item)) else []
  }

  lemma PreorderHead(item: Item)
    ensures Preorder(item) == [FileOf(item)] + Below(item)
  {
  }

  lemma WalkSupported(u: Unicode, pending: seq<Item>)
    requires pending != []
    ensures var item := pending[|pending| - 1];
            && (AllSupported(u, pending) <==> Supported(u, item.node) && AllSupported(u, pending[..|pending| - 1]))
            && (item.node.Directory? ==> Supported(u, item.node) == SupportedFrom(u, item.node, 0))
            && (item.node.File? ==> Supported(u, item.node))
            && (item.node.Special? || item.node.UnreadableDirectory? ==> !Supported(u, item.node))
  {
    hide SafeName;
    assert pending == pending[..|pending| - 1] + [pending[|pending| - 1]];
  }

  lemma SupportedJoined(u: Unicode, a: seq<Item>, b: seq<Item>)
    ensures AllSupported(u, a + b) <==> AllSupported(u, a) && AllSupported(u, b)
  {
    hide Supported;
    if AllSupported(u, a + b) {
      forall x | x in a ensures Supported(u, x.node) { assert x in a + b; }
      forall x | x in b ensures Supported(u, x.node) { assert x in a + b; }
    }
  }

  // ----- what is offered is accepted -----

  /** The components of every entry of a listing, in the same order as `Preorder`. */
  ghost function Paths(item: Item, prefix: seq<string>): seq<seq<string>>
    decreases item.node, 1, 0
  {
    var path := prefix + [item.name];
    [path] + (if item.node.Directory? then PathsFrom(item.node, 0, ItemPath(item), path) else [])
  }

  ghost function PathsFrom(directory: Node, first: nat, parent: string, prefix: seq<string>): seq<seq<string>>
    requires directory.Directory? && first <= |directory.children|
    decreases directory, 0, |directory.children| - first
  {
    if first == |directory.children| then []
    else
      var child := directory.children[first];
      Paths(Item(child.node, child.name.GetOr(""), Some(parent)), prefix) +
        PathsFrom(directory, first + 1, parent, prefix)
  }

  /** A file's name and relative path spell out these components. */
  ghost predicate Spells(u: Unicode, f: LocalFile, path: seq<string>) {
    && path != [] && AllSafe(u, path)
    && f.name == path[|path| - 1]
    && f.relativePath == (if |path| == 1 then None else Some(Join(path[..|path| - 1])))
  }

  ghost predicate HasDirectory(files: seq<LocalFile>, paths: seq<seq<string>>, path: seq<string>)
    requires |files| == |paths|
  {
    exists k | 0 <= k < |files| :: files[k].directory && paths[k] == path
  }

  /** Every entry is spelled by its components, and every ancestor deeper than `depth` is a listed directory. */
  ghost predicate WellPlaced(u: Unicode, files: seq<LocalFile>, paths: seq<seq<string>>, depth: nat) {
    && |files| == |paths|
    && (forall k | 0 <= k < |files| :: Spells(u, files[k], paths[k]))
    && (forall k, m | 0 <= k < |files| && depth < m < |paths[k]| :: HasDirectory(files, paths, paths[k][..m]))
  }

  ghost predicate AllBelow(paths: seq<seq<string>>, prefix: seq<string>) {
    forall k | 0 <= k < |paths| :: |prefix| < |paths[k]| && paths[k][..|prefix|] == prefix
  }

  lemma PlacedJoined(u: Unicode, files: seq<LocalFile>, paths: seq<seq<string>>, files': seq<LocalFile>,
                     paths': seq<seq<string>>, depth: nat)
    requires WellPlaced(u, files, paths, depth) && WellPlaced(u, files', paths', depth)
    ensures WellPlaced(u, files + files', paths + paths', depth)
  {
    hide Spells;
    var all, allPaths := files + files', paths + paths';
    forall k, m | 0 <= k < |all| && depth < m < |allPaths[k]| ensures HasDirectory(all, allPaths, allPaths[k][..m]) {
      if k < |files| {
        assert HasDirectory(files, paths, paths[k][..m]);
        var j :| 0 <= j < |files| && files[j].directory && paths[j] == paths[k][..m];
        assert all[j].directory && allPaths[j] == allPaths[k][..m];
      } else {
        var k' := k - |files|;
        assert HasDirectory(files', paths', paths'[k'][..m]);
        var j :| 0 <= j < |files'| && files'[j].directory && paths'[j] == paths'[k'][..m];
        assert all[|files| + j].directory && allPaths[|files| + j] == allPaths[k][..m];
      }
    }
  }

  /** A directory entry supplies the one ancestor its contents still lack. */
  lemma PlacedUnder(u: Unicode, directory: LocalFile, path: seq<string>, files: seq<LocalFile>, paths: seq<seq<string>>)
    requires directory.directory && Spells(u, directory, path)
    requires WellPlaced(u, files, paths, |path|) && AllBelow(paths, path)
    ensures WellPlaced(u, [directory] + files, [path] + paths, |path| - 1)
  {
    hide Spells;
    var all, allPaths := [directory] + files, [path] + paths;
    forall k, m | 0 <= k < |all| && |path| - 1 < m < |allPaths[k]|
      ensures HasDirectory(all, allPaths, allPaths[k][..m])
    {
      if k > 0 {
        if m == |path| {
          assert all[0].directory && allPaths[0] == allPaths[k][..m];
        } else {
          assert HasDirectory(files, paths, paths[k - 1][..m]);
          var j :| 0 <= j < |files| && files[j].directory && paths[j] == paths[k - 1][..m];
          assert all[j + 1].directory && allPaths[j + 1] == allPaths[k][..m];
        }
      }
    }
  }

  ghost predicate Reached(u: Unicode, item: Item, prefix: seq<string>) {
    && AllSafe(u, prefix) && SafeName(u, item.name) && Supported(u, item.node)
    && item.relativePath == (if prefix == [] then None else Some(Join(prefix)))
  }

  lemma ReachedSpells(u: Unicode, item: Item, prefix: seq<string>)
    requires Reached(u, item, prefix)
    ensures Spells(u, FileOf(item), prefix + [item.name])
    ensures ItemPath(item) == Join(prefix + [item.name])
    ensures AllSafe(u, prefix + [item.name])
  {
    hide SafeName, Supported;
    var path := prefix + [item.name];
    assert path[..|path| - 1] == prefix;
    if prefix != [] {
      JoinNotEmpty(u, prefix);
    }
  }

  lemma {:induction false} PreorderPlaced(u: Unicode, item: Item, prefix: seq<string>)
    requires Reached(u, item, prefix)
    ensures WellPlaced(u, Preorder(item), Paths(item, prefix), |prefix|) && AllBelow(Paths(item, prefix), prefix)
    decreases item.node, 1, 0
  {
    hide SafeName, HasDirectory, Spells;
    var path := prefix + [item.name];
    ReachedSpells(u, item, prefix);
    if item.node.Directory? {
      PreorderFromPlaced(u, item.node, 0, ItemPath(item), path);
      PlacedUnder(u, FileOf(item), path, PreorderFrom(item.node, 0, ItemPath(item)),
        PathsFrom(item.node, 0, ItemPath(item), path));
      var paths := PathsFrom(item.node, 0, ItemPath(item), path);
      forall k | 0 <= k < |paths| ensures |prefix| < |paths[k]| && paths[k][..|prefix|] == prefix {
        assert paths[k][..|path|] == path;
        assert paths[k][..|prefix|] == paths[k][..|path|][..|prefix|];
      }
    }
  }

  lemma {:induction false} PreorderFromPlaced(u: Unicode, directory: Node, first: nat, parent: string,
                                              prefix: seq<string>)
    requires directory.Directory? && first <= |directory.children| && SupportedFrom(u, directory, first)
    requires prefix != [] && AllSafe(u, prefix) && parent == Join(prefix)
    ensures WellPlaced(u, PreorderFrom(directory, first, parent), PathsFrom(directory, first, parent, prefix), |prefix|)
    ensures AllBelow(PathsFrom(directory, first, parent, prefix), prefix)
    decreases directory, 0, |directory.children| - first
  {
    hide SafeName, HasDirectory, Spells;
    if first < |directory.children| {
      var child := directory.children[first];
      var item := Item(child.node, child.name.GetOr(""), Some(parent));
      PreorderPlaced(u, item, prefix);
      PreorderFromPlaced(u, directory, first + 1, parent, prefix);
      PlacedJoined(u, Preorder(item), Paths(item, prefix),
                   PreorderFrom(directory, first + 1, parent), PathsFrom(directory, first + 1, parent, prefix),
                     |prefix|);
    }
  }

  ghost function AllPaths(items: seq<Item>): seq<seq<string>> {
    if items == [] then [] else Paths(items[|items| - 1], []) + AllPaths(items[..|items| - 1])
  }

  lemma {:induction false} FlattenPlaced(u: Unicode, items: seq<Item>)
    requires forall item | item in items :: Reached(u, item, [])
    ensures WellPlaced(u, Flatten(items), AllPaths(items), 0)
  {
    hide Reached, HasDirectory, Spells;
    if items != [] {
      var last := items[|items| - 1];
      assert last in items;
      PreorderPlaced(u, last, []);
      FlattenPlaced(u, items[..|items| - 1]);
      PlacedJoined(u, Preorder(last), Paths(last, []), Flatten(items[..|items| - 1]), AllPaths(items[..|items| - 1]),
        0);
    }
  }

  lemma SpelledPath(u: Unicode, f: LocalFile, path: seq<string>)
    requires Spells(u, f, path)
    ensures FilePath(f) == Join(path)
  {
    if |path| > 1 {
      JoinNotEmpty(u, path[..|path| - 1]);
    }
  }

  /** The receiver recovers exactly the components the walk went through. */
  lemma SpelledComponents(u: Unicode, f: LocalFile, path: seq<string>)
    requires Spells(u, f, path) && |f.content| <= MAX_FILE_SIZE
    requires u.utf16Units(Join(path)) <= MAX_PATH_UNITS
    requires |path| > 1 ==> u.utf16Units(Join(path[..|path| - 1])) <= MAX_PATH_UNITS
    ensures Components(u, DescriptorOf(f)) == Some(path)
  {
    hide SafeName, Join, Split;
    var parent := path[..|path| - 1];
    assert path == parent + [f.name];
    assert SafeName(u, path[|path| - 1]);
    if |path| > 1 {
      JoinNotEmpty(u, parent);
      SplitJoin(u, parent);
    }
  }

  lemma {:induction false} AnnouncedIsContent(files: seq<LocalFile>)
    requires forall f | f in files :: |f.content| <= MAX_FILE_SIZE && (f.directory ==> f.content == [])
    ensures TotalAnnounced(DescriptorsOf(files)) == TotalContent(files)
  {
    if files != [] {
      var n := |files| - 1;
      AnnouncedIsContent(files[..n]);
      assert DescriptorsOf(files)[..n] == DescriptorsOf(files[..n]);
    }
  }

  lemma {:induction false} DirectoriesAreEmpty(item: Item)
    ensures forall f | f in Preorder(item) :: f.directory ==> f.content == []
    decreases item.node, 1, 0
  {
    if item.node.Directory? {
      DirectoriesAreEmptyFrom(item.node, 0, ItemPath(item));
    }
  }

  lemma {:induction false} DirectoriesAreEmptyFrom(directory: Node, first: nat, parent: string)
    requires directory.Directory? && first <= |directory.children|
    ensures forall f | f in PreorderFrom(directory, first, parent) :: f.directory ==> f.content == []
    decreases directory, 0, |directory.children| - first
  {
    if first < |directory.children| {
      var child := directory.children[first];
      DirectoriesAreEmpty(Item(child.node, child.name.GetOr(""), Some(parent)));
      DirectoriesAreEmptyFrom(directory, first + 1, parent);
    }
  }

  lemma {:induction false} ListedDirectoriesAreEmpty(items: seq<Item>)
    ensures forall f | f in Flatten(items) :: f.directory ==> f.content == []
  {
    if items != [] {
      DirectoriesAreEmpty(items[|items| - 1]);
      ListedDirectoriesAreEmpty(items[..|items| - 1]);
    }
  }

  /** What one client offers, another accepts: every listing the walk returns passes all of the receiver's checks. */
  lemma OfferIsAcceptable(u: Unicode, roots: seq<Root>)
    requires Offerable(u, roots)
    ensures var files := Flatten(RootItems(roots));
            && (forall f | f in files :: |f.content| <= MAX_FILE_SIZE && (f.directory ==> f.content == []))
            && Acceptable(u, DescriptorsOf(files))
  {
    hide SafeName, Supported, Flatten, Spells;
    var items := RootItems(roots);
    var files := Flatten(items);
    forall item | item in items ensures Reached(u, item, []) {
      var i :| 0 <= i < |items| && items[i] == item;
      assert roots[i] in roots;
    }
    FlattenPlaced(u, items);
    ListedDirectoriesAreEmpty(items);
    NonEmptyListing(items);
    PlacedIsAcceptable(u, files, AllPaths(items));
  }

  lemma NonEmptyListing(items: seq<Item>)
    requires items != []
    ensures Flatten(items) != []
  {
  }

  lemma PlacedIsAcceptable(u: Unicode, files: seq<LocalFile>, paths: seq<seq<string>>)
    requires files != [] && ListingOk(u, files) && WellPlaced(u, files, paths, 0)
    requires forall f | f in files :: f.directory ==> f.content == []
    ensures Acceptable(u, DescriptorsOf(files))
  {
    forall k | 0 <= k < |files|
      ensures Components(u, DescriptorOf(files[k])) == Some(paths[k]) && FilePath(files[k]) == Join(paths[k])
    {
      PlacedComponents(u, files, paths, k);
    }
    hide SafeName, Spells, Components, HasDirectory, SizesBounded, DistinctPaths, NothingBelowFiles, WellPlaced,
      FilePath, TotalContent;
    var descriptors := DescriptorsOf(files);
    assert |paths| == |files| by { PlacedLength(u, files, paths); }
    PathsDecide(u, descriptors, paths);
    PlacedSizes(u, files);
    PlacedDistinct(u, files, paths);
    forall i, j, depth | 0 <= i < |files| && 0 <= j < |files| && 1 <= depth < |paths[i]| && !files[j].directory
      ensures FoldedPath(u, paths[i][..depth]) != FoldedPath(u, paths[j])
    {
      PlacedClear(u, files, paths, i, j, depth);
    }
  }

  lemma PlacedLength(u: Unicode, files: seq<LocalFile>, paths: seq<seq<string>>)
    requires WellPlaced(u, files, paths, 0)
    ensures |paths| == |files|
  {
  }

  lemma PlacedSizes(u: Unicode, files: seq<LocalFile>)
    requires ListingOk(u, files) && forall f | f in files :: f.directory ==> f.content == []
    ensures SizesBounded(DescriptorsOf(files))
  {
    hide FilePath, TotalContent, TotalAnnounced;
    AnnouncedIsContent(files);
  }

  lemma PlacedDistinct(u: Unicode, files: seq<LocalFile>, paths: seq<seq<string>>)
    requires ListingOk(u, files) && |paths| == |files|
             && forall k | 0 <= k < |files| :: FilePath(files[k]) == Join(paths[k])
    ensures FoldedDistinct(u, paths)
  {
    hide FilePath, TotalContent, Join;
    forall i, j | 0 <= i < j < |paths| ensures FoldedPath(u, paths[i]) != FoldedPath(u, paths[j]) {
      assert u.lower(FilePath(files[i])) != u.lower(FilePath(files[j]));
    }
  }

  lemma PlacedClear(u: Unicode, files: seq<LocalFile>, paths: seq<seq<string>>, i: nat, j: nat, depth: nat)
    requires ListingOk(u, files) && WellPlaced(u, files, paths, 0)
    requires forall k | 0 <= k < |files| :: FilePath(files[k]) == Join(paths[k])
    requires i < |files| && j < |files| && 1 <= depth < |paths[i]| && !files[j].directory
    ensures FoldedPath(u, paths[i][..depth]) != FoldedPath(u, paths[j])
  {
    hide FilePath, WellPlaced, ListingOk, Join;
    var k := PlacedAncestor(u, files, paths, i, depth);
    ListedApart(u, files, k, j);
  }

  lemma ListedApart(u: Unicode, files: seq<LocalFile>, i: nat, j: nat)
    requires ListingOk(u, files) && i < |files| && j < |files| && i != j
    ensures u.lower(FilePath(files[i])) != u.lower(FilePath(files[j]))
  {
  }

  lemma PlacedAncestor(u: Unicode, files: seq<LocalFile>, paths: seq<seq<string>>, i: nat, depth: nat) returns (k: nat)
    requires WellPlaced(u, files, paths, 0) && i < |files| && 1 <= depth < |paths[i]|
    ensures k < |files| == |paths| && files[k].directory && paths[k] == paths[i][..depth]
  {
    hide Spells;
    assert HasDirectory(files, paths, paths[i][..depth]);
    k :| 0 <= k < |files| && files[k].directory && paths[k] == paths[i][..depth];
  }

  ghost predicate PathsAre(u: Unicode, descriptors: seq<Descriptor>, paths: seq<seq<string>>) {
    |descriptors| == |paths| && forall i | 0 <= i < |descriptors| :: Components(u, descriptors[i]) == Some(paths[i])
  }

  ghost predicate FoldedDistinct(u: Unicode, paths: seq<seq<string>>) {
    forall i, j | 0 <= i < j < |paths| :: FoldedPath(u, paths[i]) != FoldedPath(u, paths[j])
  }

  ghost predicate ClearOfFiles(u: Unicode, descriptors: seq<Descriptor>, paths: seq<seq<string>>)
    requires |descriptors| == |paths|
  {
    forall i, j, depth | 0 <= i < |paths| && 0 <= j < |paths| && 1 <= depth < |paths[i]| && !descriptors[j].directory ::
      FoldedPath(u, paths[i][..depth]) != FoldedPath(u, paths[j])
  }

  /** Once the components are known, acceptability is a statement about them. */
  lemma PathsDecide(u: Unicode, descriptors: seq<Descriptor>, paths: seq<seq<string>>)
    requires PathsAre(u, descriptors, paths)
    ensures AllNamed(u, descriptors)
    ensures DistinctPaths(u, descriptors) <==> FoldedDistinct(u, paths)
    ensures NothingBelowFiles(u, descriptors) <==> ClearOfFiles(u, descriptors, paths)
  {
    hide Components, FoldedPath;
    forall d | d in descriptors ensures Components(u, d).Some? {
      var k :| 0 <= k < |descriptors| && descriptors[k] == d;
    }
    if NothingBelowFiles(u, descriptors) {
      forall i, j, depth | 0 <= i < |paths| && 0 <= j < |paths| && 1 <= depth < |paths[i]| && !descriptors[j].directory
        ensures FoldedPath(u, paths[i][..depth]) != FoldedPath(u, paths[j])
      {
        assert !BelowFile(u, descriptors, i, j, depth);
      }
    }
    if DistinctPaths(u, descriptors) {
      forall i, j | 0 <= i < j < |paths| ensures FoldedPath(u, paths[i]) != FoldedPath(u, paths[j]) {
        assert FoldedPath(u, Components(u, descriptors[i]).value) != FoldedPath(u, Components(u, descriptors[j]).value);
      }
    }
  }

  lemma PlacedComponents(u: Unicode, files: seq<LocalFile>, paths: seq<seq<string>>, k: nat)
    requires ListingOk(u, files) && WellPlaced(u, files, paths, 0) && k < |files|
    ensures |files[k].content| <= MAX_FILE_SIZE
    ensures Components(u, DescriptorOf(files[k])) == Some(paths[k]) && FilePath(files[k]) == Join(paths[k])
  {
    hide SafeName, Spells, Components;
    assert Spells(u, files[k], paths[k]);
    assert files[k] in files;
    SpelledPath(u, files[k], paths[k]);
    SpellsNonEmpty(u, files[k], paths[k]);
    if |paths[k]| > 1 {
      var parent := paths[k][..|paths[k]| - 1];
      assert HasDirectory(files, paths, parent);
      var j :| 0 <= j < |files| && files[j].directory && paths[j] == parent;
      assert Spells(u, files[j], paths[j]) && files[j] in files;
      SpelledPath(u, files[j], paths[j]);
    }
    SpelledComponents(u, files[k], paths[k]);
  }

  lemma SpellsNonEmpty(u: Unicode, f: LocalFile, path: seq<string>)
    requires Spells(u, f, path)
    ensures path != []
  {
  }

  // ----- the receiver's loops -----

  /** The checks before staging: on success, which descriptors will have their contents requested. */
  method PrepareChecks(u: Unicode, descriptors: seq<Descriptor>) returns (r: Option<seq<nat>>)
    ensures r.Some? <==> Acceptable(u, descriptors)
    ensures r.Some? ==> r.value == FileIndices(descriptors)
  {
    hide Components, FoldedPath, DistinctPaths, NothingBelowFiles, SizesBounded, FoldedDistinct, ClearOfFiles;
    if descriptors == [] || |descriptors| > MAX_FILE_COUNT {
      return None;
    }
    var paths := CheckDescriptors(u, descriptors);
    if paths.None? {
      return None;
    }
    PathsDecide(u, descriptors, paths.value);
    var clear := CheckAncestors(u, descriptors, paths.value);
    if !clear {
      return None;
    }
    r := Some(FileIndices(descriptors));
  }

  method CheckDescriptors(u: Unicode, descriptors: seq<Descriptor>) returns (paths: Option<seq<seq<string>>>)
    ensures paths.Some? <==> AllNamed(u, descriptors) && DistinctPaths(u, descriptors) && SizesBounded(descriptors)
    ensures paths.Some? ==> PathsAre(u, descriptors, paths.value)
  {
    hide Components, FoldedPath, DistinctPaths;
    var totalSize := 0;
    var wirePaths: set<string> := {};
    var all: seq<seq<string>> := [];
    for index := 0 to |descriptors|
      invariant PathsAre(u, descriptors[..index], all)
      invariant wirePaths == set p | p in all :: FoldedPath(u, p)
      invariant FoldedDistinct(u, all)
      invariant forall i | 0 <= i < index :: AnnouncedSize(descriptors[i]) <= MAX_FILE_SIZE
      invariant totalSize == TotalAnnounced(descriptors[..index]) <= MAX_TRANSFER_SIZE
    {
      var d := descriptors[index];
      assert d in descriptors;
      assert descriptors[..index + 1][..index] == descriptors[..index];
      TotalMonotone(descriptors, index + 1);
      var components := Components(u, d);
      if components.None? {
        return None;
      }
      var folded := FoldedPath(u, components.value);
      FoldedGrows(u, descriptors, all, index);
      if folded in wirePaths {
        return None;
      }
      wirePaths := wirePaths + {folded};
      if AnnouncedSize(d) > MAX_FILE_SIZE || totalSize + AnnouncedSize(d) > MAX_TRANSFER_SIZE {
        return None;
      }
      totalSize := totalSize + AnnouncedSize(d);
      all := all + [components.value];
    }
    assert descriptors[..|descriptors|] == descriptors;
    PathsDecide(u, descriptors, all);
    paths := Some(all);
  }

  lemma FoldedGrows(u: Unicode, descriptors: seq<Descriptor>, all: seq<seq<string>>, index: nat)
    requires index < |descriptors| && PathsAre(u, descriptors[..index], all) && FoldedDistinct(u, all)
    requires Components(u, descriptors[index]).Some?
    ensures var path := Components(u, descriptors[index]).value;
            var folded := FoldedPath(u, path);
            var seen := set p | p in all :: FoldedPath(u, p);
            && PathsAre(u, descriptors[..index + 1], all + [path])
            && (folded in seen ==> AllNamed(u, descriptors) ==> !DistinctPaths(u, descriptors))
            && (folded !in seen ==> FoldedDistinct(u, all + [path]))
            && (set p | p in all + [path] :: FoldedPath(u, p)) == seen + {folded}
  {
    hide Components, FoldedPath;
    var path := Components(u, descriptors[index]).value;
    assert forall p :: p in all + [path] <==> p in all || p == path;
    if p :| p in all && FoldedPath(u, p) == FoldedPath(u, path) {
      var k :| 0 <= k < |all| && all[k] == p;
      assert descriptors[..index][k] == descriptors[k];
      if AllNamed(u, descriptors) {
        assert FoldedPath(u, Components(u, descriptors[k]).value)
               == FoldedPath(u, Components(u, descriptors[index]).value);
      }
    }
  }

  /** The second pass, over every proper prefix of every path. */
  method CheckAncestors(u: Unicode, descriptors: seq<Descriptor>, paths: seq<seq<string>>) returns (clear: bool)
    requires |descriptors| == |paths|
    ensures clear <==> ClearOfFiles(u, descriptors, paths)
  {
    hide FoldedPath;
    var filePaths := set j | 0 <= j < |paths| && !descriptors[j].directory :: FoldedPath(u, paths[j]);
    for index := 0 to |paths|
      invariant forall i, depth | 0 <= i < index && 1 <= depth < |paths[i]| ::
                  FoldedPath(u, paths[i][..depth]) !in filePaths
    {
      if paths[index] != [] {
        for depth := 1 to |paths[index]|
          invariant forall m | 1 <= m < depth :: FoldedPath(u, paths[index][..m]) !in filePaths
        {
          if FoldedPath(u, paths[index][..depth]) in filePaths {
            return false;
          }
        }
      }
    }
    return true;
  }

  /** The positions of the regular files, in order. */
  function FileIndices(descriptors: seq<Descriptor>): seq<nat> {
    if descriptors == [] then []
    else
      var last := |descriptors| - 1;
      FileIndices(descriptors[..last]) + (if descriptors[last].directory then [] else [last])
  }

  lemma {:induction false} TotalMonotone(descriptors: seq<Descriptor>, n: nat)
    requires n <= |descriptors|
    ensures TotalAnnounced(descriptors[..n]) <= TotalAnnounced(descriptors)
    decreases |descriptors|
  {
    if n == |descriptors| {
      assert descriptors[..n] == descriptors;
    } else {
      TotalMonotone(descriptors[..|descriptors| - 1], n);
      assert descriptors[..|descriptors| - 1][..n] == descriptors[..n];
    }
  }
}
