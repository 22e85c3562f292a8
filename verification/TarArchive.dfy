/**
 * Whole archives: walking a directory tree, writing its entries and reading them
 * back (scripts/release/deterministic-tar.ts:48-98, before gzip).
 */
module TarArchive {
  import opened Common
  import opened Sorting
  import opened TarFormat

  datatype Entry = Entry(path: Bytes, directory: bool, executable: bool, content: Bytes)

  const MODE_755: nat := 493
  const MODE_644: nat := 420

  predicate WellFormed(e: Entry) {
    e.directory ==> !e.executable && e.content == []
  }

  function Padding(length: nat): nat {
    (BLOCK - length % BLOCK) % BLOCK
  }

  function EntryHeader(e: Entry): (r: Option<Bytes>)
    ensures r.Some? ==> |r.value| == BLOCK
  {
    if e.directory then Header(e.path, 0, MODE_755, DIRECTORY_TYPE)
    else Header(e.path, |e.content|, if e.executable then MODE_755 else MODE_644, FILE_TYPE)
  }

  function Body(e: Entry): Bytes {
    if e.directory then [] else e.content + Repeat(NUL, Padding(|e.content|))
  }

  /** The chunks pushed for one entry, or None when its header throws. */
  function EntryBytes(e: Entry): Option<Bytes> {
    match EntryHeader(e)
    case None => None
    case Some(header) => Some(header + Body(e))
  }

  const END: Bytes := Repeat(NUL, 2 * BLOCK)

  function Prepend(chunk: Option<Bytes>, rest: Option<Bytes>): Option<Bytes> {
    if chunk.None? || rest.None? then None else Some(chunk.value + rest.value)
  }

  function Chunks(entries: seq<Entry>): (r: seq<Option<Bytes>>)
    ensures |r| == |entries|
  {
    seq(|entries|, i requires 0 <= i < |entries| => EntryBytes(entries[i]))
  }

  /** All chunks and the end marker in one buffer. */
  function Concat(chunks: seq<Option<Bytes>>): Option<Bytes> {
    if chunks == [] then Some(END) else Prepend(chunks[0], Concat(chunks[1..]))
  }

  /** The uncompressed archive, or None when some header throws. */
  function Archive(entries: seq<Entry>): Option<Bytes> {
    Concat(Chunks(entries))
  }

  lemma PrependTwice(a: Bytes, b: Option<Bytes>, c: Option<Bytes>)
    ensures b.Some? ==> Prepend(Some(a), Prepend(b, c)) == Prepend(Some(a + b.value), c)
    ensures b.None? ==> Prepend(Some(a), Prepend(b, c)) == None
  {
    if b.Some? && c.Some? {
      assert a + (b.value + c.value) == a + b.value + c.value;
    }
  }

  method WriteEntry(e: Entry) returns (r: Option<Bytes>)
    ensures r == EntryBytes(e)
  {
    var header;
    if e.directory {
      header := BuildHeader(e.path, 0, MODE_755, DIRECTORY_TYPE);
    } else {
      header := BuildHeader(e.path, |e.content|, if e.executable then MODE_755 else MODE_644, FILE_TYPE);
    }
    if header.None? { return None; }
    return Some(header.value[..] + Body(e));
  }

  method WriteArchive(entries: seq<Entry>) returns (r: Option<Bytes>)
    ensures r == Archive(entries)
  {
    var buffer: Bytes := [];
    ghost var all := Chunks(entries);
    assert all[0..] == all;
    assert Concat(all).Some? ==> [] + Concat(all).value == Concat(all).value;
    for i := 0 to |entries|
      invariant Concat(all) == Prepend(Some(buffer), Concat(all[i..]))
    {
      assert all[i..][1..] == all[i + 1..];
      var chunk := WriteEntry(entries[i]);
      PrependTwice(buffer, chunk, Concat(all[i + 1..]));
      if chunk.None? { return None; }
      buffer := buffer + chunk.value;
    }
    return Some(buffer + END);
  }

  // ----- reading

  function EntryOf(meta: Meta, content: Bytes): Option<Entry> {
    if meta.kind == DIRECTORY_TYPE && meta.mode == MODE_755 && content == [] then
      Some(Entry(meta.path, true, false, []))
    else if meta.kind == FILE_TYPE && (meta.mode == MODE_755 || meta.mode == MODE_644) then
      Some(Entry(meta.path, false, meta.mode == MODE_755, content))
    else None
  }

  /** Read headers and bodies until an all-zero block. */
  function ReadWith(bytes: Bytes, parse: Bytes -> Option<Meta>): Option<seq<Entry>>
    decreases |bytes|
  {
    if |bytes| < BLOCK then None
    else if bytes[..BLOCK] == Repeat(NUL, BLOCK) then Some([])
    else
      match parse(bytes[..BLOCK])
      case None => None
      case Some(meta) =>
        var end := BLOCK + meta.size + Padding(meta.size);
        if |bytes| < end then None
        else
          var entry := EntryOf(meta, bytes[BLOCK..BLOCK + meta.size]);
          var rest := ReadWith(bytes[end..], parse);
          if entry.None? || rest.None? then None else Some([entry.value] + rest.value)
  }

  function ParseBlock(block: Bytes): Option<Meta> {
    if |block| == BLOCK then ParseHeader(block) else None
  }

  function ReadArchive(bytes: Bytes): Option<seq<Entry>> {
    ReadWith(bytes, ParseBlock)
  }

  // ----- reading back what was written

  function PaddedContent(e: Entry): Bytes {
    e.content + Repeat(NUL, Padding(|e.content|))
  }

  /** A parser reads this header as the announcement of this entry. */
  ghost predicate Announces(parse: Bytes -> Option<Meta>, header: Bytes, e: Entry) {
    && |header| == BLOCK && header != Repeat(NUL, BLOCK)
    && parse(header).Some?
    && parse(header).value.size == |e.content|
    && EntryOf(parse(header).value, e.content) == Some(e)
  }

  function Joined(headers: seq<Bytes>, entries: seq<Entry>): Bytes
    requires |headers| == |entries|
  {
    if entries == [] then END else headers[0] + PaddedContent(entries[0]) + Joined(headers[1..], entries[1..])
  }

  lemma ReadOne(parse: Bytes -> Option<Meta>, header: Bytes, e: Entry, rest: Bytes)
    requires Announces(parse, header, e)
    ensures ReadWith(header + PaddedContent(e) + rest, parse) ==
      if ReadWith(rest, parse).Some? then Some([e] + ReadWith(rest, parse).value) else None
  {
    var body := PaddedContent(e);
    var bytes := header + body + rest;
    assert bytes[..BLOCK] == header;
    assert bytes[BLOCK..BLOCK + |e.content|] == e.content;
    assert bytes[BLOCK + |body|..] == rest;
  }

  lemma {:induction false} JoinedReadsBack(parse: Bytes -> Option<Meta>, headers: seq<Bytes>, entries: seq<Entry>)
    requires |headers| == |entries|
    requires forall i :: 0 <= i < |entries| ==> Announces(parse, headers[i], entries[i])
    ensures ReadWith(Joined(headers, entries), parse) == Some(entries)
    decreases |entries|
  {
    if entries == [] {
      assert END[..BLOCK] == Repeat(NUL, BLOCK);
    } else {
      JoinedReadsBack(parse, headers[1..], entries[1..]);
      ReadOne(parse, headers[0], entries[0], Joined(headers[1..], entries[1..]));
      assert entries == [entries[0]] + entries[1..];
    }
  }

  /** The entry a reader finds where this one was written. */
  function AsRead(e: Entry): Entry
    requires SplitPath(e.path).Some?
  {
    e.(path := PathAsRead(e.path))
  }

  predicate Readable(e: Entry) {
    NUL !in e.path && !DropsSlash(e.path)
  }

  lemma HeaderAnnounces(e: Entry)
    requires WellFormed(e) && EntryHeader(e).Some?
    ensures SplitPath(e.path).Some? && Announces(ParseBlock, EntryHeader(e).value, AsRead(e))
    ensures AsRead(e) == e <==> Readable(e)
  {
    var mode := if e.directory || e.executable then MODE_755 else MODE_644;
    var kind := if e.directory then DIRECTORY_TYPE else FILE_TYPE;
    HeaderParses(e.path, |e.content|, mode, kind);
    HeaderIsNotZero(e.path, |e.content|, mode, kind);
  }

  lemma {:induction false} ConcatNeedsAll(chunks: seq<Option<Bytes>>, i: nat)
    requires Concat(chunks).Some? && i < |chunks|
    ensures chunks[i].Some?
  {
    if i > 0 {
      ConcatNeedsAll(chunks[1..], i - 1);
    }
  }

  lemma {:induction false} ConcatIsJoined(chunks: seq<Option<Bytes>>, headers: seq<Bytes>, entries: seq<Entry>)
    requires |chunks| == |headers| == |entries|
    requires forall i :: 0 <= i < |chunks| ==> chunks[i] == Some(headers[i] + PaddedContent(entries[i]))
    ensures Concat(chunks) == Some(Joined(headers, entries))
    decreases |chunks|
  {
    if chunks != [] {
      ConcatIsJoined(chunks[1..], headers[1..], entries[1..]);
    }
  }

  lemma PaddedLength(e: Entry)
    ensures |PaddedContent(e)| % BLOCK == 0
  {
  }

  lemma WholeBlocks(a: nat, b: nat)
    requires a % BLOCK == 0 && b % BLOCK == 0
    ensures (BLOCK + a + b) % BLOCK == 0
  {
  }

  lemma {:induction false} JoinedLength(headers: seq<Bytes>, entries: seq<Entry>)
    requires |headers| == |entries| && forall i :: 0 <= i < |headers| ==> |headers[i]| == BLOCK
    ensures |Joined(headers, entries)| % BLOCK == 0
    decreases |entries|
  {
    if entries != [] {
      JoinedLength(headers[1..], entries[1..]);
      PaddedLength(entries[0]);
      WholeBlocks(|PaddedContent(entries[0])|, |Joined(headers[1..], entries[1..])|);
    }
  }

  function HeaderOr(e: Entry): Bytes {
    if EntryHeader(e).Some? then EntryHeader(e).value else []
  }

  function Headers(entries: seq<Entry>): (r: seq<Bytes>)
    ensures |r| == |entries| && forall i :: 0 <= i < |r| ==> r[i] == HeaderOr(entries[i])
  {
    seq(|entries|, i requires 0 <= i < |entries| => HeaderOr(entries[i]))
  }

  lemma EntryPiece(e: Entry, header: Bytes, chunk: Option<Bytes>)
    requires WellFormed(e) && header == HeaderOr(e) && chunk == EntryBytes(e) && chunk.Some?
    ensures SplitPath(e.path).Some? && chunk == Some(header + PaddedContent(AsRead(e)))
    ensures Announces(ParseBlock, header, AsRead(e)) && (AsRead(e) == e <==> Readable(e))
  {
    HeaderAnnounces(e);
    BodyIsPadded(e);
  }

  lemma BodyIsPadded(e: Entry)
    requires WellFormed(e)
    ensures Body(e) == PaddedContent(e)
  {
  }

  function AllAsRead(entries: seq<Entry>): (r: seq<Entry>)
    requires forall i :: 0 <= i < |entries| ==> SplitPath(entries[i].path).Some?
    ensures |r| == |entries| && forall i :: 0 <= i < |r| ==> r[i] == AsRead(entries[i])
  {
    seq(|entries|, i requires 0 <= i < |entries| => AsRead(entries[i]))
  }

  predicate Accepted(entries: seq<Entry>) {
    Archive(entries).Some? && forall i :: 0 <= i < |entries| ==> WellFormed(entries[i])
  }

  lemma AcceptedEntry(entries: seq<Entry>, i: nat)
    requires Accepted(entries) && i < |entries|
    ensures SplitPath(entries[i].path).Some? && (AsRead(entries[i]) == entries[i] <==> Readable(entries[i]))
    ensures Chunks(entries)[i] == Some(Headers(entries)[i] + PaddedContent(AsRead(entries[i])))
    ensures Announces(ParseBlock, Headers(entries)[i], AsRead(entries[i]))
  {
    ConcatNeedsAll(Chunks(entries), i);
    EntryPiece(entries[i], Headers(entries)[i], Chunks(entries)[i]);
  }

  /** Whatever its paths, an archive reads back as its entries with the paths a reader finds. */
  lemma ArchiveIsRead(entries: seq<Entry>)
    requires Accepted(entries)
    ensures forall i :: 0 <= i < |entries| ==> SplitPath(entries[i].path).Some?
    ensures ReadArchive(Archive(entries).value) == Some(AllAsRead(entries))
    ensures |Archive(entries).value| % BLOCK == 0
  {
    forall i | 0 <= i < |entries| ensures SplitPath(entries[i].path).Some? {
      AcceptedEntry(entries, i);
    }
    var chunks, headers, read := Chunks(entries), Headers(entries), AllAsRead(entries);
    forall i | 0 <= i < |entries|
      ensures chunks[i] == Some(headers[i] + PaddedContent(read[i]))
      ensures Announces(ParseBlock, headers[i], read[i])
    {
      AcceptedEntry(entries, i);
    }
    ConcatIsJoined(chunks, headers, read);
    JoinedReadsBack(ParseBlock, headers, read);
    JoinedLength(headers, read);
  }

  /**
   * Reading back an archive yields exactly the entries written if and only if
   * no path has a NUL or the dropped-slash shape; its length is a whole number
   * of blocks.
   */
  lemma ArchiveReadsBack(entries: seq<Entry>)
    requires Accepted(entries)
    ensures ReadArchive(Archive(entries).value) == Some(entries) <==>
      forall i :: 0 <= i < |entries| ==> Readable(entries[i])
    ensures |Archive(entries).value| % BLOCK == 0
  {
    ArchiveIsRead(entries);
    var read := AllAsRead(entries);
    forall i | 0 <= i < |entries| ensures read[i] == entries[i] <==> Readable(entries[i]) {
      AcceptedEntry(entries, i);
    }
    if read == entries {
      forall i | 0 <= i < |entries| ensures Readable(entries[i]) {
        assert read[i] == entries[i];
      }
    }
  }

  // ----- sizes, modes and the end of the archive

  /** The text of a mode field, digit by digit. */
  function ModeText(a: byte, b: byte, c: byte): Bytes {
    [0x30, 0x30, 0x30, 0x30, a, b, c, 0]
  }

  lemma ModesAreWritten()
    ensures OctalField(MODE_755, 8) == Some(ModeText(0x37, 0x35, 0x35))
    ensures OctalField(MODE_644, 8) == Some(ModeText(0x36, 0x34, 0x34))
  {
    assert OctalDigits(7) == [0x37] && OctalDigits(61) == [0x37, 0x35] && OctalDigits(493) == [0x37, 0x35, 0x35];
    assert OctalDigits(6) == [0x36] && OctalDigits(52) == [0x36, 0x34] && OctalDigits(420) == [0x36, 0x34, 0x34];
    assert Repeat(DIGIT0, 4) + [0x37, 0x35, 0x35] + [NUL] == ModeText(0x37, 0x35, 0x35);
    assert Repeat(DIGIT0, 4) + [0x36, 0x34, 0x34] + [NUL] == ModeText(0x36, 0x34, 0x34);
  }

  /** Directories are type 5 with mode 755; files are type 0 with mode 755 if executable and 644 otherwise. */
  lemma EntryHeaderSays(e: Entry)
    requires EntryHeader(e).Some?
    ensures var block := EntryHeader(e).value;
      && block[156] == (if e.directory then 0x35 else 0x30)
      && block[100..108] ==
           if e.directory || e.executable then ModeText(0x37, 0x35, 0x35) else ModeText(0x36, 0x34, 0x34)
  {
    var mode := if e.directory || e.executable then MODE_755 else MODE_644;
    var kind := if e.directory then DIRECTORY_TYPE else FILE_TYPE;
    ModesAreWritten();
    HeaderModeAndKind(e.path, if e.directory then 0 else |e.content|, mode, kind);
  }

  lemma HeaderModeAndKind(path: Bytes, size: nat, mode: nat, kind: byte)
    requires Header(path, size, mode, kind).Some?
    ensures var block := Header(path, size, mode, kind).value;
      block[156] == kind && OctalField(mode, 8) == Some(block[100..108])
  {
    var f := HeaderFields(path, size, mode, kind).value;
    HeaderFieldsSized(path, size, mode, kind);
    ChecksumFits(Layout(f));
    LayoutFields(f.(check := ChecksumField(Sum(Layout(f)))));
  }

  /** Whole blocks: one for the header, and as many as the content needs. */
  function TotalBlocks(entries: seq<Entry>): nat {
    if entries == [] then 0
    else 1 + (if entries[0].directory then 0 else (|entries[0].content| + 511) / 512) + TotalBlocks(entries[1..])
  }

  lemma EntryLength(e: Entry)
    requires EntryBytes(e).Some?
    ensures |EntryBytes(e).value| == 512 * (1 + (if e.directory then 0 else (|e.content| + 511) / 512))
  {
    PaddedBlocks(|e.content|);
  }

  lemma PaddedBlocks(n: nat)
    ensures n + Padding(n) == 512 * ((n + 511) / 512)
  {
    var q, r := n / 512, n % 512;
    assert n == 512 * q + r;
    if r == 0 {
      assert (n + 511) / 512 == q;
    } else {
      assert (n + 511) / 512 == q + 1;
    }
  }

  /** An archive is as short as its contents allow and ends with two empty blocks. */
  lemma {:induction false} ArchiveEnds(entries: seq<Entry>)
    requires Archive(entries).Some?
    ensures var bytes := Archive(entries).value;
      && |bytes| == 512 * TotalBlocks(entries) + 1024
      && forall i :: 512 * TotalBlocks(entries) <= i < |bytes| ==> bytes[i] == 0
  {
    if entries != [] {
      var chunks := Chunks(entries);
      assert chunks[1..] == Chunks(entries[1..]);
      ArchiveEnds(entries[1..]);
      EntryLength(entries[0]);
      var bytes, first, rest := Archive(entries).value, EntryBytes(entries[0]).value, Archive(entries[1..]).value;
      assert bytes == first + rest;
      assert |first| + 512 * TotalBlocks(entries[1..]) == 512 * TotalBlocks(entries);
      forall i | 512 * TotalBlocks(entries) <= i < |bytes| ensures bytes[i] == 0 {
        assert bytes[i] == rest[i - |first|];
      }
    }
  }

  // ----- walking the tree

  /** A directory lists its children in whatever order the file system returns them. */
  datatype Node = File(content: Bytes, executable: bool) | Directory(children: seq<Child>) | Special

  datatype Child = Child(name: Bytes, node: Node)

  const BACKSLASH: byte := 0x5C

  function NameOf(): Child -> Bytes {
    (c: Child) => c.name
  }

  /** The relative path with backslashes turned into slashes. */
  function Slashed(s: Bytes): Bytes {
    seq(|s|, i requires 0 <= i < |s| => if s[i] == BACKSLASH then SLASH else s[i])
  }

  function SortedChildren(children: seq<Child>, leq: (Bytes, Bytes) -> bool): (r: seq<Child>)
    ensures forall c :: c in r ==> c in children
  {
    var r := Sort(children, NameOf(), leq);
    SameMembers(r, children);
    r
  }

  /** The entries below one directory, or None when something unsupported is found. */
  function Visit(node: Node, path: Bytes, leq: (Bytes, Bytes) -> bool): Option<seq<Entry>>
    decreases node, 1, 0
  {
    if !node.Directory? then None
    else VisitAll(node, SortedChildren(node.children, leq), path, leq)
  }

  function VisitAll(ghost parent: Node, children: seq<Child>, path: Bytes, leq: (Bytes, Bytes) -> bool)
    : Option<seq<Entry>>
    requires parent.Directory? && forall c :: c in children ==> c in parent.children
    decreases parent, 0, |children|
  {
    if children == [] then Some([])
    else
      var c := children[0];
      assert c in parent.children;
      var here := ChildPath(path, c);
      FirstThen(Pushed(c.node, here, Visit(c.node, here, leq)), VisitAll(parent, children[1..], path, leq))
  }

  /** What one child pushes: itself, and for a directory what is below it. */
  function Pushed(node: Node, here: Bytes, below: Option<seq<Entry>>): Option<seq<Entry>> {
    match node
    case Special => None
    case File(content, executable) => Some([Entry(here, false, executable, content)])
    case Directory(_) =>
      if below.None? then None else Some([Entry(here + [SLASH], true, false, [])] + below.value)
  }

  function FirstThen(first: Option<seq<Entry>>, rest: Option<seq<Entry>>): Option<seq<Entry>> {
    if first.None? || rest.None? then None else Some(first.value + rest.value)
  }

  function ChildPath(path: Bytes, c: Child): Bytes {
    path + [SLASH] + Slashed(c.name)
  }

  function Entries(root: Node, prefix: Bytes, leq: (Bytes, Bytes) -> bool): Option<seq<Entry>> {
    match Visit(root, prefix, leq)
    case None => None
    case Some(below) => Some([Entry(prefix + [SLASH], true, false, [])] + below)
  }

  /** No directory lists a name twice. */
  ghost predicate UniqueNames(node: Node) {
    node.Directory? ==>
      && DistinctKeys(node.children, NameOf())
      && forall c :: c in node.children ==> UniqueNames(c.node)
  }

  /** The same tree, each directory listed in any order. */
  ghost predicate SameTree(a: Node, b: Node) {
    match a
    case Special => b.Special?
    case File(_, _) => a == b
    case Directory(children) =>
      && b.Directory?
      && multiset(Keys(children, NameOf())) == multiset(Keys(b.children, NameOf()))
      && forall x, y :: x in children && y in b.children && x.name == y.name ==> SameTree(x.node, y.node)
  }

  /** Entry lists agree child by child when names agree and children are the same trees. */
  lemma {:induction false} SameVisitAll(
    a: Node, b: Node, xs: seq<Child>, ys: seq<Child>, path: Bytes, leq: (Bytes, Bytes) -> bool)
    requires TotalOrder(leq) && a.Directory? && b.Directory?
    requires UniqueNames(a) && UniqueNames(b) && SameTree(a, b)
    requires forall c :: c in xs ==> c in a.children
    requires forall c :: c in ys ==> c in b.children
    requires |xs| == |ys| && forall i :: 0 <= i < |xs| ==> xs[i].name == ys[i].name
    ensures VisitAll(a, xs, path, leq) == VisitAll(b, ys, path, leq)
    decreases a, 0, |xs|
  {
    if xs != [] {
      var x, y := xs[0], ys[0];
      assert x in a.children && y in b.children;
      SameVisitAll(a, b, xs[1..], ys[1..], path, leq);
      ChildrenAreSame(a, b, x, y);
      SameVisit(x.node, y.node, ChildPath(path, x), leq);
      SamePushed(x.node, y.node, ChildPath(path, x), Visit(x.node, ChildPath(path, x), leq));
    }
  }

  lemma ChildrenAreSame(a: Node, b: Node, x: Child, y: Child)
    requires a.Directory? && b.Directory? && UniqueNames(a) && UniqueNames(b) && SameTree(a, b)
    requires x in a.children && y in b.children && x.name == y.name
    ensures UniqueNames(x.node) && UniqueNames(y.node) && SameTree(x.node, y.node)
  {
  }

  lemma SamePushed(a: Node, b: Node, here: Bytes, below: Option<seq<Entry>>)
    requires SameTree(a, b)
    ensures Pushed(a, here, below) == Pushed(b, here, below)
  {
  }

  /** The order in which directories list their children does not affect the entries. */
  lemma {:induction false} SameVisit(a: Node, b: Node, path: Bytes, leq: (Bytes, Bytes) -> bool)
    requires TotalOrder(leq) && UniqueNames(a) && UniqueNames(b) && SameTree(a, b)
    ensures Visit(a, path, leq) == Visit(b, path, leq)
    decreases a, 1, 0
  {
    if a.Directory? {
      var xs, ys := SortedChildren(a.children, leq), SortedChildren(b.children, leq);
      SortedKeysAgree(a.children, b.children, NameOf(), leq);
      SameVisitAll(a, b, xs, ys, path, leq);
    }
  }

  // ----- the entries are the tree

  /** Following these names from `node` leads to `target`. */
  ghost predicate Leads(node: Node, names: seq<Bytes>, target: Node)
    decreases |names|
  {
    if names == [] then node == target
    else node.Directory? && exists c :: c in node.children && c.name == names[0] && Leads(c.node, names[1..], target)
  }

  function PathText(path: Bytes, names: seq<Bytes>): Bytes
    decreases |names|
  {
    if names == [] then path else PathText(path + [SLASH] + Slashed(names[0]), names[1..])
  }

  /** What the archive says of a file or directory at this path. */
  predicate Describes(e: Entry, path: Bytes, target: Node) {
    match target
    case Special => false
    case File(content, executable) => e == Entry(path, false, executable, content)
    case Directory(_) => e == Entry(path + [SLASH], true, false, [])
  }

  predicate Described(entries: seq<Entry>, path: Bytes, target: Node) {
    exists e :: e in entries && Describes(e, path, target)
  }

  /** Something below `node`, at `path`, that this entry describes. */
  ghost predicate Found(node: Node, path: Bytes, e: Entry) {
    exists names, target :: names != [] && Leads(node, names, target) && Describes(e, PathText(path, names), target)
  }

  /** Every file and directory of a tree that can be archived has its entry. */
  lemma {:induction false} VisitComplete(
    node: Node, path: Bytes, names: seq<Bytes>, target: Node, leq: (Bytes, Bytes) -> bool)
    requires Visit(node, path, leq).Some? && names != [] && Leads(node, names, target)
    ensures Described(Visit(node, path, leq).value, PathText(path, names), target)
    decreases node, 1, 0
  {
    var c :| c in node.children && c.name == names[0] && Leads(c.node, names[1..], target);
    var sorted := SortedChildren(node.children, leq);
    SameMembers(Sort(node.children, NameOf(), leq), node.children);
    VisitAllComplete(node, sorted, path, c, names[1..], target, leq);
  }

  lemma {:induction false} VisitAllComplete(
    parent: Node, children: seq<Child>, path: Bytes, c: Child, names: seq<Bytes>, target: Node,
    leq: (Bytes, Bytes) -> bool)
    requires parent.Directory? && forall x :: x in children ==> x in parent.children
    requires VisitAll(parent, children, path, leq).Some? && c in children && Leads(c.node, names, target)
    ensures Described(VisitAll(parent, children, path, leq).value, PathText(ChildPath(path, c), names), target)
    decreases parent, 0, |children|
  {
    var all := VisitAll(parent, children, path, leq).value;
    if c == children[0] {
      if names == [] {
        assert all[0] in all && Describes(all[0], ChildPath(path, c), target);
      } else {
        assert c in parent.children;
        VisitComplete(c.node, ChildPath(path, c), names, target, leq);
        var e :| e in Visit(c.node, ChildPath(path, c), leq).value
          && Describes(e, PathText(ChildPath(path, c), names), target);
        assert e in all;
      }
    } else {
      VisitAllComplete(parent, children[1..], path, c, names, target, leq);
      var e :| e in VisitAll(parent, children[1..], path, leq).value
        && Describes(e, PathText(ChildPath(path, c), names), target);
      assert e in all;
    }
  }

  /** Every entry describes something in the tree. */
  lemma {:induction false} VisitSound(node: Node, path: Bytes, e: Entry, leq: (Bytes, Bytes) -> bool)
    requires Visit(node, path, leq).Some? && e in Visit(node, path, leq).value
    ensures Found(node, path, e)
    decreases node, 1, 0
  {
    VisitAllSound(node, SortedChildren(node.children, leq), path, e, leq);
  }

  lemma FoundBelow(parent: Node, path: Bytes, c: Child, names: seq<Bytes>, target: Node, e: Entry)
    requires parent.Directory? && c in parent.children && Leads(c.node, names, target)
    requires Describes(e, PathText(ChildPath(path, c), names), target)
    ensures Found(parent, path, e)
  {
    var more := [c.name] + names;
    assert more[1..] == names;
    assert Leads(parent, more, target);
    assert PathText(path, more) == PathText(ChildPath(path, c), names);
  }

  lemma {:induction false} VisitAllSound(
    parent: Node, children: seq<Child>, path: Bytes, e: Entry, leq: (Bytes, Bytes) -> bool)
    requires parent.Directory? && forall x :: x in children ==> x in parent.children
    requires VisitAll(parent, children, path, leq).Some? && e in VisitAll(parent, children, path, leq).value
    ensures Found(parent, path, e)
    decreases parent, 0, |children|
  {
    var c := children[0];
    assert c in parent.children;
    if e in VisitAll(parent, children[1..], path, leq).value {
      VisitAllSound(parent, children[1..], path, e, leq);
    } else if Describes(e, ChildPath(path, c), c.node) {
      FoundBelow(parent, path, c, [], c.node, e);
    } else {
      VisitSound(c.node, ChildPath(path, c), e, leq);
      var names, target :| names != [] && Leads(c.node, names, target)
        && Describes(e, PathText(ChildPath(path, c), names), target);
      FoundBelow(parent, path, c, names, target, e);
    }
  }

  /** The archive holds exactly the root and one entry for everything the tree leads to. */
  lemma EntriesAreTheTree(root: Node, prefix: Bytes, leq: (Bytes, Bytes) -> bool, e: Entry)
    requires Entries(root, prefix, leq).Some?
    ensures e in Entries(root, prefix, leq).value <==>
      Describes(e, prefix, root) || Found(root, prefix, e)
  {
    var below := Visit(root, prefix, leq).value;
    if e in below {
      VisitSound(root, prefix, e, leq);
    }
    if Found(root, prefix, e) {
      var names, target :| names != [] && Leads(root, names, target) && Describes(e, PathText(prefix, names), target);
      VisitComplete(root, prefix, names, target, leq);
    }
  }

  /** So equal trees give byte-identical archives. */
  lemma ListingOrderIsIrrelevant(a: Node, b: Node, prefix: Bytes, leq: (Bytes, Bytes) -> bool)
    requires TotalOrder(leq) && UniqueNames(a) && UniqueNames(b) && SameTree(a, b)
    ensures Entries(a, prefix, leq) == Entries(b, prefix, leq)
    ensures Entries(a, prefix, leq).Some? ==>
      Archive(Entries(a, prefix, leq).value) == Archive(Entries(b, prefix, leq).value)
  {
    SameVisit(a, b, prefix, leq);
  }

  // ----- the order of the entries

  const NAME_A: Bytes := [0x61]
  const NAME_B: Bytes := [0x62]
  const NAME_C: Bytes := [0x63]

  /** A directory that lists a file b before a directory a with a file c in it. */
  const SMALL_TREE := Directory([
    Child(NAME_B, File([1], true)), Child(NAME_A, Directory([Child(NAME_C, File([2], false))]))])

  /** Names are visited in order, and a directory comes before what is in it. */
  lemma SmallTreeInOrder(prefix: Bytes, leq: (Bytes, Bytes) -> bool)
    requires leq(NAME_A, NAME_B) && !leq(NAME_B, NAME_A)
    ensures Entries(SMALL_TREE, prefix, leq) == Some([
      Entry(prefix + [0x2F], true, false, []),
      Entry(prefix + [0x2F, 0x61, 0x2F], true, false, []),
      Entry(prefix + [0x2F, 0x61, 0x2F, 0x63], false, false, [2]),
      Entry(prefix + [0x2F, 0x62], false, true, [1])])
  {
    var b, a := SMALL_TREE.children[0], SMALL_TREE.children[1];
    assert SMALL_TREE.children == [b, a];
    SmallSort(b, a, leq);
    LeafIsVisited(SMALL_TREE, b, prefix, leq);
    InnerTree(a, prefix, leq);
    assert ChildPath(prefix, b) == prefix + [0x2F, 0x62];
    assert [a, b][1..] == [b] && [a, b][0] == a;
    var first := Pushed(a.node, ChildPath(prefix, a), Visit(a.node, ChildPath(prefix, a), leq)).value;
    var last := Entry(prefix + [0x2F, 0x62], false, true, [1]);
    assert VisitAll(SMALL_TREE, [a, b], prefix, leq) == Some(first + [last]);
    assert [Entry(prefix + [SLASH], true, false, [])] + (first + [last]) ==
      [Entry(prefix + [0x2F], true, false, []), first[0], first[1], last];
  }

  lemma LeafIsVisited(parent: Node, c: Child, path: Bytes, leq: (Bytes, Bytes) -> bool)
    requires parent.Directory? && c in parent.children && c.node.File?
    ensures VisitAll(parent, [c], path, leq) ==
      Some([Entry(ChildPath(path, c), false, c.node.executable, c.node.content)])
  {
    assert [c][1..] == [];
    var own := [Entry(ChildPath(path, c), false, c.node.executable, c.node.content)];
    assert VisitAll(parent, [], path, leq) == Some([]) && own + [] == own;
  }

  lemma SmallSort(b: Child, a: Child, leq: (Bytes, Bytes) -> bool)
    requires leq(a.name, b.name) && !leq(b.name, a.name)
    ensures SortedChildren([b, a], leq) == [a, b]
  {
    assert [b, a][1..] == [a] && [a][1..] == [];
    assert Sort([a], NameOf(), leq) == [a];
    assert Insert(b, [], NameOf(), leq) == [b];
  }

  lemma InnerTree(a: Child, prefix: Bytes, leq: (Bytes, Bytes) -> bool)
    requires a == Child(NAME_A, Directory([Child(NAME_C, File([2], false))]))
    ensures Pushed(a.node, ChildPath(prefix, a), Visit(a.node, ChildPath(prefix, a), leq)) == Some([
      Entry(prefix + [0x2F, 0x61, 0x2F], true, false, []),
      Entry(prefix + [0x2F, 0x61, 0x2F, 0x63], false, false, [2])])
  {
    var node, here, c := a.node, ChildPath(prefix, a), a.node.children[0];
    assert node.children == [c] && [c][1..] == [] && Insert(c, [], NameOf(), leq) == [c];
    assert SortedChildren([c], leq) == [c];
    LeafIsVisited(node, c, here, leq);
    assert here + [SLASH] == prefix + [0x2F, 0x61, 0x2F];
    assert ChildPath(here, c) == prefix + [0x2F, 0x61, 0x2F, 0x63];
    var own, inner := Entry(here + [SLASH], true, false, []), Entry(ChildPath(here, c), false, false, [2]);
    assert Visit(node, here, leq) == Some([inner]) && [own] + [inner] == [own, inner];
  }
}
