/**
  The text files of the EPUB 2 book that `create_epub` writes (main.py lines
  119-131 and the helpers at lines 196-280). Each document is its list of
  lines joined by line breaks, exactly as the source's triple-quoted
  templates lay them out. Each document also has a reader that takes back,
  from the end of the text, the references a reading system follows: the
  package path in container.xml, the manifest and spine of content.opf, the
  navigation target of toc.ncx and the image of a page. Reading from the end
  makes the readers independent of the book title, which the templates
  insert unescaped and which may hold any character.
*/
module Markup {
  import opened Options
  import opened Text
  import opened Naming

  const Decl := "<?xml version=\"1.0\" encoding=\"UTF-8\"?>"

  /** The text of the `mimetype` file. */
  const MimetypeText := "application/epub+zip"

  /** A line with no line break in it. */
  predicate Plain(line: string) {
    '\n' !in line
  }

  /** Every line of `lines` is plain. */
  predicate AllPlain(lines: seq<string>) {
    forall k :: 0 <= k < |lines| ==> Plain(lines[k])
  }

  /**
    The value of an attribute that opens `s`: `s` starts with `opening`
    (which ends with the attribute's opening quote), the value runs to the
    next double quote, and the rest follows that quote.
  */
  function Field(s: string, opening: string): Option<(string, string)>
  {
    if !StartsWith(s, opening) then None
    else
      var rest := s[|opening|..];
      match Find(rest, '"')
      case None => None
      case Some(i) => Some((rest[..i], rest[i + 1..]))
  }

  /** A value without a double quote is read back whole. */
  lemma FieldRoundTrip(opening: string, value: string, rest: string)
    requires '"' !in value
    ensures Field(opening + value + "\"" + rest, opening) == Some((value, rest))
  {
    var s := opening + value + "\"" + rest;
    assert s[..|opening|] == opening;
    var tail := s[|opening|..];
    assert tail == value + ['"'] + rest;
    FindAfter(value, '"', rest);
    assert tail[..|value|] == value;
    assert tail[|value| + 1..] == rest;
  }

  // ---------------------------------------------------------------- container.xml

  const RootfileOpen := "        <rootfile full-path=\""

  /** Where the package document lives in the book. */
  const OpfPath := "OEBPS/content.opf"

  const ContainerOpen := "<container version=\"1.0\" xmlns=\"urn:oasis:names:tc:opendocument:xmlns:container\">"
  const RootfilesOpen := "    <rootfiles>"
  const RootfilesClose := "    </rootfiles>"
  const ContainerClose := "</container>"

  const ContainerHead := [Decl, ContainerOpen, RootfilesOpen]

  const ContainerTail := [RootfileOpen + OpfPath + "\"" + PackageMediaType, RootfilesClose, ContainerClose]

  /** META-INF/container.xml (lines 124-129). */
  function ContainerXml(): string {
    Join(ContainerHead + ContainerTail, '\n')
  }

  /** The package path a reading system takes from container.xml. */
  function ReadRootfile(text: string): Option<string>
  {
    var lines := Split(text, '\n');
    if |lines| < 3 then None
    else match Field(lines[|lines| - 3], RootfileOpen)
      case None => None
      case Some(f) => Some(f.0)
  }

  const PackageType := "application/oebps-package+xml"
  const PackageMediaType := TypeOpen + PackageType + "\"" + ElementEnd

  lemma ContainerTailPlain()
    ensures AllPlain(ContainerTail)
  {
    RootfileLinePlain();
    assert Plain(RootfilesClose) && Plain(ContainerClose);
  }

  lemma RootfileLinePlain()
    ensures Plain(RootfileOpen + OpfPath + "\"" + PackageMediaType)
  {
    assert Plain(TypeOpen + PackageType) && Plain("\"" + ElementEnd);
    assert Plain(PackageMediaType);
    assert Plain(RootfileOpen + OpfPath) && Plain("\"");
  }

  lemma RootfileLine(x: seq<string>)
    ensures Field((x + ContainerTail)[|x + ContainerTail| - 3], RootfileOpen) == Some((OpfPath, PackageMediaType))
  {
    assert (x + ContainerTail)[|x + ContainerTail| - 3] == ContainerTail[0];
    FieldRoundTrip(RootfileOpen, OpfPath, PackageMediaType);
  }

  /** container.xml names the package document the book holds. */
  lemma ContainerNamesPackage()
    ensures ReadRootfile(ContainerXml()) == Some(OpfPath)
  {
    ContainerTailPlain();
    SplitJoinSuffix(ContainerHead, ContainerTail, '\n');
    RootfileLine(Split(Join(ContainerHead, '\n'), '\n'));
  }

  // ---------------------------------------------------------------- content.opf

  /** A manifest entry of the package document. */
  datatype Item = Item(id: string, href: string, mediaType: string)

  const XhtmlType := "application/xhtml+xml"
  const JpegType := "image/jpeg"
  const NcxType := "application/x-dtbncx+xml"
  const NcxItem := Item("ncx", "toc.ncx", NcxType)

  /** The id the package metadata names as the cover. */
  const CoverId := "img_001"

  /** The manifest entry of the `n`-th page's markup. */
  function PageItem(n: nat): Item {
    Item(PageStem(n), "pages/" + XhtmlName(n), XhtmlType)
  }

  /** The manifest entry of the `n`-th page's image, saved as `file`. */
  function ImageItem(n: nat, file: string): Item {
    Item(ImageId(n), "images/" + file, JpegType)
  }

  /**
    The manifest entries for the saved images `files` (lines 198-206): the
    i-th saved image (counting from 1, whatever its input position was)
    gives page entry i and then image entry i.
  */
  function ManifestItems(files: seq<string>): (items: seq<Item>)
    ensures |items| == 2 * |files|
    ensures forall i :: 0 <= i < |files| ==> items[2 * i] == PageItem(i + 1) && items[2 * i + 1] == ImageItem(i + 1, files[i])
  {
    if files == [] then []
    else
      var n := |files|;
      ManifestItems(files[..n - 1]) + [PageItem(n), ImageItem(n, files[n - 1])]
  }

  /** The spine (line 206): the page entries' ids, in saved order. */
  function SpineIds(files: seq<string>): (ids: seq<string>)
    ensures |ids| == |files| && forall i :: 0 <= i < |files| ==> ids[i] == PageStem(i + 1)
  {
    if files == [] then [] else SpineIds(files[..|files| - 1]) + [PageStem(|files|)]
  }

  const ItemOpen := "    <item id=\""
  /** The extra indentation of the fixed ncx entry (line 218), which sits four spaces deeper than the generated entries. */
  const NcxIndent := "    "
  const HrefOpen := " href=\""
  const TypeOpen := " media-type=\""
  const ItemrefOpen := "    <itemref idref=\""
  const ElementEnd := "/>"

  function ItemLine(it: Item): string {
    ItemOpen + it.id + "\"" + (HrefOpen + it.href + "\"" + (TypeOpen + it.mediaType + "\"" + ElementEnd))
  }

  function ItemrefLine(id: string): string {
    ItemrefOpen + id + "\"" + ElementEnd
  }

  function ItemLines(items: seq<Item>): (lines: seq<string>)
    ensures |lines| == |items| && forall k :: 0 <= k < |items| ==> lines[k] == ItemLine(items[k])
  {
    if items == [] then [] else [ItemLine(items[0])] + ItemLines(items[1..])
  }

  function ItemrefLines(ids: seq<string>): (lines: seq<string>)
    ensures |lines| == |ids| && forall k :: 0 <= k < |ids| ==> lines[k] == ItemrefLine(ids[k])
  {
    if ids == [] then [] else [ItemrefLine(ids[0])] + ItemrefLines(ids[1..])
  }

  /** The lines `"\n".join(lines)` puts in a template: an empty list still leaves one empty line. */
  function Block(lines: seq<string>): seq<string> {
    if lines == [] then [""] else lines
  }

  const ManifestOpen := "    <manifest>"
  const ManifestClose := "    </manifest>"
  const SpineOpen := "    <spine toc=\"ncx\">"
  const SpineClose := "    </spine>"
  const PackageClose := "</package>"

  const PackageOpen := "<package xmlns=\"http://www.idpf.org/2007/opf\" unique-identifier=\"BookId\" version=\"2.0\">"
  const MetadataOpen := "    <metadata xmlns:dc=\"http://purl.org/dc/elements/1.1/\" xmlns:opf=\"http://www.idpf.org/2007/opf\">"
  const TitleOpen := "        <dc:title>"
  const TitleClose := "</dc:title>"
  const CreatorLine := "        <dc:creator>Image Converter</dc:creator>"
  const IdentifierOpen := "        <dc:identifier id=\"BookId\">urn:uuid:"
  const IdentifierClose := "</dc:identifier>"
  const LanguageLine := "        <dc:language>fr</dc:language>"
  const CoverLine := "        <meta name=\"cover\" content=\"" + CoverId + "\"/>"
  const MetadataClose := "    </metadata>"

  /** The metadata part of content.opf, which carries the title twice. */
  function OpfHead(title: string): (lines: seq<string>)
    ensures |lines| == 9
  {
    [ Decl, PackageOpen, MetadataOpen,
      TitleOpen + title + TitleClose,
      CreatorLine,
      IdentifierOpen + title + IdentifierClose,
      LanguageLine, CoverLine, MetadataClose ]
  }

  /** The ncx entry's line as the template writes it, eight spaces in. */
  const NcxItemLine := NcxIndent + ItemLine(NcxItem)

  /** The lines inside the manifest element: the ncx entry, then the block of entries for the saved images. */
  function ManifestLines(files: seq<string>): seq<string> {
    [NcxItemLine] + Block(ItemLines(ManifestItems(files)))
  }

  /** The lines inside the spine element. */
  function SpineLines(files: seq<string>): seq<string> {
    Block(ItemrefLines(SpineIds(files)))
  }

  /** The manifest and spine part of content.opf. */
  function OpfBody(files: seq<string>): seq<string> {
    Frame(ManifestLines(files), SpineLines(files))
  }

  /** Manifest lines and spine lines in their elements, closing the package. */
  function Frame(manifest: seq<string>, spine: seq<string>): seq<string> {
    [ManifestOpen] + manifest + [ManifestClose, SpineOpen] + spine + [SpineClose, PackageClose]
  }

  /** OEBPS/content.opf for the book `title` and the saved images `files` (lines 196-227). */
  function ContentOpf(title: string, files: seq<string>): string {
    Join(OpfHead(title) + OpfBody(files), '\n')
  }

  /** What a reading system takes from a package document: its manifest and its spine. */
  datatype Package = Package(manifest: seq<Item>, spine: seq<string>)

  function ReadItem(line: string): Option<Item>
  {
    match Field(line, ItemOpen)
    case None => None
    case Some(f1) =>
      match Field(f1.1, HrefOpen)
      case None => None
      case Some(f2) =>
        match Field(f2.1, TypeOpen)
        case None => None
        case Some(f3) => if f3.1 == ElementEnd then Some(Item(f1.0, f2.0, f3.0)) else None
  }

  function ReadItemref(line: string): Option<string>
  {
    match Field(line, ItemrefOpen)
    case None => None
    case Some(f) => if f.1 == ElementEnd then Some(f.0) else None
  }

  function ReadItems(lines: seq<string>): Option<seq<Item>>
  {
    if lines == [] then Some([])
    else match (ReadItem(lines[0]), ReadItems(lines[1..]))
      case (Some(it), Some(rest)) => Some([it] + rest)
      case _ => None
  }

  function ReadItemrefs(lines: seq<string>): Option<seq<string>>
  {
    if lines == [] then Some([])
    else match (ReadItemref(lines[0]), ReadItemrefs(lines[1..]))
      case (Some(id), Some(rest)) => Some([id] + rest)
      case _ => None
  }

  /** The lines a block stands for: a lone empty line stands for none. */
  function Unblock(lines: seq<string>): seq<string> {
    if lines == [""] then [] else lines
  }

  /**
    Reads a package document's lines from the end: the spine between the
    last spine opening and the closing lines, the manifest between the last
    manifest opening before it and the manifest closing.
  */
  function ReadPackageLines(lines: seq<string>): Option<Package>
  {
    if |lines| < 2 || lines[|lines| - 2..] != [SpineClose, PackageClose] then None
    else ReadPackageBody(lines[..|lines| - 2])
  }

  /** The lines before the closing ones: the spine follows their last spine opening. */
  function ReadPackageBody(body: seq<string>): Option<Package>
  {
    match LastIndex(body, SpineOpen)
    case None => None
    case Some(s) => ReadPackageHead(body[..s], body[s + 1..])
  }

  /** The lines before the spine: the manifest closes them and follows their last manifest opening. */
  function ReadPackageHead(before: seq<string>, spine: seq<string>): Option<Package>
  {
    if before == [] || before[|before| - 1] != ManifestClose then None
    else
      var head := before[..|before| - 1];
      match LastIndex(head, ManifestOpen)
      case None => None
      case Some(m) => ReadParts(head[m + 1..], spine)
  }

  /** Reads the manifest lines: the more deeply indented ncx entry, then a block of entries. */
  function ReadManifest(lines: seq<string>): Option<seq<Item>>
  {
    if lines == [] || !StartsWith(lines[0], NcxIndent) then None
    else match ReadItem(lines[0][|NcxIndent|..])
      case None => None
      case Some(first) =>
        match ReadItems(Unblock(lines[1..]))
        case None => None
        case Some(rest) => Some([first] + rest)
  }

  /** Reads the manifest lines and the spine lines (a block of references). */
  function ReadParts(manifest: seq<string>, spine: seq<string>): Option<Package>
  {
    match ReadManifest(manifest)
    case None => None
    case Some(items) =>
      match ReadItemrefs(Unblock(spine))
      case None => None
      case Some(ids) => Some(Package(items, ids))
  }

  function ReadPackage(text: string): Option<Package> {
    ReadPackageLines(Split(text, '\n'))
  }

  /** An attribute value a reader can take back: no double quote and no line break. */
  predicate Quotable(v: string) {
    '"' !in v && '\n' !in v
  }

  predicate ItemQuotable(it: Item) {
    Quotable(it.id) && Quotable(it.href) && Quotable(it.mediaType)
  }

  lemma ItemRoundTrip(it: Item)
    requires ItemQuotable(it)
    ensures ReadItem(ItemLine(it)) == Some(it)
  {
    var r2 := TypeOpen + it.mediaType + "\"" + ElementEnd;
    var r1 := HrefOpen + it.href + "\"" + r2;
    FieldRoundTrip(ItemOpen, it.id, r1);
    FieldRoundTrip(HrefOpen, it.href, r2);
    FieldRoundTrip(TypeOpen, it.mediaType, ElementEnd);
  }

  lemma ItemLinePlain(it: Item)
    requires ItemQuotable(it)
    ensures Plain(ItemLine(it)) && ItemLine(it) != ""
  {
    assert |ItemLine(it)| >= |ItemOpen|;
  }

  lemma ItemrefRoundTrip(id: string)
    requires Quotable(id)
    ensures ReadItemref(ItemrefLine(id)) == Some(id)
  {
    FieldRoundTrip(ItemrefOpen, id, ElementEnd);
  }

  lemma ItemrefLinePlain(id: string)
    requires Quotable(id)
    ensures Plain(ItemrefLine(id)) && ItemrefLine(id) != ""
  {
    assert |ItemrefLine(id)| >= |ItemrefOpen|;
  }

  lemma ItemsRoundTrip(items: seq<Item>)
    requires forall k :: 0 <= k < |items| ==> ItemQuotable(items[k])
    ensures ReadItems(ItemLines(items)) == Some(items)
    ensures AllPlain(ItemLines(items))
  {
    ItemsRead(items);
    ItemLinesPlain(items);
  }

  lemma ItemsRead(items: seq<Item>)
    requires forall k :: 0 <= k < |items| ==> ItemQuotable(items[k])
    ensures ReadItems(ItemLines(items)) == Some(items)
  {
    var lines := ItemLines(items);
    forall k | 0 <= k < |items| ensures ReadItem(lines[k]) == Some(items[k]) {
      ItemRoundTrip(items[k]);
    }
    ReadEveryItem(lines, items);
  }

  lemma ReadItemsStep(lines: seq<string>, it: Item, rest: seq<Item>)
    requires lines != [] && ReadItem(lines[0]) == Some(it) && ReadItems(lines[1..]) == Some(rest)
    ensures ReadItems(lines) == Some([it] + rest)
  {
  }

  /** Lines that each read back to an item read back, together, to the list of those items. */
  lemma {:induction false} ReadEveryItem(lines: seq<string>, items: seq<Item>)
    requires |lines| == |items| && forall k :: 0 <= k < |lines| ==> ReadItem(lines[k]) == Some(items[k])
    ensures ReadItems(lines) == Some(items)
  {
    if lines != [] {
      var tail, rest := lines[1..], items[1..];
      forall k | 0 <= k < |tail| ensures ReadItem(tail[k]) == Some(rest[k]) {
        assert tail[k] == lines[k + 1] && rest[k] == items[k + 1];
      }
      ReadEveryItem(tail, rest);
      ReadItemsStep(lines, items[0], rest);
      assert items == [items[0]] + rest;
    }
  }

  lemma {:induction false} ItemLinesPlain(items: seq<Item>)
    requires forall k :: 0 <= k < |items| ==> ItemQuotable(items[k])
    ensures AllPlain(ItemLines(items))
  {
    if items != [] {
      var lines := ItemLines(items);
      ItemLinesPlain(items[1..]);
      assert lines[0] == ItemLine(items[0]) && lines[1..] == ItemLines(items[1..]);
      ItemLinePlain(items[0]);
      AllPlainCons(lines);
    }
  }

  lemma AllPlainCons(lines: seq<string>)
    requires lines != [] && Plain(lines[0]) && AllPlain(lines[1..])
    ensures AllPlain(lines)
  {
    forall k | 0 <= k < |lines| ensures Plain(lines[k]) {
      if k > 0 {
        assert lines[k] == lines[1..][k - 1];
      }
    }
  }

  lemma ItemrefsRoundTrip(ids: seq<string>)
    requires forall k :: 0 <= k < |ids| ==> Quotable(ids[k])
    ensures ReadItemrefs(ItemrefLines(ids)) == Some(ids)
    ensures AllPlain(ItemrefLines(ids))
  {
    var lines := ItemrefLines(ids);
    forall k | 0 <= k < |ids| ensures ReadItemref(lines[k]) == Some(ids[k]) && Plain(lines[k]) {
      ItemrefRoundTrip(ids[k]);
      ItemrefLinePlain(ids[k]);
    }
    ReadEveryItemref(lines, ids);
  }

  lemma ReadItemrefsStep(lines: seq<string>, id: string, rest: seq<string>)
    requires lines != [] && ReadItemref(lines[0]) == Some(id) && ReadItemrefs(lines[1..]) == Some(rest)
    ensures ReadItemrefs(lines) == Some([id] + rest)
  {
  }

  /** Lines that each read back to an id read back, together, to the list of those ids. */
  lemma {:induction false} ReadEveryItemref(lines: seq<string>, ids: seq<string>)
    requires |lines| == |ids| && forall k :: 0 <= k < |lines| ==> ReadItemref(lines[k]) == Some(ids[k])
    ensures ReadItemrefs(lines) == Some(ids)
  {
    if lines != [] {
      var tail, rest := lines[1..], ids[1..];
      forall k | 0 <= k < |tail| ensures ReadItemref(tail[k]) == Some(rest[k]) {
        assert tail[k] == lines[k + 1] && rest[k] == ids[k + 1];
      }
      ReadEveryItemref(tail, rest);
      ReadItemrefsStep(lines, ids[0], rest);
      assert ids == [ids[0]] + rest;
    }
  }

  /** Saved image names a reader can take back from the markup. */
  predicate FilesQuotable(files: seq<string>) {
    forall i :: 0 <= i < |files| ==> Quotable(files[i])
  }

  lemma PageItemQuotable(n: nat)
    ensures ItemQuotable(PageItem(n))
  {
    PageStemIsPlain(n);
    assert Quotable(XhtmlType);
  }

  lemma ImageItemQuotable(n: nat, file: string)
    requires Quotable(file)
    ensures ItemQuotable(ImageItem(n, file))
  {
    PageStemIsPlain(n);
    assert Quotable(JpegType);
  }

  lemma ManifestQuotable(files: seq<string>)
    requires FilesQuotable(files)
    ensures forall k :: 0 <= k < |ManifestItems(files)| ==> ItemQuotable(ManifestItems(files)[k])
  {
    var items := ManifestItems(files);
    forall k | 0 <= k < |items| ensures ItemQuotable(items[k]) {
      var i := Halve(k);
      if k == 2 * i {
        PageItemQuotable(i + 1);
      } else {
        assert k == 2 * i + 1;
        ImageItemQuotable(i + 1, files[i]);
      }
    }
  }

  /** Position `k` of the manifest belongs to image `i`: its page entry or its image entry. */
  lemma Halve(k: nat) returns (i: nat)
    ensures k == 2 * i || k == 2 * i + 1
  {
    i := k / 2;
  }

  lemma SpineQuotable(files: seq<string>)
    ensures forall k :: 0 <= k < |SpineIds(files)| ==> Quotable(SpineIds(files)[k])
  {
    forall k | 0 <= k < |files| ensures Quotable(SpineIds(files)[k]) {
      PageStemIsPlain(k + 1);
    }
  }

  /** An entry line is neither the empty line of an empty block nor the manifest opening. */
  lemma ItemLineIsNoMarker(it: Item)
    ensures ItemLine(it) != "" && ItemLine(it) != ManifestOpen
  {
    assert ItemLine(it)[..|ItemOpen|] == ItemOpen;
    assert ItemLine(it)[5] != ManifestOpen[5];
  }

  /** A spine line is neither the empty line of an empty block nor the spine opening. */
  lemma ItemrefLineIsNoMarker(id: string)
    ensures ItemrefLine(id) != "" && ItemrefLine(id) != SpineOpen
  {
    assert ItemrefLine(id)[..|ItemrefOpen|] == ItemrefOpen;
    assert ItemrefLine(id)[5] != SpineOpen[5];
  }

  lemma AllPlainConcat(a: seq<string>, b: seq<string>)
    requires AllPlain(a) && AllPlain(b)
    ensures AllPlain(a + b)
  {
    forall k | 0 <= k < |a + b| ensures Plain((a + b)[k]) {
      if k >= |a| {
        assert (a + b)[k] == b[k - |a|];
      }
    }
  }

  /** The fixed ncx entry's line reads back and is plain. */
  lemma NcxLine()
    ensures Plain(NcxItemLine) && NcxItemLine != ManifestOpen
  {
    NcxQuotable();
    ItemLinePlain(NcxItem);
    assert NcxItemLine[4] != ManifestOpen[4];
  }

  lemma ManifestLinesPlain(files: seq<string>)
    requires FilesQuotable(files)
    ensures AllPlain(ManifestLines(files))
  {
    ManifestQuotable(files);
    ItemsRoundTrip(ManifestItems(files));
    NcxLine();
    AllPlainConcat([NcxItemLine], Block(ItemLines(ManifestItems(files))));
  }

  lemma SpineLinesPlain(files: seq<string>)
    ensures AllPlain(SpineLines(files))
  {
    SpineQuotable(files);
    ItemrefsRoundTrip(SpineIds(files));
  }

  lemma FrameLinesPlain()
    ensures Plain(ManifestOpen) && Plain(ManifestClose) && Plain(SpineOpen) && Plain(SpineClose) && Plain(PackageClose)
  {
  }

  /** The frame keeps plain lines plain. */
  lemma FramePlain(manifest: seq<string>, spine: seq<string>)
    requires AllPlain(manifest) && AllPlain(spine)
    ensures AllPlain(Frame(manifest, spine))
  {
    FrameLinesPlain();
    var f := Frame(manifest, spine);
    forall k | 0 <= k < |f| ensures Plain(f[k]) {
      if 1 <= k < 1 + |manifest| {
        assert f[k] == manifest[k - 1];
      } else if 3 + |manifest| <= k < 3 + |manifest| + |spine| {
        assert f[k] == spine[k - 3 - |manifest|];
      }
    }
  }

  /** Every line of the manifest and spine part is plain. */
  lemma BodyPlain(files: seq<string>)
    requires FilesQuotable(files)
    ensures AllPlain(OpfBody(files))
  {
    ManifestLinesPlain(files);
    SpineLinesPlain(files);
    FramePlain(ManifestLines(files), SpineLines(files));
  }

  /** Finding the manifest and spine lines from the end of a package document. */
  lemma LocateParts(prefix: seq<string>, manifest: seq<string>, spine: seq<string>)
    requires ManifestOpen !in manifest && SpineOpen !in spine
    ensures ReadPackageLines(prefix + Frame(manifest, spine)) == ReadParts(manifest, spine)
  {
    var before := prefix + [ManifestOpen] + manifest + [ManifestClose];
    var body := before + [SpineOpen] + spine;
    assert prefix + Frame(manifest, spine) == body + [SpineClose, PackageClose];
    LocateClosing(body);
    LocateSpine(before, spine);
    LocateManifest(prefix, manifest, spine);
  }

  lemma LocateClosing(body: seq<string>)
    ensures ReadPackageLines(body + [SpineClose, PackageClose]) == ReadPackageBody(body)
  {
    var lines := body + [SpineClose, PackageClose];
    assert lines[..|lines| - 2] == body;
    assert lines[|lines| - 2..] == [SpineClose, PackageClose];
  }

  lemma LocateSpine(before: seq<string>, spine: seq<string>)
    requires SpineOpen !in spine
    ensures ReadPackageBody(before + [SpineOpen] + spine) == ReadPackageHead(before, spine)
  {
    var body := before + [SpineOpen] + spine;
    LastIndexAfter(before, SpineOpen, spine);
    assert body[..|before|] == before;
    assert body[|before| + 1..] == spine;
  }

  lemma LocateManifest(prefix: seq<string>, manifest: seq<string>, spine: seq<string>)
    requires ManifestOpen !in manifest
    ensures ReadPackageHead(prefix + [ManifestOpen] + manifest + [ManifestClose], spine) == ReadParts(manifest, spine)
  {
    var head := prefix + [ManifestOpen] + manifest;
    var before := head + [ManifestClose];
    assert before[..|before| - 1] == head;
    LastIndexAfter(prefix, ManifestOpen, manifest);
    assert head[|prefix| + 1..] == manifest;
  }

  /** A block of lines none of which is empty stands for those lines. */
  lemma UnblockBlock(lines: seq<string>)
    requires lines == [] || lines[0] != ""
    ensures Unblock(Block(lines)) == lines
  {
  }

  lemma ItemsBlockRoundTrip(items: seq<Item>)
    requires forall k :: 0 <= k < |items| ==> ItemQuotable(items[k])
    ensures ReadItems(Unblock(Block(ItemLines(items)))) == Some(items)
  {
    ItemsRoundTrip(items);
    if items != [] {
      ItemLinePlain(items[0]);
    }
    UnblockBlock(ItemLines(items));
  }

  lemma ItemrefsBlockRoundTrip(ids: seq<string>)
    requires forall k :: 0 <= k < |ids| ==> Quotable(ids[k])
    ensures ReadItemrefs(Unblock(Block(ItemrefLines(ids)))) == Some(ids)
  {
    ItemrefsRoundTrip(ids);
    if ids != [] {
      ItemrefLinePlain(ids[0]);
    }
    UnblockBlock(ItemrefLines(ids));
  }

  lemma ManifestBlockRoundTrip(files: seq<string>)
    requires FilesQuotable(files)
    ensures ReadItems(Unblock(Block(ItemLines(ManifestItems(files))))) == Some(ManifestItems(files))
  {
    ManifestQuotable(files);
    ItemsBlockRoundTrip(ManifestItems(files));
  }

  lemma SpineBlockRoundTrip(files: seq<string>)
    ensures ReadItemrefs(Unblock(SpineLines(files))) == Some(SpineIds(files))
  {
    SpineQuotable(files);
    ItemrefsBlockRoundTrip(SpineIds(files));
  }

  /** A readable, more deeply indented entry line followed by lines that read as entries reads as the whole manifest. */
  lemma ReadManifestCons(first: Item, rest: seq<string>, items: seq<Item>)
    requires ItemQuotable(first) && ReadItems(Unblock(rest)) == Some(items)
    ensures ReadManifest([NcxIndent + ItemLine(first)] + rest) == Some([first] + items)
  {
    ItemRoundTrip(first);
    var line := NcxIndent + ItemLine(first);
    assert line[..|NcxIndent|] == NcxIndent && line[|NcxIndent|..] == ItemLine(first);
    assert ([line] + rest)[1..] == rest;
  }

  /** Manifest lines opening with any readable, more deeply indented entry read back as written. */
  lemma ManifestRoundTrip(first: Item, files: seq<string>)
    requires ItemQuotable(first) && FilesQuotable(files)
    ensures ReadManifest([NcxIndent + ItemLine(first)] + Block(ItemLines(ManifestItems(files)))) == Some([first] + ManifestItems(files))
  {
    ManifestBlockRoundTrip(files);
    ReadManifestCons(first, Block(ItemLines(ManifestItems(files))), ManifestItems(files));
  }

  lemma NcxQuotable()
    ensures ItemQuotable(NcxItem)
  {
    assert Quotable("ncx");
    assert Quotable("toc.ncx");
    assert NcxType == "application/" + "x-dtbncx+xml";
    QuotableConcat("application/", "x-dtbncx+xml");
  }

  lemma QuotableConcat(a: string, b: string)
    requires Quotable(a) && Quotable(b)
    ensures Quotable(a + b)
  {
  }

  /** The manifest and spine lines of a written package read back as its entries. */
  lemma PartsRoundTrip(files: seq<string>)
    requires FilesQuotable(files)
    ensures ReadParts(ManifestLines(files), SpineLines(files)) == Some(Package([NcxItem] + ManifestItems(files), SpineIds(files)))
  {
    NcxQuotable();
    ManifestRoundTrip(NcxItem, files);
    SpineBlockRoundTrip(files);
  }

  lemma ItemLinesNoOpening(items: seq<Item>)
    ensures ManifestOpen !in Block(ItemLines(items))
  {
    var lines := ItemLines(items);
    forall k | 0 <= k < |lines| ensures lines[k] != ManifestOpen {
      ItemLineIsNoMarker(items[k]);
    }
  }

  lemma ManifestLinesNoOpening(files: seq<string>)
    ensures ManifestOpen !in ManifestLines(files)
  {
    NcxLine();
    ItemLinesNoOpening(ManifestItems(files));
  }

  lemma SpineLinesNoOpening(files: seq<string>)
    ensures SpineOpen !in SpineLines(files)
  {
    var ids := SpineIds(files);
    var lines := ItemrefLines(ids);
    forall k | 0 <= k < |lines| ensures lines[k] != SpineOpen {
      ItemrefLineIsNoMarker(ids[k]);
    }
  }

  /** Reading the lines of a package document from the end, whatever lines precede its manifest. */
  lemma ReadBody(prefix: seq<string>, files: seq<string>)
    requires FilesQuotable(files)
    ensures ReadPackageLines(prefix + OpfBody(files)) == Some(Package([NcxItem] + ManifestItems(files), SpineIds(files)))
  {
    ManifestLinesNoOpening(files);
    SpineLinesNoOpening(files);
    LocateParts(prefix, ManifestLines(files), SpineLines(files));
    PartsRoundTrip(files);
  }

  /**
    The package document reads back as written: the ncx entry, then for
    each saved image its page entry and its image entry; and the spine
    lists the page entries in order. The title may hold any text.
  */
  lemma PackageRoundTrip(title: string, files: seq<string>)
    requires FilesQuotable(files)
    ensures ReadPackage(ContentOpf(title, files)) == Some(Package([NcxItem] + ManifestItems(files), SpineIds(files)))
  {
    ReadPackageAfter(OpfHead(title), files);
  }

  /** Whatever lines precede the manifest, the package reads back from the end. */
  lemma ReadPackageAfter(head: seq<string>, files: seq<string>)
    requires |head| >= 1 && FilesQuotable(files)
    ensures ReadPackage(Join(head + OpfBody(files), '\n')) == Some(Package([NcxItem] + ManifestItems(files), SpineIds(files)))
  {
    BodyPlain(files);
    SplitJoinSuffix(head, OpfBody(files), '\n');
    ReadBody(Split(Join(head, '\n'), '\n'), files);
  }

  /** The ids of a list of manifest entries. */
  function Ids(items: seq<Item>): (ids: seq<string>)
    ensures |ids| == |items| && forall k :: 0 <= k < |items| ==> ids[k] == items[k].id
  {
    if items == [] then [] else [items[0].id] + Ids(items[1..])
  }

  lemma CoverIsFirstImage()
    ensures ImageId(1) == CoverId
  {
    ThreeDigits(1);
  }

  /** The cover the metadata names is a manifest entry exactly when at least one image was saved. */
  lemma CoverListed(files: seq<string>)
    ensures CoverId in Ids([NcxItem] + ManifestItems(files)) <==> |files| >= 1
  {
    if |files| >= 1 {
      CoverListedWhenSaved(files);
    } else {
      CoverMissingWhenEmpty();
    }
  }

  lemma CoverListedWhenSaved(files: seq<string>)
    requires |files| >= 1
    ensures CoverId in Ids([NcxItem] + ManifestItems(files))
  {
    FirstImageItem(files);
    CoverIdAt([NcxItem] + ManifestItems(files));
  }

  /** The first image's manifest entry comes right after the ncx entry and the first page's. */
  lemma FirstImageItem(files: seq<string>)
    requires |files| >= 1
    ensures |[NcxItem] + ManifestItems(files)| > 2 && ([NcxItem] + ManifestItems(files))[2].id == ImageId(1)
  {
    assert ManifestItems(files)[2 * 0 + 1] == ImageItem(1, files[0]);
  }

  lemma CoverIdAt(items: seq<Item>)
    requires |items| > 2 && items[2].id == ImageId(1)
    ensures CoverId in Ids(items)
  {
    CoverIsFirstImage();
    IdListed(items, 2);
  }

  lemma IdListed(items: seq<Item>, k: nat)
    requires k < |items|
    ensures items[k].id in Ids(items)
  {
    assert Ids(items)[k] == items[k].id;
  }

  lemma CoverMissingWhenEmpty()
    ensures CoverId !in Ids([NcxItem] + ManifestItems([]))
  {
    assert [NcxItem] + ManifestItems([]) == [NcxItem];
    assert Ids([NcxItem]) == ["ncx"];
    assert "ncx"[0] != CoverId[0];
  }

  // ---------------------------------------------------------------- toc.ncx

  const NcxOpen := "<ncx xmlns=\"http://www.daisy.org/z3986/2005/ncx/\" version=\"2005-1\">"
  const NcxHeadOpen := "    <head>"
  const UidOpen := "        <meta name=\"dtb:uid\" content=\"urn:uuid:"
  const UidClose := "\"/>"
  const DepthLine := "        <meta name=\"dtb:depth\" content=\"1\"/>"
  const TotalPageCountLine := "        <meta name=\"dtb:totalPageCount\" content=\"0\"/>"
  const MaxPageNumberLine := "        <meta name=\"dtb:maxPageNumber\" content=\"0\"/>"
  const NcxHeadClose := "    </head>"
  const DocTitleOpen := "    <docTitle>"
  const TextOpen := "        <text>"
  const TextClose := "</text>"
  const DocTitleClose := "    </docTitle>"
  const NavMapOpen := "    <navMap>"
  const NavPointOpen := "        <navPoint id=\"navpoint-1\" playOrder=\"1\">"
  const NavLabelOpen := "            <navLabel>"
  const NavLabelText := "                <text>Début</text>"
  const NavLabelClose := "            </navLabel>"
  const NavPointClose := "        </navPoint>"
  const NavMapClose := "    </navMap>"
  const NcxClose := "</ncx>"
  const ContentOpen := "            <content src=\""

  /** Where the navigation map's only entry points, written out as a literal. */
  const NavTarget := "pages/page_001.xhtml"

  function NcxHead(title: string): (lines: seq<string>)
    ensures |lines| == 16
  {
    [ Decl, NcxOpen, NcxHeadOpen,
      UidOpen + title + UidClose,
      DepthLine, TotalPageCountLine, MaxPageNumberLine, NcxHeadClose, DocTitleOpen,
      TextOpen + title + TextClose,
      DocTitleClose, NavMapOpen, NavPointOpen, NavLabelOpen,
      NavLabelText,
      NavLabelClose ]
  }

  const NcxTail := [ContentOpen + NavTarget + "\"" + ElementEnd, NavPointClose, NavMapClose, NcxClose]

  /** OEBPS/toc.ncx for the book `title` (lines 229-253). */
  function TocNcx(title: string): string {
    Join(NcxHead(title) + NcxTail, '\n')
  }

  /** The target of the navigation map's entry, read from the end of the text. */
  function ReadNavTarget(text: string): Option<string>
  {
    var lines := Split(text, '\n');
    if |lines| < 4 then None
    else match Field(lines[|lines| - 4], ContentOpen)
      case None => None
      case Some(f) => Some(f.0)
  }

  lemma NcxTailPlain()
    ensures AllPlain(NcxTail)
  {
    assert Plain(NcxTail[0]) && Plain(NcxTail[1]) && Plain(NcxTail[2]) && Plain(NcxTail[3]);
  }

  lemma NavLine(x: seq<string>)
    ensures Field((x + NcxTail)[|x + NcxTail| - 4], ContentOpen) == Some((NavTarget, ElementEnd))
  {
    assert (x + NcxTail)[|x + NcxTail| - 4] == NcxTail[0];
    FieldRoundTrip(ContentOpen, NavTarget, ElementEnd);
  }

  /** The navigation target is the first page's markup file. */
  lemma NavTargetIsFirstPage()
    ensures NavTarget == "pages/" + XhtmlName(1)
  {
    ThreeDigits(1);
  }

  /** The table of contents always points at the first page's markup, whatever the title. */
  lemma NavRoundTrip(title: string)
    ensures ReadNavTarget(TocNcx(title)) == Some(NavTarget)
  {
    NcxTailPlain();
    SplitJoinSuffix(NcxHead(title), NcxTail, '\n');
    NavLine(Split(Join(NcxHead(title), '\n'), '\n'));
  }

  // ---------------------------------------------------------------- page markup

  const Doctype := "<!DOCTYPE html PUBLIC \"-//W3C//DTD XHTML 1.1//EN\" \"http://www.w3.org/TR/xhtml11/DTD/xhtml11.dtd\">"
  const HtmlOpen := "<html xmlns=\"http://www.w3.org/1999/xhtml\">"
  const HtmlHeadOpen := "<head>"
  const PageTitleOpen := "    <title>Page "
  const PageTitleClose := "</title>"
  const StyleOpen := "    <style type=\"text/css\">"
  const BodyRule := "        body { margin: 0; padding: 0; text-align: center; }"
  const ImgRule := "        img { max-width: 100%; max-height: 100%; }"
  const StyleClose := "    </style>"
  const HtmlHeadClose := "</head>"
  const BodyOpen := "<body>"
  const ImgOpen := "    <img src=\""
  const AltOpen := " alt=\"Page "
  const BodyClose := "</body>"
  const HtmlClose := "</html>"

  /** Where a page's markup finds its image: the sibling `images` directory. */
  function ImageRef(file: string): string {
    "../images/" + file
  }

  function PageHead(n: nat): (lines: seq<string>)
    ensures |lines| == 11
  {
    [ Decl, Doctype, HtmlOpen, HtmlHeadOpen,
      PageTitleOpen + Decimal(n) + PageTitleClose,
      StyleOpen, BodyRule, ImgRule, StyleClose, HtmlHeadClose, BodyOpen ]
  }

  function PageTail(n: nat, file: string): seq<string> {
    [ImgOpen + ImageRef(file) + "\"" + (AltOpen + Decimal(n) + "\"" + ElementEnd), BodyClose, HtmlClose]
  }

  /** OEBPS/pages/page_NNN.xhtml for page `n`, showing the image saved as `file` (lines 263-276). */
  function PageMarkup(n: nat, file: string): string {
    Join(PageHead(n) + PageTail(n, file), '\n')
  }

  /** The image reference of a page's markup, read from the end of the text. */
  function ReadImageRef(text: string): Option<string>
  {
    var lines := Split(text, '\n');
    if |lines| < 3 then None
    else match Field(lines[|lines| - 3], ImgOpen)
      case None => None
      case Some(f) => Some(f.0)
  }

  lemma PageTailPlain(n: nat, file: string)
    requires Quotable(file)
    ensures AllPlain(PageTail(n, file))
  {
    var t := PageTail(n, file);
    var d := Decimal(n);
    assert forall k :: 0 <= k < |d| ==> IsDigit(d[k]);
    assert '\n' !in d;
    assert Plain(t[0]) && Plain(t[1]) && Plain(t[2]);
  }

  lemma ImgLine(x: seq<string>, n: nat, file: string)
    requires Quotable(file)
    ensures Field((x + PageTail(n, file))[|x + PageTail(n, file)| - 3], ImgOpen)
      == Some((ImageRef(file), AltOpen + Decimal(n) + "\"" + ElementEnd))
  {
    assert (x + PageTail(n, file))[|x + PageTail(n, file)| - 3] == PageTail(n, file)[0];
    FieldRoundTrip(ImgOpen, ImageRef(file), AltOpen + Decimal(n) + "\"" + ElementEnd);
  }

  /** A page's markup refers to exactly the image file it was written for. */
  lemma PageRoundTrip(n: nat, file: string)
    requires Quotable(file)
    ensures ReadImageRef(PageMarkup(n, file)) == Some(ImageRef(file))
  {
    PageTailPlain(n, file);
    SplitJoinSuffix(PageHead(n), PageTail(n, file), '\n');
    ImgLine(Split(Join(PageHead(n), '\n'), '\n'), n, file);
  }

  // ---------------------------------------------------------------- references

  /** The book path of directory `dir`, given as its path components, with a trailing `/`. */
  function DirPath(dir: seq<string>): string {
    if dir == [] then "" else DirPath(dir[..|dir| - 1]) + dir[|dir| - 1] + "/"
  }

  /** The book path a relative reference `ref` in a file of directory `dir` names; each leading `../` climbs one directory. */
  function Resolve(dir: seq<string>, ref: string): string
    decreases |ref|
  {
    if StartsWith(ref, "../") && dir != [] then Resolve(dir[..|dir| - 1], ref[3..])
    else DirPath(dir) + ref
  }

  /** The directory of content.opf and toc.ncx, whose references start there. */
  const PackageDir := ["OEBPS"]

  /** The directory of the pages' markup. */
  const PagesDir := ["OEBPS", "pages"]

  /**
    A page's image reference and the manifest's image entry name the same
    file of the book, as do the manifest's page entry and the page's file.
  */
  lemma ReferencesAgree(n: nat, file: string)
    ensures Resolve(PagesDir, ImageRef(file)) == "OEBPS/images/" + file
    ensures Resolve(PackageDir, ImageItem(n, file).href) == "OEBPS/images/" + file
    ensures Resolve(PackageDir, PageItem(n).href) == "OEBPS/pages/" + XhtmlName(n)
  {
    ImageRefResolves(file);
    ImageItemResolves(n, file);
    PageItemResolves(n);
  }

  lemma ImageItemResolves(n: nat, file: string)
    ensures Resolve(PackageDir, ImageItem(n, file).href) == "OEBPS/images/" + file
  {
    InPackageDir("images/" + file);
  }

  lemma PageItemResolves(n: nat)
    ensures Resolve(PackageDir, PageItem(n).href) == "OEBPS/pages/" + XhtmlName(n)
  {
    InPackageDir("pages/" + XhtmlName(n));
  }

  lemma PackageDirPath()
    ensures DirPath(PackageDir) == "OEBPS/"
  {
    assert PackageDir[..0] == [];
  }

  /** A reference from the package document that does not climb names a file under OEBPS/. */
  lemma InPackageDir(ref: string)
    requires |ref| > 0 && ref[0] != '.'
    ensures Resolve(PackageDir, ref) == "OEBPS/" + ref
  {
    PackageDirPath();
    assert !StartsWith(ref, "../");
  }

  lemma ImageRefResolves(file: string)
    ensures Resolve(PagesDir, ImageRef(file)) == "OEBPS/images/" + file
  {
    var r := ImageRef(file);
    assert r[..3] == "../";
    assert r[3..] == "images/" + file;
    assert PagesDir[..1] == PackageDir;
    InPackageDir("images/" + file);
  }
}
