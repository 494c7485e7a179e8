/**
  What a reading system finds in the book `create_epub` leaves in its working
  directory: the container names the package document, the package document
  reads back to its manifest and spine, and every reference of the manifest,
  the pages and the navigation map names a file of the book, except where the
  page loop was stopped early or no image was saved.
*/
module Reading {
  import opened Options
  import opened Text
  import opened Naming
  import opened Pages
  import opened Zip
  import opened Markup
  import opened Epub

  /** Saved page names can be written into an attribute and read back. */
  lemma PageNamesQuotable(pages: seq<Page>)
    ensures FilesQuotable(PageNames(pages))
  {
    var files := PageNames(pages);
    forall i | 0 <= i < |files| ensures Quotable(files[i]) {
      PageNameIsPlain(pages[i].number);
    }
  }

  // What each generated document says when read back.

  lemma ContainerTextReads()
    ensures ReadRootfile(Render(ContainerDoc)) == Some(OpfPath)
  {
    ContainerNamesPackage();
  }

  lemma PackageTextReads(title: string, files: seq<string>)
    requires FilesQuotable(files)
    ensures ReadPackage(Render(PackageDoc(title, files))) == Some(Package([NcxItem] + ManifestItems(files), SpineIds(files)))
  {
    PackageRoundTrip(title, files);
  }

  lemma NcxTextReads(title: string)
    ensures ReadNavTarget(Render(NcxDoc(title))) == Some(NavTarget)
  {
    NavRoundTrip(title);
  }

  lemma PageTextReads(n: nat, file: string)
    requires Quotable(file)
    ensures ReadImageRef(Render(PageDoc(n, file))) == Some(ImageRef(file))
  {
    PageRoundTrip(n, file);
  }

  /** The container file names the package document, and the book holds it. */
  lemma ContainerFindsPackage(title: string, pages: seq<Page>, w: nat)
    requires w <= |pages|
    ensures var tree := BookTree(title, pages, w);
      && ContainerPath in tree && tree[ContainerPath].Document?
      && ReadRootfile(Render(tree[ContainerPath].doc)) == Some(OpfPath)
      && OpfPath in tree
  {
    BookTreeFixed(title, pages, w);
    ContainerTextReads();
  }

  /** The package document reads back to the manifest and spine of the saved images. */
  lemma PackageReadsBack(title: string, pages: seq<Page>, w: nat)
    requires w <= |pages|
    ensures var files := PageNames(pages);
      var tree := BookTree(title, pages, w);
      && OpfPath in tree && tree[OpfPath].Document?
      && ReadPackage(Render(tree[OpfPath].doc)) == Some(Package([NcxItem] + ManifestItems(files), SpineIds(files)))
  {
    BookTreeFixed(title, pages, w);
    PageNamesQuotable(pages);
    PackageTextReads(title, PageNames(pages));
  }

  /** The spine lists the pages in order, each by the id of its manifest entry, a page's markup. */
  lemma SpineFollowsManifest(files: seq<string>)
    ensures |SpineIds(files)| == |files|
    ensures forall k :: 0 <= k < |files| ==>
      SpineIds(files)[k] == ManifestItems(files)[2 * k].id && ManifestItems(files)[2 * k].mediaType == XhtmlType
  {
  }

  lemma NcxItemTarget()
    ensures Resolve(PackageDir, NcxItem.href) == NcxPath
  {
    InPackageDir(NcxItem.href);
  }

  /** The manifest's ncx entry names the table of contents, which the book holds. */
  lemma NcxEntryResolves(title: string, pages: seq<Page>, w: nat)
    requires w <= |pages|
    ensures var tree := BookTree(title, pages, w);
      Resolve(PackageDir, NcxItem.href) == NcxPath && NcxPath in tree && tree[NcxPath] == Document(NcxDoc(title))
  {
    NcxItemTarget();
    BookTreeFixed(title, pages, w);
  }

  /** Where the manifest's image entries point, for any list of saved image files. */
  lemma ImageItemTargets(files: seq<string>)
    ensures forall k :: 0 <= k < |files| ==> Resolve(PackageDir, ManifestItems(files)[2 * k + 1].href) == ImagesPath + files[k]
  {
    forall k | 0 <= k < |files| ensures Resolve(PackageDir, ManifestItems(files)[2 * k + 1].href) == ImagesPath + files[k] {
      ImageItemResolves(k + 1, files[k]);
    }
  }

  /** Where the manifest's page entries point, for any list of saved image files. */
  lemma PageItemTargets(files: seq<string>)
    ensures forall k :: 0 <= k < |files| ==> Resolve(PackageDir, ManifestItems(files)[2 * k].href) == PagePath(k + 1)
  {
    forall k | 0 <= k < |files| ensures Resolve(PackageDir, ManifestItems(files)[2 * k].href) == PagePath(k + 1) {
      PageItemNamesPagePath(k + 1);
    }
  }

  /** Each image entry of the manifest names the JPEG the image loop saved for it. */
  lemma ImageEntriesResolve(title: string, pages: seq<Page>, w: nat)
    requires w <= |pages| && InPageOrder(pages)
    ensures var files := PageNames(pages);
      var tree := BookTree(title, pages, w);
      forall k :: 0 <= k < |pages| ==>
        var target := Resolve(PackageDir, ManifestItems(files)[2 * k + 1].href);
        target in tree && tree[target] == JpegFile(pages[k].image)
  {
    var files := PageNames(pages);
    var tree := BookTree(title, pages, w);
    ImageItemTargets(files);
    BookTreeImages(title, pages, w);
    forall k | 0 <= k < |pages|
      ensures Resolve(PackageDir, ManifestItems(files)[2 * k + 1].href) in tree
      ensures tree[Resolve(PackageDir, ManifestItems(files)[2 * k + 1].href)] == JpegFile(pages[k].image)
    {
      assert Resolve(PackageDir, ManifestItems(files)[2 * k + 1].href) == ImagesPath + PageName(pages[k].number);
    }
  }

  /** Each page entry of the manifest names a page's markup in the book exactly when the page loop reached that page. */
  lemma PageEntriesResolve(title: string, pages: seq<Page>, w: nat)
    requires w <= |pages|
    ensures var files := PageNames(pages);
      forall k :: 0 <= k < |pages| ==> Resolve(PackageDir, ManifestItems(files)[2 * k].href) == PagePath(k + 1)
    ensures var tree := BookTree(title, pages, w);
      forall k :: 1 <= k <= |pages| ==> (PagePath(k) in tree <==> k <= w)
    ensures var tree := BookTree(title, pages, w);
      forall k :: 1 <= k <= w ==> PagePath(k) in tree && tree[PagePath(k)] == Document(PageDoc(k, PageNames(pages)[k - 1]))
  {
    PageItemTargets(PageNames(pages));
    BookTreePages(title, pages, w);
  }

  /** Where a page's image reference points, for any list of saved image files. */
  lemma ImageRefTargets(files: seq<string>)
    ensures forall k :: 0 <= k < |files| ==> Resolve(PagesDir, ImageRef(files[k])) == ImagesPath + files[k]
  {
    forall k | 0 <= k < |files| ensures Resolve(PagesDir, ImageRef(files[k])) == ImagesPath + files[k] {
      ImageRefResolves(files[k]);
    }
  }

  /**
    Each page the loop wrote, page `k + 1` for `k < w` (`Epub.BookTreePages`
    gives its markup), shows by a reference relative to its own directory the
    JPEG saved for the image at the same position.
  */
  lemma PagesShowTheirImages(title: string, pages: seq<Page>, w: nat)
    requires w <= |pages| && InPageOrder(pages)
    ensures var files := PageNames(pages);
      var tree := BookTree(title, pages, w);
      forall k :: 0 <= k < w ==>
        var target := Resolve(PagesDir, ImageRef(files[k]));
        target in tree && tree[target] == JpegFile(pages[k].image)
  {
    var files := PageNames(pages);
    var tree := BookTree(title, pages, w);
    ImageRefTargets(files);
    BookTreeImages(title, pages, w);
    forall k | 0 <= k < w
      ensures var target := Resolve(PagesDir, ImageRef(files[k]));
        target in tree && tree[target] == JpegFile(pages[k].image)
    {
      assert Resolve(PagesDir, ImageRef(files[k])) == ImagesPath + PageName(pages[k].number);
    }
  }

  /** The navigation map's only entry names the first page, which the book holds exactly when a page was written. */
  lemma NavTargetResolves(title: string, pages: seq<Page>, w: nat)
    requires w <= |pages|
    ensures Resolve(PackageDir, NavTarget) in BookTree(title, pages, w) <==> w >= 1
  {
    NavTargetIsFirstPage();
    PageItemNamesPagePath(1);
    assert PageItem(1).href == NavTarget;
    BookTreePages(title, pages, w);
  }
}
