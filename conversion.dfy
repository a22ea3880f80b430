/** images_to_pdf and the archive step in front of it. A page of the
    output document is represented by the path of the image file it is
    made from; opening an image and saving the document are calls into the
    imaging library, so whether they succeed is given as a parameter
    (`canOpen` per image path, `saveOk` for the final save). */
module Conversion {
  import opened Wrappers
  import opened FileNames
  import opened Paths
  import opened PageOrder

  // ---------------------------------------------------------------------
  // The folder branch
  // ---------------------------------------------------------------------

  /** The page loop: every name, in order, is joined to the folder and
      opened; the first image that cannot be opened ends the conversion. */
  method LoadPages(folder: string, files: seq<string>, canOpen: string -> bool)
    returns (ok: bool, pages: seq<string>)
    ensures ok <==> forall i :: 0 <= i < |files| ==> canOpen(Join(folder, files[i]))
    ensures ok ==> |pages| == |files|
    ensures ok ==> forall i :: 0 <= i < |files| ==> pages[i] == Join(folder, files[i])
  {
    pages := [];
    var i := 0;
    while i < |files|
      invariant 0 <= i <= |files|
      invariant |pages| == i
      invariant forall j :: 0 <= j < i ==> pages[j] == Join(folder, files[j])
      invariant forall j :: 0 <= j < i ==> canOpen(Join(folder, files[j]))
    {
      var path := Join(folder, files[i]);
      if !canOpen(path) {
        return false, pages;
      }
      pages := pages + [path];
      i := i + 1;
    }
    return true, pages;
  }

  /** Every image named in `files` can be opened in `folder`. */
  predicate AllOpen(folder: string, files: seq<string>, canOpen: string -> bool)
  {
    forall i :: 0 <= i < |files| ==> canOpen(Join(folder, files[i]))
  }

  /** A folder with this listing converts: it lists an image, every image of
      its page order opens, and the document is saved. */
  predicate Converts(folder: string, listing: seq<string>, canOpen: string -> bool, saveOk: bool)
  {
    ImageFiles(listing) != [] && AllOpen(folder, PageSort(ImageFiles(listing)), canOpen) && saveOk
  }

  /** images_to_pdf on a folder: no document (and failure) when the listing
      holds no image name; otherwise one page per image name, in page order,
      provided every image opens and the document is saved. */
  method FolderToPdf(folder: string, listing: seq<string>, canOpen: string -> bool, saveOk: bool)
    returns (ok: bool, document: seq<string>)
    ensures (forall i :: 0 <= i < |listing| ==> !IsImageFile(listing[i])) ==> !ok
    ensures ok <==> Converts(folder, listing, canOpen, saveOk)
    ensures ok ==> |document| == |ImageFiles(listing)|
    ensures ok ==> forall i :: 0 <= i < |document| ==> document[i] == Join(folder, PageSort(ImageFiles(listing))[i])
    ensures !ok ==> document == []
  {
    var selected := SelectPages(listing);
    if selected.None? {
      return false, [];
    }
    assert selected.value == PageSort(ImageFiles(listing));
    var loaded, pages := LoadPages(folder, selected.value, canOpen);
    if !loaded || !saveOk {
      return false, [];
    }
    // the first image is saved with all the others appended
    document := [pages[0]] + pages[1..];
    assert document == pages;
    return true, document;
  }

  /** A folder that holds only PDF documents (such as an output folder) never converts. */
  lemma PdfOnlyFolderNeverConverts(folder: string, listing: seq<string>, canOpen: string -> bool, saveOk: bool)
    requires forall i :: 0 <= i < |listing| ==> EndsWith(Lower(listing[i]), ".pdf")
    ensures !Converts(folder, listing, canOpen, saveOk)
  {
    PdfOnlyFolderHasNoPages(listing);
  }

  // ---------------------------------------------------------------------
  // The archive branch
  // ---------------------------------------------------------------------

  /** has_images: some name listed in the archive is an image name. */
  function HasImages(names: seq<string>): (r: bool)
    ensures r <==> exists i :: 0 <= i < |names| && IsImageFile(names[i])
  {
    if names == [] then false
    else
      var rest := HasImages(names[1..]);
      assert forall i :: 1 <= i < |names| ==> names[i] == names[1..][i - 1];
      IsImageFile(names[0]) || rest
  }

  /** The pre-check accepts exactly the archives whose image filter is not empty. */
  lemma HasImagesIffSomeImageFile(names: seq<string>)
    ensures HasImages(names) <==> ImageFiles(names) != []
  {
    if ImageFiles(names) != [] {
      assert ImageFiles(names)[0] in names;
    }
  }

  /** extract_images_from_zip: None when the archive cannot be read or names
      no image, before anything is extracted; otherwise every entry, in
      archive order, is extracted to the scratch directory. */
  function ExtractImagesFromZip(names: seq<string>, readable: bool): (r: Option<seq<string>>)
    ensures r.Some? <==> readable && exists i :: 0 <= i < |names| && IsImageFile(names[i])
    ensures r.Some? ==> r.value == names
  {
    if !readable then None
    else if !HasImages(names) then None
    else Some(names)
  }

  /** What images_to_pdf is given: a folder with its listing, or an archive
      with its name list, whether it can be read, the scratch directory it
      is extracted to, that directory's listing after extraction, and
      whether the scratch directory can be removed afterwards. */
  datatype Source =
    | Folder(path: string, listing: seq<string>)
    | Archive(names: seq<string>, readable: bool, scratch: string, scratchListing: seq<string>, cleanupOk: bool)

  /** images_to_pdf: a folder is converted directly; an archive is
      pre-checked and extracted, and the scratch directory converted and
      then removed. A removal that fails turns the result into a failure
      although the document has already been written; `document` is the
      document written, if any. */
  method ImagesToPdf(source: Source, canOpen: string -> bool, saveOk: bool)
    returns (ok: bool, document: seq<string>)
    ensures source.Folder? ==> (ok <==> Converts(source.path, source.listing, canOpen, saveOk))
    ensures source.Folder? ==> (document != [] <==> ok)
    ensures source.Archive? ==>
      (document != [] <==> source.readable && HasImages(source.names) &&
                           Converts(source.scratch, source.scratchListing, canOpen, saveOk))
    ensures source.Archive? ==> (ok <==> document != [] && source.cleanupOk)
    ensures source.Archive? && !HasImages(source.names) ==> !ok && document == []
    ensures document != [] ==> |document| == |ImageFiles(if source.Folder? then source.listing else source.scratchListing)|
    ensures document != [] ==> forall i :: 0 <= i < |document| ==>
      document[i] == (if source.Folder?
                      then Join(source.path, PageSort(ImageFiles(source.listing))[i])
                      else Join(source.scratch, PageSort(ImageFiles(source.scratchListing))[i]))
  {
    match source
    case Folder(path, listing) =>
      ok, document := FolderToPdf(path, listing, canOpen, saveOk);
    case Archive(names, readable, scratch, scratchListing, cleanupOk) =>
      var extracted := ExtractImagesFromZip(names, readable);
      if extracted.None? {
        return false, [];
      }
      ok, document := FolderToPdf(scratch, scratchListing, canOpen, saveOk);
      if !cleanupOk {
        // rmtree raises after the document was saved; the exception handler reports failure
        ok := false;
      }
  }

  /** A folder that holds only PDF documents (such as an output folder) gives no pages. */
  lemma PdfOnlyFolderHasNoPages(listing: seq<string>)
    requires forall i :: 0 <= i < |listing| ==> EndsWith(Lower(listing[i]), ".pdf")
    ensures SelectPages(listing) == None
  {
    forall i | 0 <= i < |listing| ensures !IsImageFile(listing[i]) {
      PdfNameIsNotImage(listing[i]);
    }
  }
}
