# manga-integrator: page selection, ordering and batch conversion

manga-integrator turns manga chapters into PDF documents. A chapter is
either a folder of page images or a ZIP archive of them. The desktop tool
converts one chapter, a batch of archives, or every chapter folder under a
root folder, and then reports how many documents it created. This project
models the decisions the tool makes and proves properties about them:

- which file names count as images (`is_image_file`);
- the numeric key images are ordered by (`extract_number`: the first run
  of decimal digits in the name, or 0);
- the folder branch of `images_to_pdf`: filter the listing, give up when no
  image is left, sort stably by the key, and open every page in that order;
- the archive branch: give up before extracting when the archive names no
  image, otherwise convert the extracted scratch directory;
- the two batch loops, which count successes and failures and derive every
  output document's name;
- the final report, which announces success exactly when at least one
  document was created.

A page of an output document is represented by the path of the image it
comes from. Several things the tool asks of the file system or of the
imaging library become parameters:

- whether an image can be opened (`canOpen`);
- whether the document can be saved (`saveOk`);
- whether an archive can be read and extracted (`readable`);
- whether the scratch directory of an archive can be removed (`cleanupOk`);
- whether a path is a directory (`isDir`);
- whether one batch item converts (`convert`).

File names are modelled as ASCII strings, with '/' as the only path
separator (POSIX `os.path`).

Modules:

- `FileNames`: decimal digit runs, `extract_number`, lower-casing, and
  `is_image_file`.
- `Paths`: `os.path.basename`, `os.path.splitext` and `os.path.join`.
- `PageOrder`: the image filter, and a stable insertion sort by a key. The
  sort models Python's `sorted(..., key=...)`; it is proved sorted, a
  permutation, and stable. Stability means that names with equal keys keep
  their listing order. The module also proves that these properties
  determine the sort's output uniquely.
- `Conversion`: `images_to_pdf`, its page loop, and `extract_images_from_zip`.
- `Batch`: `process_all_zips`, `process_all_folders`, output naming, and
  `complete_batch_task`.
- `Wrappers`: an `Option` type.

The source never reaches the "no images" branch of `images_to_pdf` at
lines 180-185: the list of opened images is non-empty whenever the loop
finishes, because an empty filter result already returned at line 121.
The model therefore has no such branch. Its `FolderToPdf` states the same
outcome: no document exactly when the filter is empty, an image fails to
open, or the save fails.

## Model

| member | source | states |
|---|---|---|
| FileNames.ExtractNumber | img_2_pdf_2.py:25-27 | extract_number: the value of the first digit run of the name, or 0 without one; specified by ExtractNumberOfSplit and NoDigitsKeyZero below |
| FileNames.ExtractNumberOfSplit | img_2_pdf_2.py:25-27 | a name made of a digit-free prefix, a digit run and a rest not starting with a digit has as its key the decimal value of that run |
| FileNames.NoDigitsKeyZero | img_2_pdf_2.py:27 | a name with no digit has key 0 |
| FileNames.ZeroDigitsValue | img_2_pdf_2.py:27 | a digit run has value 0 exactly when every digit is '0' |
| FileNames.LeadingZeroValue | img_2_pdf_2.py:27 | a leading '0' does not change the value of a digit run (int() of the run) |
| FileNames.ZeroPaddingIgnored | img_2_pdf_2.py:25-27 | zero-padding the first number of a name ("p007" against "p7") leaves its key unchanged |
| FileNames.ZeroRunTiesWithNoDigits | img_2_pdf_2.py:25-27 | a name whose first number is all zeros gets the same key, 0, as a name without digits |
| FileNames.LaterRunsIgnoredExample | img_2_pdf_2.py:26-27 | only the first digit run counts: "vol2_p10.jpg" has key 2 |
| FileNames.EndsWithAny | img_2_pdf_2.py:31 | str.endswith with a tuple: true exactly when some listed suffix ends the string |
| FileNames.IsImageFile | img_2_pdf_2.py:30-31 | is_image_file: the lower-cased name ends in one of the six extensions; specified by IsImageFileIff and CaseChangesKeepVerdict below |
| FileNames.IsImageFileIff | img_2_pdf_2.py:30-31 | a name is an image exactly when its lower-cased form ends in one of .png, .jpg, .jpeg, .webp, .gif, .bmp |
| FileNames.CaseInsensitive | img_2_pdf_2.py:31 | two names that agree letter for letter up to case get the same verdict |
| FileNames.CaseChangesKeepVerdict | img_2_pdf_2.py:31 | upper-casing or lower-casing a name does not change its verdict |
| FileNames.ImageNameHasDot | img_2_pdf_2.py:31 | every accepted name contains a '.' |
| FileNames.NoDotRejected | img_2_pdf_2.py:31 | "xpng" is rejected: the dot of the extension is required |
| FileNames.UpperCaseAccepted | img_2_pdf_2.py:31 | "Cover.JPG" is accepted |
| FileNames.InnerExtensionRejected | img_2_pdf_2.py:31 | "page.png.txt" is rejected: only the final extension counts |
| FileNames.PdfNameIsNotImage | img_2_pdf_2.py:31 | a name ending in ".pdf" in any case is never an image |
| Paths.LastIndexOfSpec | img_2_pdf_2.py:301 | the last-occurrence search that basename and splitext rely on finds an occurrence, and none follows it |
| Paths.Basename | img_2_pdf_2.py:301 | os.path.basename: everything after the last '/'; specified by BasenameSpec |
| Paths.BasenameSpec | img_2_pdf_2.py:301 | the base name is a suffix of the path without any '/', preceded by a '/' unless it is the whole path |
| Paths.SplitExt | img_2_pdf_2.py:302 | os.path.splitext: the last '.' of the base name starts the extension unless only dots precede it; specified by SplitExtSpec, SplitExtOfExtension and SplitExtWithoutDot |
| Paths.SplitExtSpec | img_2_pdf_2.py:302 | root plus extension gives back the path; the extension is empty or one '.' followed by neither '.' nor '/' |
| Paths.SplitExtOfExtension | img_2_pdf_2.py:302 | conversely, a stem that is not all dots and has no '/', followed by a '.' and a tail without '.' or '/', splits into exactly that stem and extension |
| Paths.SplitExtWithoutDot | img_2_pdf_2.py:302 | a name without '.' has an empty extension and keeps the whole name as root |
| Paths.SplitExtExamples | img_2_pdf_2.py:302 | "chapter.01.zip" splits into "chapter.01" and ".zip"; ".zip" and "plain" have no extension |
| Paths.Join | img_2_pdf_2.py:305 | os.path.join of two components: an absolute second part wins, otherwise one '/' between them unless the first is empty or ends in '/'; specified by BasenameOfJoin, JoinPdfName and OutputFolderShape |
| Paths.BasenameOfJoin | img_2_pdf_2.py:305 | a name without '/' joined under a folder is the base name of the joined path |
| Paths.Stem | img_2_pdf_2.py:301-302 | the base name without its last extension; specified by StemIsPrefixOfBasename and StemOfPath |
| Paths.StemOfPath | img_2_pdf_2.py:301-302 | the stem of "<dir>/<stem><ext>" is the stem: folder and last extension are both removed |
| Paths.StemIsPrefixOfBasename | img_2_pdf_2.py:301-302 | the stem of an archive path is a prefix of its base name and holds no '/' |
| PageOrder.ImageFiles | img_2_pdf_2.py:116 | the filter keeps only image names, keeps every image name of the listing, and invents none |
| PageOrder.ImageFilesAppend | img_2_pdf_2.py:116 | filtering distributes over concatenation, so the filter keeps listing order |
| PageOrder.ImageFilesCount | img_2_pdf_2.py:116 | each image name is kept exactly as often as it is listed, and every other name is dropped |
| PageOrder.Sort | img_2_pdf_2.py:126 | the sorted list has the same length and the same names with the same multiplicities, ordered by non-decreasing key |
| PageOrder.SortStable | img_2_pdf_2.py:126 | the sort is stable: for every key, the names with that key keep their input order |
| PageOrder.SortCharacterized | img_2_pdf_2.py:126 | any key-ordered list whose names of each key appear in input order is the sorted list, so sorted, permutation and stability pin the page order down |
| PageOrder.PageSort | img_2_pdf_2.py:126 | sorted(image_files, key=extract_number); specified by Sort, SortStable and SortCharacterized with the key ExtractNumber |
| PageOrder.NoDigitNamesFirst | img_2_pdf_2.py:126 | every name sorted before a name without digits also has key 0 |
| PageOrder.SelectPages | img_2_pdf_2.py:116-126 | no pages exactly when the listing holds no image name; otherwise the image names, each as often as listed, sorted by key, with equal keys in listing order |
| Conversion.LoadPages | img_2_pdf_2.py:131-136 | the page loop succeeds exactly when every image opens, and then page i is the folder joined with the i-th sorted name |
| Conversion.Converts | img_2_pdf_2.py:116-179 | the condition for images_to_pdf on a folder to return True: an image is listed, every image of the page order opens, and the save succeeds; FolderToPdf's result is exactly this |
| Conversion.FolderToPdf | img_2_pdf_2.py:112-179 | a folder converts exactly when it lists an image, every image in page order opens, and the save succeeds; the document then has one page per image name, in page order |
| Conversion.HasImages | img_2_pdf_2.py:43 | any(): true exactly when some archive entry is an image name |
| Conversion.HasImagesIffSomeImageFile | img_2_pdf_2.py:43-47 | the archive pre-check accepts exactly the archives for which the image filter is non-empty |
| Conversion.ExtractImagesFromZip | img_2_pdf_2.py:34-68 | extraction succeeds exactly when the archive is readable and names an image; an archive without images is refused before anything is extracted; on success every entry is extracted |
| Conversion.ImagesToPdf | img_2_pdf_2.py:109-191 | a folder converts as FolderToPdf says and writes a document exactly when it converts; an archive writes a document exactly when readable, pre-checked and its scratch directory converts, and reports success exactly when it wrote one and the scratch directory was removed; an archive without images never converts and writes nothing |
| Conversion.PdfOnlyFolderHasNoPages | img_2_pdf_2.py:116-121 | a folder that holds only PDF documents yields no pages |
| Conversion.PdfOnlyFolderNeverConverts | img_2_pdf_2.py:116-121 | a folder that holds only PDF documents never converts, whatever opens and saves |
| Batch.CountTrue | img_2_pdf_2.py:290-324 | success_count: the number of items that converted, at most the number of items; specified by CountTrueMeaning |
| Batch.CountTrueMeaning | img_2_pdf_2.py:321-324 | the success count is positive exactly when some item converted, and equals the number of items exactly when all did |
| Batch.ZipOutputPath | img_2_pdf_2.py:301-305 | output_pdf of an archive: its stem plus ".pdf", joined under the output folder; specified by ZipOutputPathShape and ZipOutputPathOfArchive |
| Batch.ZipOutputPathShape | img_2_pdf_2.py:301-305 | an archive's output document has as base name the archive's stem plus ".pdf" and lies directly in the output folder |
| Batch.ZipOutputPathOfArchive | img_2_pdf_2.py:301-305 | the archive "<dir>/<stem><ext>" is converted into "<stem>.pdf" in the output folder |
| Batch.ZipTargetsAt | img_2_pdf_2.py:301-305 | the i-th output document of the archive batch is the one named after the i-th archive |
| Batch.ProcessAllZips | img_2_pdf_2.py:289-329 | success plus failure is the number of archives; success counts exactly the archives that converted into their own output document; the documents are named after the archives, in order |
| Batch.Subdirectories | img_2_pdf_2.py:347 | the directory entries of the root listing, in listing order; specified by SubdirectoriesCount, SubdirectoriesMembers and SubdirectoriesAppend |
| Batch.SubdirectoriesCount | img_2_pdf_2.py:347 | every directory entry is kept exactly as often as it is listed, every other entry dropped |
| Batch.SubdirectoriesMembers | img_2_pdf_2.py:347 | the subfolders are the listing entries that are directories, and all of them |
| Batch.SubdirectoriesAppend | img_2_pdf_2.py:347 | the directory filter distributes over concatenation, so listing order is kept |
| Batch.OutputFolder | img_2_pdf_2.py:342 | the output folder, root joined with "PDF输出"; specified by OutputFolderShape |
| Batch.OutputFolderShape | img_2_pdf_2.py:342 | the output folder has base name "PDF输出", is root + "/" + "PDF输出" for a root without trailing '/', and never ends in '/' |
| Batch.FolderTarget | img_2_pdf_2.py:365 | output_pdf of a subfolder: its name plus ".pdf" in the output folder; specified by FolderTargetShape |
| Batch.FolderTargetShape | img_2_pdf_2.py:365 | a subfolder's document has base name "<name>.pdf" and lies directly in the output folder |
| Batch.ProcessAllFolders | img_2_pdf_2.py:346-388 | (0, 0) without subfolders; otherwise the two counts add up to the number of subfolders, success counts the subfolders that converted, and subfolder i goes to "<name>.pdf" in the output folder |
| Batch.OutputFolderCountedAsFailure | img_2_pdf_2.py:342-347 | when the output folder is among the subfolders and fails to convert, the batch reports fewer successes than subfolders |
| Batch.OutputFolderAlwaysFails | img_2_pdf_2.py:342-347 | with the output folder present when the root is listed, and holding only PDF documents, it passes the directory filter and fails to convert, so the batch as written reports fewer successes than subfolders |
| Batch.OutputFolderFailureExample | img_2_pdf_2.py:342-347 | a root holding one convertible folder "ch1" lists the output folder too, and reports one success and one failure |
| Batch.UserFolders | img_2_pdf_2.py:347 | the subfolders other than the output folder, in order; specified by UserFoldersCount, UserFoldersMembers and UserFoldersAppend |
| Batch.UserFoldersCount | img_2_pdf_2.py:347 | every subfolder other than the output folder is kept exactly as often as it is listed; the output folder never |
| Batch.UserFoldersMembers | img_2_pdf_2.py:347 | the user folders are the subfolders other than the output folder, and all of them |
| Batch.UserFoldersAppend | img_2_pdf_2.py:347 | leaving out the output folder distributes over concatenation, so order is kept |
| Batch.ProcessUserFolders | img_2_pdf_2.py:346-388 | the folder batch over the user folders only, with the counts and output names of ProcessAllFolders |
| Batch.UserFoldersAllConverted | img_2_pdf_2.py:346-388 | when every user folder converts, the corrected batch reports no failure |
| Batch.BatchNotice | img_2_pdf_2.py:421-428 | the completion dialog announces created documents, with the failure count, exactly when the success count is positive |
| Batch.ZipBatchSucceeds | img_2_pdf_2.py:424 | an archive batch is announced as a success exactly when at least one archive converted |
| Batch.FolderBatchSucceeds | img_2_pdf_2.py:424 | a folder batch is announced as a success exactly when at least one subfolder converted |

## Left out

- The Tk interface is not modelled: dialogs, progress windows, percentages and progress callbacks. Neither are the worker thread (`run_in_thread`) and the `print` calls. They do not affect which documents are made or what the counts are.
- Image decoding, RGB conversion and PDF encoding (PIL) are not modelled. Whether an image opens and whether a save succeeds are the parameters `canOpen` and `saveOk`. An exception raised while opening or saving is caught at lines 186-191 and modelled by these two parameters; the other exceptions that handler catches are listed below.
- `merge_pdfs` and the merge mode (lines 198-226 and 398-410) are not modelled. They are calls into PyPDF2 and share no logic with the conversion.
- File-system effects are not modelled. That covers directory listings, `os.path.isdir`, `tempfile.mkdtemp`, `zipfile` extraction, `shutil.rmtree` and `os.makedirs`. Listings are inputs. The removal of the scratch directory is modelled only by whether it succeeds (`cleanupOk`).
- Conversion.ExtractImagesFromZip: `readable` covers every way reading or extracting the archive can fail. The scratch directory's listing is an input of `Conversion.ImagesToPdf`, not derived from the archive's entry names, because extraction into directories is file-system behaviour.
- Conversion.ImagesToPdf: the archive branch assumes the scratch directory is a folder, as `mkdtemp` guarantees. A path that is neither a folder nor a readable archive ends up as `readable == false`. So does a failing `tempfile.mkdtemp` (line 35): it raises outside the handler of `extract_images_from_zip`, but the handler of `images_to_pdf` turns it into the same False.
- Conversion.ImagesToPdf: a failing `os.listdir` (line 116) is not modelled, because the folder listing is an input. The source returns False without a document in that case.
- Conversion.ImagesToPdf: when `shutil.rmtree` of the scratch directory fails (line 162), the document has already been saved but False is returned. The model keeps this: `cleanupOk == false` gives `ok == false` with a non-empty `document`, and the archive batch then counts a failure although the PDF exists.
- Batch.ProcessAllZips: each archive's result comes from the abstract `convert`. Its link to `Conversion.ImagesToPdf` is by documentation, not by a proof across the two modules. For the folder batch, `Batch.OutputFolderAlwaysFails` instantiates `convert` with `Conversion.Converts`.
- Batch.ProcessAllFolders: takes the already-filtered subfolder list. The filter itself is `Batch.Subdirectories`.
- FileNames.ExtractNumber: names are ASCII, so `\d` means '0'..'9'. Python also matches other Unicode decimal digits, and its case mapping in `str.lower` is wider than ASCII.
- Paths.BasenameSpec: only '/' separates path components. Windows separators and drive letters are not modelled.

## Findings

| source | as written | input that shows it | evidently intended | confidence | as-written member | corrected member |
|---|---|---|---|---|---|---|
| img_2_pdf_2.py:342-347 | the output folder "PDF输出" is created inside the root before the root is listed, so it is processed as one more subfolder; it holds no image, so it always fails | root "/manga" containing only the convertible folder "ch1": the batch reports 1 success and 1 failure | only the user's chapter folders are converted, so a batch in which every chapter converts reports no failure | not executed | Batch.OutputFolderAlwaysFails, Batch.OutputFolderCountedAsFailure, Batch.OutputFolderFailureExample | Batch.ProcessUserFolders, Batch.UserFoldersAllConverted |
