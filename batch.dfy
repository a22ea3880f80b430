/** The two batch modes: a list of archives converted into one output
    folder, and every subfolder of a root folder converted into the output
    subfolder "PDF输出" of that root. Whether one item converts is the
    result of images_to_pdf on it (see Conversion.ImagesToPdf), given here
    as `convert(inputPath, outputPdf)`. */
module Batch {
  import opened FileNames
  import opened Paths
  import opened Conversion

  /** The number of items that converted. */
  function CountTrue(rs: seq<bool>): (n: nat)
    ensures n <= |rs|
  {
    if rs == [] then 0 else CountTrue(rs[..|rs| - 1]) + (if rs[|rs| - 1] then 1 else 0)
  }

  /** Some item succeeded exactly when the count is positive, and every item
      did exactly when the count is the number of items. */
  lemma {:induction false} CountTrueMeaning(rs: seq<bool>)
    ensures CountTrue(rs) > 0 <==> exists i :: 0 <= i < |rs| && rs[i]
    ensures CountTrue(rs) == |rs| <==> forall i :: 0 <= i < |rs| ==> rs[i]
  {
    if rs != [] {
      var init := rs[..|rs| - 1];
      CountTrueMeaning(init);
      assert forall i :: 0 <= i < |init| ==> init[i] == rs[i];
    }
  }

  /** Counting one more item. */
  lemma CountTruePrefix(rs: seq<bool>, i: nat)
    requires i < |rs|
    ensures CountTrue(rs[..i + 1]) == CountTrue(rs[..i]) + if rs[i] then 1 else 0
  {
    assert rs[..i + 1][..i] == rs[..i];
  }

  // ---------------------------------------------------------------------
  // Archives into one output folder
  // ---------------------------------------------------------------------

  /** The output document of an archive: its base name without the last
      extension, with ".pdf" appended, in the output folder. */
  function ZipOutputPath(outFolder: string, zip: string): string
  {
    Join(outFolder, Stem(zip) + ".pdf")
  }

  /** A document name without '/' joined under a folder: it is the base
      name of the result, and sits right after the folder and one '/'. */
  lemma JoinPdfName(outFolder: string, stem: string)
    requires '/' !in stem
    ensures Basename(Join(outFolder, stem + ".pdf")) == stem + ".pdf"
    ensures outFolder != [] && outFolder[|outFolder| - 1] != '/' ==>
      Join(outFolder, stem + ".pdf") == outFolder + "/" + stem + ".pdf"
  {
    var name := stem + ".pdf";
    assert '/' !in name by {
      forall k | 0 <= k < |name| ensures name[k] != '/' {
        if k < |stem| {
          assert name[k] == stem[k];
        } else {
          assert name[k] == ".pdf"[k - |stem|];
        }
      }
    }
    BasenameOfJoin(outFolder, name);
    assert name[0] == (if stem == [] then '.' else stem[0]);
    assert outFolder + "/" + name == outFolder + "/" + stem + ".pdf";
  }

  /** The output of an archive is named after it and lies in the output folder. */
  lemma ZipOutputPathShape(outFolder: string, zip: string)
    ensures Basename(ZipOutputPath(outFolder, zip)) == Stem(zip) + ".pdf"
    ensures outFolder != [] && outFolder[|outFolder| - 1] != '/' ==>
      ZipOutputPath(outFolder, zip) == outFolder + "/" + Stem(zip) + ".pdf"
  {
    StemIsPrefixOfBasename(zip);
    JoinPdfName(outFolder, Stem(zip));
  }

  /** An archive "<dir>/<stem><ext>" is converted into "<stem>.pdf" in the output folder. */
  lemma ZipOutputPathOfArchive(outFolder: string, dir: string, stem: string, ext: string)
    requires '/' !in stem && !AllDots(stem)
    requires |ext| > 0 && ext[0] == '.' && '.' !in ext[1..] && '/' !in ext
    ensures ZipOutputPath(outFolder, dir + "/" + stem + ext) == Join(outFolder, stem + ".pdf")
  {
    StemOfPath(dir, stem, ext);
  }

  /** The output document of every archive, in order. */
  function ZipTargets(outFolder: string, zips: seq<string>): (ts: seq<string>)
    ensures |ts| == |zips|
  {
    if zips == [] then []
    else ZipTargets(outFolder, zips[..|zips| - 1]) + [ZipOutputPath(outFolder, zips[|zips| - 1])]
  }

  /** Each archive's output document is the one named after it. */
  lemma {:induction false} ZipTargetsAt(outFolder: string, zips: seq<string>, i: nat)
    requires i < |zips|
    ensures ZipTargets(outFolder, zips)[i] == ZipOutputPath(outFolder, zips[i])
  {
    if i < |zips| - 1 {
      var init := zips[..|zips| - 1];
      ZipTargetsAt(outFolder, init, i);
      assert init[i] == zips[i];
    }
  }

  /** The outcome of every archive, in order. */
  function ZipResults(zips: seq<string>, outFolder: string, convert: (string, string) -> bool): (rs: seq<bool>)
    ensures |rs| == |zips|
  {
    var ts := ZipTargets(outFolder, zips);
    seq(|zips|, i requires 0 <= i < |zips| => convert(zips[i], ts[i]))
  }

  /** The outcome of archive i is the conversion into its own output document. */
  lemma ZipResultAt(zips: seq<string>, outFolder: string, convert: (string, string) -> bool, i: nat)
    requires i < |zips|
    ensures ZipResults(zips, outFolder, convert)[i] == convert(zips[i], ZipOutputPath(outFolder, zips[i]))
  {
    ZipTargetsAt(outFolder, zips, i);
  }

  /** The output documents of the first i + 1 archives. */
  lemma ZipTargetsExtend(outFolder: string, zips: seq<string>, i: nat)
    requires i < |zips|
    ensures ZipTargets(outFolder, zips[..i + 1]) == ZipTargets(outFolder, zips[..i]) + [ZipOutputPath(outFolder, zips[i])]
  {
    assert zips[..i + 1][..i] == zips[..i];
    assert zips[..i + 1][i] == zips[i];
  }

  /** process_all_zips: every archive increments exactly one of the two
      counters, the success counter exactly when it converted; its output
      document is the one named after it. */
  method ProcessAllZips(zips: seq<string>, outFolder: string, convert: (string, string) -> bool)
    returns (success: nat, fail: nat, targets: seq<string>)
    ensures success + fail == |zips|
    ensures success == CountTrue(ZipResults(zips, outFolder, convert))
    ensures targets == ZipTargets(outFolder, zips)
  {
    ghost var rs := ZipResults(zips, outFolder, convert);
    success, fail, targets := 0, 0, [];
    var i := 0;
    while i < |zips|
      invariant 0 <= i <= |zips|
      invariant success + fail == i
      invariant success == CountTrue(rs[..i])
      invariant targets == ZipTargets(outFolder, zips[..i])
    {
      var outputPdf := ZipOutputPath(outFolder, zips[i]);
      ZipResultAt(zips, outFolder, convert, i);
      CountTruePrefix(rs, i);
      if convert(zips[i], outputPdf) {
        success := success + 1;
      } else {
        fail := fail + 1;
      }
      ZipTargetsExtend(outFolder, zips, i);
      targets := targets + [outputPdf];
      i := i + 1;
    }
    assert rs[..|zips|] == rs;
    assert zips[..|zips|] == zips;
  }

  // ---------------------------------------------------------------------
  // Subfolders of a root folder
  // ---------------------------------------------------------------------

  const OutputFolderName: string := "PDF输出"

  /** The output folder of the folder batch, inside the root folder. */
  function OutputFolder(root: string): string
  {
    Join(root, OutputFolderName)
  }

  /** The entries of the root listing that are directories, in listing order. */
  function Subdirectories(root: string, listing: seq<string>, isDir: string -> bool): seq<string>
  {
    if listing == [] then []
    else (if isDir(Join(root, listing[0])) then [listing[0]] else []) + Subdirectories(root, listing[1..], isDir)
  }

  /** Every directory entry is kept as often as it is listed, every other entry dropped. */
  lemma {:induction false} SubdirectoriesCount(root: string, listing: seq<string>, isDir: string -> bool, x: string)
    ensures multiset(Subdirectories(root, listing, isDir))[x] == if isDir(Join(root, x)) then multiset(listing)[x] else 0
  {
    if listing != [] {
      SubdirectoriesCount(root, listing[1..], isDir, x);
      var h := if isDir(Join(root, listing[0])) then [listing[0]] else [];
      assert Subdirectories(root, listing, isDir) == h + Subdirectories(root, listing[1..], isDir);
      assert multiset(Subdirectories(root, listing, isDir)) == multiset(h) + multiset(Subdirectories(root, listing[1..], isDir));
      assert listing == [listing[0]] + listing[1..];
      assert multiset(listing) == multiset([listing[0]]) + multiset(listing[1..]);
    }
  }

  /** The subfolders are the listing entries that are directories, and all of them. */
  lemma SubdirectoriesMembers(root: string, listing: seq<string>, isDir: string -> bool, x: string)
    ensures x in Subdirectories(root, listing, isDir) <==> x in listing && isDir(Join(root, x))
  {
    SubdirectoriesCount(root, listing, isDir, x);
    assert x in multiset(Subdirectories(root, listing, isDir)) <==> x in Subdirectories(root, listing, isDir);
  }

  /** One step of the directory filter. */
  lemma SubdirectoriesCons(root: string, x: string, s: seq<string>, isDir: string -> bool)
    ensures Subdirectories(root, [x] + s, isDir) == (if isDir(Join(root, x)) then [x] else []) + Subdirectories(root, s, isDir)
  {
    assert ([x] + s)[1..] == s;
  }

  /** The directory filter distributes over concatenation, so listing order is kept. */
  lemma {:induction false} SubdirectoriesAppend(root: string, a: seq<string>, b: seq<string>, isDir: string -> bool)
    ensures Subdirectories(root, a + b, isDir) == Subdirectories(root, a, isDir) + Subdirectories(root, b, isDir)
  {
    if a == [] {
      assert a + b == b;
    } else {
      var x, t := a[0], a[1..];
      assert a == [x] + t;
      assert a + b == [x] + (t + b);
      SubdirectoriesCons(root, x, t + b, isDir);
      SubdirectoriesCons(root, x, t, isDir);
      SubdirectoriesAppend(root, t, b, isDir);
      var h := if isDir(Join(root, x)) then [x] else [];
      assert h + (Subdirectories(root, t, isDir) + Subdirectories(root, b, isDir))
          == (h + Subdirectories(root, t, isDir)) + Subdirectories(root, b, isDir);
    }
  }

  /** The output document of a subfolder: its name with ".pdf" appended, in the output folder. */
  function FolderTarget(root: string, subdir: string): string
  {
    Join(OutputFolder(root), subdir + ".pdf")
  }

  /** The output folder is "PDF输出" directly inside the root. */
  lemma OutputFolderShape(root: string)
    ensures Basename(OutputFolder(root)) == OutputFolderName
    ensures root != [] && root[|root| - 1] != '/' ==> OutputFolder(root) == root + "/" + OutputFolderName
    ensures OutputFolder(root) != [] && OutputFolder(root)[|OutputFolder(root)| - 1] == OutputFolderName[|OutputFolderName| - 1]
  {
    assert '/' !in OutputFolderName;
    BasenameOfJoin(root, OutputFolderName);
  }

  /** A subfolder's document is "<name>.pdf" directly inside the output folder. */
  lemma FolderTargetShape(root: string, subdir: string)
    requires '/' !in subdir
    ensures Basename(FolderTarget(root, subdir)) == subdir + ".pdf"
    ensures FolderTarget(root, subdir) == OutputFolder(root) + "/" + subdir + ".pdf"
  {
    OutputFolderShape(root);
    JoinPdfName(OutputFolder(root), subdir);
  }

  /** The outcome of every subfolder, in order. */
  function FolderResults(root: string, subdirs: seq<string>, convert: (string, string) -> bool): (rs: seq<bool>)
    ensures |rs| == |subdirs|
  {
    seq(|subdirs|, i requires 0 <= i < |subdirs| =>
      convert(Join(root, subdirs[i]), FolderTarget(root, subdirs[i])))
  }

  /** process_all_folders: (0, 0) when there is no subfolder; otherwise every
      subfolder increments exactly one of the two counters. */
  method ProcessAllFolders(root: string, subdirs: seq<string>, convert: (string, string) -> bool)
    returns (success: nat, fail: nat, targets: seq<string>)
    ensures subdirs == [] ==> success == 0 && fail == 0
    ensures success + fail == |subdirs|
    ensures success == CountTrue(FolderResults(root, subdirs, convert))
    ensures |targets| == |subdirs|
    ensures forall i :: 0 <= i < |subdirs| ==> targets[i] == FolderTarget(root, subdirs[i])
  {
    if |subdirs| == 0 {
      return 0, 0, [];
    }
    ghost var rs := FolderResults(root, subdirs, convert);
    var outputFolder := OutputFolder(root);
    success, fail, targets := 0, 0, [];
    var i := 0;
    while i < |subdirs|
      invariant 0 <= i <= |subdirs|
      invariant success + fail == i
      invariant success == CountTrue(rs[..i])
      invariant |targets| == i
      invariant forall j :: 0 <= j < i ==> targets[j] == FolderTarget(root, subdirs[j])
    {
      var subdirPath := Join(root, subdirs[i]);
      var outputPdf := Join(outputFolder, subdirs[i] + ".pdf");
      assert outputPdf == FolderTarget(root, subdirs[i]);
      assert rs[i] == convert(subdirPath, outputPdf);
      CountTruePrefix(rs, i);
      if convert(subdirPath, outputPdf) {
        success := success + 1;
      } else {
        fail := fail + 1;
      }
      targets := targets + [outputPdf];
      i := i + 1;
    }
    assert rs[..|subdirs|] == rs;
  }

  /** When the output folder is among the subfolders processed and its
      conversion fails, the batch reports fewer successes than subfolders.
      OutputFolderAlwaysFails below shows that both premises hold for the
      batch as written. */
  lemma {:induction false} OutputFolderCountedAsFailure(root: string, subdirs: seq<string>, convert: (string, string) -> bool, k: nat)
    requires k < |subdirs| && subdirs[k] == OutputFolderName
    requires !convert(OutputFolder(root), FolderTarget(root, OutputFolderName))
    ensures CountTrue(FolderResults(root, subdirs, convert)) < |subdirs|
  {
    var rs := FolderResults(root, subdirs, convert);
    assert !rs[k];
    CountTrueMeaning(rs);
  }

  /** A root with one manga folder "ch1" that converts: the listing taken
      after the output folder was created also names "PDF输出", and the batch
      counts one success and one failure. */
  lemma OutputFolderFailureExample()
    ensures var convert := (input: string, output: string) => input == "/manga/ch1";
            var rs := FolderResults("/manga", ["ch1", OutputFolderName], convert);
            CountTrue(rs) == 1 && |rs| - CountTrue(rs) == 1
  {
    var convert := (input: string, output: string) => input == "/manga/ch1";
    var rs := FolderResults("/manga", ["ch1", OutputFolderName], convert);
    assert Join("/manga", "ch1") == "/manga/ch1";
    assert Join("/manga", OutputFolderName) == "/manga/" + OutputFolderName;
    assert ("/manga/" + OutputFolderName)[7] != "/manga/ch1"[7];
    assert rs[0] && !rs[1];
    assert rs[..1] == [true];
  }

  /** The whole story of the batch as written: the output folder exists when
      the root is listed, so it passes the directory filter; it holds only
      PDF documents, so images_to_pdf fails on it; hence, whatever the
      other folders hold, the batch reports fewer successes than folders. */
  lemma OutputFolderAlwaysFails(root: string, listing: seq<string>, isDir: string -> bool,
                                contents: string -> seq<string>, canOpen: string -> bool, saveOk: bool)
    requires OutputFolderName in listing && isDir(OutputFolder(root))
    requires forall i :: 0 <= i < |contents(OutputFolder(root))| ==> EndsWith(Lower(contents(OutputFolder(root))[i]), ".pdf")
    ensures var convert := (input: string, output: string) => Converts(input, contents(input), canOpen, saveOk);
            var subdirs := Subdirectories(root, listing, isDir);
            CountTrue(FolderResults(root, subdirs, convert)) < |subdirs|
  {
    var convert := (input: string, output: string) => Converts(input, contents(input), canOpen, saveOk);
    var subdirs := Subdirectories(root, listing, isDir);
    SubdirectoriesMembers(root, listing, isDir, OutputFolderName);
    var j :| 0 <= j < |subdirs| && subdirs[j] == OutputFolderName;
    PdfOnlyFolderNeverConverts(OutputFolder(root), contents(OutputFolder(root)), canOpen, saveOk);
    assert !convert(OutputFolder(root), FolderTarget(root, OutputFolderName));
    OutputFolderCountedAsFailure(root, subdirs, convert, j);
  }

  /** The subfolders that are not the output folder itself, in order. */
  function UserFolders(subdirs: seq<string>): seq<string>
  {
    if subdirs == [] then []
    else (if subdirs[0] != OutputFolderName then [subdirs[0]] else []) + UserFolders(subdirs[1..])
  }

  /** Every folder other than the output folder is kept as often as it is listed. */
  lemma {:induction false} UserFoldersCount(subdirs: seq<string>, x: string)
    ensures multiset(UserFolders(subdirs))[x] == if x != OutputFolderName then multiset(subdirs)[x] else 0
  {
    if subdirs != [] {
      UserFoldersCount(subdirs[1..], x);
      var h := if subdirs[0] != OutputFolderName then [subdirs[0]] else [];
      assert UserFolders(subdirs) == h + UserFolders(subdirs[1..]);
      assert multiset(UserFolders(subdirs)) == multiset(h) + multiset(UserFolders(subdirs[1..]));
      assert subdirs == [subdirs[0]] + subdirs[1..];
      assert multiset(subdirs) == multiset([subdirs[0]]) + multiset(subdirs[1..]);
    }
  }

  /** The user folders are the subfolders other than the output folder, and all of them. */
  lemma UserFoldersMembers(subdirs: seq<string>, x: string)
    ensures x in UserFolders(subdirs) <==> x in subdirs && x != OutputFolderName
  {
    UserFoldersCount(subdirs, x);
    assert x in multiset(UserFolders(subdirs)) <==> x in UserFolders(subdirs);
  }

  /** One step of leaving out the output folder. */
  lemma UserFoldersCons(x: string, s: seq<string>)
    ensures UserFolders([x] + s) == (if x != OutputFolderName then [x] else []) + UserFolders(s)
  {
    assert ([x] + s)[1..] == s;
  }

  /** Leaving out the output folder distributes over concatenation, so order is kept. */
  lemma {:induction false} UserFoldersAppend(a: seq<string>, b: seq<string>)
    ensures UserFolders(a + b) == UserFolders(a) + UserFolders(b)
  {
    if a == [] {
      assert a + b == b;
    } else {
      var x, t := a[0], a[1..];
      assert a == [x] + t;
      assert a + b == [x] + (t + b);
      UserFoldersCons(x, t + b);
      UserFoldersCons(x, t);
      UserFoldersAppend(t, b);
      var h := if x != OutputFolderName then [x] else [];
      assert h + (UserFolders(t) + UserFolders(b)) == (h + UserFolders(t)) + UserFolders(b);
    }
  }

  /** The folder batch as intended: the output folder is left out of the
      folders it converts. */
  method ProcessUserFolders(root: string, subdirs: seq<string>, convert: (string, string) -> bool)
    returns (success: nat, fail: nat, targets: seq<string>)
    ensures success + fail == |UserFolders(subdirs)|
    ensures success == CountTrue(FolderResults(root, UserFolders(subdirs), convert))
    ensures |targets| == |UserFolders(subdirs)|
    ensures forall i :: 0 <= i < |targets| ==> targets[i] == FolderTarget(root, UserFolders(subdirs)[i])
  {
    success, fail, targets := ProcessAllFolders(root, UserFolders(subdirs), convert);
  }

  /** With the output folder left out, a batch in which every manga folder
      converts reports no failure. */
  lemma UserFoldersAllConverted(root: string, subdirs: seq<string>, convert: (string, string) -> bool)
    requires forall d :: d in subdirs && d != OutputFolderName ==>
      convert(Join(root, d), FolderTarget(root, d))
    ensures CountTrue(FolderResults(root, UserFolders(subdirs), convert)) == |UserFolders(subdirs)|
  {
    var users := UserFolders(subdirs);
    var rs := FolderResults(root, users, convert);
    forall i | 0 <= i < |rs| ensures rs[i] {
      UserFoldersMembers(subdirs, users[i]);
    }
    CountTrueMeaning(rs);
  }

  // ---------------------------------------------------------------------
  // Reporting
  // ---------------------------------------------------------------------

  /** The dialog complete_batch_task shows: the number of documents created
      and of failures, or that nothing was created. */
  datatype Notice = Created(count: nat, failures: nat) | NothingCreated

  function BatchNotice(success: nat, fail: nat): (n: Notice)
    ensures n.Created? <==> success > 0
    ensures n.Created? ==> n.count == success && n.failures == fail
  {
    if success > 0 then Created(success, fail) else NothingCreated
  }

  /** An archive batch is reported successful exactly when some archive converted. */
  lemma ZipBatchSucceeds(zips: seq<string>, outFolder: string, convert: (string, string) -> bool)
    ensures var rs := ZipResults(zips, outFolder, convert);
            BatchNotice(CountTrue(rs), |zips| - CountTrue(rs)).Created? <==>
            exists i :: 0 <= i < |zips| && convert(zips[i], ZipTargets(outFolder, zips)[i])
  {
    var rs := ZipResults(zips, outFolder, convert);
    var ts := ZipTargets(outFolder, zips);
    CountTrueMeaning(rs);
    assert forall i :: 0 <= i < |zips| ==> rs[i] == convert(zips[i], ts[i]);
  }

  /** A folder batch is reported successful exactly when some subfolder converted. */
  lemma FolderBatchSucceeds(root: string, subdirs: seq<string>, convert: (string, string) -> bool)
    ensures var rs := FolderResults(root, subdirs, convert);
            BatchNotice(CountTrue(rs), |subdirs| - CountTrue(rs)).Created? <==>
            exists i :: 0 <= i < |subdirs| && convert(Join(root, subdirs[i]), FolderTarget(root, subdirs[i]))
  {
    var rs := FolderResults(root, subdirs, convert);
    CountTrueMeaning(rs);
    assert forall i :: 0 <= i < |subdirs| ==> rs[i] == convert(Join(root, subdirs[i]), FolderTarget(root, subdirs[i]));
  }
}
