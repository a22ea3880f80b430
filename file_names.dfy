/** File-name predicates used to pick and order the pages of a document:
    the numeric sort key of a name (`extract_number`) and the image
    extension test (`is_image_file`). Characters are restricted to what
    matters for ASCII: only '0'..'9' are digits and only 'A'..'Z' change
    under lower-casing. */
module FileNames {

  // ---------------------------------------------------------------------
  // Digits and the numeric sort key
  // ---------------------------------------------------------------------

  predicate IsDigit(c: char) { '0' <= c <= '9' }

  predicate AllDigits(s: string) { forall i :: 0 <= i < |s| ==> IsDigit(s[i]) }

  predicate NoDigits(s: string) { forall i :: 0 <= i < |s| ==> !IsDigit(s[i]) }

  /** The decimal value of a string of digits (what Python's `int` does). */
  function DigitsValue(s: string): nat
    requires AllDigits(s)
  {
    if s == [] then 0 else 10 * DigitsValue(s[..|s| - 1]) + (s[|s| - 1] as int - '0' as int)
  }

  /** Where the first digit of `s` stands, or `|s|` when there is none. */
  function FirstDigitIndex(s: string): (i: nat)
    ensures i <= |s|
    ensures NoDigits(s[..i])
    ensures i < |s| ==> IsDigit(s[i])
  {
    if s == [] || IsDigit(s[0]) then 0
    else
      var j := FirstDigitIndex(s[1..]);
      assert s[..1 + j] == [s[0]] + s[1..][..j];
      1 + j
  }

  /** The length of the longest prefix of `s` made of digits. */
  function DigitRunLength(s: string): (n: nat)
    ensures n <= |s|
    ensures AllDigits(s[..n])
    ensures n == |s| || !IsDigit(s[n])
  {
    if s == [] || !IsDigit(s[0]) then 0
    else
      var m := DigitRunLength(s[1..]);
      assert s[..1 + m] == [s[0]] + s[1..][..m];
      1 + m
  }

  /** The first maximal run of digits in `s` (empty when `s` has no digit):
      the first match of the regular expression `\d+`. */
  function FirstDigitRun(s: string): (run: string)
    ensures AllDigits(run)
  {
    var i := FirstDigitIndex(s);
    var n := DigitRunLength(s[i..]);
    assert s[i..i + n] == s[i..][..n];
    s[i..i + n]
  }

  /** extract_number: the value of the first run of digits, 0 when the name
      has no digit at all. */
  function ExtractNumber(name: string): nat
  {
    if FirstDigitIndex(name) == |name| then 0 else DigitsValue(FirstDigitRun(name))
  }

  /** The key of a name that splits as (no digits) + (digits) + (a rest that
      does not start with a digit) is the value of the middle part, whatever
      the rest holds: only the first maximal run counts. */
  lemma {:induction false} ExtractNumberOfSplit(pre: string, run: string, post: string)
    requires NoDigits(pre) && AllDigits(run) && |run| > 0
    requires post == [] || !IsDigit(post[0])
    ensures ExtractNumber(pre + run + post) == DigitsValue(run)
  {
    var s := pre + run + post;
    var i := FirstDigitIndex(s);
    assert s[|pre|] == run[0];
    assert i == |pre|;
    var rest := s[i..];
    assert rest == run + post;
    var n := DigitRunLength(rest);
    assert forall k :: 0 <= k < |run| ==> rest[k] == run[k];
    assert |post| > 0 ==> rest[|run|] == post[0];
    assert n == |run|;
    assert FirstDigitRun(s) == run;
  }

  /** A name without any digit has key 0. */
  lemma NoDigitsKeyZero(name: string)
    requires NoDigits(name)
    ensures ExtractNumber(name) == 0
  {
    assert FirstDigitIndex(name) == |name|;
  }

  /** A digit string has value 0 exactly when every digit in it is '0'. */
  lemma {:induction false} ZeroDigitsValue(s: string)
    requires AllDigits(s)
    ensures DigitsValue(s) == 0 <==> forall i :: 0 <= i < |s| ==> s[i] == '0'
  {
    if s != [] {
      var init := s[..|s| - 1];
      ZeroDigitsValue(init);
      assert forall i :: 0 <= i < |init| ==> init[i] == s[i];
    }
  }

  /** A leading zero does not change the value of a digit string. */
  lemma {:induction false} LeadingZeroValue(s: string)
    requires AllDigits(s)
    ensures AllDigits("0" + s) && DigitsValue("0" + s) == DigitsValue(s)
  {
    var z := "0" + s;
    assert AllDigits(z) by {
      assert forall i :: 0 < i < |z| ==> z[i] == s[i - 1];
    }
    if s != [] {
      LeadingZeroValue(s[..|s| - 1]);
      assert z[..|z| - 1] == "0" + s[..|s| - 1];
    }
  }

  /** A zero in front of the first run of digits leaves the key unchanged. */
  lemma ZeroPaddingIgnored(pre: string, run: string, post: string)
    requires NoDigits(pre) && AllDigits(run) && |run| > 0
    requires post == [] || !IsDigit(post[0])
    ensures ExtractNumber(pre + "0" + run + post) == ExtractNumber(pre + run + post)
  {
    LeadingZeroValue(run);
    assert pre + "0" + run + post == pre + ("0" + run) + post;
    ExtractNumberOfSplit(pre, "0" + run, post);
    ExtractNumberOfSplit(pre, run, post);
  }

  /** A name whose first run is all zeros ties with a name without digits. */
  lemma ZeroRunTiesWithNoDigits(pre: string, zeros: string, post: string, other: string)
    requires NoDigits(pre) && |zeros| > 0 && forall i :: 0 <= i < |zeros| ==> zeros[i] == '0'
    requires post == [] || !IsDigit(post[0])
    requires NoDigits(other)
    ensures ExtractNumber(pre + zeros + post) == ExtractNumber(other) == 0
  {
    ExtractNumberOfSplit(pre, zeros, post);
    ZeroDigitsValue(zeros);
    NoDigitsKeyZero(other);
  }

  /** "vol2_p10.jpg" is keyed by 2: the later run "10" is ignored. */
  lemma LaterRunsIgnoredExample()
    ensures ExtractNumber("vol2_p10.jpg") == 2
  {
    var pre, run, post := "vol", "2", "_p10.jpg";
    assert pre[0] == 'v' && pre[1] == 'o' && pre[2] == 'l';
    assert NoDigits(pre);
    assert post[0] == '_';
    assert AllDigits(run);
    assert "vol2_p10.jpg" == pre + run + post;
    ExtractNumberOfSplit(pre, run, post);
    assert run[..0] == "";
    assert DigitsValue(run) == 10 * DigitsValue("") + 2;
  }

  // ---------------------------------------------------------------------
  // Lower-casing and the image extension test
  // ---------------------------------------------------------------------

  function LowerChar(c: char): char
  {
    if 'A' <= c <= 'Z' then (c as int - 'A' as int + 'a' as int) as char else c
  }

  function UpperChar(c: char): char
  {
    if 'a' <= c <= 'z' then (c as int - 'a' as int + 'A' as int) as char else c
  }

  function Lower(s: string): (r: string)
    ensures |r| == |s|
  {
    seq(|s|, i requires 0 <= i < |s| => LowerChar(s[i]))
  }

  function Upper(s: string): (r: string)
    ensures |r| == |s|
  {
    seq(|s|, i requires 0 <= i < |s| => UpperChar(s[i]))
  }

  predicate EndsWith(s: string, suffix: string)
  {
    |suffix| <= |s| && s[|s| - |suffix|..] == suffix
  }

  /** Python's `s.endswith(tuple)`: some suffix of the tuple matches. */
  function EndsWithAny(s: string, suffixes: seq<string>): (r: bool)
    ensures r <==> exists k :: 0 <= k < |suffixes| && EndsWith(s, suffixes[k])
  {
    if suffixes == [] then false
    else if EndsWith(s, suffixes[0]) then true
    else
      var r := EndsWithAny(s, suffixes[1..]);
      assert forall k :: 1 <= k < |suffixes| ==> suffixes[k] == suffixes[1..][k - 1];
      r
  }

  const ImageExtensions: seq<string> := [".png", ".jpg", ".jpeg", ".webp", ".gif", ".bmp"]

  /** is_image_file: the lower-cased name ends with one of the six extensions. */
  function IsImageFile(name: string): bool
  {
    EndsWithAny(Lower(name), ImageExtensions)
  }

  /** The verdict spelled out extension by extension. */
  lemma IsImageFileIff(name: string)
    ensures IsImageFile(name) <==>
      EndsWith(Lower(name), ".png") || EndsWith(Lower(name), ".jpg") ||
      EndsWith(Lower(name), ".jpeg") || EndsWith(Lower(name), ".webp") ||
      EndsWith(Lower(name), ".gif") || EndsWith(Lower(name), ".bmp")
  {
    var e := ImageExtensions;
    assert e[0] == ".png" && e[1] == ".jpg" && e[2] == ".jpeg";
    assert e[3] == ".webp" && e[4] == ".gif" && e[5] == ".bmp";
  }

  /** Two names that agree letter for letter up to case get the same verdict. */
  lemma CaseInsensitive(n: string, m: string)
    requires |n| == |m|
    requires forall i :: 0 <= i < |n| ==> LowerChar(n[i]) == LowerChar(m[i])
    ensures IsImageFile(n) == IsImageFile(m)
  {
    assert Lower(n) == Lower(m);
  }

  /** In particular upper-casing or lower-casing a name keeps its verdict. */
  lemma CaseChangesKeepVerdict(n: string)
    ensures IsImageFile(Upper(n)) == IsImageFile(n)
    ensures IsImageFile(Lower(n)) == IsImageFile(n)
  {
    forall i | 0 <= i < |n| ensures LowerChar(Upper(n)[i]) == LowerChar(n[i]) {
    }
    CaseInsensitive(Upper(n), n);
    CaseInsensitive(Lower(n), n);
  }

  /** Every accepted name holds a '.' in front of its extension. */
  lemma ImageNameHasDot(name: string)
    requires IsImageFile(name)
    ensures exists k :: 0 <= k < |name| && name[k] == '.'
  {
    var l := Lower(name);
    var j :| 0 <= j < |ImageExtensions| && EndsWith(l, ImageExtensions[j]);
    var e := ImageExtensions[j];
    var k := |l| - |e|;
    assert l[k..][0] == e[0] == '.';
    assert LowerChar(name[k]) == '.';
  }

  /** A name without the dot ("xpng") is refused. */
  lemma NoDotRejected()
    ensures !IsImageFile("xpng")
  {
    if IsImageFile("xpng") {
      ImageNameHasDot("xpng");
    }
  }

  /** Case does not matter: "Cover.JPG" is accepted. */
  lemma UpperCaseAccepted()
    ensures IsImageFile("Cover.JPG")
  {
    assert Lower("Cover.JPG") == "cover.jpg";
    assert EndsWith("cover.jpg", ImageExtensions[1]);
  }

  /** The extension must end the name: "page.png.txt" is refused. */
  lemma InnerExtensionRejected()
    ensures !IsImageFile("page.png.txt")
  {
    var l := Lower("page.png.txt");
    IsImageFileIff("page.png.txt");
    assert l[|l| - 1] == 't';
  }

  /** A name ending in ".pdf", whatever the case, is never an image. */
  lemma PdfNameIsNotImage(name: string)
    requires EndsWith(Lower(name), ".pdf")
    ensures !IsImageFile(name)
  {
    var l := Lower(name);
    IsImageFileIff(name);
    var n := |l|;
    assert l[n - 4..] == ".pdf";
    assert l[n - 1] == 'f' && l[n - 2] == 'd';
  }
}
