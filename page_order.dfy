/** Which entries of a folder listing become pages, and in which order:
    the image names of the listing, stably sorted by their numeric key. */
module PageOrder {
  import opened Wrappers
  import opened FileNames

  // ---------------------------------------------------------------------
  // Keeping the image names of a listing
  // ---------------------------------------------------------------------

  /** The listing entries that pass is_image_file, in listing order. */
  function ImageFiles(listing: seq<string>): (r: seq<string>)
    ensures forall i :: 0 <= i < |r| ==> IsImageFile(r[i])
    ensures forall i :: 0 <= i < |listing| && IsImageFile(listing[i]) ==> listing[i] in r
    ensures forall x :: x in r ==> x in listing
    ensures |r| <= |listing|
  {
    if listing == [] then []
    else
      var rest := ImageFiles(listing[1..]);
      assert forall i :: 1 <= i < |listing| ==> listing[i] == listing[1..][i - 1];
      (if IsImageFile(listing[0]) then [listing[0]] else []) + rest
  }

  /** Filtering distributes over concatenation, so relative order is kept. */
  lemma {:induction false} ImageFilesAppend(a: seq<string>, b: seq<string>)
    ensures ImageFiles(a + b) == ImageFiles(a) + ImageFiles(b)
  {
    if a == [] {
      assert a + b == b;
    } else {
      assert (a + b)[0] == a[0];
      assert (a + b)[1..] == a[1..] + b;
      ImageFilesAppend(a[1..], b);
      var h := if IsImageFile(a[0]) then [a[0]] else [];
      assert ImageFiles(a + b) == h + ImageFiles(a[1..] + b);
      assert ImageFiles(a) == h + ImageFiles(a[1..]);
      assert h + (ImageFiles(a[1..]) + ImageFiles(b)) == (h + ImageFiles(a[1..])) + ImageFiles(b);
    }
  }

  /** Every image name is kept as often as it is listed, every other name dropped. */
  lemma {:induction false} ImageFilesCount(listing: seq<string>, x: string)
    ensures multiset(ImageFiles(listing))[x] == if IsImageFile(x) then multiset(listing)[x] else 0
  {
    if listing != [] {
      ImageFilesCount(listing[1..], x);
      var h := if IsImageFile(listing[0]) then [listing[0]] else [];
      assert ImageFiles(listing) == h + ImageFiles(listing[1..]);
      assert multiset(ImageFiles(listing)) == multiset(h) + multiset(ImageFiles(listing[1..]));
      assert listing == [listing[0]] + listing[1..];
      assert multiset(listing) == multiset([listing[0]]) + multiset(listing[1..]);
    }
  }

  // ---------------------------------------------------------------------
  // Stable sorting by a key (Python's `sorted(s, key=key)`)
  // ---------------------------------------------------------------------

  predicate SortedBy(s: seq<string>, key: string -> nat)
  {
    forall i, j :: 0 <= i < j < |s| ==> key(s[i]) <= key(s[j])
  }

  /** The entries of `s` whose key is `k`, in the order of `s`. */
  function KeyRun(s: seq<string>, key: string -> nat, k: nat): seq<string>
  {
    if s == [] then []
    else (if key(s[0]) == k then [s[0]] else []) + KeyRun(s[1..], key, k)
  }

  /** The run of key `k` holds exactly the entries with that key. */
  lemma {:induction false} KeyRunMembers(s: seq<string>, key: string -> nat, k: nat, x: string)
    ensures x in KeyRun(s, key, k) <==> x in s && key(x) == k
  {
    if s != [] {
      KeyRunMembers(s[1..], key, k, x);
      assert s == [s[0]] + s[1..];
    }
  }

  /** Put `x` in front of the first entry of `t` whose key is not smaller. */
  function Insert(x: string, t: seq<string>, key: string -> nat): (r: seq<string>)
    ensures |r| == |t| + 1
    ensures multiset(r) == multiset(t) + multiset{x}
  {
    if t == [] || key(x) <= key(t[0]) then [x] + t
    else
      assert t == [t[0]] + t[1..];
      [t[0]] + Insert(x, t[1..], key)
  }

  /** The first entry of a sorted sequence has the smallest key. */
  lemma SortedHeadSmallest(u: seq<string>, key: string -> nat, y: string)
    requires SortedBy(u, key) && y in u
    ensures key(u[0]) <= key(y)
  {
    var i :| 0 <= i < |u| && u[i] == y;
    if i > 0 {
      assert key(u[0]) <= key(u[i]);
    }
  }

  /** Dropping the head of a sorted sequence leaves it sorted. */
  lemma SortedTail(t: seq<string>, key: string -> nat)
    requires SortedBy(t, key) && t != []
    ensures SortedBy(t[1..], key)
  {
    var tail := t[1..];
    forall i, j | 0 <= i < j < |tail| ensures key(tail[i]) <= key(tail[j]) {
      assert tail[i] == t[i + 1] && tail[j] == t[j + 1];
    }
  }

  /** Putting an entry whose key is at most the first key in front keeps a sequence sorted. */
  lemma PrependSorted(y: string, u: seq<string>, key: string -> nat)
    requires SortedBy(u, key)
    requires u == [] || key(y) <= key(u[0])
    ensures SortedBy([y] + u, key)
  {
    var r := [y] + u;
    forall i, j | 0 <= i < j < |r| ensures key(r[i]) <= key(r[j]) {
      assert r[j] == u[j - 1];
      if i > 0 {
        assert r[i] == u[i - 1];
      } else {
        SortedHeadSmallest(u, key, u[j - 1]);
      }
    }
  }

  /** Inserting into a sorted sequence keeps it sorted. */
  lemma {:induction false} InsertSorted(x: string, t: seq<string>, key: string -> nat)
    requires SortedBy(t, key)
    ensures SortedBy(Insert(x, t, key), key)
  {
    if t == [] || key(x) <= key(t[0]) {
      PrependSorted(x, t, key);
    } else {
      var tail := t[1..];
      SortedTail(t, key);
      var rest := Insert(x, tail, key);
      InsertSorted(x, tail, key);
      assert Insert(x, t, key) == [t[0]] + rest;
      // the new first entry of the rest is x or comes from the tail
      var y := rest[0];
      if y != x {
        assert y in multiset(rest);
        assert y in multiset(tail);
        assert t == [t[0]] + tail;
        SortedHeadSmallest(t, key, y);
      }
      PrependSorted(t[0], rest, key);
    }
  }

  /** sorted(s, key=key), as a stable insertion sort. */
  function Sort(s: seq<string>, key: string -> nat): (r: seq<string>)
    ensures |r| == |s|
    ensures SortedBy(r, key)
    ensures multiset(r) == multiset(s)
  {
    if s == [] then []
    else
      assert s == [s[0]] + s[1..];
      InsertSorted(s[0], Sort(s[1..], key), key);
      Insert(s[0], Sort(s[1..], key), key)
  }

  /** Dropping the head of a sequence drops it from the run of its own key only. */
  lemma KeyRunTail(s: seq<string>, key: string -> nat, k: nat)
    requires s != []
    ensures KeyRun(s, key, k) == if key(s[0]) == k then [s[0]] + KeyRun(s[1..], key, k) else KeyRun(s[1..], key, k)
  {
  }

  /** Inserting `x` puts it in front of the entries of `t` with its own key. */
  lemma {:induction false} InsertKeyRun(x: string, t: seq<string>, key: string -> nat, k: nat)
    ensures KeyRun(Insert(x, t, key), key, k) == if key(x) == k then [x] + KeyRun(t, key, k) else KeyRun(t, key, k)
  {
    if t == [] || key(x) <= key(t[0]) {
      KeyRunTail([x] + t, key, k);
      assert ([x] + t)[1..] == t;
    } else {
      var rest := Insert(x, t[1..], key);
      InsertKeyRun(x, t[1..], key, k);
      KeyRunTail([t[0]] + rest, key, k);
      KeyRunTail(t, key, k);
      assert ([t[0]] + rest)[1..] == rest;
    }
  }

  /** Stability: among entries with equal keys the sort keeps the input order. */
  lemma {:induction false} SortStable(s: seq<string>, key: string -> nat, k: nat)
    ensures KeyRun(Sort(s, key), key, k) == KeyRun(s, key, k)
  {
    if s != [] {
      SortStable(s[1..], key, k);
      InsertKeyRun(s[0], Sort(s[1..], key), key, k);
      KeyRunTail(s, key, k);
    }
  }

  /** Two sequences sorted by key that agree on every key's run are equal. */
  lemma {:induction false} SortedRunsDetermine(t: seq<string>, u: seq<string>, key: string -> nat)
    requires SortedBy(t, key) && SortedBy(u, key)
    requires forall k :: KeyRun(t, key, k) == KeyRun(u, key, k)
    ensures t == u
    decreases |t|
  {
    if t == [] {
      if u != [] {
        KeyRunTail(u, key, key(u[0]));
        assert false;
      }
    } else if u == [] {
      KeyRunTail(t, key, key(t[0]));
      assert false;
    } else {
      SameHead(t, u, key);
      var t', u' := t[1..], u[1..];
      TailRunsAgree(t, u, key);
      SortedTail(t, key);
      SortedTail(u, key);
      SortedRunsDetermine(t', u', key);
      assert t == [t[0]] + t' && u == [u[0]] + u';
    }
  }

  /** Sequences with the same head that agree on every key's run still agree
      once the head is dropped. */
  lemma TailRunsAgree(t: seq<string>, u: seq<string>, key: string -> nat)
    requires t != [] && u != [] && t[0] == u[0]
    requires forall k :: KeyRun(t, key, k) == KeyRun(u, key, k)
    ensures forall k :: KeyRun(t[1..], key, k) == KeyRun(u[1..], key, k)
  {
    forall k ensures KeyRun(t[1..], key, k) == KeyRun(u[1..], key, k) {
      KeyRunTail(t, key, k);
      KeyRunTail(u, key, k);
      var rt, ru := KeyRun(t[1..], key, k), KeyRun(u[1..], key, k);
      if key(t[0]) == k {
        assert ([t[0]] + rt)[1..] == rt;
        assert ([u[0]] + ru)[1..] == ru;
      }
    }
  }

  /** Two non-empty sorted sequences that agree on every key's run start alike. */
  lemma SameHead(t: seq<string>, u: seq<string>, key: string -> nat)
    requires SortedBy(t, key) && SortedBy(u, key) && t != [] && u != []
    requires forall k :: KeyRun(t, key, k) == KeyRun(u, key, k)
    ensures key(t[0]) == key(u[0]) && t[0] == u[0]
  {
    var a, b := key(t[0]), key(u[0]);
    KeyRunTail(t, key, a);
    KeyRunTail(u, key, b);
    KeyRunMembers(u, key, a, t[0]);
    SortedHeadSmallest(u, key, t[0]);
    KeyRunMembers(t, key, b, u[0]);
    SortedHeadSmallest(t, key, u[0]);
    KeyRunTail(u, key, a);
    assert KeyRun(t, key, a)[0] == t[0];
  }

  /** Any ordering that is sorted by key and keeps every key's input order
      is the one the sort produces: the page order does not depend on how
      the stable sort is carried out. */
  lemma SortCharacterized(s: seq<string>, t: seq<string>, key: string -> nat)
    requires SortedBy(t, key)
    requires forall k :: KeyRun(t, key, k) == KeyRun(s, key, k)
    ensures t == Sort(s, key)
  {
    forall k ensures KeyRun(t, key, k) == KeyRun(Sort(s, key), key, k) {
      SortStable(s, key, k);
    }
    SortedRunsDetermine(t, Sort(s, key), key);
  }

  // ---------------------------------------------------------------------
  // The page list of a folder
  // ---------------------------------------------------------------------

  /** The page order of a list of image names: sorted by extract_number. */
  function PageSort(files: seq<string>): seq<string>
  {
    Sort(files, ExtractNumber)
  }

  /** Names without digits sort as if numbered zero: nothing with a
      positive key comes before them. */
  lemma NoDigitNamesFirst(files: seq<string>, i: nat, j: nat)
    requires i < j < |PageSort(files)| && NoDigits(PageSort(files)[j])
    ensures ExtractNumber(PageSort(files)[i]) == 0
  {
    NoDigitsKeyZero(PageSort(files)[j]);
  }

  /** The folder branch of images_to_pdf up to the page loop: None when the
      listing holds no image name, otherwise the image names in page order. */
  function SelectPages(listing: seq<string>): (r: Option<seq<string>>)
    ensures r.None? <==> forall i :: 0 <= i < |listing| ==> !IsImageFile(listing[i])
    ensures r.Some? ==> |r.value| == |ImageFiles(listing)| > 0
    ensures r.Some? ==> SortedBy(r.value, ExtractNumber)
    ensures r.Some? ==> multiset(r.value) == multiset(ImageFiles(listing))
    ensures r.Some? ==> forall k :: KeyRun(r.value, ExtractNumber, k) == KeyRun(ImageFiles(listing), ExtractNumber, k)
  {
    var files := ImageFiles(listing);
    if files == [] then None
    else
      assert files[0] in listing;
      assert forall k :: KeyRun(PageSort(files), ExtractNumber, k) == KeyRun(files, ExtractNumber, k) by {
        forall k ensures KeyRun(PageSort(files), ExtractNumber, k) == KeyRun(files, ExtractNumber, k) {
          SortStable(files, ExtractNumber, k);
        }
      }
      Some(PageSort(files))
  }
}
