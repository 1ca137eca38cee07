/**
 * The file index shared by `JournalPersistor` and `Journal`: the list of
 * journal files built lazily from the directory, kept sorted by sequence
 * number, and the provisioning closure that picks (and if need be adds) the
 * file the next record goes to.
 */
module FileIndex {
  import opened Common
  import opened JournalFiles

  /** The journal directory: file name to content, one character per byte. */
  type FileSystem = map<string, string>

  const Extension: string := ".journal"

  /** What `Directory.GetFiles(directory, "*.journal")` matches. */
  predicate HasJournalExtension(name: string) {
    |name| >= |Extension| && name[|name| - |Extension|..] == Extension
  }

  /**
   * An enumeration of the directory, in the order the file system returns
   * it: each journal file exactly once.
   */
  ghost predicate IsListing(fs: FileSystem, listing: seq<string>) {
    && (forall i, j :: 0 <= i < j < |listing| ==> listing[i] != listing[j])
    && (forall name :: name in listing <==> name in fs && HasJournalExtension(name))
  }

  /** `new FileStream(path, FileMode.Append, ...)`: the file is created empty if it is missing. */
  function OpenForAppend(fs: FileSystem, name: string): (r: FileSystem)
    ensures name in r && r[name] == (if name in fs then fs[name] else "")
    ensures forall n :: n != name ==> (n in r <==> n in fs) && (n in fs ==> r[n] == fs[n])
  {
    if name in fs then fs else fs[name := ""]
  }

  // ---------------------------------------------------------------------------
  // Building the index
  // ---------------------------------------------------------------------------

  /** `JournalFile.Parse` on every name in order; the first failure aborts. */
  function ParseAll(names: seq<string>): (r: Result<seq<JournalFile>>)
    ensures r.Ok? ==>
      && |r.value| == |names|
      && forall i :: 0 <= i < |names| ==> Parse(names[i]) == Ok(r.value[i])
    ensures r.Err? ==> exists i :: 0 <= i < |names| && Parse(names[i]) == Err(r.error)
  {
    if names == [] then Ok([])
    else
      var init := ParseAll(names[..|names| - 1]);
      if init.Err? then init
      else
        var last := Parse(names[|names| - 1]);
        if last.Err? then Err(last.error) else Ok(init.value + [last.value])
  }

  predicate SortedBySequence(files: seq<JournalFile>) {
    forall i, j :: 0 <= i < j < |files| ==> files[i].sequenceNumber <= files[j].sequenceNumber
  }

  function Insert(f: JournalFile, files: seq<JournalFile>): (r: seq<JournalFile>)
    requires SortedBySequence(files)
    ensures SortedBySequence(r)
    ensures multiset(r) == multiset(files) + multiset{f}
  {
    if files == [] || f.sequenceNumber <= files[0].sequenceNumber then
      SortedCons(f, files);
      [f] + files
    else
      var tail := Insert(f, files[1..]);
      MembersOf(tail, files[1..], f);
      SortedCons(files[0], tail);
      assert files == [files[0]] + files[1..];
      [files[0]] + tail
  }

  lemma SortedCons(x: JournalFile, s: seq<JournalFile>)
    requires SortedBySequence(s)
    requires s == [] || x.sequenceNumber <= s[0].sequenceNumber || forall y :: y in s ==> x.sequenceNumber <= y.sequenceNumber
    ensures SortedBySequence([x] + s)
  {
    var t := [x] + s;
    forall i, j | 0 <= i < j < |t| ensures t[i].sequenceNumber <= t[j].sequenceNumber {
      if i == 0 {
        assert t[j] == s[j - 1] && t[j] in s;
      } else {
        assert t[i] == s[i - 1] && t[j] == s[j - 1];
      }
    }
  }

  lemma MembersOf(t: seq<JournalFile>, s: seq<JournalFile>, f: JournalFile)
    requires multiset(t) == multiset(s) + multiset{f}
    ensures forall x :: x in t ==> x == f || x in s
  {
    forall x | x in t ensures x == f || x in s {
      assert x in multiset(t);
    }
  }

  /**
   * `List.Sort` by sequence number. The platform's sort is not stable, so the
   * model promises only what any comparison sort gives: the result is sorted
   * and a permutation of the input.
   */
  function SortBySequence(files: seq<JournalFile>): (r: seq<JournalFile>)
    ensures SortedBySequence(r)
    ensures multiset(r) == multiset(files)
  {
    if files == [] then []
    else
      assert files == [files[0]] + files[1..];
      Insert(files[0], SortBySequence(files[1..]))
  }

  /** The value of the lazily built index: every listed name parsed, then sorted. */
  function IndexOf(listing: seq<string>): Result<seq<JournalFile>> {
    var parsed := ParseAll(listing);
    if parsed.Err? then Err(parsed.error) else Ok(SortBySequence(parsed.value))
  }

  /** The lambda behind `_journalFiles`: an add loop over the listing, then a sort. */
  method BuildIndex(listing: seq<string>) returns (r: Result<seq<JournalFile>>)
    ensures r == IndexOf(listing)
  {
    var journalFiles: seq<JournalFile> := [];
    var i := 0;
    while i < |listing|
      invariant 0 <= i <= |listing|
      invariant ParseAll(listing[..i]) == Ok(journalFiles)
    {
      assert listing[..i + 1][..i] == listing[..i];
      var f := Parse(listing[i]);
      if f.Err? {
        ParseAllAbort(listing, i + 1);
        return Err(f.error);
      }
      journalFiles := journalFiles + [f.value];
      i := i + 1;
    }
    assert listing[..i] == listing;
    journalFiles := SortBySequence(journalFiles);
    r := Ok(journalFiles);
  }

  /** The lazily built index, as a `Lazy<T>` caches it: not yet built, built, or the exception the build threw. */
  datatype LazyIndex = Unbuilt | Built(files: seq<JournalFile>) | Faulted(error: Error)

  // ---------------------------------------------------------------------------
  // Provisioning
  // ---------------------------------------------------------------------------

  /**
   * The provisioning closure on the index: the new index and the file the
   * stream is opened on. An empty index gets file 1 starting at the cutoff
   * (or `DateTimeOffset.MinValue`); without a cutoff the last file is
   * reopened; with one, its successor starting at the cutoff is added.
   */
  function Provision(files: seq<JournalFile>, cutoff: Option<Ticks>): (r: (seq<JournalFile>, JournalFile))
    ensures files <= r.0 && |r.0| <= |files| + 1
    ensures r.0 != [] && r.1 == r.0[|r.0| - 1]
    ensures |r.0| == |files| + 1 <==> files == [] || cutoff.Some?
  {
    if files == [] then
      var first := JournalFile(1, if cutoff.Some? then cutoff.value else MinTicks);
      ([first], first)
    else if cutoff.Some? then
      var next := Successor(files[|files| - 1], cutoff.value);
      (files + [next], next)
    else (files, files[|files| - 1])
  }

  // ---------------------------------------------------------------------------
  // Lemmas
  // ---------------------------------------------------------------------------

  /** Once a prefix of the listing fails to parse, the whole build fails with that error. */
  lemma {:induction false} ParseAllAbort(names: seq<string>, k: nat)
    requires 0 < k <= |names| && ParseAll(names[..k]).Err?
    ensures ParseAll(names) == ParseAll(names[..k])
  {
    if k < |names| {
      var init := names[..|names| - 1];
      assert init[..k] == names[..k];
      ParseAllAbort(init, k);
    } else {
      assert names[..k] == names;
    }
  }

  /**
   * The index holds one descriptor per listed name, sorted by sequence
   * number; it fails exactly when some name does not parse.
   */
  lemma IndexOfListing(listing: seq<string>)
    ensures IndexOf(listing).Ok? <==> forall i :: 0 <= i < |listing| ==> Parse(listing[i]).Ok?
    ensures IndexOf(listing).Ok? ==>
      && SortedBySequence(IndexOf(listing).value)
      && |IndexOf(listing).value| == |listing|
      && multiset(IndexOf(listing).value) == multiset(ParseAll(listing).value)
  {
    var parsed := ParseAll(listing);
    if parsed.Ok? {
      assert |multiset(SortBySequence(parsed.value))| == |multiset(parsed.value)|;
    }
  }

  /** Provisioning keeps the index sorted. */
  lemma ProvisionKeepsSorted(files: seq<JournalFile>, cutoff: Option<Ticks>)
    requires SortedBySequence(files)
    ensures SortedBySequence(Provision(files, cutoff).0)
  {
  }

  /** On an empty index, provisioning creates file 1, starting at the cutoff or at `MinValue`. */
  lemma ProvisionFirst(cutoff: Option<Ticks>)
    ensures Provision([], cutoff).1 == JournalFile(1, if cutoff.Some? then cutoff.value else MinTicks)
  {
  }

  /** Without a cutoff a non-empty index is left as it is and its last file is reopened. */
  lemma ProvisionReopens(files: seq<JournalFile>)
    requires files != []
    ensures Provision(files, None) == (files, files[|files| - 1])
  {
  }

  /** With a cutoff the successor of the last file, starting at the cutoff, is appended. */
  lemma ProvisionRotates(files: seq<JournalFile>, cutoff: Ticks)
    requires files != []
    ensures Provision(files, Some(cutoff)).1.sequenceNumber == files[|files| - 1].sequenceNumber + 1
    ensures Provision(files, Some(cutoff)).1.firstTimestamp == cutoff
  {
  }
}
