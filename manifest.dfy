/**
 `generate_manifest`: check the image directory, list its `.png` files in
 sorted order, store one entry per file in an insertion-ordered hash keyed
 by file name, and total the sizes for the run summary.

 The directory check, the listing, the SHA-256 digests and the file sizes
 are supplied as inputs: `dirExists` is the answer of the directory check
 and `found` holds, for each listed file, its base name, its hex digest
 and its size in bytes.
 */
module Manifest {
  import opened RubyString
  import Description

  /** One `.png` file of the listing. */
  datatype ImageFile = ImageFile(name: string, checksum: string, size: nat)

  /** The value stored under a file name: `checksum`, `size` and `description`. */
  datatype Entry = Entry(checksum: string, size: nat, description: string)

  /*
   Distinct and SortedNames speak of the manifest's keys. NamesDistinct and
   SortedByName below say the same of a listing's file names; they are kept
   as separate predicates over the files themselves because stating them
   through Names(files) makes every sorting proof go through that
   projection, at several times the cost.
   */

  predicate Distinct(s: seq<string>) {
    forall i, j :: 0 <= i < j < |s| ==> s[i] != s[j]
  }

  predicate SortedNames(s: seq<string>) {
    forall i :: 0 < i < |s| ==> LessEq(s[i - 1], s[i])
  }

  /**
   A Ruby Hash from file name to entry. `order` lists the keys in the
   order they were first stored, which is the order Ruby iterates and
   serialises them in.
   */
  datatype Table = Table(order: seq<string>, entries: map<string, Entry>) {

    ghost predicate Valid() {
      (forall k :: k in entries <==> k in order) && Distinct(order)
    }

    /**
     Hash#[]= : the key now maps to the value and every other key keeps
     its value; keys already present keep their place and a new key goes
     last.
     */
    function Put(key: string, value: Entry): (t: Table)
      ensures t.entries == entries[key := value]
      ensures order <= t.order
      ensures Valid() ==> t.Valid() && |t.order| == |order| + (if key in entries then 0 else 1)
    {
      if key in entries then Table(order, entries[key := value])
      else Table(order + [key], entries[key := value])
    }
  }

  function Names(files: seq<ImageFile>): (ns: seq<string>)
    ensures |ns| == |files|
    ensures forall i :: 0 <= i < |files| ==> ns[i] == files[i].name
  {
    seq(|files|, i requires 0 <= i < |files| => files[i].name)
  }

  /** No two files of the listing share a name, as a directory listing guarantees. */
  predicate NamesDistinct(files: seq<ImageFile>) {
    forall i, j :: 0 <= i < j < |files| ==> files[i].name != files[j].name
  }

  predicate SortedByName(files: seq<ImageFile>) {
    forall i :: 0 < i < |files| ==> LessEq(files[i - 1].name, files[i].name)
  }

  // ---------------------------------------------------------------------
  // Array#sort on the listing
  // ---------------------------------------------------------------------

  function InsertByName(f: ImageFile, files: seq<ImageFile>): (r: seq<ImageFile>)
    requires SortedByName(files)
    ensures SortedByName(r)
    ensures multiset(r) == multiset(files) + multiset{f}
    ensures r[0] == f || (files != [] && r[0] == files[0])
  {
    if files == [] || LessEq(f.name, files[0].name) then
      [f] + files
    else
      LessEqTotal(f.name, files[0].name);
      var rest := InsertByName(f, files[1..]);
      assert files == [files[0]] + files[1..];
      [files[0]] + rest
  }

  /** The listing in ascending order of file name. */
  function SortByName(files: seq<ImageFile>): (r: seq<ImageFile>)
    ensures SortedByName(r)
    ensures multiset(r) == multiset(files)
  {
    if files == [] then []
    else
      assert files == [files[0]] + files[1..];
      InsertByName(files[0], SortByName(files[1..]))
  }

  lemma {:induction false} SortedPairwise(files: seq<ImageFile>, i: int, j: int)
    requires SortedByName(files)
    requires 0 <= i <= j < |files|
    ensures LessEq(files[i].name, files[j].name)
    decreases j - i
  {
    if i == j {
      LessEqReflexive(files[i].name);
    } else {
      SortedPairwise(files, i, j - 1);
      LessEqTransitive(files[i].name, files[j - 1].name, files[j].name);
    }
  }

  /** Two sorted arrangements of the same distinct files start with the same file. */
  lemma SortedSameHead(a: seq<ImageFile>, b: seq<ImageFile>)
    requires SortedByName(a) && SortedByName(b)
    requires NamesDistinct(a)
    requires multiset(a) == multiset(b) && a != []
    ensures b != [] && a[0] == b[0]
  {
    assert a[0] in multiset(b);
    var j :| 0 <= j < |b| && b[j] == a[0];
    assert b[0] in multiset(a);
    var i :| 0 <= i < |a| && a[i] == b[0];
    SortedPairwise(a, 0, i);
    SortedPairwise(b, 0, j);
    LessEqAntisymmetric(a[0].name, b[0].name);
  }

  /** Removing the same first file from two arrangements of one listing leaves arrangements of one listing. */
  lemma SameTails(a: seq<ImageFile>, b: seq<ImageFile>)
    requires a != [] && b != [] && a[0] == b[0] && multiset(a) == multiset(b)
    ensures multiset(a[1..]) == multiset(b[1..])
  {
    assert a == [a[0]] + a[1..] && b == [b[0]] + b[1..];
    assert multiset(a[1..]) == multiset(a) - multiset{a[0]};
    assert multiset(b[1..]) == multiset(b) - multiset{b[0]};
  }

  /**
   On a listing with distinct names there is only one sorted arrangement,
   so the result does not depend on how the sort is carried out.
   */
  lemma {:induction false} SortedUnique(a: seq<ImageFile>, b: seq<ImageFile>)
    requires SortedByName(a) && SortedByName(b)
    requires NamesDistinct(a)
    requires multiset(a) == multiset(b)
    ensures a == b
    decreases |a|
  {
    if a == [] {
      assert |b| == 0 by { assert |multiset(b)| == 0; }
    } else {
      SortedSameHead(a, b);
      SameTails(a, b);
      SortedUnique(a[1..], b[1..]);
      assert a == [a[0]] + a[1..] && b == [b[0]] + b[1..];
    }
  }

  lemma {:induction false} InsertKeepsNamesDistinct(f: ImageFile, files: seq<ImageFile>)
    requires SortedByName(files) && NamesDistinct(files)
    requires forall m :: 0 <= m < |files| ==> files[m].name != f.name
    ensures NamesDistinct(InsertByName(f, files))
    decreases |files|
  {
    if files != [] && !LessEq(f.name, files[0].name) {
      var rest := InsertByName(f, files[1..]);
      InsertKeepsNamesDistinct(f, files[1..]);
      forall m | 0 <= m < |rest| ensures rest[m].name != files[0].name {
        assert rest[m] in multiset(files[1..]) + multiset{f};
        if rest[m] != f {
          assert rest[m] in files[1..];
          var k :| 0 <= k < |files[1..]| && files[1..][k] == rest[m];
          assert files[k + 1] == rest[m];
        }
      }
    }
  }

  lemma {:induction false} SortKeepsNamesDistinct(files: seq<ImageFile>)
    requires NamesDistinct(files)
    ensures NamesDistinct(SortByName(files))
    decreases |files|
  {
    if files != [] {
      var tail := SortByName(files[1..]);
      SortKeepsNamesDistinct(files[1..]);
      forall m | 0 <= m < |tail| ensures tail[m].name != files[0].name {
        assert tail[m] in multiset(files[1..]);
        var k :| 0 <= k < |files[1..]| && files[1..][k] == tail[m];
        assert files[k + 1] == tail[m];
      }
      InsertKeepsNamesDistinct(files[0], tail);
    }
  }

  /** Reordering a listing does not change which names it holds. */
  lemma SameNames(a: seq<ImageFile>, b: seq<ImageFile>)
    requires multiset(a) == multiset(b)
    ensures forall k :: k in Names(a) <==> k in Names(b)
  {
    forall k | k in Names(a) ensures k in Names(b) {
      var i :| 0 <= i < |a| && Names(a)[i] == k;
      assert a[i] in multiset(b);
      var j :| 0 <= j < |b| && b[j] == a[i];
      assert Names(b)[j] == k;
    }
    forall k | k in Names(b) ensures k in Names(a) {
      var j :| 0 <= j < |b| && Names(b)[j] == k;
      assert b[j] in multiset(a);
      var i :| 0 <= i < |a| && a[i] == b[j];
      assert Names(a)[i] == k;
    }
  }

  // ---------------------------------------------------------------------
  // The manifest the loop builds
  // ---------------------------------------------------------------------

  /**
   The entry stored for a file: its digest, its size and the description
   `describe` gives its name. The manifest is built with
   `describe` = Description.Describe (generate_description); the lemmas
   below hold for any description function.
   */
  function EntryFor(f: ImageFile, describe: string -> string): (e: Entry)
    ensures e.description == describe(f.name)
    ensures e.checksum == f.checksum && e.size == f.size
  {
    Entry(f.checksum, f.size, describe(f.name))
  }

  /** The manifest after storing each of `files` in turn into an empty hash. */
  function BuildTable(files: seq<ImageFile>, describe: string -> string): (t: Table)
    ensures t.Valid()
    ensures forall k :: k in t.entries ==> t.entries[k].description == describe(k)
    decreases |files|
  {
    if files == [] then Table([], map[])
    else
      var f := files[|files| - 1];
      BuildTable(files[..|files| - 1], describe).Put(f.name, EntryFor(f, describe))
  }

  /** One more iteration of the loop stores the next file into the manifest so far. */
  lemma BuildTableStep(files: seq<ImageFile>, i: int, describe: string -> string)
    requires 0 <= i < |files|
    ensures BuildTable(files[..i + 1], describe)
      == BuildTable(files[..i], describe).Put(files[i].name, EntryFor(files[i], describe))
  {
    assert files[..i + 1][..i] == files[..i];
  }

  /** The manifest's keys are exactly the names of the files stored. */
  lemma {:induction false} BuildTableKeys(files: seq<ImageFile>, describe: string -> string)
    ensures forall k :: k in BuildTable(files, describe).entries <==> k in Names(files)
    decreases |files|
  {
    if files != [] {
      var init := files[..|files| - 1];
      BuildTableKeys(init, describe);
      assert Names(files) == Names(init) + [files[|files| - 1].name];
    }
  }

  /**
   With distinct names the manifest has one entry per file, in the order
   the files were stored, each holding that file's digest, size and
   description.
   */
  lemma {:induction false} BuildTableDistinct(files: seq<ImageFile>, describe: string -> string)
    requires NamesDistinct(files)
    ensures BuildTable(files, describe).order == Names(files)
    ensures forall i :: 0 <= i < |files| ==> BuildTable(files, describe).entries[files[i].name] == EntryFor(files[i], describe)
    decreases |files|
  {
    if files != [] {
      var init := files[..|files| - 1];
      var f := files[|files| - 1];
      BuildTableDistinct(init, describe);
      BuildTableKeys(init, describe);
      assert f.name !in Names(init);
      assert Names(files) == Names(init) + [f.name];
    }
  }

  /**
   Storing a name again overwrites the earlier entry: a name's entry comes
   from the last file stored under it.
   */
  lemma {:induction false} BuildTableLastWins(files: seq<ImageFile>, describe: string -> string, i: int)
    requires 0 <= i < |files|
    requires forall j :: i < j < |files| ==> files[j].name != files[i].name
    ensures var m := BuildTable(files, describe);
      files[i].name in m.entries && m.entries[files[i].name] == EntryFor(files[i], describe)
    decreases |files|
  {
    var init := files[..|files| - 1];
    if i < |files| - 1 {
      assert init[i] == files[i];
      BuildTableLastWins(init, describe, i);
    }
  }

  // ---------------------------------------------------------------------
  // manifest.values.sum { |data| data['size'] }
  // ---------------------------------------------------------------------

  /** The sum of the sizes stored under `keys`. */
  function SumEntrySizes(keys: seq<string>, entries: map<string, Entry>): (r: nat)
    requires forall k :: k in keys ==> k in entries
    ensures forall i :: 0 <= i < |keys| ==> entries[keys[i]].size <= r
  {
    if keys == [] then 0
    else SumEntrySizes(keys[..|keys| - 1], entries) + entries[keys[|keys| - 1]].size
  }

  /** The total size of the manifest's entries. */
  function TotalSize(t: Table): (r: nat)
    requires t.Valid()
    ensures forall k :: k in t.entries ==> t.entries[k].size <= r
    ensures t.order == [] ==> r == 0
  {
    SumEntrySizes(t.order, t.entries)
  }

  /** The sum of the sizes of the listed files. */
  function SumFiles(files: seq<ImageFile>): nat {
    if files == [] then 0 else files[0].size + SumFiles(files[1..])
  }

  lemma {:induction false} SumEntrySizesUpdate(keys: seq<string>, entries: map<string, Entry>, k: string, e: Entry)
    requires forall x :: x in keys ==> x in entries
    requires k !in keys
    ensures SumEntrySizes(keys, entries[k := e]) == SumEntrySizes(keys, entries)
    decreases |keys|
  {
    if keys != [] {
      SumEntrySizesUpdate(keys[..|keys| - 1], entries, k, e);
    }
  }

  lemma SumEntrySizesAppend(keys: seq<string>, entries: map<string, Entry>, k: string)
    requires forall x :: x in keys ==> x in entries
    requires k in entries
    ensures SumEntrySizes(keys + [k], entries) == SumEntrySizes(keys, entries) + entries[k].size
  {
    assert (keys + [k])[..|keys|] == keys;
  }

  lemma {:induction false} SumFilesAppend(files: seq<ImageFile>, f: ImageFile)
    ensures SumFiles(files + [f]) == SumFiles(files) + f.size
    decreases |files|
  {
    if files != [] {
      assert (files + [f])[1..] == files[1..] + [f];
      SumFilesAppend(files[1..], f);
    }
  }

  lemma SumFilesLast(files: seq<ImageFile>)
    requires files != []
    ensures SumFiles(files) == SumFiles(files[..|files| - 1]) + files[|files| - 1].size
  {
    SumFilesAppend(files[..|files| - 1], files[|files| - 1]);
    assert files[..|files| - 1] + [files[|files| - 1]] == files;
  }

  /** With distinct names, the last file's name is not yet in the manifest of the others. */
  lemma LastNameIsNew(files: seq<ImageFile>, describe: string -> string)
    requires NamesDistinct(files) && files != []
    ensures files[|files| - 1].name !in BuildTable(files[..|files| - 1], describe).entries
  {
    var init := files[..|files| - 1];
    BuildTableKeys(init, describe);
    forall i | 0 <= i < |init| ensures Names(init)[i] != files[|files| - 1].name {
      assert init[i] == files[i];
    }
  }

  /** Storing a key the manifest does not hold adds that entry's size to the total. */
  lemma TotalSizePutNew(t: Table, key: string, value: Entry)
    requires t.Valid() && key !in t.entries
    ensures TotalSize(t.Put(key, value)) == TotalSize(t) + value.size
  {
    var u := t.Put(key, value);
    assert u.order == t.order + [key];
    SumEntrySizesAppend(t.order, u.entries, key);
    SumEntrySizesUpdate(t.order, t.entries, key, value);
  }

  /** With distinct names, storing the last file adds its size to the total. */
  lemma TotalSizeLastFile(files: seq<ImageFile>, describe: string -> string)
    requires NamesDistinct(files) && files != []
    ensures TotalSize(BuildTable(files, describe)) == TotalSize(BuildTable(files[..|files| - 1], describe)) + files[|files| - 1].size
  {
    var f := files[|files| - 1];
    var t := BuildTable(files[..|files| - 1], describe);
    var e := EntryFor(f, describe);
    assert BuildTable(files, describe) == t.Put(f.name, e);
    LastNameIsNew(files, describe);
    assert f.name !in t.entries;
    TotalSizePutNew(t, f.name, e);
    assert TotalSize(t.Put(f.name, e)) == TotalSize(t) + f.size;
  }

  /** With distinct names the manifest's total is the sum of the files' sizes. */
  lemma {:induction false} TotalSizeOfBuild(files: seq<ImageFile>, describe: string -> string)
    requires NamesDistinct(files)
    ensures TotalSize(BuildTable(files, describe)) == SumFiles(files)
    decreases |files|
  {
    if files != [] {
      var init := files[..|files| - 1];
      var f := files[|files| - 1];
      TotalSizeOfBuild(init, describe);
      TotalSizeLastFile(files, describe);
      SumFilesLast(files);
    }
  }

  lemma {:induction false} SumFilesInsert(f: ImageFile, files: seq<ImageFile>)
    requires SortedByName(files)
    ensures SumFiles(InsertByName(f, files)) == f.size + SumFiles(files)
    decreases |files|
  {
    if files != [] && !LessEq(f.name, files[0].name) {
      SumFilesInsert(f, files[1..]);
    }
  }

  /** Sorting the listing does not change the total of its sizes. */
  lemma {:induction false} SumFilesSort(files: seq<ImageFile>)
    ensures SumFiles(SortByName(files)) == SumFiles(files)
    decreases |files|
  {
    if files != [] {
      SumFilesSort(files[1..]);
      SumFilesInsert(files[0], SortByName(files[1..]));
    }
  }

  /** The manifest built from the sorted listing holds exactly the listed names. */
  lemma ListingManifest(found: seq<ImageFile>, describe: string -> string)
    ensures forall k :: k in BuildTable(SortByName(found), describe).entries <==> k in Names(found)
  {
    BuildTableKeys(SortByName(found), describe);
    SameNames(SortByName(found), found);
  }

  /**
   With distinct names, the manifest built from the sorted listing has its
   keys in sorted order, one entry per file holding that file's data, and
   the files' total size.
   */
  lemma DistinctListingManifest(found: seq<ImageFile>, describe: string -> string)
    requires NamesDistinct(found)
    ensures var m := BuildTable(SortByName(found), describe);
      && SortedNames(m.order)
      && |m.order| == |found|
      && TotalSize(m) == SumFiles(found)
      && (forall f :: f in found ==> f.name in m.entries && m.entries[f.name] == EntryFor(f, describe))
  {
    var files := SortByName(found);
    SortKeepsNamesDistinct(found);
    BuildTableDistinct(files, describe);
    TotalSizeOfBuild(files, describe);
    SumFilesSort(found);
    assert |files| == |found| by { assert |multiset(files)| == |multiset(found)|; }
    EveryFileStored(files, found, describe);
  }

  /** Every file of a reordered listing with distinct names has its own entry. */
  lemma EveryFileStored(files: seq<ImageFile>, found: seq<ImageFile>, describe: string -> string)
    requires NamesDistinct(files) && multiset(files) == multiset(found)
    ensures var m := BuildTable(files, describe);
      forall f :: f in found ==> f.name in m.entries && m.entries[f.name] == EntryFor(f, describe)
  {
    var m := BuildTable(files, describe);
    BuildTableDistinct(files, describe);
    forall f | f in found ensures f.name in m.entries && m.entries[f.name] == EntryFor(f, describe) {
      assert f in multiset(files);
      var i :| 0 <= i < |files| && files[i] == f;
    }
  }

  // ---------------------------------------------------------------------
  // generate_manifest
  // ---------------------------------------------------------------------

  datatype ManifestError = DirectoryNotFound | NoPngFiles

  datatype Result<T> = Success(value: T) | Failure(error: ManifestError)

  /** What a successful run produces: the manifest, its entry count and its total size. */
  datatype Summary = Summary(manifest: Table, count: nat, totalSize: nat)

  /**
   generate_manifest. A missing directory is reported first, whatever the
   listing; an empty listing is reported next. Otherwise the manifest holds
   an entry for every listed name, each described from its name; when the
   names are distinct, as in a directory, the keys are in sorted order, the
   count is the number of files, every file's digest and size are stored
   under its name, and the total is the sum of their sizes.
   */
  method GenerateManifest(dirExists: bool, found: seq<ImageFile>) returns (result: Result<Summary>)
    ensures !dirExists <==> result == Failure(DirectoryNotFound)
    ensures dirExists && found == [] <==> result == Failure(NoPngFiles)
    ensures result.Success? ==>
      var m := result.value.manifest;
      && m == BuildTable(SortByName(found), Description.Describe)
      && m.Valid()
      && result.value.count == |m.order|
      && result.value.totalSize == TotalSize(m)
      && (forall k :: k in m.entries <==> k in Names(found))
      && (forall k :: k in m.entries ==> m.entries[k].description == Description.Describe(k))
    ensures result.Success? && NamesDistinct(found) ==>
      var m := result.value.manifest;
      && SortedNames(m.order)
      && result.value.count == |found|
      && result.value.totalSize == SumFiles(found)
      && (forall f :: f in found ==> f.name in m.entries && m.entries[f.name] == EntryFor(f, Description.Describe))
  {
    if !dirExists {
      return Failure(DirectoryNotFound);
    }
    var files := SortByName(found);
    if |files| == 0 {
      assert |multiset(found)| == 0;
      return Failure(NoPngFiles);
    }
    assert found != [] by { assert |multiset(found)| == |files|; }

    var manifest := Table([], map[]);
    for i := 0 to |files|
      invariant manifest == BuildTable(files[..i], Description.Describe)
    {
      var f := files[i];
      BuildTableStep(files, i, Description.Describe);
      manifest := manifest.Put(f.name, EntryFor(f, Description.Describe));
    }
    assert files[..|files|] == files;

    var total := TotalSize(manifest);
    result := Success(Summary(manifest, |manifest.order|, total));
    ListingManifest(found, Description.Describe);
    if NamesDistinct(found) {
      DistinctListingManifest(found, Description.Describe);
    }
  }
}
