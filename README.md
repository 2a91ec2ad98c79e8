# Manifest generator for visualizer assets

A Dafny model of `generate_manifest.rb`. The script checks that an image
directory exists and lists its `.png` files in sorted order. It stores one
entry per file in an insertion-ordered Ruby Hash keyed by base name. Each
entry holds the file's SHA-256 hex digest, its size in bytes and a
description derived from the file name. The script writes the Hash as YAML
and prints a summary: the entry count and the total size in B, KB or MB.

The project has four modules:

- `RubyString` (`ruby_string.dfy`) holds the Ruby string behaviour the
  script relies on:
  - `String#<=>` as used by `Array#sort`, as `LessEq`;
  - `gsub` with a literal pattern and an empty replacement, as `RemoveAll`;
  - `Integer#to_s` in interpolation, as `IntToS`.
- `Description` (`description.dfy`) models `generate_description`. The
  pattern `/^u(\d+)\.png$/` matches the whole file name, and `MatchRoomImage`
  returns its capture group. `Describe` is the three-way `case`.
- `ByteFormat` (`byte_format.dfy`) models `format_bytes`. It chooses the
  unit, and the `B` branch renders the exact count. The rounded KB/MB figure
  is an input, `scaledFigure`.
- `Manifest` (`manifest.dfy`) models `generate_manifest`:
  - `SortByName` is the sort of the listing.
  - The Hash is a `Table`: the keys in insertion order plus a map.
    `Table.Put` is `Hash#[]=`.
  - `BuildTable` is the manifest that storing the files one by one produces.
  - `TotalSize` is `manifest.values.sum`.
  - `Names` and `EntryFor` are helpers: the listing's names, and one entry.
  - `GenerateManifest` is the method. It reports the two guard errors as a
    `Failure`, then builds the Hash in a loop whose invariant ties it to
    `BuildTable`.

The file system is replaced by inputs. `dirExists` is the answer of
`Dir.exist?`. `found` lists, for each `.png` file, its base name, its digest
and its size.

`gsub('.png', '')` removes every `.png` in the name, in one left-to-right
pass, not only the extension. `RemoveAllSplit`, `DescribeInteriorPng` and
`RemoveAllNotIdempotent` state what it leaves.

Two helpers carry no properties of their own. `Names` lists the base names
of the listing; the base names are already in the input. `EntryFor` is the
hash literal of one entry.

## Model

| member | source | states |
|---|---|---|
| RubyString.LessEq | generate_manifest.rb:34 | `String#<=>` as a predicate: a prefix sorts no later than the whole; LessEqReflexive to LessEqTransitive make it a total order |
| RubyString.LessEqReflexive | generate_manifest.rb:34 | every name sorts no later than itself |
| RubyString.LessEqTotal | generate_manifest.rb:34 | any two names are ordered one way or the other |
| RubyString.LessEqAntisymmetric | generate_manifest.rb:34 | two names ordered both ways are equal |
| RubyString.LessEqTransitive | generate_manifest.rb:34 | the string order is transitive, so sorting is well defined |
| RubyString.LessEqCommonPrefix | generate_manifest.rb:34 | full paths with a common directory prefix compare as their base names do, so sorting the paths sorts by base name |
| RubyString.RemoveAll | generate_manifest.rb:79 | removing occurrences never lengthens the string |
| RubyString.RemoveAllSplit | generate_manifest.rb:79 | for a pattern such as `.png`, whose first character does not recur, an occurrence splits the removal into the part before and the part after; with RemoveAllNoOccurrence this fixes the result for every name |
| RubyString.RemoveAllNoOccurrence | generate_manifest.rb:79 | a string without the pattern is left unchanged |
| RubyString.RemoveAllDropsSuffix | generate_manifest.rb:79 | a name that contains `.png` only as its final suffix loses exactly that suffix |
| RubyString.RemoveAllNotIdempotent | generate_manifest.rb:79 | one pass can leave a new `.png` behind: `..pngpng` becomes `.png`, and a second pass gives the empty string |
| RubyString.NatToS | generate_manifest.rb:85 | the decimal text of a count is non-empty, all digits and has no leading zero |
| RubyString.IntToS | generate_manifest.rb:85 | `Integer#to_s`: the text is canonical (no leading zero, no `-0`) and starts with `-` exactly for a negative number; IntToSRoundTrip reads it back |
| RubyString.NatToSRoundTrip | generate_manifest.rb:85 | reading the decimal text back gives the count |
| RubyString.NegativeRoundTrip | generate_manifest.rb:85 | a negative number renders as `-` and digits that read back as the number |
| RubyString.IntToSRoundTrip | generate_manifest.rb:85 | any integer's text is integer text that reads back as the integer |
| Description.DigitRunEnd | generate_manifest.rb:74 | the `\d+` run is maximal: digits up to the end, and a non-digit or the end of the string there |
| Description.MatchRoomImage | generate_manifest.rb:74 | matches exactly the names `u`, digits, `.png`; the capture is the non-empty digit run, and the name is rebuilt from it |
| Description.RoomImageRunEnd | generate_manifest.rb:74 | in a room image name the digit run stops exactly at `.png` |
| Description.Describe | generate_manifest.rb:72-81 | `generate_description`: a room image name gives `Room UID `, the digits between `u` and `.png`, ` image`; `null.png` gives the fallback sentence; any other name gives `Location image: ` and the name with every `.png` removed |
| Description.DescribeRoomImage | generate_manifest.rb:74-75 | `u<digits>.png` gives `Room UID <digits> image`, with the digits verbatim |
| Description.DescribeForms | generate_manifest.rb:72-81 | the description's form tells which branch was taken, in both directions; each name gets exactly one form |
| Description.RoomNameFromDescription | generate_manifest.rb:74-75 | a room image's name can be recovered from its description |
| Description.RoomDescriptionsDistinct | generate_manifest.rb:74-75 | different room images never share a description |
| Description.DescribeRoomExamples | generate_manifest.rb:74-75 | `u42.png` gives `Room UID 42 image` and `u007.png` keeps its leading zeros |
| Description.DescribePlainImage | generate_manifest.rb:78-79 | a dot-free base other than `null` that is not a room image, plus `.png`, is described by the base alone |
| Description.DescribeLocationExamples | generate_manifest.rb:73-79 | `lobby.png` gives `Location image: lobby`; `u.png` (no digits) falls through to the location form |
| Description.DescribeNearMissExamples | generate_manifest.rb:74-79 | `U42.png` and `u4a.png` are not room images and get the location form |
| Description.DescribeInteriorPng | generate_manifest.rb:79 | `a.pngb.png` gives `Location image: ab`: the interior `.png` is removed as well |
| Description.NoPngIn | generate_manifest.rb:79 | removing `.png` from a dot-free base plus `.png` leaves the base |
| ByteFormat.UnitFor | generate_manifest.rb:84-88 | the unit chosen does not exceed the count (unless it is bytes), and the count is under 1024 of it (unless it is megabytes) |
| ByteFormat.FormatBytes | generate_manifest.rb:83-90 | the text ends in the chosen unit's suffix; below 1024 the text before ` B` is `Integer#to_s` of the count, canonical and reading back as the count; otherwise it is the scaled figure |
| ByteFormat.UnitForIsLargestFitting | generate_manifest.rb:84-90 | for a count of at least one byte, the chosen unit is the largest one that does not exceed the count (at 0 no unit fits, and the unit is bytes) |
| ByteFormat.UnitForBelowNext | generate_manifest.rb:84-88 | with B or KB the count is under 1024 of that unit |
| ByteFormat.UnitForMonotone | generate_manifest.rb:84-90 | a larger count never gets a smaller unit |
| ByteFormat.FormatBytesExamples | generate_manifest.rb:83-90 | 500 gives `500 B`; 2048 is shown in KB and 5242880 in MB |
| Manifest.Table.Put | generate_manifest.rb:53-57 | `Hash#[]=`: the key maps to the value and others are unchanged; an existing key keeps its place; a new key goes last; the key order stays duplicate-free |
| Manifest.InsertByName | generate_manifest.rb:34 | inserting into a sorted listing keeps it sorted and adds exactly that file |
| Manifest.SortByName | generate_manifest.rb:34 | the result is sorted by name and is a permutation of the listing |
| Manifest.SortedPairwise | generate_manifest.rb:34 | in a sorted listing every earlier name sorts no later than every later one |
| Manifest.SortedSameHead | generate_manifest.rb:34 | two sorted arrangements of the same distinct files start with the same file |
| Manifest.SameTails | generate_manifest.rb:34 | dropping the same first file from two permutations leaves permutations |
| Manifest.SortedUnique | generate_manifest.rb:34 | with distinct names there is only one sorted arrangement, so any correct sort gives the model's result |
| Manifest.InsertKeepsNamesDistinct | generate_manifest.rb:34 | inserting a new name keeps the names distinct |
| Manifest.SortKeepsNamesDistinct | generate_manifest.rb:34 | sorting keeps the names distinct |
| Manifest.SameNames | generate_manifest.rb:34 | a permutation holds the same names |
| Manifest.BuildTable | generate_manifest.rb:44-60 | the manifest is a well-formed Hash and every description is the one derived from its key |
| Manifest.BuildTableStep | generate_manifest.rb:46-57 | one more iteration stores the next file, by `Hash#[]=`, into the manifest of the files before it |
| Manifest.BuildTableKeys | generate_manifest.rb:44-60 | the keys are exactly the names stored |
| Manifest.BuildTableDistinct | generate_manifest.rb:44-60 | with distinct names the key order is the storing order and each file's entry is its own |
| Manifest.BuildTableLastWins | generate_manifest.rb:53-57 | a name stored twice keeps the entry of the last file stored under it |
| Manifest.TotalSize | generate_manifest.rb:68 | `manifest.values.sum`: no entry's size exceeds the total, and an empty manifest totals 0; TotalSizeOfBuild ties it to the files' sizes |
| Manifest.SumEntrySizesUpdate | generate_manifest.rb:68 | changing an entry outside the summed keys does not change the sum |
| Manifest.SumEntrySizesAppend | generate_manifest.rb:68 | summing one more key adds that entry's size |
| Manifest.SumFilesAppend | generate_manifest.rb:68 | one more file adds its size to the files' total |
| Manifest.SumFilesLast | generate_manifest.rb:68 | the files' total is the total of all but the last plus the last one's size |
| Manifest.LastNameIsNew | generate_manifest.rb:53 | with distinct names the last file's name is new to the manifest of the others |
| Manifest.TotalSizePutNew | generate_manifest.rb:53-68 | storing a new key adds its entry's size to the total |
| Manifest.TotalSizeLastFile | generate_manifest.rb:53-68 | with distinct names, storing the last file adds its size to the total |
| Manifest.TotalSizeOfBuild | generate_manifest.rb:44-68 | with distinct names the manifest's total is the sum of the files' sizes |
| Manifest.SumFilesInsert | generate_manifest.rb:34 | inserting a file into the sorted listing adds its size to the total |
| Manifest.SumFilesSort | generate_manifest.rb:34 | sorting does not change the total size |
| Manifest.ListingManifest | generate_manifest.rb:34-60 | the manifest built from the sorted listing holds exactly the listed names |
| Manifest.DistinctListingManifest | generate_manifest.rb:34-68 | with distinct names: keys in sorted order, one entry per file holding its data, and the files' total size |
| Manifest.EveryFileStored | generate_manifest.rb:46-57 | every file of a permuted listing with distinct names has its own entry |
| Manifest.GenerateManifest | generate_manifest.rb:28-70 | a missing directory fails first, then an empty listing fails; otherwise the result is the manifest of the sorted listing, with the entry count and the total size of its entries; with distinct names the keys are sorted, the count is the number of files, each file's data is stored under its name, and the total is the sum of the files' sizes |

## Left out

- The SHA-256 digest, `File.size`, `Dir.exist?` and `Dir.glob` are not modelled; their results are the inputs `dirExists` and `found`.
- Listing files with the `.png` extension is left to the caller. `found` is taken to be the glob result, reduced to base names.
- Writing the YAML document to the output file is not modelled. YAML serialisation is a library call, and the write is I/O.
- The progress and summary lines (`puts`, `print`) are not modelled. The count and the total they report are the `count` and `totalSize` fields of the result.
- `exit 1` is modelled as a `Failure` result carrying the reason; the message text and the exit code are not modelled.
- The command-line defaults (`./images`, `manifest.yaml`) and the script's top-level driver are not modelled.
- ByteFormat.FormatBytes: does not compute the KB and MB figures. They come from floating-point division and `round(2)`, so the rendered figure is the input `scaledFigure`.
- Description.MatchRoomImage: `^` and `$` in Ruby match at line boundaries. The model matches the whole name, which agrees for names without a newline.
- Manifest.GenerateManifest: the claims about sorted keys, the count and the total are stated for listings with distinct names, which is what a directory gives. For other inputs the method still states the keys, the descriptions and `TotalSize`, and BuildTableLastWins states which entry a repeated name keeps.
- Unreadable files are not modelled. In the script, a file that cannot be read makes `Digest::SHA256.file` or `File.size` (lines 21 and 25) raise and abort the run. In the model every file in `found` carries a digest and a size.
- RubyString.LessEq: compares characters by code point, while Ruby's `String#<=>` compares bytes. The two orders agree on UTF-8 names. Names that are not valid UTF-8 cannot be represented, and on such a name the match at line 74 raises.
- Manifest.SortByName: an insertion sort stands in for Ruby's sort. SortedUnique shows that on distinct names every sort gives the same result.
