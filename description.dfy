/**
 `generate_description`: the human-readable text the manifest stores for
 each image, derived from the file name alone.

 The room pattern `/^u(\d+)\.png$/` is read as a match of the whole file
 name; `\d` is an ASCII digit, as in Ruby's default regular expressions.
 */
module Description {
  import opened RubyString

  datatype Option<T> = None | Some(value: T)

  const PngExtension := ".png"
  const NullImage := "null.png"
  const FallbackText := "Fallback image when room image not found"
  const RoomPrefix := "Room UID "
  const RoomSuffix := " image"
  const LocationPrefix := "Location image: "

  /** The file names the room pattern accepts: `u`, one or more digits, `.png`. */
  predicate IsRoomImageName(name: string) {
    |name| >= 6 && name[0] == 'u' && name[|name| - 4..] == PngExtension
    && AllDigits(name[1..|name| - 4])
  }

  /** The end of the run of digits in `s` that starts at `i` (the `\d+` of the pattern). */
  function DigitRunEnd(s: string, i: nat): (j: nat)
    requires i <= |s|
    ensures i <= j <= |s|
    ensures forall k :: i <= k < j ==> IsDigit(s[k])
    ensures j < |s| ==> !IsDigit(s[j])
    decreases |s| - i
  {
    if i < |s| && IsDigit(s[i]) then DigitRunEnd(s, i + 1) else i
  }

  /**
   Matches the room pattern against `name` and yields its capture group:
   the digits after the `u`, exactly as written.
   */
  function MatchRoomImage(name: string): (m: Option<string>)
    ensures m.Some? <==> IsRoomImageName(name)
    ensures m.Some? ==> m.value != [] && AllDigits(m.value) && name == "u" + m.value + PngExtension
  {
    if name != [] && name[0] == 'u' then
      var j := DigitRunEnd(name, 1);
      RoomImageRunEnd(name);
      if j > 1 && name[j..] == PngExtension then
        assert name == "u" + name[1..j] + PngExtension by {
          assert name == name[..1] + name[1..j] + name[j..];
        }
        Some(name[1..j])
      else
        None
    else
      None
  }

  /** In a room image name the run of digits ends exactly where ".png" starts. */
  lemma RoomImageRunEnd(name: string)
    requires name != []
    ensures IsRoomImageName(name) ==> DigitRunEnd(name, 1) == |name| - 4
  {
    if IsRoomImageName(name) {
      var n := |name|;
      var j := DigitRunEnd(name, 1);
      assert !IsDigit(name[n - 4]) by { assert name[n - 4..][0] == '.'; }
      forall k | 1 <= k < n - 4 ensures IsDigit(name[k]) {
        assert name[1..n - 4][k - 1] == name[k];
      }
    }
  }

  /**
   generate_description: the three cases of the `case` expression, in
   order. A room image quotes the digits between `u` and `.png`.
   */
  function Describe(name: string): (r: string)
    ensures IsRoomImageName(name) ==> r == RoomPrefix + name[1..|name| - 4] + RoomSuffix
    ensures name == NullImage ==> r == FallbackText
    ensures !IsRoomImageName(name) && name != NullImage ==> r == LocationPrefix + RemoveAll(name, PngExtension)
  {
    match MatchRoomImage(name)
    case Some(uid) => RoomPrefix + uid + RoomSuffix
    case None =>
      if name == NullImage then FallbackText
      else LocationPrefix + RemoveAll(name, PngExtension)
  }

  /** A room image's description quotes its digits verbatim, leading zeros included. */
  lemma DescribeRoomImage(uid: string)
    requires uid != [] && AllDigits(uid)
    ensures Describe("u" + uid + PngExtension) == RoomPrefix + uid + RoomSuffix
  {
    var name := "u" + uid + PngExtension;
    assert name[1..|name| - 4] == uid;
    assert name[|name| - 4..] == PngExtension;
    var m := MatchRoomImage(name);
    assert m.value == name[1..|name| - 4];
  }

  /**
   The description's form tells which case was taken, in both directions,
   so every name gets exactly one of the three forms.
   */
  lemma DescribeForms(name: string)
    ensures HasPrefix(Describe(name), RoomPrefix) <==> IsRoomImageName(name)
    ensures Describe(name) == FallbackText <==> name == NullImage
    ensures HasPrefix(Describe(name), LocationPrefix) <==> !IsRoomImageName(name) && name != NullImage
  {
    var r := Describe(name);
    assert FallbackText[0] == 'F' && RoomPrefix[0] == 'R' && LocationPrefix[0] == 'L';
    if IsRoomImageName(name) {
      var uid := MatchRoomImage(name).value;
      assert r[..|RoomPrefix|] == RoomPrefix;
      assert r[0] == 'R';
      assert name != NullImage by { assert NullImage[0] == 'n'; }
      assert r[..|LocationPrefix|][0] == 'R';
    } else if name == NullImage {
      assert r[0] == 'F';
      assert r[..|RoomPrefix|][0] == 'F';
      assert r[..|LocationPrefix|][0] == 'F';
    } else {
      assert r[..|LocationPrefix|] == LocationPrefix;
      assert r[0] == 'L';
      assert r[..|RoomPrefix|][0] == 'L';
    }
  }

  /** A room image's name can be read back from its description. */
  lemma RoomNameFromDescription(name: string)
    requires IsRoomImageName(name)
    ensures var r := Describe(name);
      |r| >= |RoomPrefix| + |RoomSuffix|
      && name == "u" + r[|RoomPrefix|..|r| - |RoomSuffix|] + PngExtension
  {
    var uid := MatchRoomImage(name).value;
    var r := Describe(name);
    assert r[|RoomPrefix|..|r| - |RoomSuffix|] == uid;
  }

  /** Two different room images never share a description. */
  lemma RoomDescriptionsDistinct(a: string, b: string)
    requires IsRoomImageName(a) && IsRoomImageName(b) && a != b
    ensures Describe(a) != Describe(b)
  {
    RoomNameFromDescription(a);
    RoomNameFromDescription(b);
  }

  /** Examples: two room images, one with leading zeros. */
  lemma DescribeRoomExamples()
    ensures Describe("u42.png") == RoomPrefix + "42" + RoomSuffix
    ensures Describe("u007.png") == RoomPrefix + "007" + RoomSuffix
  {
    assert "u42.png" == "u" + "42" + PngExtension;
    DescribeRoomImage("42");
    assert "u007.png" == "u" + "007" + PngExtension;
    DescribeRoomImage("007");
  }

  /** A plain name outside the two special cases is described by its base. */
  lemma DescribePlainImage(base: string)
    requires '.' !in base && base != "null"
    requires !IsRoomImageName(base + PngExtension)
    ensures Describe(base + PngExtension) == LocationPrefix + base
  {
    assert base + PngExtension != NullImage by {
      assert NullImage[..4] == "null";
      if |base| == 4 { assert (base + PngExtension)[..4] == base; }
    }
    NoPngIn(base);
  }

  /** Names the room pattern rejects fall through to the location form. */
  lemma DescribeLocationExamples()
    ensures Describe("lobby.png") == LocationPrefix + "lobby"
    ensures Describe("u.png") == LocationPrefix + "u"
  {
    assert "lobby" + PngExtension == "lobby.png";
    DescribePlainImage("lobby");
    assert "u" + PngExtension == "u.png";
    DescribePlainImage("u");
  }

  /** A capital `U` or a non-digit among the digits also falls through. */
  lemma DescribeNearMissExamples()
    ensures Describe("U42.png") == LocationPrefix + "U42"
    ensures Describe("u4a.png") == LocationPrefix + "u4a"
  {
    assert "U42" + PngExtension == "U42.png";
    DescribePlainImage("U42");
    assert "u4a" + PngExtension == "u4a.png";
    assert !IsDigit("u4a.png"[1..3][1]);
    DescribePlainImage("u4a");
  }

  /**
   Every `.png` in the name is removed, not just the extension: the
   location text of "a.pngb.png" is "ab".
   */
  lemma DescribeInteriorPng()
    ensures Describe("a.pngb.png") == LocationPrefix + "ab"
  {
    var s := "a.pngb.png";
    assert s[..4] != PngExtension by { assert s[..4][0] == 'a'; }
    assert s[1..][..4] == PngExtension;
    assert s[1..][4..] == "b.png";
    assert "b.png" == "b" + PngExtension;
    NoPngIn("b");
    assert RemoveAll(s, PngExtension) == "ab";
    assert s != NullImage by { assert s[0] != NullImage[0]; }
  }

  /** A base name with no dot cannot hold `.png`, so removing it from base + ".png" leaves the base. */
  lemma NoPngIn(base: string)
    requires '.' !in base
    ensures RemoveAll(base + PngExtension, PngExtension) == base
  {
    forall i: nat ensures !OccursAt(base, PngExtension, i) {
      if i + 4 <= |base| {
        assert base[i] in base;
        assert base[i..i + 4][0] == base[i] != '.';
      }
    }
    RemoveAllDropsSuffix(base, PngExtension);
  }
}
