/**
 `format_bytes`: the text for the run summary's total size, in binary
 (1024-based) units. The model decides which unit is used and renders the
 exact byte count; the rounded figure for kilobytes and megabytes comes
 from floating-point division and is passed in as `scaledFigure`.
 */
module ByteFormat {
  import opened RubyString

  const KiB := 1024
  const MiB := 1024 * 1024

  datatype Unit = Bytes | Kilobytes | Megabytes

  function Suffix(u: Unit): string {
    match u
    case Bytes => " B"
    case Kilobytes => " KB"
    case Megabytes => " MB"
  }

  /** How many bytes one of the unit stands for. */
  function Divisor(u: Unit): nat {
    match u
    case Bytes => 1
    case Kilobytes => KiB
    case Megabytes => MiB
  }

  /**
   The branch `format_bytes` takes for `bytes`: the largest unit not
   exceeding the count, and one under which the count stays below 1024
   units unless it is megabytes.
   */
  function UnitFor(bytes: int): (u: Unit)
    ensures u == Bytes || Divisor(u) <= bytes
    ensures u == Megabytes || bytes < KiB * Divisor(u)
  {
    if bytes < KiB then Bytes
    else if bytes < MiB then Kilobytes
    else Megabytes
  }

  /**
   format_bytes. `scaledFigure` stands for the rendering of
   `(bytes / divisor).round(2)`, which the model does not compute.
   Below one kilobyte the text is the count in canonical decimal form
   (Integer#to_s), and it reads back as `bytes`; otherwise it is the figure
   followed by the unit.
   */
  function FormatBytes(bytes: int, scaledFigure: string): (r: string)
    ensures HasSuffix(r, Suffix(UnitFor(bytes)))
    ensures bytes < KiB ==> var n := |r| - 2;
      0 <= n && r[..n] == IntToS(bytes) && IntegerValue(r[..n]) == bytes
    ensures bytes >= KiB ==> r[..|r| - |Suffix(UnitFor(bytes))|] == scaledFigure
  {
    if bytes < KiB then
      IntToSRoundTrip(bytes);
      var r := IntToS(bytes) + " B";
      assert r[..|r| - 2] == IntToS(bytes);
      r
    else if bytes < MiB then
      scaledFigure + " KB"
    else
      scaledFigure + " MB"
  }

  /**
   The unit chosen is the largest whose size does not exceed the count:
   any unit that fits is no larger than the one chosen, and for a count of
   at least one byte the chosen unit fits.
   */
  lemma UnitForIsLargestFitting(bytes: int, u: Unit)
    requires Divisor(u) <= bytes
    ensures Divisor(u) <= Divisor(UnitFor(bytes)) <= bytes
  {
  }

  /** Below megabytes, the scaled figure is less than 1024 of the unit. */
  lemma UnitForBelowNext(bytes: int)
    requires UnitFor(bytes) != Megabytes
    ensures bytes < KiB * Divisor(UnitFor(bytes))
  {
  }

  /** A larger count never gets a smaller unit. */
  lemma UnitForMonotone(a: int, b: int)
    requires a <= b
    ensures Divisor(UnitFor(a)) <= Divisor(UnitFor(b))
  {
  }

  /** Examples: 500 is shown in exact bytes, 2048 in kilobytes, 5242880 in megabytes. */
  lemma FormatBytesExamples(figure: string)
    ensures FormatBytes(500, figure) == "500 B"
    ensures HasSuffix(FormatBytes(2048, figure), " KB")
    ensures HasSuffix(FormatBytes(5242880, figure), " MB")
  {
    assert NatToS(5) == "5";
    assert NatToS(50) == "50";
    assert NatToS(500) == "500";
  }
}
