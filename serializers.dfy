/** The derived fields and input checks of the REST representation: the
    `MM:SS` duration text, the size in megabytes, the upload validation and
    the bounds on a reported progress value. */
module Serializers {
  import opened Wrappers
  import opened Text

  // ---------------------------------------------------------------------
  // Duration

  /** `int(duration // 60)`: floor division by 60. */
  function Minutes(d: real): int {
    (d / 60.0).Floor
  }

  /** `int(duration % 60)`: the remainder of floor division, truncated. */
  function Seconds(d: real): int {
    (d - 60.0 * (Minutes(d) as real)).Floor
  }

  /** The two parts are a minutes-and-seconds split of the whole seconds:
      seconds lie in 0..59 and recombine with the minutes into `floor(d)`. */
  lemma MinutesSecondsSplit(d: real)
    ensures 0 <= Seconds(d) < 60
    ensures 60 * Minutes(d) + Seconds(d) == d.Floor
  {
    var m := Minutes(d);
    var rem := d - 60.0 * (m as real);
    assert m as real <= d / 60.0 < m as real + 1.0;
    assert 0.0 <= rem < 60.0;
    assert (60 * m + rem.Floor) as real <= d < (60 * m + rem.Floor) as real + 1.0;
  }

  /** `get_duration_formatted`: nothing for a missing or zero duration,
      otherwise minutes and seconds each zero-padded to two digits. */
  function DurationFormatted(duration: Option<real>): (r: Option<string>)
    ensures r.None? <==> duration.None? || duration.value == 0.0
  {
    if duration.None? || duration.value == 0.0 then None
    else Some(FormatInt(Minutes(duration.value), 2) + ":" + FormatInt(Seconds(duration.value), 2))
  }

  lemma {:induction false} DecimalBelow100(n: nat)
    requires n < 100
    ensures |Decimal(n)| <= 2
  {
    if n >= 10 {
      assert Decimal(n) == Decimal(n / 10) + [DigitChar(n % 10)];
    }
  }

  /** For a positive duration the text reads back as its parts: it ends in
      `:SS`, two digits that read as the seconds (below 60), and the minutes
      before the colon are at least two digits that read as the minutes; by
      `MinutesSecondsSplit` the two give back `floor(d)`. */
  lemma DurationFormattedReadsBack(d: real)
    requires d > 0.0
    ensures var r := DurationFormatted(Some(d)).value;
      && |r| >= 5 && r[|r| - 3] == ':'
      && IsDigits(r[..|r| - 3]) && IsDigits(r[|r| - 2..])
      && ParseDecimal(r[..|r| - 3]) == Minutes(d)
      && ParseDecimal(r[|r| - 2..]) == Seconds(d) < 60
  {
    MinutesSecondsSplit(d);
    MinutesNonNegative(d);
    PartsReadBack(Minutes(d), Seconds(d));
  }

  /** `MM:SS` built from minutes and seconds below 60 splits back into them. */
  lemma PartsReadBack(m: nat, s: nat)
    requires s < 60
    ensures var r := FormatInt(m, 2) + ":" + FormatInt(s, 2);
      && |r| >= 5 && r[|r| - 3] == ':'
      && IsDigits(r[..|r| - 3]) && IsDigits(r[|r| - 2..])
      && ParseDecimal(r[..|r| - 3]) == m && ParseDecimal(r[|r| - 2..]) == s
  {
    var ms, ss := FormatInt(m, 2), FormatInt(s, 2);
    DecimalBelow100(s);
    assert |ss| == 2;
    ColonSplit(ms, ss);
    FormatIntParses(m, 2);
    FormatIntParses(s, 2);
  }

  lemma MinutesNonNegative(d: real)
    requires d > 0.0
    ensures Minutes(d) >= 0
  {
    assert d / 60.0 > 0.0;
  }

  lemma ColonSplit(a: string, b: string)
    requires |b| == 2
    ensures var r := a + ":" + b; r[|r| - 3] == ':' && r[..|r| - 3] == a && r[|r| - 2..] == b
  {
    var r := a + ":" + b;
    assert r[..|r| - 3] == a;
    assert r[|r| - 2..] == b;
  }

  // ---------------------------------------------------------------------
  // Size

  const Mebibyte: int := 1024 * 1024

  /** `get_file_size_mb` without the final rounding: nothing for a missing or
      zero size, otherwise the size in mebibytes. */
  function FileSizeMb(fileSize: Option<int>): (r: Option<real>)
    ensures r.None? <==> fileSize.None? || fileSize.value == 0
    ensures r.Some? ==> r.value * (Mebibyte as real) == fileSize.value as real
  {
    if fileSize.None? || fileSize.value == 0 then None
    else Some(fileSize.value as real / Mebibyte as real)
  }

  // ---------------------------------------------------------------------
  // Upload validation

  /** A file as the client submitted it. */
  datatype Upload = Upload(name: string, size: int)

  datatype ValidationError =
    | TooLarge(maxSize: int)
    | UnsupportedType(allowed: seq<string>)

  /** The lower-cased extension the validator compares. */
  function UploadExtension(name: string): string {
    Lower(SplitExt(name).1)
  }

  /** `validate_video_file`: the size is checked first, then the extension. */
  function ValidateVideoFile(file: Upload, maxSize: int, allowed: seq<string>): (r: Result<Upload, ValidationError>)
    ensures r.Ok? <==> file.size <= maxSize && UploadExtension(file.name) in allowed
    ensures r.Ok? ==> r.value == file
    ensures file.size > maxSize ==> r == Err(TooLarge(maxSize))
    ensures file.size <= maxSize && UploadExtension(file.name) !in allowed ==> r == Err(UnsupportedType(allowed))
  {
    if file.size > maxSize then Err(TooLarge(maxSize))
    else if UploadExtension(file.name) !in allowed then Err(UnsupportedType(allowed))
    else Ok(file)
  }

  /** Validation does not depend on letter case: a name and its lower-cased
      form are accepted or refused alike, with the same error. */
  lemma {:induction false} ValidationIgnoresCase(name: string, size: int, maxSize: int, allowed: seq<string>)
    ensures var a, b := ValidateVideoFile(Upload(name, size), maxSize, allowed),
                        ValidateVideoFile(Upload(Lower(name), size), maxSize, allowed);
      a.Ok? == b.Ok? && (a.Err? ==> a.error == b.error)
  {
    UploadExtensionLower(name);
  }

  /** A name and its lower-cased form have the same lower-cased extension. */
  lemma UploadExtensionLower(name: string)
    ensures UploadExtension(Lower(name)) == UploadExtension(name)
  {
    SplitExtLower(name);
    LowerIdempotent(SplitExt(name).1);
  }

  /** A file exactly at the limit is accepted when its type is allowed, and
      an oversize file is refused for its size whatever its type. */
  lemma SizeLimitInclusive(name: string, maxSize: int, allowed: seq<string>)
    ensures UploadExtension(name) in allowed ==> ValidateVideoFile(Upload(name, maxSize), maxSize, allowed).Ok?
    ensures ValidateVideoFile(Upload(name, maxSize + 1), maxSize, allowed) == Err(TooLarge(maxSize))
  {
  }

  // ---------------------------------------------------------------------
  // Status updates

  /** The `progress` field of a status update: an integer in 0..100. */
  function ValidateProgress(progress: int): (r: Option<int>)
    ensures r.Some? <==> 0 <= progress <= 100
    ensures r.Some? ==> r.value == progress
  {
    if 0 <= progress <= 100 then Some(progress) else None
  }
}
