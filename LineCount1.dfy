/** The counting core of the `LineCount1` console program: the character and
    line scan of `processFile`, the `padLeft` helper used by the column
    output styles, and the range check on the `-m` output-style option. */
module LineCount1 {
  import opened CodeUnits
  import opened LineSpec

  /** Largest accepted output message format index, `MAX_FORMAT`. */
  const MaxFormat: int := 999

  datatype Option<T> = None | Some(value: T)

  /** Counts the characters and lines of the already decoded contents of one
      file, reading one code unit at a time as `processFile` does, then
      adding the unterminated last line if it is not empty. */
  method CountFile(contents: seq<CodeUnit>) returns (fileChars: nat, fileLines: nat)
    ensures fileChars == |contents|
    ensures fileLines == LineTotal(contents)
  {
    var lineChars: nat := 0;
    var foundCr := false;
    fileChars, fileLines := 0, 0;
    var pos := 0;  // how far the input stream has been read
    while pos < |contents|
      invariant pos <= |contents|
      invariant fileChars == pos
      invariant fileLines == Terminators(contents[..pos])
      invariant lineChars == TailLength(contents[..pos])
      invariant foundCr == EndsWithCr(contents[..pos])
    {
      var ch := contents[pos];
      assert contents[..pos + 1] == contents[..pos] + [ch];
      TerminatorsSnoc(contents[..pos], ch);
      TailLengthSnoc(contents[..pos], ch);
      pos := pos + 1;
      fileChars := fileChars + 1;
      if ch == CR {
        fileLines := fileLines + 1;
        foundCr := true;
        lineChars := 0;
      } else if ch != LF {
        foundCr := false;
        lineChars := lineChars + 1;
      } else if foundCr {
        foundCr := false;
        lineChars := 0;
      } else {
        fileLines := fileLines + 1;
        foundCr := false;
        lineChars := 0;
      }
    }
    assert contents[..pos] == contents;
    if lineChars > 0 {
      fileLines := fileLines + 1;
    }
  }

  /** Inserts leading spaces until `input` is `width` code units long; an
      input already that long or longer comes back unchanged. */
  method PadLeft(input: seq<CodeUnit>, width: int) returns (result: seq<CodeUnit>)
    ensures width - |input| <= 0 ==> result == input
    ensures |result| == if width > |input| then width else |input|
    ensures forall j :: 0 <= j < |result| - |input| ==> result[j] == SP
    ensures result[|result| - |input|..] == input
  {
    var fillCount := width - |input|;
    if fillCount <= 0 {
      result := input;
    } else {
      var buffer: seq<CodeUnit> := [];
      for i := 0 to fillCount
        invariant |buffer| == i
        invariant forall j :: 0 <= j < i ==> buffer[j] == SP
      {
        buffer := buffer + [SP];
      }
      buffer := buffer + input;
      result := buffer;
    }
  }

  /** The `-m` option check: the style is accepted exactly when the suffix
      parses to an index from 0 to `MaxFormat`; otherwise the option is a
      fatal configuration error (`None`). */
  function CheckOutputStyle(parsed: Option<int>): (style: Option<int>)
    ensures style.Some? <==> parsed.Some? && 0 <= parsed.value <= MaxFormat
    ensures style.Some? ==> style.value == parsed.value
  {
    // a suffix that does not parse leaves the style at -1, outside the range
    var n := match parsed case Some(v) => v case None => -1;
    if n < 0 || n > MaxFormat then None else Some(n)
  }
}
