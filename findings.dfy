/** parse_s (src/decode.c:35-43, and the same text at src/bencode.c:80-83)
    as the code is written: each pass tests the byte under the cursor,
    steps, and copies the byte it stepped to. The tested bytes run from the
    `:` to the one before the last payload byte, so the last payload byte
    is copied without a test, and a NUL there is copied and stepped over. */
module Findings {
  import opened Bytes
  import opened Values
  import opened DecoderSpec
  import DecoderProperties

  /** The copy loop as written: it fails only when a NUL lies before the
      last payload byte; a NUL at the last payload byte ends the string one
      byte short (mkString stops at it), and the cursor ends past it. */
  function ParseStringAsWritten(s: seq<byte>, pos: nat): (r: Parsed)
    ensures r.Ok? ==> IsDigit(At(s, pos)) && pos < r.value.1 && r.value.0.Str?
  {
    if !IsDigit(At(s, pos)) then Err(NotAString)
    else
      var q := DigitsEnd(s, pos);
      if At(s, q) != CharColon then Err(InvalidSeparator)
      else
        DigitsEndRun(s, pos);
        var n := DigitsValue(s[pos..q]);
        if n > IntMax then Err(StringTooLong)
        else if q + n > NulEnd(s, q + 1) then Err(PrematureEnd)
        else if q + n == NulEnd(s, q + 1) then Ok((Str(s[q + 1..q + n]), q + 1 + n))
        else Ok((Str(s[q + 1..q + 1 + n]), q + 1 + n))
  }

  /** On "2:a" the code as written yields the one-byte string "a" and moves
      the cursor to 4, one past the terminator of a 3-byte input; with every
      payload byte tested the same input is refused. */
  lemma TwoColonA()
    ensures ParseStringAsWritten([50, 58, 97], 0) == Ok((Str([97]), 4))
    ensures ParseString([50, 58, 97], 0) == Err(PrematureEnd)
  {
    var s: seq<byte> := [50, 58, 97];
    assert s[0..1] == [50] && [50][..0] == [];
    assert DigitsValue(s[0..1]) == 2;
    DecoderProperties.DigitsEndOf(s, 0, 1);
    assert NulEnd(s, 3) == 3;
    assert NulEnd(s, 2) == 3;
    assert s[2..3] == [97];
  }

  /** Wherever the checked parser succeeds, the code as written reads the
      same string and stops at the same byte. */
  lemma AsWrittenAgrees(s: seq<byte>, pos: nat)
    requires ParseString(s, pos).Ok?
    ensures ParseStringAsWritten(s, pos) == ParseString(s, pos)
  {
  }

  /** The code as written goes wrong exactly when the NUL sits at the last
      payload byte: it then succeeds where the checked parser fails, with
      the cursor past the terminator. */
  lemma AsWrittenOverruns(s: seq<byte>, pos: nat)
    requires ParseString(s, pos).Err? && ParseStringAsWritten(s, pos).Ok?
    ensures ParseString(s, pos) == Err(PrematureEnd)
    ensures ParseStringAsWritten(s, pos).value.1 == NulEnd(s, DigitsEnd(s, pos) + 1) + 1
  {
  }
}
