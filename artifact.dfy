/**
  The audio artifact of a phrase: `out_dir / f"{phrase_id:06d}.mp3"`.
  The name is the id zero-padded to six characters with `.mp3` appended;
  because the name can be read back as the id, distinct phrases never share
  a file, which is what lets the driver model the output directory as the
  set of ids whose file exists.
*/
module Artifact {
  import opened Wrappers
  import opened Decimal

  const Width: nat := 6
  const Extension: string := ".mp3"

  function ArtifactName(id: int): (name: string)
    ensures |name| >= Width + |Extension|
    ensures name[|name| - |Extension|..] == Extension
  {
    FormatZeroPadded(id, Width) + Extension
  }

  /** Strips `.mp3` and reads the remaining text as a (possibly zero-padded) id. */
  function ParseArtifactName(name: string): Option<int>
  {
    if |name| >= |Extension| && name[|name| - |Extension|..] == Extension
    then ParseInt(name[..|name| - |Extension|])
    else None
  }

  /**
    For a non-negative id the name is all digits before `.mp3`, at least six of
    them, exactly as many as the id needs when it needs more, and they denote the id.
  */
  lemma ArtifactNameShape(id: nat)
    ensures var name := ArtifactName(id);
      var stem := name[..|name| - |Extension|];
      name == stem + Extension &&
      AllDigits(stem) && DigitsValue(stem) == id &&
      |stem| == (if |NatToString(id)| < Width then Width else |NatToString(id)|)
  {
    var name := ArtifactName(id);
    var stem := FormatZeroPadded(id, Width);
    assert name[..|name| - |Extension|] == stem;
    PadZerosValue(id, Width);
  }

  /** Reading the name back gives the id, for every id (a negative one keeps its sign). */
  lemma ArtifactNameRoundTrip(id: int)
    ensures ParseArtifactName(ArtifactName(id)) == Some(id)
  {
    var name := ArtifactName(id);
    var stem := FormatZeroPadded(id, Width);
    assert name[..|name| - |Extension|] == stem;
    assert name[|name| - |Extension|..] == Extension;
    FormatZeroPaddedRoundTrip(id, Width);
  }

  /** Two phrases with different ids never write to the same file. */
  lemma ArtifactNameInjective(a: int, b: int)
    ensures ArtifactName(a) == ArtifactName(b) ==> a == b
  {
    ArtifactNameRoundTrip(a);
    ArtifactNameRoundTrip(b);
  }

  /** Two names as the driver writes them: zeros go after the sign. */
  lemma ArtifactNameExamples()
    ensures ArtifactName(42) == "000042.mp3"
    ensures ArtifactName(-7) == "-00007.mp3"
  {
  }

  /** An id of six digits or more is written as its plain digits: nothing is cut and nothing padded. */
  lemma WideArtifactName(id: nat)
    requires id >= Pow10(Width - 1)
    ensures ArtifactName(id) == NatToString(id) + Extension
  {
    NatToStringLength(id, Width - 1);
  }
}
