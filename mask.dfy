/** `Mask(url)`: the per-file starting mask, folded from the upper-cased file name without
    directory or extension. */
module NameMask {
  import opened CSharpInt
  import opened Rolling
  import opened PathText

  /** The characters' codes, as the `int` operands of `^`. */
  function Codes(s: string): seq<bv32>
  {
    seq(|s|, i requires 0 <= i < |s| => CharCode(s[i]))
  }

  /** The text the mask is folded from. */
  function MaskName(url: string): (name: string)
  {
    ToUpper(FileNameWithoutExtension(url))
  }

  /** What `Mask(url)` computes: the fold of `m = (m << 1) ^ c` from 0 over `MaskName(url)`. */
  function MaskOf(url: string): bv32
  {
    Feed(0, Codes(MaskName(url)))
  }

  /** The source's `Mask`: a `foreach` over the upper-cased base name updating `maskValue`. */
  method Mask(inputString: string) returns (maskValue: bv32)
    ensures maskValue == MaskOf(inputString)
  {
    maskValue := 0;
    var decodedFilename := ToUpper(FileNameWithoutExtension(inputString));
    for i := 0 to |decodedFilename|
      invariant maskValue == Feed(0, Codes(decodedFilename[..i]))
    {
      var c := decodedFilename[i];
      FeedCodesStep(decodedFilename, i);
      maskValue := Feedback(maskValue, CharCode(c));  // `(maskValue << 1) ^ c`
    }
    assert decodedFilename[..|decodedFilename|] == decodedFilename;
  }

  /** The masked name is a base name in upper case: no separator, no lower-case letter,
      and no longer than the path. */
  lemma MaskNameIsUpperBaseName(url: string)
    ensures |MaskName(url)| <= |url| && NoSeparator(MaskName(url))
    ensures forall i :: 0 <= i < |MaskName(url)| ==> !('a' <= MaskName(url)[i] <= 'z')
  {
    var name := FileName(url);
    var stem := WithoutExtension(name);
    forall i | 0 <= i < |stem| ensures !IsSeparator(MaskName(url)[i]) {
      assert stem[i] == name[i];
      assert MaskName(url)[i] == UpperChar(stem[i]);
    }
  }

  /** One more character of the name is one more feedback step. */
  lemma FeedCodesStep(s: string, i: nat)
    requires i < |s|
    ensures Feed(0, Codes(s[..i + 1])) == Feedback(Feed(0, Codes(s[..i])), CharCode(s[i]))
  {
    var before := Codes(s[..i]);
    assert Codes(s[..i + 1]) == before + [CharCode(s[i])];
    assert (before + [CharCode(s[i])])[..|before|] == before;
  }

  lemma CodesConcat(s: string, t: string)
    ensures Codes(s + t) == Codes(s) + Codes(t)
  {
  }

  /** An empty name gives the mask 0; a one-character name gives that character's code. */
  lemma MaskOfShortNames(url: string)
    ensures MaskName(url) == [] ==> MaskOf(url) == 0
    ensures |MaskName(url)| == 1 ==> MaskOf(url) == CharCode(MaskName(url)[0])
  {
    var cs := Codes(MaskName(url));
    if |cs| == 1 {
      assert cs[..0] == [];
      assert Feed(0, cs) == Feedback(0, cs[0]) == cs[0];
    }
  }

  /** A bare name `stem.ext` is masked by its upper-cased stem; the stem may hold dots. */
  lemma MaskNameOfBareName(stem: string, ext: string)
    requires NoSeparator(stem) && NoSeparator(ext) && '.' !in ext
    ensures MaskName(stem + ['.'] + ext) == ToUpper(stem)
  {
    var name := stem + ['.'] + ext;
    assert NoSeparator(name);
    FileNameOfBareName(name);
    WithoutExtensionDropsExtension(stem, ext);
  }

  /** The name the mask is folded from is the upper-cased stem, whatever the directory and
      the extension. */
  lemma MaskNameOfPath(dir: string, sep: char, stem: string, ext: string)
    requires IsSeparator(sep) && NoSeparator(stem) && NoSeparator(ext) && '.' !in ext
    ensures MaskName(dir + [sep] + stem + ['.'] + ext) == ToUpper(stem)
  {
    var name := stem + ['.'] + ext;
    assert NoSeparator(name);
    assert dir + [sep] + stem + ['.'] + ext == dir + [sep] + name;
    FileNameAfterDirectory(dir, sep, name);
    WithoutExtensionDropsExtension(stem, ext);
  }

  /** The mask depends only on the stem of the base name: two paths that share it get the
      same mask, whatever their directories and extensions, and so does the bare name;
      it is the fold over the upper-cased stem. */
  lemma MaskIgnoresDirectoryAndExtension(dir1: string, sep1: char, ext1: string,
                                         dir2: string, sep2: char, ext2: string, stem: string)
    requires IsSeparator(sep1) && IsSeparator(sep2) && NoSeparator(stem)
    requires NoSeparator(ext1) && '.' !in ext1 && NoSeparator(ext2) && '.' !in ext2
    ensures MaskOf(dir1 + [sep1] + stem + ['.'] + ext1) == MaskOf(dir2 + [sep2] + stem + ['.'] + ext2)
    ensures MaskOf(stem + ['.'] + ext1) == MaskOf(dir1 + [sep1] + stem + ['.'] + ext1)
    ensures MaskOf(stem + ['.'] + ext1) == Feed(0, Codes(ToUpper(stem)))
  {
    MaskNameOfPath(dir1, sep1, stem, ext1);
    MaskNameOfPath(dir2, sep2, stem, ext2);
    MaskNameOfBareName(stem, ext1);
  }

  /** The mask ignores letter case: paths equal once upper-cased have the same mask. */
  lemma MaskIgnoresCase(p: string, q: string)
    requires ToUpper(p) == ToUpper(q)
    ensures MaskOf(p) == MaskOf(q)
  {
    FileNameWithoutExtensionOfUpper(p);
    FileNameWithoutExtensionOfUpper(q);
  }

  /** Bits shifted past bit 31 are lost, so only the last 32 characters of the name reach
      the mask: names that share them get the same mask. */
  lemma MaskUsesLast32Chars(name: string)
    requires |name| >= 32
    ensures Feed(0, Codes(name)) == Feed(0, Codes(name[|name| - 32..]))
  {
    var k := |name| - 32;
    assert name == name[..k] + name[k..];
    CodesConcat(name[..k], name[k..]);
    FeedConcat(0, Codes(name[..k]), Codes(name[k..]));
    FeedForgetsStart(Feed(0, Codes(name[..k])), 0, Codes(name[k..]));
  }

  /** A one-letter base name gives that letter's upper-case code, whatever its directory
      and extension. */
  lemma MaskOfOneLetterName(dir: string, sep: char, c: char, ext: string)
    requires IsSeparator(sep) && !IsSeparator(c)
    requires NoSeparator(ext) && '.' !in ext
    ensures MaskOf(dir + [sep] + [c] + ['.'] + ext) == CharCode(UpperChar(c))
  {
    MaskNameOfPath(dir, sep, [c], ext);
    MaskOfShortNames(dir + [sep] + [c] + ['.'] + ext);
  }

  /** A one-letter bare name gives that letter's upper-case code, whatever its extension. */
  lemma MaskOfOneLetterBareName(c: char, ext: string)
    requires !IsSeparator(c) && NoSeparator(ext) && '.' !in ext
    ensures MaskOf([c] + ['.'] + ext) == CharCode(UpperChar(c))
  {
    MaskNameOfBareName([c], ext);
    MaskOfShortNames([c] + ['.'] + ext);
  }

  /** "a.k9a" and "A.k9a" both have the stem "A", whose code is 65, so both get the
      mask 65. */
  lemma LetterACode()
    ensures MaskOf("a.k9a") == 65 && MaskOf("A.k9a") == 65
  {
    var ext := "k9a";
    assert NoSeparator(ext) && '.' !in ext;
    assert "a.k9a" == ['a'] + ['.'] + ext && "A.k9a" == ['A'] + ['.'] + ext;
    MaskOfOneLetterBareName('a', ext);
    MaskOfOneLetterBareName('A', ext);
    assert UpperChar('a') == 'A' == UpperChar('A');
    CapitalACode();
  }

  lemma CapitalACode()
    ensures CharCode('A') == 65
  {
  }
}
