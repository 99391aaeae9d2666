/** The output-file naming of `process_all_pdfs` (main.py:94-96): only names
    ending in ".pdf" are processed, and each writes to its `os.path.splitext`
    stem followed by "_data.json". Names come from a directory listing, so
    they hold no path separator. */
module Files {
  import opened Wrappers
  import opened Text

  /** The position of the last '.' in `name`, if any. */
  function LastDot(name: string): (r: Option<nat>)
    ensures r.Some? ==> (r.value < |name| && name[r.value] == '.' &&
      forall i :: r.value < i < |name| ==> name[i] != '.')
    ensures r.None? ==> forall i :: 0 <= i < |name| ==> name[i] != '.'
  {
    if name == [] then None
    else if name[|name| - 1] == '.' then Some(|name| - 1)
    else LastDot(name[..|name| - 1])
  }

  predicate OnlyDots(s: string)
  {
    forall i :: 0 <= i < |s| ==> s[i] == '.'
  }

  /** `os.path.splitext(name)[0]`: everything before the last '.', unless only
      dots precede it (a leading-dot name such as ".pdf" has no extension), or
      there is no '.' at all. The extension `name[|r|..]` is then either empty,
      when every '.' of the name has only dots before it, or a single '.'
      followed by no other '.', after a root holding some other character. */
  function Stem(name: string): (r: string)
    ensures |r| <= |name| && r == name[..|r|]
    ensures |r| < |name| ==>
      name[|r|] == '.' && !OnlyDots(r) && forall i :: |r| < i < |name| ==> name[i] != '.'
    ensures |r| == |name| ==>
      forall d :: 0 <= d < |name| && name[d] == '.' ==> OnlyDots(name[..d])
  {
    match LastDot(name)
    case None => name
    case Some(d) =>
      if OnlyDots(name[..d]) then
        assert forall e :: 0 <= e <= d ==> name[..e] == name[..d][..e];
        name
      else name[..d]
  }

  /** The output file of a listed name: `None` for a name the loop skips. */
  function OutputName(name: string): Option<string>
  {
    if EndsWith(name, ".pdf") then Some(Stem(name) + "_data.json") else None
  }

  /** A name is processed exactly when it ends in ".pdf", and its output then
      ends in "_data.json" after a prefix of the name. */
  lemma OutputNameShape(name: string)
    ensures OutputName(name).Some? <==> EndsWith(name, ".pdf")
    ensures OutputName(name).Some? ==>
      exists n :: 0 <= n <= |name| && OutputName(name).value == name[..n] + "_data.json"
  {
    if EndsWith(name, ".pdf") {
      var n := |Stem(name)|;
      assert OutputName(name).value == name[..n] + "_data.json";
    }
  }

  /** "<stem>.pdf" writes to "<stem>_data.json" whenever the stem holds a
      character other than '.'. */
  lemma OutputNameOfStem(stem: string)
    requires !OnlyDots(stem)
    ensures OutputName(stem + ".pdf") == Some(stem + "_data.json")
  {
    var name := stem + ".pdf";
    assert name[|name| - 4..] == ".pdf";
    assert name[|name| - 1] != '.' && name[..|name| - 1] == stem + ".pd";
    assert (stem + ".pd")[|name| - 2] != '.' && (stem + ".pd")[..|name| - 2] == stem + ".p";
    assert (stem + ".p")[|name| - 3] != '.' && (stem + ".p")[..|name| - 3] == stem + ".";
    assert (stem + ".")[|stem|] == '.';
    assert LastDot(name) == Some(|stem|);
    assert name[..|stem|] == stem;
  }

  /** "<dots>.pdf" has no extension, so it writes to "<dots>.pdf_data.json":
      "..pdf" writes to "..pdf_data.json". */
  lemma OutputNameOfDots(stem: string)
    requires OnlyDots(stem)
    ensures OutputName(stem + ".pdf") == Some(stem + ".pdf_data.json")
  {
    var name := stem + ".pdf";
    assert name[|name| - 4..] == ".pdf";
    assert name[..|stem|] == stem && name[|stem|] == '.';
    assert forall i :: |stem| < i < |name| ==> name[i] != '.';
    assert Stem(name) == name;
    assert name + "_data.json" == stem + ".pdf_data.json";
  }

  /** Two such names never share an output file. */
  lemma OutputNameInjective(stem1: string, stem2: string)
    requires !OnlyDots(stem1) && !OnlyDots(stem2)
    requires OutputName(stem1 + ".pdf") == OutputName(stem2 + ".pdf")
    ensures stem1 == stem2
  {
    OutputNameOfStem(stem1);
    OutputNameOfStem(stem2);
    var out := stem1 + "_data.json";
    assert |stem1| == |stem2|;
    assert out[..|stem1|] == stem1;
    assert (stem2 + "_data.json")[..|stem2|] == stem2;
  }

  /** Names made only of dots before ".pdf" have no extension, so their stem
      is the whole name: ".pdf" writes to ".pdf_data.json", and so does
      ".pdf.pdf", whose stem is ".pdf". */
  lemma LeadingDotNamesCollide()
    ensures OutputName(".pdf") == Some(".pdf_data.json")
    ensures OutputName(".pdf.pdf") == Some(".pdf_data.json")
  {
    var name := ".pdf";
    assert name[..3] == ".pd" && ".pd"[..2] == ".p" && ".p"[..1] == ".";
    assert LastDot(".") == Some(0);
    assert LastDot(name) == Some(0);
    assert OnlyDots(name[..0]);
    assert EndsWith(name, ".pdf") && Stem(name) == name;
    assert name + "_data.json" == ".pdf_data.json";
    assert name[1] != '.';
    OutputNameOfStem(name);
    assert name + ".pdf" == ".pdf.pdf";
  }
}
