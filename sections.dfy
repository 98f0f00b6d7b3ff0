/** The section title and anchor that scripts/create_pdf.py derives from each
    notebook's file name (create_pdf.py:45-47 for the table of contents and
    57-60 for the section header), and the two lines built from them. */
module Sections {
  import opened PyStr

  const Extension: string := ".ipynb"

  /** `os.path.basename(fname).replace('.ipynb', '')` */
  function Stem(path: string): string
  {
    RemoveAll(Basename(path), Extension)
  }

  /** `' '.join(notebook_name.split('_')[1:]).title()`: the numeric prefix
      up to the first `_` is dropped, every further `_` becomes a space, and
      the words are title-cased (`SectionNameIsSplitJoin` shows that this is
      the split-and-join expression). */
  function SectionName(path: string): string
  {
    Title(ReplaceChar(AfterFirst(Stem(path), '_'), '_', ' '))
  }

  /** The section name is the title-cased join, with spaces, of the pieces
      of the stem split at `_`, without the first piece. */
  lemma SectionNameIsSplitJoin(path: string)
    ensures SectionName(path) == Title(Join(Split(Stem(path), '_')[1..], ' '))
  {
    JoinSplitTail(Stem(path), '_', ' ');
  }

  /** `section_name.lower().replace(' ', '-')` */
  function Anchor(name: string): string
  {
    ReplaceChar(Lower(name), ' ', '-')
  }

  /** The table-of-contents entry for the section `name` (create_pdf.py:47). */
  function TocLine(name: string): string
  {
    "- [" + name + "](#" + Anchor(name) + ")\n"
  }

  /** The source of the header cell opening the section `name` (create_pdf.py:59-61). */
  function HeaderSource(name: string): string
  {
    "\n<h1 id=\"" + Anchor(name) + "\">" + name + "</h1>\n"
  }

  /** For a path `dir/stem.ipynb` whose stem holds neither `/` nor `.`, the
      stem is the file name without its extension. */
  lemma StemOfNotebookPath(dir: string, stem: string)
    requires '/' !in stem && '.' !in stem
    ensures Stem(dir + "/" + stem + Extension) == stem
  {
    assert dir + "/" + stem + Extension == dir + "/" + (stem + Extension);
    BasenameAfterSlash(dir, stem + Extension);
    RemoveAllSuffix(stem, Extension);
  }

  /** The section name is the part of the stem after its first `_`, with every
      further `_` turned into a space, title-cased. */
  lemma SectionNameAfterPrefix(path: string, k: nat)
    requires k < |Stem(path)| && Stem(path)[k] == '_' && '_' !in Stem(path)[..k]
    ensures SectionName(path) == Title(ReplaceChar(Stem(path)[k + 1..], '_', ' '))
  {
    AfterFirstAt(Stem(path), '_', k);
  }

  /** A stem without `_` (no words after the prefix) gives an empty section name. */
  lemma SectionNameWithoutUnderscore(path: string)
    requires '_' !in Stem(path)
    ensures SectionName(path) == []
  {
    AfterFirstAbsent(Stem(path), '_');
  }

  /** An anchor holds no space and no upper-case letter, is as long as the
      name, and is its own anchor. */
  lemma AnchorShape(name: string)
    ensures ' ' !in Anchor(name)
    ensures |Anchor(name)| == |name|
    ensures forall i :: 0 <= i < |name| ==> !IsUpper(Anchor(name)[i])
    ensures Anchor(Anchor(name)) == Anchor(name)
  {
    var a := Anchor(name);
    assert forall i :: 0 <= i < |a| ==> Anchor(a)[i] == a[i];
  }

  /** The anchor does not depend on the title-casing of the section name. */
  lemma AnchorOfTitle(s: string)
    ensures Anchor(Title(s)) == Anchor(s)
  {
    LowerTitle(s);
  }

  /** A file name without a newline gives a section name and an anchor
      without one. */
  lemma SectionNameNoNewline(path: string)
    requires '\n' !in path
    ensures '\n' !in SectionName(path) && '\n' !in Anchor(SectionName(path))
  {
    var base := Basename(path);
    BasenameShape(path);
    assert '\n' !in base;
    var stem := Stem(path);
    RemoveAllChars(base, Extension, '\n');
    var words := AfterFirst(stem, '_');
    AfterFirstSuffix(stem, '_');
    assert '\n' !in words;
    var spaced := ReplaceChar(words, '_', ' ');
    assert forall i :: 0 <= i < |spaced| ==> spaced[i] != '\n';
    var name := Title(spaced);
    TitleFromShape(spaced, false);
    assert forall i :: 0 <= i < |name| ==> name[i] != '\n';
  }

  /** A link line around a label and a target without newlines holds one newline. */
  lemma LinkLineCount(name: string, anchor: string)
    requires '\n' !in name && '\n' !in anchor
    ensures Count("- [" + name + "](#" + anchor + ")\n", '\n') == 1
  {
    var open, middle, close := "- [", "](#", ")\n";
    CountAbsent(open, '\n');
    CountAbsent(name, '\n');
    CountAbsent(middle, '\n');
    CountAbsent(anchor, '\n');
    assert Count(close, '\n') == 1 by {
      assert close[1..] == "\n" && "\n"[1..] == [];
    }
    CountAppend(open, name, '\n');
    CountAppend(open + name, middle, '\n');
    CountAppend(open + name + middle, anchor, '\n');
    CountAppend(open + name + middle + anchor, close, '\n');
  }

  /** Each table-of-contents entry is a single line ending in a newline,
      provided the section name holds no newline. */
  lemma TocLineIsOneLine(name: string)
    requires '\n' !in name
    ensures Count(TocLine(name), '\n') == 1
    ensures TocLine(name)[|TocLine(name)| - 1] == '\n'
  {
    assert '\n' !in Anchor(name) by {
      assert forall i :: 0 <= i < |name| ==> Anchor(name)[i] != '\n';
    }
    LinkLineCount(name, Anchor(name));
  }

  /** The section name of `dir/<prefix>_<words>.ipynb`, when the prefix holds
      no `_` and neither part holds `/` or `.`, is the words with each `_`
      read as a space, title-cased. */
  lemma SectionNameOfNotebook(dir: string, prefix: string, words: string)
    requires '_' !in prefix
    requires '/' !in prefix + words && '.' !in prefix + words
    ensures SectionName(dir + "/" + prefix + "_" + words + Extension)
         == Title(ReplaceChar(words, '_', ' '))
  {
    var stem := prefix + "_" + words;
    var path := dir + "/" + prefix + "_" + words + Extension;
    assert path == dir + "/" + stem + Extension;
    assert forall c :: c in stem ==> c in prefix + words || c == '_';
    StemOfNotebookPath(dir, stem);
    assert stem[..|prefix|] == prefix && stem[|prefix| + 1..] == words;
    SectionNameAfterPrefix(path, |prefix|);
  }

  /** A notebook named `<prefix>_<word>_<word>.ipynb` with two lower-case
      words is titled by those words, each capitalised, joined by a space. */
  lemma SectionNameOfTwoWords(dir: string, prefix: string, a: string, b: string)
    requires '_' !in prefix && '/' !in prefix && '.' !in prefix
    requires a != [] && forall i :: 0 <= i < |a| ==> IsLower(a[i])
    requires b != [] && forall i :: 0 <= i < |b| ==> IsLower(b[i])
    ensures SectionName(dir + "/" + prefix + "_" + a + "_" + b + Extension)
         == [ToUpper(a[0])] + a[1..] + " " + [ToUpper(b[0])] + b[1..]
  {
    var words := a + "_" + b;
    assert dir + "/" + prefix + "_" + a + "_" + b + Extension == dir + "/" + prefix + "_" + words + Extension;
    assert forall c :: c in prefix + words ==> c in prefix || c in a || c in b || c == '_';
    SectionNameOfNotebook(dir, prefix, words);
    assert ReplaceChar(words, '_', ' ') == a + " " + b;
    TitleTwoWords(a, b);
  }

  /** `<dir>/02_shot_patterns.ipynb` is titled "Shot Patterns" and anchored
      at `shot-patterns`, whatever the directory. */
  lemma ShotPatternsExample(dir: string)
    ensures SectionName(dir + "/02_shot_patterns.ipynb") == "Shot Patterns"
    ensures Anchor(SectionName(dir + "/02_shot_patterns.ipynb")) == "shot-patterns"
  {
    var a, b := "shot", "patterns";
    var title := [ToUpper(a[0])] + a[1..] + " " + [ToUpper(b[0])] + b[1..];
    assert dir + "/02_shot_patterns.ipynb" == dir + "/" + "02" + "_" + a + "_" + b + Extension;
    assert SectionName(dir + "/" + "02" + "_" + a + "_" + b + Extension) == title by {
      assert forall i :: 0 <= i < |a| ==> IsLower(a[i]);
      assert forall i :: 0 <= i < |b| ==> IsLower(b[i]);
      SectionNameOfTwoWords(dir, "02", a, b);
    }
    assert title == "Shot Patterns" by {
      assert ToUpper('s') == 'S' && ToUpper('p') == 'P';
    }
    assert Anchor("Shot Patterns") == "shot-patterns";
  }
}
