/** The Python `str` and `os.path` operations that scripts/create_pdf.py chains
    together to turn a notebook file name into a section title and an anchor.
    Letter case is modelled for the ASCII letters only; every other character
    is uncased, as a digit or `_` is for Python. */
module PyStr {

  /** Python's `str.isspace` for one character: exactly the characters that
      `str.strip()` with no argument removes. */
  predicate IsSpace(c: char)
  {
    ('\t' <= c <= '\r') || ('\U{1C}' <= c <= '\U{1F}') || c == ' '
    || c == '\U{85}' || c == '\U{A0}' || c == '\U{1680}'
    || ('\U{2000}' <= c <= '\U{200A}') || c == '\U{2028}' || c == '\U{2029}'
    || c == '\U{202F}' || c == '\U{205F}' || c == '\U{3000}'
  }

  /** `s.lstrip()` */
  function StripLeading(s: string): string
  {
    if s != [] && IsSpace(s[0]) then StripLeading(s[1..]) else s
  }

  /** `s.rstrip()` */
  function StripTrailing(s: string): string
  {
    if s != [] && IsSpace(s[|s| - 1]) then StripTrailing(s[..|s| - 1]) else s
  }

  /** `s.lstrip()` is the longest suffix of `s` that does not start with whitespace. */
  lemma {:induction false} StripLeadingShape(s: string)
    ensures |StripLeading(s)| <= |s| && StripLeading(s) == s[|s| - |StripLeading(s)|..]
    ensures forall i :: 0 <= i < |s| - |StripLeading(s)| ==> IsSpace(s[i])
    ensures StripLeading(s) == [] || !IsSpace(StripLeading(s)[0])
  {
    if s != [] && IsSpace(s[0]) {
      StripLeadingShape(s[1..]);
      assert forall i :: 1 <= i < |s| ==> s[1..][i - 1] == s[i];
    }
  }

  /** `s.rstrip()` is the longest prefix of `s` that does not end with whitespace. */
  lemma {:induction false} StripTrailingShape(s: string)
    ensures |StripTrailing(s)| <= |s| && StripTrailing(s) == s[..|StripTrailing(s)|]
    ensures forall i :: |StripTrailing(s)| <= i < |s| ==> IsSpace(s[i])
    ensures StripTrailing(s) == [] || !IsSpace(StripTrailing(s)[|StripTrailing(s)| - 1])
  {
    if s != [] && IsSpace(s[|s| - 1]) {
      StripTrailingShape(s[..|s| - 1]);
      assert forall i :: 0 <= i < |s| - 1 ==> s[..|s| - 1][i] == s[i];
    }
  }

  /** `s.strip()` */
  function Strip(s: string): string
  {
    StripTrailing(StripLeading(s))
  }

  /** `s.strip()` is the slice of `s` left after removing whitespace at both
      ends: everything cut off is whitespace, and what is left neither
      starts nor ends with whitespace. */
  lemma StripShape(s: string)
    ensures var lo := |s| - |StripLeading(s)|;
      0 <= lo <= |s| - |Strip(s)| && Strip(s) == s[lo..lo + |Strip(s)|]
      && (forall i :: 0 <= i < lo ==> IsSpace(s[i]))
      && (forall i :: lo + |Strip(s)| <= i < |s| ==> IsSpace(s[i]))
    ensures Strip(s) == [] || (!IsSpace(Strip(s)[0]) && !IsSpace(Strip(s)[|Strip(s)| - 1]))
  {
    var t := StripLeading(s);
    StripLeadingShape(s);
    StripTrailingShape(t);
    var r := Strip(s);
    var lo := |s| - |t|;
    assert r == s[lo..lo + |r|];
    forall i | lo + |r| <= i < |s| ensures IsSpace(s[i]) {
      assert s[i] == t[i - lo];
    }
    if r != [] {
      assert r[0] == t[0];
    }
  }

  /** `not s.strip()` holds exactly when every character of `s` is whitespace
      (in particular for the empty string). */
  lemma StripEmptyIff(s: string)
    ensures Strip(s) == [] <==> forall i :: 0 <= i < |s| ==> IsSpace(s[i])
  {
    StripShape(s);
  }

  predicate IsUpper(c: char) { 'A' <= c <= 'Z' }

  predicate IsLower(c: char) { 'a' <= c <= 'z' }

  /** An ASCII letter: the only cased characters of this model. */
  predicate IsLetter(c: char) { IsUpper(c) || IsLower(c) }

  function ToLower(c: char): char
  {
    if IsUpper(c) then (c as int + 32) as char else c
  }

  function ToUpper(c: char): char
  {
    if IsLower(c) then (c as int - 32) as char else c
  }

  /** `s.lower()` */
  function Lower(s: string): string
  {
    seq(|s|, i requires 0 <= i < |s| => ToLower(s[i]))
  }

  /** `s.replace(a, b)` for single characters `a` and `b`. */
  function ReplaceChar(s: string, a: char, b: char): string
  {
    seq(|s|, i requires 0 <= i < |s| => if s[i] == a then b else s[i])
  }

  /** The loop of Python's `str.title()`: a letter is upper-cased when the
      character before it is not a letter (or it comes first and `afterLetter`
      is false), and lower-cased otherwise; other characters are copied. */
  function TitleFrom(s: string, afterLetter: bool): (r: string)
    ensures |r| == |s|
  {
    if s == [] then []
    else
      [if afterLetter then ToLower(s[0]) else ToUpper(s[0])] + TitleFrom(s[1..], IsLetter(s[0]))
  }

  /** Title-casing only changes the case of letters: letters stay letters,
      everything else is copied, and the lower-case form is unchanged. */
  lemma {:induction false} TitleFromShape(s: string, afterLetter: bool)
    ensures forall i :: 0 <= i < |s| ==> IsLetter(TitleFrom(s, afterLetter)[i]) == IsLetter(s[i])
    ensures forall i :: 0 <= i < |s| && !IsLetter(s[i]) ==> TitleFrom(s, afterLetter)[i] == s[i]
    ensures forall i :: 0 <= i < |s| ==> ToLower(TitleFrom(s, afterLetter)[i]) == ToLower(s[i])
  {
    if s != [] {
      TitleFromShape(s[1..], IsLetter(s[0]));
      var r := TitleFrom(s, afterLetter);
      assert forall i :: 1 <= i < |s| ==> r[i] == TitleFrom(s[1..], IsLetter(s[0]))[i - 1] && s[i] == s[1..][i - 1];
    }
  }

  /** A letter comes out in upper case when it starts a run of letters and
      in lower case otherwise. */
  lemma {:induction false} TitleFromCase(s: string, afterLetter: bool, i: nat)
    requires i < |s| && IsLetter(s[i])
    ensures if (if i == 0 then afterLetter else IsLetter(s[i - 1]))
            then IsLower(TitleFrom(s, afterLetter)[i])
            else IsUpper(TitleFrom(s, afterLetter)[i])
  {
    if i > 0 {
      TitleFromCase(s[1..], IsLetter(s[0]), i - 1);
      assert s[1..][i - 1] == s[i];
      if i > 1 {
        assert s[1..][i - 2] == s[i - 1];
      }
    }
  }

  /** `s.title()` */
  function Title(s: string): string
  {
    TitleFrom(s, false)
  }

  /** Title-casing an already title-cased string changes nothing. */
  lemma {:induction false} TitleFromIdempotent(s: string, afterLetter: bool)
    ensures TitleFrom(TitleFrom(s, afterLetter), afterLetter) == TitleFrom(s, afterLetter)
  {
    if s != [] {
      var t := TitleFrom(s, afterLetter);
      TitleFromIdempotent(s[1..], IsLetter(s[0]));
      assert t[1..] == TitleFrom(s[1..], IsLetter(s[0]));
      assert IsLetter(t[0]) == IsLetter(s[0]);
    }
  }

  lemma TitleIdempotent(s: string)
    ensures Title(Title(s)) == Title(s)
  {
    TitleFromIdempotent(s, false);
  }

  /** Title-casing works left to right: the second part of a concatenation
      only sees whether the first part ended in a letter. */
  lemma {:induction false} TitleFromAppend(a: string, b: string, afterLetter: bool)
    ensures TitleFrom(a + b, afterLetter)
         == TitleFrom(a, afterLetter) + TitleFrom(b, if a == [] then afterLetter else IsLetter(a[|a| - 1]))
  {
    if a == [] {
      assert a + b == b;
    } else {
      var head := [if afterLetter then ToLower(a[0]) else ToUpper(a[0])];
      var rest := a[1..];
      var state := if a == [] then afterLetter else IsLetter(a[|a| - 1]);
      assert (a + b)[0] == a[0] && (a + b)[1..] == rest + b;
      assert TitleFrom(a + b, afterLetter) == head + TitleFrom(rest + b, IsLetter(a[0]));
      TitleFromAppend(rest, b, IsLetter(a[0]));
      if rest != [] {
        assert rest[|rest| - 1] == a[|a| - 1];
      }
      assert TitleFrom(rest + b, IsLetter(a[0])) == TitleFrom(rest, IsLetter(a[0])) + TitleFrom(b, state);
      assert TitleFrom(a, afterLetter) == head + TitleFrom(rest, IsLetter(a[0]));
      AppendAssoc(head, TitleFrom(rest, IsLetter(a[0])), TitleFrom(b, state));
    }
  }

  lemma AppendAssoc<T>(x: seq<T>, y: seq<T>, z: seq<T>)
    ensures x + (y + z) == (x + y) + z
  {
  }

  /** A lower-case word is capitalised at its first letter, unless it follows a letter. */
  lemma TitleLowerWord(w: string, afterLetter: bool)
    requires forall i :: 0 <= i < |w| ==> IsLower(w[i])
    ensures TitleFrom(w, afterLetter) == if w == [] || afterLetter then w else [ToUpper(w[0])] + w[1..]
  {
    var r := TitleFrom(w, afterLetter);
    TitleFromShape(w, afterLetter);
    forall i | 0 <= i < |w| && (i > 0 || afterLetter) ensures r[i] == w[i] {
      TitleFromCase(w, afterLetter, i);
    }
    if w != [] && !afterLetter {
      assert r == [r[0]] + w[1..];
    }
  }

  /** Two lower-case words separated by a space are both capitalised. */
  lemma TitleTwoWords(a: string, b: string)
    requires a != [] && b != []
    requires forall i :: 0 <= i < |a| ==> IsLower(a[i])
    requires forall i :: 0 <= i < |b| ==> IsLower(b[i])
    ensures Title(a + " " + b) == [ToUpper(a[0])] + a[1..] + " " + [ToUpper(b[0])] + b[1..]
  {
    var head := a + " ";
    assert IsLetter(a[|a| - 1]);
    assert head[|head| - 1] == ' ';
    assert TitleFrom(head + b, false) == TitleFrom(head, false) + TitleFrom(b, false) by {
      TitleFromAppend(head, b, false);
    }
    assert TitleFrom(head, false) == TitleFrom(a, false) + TitleFrom(" ", true) by {
      TitleFromAppend(a, " ", false);
    }
    TitleLowerWord(a, false);
    TitleLowerWord(b, false);
    assert TitleFrom(" ", true) == " ";
    assert a + " " + b == head + b;
  }

  /** Lower-casing forgets what title-casing did. */
  lemma LowerTitle(s: string)
    ensures Lower(Title(s)) == Lower(s)
  {
    var t := Title(s);
    TitleFromShape(s, false);
    assert forall i :: 0 <= i < |s| ==> Lower(t)[i] == ToLower(t[i]) == ToLower(s[i]) == Lower(s)[i];
  }

  /** `os.path.basename(p)` on a POSIX system: what follows the last `/`. */
  function Basename(p: string): string
  {
    if p == [] || p[|p| - 1] == '/' then [] else Basename(p[..|p| - 1]) + [p[|p| - 1]]
  }

  /** The base name is the longest suffix of `p` holding no `/`. */
  lemma {:induction false} BasenameShape(p: string)
    ensures |Basename(p)| <= |p| && Basename(p) == p[|p| - |Basename(p)|..]
    ensures '/' !in Basename(p)
    ensures |Basename(p)| < |p| ==> p[|p| - |Basename(p)| - 1] == '/'
  {
    if p != [] && p[|p| - 1] != '/' {
      var q := p[..|p| - 1];
      BasenameShape(q);
      assert p == q + [p[|p| - 1]];
      assert q[|q| - |Basename(q)|..] + [p[|p| - 1]] == p[|p| - |Basename(p)|..];
    }
  }

  /** The last component of `dir/name` is `name`, whatever `dir` holds. */
  lemma {:induction false} BasenameAfterSlash(dir: string, name: string)
    requires '/' !in name
    ensures Basename(dir + "/" + name) == name
  {
    var p := dir + "/" + name;
    if name == [] {
      assert p[|p| - 1] == '/';
    } else {
      var n := |name|;
      assert p[|p| - 1] == name[n - 1];
      assert p[..|p| - 1] == dir + "/" + name[..n - 1];
      assert '/' !in name[..n - 1] by {
        assert forall k :: 0 <= k < n - 1 ==> name[..n - 1][k] == name[k];
      }
      BasenameAfterSlash(dir, name[..n - 1]);
      assert name[..n - 1] + [name[n - 1]] == name;
    }
  }

  /** True when `pat` occurs in `s` starting at index `i`. */
  predicate OccursAt(s: string, pat: string, i: int)
  {
    0 <= i && i + |pat| <= |s| && s[i..i + |pat|] == pat
  }

  /** `s.replace(pat, '')`: occurrences of `pat` are removed scanning left to
      right, without re-examining what the removal joins together. */
  function RemoveAll(s: string, pat: string): (r: string)
    requires pat != []
    ensures |r| <= |s|
    decreases |s|
  {
    if |s| < |pat| then s
    else if s[..|pat|] == pat then RemoveAll(s[|pat|..], pat)
    else [s[0]] + RemoveAll(s[1..], pat)
  }

  /** A string in which `pat` does not occur is left as it is. */
  lemma {:induction false} RemoveAllAbsent(s: string, pat: string)
    requires pat != []
    requires forall i :: !OccursAt(s, pat, i)
    ensures RemoveAll(s, pat) == s
    decreases |s|
  {
    if |s| >= |pat| {
      assert !OccursAt(s, pat, 0);
      forall i ensures !OccursAt(s[1..], pat, i) {
        if OccursAt(s[1..], pat, i) {
          assert s[1..][i..i + |pat|] == s[i + 1..i + 1 + |pat|];
          assert OccursAt(s, pat, i + 1);
        }
      }
      RemoveAllAbsent(s[1..], pat);
    }
  }

  /** When the first character of `pat` does not occur in `stem`, removing
      `pat` from `stem + pat` gives back `stem`: the only occurrence is the
      suffix. */
  lemma {:induction false} RemoveAllSuffix(stem: string, pat: string)
    requires pat != [] && pat[0] !in stem
    ensures RemoveAll(stem + pat, pat) == stem
  {
    var s := stem + pat;
    if stem == [] {
      assert s[..|pat|] == pat && s[|pat|..] == [];
    } else {
      assert s[0] == stem[0] != pat[0];
      assert s[..|pat|] != pat;
      assert s[1..] == stem[1..] + pat;
      RemoveAllSuffix(stem[1..], pat);
      assert [stem[0]] + stem[1..] == stem;
    }
  }

  /** The number of occurrences of `c` in `s`. */
  function Count(s: string, c: char): nat
  {
    if s == [] then 0 else (if s[0] == c then 1 else 0) + Count(s[1..], c)
  }

  lemma {:induction false} CountAppend(a: string, b: string, c: char)
    ensures Count(a + b, c) == Count(a, c) + Count(b, c)
  {
    if a != [] {
      assert (a + b)[0] == a[0] && (a + b)[1..] == a[1..] + b;
      CountAppend(a[1..], b, c);
    } else {
      assert a + b == b;
    }
  }

  lemma {:induction false} CountAbsent(s: string, c: char)
    requires c !in s
    ensures Count(s, c) == 0
  {
    if s != [] {
      assert c !in s[1..];
      CountAbsent(s[1..], c);
    }
  }

  /** `s.split(sep)` for a one-character separator: the pieces between the
      separators, an empty piece wherever two separators (or a separator and
      an end) are adjacent. */
  function Split(s: string, sep: char): (r: seq<string>)
    ensures |r| >= 1
  {
    if s == [] then [[]]
    else
      var rest := Split(s[1..], sep);
      if s[0] == sep then [[]] + rest else [[s[0]] + rest[0]] + rest[1..]
  }

  /** `sep.join(parts)` for a one-character separator. */
  function Join(parts: seq<string>, sep: char): string
  {
    if |parts| == 0 then []
    else if |parts| == 1 then parts[0]
    else parts[0] + [sep] + Join(parts[1..], sep)
  }

  /** Splitting on `sep` cuts at every separator and nowhere else. */
  lemma {:induction false} SplitCount(s: string, sep: char)
    ensures |Split(s, sep)| == Count(s, sep) + 1
  {
    if s != [] {
      SplitCount(s[1..], sep);
    }
  }

  /** Joining the pieces of a split with `d` replaces each separator by `d`. */
  lemma {:induction false} JoinSplit(s: string, sep: char, d: char)
    ensures Join(Split(s, sep), d) == ReplaceChar(s, sep, d)
  {
    if s != [] {
      var rest := Split(s[1..], sep);
      JoinSplit(s[1..], sep, d);
      var head := if s[0] == sep then d else s[0];
      assert ReplaceChar(s, sep, d) == [head] + ReplaceChar(s[1..], sep, d);
      if s[0] == sep {
        assert Join([[]] + rest, d) == [] + [d] + Join(rest, d);
      } else {
        var parts := [[s[0]] + rest[0]] + rest[1..];
        if |rest| == 1 {
          assert Join(parts, d) == [s[0]] + Join(rest, d);
        } else {
          assert parts[1..] == rest[1..];
          assert Join(parts, d) == [s[0]] + rest[0] + [d] + Join(rest[1..], d);
          assert Join(rest, d) == rest[0] + [d] + Join(rest[1..], d);
        }
      }
    }
  }

  /** `sep.join(s.split(sep)) == s` */
  lemma SplitJoinRoundTrip(s: string, sep: char)
    ensures Join(Split(s, sep), sep) == s
  {
    JoinSplit(s, sep, sep);
    assert ReplaceChar(s, sep, sep) == s;
  }

  /** Splitting `p + sep + rest`, with no separator in `p`, gives `p` and
      then the pieces of `rest`. */
  lemma {:induction false} SplitAtFirst(p: string, sep: char, rest: string)
    requires sep !in p
    ensures Split(p + [sep] + rest, sep) == [p] + Split(rest, sep)
  {
    var s := p + [sep] + rest;
    if p == [] {
      assert s[1..] == rest;
    } else {
      assert s[1..] == p[1..] + [sep] + rest;
      SplitAtFirst(p[1..], sep, rest);
      assert [p[0]] + p[1..] == p;
    }
  }

  /** A string without the separator splits into itself alone. */
  lemma {:induction false} SplitAbsent(s: string, sep: char)
    requires sep !in s
    ensures Split(s, sep) == [s]
  {
    if s != [] {
      assert sep !in s[1..];
      SplitAbsent(s[1..], sep);
      assert [s[0]] + s[1..] == s;
    }
  }

  /** What follows the first `c` in `s`, or nothing when `c` does not occur. */
  function AfterFirst(s: string, c: char): string
  {
    if s == [] then []
    else if s[0] == c then s[1..]
    else AfterFirst(s[1..], c)
  }

  /** `d.join(s.split(sep)[1:])` drops the piece before the first separator
      and puts `d` in place of every later separator. */
  lemma {:induction false} JoinSplitTail(s: string, sep: char, d: char)
    ensures Join(Split(s, sep)[1..], d) == ReplaceChar(AfterFirst(s, sep), sep, d)
  {
    if s != [] {
      var rest := Split(s[1..], sep);
      if s[0] == sep {
        assert Split(s, sep)[1..] == rest;
        JoinSplit(s[1..], sep, d);
      } else {
        assert Split(s, sep)[1..] == rest[1..];
        JoinSplitTail(s[1..], sep, d);
      }
    }
  }

  /** When the first `c` of `s` is at index `k`, `AfterFirst` is what follows it. */
  lemma {:induction false} AfterFirstAt(s: string, c: char, k: nat)
    requires k < |s| && s[k] == c && c !in s[..k]
    ensures AfterFirst(s, c) == s[k + 1..]
  {
    if k > 0 {
      assert s[0] in s[..k];
      assert s[1..][..k - 1] == s[1..k];
      assert s[1..][k - 1] == s[k];
      assert c !in s[1..k] by {
        assert forall j :: 1 <= j < k ==> s[1..k][j - 1] == s[..k][j];
      }
      AfterFirstAt(s[1..], c, k - 1);
    }
  }

  /** Without a `c` in `s` there is nothing after the first one. */
  lemma {:induction false} AfterFirstAbsent(s: string, c: char)
    requires c !in s
    ensures AfterFirst(s, c) == []
  {
    if s != [] {
      assert c !in s[1..];
      AfterFirstAbsent(s[1..], c);
    }
  }

  /** `AfterFirst` is a suffix of `s`. */
  lemma {:induction false} AfterFirstSuffix(s: string, c: char)
    ensures |AfterFirst(s, c)| <= |s| && AfterFirst(s, c) == s[|s| - |AfterFirst(s, c)|..]
  {
    if s != [] && s[0] != c {
      AfterFirstSuffix(s[1..], c);
    }
  }

  /** Removing a pattern introduces no character. */
  lemma {:induction false} RemoveAllChars(s: string, pat: string, c: char)
    requires pat != [] && c !in s
    ensures c !in RemoveAll(s, pat)
    decreases |s|
  {
    if |s| >= |pat| {
      if s[..|pat|] == pat {
        assert c !in s[|pat|..];
        RemoveAllChars(s[|pat|..], pat, c);
      } else {
        assert c !in s[1..];
        RemoveAllChars(s[1..], pat, c);
      }
    }
  }
}
