/** The string operations the exercises build on: Python's `str.split()`,
    `" ".join(s.split())`, `str.strip()`, `str.split(sep)`, `str.split(sep, 1)`,
    `lower()`/`upper()`, substring search and reading a text file line by line. */
module Text {
  import opened Seqs

  /** The characters for which Python's `str.isspace()` holds: the ones `str.split()`
      (no argument) splits on and `str.strip()` removes. */
  predicate IsSpace(c: char)
  {
    ('\t' <= c <= '\r') || ('\U{1C}' <= c <= ' ') || c == '\U{85}' || c == '\U{A0}' ||
    c == '\U{1680}' || ('\U{2000}' <= c <= '\U{200A}') || c == '\U{2028}' || c == '\U{2029}' ||
    c == '\U{202F}' || c == '\U{205F}' || c == '\U{3000}'
  }

  predicate AllSpace(s: string)
  {
    forall i :: 0 <= i < |s| ==> IsSpace(s[i])
  }

  predicate NoSpace(s: string)
  {
    forall i :: 0 <= i < |s| ==> !IsSpace(s[i])
  }

  // ---------------------------------------------------------------------------
  // str.strip()
  // ---------------------------------------------------------------------------

  /** Number of whitespace characters at the start of `s`. */
  function LeftIndex(s: string): (i: nat)
    ensures i <= |s| && AllSpace(s[..i])
    ensures i < |s| ==> !IsSpace(s[i])
  {
    if s == [] || !IsSpace(s[0]) then 0
    else
      var i := LeftIndex(s[1..]);
      assert s[..i + 1] == [s[0]] + s[1..][..i];
      i + 1
  }

  /** Index just past the last non-whitespace character of `s` (0 when there is none). */
  function RightIndex(s: string): (j: nat)
    ensures j <= |s| && AllSpace(s[j..])
    ensures j > 0 ==> !IsSpace(s[j - 1])
  {
    if s == [] || !IsSpace(s[|s| - 1]) then |s|
    else
      var j := RightIndex(s[..|s| - 1]);
      assert s[j..] == s[..|s| - 1][j..] + [s[|s| - 1]];
      j
  }

  /** `s.strip()`: `s` with its leading and trailing whitespace removed. The result
      is empty exactly when `s` is blank; otherwise it starts and ends with a
      non-whitespace character (StripShape says what was removed). */
  function Strip(s: string): (r: string)
    ensures r != [] ==> !IsSpace(r[0]) && !IsSpace(r[|r| - 1])
    ensures r == [] <==> AllSpace(s)
  {
    var i := LeftIndex(s);
    var j := RightIndex(s);
    if i == |s| then
      assert s[..i] == s;
      []
    else
      assert i < j;
      assert !AllSpace(s) by { assert !IsSpace(s[i]); }
      s[i..j]
  }

  /** `s.strip()` removes only whitespace, and only at the two ends. */
  lemma StripShape(s: string)
    ensures exists i, j :: 0 <= i <= j <= |s| && Strip(s) == s[i..j] && AllSpace(s[..i]) && AllSpace(s[j..])
  {
    var i := LeftIndex(s);
    var j := RightIndex(s);
    if i == |s| {
      assert s[..i] == s && s[i..i] == [] && s[i..] == [];
    } else {
      assert i < j;
    }
  }

  /** Every character of `s.strip()` is a character of `s`. */
  lemma StripInside(s: string, x: char)
    requires x in Strip(s)
    ensures x in s
  {
    StripShape(s);
    var i, j :| 0 <= i <= j <= |s| && Strip(s) == s[i..j] && AllSpace(s[..i]) && AllSpace(s[j..]);
    assert s[i..j] == s[..j][i..];
  }

  // ---------------------------------------------------------------------------
  // str.split() and " ".join(s.split())
  // ---------------------------------------------------------------------------

  /** Length of the run of non-whitespace characters at the start of `s`. */
  function WordLength(s: string): (n: nat)
    ensures n <= |s|
    ensures NoSpace(s[..n])
    ensures n < |s| ==> IsSpace(s[n])
  {
    if s == [] || IsSpace(s[0]) then 0
    else
      var n := WordLength(s[1..]);
      assert s[..n + 1] == [s[0]] + s[1..][..n];
      n + 1
  }

  /** `s.split()`: the maximal runs of non-whitespace characters of `s`, in order. */
  function Words(s: string): (ws: seq<string>)
    ensures forall k :: 0 <= k < |ws| ==> ws[k] != [] && NoSpace(ws[k])
    ensures ws == [] <==> AllSpace(s)
    decreases |s|
  {
    if s == [] then []
    else if IsSpace(s[0]) then
      var ws := Words(s[1..]);
      assert AllSpace(s[1..]) ==> AllSpace(s);
      ws
    else
      var n := WordLength(s);
      [s[..n]] + Words(s[n..])
  }

  /** A string as `" ".join(x.split())` leaves it: its only whitespace is single
      spaces between non-blank characters. */
  predicate Canonical(s: string)
  {
    (forall i :: 0 <= i < |s| ==> IsSpace(s[i]) ==> s[i] == ' ') &&
    (s != [] ==> s[0] != ' ' && s[|s| - 1] != ' ') &&
    (forall i :: 0 <= i < |s| - 1 ==> !(s[i] == ' ' && s[i + 1] == ' '))
  }

  lemma CanonicalCons(w: string, rest: string)
    requires w != [] && NoSpace(w)
    requires rest != [] && Canonical(rest)
    ensures Canonical(w + " " + rest)
  {
    var s := w + " " + rest;
    forall i | 0 <= i < |s| ensures IsSpace(s[i]) ==> s[i] == ' ' {
      if i < |w| { assert s[i] == w[i]; }
      else if i > |w| { assert s[i] == rest[i - |w| - 1]; }
    }
    forall i | 0 <= i < |s| - 1 ensures !(s[i] == ' ' && s[i + 1] == ' ') {
      if i < |w| { assert s[i] == w[i]; }
      else if i > |w| { assert s[i] == rest[i - |w| - 1] && s[i + 1] == rest[i - |w|]; }
      else { assert s[i + 1] == rest[0]; }
    }
    assert s[0] == w[0];
    assert s[|s| - 1] == rest[|rest| - 1];
  }

  lemma {:induction false} JoinWordsCanonical(ws: seq<string>)
    requires forall k :: 0 <= k < |ws| ==> ws[k] != [] && NoSpace(ws[k])
    ensures Canonical(Join(ws, " "))
    ensures Join(ws, " ") == [] <==> ws == []
  {
    if |ws| == 1 {
      assert Join(ws, " ") == ws[0];
      forall i | 0 <= i < |ws[0]| ensures !IsSpace(ws[0][i]) { }
    } else if |ws| > 1 {
      JoinWordsCanonical(ws[1..]);
      CanonicalCons(ws[0], Join(ws[1..], " "));
    }
  }

  /** `" ".join(s.split())`: whitespace runs collapsed to one space, ends trimmed.
      The result is canonical, and empty exactly when `s` is blank. */
  function Collapse(s: string): (r: string)
    ensures Canonical(r)
    ensures r == [] <==> AllSpace(s)
  {
    JoinWordsCanonical(Words(s));
    Join(Words(s), " ")
  }

  /** A suffix of a canonical string that starts on a non-space is canonical. */
  lemma CanonicalSuffix(s: string, j: nat)
    requires Canonical(s) && j < |s| && s[j] != ' '
    ensures Canonical(s[j..])
  {
    var t := s[j..];
    forall i | 0 <= i < |t| - 1 ensures !(t[i] == ' ' && t[i + 1] == ' ') {
      assert t[i] == s[j + i] && t[i + 1] == s[j + i + 1];
    }
  }

  /** A canonical string that continues after its first word continues with one
      space and a canonical, non-blank rest. */
  lemma CanonicalSplit(s: string, n: nat)
    requires Canonical(s) && s != [] && n == WordLength(s) && n < |s|
    ensures n + 1 < |s| && s == s[..n] + " " + s[n + 1..]
    ensures Canonical(s[n + 1..]) && !AllSpace(s[n + 1..])
    ensures Words(s[n..]) == Words(s[n + 1..])
  {
    assert s[n] == ' ';
    assert n + 1 < |s|;
    assert !IsSpace(s[n + 1]);
    CanonicalSuffix(s, n + 1);
    SplitAt(s, n);
    var t := s[n + 1..];
    assert s[n..][1..] == t;
    assert Words(s[n..]) == Words(t);
    assert t[0] in t;
  }

  /** A canonical string is left unchanged by Collapse. */
  lemma {:induction false} CollapseCanonical(s: string)
    requires Canonical(s)
    ensures Collapse(s) == s
    decreases |s|
  {
    if s != [] {
      assert !IsSpace(s[0]);
      var n := WordLength(s);
      assert Words(s) == [s[..n]] + Words(s[n..]);
      if n == |s| {
        assert Words(s[n..]) == [];
      } else {
        CanonicalSplit(s, n);
        CollapseCanonical(s[n + 1..]);
      }
    }
  }

  /** Collapsing twice is collapsing once. */
  lemma CollapseIdempotent(s: string)
    ensures Collapse(Collapse(s)) == Collapse(s)
  {
    CollapseCanonical(Collapse(s));
  }

  /** A character `str.split()` keeps. */
  predicate NonSpace(c: char)
  {
    !IsSpace(c)
  }

  /** A run of non-whitespace characters stops at the first whitespace character. */
  lemma {:induction false} WordLengthOfWord(w: string, rest: string)
    requires NoSpace(w)
    requires rest == [] || IsSpace(rest[0])
    ensures WordLength(w + rest) == |w|
    decreases |w|
  {
    if w == [] {
      assert w + rest == rest;
    } else {
      var s := w + rest;
      assert s[0] == w[0];
      assert s[1..] == w[1..] + rest;
      assert NoSpace(w[1..]) by {
        forall i | 0 <= i < |w[1..]| ensures !IsSpace(w[1..][i]) {
          assert w[1..][i] == w[i + 1];
        }
      }
      WordLengthOfWord(w[1..], rest);
    }
  }

  /** Leading whitespace yields no word. */
  lemma {:induction false} WordsSkipSpace(c: char, rest: string)
    requires IsSpace(c)
    ensures Words([c] + rest) == Words(rest)
  {
    assert ([c] + rest)[1..] == rest;
  }

  /** A word that ends where whitespace or the text ends is the first word, and the
      words of what follows come after it. With `WordsSkipSpace` and `Words([]) == []`
      this fixes `Words` as the maximal non-whitespace runs. */
  lemma {:induction false} WordsOfWordThen(w: string, rest: string)
    requires w != [] && NoSpace(w)
    requires rest == [] || IsSpace(rest[0])
    ensures Words(w + rest) == [w] + Words(rest)
  {
    var s := w + rest;
    WordLengthOfWord(w, rest);
    assert s[0] == w[0];
    assert s[..|w|] == w;
    assert s[|w|..] == rest;
  }

  /** The words, concatenated, are exactly the non-whitespace characters of the text
      in order: splitting loses no character but whitespace and adds nothing. */
  lemma {:induction false} WordsKeepCharacters(s: string)
    ensures Concat(Words(s)) == Filter(s, NonSpace)
    decreases |s|
  {
    if s != [] {
      if IsSpace(s[0]) {
        WordsKeepCharacters(s[1..]);
      } else {
        var n := WordLength(s);
        WordsKeepCharacters(s[n..]);
        assert s == s[..n] + s[n..];
        FilterAppend(s[..n], s[n..], NonSpace);
        FilterAllTrue(s[..n], NonSpace);
        assert ([s[..n]] + Words(s[n..]))[1..] == Words(s[n..]);
      }
    }
  }

  /** Splitting words joined with single spaces gives back the same words. */
  lemma {:induction false} WordsOfJoin(ws: seq<string>)
    requires forall k :: 0 <= k < |ws| ==> ws[k] != [] && NoSpace(ws[k])
    ensures Words(Join(ws, " ")) == ws
    decreases |ws|
  {
    if |ws| == 1 {
      WordsOfWordThen(ws[0], []);
      assert ws[0] + [] == ws[0];
    } else if |ws| > 1 {
      var rest := Join(ws[1..], " ");
      assert Join(ws, " ") == ws[0] + (" " + rest);
      WordsOfWordThen(ws[0], " " + rest);
      WordsSkipSpace(' ', rest);
      WordsOfJoin(ws[1..]);
      assert ws == [ws[0]] + ws[1..];
    }
  }

  /** Collapsing keeps the words of the text. */
  lemma CollapseKeepsWords(s: string)
    ensures Words(Collapse(s)) == Words(s)
  {
    WordsOfJoin(Words(s));
  }

  /** `Collapse(s)` is the one canonical text with the words of `s`. */
  lemma CollapseUnique(s: string, t: string)
    requires Canonical(t) && Words(t) == Words(s)
    ensures t == Collapse(s)
  {
    CollapseCanonical(t);
  }

  /** A canonical string holds no line break, tab or other whitespace but ' '. */
  lemma CanonicalHasNoLineBreak(s: string)
    requires Canonical(s)
    ensures '\n' !in s && '\r' !in s
  {
    assert IsSpace('\n') && IsSpace('\r');
  }

  // ---------------------------------------------------------------------------
  // str.split(sep) and str.split(sep, 1)
  // ---------------------------------------------------------------------------

  /** Index of the first occurrence of `c` in `s`. */
  function FirstIndex(s: string, c: char): (k: nat)
    requires c in s
    ensures k < |s| && s[k] == c && c !in s[..k]
  {
    if s[0] == c then 0
    else
      var k := FirstIndex(s[1..], c);
      assert s[..k + 1] == [s[0]] + s[1..][..k];
      k + 1
  }

  /** `s.split(sep)` for a one-character separator: joining the pieces with `sep`
      gives back `s`, and no piece contains `sep`. */
  function Split(s: string, sep: char): (r: seq<string>)
    ensures |r| >= 1
    ensures forall k :: 0 <= k < |r| ==> sep !in r[k]
    ensures Join(r, [sep]) == s
    decreases |s|
  {
    if sep !in s then [s]
    else
      var k := FirstIndex(s, sep);
      var rest := Split(s[k + 1..], sep);
      assert s == s[..k] + [sep] + s[k + 1..];
      [s[..k]] + rest
  }

  /** `s.split(sep, 1)` when `sep in s`: the text before and after its first occurrence. */
  function SplitOnce(s: string, sep: char): (r: (string, string))
    requires sep in s
    ensures s == r.0 + [sep] + r.1
    ensures sep !in r.0
  {
    var k := FirstIndex(s, sep);
    assert s == s[..k] + [sep] + s[k + 1..];
    (s[..k], s[k + 1..])
  }

  /** The first occurrence of `sep` is where SplitOnce cuts. */
  lemma SplitOnceUnique(s: string, sep: char, a: string, b: string)
    requires s == a + [sep] + b && sep !in a
    ensures SplitOnce(s, sep) == (a, b)
  {
    assert s[|a|] == sep && s[..|a|] == a;
    FirstIndexAt(s, sep, |a|);
    assert s[|a| + 1..] == b;
  }

  /** A piece as Pieces produces it: non-empty, free of the separator, and with no
      whitespace at either end. */
  predicate IsPiece(x: string, sep: char)
  {
    x != [] && sep !in x && !IsSpace(x[0]) && !IsSpace(x[|x| - 1])
  }

  /** `[p.strip() for p in s.split(sep) if p.strip()]`, guarded by
      `if not s.strip(): return []`: the stripped, non-blank pieces of `s`, in order;
      the guard makes no difference. */
  function Pieces(s: string, sep: char): (r: seq<string>)
    ensures forall k :: 0 <= k < |r| ==> IsPiece(r[k], sep)
    ensures r == Filter(Map(Split(s, sep), Strip), NonBlank)
  {
    var all := Filter(Map(Split(s, sep), Strip), NonBlank);
    StrippedPieces(Split(s, sep), sep);
    if Strip(s) == [] then
      BlankTextHasNoPieces(s, sep);
      []
    else all
  }

  lemma StrippedPieces(parts: seq<string>, sep: char)
    requires forall k :: 0 <= k < |parts| ==> sep !in parts[k]
    ensures forall k :: 0 <= k < |Filter(Map(parts, Strip), NonBlank)| ==>
              IsPiece(Filter(Map(parts, Strip), NonBlank)[k], sep)
  {
    var all := Filter(Map(parts, Strip), NonBlank);
    forall k | 0 <= k < |all|
      ensures IsPiece(all[k], sep)
    {
      FilterMembership(Map(parts, Strip), NonBlank, all[k]);
      var m :| 0 <= m < |parts| && Map(parts, Strip)[m] == all[k];
      if sep in all[k] {
        StripInside(parts[m], sep);
      }
    }
  }

  /** Text that starts with a separator-free part and a separator splits into that
      part followed by the split of the rest. */
  lemma SplitCons(w: string, rest: string, sep: char)
    requires sep !in w
    ensures Split(w + [sep] + rest, sep) == [w] + Split(rest, sep)
  {
    var s := w + [sep] + rest;
    assert s[..|w|] == w && s[|w|] == sep;
    FirstIndexAt(s, sep, |w|);
    assert s[|w| + 1..] == rest;
  }

  /** Splitting joined text at the separator gives back the parts, when no part
      contains the separator. */
  lemma {:induction false} SplitJoin(parts: seq<string>, sep: char)
    requires |parts| >= 1
    requires forall k :: 0 <= k < |parts| ==> sep !in parts[k]
    ensures Split(Join(parts, [sep]), sep) == parts
  {
    if |parts| > 1 {
      SplitJoin(parts[1..], sep);
      SplitCons(parts[0], Join(parts[1..], [sep]), sep);
      assert parts == [parts[0]] + parts[1..];
    }
  }

  /** Text with no whitespace at either end is its own strip. */
  lemma StripOfStripped(s: string)
    requires s != [] ==> !IsSpace(s[0]) && !IsSpace(s[|s| - 1])
    ensures Strip(s) == s
  {
    if s != [] {
      assert LeftIndex(s) == 0;
      assert RightIndex(s) == |s|;
      assert s[0..|s|] == s;
    }
  }

  lemma MapStripOfStripped(ws: seq<string>, sep: char)
    requires forall k :: 0 <= k < |ws| ==> IsPiece(ws[k], sep)
    ensures Map(ws, Strip) == ws
  {
    forall k | 0 <= k < |ws| ensures Strip(ws[k]) == ws[k] {
      StripOfStripped(ws[k]);
    }
  }

  /** Pieces undoes joining: joining pieces with the separator and splitting again
      gives them back, so Pieces loses nothing but blanks and surrounding whitespace. */
  lemma PiecesOfJoin(ws: seq<string>, sep: char)
    requires |ws| >= 1
    requires forall k :: 0 <= k < |ws| ==> IsPiece(ws[k], sep)
    ensures Pieces(Join(ws, [sep]), sep) == ws
  {
    var s := Join(ws, [sep]);
    SplitJoin(ws, sep);
    MapStripOfStripped(ws, sep);
    FilterAllTrue(ws, NonBlank);
    calc {
      Pieces(s, sep);
      Filter(Map(Split(s, sep), Strip), NonBlank);
      Filter(Map(ws, Strip), NonBlank);
      Filter(ws, NonBlank);
      ws;
    }
  }

  predicate NonBlank(s: string)
  {
    s != []
  }

  /** The `if not s.strip()` guard in front of the comprehension changes nothing. */
  lemma BlankTextHasNoPieces(s: string, sep: char)
    requires AllSpace(s)
    ensures Filter(Map(Split(s, sep), Strip), NonBlank) == []
  {
    var parts := Split(s, sep);
    forall k | 0 <= k < |parts| ensures AllSpace(parts[k]) {
      JoinedPartsAreInside(parts, sep, k);
      forall x | x in parts[k] ensures IsSpace(x) {
        assert x in s;
      }
    }
    FilterAllFalse(Map(parts, Strip), NonBlank);
  }

  lemma {:induction false} JoinedPartsAreInside(parts: seq<string>, sep: char, k: nat)
    requires k < |parts|
    ensures forall x :: x in parts[k] ==> x in Join(parts, [sep])
  {
    if |parts| > 1 {
      if k > 0 {
        JoinedPartsAreInside(parts[1..], sep, k - 1);
      }
    }
  }

  // ---------------------------------------------------------------------------
  // lower() / upper() / casefold() and substring search
  // ---------------------------------------------------------------------------

  /** The upper-case letters the model case-maps: A-Z and Á É Í Ó Ú Ü Ñ. */
  predicate IsUpperLetter(c: char)
  {
    ('A' <= c <= 'Z') || c == '\U{C1}' || c == '\U{C9}' || c == '\U{CD}' || c == '\U{D3}' ||
    c == '\U{DA}' || c == '\U{DC}' || c == '\U{D1}'
  }

  /** The lower-case letters the model case-maps: a-z and á é í ó ú ü ñ. */
  predicate IsLowerLetter(c: char)
  {
    ('a' <= c <= 'z') || c == '\U{E1}' || c == '\U{E9}' || c == '\U{ED}' || c == '\U{F3}' ||
    c == '\U{FA}' || c == '\U{FC}' || c == '\U{F1}'
  }

  function LowerChar(c: char): (d: char)
    ensures IsUpperLetter(c) ==> IsLowerLetter(d)
    ensures !IsUpperLetter(c) ==> d == c
  {
    if IsUpperLetter(c) then (c as int + 32) as char else c
  }

  function UpperChar(c: char): (d: char)
    ensures IsLowerLetter(c) ==> IsUpperLetter(d) && LowerChar(d) == c
    ensures !IsLowerLetter(c) ==> d == c
  {
    if IsLowerLetter(c) then (c as int - 32) as char else c
  }

  /** `s.lower()` (also `s.casefold()`) over the letters above. */
  function Lower(s: string): (r: string)
    ensures |r| == |s|
    ensures forall i :: 0 <= i < |s| ==> r[i] == LowerChar(s[i])
  {
    Map(s, LowerChar)
  }

  /** `s.upper()` over the letters above. */
  function Upper(s: string): (r: string)
    ensures |r| == |s|
    ensures forall i :: 0 <= i < |s| ==> r[i] == UpperChar(s[i])
  {
    Map(s, UpperChar)
  }

  /** `needle in hay` for strings. */
  predicate Contains(hay: string, needle: string)
    decreases |hay|
  {
    needle <= hay || (hay != [] && Contains(hay[1..], needle))
  }

  // ---------------------------------------------------------------------------
  // Reading a text file: readlines() followed by rstrip("\n") on each line
  // ---------------------------------------------------------------------------

  /** `[l.rstrip("\n") for l in f.readlines()]` for file contents `s`: the text
      between line breaks, with no empty entry after a final line break. */
  function Lines(s: string): (r: seq<string>)
    ensures forall k :: 0 <= k < |r| ==> '\n' !in r[k]
    ensures s == [] <==> r == []
    decreases |s|
  {
    if s == [] then []
    else if '\n' !in s then [s]
    else
      var k := FirstIndex(s, '\n');
      [s[..k]] + Lines(s[k + 1..])
  }

  lemma FirstIndexAt(s: string, c: char, k: nat)
    requires k < |s| && s[k] == c && c !in s[..k]
    ensures FirstIndex(s, c) == k
  {
  }

  lemma LinesOfOneLine(t: string)
    requires '\n' !in t
    ensures Lines(t + "\n") == [t]
  {
    var s := t + "\n";
    assert s[..|t|] == t && s[|t|] == '\n';
    FirstIndexAt(s, '\n', |t|);
    assert s[|t| + 1..] == [];
  }

  lemma FirstLineOfLonger(a: string, b: string, k: nat)
    requires '\n' in a && k == FirstIndex(a, '\n')
    ensures Lines(a) == [a[..k]] + Lines(a[k + 1..])
    ensures Lines(a + b) == [a[..k]] + Lines(a[k + 1..] + b)
  {
    var s := a + b;
    assert s[..k] == a[..k];
    FirstIndexAt(s, '\n', k);
    assert s[k + 1..] == a[k + 1..] + b;
  }

  /** Appending one line `t` plus a line break to text that is empty or ends in a
      line break adds exactly `t` to what is read back. */
  lemma {:induction false} LinesAppendLine(a: string, t: string)
    requires a == [] || a[|a| - 1] == '\n'
    requires '\n' !in t
    ensures Lines(a + t + "\n") == Lines(a) + [t]
    decreases |a|
  {
    if a == [] {
      assert a + t + "\n" == t + "\n";
      LinesOfOneLine(t);
    } else {
      LinesStep(a, t);
    }
  }

  lemma {:induction false} LinesStep(a: string, t: string)
    requires a != [] && a[|a| - 1] == '\n'
    requires '\n' !in t
    ensures Lines(a + t + "\n") == Lines(a) + [t]
    decreases |a|, 0
  {
    assert a[|a| - 1] in a;
    var k := FirstIndex(a, '\n');
    var rest := a[k + 1..];
    SuffixEndsInBreak(a, k);
    LinesAppendLine(rest, t);
    FirstLineWithTail(a, k, t);
    ConcatAssoc([a[..k]], Lines(rest), [t]);
  }

  /** Text with a line break keeps its first line when a line is appended. */
  lemma FirstLineWithTail(a: string, k: nat, t: string)
    requires '\n' in a && k == FirstIndex(a, '\n')
    ensures Lines(a) == [a[..k]] + Lines(a[k + 1..])
    ensures Lines(a + t + "\n") == [a[..k]] + Lines(a[k + 1..] + t + "\n")
  {
    FirstLineOfLonger(a, t + "\n", k);
    ConcatAssoc(a, t, "\n");
    ConcatAssoc(a[k + 1..], t, "\n");
  }

  /** What follows any position of text ending in a line break is empty or ends in one
      too. */
  lemma SuffixEndsInBreak(a: string, k: nat)
    requires k < |a| && a[|a| - 1] == '\n'
    ensures a[k + 1..] == [] || a[k + 1..][|a[k + 1..]| - 1] == '\n'
  {
  }

  /** Lines joined with "\n" and terminated by a final "\n" read back as the same
      lines, when none of them contains a line break. */
  lemma {:induction false} LinesOfJoined(ls: seq<string>)
    requires |ls| >= 1
    requires forall k :: 0 <= k < |ls| ==> '\n' !in ls[k]
    ensures Lines(Join(ls, "\n") + "\n") == ls
    decreases |ls|
  {
    var init := ls[..|ls| - 1];
    var last := ls[|ls| - 1];
    JoinAppend(init, last, "\n");
    assert init + [last] == ls;
    if init == [] {
      LinesAppendLine([], last);
      assert Join(ls, "\n") + "\n" == [] + last + "\n";
    } else {
      LinesOfJoined(init);
      var a := Join(init, "\n") + "\n";
      assert Join(ls, "\n") + "\n" == a + last + "\n";
      LinesAppendLine(a, last);
    }
  }

  /** The line break that ends some contents, if any. */
  function FinalBreak(s: string): string
  {
    if s != [] && s[|s| - 1] == '\n' then "\n" else ""
  }

  /** Any contents are the lines read from them joined with "\n", plus the final
      line break when there is one: reading loses nothing else. */
  lemma {:induction false} LinesJoinBack(s: string)
    ensures s == Join(Lines(s), "\n") + FinalBreak(s)
    decreases |s|
  {
    if s != [] {
      if '\n' !in s {
        assert s[|s| - 1] in s;
      } else {
        var k := FirstIndex(s, '\n');
        var head, rest := s[..k], s[k + 1..];
        assert s == head + "\n" + rest;
        if rest == [] {
          assert Lines(s) == [head];
        } else {
          LinesJoinBack(rest);
          LinesJoinStep(head, rest);
        }
      }
    }
  }

  /** One step of `LinesJoinBack`: a first line, a break, and contents that read back. */
  lemma LinesJoinStep(head: string, rest: string)
    requires '\n' !in head && rest != []
    requires rest == Join(Lines(rest), "\n") + FinalBreak(rest)
    ensures head + "\n" + rest == Join(Lines(head + "\n" + rest), "\n") + FinalBreak(head + "\n" + rest)
  {
    var a := head + "\n";
    assert a[..|head|] == head && a[|head|] == '\n' && a[|head| + 1..] == [];
    FirstIndexAt(a, '\n', |head|);
    FirstLineOfLonger(a, rest, |head|);
    assert [] + rest == rest;
    JoinCons(head, Lines(rest), "\n");
    FinalBreakAppend(a, rest);
    Reassemble(head, rest, Join(Lines(rest), "\n"), FinalBreak(rest));
  }

  lemma FinalBreakAppend(a: string, b: string)
    requires b != []
    ensures FinalBreak(a + b) == FinalBreak(b)
  {
    assert (a + b)[|a + b| - 1] == b[|b| - 1];
  }

  lemma Reassemble(head: string, rest: string, j: string, fb: string)
    requires rest == j + fb
    ensures head + "\n" + rest == head + "\n" + j + fb
  {
  }

  // ---------------------------------------------------------------------------
  // Ordering and decimal text
  // ---------------------------------------------------------------------------

  /** `a < b` for Python strings: code point by code point, a proper prefix first. */
  predicate LexLess(a: string, b: string)
    decreases |a|
  {
    if a == [] then b != []
    else b != [] && (a[0] < b[0] || (a[0] == b[0] && LexLess(a[1..], b[1..])))
  }

  /** String order is a strict total order. */
  lemma {:induction false} LexLessTotal(a: string, b: string)
    ensures !LexLess(a, a)
    ensures a != b ==> LexLess(a, b) != LexLess(b, a)
    decreases |a|
  {
    if a != [] && b != [] {
      LexLessTotal(a[1..], b[1..]);
      if a[1..] == b[1..] && a[0] == b[0] {
        assert a == [a[0]] + a[1..] && b == [b[0]] + b[1..];
      }
    } else if a != [] {
      LexLessTotal(a[1..], a[1..]);
    }
  }

  lemma {:induction false} LexLessTransitive(a: string, b: string, c: string)
    requires LexLess(a, b) && LexLess(b, c)
    ensures LexLess(a, c)
    decreases |a|
  {
    if a != [] && a[0] == b[0] && b[0] == c[0] {
      LexLessTransitive(a[1..], b[1..], c[1..]);
    }
  }

  /** The digit character for 0..9. */
  function DigitChar(d: nat): (c: char)
    requires d < 10
    ensures '0' <= c <= '9'
  {
    (d + '0' as int) as char
  }

  /** `str(n)` for a non-negative int: decimal digits, no leading zero. */
  function DecimalText(n: nat): (s: string)
    ensures s != [] && forall k :: 0 <= k < |s| ==> '0' <= s[k] <= '9'
    ensures |s| > 1 ==> s[0] != '0'
    decreases n
  {
    if n < 10 then [DigitChar(n)] else DecimalText(n / 10) + [DigitChar(n % 10)]
  }

  /** `int(s)` for a string of decimal digits. */
  function DecimalValue(s: string): nat
    requires forall k :: 0 <= k < |s| ==> '0' <= s[k] <= '9'
    decreases |s|
  {
    if s == [] then 0 else 10 * DecimalValue(s[..|s| - 1]) + (s[|s| - 1] as int - '0' as int)
  }

  /** Reading the decimal text of a number gives the number back. */
  lemma {:induction false} DecimalRoundTrip(n: nat)
    ensures DecimalValue(DecimalText(n)) == n
    decreases n
  {
    if n >= 10 {
      DecimalRoundTrip(n / 10);
      var s := DecimalText(n);
      assert s[..|s| - 1] == DecimalText(n / 10);
    }
  }
}
